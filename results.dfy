/** Failure-carrying results (for the Python exceptions the scripts let
    propagate), and the two list traversals the scripts are built from: a
    loop that stops at the first exception, and a boolean mask filter. */
module Results {

  datatype Option<+T> = None | Some(value: T)

  datatype Result<+T, +E> = Success(value: T) | Failure(error: E)

  /** Applies `f` to every element together with its position, in order; the
      first failure ends the traversal, as an exception raised inside a Python
      `for` loop does. */
  function MapIndexed<T, U, E>(xs: seq<T>, f: (nat, T) -> Result<U, E>): (r: Result<seq<U>, E>)
    ensures r.Success? ==> |r.value| == |xs|
  {
    if xs == [] then Success([])
    else
      match MapIndexed(xs[..|xs| - 1], f)
      case Failure(e) => Failure(e)
      case Success(us) =>
        match f(|xs| - 1, xs[|xs| - 1])
        case Failure(e) => Failure(e)
        case Success(u) => Success(us + [u])
  }

  /** The traversal succeeds exactly when every element succeeds, and then
      element `i` of the result is what `f` made of element `i`. */
  lemma {:induction false} MapIndexedSuccess<T, U, E>(xs: seq<T>, f: (nat, T) -> Result<U, E>)
    ensures MapIndexed(xs, f).Success? <==> forall i :: 0 <= i < |xs| ==> f(i, xs[i]).Success?
    ensures MapIndexed(xs, f).Success? ==>
              forall i :: 0 <= i < |xs| ==> MapIndexed(xs, f).value[i] == f(i, xs[i]).value
  {
    if xs != [] {
      var init := xs[..|xs| - 1];
      MapIndexedSuccess(init, f);
      assert forall i :: 0 <= i < |init| ==> init[i] == xs[i];
    }
  }

  /** The error reported is that of the first element that fails. */
  lemma {:induction false} MapIndexedFirstFailure<T, U, E>(xs: seq<T>, f: (nat, T) -> Result<U, E>, k: nat)
    requires k < |xs|
    requires forall i :: 0 <= i < k ==> f(i, xs[i]).Success?
    requires f(k, xs[k]).Failure?
    ensures MapIndexed(xs, f) == Failure(f(k, xs[k]).error)
  {
    var init := xs[..|xs| - 1];
    if k == |xs| - 1 {
      MapIndexedSuccess(init, f);
    } else {
      MapIndexedFirstFailure(init, f, k);
    }
  }

  /** Once a prefix has failed, the rest of the input is never looked at. */
  lemma {:induction false} MapIndexedPrefixFailure<T, U, E>(xs: seq<T>, f: (nat, T) -> Result<U, E>, k: nat)
    requires k <= |xs|
    requires MapIndexed(xs[..k], f).Failure?
    ensures MapIndexed(xs, f) == MapIndexed(xs[..k], f)
  {
    if k < |xs| {
      assert xs[..|xs| - 1][..k] == xs[..k];
      MapIndexedPrefixFailure(xs[..|xs| - 1], f, k);
    } else {
      assert xs[..k] == xs;
    }
  }

  /** `f` applied to every element, as a loop appending `f(x)` for each `x`
      in turn builds it. */
  function MapSeq<T, U>(xs: seq<T>, f: T -> U): (ys: seq<U>)
    ensures |ys| == |xs|
    ensures forall i :: 0 <= i < |xs| ==> ys[i] == f(xs[i])
  {
    if xs == [] then []
    else
      var init := xs[..|xs| - 1];
      assert forall i :: 0 <= i < |init| ==> init[i] == xs[i];
      MapSeq(init, f) + [f(xs[|xs| - 1])]
  }

  /** One more element appends its image. */
  lemma MapSeqStep<T, U>(xs: seq<T>, f: T -> U, k: nat)
    requires k < |xs|
    ensures MapSeq(xs[..k + 1], f) == MapSeq(xs[..k], f) + [f(xs[k])]
  {
    assert xs[..k + 1][..k] == xs[..k];
  }

  /** The prefix of full length is the whole sequence. */
  lemma PrefixWhole<T>(xs: seq<T>)
    ensures xs[..|xs|] == xs
  {
  }

  /** One more successful step extends the prefix already traversed. */
  lemma MapIndexedStep<T, U, E>(xs: seq<T>, f: (nat, T) -> Result<U, E>, k: nat, us: seq<U>)
    requires k < |xs|
    requires MapIndexed(xs[..k], f) == Success(us)
    ensures f(k, xs[k]).Success? ==> MapIndexed(xs[..k + 1], f) == Success(us + [f(k, xs[k]).value])
    ensures f(k, xs[k]).Failure? ==> MapIndexed(xs[..k + 1], f) == Failure(f(k, xs[k]).error)
  {
    assert xs[..k + 1][..k] == xs[..k];
  }

  /** The elements of `xs` that `keep` selects, in their original order, as
      a boolean mask `df[mask]` does. */
  function Filter<T(!new)>(xs: seq<T>, keep: T -> bool): (r: seq<T>)
    ensures |r| <= |xs|
    ensures forall i :: 0 <= i < |r| ==> keep(r[i])
  {
    if xs == [] then []
    else
      var rest := Filter(xs[1..], keep);
      if keep(xs[0]) then [xs[0]] + rest else rest
  }

  /** Every selected element is kept as often as it occurs, and no other. */
  lemma {:induction false} FilterMultiset<T(!new)>(xs: seq<T>, keep: T -> bool)
    ensures forall x :: multiset(Filter(xs, keep))[x] == if keep(x) then multiset(xs)[x] else 0
  {
    if xs != [] {
      var rest := xs[1..];
      FilterMultiset(rest, keep);
      assert xs == [xs[0]] + rest;
      assert multiset(xs) == multiset{xs[0]} + multiset(rest);
      FilterCons(xs[0], rest, keep);
    }
  }

  /** The mask keeps the order of the elements: filtering two pieces one
      after the other is filtering their concatenation. */
  lemma {:induction false} FilterConcat<T(!new)>(xs: seq<T>, ys: seq<T>, keep: T -> bool)
    ensures Filter(xs + ys, keep) == Filter(xs, keep) + Filter(ys, keep)
  {
    if xs == [] {
      assert xs + ys == ys;
    } else {
      var x, rest := xs[0], xs[1..];
      FilterConcat(rest, ys, keep);
      assert xs == [x] + rest;
      assert xs + ys == [x] + (rest + ys);
      FilterCons(x, rest + ys, keep);
      FilterCons(x, rest, keep);
    }
  }

  /** One unfolding of `Filter` at the first element. */
  lemma FilterCons<T(!new)>(x: T, xs: seq<T>, keep: T -> bool)
    ensures Filter([x] + xs, keep) == (if keep(x) then [x] else []) + Filter(xs, keep)
  {
    assert ([x] + xs)[0] == x && ([x] + xs)[1..] == xs;
  }

  /** The positions of `xs` the mask selects. */
  function Selected<T>(xs: seq<T>, keep: T -> bool): set<int>
  {
    set k | 0 <= k < |xs| && keep(xs[k])
  }

  /** The mask keeps one element per position it selects. */
  lemma {:induction false} FilterCount<T(!new)>(xs: seq<T>, keep: T -> bool)
    ensures |Filter(xs, keep)| == |Selected(xs, keep)|
  {
    if xs != [] {
      var n := |xs| - 1;
      var init := xs[..n];
      FilterCount(init, keep);
      assert xs == init + [xs[n]];
      FilterConcat(init, [xs[n]], keep);
      FilterSingle(xs[n], keep);
      SelectedSnoc(init, xs[n], keep);
    }
  }

  lemma FilterSingle<T(!new)>(x: T, keep: T -> bool)
    ensures Filter([x], keep) == if keep(x) then [x] else []
  {
    assert [x][1..] == [];
  }

  /** One more element adds its position when the mask selects it. */
  lemma SelectedSnoc<T>(xs: seq<T>, x: T, keep: T -> bool)
    ensures |Selected(xs + [x], keep)| == |Selected(xs, keep)| + if keep(x) then 1 else 0
  {
    var n := |xs|;
    var ys := xs + [x];
    assert forall k :: 0 <= k < n ==> ys[k] == xs[k];
    if keep(x) {
      assert Selected(ys, keep) == Selected(xs, keep) + {n};
    } else {
      assert Selected(ys, keep) == Selected(xs, keep);
    }
  }

  /** Nothing the mask selects is dropped. */
  lemma {:induction false} FilterKeeps<T(!new)>(xs: seq<T>, keep: T -> bool, i: nat)
    requires i < |xs| && keep(xs[i])
    ensures xs[i] in Filter(xs, keep)
  {
    if i > 0 {
      FilterKeeps(xs[1..], keep, i - 1);
    }
  }

  /** A mask that selects nothing leaves nothing. */
  lemma {:induction false} FilterNone<T(!new)>(xs: seq<T>, keep: T -> bool)
    requires forall i :: 0 <= i < |xs| ==> !keep(xs[i])
    ensures Filter(xs, keep) == []
  {
    if xs != [] {
      FilterNone(xs[1..], keep);
    }
  }

  /** A weaker mask keeps at least as many elements. */
  lemma {:induction false} FilterWeaker<T(!new)>(xs: seq<T>, p: T -> bool, q: T -> bool)
    requires forall i :: 0 <= i < |xs| ==> p(xs[i]) ==> q(xs[i])
    ensures |Filter(xs, p)| <= |Filter(xs, q)|
  {
    if xs != [] {
      FilterWeaker(xs[1..], p, q);
    }
  }
}
