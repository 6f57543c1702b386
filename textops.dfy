/** The Python string and list operations the scripts apply to each line of
    a memory file: `str.strip()`, `str.split(',')`, `''.join(...)`,
    `list.reverse()` and the fixed-width slicing comprehension. Strings are
    sequences of characters; nothing here reads a file. */
module TextOps {

  /** Python's `str.isspace()` for one character: the ASCII whitespace and
      separator controls, NEL, NO-BREAK SPACE and the Unicode space
      separators. */
  predicate IsSpace(c: char)
  {
    var n := c as int;
    || n == 0x20 || 0x09 <= n <= 0x0D || 0x1C <= n <= 0x1F
    || n == 0x85 || n == 0xA0 || n == 0x1680 || 0x2000 <= n <= 0x200A
    || n == 0x2028 || n == 0x2029 || n == 0x202F || n == 0x205F || n == 0x3000
  }

  predicate NoSpace(s: string)
  {
    forall k :: 0 <= k < |s| ==> !IsSpace(s[k])
  }

  /** Number of whitespace characters that open `s`. */
  function LeadingSpaces(s: string): (n: nat)
    ensures n <= |s|
    ensures forall k :: 0 <= k < n ==> IsSpace(s[k])
    ensures n < |s| ==> !IsSpace(s[n])
  {
    if s == [] || !IsSpace(s[0]) then 0 else 1 + LeadingSpaces(s[1..])
  }

  /** Number of whitespace characters that close `s`. */
  function TrailingSpaces(s: string): (n: nat)
    ensures n <= |s|
    ensures forall k :: |s| - n <= k < |s| ==> IsSpace(s[k])
    ensures n < |s| ==> !IsSpace(s[|s| - 1 - n])
  {
    if s == [] || !IsSpace(s[|s| - 1]) then 0 else 1 + TrailingSpaces(s[..|s| - 1])
  }

  /** `s.strip()`: the window of `s` left once the whitespace at both ends is
      cut away. */
  function Strip(s: string): (r: string)
    ensures |r| <= |s|
    ensures r == [] || (!IsSpace(r[0]) && !IsSpace(r[|r| - 1]))
    ensures LeadingSpaces(s) + |r| <= |s|
    ensures r == s[LeadingSpaces(s)..LeadingSpaces(s) + |r|]
    ensures forall k :: 0 <= k < LeadingSpaces(s) ==> IsSpace(s[k])
    ensures forall k :: LeadingSpaces(s) + |r| <= k < |s| ==> IsSpace(s[k])
  {
    var lead := LeadingSpaces(s);
    if lead == |s| then []
    else
      var trail := TrailingSpaces(s);
      assert !IsSpace(s[lead]);
      s[lead..|s| - trail]
  }

  /** A line that is its own content followed only by whitespace (the line
      terminator kept by `readlines()`) strips to that content, when the
      content holds no whitespace at all. */
  lemma StripPadded(body: string, tail: string)
    requires NoSpace(body)
    requires forall k :: 0 <= k < |tail| ==> IsSpace(tail[k])
    ensures Strip(body + tail) == body
  {
    var s := body + tail;
    if body == [] {
      assert s == tail;
      assert LeadingSpaces(s) == |s|;
    } else {
      assert !IsSpace(s[0]);
      assert LeadingSpaces(s) == 0;
      var r := Strip(s);
      assert r == s[..|r|];
      // The last character of the body is kept ...
      assert !IsSpace(s[|body| - 1]);
      assert |body| <= |r|;
      // ... and nothing of the tail is.
      assert forall k :: |body| <= k < |s| ==> IsSpace(s[k]);
      assert !IsSpace(s[|r| - 1]);
      assert |r| <= |body|;
      assert s[..|body|] == body;
    }
  }

  /** Number of occurrences of `c` in `s`. */
  function Occurrences(s: string, c: char): (n: nat)
    ensures n <= |s|
    ensures n == 0 <==> c !in s
  {
    if s == [] then 0 else (if s[0] == c then 1 else 0) + Occurrences(s[1..], c)
  }

  /** `sep.join(fields)`: one separator between consecutive fields, so the
      joined text is longer than the fields by one less than their number. */
  function Join(fields: seq<string>, sep: char): (r: string)
    ensures |fields| >= 1 ==> |r| == |Concat(fields)| + |fields| - 1
  {
    if fields == [] then ""
    else if |fields| == 1 then fields[0]
    else fields[0] + [sep] + Join(fields[1..], sep)
  }

  /** `s.split(sep)`: the fields between the separators, empty ones
      included, so that there is always at least one field. */
  function Split(s: string, sep: char): (fields: seq<string>)
    ensures |fields| == Occurrences(s, sep) + 1
  {
    if s == [] then [""]
    else
      var rest := Split(s[1..], sep);
      if s[0] == sep then [""] + rest
      else [[s[0]] + rest[0]] + rest[1..]
  }

  /** No field of a split holds the separator. */
  lemma {:induction false} SplitFieldsFree(s: string, sep: char)
    ensures forall i :: 0 <= i < |Split(s, sep)| ==> sep !in Split(s, sep)[i]
  {
    if s != [] {
      var c, tail := s[0], s[1..];
      var rest := Split(tail, sep);
      SplitFieldsFree(tail, sep);
      assert s == [c] + tail;
      SplitFront(c, tail, sep);
      var fields := Split(s, sep);
      if c != sep {
        assert fields[0] == [c] + rest[0];
        assert forall i :: 1 <= i < |fields| ==> fields[i] == rest[i];
      }
    }
  }

  /** Joining the fields of a split on the same separator gives the text
      back. */
  lemma {:induction false} JoinSplit(s: string, sep: char)
    ensures Join(Split(s, sep), sep) == s
  {
    if s != [] {
      var c, tail := s[0], s[1..];
      var rest := Split(tail, sep);
      JoinSplit(tail, sep);
      assert s == [c] + tail;
      SplitFront(c, tail, sep);
      if c == sep {
        JoinCons("", rest, sep);
      } else if |rest| == 1 {
        assert Split(s, sep) == [[c] + rest[0]];
      } else {
        JoinCons(rest[0], rest[1..], sep);
        assert rest == [rest[0]] + rest[1..];
        JoinCons([c] + rest[0], rest[1..], sep);
      }
    }
  }

  /** The first field of a split is the text up to the first separator. */
  lemma SplitHead(s: string, sep: char)
    ensures var head := Split(s, sep)[0];
            && |head| <= |s| && s[..|head|] == head && sep !in head
            && (|head| == |s| || s[|head|] == sep)
  {
    var fields := Split(s, sep);
    JoinSplit(s, sep);
    SplitFieldsFree(s, sep);
    if |fields| > 1 {
      assert Join(fields, sep) == fields[0] + ([sep] + Join(fields[1..], sep));
      assert s[|fields[0]|] == sep;
    }
  }

  /** One more field in front adds it and a separator. */
  lemma JoinCons(field: string, fields: seq<string>, sep: char)
    requires fields != []
    ensures Join([field] + fields, sep) == field + [sep] + Join(fields, sep)
  {
    assert ([field] + fields)[1..] == fields;
  }

  /** Splitting undoes joining when no field holds the separator. */
  lemma {:induction false} SplitJoin(fields: seq<string>, sep: char)
    requires |fields| >= 1
    requires forall i :: 0 <= i < |fields| ==> sep !in fields[i]
    ensures Split(Join(fields, sep), sep) == fields
  {
    if |fields| == 1 {
      SplitNoSeparator(fields[0], sep);
    } else {
      var tail := Join(fields[1..], sep);
      SplitJoin(fields[1..], sep);
      SplitConsField(fields[0], tail, sep);
      assert fields == [fields[0]] + fields[1..];
    }
  }

  /** Text without the separator is a single field. */
  lemma {:induction false} SplitNoSeparator(s: string, sep: char)
    requires sep !in s
    ensures Split(s, sep) == [s]
  {
    if s != [] {
      SplitNoSeparator(s[1..], sep);
      assert s == [s[0]] + s[1..];
    }
  }

  /** A field followed by the separator splits off as the first field. */
  lemma {:induction false} SplitConsField(field: string, rest: string, sep: char)
    requires sep !in field
    ensures Split(field + [sep] + rest, sep) == [field] + Split(rest, sep)
  {
    if field == [] {
      assert field + [sep] + rest == [sep] + rest;
      SplitFront(sep, rest, sep);
    } else {
      var s := field + [sep] + rest;
      assert s == [field[0]] + (field[1..] + [sep] + rest);
      SplitConsField(field[1..], rest, sep);
      SplitFront(field[0], field[1..] + [sep] + rest, sep);
      assert [field[0]] + field[1..] == field;
    }
  }

  /** One unfolding of `Split` at the first character. */
  lemma SplitFront(c: char, s: string, sep: char)
    ensures var rest := Split(s, sep);
            Split([c] + s, sep) == if c == sep then [""] + rest else [[c] + rest[0]] + rest[1..]
  {
    assert ([c] + s)[1..] == s;
  }

  /** `''.join(parts)`. */
  function Concat(parts: seq<string>): string
  {
    if parts == [] then "" else parts[0] + Concat(parts[1..])
  }

  lemma {:induction false} ConcatAppend(xs: seq<string>, ys: seq<string>)
    ensures Concat(xs + ys) == Concat(xs) + Concat(ys)
  {
    if xs != [] {
      ConcatAppend(xs[1..], ys);
      assert (xs + ys)[0] == xs[0];
      assert (xs + ys)[1..] == xs[1..] + ys;
      calc {
        Concat(xs + ys);
        xs[0] + Concat(xs[1..] + ys);
        xs[0] + (Concat(xs[1..]) + Concat(ys));
        (xs[0] + Concat(xs[1..])) + Concat(ys);
      }
    } else {
      assert xs + ys == ys;
    }
  }

  /** Writing one more part appends it to the text. */
  lemma ConcatSnoc(xs: seq<string>, x: string)
    ensures Concat(xs + [x]) == Concat(xs) + x
  {
    ConcatAppend(xs, [x]);
    assert Concat([x]) == x + Concat([]);
  }

  /** The list reversed, as `list.reverse()` leaves it. */
  function Reverse<T>(xs: seq<T>): (r: seq<T>)
    ensures |r| == |xs|
    ensures forall i :: 0 <= i < |xs| ==> r[i] == xs[|xs| - 1 - i]
  {
    if xs == [] then [] else Reverse(xs[1..]) + [xs[0]]
  }

  lemma ReverseFour<T>(a: T, b: T, c: T, d: T)
    ensures Reverse([a, b, c, d]) == [d, c, b, a]
  {
    var xs := [a, b, c, d];
    assert Reverse(xs) == [xs[3], xs[2], xs[1], xs[0]];
  }

  lemma ReverseReverse<T>(xs: seq<T>)
    ensures Reverse(Reverse(xs)) == xs
  {
  }

  /** Reversing a list leaves the total length of its strings unchanged. */
  lemma {:induction false} ConcatReverseLength(parts: seq<string>)
    ensures |Concat(Reverse(parts))| == |Concat(parts)|
  {
    if parts != [] {
      ConcatReverseLength(parts[1..]);
      assert Reverse(parts) == Reverse(parts[1..]) + [parts[0]];
      ConcatAppend(Reverse(parts[1..]), [parts[0]]);
    }
  }

  /** The comprehension `[s[i:i+w] for i in range(0, len(s), w)]`:
      consecutive slices of width `w`, the last one possibly shorter. */
  function Chunks(s: string, w: nat): (cs: seq<string>)
    requires w > 0
    ensures forall k :: 0 <= k < |cs| ==> 0 < |cs[k]| <= w
    ensures forall k :: 0 <= k < |cs| - 1 ==> |cs[k]| == w
  {
    if s == [] then []
    else if |s| <= w then [s]
    else [s[..w]] + Chunks(s[w..], w)
  }

  /** Gluing the chunks back together gives the text that was cut. */
  lemma {:induction false} ChunksConcat(s: string, w: nat)
    requires w > 0
    ensures Concat(Chunks(s, w)) == s
  {
    if |s| > w {
      ChunksConcat(s[w..], w);
      assert s[..w] + s[w..] == s;
    } else if s != [] {
      assert Concat([s]) == s + Concat([]);
    }
  }

  /** There are `ceil(|s| / w)` chunks, one per step of `range(0, len(s), w)`. */
  lemma {:induction false} ChunksCount(s: string, w: nat)
    requires w > 0
    ensures |Chunks(s, w)| == (|s| + w - 1) / w
  {
    if s == [] {
    } else if |s| <= w {
      assert (|s| + w - 1) / w == 1 by {
        assert w <= |s| + w - 1 < 2 * w;
      }
    } else {
      ChunksCount(s[w..], w);
      DivStep(|s| - w + w - 1, w);
    }
  }

  lemma MulAtLeast(w: nat, x: int)
    requires x >= 1
    ensures w * x >= w
  {
    assert w * x == w * (x - 1) + w;
  }

  lemma DivStep(a: nat, w: nat)
    requires w > 0
    ensures (a + w) / w == a / w + 1
  {
    var q, r := a / w, a % w;
    var q2, r2 := (a + w) / w, (a + w) % w;
    assert a == w * q + r;
    assert a + w == w * q2 + r2;
    var x := q2 - q - 1;
    assert w * x == r - r2;
    if x >= 1 { MulAtLeast(w, x); }
    if x <= -1 { MulAtLeast(w, -x); }
  }

  /** The `k`-th value of `range(0, len(s), w)`. */
  function ChunkStart(k: nat, w: nat): (i: nat)
    ensures i == k * w
  {
    if k == 0 then 0 else ChunkStart(k - 1, w) + w
  }

  /** Where the slice `s[i:i+w]` starting at chunk `k` ends, once clamped. */
  function ChunkEnd(k: nat, w: nat, n: nat): nat
  {
    if ChunkStart(k, w) + w <= n then ChunkStart(k, w) + w else n
  }

  lemma SliceOfSuffix(s: string, w: nat, lo: nat, hi: nat)
    requires w <= |s| && lo <= hi <= |s| - w
    ensures s[w..][lo..hi] == s[lo + w..hi + w]
  {
  }

  /** Chunk `k` is the slice `s[k*w : k*w+w]`, clamped at the end of `s`. */
  lemma {:induction false} ChunkAt(s: string, w: nat, k: nat)
    requires w > 0 && k < |Chunks(s, w)|
    ensures k * w < |s|
    ensures Chunks(s, w)[k] == s[ChunkStart(k, w) .. ChunkEnd(k, w, |s|)]
  {
    if k > 0 {
      assert |s| > w;
      var t := s[w..];
      assert Chunks(s, w)[k] == Chunks(t, w)[k - 1];
      ChunkAt(t, w, k - 1);
      var j := ChunkStart(k - 1, w);
      var hi := ChunkEnd(k - 1, w, |t|);
      assert ChunkEnd(k, w, |s|) == hi + w;
      assert ChunkStart(k, w) == j + w;
      SliceOfSuffix(s, w, j, hi);
    }
  }

  /** Chunking the concatenation of full-width pieces gives the pieces back. */
  lemma {:induction false} ChunksOfConcat(parts: seq<string>, w: nat)
    requires w > 0
    requires forall i :: 0 <= i < |parts| ==> |parts[i]| == w
    ensures Chunks(Concat(parts), w) == parts
  {
    if parts != [] {
      var s := Concat(parts);
      ChunksOfConcat(parts[1..], w);
      assert parts[0] + Concat(parts[1..]) == s;
      if |parts| == 1 {
        assert s == parts[0];
      } else {
        assert s[..w] == parts[0];
        assert s[w..] == Concat(parts[1..]);
        assert |s| > w;
      }
    }
  }
}
