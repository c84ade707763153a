/** Strings as the builder uses them: joining a list of parts with a
    separator (JavaScript's Array.prototype.join on strings) and counting
    occurrences of one character (the `?` placeholders). */
module Text {

  /** `parts.join(sep)`: the empty list gives "", one part gives that part,
      otherwise the parts in order with `sep` between neighbours, so the
      text opens with the first part. */
  function Join(parts: seq<string>, sep: string): (r: string)
    ensures parts != [] ==> parts[0] <= r
  {
    if |parts| == 0 then ""
    else if |parts| == 1 then parts[0]
    else parts[0] + sep + Join(parts[1..], sep)
  }

  /** Sum of the lengths of the parts. */
  function TotalLength(parts: seq<string>): nat
  {
    if parts == [] then 0 else |parts[0]| + TotalLength(parts[1..])
  }

  /** Where part `i` starts in `Join(parts, sep)`: every earlier part and one
      separator after each of them. */
  function PartStart(parts: seq<string>, sep: string, i: nat): nat
    requires i <= |parts|
  {
    if i == 0 then 0 else |parts[0]| + |sep| + PartStart(parts[1..], sep, i - 1)
  }

  /** Number of occurrences of `c` in `s`. */
  function Count(s: string, c: char): nat
  {
    if s == [] then 0 else (if s[0] == c then 1 else 0) + Count(s[1..], c)
  }

  /** Counting distributes over concatenation. */
  lemma {:induction false} CountConcat(a: string, b: string, c: char)
    ensures Count(a + b, c) == Count(a, c) + Count(b, c)
  {
    if a == [] {
      assert a + b == b;
    } else {
      assert (a + b)[1..] == a[1..] + b;
      CountConcat(a[1..], b, c);
    }
  }

  /** A string without `c` holds no occurrence of it. */
  lemma {:induction false} CountAbsent(s: string, c: char)
    requires c !in s
    ensures Count(s, c) == 0
  {
    if s != [] {
      assert s[0] in s;
      assert forall k :: 0 <= k < |s| - 1 ==> s[1..][k] == s[k + 1];
      CountAbsent(s[1..], c);
    }
  }

  /** Occurrences of `c` summed over all parts. */
  function SumCount(parts: seq<string>, c: char): nat
  {
    if parts == [] then 0 else Count(parts[0], c) + SumCount(parts[1..], c)
  }

  /** The joined text is as long as its parts plus one separator between
      each pair of neighbours. */
  lemma {:induction false} JoinLength(parts: seq<string>, sep: string)
    ensures |Join(parts, sep)| == TotalLength(parts) + (if parts == [] then 0 else (|parts| - 1) * |sep|)
  {
    if |parts| == 1 {
      assert parts[1..] == [];
    } else if |parts| > 1 {
      JoinLength(parts[1..], sep);
    }
  }

  /** Consecutive offsets differ by one part and one separator. */
  lemma {:induction false} PartStartNext(parts: seq<string>, sep: string, i: nat)
    requires i < |parts|
    ensures PartStart(parts, sep, i + 1) == PartStart(parts, sep, i) + |parts[i]| + |sep|
  {
    if i > 0 {
      PartStartNext(parts[1..], sep, i - 1);
    }
  }

  /** Element-wise description of Join: part `i` sits at `PartStart(parts, sep, i)`
      and the last part ends the text. With JoinSepAt and JoinLength this pins the joined
      text down completely, independently of how Join is computed. */
  lemma {:induction false} JoinAt(parts: seq<string>, sep: string, i: nat)
    requires i < |parts|
    ensures PartStart(parts, sep, i) + |parts[i]| <= |Join(parts, sep)|
    ensures Join(parts, sep)[PartStart(parts, sep, i)..PartStart(parts, sep, i) + |parts[i]|] == parts[i]
    ensures i + 1 == |parts| ==> PartStart(parts, sep, i) + |parts[i]| == |Join(parts, sep)|
  {
    if i == 0 {
      assert parts[0] <= Join(parts, sep);
    } else {
      JoinAt(parts[1..], sep, i - 1);
      JoinAtNext(parts, sep, i);
    }
  }

  /** JoinAt for a part known by another name. */
  lemma JoinAtPart(parts: seq<string>, sep: string, i: nat, part: string)
    requires i < |parts| && parts[i] == part
    ensures PartStart(parts, sep, i) + |part| <= |Join(parts, sep)|
    ensures Join(parts, sep)[PartStart(parts, sep, i)..PartStart(parts, sep, i) + |part|] == part
  {
    JoinAt(parts, sep, i);
  }

  /** JoinAt and JoinSepAt for a joined text behind a fixed prefix: the
      prefix opens the text, part `i` follows it at its offset, the
      separator follows part `i`, and the last part ends the text. */
  lemma PrefixedJoinAt(prefix: string, parts: seq<string>, sep: string, i: nat)
    requires i < |parts|
    ensures (prefix + Join(parts, sep))[..|prefix|] == prefix
    ensures |prefix| + PartStart(parts, sep, i) + |parts[i]| <= |prefix + Join(parts, sep)|
    ensures (prefix + Join(parts, sep))[|prefix| + PartStart(parts, sep, i)..|prefix| + PartStart(parts, sep, i) + |parts[i]|]
         == parts[i]
    ensures i + 1 < |parts| ==>
              |prefix| + PartStart(parts, sep, i + 1) <= |prefix + Join(parts, sep)|
              && PartStart(parts, sep, i) + |parts[i]| <= PartStart(parts, sep, i + 1)
              && (prefix + Join(parts, sep))[|prefix| + PartStart(parts, sep, i) + |parts[i]|..|prefix| + PartStart(parts, sep, i + 1)]
                 == sep
    ensures i + 1 == |parts| ==> |prefix| + PartStart(parts, sep, i) + |parts[i]| == |prefix + Join(parts, sep)|
  {
    var body := Join(parts, sep);
    var n := |prefix|;
    var o := PartStart(parts, sep, i);
    SliceBefore(prefix, body);
    JoinAt(parts, sep, i);
    SliceAfter(prefix, body, n + o, n + o + |parts[i]|);
    if i + 1 < |parts| {
      JoinSepAt(parts, sep, i);
      SliceAfter(prefix, body, n + o + |parts[i]|, n + PartStart(parts, sep, i + 1));
    }
  }

  /** Part `i` of the list is part `i - 1` of its tail, moved along by the
      first part and one separator. */
  lemma JoinAtNext(parts: seq<string>, sep: string, i: nat)
    requires 0 < i < |parts|
    requires PartStart(parts[1..], sep, i - 1) + |parts[i]| <= |Join(parts[1..], sep)|
    requires Join(parts[1..], sep)[PartStart(parts[1..], sep, i - 1)..PartStart(parts[1..], sep, i - 1) + |parts[i]|]
          == parts[i]
    ensures PartStart(parts, sep, i) + |parts[i]| <= |Join(parts, sep)|
    ensures Join(parts, sep)[PartStart(parts, sep, i)..PartStart(parts, sep, i) + |parts[i]|] == parts[i]
  {
    var head := parts[0] + sep;
    var rest := Join(parts[1..], sep);
    var o := PartStart(parts[1..], sep, i - 1);
    assert Join(parts, sep) == head + rest;
    assert PartStart(parts, sep, i) == |head| + o;
    SliceAfter(head, rest, |head| + o, |head| + o + |parts[i]|);
  }

  /** Between part `i` and part `i + 1` the joined text holds exactly `sep`. */
  lemma {:induction false} JoinSepAt(parts: seq<string>, sep: string, i: nat)
    requires i + 1 < |parts|
    ensures PartStart(parts, sep, i + 1) == PartStart(parts, sep, i) + |parts[i]| + |sep|
    ensures PartStart(parts, sep, i + 1) <= |Join(parts, sep)|
    ensures Join(parts, sep)[PartStart(parts, sep, i) + |parts[i]|..PartStart(parts, sep, i + 1)] == sep
  {
    PartStartNext(parts, sep, i);
    JoinAt(parts, sep, i + 1);
    if i == 0 {
      JoinSepFirst(parts, sep);
    } else {
      JoinSepAt(parts[1..], sep, i - 1);
      JoinSepNext(parts, sep, i);
    }
  }

  /** The first separator follows the first part. */
  lemma JoinSepFirst(parts: seq<string>, sep: string)
    requires 1 < |parts|
    ensures |parts[0]| + |sep| <= |Join(parts, sep)|
    ensures Join(parts, sep)[|parts[0]|..|parts[0]| + |sep|] == sep
  {
    var head := parts[0];
    var rest := sep + Join(parts[1..], sep);
    assert Join(parts, sep) == head + rest;
    SliceAfter(head, rest, |head|, |head| + |sep|);
    SliceBefore(sep, Join(parts[1..], sep));
  }

  /** Separator `i` of the list is separator `i - 1` of its tail, moved
      along by the first part and one separator. */
  lemma JoinSepNext(parts: seq<string>, sep: string, i: nat)
    requires 0 < i && i + 1 < |parts|
    requires PartStart(parts[1..], sep, i) <= |Join(parts[1..], sep)|
    requires PartStart(parts[1..], sep, i - 1) + |parts[i]| <= PartStart(parts[1..], sep, i)
    requires Join(parts[1..], sep)[PartStart(parts[1..], sep, i - 1) + |parts[i]|..PartStart(parts[1..], sep, i)]
          == sep
    ensures PartStart(parts, sep, i) + |parts[i]| <= PartStart(parts, sep, i + 1) <= |Join(parts, sep)|
    ensures Join(parts, sep)[PartStart(parts, sep, i) + |parts[i]|..PartStart(parts, sep, i + 1)] == sep
  {
    var head := parts[0] + sep;
    var rest := Join(parts[1..], sep);
    var a := PartStart(parts[1..], sep, i - 1) + |parts[i]|;
    var b := PartStart(parts[1..], sep, i);
    assert Join(parts, sep) == head + rest;
    assert PartStart(parts, sep, i) == |head| + PartStart(parts[1..], sep, i - 1);
    assert PartStart(parts, sep, i + 1) == |head| + b;
    SliceAfter(head, rest, |head| + a, |head| + b);
  }

  /** The first half of a concatenation. */
  lemma SliceBefore(a: string, b: string)
    ensures (a + b)[0..|a|] == a
  {
  }

  /** A slice lying wholly in the second half of a concatenation. */
  lemma SliceAfter(a: string, b: string, lo: nat, hi: nat)
    requires |a| <= lo <= hi <= |a| + |b|
    ensures (a + b)[lo..hi] == b[lo - |a|..hi - |a|]
  {
    assert forall k :: 0 <= k < hi - lo ==> (a + b)[lo..hi][k] == b[lo - |a|..hi - |a|][k];
  }

  /** Appending one part to the list extends the joined text by one
      separator and that part (no separator when the list was empty). */
  lemma {:induction false} JoinSnoc(parts: seq<string>, sep: string, last: string)
    ensures Join(parts + [last], sep) == if parts == [] then last else Join(parts, sep) + sep + last
  {
    if |parts| == 1 {
      assert (parts + [last])[1..] == [last];
    } else if |parts| > 1 {
      assert (parts + [last])[1..] == parts[1..] + [last];
      JoinSnoc(parts[1..], sep, last);
    }
  }

  /** Occurrences of `c` in the joined text: those in the parts plus those in
      each of the `|parts| - 1` separators. */
  lemma {:induction false} CountJoin(parts: seq<string>, sep: string, c: char)
    ensures Count(Join(parts, sep), c)
         == SumCount(parts, c) + (if parts == [] then 0 else (|parts| - 1) * Count(sep, c))
  {
    if |parts| == 1 {
      assert parts[1..] == [];
    } else if |parts| > 1 {
      CountJoin(parts[1..], sep, c);
      CountConcat(parts[0], sep, c);
      CountConcat(parts[0] + sep, Join(parts[1..], sep), c);
    }
  }

  /** Parts none of which contains `c`. */
  predicate Lacks(parts: seq<string>, c: char)
  {
    forall i :: 0 <= i < |parts| ==> c !in parts[i]
  }

  /** Parts that do not contain `c` contribute no occurrence of it. */
  lemma {:induction false} SumCountLacks(parts: seq<string>, c: char)
    requires Lacks(parts, c)
    ensures SumCount(parts, c) == 0
  {
    if parts != [] {
      CountAbsent(parts[0], c);
      SumCountLacks(parts[1..], c);
    }
  }

  /** Joining parts and a separator that all lack `c` gives a text without `c`. */
  lemma {:induction false} JoinLacks(parts: seq<string>, sep: string, c: char)
    requires Lacks(parts, c) && c !in sep
    ensures c !in Join(parts, sep)
  {
    if |parts| > 1 {
      assert Lacks(parts[1..], c) by {
        assert forall i :: 0 <= i < |parts| - 1 ==> parts[1..][i] == parts[i + 1];
      }
      JoinLacks(parts[1..], sep, c);
    }
  }
}
