/**
 * The compose engine: the composed document is the plots' texts joined in
 * order with a fixed separator, as Rust's `[&str]::join` does.
 */
module Compose {
  import opened Text

  /** `"\n\n---\n\n"` in UTF-8. */
  const Separator: Bytes := [10, 10, 45, 45, 45, 10, 10]

  /** `parts.join(sep)`: no separator before the first part or after the last. */
  function Join(parts: seq<Bytes>, sep: Bytes): (r: Bytes)
    ensures |parts| > 0 ==> |parts[0]| <= |r| && r[..|parts[0]|] == parts[0]
    decreases |parts|
  {
    if |parts| == 0 then []
    else if |parts| == 1 then parts[0]
    else parts[0] + (sep + Join(parts[1..], sep))
  }

  /** The total length of the parts. */
  function TotalLength(parts: seq<Bytes>): nat
    decreases |parts|
  {
    if |parts| == 0 then 0 else |parts[0]| + TotalLength(parts[1..])
  }

  /** Where part `k` starts in `Join(parts, sep)`: after each earlier part and its separator. */
  function Offset(parts: seq<Bytes>, sep: Bytes, k: nat): nat
    requires k <= |parts|
    decreases k
  {
    if k == 0 then 0 else Offset(parts, sep, k - 1) + |parts[k - 1]| + |sep|
  }

  /** The joined text holds every part and exactly one separator between neighbours. */
  lemma {:induction false} JoinLength(parts: seq<Bytes>, sep: Bytes)
    requires |parts| > 0
    ensures |Join(parts, sep)| == TotalLength(parts) + (|parts| - 1) * |sep|
    decreases |parts|
  {
    if |parts| > 1 {
      JoinLength(parts[1..], sep);
    }
  }

  /** Appending a part appends one separator and that part. */
  lemma {:induction false} JoinAppend(parts: seq<Bytes>, x: Bytes, sep: Bytes)
    requires |parts| > 0
    ensures Join(parts + [x], sep) == Join(parts, sep) + (sep + x)
    decreases |parts|
  {
    if |parts| == 1 {
      assert (parts + [x])[1..] == [x];
    } else {
      assert (parts + [x])[1..] == parts[1..] + [x];
      JoinAppend(parts[1..], x, sep);
    }
  }

  /** Offsets computed over the tail are shifted by the first part and one separator. */
  lemma {:induction false} OffsetShift(parts: seq<Bytes>, sep: Bytes, k: nat)
    requires 0 < k <= |parts|
    ensures Offset(parts, sep, k) == |parts[0]| + |sep| + Offset(parts[1..], sep, k - 1)
    decreases k
  {
    if k > 1 {
      OffsetShift(parts, sep, k - 1);
    }
  }

  /** A slice that lies past `a` in `a + b` is a slice of `b`. */
  lemma SliceRight(a: Bytes, b: Bytes, i: nat, j: nat)
    requires |a| <= i <= j <= |a| + |b|
    ensures (a + b)[i..j] == b[i - |a|..j - |a|]
  {
  }

  /** A slice of the joined tail is found past the first part and its separator. */
  lemma JoinTailSlice(parts: seq<Bytes>, sep: Bytes, x: nat, y: nat)
    requires |parts| > 1
    requires x <= y <= |Join(parts[1..], sep)|
    ensures |Join(parts, sep)| == |parts[0]| + |sep| + |Join(parts[1..], sep)|
    ensures Join(parts, sep)[|parts[0]| + |sep| + x..|parts[0]| + |sep| + y] == Join(parts[1..], sep)[x..y]
  {
    var rest := Join(parts[1..], sep);
    SliceRight(parts[0], sep + rest, |parts[0]| + |sep| + x, |parts[0]| + |sep| + y);
    SliceRight(sep, rest, |sep| + x, |sep| + y);
  }

  /** Each part can be read back from the joined text at its offset. */
  lemma {:induction false} JoinPart(parts: seq<Bytes>, sep: Bytes, k: nat)
    requires k < |parts|
    ensures Offset(parts, sep, k) + |parts[k]| <= |Join(parts, sep)|
    ensures Join(parts, sep)[Offset(parts, sep, k)..Offset(parts, sep, k) + |parts[k]|] == parts[k]
    decreases k
  {
    if |parts| == 1 {
    } else if k == 0 {
      assert (parts[0] + (sep + Join(parts[1..], sep)))[..|parts[0]|] == parts[0];
    } else {
      JoinPart(parts[1..], sep, k - 1);
      OffsetShift(parts, sep, k);
      var o := Offset(parts[1..], sep, k - 1);
      JoinTailSlice(parts, sep, o, o + |parts[k]|);
    }
  }

  /** Exactly the separator stands between each part and the next. */
  lemma {:induction false} JoinSeparatorAfter(parts: seq<Bytes>, sep: Bytes, k: nat)
    requires k + 1 < |parts|
    ensures Offset(parts, sep, k + 1) <= |Join(parts, sep)|
    ensures Join(parts, sep)[Offset(parts, sep, k) + |parts[k]|..Offset(parts, sep, k + 1)] == sep
    decreases k
  {
    if k == 0 {
      SeparatorAfterFirst(parts, sep);
    } else {
      JoinSeparatorAfter(parts[1..], sep, k - 1);
      SeparatorInTail(parts, sep, k);
    }
  }

  /** The separator follows the first part. */
  lemma SeparatorAfterFirst(parts: seq<Bytes>, sep: Bytes)
    requires 1 < |parts|
    ensures Offset(parts, sep, 1) <= |Join(parts, sep)|
    ensures Join(parts, sep)[Offset(parts, sep, 0) + |parts[0]|..Offset(parts, sep, 1)] == sep
  {
    var rest := Join(parts[1..], sep);
    SliceRight(parts[0], sep + rest, |parts[0]|, |parts[0]| + |sep|);
    assert (sep + rest)[..|sep|] == sep;
  }

  /** The separator after part `k` of the tail is the separator after part `k + 1` of the whole. */
  lemma SeparatorInTail(parts: seq<Bytes>, sep: Bytes, k: nat)
    requires 0 < k && k + 1 < |parts|
    requires Offset(parts[1..], sep, k) <= |Join(parts[1..], sep)|
    requires Join(parts[1..], sep)[Offset(parts[1..], sep, k - 1) + |parts[1..][k - 1]|..Offset(parts[1..], sep, k)] == sep
    ensures Offset(parts, sep, k + 1) <= |Join(parts, sep)|
    ensures Join(parts, sep)[Offset(parts, sep, k) + |parts[k]|..Offset(parts, sep, k + 1)] == sep
  {
    OffsetShift(parts, sep, k);
    OffsetShift(parts, sep, k + 1);
    var o := Offset(parts[1..], sep, k - 1);
    var o' := Offset(parts[1..], sep, k);
    JoinTailSlice(parts, sep, o + |parts[k]|, o');
  }

  /** Composing the plots `["A", "B"]` gives `"A\n\n---\n\nB"`. */
  lemma ComposeTwoPlots()
    ensures Join([[65], [66]], Separator) == [65, 10, 10, 45, 45, 45, 10, 10, 66]
  {
    assert [[65], [66]][1..] == [[66]];
  }
}
