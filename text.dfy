/**
 * The parts of Rust's `str` that the document model relies on, over the
 * UTF-8 bytes of a string: char boundaries, `find`, the positions of every
 * (overlapping) occurrence of a needle, and `replace`.
 *
 * Offsets are byte offsets, as in Rust: `Find` and the match positions index
 * into the encoded bytes, not into characters.
 */
module Text {
  import opened Wrappers

  type Byte = b: int | 0 <= b < 256

  /** The UTF-8 encoding of a Rust `String`. */
  type Bytes = seq<Byte>

  /** A UTF-8 continuation byte (10xxxxxx): never the first byte of a character. */
  predicate IsContinuation(b: Byte) {
    0x80 <= b < 0xC0
  }

  /** Rust's `str::is_char_boundary`: the places where `s[i..]` may slice. */
  predicate IsCharBoundary(s: Bytes, i: nat) {
    i == 0 || i == |s| || (i < |s| && !IsContinuation(s[i]))
  }

  /** `needle` occurs in `s` at byte offset `p`. */
  predicate MatchAt(s: Bytes, needle: Bytes, p: nat) {
    p + |needle| <= |s| && s[p..p + |needle|] == needle
  }

  /** The smallest char boundary of `s` strictly after `p`. */
  function NextBoundary(s: Bytes, p: nat): (r: nat)
    requires p < |s|
    ensures p < r <= |s| && IsCharBoundary(s, r)
    decreases |s| - p
  {
    if p + 1 == |s| || !IsContinuation(s[p + 1]) then p + 1 else NextBoundary(s, p + 1)
  }

  /** `NextBoundary` skips only continuation bytes, so it is the nearest boundary after `p`. */
  lemma {:induction false} NextBoundarySkips(s: Bytes, p: nat)
    requires p < |s|
    ensures forall q: nat :: p < q < NextBoundary(s, p) ==> IsContinuation(s[q])
    decreases |s| - p
  {
    if !(p + 1 == |s| || !IsContinuation(s[p + 1])) {
      NextBoundarySkips(s, p + 1);
    }
  }

  /** Rust's `str::find`: the offset of the leftmost occurrence of `needle`. */
  function Find(s: Bytes, needle: Bytes): (r: Option<nat>)
    ensures r.Some? ==> r.value + |needle| <= |s|
    decreases |s|
  {
    if |needle| > |s| then None
    else if s[..|needle|] == needle then Some(0)
    else
      match Find(s[1..], needle)
      case None => None
      case Some(p) => Some(p + 1)
  }

  /**
   * `Find` reports the leftmost occurrence: none lies before the offset it
   * reports, and it reports nothing only when there is no occurrence at all.
   */
  lemma {:induction false} FindExact(s: Bytes, needle: Bytes)
    ensures Find(s, needle).Some? ==> MatchAt(s, needle, Find(s, needle).value)
    ensures Find(s, needle).Some? ==> forall q: nat :: q < Find(s, needle).value ==> !MatchAt(s, needle, q)
    ensures Find(s, needle).None? <==> forall q: nat :: !MatchAt(s, needle, q)
    decreases |s|
  {
    if |needle| > |s| {
    } else if s[..|needle|] == needle {
      assert MatchAt(s, needle, 0);
    } else {
      FindExact(s[1..], needle);
      var r := Find(s[1..], needle);
      forall q: nat | 0 < q && (r.None? || q < r.value + 1) ensures !MatchAt(s, needle, q) {
        MatchAtTail(s, needle, q - 1);
      }
      if r.Some? {
        MatchAtTail(s, needle, r.value);
      }
    }
  }

  /** An occurrence with none before it is the one `Find` reports. */
  lemma FindLeftmost(s: Bytes, needle: Bytes, r: nat)
    requires MatchAt(s, needle, r)
    requires forall q: nat :: q < r ==> !MatchAt(s, needle, q)
    ensures Find(s, needle) == Some(r)
  {
    FindExact(s, needle);
    assert MatchAt(s, needle, Find(s, needle).value);
  }

  /**
   * The first occurrence of `needle` at or after offset `k`, as an offset
   * into `s` itself (what `s[k..].find(needle)` reports, plus `k`).
   */
  function FindFrom(s: Bytes, needle: Bytes, k: nat): (r: Option<nat>)
    ensures r.Some? ==> k <= r.value && r.value + |needle| <= |s|
    decreases |s| + 1 - k
  {
    if k + |needle| > |s| then None
    else if MatchAt(s, needle, k) then Some(k)
    else FindFrom(s, needle, k + 1)
  }

  /** `find` on the slice `s[start..]` is `FindFrom` at `start`, counted from `start`. */
  lemma {:induction false} FindSlice(s: Bytes, needle: Bytes, start: nat)
    requires start <= |s|
    ensures Find(s[start..], needle).None? ==> FindFrom(s, needle, start).None?
    ensures Find(s[start..], needle).Some? ==> FindFrom(s, needle, start) == Some(start + Find(s[start..], needle).value)
    decreases |s| - start
  {
    var t := s[start..];
    if |needle| <= |t| {
      assert s[start..start + |needle|] == t[..|needle|];
      if t[..|needle|] != needle {
        assert t[1..] == s[start + 1..];
        FindSlice(s, needle, start + 1);
      }
    }
  }

  /** Dropping the first byte shifts every occurrence one place to the left. */
  lemma MatchAtTail(s: Bytes, needle: Bytes, q: nat)
    requires |s| > 0
    ensures MatchAt(s[1..], needle, q) <==> MatchAt(s, needle, q + 1)
  {
    if q + 1 + |needle| <= |s| {
      assert s[1..][q..q + |needle|] == s[q + 1..q + 1 + |needle|];
    }
  }

  /** Slicing `s[start..]` shifts every occurrence `start` places to the left. */
  lemma MatchAtSlice(s: Bytes, needle: Bytes, start: nat, q: nat)
    requires start <= |s|
    ensures MatchAt(s[start..], needle, q) <==> MatchAt(s, needle, start + q)
  {
    if start + q + |needle| <= |s| {
      assert s[start..][q..q + |needle|] == s[start + q..start + q + |needle|];
    }
  }

  /**
   * Every offset at or after `k` where `needle` occurs, in ascending order,
   * overlapping occurrences included.
   */
  function MatchesFrom(s: Bytes, needle: Bytes, k: nat): seq<nat>
    decreases |s| + 1 - k
  {
    if k + |needle| > |s| then []
    else (if MatchAt(s, needle, k) then [k] else []) + MatchesFrom(s, needle, k + 1)
  }

  /**
   * The occurrences from `k` on are none when `FindFrom` finds nothing, and
   * otherwise the one it finds followed by those after it.
   */
  lemma {:induction false} MatchesFromFirst(s: Bytes, needle: Bytes, k: nat)
    ensures FindFrom(s, needle, k).None? ==> MatchesFrom(s, needle, k) == []
    ensures FindFrom(s, needle, k).Some? ==>
      MatchesFrom(s, needle, k) == [FindFrom(s, needle, k).value] + MatchesFrom(s, needle, FindFrom(s, needle, k).value + 1)
    decreases |s| + 1 - k
  {
    if k + |needle| <= |s| && !MatchAt(s, needle, k) {
      MatchesFromFirst(s, needle, k + 1);
      assert MatchesFrom(s, needle, k) == [] + MatchesFrom(s, needle, k + 1);
    }
  }

  /** Every offset of `s` where `needle` occurs, overlapping occurrences included. */
  function AllMatches(s: Bytes, needle: Bytes): seq<nat> {
    MatchesFrom(s, needle, 0)
  }

  /** The strictly ascending sequences: each offset is reported once, in order. */
  predicate StrictlyAscending(xs: seq<nat>) {
    forall i, j :: 0 <= i < j < |xs| ==> xs[i] < xs[j]
  }

  /** `MatchesFrom` lists exactly the occurrences at or after `k`. */
  lemma {:induction false} MatchesFromMembers(s: Bytes, needle: Bytes, k: nat)
    ensures forall p: nat :: p in MatchesFrom(s, needle, k) <==> k <= p && MatchAt(s, needle, p)
    decreases |s| + 1 - k
  {
    if k + |needle| <= |s| {
      MatchesFromMembers(s, needle, k + 1);
    }
  }

  /** `MatchesFrom` lists each occurrence once, in ascending order. */
  lemma {:induction false} MatchesFromAscending(s: Bytes, needle: Bytes, k: nat)
    ensures StrictlyAscending(MatchesFrom(s, needle, k))
    decreases |s| + 1 - k
  {
    if k + |needle| <= |s| {
      MatchesFromAscending(s, needle, k + 1);
      MatchesFromMembers(s, needle, k + 1);
      var rest := MatchesFrom(s, needle, k + 1);
      if MatchAt(s, needle, k) {
        var all := [k] + rest;
        assert MatchesFrom(s, needle, k) == all;
        forall i, j | 0 <= i < j < |all| ensures all[i] < all[j] {
          assert all[j] == rest[j - 1] && rest[j - 1] in rest;
          if i > 0 { assert all[i] == rest[i - 1]; }
        }
      } else {
        assert MatchesFrom(s, needle, k) == rest;
      }
    }
  }

  /** `MatchesFrom` lists exactly the occurrences at or after `k`, once each, in order. */
  lemma MatchesFromExact(s: Bytes, needle: Bytes, k: nat)
    ensures forall p: nat :: p in MatchesFrom(s, needle, k) <==> k <= p && MatchAt(s, needle, p)
    ensures StrictlyAscending(MatchesFrom(s, needle, k))
  {
    MatchesFromMembers(s, needle, k);
    MatchesFromAscending(s, needle, k);
  }

  /** `AllMatches` lists exactly the occurrences of `needle` in `s`, once each, in order. */
  lemma AllMatchesExact(s: Bytes, needle: Bytes)
    ensures forall p: nat :: p in AllMatches(s, needle) <==> MatchAt(s, needle, p)
    ensures StrictlyAscending(AllMatches(s, needle))
  {
    MatchesFromExact(s, needle, 0);
  }

  /** Offsets with no occurrence can be skipped without changing the matches. */
  lemma {:induction false} MatchesFromSkip(s: Bytes, needle: Bytes, k: nat, j: nat)
    requires k <= j
    requires forall q: nat :: k <= q < j ==> !MatchAt(s, needle, q)
    ensures MatchesFrom(s, needle, k) == MatchesFrom(s, needle, j)
    decreases j - k
  {
    if k < j {
      MatchesFromSkip(s, needle, k + 1, j);
      if k + |needle| > |s| {
        assert k + 1 + |needle| > |s|;
        if j + |needle| <= |s| {
          assert false;
        }
      }
    }
  }

  /**
   * Rust's `str::replace` for a non-empty pattern: every non-overlapping
   * occurrence of `from`, taken left to right, is replaced by `to`.
   */
  function Replace(s: Bytes, from: Bytes, to: Bytes): (r: Bytes)
    requires |from| > 0
    ensures |to| == |from| ==> |r| == |s|
    decreases |s|
  {
    if |s| < |from| then s
    else if s[..|from|] == from then to + Replace(s[|from|..], from, to)
    else [s[0]] + Replace(s[1..], from, to)
  }

  /**
   * `Replace` is what Rust's implementation does: find the leftmost
   * occurrence, copy what precedes it, emit `to`, and carry on after the
   * occurrence.
   */
  lemma {:induction false} ReplaceAtFind(s: Bytes, from: Bytes, to: Bytes, p: nat)
    requires |from| > 0
    requires Find(s, from) == Some(p)
    ensures Replace(s, from, to) == s[..p] + (to + Replace(s[p + |from|..], from, to))
    decreases |s|
  {
    if s[..|from|] == from {
      ReplaceAtStart(s, from, to, p);
    } else {
      match Find(s[1..], from)
      case Some(q) =>
        ReplaceAtFind(s[1..], from, to, q);
        ReplaceAfterFirstByte(s, from, to, p, q);
    }
  }

  /** The step of `ReplaceAtFind` where `s` starts with an occurrence. */
  lemma ReplaceAtStart(s: Bytes, from: Bytes, to: Bytes, p: nat)
    requires 0 < |from| <= |s| && s[..|from|] == from
    requires Find(s, from) == Some(p)
    ensures Replace(s, from, to) == s[..p] + (to + Replace(s[p + |from|..], from, to))
  {
    assert p == 0;
    var tail := to + Replace(s[|from|..], from, to);
    assert Replace(s, from, to) == tail;
    assert s[..0] + tail == tail;
  }

  /** With no occurrence left, Rust's `str::replace` copies the rest unchanged. */
  lemma {:induction false} ReplaceWithoutFind(s: Bytes, from: Bytes, to: Bytes)
    requires |from| > 0
    requires Find(s, from) == None
    ensures Replace(s, from, to) == s
    decreases |s|
  {
    if |s| >= |from| {
      ReplaceWithoutFind(s[1..], from, to);
      assert [s[0]] + s[1..] == s;
    }
  }

  /** The step of `ReplaceAtFind` where `s` does not start with an occurrence. */
  lemma ReplaceAfterFirstByte(s: Bytes, from: Bytes, to: Bytes, p: nat, q: nat)
    requires 0 < |from| <= |s| && s[..|from|] != from
    requires Find(s, from) == Some(p) && Find(s[1..], from) == Some(q)
    requires Replace(s[1..], from, to) == s[1..][..q] + (to + Replace(s[1..][q + |from|..], from, to))
    ensures Replace(s, from, to) == s[..p] + (to + Replace(s[p + |from|..], from, to))
  {
    assert p == q + 1;
    assert s[1..][q + |from|..] == s[p + |from|..];
    ConsPrefix(s, q, to + Replace(s[p + |from|..], from, to));
  }

  /** Putting the first byte back in front of a prefix of the rest. */
  lemma ConsPrefix(s: Bytes, p: nat, y: Bytes)
    requires p < |s|
    ensures [s[0]] + (s[1..][..p] + y) == s[..p + 1] + y
  {
    assert [s[0]] + s[1..][..p] == s[..p + 1];
  }

  /** Replacing a pattern by itself changes nothing. */
  lemma {:induction false} ReplaceByItself(s: Bytes, from: Bytes)
    requires |from| > 0
    ensures Replace(s, from, from) == s
    decreases |s|
  {
    if |s| < |from| {
    } else if s[..|from|] == from {
      ReplaceByItself(s[|from|..], from);
      assert from + s[|from|..] == s;
    } else {
      ReplaceByItself(s[1..], from);
      assert [s[0]] + s[1..] == s;
    }
  }

  /** A text in which the pattern does not occur is left unchanged. */
  lemma ReplaceWithoutMatch(s: Bytes, from: Bytes, to: Bytes)
    requires |from| > 0
    requires AllMatches(s, from) == []
    ensures Replace(s, from, to) == s
  {
    AllMatchesExact(s, from);
    assert forall q: nat :: !MatchAt(s, from, q) by {
      forall q: nat ensures !MatchAt(s, from, q) {
        assert q !in AllMatches(s, from);
      }
    }
    FindExact(s, from);
    ReplaceWithoutFind(s, from, to);
  }

  /**
   * Replacement does not overlap: in `"aaa"`, `"aa"` is replaced once, from
   * the left, giving `"ba"`, although `"aa"` also occurs at offset 1.
   */
  lemma ReplaceLeftmostExample()
    ensures Replace([97, 97, 97], [97, 97], [98]) == [98, 97]
    ensures AllMatches([97, 97, 97], [97, 97]) == [0, 1]
  {
    var s: Bytes := [97, 97, 97];
    assert s[..2] == [97, 97];
    assert s[2..] == [97];
    assert MatchAt(s, [97, 97], 0) && MatchAt(s, [97, 97], 1);
    assert MatchesFrom(s, [97, 97], 2) == [];
  }
}
