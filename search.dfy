/**
 * The search engine: every occurrence of the search text, overlapping ones
 * included, in every plot (by plot index, then by offset) and then in the
 * composed text, reported as byte ranges.
 *
 * The scan loop is given twice. `ScanFrom` is the loop as the composer
 * writes it: after a hit at `actual_start` it resumes at `actual_start + 1`
 * and slices the text there, which Rust refuses (a panic) when that offset
 * falls inside a multi-byte character. `ScanMatches` resumes at the next char
 * boundary instead; it reports the same hits whenever `ScanFrom` does not
 * panic, and it is the scan the composer's `Search` uses.
 */
module Search {
  import opened Wrappers
  import opened Text
  import opened Fragments

  datatype SearchLocation = Plot | ComposedText

  datatype SearchResult = SearchResult(location: SearchLocation, plotIndex: Option<nat>, start: nat, end: nat)

  /**
   * The first byte of a non-empty UTF-8 string is never a continuation byte;
   * every Rust `String` satisfies this.
   */
  predicate StartsOnBoundary(s: Bytes) {
    s == [] || !IsContinuation(s[0])
  }

  /** One result per start offset, each covering `len` bytes. */
  function ResultsAt(starts: seq<nat>, len: nat, loc: SearchLocation, plotIndex: Option<nat>): seq<SearchResult>
    decreases |starts|
  {
    if starts == [] then []
    else [SearchResult(loc, plotIndex, starts[0], starts[0] + len)] + ResultsAt(starts[1..], len, loc, plotIndex)
  }

  /** The results for the plots, plot by plot in order. */
  function PlotResults(ps: seq<PlotFragment>, needle: Bytes): seq<SearchResult>
    decreases |ps|
  {
    if ps == [] then []
    else
      var last := |ps| - 1;
      PlotResults(ps[..last], needle) + ResultsAt(AllMatches(ps[last].text, needle), |needle|, Plot, Some(last))
  }

  /** What `search` leaves in `search_results`: nothing for an empty needle. */
  function SearchAll(ps: seq<PlotFragment>, composed: Bytes, needle: Bytes): (r: seq<SearchResult>)
    ensures needle == [] ==> r == []
  {
    if needle == [] then []
    else PlotResults(ps, needle) + ResultsAt(AllMatches(composed, needle), |needle|, ComposedText, None)
  }

  /** `r` marks a real occurrence of `needle`: in plot `r.plotIndex`, or in the composed text. */
  predicate Hit(ps: seq<PlotFragment>, composed: Bytes, needle: Bytes, r: SearchResult) {
    r.end == r.start + |needle| &&
    match r.location
    case Plot => r.plotIndex.Some? && r.plotIndex.value < |ps| && MatchAt(ps[r.plotIndex.value].text, needle, r.start)
    case ComposedText => r.plotIndex.None? && MatchAt(composed, needle, r.start)
  }

  /** The order results are reported in: plots before the composed text, by plot index, then by offset. */
  predicate Precedes(a: SearchResult, b: SearchResult) {
    match (a.location, b.location)
    case (Plot, ComposedText) => true
    case (ComposedText, Plot) => false
    case (Plot, Plot) =>
      a.plotIndex.Some? && b.plotIndex.Some? &&
      (a.plotIndex.value < b.plotIndex.value || (a.plotIndex == b.plotIndex && a.start < b.start))
    case (ComposedText, ComposedText) => a.start < b.start
  }

  /** Result `k` covers the `k`-th start offset. */
  lemma {:induction false} ResultsAtIndex(starts: seq<nat>, len: nat, loc: SearchLocation, plotIndex: Option<nat>)
    ensures |ResultsAt(starts, len, loc, plotIndex)| == |starts|
    ensures forall k :: 0 <= k < |starts| ==>
      ResultsAt(starts, len, loc, plotIndex)[k] == SearchResult(loc, plotIndex, starts[k], starts[k] + len)
    decreases |starts|
  {
    if starts != [] {
      ResultsAtIndex(starts[1..], len, loc, plotIndex);
    }
  }

  lemma ResultsAtMember(starts: seq<nat>, len: nat, loc: SearchLocation, plotIndex: Option<nat>, r: SearchResult)
    ensures r in ResultsAt(starts, len, loc, plotIndex) <==>
      r.location == loc && r.plotIndex == plotIndex && r.start in starts && r.end == r.start + len
  {
    var rs := ResultsAt(starts, len, loc, plotIndex);
    ResultsAtIndex(starts, len, loc, plotIndex);
    if r.location == loc && r.plotIndex == plotIndex && r.start in starts && r.end == r.start + len {
      var k :| 0 <= k < |starts| && starts[k] == r.start;
      assert rs[k] == r;
    }
  }

  /** A plot result is exactly a hit in one of the plots. */
  lemma {:induction false} PlotResultsExact(ps: seq<PlotFragment>, needle: Bytes, r: SearchResult)
    ensures r in PlotResults(ps, needle) <==> r.location == Plot && Hit(ps, [], needle, r)
    decreases |ps|
  {
    if ps != [] {
      var last := |ps| - 1;
      PlotResultsExact(ps[..last], needle, r);
      ResultsAtMember(AllMatches(ps[last].text, needle), |needle|, Plot, Some(last), r);
      AllMatchesExact(ps[last].text, needle);
      if r.location == Plot && r.plotIndex.Some? && r.plotIndex.value < last {
        assert ps[..last][r.plotIndex.value] == ps[r.plotIndex.value];
      }
    }
  }

  /** Plot results name only plots that exist, and come in reporting order. */
  lemma {:induction false} PlotResultsOrdered(ps: seq<PlotFragment>, needle: Bytes)
    ensures forall r :: r in PlotResults(ps, needle) ==> r.location == Plot && r.plotIndex.Some? && r.plotIndex.value < |ps|
    ensures forall i, j :: 0 <= i < j < |PlotResults(ps, needle)| ==>
      Precedes(PlotResults(ps, needle)[i], PlotResults(ps, needle)[j])
    decreases |ps|
  {
    if ps != [] {
      var last := |ps| - 1;
      PlotResultsOrdered(ps[..last], needle);
      var front := PlotResults(ps[..last], needle);
      var starts := AllMatches(ps[last].text, needle);
      var back := ResultsAt(starts, |needle|, Plot, Some(last));
      AllMatchesExact(ps[last].text, needle);
      ResultsAtIndex(starts, |needle|, Plot, Some(last));
      var all := front + back;
      assert PlotResults(ps, needle) == all;
      forall r | r in all ensures r.location == Plot && r.plotIndex.Some? && r.plotIndex.value < |ps| {
        if r in back {
          ResultsAtMember(starts, |needle|, Plot, Some(last), r);
        }
      }
      forall i, j | 0 <= i < j < |all| ensures Precedes(all[i], all[j]) {
        if j < |front| {
          assert all[i] == front[i] && all[j] == front[j];
        } else if i < |front| {
          assert all[i] == front[i] && all[i] in front;
          assert all[j] == back[j - |front|];
        } else {
          assert all[i] == back[i - |front|] && all[j] == back[j - |front|];
        }
      }
    }
  }

  /**
   * `search` reports exactly the occurrences of the needle: every result is
   * a hit, and every hit in a plot or in the composed text is reported.
   * An empty needle reports nothing.
   */
  lemma SearchExact(ps: seq<PlotFragment>, composed: Bytes, needle: Bytes, r: SearchResult)
    ensures r in SearchAll(ps, composed, needle) <==> needle != [] && Hit(ps, composed, needle, r)
  {
    if needle != [] {
      PlotResultsExact(ps, needle, r);
      ResultsAtMember(AllMatches(composed, needle), |needle|, ComposedText, None, r);
      AllMatchesExact(composed, needle);
    }
  }

  /** `search` reports plots in order, each plot's hits by offset, then the composed text's hits by offset. */
  lemma SearchOrdered(ps: seq<PlotFragment>, composed: Bytes, needle: Bytes)
    ensures forall i, j :: 0 <= i < j < |SearchAll(ps, composed, needle)| ==>
      Precedes(SearchAll(ps, composed, needle)[i], SearchAll(ps, composed, needle)[j])
  {
    if needle != [] {
      var front := PlotResults(ps, needle);
      var starts := AllMatches(composed, needle);
      var back := ResultsAt(starts, |needle|, ComposedText, None);
      ResultsAtIndex(starts, |needle|, ComposedText, None);
      PlotResultsOrdered(ps, needle);
      AllMatchesExact(composed, needle);
      var all := front + back;
      forall i, j | 0 <= i < j < |all| ensures Precedes(all[i], all[j]) {
        if j < |front| {
          assert all[i] == front[i] && all[j] == front[j];
        } else if i < |front| {
          assert all[i] == front[i] && all[i] in front;
          assert all[j] == back[j - |front|];
        } else {
          assert all[i] == back[i - |front|] && all[j] == back[j - |front|];
        }
      }
    }
  }

  /**
   * What `find` on `s[start..]` says about the occurrences from `start` on:
   * none, or a first one at `start + pos` followed by those after it.
   */
  lemma MatchesAfterFind(s: Bytes, needle: Bytes, start: nat)
    requires |needle| > 0 && start <= |s|
    ensures Find(s[start..], needle).None? ==> MatchesFrom(s, needle, start) == []
    ensures Find(s[start..], needle).Some? ==>
      var a := start + Find(s[start..], needle).value;
      a < |s| && MatchesFrom(s, needle, start) == [a] + MatchesFrom(s, needle, a + 1)
  {
    FindSlice(s, needle, start);
    MatchesFromFirst(s, needle, start);
  }

  /** Offsets inside a multi-byte character never start an occurrence of a needle that starts on a boundary. */
  lemma MatchesSkipContinuation(s: Bytes, needle: Bytes, a: nat)
    requires |needle| > 0 && !IsContinuation(needle[0]) && a < |s|
    ensures MatchesFrom(s, needle, a + 1) == MatchesFrom(s, needle, NextBoundary(s, a))
  {
    var b := NextBoundary(s, a);
    NextBoundarySkips(s, a);
    forall q: nat | a + 1 <= q < b ensures !MatchAt(s, needle, q) {
      if q + |needle| <= |s| {
        assert s[q..q + |needle|][0] == s[q];
      }
    }
    MatchesFromSkip(s, needle, a + 1, b);
  }

  /**
   * The hits the corrected scan reports from `start` on: the first
   * occurrence at or after `start`, then the same from the char boundary
   * after it.
   */
  function Scan(s: Bytes, needle: Bytes, start: nat): seq<nat>
    requires |needle| > 0 && start <= |s|
    decreases |s| - start
  {
    match FindFrom(s, needle, start)
    case None => []
    case Some(a) => [a] + Scan(s, needle, NextBoundary(s, a))
  }

  /** One step of the corrected scan: a hit at `a`, then the scan from the next char boundary. */
  lemma ScanHit(s: Bytes, needle: Bytes, start: nat, a: nat)
    requires |needle| > 0 && start <= |s| && FindFrom(s, needle, start) == Some(a)
    ensures a < |s|
    ensures Scan(s, needle, start) == [a] + Scan(s, needle, NextBoundary(s, a))
  {
  }

  /** For a needle that starts on a char boundary, the corrected scan reports every occurrence from `start` on. */
  lemma {:induction false} ScanIsMatchesFrom(s: Bytes, needle: Bytes, start: nat)
    requires |needle| > 0 && StartsOnBoundary(needle) && start <= |s|
    ensures Scan(s, needle, start) == MatchesFrom(s, needle, start)
    decreases |s| - start
  {
    MatchesFromFirst(s, needle, start);
    match FindFrom(s, needle, start)
    case None =>
    case Some(a) =>
      ScanHit(s, needle, start, a);
      MatchesSkipContinuation(s, needle, a);
      ScanIsMatchesFrom(s, needle, NextBoundary(s, a));
  }

  /**
   * The scan of one text, resuming after each hit at the next char boundary,
   * so that every slice `text[start..]` it takes is one Rust allows. It
   * reports every occurrence, overlapping ones included, in ascending order.
   */
  method ScanMatches(text: Bytes, needle: Bytes, loc: SearchLocation, plotIndex: Option<nat>)
    returns (found: seq<SearchResult>)
    requires |needle| > 0 && StartsOnBoundary(needle)
    ensures found == ResultsAt(AllMatches(text, needle), |needle|, loc, plotIndex)
  {
    found := [];
    var start := 0;
    var next := Find(text[start..], needle);
    while next.Some?
      invariant start <= |text|
      invariant next == Find(text[start..], needle)
      invariant found + ResultsAt(Scan(text, needle, start), |needle|, loc, plotIndex)
        == ResultsAt(Scan(text, needle, 0), |needle|, loc, plotIndex)
      decreases |text| - start
    {
      var actualStart := start + next.value;
      FindSlice(text, needle, start);
      ScanAdvance(text, needle, loc, plotIndex, found, start, actualStart);
      found := found + [SearchResult(loc, plotIndex, actualStart, actualStart + |needle|)];
      start := NextBoundary(text, actualStart);
      next := Find(text[start..], needle);
    }
    ScanComplete(text, needle, loc, plotIndex, found, start);
  }

  /** One hit of `ScanMatches`: its result moves from the results still to come to the results reported. */
  lemma ScanAdvance(s: Bytes, needle: Bytes, loc: SearchLocation, plotIndex: Option<nat>,
                    found: seq<SearchResult>, start: nat, a: nat)
    requires |needle| > 0 && start <= |s| && FindFrom(s, needle, start) == Some(a)
    requires found + ResultsAt(Scan(s, needle, start), |needle|, loc, plotIndex)
      == ResultsAt(Scan(s, needle, 0), |needle|, loc, plotIndex)
    ensures a < |s|
    ensures (found + [SearchResult(loc, plotIndex, a, a + |needle|)])
      + ResultsAt(Scan(s, needle, NextBoundary(s, a)), |needle|, loc, plotIndex)
      == ResultsAt(Scan(s, needle, 0), |needle|, loc, plotIndex)
  {
    ScanHit(s, needle, start, a);
    var rest := Scan(s, needle, NextBoundary(s, a));
    ResultsAtCons(a, rest, |needle|, loc, plotIndex);
    var r := SearchResult(loc, plotIndex, a, a + |needle|);
    var tail := ResultsAt(rest, |needle|, loc, plotIndex);
    assert ResultsAt(Scan(s, needle, start), |needle|, loc, plotIndex) == [r] + tail;
    assert found + ([r] + tail) == (found + [r]) + tail;
  }

  /** The results for one more start offset in front. */
  lemma ResultsAtCons(a: nat, rest: seq<nat>, len: nat, loc: SearchLocation, plotIndex: Option<nat>)
    ensures ResultsAt([a] + rest, len, loc, plotIndex) ==
      [SearchResult(loc, plotIndex, a, a + len)] + ResultsAt(rest, len, loc, plotIndex)
  {
    var hits := [a] + rest;
    assert hits[0] == a && hits[1..] == rest;
  }

  /** When `find` reports nothing more, the results reported are those of every occurrence. */
  lemma ScanComplete(s: Bytes, needle: Bytes, loc: SearchLocation, plotIndex: Option<nat>,
                     found: seq<SearchResult>, start: nat)
    requires |needle| > 0 && StartsOnBoundary(needle) && start <= |s| && Find(s[start..], needle).None?
    requires found + ResultsAt(Scan(s, needle, start), |needle|, loc, plotIndex)
      == ResultsAt(Scan(s, needle, 0), |needle|, loc, plotIndex)
    ensures found == ResultsAt(AllMatches(s, needle), |needle|, loc, plotIndex)
  {
    FindSlice(s, needle, start);
    assert Scan(s, needle, start) == [];
    assert found + [] == found;
    ScanIsMatchesFrom(s, needle, 0);
  }

  /**
   * The scan loop of `search` as written: `None` where Rust panics because
   * `text[start..]` would slice inside a character, else the hit offsets.
   */
  function ScanFrom(s: Bytes, needle: Bytes, start: nat): (r: Option<seq<nat>>)
    requires |needle| > 0
    ensures r.Some? ==> forall k :: 0 <= k < |r.value| ==> start <= r.value[k] && r.value[k] + |needle| <= |s|
    decreases |s| + 1 - start
  {
    if !IsCharBoundary(s, start) then None
    else match Find(s[start..], needle)
      case None => Some([])
      case Some(pos) =>
        MatchAtSlice(s, needle, start, pos);
        match ScanFrom(s, needle, start + pos + 1)
        case None => None
        case Some(rest) => Some([start + pos] + rest)
  }

  /** Whenever the scan as written does not panic, it reports every occurrence from `start` on. */
  lemma {:induction false} ScanFromAgrees(s: Bytes, needle: Bytes, start: nat)
    requires |needle| > 0
    ensures ScanFrom(s, needle, start).Some? ==> ScanFrom(s, needle, start).value == MatchesFrom(s, needle, start)
    decreases |s| + 1 - start
  {
    if IsCharBoundary(s, start) {
      MatchesAfterFind(s, needle, start);
      var f := Find(s[start..], needle);
      if f.Some? {
        var a := start + f.value;
        ScanFromAgrees(s, needle, a + 1);
        ScanFromHit(s, needle, start, a);
      }
    }
  }

  /** One step of the scan as written: a hit at `a`, then the scan from `a + 1`. */
  lemma ScanFromHit(s: Bytes, needle: Bytes, start: nat, a: nat)
    requires |needle| > 0 && IsCharBoundary(s, start)
    requires Find(s[start..], needle).Some? && a == start + Find(s[start..], needle).value
    ensures ScanFrom(s, needle, start) ==
      if ScanFrom(s, needle, a + 1).None? then None else Some([a] + ScanFrom(s, needle, a + 1).value)
  {
  }

  /**
   * Searching the plot text "あ" (bytes E3 81 82) for "あ" panics as written:
   * after the hit at 0 the scan slices the text at offset 1, inside the character.
   */
  lemma ScanFromPanicsOnMultiByteNeedle()
    ensures ScanFrom([0xE3, 0x81, 0x82], [0xE3, 0x81, 0x82], 0) == None
    ensures AllMatches([0xE3, 0x81, 0x82], [0xE3, 0x81, 0x82]) == [0]
  {
    var s: Bytes := [0xE3, 0x81, 0x82];
    FindLeftmost(s, s, 0);
    assert s[0..] == s;
    assert !IsCharBoundary(s, 1);
    assert MatchesFrom(s, s, 1) == [];
  }

  /** `"aa"` occurs in `"aaa"` at offsets 0 and 1: occurrences may overlap. */
  lemma OverlapExampleMatches()
    ensures AllMatches([97, 97, 97], [97, 97]) == [0, 1]
  {
    var s: Bytes := [97, 97, 97];
    var n: Bytes := [97, 97];
    assert MatchAt(s, n, 0) && MatchAt(s, n, 1);
    assert MatchesFrom(s, n, 2) == [];
  }

  /** From offset 2 of `"aaa"` the scan as written finds no `"aa"`. */
  lemma OverlapScanFromTwo()
    ensures ScanFrom([97, 97, 97], [97, 97], 2) == Some([])
  {
    var s: Bytes := [97, 97, 97];
    assert s[2..] == [97];
    assert Find(s[2..], [97, 97]) == None;
  }

  /** From offset 1 of `"aaa"` the scan as written finds `"aa"` at 1 only. */
  lemma OverlapScanFromOne()
    ensures ScanFrom([97, 97, 97], [97, 97], 1) == Some([1])
  {
    var s: Bytes := [97, 97, 97];
    var n: Bytes := [97, 97];
    OverlapScanFromTwo();
    assert s[1..] == n && s[1..][..2] == n;
    assert Find(s[1..], n) == Some(0);
    ScanFromHit(s, n, 1, 1);
    var tail := ScanFrom(s, n, 2).value;
    assert [1] + tail == [1];
  }

  /** The scan as written finds both overlapping occurrences of `"aa"` in `"aaa"` (all bytes are ASCII). */
  lemma OverlapExampleScanFrom()
    ensures ScanFrom([97, 97, 97], [97, 97], 0) == Some([0, 1])
  {
    var s: Bytes := [97, 97, 97];
    var n: Bytes := [97, 97];
    OverlapScanFromOne();
    assert s[0..] == s && s[..2] == n;
    assert Find(s[0..], n) == Some(0);
    ScanFromHit(s, n, 0, 0);
    var tail := ScanFrom(s, n, 1).value;
    assert [0] + tail == [0, 1];
  }

  /** Searching one plot `"aaa"` for `"aa"` reports `[0, 2)` and `[1, 3)` in that plot. */
  lemma SearchOverlapExample()
    ensures SearchAll([PlotFragment(0, [97, 97, 97])], [], [97, 97])
      == [SearchResult(Plot, Some(0), 0, 2), SearchResult(Plot, Some(0), 1, 3)]
  {
    OverlapExampleMatches();
    var ps := [PlotFragment(0, [97, 97, 97])];
    assert ps[..0] == [];
    assert AllMatches([], [97, 97]) == [];
  }
}
