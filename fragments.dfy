/**
 * The fragment store: the ordered list of plots, the in-place edits the
 * composer makes to it (`Vec::insert`, `Vec::remove`, `Vec::swap`), the id
 * lookup behind delete confirmation, and the id bookkeeping of load.
 */
module Fragments {
  import opened Wrappers
  import opened Text

  /** `MAX_PLOTS`: the most plots `add_plot_after` will create. */
  const MaxPlots: nat := 1024

  datatype PlotFragment = PlotFragment(id: nat, text: Bytes)

  /** The ids of the plots, in order. */
  function Ids(ps: seq<PlotFragment>): (r: seq<nat>)
    ensures |r| == |ps|
    ensures forall i :: 0 <= i < |ps| ==> r[i] == ps[i].id
  {
    seq(|ps|, i requires 0 <= i < |ps| => ps[i].id)
  }

  /** The texts of the plots, in order. */
  function Texts(ps: seq<PlotFragment>): (r: seq<Bytes>)
    ensures |r| == |ps|
    ensures forall i :: 0 <= i < |ps| ==> r[i] == ps[i].text
  {
    seq(|ps|, i requires 0 <= i < |ps| => ps[i].text)
  }

  /** No two plots share an id. */
  predicate UniqueIds(ps: seq<PlotFragment>) {
    forall i, j :: 0 <= i < j < |ps| ==> ps[i].id != ps[j].id
  }

  /** Every id is below `bound`, so `bound` is free for the next plot. */
  predicate IdsBelow(ps: seq<PlotFragment>, bound: nat) {
    forall i :: 0 <= i < |ps| ==> ps[i].id < bound
  }

  /**
   * The document invariant the edit operations keep: at least one plot, at
   * most `MaxPlots`, distinct ids, and `nextId` above every id.
   */
  predicate WellFormed(ps: seq<PlotFragment>, nextId: nat) {
    1 <= |ps| <= MaxPlots && UniqueIds(ps) && IdsBelow(ps, nextId)
  }

  /** `plots.insert(index + 1, p)`. */
  function InsertAfter(ps: seq<PlotFragment>, index: nat, p: PlotFragment): (r: seq<PlotFragment>)
    requires index < |ps|
    ensures |r| == |ps| + 1 && r[index + 1] == p
  {
    ps[..index + 1] + [p] + ps[index + 1..]
  }

  /** `plots.remove(index)`. */
  function RemoveAt(ps: seq<PlotFragment>, index: nat): (r: seq<PlotFragment>)
    requires index < |ps|
    ensures |r| == |ps| - 1
  {
    ps[..index] + ps[index + 1..]
  }

  /** `plots.swap(i, j)`. */
  function Swap(ps: seq<PlotFragment>, i: nat, j: nat): (r: seq<PlotFragment>)
    requires i < |ps| && j < |ps|
    ensures |r| == |ps| && multiset(r) == multiset(ps)
  {
    ps[i := ps[j]][j := ps[i]]
  }

  /** Inserting puts `p` right after `index`, keeps everything else in order, and grows the list by one. */
  lemma InsertAfterShape(ps: seq<PlotFragment>, index: nat, p: PlotFragment)
    requires index < |ps|
    ensures |InsertAfter(ps, index, p)| == |ps| + 1
    ensures InsertAfter(ps, index, p)[index + 1] == p
    ensures forall k :: 0 <= k <= index ==> InsertAfter(ps, index, p)[k] == ps[k]
    ensures forall k :: index + 1 <= k < |ps| ==> InsertAfter(ps, index, p)[k + 1] == ps[k]
    ensures multiset(InsertAfter(ps, index, p)) == multiset(ps) + multiset{p}
  {
    assert ps == ps[..index + 1] + ps[index + 1..];
  }

  /** Removing the plot just inserted gives the original list back. */
  lemma RemoveUndoesInsert(ps: seq<PlotFragment>, index: nat, p: PlotFragment)
    requires index < |ps|
    ensures RemoveAt(InsertAfter(ps, index, p), index + 1) == ps
  {
    var r := InsertAfter(ps, index, p);
    assert r[..index + 1] == ps[..index + 1];
    assert r[index + 2..] == ps[index + 1..];
    assert ps[..index + 1] + ps[index + 1..] == ps;
  }

  /** Removing drops exactly the plot at `index` and keeps the others in order. */
  lemma RemoveAtShape(ps: seq<PlotFragment>, index: nat)
    requires index < |ps|
    ensures |RemoveAt(ps, index)| == |ps| - 1
    ensures forall k :: 0 <= k < index ==> RemoveAt(ps, index)[k] == ps[k]
    ensures forall k :: index < k < |ps| ==> RemoveAt(ps, index)[k - 1] == ps[k]
    ensures multiset(RemoveAt(ps, index)) + multiset{ps[index]} == multiset(ps)
  {
    assert ps == ps[..index] + [ps[index]] + ps[index + 1..];
  }

  /** Swapping permutes the plots, exchanges the two positions and leaves the others alone. */
  lemma SwapShape(ps: seq<PlotFragment>, i: nat, j: nat)
    requires i < |ps| && j < |ps|
    ensures |Swap(ps, i, j)| == |ps|
    ensures Swap(ps, i, j)[i] == ps[j] && Swap(ps, i, j)[j] == ps[i]
    ensures forall k :: 0 <= k < |ps| && k != i && k != j ==> Swap(ps, i, j)[k] == ps[k]
    ensures multiset(Swap(ps, i, j)) == multiset(ps)
  {
  }

  /** Moving a plot down and then back up restores the list. */
  lemma SwapTwice(ps: seq<PlotFragment>, i: nat, j: nat)
    requires i < |ps| && j < |ps|
    ensures Swap(Swap(ps, i, j), j, i) == ps
  {
  }

  /** A fresh empty plot with id `nextId`, inserted under the cap, keeps the document well formed. */
  lemma InsertKeepsWellFormed(ps: seq<PlotFragment>, nextId: nat, index: nat)
    requires WellFormed(ps, nextId) && |ps| < MaxPlots && index < |ps|
    ensures WellFormed(InsertAfter(ps, index, PlotFragment(nextId, [])), nextId + 1)
  {
    var r := InsertAfter(ps, index, PlotFragment(nextId, []));
    InsertAfterShape(ps, index, PlotFragment(nextId, []));
    forall a, b | 0 <= a < b < |r| ensures r[a].id != r[b].id {
      var a' := if a <= index then a else a - 1;
      var b' := if b <= index then b else b - 1;
      if a == index + 1 {
        assert r[b] == ps[b'];
      } else if b == index + 1 {
        assert r[a] == ps[a'];
      } else {
        assert r[a] == ps[a'] && r[b] == ps[b'] && a' < b';
      }
    }
    forall k | 0 <= k < |r| ensures r[k].id < nextId + 1 {
      if k != index + 1 {
        assert r[k] == ps[if k <= index then k else k - 1];
      }
    }
  }

  /** Inserting after the first of two plots puts the new plot between them. */
  lemma InsertAfterFirstOfTwo(a: PlotFragment, b: PlotFragment, p: PlotFragment)
    ensures InsertAfter([a, b], 0, p) == [a, p, b]
  {
    assert [a, b][..1] == [a] && [a, b][1..] == [b];
  }

  /** Three plots with pairwise different ids have distinct ids. */
  lemma UniqueIdsOfThree(a: PlotFragment, b: PlotFragment, c: PlotFragment)
    requires a.id != b.id && a.id != c.id && b.id != c.id
    ensures UniqueIds([a, b, c])
  {
    var ps := [a, b, c];
    forall i, j | 0 <= i < j < 3 ensures ps[i].id != ps[j].id {
      if i == 0 && j == 1 {
      } else if i == 0 {
        assert ps[j] == c;
      } else {
        assert ps[i] == b && ps[j] == c;
      }
    }
  }

  /** Removing a plot from a list of two or more keeps the document well formed. */
  lemma RemoveKeepsWellFormed(ps: seq<PlotFragment>, nextId: nat, index: nat)
    requires WellFormed(ps, nextId) && |ps| > 1 && index < |ps|
    ensures WellFormed(RemoveAt(ps, index), nextId)
  {
    var r := RemoveAt(ps, index);
    RemoveAtShape(ps, index);
    forall a, b | 0 <= a < b < |r| ensures r[a].id != r[b].id {
      var a' := if a < index then a else a + 1;
      var b' := if b < index then b else b + 1;
      assert r[a] == ps[a'] && r[b] == ps[b'] && a' < b';
    }
    forall k | 0 <= k < |r| ensures r[k].id < nextId {
      assert r[k] == ps[if k < index then k else k + 1];
    }
  }

  /** Removing plot `i` keeps every other plot in the list. */
  lemma RemoveAtKeepsOthers(ps: seq<PlotFragment>, i: nat)
    requires i < |ps|
    ensures forall k :: 0 <= k < |ps| && k != i ==> ps[k] in RemoveAt(ps, i)
  {
    RemoveAtShape(ps, i);
    forall k | 0 <= k < |ps| && k != i ensures ps[k] in RemoveAt(ps, i) {
      assert RemoveAt(ps, i)[if k < i then k else k - 1] == ps[k];
    }
  }

  /** With distinct ids, removing plot `i` removes its id from the list. */
  lemma RemoveAtDropsId(ps: seq<PlotFragment>, i: nat)
    requires UniqueIds(ps) && i < |ps|
    ensures ps[i].id !in Ids(RemoveAt(ps, i))
  {
    var r := RemoveAt(ps, i);
    RemoveAtShape(ps, i);
    forall k | 0 <= k < |r| ensures r[k].id != ps[i].id {
      var j := if k < i then k else k + 1;
      assert r[k] == ps[j] && j != i;
    }
  }

  /** Swapping two plots keeps the document well formed. */
  lemma SwapKeepsWellFormed(ps: seq<PlotFragment>, nextId: nat, i: nat, j: nat)
    requires WellFormed(ps, nextId) && i < |ps| && j < |ps|
    ensures WellFormed(Swap(ps, i, j), nextId)
  {
    var r := Swap(ps, i, j);
    forall a, b | 0 <= a < b < |r| ensures r[a].id != r[b].id {
      var a' := if a == i then j else if a == j then i else a;
      var b' := if b == i then j else if b == j then i else b;
      assert r[a] == ps[a'] && r[b] == ps[b'] && a' != b';
    }
  }

  /**
   * `plots.iter().position(|p| p.id == id)`: the index of the first plot
   * with that id, if there is one.
   */
  function PositionOfId(ps: seq<PlotFragment>, id: nat): (r: Option<nat>)
    ensures r.Some? ==> r.value < |ps| && ps[r.value].id == id
    ensures r.Some? ==> forall k :: 0 <= k < r.value ==> ps[k].id != id
    ensures r.None? <==> forall k :: 0 <= k < |ps| ==> ps[k].id != id
    decreases |ps|
  {
    if |ps| == 0 then None
    else if ps[0].id == id then Some(0)
    else match PositionOfId(ps[1..], id)
      case None => None
      case Some(k) => Some(k + 1)
  }

  /**
   * `plots.iter().map(|p| p.id).max().unwrap_or(0)`: the largest id, or 0
   * for no plots.
   */
  function MaxId(ps: seq<PlotFragment>): (r: nat)
    ensures forall k :: 0 <= k < |ps| ==> ps[k].id <= r
    ensures |ps| > 0 ==> exists k :: 0 <= k < |ps| && ps[k].id == r
    ensures |ps| == 0 ==> r == 0
    decreases |ps|
  {
    if |ps| == 0 then 0
    else
      var m := MaxId(ps[1..]);
      if |ps| > 1 then
        assert forall k :: 1 <= k < |ps| ==> ps[k].id <= m by {
          forall k | 1 <= k < |ps| ensures ps[k].id <= m {
            assert ps[k] == ps[1..][k - 1];
          }
        }
        assert forall k :: 0 <= k < |ps| - 1 ==> ps[1..][k] == ps[k + 1];
        if ps[0].id >= m then ps[0].id else m
      else ps[0].id
  }

  /** After load, `nextId = MaxId + 1` is above every loaded id, and is the least such bound. */
  lemma LoadedNextIdIsFresh(ps: seq<PlotFragment>)
    ensures IdsBelow(ps, MaxId(ps) + 1)
    ensures forall b: nat :: IdsBelow(ps, b) && |ps| > 0 ==> MaxId(ps) + 1 <= b
  {
    forall b: nat | IdsBelow(ps, b) && |ps| > 0 ensures MaxId(ps) + 1 <= b {
      var k :| 0 <= k < |ps| && ps[k].id == MaxId(ps);
    }
  }

  /**
   * The loop of `replace_all` over the plots: every text has each
   * occurrence of `from` replaced; ids, count and order are kept.
   */
  function ReplaceInPlots(ps: seq<PlotFragment>, from: Bytes, to: Bytes): (r: seq<PlotFragment>)
    requires |from| > 0
    ensures |r| == |ps|
    ensures forall k :: 0 <= k < |ps| ==> r[k].id == ps[k].id
    ensures forall k :: 0 <= k < |ps| ==> r[k].text == Replace(ps[k].text, from, to)
  {
    seq(|ps|, k requires 0 <= k < |ps| => PlotFragment(ps[k].id, Replace(ps[k].text, from, to)))
  }

  /** Replacing text inside the plots keeps the document well formed. */
  lemma ReplaceKeepsWellFormed(ps: seq<PlotFragment>, nextId: nat, from: Bytes, to: Bytes)
    requires |from| > 0 && WellFormed(ps, nextId)
    ensures WellFormed(ReplaceInPlots(ps, from, to), nextId)
  {
    var r := ReplaceInPlots(ps, from, to);
    assert forall a, b :: 0 <= a < b < |r| ==> r[a].id == ps[a].id && r[b].id == ps[b].id;
  }
}
