/**
 * The node graph of script.js's simulation: one infection flag per node
 * (`nodes[i].infected`), the id list `infectedNodes`, and the connections
 * `initializeNetwork` draws. Connections are only drawn on the page, never
 * stored or consulted by the spread, so they are kept here as the list of
 * (from, to) pairs passed to `drawConnection`.
 */
module Network {
  import opened Counting

  /** Ids of the nodes whose flag is clear, in node order: `nodes.filter(n => !n.infected)`. */
  function Uninfected(flags: seq<bool>): (r: seq<nat>)
    ensures forall x: int :: x in r <==> 0 <= x < |flags| && !flags[x]
    ensures forall i, j :: 0 <= i < j < |r| ==> r[i] < r[j]
  {
    if flags == [] then []
    else
      var init := Uninfected(flags[..|flags| - 1]);
      assert forall k :: 0 <= k < |init| ==> init[k] in init;
      init + (if flags[|flags| - 1] then [] else [|flags| - 1])
  }

  /** `infectedNodes` mirrors the flags: no id twice, every id a node, and exactly the flagged nodes listed. */
  ghost predicate Tracks(list: seq<nat>, flags: seq<bool>) {
    Distinct(list) &&
    (forall k :: 0 <= k < |list| ==> list[k] < |flags|) &&
    (forall i :: 0 <= i < |flags| ==> (flags[i] <==> i in list))
  }

  /** Flagging a clear node and listing it once keeps the list and the flags in step. */
  lemma MarkTracks(list: seq<nat>, flags: seq<bool>, id: nat)
    requires Tracks(list, flags) && id < |flags| && !flags[id]
    ensures Tracks(list + [id], flags[id := true])
  {
    var list', flags' := list + [id], flags[id := true];
    forall i | 0 <= i < |flags'|
      ensures flags'[i] <==> i in list'
    {
      assert i in list' <==> i in list || i == id;
    }
  }

  /**
   * The count `infectedNodes.length` never exceeds the node count, and it
   * equals the node count exactly when no uninfected node is left: the two
   * "fully infected" tests of infectNode and spreadInfection agree.
   */
  lemma TracksCount(list: seq<nat>, flags: seq<bool>)
    requires Tracks(list, flags)
    ensures |list| <= |flags|
    ensures |list| == |flags| <==> Uninfected(flags) == []
  {
    var ids: seq<int> := list;
    assert Below(ids, |flags|);
    Pigeonhole(ids, |flags|);
    if Uninfected(flags) == [] {
      AllListed(list, flags);
    } else {
      var x := Uninfected(flags)[0];
      assert x in Uninfected(flags);
      assert x !in ids;
    }
  }

  /** When nodes below `c` are flagged and node `c` is clear, `c` is the first clear node. */
  lemma FirstClear(flags: seq<bool>, c: nat)
    requires c < |flags| && !flags[c]
    requires forall i :: 0 <= i < c ==> flags[i]
    ensures Uninfected(flags) != [] && Uninfected(flags)[0] == c
  {
    var clear := Uninfected(flags);
    assert c in clear && clear[0] in clear;
    assert forall j :: 0 < j < |clear| ==> clear[0] < clear[j];
  }

  /** With no node left clear, every node is listed. */
  lemma AllListed(list: seq<nat>, flags: seq<bool>)
    requires Tracks(list, flags) && Uninfected(flags) == []
    ensures forall x: int :: 0 <= x < |flags| ==> x in list
  {
    forall x: int | 0 <= x < |flags|
      ensures x in list
    {
      assert x !in Uninfected(flags);
    }
  }

  /** The random draws of initializeNetwork: for each of n nodes, 2 to 4 target indices below n. */
  predicate WellWired(wiring: seq<seq<nat>>, n: nat) {
    |wiring| == n &&
    forall i :: 0 <= i < n ==> 2 <= |wiring[i]| <= 4 && forall t :: t in wiring[i] ==> t < n
  }

  /** The connections node i gets from its drawn targets: a target equal to i is skipped. */
  function DrawnFrom(i: nat, targets: seq<nat>): (r: seq<(nat, nat)>) {
    if targets == [] then []
    else
      var last := targets[|targets| - 1];
      DrawnFrom(i, targets[..|targets| - 1]) + (if last != i then [(i, last)] else [])
  }

  /** Every connection drawn for node i starts at i, ends elsewhere, and ends at one of its drawn targets. */
  lemma {:induction false} DrawnFromEdges(i: nat, targets: seq<nat>)
    ensures forall e :: e in DrawnFrom(i, targets) ==> e.0 == i && e.1 != i && e.1 in targets
    decreases |targets|
  {
    if targets != [] {
      var last := targets[|targets| - 1];
      var init := targets[..|targets| - 1];
      DrawnFromEdges(i, init);
      assert targets == init + [last];
      forall e | e in DrawnFrom(i, init)
        ensures e.1 in targets
      {
        assert e.1 in init;
      }
    }
  }

  /** Node i gets one connection per drawn target other than i: at most as many as it drew, and all of them only if no draw hit i. */
  lemma {:induction false} DrawnFromCount(i: nat, targets: seq<nat>)
    ensures |DrawnFrom(i, targets)| <= |targets|
    ensures |DrawnFrom(i, targets)| == |targets| <==> i !in targets
    decreases |targets|
  {
    if targets != [] {
      var init := targets[..|targets| - 1];
      DrawnFromCount(i, init);
      assert targets == init + [targets[|targets| - 1]];
    }
  }

  /** The connections drawn for nodes 0 .. n-1 of the wiring, in drawing order. */
  function Drawn(wiring: seq<seq<nat>>, n: nat): (r: seq<(nat, nat)>)
    requires n <= |wiring|
  {
    if n == 0 then [] else Drawn(wiring, n - 1) + DrawnFrom(n - 1, wiring[n - 1])
  }

  /** Every connection drawn for nodes 0 .. n-1 starts at one of them, is no self-loop, and ends at one of that node's draws. */
  lemma {:induction false} DrawnEdges(wiring: seq<seq<nat>>, n: nat)
    requires n <= |wiring|
    ensures forall e :: e in Drawn(wiring, n) ==> e.0 < n && e.0 != e.1 && e.1 in wiring[e.0]
    decreases n
  {
    if n > 0 {
      DrawnEdges(wiring, n - 1);
      DrawnFromEdges(n - 1, wiring[n - 1]);
    }
  }

  /** The connections in a list that start at node i. */
  function From(edges: seq<(nat, nat)>, i: nat): (r: seq<(nat, nat)>) {
    if edges == [] then []
    else (if edges[0].0 == i then [edges[0]] else []) + From(edges[1..], i)
  }

  lemma {:induction false} FromConcat(a: seq<(nat, nat)>, b: seq<(nat, nat)>, i: nat)
    ensures From(a + b, i) == From(a, i) + From(b, i)
    decreases |a|
  {
    if a != [] {
      assert (a + b)[1..] == a[1..] + b;
      FromConcat(a[1..], b, i);
    } else {
      assert a + b == b;
    }
  }

  lemma {:induction false} FromDrawnFrom(j: nat, targets: seq<nat>, i: nat)
    ensures From(DrawnFrom(j, targets), i) == if i == j then DrawnFrom(j, targets) else []
    decreases |targets|
  {
    if targets != [] {
      var last := targets[|targets| - 1];
      var init := targets[..|targets| - 1];
      FromDrawnFrom(j, init, i);
      FromConcat(DrawnFrom(j, init), if last != j then [(j, last)] else [], i);
      if last != j {
        assert From([(j, last)], i) == (if j == i then [(j, last)] else []) + From([], i);
      }
    }
  }

  /** No connection drawn for nodes 0 .. n-1 leaves a node at or above n. */
  lemma {:induction false} NoEdgesFromLater(wiring: seq<seq<nat>>, n: nat, i: nat)
    requires n <= |wiring| && n <= i
    ensures From(Drawn(wiring, n), i) == []
    decreases n
  {
    if n > 0 {
      var before, own := Drawn(wiring, n - 1), DrawnFrom(n - 1, wiring[n - 1]);
      assert Drawn(wiring, n) == before + own;
      NoEdgesFromLater(wiring, n - 1, i);
      FromConcat(before, own, i);
      FromDrawnFrom(n - 1, wiring[n - 1], i);
      var none: seq<(nat, nat)> := [];
      assert From(before, i) == none && From(own, i) == none;
      assert none + none == none;
    }
  }

  /**
   * The connections leaving node i are exactly those drawn for i itself:
   * one per drawn target other than i, so at most 4 and possibly none.
   */
  lemma {:induction false} OutEdges(wiring: seq<seq<nat>>, n: nat, i: nat)
    requires i < n <= |wiring|
    ensures From(Drawn(wiring, n), i) == DrawnFrom(i, wiring[i])
    decreases n
  {
    var before, own := Drawn(wiring, n - 1), DrawnFrom(n - 1, wiring[n - 1]);
    assert Drawn(wiring, n) == before + own;
    FromConcat(before, own, i);
    FromDrawnFrom(n - 1, wiring[n - 1], i);
    if i < n - 1 {
      OutEdges(wiring, n - 1, i);
      assert From(own, i) == [];
      assert From(before, i) + [] == From(before, i);
    } else {
      NoEdgesFromLater(wiring, n - 1, i);
      var none: seq<(nat, nat)> := [];
      assert From(before, i) == none;
      assert From(own, i) == own;
      assert none + own == own;
      assert From(Drawn(wiring, n), i) == own;
    }
  }

  /** A node whose every draw hits itself ends up with no connection of its own: two draws of 0 for node 0. */
  lemma SelfDrawsLeaveNodeUnconnected(wiring: seq<seq<nat>>)
    requires |wiring| > 0 && wiring[0] == [0, 0]
    ensures From(Drawn(wiring, |wiring|), 0) == []
  {
    OutEdges(wiring, |wiring|, 0);
    assert DrawnFrom(0, [0, 0]) == DrawnFrom(0, [0]) + [];
    assert [0, 0][..1] == [0];
    assert [0][..0] == [];
  }
}
