/** The hover highlight of the ripple chart: the edges touching the hovered
    id, and the label anchor of every endpoint of those edges. */
module Highlight {
  import opened Graph

  /** Where an endpoint's label is anchored: `"start"` or `"end"`. */
  datatype Anchor = Start | End

  predicate Touches(e: Edge, id: string)
  {
    e.source == id || e.target == id
  }

  /** The edges touching `id`, in their original order. */
  function Touching(edges: seq<Edge>, id: string): (r: seq<Edge>)
    ensures |r| <= |edges|
    ensures forall e :: multiset(r)[e] == if Touches(e, id) then multiset(edges)[e] else 0
  {
    if edges == [] then []
    else
      var rest := Touching(edges[1..], id);
      assert edges == [edges[0]] + edges[1..];
      if Touches(edges[0], id) then [edges[0]] + rest else rest
  }

  /** The filter keeps order: filtering a concatenation filters each part. */
  lemma {:induction false} TouchingAppend(a: seq<Edge>, b: seq<Edge>, id: string)
    ensures Touching(a + b, id) == Touching(a, id) + Touching(b, id)
    decreases |a|
  {
    if a == [] {
      assert a + b == b;
    } else {
      assert (a + b)[0] == a[0] && (a + b)[1..] == a[1..] + b;
      TouchingAppend(a[1..], b, id);
    }
  }

  /** `if (hover)`: a hover id is set and is not the empty string. */
  predicate Hovering(hover: Option<string>)
  {
    hover.Some? && hover.value != ""
  }

  /** `showEdges`: with a hover id, the accumulated edges that start or end
      at it; otherwise none. */
  function ShowEdges(edges: seq<Edge>, hover: Option<string>): (r: seq<Edge>)
    ensures !Hovering(hover) ==> r == []
    ensures forall e :: multiset(r)[e] ==
                        (if Hovering(hover) && Touches(e, hover.value) then multiset(edges)[e] else 0)
  {
    if Hovering(hover) then Touching(edges, hover.value) else []
  }

  /** The ids at either end of some edge of `s`. */
  function Endpoints(s: seq<Edge>): set<string>
  {
    (set e | e in s :: e.source) + (set e | e in s :: e.target)
  }

  /** The anchor map built by the reduce: each edge in turn writes its
      source (`End` when the edge leads to the selected node) and then its
      target (`Start`), so later writes overwrite earlier ones. */
  function AnchorsOf(s: seq<Edge>, selected: string): (r: map<string, Anchor>)
    ensures r.Keys == Endpoints(s)
  {
    if s == [] then map[]
    else
      var init := s[..|s| - 1];
      var e := s[|s| - 1];
      assert s == init + [e];
      assert Endpoints(s) == Endpoints(init) + {e.source, e.target};
      AnchorsOf(init, selected)[e.source := if e.target == selected then End else Start][e.target := Start]
  }

  /** Edge `k` is the last edge of `s` touching `id`. */
  predicate LastTouch(s: seq<Edge>, k: nat, id: string)
  {
    k < |s| && Touches(s[k], id) && forall j :: k < j < |s| ==> !Touches(s[j], id)
  }

  /** Every endpoint has a last edge touching it. */
  lemma {:induction false} LastTouchExists(s: seq<Edge>, id: string)
    requires id in Endpoints(s)
    ensures exists k: nat :: LastTouch(s, k, id)
    decreases |s|
  {
    var k := |s| - 1;
    if !Touches(s[k], id) {
      var init := s[..k];
      assert s == init + [s[k]];
      assert id in Endpoints(init);
      LastTouchExists(init, id);
      var i :| LastTouch(init, i, id);
      assert LastTouch(s, i, id);
    } else {
      assert LastTouch(s, k, id);
    }
  }

  /** An id's anchor is decided by the last edge touching it: `End` exactly
      when that edge leaves the id for the selected node (and is not a
      loop, whose target write comes last). */
  lemma {:induction false} LastWriteWins(s: seq<Edge>, selected: string, k: nat, id: string)
    requires LastTouch(s, k, id)
    ensures id in AnchorsOf(s, selected)
    ensures AnchorsOf(s, selected)[id] ==
      if s[k].source == id && s[k].target != id && s[k].target == selected then End else Start
    decreases |s|
  {
    var init := s[..|s| - 1];
    if k < |s| - 1 {
      assert init[k] == s[k];
      forall j | k < j < |init| ensures !Touches(init[j], id) {
        assert init[j] == s[j];
      }
      LastWriteWins(init, selected, k, id);
    }
  }

  lemma LastTouchUnique(s: seq<Edge>, k: nat, k': nat, id: string)
    requires LastTouch(s, k, id) && LastTouch(s, k', id)
    ensures k == k'
  {
  }

  /** An anchor is `End` exactly when the id's last touching edge goes from
      it to the selected node and is not a loop. */
  lemma AnchorEnd(s: seq<Edge>, selected: string, id: string)
    requires id in Endpoints(s)
    ensures id in AnchorsOf(s, selected)
    ensures AnchorsOf(s, selected)[id] == End <==>
      exists k: nat :: LastTouch(s, k, id) && s[k].source == id && s[k].target != id && s[k].target == selected
  {
    LastTouchExists(s, id);
    var k: nat :| LastTouch(s, k, id);
    LastWriteWins(s, selected, k, id);
    forall k': nat | LastTouch(s, k', id) ensures k' == k {
      LastTouchUnique(s, k, k', id);
    }
  }

  /** The reduce over the shown edges, writing into one map. */
  method ResolveAnchors(shown: seq<Edge>, selected: string) returns (anchors: map<string, Anchor>)
    ensures anchors == AnchorsOf(shown, selected)
  {
    anchors := map[];
    var k := 0;
    while k < |shown|
      invariant k <= |shown|
      invariant anchors == AnchorsOf(shown[..k], selected)
    {
      var e := shown[k];
      assert shown[..k + 1][..k] == shown[..k];
      anchors := anchors[e.source := if e.target == selected then End else Start];
      anchors := anchors[e.target := Start];
      k := k + 1;
    }
    assert shown[..k] == shown;
  }

  /** `showEdges` and `showNodes` for the accumulated edge list. */
  method Highlight(edges: seq<Edge>, hover: Option<string>, selected: string)
    returns (showEdges: seq<Edge>, showNodes: map<string, Anchor>)
    ensures showEdges == ShowEdges(edges, hover)
    ensures showNodes == AnchorsOf(showEdges, selected)
    ensures !Hovering(hover) ==> showEdges == [] && showNodes == map[]
    ensures showNodes.Keys == Endpoints(showEdges)
  {
    showEdges := [];
    showNodes := map[];
    if Hovering(hover) {
      showEdges := Touching(edges, hover.value);
      showNodes := ResolveAnchors(showEdges, selected);
    }
  }

  /** With a hover id, every highlighted id is the hovered one or a direct
      neighbour of it along an accumulated edge. */
  lemma HighlightNeighbours(edges: seq<Edge>, hover: Option<string>, selected: string, id: string)
    requires Hovering(hover)
    requires id in AnchorsOf(ShowEdges(edges, hover), selected)
    ensures id == hover.value || Edge(hover.value, id) in edges || Edge(id, hover.value) in edges
  {
    var shown := ShowEdges(edges, hover);
    var e :| e in shown && (e.source == id || e.target == id);
    assert multiset(shown)[e] > 0;
    assert Touches(e, hover.value) && e in edges;
  }
}
