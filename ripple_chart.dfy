/** The layout computed by the `RippleChart` component for one selected
    node: the ring of what it requires (to the left), the ring of what
    requires it (to the right), the outward expansion levels beyond that,
    the edge list the highlight reads, the registry of placed nodes, and
    the viewport numbers `selectedXPos`, `selectedYPos` and `maxXPos`. */
module RippleChart {
  import opened Graph
  import opened SizeOrder
  import opened RingLayout
  import opened LevelExpansion
  import opened LevelExpansionProperties

  /** The horizontal margin added to the selected node's position. */
  const MARGIN: real := 150.0

  datatype Layout = Layout(
    requiresRing: Ring,
    requiredByRing: Ring,
    levels: seq<Level>,        // `nextLevelNodes`, one entry per level
    edges: seq<Edge>,          // `nextLevelEdges`
    used: Used,                // `usedNodes`
    selectedX: real,
    selectedY: real,
    maxX: real)

  /** JavaScript truthiness of the optional `max` prop: absent and 0 are falsy. */
  predicate Truthy(max: Option<real>)
  {
    max.Some? && max.value != 0.0
  }

  /** One edge from each required id to the selected node, in list order. */
  function Incoming(ids: seq<string>, selected: string): seq<Edge>
  {
    seq(|ids|, i requires 0 <= i < |ids| => Edge(ids[i], selected))
  }

  /** One edge from the selected node to each requiring id, in list order. */
  function Outgoing(selected: string, ids: seq<string>): seq<Edge>
  {
    seq(|ids|, i requires 0 <= i < |ids| => Edge(selected, ids[i]))
  }

  /** The ring of the nodes the selected node requires. */
  function RequiresRing(radius: Radius, place: Placement, nodes: seq<Node>, count: Count): Ring
  {
    RingOf(radius, place, In, FilterListed(nodes, count.requiresIds), OFFSET)
  }

  /** The ring of the nodes that require the selected node. */
  function RequiredByRing(radius: Radius, place: Placement, nodes: seq<Node>, count: Count): Ring
  {
    RingOf(radius, place, Out, FilterListed(nodes, count.requiredBy), OFFSET)
  }

  /** The reduce that seeds `usedNodes`: both direct rings, later entries
      winning. The selected node itself is not registered. */
  function Seed(req: Ring, reqBy: Ring): Used
  {
    Register(map[], req.nodes + reqBy.nodes)
  }

  /** The `if (count)` branch, for the selected node's `count`. */
  function Build(radius: Radius, place: Placement, nodes: seq<Node>, edges: seq<Edge>,
                 selected: string, count: Count): Layout
  {
    var req := RequiresRing(radius, place, nodes, count);
    var reqBy := RequiredByRing(radius, place, nodes, count);
    var e := Expansion(radius, place, nodes, edges, count.requiredBy, Seed(req, reqBy), 0);
    Layout(req, reqBy, e.levels,
           Incoming(count.requiresIds, selected) + Outgoing(selected, count.requiredBy) + e.edges,
           e.used, SelectedX(req, reqBy, e.levels), SelectedY(req, reqBy, e.levels), MaxXPos(req, reqBy, e.levels))
  }

  /** `selectedXPos`: the largest x extent, then the 150 rule. */
  function SelectedX(req: Ring, reqBy: Ring, levels: seq<Level>): real
  {
    if |req.nodes| == 0 then MARGIN else MaxFrom(Max(req.x, reqBy.x), LevelXs(levels)) + MARGIN
  }

  /** `selectedYPos`: the largest downward extent. */
  function SelectedY(req: Ring, reqBy: Ring, levels: seq<Level>): real
  {
    MaxFrom(Max(req.y, reqBy.y), LevelYs(levels))
  }

  /** `maxXPos`: the largest rightward extent. */
  function MaxXPos(req: Ring, reqBy: Ring, levels: seq<Level>): real
  {
    MaxFrom(Max(req.maxX, reqBy.maxX), LevelMaxXs(levels))
  }

  /** The component's layout, or `None` where it renders nothing. */
  function LayoutOf(radius: Radius, place: Placement, nodes: seq<Node>, edges: seq<Edge>,
                    selected: string, max: Option<real>): Option<Layout>
  {
    var selectedNode := FindNode(nodes, selected);
    if selectedNode.None? || !Truthy(max) then None
    else Some(Build(radius, place, nodes, edges, selected, selectedNode.value.count))
  }

  /** The `RippleChart` component body up to the highlight, step by step. */
  method Chart(radius: Radius, place: Placement, nodes: seq<Node>, edges: seq<Edge>,
               selected: string, max: Option<real>) returns (layout: Option<Layout>)
    ensures layout == LayoutOf(radius, place, nodes, edges, selected, max)
  {
    var selectedNode := FindNode(nodes, selected);
    if selectedNode.None? || !Truthy(max) {
      return None;
    }
    var l := LayDown(radius, place, nodes, edges, selected, selectedNode.value.count);
    layout := Some(l);
  }

  /** The start of the `if (count)` branch: the two direct rings and the
      seeded edge list and registry. */
  method Seeding(radius: Radius, place: Placement, nodes: seq<Node>, selected: string, count: Count)
    returns (req: Ring, reqBy: Ring, nextLevelEdges: seq<Edge>, usedNodes: Used)
    ensures req == RequiresRing(radius, place, nodes, count)
    ensures reqBy == RequiredByRing(radius, place, nodes, count)
    ensures nextLevelEdges == Incoming(count.requiresIds, selected) + Outgoing(selected, count.requiredBy)
    ensures usedNodes == Seed(req, reqBy)
  {
    req := MapLocation(radius, place, In, FilterListed(nodes, count.requiresIds), OFFSET);
    reqBy := MapLocation(radius, place, Out, FilterListed(nodes, count.requiredBy), OFFSET);
    nextLevelEdges := Incoming(count.requiresIds, selected) + Outgoing(selected, count.requiredBy);
    usedNodes := RegisterAll(map[], req.nodes + reqBy.nodes);
  }

  /** The `if (count)` branch: the seeding, the expansion and the viewport
      rule. */
  method LayDown(radius: Radius, place: Placement, nodes: seq<Node>, edges: seq<Edge>,
                 selected: string, count: Count) returns (layout: Layout)
    ensures layout == Build(radius, place, nodes, edges, selected, count)
  {
    var req, reqBy, nextLevelEdges, usedNodes := Seeding(radius, place, nodes, selected, count);
    var selectedXPos, selectedYPos, maxXPos := Max(req.x, reqBy.x), Max(req.y, reqBy.y), Max(req.maxX, reqBy.maxX);
    var expanded;
    expanded, selectedXPos, selectedYPos, maxXPos :=
      GetNextLevel(radius, place, nodes, edges, count.requiredBy, usedNodes, 0, selectedXPos, selectedYPos, maxXPos);
    PositionsFrom(req, reqBy, expanded.levels);
    nextLevelEdges := nextLevelEdges + expanded.edges;
    if |req.nodes| == 0 {
      selectedXPos := MARGIN;
    } else {
      selectedXPos := selectedXPos + MARGIN;
    }
    layout := Layout(req, reqBy, expanded.levels, nextLevelEdges, expanded.used,
                     selectedXPos, selectedYPos, maxXPos);
    BuildOf(radius, place, nodes, edges, selected, count, req, reqBy, expanded);
  }

  /** `Build` from its parts. */
  lemma BuildOf(radius: Radius, place: Placement, nodes: seq<Node>, edges: seq<Edge>,
                selected: string, count: Count, req: Ring, reqBy: Ring, e: Expanded)
    requires req == RequiresRing(radius, place, nodes, count)
    requires reqBy == RequiredByRing(radius, place, nodes, count)
    requires e == Expansion(radius, place, nodes, edges, count.requiredBy, Seed(req, reqBy), 0)
    ensures Build(radius, place, nodes, edges, selected, count) ==
            Layout(req, reqBy, e.levels, Incoming(count.requiresIds, selected) + Outgoing(selected, count.requiredBy) + e.edges,
                   e.used, SelectedX(req, reqBy, e.levels), SelectedY(req, reqBy, e.levels), MaxXPos(req, reqBy, e.levels))
  {
  }

  /** The three positions of `Build` are the running maxima the expansion
      leaves, with the 150 rule applied to `selectedXPos`. */
  lemma PositionsFrom(req: Ring, reqBy: Ring, levels: seq<Level>)
    ensures SelectedX(req, reqBy, levels) ==
            if |req.nodes| == 0 then MARGIN else Reach(Left, Max(req.x, reqBy.x), levels) + MARGIN
    ensures SelectedY(req, reqBy, levels) == Reach(Down, Max(req.y, reqBy.y), levels)
    ensures MaxXPos(req, reqBy, levels) == Reach(Right, Max(req.maxX, reqBy.maxX), levels)
  {
    ReachIsMaxFrom(Max(req.x, reqBy.x), levels);
    ReachIsMaxFrom(Max(req.y, reqBy.y), levels);
    ReachIsMaxFrom(Max(req.maxX, reqBy.maxX), levels);
  }

  /** Nothing is drawn exactly when no node has the selected id, or `max`
      is absent or 0. */
  lemma NoLayout(radius: Radius, place: Placement, nodes: seq<Node>, edges: seq<Edge>,
                 selected: string, max: Option<real>)
    ensures LayoutOf(radius, place, nodes, edges, selected, max).None? <==>
            (forall i :: 0 <= i < |nodes| ==> nodes[i].id != selected) || max.None? || max.value == 0.0
  {
  }

  /** The x extents the viewport rule takes the maximum of. */
  function AllXs(l: Layout): seq<real>
  {
    [l.requiresRing.x, l.requiredByRing.x] + LevelXs(l.levels)
  }

  /** The viewport rule: `selectedXPos` is exactly 150 when nothing is
      required, and otherwise 150 more than the largest x extent of all the
      rings; `selectedYPos` covers every ring's downward extent and is at
      least 150, and `maxXPos` is non-negative. */
  lemma Viewport(radius: Radius, place: Placement, nodes: seq<Node>, edges: seq<Edge>,
                 selected: string, count: Count)
    ensures var l := Build(radius, place, nodes, edges, selected, count);
      && (|l.requiresRing.nodes| == 0 ==> l.selectedX == MARGIN)
      && (|l.requiresRing.nodes| > 0 ==>
            && (forall i :: 0 <= i < |AllXs(l)| ==> l.selectedX - MARGIN >= AllXs(l)[i])
            && (exists i :: 0 <= i < |AllXs(l)| && l.selectedX - MARGIN == AllXs(l)[i]))
      && l.selectedX >= MARGIN
      && l.selectedY >= START_Y
      && l.selectedY >= l.requiresRing.y && l.selectedY >= l.requiredByRing.y
      && (forall L :: 0 <= L < |l.levels| ==> l.selectedY >= l.levels[L].ring.y)
      && l.maxX >= 0.0
  {
    var l := Build(radius, place, nodes, edges, selected, count);
    RingStarts(radius, place, In, FilterListed(nodes, count.requiresIds), OFFSET);
    RingStarts(radius, place, Out, FilterListed(nodes, count.requiredBy), OFFSET);
    assert l.selectedX == SelectedX(l.requiresRing, l.requiredByRing, l.levels);
    assert l.selectedY == SelectedY(l.requiresRing, l.requiredByRing, l.levels);
    assert l.maxX == MaxXPos(l.requiresRing, l.requiredByRing, l.levels);
    assert AllXs(l) == [l.requiresRing.x, l.requiredByRing.x] + LevelXs(l.levels);
    ViewportRule(l.requiresRing, l.requiredByRing, l.levels);
  }

  lemma ViewportRule(req: Ring, reqBy: Ring, levels: seq<Level>)
    requires req.x >= 0.0 && req.y >= START_Y && req.maxX >= 0.0
    ensures var all := [req.x, reqBy.x] + LevelXs(levels);
      var x := SelectedX(req, reqBy, levels);
      var y := SelectedY(req, reqBy, levels);
      && (|req.nodes| == 0 ==> x == MARGIN)
      && (|req.nodes| > 0 ==>
            && (forall i :: 0 <= i < |all| ==> x - MARGIN >= all[i])
            && (exists i :: 0 <= i < |all| && x - MARGIN == all[i]))
      && x >= MARGIN
      && y >= START_Y && y >= req.y && y >= reqBy.y
      && (forall L :: 0 <= L < |levels| ==> y >= levels[L].ring.y)
      && MaxXPos(req, reqBy, levels) >= 0.0
  {
    var all := [req.x, reqBy.x] + LevelXs(levels);
    var m := MaxFrom(Max(req.x, reqBy.x), LevelXs(levels));
    MaxOfAll(req.x, reqBy.x, LevelXs(levels));
    if |req.nodes| > 0 {
      assert SelectedX(req, reqBy, levels) - MARGIN == m;
      var i :| 0 <= i < |all| && m == all[i];
    }
    assert m >= all[0];
    MaxFromIsMax(Max(req.y, reqBy.y), LevelYs(levels));
    MaxFromIsMax(Max(req.maxX, reqBy.maxX), LevelMaxXs(levels));
    assert forall L :: 0 <= L < |levels| ==> LevelYs(levels)[L] == levels[L].ring.y;
  }

  /** The largest of two values and a list is one of them and no smaller
      than any. */
  lemma MaxOfAll(a: real, b: real, xs: seq<real>)
    ensures var m := MaxFrom(Max(a, b), xs);
      var all := [a, b] + xs;
      && (forall i :: 0 <= i < |all| ==> m >= all[i])
      && (exists i :: 0 <= i < |all| && m == all[i])
  {
    var m := MaxFrom(Max(a, b), xs);
    var all := [a, b] + xs;
    MaxFromIsMax(Max(a, b), xs);
    forall i | 2 <= i < |all| ensures m >= all[i] {
      assert all[i] == xs[i - 2];
    }
    if m == Max(a, b) {
      if a >= b { assert m == all[0]; } else { assert m == all[1]; }
    } else {
      var j :| 0 <= j < |xs| && m == xs[j];
      assert m == all[j + 2];
    }
  }

  /** The edge list starts with `(r, selected)` for each required id and
      `(selected, b)` for each requiring id, in list order; then, for the
      requiring ids and then each level's placed ids in turn, every global
      edge leaving that frontier, in `edges` order, whether or not its
      target is already placed. */
  lemma LayoutEdges(radius: Radius, place: Placement, nodes: seq<Node>, edges: seq<Edge>,
                     selected: string, count: Count)
    ensures var l := Build(radius, place, nodes, edges, selected, count);
      var n := |count.requiresIds|;
      var m := |count.requiredBy|;
      && |l.edges| >= n + m
      && (forall i :: 0 <= i < n ==> l.edges[i] == Edge(count.requiresIds[i], selected))
      && (forall j :: 0 <= j < m ==> l.edges[n + j] == Edge(selected, count.requiredBy[j]))
      && l.edges[n + m..] == EdgesFromEach(edges, Frontiers(count.requiredBy, l.levels))
  {
    var req := RequiresRing(radius, place, nodes, count);
    var reqBy := RequiredByRing(radius, place, nodes, count);
    var e := Expansion(radius, place, nodes, edges, count.requiredBy, Seed(req, reqBy), 0);
    ExpansionEdges(radius, place, nodes, edges, count.requiredBy, Seed(req, reqBy), 0);
    DirectEdges(count.requiresIds, count.requiredBy, selected, e.edges);
  }

  /** The seeded edges come first, then the collected ones. */
  lemma DirectEdges(requiresIds: seq<string>, requiredBy: seq<string>, selected: string, rest: seq<Edge>)
    ensures var all := Incoming(requiresIds, selected) + Outgoing(selected, requiredBy) + rest;
      var n := |requiresIds|;
      var m := |requiredBy|;
      && |all| >= n + m
      && (forall i :: 0 <= i < n ==> all[i] == Edge(requiresIds[i], selected))
      && (forall j :: 0 <= j < m ==> all[n + j] == Edge(selected, requiredBy[j]))
      && all[n + m..] == rest
  {
    var inc := Incoming(requiresIds, selected);
    var out := Outgoing(selected, requiredBy);
    var all := inc + out + rest;
    assert all[|inc| + |out|..] == rest;
    forall j | 0 <= j < |out| ensures all[|inc| + j] == Edge(selected, requiredBy[j]) {
      assert all[|inc| + j] == (inc + out)[|inc| + j] == out[j];
    }
  }

  lemma PlacedIdsAppend(a: seq<Positioned>, b: seq<Positioned>)
    ensures PlacedIds(a + b) == PlacedIds(a) + PlacedIds(b)
  {
    forall id | id in PlacedIds(a + b) ensures id in PlacedIds(a) + PlacedIds(b) {
      var p :| p in a + b && p.node.id == id;
    }
  }

  /** Expansion levels: level L sits at radial offset `100 * (L + 2)` and is
      the outward ring of a non-empty list of nodes; it places only ids of
      the graph that neither direct ring holds, no id is placed by two
      levels, there are at most as many levels as such ids (so the walk
      ends on cyclic graphs), and the registry ends up holding the ids of
      the direct rings and of the levels. */
  lemma LayoutLevels(radius: Radius, place: Placement, nodes: seq<Node>, edges: seq<Edge>,
                      selected: string, count: Count)
    ensures var l := Build(radius, place, nodes, edges, selected, count);
      var direct := PlacedIds(l.requiresRing.nodes) + PlacedIds(l.requiredByRing.nodes);
      && (forall L :: 0 <= L < |l.levels| ==>
            && l.levels[L].rOffset == OFFSET * (L + 2)
            && |l.levels[L].files| > 0
            && l.levels[L].ring == RingOf(radius, place, Out, l.levels[L].files, l.levels[L].rOffset)
            && PlacedIds(l.levels[L].ring.nodes) <= NodeIds(nodes) - direct)
      && (forall L1, L2 :: 0 <= L1 < L2 < |l.levels| ==>
            PlacedIds(l.levels[L1].ring.nodes) !! PlacedIds(l.levels[L2].ring.nodes))
      && |l.levels| <= |NodeIds(nodes) - direct|
      && l.used.Keys == direct + LevelIds(l.levels)
  {
    var req := RequiresRing(radius, place, nodes, count);
    var reqBy := RequiredByRing(radius, place, nodes, count);
    var used0 := Seed(req, reqBy);
    PlacedIdsAppend(req.nodes, reqBy.nodes);
    assert used0.Keys == PlacedIds(req.nodes) + PlacedIds(reqBy.nodes);
    ExpansionLevels(radius, place, nodes, edges, count.requiredBy, used0, 0);
    ExpansionWithin(radius, place, nodes, edges, count.requiredBy, used0, 0);
    ExpansionDisjoint(radius, place, nodes, edges, count.requiredBy, used0, 0);
    ExpansionBound(radius, place, nodes, edges, count.requiredBy, used0, 0);
    ExpansionRegistry(radius, place, nodes, edges, count.requiredBy, used0, 0);
  }

  /** The direct rings: the nodes whose ids the selected node's `requires`
      lists, laid out inwards at offset 100, and those its `requiredBy`
      lists, laid out outwards at offset 100; a node listed in both is in
      both rings. */
  lemma DirectRings(radius: Radius, place: Placement, nodes: seq<Node>, edges: seq<Edge>,
                     selected: string, count: Count)
    ensures var l := Build(radius, place, nodes, edges, selected, count);
      && l.requiresRing == RingOf(radius, place, In, FilterListed(nodes, count.requiresIds), OFFSET)
      && l.requiredByRing == RingOf(radius, place, Out, FilterListed(nodes, count.requiredBy), OFFSET)
      && (forall n :: multiset(Nodes(l.requiresRing.nodes))[n] ==
                      if Listed(count.requiresIds, n.id) then multiset(nodes)[n] else 0)
      && (forall n :: multiset(Nodes(l.requiredByRing.nodes))[n] ==
                      if Listed(count.requiredBy, n.id) then multiset(nodes)[n] else 0)
  {
    RingIsSortedPermutation(radius, place, In, FilterListed(nodes, count.requiresIds), OFFSET);
    RingIsSortedPermutation(radius, place, Out, FilterListed(nodes, count.requiredBy), OFFSET);
  }

  /** No later entry of `ps` has the id of entry `k`. */
  predicate LastOf(ps: seq<Positioned>, k: nat)
    requires k < |ps|
  {
    forall j :: k < j < |ps| ==> ps[j].node.id != ps[k].node.id
  }

  /** Registering `a` then `b`: the last entry of `b` with an id wins. */
  lemma LaterRingWins(a: seq<Positioned>, b: seq<Positioned>, k: nat)
    requires k < |b| && LastOf(b, k)
    ensures b[k].node.id in Register(map[], a + b)
    ensures Register(map[], a + b)[b[k].node.id] == b[k]
  {
    var all := a + b;
    var K := |a| + k;
    assert all[K] == b[k];
    forall j | K < j < |all| ensures all[j].node.id != all[K].node.id {
      assert all[j] == b[j - |a|];
    }
    RegisterLastWins(map[], all, K);
  }

  /** Registering `a` then `b`: an id absent from `b` keeps its last entry of `a`. */
  lemma EarlierRingKept(a: seq<Positioned>, b: seq<Positioned>, k: nat)
    requires k < |a| && LastOf(a, k) && a[k].node.id !in PlacedIds(b)
    ensures a[k].node.id in Register(map[], a + b)
    ensures Register(map[], a + b)[a[k].node.id] == a[k]
  {
    var all := a + b;
    assert all[k] == a[k];
    forall j | k < j < |all| ensures all[j].node.id != all[k].node.id {
      if j >= |a| {
        assert all[j] == b[j - |a|];
        assert b[j - |a|] in b;
      }
    }
    RegisterLastWins(map[], all, k);
  }

  /** The registry of the direct rings: an id keeps its last entry in the
      requires ring followed by the requiredBy ring, so a node in both rings
      is registered with its requiredBy position. */
  lemma SeedLastWins(req: Ring, reqBy: Ring)
    ensures Seed(req, reqBy).Keys == PlacedIds(req.nodes) + PlacedIds(reqBy.nodes)
    ensures forall k :: 0 <= k < |reqBy.nodes| && LastOf(reqBy.nodes, k) ==>
      Seed(req, reqBy)[reqBy.nodes[k].node.id] == reqBy.nodes[k]
    ensures forall k :: 0 <= k < |req.nodes| && LastOf(req.nodes, k) && req.nodes[k].node.id !in PlacedIds(reqBy.nodes) ==>
      Seed(req, reqBy)[req.nodes[k].node.id] == req.nodes[k]
  {
    PlacedIdsAppend(req.nodes, reqBy.nodes);
    forall k | 0 <= k < |reqBy.nodes| && LastOf(reqBy.nodes, k)
      ensures Seed(req, reqBy)[reqBy.nodes[k].node.id] == reqBy.nodes[k]
    {
      LaterRingWins(req.nodes, reqBy.nodes, k);
    }
    forall k | 0 <= k < |req.nodes| && LastOf(req.nodes, k) && req.nodes[k].node.id !in PlacedIds(reqBy.nodes)
      ensures Seed(req, reqBy)[req.nodes[k].node.id] == req.nodes[k]
    {
      EarlierRingKept(req.nodes, reqBy.nodes, k);
    }
  }

  /** The expansion never overwrites an entry of the direct rings. */
  lemma SeedKept(radius: Radius, place: Placement, nodes: seq<Node>, edges: seq<Edge>,
                 selected: string, count: Count)
    ensures var l := Build(radius, place, nodes, edges, selected, count);
      var seed := Seed(l.requiresRing, l.requiredByRing);
      forall id :: id in seed ==> id in l.used && l.used[id] == seed[id]
  {
    var l := Build(radius, place, nodes, edges, selected, count);
    var seed := Seed(l.requiresRing, l.requiredByRing);
    forall id | id in seed ensures id in l.used && l.used[id] == seed[id] {
      ExpansionKeeps(radius, place, nodes, edges, count.requiredBy, seed, 0, id);
    }
  }

  /** The direct rings register only listed ids: the selected node is
      registered only when its own `requires` or `requiredBy` lists it. */
  lemma SeedIds(radius: Radius, place: Placement, nodes: seq<Node>, count: Count)
    ensures var seed := Seed(RequiresRing(radius, place, nodes, count), RequiredByRing(radius, place, nodes, count));
      forall id :: id in seed ==> id in count.requiresIds || id in count.requiredBy
  {
    var req := RequiresRing(radius, place, nodes, count);
    var reqBy := RequiredByRing(radius, place, nodes, count);
    PlacedIdsAppend(req.nodes, reqBy.nodes);
    RingIds(radius, place, In, FilterListed(nodes, count.requiresIds), OFFSET);
    RingIds(radius, place, Out, FilterListed(nodes, count.requiredBy), OFFSET);
    FilterListedIds(nodes, count.requiresIds);
    FilterListedIds(nodes, count.requiredBy);
  }

  /** A selected node that does not list itself is not registered by the
      direct rings, so an edge back to it from a node that requires it
      places it again, on the first outer ring at offset 200. */
  lemma SelectedPlacedFirst(radius: Radius, place: Placement, nodes: seq<Node>, edges: seq<Edge>,
                            selected: string, count: Count, b: string)
    requires FindNode(nodes, selected).Some?
    requires selected !in count.requiresIds && selected !in count.requiredBy
    requires b in count.requiredBy && Edge(b, selected) in edges
    ensures var l := Build(radius, place, nodes, edges, selected, count);
      && |l.levels| > 0
      && l.levels[0].rOffset == 200
      && selected in PlacedIds(l.levels[0].ring.nodes)
  {
    var req := RequiresRing(radius, place, nodes, count);
    var reqBy := RequiredByRing(radius, place, nodes, count);
    var n := FindNode(nodes, selected).value;
    SeedIds(radius, place, nodes, count);
    ExpansionPlacesTarget(radius, place, nodes, edges, count.requiredBy, Seed(req, reqBy), 0, n, b);
  }

  /** A selected node that lists itself is in a direct ring, so the seeding
      registers it and it stays registered. */
  lemma SelectedListsItself(radius: Radius, place: Placement, nodes: seq<Node>, edges: seq<Edge>,
                            selected: string, count: Count)
    requires FindNode(nodes, selected).Some?
    requires selected in count.requiresIds || selected in count.requiredBy
    ensures var l := Build(radius, place, nodes, edges, selected, count);
      selected in Seed(l.requiresRing, l.requiredByRing) && selected in l.used
  {
    var req := RequiresRing(radius, place, nodes, count);
    var reqBy := RequiredByRing(radius, place, nodes, count);
    var n := FindNode(nodes, selected).value;
    var ids := if selected in count.requiresIds then count.requiresIds else count.requiredBy;
    var filtered := FilterListed(nodes, ids);
    assert multiset(filtered)[n] > 0;
    assert n in filtered;
    RingIds(radius, place, In, FilterListed(nodes, count.requiresIds), OFFSET);
    RingIds(radius, place, Out, FilterListed(nodes, count.requiredBy), OFFSET);
    assert selected in NodeIds(filtered);
    PlacedIdsAppend(req.nodes, reqBy.nodes);
    ExpansionKeeps(radius, place, nodes, edges, count.requiredBy, Seed(req, reqBy), 0, selected);
  }

  /** A node that nothing requires has no expansion level: the requiredBy
      ring is empty, the edges are the `requires` edges alone, and the three
      positions are those of the requires ring. */
  lemma NoRequiredBy(radius: Radius, place: Placement, nodes: seq<Node>, edges: seq<Edge>,
                     selected: string, count: Count)
    requires count.requiredBy == []
    ensures var l := Build(radius, place, nodes, edges, selected, count);
      && l.levels == []
      && l.requiredByRing == Ring([], 0.0, START_Y, 0.0)
      && l.edges == Incoming(count.requiresIds, selected)
      && l.selectedX == (if |l.requiresRing.nodes| == 0 then MARGIN else l.requiresRing.x + MARGIN)
      && l.selectedY == l.requiresRing.y
      && l.maxX == l.requiresRing.maxX
  {
    var req := RequiresRing(radius, place, nodes, count);
    var reqBy := RequiredByRing(radius, place, nodes, count);
    FilterListedNone(nodes);
    EmptyRing(radius, place, Out, OFFSET);
    RingStarts(radius, place, In, FilterListed(nodes, count.requiresIds), OFFSET);
    var e := Expansion(radius, place, nodes, edges, count.requiredBy, Seed(req, reqBy), 0);
    ExpansionFromNothing(radius, place, nodes, edges, Seed(req, reqBy), 0);
    BuildOf(radius, place, nodes, edges, selected, count, req, reqBy, e);
    NoLevelPositions(req, reqBy);
    assert Outgoing(selected, []) == [];
    assert Incoming(count.requiresIds, selected) + [] + [] == Incoming(count.requiresIds, selected);
  }

  /** Without levels and with an empty requiredBy ring, the positions are
      those of the requires ring. */
  lemma NoLevelPositions(req: Ring, reqBy: Ring)
    requires reqBy == Ring([], 0.0, START_Y, 0.0)
    requires req.x >= 0.0 && req.y >= START_Y && req.maxX >= 0.0
    ensures SelectedX(req, reqBy, []) == if |req.nodes| == 0 then MARGIN else req.x + MARGIN
    ensures SelectedY(req, reqBy, []) == req.y
    ensures MaxXPos(req, reqBy, []) == req.maxX
  {
    assert LevelXs([]) == [] && LevelYs([]) == [] && LevelMaxXs([]) == [];
  }

  /** An example of `SelectedPlacedFirst`: with node `a` selected, `b`
      requiring it and an edge from `b` to `a`, the only expansion level is
      `a` itself at offset 200. */
  lemma SelectedReplaced(radius: Radius, place: Placement)
    ensures var a := Node("a", "a", "", 1, Count([], ["b"], [], [], 0));
      var b := Node("b", "b", "", 1, Count([], [], [], [], 0));
      var l := Build(radius, place, [a, b], [Edge("b", "a")], "a", a.count);
      |l.levels| == 1 && l.levels[0].files == [a] && l.levels[0].rOffset == 200
  {
    var a := Node("a", "a", "", 1, Count([], ["b"], [], [], 0));
    var b := Node("b", "b", "", 1, Count([], [], [], [], 0));
    var req := RequiresRing(radius, place, [a, b], a.count);
    var reqBy := RequiredByRing(radius, place, [a, b], a.count);
    ExampleSeed(radius, place, a, b, req, reqBy);
    ExampleExpansion(radius, place, a, b, Seed(req, reqBy));
  }

  /** In the example only `b` is registered by the direct rings. */
  lemma ExampleSeed(radius: Radius, place: Placement, a: Node, b: Node, req: Ring, reqBy: Ring)
    requires a.id == "a" && b.id == "b" && a.count.requiresIds == [] && a.count.requiredBy == ["b"]
    requires req == RequiresRing(radius, place, [a, b], a.count)
    requires reqBy == RequiredByRing(radius, place, [a, b], a.count)
    ensures Seed(req, reqBy).Keys == {"b"}
  {
    var nodes := [a, b];
    assert FilterListed(nodes, []) == [] by {
      assert FilterListed(nodes[1..], []) == [];
    }
    assert FilterListed(nodes, ["b"]) == [b] by {
      assert nodes[1..] == [b];
      assert FilterListed(nodes[1..][1..], ["b"]) == [];
    }
    RingIds(radius, place, In, [], OFFSET);
    RingIds(radius, place, Out, [b], OFFSET);
    PlacedIdsAppend(req.nodes, reqBy.nodes);
    assert NodeIds([b]) == {"b"};
  }

  /** From the requiredBy frontier `["b"]`, the example expands one level:
      `a` alone, after which no edge leaves the frontier. */
  lemma ExampleExpansion(radius: Radius, place: Placement, a: Node, b: Node, seed: Used)
    requires a.id == "a" && b.id == "b" && seed.Keys == {"b"}
    ensures var e := Expansion(radius, place, [a, b], [Edge("b", "a")], ["b"], seed, 0);
      |e.levels| == 1 && e.levels[0].files == [a] && e.levels[0].rOffset == 200
  {
    var nodes := [a, b];
    var edges := [Edge("b", "a")];
    assert EdgesFrom(edges, ["b"]) == edges;
    assert Targets(edges) == ["a"];
    assert Unplaced(nodes, ["a"], seed) == [a] by {
      assert nodes[1..] == [b];
      assert Unplaced(nodes[1..][1..], ["a"], seed) == [];
    }
    var ring := RingOf(radius, place, Out, [a], OFFSET * 2);
    ExpansionUnfolds(radius, place, nodes, edges, ["b"], seed, 0, [a], ring);
    ExampleStops(radius, place, a, b, ring, Register(seed, ring.nodes));
  }

  /** The ring of `a` alone has frontier `["a"]`, and no edge leaves it. */
  lemma ExampleStops(radius: Radius, place: Placement, a: Node, b: Node, ring: Ring, used: Used)
    requires a.id == "a" && b.id == "b"
    requires ring == RingOf(radius, place, Out, [a], OFFSET * 2)
    ensures Expansion(radius, place, [a, b], [Edge("b", "a")], Ids(ring.nodes), used, 1).levels == []
  {
    RingIsSortedPermutation(radius, place, Out, [a], OFFSET * 2);
    RingIds(radius, place, Out, [a], OFFSET * 2);
    assert ring.nodes[0] in ring.nodes;
    assert Ids(ring.nodes) == ["a"];
    assert EdgesFrom([Edge("b", "a")], ["a"]) == [];
    assert Targets([]) == [];
    assert Unplaced([a, b], [], used) == [] by {
      assert [a, b][1..] == [b];
      assert Unplaced([b][1..], [], used) == [];
    }
  }
}
