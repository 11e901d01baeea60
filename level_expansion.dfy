/** `getNextLevel`: the outward expansion of the required-by side of the
    ripple chart. Each level takes the global edges whose source is in the
    current frontier, places the targets that are not yet in the used-node
    registry on a ring one step further out, registers them, and continues
    from them; it stops at the first level that places nothing. */
module LevelExpansion {
  import opened Graph
  import opened SizeOrder
  import opened RingLayout

  /** `usedNodes`: placed nodes by id. */
  type Used = map<string, Positioned>

  /** One expansion level: the nodes it placed and the ring they form. */
  datatype Level = Level(rOffset: nat, files: seq<Node>, ring: Ring)

  /** The levels placed, the edges collected and the final registry. */
  datatype Expanded = Expanded(levels: seq<Level>, edges: seq<Edge>, used: Used)

  /** The ids of a list of placed nodes, as a set. */
  function PlacedIds(ps: seq<Positioned>): set<string>
  {
    set p | p in ps :: p.node.id
  }

  /** The ids of placed nodes, in ring order: the next frontier. */
  function Ids(ps: seq<Positioned>): seq<string>
  {
    seq(|ps|, i requires 0 <= i < |ps| => ps[i].node.id)
  }

  /** The targets of a list of edges, in order. */
  function Targets(es: seq<Edge>): seq<string>
  {
    seq(|es|, i requires 0 <= i < |es| => es[i].target)
  }

  /** The edges whose source is in the frontier, in `edges` order. */
  function EdgesFrom(edges: seq<Edge>, frontier: seq<string>): seq<Edge>
  {
    if edges == [] then []
    else (if Listed(frontier, edges[0].source) then [edges[0]] else []) + EdgesFrom(edges[1..], frontier)
  }

  /** In `edges` order, every edge leaving the frontier, whatever its target:
      each such edge as often as in `edges`, and no other. */
  lemma {:induction false} EdgesFromCounts(edges: seq<Edge>, frontier: seq<string>)
    ensures forall e :: multiset(EdgesFrom(edges, frontier))[e] ==
                        if Listed(frontier, e.source) then multiset(edges)[e] else 0
  {
    if edges != [] {
      EdgesFromCounts(edges[1..], frontier);
      assert edges == [edges[0]] + edges[1..];
    }
  }

  /** Filtering a concatenation filters each part: the order of `edges` is kept. */
  lemma {:induction false} EdgesFromAppend(a: seq<Edge>, b: seq<Edge>, frontier: seq<string>)
    ensures EdgesFrom(a + b, frontier) == EdgesFrom(a, frontier) + EdgesFrom(b, frontier)
  {
    if a == [] {
      assert a + b == b;
    } else {
      var head := if Listed(frontier, a[0].source) then [a[0]] else [];
      assert (a + b)[0] == a[0] && (a + b)[1..] == a[1..] + b;
      EdgesFromAppend(a[1..], b, frontier);
      assert EdgesFrom(a + b, frontier) == head + (EdgesFrom(a[1..], frontier) + EdgesFrom(b, frontier));
      assert EdgesFrom(a, frontier) == head + EdgesFrom(a[1..], frontier);
    }
  }

  /** The nodes whose id is among the targets and not yet registered, in
      `nodes` order. A registered entry is an object, so it is never falsy,
      and the model reads the test as absence of an own key (ids that name a
      property every object inherits are not modelled). */
  function Unplaced(nodes: seq<Node>, keys: seq<string>, used: Used): seq<Node>
  {
    if nodes == [] then []
    else (if Listed(keys, nodes[0].id) && nodes[0].id !in used then [nodes[0]] else [])
         + Unplaced(nodes[1..], keys, used)
  }

  /** The listed nodes not yet registered, each as often as in `nodes`. */
  lemma {:induction false} UnplacedCounts(nodes: seq<Node>, keys: seq<string>, used: Used)
    ensures forall n :: multiset(Unplaced(nodes, keys, used))[n] ==
                        if Listed(keys, n.id) && n.id !in used then multiset(nodes)[n] else 0
  {
    if nodes != [] {
      UnplacedCounts(nodes[1..], keys, used);
      assert nodes == [nodes[0]] + nodes[1..];
    }
  }

  /** The filter keeps `nodes` order: filtering a concatenation filters
      each part. */
  lemma {:induction false} UnplacedAppend(a: seq<Node>, b: seq<Node>, keys: seq<string>, used: Used)
    ensures Unplaced(a + b, keys, used) == Unplaced(a, keys, used) + Unplaced(b, keys, used)
  {
    if a == [] {
      assert a + b == b;
    } else {
      assert (a + b)[0] == a[0] && (a + b)[1..] == a[1..] + b;
      UnplacedAppend(a[1..], b, keys, used);
    }
  }

  /** `ps.forEach(n => { usedNodes[n.id] = n })`: later entries overwrite
      earlier ones. */
  function Register(used: Used, ps: seq<Positioned>): (r: Used)
    ensures r.Keys == used.Keys + PlacedIds(ps)
  {
    if ps == [] then used
    else
      var init := ps[..|ps| - 1];
      var last := ps[|ps| - 1];
      assert ps == init + [last];
      assert PlacedIds(ps) == PlacedIds(init) + {last.node.id};
      Register(used, init)[last.node.id := last]
  }

  /** An id not in `ps` keeps its old entry. */
  lemma {:induction false} RegisterKeeps(used: Used, ps: seq<Positioned>, id: string)
    requires id in used && forall j :: 0 <= j < |ps| ==> ps[j].node.id != id
    ensures Register(used, ps)[id] == used[id]
  {
    if ps != [] {
      RegisterKeeps(used, ps[..|ps| - 1], id);
    }
  }

  /** Last write wins: an id maps to its last entry in `ps`. */
  lemma {:induction false} RegisterLastWins(used: Used, ps: seq<Positioned>, k: nat)
    requires k < |ps|
    requires forall j :: k < j < |ps| ==> ps[j].node.id != ps[k].node.id
    ensures Register(used, ps)[ps[k].node.id] == ps[k]
  {
    if k < |ps| - 1 {
      var init := ps[..|ps| - 1];
      assert init[k] == ps[k];
      RegisterLastWins(used, init, k);
    }
  }

  /** A ring places exactly the ids of its input. */
  lemma RingIds(radius: Radius, place: Placement, dir: Direction, files: seq<Node>, rOffset: nat)
    ensures PlacedIds(RingOf(radius, place, dir, files, rOffset).nodes) == NodeIds(files)
  {
    var ps := RingOf(radius, place, dir, files, rOffset).nodes;
    RingIsSortedPermutation(radius, place, dir, files, rOffset);
    forall id | id in PlacedIds(ps) ensures id in NodeIds(files) {
      var p :| p in ps && p.node.id == id;
      var i :| 0 <= i < |ps| && ps[i] == p;
      assert Nodes(ps)[i] == p.node;
      assert p.node in multiset(files);
    }
    forall id | id in NodeIds(files) ensures id in PlacedIds(ps) {
      var n :| n in files && n.id == id;
      assert n in multiset(Nodes(ps));
      var i :| 0 <= i < |ps| && Nodes(ps)[i] == n;
      assert ps[i] in ps;
    }
  }

  /** The unplaced nodes are nodes of the graph with unregistered ids. */
  lemma UnplacedIds(nodes: seq<Node>, keys: seq<string>, used: Used)
    ensures NodeIds(Unplaced(nodes, keys, used)) <= NodeIds(nodes) - used.Keys
  {
    var matching := Unplaced(nodes, keys, used);
    UnplacedCounts(nodes, keys, used);
    forall id | id in NodeIds(matching) ensures id in NodeIds(nodes) && id !in used.Keys {
      var n :| n in matching && n.id == id;
      assert multiset(matching)[n] > 0;
      assert n in multiset(nodes);
    }
  }

  /** Placing a non-empty set of unplaced nodes registers at least one new
      id of the graph: the measure of the expansion goes down. */
  lemma RegistryGrows(radius: Radius, place: Placement, nodes: seq<Node>, keys: seq<string>,
                      used: Used, rOffset: nat)
    requires |Unplaced(nodes, keys, used)| > 0
    ensures var ring := RingOf(radius, place, Out, Unplaced(nodes, keys, used), rOffset);
      && PlacedIds(ring.nodes) <= NodeIds(nodes) - used.Keys
      && |NodeIds(nodes) - Register(used, ring.nodes).Keys| < |NodeIds(nodes) - used.Keys|
  {
    var matching := Unplaced(nodes, keys, used);
    var ring := RingOf(radius, place, Out, matching, rOffset);
    RingIds(radius, place, Out, matching, rOffset);
    UnplacedIds(nodes, keys, used);
    var before := NodeIds(nodes) - used.Keys;
    var after := NodeIds(nodes) - Register(used, ring.nodes).Keys;
    assert Register(used, ring.nodes).Keys == used.Keys + NodeIds(matching);
    assert matching[0] in matching;
    var id := matching[0].id;
    assert id in NodeIds(matching);
    assert id in before && id !in after;
    SmallerSet(after, before, id);
  }

  lemma SmallerSet<T>(a: set<T>, b: set<T>, x: T)
    requires a <= b && x in b && x !in a
    ensures |a| < |b|
  {
    assert b == a + (b - a);
    assert x in b - a;
  }

  /** The walk of `getNextLevel` in RippleChart.tsx from a frontier at
      `level`, as a reference function: the edges leaving the frontier,
      then, when some of their targets are unregistered, the ring of those
      targets and the walk from its ids. */
  function Expansion(radius: Radius, place: Placement, nodes: seq<Node>, edges: seq<Edge>,
                     frontier: seq<string>, used: Used, level: nat): Expanded
    decreases |NodeIds(nodes) - used.Keys|
  {
    var edgeLevel := EdgesFrom(edges, frontier);
    var matching := Unplaced(nodes, Targets(edgeLevel), used);
    if |matching| == 0 then Expanded([], edgeLevel, used)
    else
      var rOffset := OFFSET * (level + 2);
      var ring := RingOf(radius, place, Out, matching, rOffset);
      RegistryGrows(radius, place, nodes, Targets(edgeLevel), used, rOffset);
      var rest := Expansion(radius, place, nodes, edges, Ids(ring.nodes), Register(used, ring.nodes), level + 1);
      Expanded([Level(rOffset, matching, ring)] + rest.levels, edgeLevel + rest.edges, rest.used)
  }

  function LevelXs(levels: seq<Level>): seq<real>
  {
    seq(|levels|, i requires 0 <= i < |levels| => levels[i].ring.x)
  }

  function LevelYs(levels: seq<Level>): seq<real>
  {
    seq(|levels|, i requires 0 <= i < |levels| => levels[i].ring.y)
  }

  function LevelMaxXs(levels: seq<Level>): seq<real>
  {
    seq(|levels|, i requires 0 <= i < |levels| => levels[i].ring.maxX)
  }

  /** A level whose targets are all registered ends the walk: it keeps its
      edges and the registry. */
  lemma ExpansionStops(radius: Radius, place: Placement, nodes: seq<Node>, edges: seq<Edge>,
                       frontier: seq<string>, used: Used, level: nat)
    requires |Unplaced(nodes, Targets(EdgesFrom(edges, frontier)), used)| == 0
    ensures Expansion(radius, place, nodes, edges, frontier, used, level) == Expanded([], EdgesFrom(edges, frontier), used)
  {
  }

  /** One unfolding of a placing step of the recursion. */
  lemma ExpansionUnfolds(radius: Radius, place: Placement, nodes: seq<Node>, edges: seq<Edge>,
                         frontier: seq<string>, used: Used, level: nat, matching: seq<Node>, ring: Ring)
    requires matching == Unplaced(nodes, Targets(EdgesFrom(edges, frontier)), used)
    requires |matching| > 0
    requires ring == RingOf(radius, place, Out, matching, OFFSET * (level + 2))
    ensures var rest := Expansion(radius, place, nodes, edges, Ids(ring.nodes), Register(used, ring.nodes), level + 1);
      Expansion(radius, place, nodes, edges, frontier, used, level) ==
      Expanded([Level(OFFSET * (level + 2), matching, ring)] + rest.levels, EdgesFrom(edges, frontier) + rest.edges, rest.used)
  {
  }

  lemma LevelExtentsAppend(levels: seq<Level>, lvl: Level)
    ensures LevelXs(levels + [lvl]) == LevelXs(levels) + [lvl.ring.x]
    ensures LevelYs(levels + [lvl]) == LevelYs(levels) + [lvl.ring.y]
    ensures LevelMaxXs(levels + [lvl]) == LevelMaxXs(levels) + [lvl.ring.maxX]
  {
  }

  /** The extent of a ring on one side: `x`, `y` or `maxX`. */
  function RingExtent(ring: Ring, side: Side): real
  {
    match side
    case Left => ring.x
    case Down => ring.y
    case Right => ring.maxX
  }

  /** The running `Math.max` of one extent over the levels, from `start`. */
  function Reach(side: Side, start: real, levels: seq<Level>): real
  {
    if levels == [] then start
    else Max(Reach(side, start, levels[..|levels| - 1]), RingExtent(levels[|levels| - 1].ring, side))
  }

  /** Folding one more level into a running extent. */
  lemma ReachSnoc(side: Side, start: real, levels: seq<Level>, lvl: Level)
    ensures Reach(side, start, levels + [lvl]) == Max(Reach(side, start, levels), RingExtent(lvl.ring, side))
  {
    assert (levels + [lvl])[..|levels|] == levels;
  }

  /** Folding a first level in, then the rest. */
  lemma {:induction false} ReachCons(side: Side, start: real, lvl: Level, rest: seq<Level>)
    ensures Reach(side, start, [lvl] + rest) == Reach(side, Max(start, RingExtent(lvl.ring, side)), rest)
    decreases |rest|
  {
    if rest == [] {
      ReachSnoc(side, start, [], lvl);
      assert [lvl] + rest == [] + [lvl];
    } else {
      var init := rest[..|rest| - 1];
      var last := rest[|rest| - 1];
      assert rest == init + [last];
      assert [lvl] + rest == ([lvl] + init) + [last];
      ReachCons(side, start, lvl, init);
      ReachSnoc(side, start, [lvl] + init, last);
      ReachSnoc(side, Max(start, RingExtent(lvl.ring, side)), init, last);
    }
  }

  /** The three positions after a first level and the rest, as the
      recursive call leaves them. */
  lemma ReachStep(lvl: Level, rest: seq<Level>, x: real, y: real, maxX: real, x': real, y': real, maxX': real)
    requires x' == Reach(Left, Max(x, lvl.ring.x), rest)
    requires y' == Reach(Down, Max(y, lvl.ring.y), rest)
    requires maxX' == Reach(Right, Max(maxX, lvl.ring.maxX), rest)
    ensures x' == Reach(Left, x, [lvl] + rest)
    ensures y' == Reach(Down, y, [lvl] + rest)
    ensures maxX' == Reach(Right, maxX, [lvl] + rest)
  {
    ReachCons(Left, x, lvl, rest);
    ReachCons(Down, y, lvl, rest);
    ReachCons(Right, maxX, lvl, rest);
  }

  /** The running extents are the maxima over the lists of level extents. */
  lemma {:induction false} ReachIsMaxFrom(start: real, levels: seq<Level>)
    ensures Reach(Left, start, levels) == MaxFrom(start, LevelXs(levels))
    ensures Reach(Down, start, levels) == MaxFrom(start, LevelYs(levels))
    ensures Reach(Right, start, levels) == MaxFrom(start, LevelMaxXs(levels))
  {
    if levels != [] {
      var init := levels[..|levels| - 1];
      var lvl := levels[|levels| - 1];
      assert levels == init + [lvl];
      ReachIsMaxFrom(start, init);
      LevelExtentsAppend(init, lvl);
      MaxFromAppend(start, LevelXs(init), lvl.ring.x);
      MaxFromAppend(start, LevelYs(init), lvl.ring.y);
      MaxFromAppend(start, LevelMaxXs(init), lvl.ring.maxX);
    }
  }

  /** One more write of the `forEach`. */
  lemma RegisterSnoc(used: Used, ps: seq<Positioned>, k: nat)
    requires k < |ps|
    ensures Register(used, ps[..k + 1]) == Register(used, ps[..k])[ps[k].node.id := ps[k]]
  {
    assert ps[..k + 1][..k] == ps[..k];
  }

  /** Registers each placed node under its id, in order. */
  method RegisterAll(used0: Used, ps: seq<Positioned>) returns (used: Used)
    ensures used == Register(used0, ps)
  {
    used := used0;
    var k := 0;
    while k < |ps|
      invariant 0 <= k <= |ps|
      invariant used == Register(used0, ps[..k])
    {
      RegisterSnoc(used0, ps, k);
      used := used[ps[k].node.id := ps[k]];
      k := k + 1;
    }
    assert ps[..k] == ps;
  }

  /** The body of one `getNextLevel` call: collect the edges leaving the
      frontier, and when some of their targets are unregistered, place them
      one ring further out and register them. */
  method NextLevel(radius: Radius, place: Placement, nodes: seq<Node>, edges: seq<Edge>,
                   frontier: seq<string>, used: Used, level: nat)
    returns (edgeLevel: seq<Edge>, placed: bool, lvl: Level, registered: Used)
    ensures edgeLevel == EdgesFrom(edges, frontier)
    ensures placed <==> |Unplaced(nodes, Targets(edgeLevel), used)| > 0
    ensures placed ==> lvl == Level(OFFSET * (level + 2), Unplaced(nodes, Targets(edgeLevel), used),
                                    RingOf(radius, place, Out, Unplaced(nodes, Targets(edgeLevel), used), OFFSET * (level + 2)))
    ensures placed ==> registered == Register(used, lvl.ring.nodes)
    ensures !placed ==> registered == used
  {
    edgeLevel := EdgesFrom(edges, frontier);
    var matching := Unplaced(nodes, Targets(edgeLevel), used);
    placed := |matching| > 0;
    registered := used;
    lvl := Level(0, [], Ring([], 0.0, START_Y, 0.0));
    if placed {
      var rOffset := OFFSET * (level + 2);
      var newNodes := MapLocation(radius, place, Out, matching, rOffset);
      lvl := Level(rOffset, matching, newNodes);
      registered := RegisterAll(used, newNodes.nodes);
    }
  }

  /** `getNextLevel(frontier, level)` itself, recursing as it does in RippleChart.tsx.
      The closure's `selectedXPos`, `selectedYPos` and `maxXPos` come in as
      `x`, `y`, `maxX` and go out folded with every level it places. */
  method GetNextLevel(radius: Radius, place: Placement, nodes: seq<Node>, edges: seq<Edge>,
                      frontier: seq<string>, used: Used, level: nat, x: real, y: real, maxX: real)
    returns (r: Expanded, x': real, y': real, maxX': real)
    ensures r == Expansion(radius, place, nodes, edges, frontier, used, level)
    ensures x' == Reach(Left, x, r.levels)
    ensures y' == Reach(Down, y, r.levels)
    ensures maxX' == Reach(Right, maxX, r.levels)
    decreases |NodeIds(nodes) - used.Keys|
  {
    var edgeLevel, placed, lvl, registered := NextLevel(radius, place, nodes, edges, frontier, used, level);
    if !placed {
      ExpansionStops(radius, place, nodes, edges, frontier, used, level);
      r := Expanded([], edgeLevel, used);
      x', y', maxX' := x, y, maxX;
    } else {
      RegistryGrows(radius, place, nodes, Targets(edgeLevel), used, lvl.rOffset);
      ExpansionUnfolds(radius, place, nodes, edges, frontier, used, level, lvl.files, lvl.ring);
      var rest;
      rest, x', y', maxX' := GetNextLevel(radius, place, nodes, edges, Ids(lvl.ring.nodes), registered, level + 1,
                                         Max(x, lvl.ring.x), Max(y, lvl.ring.y), Max(maxX, lvl.ring.maxX));
      r := Expanded([lvl] + rest.levels, edgeLevel + rest.edges, rest.used);
      ReachStep(lvl, rest.levels, x, y, maxX, x', y', maxX');
    }
  }
}

module LevelExpansionProperties {
  import opened Graph
  import opened RingLayout
  import opened LevelExpansion

  /** The ids placed by a list of levels. */
  function LevelIds(levels: seq<Level>): set<string>
  {
    if levels == [] then {} else PlacedIds(levels[0].ring.nodes) + LevelIds(levels[1..])
  }

  /** The frontier of each level: the start, then the ids each level placed. */
  function Frontiers(frontier: seq<string>, levels: seq<Level>): seq<seq<string>>
  {
    [frontier] + seq(|levels|, i requires 0 <= i < |levels| => Ids(levels[i].ring.nodes))
  }

  /** The edges leaving each frontier in turn. */
  function EdgesFromEach(edges: seq<Edge>, frontiers: seq<seq<string>>): seq<Edge>
  {
    if frontiers == [] then [] else EdgesFrom(edges, frontiers[0]) + EdgesFromEach(edges, frontiers[1..])
  }

  /** Level L sits at radial offset `100 * (L + 2)` (counting from the
      starting level), places a non-empty set of nodes, and is the ring of
      those nodes at that offset. */
  lemma {:induction false} ExpansionLevels(radius: Radius, place: Placement, nodes: seq<Node>, edges: seq<Edge>,
                                           frontier: seq<string>, used: Used, level: nat)
    ensures var r := Expansion(radius, place, nodes, edges, frontier, used, level);
      forall L :: 0 <= L < |r.levels| ==>
        && r.levels[L].rOffset == OFFSET * (level + L + 2)
        && |r.levels[L].files| > 0
        && r.levels[L].ring == RingOf(radius, place, Out, r.levels[L].files, r.levels[L].rOffset)
    decreases |NodeIds(nodes) - used.Keys|
  {
    var edgeLevel := EdgesFrom(edges, frontier);
    var matching := Unplaced(nodes, Targets(edgeLevel), used);
    if |matching| > 0 {
      var ring := RingOf(radius, place, Out, matching, OFFSET * (level + 2));
      RegistryGrows(radius, place, nodes, Targets(edgeLevel), used, OFFSET * (level + 2));
      var rest := Expansion(radius, place, nodes, edges, Ids(ring.nodes), Register(used, ring.nodes), level + 1);
      ExpansionLevels(radius, place, nodes, edges, Ids(ring.nodes), Register(used, ring.nodes), level + 1);
      ExpansionUnfolds(radius, place, nodes, edges, frontier, used, level, matching, ring);
      ConsLevels(radius, place, Level(OFFSET * (level + 2), matching, ring), rest.levels, level);
    }
  }

  lemma ConsLevels(radius: Radius, place: Placement, first: Level, rest: seq<Level>, level: nat)
    requires first.rOffset == OFFSET * (level + 2) && |first.files| > 0
    requires first.ring == RingOf(radius, place, Out, first.files, first.rOffset)
    requires forall L :: 0 <= L < |rest| ==>
        && rest[L].rOffset == OFFSET * (level + 1 + L + 2)
        && |rest[L].files| > 0
        && rest[L].ring == RingOf(radius, place, Out, rest[L].files, rest[L].rOffset)
    ensures var levels := [first] + rest;
      forall L :: 0 <= L < |levels| ==>
        && levels[L].rOffset == OFFSET * (level + L + 2)
        && |levels[L].files| > 0
        && levels[L].ring == RingOf(radius, place, Out, levels[L].files, levels[L].rOffset)
  {
    var levels := [first] + rest;
    forall L | 0 < L < |levels|
      ensures && levels[L].rOffset == OFFSET * (level + L + 2)
              && |levels[L].files| > 0
              && levels[L].ring == RingOf(radius, place, Out, levels[L].files, levels[L].rOffset)
    {
      assert levels[L] == rest[L - 1];
    }
  }

  /** Every level places only ids of the graph that were not registered
      before the expansion. */
  lemma {:induction false} ExpansionWithin(radius: Radius, place: Placement, nodes: seq<Node>, edges: seq<Edge>,
                                           frontier: seq<string>, used: Used, level: nat)
    ensures var r := Expansion(radius, place, nodes, edges, frontier, used, level);
      forall L :: 0 <= L < |r.levels| ==> PlacedIds(r.levels[L].ring.nodes) <= NodeIds(nodes) - used.Keys
    decreases |NodeIds(nodes) - used.Keys|
  {
    var edgeLevel := EdgesFrom(edges, frontier);
    var matching := Unplaced(nodes, Targets(edgeLevel), used);
    if |matching| > 0 {
      var rOffset := OFFSET * (level + 2);
      var ring := RingOf(radius, place, Out, matching, rOffset);
      var used' := Register(used, ring.nodes);
      RegistryGrows(radius, place, nodes, Targets(edgeLevel), used, rOffset);
      ExpansionWithin(radius, place, nodes, edges, Ids(ring.nodes), used', level + 1);
      ExpansionUnfolds(radius, place, nodes, edges, frontier, used, level, matching, ring);
      var rest := Expansion(radius, place, nodes, edges, Ids(ring.nodes), used', level + 1);
      ConsWithin(Level(rOffset, matching, ring), rest.levels, NodeIds(nodes), used.Keys, used'.Keys);
    }
  }

  lemma ConsWithin(first: Level, rest: seq<Level>, all: set<string>, before: set<string>, after: set<string>)
    requires PlacedIds(first.ring.nodes) <= all - before && before <= after
    requires forall L :: 0 <= L < |rest| ==> PlacedIds(rest[L].ring.nodes) <= all - after
    ensures var levels := [first] + rest;
      forall L :: 0 <= L < |levels| ==> PlacedIds(levels[L].ring.nodes) <= all - before
  {
    var levels := [first] + rest;
    forall L | 0 < L < |levels| ensures PlacedIds(levels[L].ring.nodes) <= all - before {
      assert levels[L] == rest[L - 1];
    }
  }

  /** No id is placed by two levels, cycles or not. */
  lemma {:induction false} ExpansionDisjoint(radius: Radius, place: Placement, nodes: seq<Node>, edges: seq<Edge>,
                                             frontier: seq<string>, used: Used, level: nat)
    ensures var r := Expansion(radius, place, nodes, edges, frontier, used, level);
      forall L1, L2 :: 0 <= L1 < L2 < |r.levels| ==>
        PlacedIds(r.levels[L1].ring.nodes) !! PlacedIds(r.levels[L2].ring.nodes)
    decreases |NodeIds(nodes) - used.Keys|
  {
    var edgeLevel := EdgesFrom(edges, frontier);
    var matching := Unplaced(nodes, Targets(edgeLevel), used);
    if |matching| > 0 {
      var rOffset := OFFSET * (level + 2);
      var ring := RingOf(radius, place, Out, matching, rOffset);
      var used' := Register(used, ring.nodes);
      RegistryGrows(radius, place, nodes, Targets(edgeLevel), used, rOffset);
      ExpansionDisjoint(radius, place, nodes, edges, Ids(ring.nodes), used', level + 1);
      ExpansionWithin(radius, place, nodes, edges, Ids(ring.nodes), used', level + 1);
      ExpansionUnfolds(radius, place, nodes, edges, frontier, used, level, matching, ring);
      var rest := Expansion(radius, place, nodes, edges, Ids(ring.nodes), used', level + 1);
      ConsDisjoint(Level(rOffset, matching, ring), rest.levels, NodeIds(nodes), used.Keys, used'.Keys);
    }
  }

  lemma ConsDisjoint(first: Level, rest: seq<Level>, all: set<string>, before: set<string>, after: set<string>)
    requires after == before + PlacedIds(first.ring.nodes)
    requires forall L :: 0 <= L < |rest| ==> PlacedIds(rest[L].ring.nodes) <= all - after
    requires forall L1, L2 :: 0 <= L1 < L2 < |rest| ==> PlacedIds(rest[L1].ring.nodes) !! PlacedIds(rest[L2].ring.nodes)
    ensures var levels := [first] + rest;
      forall L1, L2 :: 0 <= L1 < L2 < |levels| ==> PlacedIds(levels[L1].ring.nodes) !! PlacedIds(levels[L2].ring.nodes)
  {
    var levels := [first] + rest;
    forall L1, L2 | 0 <= L1 < L2 < |levels|
      ensures PlacedIds(levels[L1].ring.nodes) !! PlacedIds(levels[L2].ring.nodes)
    {
      assert levels[L2] == rest[L2 - 1];
      if L1 > 0 {
        assert levels[L1] == rest[L1 - 1];
      }
    }
  }

  /** The registry ends up holding exactly the old ids and the placed ones. */
  lemma {:induction false} ExpansionRegistry(radius: Radius, place: Placement, nodes: seq<Node>, edges: seq<Edge>,
                                             frontier: seq<string>, used: Used, level: nat)
    ensures var r := Expansion(radius, place, nodes, edges, frontier, used, level);
      r.used.Keys == used.Keys + LevelIds(r.levels)
    decreases |NodeIds(nodes) - used.Keys|
  {
    var edgeLevel := EdgesFrom(edges, frontier);
    var matching := Unplaced(nodes, Targets(edgeLevel), used);
    if |matching| > 0 {
      var rOffset := OFFSET * (level + 2);
      var ring := RingOf(radius, place, Out, matching, rOffset);
      var used' := Register(used, ring.nodes);
      RegistryGrows(radius, place, nodes, Targets(edgeLevel), used, rOffset);
      ExpansionRegistry(radius, place, nodes, edges, Ids(ring.nodes), used', level + 1);
      ExpansionUnfolds(radius, place, nodes, edges, frontier, used, level, matching, ring);
      var rest := Expansion(radius, place, nodes, edges, Ids(ring.nodes), used', level + 1);
      LevelIdsCons(Level(rOffset, matching, ring), rest.levels);
      UnionAssociates(rest.used.Keys, used.Keys, PlacedIds(ring.nodes), LevelIds(rest.levels), used'.Keys);
    }
  }

  lemma UnionAssociates<T>(final: set<T>, before: set<T>, placed: set<T>, later: set<T>, after: set<T>)
    requires after == before + placed && final == after + later
    ensures final == before + (placed + later)
  {
  }

  lemma LevelIdsCons(first: Level, rest: seq<Level>)
    ensures LevelIds([first] + rest) == PlacedIds(first.ring.nodes) + LevelIds(rest)
  {
    assert ([first] + rest)[1..] == rest;
  }

  /** An entry registered before the expansion is never overwritten. */
  lemma {:induction false} ExpansionKeeps(radius: Radius, place: Placement, nodes: seq<Node>, edges: seq<Edge>,
                                          frontier: seq<string>, used: Used, level: nat, id: string)
    requires id in used
    ensures var r := Expansion(radius, place, nodes, edges, frontier, used, level);
      id in r.used && r.used[id] == used[id]
    decreases |NodeIds(nodes) - used.Keys|
  {
    var edgeLevel := EdgesFrom(edges, frontier);
    var matching := Unplaced(nodes, Targets(edgeLevel), used);
    if |matching| > 0 {
      var rOffset := OFFSET * (level + 2);
      var ring := RingOf(radius, place, Out, matching, rOffset);
      var used' := Register(used, ring.nodes);
      RegistryGrows(radius, place, nodes, Targets(edgeLevel), used, rOffset);
      forall j | 0 <= j < |ring.nodes| ensures ring.nodes[j].node.id != id {
        assert ring.nodes[j] in ring.nodes;
        assert ring.nodes[j].node.id in PlacedIds(ring.nodes);
      }
      RegisterKeeps(used, ring.nodes, id);
      ExpansionKeeps(radius, place, nodes, edges, Ids(ring.nodes), used', level + 1, id);
      ExpansionUnfolds(radius, place, nodes, edges, frontier, used, level, matching, ring);
    }
  }

  /** There are at most as many levels as unregistered ids of the graph. */
  lemma {:induction false} ExpansionBound(radius: Radius, place: Placement, nodes: seq<Node>, edges: seq<Edge>,
                                          frontier: seq<string>, used: Used, level: nat)
    ensures |Expansion(radius, place, nodes, edges, frontier, used, level).levels| <= |NodeIds(nodes) - used.Keys|
    decreases |NodeIds(nodes) - used.Keys|
  {
    var edgeLevel := EdgesFrom(edges, frontier);
    var matching := Unplaced(nodes, Targets(edgeLevel), used);
    if |matching| > 0 {
      var rOffset := OFFSET * (level + 2);
      var ring := RingOf(radius, place, Out, matching, rOffset);
      RegistryGrows(radius, place, nodes, Targets(edgeLevel), used, rOffset);
      ExpansionBound(radius, place, nodes, edges, Ids(ring.nodes), Register(used, ring.nodes), level + 1);
      ExpansionUnfolds(radius, place, nodes, edges, frontier, used, level, matching, ring);
    }
  }

  /** The collected edges: for each frontier in turn (the start, then the
      ids each level placed), every edge leaving it, in `edges` order. */
  lemma {:induction false} ExpansionEdges(radius: Radius, place: Placement, nodes: seq<Node>, edges: seq<Edge>,
                                          frontier: seq<string>, used: Used, level: nat)
    ensures var r := Expansion(radius, place, nodes, edges, frontier, used, level);
      r.edges == EdgesFromEach(edges, Frontiers(frontier, r.levels))
    decreases |NodeIds(nodes) - used.Keys|
  {
    var edgeLevel := EdgesFrom(edges, frontier);
    var matching := Unplaced(nodes, Targets(edgeLevel), used);
    if |matching| > 0 {
      var rOffset := OFFSET * (level + 2);
      var ring := RingOf(radius, place, Out, matching, rOffset);
      var used' := Register(used, ring.nodes);
      RegistryGrows(radius, place, nodes, Targets(edgeLevel), used, rOffset);
      ExpansionEdges(radius, place, nodes, edges, Ids(ring.nodes), used', level + 1);
      ExpansionUnfolds(radius, place, nodes, edges, frontier, used, level, matching, ring);
      var rest := Expansion(radius, place, nodes, edges, Ids(ring.nodes), used', level + 1);
      EdgesCons(edges, frontier, Level(rOffset, matching, ring), rest.levels);
    } else {
      EdgesStop(edges, frontier);
    }
  }

  lemma EdgesCons(edges: seq<Edge>, frontier: seq<string>, first: Level, rest: seq<Level>)
    ensures EdgesFromEach(edges, Frontiers(frontier, [first] + rest)) ==
            EdgesFrom(edges, frontier) + EdgesFromEach(edges, Frontiers(Ids(first.ring.nodes), rest))
  {
    var levels := [first] + rest;
    var fr := Frontiers(frontier, levels);
    assert fr[0] == frontier;
    assert fr[1..] == Frontiers(Ids(first.ring.nodes), rest);
  }

  lemma EdgesStop(edges: seq<Edge>, frontier: seq<string>)
    ensures EdgesFromEach(edges, Frontiers(frontier, [])) == EdgesFrom(edges, frontier)
  {
    var fr := Frontiers(frontier, []);
    assert fr == [frontier] && fr[1..] == [];
    assert EdgesFromEach(edges, fr) == EdgesFrom(edges, frontier) + [];
  }

  /** With no edge, no level is placed and no edge is collected. */
  lemma {:induction false} EdgesFromNone(edges: seq<Edge>)
    ensures EdgesFrom(edges, []) == []
  {
    if edges != [] {
      EdgesFromNone(edges[1..]);
    }
  }

  lemma {:induction false} UnplacedNone(nodes: seq<Node>, used: Used)
    ensures Unplaced(nodes, [], used) == []
  {
    if nodes != [] {
      UnplacedNone(nodes[1..], used);
    }
  }

  /** An empty frontier collects no edge and places no level. */
  lemma ExpansionFromNothing(radius: Radius, place: Placement, nodes: seq<Node>, edges: seq<Edge>,
                             used: Used, level: nat)
    ensures Expansion(radius, place, nodes, edges, [], used, level) == Expanded([], [], used)
  {
    EdgesFromNone(edges);
    assert Targets([]) == [];
    UnplacedNone(nodes, used);
  }

  /** An unregistered node that an edge from the frontier leads to is placed
      on the very next level. */
  lemma ExpansionPlacesTarget(radius: Radius, place: Placement, nodes: seq<Node>, edges: seq<Edge>,
                              frontier: seq<string>, used: Used, level: nat, n: Node, b: string)
    requires n in nodes && n.id !in used
    requires b in frontier && Edge(b, n.id) in edges
    ensures var r := Expansion(radius, place, nodes, edges, frontier, used, level);
      && |r.levels| > 0
      && r.levels[0].rOffset == OFFSET * (level + 2)
      && n.id in PlacedIds(r.levels[0].ring.nodes)
  {
    var edgeLevel := EdgesFrom(edges, frontier);
    var e := Edge(b, n.id);
    EdgesFromCounts(edges, frontier);
    assert multiset(edges)[e] > 0;
    assert e in multiset(edgeLevel);
    var i :| 0 <= i < |edgeLevel| && edgeLevel[i] == e;
    assert Targets(edgeLevel)[i] == n.id;
    var matching := Unplaced(nodes, Targets(edgeLevel), used);
    UnplacedCounts(nodes, Targets(edgeLevel), used);
    assert n in multiset(matching);
    assert n in matching;
    var ring := RingOf(radius, place, Out, matching, OFFSET * (level + 2));
    ExpansionUnfolds(radius, place, nodes, edges, frontier, used, level, matching, ring);
    RingIds(radius, place, Out, matching, OFFSET * (level + 2));
    assert n.id in NodeIds(matching);
  }
}
