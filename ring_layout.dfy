/** `mapLocation`: one ring of the ripple chart. The nodes are sorted by size,
    each reserves a slot of its circle's diameter along the arc, and the
    ring reports how far it reaches left, down and right so that the chart
    can size its viewport.

    The floating-point geometry is not modelled: the square-root radius scale
    is the parameter `radius`, and the arc radius, the angle scale and the
    sine/cosine placement of one node are the parameter `place`. */
module RingLayout {
  import opened Graph
  import opened SizeOrder

  /** The default radial offset of a ring, and the floor of its arc radius. */
  const OFFSET: nat := 100
  /** The starting value of a ring's downward extent. */
  const START_Y: real := 150.0

  /** "in" lays out what the selected node requires, "out" what requires it. */
  datatype Direction = In | Out

  /** The radius scale: drawn radius for a byte size. */
  type Radius = nat -> real

  /** The chart's radius scale (square root, 0 at 0) is strictly increasing
      when its domain maximum is positive. */
  ghost predicate IncreasingFromZero(radius: Radius)
  {
    radius(0) == 0.0 && forall a: nat, b: nat :: a < b ==> radius(a) < radius(b)
  }

  datatype Point = Point(x: real, y: real, degrees: real)

  /** Where a node sits, given the ring's direction, its radial offset, the
      ring's total spacing and the node's offset along the arc. */
  type Placement = (Direction, nat, real, real) -> Point

  /** A node after the first pass: its radius, the width it reserves and the
      middle of its slot. */
  datatype Slot = Slot(node: Node, r: real, spacing: real, offset: real)

  /** A node with its position. */
  datatype Positioned = Positioned(node: Node, r: real, spacing: real, offset: real,
                                   x: real, y: real, degrees: real)

  /** The result of `mapLocation`: the placed nodes and the three extents. */
  datatype Ring = Ring(nodes: seq<Positioned>, x: real, y: real, maxX: real)

  /** The larger of two reals. */
  function Max(a: real, b: real): real
  {
    if a >= b then a else b
  }

  /** The arc length a node takes: its diameter, never negative. */
  function Spacing(radius: Radius, n: Node): real
  {
    Max(radius(n.totalBytes) * 2.0, 0.0)
  }

  /** The total spacing of a node list. */
  function Span(radius: Radius, s: seq<Node>): real
  {
    if s == [] then 0.0 else Spacing(radius, s[0]) + Span(radius, s[1..])
  }

  /** The loop `if (c > acc) acc = c` over the candidates, from `start`. */
  function MaxFrom(start: real, c: seq<real>): real
  {
    if c == [] then start
    else
      var m := MaxFrom(start, c[..|c| - 1]);
      if c[|c| - 1] > m then c[|c| - 1] else m
  }

  function Nodes(ps: seq<Positioned>): seq<Node>
  {
    seq(|ps|, i requires 0 <= i < |ps| => ps[i].node)
  }

  /** The first pass from a running total of `before`: every node reserves
      its spacing and sits in the middle of it. */
  function SlotsFrom(radius: Radius, s: seq<Node>, before: real): seq<Slot>
  {
    if s == [] then []
    else
      var spacing := Spacing(radius, s[0]);
      [Slot(s[0], radius(s[0].totalBytes), spacing, before + spacing / 2.0)]
        + SlotsFrom(radius, s[1..], before + spacing)
  }

  /** The second pass's value for one slot. */
  function PlaceSlot(radius: Radius, place: Placement, dir: Direction, rOffset: nat,
                     total: real, s: Slot): Positioned
  {
    var p := place(dir, rOffset, total, s.offset);
    Positioned(s.node, radius(s.node.totalBytes), s.spacing, s.offset, p.x, p.y, p.degrees)
  }

  /** The second pass over the slots. */
  function Placed(radius: Radius, place: Placement, dir: Direction, rOffset: nat,
                  total: real, slots: seq<Slot>): seq<Positioned>
  {
    if slots == [] then []
    else [PlaceSlot(radius, place, dir, rOffset, total, slots[0])]
         + Placed(radius, place, dir, rOffset, total, slots[1..])
  }

  /** The three extents a ring tracks. */
  datatype Side = Left | Down | Right

  /** A node's candidate for an extent: `-(x + r)`, `y` and `x`. */
  function Candidate(side: Side, p: Positioned): real
  {
    match side
    case Left => -(p.x + p.r)
    case Down => p.y
    case Right => p.x
  }

  /** `if (c > acc) acc = c` for each node in turn. */
  function ExtentFrom(side: Side, acc: real, ps: seq<Positioned>): real
    decreases |ps|
  {
    if ps == [] then acc
    else
      var c := Candidate(side, ps[0]);
      ExtentFrom(side, if c > acc then c else acc, ps[1..])
  }

  /** What `mapLocation(radiusScale, dir, files, rOffset)` returns. */
  function RingOf(radius: Radius, place: Placement, dir: Direction, files: seq<Node>, rOffset: nat): Ring
  {
    var sorted := SortBySize(files);
    var ps := Placed(radius, place, dir, rOffset, Span(radius, sorted), SlotsFrom(radius, sorted, 0.0));
    Ring(ps, ExtentFrom(Left, 0.0, ps), ExtentFrom(Down, START_Y, ps), ExtentFrom(Right, 0.0, ps))
  }

  lemma {:induction false} SpanAppend(radius: Radius, a: seq<Node>, b: seq<Node>)
    ensures Span(radius, a + b) == Span(radius, a) + Span(radius, b)
  {
    if a != [] {
      assert (a + b)[1..] == a[1..] + b;
      SpanAppend(radius, a[1..], b);
    } else {
      assert a + b == b;
    }
  }

  lemma {:induction false} SpanNonNegative(radius: Radius, s: seq<Node>)
    ensures Span(radius, s) >= 0.0
  {
    if s != [] {
      SpanNonNegative(radius, s[1..]);
    }
  }

  lemma {:induction false} SpanInsert(radius: Radius, x: Node, t: seq<Node>)
    ensures Span(radius, Insert(x, t)) == Spacing(radius, x) + Span(radius, t)
    decreases |t|
  {
    if t == [] || x.totalBytes >= t[0].totalBytes {
      assert ([x] + t)[1..] == t;
    } else {
      SpanInsert(radius, x, t[1..]);
      assert ([t[0]] + Insert(x, t[1..]))[1..] == Insert(x, t[1..]);
    }
  }

  /** The total spacing does not depend on the order of the nodes. */
  lemma {:induction false} SpanOfSorted(radius: Radius, s: seq<Node>)
    ensures Span(radius, SortBySize(s)) == Span(radius, s)
  {
    if s != [] {
      SpanOfSorted(radius, s[1..]);
      SpanInsert(radius, s[0], SortBySize(s[1..]));
    }
  }

  /** A prefix's span plus the rest's span is the whole span. */
  lemma SpanSplit(radius: Radius, s: seq<Node>, i: nat, j: nat)
    requires i <= j <= |s|
    ensures Span(radius, s[..j]) == Span(radius, s[..i]) + Span(radius, s[i..j])
    ensures Span(radius, s[..j]) >= Span(radius, s[..i])
  {
    assert s[..j] == s[..i] + s[i..j];
    SpanAppend(radius, s[..i], s[i..j]);
    SpanNonNegative(radius, s[i..j]);
  }

  /** The i-th slot: its node, its radius, its spacing, and an offset of the
      running total, plus the spacing of the nodes before it, plus half its
      own spacing. */
  lemma {:induction false} SlotsFromAt(radius: Radius, s: seq<Node>, before: real, i: nat)
    requires i < |s|
    ensures |SlotsFrom(radius, s, before)| == |s|
    ensures SlotsFrom(radius, s, before)[i] ==
            Slot(s[i], radius(s[i].totalBytes), Spacing(radius, s[i]),
                 before + Span(radius, s[..i]) + Spacing(radius, s[i]) / 2.0)
  {
    var spacing := Spacing(radius, s[0]);
    if i == 0 {
      if |s| > 1 {
        SlotsFromAt(radius, s[1..], before + spacing, 0);
      } else {
        assert s[1..] == [];
      }
    } else {
      SlotsFromAt(radius, s[1..], before + spacing, i - 1);
      assert s[..i][1..] == s[1..][..i - 1];
      assert s[..i][0] == s[0];
    }
  }

  lemma {:induction false} PlacedAt(radius: Radius, place: Placement, dir: Direction, rOffset: nat,
                                    total: real, slots: seq<Slot>, i: nat)
    requires i < |slots|
    ensures |Placed(radius, place, dir, rOffset, total, slots)| == |slots|
    ensures Placed(radius, place, dir, rOffset, total, slots)[i] == PlaceSlot(radius, place, dir, rOffset, total, slots[i])
  {
    if i == 0 {
      if |slots| > 1 {
        PlacedAt(radius, place, dir, rOffset, total, slots[1..], 0);
      } else {
        assert slots[1..] == [];
      }
    } else {
      PlacedAt(radius, place, dir, rOffset, total, slots[1..], i - 1);
    }
  }

  lemma {:induction false} ExtentAppend(side: Side, acc: real, a: seq<Positioned>, b: seq<Positioned>)
    ensures ExtentFrom(side, acc, a + b) == ExtentFrom(side, ExtentFrom(side, acc, a), b)
    decreases |a|
  {
    if a == [] {
      assert a + b == b;
    } else {
      var c := Candidate(side, a[0]);
      ExtentAppend(side, if c > acc then c else acc, a[1..], b);
      assert (a + b)[1..] == a[1..] + b;
    }
  }

  /** An extent is the maximum of its start value and its candidates. */
  lemma {:induction false} ExtentIsMax(side: Side, acc: real, ps: seq<Positioned>)
    ensures ExtentFrom(side, acc, ps) >= acc
    ensures forall i :: 0 <= i < |ps| ==> ExtentFrom(side, acc, ps) >= Candidate(side, ps[i])
    ensures ExtentFrom(side, acc, ps) == acc ||
            exists i :: 0 <= i < |ps| && ExtentFrom(side, acc, ps) == Candidate(side, ps[i])
    decreases |ps|
  {
    if ps != [] {
      var c := Candidate(side, ps[0]);
      var acc' := if c > acc then c else acc;
      ExtentIsMax(side, acc', ps[1..]);
      assert forall i :: 1 <= i < |ps| ==> ps[i] == ps[1..][i - 1];
      var e := ExtentFrom(side, acc, ps);
      if e != acc && e != c {
        var j :| 0 <= j < |ps[1..]| && e == Candidate(side, ps[1..][j]);
        assert e == Candidate(side, ps[j + 1]);
      }
    }
  }

  /** `MaxFrom` is the maximum of its start and its candidates. */
  lemma {:induction false} MaxFromIsMax(start: real, c: seq<real>)
    ensures MaxFrom(start, c) >= start
    ensures forall i :: 0 <= i < |c| ==> MaxFrom(start, c) >= c[i]
    ensures MaxFrom(start, c) == start || exists i :: 0 <= i < |c| && MaxFrom(start, c) == c[i]
  {
    if c != [] {
      var init := c[..|c| - 1];
      MaxFromIsMax(start, init);
      assert forall i :: 0 <= i < |init| ==> c[i] == init[i];
    }
  }

  lemma MaxFromAppend(start: real, c: seq<real>, v: real)
    ensures MaxFrom(start, c + [v]) == if v > MaxFrom(start, c) then v else MaxFrom(start, c)
  {
    assert (c + [v])[..|c|] == c;
  }

  /** The first `map` of `mapLocation`: slots, accumulating the total. */
  method AssignSlots(radius: Radius, sorted: seq<Node>) returns (slots: seq<Slot>, total: real)
    ensures slots == SlotsFrom(radius, sorted, 0.0)
    ensures total == Span(radius, sorted)
  {
    total := 0.0;
    slots := [];
    var i := 0;
    while i < |sorted|
      invariant 0 <= i <= |sorted|
      invariant slots + SlotsFrom(radius, sorted[i..], total) == SlotsFrom(radius, sorted, 0.0)
      invariant total + Span(radius, sorted[i..]) == Span(radius, sorted)
    {
      var d := sorted[i];
      var spacing := Max(radius(d.totalBytes) * 2.0, 0.0);
      assert sorted[i..][1..] == sorted[i + 1..];
      var slot := Slot(d, radius(d.totalBytes), spacing, total + spacing / 2.0);
      assert SlotsFrom(radius, sorted[i..], total) == [slot] + SlotsFrom(radius, sorted[i + 1..], total + spacing);
      slots := slots + [slot];
      total := total + spacing;
      i := i + 1;
    }
  }

  /** One more node on the right of an extent's fold. */
  lemma ExtentSnoc(side: Side, acc: real, ps: seq<Positioned>, p: Positioned)
    ensures var e := ExtentFrom(side, acc, ps);
      ExtentFrom(side, acc, ps + [p]) == if Candidate(side, p) > e then Candidate(side, p) else e
  {
    ExtentAppend(side, acc, ps, [p]);
  }

  lemma {:induction false} PlacedAppend(radius: Radius, place: Placement, dir: Direction, rOffset: nat,
                                        total: real, a: seq<Slot>, b: seq<Slot>)
    ensures Placed(radius, place, dir, rOffset, total, a + b) ==
            Placed(radius, place, dir, rOffset, total, a) + Placed(radius, place, dir, rOffset, total, b)
  {
    if a == [] {
      assert a + b == b;
    } else {
      var head := [PlaceSlot(radius, place, dir, rOffset, total, a[0])];
      PlacedAppend(radius, place, dir, rOffset, total, a[1..], b);
      assert (a + b)[0] == a[0] && (a + b)[1..] == a[1..] + b;
      assert Placed(radius, place, dir, rOffset, total, a + b) ==
             head + Placed(radius, place, dir, rOffset, total, a[1..] + b);
      assert Placed(radius, place, dir, rOffset, total, a) ==
             head + Placed(radius, place, dir, rOffset, total, a[1..]);
    }
  }

  /** Placing one slot more appends its node. */
  lemma PlacedSnoc(radius: Radius, place: Placement, dir: Direction, rOffset: nat,
                   total: real, slots: seq<Slot>, i: nat)
    requires i < |slots|
    ensures Placed(radius, place, dir, rOffset, total, slots[..i + 1]) ==
            Placed(radius, place, dir, rOffset, total, slots[..i]) + [PlaceSlot(radius, place, dir, rOffset, total, slots[i])]
  {
    assert slots[..i + 1] == slots[..i] + [slots[i]];
    PlacedAppend(radius, place, dir, rOffset, total, slots[..i], [slots[i]]);
    assert [slots[i]][1..] == [];
  }

  /** The second `map` of `mapLocation`: positions, accumulating the extents. */
  method PlaceNodes(radius: Radius, place: Placement, dir: Direction, rOffset: nat,
                    total: real, slots: seq<Slot>) returns (ring: Ring)
    ensures var ps := Placed(radius, place, dir, rOffset, total, slots);
      ring == Ring(ps, ExtentFrom(Left, 0.0, ps), ExtentFrom(Down, START_Y, ps), ExtentFrom(Right, 0.0, ps))
  {
    var translateX, translateY, maxX := 0.0, START_Y, 0.0;
    var ps: seq<Positioned> := [];
    var i := 0;
    while i < |slots|
      invariant 0 <= i <= |slots|
      invariant ps == Placed(radius, place, dir, rOffset, total, slots[..i])
      invariant translateX == ExtentFrom(Left, 0.0, ps)
      invariant translateY == ExtentFrom(Down, START_Y, ps)
      invariant maxX == ExtentFrom(Right, 0.0, ps)
    {
      var node := PlaceSlot(radius, place, dir, rOffset, total, slots[i]);
      PlacedSnoc(radius, place, dir, rOffset, total, slots, i);
      ExtentSnoc(Left, 0.0, ps, node);
      ExtentSnoc(Down, START_Y, ps, node);
      ExtentSnoc(Right, 0.0, ps, node);
      if -(node.x + node.r) > translateX { translateX := -(node.x + node.r); }
      if node.y > translateY { translateY := node.y; }
      if node.x > maxX { maxX := node.x; }
      ps := ps + [node];
      i := i + 1;
    }
    assert slots[..i] == slots;
    ring := Ring(ps, translateX, translateY, maxX);
  }

  /** `mapLocation` itself: sort, then the two passes. */
  method MapLocation(radius: Radius, place: Placement, dir: Direction, files: seq<Node>,
                     rOffset: nat) returns (ring: Ring)
    ensures ring == RingOf(radius, place, dir, files, rOffset)
  {
    var sorted := SortBySize(files);
    var slots, total := AssignSlots(radius, sorted);
    ring := PlaceNodes(radius, place, dir, rOffset, total, slots);
  }

  /** The i-th placed node of a ring, in terms of the sorted input. */
  lemma RingAt(radius: Radius, place: Placement, dir: Direction, files: seq<Node>, rOffset: nat, i: nat)
    requires i < |files|
    ensures var sorted := SortBySize(files);
      var ps := RingOf(radius, place, dir, files, rOffset).nodes;
      && |sorted| == |files| && |ps| == |files|
      && ps[i].node == sorted[i]
      && ps[i].r == radius(sorted[i].totalBytes)
      && ps[i].spacing == Spacing(radius, sorted[i])
      && ps[i].offset == Span(radius, sorted[..i]) + Spacing(radius, sorted[i]) / 2.0
  {
    var sorted := SortBySize(files);
    SortProperties(files);
    var slots := SlotsFrom(radius, sorted, 0.0);
    SlotsFromAt(radius, sorted, 0.0, i);
    PlacedAt(radius, place, dir, rOffset, Span(radius, sorted), slots, i);
  }

  /** The ring holds exactly the input nodes, largest first, nodes of equal
      size in their input order. */
  lemma RingIsSortedPermutation(radius: Radius, place: Placement, dir: Direction,
                                files: seq<Node>, rOffset: nat)
    ensures var ring := RingOf(radius, place, dir, files, rOffset);
      && |ring.nodes| == |files|
      && multiset(Nodes(ring.nodes)) == multiset(files)
      && SortedBySize(Nodes(ring.nodes))
      && forall k: nat :: OfSize(Nodes(ring.nodes), k) == OfSize(files, k)
  {
    var ps := RingOf(radius, place, dir, files, rOffset).nodes;
    SortProperties(files);
    if files == [] {
      assert ps == [];
    } else {
      RingAt(radius, place, dir, files, rOffset, 0);
      forall i | 0 <= i < |files| ensures ps[i].node == SortBySize(files)[i] {
        RingAt(radius, place, dir, files, rOffset, i);
      }
    }
    assert Nodes(ps) == SortBySize(files);
  }

  /** A slot's offset lies between 0 and the total spacing. */
  lemma OffsetWithin(radius: Radius, s: seq<Node>, i: nat)
    requires i < |s|
    ensures Spacing(radius, s[i]) >= 0.0
    ensures 0.0 <= Span(radius, s[..i]) + Spacing(radius, s[i]) / 2.0 <= Span(radius, s)
  {
    SpanNonNegative(radius, s[..i]);
    SpanSplit(radius, s, i + 1, |s|);
    assert s[..i + 1] == s[..i] + [s[i]];
    SpanAppend(radius, s[..i], [s[i]]);
    assert s[..|s|] == s;
  }

  /** Two slots are at least half of both spacings apart. */
  lemma OffsetsApart(radius: Radius, s: seq<Node>, i: nat, j: nat)
    requires i < j < |s|
    ensures Span(radius, s[..i]) + Spacing(radius, s[i]) / 2.0 + (Spacing(radius, s[i]) + Spacing(radius, s[j])) / 2.0
            <= Span(radius, s[..j]) + Spacing(radius, s[j]) / 2.0
  {
    SpanSplit(radius, s, i + 1, j);
    assert s[..i + 1] == s[..i] + [s[i]];
    SpanAppend(radius, s[..i], [s[i]]);
  }

  /** Slots: each spacing is `max(2r, 0)`, each offset is the spacing of
      the nodes before it plus half its own; the offsets lie between 0 and
      the ring's total spacing, which is the sum of all spacings in any
      order, and no two nodes' spacings overlap. */
  lemma RingSlots(radius: Radius, place: Placement, dir: Direction, files: seq<Node>, rOffset: nat)
    ensures var ps := RingOf(radius, place, dir, files, rOffset).nodes;
      && |ps| == |files|
      && Span(radius, Nodes(ps)) == Span(radius, files)
      && (forall i :: 0 <= i < |ps| ==>
            && ps[i].spacing == Max(2.0 * ps[i].r, 0.0) >= 0.0
            && ps[i].r == radius(ps[i].node.totalBytes)
            && ps[i].offset == Span(radius, Nodes(ps)[..i]) + ps[i].spacing / 2.0
            && 0.0 <= ps[i].offset <= Span(radius, files))
      && (forall i, j :: 0 <= i < j < |ps| ==> ps[i].offset + (ps[i].spacing + ps[j].spacing) / 2.0 <= ps[j].offset)
  {
    var sorted := SortBySize(files);
    var ps := RingOf(radius, place, dir, files, rOffset).nodes;
    SortProperties(files);
    SpanOfSorted(radius, files);
    assert |ps| == |files| by {
      if files != [] { RingAt(radius, place, dir, files, rOffset, 0); }
    }
    assert Nodes(ps) == sorted by {
      forall i | 0 <= i < |files| ensures ps[i].node == sorted[i] {
        RingAt(radius, place, dir, files, rOffset, i);
      }
    }
    forall i | 0 <= i < |ps|
      ensures 0.0 <= ps[i].offset <= Span(radius, files)
      ensures ps[i].spacing == Max(2.0 * ps[i].r, 0.0) >= 0.0
      ensures ps[i].r == radius(ps[i].node.totalBytes)
      ensures ps[i].offset == Span(radius, Nodes(ps)[..i]) + ps[i].spacing / 2.0
    {
      RingAt(radius, place, dir, files, rOffset, i);
      OffsetWithin(radius, sorted, i);
    }
    forall i, j | 0 <= i < j < |ps|
      ensures ps[i].offset + (ps[i].spacing + ps[j].spacing) / 2.0 <= ps[j].offset
    {
      RingAt(radius, place, dir, files, rOffset, i);
      RingAt(radius, place, dir, files, rOffset, j);
      OffsetsApart(radius, sorted, i, j);
    }
  }

  /** With the chart's radius scale, a strictly larger node sits strictly
      nearer the start of the arc. */
  lemma LargerFirst(radius: Radius, place: Placement, dir: Direction, files: seq<Node>, rOffset: nat)
    requires IncreasingFromZero(radius)
    ensures var ps := RingOf(radius, place, dir, files, rOffset).nodes;
      forall i, j :: 0 <= i < |ps| && 0 <= j < |ps| && ps[i].node.totalBytes > ps[j].node.totalBytes ==>
        ps[i].offset < ps[j].offset
  {
    var ps := RingOf(radius, place, dir, files, rOffset).nodes;
    RingSlots(radius, place, dir, files, rOffset);
    RingIsSortedPermutation(radius, place, dir, files, rOffset);
    forall i, j | 0 <= i < |ps| && 0 <= j < |ps| && ps[i].node.totalBytes > ps[j].node.totalBytes
      ensures ps[i].offset < ps[j].offset
    {
      assert Nodes(ps)[i] == ps[i].node && Nodes(ps)[j] == ps[j].node;
      assert i < j;
      assert radius(0) < radius(ps[i].node.totalBytes);
    }
  }

  /** Extents: each is the maximum of its start value (0, 150, 0) and its
      per-node candidates. */
  lemma RingExtents(radius: Radius, place: Placement, dir: Direction, files: seq<Node>, rOffset: nat)
    ensures var ring := RingOf(radius, place, dir, files, rOffset);
      && ring.x >= 0.0 && ring.y >= START_Y && ring.maxX >= 0.0
      && (forall i :: 0 <= i < |ring.nodes| ==>
            && ring.x >= -(ring.nodes[i].x + ring.nodes[i].r)
            && ring.y >= ring.nodes[i].y
            && ring.maxX >= ring.nodes[i].x)
      && (ring.x == 0.0 || exists i :: 0 <= i < |ring.nodes| && ring.x == -(ring.nodes[i].x + ring.nodes[i].r))
      && (ring.y == START_Y || exists i :: 0 <= i < |ring.nodes| && ring.y == ring.nodes[i].y)
      && (ring.maxX == 0.0 || exists i :: 0 <= i < |ring.nodes| && ring.maxX == ring.nodes[i].x)
  {
    var ps := RingOf(radius, place, dir, files, rOffset).nodes;
    ExtentIsMax(Left, 0.0, ps);
    ExtentIsMax(Down, START_Y, ps);
    ExtentIsMax(Right, 0.0, ps);
  }

  /** The extents never fall below their start values. */
  lemma RingStarts(radius: Radius, place: Placement, dir: Direction, files: seq<Node>, rOffset: nat)
    ensures var ring := RingOf(radius, place, dir, files, rOffset);
      ring.x >= 0.0 && ring.y >= START_Y && ring.maxX >= 0.0
  {
    var ps := RingOf(radius, place, dir, files, rOffset).nodes;
    ExtentIsMax(Left, 0.0, ps);
    ExtentIsMax(Down, START_Y, ps);
    ExtentIsMax(Right, 0.0, ps);
  }

  /** An empty ring places nothing and keeps the start values. */
  lemma EmptyRing(radius: Radius, place: Placement, dir: Direction, rOffset: nat)
    ensures RingOf(radius, place, dir, [], rOffset) == Ring([], 0.0, START_Y, 0.0)
  {
  }
}
