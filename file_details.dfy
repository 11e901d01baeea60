/** The file table of the analysis view: per-column maxima for the bars, the
    bar width and the cell label, the case-insensitive column filter, the
    node_modules count and the page size. */
module FileDetails {
  import opened Graph

  /** The bar columns of the table, by their `id`. */
  datatype Metric = TotalBytes | Requires | TransitiveRequires | TransitiveRequiresSize
                  | RequiredBy | TransitiveRequiredBy

  /** A column's accessor: sizes are read as they are, relation lists by
      their length. */
  function MetricOf(n: Node, m: Metric): nat
  {
    match m
    case TotalBytes => n.totalBytes
    case Requires => |n.count.requiresIds|
    case TransitiveRequires => |n.count.transitiveRequires|
    case TransitiveRequiresSize => n.count.transitiveRequiresSize
    case RequiredBy => |n.count.requiredBy|
    case TransitiveRequiredBy => |n.count.transitiveRequiredBy|
  }

  /** The `maxes` record. */
  datatype Maxes = Maxes(
    totalBytes: nat,
    requiresCount: nat,  // `requires` in FileDetails.tsx
    requiredBy: nat,
    transitiveRequiresSize: nat,
    transitiveRequiredBy: nat,
    transitiveRequires: nat)

  /** The column maximum of one metric. */
  function Field(mx: Maxes, m: Metric): nat
  {
    match m
    case TotalBytes => mx.totalBytes
    case Requires => mx.requiresCount
    case TransitiveRequires => mx.transitiveRequires
    case TransitiveRequiresSize => mx.transitiveRequiresSize
    case RequiredBy => mx.requiredBy
    case TransitiveRequiredBy => mx.transitiveRequiredBy
  }

  function Max(a: nat, b: nat): nat
  {
    if a >= b then a else b
  }

  /** The largest value of a metric over `data`, or 0 when there is none. */
  function MaxOf(data: seq<Node>, m: Metric): nat
  {
    if data == [] then 0 else Max(MaxOf(data[..|data| - 1], m), MetricOf(data[|data| - 1], m))
  }

  /** The maximum bounds every node's value and is 0 or some node's value. */
  lemma {:induction false} MaxOfBounds(data: seq<Node>, m: Metric)
    ensures forall i :: 0 <= i < |data| ==> MetricOf(data[i], m) <= MaxOf(data, m)
    ensures MaxOf(data, m) == 0 || exists i :: 0 <= i < |data| && MetricOf(data[i], m) == MaxOf(data, m)
  {
    if data != [] {
      var init := data[..|data| - 1];
      MaxOfBounds(init, m);
      assert forall i :: 0 <= i < |init| ==> data[i] == init[i];
    }
  }

  /** Folding one more node into the maximum. */
  lemma MaxOfSnoc(init: seq<Node>, d: Node, m: Metric)
    ensures MaxOf(init + [d], m) == Max(MaxOf(init, m), MetricOf(d, m))
  {
    assert (init + [d])[..|init|] == init;
  }

  /** The maxima of all six metrics. */
  function MaxesOf(data: seq<Node>): Maxes
  {
    Maxes(MaxOf(data, TotalBytes), MaxOf(data, Requires), MaxOf(data, RequiredBy),
          MaxOf(data, TransitiveRequiresSize), MaxOf(data, TransitiveRequiredBy),
          MaxOf(data, TransitiveRequires))
  }

  /** The `data.forEach` pass at the top of `getColumns`, raising each field
      of `maxes` to the node's value. */
  method ColumnMaxes(data: seq<Node>) returns (maxes: Maxes)
    ensures maxes == MaxesOf(data)
  {
    maxes := Maxes(0, 0, 0, 0, 0, 0);
    var k := 0;
    while k < |data|
      invariant k <= |data|
      invariant maxes.totalBytes == MaxOf(data[..k], TotalBytes)
      invariant maxes.requiresCount == MaxOf(data[..k], Requires)
      invariant maxes.requiredBy == MaxOf(data[..k], RequiredBy)
      invariant maxes.transitiveRequiresSize == MaxOf(data[..k], TransitiveRequiresSize)
      invariant maxes.transitiveRequiredBy == MaxOf(data[..k], TransitiveRequiredBy)
      invariant maxes.transitiveRequires == MaxOf(data[..k], TransitiveRequires)
    {
      var d := data[k];
      assert data[..k + 1] == data[..k] + [d];
      MaxOfSnoc(data[..k], d, TotalBytes);
      MaxOfSnoc(data[..k], d, Requires);
      MaxOfSnoc(data[..k], d, TransitiveRequires);
      MaxOfSnoc(data[..k], d, TransitiveRequiresSize);
      MaxOfSnoc(data[..k], d, RequiredBy);
      MaxOfSnoc(data[..k], d, TransitiveRequiredBy);
      maxes := maxes.(totalBytes := Max(maxes.totalBytes, d.totalBytes));
      maxes := maxes.(transitiveRequiresSize := Max(maxes.transitiveRequiresSize, d.count.transitiveRequiresSize));
      maxes := maxes.(requiresCount := Max(maxes.requiresCount, |d.count.requiresIds|));
      maxes := maxes.(transitiveRequires := Max(maxes.transitiveRequires, |d.count.transitiveRequires|));
      maxes := maxes.(requiredBy := Max(maxes.requiredBy, |d.count.requiredBy|));
      maxes := maxes.(transitiveRequiredBy := Max(maxes.transitiveRequiredBy, |d.count.transitiveRequiredBy|));
      k := k + 1;
    }
    assert data[..k] == data;
  }

  /** Each field of the maxima is the maximum of its column. */
  lemma FieldOfMaxes(data: seq<Node>, m: Metric)
    ensures Field(MaxesOf(data), m) == MaxOf(data, m)
  {
  }

  /** The maxima of an empty table are all 0. */
  lemma EmptyMaxes()
    ensures MaxesOf([]) == Maxes(0, 0, 0, 0, 0, 0)
  {
  }

  /** A bar's CSS width: `"0px"`, or `getPercent(value, max)`, whose
      formatting is not part of this model. */
  datatype Width = ZeroPx | Percent(part: int, whole: nat)

  /** A cell's bar: its width and its left offset. */
  datatype Bar = Bar(width: Width, left: Width)

  /** `getBar`: a zero value draws a zero-width bar; the bar is right-aligned
      by a left offset of `max - value` out of `max`. */
  function BarOf(value: nat, maxes: Maxes, m: Metric): (b: Bar)
    ensures b.width == ZeroPx <==> value == 0
    ensures b.width.Percent? ==> b.width == Percent(value, Field(maxes, m))
    ensures b.left == Percent(Field(maxes, m) - value, Field(maxes, m))
  {
    Bar(if value != 0 then Percent(value, Field(maxes, m)) else ZeroPx,
        Percent(Field(maxes, m) - value, Field(maxes, m)))
  }

  /** For a row of the table, a drawn bar has a positive whole, its part is
      at most the whole, and its left offset is within `[0, max]`. */
  lemma BarWithinColumn(data: seq<Node>, i: nat, m: Metric)
    requires i < |data|
    ensures var b := BarOf(MetricOf(data[i], m), MaxesOf(data), m);
      && 0 <= b.left.part <= b.left.whole
      && (b.width.Percent? ==> 0 < b.width.part <= b.width.whole)
  {
    FieldOfMaxes(data, m);
    MaxOfBounds(data, m);
  }

  /** The text to the right of a bar. */
  datatype CellText = Label(metric: Metric, value: nat) | Dashes | Number(value: nat)

  /** The columns with a `label` formatter: size and all-requires size. */
  predicate HasLabel(m: Metric)
  {
    m == TotalBytes || m == TransitiveRequiresSize
  }

  /** A column's own label if it has one; otherwise `"--"` for a falsy value
      and the value itself for any other. */
  function CellLabel(m: Metric, value: nat): (t: CellText)
    ensures t == Dashes <==> !HasLabel(m) && value == 0
    ensures t.Number? <==> !HasLabel(m) && value != 0
    ensures t.Number? || t.Label? ==> t.value == value
  {
    if HasLabel(m) then Label(m, value) else if value == 0 then Dashes else Number(value)
  }

  /** ASCII lower-casing of one character. */
  function LowerChar(c: char): (d: char)
    ensures 'A' <= c <= 'Z' ==> d == c - 'A' + 'a'
    ensures !('A' <= c <= 'Z') ==> d == c
  {
    if 'A' <= c <= 'Z' then (c as int - 'A' as int + 'a' as int) as char else c
  }

  /** `toLowerCase`, restricted to ASCII. */
  function Lower(s: string): (r: string)
    ensures |r| == |s|
    ensures forall i :: 0 <= i < |s| ==> r[i] == LowerChar(s[i])
  {
    seq(|s|, i requires 0 <= i < |s| => LowerChar(s[i]))
  }

  /** Lower-casing twice is lower-casing once. */
  lemma LowerIdempotent(s: string)
    ensures Lower(Lower(s)) == Lower(s)
  {
  }

  /** `t` occurs in `s` at position `i`. */
  predicate OccursAt(s: string, t: string, i: nat)
  {
    i + |t| <= |s| && s[i..i + |t|] == t
  }

  /** `s.indexOf(t, from)`: the first position at or after `from` where `t`
      occurs, or -1. */
  function IndexFrom(s: string, t: string, from: nat): (r: int)
    requires from <= |s|
    ensures r == -1 || from <= r <= |s|
    decreases |s| - from
  {
    if OccursAt(s, t, from) then from
    else if from == |s| then -1
    else IndexFrom(s, t, from + 1)
  }

  /** The search finds the first occurrence at or after `from`, and -1
      exactly when there is none. */
  lemma {:induction false} IndexFromFirst(s: string, t: string, from: nat)
    requires from <= |s|
    ensures var r := IndexFrom(s, t, from);
      (r == -1 <==> forall i: nat :: from <= i <= |s| ==> !OccursAt(s, t, i)) &&
      (r != -1 ==> OccursAt(s, t, r) && forall i: nat :: from <= i < r ==> !OccursAt(s, t, i))
    decreases |s| - from
  {
    if !OccursAt(s, t, from) && from < |s| {
      IndexFromFirst(s, t, from + 1);
    }
  }

  /** The first position of `t` in `s`, or -1 when `t` does not occur. */
  function IndexOf(s: string, t: string): int
  {
    IndexFrom(s, t, 0)
  }

  /** `filterMethod`: the row is kept when the lower-cased filter occurs in
      the lower-cased cell text. */
  predicate Matches(filter: string, cell: string)
  {
    IndexOf(Lower(cell), Lower(filter)) != -1
  }

  /** A row matches exactly when the filter is a substring of the cell text,
      ignoring ASCII case. */
  lemma MatchesIff(filter: string, cell: string)
    ensures Matches(filter, cell) <==> exists i: nat :: OccursAt(Lower(cell), Lower(filter), i)
  {
    IndexFromFirst(Lower(cell), Lower(filter), 0);
  }

  /** The empty filter keeps every row. */
  lemma EmptyFilterMatches(cell: string)
    ensures Matches("", cell)
  {
    assert OccursAt(Lower(cell), Lower(""), 0);
  }

  /** The filter does not see case: lower-casing either side changes nothing. */
  lemma MatchesIgnoresCase(filter: string, cell: string)
    ensures Matches(Lower(filter), cell) == Matches(filter, cell)
    ensures Matches(filter, Lower(cell)) == Matches(filter, cell)
  {
    LowerIdempotent(filter);
    LowerIdempotent(cell);
  }

  const NODE_MODULES: string := "node_modules"

  /** The id names a file under a node_modules directory. */
  predicate InNodeModules(n: Node)
  {
    IndexOf(n.id, NODE_MODULES) != -1
  }

  /** How many nodes lie under node_modules. */
  function CountInNodeModules(nodes: seq<Node>): (r: nat)
    ensures r <= |nodes|
  {
    if nodes == [] then 0
    else CountInNodeModules(nodes[..|nodes| - 1]) + (if InNodeModules(nodes[|nodes| - 1]) then 1 else 0)
  }

  /** Counting splits over a concatenation. */
  lemma {:induction false} CountAppend(a: seq<Node>, b: seq<Node>)
    ensures CountInNodeModules(a + b) == CountInNodeModules(a) + CountInNodeModules(b)
    decreases |b|
  {
    if b == [] {
      assert a + b == a;
    } else {
      var init := b[..|b| - 1];
      assert (a + b)[..|a + b| - 1] == a + init;
      CountAppend(a, init);
    }
  }

  /** The count is the whole table exactly when every id is under
      node_modules. */
  lemma {:induction false} CountAll(nodes: seq<Node>)
    ensures CountInNodeModules(nodes) == |nodes| <==> forall i :: 0 <= i < |nodes| ==> InNodeModules(nodes[i])
    decreases |nodes|
  {
    if nodes != [] {
      var init := nodes[..|nodes| - 1];
      CountAll(init);
      assert forall i :: 0 <= i < |init| ==> init[i] == nodes[i];
    }
  }

  /** The count is 0 exactly when no id is under node_modules. */
  lemma {:induction false} CountNone(nodes: seq<Node>)
    ensures CountInNodeModules(nodes) == 0 <==> forall i :: 0 <= i < |nodes| ==> !InNodeModules(nodes[i])
    decreases |nodes|
  {
    if nodes != [] {
      var init := nodes[..|nodes| - 1];
      CountNone(init);
      assert forall i :: 0 <= i < |init| ==> init[i] == nodes[i];
    }
  }

  /** The `nodes.forEach` pass of `FileDetails`: each node counts as a
      node_modules file or as an own file. */
  method CountNodeModules(nodes: seq<Node>) returns (withNodeModules: nat, withoutNodeModules: nat)
    ensures withNodeModules == CountInNodeModules(nodes)
    ensures withNodeModules + withoutNodeModules == |nodes|
  {
    withNodeModules := 0;
    withoutNodeModules := 0;
    var k := 0;
    while k < |nodes|
      invariant k <= |nodes|
      invariant withNodeModules == CountInNodeModules(nodes[..k])
      invariant withNodeModules + withoutNodeModules == k
    {
      assert nodes[..k + 1][..k] == nodes[..k];
      if IndexOf(nodes[k].id, NODE_MODULES) != -1 {
        withNodeModules := withNodeModules + 1;
      } else {
        withoutNodeModules := withoutNodeModules + 1;
      }
      k := k + 1;
    }
    assert nodes[..k] == nodes;
  }

  /** `nodes.length || 25`: every row fits on the one page, and an empty
      table still shows 25 blank rows. */
  function PageSize(nodes: seq<Node>): (r: nat)
    ensures r > 0 && r >= |nodes|
    ensures nodes != [] ==> r == |nodes|
    ensures nodes == [] ==> r == 25
  {
    if |nodes| != 0 then |nodes| else 25
  }
}
