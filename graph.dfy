/** The dependency graph the ripple chart and the file table read: nodes with
    their dependency counts, and directed edges. */
module Graph {

  datatype Option<T> = None | Some(value: T)

  /** The `count` record of a node: direct and transitive relations. */
  datatype Count = Count(
    requiresIds: seq<string>,  // `requires` in RippleChart.tsx
    requiredBy: seq<string>,
    transitiveRequires: seq<string>,
    transitiveRequiredBy: seq<string>,
    transitiveRequiresSize: nat)

  datatype Node = Node(
    id: string,
    fileName: string,
    directory: string,
    totalBytes: nat,
    count: Count)

  /** `source` depends on `target`. */
  datatype Edge = Edge(source: string, target: string)

  /** The ids occurring in a node list. */
  function NodeIds(ns: seq<Node>): set<string>
  {
    set n | n in ns :: n.id
  }

  /** The id occurs in the list. */
  predicate Listed(ids: seq<string>, id: string)
  {
    id in ids
  }

  /** The first node with that id, if any. */
  function FindNode(nodes: seq<Node>, id: string): (r: Option<Node>)
    ensures r.None? <==> forall i :: 0 <= i < |nodes| ==> nodes[i].id != id
    ensures r.Some? ==> exists i :: 0 <= i < |nodes| && nodes[i] == r.value && r.value.id == id &&
                                   forall j :: 0 <= j < i ==> nodes[j].id != id
  {
    if nodes == [] then None
    else if nodes[0].id == id then Some(nodes[0])
    else
      var r := FindNode(nodes[1..], id);
      assert forall i :: 1 <= i < |nodes| ==> nodes[i] == nodes[1..][i - 1];
      r
  }

  /** The nodes whose id is listed in `ids`, in `nodes` order. */
  function FilterListed(nodes: seq<Node>, ids: seq<string>): (r: seq<Node>)
    ensures |r| <= |nodes|
    ensures forall n :: multiset(r)[n] == if Listed(ids, n.id) then multiset(nodes)[n] else 0
  {
    if nodes == [] then []
    else
      var rest := FilterListed(nodes[1..], ids);
      assert nodes == [nodes[0]] + nodes[1..];
      if Listed(ids, nodes[0].id) then [nodes[0]] + rest else rest
  }

  /** The filter keeps `nodes` order: filtering a concatenation filters
      each part. */
  lemma {:induction false} FilterListedAppend(a: seq<Node>, b: seq<Node>, ids: seq<string>)
    ensures FilterListed(a + b, ids) == FilterListed(a, ids) + FilterListed(b, ids)
  {
    if a == [] {
      assert a + b == b;
    } else {
      assert (a + b)[0] == a[0] && (a + b)[1..] == a[1..] + b;
      FilterListedAppend(a[1..], b, ids);
    }
  }

  /** An empty id list keeps no node. */
  lemma {:induction false} FilterListedNone(nodes: seq<Node>)
    ensures FilterListed(nodes, []) == []
  {
    if nodes != [] {
      FilterListedNone(nodes[1..]);
    }
  }

  /** Every id the filter keeps is listed. */
  lemma FilterListedIds(nodes: seq<Node>, ids: seq<string>)
    ensures forall id :: id in NodeIds(FilterListed(nodes, ids)) ==> id in ids
  {
    var r := FilterListed(nodes, ids);
    forall id | id in NodeIds(r) ensures id in ids {
      var n :| n in r && n.id == id;
      assert multiset(r)[n] > 0;
    }
  }
}
