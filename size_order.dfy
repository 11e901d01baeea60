/** `files.sort((a, b) => b.totalBytes - a.totalBytes)`: a stable sort of a
    ring's nodes by size, largest first. JavaScript's `Array.prototype.sort`
    is stable, so nodes of equal size keep their input order. */
module SizeOrder {
  import opened Graph

  /** Every node is at least as large as every node after it. */
  ghost predicate SortedBySize(s: seq<Node>)
  {
    forall i, j :: 0 <= i < j < |s| ==> s[i].totalBytes >= s[j].totalBytes
  }

  /** The nodes of size `k`, in order. */
  function OfSize(s: seq<Node>, k: nat): seq<Node>
  {
    if s == [] then []
    else (if s[0].totalBytes == k then [s[0]] else []) + OfSize(s[1..], k)
  }

  /** Places `x` in front of the first node smaller than it; `x` comes from
      earlier in the input than every node of `t`, so it goes in front of the
      nodes of its own size. */
  function Insert(x: Node, t: seq<Node>): seq<Node>
  {
    if t == [] || x.totalBytes >= t[0].totalBytes then [x] + t
    else [t[0]] + Insert(x, t[1..])
  }

  function SortBySize(s: seq<Node>): seq<Node>
  {
    if s == [] then [] else Insert(s[0], SortBySize(s[1..]))
  }

  lemma {:induction false} InsertPermutes(x: Node, t: seq<Node>)
    ensures multiset(Insert(x, t)) == multiset{x} + multiset(t)
    decreases |t|
  {
    if !(t == [] || x.totalBytes >= t[0].totalBytes) {
      InsertPermutes(x, t[1..]);
      assert t == [t[0]] + t[1..];
    }
  }

  lemma {:induction false} InsertSorted(x: Node, t: seq<Node>)
    requires SortedBySize(t)
    ensures SortedBySize(Insert(x, t))
    decreases |t|
  {
    if !(t == [] || x.totalBytes >= t[0].totalBytes) {
      var rest := Insert(x, t[1..]);
      InsertSorted(x, t[1..]);
      InsertPermutes(x, t[1..]);
      // t[0] is no smaller than anything in `rest`: `x` and every node of t[1..]
      forall j | 0 <= j < |rest| ensures t[0].totalBytes >= rest[j].totalBytes {
        assert rest[j] in multiset(rest);
        if rest[j] != x {
          assert rest[j] in multiset(t[1..]);
          var m :| 0 <= m < |t[1..]| && t[1..][m] == rest[j];
          assert t[m + 1] == rest[j];
        }
      }
      var r := [t[0]] + rest;
      assert forall j :: 1 <= j < |r| ==> r[j] == rest[j - 1];
    }
  }

  lemma OfSizeCons(x: Node, s: seq<Node>, k: nat)
    ensures OfSize([x] + s, k) == (if x.totalBytes == k then [x] else []) + OfSize(s, k)
  {
    assert ([x] + s)[0] == x && ([x] + s)[1..] == s;
  }

  lemma {:induction false} InsertStable(x: Node, t: seq<Node>, k: nat)
    ensures OfSize(Insert(x, t), k) == (if x.totalBytes == k then [x] else []) + OfSize(t, k)
    decreases |t|
  {
    if t == [] || x.totalBytes >= t[0].totalBytes {
      OfSizeCons(x, t, k);
    } else {
      var rest := Insert(x, t[1..]);
      InsertStable(x, t[1..], k);
      OfSizeCons(t[0], rest, k);
      OfSizeCons(t[0], t[1..], k);
      assert [t[0]] + t[1..] == t;
    }
  }

  /** The sort returns exactly its input, largest first, ties in input order. */
  lemma {:induction false} SortProperties(s: seq<Node>)
    ensures |SortBySize(s)| == |s|
    ensures SortedBySize(SortBySize(s))
    ensures multiset(SortBySize(s)) == multiset(s)
    ensures forall k: nat :: OfSize(SortBySize(s), k) == OfSize(s, k)
  {
    if s != [] {
      SortProperties(s[1..]);
      InsertPermutes(s[0], SortBySize(s[1..]));
      InsertSorted(s[0], SortBySize(s[1..]));
      forall k: nat ensures OfSize(SortBySize(s), k) == OfSize(s, k) {
        InsertStable(s[0], SortBySize(s[1..]), k);
      }
      assert s == [s[0]] + s[1..];
      assert multiset(SortBySize(s)) == multiset(s);
      assert |multiset(SortBySize(s))| == |multiset(s)|;
    }
  }
}
