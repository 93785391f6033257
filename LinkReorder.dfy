/**
 * app/api/link/route.ts, lines 307-336: putting the model's nodes in path
 * order. The walk starts at the first edge's `from` node, appends each
 * edge's `to` node that is not yet placed, and then appends, in input
 * order, every node whose qid is still missing.
 */
module LinkReorder {
  import opened Wrappers
  import opened Seqs
  import opened LinkData

  /** `nodeMap.get(q)` for `new Map(nodes.map(n => [n.qid, n]))`: a later node with the same qid replaces an earlier one. */
  function LastWithQid(nodes: seq<Node>, q: string): (r: Option<Node>)
    ensures r.None? <==> !HasQid(nodes, q)
    ensures r.Some? ==> r.value in nodes && r.value.qid == q
  {
    if nodes == [] then None
    else if nodes[|nodes| - 1].qid == q then Some(nodes[|nodes| - 1])
    else
      var p := nodes[..|nodes| - 1];
      assert forall i :: 0 <= i < |p| ==> p[i] == nodes[i];
      LastWithQid(p, q)
  }

  /** The map keeps the last node with the qid: no later node has it. */
  lemma {:induction false} LastWithQidIsLast(nodes: seq<Node>, q: string)
    requires HasQid(nodes, q)
    ensures exists i :: 0 <= i < |nodes| && nodes[i] == LastWithQid(nodes, q).value
                        && forall j :: i < j < |nodes| ==> nodes[j].qid != q
  {
    var i := LastWithQidIndex(nodes, q);
  }

  /** The position of the node `LastWithQid` returns. */
  lemma {:induction false} LastWithQidIndex(nodes: seq<Node>, q: string) returns (i: nat)
    requires HasQid(nodes, q)
    ensures i < |nodes| && nodes[i] == LastWithQid(nodes, q).value
    ensures forall j :: i < j < |nodes| ==> nodes[j].qid != q
  {
    var last := |nodes| - 1;
    if nodes[last].qid == q {
      i := last;
    } else {
      var p := nodes[..last];
      assert LastWithQid(nodes, q) == LastWithQid(p, q);
      assert HasQid(p, q) by {
        var k :| 0 <= k < |nodes| && nodes[k].qid == q;
        assert p[k] == nodes[k];
      }
      i := LastWithQidIndex(p, q);
      assert nodes[i] == p[i];
      forall j | i < j < |nodes| ensures nodes[j].qid != q {
        if j < last { assert nodes[j] == p[j]; }
      }
    }
  }

  /** The node the walk starts from: the one the map holds for the first edge's `from`. */
  function Start(nodes: seq<Node>, edges: seq<Edge>): seq<Node>
    requires |edges| > 0
  {
    match LastWithQid(nodes, edges[0].from)
    case Some(n) => [n]
    case None => []
  }

  /** The loop over `result.edges`: each `to` node that is not yet placed is appended. */
  function Walk(start: seq<Node>, nodes: seq<Node>, edges: seq<Edge>): seq<Node> {
    if edges == [] then start
    else
      var w := Walk(start, nodes, edges[..|edges| - 1]);
      var to := LastWithQid(nodes, edges[|edges| - 1].to);
      if to.Some? && !HasQid(w, to.value.qid) then w + [to.value] else w
  }

  /** The loop over `result.nodes`: every node whose qid is not yet placed is appended. */
  function AppendUnseen(w: seq<Node>, nodes: seq<Node>): seq<Node> {
    if nodes == [] then w
    else
      var a := AppendUnseen(w, nodes[..|nodes| - 1]);
      var n := nodes[|nodes| - 1];
      if HasQid(a, n.qid) then a else a + [n]
  }

  /** `result.nodes` after the reordering block; with no edges nothing is reordered. */
  function Reordered(nodes: seq<Node>, edges: seq<Edge>): seq<Node> {
    if |edges| == 0 then nodes else AppendUnseen(Walk(Start(nodes, edges), nodes, edges), nodes)
  }

  // ---------------------------------------------------------------- lemmas

  /** Appending a node whose qid is new keeps the prefix, the distinctness and every qid already there. */
  lemma SnocFresh(w: seq<Node>, n: Node, m: nat)
    requires DistinctQids(w) && !HasQid(w, n.qid) && m <= |w|
    ensures (w + [n])[..m] == w[..m] && DistinctQids(w + [n]) && HasQid(w + [n], n.qid)
    ensures forall q :: HasQid(w, q) ==> HasQid(w + [n], q)
  {
    var w' := w + [n];
    assert w'[|w|] == n;
    forall q | HasQid(w, q) ensures HasQid(w', q) {
      var k :| 0 <= k < |w| && w[k].qid == q;
      assert w'[k] == w[k];
    }
  }

  lemma HasQidConcat(a: seq<Node>, b: seq<Node>, q: string)
    ensures HasQid(a + b, q) <==> HasQid(a, q) || HasQid(b, q)
  {
    var ab := a + b;
    if HasQid(ab, q) {
      var k :| 0 <= k < |ab| && ab[k].qid == q;
      if k < |a| { assert a[k] == ab[k]; } else { assert b[k - |a|] == ab[k]; }
    }
    if HasQid(a, q) {
      var k :| 0 <= k < |a| && a[k].qid == q;
      assert ab[k] == a[k];
    }
    if HasQid(b, q) {
      var k :| 0 <= k < |b| && b[k].qid == q;
      assert ab[|a| + k] == b[k];
    }
  }

  lemma {:induction false} WalkShape(start: seq<Node>, nodes: seq<Node>, edges: seq<Edge>)
    requires DistinctQids(start)
    requires forall x :: x in start ==> x in nodes
    ensures var w := Walk(start, nodes, edges);
      && |start| <= |w| && w[..|start|] == start
      && DistinctQids(w) && (forall x :: x in w ==> x in nodes)
  {
    if edges != [] {
      WalkShape(start, nodes, edges[..|edges| - 1]);
      var w := Walk(start, nodes, edges[..|edges| - 1]);
      var t := LastWithQid(nodes, edges[|edges| - 1].to);
      if t.Some? && !HasQid(w, t.value.qid) {
        SnocFresh(w, t.value, |start|);
      }
    }
  }

  lemma {:induction false} AppendUnseenShape(w: seq<Node>, nodes: seq<Node>)
    requires DistinctQids(w)
    ensures var a := AppendUnseen(w, nodes);
      && |w| <= |a| && a[..|w|] == w && DistinctQids(a)
      && (forall x :: x in a ==> x in w || x in nodes)
      && (forall i :: 0 <= i < |nodes| ==> HasQid(a, nodes[i].qid))
      && (forall q :: HasQid(w, q) ==> HasQid(a, q))
  {
    if nodes != [] {
      var p := nodes[..|nodes| - 1];
      AppendUnseenShape(w, p);
      var a := AppendUnseen(w, p);
      var n := nodes[|nodes| - 1];
      if !HasQid(a, n.qid) {
        SnocFresh(a, n, |w|);
      }
      forall i | 0 <= i < |nodes| ensures HasQid(AppendUnseen(w, nodes), nodes[i].qid) {
        if i < |p| { assert nodes[i] == p[i]; }
      }
    }
  }

  /** The reordered nodes have pairwise different qids and are all taken from the input. */
  lemma ReorderedDistinctFromInput(nodes: seq<Node>, edges: seq<Edge>)
    requires |edges| > 0
    ensures DistinctQids(Reordered(nodes, edges))
    ensures forall x :: x in Reordered(nodes, edges) ==> x in nodes
  {
    var s := Start(nodes, edges);
    WalkShape(s, nodes, edges);
    AppendUnseenShape(Walk(s, nodes, edges), nodes);
  }

  /** Every qid of the input is still present after reordering. */
  lemma ReorderedCoversQids(nodes: seq<Node>, edges: seq<Edge>)
    ensures forall i :: 0 <= i < |nodes| ==> HasQid(Reordered(nodes, edges), nodes[i].qid)
  {
    if |edges| > 0 {
      var s := Start(nodes, edges);
      WalkShape(s, nodes, edges);
      AppendUnseenShape(Walk(s, nodes, edges), nodes);
    } else {
      forall i | 0 <= i < |nodes| ensures HasQid(nodes, nodes[i].qid) { }
    }
  }

  /** The first edge's `from` node, when there is one, comes first. */
  lemma HeadOfPrefix(a: seq<Node>, w: seq<Node>)
    requires 0 < |w| <= |a| && a[..|w|] == w
    ensures a[0] == w[0]
  {
    assert a[..|w|][0] == a[0];
  }

  lemma ReorderedStartsAtFirstFrom(nodes: seq<Node>, edges: seq<Edge>)
    requires |edges| > 0 && HasQid(nodes, edges[0].from)
    ensures |Reordered(nodes, edges)| > 0
    ensures Reordered(nodes, edges)[0] == LastWithQid(nodes, edges[0].from).value
    ensures Reordered(nodes, edges)[0].qid == edges[0].from
  {
    var n := LastWithQid(nodes, edges[0].from).value;
    var s := Start(nodes, edges);
    assert s == [n];
    WalkShape(s, nodes, edges);
    var w := Walk(s, nodes, edges);
    HeadOfPrefix(w, s);
    AppendUnseenShape(w, nodes);
    HeadOfPrefix(AppendUnseen(w, nodes), w);
  }

  function UnseenBy(w: seq<Node>): Node -> bool {
    (n: Node) => !HasQid(w, n.qid)
  }

  /** Dropping the last node keeps the qids distinct. */
  lemma DistinctPrefix(nodes: seq<Node>)
    requires DistinctQids(nodes) && nodes != []
    ensures DistinctQids(nodes[..|nodes| - 1])
  {
    var p := nodes[..|nodes| - 1];
    forall i, j | 0 <= i < j < |p| ensures p[i].qid != p[j].qid { assert p[i] == nodes[i] && p[j] == nodes[j]; }
  }

  /** Nothing kept from the earlier nodes shares the last node's qid. */
  lemma LastQidNotBefore(nodes: seq<Node>, keep: Node -> bool)
    requires DistinctQids(nodes) && nodes != []
    ensures !HasQid(Filter(nodes[..|nodes| - 1], keep), nodes[|nodes| - 1].qid)
  {
    var p, n := nodes[..|nodes| - 1], nodes[|nodes| - 1];
    var f := Filter(p, keep);
    FilterIsSubsequence(p, keep);
    forall k | 0 <= k < |f| ensures f[k].qid != n.qid {
      assert f[k] in p;
      var j :| 0 <= j < |p| && p[j] == f[k];
      assert nodes[j] == p[j];
    }
  }

  /** The loop over `result.nodes` only appends. */
  lemma {:induction false} AppendUnseenPrefix(w: seq<Node>, nodes: seq<Node>)
    ensures |w| <= |AppendUnseen(w, nodes)| && AppendUnseen(w, nodes)[..|w|] == w
  {
    if nodes != [] {
      AppendUnseenPrefix(w, nodes[..|nodes| - 1]);
      var b := AppendUnseen(w, nodes[..|nodes| - 1]);
      assert (b + [nodes[|nodes| - 1]])[..|w|] == b[..|w|];
    }
  }

  /** After the loop over `result.nodes` every qid of the nodes is placed. */
  lemma {:induction false} AppendUnseenCovers(w: seq<Node>, nodes: seq<Node>)
    ensures forall i :: 0 <= i < |nodes| ==> HasQid(AppendUnseen(w, nodes), nodes[i].qid)
  {
    if nodes != [] {
      var p, n := nodes[..|nodes| - 1], nodes[|nodes| - 1];
      AppendUnseenCovers(w, p);
      var b, a := AppendUnseen(w, p), AppendUnseen(w, nodes);
      forall i | 0 <= i < |nodes| ensures HasQid(a, nodes[i].qid) {
        if i < |p| {
          assert nodes[i] == p[i];
          var j :| 0 <= j < |b| && b[j].qid == p[i].qid;
          assert a[j] == b[j];
        } else if !HasQid(b, n.qid) {
          assert a[|b|] == n;
        }
      }
    }
  }

  /** What the loop over `result.nodes` appends is a subsequence of the nodes. */
  lemma {:induction false} AppendUnseenSubsequence(w: seq<Node>, nodes: seq<Node>)
    ensures |w| <= |AppendUnseen(w, nodes)| && IsSubsequence(AppendUnseen(w, nodes)[|w|..], nodes)
  {
    if nodes != [] {
      var p, n := nodes[..|nodes| - 1], nodes[|nodes| - 1];
      assert nodes == p + [n];
      AppendUnseenSubsequence(w, p);
      var b := AppendUnseen(w, p);
      if HasQid(b, n.qid) {
        SubsequenceSnocRight(b[|w|..], p, n);
      } else {
        assert (b + [n])[|w|..] == b[|w|..] + [n];
        SubsequenceSnocBoth(b[|w|..], p, n);
      }
    }
  }

  /** Each node the loop over `result.nodes` appends is the first with its qid, and the walk had not placed that qid. */
  lemma {:induction false} AppendUnseenFirsts(w: seq<Node>, nodes: seq<Node>)
    ensures forall k :: |w| <= k < |AppendUnseen(w, nodes)| ==>
      !HasQid(w, AppendUnseen(w, nodes)[k].qid) && FindNode(nodes, AppendUnseen(w, nodes)[k].qid) == Some(AppendUnseen(w, nodes)[k])
  {
    if nodes != [] {
      var p, n := nodes[..|nodes| - 1], nodes[|nodes| - 1];
      assert nodes == p + [n];
      AppendUnseenFirsts(w, p);
      AppendUnseenPrefix(w, p);
      var b, a := AppendUnseen(w, p), AppendUnseen(w, nodes);
      forall k | |w| <= k < |a| ensures !HasQid(w, a[k].qid) && FindNode(nodes, a[k].qid) == Some(a[k]) {
        FindNodeSnoc(p, n, a[k].qid);
        if k < |b| {
          assert a[k] == b[k];
          assert FindNode(p, a[k].qid).Some?;
        } else {
          assert a[k] == n && !HasQid(b, n.qid);
          forall j | 0 <= j < |w| ensures w[j].qid != n.qid {
            assert b[j] == w[j];
          }
          AppendUnseenCovers(w, p);
          forall j | 0 <= j < |p| ensures p[j].qid != n.qid {
            assert HasQid(b, p[j].qid);
          }
        }
      }
    }
  }

  /**
   * The loop over `result.nodes` for any input: it only appends; what it
   * appends is a subsequence of the nodes, each entry the first node with
   * its qid and with a qid the walk had not placed; afterwards every qid of
   * the nodes is placed.
   */
  lemma AppendUnseenTail(w: seq<Node>, nodes: seq<Node>)
    ensures var a := AppendUnseen(w, nodes);
      && |w| <= |a| && a[..|w|] == w
      && IsSubsequence(a[|w|..], nodes)
      && (forall k :: |w| <= k < |a| ==> !HasQid(w, a[k].qid) && FindNode(nodes, a[k].qid) == Some(a[k]))
      && (forall i :: 0 <= i < |nodes| ==> HasQid(a, nodes[i].qid))
  {
    AppendUnseenPrefix(w, nodes);
    AppendUnseenCovers(w, nodes);
    AppendUnseenSubsequence(w, nodes);
    AppendUnseenFirsts(w, nodes);
  }

  /** With distinct input qids the tail is exactly the unplaced nodes, in input order. */
  lemma {:induction false} AppendUnseenInOrder(w: seq<Node>, nodes: seq<Node>)
    requires DistinctQids(nodes)
    ensures AppendUnseen(w, nodes) == w + Filter(nodes, UnseenBy(w))
  {
    if nodes != [] {
      var p := nodes[..|nodes| - 1];
      var n := nodes[|nodes| - 1];
      DistinctPrefix(nodes);
      AppendUnseenInOrder(w, p);
      assert nodes == p + [n];
      FilterSnoc(p, n, UnseenBy(w));
      LastQidNotBefore(nodes, UnseenBy(w));
      HasQidConcat(w, Filter(p, UnseenBy(w)), n.qid);
    }
  }

  /** When the input qids are distinct, reordering only permutes the nodes. */
  lemma ReorderedPermutes(nodes: seq<Node>, edges: seq<Edge>)
    requires DistinctQids(nodes)
    ensures multiset(Reordered(nodes, edges)) == multiset(nodes)
  {
    if |edges| > 0 {
      var r := Reordered(nodes, edges);
      ReorderedDistinctFromInput(nodes, edges);
      ReorderedCoversQids(nodes, edges);
      forall x | x in nodes ensures x in r {
        var i :| 0 <= i < |nodes| && nodes[i] == x;
        var k :| 0 <= k < |r| && r[k].qid == x.qid;
        assert r[k] in nodes;
        var j :| 0 <= j < |nodes| && nodes[j] == r[k];
        assert i == j;
      }
      assert NoDuplicates(r) by {
        forall i, j | 0 <= i < j < |r| ensures r[i] != r[j] { assert r[i].qid != r[j].qid; }
      }
      assert NoDuplicates(nodes) by {
        forall i, j | 0 <= i < j < |nodes| ensures nodes[i] != nodes[j] { assert nodes[i].qid != nodes[j].qid; }
      }
      SameElementsPermutation(r, nodes);
    }
  }

  // ----------------------------------------------- nodes already in order

  lemma {:induction false} LastWithQidDistinct(nodes: seq<Node>, i: int)
    requires DistinctQids(nodes) && 0 <= i < |nodes|
    ensures LastWithQid(nodes, nodes[i].qid) == Some(nodes[i])
  {
    var r := LastWithQid(nodes, nodes[i].qid);
    var j :| 0 <= j < |nodes| && nodes[j] == r.value;
    assert j == i;
  }

  lemma StartOfPath(nodes: seq<Node>, edges: seq<Edge>)
    requires IsPath(nodes, edges) && DistinctQids(nodes) && |edges| > 0
    ensures Start(nodes, edges) == nodes[..1]
  {
    LastWithQidDistinct(nodes, 0);
  }

  lemma NotYetPlaced(nodes: seq<Node>, k: int)
    requires DistinctQids(nodes) && 0 <= k < |nodes|
    ensures !HasQid(nodes[..k], nodes[k].qid)
  {
    var w := nodes[..k];
    forall j | 0 <= j < |w| ensures w[j].qid != nodes[k].qid { assert w[j] == nodes[j]; }
  }

  lemma WalkStep(start: seq<Node>, nodes: seq<Node>, edges: seq<Edge>, k: nat)
    requires IsPath(nodes, edges) && DistinctQids(nodes) && 0 < k <= |edges|
    requires Walk(start, nodes, edges[..k - 1]) == nodes[..k]
    ensures Walk(start, nodes, edges[..k]) == nodes[..k + 1]
  {
    var pre := edges[..k];
    assert pre[..k - 1] == edges[..k - 1] && pre[k - 1] == edges[k - 1];
    LastWithQidDistinct(nodes, k);
    NotYetPlaced(nodes, k);
    assert nodes[..k] + [nodes[k]] == nodes[..k + 1];
  }

  lemma {:induction false} WalkAlongPath(nodes: seq<Node>, edges: seq<Edge>, k: nat)
    requires IsPath(nodes, edges) && DistinctQids(nodes) && 0 < k <= |edges|
    ensures Walk(Start(nodes, edges), nodes, edges[..k]) == nodes[..k + 1]
  {
    var s := Start(nodes, edges);
    if k == 1 {
      StartOfPath(nodes, edges);
      assert edges[..0] == [];
    } else {
      WalkAlongPath(nodes, edges, k - 1);
    }
    WalkStep(s, nodes, edges, k);
  }

  lemma {:induction false} AppendUnseenAllSeen(w: seq<Node>, nodes: seq<Node>)
    requires forall i :: 0 <= i < |nodes| ==> HasQid(w, nodes[i].qid)
    ensures AppendUnseen(w, nodes) == w
  {
    if nodes != [] {
      var p := nodes[..|nodes| - 1];
      assert forall i :: 0 <= i < |p| ==> p[i] == nodes[i];
      AppendUnseenAllSeen(w, p);
    }
  }

  /** Nodes that already run along the edges as a path with distinct qids are left as they are. */
  lemma ReorderedPathUnchanged(nodes: seq<Node>, edges: seq<Edge>)
    requires IsPath(nodes, edges) && DistinctQids(nodes)
    ensures Reordered(nodes, edges) == nodes
  {
    if |edges| > 0 {
      WalkAlongPath(nodes, edges, |edges|);
      assert edges[..|edges|] == edges;
      assert nodes[..|edges| + 1] == nodes;
      forall i | 0 <= i < |nodes| ensures HasQid(nodes, nodes[i].qid) { }
      AppendUnseenAllSeen(nodes, nodes);
    }
  }

  /** The path a model may list backwards: edges (B,C),(A,B) over nodes A,B,C give B,C,A. */
  lemma ReorderedExample(a: Node, b: Node, c: Node, p1: Option<Photo>, p2: Option<Photo>)
    requires a.qid == "A" && b.qid == "B" && c.qid == "C"
    ensures Reordered([a, b, c], [Edge("B", "C", p1), Edge("A", "B", p2)]) == [b, c, a]
  {
    var nodes, edges := [a, b, c], [Edge("B", "C", p1), Edge("A", "B", p2)];
    assert nodes[..2] == [a, b] && [a, b][..1] == [a] && [a][..0] == [];
    assert edges[..1] == [edges[0]] && edges[..1][..0] == [];
    assert LastWithQid(nodes, "B") == Some(b);
    assert LastWithQid(nodes, "C") == Some(c);
    assert Start(nodes, edges) == [b];
    assert !HasQid([b], "C");
    assert Walk([b], nodes, edges[..1]) == [b, c];
    assert HasQid([b, c], "B") by { assert [b, c][0].qid == "B"; }
    var w := Walk([b], nodes, edges);
    assert w == [b, c];
    assert !HasQid(w, "A");
    assert AppendUnseen(w, [a]) == [b, c, a];
    assert HasQid([b, c, a], "B") by { assert [b, c, a][0].qid == "B"; }
    assert AppendUnseen(w, [a, b]) == [b, c, a];
    assert HasQid([b, c, a], "C") by { assert [b, c, a][1].qid == "C"; }
    assert AppendUnseen(w, nodes) == [b, c, a];
  }
}
