/**
 * app/api/link/route.ts, lines 340-370: replacing the qids that do not match
 * their names. A node whose qid `validateQID` rejects takes the qid
 * `findCorrectQID` finds for its name, when it finds one, and the edges
 * follow.
 *
 * The route rewrites the edges right after each correction, so a later
 * correction away from a qid also moves the edge ends an earlier correction
 * has just moved onto it (`SequentialRename`, which the route model uses).
 * `Rename` is the rewrite the route evidently intends: every end moves by
 * the correction of the node it named.
 */
module LinkQids {
  import opened Wrappers
  import opened Seqs
  import opened LinkData

  /** One correction: the old qid and the new one. */
  datatype Correction = Correction(oldQid: string, newQid: string)

  /** The correction the loop makes for one node, if any. */
  function CorrectionFor(n: Node, o: Oracles): (r: Option<Correction>)
    ensures r.Some? <==> !o.validateQid(n.qid, n.name) && o.findCorrectQid(n.name) != ""
    ensures r.Some? ==> r.value.oldQid == n.qid && r.value.newQid == o.findCorrectQid(n.name)
  {
    if !o.validateQid(n.qid, n.name) && o.findCorrectQid(n.name) != "" then
      Some(Correction(n.qid, o.findCorrectQid(n.name)))
    else None
  }

  /** A node after the loop has visited it. */
  function CorrectNode(o: Oracles): Node -> Node {
    (n: Node) => match CorrectionFor(n, o) case Some(c) => n.(qid := c.newQid) case None => n
  }

  /** The corrections, in node order. */
  function Corrections(nodes: seq<Node>, o: Oracles): seq<Correction> {
    if nodes == [] then []
    else
      var rest := Corrections(nodes[..|nodes| - 1], o);
      match CorrectionFor(nodes[|nodes| - 1], o)
      case Some(c) => rest + [c]
      case None => rest
  }

  /** The qid that replaces `q`: that of the first correction of `q`, or `q` itself. */
  function Rename(q: string, cs: seq<Correction>): string {
    if cs == [] then q else if cs[0].oldQid == q then cs[0].newQid else Rename(q, cs[1..])
  }

  /** Both ends of every edge renamed by the corrections of the qids they named. */
  function RenameEdges(edges: seq<Edge>, cs: seq<Correction>): (r: seq<Edge>)
    ensures |r| == |edges|
    ensures forall i :: 0 <= i < |edges| ==>
      r[i] == edges[i].(from := Rename(edges[i].from, cs), to := Rename(edges[i].to, cs))
  {
    Map(edges, (e: Edge) => e.(from := Rename(e.from, cs), to := Rename(e.to, cs)))
  }

  predicate Renamed(q: string, cs: seq<Correction>) {
    exists i :: 0 <= i < |cs| && cs[i].oldQid == q
  }

  predicate DistinctOlds(cs: seq<Correction>) {
    forall i, j :: 0 <= i < j < |cs| ==> cs[i].oldQid != cs[j].oldQid
  }

  /** With one correction per qid, the end that named `cs[i].oldQid` now names `cs[i].newQid`, and an end no correction names is left alone. */
  lemma {:induction false} RenameFollowsCorrection(q: string, cs: seq<Correction>)
    requires DistinctOlds(cs)
    ensures !Renamed(q, cs) ==> Rename(q, cs) == q
    ensures forall i :: 0 <= i < |cs| && cs[i].oldQid == q ==> Rename(q, cs) == cs[i].newQid
  {
    if cs != [] {
      var t := cs[1..];
      assert DistinctOlds(t) by {
        forall i, j | 0 <= i < j < |t| ensures t[i].oldQid != t[j].oldQid { assert t[i] == cs[i + 1] && t[j] == cs[j + 1]; }
      }
      RenameFollowsCorrection(q, t);
      if !Renamed(q, cs) {
        assert !Renamed(q, t);
      }
      forall i | 0 <= i < |cs| && cs[i].oldQid == q ensures Rename(q, cs) == cs[i].newQid {
        if i > 0 { assert t[i - 1] == cs[i]; }
      }
    }
  }

  lemma {:induction false} CorrectionsFromNodes(nodes: seq<Node>, o: Oracles)
    ensures forall k :: 0 <= k < |Corrections(nodes, o)| ==>
      exists i :: 0 <= i < |nodes| && CorrectionFor(nodes[i], o) == Some(Corrections(nodes, o)[k])
    ensures forall i :: 0 <= i < |nodes| && CorrectionFor(nodes[i], o).Some? ==>
      CorrectionFor(nodes[i], o).value in Corrections(nodes, o)
  {
    if nodes != [] {
      var p := nodes[..|nodes| - 1];
      CorrectionsFromNodes(p, o);
      var cs := Corrections(nodes, o);
      var rest := Corrections(p, o);
      var c := CorrectionFor(nodes[|nodes| - 1], o);
      assert cs == if c.Some? then rest + [c.value] else rest;
      forall k | 0 <= k < |Corrections(nodes, o)|
        ensures exists i :: 0 <= i < |nodes| && CorrectionFor(nodes[i], o) == Some(Corrections(nodes, o)[k])
      {
        if k < |rest| {
          assert cs[k] == rest[k];
          var i :| 0 <= i < |p| && CorrectionFor(p[i], o) == Some(rest[k]);
          assert nodes[i] == p[i];
        } else {
          assert CorrectionFor(nodes[|nodes| - 1], o) == Some(cs[k]);
        }
      }
      forall i | 0 <= i < |nodes| && CorrectionFor(nodes[i], o).Some? ensures CorrectionFor(nodes[i], o).value in cs {
        if i < |p| { assert nodes[i] == p[i]; }
      }
    } else {
      assert Corrections(nodes, o) == [];
    }
  }

  /** Nodes with distinct qids give one correction per qid. */
  lemma CorrectionsDistinct(nodes: seq<Node>, o: Oracles)
    requires DistinctQids(nodes)
    ensures DistinctOlds(Corrections(nodes, o))
  {
    var cs := Corrections(nodes, o);
    forall k, l | 0 <= k < l < |cs| ensures cs[k].oldQid != cs[l].oldQid {
      CorrectionsOrdered(nodes, o, k, l);
    }
  }

  /** Corrections of different nodes come from different positions, in node order. */
  lemma {:induction false} CorrectionsOrdered(nodes: seq<Node>, o: Oracles, k: int, l: int)
    requires DistinctQids(nodes) && 0 <= k < l < |Corrections(nodes, o)|
    ensures Corrections(nodes, o)[k].oldQid != Corrections(nodes, o)[l].oldQid
  {
    var p := nodes[..|nodes| - 1];
    var rest := Corrections(p, o);
    var cs := Corrections(nodes, o);
    assert DistinctQids(p) by {
      forall i, j | 0 <= i < j < |p| ensures p[i].qid != p[j].qid { assert p[i] == nodes[i] && p[j] == nodes[j]; }
    }
    if l < |rest| {
      assert cs[k] == rest[k] && cs[l] == rest[l];
      CorrectionsOrdered(p, o, k, l);
    } else {
      CorrectionsFromNodes(p, o);
      assert cs[k] == rest[k];
      var i :| 0 <= i < |p| && CorrectionFor(p[i], o) == Some(rest[k]);
      assert cs[l] == CorrectionFor(nodes[|nodes| - 1], o).value;
      assert nodes[i] == p[i];
    }
  }

  /** When every qid checks out there is nothing to correct: nodes and edges stay as they are. */
  lemma {:induction false} NothingToCorrect(nodes: seq<Node>, edges: seq<Edge>, o: Oracles)
    requires forall i :: 0 <= i < |nodes| ==> o.validateQid(nodes[i].qid, nodes[i].name)
    ensures Corrections(nodes, o) == []
    ensures Map(nodes, CorrectNode(o)) == nodes
    ensures RenameEdges(edges, []) == edges && SequentialRenameEdges(edges, []) == edges
  {
    if nodes != [] {
      var p := nodes[..|nodes| - 1];
      assert forall i :: 0 <= i < |p| ==> p[i] == nodes[i];
      NothingToCorrect(p, edges, o);
    }
  }

  // ------------------------------------------------------- as written

  /** One pass of the inner loop over the edges: an end naming `c.oldQid` now names `c.newQid`. */
  function RenameOnce(q: string, c: Correction): string {
    if q == c.oldQid then c.newQid else q
  }

  /** The route's edge rewrite: the corrections are applied to an end one after another. */
  function SequentialRename(q: string, cs: seq<Correction>): string
    decreases |cs|
  {
    if cs == [] then q else SequentialRename(RenameOnce(q, cs[0]), cs[1..])
  }

  /** One more correction moves an end once more, from where the earlier ones left it. */
  lemma {:induction false} SequentialRenameSnoc(q: string, cs: seq<Correction>, c: Correction)
    ensures SequentialRename(q, cs + [c]) == RenameOnce(SequentialRename(q, cs), c)
    decreases |cs|
  {
    if cs == [] {
      assert (cs + [c])[1..] == [];
    } else {
      assert (cs + [c])[0] == cs[0] && (cs + [c])[1..] == cs[1..] + [c];
      SequentialRenameSnoc(RenameOnce(q, cs[0]), cs[1..], c);
    }
  }

  /** The edges after the route's loop: every end rewritten by `SequentialRename`. */
  function SequentialRenameEdges(edges: seq<Edge>, cs: seq<Correction>): (r: seq<Edge>)
    ensures |r| == |edges|
    ensures forall i :: 0 <= i < |edges| ==>
      r[i] == edges[i].(from := SequentialRename(edges[i].from, cs), to := SequentialRename(edges[i].to, cs))
  {
    Map(edges, (e: Edge) => e.(from := SequentialRename(e.from, cs), to := SequentialRename(e.to, cs)))
  }

  /** The route's loop after one more corrected node: every end moved once more by that correction. */
  lemma SequentialRenameEdgesSnoc(edges: seq<Edge>, cs: seq<Correction>, c: Correction)
    ensures var before, after := SequentialRenameEdges(edges, cs), SequentialRenameEdges(edges, cs + [c]);
      forall i :: 0 <= i < |edges| ==>
        after[i] == before[i].(from := RenameOnce(before[i].from, c), to := RenameOnce(before[i].to, c))
  {
    var before, after := SequentialRenameEdges(edges, cs), SequentialRenameEdges(edges, cs + [c]);
    forall i | 0 <= i < |edges|
      ensures after[i] == before[i].(from := RenameOnce(before[i].from, c), to := RenameOnce(before[i].to, c))
    {
      SequentialRenameSnoc(edges[i].from, cs, c);
      SequentialRenameSnoc(edges[i].to, cs, c);
    }
  }

  /**
   * The model gave Anil Kapoor the qid of Tom Cruise. Tom Cruise is
   * corrected first, onto that qid; then Anil Kapoor is corrected away from
   * it, and the route's rewrite drags Tom Cruise's end along: the meeting
   * becomes a loop from Anil Kapoor to himself, and no edge touches Tom
   * Cruise. Renaming by the node each end named keeps the meeting.
   */
  lemma ChainedCorrectionLosesEdge(o: Oracles, p: Option<Photo>)
    requires !o.validateQid("Q1", "Tom Cruise") && o.findCorrectQid("Tom Cruise") == "Q5"
    requires !o.validateQid("Q5", "Anil Kapoor") && o.findCorrectQid("Anil Kapoor") == "Q7"
    ensures var nodes := [Node("Q1", "Tom Cruise", ""), Node("Q5", "Anil Kapoor", "")];
      var edges := [Edge("Q1", "Q5", p)];
      var cs := Corrections(nodes, o);
      && Map(nodes, CorrectNode(o)) == [Node("Q5", "Tom Cruise", ""), Node("Q7", "Anil Kapoor", "")]
      && SequentialRenameEdges(edges, cs) == [Edge("Q7", "Q7", p)]
      && RenameEdges(edges, cs) == [Edge("Q5", "Q7", p)]
  {
    var nodes := [Node("Q1", "Tom Cruise", ""), Node("Q5", "Anil Kapoor", "")];
    assert nodes[..1] == [nodes[0]] && nodes[..1][..0] == [];
    assert CorrectionFor(nodes[0], o) == Some(Correction("Q1", "Q5"));
    assert CorrectionFor(nodes[1], o) == Some(Correction("Q5", "Q7"));
    assert Corrections(nodes[..1], o) == [Correction("Q1", "Q5")];
    var cs := Corrections(nodes, o);
    assert cs == [Correction("Q1", "Q5"), Correction("Q5", "Q7")];
    assert cs[1..] == [Correction("Q5", "Q7")] && cs[1..][1..] == [];
    assert SequentialRename("Q7", cs[1..][1..]) == "Q7";
    assert SequentialRename("Q5", cs[1..]) == "Q7";
    assert SequentialRename("Q1", cs) == "Q7";
    assert SequentialRename("Q5", cs) == "Q7";
    assert Rename("Q1", cs) == "Q5";
    assert Rename("Q5", cs) == "Q7";
  }

  /** An end that no correction names is left as it is by the route's rewrite too. */
  lemma {:induction false} SequentialRenameUntouched(q: string, cs: seq<Correction>)
    requires !Renamed(q, cs)
    ensures SequentialRename(q, cs) == q
  {
    if cs != [] {
      assert !Renamed(q, cs[1..]);
      SequentialRenameUntouched(q, cs[1..]);
    }
  }

  /** The route's rewrite agrees with `Rename` whenever no correction lands on a qid that is corrected itself. */
  lemma {:induction false} SequentialRenameAgrees(q: string, cs: seq<Correction>)
    requires forall i :: 0 <= i < |cs| ==> !Renamed(cs[i].newQid, cs)
    ensures SequentialRename(q, cs) == Rename(q, cs)
  {
    if cs != [] {
      var t := cs[1..];
      assert forall i :: 0 <= i < |t| ==> !Renamed(t[i].newQid, t) by {
        forall i | 0 <= i < |t| ensures !Renamed(t[i].newQid, t) {
          assert t[i] == cs[i + 1];
        }
      }
      if q == cs[0].oldQid {
        assert !Renamed(cs[0].newQid, t);
        SequentialRenameUntouched(cs[0].newQid, t);
      } else {
        SequentialRenameAgrees(q, t);
      }
    }
  }

  /** Without a correction onto a corrected qid, the route's edges are those of the intended rewrite. */
  lemma SequentialRenameEdgesAgrees(edges: seq<Edge>, cs: seq<Correction>)
    requires forall i :: 0 <= i < |cs| ==> !Renamed(cs[i].newQid, cs)
    ensures SequentialRenameEdges(edges, cs) == RenameEdges(edges, cs)
  {
    var a, b := SequentialRenameEdges(edges, cs), RenameEdges(edges, cs);
    forall i | 0 <= i < |edges| ensures a[i] == b[i] {
      SequentialRenameAgrees(edges[i].from, cs);
      SequentialRenameAgrees(edges[i].to, cs);
    }
  }
}
