/**
 * app/api/link/route.ts: `POST /api/link`. The model's answer is cut out
 * of its reply, and its chain is put in path order, has its qids corrected,
 * loses the meetings the lifespans rule out, and gets portraits and meeting
 * photos filled in. The request body, the API key, the model's reply, its
 * JSON parser and the lookup helpers are parameters.
 */
module LinkRoute {
  import opened Wrappers
  import opened Strings
  import opened Seqs
  import opened Json
  import Wikidata
  import GoogleImages
  import opened LinkData
  import opened LinkReorder
  import opened LinkQids
  import opened LinkPasses

  /** The request body's `from` and `to`, where present. */
  datatype LinkRequest = LinkRequest(from: Option<Wikidata.Suggestion>, to: Option<Wikidata.Suggestion>)

  /** The object `extractJson` parsed: its `nodes` and `edges`, where present. */
  datatype Parsed = Parsed(nodes: Option<seq<Node>>, edges: Option<seq<Edge>>)

  const MissingEndpoints: string := "Both \"from\" and \"to\" are required"
  const GenerateFailed: string := "Failed to generate link"

  /** `nodeMap` holds, for every qid among `nodes`, the last node carrying it. */
  ghost predicate IsNodeMap(m: map<string, Node>, nodes: seq<Node>) {
    && (forall q :: q in m <==> HasQid(nodes, q))
    && (forall q :: q in m ==> LastWithQid(nodes, q) == Some(m[q]))
  }

  lemma NodeMapSnoc(m: map<string, Node>, nodes: seq<Node>, n: Node)
    requires IsNodeMap(m, nodes)
    ensures IsNodeMap(m[n.qid := n], nodes + [n])
  {
    var ns := nodes + [n];
    assert ns[..|ns| - 1] == nodes;
    forall q ensures HasQid(ns, q) <==> HasQid(nodes, q) || q == n.qid {
      HasQidConcat(nodes, [n], q);
      assert HasQid([n], q) <==> q == n.qid by { assert [n][0] == n; }
    }
  }

  /** One step of the date loop, for the snoc-shaped invariant. */
  lemma DateStep(nodes: seq<Node>, pre: seq<Edge>, e: Edge, o: Oracles)
    ensures Filter(pre + [e], KeptBy(nodes, o)) == Filter(pre, KeptBy(nodes, o)) + (if DateVerdict(nodes, e, o) == Keep then [e] else [])
    ensures DatePassThrows(nodes, pre + [e], o) <==> DatePassThrows(nodes, pre, o) || DateVerdict(nodes, e, o) == Throws
  {
    FilterSnoc(pre, e, KeptBy(nodes, o));
    var s := pre + [e];
    assert s[|pre|] == e;
    if DatePassThrows(nodes, s, o) {
      var j :| 0 <= j < |s| && DateVerdict(nodes, s[j], o) == Throws;
      if j < |pre| { assert s[j] == pre[j]; }
    }
    if DatePassThrows(nodes, pre, o) {
      var j :| 0 <= j < |pre| && DateVerdict(nodes, pre[j], o) == Throws;
      assert s[j] == pre[j];
    }
  }

  lemma DateStepAt(nodes: seq<Node>, edges: seq<Edge>, i: int, o: Oracles)
    requires 0 <= i < |edges|
    ensures Filter(edges[..i + 1], KeptBy(nodes, o))
            == Filter(edges[..i], KeptBy(nodes, o)) + (if DateVerdict(nodes, edges[i], o) == Keep then [edges[i]] else [])
    ensures DatePassThrows(nodes, edges[..i + 1], o) <==> DatePassThrows(nodes, edges[..i], o) || DateVerdict(nodes, edges[i], o) == Throws
  {
    assert edges[..i + 1] == edges[..i] + [edges[i]];
    DateStep(nodes, edges[..i], edges[i], o);
  }

  /** The chain once it is put in path order and its qids are corrected, with the edges rewritten as the route does it. */
  function Settled(nodes: seq<Node>, edges: seq<Edge>, o: Oracles): (seq<Node>, seq<Edge>) {
    var ordered := Reordered(nodes, edges);
    (Map(ordered, CorrectNode(o)), SequentialRenameEdges(edges, Corrections(ordered, o)))
  }

  /** The date, portrait and photo passes over a settled chain, or `None` when one of them throws. */
  function Finished(nodes: seq<Node>, edges: seq<Edge>, o: Oracles): Option<(seq<Node>, seq<Edge>)> {
    match DatePass(nodes, edges, o)
    case None => None
    case Some(kept) =>
      var portrayed := Map(nodes, FillImage(o));
      match PhotoPass(portrayed, kept, o)
      case None => None
      case Some(photographed) => Some((portrayed, photographed))
  }

  /** The chain the passes build, or `None` when one of them throws. */
  function Pipeline(nodes: seq<Node>, edges: seq<Edge>, o: Oracles): Option<(seq<Node>, seq<Edge>)> {
    var settled := Settled(nodes, edges, o);
    Finished(settled.0, settled.1, o)
  }

  /**
   * The route's answer. `body` is `None` when `request.json()` throws or
   * yields `null`, `reply` is `None` when the model call throws, and otherwise
   * the reply's content (`|| ''`).
   */
  function Respond(body: Option<LinkRequest>, apiKey: string, reply: Option<string>,
                   parse: string -> Option<Parsed>, o: Oracles): Response
  {
    if body.None? then ServerError(GenerateFailed)
    else if body.value.from.None? || body.value.to.None? then BadRequest(MissingEndpoints)
    else if apiKey == "" || reply.None? then Mock
    else
      match ExtractJson(reply.value, parse)
      case None => Mock
      case Some(result) =>
        if result.nodes.None? || result.edges.None? then Mock
        else
          match Pipeline(result.nodes.value, result.edges.value, o)
          case None => Mock
          case Some(chain) => Chain(chain.0, chain.1)
  }

  /** `result`: the chain the route rewrites in place. */
  class LinkChain {
    var nodes: seq<Node>
    var edges: seq<Edge>

    constructor (nodes0: seq<Node>, edges0: seq<Edge>)
      ensures nodes == nodes0 && edges == edges0
    {
      nodes := nodes0;
      edges := edges0;
    }

    /** Line 308: `nodeMap`. */
    method NodeMap() returns (nodeMap: map<string, Node>)
      ensures IsNodeMap(nodeMap, nodes)
    {
      nodeMap := map[];
      var i := 0;
      while i < |nodes|
        invariant 0 <= i <= |nodes|
        invariant IsNodeMap(nodeMap, nodes[..i])
      {
        NodeMapSnoc(nodeMap, nodes[..i], nodes[i]);
        assert nodes[..i + 1] == nodes[..i] + [nodes[i]];
        nodeMap := nodeMap[nodes[i].qid := nodes[i]];
        i := i + 1;
      }
      assert nodes[..|nodes|] == nodes;
    }

    /** Lines 309-321: the first edge's `from` node, then each edge's `to` node not yet placed. */
    method WalkEdges(nodeMap: map<string, Node>) returns (ordered: seq<Node>)
      requires |edges| > 0 && IsNodeMap(nodeMap, nodes)
      ensures ordered == Walk(Start(nodes, edges), nodes, edges)
    {
      ordered := [];
      if edges[0].from in nodeMap {
        ordered := [nodeMap[edges[0].from]];
      }
      var j := 0;
      while j < |edges|
        invariant 0 <= j <= |edges|
        invariant ordered == Walk(Start(nodes, edges), nodes, edges[..j])
      {
        var e := edges[j];
        assert edges[..j + 1][..j] == edges[..j] && edges[..j + 1][j] == e;
        if e.to in nodeMap {
          var toNode := nodeMap[e.to];
          if FindNode(ordered, toNode.qid).None? {
            ordered := ordered + [toNode];
          }
        }
        j := j + 1;
      }
      assert edges[..|edges|] == edges;
    }

    /** Lines 324-328: every node whose qid is not yet placed, in input order. */
    method AppendRemaining(walked: seq<Node>) returns (ordered: seq<Node>)
      ensures ordered == AppendUnseen(walked, nodes)
    {
      ordered := walked;
      var k := 0;
      while k < |nodes|
        invariant 0 <= k <= |nodes|
        invariant ordered == AppendUnseen(walked, nodes[..k])
      {
        assert nodes[..k + 1][..k] == nodes[..k] && nodes[..k + 1][k] == nodes[k];
        if FindNode(ordered, nodes[k].qid).None? {
          ordered := ordered + [nodes[k]];
        }
        k := k + 1;
      }
      assert nodes[..|nodes|] == nodes;
    }

    /** Lines 307-336. */
    method ReorderNodes()
      modifies this
      ensures nodes == Reordered(old(nodes), old(edges)) && edges == old(edges)
    {
      if |edges| > 0 {
        var nodeMap := NodeMap();
        var walked := WalkEdges(nodeMap);
        var ordered := AppendRemaining(walked);
        nodes := ordered;
      }
    }

    /** Lines 356-363, the loop over the edges: every end naming `c.oldQid` is moved to `c.newQid`. */
    method RenameEdgeEnds(c: Correction)
      modifies this
      ensures nodes == old(nodes) && |edges| == |old(edges)|
      ensures forall j :: 0 <= j < |edges| ==>
        edges[j] == old(edges)[j].(from := RenameOnce(old(edges)[j].from, c), to := RenameOnce(old(edges)[j].to, c))
    {
      var k := 0;
      while k < |edges|
        invariant 0 <= k <= |edges| == |old(edges)|
        invariant nodes == old(nodes)
        invariant forall j :: 0 <= j < k ==>
          edges[j] == old(edges)[j].(from := RenameOnce(old(edges)[j].from, c), to := RenameOnce(old(edges)[j].to, c))
        invariant forall j :: k <= j < |edges| ==> edges[j] == old(edges)[j]
      {
        var e := edges[k];
        var from, to := e.from, e.to;
        if from == c.oldQid {
          from := c.newQid;
        }
        if to == c.oldQid {
          to := c.newQid;
        }
        edges := edges[k := e.(from := from, to := to)];
        k := k + 1;
      }
    }

    /**
     * Lines 340-370: each node whose qid is rejected takes the qid found for
     * its name, and right away every edge end naming the old qid follows.
     */
    method CorrectQids(o: Oracles)
      modifies this
      ensures nodes == Map(old(nodes), CorrectNode(o))
      ensures edges == SequentialRenameEdges(old(edges), Corrections(old(nodes), o))
    {
      var i := 0;
      while i < |nodes|
        invariant 0 <= i <= |nodes| == |old(nodes)|
        invariant forall j :: 0 <= j < i ==> nodes[j] == CorrectNode(o)(old(nodes)[j])
        invariant forall j :: i <= j < |nodes| ==> nodes[j] == old(nodes)[j]
        invariant edges == SequentialRenameEdges(old(edges), Corrections(old(nodes)[..i], o))
      {
        var n := nodes[i];
        ghost var done := Corrections(old(nodes)[..i], o);
        assert old(nodes)[..i + 1][..i] == old(nodes)[..i] && old(nodes)[..i + 1][i] == n;
        var isValid := o.validateQid(n.qid, n.name);
        if !isValid {
          var correctQid := o.findCorrectQid(n.name);
          if correctQid != "" {
            var oldQid := n.qid;
            nodes := nodes[i := n.(qid := correctQid)];
            RenameEdgeEnds(Correction(oldQid, correctQid));
            SequentialRenameEdgesSnoc(old(edges), done, Correction(oldQid, correctQid));
            assert edges == SequentialRenameEdges(old(edges), done + [Correction(oldQid, correctQid)]);
          }
        }
        assert nodes[i] == CorrectNode(o)(n);
        i := i + 1;
      }
      assert old(nodes)[..|nodes|] == old(nodes);
    }

    /** Lines 377-385: `personDates`, the lifespan of every node's qid. */
    method PersonDates(getPersonDates: string -> Lifespan) returns (dates: map<string, Lifespan>)
      ensures forall q :: q in dates <==> HasQid(nodes, q)
      ensures forall q :: q in dates ==> dates[q] == getPersonDates(q)
    {
      dates := map[];
      var i := 0;
      while i < |nodes|
        invariant 0 <= i <= |nodes|
        invariant forall q :: q in dates <==> HasQid(nodes[..i], q)
        invariant forall q :: q in dates ==> dates[q] == getPersonDates(q)
      {
        var n := nodes[i];
        assert nodes[..i + 1] == nodes[..i] + [n];
        forall q ensures HasQid(nodes[..i + 1], q) <==> HasQid(nodes[..i], q) || q == n.qid {
          HasQidConcat(nodes[..i], [n], q);
          assert HasQid([n], q) <==> q == n.qid by { assert [n][0] == n; }
        }
        dates := dates[n.qid := getPersonDates(n.qid)];
        i := i + 1;
      }
      assert nodes[..|nodes|] == nodes;
    }

    /** Lines 390-417, one edge of the date loop; `dates` is `personDates`. */
    method JudgeEdge(e: Edge, dates: map<string, Lifespan>, o: Oracles) returns (v: Verdict)
      requires forall q :: HasQid(nodes, q) ==> q in dates && dates[q] == o.getPersonDates(q)
      ensures v == DateVerdict(nodes, e, o)
    {
      var fromNode, toNode := FindNode(nodes, e.from), FindNode(nodes, e.to);
      if fromNode.None? || toNode.None? {
        return Keep;
      }
      if e.photo.None? {
        return Throws;
      }
      var isValid := o.validateMeetingDate(e.photo.value.date, dates[e.from], dates[e.to],
                                           fromNode.value.name, toNode.value.name);
      v := if isValid then Keep else Drop;
    }

    /** The loop of lines 389-418: `validEdges`, or `ok == false` when an edge without a photo is reached. */
    method ValidEdges(dates: map<string, Lifespan>, o: Oracles) returns (ok: bool, validEdges: seq<Edge>)
      requires forall q :: HasQid(nodes, q) ==> q in dates && dates[q] == o.getPersonDates(q)
      ensures ok == DatePass(nodes, edges, o).Some?
      ensures ok ==> validEdges == DatePass(nodes, edges, o).value
    {
      var es := edges;
      validEdges := [];
      var i := 0;
      while i < |es|
        invariant 0 <= i <= |es|
        invariant validEdges == Filter(es[..i], KeptBy(nodes, o))
        invariant !DatePassThrows(nodes, es[..i], o)
      {
        var e := es[i];
        var v := JudgeEdge(e, dates, o);
        DateStepAt(nodes, es, i, o);
        if v == Throws {
          return false, validEdges;
        }
        if v == Keep {
          validEdges := validEdges + [e];
        }
        i := i + 1;
      }
      assert es[..|es|] == es;
      ok := true;
    }

    /** Lines 377-421; `false` when an edge without a photo is reached. */
    method FilterEdgesByDate(o: Oracles) returns (ok: bool)
      modifies this
      ensures nodes == old(nodes)
      ensures ok == DatePass(old(nodes), old(edges), o).Some?
      ensures edges == if ok then DatePass(old(nodes), old(edges), o).value else old(edges)
    {
      var dates := PersonDates(o.getPersonDates);
      var validEdges;
      ok, validEdges := ValidEdges(dates, o);
      if ok {
        edges := validEdges;
      }
    }

    /** Lines 434-445. */
    method FillNodeImages(o: Oracles)
      modifies this
      ensures nodes == Map(old(nodes), FillImage(o)) && edges == old(edges)
    {
      var i := 0;
      while i < |nodes|
        invariant 0 <= i <= |nodes| == |old(nodes)|
        invariant forall j :: 0 <= j < i ==> nodes[j] == FillImage(o)(old(nodes)[j])
        invariant forall j :: i <= j < |nodes| ==> nodes[j] == old(nodes)[j]
        invariant edges == old(edges)
      {
        var n := nodes[i];
        var filled := FillImage(o)(n);
        if n.img == "" || Contains(n.img, FakeHost) {
          var photoUrl := o.personImage(n.qid, n.name);
          if photoUrl != "" {
            nodes := nodes[i := n.(img := photoUrl)];
            assert nodes[i] == filled;
          } else {
            assert nodes[i] == filled;
          }
        } else {
          assert !NeedsImage(n);
          assert nodes[i] == n;
          assert nodes[i] == filled;
        }
        i := i + 1;
      }
      assert nodes == Map(old(nodes), FillImage(o));
    }

    /** Lines 451-481, one edge of the photo loop; `None` where reading its photo throws. */
    method PhotoFor(e: Edge, o: Oracles) returns (r: Option<Edge>)
      ensures r == FillPhoto(nodes, e, o)
    {
      var fromNode, toNode := FindNode(nodes, e.from), FindNode(nodes, e.to);
      if fromNode.None? || toNode.None? {
        return Some(e);
      }
      if e.photo.None? {
        return None;
      }
      var photo := e.photo.value;
      var url := photo.url;
      if url != "" && Contains(url, FakeHost) {
        url := "";
      }
      if url == "" {
        var photoUrl := o.photosTogether(fromNode.value.name, toNode.value.name);
        if photoUrl == "" {
          var tried;
          photoUrl, tried := GoogleImages.SearchMeetingPhotoGoogle(
            fromNode.value.name, toNode.value.name, o.googleConfig, o.googleSearch);
        }
        url := photoUrl;
      }
      r := Some(e.(photo := Some(photo.(url := url))));
    }

    /** Lines 449-482; `false` when an edge without a photo is reached. */
    method FillEdgePhotos(o: Oracles) returns (ok: bool)
      modifies this
      ensures nodes == old(nodes)
      ensures ok == PhotoPass(old(nodes), old(edges), o).Some?
      ensures ok ==> edges == PhotoPass(old(nodes), old(edges), o).value
    {
      PhotoPassEdgewise(nodes, edges, o);
      var i := 0;
      while i < |edges|
        invariant 0 <= i <= |edges| == |old(edges)|
        invariant nodes == old(nodes)
        invariant forall j :: 0 <= j < i ==> FillPhoto(nodes, old(edges)[j], o) == Some(edges[j])
        invariant forall j :: i <= j < |edges| ==> edges[j] == old(edges)[j]
      {
        var filled := PhotoFor(edges[i], o);
        if filled.None? {
          return false;
        }
        edges := edges[i := filled.value];
        i := i + 1;
      }
      ok := true;
    }

    /** Lines 306-482: the passes in order; `false` when one of them throws. */
    method Run(o: Oracles) returns (ok: bool)
      modifies this
      ensures ok == Pipeline(old(nodes), old(edges), o).Some?
      ensures ok ==> (nodes, edges) == Pipeline(old(nodes), old(edges), o).value
    {
      ReorderNodes();
      CorrectQids(o);
      ok := FilterEdgesByDate(o);
      if ok {
        FillNodeImages(o);
        ok := FillEdgePhotos(o);
      }
    }
  }

  /** `POST` */
  method Post(body: Option<LinkRequest>, apiKey: string, reply: Option<string>,
              parse: string -> Option<Parsed>, o: Oracles) returns (resp: Response)
    ensures resp == Respond(body, apiKey, reply, parse, o)
    ensures resp.ServerError? <==> body.None?
    ensures resp.BadRequest? <==> body.Some? && (body.value.from.None? || body.value.to.None?)
    ensures body.Some? && body.value.from.Some? && body.value.to.Some? ==>
      && (apiKey == "" || reply.None? ==> resp == Mock)
      && (reply.Some? && ExtractJson(reply.value, parse).None? ==> resp == Mock)
      && (reply.Some? && ExtractJson(reply.value, parse).Some?
          && (ExtractJson(reply.value, parse).value.nodes.None? || ExtractJson(reply.value, parse).value.edges.None?)
          ==> resp == Mock)
      && resp.Chain?
  {
    if body.None? {
      return ServerError(GenerateFailed);
    }
    if body.value.from.None? || body.value.to.None? {
      return BadRequest(MissingEndpoints);
    }
    if apiKey == "" || reply.None? {
      return Mock;
    }
    var result := ExtractJson(reply.value, parse);
    if result.None? || result.value.nodes.None? || result.value.edges.None? {
      return Mock;
    }
    var chain := new LinkChain(result.value.nodes.value, result.value.edges.value);
    var ok := chain.Run(o);
    if !ok {
      return Mock;
    }
    return Chain(chain.nodes, chain.edges);
  }

  // ------------------------------------------------------ whole pipeline

  /**
   * The passes fall back to the fixed chain only when the date loop meets
   * an edge between two known people that has no photo; the photo loop
   * never throws after it.
   */
  lemma FinishedMockOnlyForMissingPhoto(nodes: seq<Node>, edges: seq<Edge>, o: Oracles)
    ensures Finished(nodes, edges, o).None? <==>
      exists i :: 0 <= i < |edges| && HasQid(nodes, edges[i].from) && HasQid(nodes, edges[i].to) && edges[i].photo.None?
  {
    if DatePass(nodes, edges, o).Some? {
      PhotoPassAfterDatePass(nodes, edges, o);
      forall i | 0 <= i < |edges| && HasQid(nodes, edges[i].from) && HasQid(nodes, edges[i].to)
        ensures edges[i].photo.Some?
      {
        assert DateVerdict(nodes, edges[i], o) != Throws;
      }
    } else {
      var i :| 0 <= i < |edges| && DateVerdict(nodes, edges[i], o) == Throws;
      assert HasQid(nodes, edges[i].from) && HasQid(nodes, edges[i].to) && edges[i].photo.None?;
    }
  }

  /** The passes never add an edge, and with distinct qids they keep every person. */
  lemma PipelineShape(nodes: seq<Node>, edges: seq<Edge>, o: Oracles)
    requires Pipeline(nodes, edges, o).Some?
    ensures |Pipeline(nodes, edges, o).value.1| <= |edges|
    ensures DistinctQids(nodes) ==> |Pipeline(nodes, edges, o).value.0| == |nodes|
  {
    var ordered := Reordered(nodes, edges);
    var settled := Settled(nodes, edges, o);
    assert |settled.0| == |ordered| && |settled.1| == |edges|;
    var kept := DatePass(settled.0, settled.1, o).value;
    DatePassSelects(settled.0, settled.1, o);
    PhotoPassEdgewise(Map(settled.0, FillImage(o)), kept, o);
    if DistinctQids(nodes) {
      ReorderedPermutes(nodes, edges);
      assert |multiset(ordered)| == |multiset(nodes)|;
    }
  }

  /** The meetings of a path with photos the lifespans allow. */
  predicate PossibleMeetings(nodes: seq<Node>, edges: seq<Edge>, o: Oracles)
    requires IsPath(nodes, edges)
  {
    forall i :: 0 <= i < |edges| ==>
      && edges[i].photo.Some? && edges[i].photo.value.url != "" && !Contains(edges[i].photo.value.url, FakeHost)
      && o.validateMeetingDate(edges[i].photo.value.date, o.getPersonDates(nodes[i].qid), o.getPersonDates(nodes[i + 1].qid),
                               nodes[i].name, nodes[i + 1].name)
  }

  lemma WellFormedDatePass(nodes: seq<Node>, edges: seq<Edge>, o: Oracles)
    requires IsPath(nodes, edges) && DistinctQids(nodes) && PossibleMeetings(nodes, edges, o)
    ensures DatePass(nodes, edges, o) == Some(edges)
  {
    forall i | 0 <= i < |edges| ensures DateVerdict(nodes, edges[i], o) == Keep {
      FindNodeDistinct(nodes, i);
      FindNodeDistinct(nodes, i + 1);
    }
    FilterAll(edges, KeptBy(nodes, o));
  }

  lemma WellFormedPhotoPass(nodes: seq<Node>, edges: seq<Edge>, o: Oracles)
    requires IsPath(nodes, edges) && DistinctQids(nodes) && PossibleMeetings(nodes, edges, o)
    ensures PhotoPass(nodes, edges, o) == Some(edges)
  {
    forall i | 0 <= i < |edges| ensures FillPhoto(nodes, edges[i], o) == Some(edges[i]) {
      FindNodeDistinct(nodes, i);
      FindNodeDistinct(nodes, i + 1);
      var p := edges[i].photo.value;
      assert p.(url := p.url) == p;
    }
    PhotoPassEdgewise(nodes, edges, o);
    var r := PhotoPass(nodes, edges, o).value;
    assert forall i :: 0 <= i < |edges| ==> r[i] == edges[i];
    assert r == edges;
  }

  /**
   * An answer that is already a path with distinct, valid qids, real
   * portraits and real photos of possible meetings comes back unchanged.
   */
  lemma PipelinePassesWellFormedChain(nodes: seq<Node>, edges: seq<Edge>, o: Oracles)
    requires IsPath(nodes, edges) && DistinctQids(nodes)
    requires forall i :: 0 <= i < |nodes| ==> o.validateQid(nodes[i].qid, nodes[i].name) && !NeedsImage(nodes[i])
    requires PossibleMeetings(nodes, edges, o)
    ensures Pipeline(nodes, edges, o) == Some((nodes, edges))
  {
    ReorderedPathUnchanged(nodes, edges);
    NothingToCorrect(nodes, edges, o);
    assert Settled(nodes, edges, o) == (nodes, edges);
    WellFormedDatePass(nodes, edges, o);
    assert Map(nodes, FillImage(o)) == nodes;
    WellFormedPhotoPass(nodes, edges, o);
  }
}
