/**
 * app/api/link/route.ts, lines 377-482: the three passes over the chain
 * after the qids are settled — dropping meetings whose date the lifespans
 * rule out, filling in missing portraits, and finding a photo for each
 * meeting that has none.
 */
module LinkPasses {
  import opened Wrappers
  import opened Strings
  import opened Seqs
  import opened LinkData
  import GoogleImages

  /** The host of the placeholder URLs the model invents. */
  const FakeHost: string := "example.com"

  // ------------------------------------------------------------ dates

  /** What the date loop does with one edge; `Throws` is reading `photo.date` of an edge without a photo. */
  datatype Verdict = Keep | Drop | Throws

  /**
   * One step of the loop at lines 389-418. `personDates.get(q)` is
   * `getPersonDates(q)` for every node's qid (see `LinkRoute.LinkChain.PersonDates`),
   * and an edge is only looked up when both its ends are nodes.
   */
  function DateVerdict(nodes: seq<Node>, e: Edge, o: Oracles): Verdict {
    var f, t := FindNode(nodes, e.from), FindNode(nodes, e.to);
    if f.None? || t.None? then Keep
    else if e.photo.None? then Throws
    else if o.validateMeetingDate(e.photo.value.date, o.getPersonDates(e.from), o.getPersonDates(e.to),
                                  f.value.name, t.value.name) then Keep
    else Drop
  }

  function KeptBy(nodes: seq<Node>, o: Oracles): Edge -> bool {
    (e: Edge) => DateVerdict(nodes, e, o) == Keep
  }

  predicate DatePassThrows(nodes: seq<Node>, edges: seq<Edge>, o: Oracles) {
    exists i :: 0 <= i < |edges| && DateVerdict(nodes, edges[i], o) == Throws
  }

  /** `validEdges`, or `None` when the loop throws. */
  function DatePass(nodes: seq<Node>, edges: seq<Edge>, o: Oracles): Option<seq<Edge>> {
    if DatePassThrows(nodes, edges, o) then None else Some(Filter(edges, KeptBy(nodes, o)))
  }

  /**
   * The date pass keeps the edges in order and never adds one; an edge with
   * an end that is not a node is kept, and any other edge is kept exactly
   * when `validateMeetingDate` accepts it.
   */
  lemma DatePassSelects(nodes: seq<Node>, edges: seq<Edge>, o: Oracles)
    requires !DatePassThrows(nodes, edges, o)
    ensures var r := DatePass(nodes, edges, o).value;
      && IsSubsequence(r, edges) && |r| <= |edges|
      && (forall e :: e in edges && (!HasQid(nodes, e.from) || !HasQid(nodes, e.to)) ==> e in r)
      && (forall e :: e in edges && HasQid(nodes, e.from) && HasQid(nodes, e.to) ==>
            (e in r <==> e.photo.Some? && o.validateMeetingDate(e.photo.value.date,
               o.getPersonDates(e.from), o.getPersonDates(e.to),
               FindNode(nodes, e.from).value.name, FindNode(nodes, e.to).value.name)))
  {
    var p := KeptBy(nodes, o);
    FilterIsSubsequence(edges, p);
    forall e | e in edges && p(e) ensures e in Filter(edges, p) {
      FilterKeeps(edges, p, e);
    }
  }

  lemma {:induction false} FilterIdempotent<T>(s: seq<T>, p: T -> bool)
    ensures Filter(Filter(s, p), p) == Filter(s, p)
  {
    if s != [] {
      FilterIdempotent(s[1..], p);
      if p(s[0]) {
        assert ([s[0]] + Filter(s[1..], p))[1..] == Filter(s[1..], p);
      }
    }
  }

  /** Running the date pass again over the edges it kept keeps them all. */
  lemma DatePassIdempotent(nodes: seq<Node>, edges: seq<Edge>, o: Oracles)
    requires DatePass(nodes, edges, o).Some?
    ensures DatePass(nodes, DatePass(nodes, edges, o).value, o) == DatePass(nodes, edges, o)
  {
    var p := KeptBy(nodes, o);
    var kept := Filter(edges, p);
    assert !DatePassThrows(nodes, kept, o) by {
      forall i | 0 <= i < |kept| ensures DateVerdict(nodes, kept[i], o) != Throws {
        assert kept[i] in kept;
        assert p(kept[i]);
      }
    }
    FilterIdempotent(edges, p);
  }

  // ------------------------------------------------------------ portraits

  /** `!node.img || node.img.includes('example.com')` */
  predicate NeedsImage(n: Node) {
    n.img == "" || Contains(n.img, FakeHost)
  }

  /** One step of the loop at lines 434-445. */
  function FillImage(o: Oracles): Node -> Node {
    (n: Node) => if NeedsImage(n) && o.personImage(n.qid, n.name) != "" then n.(img := o.personImage(n.qid, n.name)) else n
  }

  /**
   * The portrait pass changes images only: a node with a real image keeps
   * it, and any other node takes the lookup's answer when it is not empty.
   */
  lemma ImagePassChangesOnlyImages(nodes: seq<Node>, o: Oracles)
    ensures var r := Map(nodes, FillImage(o));
      && |r| == |nodes|
      && (forall i :: 0 <= i < |nodes| ==> r[i].qid == nodes[i].qid && r[i].name == nodes[i].name)
      && (forall i :: 0 <= i < |nodes| && !NeedsImage(nodes[i]) ==> r[i] == nodes[i])
      && (forall i :: 0 <= i < |nodes| && NeedsImage(nodes[i]) ==>
            r[i].img == if o.personImage(nodes[i].qid, nodes[i].name) != "" then o.personImage(nodes[i].qid, nodes[i].name) else nodes[i].img)
      && (forall q :: HasQid(r, q) <==> HasQid(nodes, q))
  {
    var r := Map(nodes, FillImage(o));
    forall q ensures HasQid(r, q) <==> HasQid(nodes, q) {
      if HasQid(r, q) { var i :| 0 <= i < |r| && r[i].qid == q; assert nodes[i].qid == q; }
      if HasQid(nodes, q) { var i :| 0 <= i < |nodes| && nodes[i].qid == q; assert r[i].qid == q; }
    }
  }

  /** Filling twice with the same answers fills nothing more. */
  lemma ImagePassIdempotent(nodes: seq<Node>, o: Oracles)
    ensures Map(Map(nodes, FillImage(o)), FillImage(o)) == Map(nodes, FillImage(o))
  {
    var r := Map(nodes, FillImage(o));
    var rr := Map(r, FillImage(o));
    forall i | 0 <= i < |nodes| ensures rr[i] == r[i] {
      var n := nodes[i];
      if NeedsImage(n) && o.personImage(n.qid, n.name) != "" {
        assert r[i] == n.(img := o.personImage(n.qid, n.name));
      }
    }
  }

  // ------------------------------------------------------- meeting photos

  /** Wikimedia Commons first; Google only when Commons has nothing. */
  function FoundPhoto(fromName: string, toName: string, o: Oracles): string {
    var commons := o.photosTogether(fromName, toName);
    if commons != "" then commons else GoogleImages.MeetingPhoto(fromName, toName, o.googleConfig, o.googleSearch)
  }

  /** One step of the loop at lines 449-482; `None` where reading the photo would throw. */
  function FillPhoto(nodes: seq<Node>, e: Edge, o: Oracles): Option<Edge> {
    var f, t := FindNode(nodes, e.from), FindNode(nodes, e.to);
    if f.None? || t.None? then Some(e)
    else if e.photo.None? then None
    else
      var p := e.photo.value;
      var url := if p.url != "" && Contains(p.url, FakeHost) then "" else p.url;
      Some(e.(photo := Some(p.(url := if url == "" then FoundPhoto(f.value.name, t.value.name, o) else url))))
  }

  /** The edges after the photo loop, or `None` when it throws. */
  function PhotoPass(nodes: seq<Node>, edges: seq<Edge>, o: Oracles): Option<seq<Edge>> {
    if edges == [] then Some([])
    else
      match PhotoPass(nodes, edges[..|edges| - 1], o)
      case None => None
      case Some(r) =>
        match FillPhoto(nodes, edges[|edges| - 1], o)
        case None => None
        case Some(e) => Some(r + [e])
  }

  /** The photo pass succeeds exactly when every edge's step does, and then treats every edge on its own. */
  lemma {:induction false} PhotoPassEdgewise(nodes: seq<Node>, edges: seq<Edge>, o: Oracles)
    ensures PhotoPass(nodes, edges, o).Some? <==> forall i :: 0 <= i < |edges| ==> FillPhoto(nodes, edges[i], o).Some?
    ensures PhotoPass(nodes, edges, o).Some? ==>
      var r := PhotoPass(nodes, edges, o).value;
      |r| == |edges| && forall i :: 0 <= i < |edges| ==> r[i] == FillPhoto(nodes, edges[i], o).value
  {
    if edges != [] {
      var p := edges[..|edges| - 1];
      PhotoPassEdgewise(nodes, p, o);
      assert forall i :: 0 <= i < |p| ==> p[i] == edges[i];
    }
  }

  /**
   * What the photo pass does to one edge: its ends never change and an edge
   * with an end that is not a node is skipped; otherwise a real URL is
   * kept, and an empty or placeholder URL is replaced by the Commons photo,
   * or by the Google photo when Commons has none.
   */
  lemma FillPhotoEffect(nodes: seq<Node>, e: Edge, o: Oracles)
    requires FillPhoto(nodes, e, o).Some?
    ensures var r := FillPhoto(nodes, e, o).value;
      && r.from == e.from && r.to == e.to
      && (!HasQid(nodes, e.from) || !HasQid(nodes, e.to) ==> r == e)
      && (HasQid(nodes, e.from) && HasQid(nodes, e.to) ==>
           && e.photo.Some? && r.photo.Some?
           && r.photo.value == e.photo.value.(url := r.photo.value.url)
           && (e.photo.value.url != "" && !Contains(e.photo.value.url, FakeHost) ==> r == e)
           && (e.photo.value.url == "" || Contains(e.photo.value.url, FakeHost) ==>
                var a, b := FindNode(nodes, e.from).value.name, FindNode(nodes, e.to).value.name;
                r.photo.value.url == if o.photosTogether(a, b) != "" then o.photosTogether(a, b)
                                     else GoogleImages.MeetingPhoto(a, b, o.googleConfig, o.googleSearch)))
  {
    if HasQid(nodes, e.from) && HasQid(nodes, e.to) && e.photo.value.url != "" && !Contains(e.photo.value.url, FakeHost) {
      assert e.photo.value.(url := e.photo.value.url) == e.photo.value;
    }
  }

  /**
   * After the date pass, and the portrait pass that keeps every qid, the
   * photo loop cannot throw: every edge whose ends are both nodes has a photo.
   */
  lemma PhotoPassAfterDatePass(nodes: seq<Node>, edges: seq<Edge>, o: Oracles)
    requires DatePass(nodes, edges, o).Some?
    ensures PhotoPass(Map(nodes, FillImage(o)), DatePass(nodes, edges, o).value, o).Some?
  {
    var kept := DatePass(nodes, edges, o).value;
    var filled := Map(nodes, FillImage(o));
    ImagePassChangesOnlyImages(nodes, o);
    forall i | 0 <= i < |kept| ensures FillPhoto(filled, kept[i], o).Some? {
      assert kept[i] in kept;
      assert KeptBy(nodes, o)(kept[i]);
    }
    PhotoPassEdgewise(filled, kept, o);
  }
}
