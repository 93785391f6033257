/**
 * app/api/link/route.ts: the shapes the link route works on — the people
 * (nodes), the meetings between them (edges, each with its photo), the
 * helpers the route calls and cannot be inspected here, the responses, and
 * the fixed chain it falls back to.
 */
module LinkData {
  import opened Wrappers
  import GoogleImages

  /** An edge's evidence photo; an absent string field is "". */
  datatype Photo = Photo(url: string, caption: string, date: string, location: string, license: string, source: string)

  /** A person on the chain; an absent `img` is "". */
  datatype Node = Node(qid: string, name: string, img: string)

  /** A meeting of the people with qids `from` and `to`; `photo` may be missing from the model's output. */
  datatype Edge = Edge(from: string, to: string, photo: Option<Photo>)

  /** `{ birth?: string; death?: string }` as `getPersonDates` returns it. */
  datatype Lifespan = Lifespan(birth: Option<string>, death: Option<string>)

  /**
   * The helpers the route imports, as functions of their arguments; a
   * `null` or empty string answer is "".
   */
  datatype Oracles = Oracles(
    validateQid: (string, string) -> bool,
    findCorrectQid: string -> string,
    getPersonDates: string -> Lifespan,
    validateMeetingDate: (string, Lifespan, Lifespan, string, string) -> bool,
    personImage: (string, string) -> string,
    photosTogether: (string, string) -> string,
    googleConfig: GoogleImages.Config,
    googleSearch: (string, nat) -> Fetched<seq<GoogleImages.Item>>)

  /** What the route answers: a 400 error, a 500 error, or a chain. */
  datatype Response = BadRequest(error: string) | ServerError(error: string) | Chain(nodes: seq<Node>, edges: seq<Edge>)

  /** Some node carries qid `q`. */
  predicate HasQid(nodes: seq<Node>, q: string) {
    exists i :: 0 <= i < |nodes| && nodes[i].qid == q
  }

  /** No two nodes share a qid. */
  predicate DistinctQids(nodes: seq<Node>) {
    forall i, j :: 0 <= i < j < |nodes| ==> nodes[i].qid != nodes[j].qid
  }

  /** `nodes.find(n => n.qid === q)`: the first node with qid `q`. */
  function FindNode(nodes: seq<Node>, q: string): (r: Option<Node>)
    ensures r.None? <==> !HasQid(nodes, q)
    ensures r.Some? ==> r.value in nodes && r.value.qid == q
  {
    if nodes == [] then None
    else if nodes[0].qid == q then Some(nodes[0])
    else
      var r := FindNode(nodes[1..], q);
      assert HasQid(nodes[1..], q) ==> HasQid(nodes, q);
      assert HasQid(nodes, q) ==> HasQid(nodes[1..], q) by {
        if HasQid(nodes, q) {
          var i :| 0 <= i < |nodes| && nodes[i].qid == q;
          assert nodes[1..][i - 1] == nodes[i];
        }
      }
      r
  }

  /** `find` returns the first match: no earlier node has that qid. */
  lemma {:induction false} FindNodeFirst(nodes: seq<Node>, q: string)
    requires HasQid(nodes, q)
    ensures exists i :: 0 <= i < |nodes| && nodes[i] == FindNode(nodes, q).value
                        && forall j :: 0 <= j < i ==> nodes[j].qid != q
  {
    if nodes[0].qid != q {
      FindNodeFirst(nodes[1..], q);
      var i :| 0 <= i < |nodes[1..]| && nodes[1..][i] == FindNode(nodes[1..], q).value
               && forall j :: 0 <= j < i ==> nodes[1..][j].qid != q;
      assert nodes[i + 1] == FindNode(nodes, q).value;
      forall j | 0 <= j < i + 1 ensures nodes[j].qid != q {
        if j > 0 { assert nodes[j] == nodes[1..][j - 1]; }
      }
    }
  }

  /** A node appended behind the others is found only when none of them has its qid. */
  lemma {:induction false} FindNodeSnoc(nodes: seq<Node>, n: Node, q: string)
    ensures FindNode(nodes + [n], q)
            == if HasQid(nodes, q) then FindNode(nodes, q) else if n.qid == q then Some(n) else None
  {
    var s := nodes + [n];
    if nodes == [] {
      assert s[1..] == [];
    } else {
      assert s[0] == nodes[0] && s[1..] == nodes[1..] + [n];
      if nodes[0].qid != q {
        FindNodeSnoc(nodes[1..], n, q);
        assert HasQid(nodes, q) <==> HasQid(nodes[1..], q) by {
          if HasQid(nodes, q) {
            var i :| 0 <= i < |nodes| && nodes[i].qid == q;
            assert nodes[1..][i - 1] == nodes[i];
          }
          if HasQid(nodes[1..], q) {
            var i :| 0 <= i < |nodes[1..]| && nodes[1..][i].qid == q;
            assert nodes[i + 1] == nodes[1..][i];
          }
        }
      }
    }
  }

  /** With distinct qids the node found is the one at the qid's position. */
  lemma FindNodeDistinct(nodes: seq<Node>, i: int)
    requires DistinctQids(nodes) && 0 <= i < |nodes|
    ensures FindNode(nodes, nodes[i].qid) == Some(nodes[i])
  {
    FindNodeFirst(nodes, nodes[i].qid);
  }

  // ------------------------------------------------------------ mock chain

  const MockSource: string := "https://commons.wikimedia.org/"

  /** `MOCK_DATA.nodes` */
  const MockNodes: seq<Node> := [
    Node("QTC", "Tom Cruise", "https://upload.wikimedia.org/wikipedia/commons/thumb/8/8f/Tom_Cruise_by_Gage_Skidmore_2.jpg/256px-Tom_Cruise_by_Gage_Skidmore_2.jpg"),
    Node("QAK", "Anil Kapoor", "https://upload.wikimedia.org/wikipedia/commons/thumb/1/15/Anil_Kapoor_2023.jpg/256px-Anil_Kapoor_2023.jpg"),
    Node("QSRK", "Shah Rukh Khan", "https://upload.wikimedia.org/wikipedia/commons/thumb/5/56/Shah_Rukh_Khan_graces_star_screen_awards.jpg/256px-Shah_Rukh_Khan_graces_star_screen_awards.jpg"),
    Node("QVJ", "Vijay", "https://upload.wikimedia.org/wikipedia/commons/thumb/2/24/Vijay_at_Leo_Success_Meet.jpg/256px-Vijay_at_Leo_Success_Meet.jpg")
  ]

  /** `MOCK_DATA.edges` */
  const MockEdges: seq<Edge> := [
    Edge("QTC", "QAK", Some(Photo(
      "https://upload.wikimedia.org/wikipedia/commons/thumb/a/a8/Mission_Impossible_Ghost_Protocol_2011.jpg/320px-Mission_Impossible_Ghost_Protocol_2011.jpg",
      "Tom Cruise with Anil Kapoor (Ghost Protocol publicity)", "2013-01-07", "", "CC", MockSource))),
    Edge("QAK", "QSRK", Some(Photo(
      "https://upload.wikimedia.org/wikipedia/commons/0/0a/Zee_Cine_Awards_2024_logo.jpg",
      "Anil Kapoor & Shah Rukh Khan (Zee Cine Awards context)", "2024-03-10", "", "CC", MockSource))),
    Edge("QSRK", "QVJ", Some(Photo(
      "https://upload.wikimedia.org/wikipedia/commons/thumb/9/91/Vijay_at_an_event.jpg/320px-Vijay_at_an_event.jpg",
      "Shah Rukh Khan with Vijay (awards stage)", "2013-01-04", "", "CC", MockSource)))
  ]

  /** `NextResponse.json(MOCK_DATA)` */
  const Mock: Response := Chain(MockNodes, MockEdges)

  /** The path runs along the nodes in order: edge `i` joins node `i` to node `i + 1`. */
  predicate IsPath(nodes: seq<Node>, edges: seq<Edge>) {
    && |nodes| == |edges| + 1
    && forall i :: 0 <= i < |edges| ==> edges[i].from == nodes[i].qid && edges[i].to == nodes[i + 1].qid
  }

  /** The fallback is a three-hop path through four different people, each edge with a photo. */
  lemma MockIsPath()
    ensures IsPath(MockNodes, MockEdges) && DistinctQids(MockNodes) && |MockEdges| == 3
    ensures forall i :: 0 <= i < |MockEdges| ==> MockEdges[i].photo.Some?
  {
    forall i, j | 0 <= i < j < |MockNodes| ensures MockNodes[i].qid != MockNodes[j].qid {
      assert MockNodes[i].qid[1] != MockNodes[j].qid[1];
    }
  }
}
