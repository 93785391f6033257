/**
 * lib/googleImages.ts: image search through Google Custom Search. The HTTP
 * request is a parameter `search`, given the query and the number of images
 * asked for and returning what the awaited `fetch` delivers.
 */
module GoogleImages {
  import opened Wrappers

  /** `GOOGLE_CUSTOM_SEARCH_API_KEY` and `GOOGLE_CUSTOM_SEARCH_ENGINE_ID`; an unset variable is "". */
  datatype Config = Config(apiKey: string, engineId: string)

  /** One element of the reply's `items` (a reply without `items` has none). */
  datatype Item = Item(link: string)

  /** How many images a meeting-photo query asks for. */
  const MeetingLimit: nat := 3

  predicate Configured(cfg: Config) {
    cfg.apiKey != "" && cfg.engineId != ""
  }

  function Links(items: seq<Item>): (r: seq<string>)
    ensures |r| == |items|
    ensures forall i :: 0 <= i < |items| ==> r[i] == items[i].link
  {
    seq(|items|, i requires 0 <= i < |items| => items[i].link)
  }

  /**
   * `searchGoogleImages(query, limit)`: the `link`s of the returned items in
   * order; nothing without both settings (no request is made then), on a
   * failed request, or on a non-ok reply.
   */
  function SearchGoogleImages(cfg: Config, query: string, limit: nat,
                              search: (string, nat) -> Fetched<seq<Item>>): (r: seq<string>)
    ensures !Configured(cfg) ==> r == []
    ensures Configured(cfg) && !search(query, limit).Body? ==> r == []
    ensures Configured(cfg) && search(query, limit).Body? ==>
      |r| == |search(query, limit).body|
      && forall i :: 0 <= i < |r| ==> r[i] == search(query, limit).body[i].link
  {
    if !Configured(cfg) then []
    else
      match search(query, limit)
      case Body(items) => Links(items)
      case _ => []
  }

  /** The three phrasings tried for a photo of two people, most specific first. */
  function MeetingQueries(name1: string, name2: string): (r: seq<string>)
    ensures |r| == 3
  {
    [ "\"" + name1 + "\" \"" + name2 + "\" together photo",
      name1 + " " + name2 + " meeting",
      name1 + " with " + name2 ]
  }

  /** The first image of the first query, in order, that returns any; "" when none does. */
  function FirstPhoto(queries: seq<string>, cfg: Config, search: (string, nat) -> Fetched<seq<Item>>): string
  {
    if queries == [] then ""
    else
      var results := SearchGoogleImages(cfg, queries[0], MeetingLimit, search);
      if |results| > 0 then results[0] else FirstPhoto(queries[1..], cfg, search)
  }

  /** What `searchMeetingPhotoGoogle(name1, name2)` resolves to. */
  function MeetingPhoto(name1: string, name2: string, cfg: Config,
                        search: (string, nat) -> Fetched<seq<Item>>): string
  {
    FirstPhoto(MeetingQueries(name1, name2), cfg, search)
  }

  /** Without both settings no photo is ever found, whatever the endpoint would answer. */
  lemma {:induction false} UnconfiguredFindsNothing(queries: seq<string>, cfg: Config,
                                                    search: (string, nat) -> Fetched<seq<Item>>)
    requires !Configured(cfg)
    ensures FirstPhoto(queries, cfg, search) == ""
  {
    if queries != [] {
      UnconfiguredFindsNothing(queries[1..], cfg, search);
    }
  }

  /**
   * `searchMeetingPhotoGoogle`. Besides the URL it returns `tried`: the
   * queries the loop issued, in order, to make visible that it stops at the
   * first query with a result.
   */
  method SearchMeetingPhotoGoogle(name1: string, name2: string, cfg: Config,
                                  search: (string, nat) -> Fetched<seq<Item>>)
    returns (url: string, tried: seq<string>)
    ensures url == MeetingPhoto(name1, name2, cfg, search)
    ensures 1 <= |tried| <= 3 && tried == MeetingQueries(name1, name2)[..|tried|]
    ensures forall k :: 0 <= k < |tried| - 1 ==> SearchGoogleImages(cfg, tried[k], MeetingLimit, search) == []
    ensures var last := SearchGoogleImages(cfg, tried[|tried| - 1], MeetingLimit, search);
      && (last != [] ==> url == last[0])
      && (last == [] ==> |tried| == 3 && url == "")
  {
    var queries := MeetingQueries(name1, name2);
    tried := [];
    var i := 0;
    while i < |queries|
      invariant 0 <= i <= |queries|
      invariant tried == queries[..i]
      invariant forall k :: 0 <= k < i ==> SearchGoogleImages(cfg, queries[k], MeetingLimit, search) == []
      invariant FirstPhoto(queries, cfg, search) == FirstPhoto(queries[i..], cfg, search)
    {
      var query := queries[i];
      tried := tried + [query];
      var results := SearchGoogleImages(cfg, query, MeetingLimit, search);
      if |results| > 0 {
        assert queries[..i + 1] == tried;
        return results[0], tried;
      }
      assert queries[i..][1..] == queries[i + 1..];
      i := i + 1;
    }
    url := "";
  }
}
