/**
 * lib/wikidata.ts: the autocomplete search. An entity search gives the hits,
 * a SPARQL query adds an image and a gender per hit, the two are combined
 * into suggestions, and the answer is kept for 60 seconds in a cache keyed
 * by the query text. The two HTTP replies, the clock and
 * `encodeURIComponent` are parameters.
 */
module Wikidata {
  import opened Wrappers
  import opened Strings

  datatype Gender = Male | Female

  /** `Suggestion`: what the autocomplete offers for one entity. */
  datatype Suggestion = Suggestion(
    qid: string, name: string, description: Option<string>, img: Option<string>, gender: Option<Gender>)

  /** One hit of the entity search; an absent or empty label is "". */
  datatype Entity = Entity(id: string, labelText: string, description: Option<string>)

  /** One SPARQL result row: the `value`s bound to `?qid`, `?img` and `?genderLabel`, where present. */
  datatype Binding = Binding(qid: Option<string>, img: Option<string>, genderLabel: Option<string>)

  /** What the image map holds per qid. */
  datatype Extra = Extra(img: Option<string>, gender: Option<Gender>)

  datatype CacheEntry = CacheEntry(data: seq<Suggestion>, expires: int)

  /** `CACHE_TTL`, in milliseconds. */
  const CacheTtl: int := 60000

  const FilePathPrefix: string := "https://commons.wikimedia.org/wiki/Special:FilePath/"
  const ThumbWidth: string := "?width=96"

  // ---------------------------------------------------------------- gender

  lemma FemaleContainsMale(s: string)
    requires Contains(s, "female")
    ensures Contains(s, "male")
  {
    var i :| 0 <= i <= |s| - 6 && OccursAt(s, "female", i);
    assert s[i + 2..i + 6] == s[i..i + 6][2..];
    assert OccursAt(s, "male", i + 2);
  }

  /** `mapGender`: read a gender label, case-insensitively. */
  function MapGender(genderLabel: Option<string>): (r: Option<Gender>)
    ensures genderLabel.None? || genderLabel.value == "" ==> r.None?
    ensures genderLabel.Some? && Contains(ToLower(genderLabel.value), "female") ==> r == Some(Female)
    ensures genderLabel.Some? && Contains(ToLower(genderLabel.value), "male") && !Contains(ToLower(genderLabel.value), "female")
            ==> r == Some(Male)
    ensures genderLabel.Some? && !Contains(ToLower(genderLabel.value), "male") ==> r.None?
  {
    if genderLabel.None? || genderLabel.value == "" then None
    else
      var lower := ToLower(genderLabel.value);
      assert Contains(lower, "female") ==> Contains(lower, "male") by {
        if Contains(lower, "female") { FemaleContainsMale(lower); }
      }
      if Contains(lower, "male") && !Contains(lower, "female") then Some(Male)
      else if Contains(lower, "female") then Some(Female)
      else None
  }

  // ------------------------------------------------------------- thumbnails

  /**
   * The longest suffix of `s` holding no `/`: the match of `/[^\/]+$/` when it
   * is not empty, and what `s.split('/').pop()` returns.
   */
  function AfterLastSlash(s: string): string {
    s[LastIndexOf(s, '/') + 1..]
  }

  /** It is a suffix, it holds no `/`, and it is either all of `s` or preceded by a `/`. */
  lemma AfterLastSlashShape(s: string)
    ensures var r := AfterLastSlash(s);
      HasSuffix(s, r) && '/' !in r && (r == s || s[|s| - |r| - 1] == '/')
  {
    var k := LastIndexOf(s, '/');
    var r := s[k + 1..];
    assert |r| == |s| - k - 1;
    assert s[|s| - |r|..] == r;
    assert '/' !in r by {
      forall j | 0 <= j < |r| ensures r[j] != '/' { assert r[j] == s[k + 1 + j]; }
    }
    assert k == -1 ==> r == s;
  }

  /** `convertToThumbUrl`: point a Commons file URL at its 96-pixel rendering. */
  function ConvertToThumbUrl(url: string, encode: string -> string): (r: string)
    ensures url == [] || url[|url| - 1] == '/' ==> r == url
    ensures url != [] && url[|url| - 1] != '/' ==>
      && |r| == |FilePathPrefix| + |encode(AfterLastSlash(url))| + |ThumbWidth|
      && HasPrefix(r, FilePathPrefix) && HasSuffix(r, ThumbWidth)
      && r[|FilePathPrefix|..|r| - |ThumbWidth|] == encode(AfterLastSlash(url))
  {
    var name := AfterLastSlash(url);
    AfterLastSlashShape(url);
    if name == [] then url
    else
      ConcatParts(FilePathPrefix, encode(name), ThumbWidth);
      FilePathPrefix + encode(name) + ThumbWidth
  }

  /** A file name never comes back empty from a URL that does not end in `/`. */
  lemma AfterLastSlashNonEmpty(url: string)
    requires url != [] && url[|url| - 1] != '/'
    ensures AfterLastSlash(url) != []
  {
    AfterLastSlashShape(url);
  }

  // ---------------------------------------------------------- SPARQL rows

  /** The qid of a row: the text after the last `/` of its `?qid` value; `None` when that is absent or empty. */
  function BindingQid(b: Binding): Option<string> {
    if b.qid.None? then None
    else
      var q := AfterLastSlash(b.qid.value);
      if q == "" then None else Some(q)
  }

  /**
   * A row's qid is a non-empty, slash-free tail of its `?qid` value, and a
   * row is skipped only when that value is absent, empty or ends in `/`.
   */
  lemma BindingQidShape(b: Binding)
    ensures BindingQid(b).Some? ==>
      b.qid.Some? && BindingQid(b).value != "" && '/' !in BindingQid(b).value
      && HasSuffix(b.qid.value, BindingQid(b).value)
    ensures BindingQid(b).None? <==>
      b.qid.None? || b.qid.value == [] || b.qid.value[|b.qid.value| - 1] == '/'
  {
    if b.qid.Some? {
      var v := b.qid.value;
      AfterLastSlashShape(v);
      if v != [] && v[|v| - 1] != '/' {
        AfterLastSlashNonEmpty(v);
      } else if v != [] {
        assert LastIndexOf(v, '/') == |v| - 1;
        assert AfterLastSlash(v) == [];
      }
    }
  }

  function ExtraOf(b: Binding, encode: string -> string): Extra {
    Extra(
      if b.img.Some? && b.img.value != "" then Some(ConvertToThumbUrl(b.img.value, encode)) else None,
      MapGender(b.genderLabel))
  }

  /** The image map after `forEach` has visited `bs` in order; a later row for the same qid replaces an earlier one. */
  function ImageMap(bs: seq<Binding>, encode: string -> string): map<string, Extra>
  {
    if bs == [] then map[]
    else
      var m := ImageMap(bs[..|bs| - 1], encode);
      var b := bs[|bs| - 1];
      match BindingQid(b)
      case None => m
      case Some(q) => m[q := ExtraOf(b, encode)]
  }

  /** Some row of `bs` names qid `k`. */
  predicate Names(bs: seq<Binding>, k: string) {
    exists i :: 0 <= i < |bs| && BindingQid(bs[i]) == Some(k)
  }

  lemma NamesSnoc(bs: seq<Binding>, k: string)
    requires bs != []
    ensures Names(bs, k) <==> Names(bs[..|bs| - 1], k) || BindingQid(bs[|bs| - 1]) == Some(k)
  {
    var init := bs[..|bs| - 1];
    if Names(init, k) {
      var i :| 0 <= i < |init| && BindingQid(init[i]) == Some(k);
      assert bs[i] == init[i];
    }
    if Names(bs, k) {
      var i :| 0 <= i < |bs| && BindingQid(bs[i]) == Some(k);
      if i < |init| { assert init[i] == bs[i]; }
    }
    var last := |bs| - 1;
    if BindingQid(bs[last]) == Some(k) {
      assert 0 <= last < |bs| && BindingQid(bs[last]) == Some(k);
    }
  }

  /** The map has an entry for exactly the qids that some row names. */
  lemma {:induction false} ImageMapKeys(bs: seq<Binding>, encode: string -> string, k: string)
    ensures k in ImageMap(bs, encode) <==> Names(bs, k)
  {
    if bs != [] {
      ImageMapKeys(bs[..|bs| - 1], encode, k);
      NamesSnoc(bs, k);
    }
  }

  /** The entry for a qid comes from the last row that names it. */
  lemma {:induction false} ImageMapLastWins(bs: seq<Binding>, encode: string -> string, i: int)
    requires 0 <= i < |bs| && BindingQid(bs[i]).Some?
    requires forall j :: i < j < |bs| ==> BindingQid(bs[j]) != BindingQid(bs[i])
    ensures BindingQid(bs[i]).value in ImageMap(bs, encode)
    ensures ImageMap(bs, encode)[BindingQid(bs[i]).value] == ExtraOf(bs[i], encode)
  {
    var init := bs[..|bs| - 1];
    if i < |bs| - 1 {
      assert init[i] == bs[i];
      forall j | i < j < |init| ensures BindingQid(init[j]) != BindingQid(init[i]) {
        assert init[j] == bs[j];
      }
      ImageMapLastWins(init, encode, i);
    }
  }

  /** `bindings.forEach(...)` filling `imageMap`. */
  method BuildImageMap(bs: seq<Binding>, encode: string -> string) returns (m: map<string, Extra>)
    ensures m == ImageMap(bs, encode)
  {
    m := map[];
    var i := 0;
    while i < |bs|
      invariant 0 <= i <= |bs|
      invariant m == ImageMap(bs[..i], encode)
    {
      var b := bs[i];
      assert bs[..i + 1][..i] == bs[..i];
      var q := BindingQid(b);
      if q.Some? {
        m := m[q.value := ExtraOf(b, encode)];
      }
      i := i + 1;
    }
    assert bs[..|bs|] == bs;
  }

  // ------------------------------------------------------------ suggestions

  function SuggestionFor(e: Entity, m: map<string, Extra>): Suggestion {
    var extra := if e.id in m then m[e.id] else Extra(None, None);
    Suggestion(e.id, if e.labelText != "" then e.labelText else e.id, e.description, extra.img, extra.gender)
  }

  /** `entities.map(...)`: one suggestion per hit, in hit order. */
  function Suggestions(es: seq<Entity>, m: map<string, Extra>): (r: seq<Suggestion>)
    ensures |r| == |es|
    ensures forall i :: 0 <= i < |es| ==>
      && r[i].qid == es[i].id
      && r[i].name == (if es[i].labelText != "" then es[i].labelText else es[i].id)
      && r[i].description == es[i].description
      && (es[i].id in m ==> r[i].img == m[es[i].id].img && r[i].gender == m[es[i].id].gender)
      && (es[i].id !in m ==> r[i].img.None? && r[i].gender.None?)
  {
    seq(|es|, i requires 0 <= i < |es| => SuggestionFor(es[i], m))
  }

  // ------------------------------------------------------------------ cache

  /** The cached answer for `query` if it has not expired at time `now` (expiry is strict). */
  function Lookup(cache: map<string, CacheEntry>, query: string, now: int): (r: Option<seq<Suggestion>>)
    ensures r.Some? <==> query in cache && cache[query].expires > now
    ensures r.Some? ==> r.value == cache[query].data
  {
    if query in cache && cache[query].expires > now then Some(cache[query].data) else None
  }

  /** What is stored at `storedAt` is served until, and not including, `storedAt + 60000`. */
  lemma StoredEntryServedUntilExpiry(cache: map<string, CacheEntry>, query: string, data: seq<Suggestion>,
                                     storedAt: int, now: int)
    ensures var c := cache[query := CacheEntry(data, storedAt + CacheTtl)];
      Lookup(c, query, now) == if now < storedAt + CacheTtl then Some(data) else None
  {
  }

  /** The process-wide search cache and `searchWikidata`. */
  class WikidataSearch {
    var cache: map<string, CacheEntry>

    constructor ()
      ensures cache == map[]
    {
      cache := map[];
    }

    /**
     * `searchWikidata(query)`. `lookupTime` and `storeTime` are the two
     * readings of `Date.now()`; `searchReply` and `sparqlReply` are what the
     * entity search and the SPARQL endpoint deliver when they are asked.
     */
    method Search(query: string, lookupTime: int, storeTime: int,
                  searchReply: Fetched<seq<Entity>>, sparqlReply: Fetched<seq<Binding>>,
                  encode: string -> string) returns (r: seq<Suggestion>)
      modifies this
      ensures old(Lookup(cache, query, lookupTime)).Some? ==>
        r == old(Lookup(cache, query, lookupTime)).value && cache == old(cache)
      ensures (old(Lookup(cache, query, lookupTime)).None? &&
        (!searchReply.Body? || searchReply.body == [] || sparqlReply.Threw?)) ==>
        r == [] && cache == old(cache)
      ensures (old(Lookup(cache, query, lookupTime)).None? &&
        searchReply.Body? && searchReply.body != [] && !sparqlReply.Threw?) ==>
        && r == Suggestions(searchReply.body,
                            if sparqlReply.Body? then ImageMap(sparqlReply.body, encode) else map[])
        && cache == old(cache)[query := CacheEntry(r, storeTime + CacheTtl)]
    {
      var cached := Lookup(cache, query, lookupTime);
      if cached.Some? {
        return cached.value;
      }
      if !searchReply.Body? {
        return [];
      }
      var entities := searchReply.body;
      if |entities| == 0 {
        return [];
      }
      var imageMap: map<string, Extra> := map[];
      match sparqlReply {
        case Threw => return [];
        case NotOk =>
        case Body(bindings) => imageMap := BuildImageMap(bindings, encode);
      }
      r := Suggestions(entities, imageMap);
      cache := cache[query := CacheEntry(r, storeTime + CacheTtl)];
    }
  }
}
