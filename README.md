# CelebLink link pipeline, in Dafny

CelebLink asks a language model for a chain of public figures that links two
people. Each figure is a node and each meeting between two of them is an edge
with a photo. This project models how the server turns the model's untrusted
answer into such a chain, and the small helpers around it:

- `POST /api/link` (`app/api/link/route.ts`) is the main operation. It can
  reject the request, or fall back to a fixed demonstration chain. Otherwise
  it cuts the JSON object out of the model's reply and rewrites that chain in
  place, in order:
  1. it puts the nodes in path order;
  2. it replaces qids (Wikidata identifiers) that do not match their names,
     and moves the edge ends with them;
  3. it drops meetings whose date the two lifespans rule out;
  4. it fills in missing portraits and meeting photos, trying Wikimedia
     Commons before Google.
- `extractJson` (`lib/json.ts`) cuts from the first `{` to the last `}` and
  parses that text.
- `searchWikidata` (`lib/wikidata.ts`) is the autocomplete search. It keeps a
  60-second cache keyed by the query. It combines entity hits with image and
  gender rows, using `mapGender` and `convertToThumbUrl`.
- `searchGoogleImages` and `searchMeetingPhotoGoogle` (`lib/googleImages.ts`)
  try three phrasings in order and keep the first image found.
- The share button (`components/ShareButton.tsx`) builds the slug, the
  shareable URL, the share text and the copied text.
- The autocomplete box (`components/SearchCombo.tsx`) is a keyboard and
  selection state machine.

## Layout

- `Wrappers.dfy`: `Option`, and `Fetched` (what an awaited `fetch` gives:
  it threw, a non-ok reply, or a body).
- `Strings.dfy`: the JavaScript string operations the code uses.
- `Seqs.dfy`: `Map` and `Filter` as `Array.prototype.map` and `filter` do
  them.
- `Json.dfy`, `Wikidata.dfy`, `GoogleImages.dfy`, `Share.dfy`,
  `SearchCombo.dfy`: one module per source file.
- `LinkData.dfy`, `LinkReorder.dfy`, `LinkQids.dfy`, `LinkPasses.dfy`,
  `LinkRoute.dfy`: the link route. LinkData holds its data, LinkReorder,
  LinkQids and LinkPasses its passes as functions, and LinkRoute the route
  itself. There the chain is a class, `LinkChain`, whose loop methods update
  it in place; each method is proved equal to the pass function it runs.

## How the outside world enters

These become parameters:

- the request body, the API key and the model's reply;
- `JSON.parse`, `encodeURIComponent`, and the network replies;
- the two readings of `Date.now()` in `searchWikidata`.

The route imports six lookup helpers whose bodies are not in these files.
They are fields of `LinkData.Oracles`, and nothing is assumed about them:
`validateQID`, `findCorrectQID`, `getPersonDates`, `validateMeetingDate`,
`getPersonImageFromWikipedia` and `searchPhotosOfPeopleTogether`.

Reading `edge.photo.date` or `edge.photo.url` of an edge without a `photo`
throws a `TypeError`. The route's inner `catch` then answers with the
demonstration chain. The model keeps that path: such an edge gets the
`Throws` verdict in the date pass and `None` in the photo pass, and
`Respond` then answers `Mock`.

Three facts about the route that its own comments do not spell out:
- The route sends the request to the fallback chain when the parsed object
  lacks `nodes` or lacks `edges` (`app/api/link/route.ts:301`).
- An edge between two known people without a `photo` makes the date loop
  throw (`app/api/link/route.ts:398`), and that ends in the fallback chain.
- Walk endpoints are looked up in a `Map` built from the nodes, so for a
  repeated qid the last node with it wins (`LinkReorder.LastWithQidIsLast`). The
  loop over the remaining nodes keeps the first one.

The qid correction (`app/api/link/route.ts:340-370`) is modelled as
written: after each correction every edge is rewritten at once, so chained
corrections move an edge end twice. `LinkQids.RenameEdges` is the rewrite
the route evidently intends, and `## Findings` compares the two.

## Model

| member | source | states |
|---|---|---|
| Strings.IndexOf | lib/json.ts:8 | -1 exactly when the character is absent, otherwise its first position |
| Strings.LastIndexOf | lib/json.ts:9 | -1 exactly when the character is absent, otherwise its last position |
| Strings.ToLower | lib/wikidata.ts:126 | same length; ASCII capitals become lower case and every other character is kept |
| Json.BraceSlice | lib/json.ts:8-15 | definition of the text handed to `JSON.parse`: from the first `{` through the last `}`, or none when a brace is missing or they are out of order; the lemmas below state what it is |
| Json.ExtractJson | lib/json.ts:5-20 | `None` when there is no brace slice; otherwise exactly the parser's answer on the slice, so a parse failure is `None` and never an error |
| Json.BraceSliceNone | lib/json.ts:8-13 | there is no slice exactly when `{` is absent, `}` is absent, or every `}` comes before every `{` |
| Json.BraceSliceShape | lib/json.ts:8-15 | a slice starts with `{` and ends with `}`; it is a substring with no `{` before it and no `}` after it |
| Json.BraceSliceIgnoresSurroundings | lib/json.ts:8-15 | a prefix without `{` and a suffix without `}` leave the slice unchanged, including when there is none |
| Json.BraceSliceIdempotent | lib/json.ts:8-15 | slicing the slice again returns the same slice |
| Json.NoOpeningBraceNoObject | lib/json.ts:11-13 | text without `{` yields no object, whatever the parser would accept |
| Wikidata.FemaleContainsMale | lib/wikidata.ts:127-128 | a label containing "female" also contains "male", so the first test never lets it through as male |
| Wikidata.MapGender | lib/wikidata.ts:124-130 | an absent or empty label gives nothing; "female" in the lowered label gives female; "male" without "female" gives male; neither gives nothing |
| Wikidata.AfterLastSlash | lib/wikidata.ts:115-118 | definition of what `/[^\/]+$/` matches, taken as the text after the last `/`; `AfterLastSlashShape` states its shape |
| Wikidata.AfterLastSlashShape | lib/wikidata.ts:115-118 | the part taken is a suffix without `/`, and is either the whole URL or preceded by `/` |
| Wikidata.ConvertToThumbUrl | lib/wikidata.ts:113-122 | an empty URL or one ending in `/` comes back unchanged; otherwise the result is the FilePath prefix, then the encoded file name, then `?width=96` |
| Wikidata.BindingQid | lib/wikidata.ts:79-80 | definition of `b.qid?.value?.split('/').pop()`, kept only when it is not empty; `BindingQidShape` states it |
| Wikidata.BindingQidShape | lib/wikidata.ts:79-80 | a row's qid is a non-empty, slash-free tail of its `?qid` value; a row is skipped exactly when that value is absent, empty or ends in `/` |
| Wikidata.ImageMap | lib/wikidata.ts:72-89 | definition of `imageMap` after the `forEach`, as a fold over the rows (`new Map()` when the SPARQL reply is not ok); `ImageMapKeys` and `ImageMapLastWins` state its contents |
| Wikidata.ImageMapKeys | lib/wikidata.ts:78-88 | the map has an entry for exactly the qids some row names |
| Wikidata.ImageMapLastWins | lib/wikidata.ts:78-88 | the entry for a qid is built from the last row that names it |
| Wikidata.BuildImageMap | lib/wikidata.ts:72-89 | the `forEach` loop builds exactly `ImageMap` of the rows |
| Wikidata.SuggestionFor | lib/wikidata.ts:93-100 | definition of one entity's suggestion; `Suggestions` states it field by field |
| Wikidata.Suggestions | lib/wikidata.ts:92-101 | one suggestion per hit, in hit order: qid is the id; name is the label, or the id when the label is empty; description as given; image and gender from the map, absent when the map has no entry |
| Wikidata.Lookup | lib/wikidata.ts:15-18 | a cached answer is served exactly when the key is present and its expiry is strictly later than now |
| Wikidata.StoredEntryServedUntilExpiry | lib/wikidata.ts:104 | an answer stored at time t is served for every lookup before t + 60000 and at none from then on |
| Wikidata.WikidataSearch.constructor | lib/wikidata.ts:10 | the cache starts empty |
| Wikidata.WikidataSearch.Search | lib/wikidata.ts:13-111 | a live cache entry is returned unchanged; a failed search, no hits or a thrown SPARQL request give [] and leave the cache alone; otherwise the assembled suggestions are returned and stored under the query with expiry store-time + 60000; a non-ok SPARQL reply gives suggestions without images |
| GoogleImages.Links | lib/googleImages.ts:42 | the items' links, in item order |
| GoogleImages.SearchGoogleImages | lib/googleImages.ts:6-50 | [] without both settings, on a thrown request and on a non-ok reply; otherwise the items' links in order ([] when there are no items) |
| GoogleImages.MeetingQueries | lib/googleImages.ts:56-60 | three phrasings |
| GoogleImages.FirstPhoto | lib/googleImages.ts:62-72 | definition of the query loop: the first image of the first query that finds one, or ""; `SearchMeetingPhotoGoogle` states what it tries |
| GoogleImages.MeetingPhoto | lib/googleImages.ts:55-73 | definition of `searchMeetingPhotoGoogle`'s answer over the three phrasings |
| GoogleImages.UnconfiguredFindsNothing | lib/googleImages.ts:7-13 | without both settings no meeting photo is ever found, whatever the endpoint would answer |
| GoogleImages.SearchMeetingPhotoGoogle | lib/googleImages.ts:55-73 | the queries issued are a prefix of the three phrasings, in order; all but the last found nothing; the URL is the first image of the last one, or "" after all three failed |
| Share.IsSlugChar | components/ShareButton.tsx:16 | definition of the characters `/[^a-z0-9-]/` keeps: `a-z`, `0-9` and `-` |
| Share.DashWhitespace | components/ShareButton.tsx:16 | the result holds no white space |
| Share.RunBecomesOneDash | components/ShareButton.tsx:16 | each maximal run of white space becomes exactly one `-` |
| Share.KeepSlugChars | components/ShareButton.tsx:16 | only `a-z`, `0-9` and `-` remain, and nothing is added |
| Share.KeepSlugCharsAppend | components/ShareButton.tsx:16 | the filter works character by character: filtering `a + b` is filtering `a`, then `b` |
| Share.KeepSlugCharsIsFilter | components/ShareButton.tsx:16 | exactly the slug characters of the text survive, in their order |
| Share.NameToSlug | components/ShareButton.tsx:15-17 | a slug holds only `[a-z0-9-]`; it has no white space, no `/` and no space |
| Share.NameToSlugIsFilter | components/ShareButton.tsx:15-17 | the slug is exactly the slug characters of the lowered name with its white-space runs dashed, in order |
| Share.NameToSlugOfTwoWords | components/ShareButton.tsx:15-17 | two lower-case words without dashes, joined by one space, become the two words joined by one `-` |
| Share.NameToSlugIdempotent | components/ShareButton.tsx:15-17 | a slug is its own slug |
| Share.BaseUrl | components/ShareButton.tsx:21 | definition of `baseUrl`: the window's origin, or `https://celebslinks.com` without a window |
| Share.ShareableUrl | components/ShareButton.tsx:19-22 | definition of `shareableUrl`: base URL, `/connection/`, then the two slugs separated by `/` |
| Share.ShareableUrlSegments | components/ShareButton.tsx:19-22 | reading the URL back after the base URL's `/connection/` gives the two slugs unchanged |
| Share.ShareText | components/ShareButton.tsx:24 | definition of `shareText`, with the closing `! 🎬✨` and the challenge line as the constant `Closing` |
| Share.ShareTextPlural | components/ShareButton.tsx:24 | the text ends in " hops" plus the closing exactly when the count is above 1, and in " hop" plus the closing otherwise, 0 included |
| Share.CopyText | components/ShareButton.tsx:47 | definition of the copied text: share text, a space, the URL |
| Share.CopyTextSplitsAtLastSpace | components/ShareButton.tsx:47 | the copied text is the share text, one space, then the URL; with a space-free origin, its last space separates the two |
| SearchCombo.IndexDown | components/SearchCombo.tsx:84-86 | definition of the ArrowDown update: one row down unless on the last row; the lemmas below state its behaviour |
| SearchCombo.IndexUp | components/SearchCombo.tsx:90 | definition of the ArrowUp update: one row up unless at row 0 or below |
| SearchCombo.ArrowsKeepRange | components/SearchCombo.tsx:84-90 | on a non-empty list both arrows keep the index in [-1, len-1] |
| SearchCombo.ArrowsMoveOneRow | components/SearchCombo.tsx:84-90 | ArrowDown adds one exactly when the index is below len-1, otherwise it stays; ArrowUp subtracts one exactly when the index is above 0, otherwise it stays (-1 and 0 included) |
| SearchCombo.ArrowsUndoEachOther | components/SearchCombo.tsx:84-90 | Up after a Down that moved returns to the row; Down after an Up that moved does too |
| SearchCombo.ArrowsNeverReturnToNone | components/SearchCombo.tsx:84-90 | from a highlighted row the arrows never go back to -1 |
| SearchCombo.PressDownFromNone | components/SearchCombo.tsx:84-86 | from -1, n presses of ArrowDown highlight row n-1, stopping at the last row |
| SearchCombo.Combo.constructor | components/SearchCombo.tsx:12-20 | empty query, empty closed list, index -1, and the selection is the `value` passed in |
| SearchCombo.Combo.Select | components/SearchCombo.tsx:106-112 | the suggestion is chosen, the query becomes its name, the list is closed and emptied, and the index is -1 |
| SearchCombo.Combo.KeyDown | components/SearchCombo.tsx:78-104 | a closed or empty list ignores every key; arrows move the index as above; Enter selects row idx only when 0 <= idx < len; Escape closes and resets the index; other keys change nothing; with the list unchanged, the index stays in range |
| SearchCombo.Combo.Type | components/SearchCombo.tsx:139-145 | the query is taken and a selection with a different name is dropped; a blank query then empties and closes the list |
| SearchCombo.Combo.SuggestionsArrived | components/SearchCombo.tsx:43-47 | an ok reply replaces the list (empty when absent) and opens it without touching the index; a failed or thrown request changes nothing |
| SearchCombo.Combo.Focus | components/SearchCombo.tsx:147-152 | focusing closes the list when a selection is held, and changes nothing else |
| SearchCombo.Combo.ClickOutside | components/SearchCombo.tsx:64-70 | the list is closed and nothing else changes |
| SearchCombo.StaleIndexAfterShorterReply | components/SearchCombo.tsx:94-96 | after two ArrowDowns and a one-row reply the index is 1 on a list of length 1; Enter then selects nothing |
| LinkData.FindNode | app/api/link/route.ts:390-391 | nothing exactly when no node has the qid; otherwise a node of the list with that qid |
| LinkData.FindNodeFirst | app/api/link/route.ts:390-391 | the node found is the first with that qid |
| LinkData.MockIsPath | app/api/link/route.ts:9-70 | the fallback chain (the constants `MockNodes` and `MockEdges`) is a three-edge path through four people with distinct qids, each edge with a photo |
| LinkReorder.LastWithQid | app/api/link/route.ts:308 | what `nodeMap` holds for a qid: nothing exactly when no node has it, otherwise a node with that qid; `LastWithQidIsLast` states it is the last one |
| LinkReorder.LastWithQidIsLast | app/api/link/route.ts:308 | the node the map holds for a qid is the last node with it: no later node carries that qid |
| LinkReorder.LastWithQidIndex | app/api/link/route.ts:308 | gives the position of that node: it holds the map's node, and no later position has the qid |
| LinkReorder.Start | app/api/link/route.ts:311-313 | definition of the walk's start: the map's node for the first edge's `from`, if any |
| LinkReorder.Walk | app/api/link/route.ts:315-321 | definition of the loop over the edges: each `to` node whose qid is not yet placed is appended |
| LinkReorder.AppendUnseen | app/api/link/route.ts:323-328 | definition of the loop over the nodes: each node whose qid is not yet placed is appended |
| LinkReorder.Reordered | app/api/link/route.ts:307-330 | definition of `result.nodes` after the block: the nodes unchanged without edges, otherwise walk then remaining nodes |
| LinkReorder.ReorderedDistinctFromInput | app/api/link/route.ts:307-330 | with edges, the reordered nodes have pairwise different qids and are all input nodes |
| LinkReorder.ReorderedCoversQids | app/api/link/route.ts:323-330 | every input qid is still present |
| LinkReorder.ReorderedStartsAtFirstFrom | app/api/link/route.ts:311-313 | when a node has the first edge's `from`, the map's node for it comes first |
| LinkReorder.AppendUnseenTail | app/api/link/route.ts:323-328 | for any input, the loop only appends; the appended tail is a subsequence of the nodes, each entry the first node with its qid and a qid the walk had not placed; afterwards every input qid is placed |
| LinkReorder.AppendUnseenInOrder | app/api/link/route.ts:323-328 | with distinct qids, the tail is exactly the nodes the walk missed, in their input order |
| LinkReorder.ReorderedPermutes | app/api/link/route.ts:307-330 | with distinct input qids the reordering is a permutation (multiset equality) |
| LinkReorder.WalkAlongPath | app/api/link/route.ts:315-321 | over a path, the first k edges place exactly the first k+1 nodes |
| LinkReorder.AppendUnseenAllSeen | app/api/link/route.ts:323-328 | when the walk reached every qid nothing is appended |
| LinkReorder.ReorderedPathUnchanged | app/api/link/route.ts:307-330 | a chain already in path order with distinct qids keeps its order |
| LinkReorder.ReorderedExample | app/api/link/route.ts:312-321 | edges (B,C),(A,B) over nodes A,B,C give B,C,A |
| LinkQids.CorrectionFor | app/api/link/route.ts:342-349 | a node is corrected exactly when `validateQID` rejects it and `findCorrectQID` finds a non-empty qid, and then from its qid to that one |
| LinkQids.CorrectNode | app/api/link/route.ts:342-352 | definition of a node after the loop visits it: its qid replaced when `CorrectionFor` gives a correction |
| LinkQids.Corrections | app/api/link/route.ts:340-370 | definition of the corrections the loop makes, in node order; `CorrectionsFromNodes` states them |
| LinkQids.Rename | app/api/link/route.ts:356-363 | definition of the intended rewrite of one end: the first correction of the qid it named, or itself |
| LinkQids.RenameEdges | app/api/link/route.ts:356-363 | every edge keeps its photo and its place; each end is renamed by the correction of the qid it named |
| LinkQids.RenameFollowsCorrection | app/api/link/route.ts:356-363 | with one correction per qid, an end naming a corrected qid gets the new one and any other end is untouched |
| LinkQids.CorrectionsFromNodes | app/api/link/route.ts:340-370 | every recorded correction is some node's, and every node's correction is recorded |
| LinkQids.CorrectionsDistinct | app/api/link/route.ts:340-370 | nodes with distinct qids give at most one correction per qid |
| LinkQids.NothingToCorrect | app/api/link/route.ts:340-370 | when every qid checks out, no correction is made and nodes and edges stay as they are |
| LinkQids.SequentialRename | app/api/link/route.ts:356-363 | definition of the route's rewrite of one end: it runs through the corrections one after another |
| LinkQids.SequentialRenameSnoc | app/api/link/route.ts:340-363 | one more corrected node moves an end once more, from where the earlier corrections left it |
| LinkQids.SequentialRenameEdges | app/api/link/route.ts:356-363 | the route's rewrite as written: every edge keeps its photo and place, and every end runs through the corrections one after another |
| LinkQids.SequentialRenameEdgesSnoc | app/api/link/route.ts:340-363 | after one more corrected node, each edge end has been moved once more by that correction only |
| LinkQids.ChainedCorrectionLosesEdge | app/api/link/route.ts:352-363 | Tom Cruise Q1 corrected to Q5, then Anil Kapoor Q5 corrected to Q7: as written the edge Q1→Q5 becomes Q7→Q7, and the corrected rewrite gives Q5→Q7 |
| LinkQids.SequentialRenameUntouched | app/api/link/route.ts:356-363 | as written too, an end no correction names is untouched |
| LinkQids.SequentialRenameEdgesAgrees | app/api/link/route.ts:356-363 | the route's edges equal the intended ones when no correction lands on a qid that is itself corrected |
| LinkQids.SequentialRenameAgrees | app/api/link/route.ts:356-363 | the rewrite as written agrees with the corrected one when no correction lands on a qid that is itself corrected |
| LinkPasses.DateVerdict | app/api/link/route.ts:390-417 | definition of one edge's fate: kept when an end is no node; throwing without a photo; otherwise kept exactly when `validateMeetingDate` accepts |
| LinkPasses.DatePass | app/api/link/route.ts:388-421 | definition of the date loop: the kept edges in order, or none when an edge throws |
| LinkPasses.DatePassSelects | app/api/link/route.ts:388-421 | the kept edges are an order-preserving subsequence; an edge with an end that is no node is kept; any other edge is kept exactly when it has a photo and `validateMeetingDate` accepts its date |
| LinkPasses.DatePassIdempotent | app/api/link/route.ts:388-421 | filtering the kept edges again keeps them all |
| LinkPasses.NeedsImage | app/api/link/route.ts:436 | definition of the portrait test: `img` empty or containing `example.com` |
| LinkPasses.FillImage | app/api/link/route.ts:436-443 | definition of one node after the portrait loop |
| LinkPasses.ImagePassChangesOnlyImages | app/api/link/route.ts:434-445 | qids, names and count are kept; a node with a real image is untouched; another takes the lookup's answer only when it is not empty |
| LinkPasses.ImagePassIdempotent | app/api/link/route.ts:434-445 | a second pass with the same answers changes nothing |
| LinkPasses.FoundPhoto | app/api/link/route.ts:463-470 | definition of the photo search: Commons first, Google when Commons gives "" |
| LinkPasses.FillPhoto | app/api/link/route.ts:450-481 | definition of one edge after the photo loop, or none when reading its photo throws |
| LinkPasses.PhotoPass | app/api/link/route.ts:449-482 | definition of the photo loop over all edges, or none when one throws |
| LinkPasses.PhotoPassEdgewise | app/api/link/route.ts:449-482 | the photo loop fails exactly when some edge's step fails; otherwise the count is kept and each edge is filled on its own |
| LinkPasses.FillPhotoEffect | app/api/link/route.ts:450-481 | the ends never change; an edge with an end that is no node is skipped; a real URL is kept; an empty or `example.com` URL becomes the Commons photo, or the Google photo when Commons has none |
| LinkPasses.PhotoPassAfterDatePass | app/api/link/route.ts:449-454 | after the date and portrait passes the photo loop cannot fail |
| LinkRoute.Settled | app/api/link/route.ts:306-370 | definition of the chain after the reordering block and the qid loop, as written |
| LinkRoute.Finished | app/api/link/route.ts:377-482 | definition of the date, portrait and photo passes, or none when one throws |
| LinkRoute.Pipeline | app/api/link/route.ts:306-482 | definition of the whole rewrite of the parsed chain |
| LinkRoute.Respond | app/api/link/route.ts:72-498 | definition of the route's answer; `Post` states its cases |
| LinkRoute.LinkChain.constructor | app/api/link/route.ts:294 | the chain holds the parsed nodes and edges |
| LinkRoute.LinkChain.NodeMap | app/api/link/route.ts:308 | the map holds, for every node qid, the last node with it, and no other key |
| LinkRoute.LinkChain.WalkEdges | app/api/link/route.ts:309-321 | the loop builds exactly the walk from the first edge's `from` node |
| LinkRoute.LinkChain.AppendRemaining | app/api/link/route.ts:323-328 | the loop appends exactly the nodes whose qid is not yet placed |
| LinkRoute.LinkChain.ReorderNodes | app/api/link/route.ts:307-336 | the nodes become `Reordered` of the old chain (unchanged without edges); edges untouched |
| LinkRoute.LinkChain.RenameEdgeEnds | app/api/link/route.ts:356-363 | the inner loop: every end naming the old qid of this correction now names the new one, others and the photos stay; nodes untouched |
| LinkRoute.LinkChain.CorrectQids | app/api/link/route.ts:340-370 | each node takes its correction, and the edges are those of the route's rewrite, `SequentialRenameEdges` over the corrections in node order |
| LinkRoute.LinkChain.PersonDates | app/api/link/route.ts:377-385 | `personDates` has exactly the node qids as keys, each with its lifespan |
| LinkRoute.LinkChain.JudgeEdge | app/api/link/route.ts:390-417 | the loop step keeps, drops or throws as `DateVerdict` says |
| LinkRoute.LinkChain.ValidEdges | app/api/link/route.ts:388-418 | the loop throws exactly when the date pass does, and otherwise yields its kept edges |
| LinkRoute.LinkChain.FilterEdgesByDate | app/api/link/route.ts:377-421 | `ok` exactly when no edge throws, and then the edges become the kept ones; nodes untouched |
| LinkRoute.LinkChain.FillNodeImages | app/api/link/route.ts:434-445 | every node becomes its filled version; edges untouched |
| LinkRoute.LinkChain.PhotoFor | app/api/link/route.ts:450-481 | the loop step fills one edge as `FillPhoto` says |
| LinkRoute.LinkChain.FillEdgePhotos | app/api/link/route.ts:449-482 | `ok` exactly when no edge throws, and then the edges are the photo pass's; nodes untouched |
| LinkRoute.LinkChain.Run | app/api/link/route.ts:306-482 | the passes in order: `ok` exactly when `Pipeline` succeeds, and then the chain is its result |
| LinkRoute.Post | app/api/link/route.ts:72-498 | 500 exactly when the body is unreadable; 400 exactly when `from` or `to` is missing; the fallback chain with no key, a thrown model call, no JSON object, or missing `nodes` or `edges`; always a chain once both ends are given |
| LinkRoute.FinishedMockOnlyForMissingPhoto | app/api/link/route.ts:388-489 | the passes fall back exactly when some edge between two nodes has no photo |
| LinkRoute.PipelineShape | app/api/link/route.ts:388-482 | the passes never add an edge; with distinct qids every person is kept |
| LinkRoute.WellFormedDatePass | app/api/link/route.ts:388-421 | a path of possible meetings keeps every edge |
| LinkRoute.WellFormedPhotoPass | app/api/link/route.ts:449-482 | a path whose photos are real is left as it is |
| LinkRoute.PipelinePassesWellFormedChain | app/api/link/route.ts:306-485 | a path with distinct valid qids, real portraits and real photos of possible meetings comes back unchanged |

## Left out

- Network I/O is left out: `fetch`, timeouts and `AbortController`, the URLs built, the SPARQL text, and status codes beyond ok or not ok. Each reply is a `Fetched` parameter.
- The model call and its prompts (`app/api/link/route.ts:93-285`, `lib/openaiPrompt.ts`) are left out. The reply's content is a parameter, `None` when the call throws.
- The six imported lookup helpers are total functions that never throw. A throw from one of them would also end in the fallback chain; that is not modelled.
- `JSON.parse` is a parameter. The parsed chain is typed: string fields, "" for an absent one, an optional `photo`, and `nodes`/`edges` either arrays or absent. Non-array values the parser could deliver are not modelled.
- `encodeURIComponent` and the regular-expression engine are left out. The former is a parameter; the two regular expressions used are written out as functions.
- `toLowerCase` covers ASCII letters only, and `\s` is the JavaScript white-space set.
- In the route's date pass, `personDates.get(q)` is taken as `getPersonDates(q)` (`LinkChain.PersonDates` proves the map holds exactly that).
- The nodes and edges are values. The in-place mutation of shared objects is modelled as updates of the class's sequences. No object appears twice in the parsed chain, so there is no aliasing to capture.
- All `console.*` logging is left out.
- The autocomplete box's debounce timer, its `loading` flag and the race between overlapping fetches are left out: replies arrive as events, one at a time.
- The outside-click listener is modelled only as a `ClickOutside` event.
- The box's displayed value (`value ? value.name : query`) is left out.
- The share button's social-network URLs, `window.open`, the clipboard call and the two-second "copied" flag are left out. Only the copied text is modelled.
- The autocomplete route, the rendering components, the random-celebrity shuffle and the scripts are left out: they are presentation, I/O or randomness.
- GoogleImages.MeetingQueries: its contract states only that there are three queries. The exact phrasings are its definition, and `SearchMeetingPhotoGoogle` states its promise against them.
- Wikidata.WikidataSearch.Search: each call runs alone. In the source two searches can interleave at their `await`s, both fetch the same query, and the later store wins; that is not modelled.

## Findings

| source | as written | input that shows it | evidently intended | confidence | as-written member | corrected member |
|---|---|---|---|---|---|---|
| app/api/link/route.ts:356-363 | after each node's correction, every edge end equal to the old qid is rewritten, including ends an earlier correction has just moved onto that qid; the route model (`LinkRoute.Settled`, `LinkRoute.LinkChain.CorrectQids`) does exactly this | nodes Tom Cruise (Q1) and Anil Kapoor (Q5), edge Q1→Q5; `validateQID` rejects both; `findCorrectQID` gives Q5 and Q7. The edge becomes Q7→Q7, a loop that no longer touches Tom Cruise | each edge end follows the correction of the node it referred to when the pass began, giving Q5→Q7 | medium, not executed | LinkQids.ChainedCorrectionLosesEdge | LinkQids.RenameFollowsCorrection |
