/**
 * components/ShareButton.tsx: the slug, the shareable URL and the texts the
 * share button builds from the two names and the number of hops.
 */
module Share {
  import opened Wrappers
  import opened Strings
  import opened Seqs

  /** The characters the slug filter `/[^a-z0-9-]/g` lets through. */
  predicate IsSlugChar(c: char) {
    'a' <= c <= 'z' || '0' <= c <= '9' || c == '-'
  }

  predicate WhitespaceFree(s: string) {
    forall i :: 0 <= i < |s| ==> !IsWhitespace(s[i])
  }

  /** `s` with its leading white space removed. */
  function SkipWhitespace(s: string): (r: string)
    ensures |r| <= |s|
    ensures r == [] || !IsWhitespace(r[0])
  {
    if s != [] && IsWhitespace(s[0]) then SkipWhitespace(s[1..]) else s
  }

  /** `.replace(/\s+/g, '-')` */
  function DashWhitespace(s: string): (r: string)
    ensures WhitespaceFree(r)
    decreases |s|
  {
    if s == [] then []
    else if IsWhitespace(s[0]) then "-" + DashWhitespace(SkipWhitespace(s[1..]))
    else [s[0]] + DashWhitespace(s[1..])
  }

  /** `.replace(/[^a-z0-9-]/g, '')` */
  function KeepSlugChars(s: string): (r: string)
    ensures |r| <= |s|
    ensures forall i :: 0 <= i < |r| ==> IsSlugChar(r[i])
  {
    if s == [] then []
    else if IsSlugChar(s[0]) then [s[0]] + KeepSlugChars(s[1..])
    else KeepSlugChars(s[1..])
  }

  /** `nameToSlug` */
  function NameToSlug(name: string): (r: string)
    ensures forall i :: 0 <= i < |r| ==> IsSlugChar(r[i])
    ensures WhitespaceFree(r) && '/' !in r && ' ' !in r
  {
    KeepSlugChars(DashWhitespace(ToLower(name)))
  }

  lemma {:induction false} SkipThroughRun(w: string, b: string)
    requires forall i :: 0 <= i < |w| ==> IsWhitespace(w[i])
    requires b == [] || !IsWhitespace(b[0])
    ensures SkipWhitespace(w + b) == b
  {
    if w != [] {
      assert (w + b)[1..] == w[1..] + b;
      SkipThroughRun(w[1..], b);
    }
  }

  lemma {:induction false} DashWhitespaceFree(s: string)
    requires WhitespaceFree(s)
    ensures DashWhitespace(s) == s
  {
    if s != [] {
      DashWhitespaceFree(s[1..]);
    }
  }

  /**
   * A maximal run of white space becomes exactly one `-`: with no white
   * space in `a` and none at the start of `b`, a run `w` between them turns
   * into a single dash.
   */
  lemma {:induction false} RunBecomesOneDash(a: string, w: string, b: string)
    requires WhitespaceFree(a)
    requires w != [] && forall i :: 0 <= i < |w| ==> IsWhitespace(w[i])
    requires b == [] || !IsWhitespace(b[0])
    ensures DashWhitespace(a + w + b) == a + "-" + DashWhitespace(b)
  {
    if a == [] {
      assert a + w + b == w + b;
      assert (w + b)[1..] == w[1..] + b;
      SkipThroughRun(w[1..], b);
    } else {
      assert (a + w + b)[1..] == a[1..] + w + b;
      RunBecomesOneDash(a[1..], w, b);
    }
  }

  lemma {:induction false} KeepSlugCharsOfSlug(s: string)
    requires forall i :: 0 <= i < |s| ==> IsSlugChar(s[i])
    ensures KeepSlugChars(s) == s
  {
    if s != [] {
      KeepSlugCharsOfSlug(s[1..]);
    }
  }

  /** The filter works character by character: the text of `a` is filtered independently of what follows it. */
  lemma {:induction false} KeepSlugCharsAppend(a: string, b: string)
    ensures KeepSlugChars(a + b) == KeepSlugChars(a) + KeepSlugChars(b)
  {
    if a == [] {
      assert a + b == b;
    } else {
      assert (a + b)[0] == a[0] && (a + b)[1..] == a[1..] + b;
      KeepSlugCharsAppend(a[1..], b);
      if IsSlugChar(a[0]) {
        assert [a[0]] + (KeepSlugChars(a[1..]) + KeepSlugChars(b)) == ([a[0]] + KeepSlugChars(a[1..])) + KeepSlugChars(b);
      }
    }
  }

  /** Exactly the slug characters of the text survive, in their order. */
  lemma {:induction false} KeepSlugCharsIsFilter(s: string)
    ensures KeepSlugChars(s) == Filter(s, IsSlugChar)
  {
    if s != [] {
      KeepSlugCharsIsFilter(s[1..]);
    }
  }

  /** The slug is exactly the slug characters of the lowered, dashed name, in their order. */
  lemma NameToSlugIsFilter(name: string)
    ensures NameToSlug(name) == Filter(DashWhitespace(ToLower(name)), IsSlugChar)
  {
    KeepSlugCharsIsFilter(DashWhitespace(ToLower(name)));
  }

  lemma NoSlugCharIsWhitespace(s: string)
    requires forall i :: 0 <= i < |s| ==> IsSlugChar(s[i])
    ensures WhitespaceFree(s) && ToLower(s) == s
  {
  }

  /** Two slug words joined by one space become the two words joined by a dash. */
  lemma NameToSlugOfTwoWords(a: string, b: string)
    requires a != [] && b != []
    requires forall i :: 0 <= i < |a| ==> IsSlugChar(a[i]) && a[i] != '-'
    requires forall i :: 0 <= i < |b| ==> IsSlugChar(b[i]) && b[i] != '-'
    ensures NameToSlug(a + " " + b) == a + "-" + b
  {
    var name := a + " " + b;
    NoSlugCharIsWhitespace(a);
    NoSlugCharIsWhitespace(b);
    assert ToLower(name) == name by {
      var l := ToLower(name);
      forall i | 0 <= i < |name| ensures l[i] == name[i] {
        if i < |a| { assert name[i] == a[i]; }
        else if i > |a| { assert name[i] == b[i - |a| - 1]; }
      }
    }
    RunBecomesOneDash(a, " ", b);
    DashWhitespaceFree(b);
    var dashed := a + "-" + b;
    assert DashWhitespace(name) == dashed;
    assert forall i :: 0 <= i < |dashed| ==> IsSlugChar(dashed[i]) by {
      forall i | 0 <= i < |dashed| ensures IsSlugChar(dashed[i]) {
        if i < |a| { assert dashed[i] == a[i]; }
        else if i > |a| { assert dashed[i] == b[i - |a| - 1]; }
      }
    }
    KeepSlugCharsOfSlug(dashed);
  }

  /** A slug is its own slug. */
  lemma NameToSlugIdempotent(name: string)
    ensures NameToSlug(NameToSlug(name)) == NameToSlug(name)
  {
    var s := NameToSlug(name);
    assert ToLower(s) == s;
    DashWhitespaceFree(s);
    KeepSlugCharsOfSlug(s);
  }

  // ------------------------------------------------------------------ URL

  /** The origin used when there is no `window` (rendering on the server). */
  const DefaultOrigin: string := "https://celebslinks.com"

  /** `baseUrl`: `window.location.origin` in the browser. */
  function BaseUrl(windowOrigin: Option<string>): string {
    if windowOrigin.Some? then windowOrigin.value else DefaultOrigin
  }

  /** `shareableUrl`, with `baseUrl` taken from the window's origin when there is one. */
  function ShareableUrl(windowOrigin: Option<string>, fromName: string, toName: string): string {
    BaseUrl(windowOrigin) + "/connection/" + NameToSlug(fromName) + "/" + NameToSlug(toName)
  }

  /**
   * How the `connection/[from]/[to]` route reads such a URL back: what
   * follows `base/connection/`, split at its first `/`.
   */
  function ConnectionSegments(base: string, url: string): Option<(string, string)> {
    var prefix := base + "/connection/";
    if !HasPrefix(url, prefix) then None
    else
      var rest := url[|prefix|..];
      var k := IndexOf(rest, '/');
      if k < 0 then None else Some((rest[..k], rest[k + 1..]))
  }

  /** The shared URL carries the two slugs, and they are read back unchanged. */
  lemma ShareableUrlSegments(windowOrigin: Option<string>, fromName: string, toName: string)
    ensures ConnectionSegments(BaseUrl(windowOrigin), ShareableUrl(windowOrigin, fromName, toName))
            == Some((NameToSlug(fromName), NameToSlug(toName)))
  {
    var prefix := BaseUrl(windowOrigin) + "/connection/";
    var f, t := NameToSlug(fromName), NameToSlug(toName);
    var url := ShareableUrl(windowOrigin, fromName, toName);
    assert url == prefix + (f + "/" + t);
    assert url[..|prefix|] == prefix;
    var rest := url[|prefix|..];
    assert rest == f + "/" + t;
    assert rest[|f|] == '/';
    forall j | 0 <= j < |f| ensures rest[j] != '/' { assert rest[j] == f[j]; }
    assert IndexOf(rest, '/') == |f|;
    assert rest[..|f|] == f;
    assert rest[|f| + 1..] == t;
  }

  // ---------------------------------------------------------------- texts

  /** What follows the hop count and its unit. */
  const Closing: string := "! \U{1F3AC}\U{2728}\n\nCan you beat that?"

  /** `shareText` */
  function ShareText(fromName: string, toName: string, pathLength: int): string {
    "I connected " + fromName + " to " + toName + " in just " + IntToDecimal(pathLength)
    + " hop" + (if pathLength > 1 then "s" else "") + Closing
  }

  /** Whatever precedes the unit and follows it, the "s" alone tells " hops" from " hop". */
  lemma UnitSuffixes(text: string, head: string, closing: string, plural: bool)
    requires text == head + " hop" + (if plural then "s" else "") + closing
    ensures HasSuffix(text, " hops" + closing) <==> plural
    ensures HasSuffix(text, " hop" + closing) <==> !plural
  {
    var n := |closing|;
    if plural {
      assert text == head + " hops" + closing;
      ConcatParts(head, " hops", closing);
      assert text[|text| - 1 - n] == 's' && (" hop" + closing)[3] == 'p';
      DifferingEnds(text, " hop" + closing, n);
    } else {
      assert text == head + " hop" + closing;
      ConcatParts(head, " hop", closing);
      assert text[|text| - 1 - n] == 'p' && (" hops" + closing)[4] == 's';
      DifferingEnds(text, " hops" + closing, n);
    }
  }

  /** The unit is "hops" exactly when there is more than one hop, and "hop" otherwise (0 included). */
  lemma ShareTextPlural(fromName: string, toName: string, pathLength: int)
    ensures HasSuffix(ShareText(fromName, toName, pathLength), " hops" + Closing) <==> pathLength > 1
    ensures HasSuffix(ShareText(fromName, toName, pathLength), " hop" + Closing) <==> pathLength <= 1
  {
    var head := "I connected " + fromName + " to " + toName + " in just " + IntToDecimal(pathLength);
    UnitSuffixes(ShareText(fromName, toName, pathLength), head, Closing, pathLength > 1);
  }

  /** The text the copy button puts on the clipboard. */
  function CopyText(shareText: string, url: string): string {
    shareText + " " + url
  }

  /**
   * When the origin holds no space the URL holds none, so the copied text
   * splits back at its last space into the share text and the URL.
   */
  lemma CopyTextSplitsAtLastSpace(shareText: string, windowOrigin: Option<string>, fromName: string, toName: string)
    requires ' ' !in BaseUrl(windowOrigin)
    ensures var url := ShareableUrl(windowOrigin, fromName, toName);
      var copy := CopyText(shareText, url);
      LastIndexOf(copy, ' ') == |shareText| && copy[..|shareText|] == shareText && copy[|shareText| + 1..] == url
  {
    var url := ShareableUrl(windowOrigin, fromName, toName);
    var copy := CopyText(shareText, url);
    assert ' ' !in url;
    forall j | |shareText| < j < |copy| ensures copy[j] != ' ' {
      assert copy[j] == url[j - |shareText| - 1];
    }
    assert copy[|shareText|] == ' ';
    assert copy[..|shareText|] == shareText;
    assert copy[|shareText| + 1..] == url;
  }
}
