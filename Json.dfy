/**
 * lib/json.ts: pull one JSON object out of free text by cutting from the
 * first `{` to the last `}` and handing that slice to `JSON.parse`.
 * `JSON.parse` itself is a parameter: it yields `None` where it would throw.
 */
module Json {
  import opened Wrappers
  import opened Strings

  /** The first `{` comes after the last `}` (vacuously true when either is absent). */
  predicate BracesOutOfOrder(text: string) {
    forall i, j :: 0 <= i < |text| && 0 <= j < |text| && text[i] == '{' && text[j] == '}' ==> j < i
  }

  /**
   * The text given to the parser: from the first `{` through the last `}`,
   * or `None` when there is no `{`, no `}`, or the first `{` follows the last `}`.
   */
  function BraceSlice(text: string): Option<string> {
    var first := IndexOf(text, '{');
    var last := LastIndexOf(text, '}');
    if first == -1 || last == -1 || first > last then None else Some(text[first..last + 1])
  }

  /** There is no slice exactly when a brace is missing or every `}` precedes every `{`. */
  lemma BraceSliceNone(text: string)
    ensures BraceSlice(text).None? <==> '{' !in text || '}' !in text || BracesOutOfOrder(text)
  {
    var first, last := IndexOf(text, '{'), LastIndexOf(text, '}');
    if first >= 0 && last >= 0 && first > last {
      forall i, j | 0 <= i < |text| && 0 <= j < |text| && text[i] == '{' && text[j] == '}' ensures j < i {
        assert first <= i && j <= last;
      }
    }
  }

  /**
   * A slice starts with `{`, ends with `}`, and is cut out of the text so that
   * what precedes it holds no `{` and what follows it holds no `}`.
   */
  lemma BraceSliceShape(text: string)
    requires BraceSlice(text).Some?
    ensures var s := BraceSlice(text).value;
      && |s| >= 2 && s[0] == '{' && s[|s| - 1] == '}'
      && exists i :: 0 <= i <= |text| - |s| && OccursAt(text, s, i)
                     && '{' !in text[..i] && '}' !in text[i + |s|..]
  {
    var first, last := IndexOf(text, '{'), LastIndexOf(text, '}');
    var s := text[first..last + 1];
    assert OccursAt(text, s, first);
    var head := text[..first];
    assert '{' !in head by {
      forall k | 0 <= k < |head| ensures head[k] != '{' { assert head[k] == text[k]; }
    }
    var tail := text[last + 1..];
    assert '}' !in tail by {
      forall k | 0 <= k < |tail| ensures tail[k] != '}' { assert tail[k] == text[last + 1 + k]; }
    }
  }

  /** `extractJson`: `None` (the source's `null`) on a missing brace pair or a parse failure. */
  function ExtractJson<T>(text: string, parse: string -> Option<T>): (r: Option<T>)
    ensures BraceSlice(text).None? ==> r.None?
    ensures BraceSlice(text).Some? ==> r == parse(BraceSlice(text).value)
    ensures r.Some? ==> BraceSlice(text).Some? && parse(BraceSlice(text).value).Some?
  {
    match BraceSlice(text)
    case None => None
    case Some(s) => parse(s)
  }

  lemma IndexOfIs(s: string, c: char, k: int)
    requires 0 <= k < |s| && s[k] == c
    requires forall j :: 0 <= j < k ==> s[j] != c
    ensures IndexOf(s, c) == k
  {
  }

  lemma LastIndexOfIs(s: string, c: char, k: int)
    requires 0 <= k < |s| && s[k] == c
    requires forall j :: k < j < |s| ==> s[j] != c
    ensures LastIndexOf(s, c) == k
  {
  }

  lemma IndexOfAppend(a: string, b: string, c: char)
    ensures IndexOf(a + b, c) == if c in a then IndexOf(a, c) else if c in b then |a| + IndexOf(b, c) else -1
  {
    var w := a + b;
    if c in a {
      IndexOfIs(w, c, IndexOf(a, c));
    } else if c in b {
      var k := IndexOf(b, c);
      assert w[|a| + k] == b[k];
      forall j | 0 <= j < |a| + k ensures w[j] != c {
        if j < |a| { assert w[j] == a[j]; } else { assert w[j] == b[j - |a|]; }
      }
      IndexOfIs(w, c, |a| + k);
    } else {
      assert w == a + b;
      assert c !in w;
    }
  }

  lemma LastIndexOfAppend(a: string, b: string, c: char)
    ensures LastIndexOf(a + b, c) == if c in b then |a| + LastIndexOf(b, c) else LastIndexOf(a, c)
  {
    var w := a + b;
    if c in b {
      var k := LastIndexOf(b, c);
      assert w[|a| + k] == b[k];
      forall j | |a| + k < j < |w| ensures w[j] != c { assert w[j] == b[j - |a|]; }
      LastIndexOfIs(w, c, |a| + k);
    } else if c in a {
      var k := LastIndexOf(a, c);
      assert w[k] == a[k];
      forall j | k < j < |w| ensures w[j] != c {
        if j < |a| { assert w[j] == a[j]; } else { assert w[j] == b[j - |a|]; }
      }
      LastIndexOfIs(w, c, k);
    } else {
      assert c !in w;
    }
  }

  lemma FirstBraceSurrounded(pre: string, t: string, post: string)
    requires '{' !in pre
    ensures IndexOf(pre + t + post, '{')
            == if '{' in t then |pre| + IndexOf(t, '{')
               else if '{' in post then |pre| + |t| + IndexOf(post, '{') else -1
  {
    IndexOfAppend(pre + t, post, '{');
    IndexOfAppend(pre, t, '{');
  }

  lemma LastBraceSurrounded(pre: string, t: string, post: string)
    requires '}' !in post
    ensures LastIndexOf(pre + t + post, '}')
            == if '}' in t then |pre| + LastIndexOf(t, '}') else LastIndexOf(pre, '}')
  {
    LastIndexOfAppend(pre + t, post, '}');
    LastIndexOfAppend(pre, t, '}');
  }

  lemma MiddleSlice(pre: string, t: string, post: string, i: int, j: int)
    requires 0 <= i <= j <= |t|
    ensures (pre + t + post)[|pre| + i..|pre| + j] == t[i..j]
  {
    var w := pre + t + post;
    var a, b := w[|pre| + i..|pre| + j], t[i..j];
    forall k | 0 <= k < |a| ensures a[k] == b[k] {
      assert a[k] == w[|pre| + i + k];
      assert w[|pre| + i + k] == (pre + t)[|pre| + i + k];
    }
  }

  lemma BraceSliceAt(text: string, f: int, l: int)
    requires IndexOf(text, '{') == f && LastIndexOf(text, '}') == l
    ensures BraceSlice(text) == if f == -1 || l == -1 || f > l then None else Some(text[f..l + 1])
  {
  }

  /** Where the braces of `t` pair up, the surrounded text yields the same slice. */
  lemma SurroundedSliceFound(pre: string, t: string, post: string, f: int, l: int)
    requires 0 <= f <= l < |t|
    requires IndexOf(pre + t + post, '{') == |pre| + f && LastIndexOf(pre + t + post, '}') == |pre| + l
    ensures BraceSlice(pre + t + post) == Some(t[f..l + 1])
  {
    var w := pre + t + post;
    BraceSliceAt(w, |pre| + f, |pre| + l);
    MiddleSlice(pre, t, post, f, l + 1);
    assert w[|pre| + f..|pre| + l + 1] == w[|pre| + f..|pre| + (l + 1)];
  }

  /** When `t` has no slice, the surrounded text has none either. */
  lemma SurroundedSliceMissing(pre: string, t: string, post: string)
    requires '{' !in pre && '}' !in post
    requires BraceSlice(t).None?
    ensures BraceSlice(pre + t + post).None?
  {
    var w := pre + t + post;
    var f, l := IndexOf(t, '{'), LastIndexOf(t, '}');
    FirstBraceSurrounded(pre, t, post);
    LastBraceSurrounded(pre, t, post);
    var fw, lw := IndexOf(w, '{'), LastIndexOf(w, '}');
    BraceSliceAt(w, fw, lw);
    BraceSliceAt(t, f, l);
    if fw != -1 && lw != -1 {
      if '{' in t && '}' in t {
        assert fw == |pre| + f && lw == |pre| + l;
      } else if '{' in t {
        assert lw < |pre| <= fw;
      } else {
        assert lw < |pre| + |t| <= fw;
      }
    }
  }

  /** Prose before the object without a `{` and after it without a `}` does not change the slice. */
  lemma BraceSliceIgnoresSurroundings(pre: string, t: string, post: string)
    requires '{' !in pre && '}' !in post
    ensures BraceSlice(pre + t + post) == BraceSlice(t)
  {
    var f, l := IndexOf(t, '{'), LastIndexOf(t, '}');
    BraceSliceAt(t, f, l);
    if f >= 0 && l >= 0 && f <= l {
      FirstBraceSurrounded(pre, t, post);
      LastBraceSurrounded(pre, t, post);
      SurroundedSliceFound(pre, t, post, f, l);
    } else {
      SurroundedSliceMissing(pre, t, post);
    }
  }

  /** Slicing its own output again changes nothing. */
  lemma BraceSliceIdempotent(text: string)
    requires BraceSlice(text).Some?
    ensures BraceSlice(BraceSlice(text).value) == BraceSlice(text)
  {
    BraceSliceShape(text);
    var s := BraceSlice(text).value;
    IndexOfIs(s, '{', 0);
    LastIndexOfIs(s, '}', |s| - 1);
    assert s[0..|s|] == s;
  }

  /** Text without a `{` never yields an object, whatever the parser would accept. */
  lemma NoOpeningBraceNoObject<T>(text: string, parse: string -> Option<T>)
    requires '{' !in text
    ensures ExtractJson(text, parse) == None
  {
  }
}
