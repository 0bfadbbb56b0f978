/**
 * The reply side of the website generator: how the decoded JSON body sent
 * back by the language-model service becomes a `WebsiteCode` record of
 * html, css and an optional error message. The HTTP request itself is not
 * part of this model; its decoded body is the input.
 */
module LlmReply {
  import opened Text

  /** A decoded JSON value, as `response.json()` yields it (object keys are always strings). */
  datatype Json =
    | JNull
    | JBool(b: bool)
    | JNumber(n: real)
    | JString(s: string)
    | JArray(items: seq<Json>)
    | JObject(fields: map<string, Json>)

  /** The `WebsiteCode` dataclass; `error` is None unless something went wrong. */
  datatype WebsiteCode = WebsiteCode(html: string, css: string, error: Option<string>)

  /**
   * One step of a Python subscript chain: the value reached, or the
   * exception raised. `Missing` stands for KeyError and IndexError, with
   * the text `str(e)` gives; `Mistyped` is a TypeError.
   */
  datatype Lookup = Found(value: Json) | Missing(detail: string) | Mistyped

  /** `j[k]` for a string key. */
  function Key(j: Lookup, k: string): (r: Lookup)
    ensures r.Found? ==> j.Found? && j.value.JObject? && k in j.value.fields && r.value == j.value.fields[k]
    ensures j.Found? && j.value.JObject? && k in j.value.fields ==> r == Found(j.value.fields[k])
    ensures j.Found? && j.value.JObject? && k !in j.value.fields ==> r == Missing("'" + k + "'")
    ensures j.Found? && !j.value.JObject? ==> r == Mistyped
    ensures !j.Found? ==> r == j
  {
    match j
    case Found(JObject(f)) => if k in f then Found(f[k]) else Missing("'" + k + "'")
    case Found(_) => Mistyped
    case _ => j
  }

  /** `j[0]`: the first item of a list, the first character of a string; a dict has no key 0. */
  function First(j: Lookup): (r: Lookup)
    ensures r.Found? ==> j.Found? && ((j.value.JArray? && j.value.items != [] && r.value == j.value.items[0])
                                   || (j.value.JString? && j.value.s != [] && r.value == JString([j.value.s[0]])))
    ensures j.Found? && j.value.JArray? && j.value.items != [] ==> r == Found(j.value.items[0])
    ensures j.Found? && j.value.JString? && j.value.s != [] ==> r == Found(JString([j.value.s[0]]))
    ensures j.Found? && j.value.JObject? ==> r == Missing("0")
    ensures !j.Found? ==> r == j
  {
    match j
    case Found(JArray(xs)) => if xs == [] then Missing("list index out of range") else Found(xs[0])
    case Found(JString(s)) => if s == [] then Missing("string index out of range") else Found(JString([s[0]]))
    case Found(JObject(_)) => Missing("0")
    case Found(_) => Mistyped
    case _ => j
  }

  /** `result["candidates"][0]["content"]["parts"][0]["text"]`. */
  function GeneratedText(result: Json): Lookup {
    Key(First(Key(Key(First(Key(Found(result), "candidates")), "content"), "parts")), "text")
  }

  // ----- the two literal regex searches -----

  /**
   * `re.search(open + '(.*?)' + close, s, re.DOTALL)` as the regex engine
   * runs it: each start position in turn from `p`, and at the first where
   * `open` matches and some `close` follows, the shortest group. The result
   * is the group's start and end.
   */
  function Search(s: string, open: string, close: string, p: nat): (r: Option<(nat, nat)>)
    requires p <= |s|
    decreases |s| - p
  {
    if StartsWith(s[p..], open) && FindFrom(s, close, p + |open|).Some? then
      Some((p + |open|, FindFrom(s, close, p + |open|).value))
    else if p == |s| then None
    else Search(s, open, close, p + 1)
  }

  /**
   * The same search in two steps: the first occurrence of `open`, then the
   * first `close` after it. The group lies between the two delimiters,
   * holds no `close`, and no `open` starts before it.
   */
  function FirstBlock(s: string, open: string, close: string): (r: Option<(nat, nat)>)
    ensures r.Some? ==> var (i, j) := r.value;
                        && |open| <= i <= j && j + |close| <= |s|
                        && s[i - |open|..i] == open && s[j..j + |close|] == close
                        && (forall k :: i <= k < j ==> !StartsWith(s[k..], close))
                        && (forall k :: 0 <= k < i - |open| ==> !StartsWith(s[k..], open))
    ensures r.None? <==> FindFrom(s, open, 0).None? || FindFrom(s, close, FindFrom(s, open, 0).value + |open|).None?
  {
    var o := FindFrom(s, open, 0);
    if o.None? then None
    else
      var c := FindFrom(s, close, o.value + |open|);
      if c.None? then None
      else
        OccurrenceSlice(s, open, o.value);
        OccurrenceSlice(s, close, c.value);
        Some((o.value + |open|, c.value))
  }

  /** Starts before the first `open` are skipped by the regex engine. */
  lemma {:induction false} SearchSkips(s: string, open: string, close: string, p: nat, q: nat)
    requires p <= q <= |s|
    requires forall k :: p <= k < q ==> !StartsWith(s[k..], open)
    ensures Search(s, open, close, p) == Search(s, open, close, q)
    decreases q - p
  {
    if p < q {
      SearchSkips(s, open, close, p + 1, q);
    }
  }

  /** Past a point after which no `close` occurs, the regex engine finds nothing. */
  lemma {:induction false} SearchNothingAfter(s: string, open: string, close: string, p: nat, m: nat)
    requires p <= |s| && m <= p + |open|
    requires FindFrom(s, close, m).None?
    ensures Search(s, open, close, p).None?
    decreases |s| - p
  {
    if p < |s| {
      SearchNothingAfter(s, open, close, p + 1, m);
    }
  }

  /** The two-step search is the regex's leftmost, shortest match. */
  lemma FirstBlockIsSearch(s: string, open: string, close: string)
    ensures FirstBlock(s, open, close) == Search(s, open, close, 0)
  {
    var o := FindFrom(s, open, 0);
    if o.None? {
      SearchSkips(s, open, close, 0, |s|);
    } else {
      SearchSkips(s, open, close, 0, o.value);
      if FindFrom(s, close, o.value + |open|).None? && o.value < |s| {
        SearchNothingAfter(s, open, close, o.value + 1, o.value + |open|);
      }
    }
  }

  /**
   * A block at the very start: `open`, a body holding no `close`, then
   * `close`, is found with exactly that body, provided `close` cannot
   * overlap itself (its first character does not recur in it).
   */
  lemma WrappedBlock(open: string, body: string, close: string, after: string)
    requires close != [] && forall d :: 0 < d < |close| ==> close[d] != close[0]
    requires !Contains(body, close)
    ensures FirstBlock(open + body + close + after, open, close) == Some((|open|, |open| + |body|))
  {
    var s := open + body + close + after;
    var i, j := |open|, |open| + |body|;
    assert s[0..][..|open|] == open;
    assert FindFrom(s, open, 0) == Some(0);
    assert s[j..][..|close|] == close;
    NoCloseInBody(open, body, close, after);
    assert FindFrom(s, close, i) == Some(j);
  }

  /** Under the same conditions, no `close` starts inside the body. */
  lemma NoCloseInBody(open: string, body: string, close: string, after: string)
    requires close != [] && forall d :: 0 < d < |close| ==> close[d] != close[0]
    requires !Contains(body, close)
    ensures var s := open + body + close + after;
            forall k :: |open| <= k < |open| + |body| ==> !StartsWith(s[k..], close)
  {
    var s := open + body + close + after;
    var i, j := |open|, |open| + |body|;
    assert s[i..j] == body;
    assert s[j] == close[0];
    forall k | i <= k < j ensures !StartsWith(s[k..], close) {
      if k + |close| <= j {
        if StartsWith(s[k..], close) {
          OccurrenceSlice(s, close, k);
          assert s[k..k + |close|] == s[i..j][k - i..k - i + |close|];
          ContainsAt(body, close, k - i);
        }
      } else {
        // the '\n' or '<' that opens the closing delimiter would sit inside this one
        var d := j - k;
        assert s[k..][d] == s[j] == close[0] != close[d];
      }
    }
  }

  // ----- the parse of the generated text -----

  const HtmlFenceOpen := "```html\n"
  const HtmlFenceClose := "\n```"
  const StyleOpen := "<style>"
  const StyleClose := "</style>"
  const NoHtmlMessage := "No valid HTML found in response"
  const FormatMessage := "Unexpected response format: "

  /** The stripped content of the first `<style>` block, or "" without one. */
  function StyleOf(html: string): (r: string)
    ensures r == [] || Contains(html, r)
  {
    match FirstBlock(html, StyleOpen, StyleClose)
    case Some((i, j)) =>
      var r := Strip(html[i..j]);
      StripShape(html[i..j]);
      ContainsSlice(html, i, j);
      ContainsTransitive(html, html[i..j], r);
      r
    case None => ""
  }

  /** The unfenced text is taken as a page when, stripped, it opens like one. */
  predicate LooksLikePage(s: string) {
    StartsWith(s, "<!DOCTYPE html>") || StartsWith(s, "<html>")
  }

  /**
   * The text of the reply to a `WebsiteCode`: the stripped body of the
   * first ```` ```html ```` fence; without one, the whole stripped text if
   * it opens like a page; otherwise an error.
   */
  function ParseText(t: string): (r: WebsiteCode)
    ensures r.error.None? ==> Contains(t, r.html)
    ensures r.error.None? ==> r.css == StyleOf(r.html)
    ensures r.error.Some? ==> r == WebsiteCode("", "", Some(NoHtmlMessage))
  {
    match FirstBlock(t, HtmlFenceOpen, HtmlFenceClose)
    case Some((i, j)) =>
      var html := Strip(t[i..j]);
      StripShape(t[i..j]);
      ContainsSlice(t, i, j);
      ContainsTransitive(t, t[i..j], html);
      WebsiteCode(html, StyleOf(html), None)
    case None =>
      var s := Strip(t);
      StripShape(t);
      if LooksLikePage(s) then WebsiteCode(s, StyleOf(s), None)
      else WebsiteCode("", "", Some(NoHtmlMessage))
  }

  /**
   * The whole reply handling: the subscript chain, then the parse. A
   * missing key or index gives the "Unexpected response format" error; a
   * TypeError (a value of the wrong kind on the path, or a text that is not
   * a string) reaches the outer handler, whose message `str(e)` is the
   * interpreter's wording and is the parameter `typeError`.
   */
  function GenerateFromReply(result: Json, typeError: string): (r: WebsiteCode)
    ensures r.error.Some? ==> r.html == [] && r.css == []
  {
    match GeneratedText(result)
    case Found(JString(t)) => ParseText(t)
    case Found(_) => WebsiteCode("", "", Some(typeError))
    case Missing(detail) => WebsiteCode("", "", Some(FormatMessage + detail))
    case Mistyped => WebsiteCode("", "", Some(typeError))
  }

  // ----- laws of the parse -----

  /**
   * A reply is accepted exactly when it has an html fence, or, without one,
   * when its stripped text opens like a page; the html is then the stripped
   * fence body, or the stripped text.
   */
  lemma ParseOutcome(t: string)
    ensures var r := ParseText(t);
            var b := FirstBlock(t, HtmlFenceOpen, HtmlFenceClose);
            && (r.error.None? <==> b.Some? || LooksLikePage(Strip(t)))
            && (b.Some? ==> r.html == Strip(t[b.value.0..b.value.1]))
            && (b.None? && LooksLikePage(Strip(t)) ==> r.html == Strip(t))
  {}

  /** The first fence wins: a text that opens with a fence yields its stripped body, whatever follows. */
  lemma FencedRoundTrip(body: string, after: string)
    requires !Contains(body, HtmlFenceClose)
    ensures var r := ParseText(HtmlFenceOpen + body + HtmlFenceClose + after);
            && r.error.None? && r.html == Strip(body) && r.css == StyleOf(Strip(body))
  {
    var t := HtmlFenceOpen + body + HtmlFenceClose + after;
    WrappedBlock(HtmlFenceOpen, body, HtmlFenceClose, after);
    assert t[|HtmlFenceOpen|..|HtmlFenceOpen| + |body|] == body;
  }

  /** The css is the stripped body of the first style block, whatever follows it. */
  lemma StyleRoundTrip(css: string, after: string)
    requires !Contains(css, StyleClose)
    ensures StyleOf(StyleOpen + css + StyleClose + after) == Strip(css)
  {
    var h := StyleOpen + css + StyleClose + after;
    WrappedBlock(StyleOpen, css, StyleClose, after);
    assert h[|StyleOpen|..|StyleOpen| + |css|] == css;
  }

  /** A page without a `<style>` tag has no css. */
  lemma NoStyleNoCss(html: string)
    requires !Contains(html, StyleOpen)
    ensures StyleOf(html) == ""
  {}

  /** A text with no fence that, stripped, does not open like a page is refused. */
  lemma ProseRefused(t: string)
    requires !Contains(t, HtmlFenceOpen) && !LooksLikePage(Strip(t))
    ensures ParseText(t) == WebsiteCode("", "", Some(NoHtmlMessage))
  {}

  /** The reply shape the service sends: one candidate, one part, its text. */
  function Reply(t: string): Json {
    JObject(map["candidates" := JArray([JObject(map["content" :=
      JObject(map["parts" := JArray([JObject(map["text" := JString(t)])])])])])])
  }

  /** A well-formed reply is parsed from its text. */
  lemma WellFormedReply(t: string, typeError: string)
    ensures GenerateFromReply(Reply(t), typeError) == ParseText(t)
  {
    var part := JObject(map["text" := JString(t)]);
    var content := JObject(map["parts" := JArray([part])]);
    var c := JObject(map["content" := content]);
    assert Key(Found(Reply(t)), "candidates") == Found(JArray([c]));
    assert First(Found(JArray([c]))) == Found(c);
    assert Key(Found(c), "content") == Found(content);
    assert Key(Found(content), "parts") == Found(JArray([part]));
    assert First(Found(JArray([part]))) == Found(part);
    assert Key(Found(part), "text") == Found(JString(t));
    assert GeneratedText(Reply(t)) == Found(JString(t));
  }

  /** A body without a `candidates` key is an "Unexpected response format" error naming the key. */
  lemma MissingCandidates(fields: map<string, Json>, typeError: string)
    requires "candidates" !in fields
    ensures GenerateFromReply(JObject(fields), typeError)
            == WebsiteCode("", "", Some(FormatMessage + "'candidates'"))
  {
    var m := Missing("'candidates'");
    assert Key(Found(JObject(fields)), "candidates") == m;
    assert GeneratedText(JObject(fields)) == m;
  }

  /**
   * Any missing key or index along the path (`candidates`, `content`,
   * `parts`, `text`, or either `[0]`) is an "Unexpected response format"
   * error carrying the KeyError or IndexError text.
   */
  lemma MissingPath(result: Json, typeError: string)
    requires GeneratedText(result).Missing?
    ensures GenerateFromReply(result, typeError)
            == WebsiteCode("", "", Some(FormatMessage + GeneratedText(result).detail))
  {
  }

  /** An empty candidate list is an "Unexpected response format" error, an IndexError. */
  lemma NoCandidates(typeError: string)
    ensures GenerateFromReply(JObject(map["candidates" := JArray([])]), typeError)
            == WebsiteCode("", "", Some(FormatMessage + "list index out of range"))
  {}

  /** Every outcome is either a success with no error, or a failure with empty html and css. */
  lemma ReplyOutcomes(result: Json, typeError: string)
    ensures var r := GenerateFromReply(result, typeError);
            || (r.error.None? && GeneratedText(result).Found? && GeneratedText(result).value.JString?
                && Contains(GeneratedText(result).value.s, r.html))
            || (r.error.Some? && r.html == [] && r.css == [])
  {}
}
