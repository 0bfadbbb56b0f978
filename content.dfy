/**
 * The page-content extractors of the design context: the title, the image
 * URLs, the organised text snippets, the skeleton of the semantic layout
 * tags, and the (unused) layout hints. They read the parsed document as a
 * `Dom.Node` tree; `urljoin` and the serialisation of the skeleton are
 * library calls and enter as parameters.
 */
module Content {
  import opened Text
  import opened Dom

  // ----- the title -----

  /** The first element of `ns` with tag `name`: `soup.find(name)` over the descendants. */
  function FirstWithTag(ns: seq<Node>, name: string): (r: Option<Node>)
    ensures r.Some? ==> r.value in ns && HasTag(r.value, {name})
    ensures r.None? <==> forall k :: 0 <= k < |ns| ==> !HasTag(ns[k], {name})
  {
    if ns == [] then None
    else if HasTag(ns[0], {name}) then Some(ns[0])
    else
      assert forall k :: 1 <= k < |ns| ==> ns[k] == ns[1..][k - 1];
      FirstWithTag(ns[1..], name)
  }

  /** `soup.title`. */
  function TitleElement(doc: Node): Option<Node> {
    FirstWithTag(Descendants(doc), "title")
  }

  /** `soup.title.string.strip()`, or "" without a title or without a single string in it. */
  function ExtractTitle(doc: Node): (r: string)
    ensures r == [] || (!IsSpace(r[0]) && !IsSpace(r[|r| - 1]))
    ensures TitleElement(doc).None? ==> r == []
    ensures TitleElement(doc).Some? && StringOf(TitleElement(doc).value).None? ==> r == []
  {
    var t := TitleElement(doc);
    if t.Some? && StringOf(t.value).Some? then
      StripShape(StringOf(t.value).value.text);
      Strip(StringOf(t.value).value.text)
    else ""
  }

  /** The strings of one kind below a one-child chain are its string, or nothing. */
  lemma {:induction false} StringOfStrings(n: Node, kind: string)
    requires StringOf(n).Some?
    ensures Strings(n, kind) == if StringOf(n).value.kind == kind then StringOf(n).value.text else ""
  {
    match n
    case TextNode(_, _) =>
    case Element(_, _, _, cs) =>
      StringOfStrings(cs[0], kind);
      assert cs[1..] == [];
      assert StringsIn(cs, kind) == Strings(cs[0], kind) + "";
  }

  /**
   * `.string`, when present, is the whole text of the element when it is of
   * the kind the element collects, and the element has no text otherwise.
   */
  lemma StringOfIsText(n: Node)
    requires StringOf(n).Some?
    ensures GetText(n) == if StringOf(n).value.kind == Interesting(n) then StringOf(n).value.text else ""
  {
    StringOfStrings(n, Interesting(n));
  }

  /**
   * The title is the stripped `.string` of the `<title>` element; for an
   * ordinary string that is the stripped text of the element, found inside it.
   */
  lemma TitleIsStrippedText(doc: Node)
    requires TitleElement(doc).Some? && StringOf(TitleElement(doc).value).Some?
    ensures ExtractTitle(doc) == Strip(StringOf(TitleElement(doc).value).value.text)
    ensures StringOf(TitleElement(doc).value).value.kind == "" ==>
              && ExtractTitle(doc) == Strip(GetText(TitleElement(doc).value))
              && Contains(GetText(TitleElement(doc).value), ExtractTitle(doc))
    ensures Strip(ExtractTitle(doc)) == ExtractTitle(doc)
  {
    var t := TitleElement(doc).value;
    StringOfIsText(t);
    StripShape(StringOf(t).value.text);
    StripIdempotent(StringOf(t).value.text);
  }

  // ----- the images -----

  /** `img.get('src')` when it is present and non-empty: the `if src:` test. */
  function Source(img: Node): (r: Option<string>)
    ensures r.Some? ==> r.value != [] && Get(img, "src") == r
    ensures Get(img, "src").Some? && Get(img, "src").value != [] ==> r.Some?
  {
    var src := Get(img, "src");
    if src.Some? && src.value != [] then src else None
  }

  /** The set the loop collects: `urljoin(base, src)` for every image with a source. */
  function ImageUrls(imgs: seq<Node>, base: string, join: (string, string) -> string): set<string> {
    if imgs == [] then {}
    else
      var img := imgs[|imgs| - 1];
      ImageUrls(imgs[..|imgs| - 1], base, join) + (if Source(img).Some? then {join(base, Source(img).value)} else {})
  }

  /** A URL is collected exactly when it joins the base with the source of some image. */
  lemma {:induction false} ImageUrlsExactly(imgs: seq<Node>, base: string, join: (string, string) -> string, u: string)
    ensures u in ImageUrls(imgs, base, join)
            <==> exists k :: 0 <= k < |imgs| && Source(imgs[k]).Some? && u == join(base, Source(imgs[k]).value)
  {
    if imgs != [] {
      var init := imgs[..|imgs| - 1];
      ImageUrlsExactly(init, base, join, u);
      assert forall k :: 0 <= k < |init| ==> init[k] == imgs[k];
    }
  }

  /** `list(s)`: the elements of a set, in an order the model leaves open. */
  method Enumerate<T>(s: set<T>) returns (xs: seq<T>)
    ensures |xs| == |s| && NoDuplicates(xs)
    ensures forall x :: x in xs <==> x in s
  {
    xs := [];
    var rest := s;
    while rest != {}
      invariant rest <= s
      invariant forall x :: x in xs <==> x in s && x !in rest
      invariant NoDuplicates(xs) && |xs| + |rest| == |s|
      decreases |rest|
    {
      var x :| x in rest;
      xs := xs + [x];
      rest := rest - {x};
    }
  }

  /**
   * `extract_images`: at most ten distinct collected URLs; all of them when
   * there are no more than ten.
   */
  method ExtractImages(doc: Node, base: string, join: (string, string) -> string) returns (r: seq<string>)
    ensures |r| == Min(10, |ImageUrls(FindAll(doc, {"img"}), base, join)|)
    ensures NoDuplicates(r)
    ensures forall u :: u in r ==> u in ImageUrls(FindAll(doc, {"img"}), base, join)
    ensures |ImageUrls(FindAll(doc, {"img"}), base, join)| <= 10 ==>
              forall u :: u in ImageUrls(FindAll(doc, {"img"}), base, join) ==> u in r
  {
    var imgs := FindAll(doc, {"img"});
    var images: set<string> := {};
    for i := 0 to |imgs|
      invariant images == ImageUrls(imgs[..i], base, join)
    {
      assert imgs[..i + 1][..i] == imgs[..i];
      var src := Get(imgs[i], "src");
      if src.Some? && src.value != [] {
        images := images + {join(base, src.value)};
      }
    }
    assert imgs[..|imgs|] == imgs;
    var listed := Enumerate(images);
    r := Take(listed, 10);
  }

  // ----- the text snippets -----

  /** `el.get_text().strip()`. */
  function TextOf(n: Node): string {
    Strip(GetText(n))
  }

  /**
   * An ordinary element followed by a script, style sheet, template or ruby
   * annotation reads as its own string alone: `<p>a<script>b</script></p>`
   * gives "a".
   */
  lemma ContainerTextSkipped(p: Node, a: string, c: string, b: string)
    requires p.Element? && p.tag !in StringContainers && c in StringContainers
    requires p.children == [TextNode(a, ""), Element(c, [], [], [TextNode(b, c)])]
    ensures GetText(p) == a
  {
    var cs := p.children;
    assert Interesting(p) == "";
    assert c != "";
    assert Strings(cs[1].children[0], "") == "";
    assert cs[1].children[1..] == [];
    assert Strings(cs[1], "") == "" + StringsIn([], "");
    assert cs[1..][1..] == [];
    assert StringsIn(cs[1..], "") == "" + StringsIn([], "");
    assert StringsIn(cs, "") == a + StringsIn(cs[1..], "");
  }

  /** `[TextOf(n) for n in ns if pick(n) and keep(TextOf(n))]`, in order. */
  function KeptTexts(ns: seq<Node>, pick: Node -> bool, keep: string -> bool): (r: seq<string>)
    ensures |r| <= |ns|
  {
    if ns == [] then []
    else
      var n := ns[|ns| - 1];
      KeptTexts(ns[..|ns| - 1], pick, keep) + (if pick(n) && keep(TextOf(n)) then [TextOf(n)] else [])
  }

  /** A text is kept exactly when some picked node has it as its stripped text and it passes `keep`. */
  lemma {:induction false} KeptTextsExactly(ns: seq<Node>, pick: Node -> bool, keep: string -> bool, t: string)
    ensures t in KeptTexts(ns, pick, keep)
            <==> exists k :: 0 <= k < |ns| && pick(ns[k]) && keep(t) && TextOf(ns[k]) == t
  {
    if t in KeptTexts(ns, pick, keep) {
      var k := KeptTextFrom(ns, pick, keep, t);
    }
    if exists k :: 0 <= k < |ns| && pick(ns[k]) && keep(t) && TextOf(ns[k]) == t {
      var k :| 0 <= k < |ns| && pick(ns[k]) && keep(t) && TextOf(ns[k]) == t;
      KeptTextOf(ns, pick, keep, k);
    }
  }

  /** A kept text comes from a picked node and passes `keep`. */
  lemma {:induction false} KeptTextFrom(ns: seq<Node>, pick: Node -> bool, keep: string -> bool, t: string) returns (k: nat)
    requires t in KeptTexts(ns, pick, keep)
    ensures k < |ns| && pick(ns[k]) && keep(t) && TextOf(ns[k]) == t
  {
    var init := ns[..|ns| - 1];
    var n := ns[|ns| - 1];
    if t in KeptTexts(init, pick, keep) {
      k := KeptTextFrom(init, pick, keep, t);
      assert init[k] == ns[k];
    } else {
      k := |ns| - 1;
    }
  }

  /** The text of a picked node that passes `keep` is kept. */
  lemma {:induction false} KeptTextOf(ns: seq<Node>, pick: Node -> bool, keep: string -> bool, k: nat)
    requires k < |ns| && pick(ns[k]) && keep(TextOf(ns[k]))
    ensures TextOf(ns[k]) in KeptTexts(ns, pick, keep)
  {
    var init := ns[..|ns| - 1];
    if k < |init| {
      assert init[k] == ns[k];
      KeptTextOf(init, pick, keep, k);
    }
  }

  /** Every kept text is already stripped. */
  lemma {:induction false} KeptTextsStripped(ns: seq<Node>, pick: Node -> bool, keep: string -> bool)
    ensures forall t :: t in KeptTexts(ns, pick, keep) ==> Strip(t) == t
  {
    if ns != [] {
      KeptTextsStripped(ns[..|ns| - 1], pick, keep);
      StripIdempotent(GetText(ns[|ns| - 1]));
    }
  }

  const HeadingTags: set<string> := {"h1", "h2", "h3"}
  const ButtonTags: set<string> := {"button", "a"}

  predicate AnyNode(n: Node) { true }
  predicate NonEmpty(t: string) { t != [] }
  /** The paragraph filter `len(...) > 20`. */
  predicate Meaningful(t: string) { |t| > 20 }

  /** A `<button>`, or an `<a>` with a class token containing "btn" in any case. */
  predicate IsButton(n: Node) {
    n.Element? && (n.tag == "button" || (n.tag == "a" && ClassTokenContains(n, "btn")))
  }

  function Headings(doc: Node): seq<string> {
    KeptTexts(FindAll(doc, HeadingTags), AnyNode, NonEmpty)
  }

  /** `find_all('p', limit=10)` cuts the candidates before the length filter. */
  function Paragraphs(doc: Node): seq<string> {
    KeptTexts(Take(FindAll(doc, {"p"}), 10), AnyNode, Meaningful)
  }

  function ButtonTexts(doc: Node): seq<string> {
    KeptTexts(FindAll(doc, ButtonTags), IsButton, NonEmpty)
  }

  datatype Snippets = Snippets(headings: seq<string>, paragraphs: seq<string>, buttons: seq<string>)

  /** The button loop of `extract_text_snippets`, with its `if`/`elif` on the tag. */
  method ExtractButtons(doc: Node) returns (buttons: seq<string>)
    ensures buttons == ButtonTexts(doc)
  {
    var candidates := FindAll(doc, ButtonTags);
    buttons := [];
    for i := 0 to |candidates|
      invariant buttons == KeptTexts(candidates[..i], IsButton, NonEmpty)
    {
      var btn := candidates[i];
      assert candidates[..i + 1][..i] == candidates[..i];
      if btn.Element? && btn.tag == "a" && ClassTokenContains(btn, "btn") {
        var text := Strip(GetText(btn));
        if text != [] {
          buttons := buttons + [text];
        }
      } else if btn.Element? && btn.tag == "button" {
        var text := Strip(GetText(btn));
        if text != [] {
          buttons := buttons + [text];
        }
      }
    }
    assert candidates[..|candidates|] == candidates;
  }

  method ExtractTextSnippets(doc: Node) returns (s: Snippets)
    ensures s.headings == Headings(doc) && s.paragraphs == Paragraphs(doc) && s.buttons == ButtonTexts(doc)
  {
    var buttons := ExtractButtons(doc);
    s := Snippets(Headings(doc), Paragraphs(doc), buttons);
  }

  /** Headings are the non-empty stripped texts of the h1-h3 elements. */
  lemma HeadingsExactly(doc: Node, t: string)
    ensures t in Headings(doc)
            <==> t != [] && exists k :: 0 <= k < |FindAll(doc, HeadingTags)| && TextOf(FindAll(doc, HeadingTags)[k]) == t
  {
    KeptTextsExactly(FindAll(doc, HeadingTags), AnyNode, NonEmpty, t);
  }

  /** Paragraphs come from the first ten `<p>` elements only, and are longer than 20 characters. */
  lemma ParagraphsExactly(doc: Node, t: string)
    ensures |Paragraphs(doc)| <= 10
    ensures t in Paragraphs(doc)
            <==> |t| > 20 && exists k :: 0 <= k < Min(10, |FindAll(doc, {"p"})|) && TextOf(FindAll(doc, {"p"})[k]) == t
  {
    var ps := FindAll(doc, {"p"});
    var first := Take(ps, 10);
    KeptTextsExactly(first, AnyNode, Meaningful, t);
    assert forall k :: 0 <= k < |first| ==> first[k] == ps[k];
  }

  /** Buttons are the non-empty texts of `<button>`s and of `<a>`s with a "btn" class token. */
  lemma ButtonsExactly(doc: Node, t: string)
    ensures t in ButtonTexts(doc)
            <==> t != [] && exists k :: 0 <= k < |FindAll(doc, ButtonTags)| && IsButton(FindAll(doc, ButtonTags)[k])
                                        && TextOf(FindAll(doc, ButtonTags)[k]) == t
  {
    KeptTextsExactly(FindAll(doc, ButtonTags), IsButton, NonEmpty, t);
  }

  // ----- the raw HTML skeleton -----

  const SemanticTags: set<string> := {"header", "main", "footer", "nav", "section"}
  const Ellipsis := "..."

  /** The copy the loop makes of one tag: same name and attributes, content replaced by "...". */
  function Placeholder(n: Node): (r: Node)
    requires n.Element?
  {
    Element(n.tag, n.classes, n.attrs, [TextNode(Ellipsis, "")])
  }

  predicate IsPlaceholder(n: Node) {
    n.Element? && n.children == [TextNode(Ellipsis, "")]
  }

  /** The `<div>` the loop fills with one placeholder per tag, in order. */
  function Skeleton(tags: seq<Node>): (r: Node)
    requires forall k :: 0 <= k < |tags| ==> tags[k].Element?
  {
    Element("div", [], [], seq(|tags|, k requires 0 <= k < |tags| => Placeholder(tags[k])))
  }

  /**
   * `extract_raw_html_snippet`: `str(layout_div)` of the skeleton; the
   * serialiser is BeautifulSoup's and enters as `render`.
   */
  method ExtractRawHtmlSnippet(doc: Node, render: Node -> string) returns (html: string)
    ensures html == render(Skeleton(FindAll(doc, SemanticTags)))
  {
    var tags := FindAll(doc, SemanticTags);
    var children: seq<Node> := [];
    for i := 0 to |tags|
      invariant |children| == i
      invariant forall k :: 0 <= k < i ==> children[k] == Placeholder(tags[k])
    {
      var tag := tags[i];
      var newTag := Element(tag.tag, tag.classes, tag.attrs, [TextNode(Ellipsis, "")]);
      children := children + [newTag];
    }
    assert children == Skeleton(tags).children;
    html := render(Element("div", [], [], children));
  }

  /** Below a run of placeholders the only elements are the placeholders themselves. */
  lemma {:induction false} PlaceholderDescendants(cs: seq<Node>)
    requires forall k :: 0 <= k < |cs| ==> IsPlaceholder(cs[k])
    ensures DescendantsIn(cs) == cs
  {
    if cs != [] {
      PlaceholderDescendants(cs[1..]);
      assert DescendantsIn(cs[0].children[1..]) == [];
      assert Descendants(cs[0]) == [];
    }
  }

  /** The text of a run of placeholders is one "..." per placeholder. */
  lemma {:induction false} PlaceholderText(cs: seq<Node>)
    requires forall k :: 0 <= k < |cs| ==> IsPlaceholder(cs[k])
    ensures StringsIn(cs, "") == Repeat(Ellipsis, |cs|)
  {
    if cs != [] {
      PlaceholderText(cs[1..]);
      var c := cs[0].children;
      assert c[1..] == [];
      assert StringsIn(c, "") == Strings(c[0], "") + StringsIn([], "");
      assert Strings(cs[0], "") == Ellipsis;
    }
  }

  function Repeat(s: string, n: nat): (r: string)
    ensures |r| == n * |s|
  {
    if n == 0 then [] else s + Repeat(s, n - 1)
  }

  /**
   * The skeleton keeps one copy per semantic element, with its name and
   * attributes, and nothing else: its elements are the copies alone and its
   * text is one "..." for each.
   */
  lemma SkeletonShape(doc: Node)
    ensures var tags := FindAll(doc, SemanticTags);
            var sk := Skeleton(tags);
            && |Descendants(sk)| == |tags|
            && (forall k :: 0 <= k < |tags| ==>
                  Descendants(sk)[k].tag == tags[k].tag && Descendants(sk)[k].attrs == tags[k].attrs)
            && GetText(sk) == Repeat(Ellipsis, |tags|)
  {
    var sk := Skeleton(FindAll(doc, SemanticTags));
    PlaceholderDescendants(sk.children);
    PlaceholderText(sk.children);
  }

  /** Taking the skeleton of a skeleton changes nothing. */
  lemma SkeletonIdempotent(doc: Node)
    ensures var sk := Skeleton(FindAll(doc, SemanticTags));
            Skeleton(FindAll(sk, SemanticTags)) == sk
  {
    var sk := Skeleton(FindAll(doc, SemanticTags));
    PlaceholderDescendants(sk.children);
    assert Descendants(sk) == sk.children;
    AllTagged(sk.children, SemanticTags);
    var again := Skeleton(FindAll(sk, SemanticTags));
    assert again.children == sk.children;
  }

  /** When every node carries one of the tags, selecting by tag keeps them all. */
  lemma {:induction false} AllTagged(ns: seq<Node>, names: set<string>)
    requires forall k :: 0 <= k < |ns| ==> HasTag(ns[k], names)
    ensures WithTags(ns, names) == ns
  {
    if ns != [] {
      AllTagged(ns[1..], names);
    }
  }

  // ----- the layout hints -----

  /** The class-name table of `extract_layout_hints`, in its dictionary order. */
  const ComponentTerms: seq<(string, seq<string>)> := [
    ("hero", ["hero", "banner", "jumbotron"]),
    ("product-grid", ["products", "grid", "cards"]),
    ("features", ["features", "services"]),
    ("testimonials", ["testimonials", "reviews"]),
    ("contact", ["contact", "get-in-touch"]),
    ("blog", ["blog", "posts", "articles"])
  ]

  /** `soup.find(class_=lambda x: x and term in x.lower())` finds something. */
  predicate HasClassTerm(doc: Node, term: string) {
    exists k :: 0 <= k < |Descendants(doc)| && ClassTokenContains(Descendants(doc)[k], term)
  }

  predicate AnyClassTerm(doc: Node, terms: seq<string>) {
    exists j :: 0 <= j < |terms| && HasClassTerm(doc, terms[j])
  }

  /** The hints from the semantic tags `nav`, `header`, `footer`, in that order. */
  function TagHints(doc: Node): seq<string> {
    var ds := Descendants(doc);
    (if FirstWithTag(ds, "nav").Some? then ["navbar"] else [])
    + (if FirstWithTag(ds, "header").Some? then ["header"] else [])
    + (if FirstWithTag(ds, "footer").Some? then ["footer"] else [])
  }

  /** The components of `table` with some class term present, in table order. */
  function ClassHints(doc: Node, table: seq<(string, seq<string>)>): seq<string> {
    if table == [] then []
    else
      var last := table[|table| - 1];
      ClassHints(doc, table[..|table| - 1]) + (if AnyClassTerm(doc, last.1) then [last.0] else [])
  }

  /** `extract_layout_hints`: the semantic tags first, then the class-name table. */
  method ExtractLayoutHints(doc: Node) returns (layout: seq<string>)
    ensures layout == TagHints(doc) + ClassHints(doc, ComponentTerms)
  {
    layout := [];
    var ds := Descendants(doc);
    if FirstWithTag(ds, "nav").Some? {
      layout := layout + ["navbar"];
    }
    if FirstWithTag(ds, "header").Some? {
      layout := layout + ["header"];
    }
    if FirstWithTag(ds, "footer").Some? {
      layout := layout + ["footer"];
    }
    layout := AppendClassHints(doc, ComponentTerms, layout);
  }

  /** The loop over the class-name table: a component is appended at its first term found. */
  method AppendClassHints(doc: Node, table: seq<(string, seq<string>)>, start: seq<string>) returns (layout: seq<string>)
    ensures layout == start + ClassHints(doc, table)
  {
    layout := start;
    for ci := 0 to |table|
      invariant layout == start + ClassHints(doc, table[..ci])
    {
      assert table[..ci + 1][..ci] == table[..ci];
      var component := table[ci].0;
      var classes := table[ci].1;
      var hit := false;
      var ti := 0;
      ghost var before := layout;
      while ti < |classes| && !hit
        invariant 0 <= ti <= |classes|
        invariant layout == before + (if hit then [component] else [])
        invariant hit ==> AnyClassTerm(doc, classes)
        invariant !hit ==> forall j :: 0 <= j < ti ==> !HasClassTerm(doc, classes[j])
      {
        if HasClassTerm(doc, classes[ti]) {
          layout := layout + [component];
          hit := true;
        }
        ti := ti + 1;
      }
    }
    assert table[..|table|] == table;
  }

  /** A component of the table is hinted exactly when one of its terms is found. */
  lemma {:induction false} ClassHintsExactly(doc: Node, table: seq<(string, seq<string>)>, c: string)
    requires forall i, j :: 0 <= i < j < |table| ==> table[i].0 != table[j].0
    ensures NoDuplicates(ClassHints(doc, table))
    ensures c in ClassHints(doc, table) <==> exists i :: 0 <= i < |table| && table[i].0 == c && AnyClassTerm(doc, table[i].1)
  {
    if table != [] {
      var init := table[..|table| - 1];
      ClassHintsExactly(doc, init, c);
      ClassHintsExactly(doc, init, table[|table| - 1].0);
      assert forall i :: 0 <= i < |init| ==> init[i] == table[i];
    }
  }

  lemma ComponentNamesDistinct()
    ensures forall i, j :: 0 <= i < j < |ComponentTerms| ==> ComponentTerms[i].0 != ComponentTerms[j].0
    ensures forall i :: 0 <= i < |ComponentTerms| ==> ComponentTerms[i].0 !in {"navbar", "header", "footer"}
  {}

  /** The tag hints are distinct and come from the three semantic names. */
  lemma TagHintsShape(doc: Node)
    ensures NoDuplicates(TagHints(doc))
    ensures forall x :: x in TagHints(doc) ==> x in {"navbar", "header", "footer"}
  {
    var ds := Descendants(doc);
    var a: seq<string> := if FirstWithTag(ds, "nav").Some? then ["navbar"] else [];
    var b: seq<string> := if FirstWithTag(ds, "header").Some? then ["header"] else [];
    var c: seq<string> := if FirstWithTag(ds, "footer").Some? then ["footer"] else [];
    assert "navbar" != "header" && "navbar" != "footer" && "header" != "footer";
    DistinctAppend(a, b);
    DistinctAppend(a + b, c);
  }

  /** Two duplicate-free, disjoint lists append to a duplicate-free one. */
  lemma DistinctAppend<T>(a: seq<T>, b: seq<T>)
    requires NoDuplicates(a) && NoDuplicates(b)
    requires forall x :: x in a ==> x !in b
    ensures NoDuplicates(a + b)
  {
    var all := a + b;
    forall i, j | 0 <= i < j < |all| ensures all[i] != all[j] {
      if i >= |a| {
        assert all[i] == b[i - |a|] && all[j] == b[j - |a|];
      } else if j >= |a| {
        assert all[j] in b && all[i] in a;
      }
    }
  }

  /** With distinct component names, none of them a tag hint, no hint is listed twice. */
  lemma HintsDistinct(doc: Node, table: seq<(string, seq<string>)>)
    requires forall i, j :: 0 <= i < j < |table| ==> table[i].0 != table[j].0
    requires forall i :: 0 <= i < |table| ==> table[i].0 !in {"navbar", "header", "footer"}
    ensures NoDuplicates(TagHints(doc) + ClassHints(doc, table))
  {
    var t := TagHints(doc);
    var h := ClassHints(doc, table);
    TagHintsShape(doc);
    ClassHintsExactly(doc, table, "");
    forall x | x in t ensures x !in h {
      ClassHintsExactly(doc, table, x);
    }
    DistinctAppend(t, h);
  }

  /** The hints name no component twice, and "hero" appears exactly when a hero, banner or jumbotron class does. */
  lemma LayoutHintsDistinct(doc: Node)
    ensures NoDuplicates(TagHints(doc) + ClassHints(doc, ComponentTerms))
    ensures "hero" in ClassHints(doc, ComponentTerms) <==> AnyClassTerm(doc, ["hero", "banner", "jumbotron"])
  {
    ComponentNamesDistinct();
    HintsDistinct(doc, ComponentTerms);
    ClassHintsExactly(doc, ComponentTerms, "hero");
    assert ComponentTerms[0].0 == "hero" && ComponentTerms[0].1 == ["hero", "banner", "jumbotron"];
  }
}
