/**
 * The component classifier of the design context: `analyze_component`
 * recognises an element as one of five section kinds by a fixed-priority
 * list of rules with literal confidences, and
 * `extract_component_descriptions` walks the candidate sections in
 * document order, keeping the first description of each kind.
 */
module Classifier {
  import opened Text
  import opened Dom

  /** The `Component` record; `confidence` is the source's float literal, exactly. */
  datatype Component = Component(kind: string, description: string, confidence: real)

  const Kinds: set<string> := {"navbar", "hero", "product-grid", "footer", "features"}

  // ----- the statistics of an element -----

  predicate HasBtnClass(n: Node) { ClassTokenContains(n, "btn") }
  predicate HasSocialClass(n: Node) { ClassTokenContains(n, "social") }

  /** The class filter of the card count: a token containing card, product, item or grid-item. */
  predicate IsCard(n: Node) {
    || ClassTokenContains(n, "card") || ClassTokenContains(n, "product")
    || ClassTokenContains(n, "item") || ClassTokenContains(n, "grid-item")
  }

  /** `bool(el.find('img'))`. */
  predicate HasImage(n: Node) { FindAll(n, {"img"}) != [] }

  function LinkCount(el: Node): nat { |FindAll(el, {"a"})| }
  function ButtonCount(el: Node): nat { |Filter(FindAll(el, {"button", "a"}), HasBtnClass)| }
  function ImageCount(el: Node): nat { |FindAll(el, {"img"})| }
  function HeadingCount(el: Node): nat { |FindAll(el, {"h1", "h2", "h3"})| }
  function Cards(el: Node): seq<Node> { Filter(Descendants(el), IsCard) }
  function SocialCount(el: Node): nat { |Filter(FindAll(el, {"a"}), HasSocialClass)| }

  // ----- the five rules, in priority order -----

  predicate IsNavbar(el: Node) {
    var cls := ClassString(el);
    el.Element? && (el.tag == "nav" || Contains(cls, "nav") || Contains(cls, "header") || Contains(cls, "navbar"))
  }

  predicate IsHero(el: Node) {
    var cls := ClassString(el);
    el.Element? && (Contains(cls, "hero") || Contains(cls, "banner") || Contains(cls, "jumbotron")
                    || (el.tag == "header" && HeadingCount(el) > 0))
  }

  predicate IsGrid(el: Node) { |Cards(el)| >= 3 }

  predicate IsFooter(el: Node) {
    el.Element? && (el.tag == "footer" || Contains(ClassString(el), "footer"))
  }

  predicate IsFeatures(el: Node) {
    var cls := ClassString(el);
    el.Element? && (Contains(cls, "features") || Contains(cls, "services") || (el.tag == "section" && HeadingCount(el) > 0))
  }

  predicate Recognised(el: Node) {
    IsNavbar(el) || IsHero(el) || IsGrid(el) || IsFooter(el) || IsFeatures(el)
  }

  // ----- the descriptions -----

  function NavbarDescription(links: nat, logo: bool): string {
    "Navbar with " + NatToString(links) + " navigation links" + (if logo then " and logo" else "")
  }

  function HeroDescription(headings: nat, ctas: nat, image: bool): string {
    "Hero section with " + NatToString(headings) + " heading(s)"
    + (if ctas != 0 then " and " + NatToString(ctas) + " call-to-action button(s)" else "")
    + (if image then " featuring hero image" else "")
  }

  function GridDescription(cards: nat, images: bool): string {
    "Grid of " + NatToString(cards) + " product/content cards" + (if images then " with images" else "")
  }

  function FooterDescription(links: nat, social: nat): string {
    "Footer with " + NatToString(links) + " links"
    + (if social != 0 then " including " + NatToString(social) + " social media links" else "")
  }

  function FeaturesDescription(headings: nat, images: nat): string {
    "Feature section with " + NatToString(headings) + " headings and " + NatToString(images) + " images"
  }

  predicate AnyWithImage(ns: seq<Node>) {
    exists k :: 0 <= k < |ns| && HasImage(ns[k])
  }

  /**
   * `analyze_component`: the first rule that matches decides the kind;
   * none matching gives no component.
   */
  function AnalyzeComponent(el: Node): (r: Option<Component>)
    requires el.Element?
    ensures r.Some? <==> Recognised(el)
    ensures r.Some? ==> r.value.kind in Kinds && r.value.confidence >= 0.6 && r.value.description != []
  {
    if IsNavbar(el) then
      Some(Component("navbar", NavbarDescription(LinkCount(el), HasImage(el)), if el.tag == "nav" then 0.9 else 0.7))
    else if IsHero(el) then
      Some(Component("hero", HeroDescription(HeadingCount(el), ButtonCount(el), HasImage(el)), 0.8))
    else if IsGrid(el) then
      Some(Component("product-grid", GridDescription(|Cards(el)|, AnyWithImage(Cards(el))), 0.7))
    else if IsFooter(el) then
      Some(Component("footer", FooterDescription(LinkCount(el), SocialCount(el)), if el.tag == "footer" then 0.9 else 0.7))
    else if IsFeatures(el) then
      Some(Component("features", FeaturesDescription(HeadingCount(el), ImageCount(el)), 0.6))
    else None
  }

  /** Each kind is chosen exactly when its rule matches and no earlier rule does. */
  lemma AnalyzePriority(el: Node)
    requires el.Element?
    ensures var r := AnalyzeComponent(el);
            && (r.Some? && r.value.kind == "navbar" <==> IsNavbar(el))
            && (r.Some? && r.value.kind == "hero" <==> !IsNavbar(el) && IsHero(el))
            && (r.Some? && r.value.kind == "product-grid" <==> !IsNavbar(el) && !IsHero(el) && IsGrid(el))
            && (r.Some? && r.value.kind == "footer" <==> !IsNavbar(el) && !IsHero(el) && !IsGrid(el) && IsFooter(el))
            && ((r.Some? && r.value.kind == "features")
                <==> !IsNavbar(el) && !IsHero(el) && !IsGrid(el) && !IsFooter(el) && IsFeatures(el))
  {
    assert "navbar" != "hero" && "navbar" != "product-grid" && "navbar" != "footer" && "navbar" != "features";
    assert "hero" != "product-grid" && "hero" != "footer" && "hero" != "features";
    assert "product-grid" != "footer" && "product-grid" != "features" && "footer" != "features";
  }

  /** The confidence is 0.9 only for a kind's own tag (`<nav>`, `<footer>`), and one of four literals. */
  lemma ConfidenceLevels(el: Node)
    requires el.Element? && AnalyzeComponent(el).Some?
    ensures var c := AnalyzeComponent(el).value;
            && c.confidence in {0.9, 0.8, 0.7, 0.6}
            && (c.confidence == 0.9 <==> (c.kind == "navbar" && el.tag == "nav") || (c.kind == "footer" && el.tag == "footer"))
  {
    AnalyzePriority(el);
  }

  /** A `<header>` whose classes contain "header" is always a navbar, never a hero. */
  lemma HeaderIsNavbar(el: Node)
    requires el.Element? && el.tag == "header" && Contains(ClassString(el), "header")
    ensures AnalyzeComponent(el).Some? && AnalyzeComponent(el).value.kind == "navbar"
    ensures AnalyzeComponent(el).value.confidence == 0.7
  {
    assert el.tag != "nav" by {
      assert |el.tag| == 6;
    }
  }

  /** The navbar description starts with its link count, which reads back as the number written. */
  lemma NavbarCountReadsBack(links: nat, logo: bool)
    ensures var d := NavbarDescription(links, logo);
            var n := NatToString(links);
            && |d| >= 12 + |n|
            && d[..12] == "Navbar with "
            && d[12..12 + |n|] == n
            && DecimalValue(d[12..12 + |n|]) == links
  {
    var n := NatToString(links);
    var d := NavbarDescription(links, logo);
    assert d == "Navbar with " + n + (" navigation links" + (if logo then " and logo" else ""));
    assert d[12..12 + |n|] == n;
    NatToStringRoundTrip(links);
  }

  // ----- the descriptions of a page -----

  const SectionTags: set<string> := {"nav", "header", "main", "section", "footer", "div"}

  /** The components of the candidate elements that the loop accepts, in document order. */
  function Classified(ns: seq<Node>): (r: seq<Component>)
    requires forall k :: 0 <= k < |ns| ==> ns[k].Element?
    ensures |r| <= |ns|
    ensures forall i :: 0 <= i < |r| ==> r[i].kind in Kinds && r[i].confidence >= 0.6
  {
    if ns == [] then []
    else
      var c := AnalyzeComponent(ns[|ns| - 1]);
      Classified(ns[..|ns| - 1]) + (if c.Some? && c.value.confidence >= 0.6 then [c.value] else [])
  }

  predicate KindIn(k: string, cs: seq<Component>) {
    exists i :: 0 <= i < |cs| && cs[i].kind == k
  }

  predicate DistinctKinds(cs: seq<Component>) {
    forall i, j :: 0 <= i < j < |cs| ==> cs[i].kind != cs[j].kind
  }

  /** Of each kind, the first component; the reference definition the loop is held to. */
  function FirstOfEachKind(cs: seq<Component>): (r: seq<Component>)
    ensures |r| <= |cs|
  {
    if cs == [] then []
    else
      var prev := FirstOfEachKind(cs[..|cs| - 1]);
      var c := cs[|cs| - 1];
      if KindIn(c.kind, prev) then prev else prev + [c]
  }

  /** The position of the first component of kind `k`. */
  function FirstIndex(cs: seq<Component>, k: string): (r: nat)
    requires KindIn(k, cs)
    ensures r < |cs| && cs[r].kind == k
    ensures forall j :: 0 <= j < r ==> cs[j].kind != k
  {
    var init := cs[..|cs| - 1];
    assert forall i :: 0 <= i < |init| ==> init[i] == cs[i];
    if KindIn(k, init) then FirstIndex(init, k) else |cs| - 1
  }

  lemma FirstIndexOfPrefix(cs: seq<Component>, n: nat, k: string)
    requires n <= |cs| && KindIn(k, cs[..n])
    ensures KindIn(k, cs) && FirstIndex(cs, k) == FirstIndex(cs[..n], k)
  {
    assert forall j :: 0 <= j < n ==> cs[..n][j] == cs[j];
  }

  /** A kind occurs among the kept components exactly when it occurs at all. */
  lemma {:induction false} FirstOfEachKindCovers(cs: seq<Component>, k: string)
    ensures KindIn(k, FirstOfEachKind(cs)) <==> KindIn(k, cs)
  {
    if cs != [] {
      var n := |cs| - 1;
      var init := cs[..n];
      var c := cs[n];
      var prev := FirstOfEachKind(init);
      var r := FirstOfEachKind(cs);
      FirstOfEachKindCovers(init, k);
      FirstOfEachKindCovers(init, c.kind);
      assert forall i :: 0 <= i < |prev| ==> r[i] == prev[i];
      if KindIn(k, cs) {
        var i :| 0 <= i < |cs| && cs[i].kind == k;
        if i < n {
          assert init[i].kind == k;
        } else if !KindIn(c.kind, prev) {
          assert r[|prev|].kind == k;
        }
      }
      if KindIn(k, r) {
        var i :| 0 <= i < |r| && r[i].kind == k;
        if i < |prev| {
          assert KindIn(k, prev);
          var j :| 0 <= j < |init| && init[j].kind == k;
          assert cs[j].kind == k;
        } else {
          assert cs[n].kind == k;
        }
      }
    }
  }

  /** No kind is kept twice. */
  lemma {:induction false} FirstOfEachKindDistinct(cs: seq<Component>)
    ensures DistinctKinds(FirstOfEachKind(cs))
  {
    if cs != [] {
      var prev := FirstOfEachKind(cs[..|cs| - 1]);
      var c := cs[|cs| - 1];
      FirstOfEachKindDistinct(cs[..|cs| - 1]);
      if !KindIn(c.kind, prev) {
        var r := prev + [c];
        assert FirstOfEachKind(cs) == r;
        forall i, j | 0 <= i < j < |r| ensures r[i].kind != r[j].kind {
          assert r[i] == prev[i];
          if j < |prev| {
            assert r[j] == prev[j];
          }
        }
      } else {
        assert FirstOfEachKind(cs) == prev;
      }
    }
  }

  /**
   * The component kept for a kind is the first of that kind, and the kept
   * components are listed in the order in which their kinds first appear.
   */
  lemma {:induction false} FirstOfEachKindFirst(cs: seq<Component>)
    ensures var r := FirstOfEachKind(cs);
            && (forall i :: 0 <= i < |r| ==> KindIn(r[i].kind, cs) && r[i] == cs[FirstIndex(cs, r[i].kind)])
            && (forall i, j :: 0 <= i < j < |r| ==> FirstIndex(cs, r[i].kind) < FirstIndex(cs, r[j].kind))
  {
    if cs != [] {
      var n := |cs| - 1;
      var init := cs[..n];
      var c := cs[n];
      var prev := FirstOfEachKind(init);
      FirstOfEachKindFirst(init);
      assert forall i :: 0 <= i < n ==> init[i] == cs[i];
      forall i | 0 <= i < |prev|
        ensures && KindIn(prev[i].kind, init) && KindIn(prev[i].kind, cs)
                && FirstIndex(cs, prev[i].kind) == FirstIndex(init, prev[i].kind) < n
      {
        assert KindIn(prev[i].kind, prev);
        FirstOfEachKindCovers(init, prev[i].kind);
        FirstIndexOfPrefix(cs, n, prev[i].kind);
      }
      if !KindIn(c.kind, prev) {
        FirstOfEachKindCovers(init, c.kind);
        assert FirstIndex(cs, c.kind) == n;
      }
    }
  }

  /** The kinds of a list of components, in order. */
  function KindsOf(cs: seq<Component>): (r: seq<string>)
    ensures |r| == |cs| && forall i :: 0 <= i < |cs| ==> r[i] == cs[i].kind
  {
    if cs == [] then [] else KindsOf(cs[..|cs| - 1]) + [cs[|cs| - 1].kind]
  }

  /** The descriptions of a list of components, in order. */
  function DescriptionsOf(cs: seq<Component>): (r: seq<string>)
    ensures |r| == |cs| && forall i :: 0 <= i < |cs| ==> r[i] == cs[i].description
  {
    if cs == [] then [] else DescriptionsOf(cs[..|cs| - 1]) + [cs[|cs| - 1].description]
  }

  /** The candidate sections, each one of the six tags; they are all elements. */
  function Sections(doc: Node): seq<Node> {
    FindAll(doc, SectionTags)
  }

  lemma FirstOfEachKindStep(cs: seq<Component>, c: Component)
    ensures FirstOfEachKind(cs + [c])
            == if KindIn(c.kind, FirstOfEachKind(cs)) then FirstOfEachKind(cs) else FirstOfEachKind(cs) + [c]
  {
    assert (cs + [c])[..|cs|] == cs;
  }

  lemma ClassifiedStep(ns: seq<Node>, i: nat)
    requires i < |ns| && forall k :: 0 <= k < |ns| ==> ns[k].Element?
    ensures AnalyzeComponent(ns[i]).Some? && AnalyzeComponent(ns[i]).value.confidence >= 0.6 ==>
              Classified(ns[..i + 1]) == Classified(ns[..i]) + [AnalyzeComponent(ns[i]).value]
    ensures !(AnalyzeComponent(ns[i]).Some? && AnalyzeComponent(ns[i]).value.confidence >= 0.6) ==>
              Classified(ns[..i + 1]) == Classified(ns[..i])
  {
    assert ns[..i + 1][..i] == ns[..i];
  }

  lemma KindsOfExactly(cs: seq<Component>, k: string)
    ensures k in KindsOf(cs) <==> KindIn(k, cs)
  {
    if KindIn(k, cs) {
      var i :| 0 <= i < |cs| && cs[i].kind == k;
      assert KindsOf(cs)[i] == k;
    }
  }

  lemma MapsSnoc(cs: seq<Component>, c: Component)
    ensures KindsOf(cs + [c]) == KindsOf(cs) + [c.kind]
    ensures DescriptionsOf(cs + [c]) == DescriptionsOf(cs) + [c.description]
  {
    assert (cs + [c])[..|cs|] == cs;
  }

  /**
   * The body of the loop of `extract_component_descriptions` for a kept
   * component: its description and kind are appended iff its kind is new.
   */
  method KeepFirst(ghost cs: seq<Component>, c: Component, components: seq<string>, layout: seq<string>, seen: set<string>)
    returns (components': seq<string>, layout': seq<string>, seen': set<string>)
    requires components == DescriptionsOf(FirstOfEachKind(cs)) && layout == KindsOf(FirstOfEachKind(cs))
    requires forall k :: k in seen <==> k in layout
    requires c.description != []
    ensures components' == DescriptionsOf(FirstOfEachKind(cs + [c])) && layout' == KindsOf(FirstOfEachKind(cs + [c]))
    ensures forall k :: k in seen' <==> k in layout'
  {
    ghost var prev := FirstOfEachKind(cs);
    FirstOfEachKindStep(cs, c);
    KindsOfExactly(prev, c.kind);
    MapsSnoc(prev, c);
    components', layout', seen' := components, layout, seen;
    if c.description != [] && c.kind !in seen {
      components' := components + [c.description];
      seen' := seen + {c.kind};
    }
    if c.kind !in layout {
      layout' := layout + [c.kind];
    }
  }

  /** `extract_component_descriptions`: the loop over the section elements of the page. */
  method ExtractComponentDescriptions(doc: Node) returns (components: seq<string>, layout: seq<string>)
    ensures components == DescriptionsOf(FirstOfEachKind(Classified(Sections(doc))))
    ensures layout == KindsOf(FirstOfEachKind(Classified(Sections(doc))))
  {
    components, layout := DescribeAll(Sections(doc));
  }

  /** The loop, with the `seen_types` set and the `layout` list of the source. */
  method DescribeAll(elements: seq<Node>) returns (components: seq<string>, layout: seq<string>)
    requires forall k :: 0 <= k < |elements| ==> elements[k].Element?
    ensures components == DescriptionsOf(FirstOfEachKind(Classified(elements)))
    ensures layout == KindsOf(FirstOfEachKind(Classified(elements)))
  {
    components := [];
    layout := [];
    var seen: set<string> := {};
    for i := 0 to |elements|
      invariant components == DescriptionsOf(FirstOfEachKind(Classified(elements[..i])))
      invariant layout == KindsOf(FirstOfEachKind(Classified(elements[..i])))
      invariant forall k :: k in seen <==> k in layout
    {
      components, layout, seen := DescribeOne(elements, i, components, layout, seen);
    }
    assert elements[..|elements|] == elements;
  }

  /** One iteration of the loop: the section `elements[i]` is classified and kept when it is a new kind. */
  method DescribeOne(elements: seq<Node>, i: nat, components: seq<string>, layout: seq<string>, seen: set<string>)
    returns (components': seq<string>, layout': seq<string>, seen': set<string>)
    requires i < |elements| && forall k :: 0 <= k < |elements| ==> elements[k].Element?
    requires components == DescriptionsOf(FirstOfEachKind(Classified(elements[..i])))
    requires layout == KindsOf(FirstOfEachKind(Classified(elements[..i])))
    requires forall k :: k in seen <==> k in layout
    ensures components' == DescriptionsOf(FirstOfEachKind(Classified(elements[..i + 1])))
    ensures layout' == KindsOf(FirstOfEachKind(Classified(elements[..i + 1])))
    ensures forall k :: k in seen' <==> k in layout'
  {
    ghost var done := Classified(elements[..i]);
    ClassifiedStep(elements, i);
    var component := AnalyzeComponent(elements[i]);
    if component.Some? && component.value.confidence >= 0.6 {
      assert Classified(elements[..i + 1]) == done + [component.value];
      components', layout', seen' := KeepFirst(done, component.value, components, layout, seen);
    } else {
      assert Classified(elements[..i + 1]) == done;
      components', layout', seen' := components, layout, seen;
    }
  }

  /**
   * The two lists align: `layout` names each recognised kind once, in order
   * of first appearance, every one of the five kinds, and `components[i]` is
   * the description of the first section of kind `layout[i]`.
   */
  lemma ComponentDescriptionsAlign(doc: Node)
    ensures var cs := Classified(Sections(doc));
            var r := FirstOfEachKind(cs);
            var components := DescriptionsOf(r);
            var layout := KindsOf(r);
            && |components| == |layout|
            && NoDuplicates(layout)
            && (forall k :: k in layout <==> KindIn(k, cs))
            && (forall i :: 0 <= i < |layout| ==> layout[i] in Kinds)
            && (forall i :: 0 <= i < |layout| ==> KindIn(layout[i], cs) && components[i] == cs[FirstIndex(cs, layout[i])].description)
            && (forall i, j :: 0 <= i < j < |layout| ==> FirstIndex(cs, layout[i]) < FirstIndex(cs, layout[j]))
  {
    ClassifiedKinds(Sections(doc));
    ComponentListsAlign(Classified(Sections(doc)));
  }

  /** The alignment of the two lists, for any list of components of the five kinds. */
  lemma ComponentListsAlign(cs: seq<Component>)
    requires forall k :: KindIn(k, cs) ==> k in Kinds
    ensures var r := FirstOfEachKind(cs);
            var components := DescriptionsOf(r);
            var layout := KindsOf(r);
            && |components| == |layout|
            && NoDuplicates(layout)
            && (forall k :: k in layout <==> KindIn(k, cs))
            && (forall i :: 0 <= i < |layout| ==> layout[i] in Kinds)
            && (forall i :: 0 <= i < |layout| ==> KindIn(layout[i], cs) && components[i] == cs[FirstIndex(cs, layout[i])].description)
            && (forall i, j :: 0 <= i < j < |layout| ==> FirstIndex(cs, layout[i]) < FirstIndex(cs, layout[j]))
  {
    LayoutDistinct(cs);
    LayoutKinds(cs);
    LayoutOrder(cs);
  }

  lemma LayoutDistinct(cs: seq<Component>)
    ensures var r := FirstOfEachKind(cs);
            |DescriptionsOf(r)| == |KindsOf(r)| && NoDuplicates(KindsOf(r))
  {
    FirstOfEachKindDistinct(cs);
  }

  lemma LayoutKinds(cs: seq<Component>)
    requires forall k :: KindIn(k, cs) ==> k in Kinds
    ensures var layout := KindsOf(FirstOfEachKind(cs));
            && (forall k :: k in layout <==> KindIn(k, cs))
            && (forall i :: 0 <= i < |layout| ==> layout[i] in Kinds)
  {
    var r := FirstOfEachKind(cs);
    forall k ensures k in KindsOf(r) <==> KindIn(k, cs) {
      KindsOfExactly(r, k);
      FirstOfEachKindCovers(cs, k);
    }
  }

  lemma LayoutOrder(cs: seq<Component>)
    ensures var r := FirstOfEachKind(cs);
            var components := DescriptionsOf(r);
            var layout := KindsOf(r);
            && (forall i :: 0 <= i < |layout| ==> KindIn(layout[i], cs) && components[i] == cs[FirstIndex(cs, layout[i])].description)
            && (forall i, j :: 0 <= i < j < |layout| ==> FirstIndex(cs, layout[i]) < FirstIndex(cs, layout[j]))
  {
    FirstOfEachKindFirst(cs);
  }

  /** Every classified component has one of the five kinds. */
  lemma {:induction false} ClassifiedKinds(ns: seq<Node>)
    requires forall k :: 0 <= k < |ns| ==> ns[k].Element?
    ensures forall k :: KindIn(k, Classified(ns)) ==> k in Kinds
  {
    if ns != [] {
      ClassifiedKinds(ns[..|ns| - 1]);
      var prev := Classified(ns[..|ns| - 1]);
      forall k | KindIn(k, Classified(ns)) ensures k in Kinds {
        var i :| 0 <= i < |Classified(ns)| && Classified(ns)[i].kind == k;
        if i < |prev| {
          assert Classified(ns)[i] == prev[i];
        }
      }
    }
  }

  /** The confidence filter of the loop never drops a recognised section. */
  lemma {:induction false} ClassifiedKeepsRecognised(ns: seq<Node>)
    requires forall k :: 0 <= k < |ns| ==> ns[k].Element?
    ensures |Classified(ns)| == |Filter(ns, Recognised)|
  {
    if ns != [] {
      ClassifiedKeepsRecognised(ns[..|ns| - 1]);
      FilterSnoc(ns, Recognised);
    }
  }

  /** Filtering a list with one more element at the end. */
  lemma {:induction false} FilterSnoc(ns: seq<Node>, keep: Node -> bool)
    requires ns != []
    ensures Filter(ns, keep) == Filter(ns[..|ns| - 1], keep) + (if keep(ns[|ns| - 1]) then [ns[|ns| - 1]] else [])
  {
    var init, last := ns[..|ns| - 1], ns[|ns| - 1];
    var t := if keep(last) then [last] else [];
    if |ns| == 1 {
      assert Filter(ns, keep) == t + Filter([], keep);
      assert init == [];
    } else {
      var h := if keep(ns[0]) then [ns[0]] else [];
      var tail := ns[1..];
      FilterSnoc(tail, keep);
      assert tail[|tail| - 1] == last;
      assert tail[..|tail| - 1] == init[1..];
      assert Filter(ns, keep) == h + Filter(tail, keep);
      assert init[0] == ns[0];
      assert Filter(init, keep) == h + Filter(init[1..], keep);
      assert h + (Filter(init[1..], keep) + t) == (h + Filter(init[1..], keep)) + t;
    }
  }
}
