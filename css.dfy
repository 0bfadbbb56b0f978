/**
 * The style analysers of the extraction pipeline: colour extraction from
 * the CSS corpus (property-scoped, normalised to lowercase hex, sorted,
 * capped at 8) and font-family extraction from the corpus and from inline
 * `style` attributes. Each regular expression of the source is modelled
 * by an explicit scanner that follows Python's `re` semantics
 * (`finditer`/`findall` resume after a match, or one character further
 * when there is none).
 */
module StyleAnalysis {
  import opened Text
  import opened Dom

  // ---------------------------------------------------------------------
  // Scanning primitives
  // ---------------------------------------------------------------------

  /** `lit` (lowercase) occurs at `i` when case is ignored (the IGNORECASE flag). */
  predicate AtIgnoringCase(s: string, i: nat, lit: string) {
    i + |lit| <= |s| && Lower(s[i..i + |lit|]) == lit
  }

  // The scanners' contracts are quantifier-free; what they skip over is
  // stated by the lemmas beside them, so that unfolding them stays cheap.

  /** The end of the run of characters outside `stops` that starts at `i`. */
  function RunEnd(s: string, i: nat, stops: set<char>): (k: nat)
    requires i <= |s|
    decreases |s| - i
    ensures i <= k <= |s| && (k == |s| || s[k] in stops)
  {
    if i == |s| || s[i] in stops then i else RunEnd(s, i + 1, stops)
  }

  lemma {:induction false} RunEndShape(s: string, i: nat, stops: set<char>)
    requires i <= |s|
    decreases |s| - i
    ensures forall j :: i <= j < RunEnd(s, i, stops) ==> s[j] !in stops
  {
    if i < |s| && s[i] !in stops { RunEndShape(s, i + 1, stops); }
  }

  /** `\s*` starting at `i`: the first index that is not whitespace. */
  function SkipSpaces(s: string, i: nat): (k: nat)
    requires i <= |s|
    decreases |s| - i
    ensures i <= k <= |s| && (k == |s| || !IsSpace(s[k]))
  {
    if i < |s| && IsSpace(s[i]) then SkipSpaces(s, i + 1) else i
  }

  lemma {:induction false} SkipSpacesShape(s: string, i: nat)
    requires i <= |s|
    decreases |s| - i
    ensures forall j :: i <= j < SkipSpaces(s, i) ==> IsSpace(s[j])
  {
    if i < |s| && IsSpace(s[i]) { SkipSpacesShape(s, i + 1); }
  }

  /** `[\d.]+`: the end of the run of ASCII digits and dots starting at `i`. */
  function DigitsDotsEnd(s: string, i: nat): (k: nat)
    requires i <= |s|
    decreases |s| - i
    ensures i <= k <= |s|
  {
    if i < |s| && (IsDigit(s[i]) || s[i] == '.') then DigitsDotsEnd(s, i + 1) else i
  }

  /** `int()` of the digit run at `k`, continuing from the value `acc` read so far; and where the run ends. */
  function DigitsFrom(v: string, k: nat, acc: nat): (r: (nat, nat))
    requires k <= |v|
    decreases |v| - k
    ensures k <= r.1 <= |v|
  {
    if k < |v| && IsDigit(v[k]) then DigitsFrom(v, k + 1, 10 * acc + DigitValue(v[k])) else (acc, k)
  }

  // ---------------------------------------------------------------------
  // Colours
  // ---------------------------------------------------------------------

  /** The properties whose values are searched for colours, in the source's order. */
  const ColorProperties: seq<string> := [
    "color:", "background-color:", "border-color:",
    "box-shadow:", "text-shadow:", "outline-color:",
    "border:", "background:", "border-top-color:",
    "border-right-color:", "border-bottom-color:",
    "border-left-color:"
  ]

  lemma ColorPropertiesNamed()
    ensures forall k :: 0 <= k < |ColorProperties| ==> ColorProperties[k] != []
  {
  }

  /** A match of `prop[^;}]+`: the property name in any case, then at least one other character. */
  predicate PropertyMatch(css: string, prop: string, v: string) {
    && |prop| < |v|
    && Lower(v[..|prop|]) == prop
    && (forall j :: |prop| <= j < |v| ==> v[j] != ';' && v[j] != '}')
    && Contains(css, v)
  }

  lemma PropertyMatchAt(css: string, prop: string, i: nat)
    requires i + |prop| <= |css| && AtIgnoringCase(css, i, prop)
    requires RunEnd(css, i + |prop|, {';', '}'}) > i + |prop|
    ensures PropertyMatch(css, prop, css[i..RunEnd(css, i + |prop|, {';', '}'})])
  {
    var k := RunEnd(css, i + |prop|, {';', '}'});
    RunEndShape(css, i + |prop|, {';', '}'});
    ContainsSlice(css, i, k);
    assert css[i..k][..|prop|] == css[i..i + |prop|];
  }

  /**
   * `re.finditer(prop + '[^;}]+', css, re.IGNORECASE)` from index `i`: each
   * match is the property name followed by the longest non-empty run of
   * characters other than ';' and '}' (the run may end at the end of the text).
   */
  function PropertyValuesFrom(css: string, prop: string, i: nat): (r: seq<string>)
    requires prop != []
    decreases |css| - i
    ensures forall k :: 0 <= k < |r| ==> PropertyMatch(css, prop, r[k])
  {
    if i + |prop| > |css| then []
    else if AtIgnoringCase(css, i, prop) && RunEnd(css, i + |prop|, {';', '}'}) > i + |prop| then
      var k := RunEnd(css, i + |prop|, {';', '}'});
      PropertyMatchAt(css, prop, i);
      var rest := PropertyValuesFrom(css, prop, k);
      assert forall m :: 0 < m < |rest| + 1 ==> ([css[i..k]] + rest)[m] == rest[m - 1];
      [css[i..k]] + rest
    else PropertyValuesFrom(css, prop, i + 1)
  }

  function PropertyValues(css: string, prop: string): seq<string>
    requires prop != []
  {
    PropertyValuesFrom(css, prop, 0)
  }

  /** The four colour notations, tried in this order. */
  datatype ColorPattern = ShortHex | LongHex | Rgb | Rgba

  const ColorPatterns: seq<ColorPattern> := [ShortHex, LongHex, Rgb, Rgba]

  /** `#` followed by exactly `n` hex digits and a word boundary (`#[0-9a-fA-F]{n}\b`). */
  predicate HexAt(v: string, i: nat, n: nat) {
    && i + 1 + n <= |v|
    && v[i] == '#'
    && (forall j :: i + 1 <= j < i + 1 + n ==> IsHexDigit(v[j]))
    && (i + 1 + n == |v| || !IsWordChar(v[i + 1 + n]))
  }

  /** `\s*(\d+)\s*` at `i`: the number read and the index after the trailing whitespace. */
  function NumberAt(v: string, i: nat): (r: Option<(nat, nat)>)
    requires i <= |v|
    ensures r.Some? ==> i < r.value.1 <= |v|
  {
    var a := SkipSpaces(v, i);
    var (x, b) := DigitsFrom(v, a, 0);
    if b == a then None else Some((x, SkipSpaces(v, b)))
  }

  /** `'#{:02x}{:02x}{:02x}'.format(r, g, b)`. */
  function HexTriple(r: nat, g: nat, b: nat): string {
    "#" + Hex2(r) + Hex2(g) + Hex2(b)
  }

  /**
   * `n` occurrences of `\s*(\d+)\s*` separated by commas from `i`, as the
   * channel part of the `rgb(` and `rgba(` patterns reads them: the numbers
   * read and the index after the last one.
   */
  function NumberListAt(v: string, i: nat, n: nat): (r: Option<(seq<nat>, nat)>)
    requires i <= |v| && n >= 1
    decreases n
    ensures r.Some? ==> |r.value.0| == n && i < r.value.1 <= |v|
  {
    match NumberAt(v, i)
    case None => None
    case Some((x, j)) =>
      if n == 1 then Some(([x], j))
      else if j < |v| && v[j] == ',' then
        match NumberListAt(v, j + 1, n - 1)
        case None => None
        case Some((xs, e)) => Some(([x] + xs, e))
      else None
  }

  /** `rgb\(\s*(\d+)\s*,\s*(\d+)\s*,\s*(\d+)\s*\)` at `i`, converted to hex. */
  function RgbAt(v: string, i: nat): (r: Option<(string, nat)>)
    requires i <= |v|
    ensures r.Some? ==> i < r.value.1 <= |v|
  {
    if !StartsWith(v[i..], "rgb(") then None
    else match NumberListAt(v, i + 4, 3)
      case None => None
      case Some((cs, m)) =>
        if m < |v| && v[m] == ')' then Some((HexTriple(cs[0], cs[1], cs[2]), m + 1)) else None
  }

  /** The alpha `\s*[\d.]+\s*\)` of `rgba(` at `i`: the index after it; its value is ignored. */
  function AlphaEnd(v: string, i: nat): (r: Option<nat>)
    requires i <= |v|
    ensures r.Some? ==> i < r.value <= |v|
  {
    var a := SkipSpaces(v, i);
    var b := DigitsDotsEnd(v, a);
    var c := SkipSpaces(v, b);
    if b > a && c < |v| && v[c] == ')' then Some(c + 1) else None
  }

  /** `rgba\(\s*(\d+)\s*,\s*(\d+)\s*,\s*(\d+)\s*,\s*[\d.]+\s*\)` at `i`, converted to hex. */
  function RgbaAt(v: string, i: nat): (r: Option<(string, nat)>)
    requires i <= |v|
    ensures r.Some? ==> i < r.value.1 <= |v|
  {
    if !StartsWith(v[i..], "rgba(") then None
    else match NumberListAt(v, i + 5, 3)
      case None => None
      case Some((cs, m)) =>
        if m >= |v| || v[m] != ',' then None
        else match AlphaEnd(v, m + 1)
          case None => None
          case Some(e) => Some((HexTriple(cs[0], cs[1], cs[2]), e))
  }

  /**
   * The match of `pattern` at `i`, already converted: the colour text and
   * the index just after the match.
   */
  function ColorAt(pattern: ColorPattern, v: string, i: nat): (r: Option<(string, nat)>)
    requires i <= |v|
    ensures r.Some? ==> i < r.value.1 <= |v|
  {
    match pattern
    case ShortHex => if HexAt(v, i, 3) then Some((v[i..i + 4], i + 4)) else None
    case LongHex => if HexAt(v, i, 6) then Some((v[i..i + 7], i + 7)) else None
    case Rgb => RgbAt(v, i)
    case Rgba => RgbaAt(v, i)
  }

  /** `re.finditer(pattern, value)` from `i`, each match converted. */
  function PatternMatchesFrom(pattern: ColorPattern, v: string, i: nat): seq<string>
    requires i <= |v|
    decreases |v| - i
  {
    if i == |v| then []
    else match ColorAt(pattern, v, i)
      case Some((c, e)) => [c] + PatternMatchesFrom(pattern, v, e)
      case None => PatternMatchesFrom(pattern, v, i + 1)
  }

  function PatternMatches(pattern: ColorPattern, v: string): seq<string> {
    PatternMatchesFrom(pattern, v, 0)
  }

  /** `{c.lower() for c in cs}`. */
  function LowerAll(cs: seq<string>): set<string> {
    if cs == [] then {} else LowerAll(cs[..|cs| - 1]) + {Lower(cs[|cs| - 1])}
  }

  /**
   * The colours the matches of one notation add. With `hexKept` the hex
   * converters hand back the matched text, as evidently intended; without
   * it they behave as written: `lambda x: x` returns the match object,
   * whose `.lower()` raises, and the bare `except` skips the colour.
   */
  function Converted(p: ColorPattern, matches: seq<string>, hexKept: bool): set<string> {
    if hexKept || p == Rgb || p == Rgba then LowerAll(matches) else {}
  }

  function ColorsOfPatterns(ps: seq<ColorPattern>, v: string, hexKept: bool): set<string> {
    if ps == [] then {}
    else ColorsOfPatterns(ps[..|ps| - 1], v, hexKept) + Converted(ps[|ps| - 1], PatternMatches(ps[|ps| - 1], v), hexKept)
  }

  /** The colours found in one property value. */
  function ValueColors(v: string): set<string> {
    ColorsOfPatterns(ColorPatterns, v, true)
  }

  /** The colours the source as written finds in one property value. */
  function ValueColorsAsWritten(v: string): set<string> {
    ColorsOfPatterns(ColorPatterns, v, false)
  }

  function ColorsOfValues(vs: seq<string>, hexKept: bool): set<string> {
    if vs == [] then {}
    else ColorsOfValues(vs[..|vs| - 1], hexKept) + ColorsOfPatterns(ColorPatterns, vs[|vs| - 1], hexKept)
  }

  function ColorsOfProperties(css: string, props: seq<string>, hexKept: bool): set<string>
    requires forall k :: 0 <= k < |props| ==> props[k] != []
  {
    if props == [] then {}
    else ColorsOfProperties(css, props[..|props| - 1], hexKept) + ColorsOfValues(PropertyValues(css, props[|props| - 1]), hexKept)
  }

  /** Every distinct colour collected from `css` before sorting and capping. */
  function FoundColors(css: string): set<string> {
    ColorsOfProperties(css, ColorProperties, true)
  }

  /** The same, for the source as written (hex literals never reach the set). */
  function FoundColorsAsWritten(css: string): set<string> {
    ColorsOfProperties(css, ColorProperties, false)
  }

  lemma ColorsOfValuesSnoc(vs: seq<string>, k: nat)
    requires k < |vs|
    ensures ColorsOfValues(vs[..k + 1], true) == ColorsOfValues(vs[..k], true) + ValueColors(vs[k])
  {
    assert vs[..k + 1][..k] == vs[..k];
  }

  /** The inner loops of `extract_colors_from_css`: every notation, every match in one value. */
  method ScanValue(value: string) returns (colors: set<string>)
    ensures colors == ValueColors(value)
  {
    colors := {};
    for ki := 0 to |ColorPatterns|
      invariant colors == ColorsOfPatterns(ColorPatterns[..ki], value, true)
    {
      var found := PatternMatches(ColorPatterns[ki], value);
      ghost var before := colors;
      for ci := 0 to |found|
        invariant colors == before + LowerAll(found[..ci])
      {
        assert found[..ci + 1][..ci] == found[..ci];
        colors := colors + {Lower(found[ci])};
      }
      assert found[..|found|] == found;
      assert ColorPatterns[..ki + 1][..ki] == ColorPatterns[..ki];
    }
    assert ColorPatterns[..|ColorPatterns|] == ColorPatterns;
  }

  /** The loop over the matches of one property pattern. */
  method ScanProperty(css: string, prop: string) returns (colors: set<string>)
    requires prop != []
    ensures colors == ColorsOfValues(PropertyValues(css, prop), true)
  {
    colors := {};
    var matches := PropertyValues(css, prop);
    for mi := 0 to |matches|
      invariant colors == ColorsOfValues(matches[..mi], true)
    {
      var found := ScanValue(matches[mi]);
      ColorsOfValuesSnoc(matches, mi);
      colors := colors + found;
    }
    assert matches[..|matches|] == matches;
  }

  /**
   * `extract_colors_from_css`: the loops over properties, their matches,
   * the four notations and their matches fill a set; the result is the
   * sorted set cut to its first 8 entries, i.e. exactly the 8 smallest
   * colours found (all of them when there are fewer).
   */
  method ExtractColorsFromCss(css: string) returns (palette: seq<string>)
    ensures StrictlySorted(palette)
    ensures |palette| == Min(8, |FoundColors(css)|)
    ensures forall c :: c in palette ==> c in FoundColors(css)
    ensures forall c, d :: c in FoundColors(css) && c !in palette && d in palette ==> Less(d, c)
  {
    var colors := CollectColors(css);
    var sorted := SortStrings(colors);
    palette := Take(sorted, 8);
    SmallestPrefix(sorted, colors, 8);
  }

  /** The loop over the twelve colour properties. */
  method CollectColors(css: string) returns (colors: set<string>)
    ensures colors == FoundColors(css)
  {
    colors := ScanProperties(css, ColorProperties);
  }

  method ScanProperties(css: string, props: seq<string>) returns (colors: set<string>)
    requires forall k :: 0 <= k < |props| ==> props[k] != []
    ensures colors == ColorsOfProperties(css, props, true)
  {
    colors := {};
    for pi := 0 to |props|
      invariant colors == ColorsOfProperties(css, props[..pi], true)
    {
      var found := ScanProperty(css, props[pi]);
      assert props[..pi + 1][..pi] == props[..pi];
      colors := colors + found;
    }
    assert props[..|props|] == props;
  }

  /** A prefix of the sorted order holds the smallest elements. */
  lemma SmallestPrefix(sorted: seq<string>, s: set<string>, n: nat)
    requires StrictlySorted(sorted) && forall x :: x in sorted <==> x in s
    ensures forall c, d :: c in s && c !in Take(sorted, n) && d in Take(sorted, n) ==> Less(d, c)
  {
    var p := Take(sorted, n);
    forall c, d | c in s && c !in p && d in p ensures Less(d, c) {
      var j :| 0 <= j < |sorted| && sorted[j] == c;
      var i :| 0 <= i < |p| && p[i] == d;
      assert j >= |p|;
    }
  }

  /** Inserting into a strictly sorted sequence keeps it strictly sorted. */
  function Insert(r: seq<string>, x: string): (r': seq<string>)
    requires StrictlySorted(r) && x !in r
    ensures StrictlySorted(r') && |r'| == |r| + 1
    ensures forall y :: y in r' <==> y in r || y == x
  {
    if r == [] then [x]
    else if Less(x, r[0]) then
      assert forall j :: 0 <= j < |r| ==> Less(x, r[j]) by {
        forall j | 0 <= j < |r| ensures Less(x, r[j]) {
          if j > 0 { LessTransitive(x, r[0], r[j]); }
        }
      }
      [x] + r
    else
      LessTotal(x, r[0]);
      var tail := Insert(r[1..], x);
      assert forall j :: 0 <= j < |tail| ==> Less(r[0], tail[j]) by {
        forall j | 0 <= j < |tail| ensures Less(r[0], tail[j]) {
          assert tail[j] in r[1..] || tail[j] == x;
        }
      }
      [r[0]] + tail
  }

  /** Python's `sorted(list(s))` for a set of strings. */
  method SortStrings(s: set<string>) returns (r: seq<string>)
    ensures StrictlySorted(r) && |r| == |s|
    ensures forall x :: x in r <==> x in s
  {
    r := [];
    var rest := s;
    while rest != {}
      invariant StrictlySorted(r)
      invariant forall x :: x in s <==> x in r || x in rest
      invariant forall x :: x in r ==> x !in rest
      invariant |r| + |rest| == |s|
      decreases |rest|
    {
      var x :| x in rest;
      r := Insert(r, x);
      rest := rest - {x};
    }
  }

  // ---------------------------------------------------------------------
  // Fonts
  // ---------------------------------------------------------------------

  /** Generic families and CSS keywords that never count as fonts (compared lowercased). */
  const GenericFamilies: set<string> :=
    {"inherit", "initial", "unset", "serif", "sans-serif", "monospace", "cursive", "fantasy", "system-ui"}

  /**
   * The `font-family\s*:\s*(...)` match at `i` (case ignored). With `rule`
   * the value class is `[^;}]+` and a `;` or `}` must follow
   * (`extract_fonts_from_css`); without it the class is `[^;]+` and nothing
   * need follow (`extract_fonts_from_inline_styles`). Returns the captured
   * group and the index where the search resumes. When the value is all
   * whitespace, the greedy `\s*` gives back its last character to the group.
   */
  function FontDeclAt(s: string, i: nat, rule: bool): (r: Option<(string, nat)>)
    ensures r.Some? ==> i < r.value.1 <= |s|
    ensures r.Some? && rule ==> s[r.value.1 - 1] == ';' || s[r.value.1 - 1] == '}'
    ensures r.Some? ==> r.value.0 != [] && Contains(s, r.value.0)
  {
    if !AtIgnoringCase(s, i, "font-family") then None
    else
      var a := SkipSpaces(s, i + 11);
      if a >= |s| || s[a] != ':' then None
      else
        var b := a + 1;
        var k := RunEnd(s, b, if rule then {';', '}'} else {';'});
        if k == b || (rule && k == |s|) then None
        else
          var c := SkipSpaces(s, b);
          var group := if c < k then s[c..k] else s[k - 1..k];
          ContainsSlice(s, if c < k then c else k - 1, k);
          Some((group, if rule then k + 1 else k))
  }

  /** `re.findall(pattern, s, re.IGNORECASE)` for the font pattern, from `i`. */
  function FontGroupsFrom(s: string, i: nat, rule: bool): (r: seq<string>)
    decreases |s| - i
    ensures forall k :: 0 <= k < |r| ==> r[k] != [] && Contains(s, r[k])
  {
    if i >= |s| then []
    else match FontDeclAt(s, i, rule)
      case Some((g, e)) => [g] + FontGroupsFrom(s, e, rule)
      case None => FontGroupsFrom(s, i + 1, rule)
  }

  function CssFontGroups(css: string): seq<string> { FontGroupsFrom(css, 0, true) }

  function InlineFontGroups(style: string): seq<string> { FontGroupsFrom(style, 0, false) }

  /** `font.strip().strip("'").strip('"')`. */
  function CleanFontName(piece: string): (r: string)
    ensures r == [] || (r[0] != '"' && r[|r| - 1] != '"')
  {
    StripChar(StripChar(Strip(piece), '\''), '"')
  }

  predicate IsGeneric(name: string) {
    Lower(name) in GenericFamilies
  }

  /** The name one comma-separated piece contributes: none when it is generic. */
  function KeptName(piece: string): set<string> {
    var name := CleanFontName(piece);
    if IsGeneric(name) then {} else {name}
  }

  /** The names kept from the comma-separated pieces of one declaration. */
  function FontsOfPieces(pieces: seq<string>): set<string> {
    UnionOver(pieces, KeptName)
  }

  /** The names one `findall` match (a declaration's value) contributes. */
  function GroupFonts(group: string): set<string> {
    FontsOfPieces(Split(group, ','))
  }

  function FontsOfGroups(groups: seq<string>): set<string> {
    UnionOver(groups, GroupFonts)
  }

  /** The font names of one inline `style` value (none unless it mentions font-family). */
  function StyleFonts(style: string): set<string> {
    if Contains(Lower(style), "font-family") then FontsOfGroups(InlineFontGroups(style)) else {}
  }

  /** The elements `soup.find_all(style=True)` returns. */
  function StyledElements(doc: Node): seq<Node> {
    Filter(Descendants(doc), (e: Node) => Get(e, "style").Some?)
  }

  /** The font names of one element's `style` attribute. */
  function ElementFonts(e: Node): set<string> {
    if Get(e, "style").Some? then StyleFonts(Get(e, "style").value) else {}
  }

  function FontsOfStyled(els: seq<Node>): set<string> {
    UnionOver(els, ElementFonts)
  }

  /** `if font.lower() not in {...}: fonts.add(font)`. */
  method AddUnlessGeneric(fonts: set<string>, font: string) returns (r: set<string>)
    ensures r == fonts + (if IsGeneric(font) then {} else {font})
  {
    r := fonts;
    if !IsGeneric(font) {
      r := r + {font};
    }
  }

  /** The loop over `match.split(',')` that both font extractors share. */
  method FontsOfDeclaration(pieces: seq<string>) returns (fonts: set<string>)
    ensures fonts == FontsOfPieces(pieces)
  {
    fonts := {};
    for pk := 0 to |pieces|
      invariant fonts == FontsOfPieces(pieces[..pk])
    {
      var font := CleanFontName(pieces[pk]);
      UnionOverSnoc(pieces, KeptName, pk);
      fonts := AddUnlessGeneric(fonts, font);
    }
    assert pieces[..|pieces|] == pieces;
  }

  /** The loop over the `findall` matches that both font extractors share. */
  method FontsOfDeclarations(groups: seq<string>) returns (fonts: set<string>)
    ensures fonts == FontsOfGroups(groups)
  {
    fonts := {};
    for mi := 0 to |groups|
      invariant fonts == FontsOfGroups(groups[..mi])
    {
      var pieces := Split(groups[mi], ',');
      var found := FontsOfDeclaration(pieces);
      UnionOverSnoc(groups, GroupFonts, mi);
      fonts := fonts + found;
    }
    assert groups[..|groups|] == groups;
  }

  /** `extract_fonts_from_css`. */
  method ExtractFontsFromCss(css: string) returns (fonts: set<string>)
    ensures fonts == FontsOfGroups(CssFontGroups(css))
  {
    fonts := FontsOfDeclarations(CssFontGroups(css));
  }

  /** `extract_fonts_from_inline_styles`. */
  method ExtractFontsFromInlineStyles(doc: Node) returns (fonts: set<string>)
    ensures fonts == FontsOfStyled(StyledElements(doc))
  {
    fonts := {};
    var elements := StyledElements(doc);
    for ei := 0 to |elements|
      invariant fonts == FontsOfStyled(elements[..ei])
    {
      var attr := Get(elements[ei], "style");
      UnionOverSnoc(elements, ElementFonts, ei);
      if attr.Some? && Contains(Lower(attr.value), "font-family") {
        var found := FontsOfDeclarations(InlineFontGroups(attr.value));
        fonts := fonts + found;
      }
    }
    assert elements[..|elements|] == elements;
  }

  /** The font list of the design context: both passes unioned and sorted. */
  method DesignFonts(css: string, doc: Node) returns (fonts: seq<string>)
    ensures StrictlySorted(fonts)
    ensures forall f :: f in fonts <==> f in FontsOfGroups(CssFontGroups(css)) || f in FontsOfStyled(StyledElements(doc))
  {
    var fromCss := ExtractFontsFromCss(css);
    var fromInline := ExtractFontsFromInlineStyles(doc);
    fonts := SortStrings(fromCss + fromInline);
  }
}
