/**
 * What the style analysers promise, proved over the scanners of
 * `StyleAnalysis`: every colour is a lowercase `#` hex code, colours come
 * only from the values of the listed properties, `rgb()`/`rgba()` channels
 * are rendered with `{:02x}` and the alpha is ignored, hex literals are
 * only lowercased, and no generic family ever survives as a font name.
 */
module StyleLaws {
  import opened Text
  import opened Dom
  import opened StyleAnalysis

  // ---------------------------------------------------------------------
  // The shape of a colour
  // ---------------------------------------------------------------------

  /** '#' followed by at least three hex digits of either case. */
  predicate IsHexText(c: string) {
    |c| >= 4 && c[0] == '#' && forall j :: 1 <= j < |c| ==> IsHexDigit(c[j])
  }

  /** '#' followed by at least three lowercase hex digits. */
  predicate IsHexColor(c: string) {
    |c| >= 4 && c[0] == '#' && forall j :: 1 <= j < |c| ==> c[j] in HexAlphabet
  }

  lemma LowerHexDigit(ch: char)
    requires IsHexDigit(ch)
    ensures LowerChar(ch) in HexAlphabet
  {
    if IsDigit(ch) {
      assert HexAlphabet[ch as int - '0' as int] == ch;
    } else if 'a' <= ch <= 'f' {
      assert HexAlphabet[ch as int - 'a' as int + 10] == ch;
    } else {
      assert HexAlphabet[ch as int - 'A' as int + 10] == LowerChar(ch);
    }
  }

  /** Lowercasing a hex text gives a colour in the form the palette holds. */
  lemma LowerHexText(c: string)
    requires IsHexText(c)
    ensures IsHexColor(Lower(c))
  {
    forall j | 1 <= j < |c| ensures Lower(c)[j] in HexAlphabet {
      LowerHexDigit(c[j]);
    }
  }

  lemma HexDigitsAreHex(s: string)
    requires forall k :: 0 <= k < |s| ==> s[k] in HexAlphabet
    ensures forall k :: 0 <= k < |s| ==> IsHexDigit(s[k])
  {
    forall k | 0 <= k < |s| ensures IsHexDigit(s[k]) {
      var x := s[k];
      assert exists m :: 0 <= m < 16 && HexAlphabet[m] == x;
    }
  }

  /** `{:02x}` gives at least two lowercase hex digits, for every channel value. */
  lemma Hex2Shape(n: nat)
    ensures |Hex2(n)| >= 2 && forall k :: 0 <= k < |Hex2(n)| ==> Hex2(n)[k] in HexAlphabet
  {
    if n >= 16 {
      assert |HexDigits(n / 16)| >= 1;
    } else {
      assert "0"[0] == HexAlphabet[0];
    }
  }

  /** Each formatted channel is at least two hex digits. */
  lemma Hex2Digits(n: nat)
    ensures |Hex2(n)| >= 2 && forall k :: 0 <= k < |Hex2(n)| ==> IsHexDigit(Hex2(n)[k])
  {
    Hex2Shape(n);
    HexDigitsAreHex(Hex2(n));
  }

  lemma HexTripleShape(r: nat, g: nat, b: nat)
    ensures IsHexText(HexTriple(r, g, b))
  {
    Hex2Digits(r);
    Hex2Digits(g);
    Hex2Digits(b);
    HashThree(Hex2(r), Hex2(g), Hex2(b));
  }

  /** `#` and three runs of at least two hex digits make a hex text. */
  lemma HashThree(x: string, y: string, z: string)
    requires |x| >= 2 && forall k :: 0 <= k < |x| ==> IsHexDigit(x[k])
    requires |y| >= 2 && forall k :: 0 <= k < |y| ==> IsHexDigit(y[k])
    requires |z| >= 2 && forall k :: 0 <= k < |z| ==> IsHexDigit(z[k])
    ensures IsHexText("#" + x + y + z)
  {
    var h := "#" + x + y + z;
    forall j | 1 <= j < |h| ensures IsHexDigit(h[j]) {
      if j <= |x| {
        assert h[j] == x[j - 1];
      } else if j <= |x| + |y| {
        assert h[j] == y[j - 1 - |x|];
      } else {
        assert h[j] == z[j - 1 - |x| - |y|];
      }
    }
  }

  lemma ColorAtShape(p: ColorPattern, v: string, i: nat)
    requires i <= |v| && ColorAt(p, v, i).Some?
    ensures IsHexText(ColorAt(p, v, i).value.0)
  {
    match p
    case ShortHex =>
      var c := v[i..i + 4];
      assert forall j :: 1 <= j < 4 ==> c[j] == v[i + j];
    case LongHex =>
      var c := v[i..i + 7];
      assert forall j :: 1 <= j < 7 ==> c[j] == v[i + j];
    case Rgb =>
      var cs := NumberListAt(v, i + 4, 3).value.0;
      HexTripleShape(cs[0], cs[1], cs[2]);
    case Rgba =>
      var cs := NumberListAt(v, i + 5, 3).value.0;
      HexTripleShape(cs[0], cs[1], cs[2]);
  }

  lemma {:induction false} PatternMatchesShape(p: ColorPattern, v: string, i: nat)
    requires i <= |v|
    decreases |v| - i
    ensures forall x :: x in PatternMatchesFrom(p, v, i) ==> IsHexText(x)
  {
    if i < |v| {
      match ColorAt(p, v, i)
      case Some((c, e)) =>
        ColorAtShape(p, v, i);
        PatternMatchesShape(p, v, e);
      case None =>
        PatternMatchesShape(p, v, i + 1);
    }
  }

  lemma {:induction false} LowerAllShape(xs: seq<string>)
    requires forall x :: x in xs ==> IsHexText(x)
    ensures forall c :: c in LowerAll(xs) ==> IsHexColor(c)
  {
    if xs != [] {
      LowerAllShape(xs[..|xs| - 1]);
      LowerHexText(xs[|xs| - 1]);
    }
  }

  lemma {:induction false} PatternsShape(ps: seq<ColorPattern>, v: string, hexKept: bool)
    ensures forall c :: c in ColorsOfPatterns(ps, v, hexKept) ==> IsHexColor(c)
  {
    if ps != [] {
      PatternsShape(ps[..|ps| - 1], v, hexKept);
      PatternMatchesShape(ps[|ps| - 1], v, 0);
      LowerAllShape(PatternMatches(ps[|ps| - 1], v));
    }
  }

  lemma {:induction false} ValuesShape(vs: seq<string>, hexKept: bool)
    ensures forall c :: c in ColorsOfValues(vs, hexKept) ==> IsHexColor(c)
  {
    if vs != [] {
      ValuesShape(vs[..|vs| - 1], hexKept);
      PatternsShape(ColorPatterns, vs[|vs| - 1], hexKept);
    }
  }

  lemma {:induction false} PropertiesShape(css: string, props: seq<string>, hexKept: bool)
    requires forall k :: 0 <= k < |props| ==> props[k] != []
    ensures forall c :: c in ColorsOfProperties(css, props, hexKept) ==> IsHexColor(c)
  {
    if props != [] {
      PropertiesShape(css, props[..|props| - 1], hexKept);
      ValuesShape(PropertyValues(css, props[|props| - 1]), hexKept);
    }
  }

  /** Every colour `extract_colors_from_css` can return is `#` and lowercase hex digits. */
  lemma FoundColorsAreHex(css: string)
    ensures forall c :: c in FoundColors(css) ==> IsHexColor(c)
  {
    ColorPropertiesNamed();
    PropertiesShape(css, ColorProperties, true);
  }

  // ---------------------------------------------------------------------
  // The hex converters as written
  // ---------------------------------------------------------------------

  lemma RgbMatchLength(p: ColorPattern, v: string, i: nat)
    requires i <= |v| && (p == Rgb || p == Rgba) && ColorAt(p, v, i).Some?
    ensures |ColorAt(p, v, i).value.0| >= 7
  {
    var cs := if p == Rgb then NumberListAt(v, i + 4, 3).value.0 else NumberListAt(v, i + 5, 3).value.0;
    Hex2Shape(cs[0]);
    Hex2Shape(cs[1]);
    Hex2Shape(cs[2]);
  }

  lemma {:induction false} RgbMatchesLength(p: ColorPattern, v: string, i: nat)
    requires i <= |v| && (p == Rgb || p == Rgba)
    decreases |v| - i
    ensures forall x :: x in PatternMatchesFrom(p, v, i) ==> |x| >= 7
  {
    if i < |v| {
      match ColorAt(p, v, i)
      case Some((c, e)) =>
        RgbMatchLength(p, v, i);
        RgbMatchesLength(p, v, e);
      case None =>
        RgbMatchesLength(p, v, i + 1);
    }
  }

  lemma {:induction false} LowerAllLength(xs: seq<string>)
    requires forall x :: x in xs ==> |x| >= 7
    ensures forall c :: c in LowerAll(xs) ==> |c| >= 7
  {
    if xs != [] {
      LowerAllLength(xs[..|xs| - 1]);
    }
  }

  lemma {:induction false} AsWrittenPatternsLength(ps: seq<ColorPattern>, v: string)
    ensures forall c :: c in ColorsOfPatterns(ps, v, false) ==> |c| >= 7
  {
    if ps != [] {
      AsWrittenPatternsLength(ps[..|ps| - 1], v);
      var p := ps[|ps| - 1];
      if p == Rgb || p == Rgba {
        RgbMatchesLength(p, v, 0);
        LowerAllLength(PatternMatches(p, v));
      }
    }
  }

  lemma {:induction false} AsWrittenValuesLength(vs: seq<string>)
    ensures forall c :: c in ColorsOfValues(vs, false) ==> |c| >= 7
  {
    if vs != [] {
      AsWrittenValuesLength(vs[..|vs| - 1]);
      AsWrittenPatternsLength(ColorPatterns, vs[|vs| - 1]);
    }
  }

  lemma {:induction false} AsWrittenPropertiesLength(css: string, props: seq<string>)
    requires forall k :: 0 <= k < |props| ==> props[k] != []
    ensures forall c :: c in ColorsOfProperties(css, props, false) ==> |c| >= 7
  {
    if props != [] {
      AsWrittenPropertiesLength(css, props[..|props| - 1]);
      AsWrittenValuesLength(PropertyValues(css, props[|props| - 1]));
    }
  }

  /**
   * As written, every colour comes from the `rgb()`/`rgba()` converter, so
   * it has at least six digits: a 3-digit hex literal can never be reported.
   */
  lemma AsWrittenOnlyRgbColors(css: string)
    ensures forall c :: c in FoundColorsAsWritten(css) ==> |c| >= 7
  {
    ColorPropertiesNamed();
    AsWrittenPropertiesLength(css, ColorProperties);
  }

  /** The value `#ABC` gives `#abc` with the converter evidently intended, and nothing like it as written. */
  lemma ShortHexFinding(v: string)
    requires v == "#ABC"
    ensures "#abc" in ValueColors(v)
    ensures "#abc" !in ValueColorsAsWritten(v)
  {
    ShortHexExample(v);
    assert ColorPatterns[..1] == [ShortHex];
    assert ColorsOfPatterns(ColorPatterns[..1], v, true) == LowerAll(PatternMatches(ShortHex, v));
    ColorsOfPatternsGrow(ColorPatterns, v, 1);
    AsWrittenPatternsLength(ColorPatterns, v);
  }

  lemma {:induction false} ColorsOfPatternsGrow(ps: seq<ColorPattern>, v: string, k: nat)
    requires k <= |ps|
    decreases |ps| - k
    ensures ColorsOfPatterns(ps[..k], v, true) <= ColorsOfPatterns(ps, v, true)
  {
    if k < |ps| {
      assert ps[..k + 1][..k] == ps[..k];
      ColorsOfPatternsGrow(ps, v, k + 1);
    } else {
      assert ps[..k] == ps;
    }
  }

  // ---------------------------------------------------------------------
  // Where colours come from
  // ---------------------------------------------------------------------

  lemma {:induction false} ValuesSource(vs: seq<string>, c: string)
    requires c in ColorsOfValues(vs, true)
    ensures exists k :: 0 <= k < |vs| && c in ValueColors(vs[k])
  {
    var init := vs[..|vs| - 1];
    if c in ColorsOfValues(init, true) {
      ValuesSource(init, c);
      var k :| 0 <= k < |init| && c in ValueColors(init[k]);
      assert vs[k] == init[k];
    } else {
      assert c in ValueColors(vs[|vs| - 1]);
    }
  }

  lemma {:induction false} PropertiesSource(css: string, props: seq<string>, c: string)
    requires forall k :: 0 <= k < |props| ==> props[k] != []
    requires c in ColorsOfProperties(css, props, true)
    ensures exists k, m ::
      (0 <= k < |props| && 0 <= m < |PropertyValues(css, props[k])| &&
       c in ValueColors(PropertyValues(css, props[k])[m]))
  {
    var init := props[..|props| - 1];
    if c in ColorsOfProperties(css, init, true) {
      PropertiesSource(css, init, c);
      var k, m :| 0 <= k < |init| && 0 <= m < |PropertyValues(css, init[k])| &&
        c in ValueColors(PropertyValues(css, init[k])[m]);
      assert props[k] == init[k];
    } else {
      ValuesSource(PropertyValues(css, props[|props| - 1]), c);
    }
  }

  /**
   * Only the text after a listed property name, up to the next ';' or '}',
   * is searched: every colour found lies in such a value of `css`.
   */
  lemma FoundColorsScoped(css: string, c: string)
    requires c in FoundColors(css)
    ensures exists k, v :: (
      && 0 <= k < |ColorProperties|
      && Contains(css, v)
      && |ColorProperties[k]| < |v|
      && Lower(v[..|ColorProperties[k]|]) == ColorProperties[k]
      && (forall j :: |ColorProperties[k]| <= j < |v| ==> v[j] != ';' && v[j] != '}')
      && c in ValueColors(v))
  {
    ColorPropertiesNamed();
    PropertiesSource(css, ColorProperties, c);
    var k, m :| 0 <= k < |ColorProperties| && 0 <= m < |PropertyValues(css, ColorProperties[k])| &&
      c in ValueColors(PropertyValues(css, ColorProperties[k])[m]);
    var v := PropertyValues(css, ColorProperties[k])[m];
    assert Contains(css, v) && c in ValueColors(v);
  }

  lemma {:induction false} PropertyValuesAbsent(css: string, prop: string, i: nat)
    requires prop != []
    requires forall j :: i <= j <= |css| ==> !AtIgnoringCase(css, j, prop)
    decreases |css| - i
    ensures PropertyValuesFrom(css, prop, i) == []
  {
    if i + |prop| <= |css| {
      PropertyValuesAbsent(css, prop, i + 1);
    }
  }

  lemma {:induction false} PropertiesAbsent(css: string, props: seq<string>)
    requires forall k :: 0 <= k < |props| ==> props[k] != []
    requires forall k, j :: 0 <= k < |props| && 0 <= j <= |css| ==> !AtIgnoringCase(css, j, props[k])
    ensures ColorsOfProperties(css, props, true) == {}
  {
    if props != [] {
      PropertiesAbsent(css, props[..|props| - 1]);
      PropertyValuesAbsent(css, props[|props| - 1], 0);
    }
  }

  /** A stylesheet that names none of the listed properties yields no colour at all. */
  lemma NoPropertyNoColors(css: string)
    requires forall k, j :: 0 <= k < |ColorProperties| && 0 <= j <= |css| ==> !AtIgnoringCase(css, j, ColorProperties[k])
    ensures FoundColors(css) == {}
  {
    ColorPropertiesNamed();
    PropertiesAbsent(css, ColorProperties);
  }

  // ---------------------------------------------------------------------
  // rgb() and rgba()
  // ---------------------------------------------------------------------

  // Results holding strings are stated component by component: an
  // equation between whole `Some((text, index))` values makes the verifier
  // compare the texts character by character.

  lemma {:induction false} DigitsFromRun(v: string, a: nat, k: nat, e: nat)
    requires a <= k <= e <= |v|
    requires forall t :: a <= t < e ==> IsDigit(v[t])
    requires e == |v| || !IsDigit(v[e])
    decreases e - k
    ensures DigitsFrom(v, k, DecimalValue(v[a..k])) == (DecimalValue(v[a..e]), e)
  {
    if k < e {
      assert v[a..k + 1][..k - a] == v[a..k];
      DigitsFromRun(v, a, k + 1, e);
    }
  }

  lemma {:induction false} DigitsDotsEndRun(v: string, k: nat, e: nat)
    requires k <= e <= |v|
    requires forall t :: k <= t < e ==> IsDigit(v[t]) || v[t] == '.'
    requires e == |v| || !(IsDigit(v[e]) || v[e] == '.')
    decreases e - k
    ensures DigitsDotsEnd(v, k) == e
  {
    if k < e {
      DigitsDotsEndRun(v, k + 1, e);
    }
  }

  lemma DigitNotSpace(c: char)
    requires IsDigit(c) || c == '.' || c == ',' || c == ')' || c == ':' || ('A' <= c <= 'Z')
    ensures !IsSpace(c)
  {
  }

  /** `\s*(\d+)\s*` on a run of digits closed by ',' or ')' reads `int()` of the run. */
  lemma NumberAtDigits(v: string, i: nat, e: nat)
    requires i < e < |v| && forall t :: i <= t < e ==> IsDigit(v[t])
    requires v[e] == ',' || v[e] == ')'
    ensures NumberAt(v, i) == Some((DecimalValue(v[i..e]), e))
  {
    DigitNotSpace(v[i]);
    assert SkipSpaces(v, i) == i;
    DigitNotSpace(v[e]);
    assert v[i..i] == [];
    DigitsFromRun(v, i, i, e);
    assert SkipSpaces(v, e) == e;
  }

  lemma NumberListAtOne(v: string, i: nat, x: nat, j: nat)
    requires i <= |v| && NumberAt(v, i) == Some((x, j))
    ensures NumberListAt(v, i, 1) == Some(([x], j))
  {
  }

  lemma NumberListAtStep(v: string, i: nat, n: nat, x: nat, j: nat, ys: seq<nat>, e: nat)
    requires i <= |v| && n >= 2 && NumberAt(v, i) == Some((x, j)) && j < |v| && v[j] == ','
    requires NumberListAt(v, j + 1, n - 1) == Some((ys, e))
    ensures NumberListAt(v, i, n) == Some(([x] + ys, e))
  {
  }

  /** Three numbers, each followed by a comma but the last, read as a list of three. */
  lemma ThreeNumbers(v: string, p: nat, q: nat, r: nat, e: nat, x: nat, y: nat, z: nat)
    requires p < q && q < r && r <= |v|
    requires NumberAt(v, p) == Some((x, q - 1)) && v[q - 1] == ','
    requires NumberAt(v, q) == Some((y, r - 1)) && v[r - 1] == ','
    requires NumberAt(v, r) == Some((z, e))
    ensures NumberListAt(v, p, 3) == Some(([x, y, z], e))
  {
    NumberListAtOne(v, r, z, e);
    NumberListAtStep(v, q, 2, y, r - 1, [z], e);
    assert [y] + [z] == [y, z];
    NumberListAtStep(v, p, 3, x, q - 1, [y, z], e);
    assert [x] + [y, z] == [x, y, z];
  }

  /** Three comma-separated digit runs, the last closed by ',' or ')'. */
  lemma ChannelRuns(v: string, p: nat, q: nat, r: nat, e: nat)
    requires p < q - 1 && q < r - 1 && r < e < |v|
    requires forall t :: p <= t < e && t != q - 1 && t != r - 1 ==> IsDigit(v[t])
    requires v[q - 1] == ',' && v[r - 1] == ',' && (v[e] == ',' || v[e] == ')')
    ensures NumberListAt(v, p, 3) ==
      Some(([DecimalValue(v[p..q - 1]), DecimalValue(v[q..r - 1]), DecimalValue(v[r..e])], e))
  {
    var x, y, z := DecimalValue(v[p..q - 1]), DecimalValue(v[q..r - 1]), DecimalValue(v[r..e]);
    assert forall t :: p <= t < q - 1 ==> IsDigit(v[t]);
    NumberAtDigits(v, p, q - 1);
    assert forall t :: q <= t < r - 1 ==> IsDigit(v[t]);
    NumberAtDigits(v, q, r - 1);
    assert forall t :: r <= t < e ==> IsDigit(v[t]);
    NumberAtDigits(v, r, e);
    ThreeNumbers(v, p, q, r, e, x, y, z);
  }

  lemma RgbAtOfList(v: string, i: nat, cs: seq<nat>, m: nat)
    requires i + 4 <= |v| && StartsWith(v[i..], "rgb(")
    requires NumberListAt(v, i + 4, 3) == Some((cs, m)) && m < |v| && v[m] == ')'
    ensures RgbAt(v, i).Some? && RgbAt(v, i).value.0 == HexTriple(cs[0], cs[1], cs[2])
    ensures RgbAt(v, i).value.1 == m + 1
  {
  }

  /** `rgb(r,g,b)` with digit channels becomes `'#{:02x}{:02x}{:02x}'` of `int()` of each, whatever their size. */
  lemma RgbReadsChannels(v: string, i: nat, q: nat, r: nat, e: nat)
    requires i + 4 < q - 1 && q < r - 1 && r < e < |v|
    requires v[i..i + 4] == "rgb("
    requires forall t :: i + 4 <= t < e && t != q - 1 && t != r - 1 ==> IsDigit(v[t])
    requires v[q - 1] == ',' && v[r - 1] == ',' && v[e] == ')'
    ensures var x, y, z := DecimalValue(v[i + 4..q - 1]), DecimalValue(v[q..r - 1]), DecimalValue(v[r..e]);
      RgbAt(v, i).Some? && RgbAt(v, i).value.0 == HexTriple(x, y, z) && RgbAt(v, i).value.1 == e + 1
  {
    var x, y, z := DecimalValue(v[i + 4..q - 1]), DecimalValue(v[q..r - 1]), DecimalValue(v[r..e]);
    ChannelRuns(v, i + 4, q, r, e);
    assert v[i..][..4] == "rgb(";
    RgbAtOfList(v, i, [x, y, z], e);
  }

  /** `\s*[\d.]+\s*\)` on a run of digits and dots closed by ')'. */
  lemma AlphaEndOfRun(v: string, i: nat, e: nat)
    requires i < e < |v| && forall t :: i <= t < e ==> IsDigit(v[t]) || v[t] == '.'
    requires v[e] == ')'
    ensures AlphaEnd(v, i) == Some(e + 1)
  {
    DigitNotSpace(v[i]);
    assert SkipSpaces(v, i) == i;
    DigitsDotsEndRun(v, i, e);
    DigitNotSpace(v[e]);
    assert SkipSpaces(v, e) == e;
  }

  /**
   * `rgba(r,g,b,a)` gives the colour `rgb(r,g,b)` would: the alpha, any
   * text `AlphaEnd` accepts (by AlphaEndOfRun, any run of digits and dots
   * closed by ')'), is read and dropped.
   */
  lemma RgbaReadsChannels(v: string, i: nat, q: nat, r: nat, e: nat)
    requires i + 5 < q - 1 && q < r - 1 && r < e < |v|
    requires v[i..i + 5] == "rgba("
    requires forall t :: i + 5 <= t < e && t != q - 1 && t != r - 1 ==> IsDigit(v[t])
    requires v[q - 1] == ',' && v[r - 1] == ',' && v[e] == ','
    requires AlphaEnd(v, e + 1).Some?
    ensures var x, y, z := DecimalValue(v[i + 5..q - 1]), DecimalValue(v[q..r - 1]), DecimalValue(v[r..e]);
      RgbaAt(v, i).Some? && RgbaAt(v, i).value.0 == HexTriple(x, y, z)
  {
    var x, y, z := DecimalValue(v[i + 5..q - 1]), DecimalValue(v[q..r - 1]), DecimalValue(v[r..e]);
    ChannelRuns(v, i + 5, q, r, e);
    assert v[i..][..5] == "rgba(";
    RgbaAtOfList(v, i, [x, y, z], e);
  }

  lemma RgbaAtOfList(v: string, i: nat, cs: seq<nat>, m: nat)
    requires i + 5 <= |v| && StartsWith(v[i..], "rgba(")
    requires NumberListAt(v, i + 5, 3) == Some((cs, m)) && m < |v| && v[m] == ','
    requires AlphaEnd(v, m + 1).Some?
    ensures RgbaAt(v, i).Some? && RgbaAt(v, i).value.0 == HexTriple(cs[0], cs[1], cs[2])
  {
  }

  lemma HexTripleExample()
    ensures HexTriple(12, 34, 56) == "#0c2238"
  {
    assert Hex2(12) == "0c" && Hex2(34) == "22" && Hex2(56) == "38";
  }

  lemma ChannelValuesExample()
    ensures DecimalValue("12") == 12 && DecimalValue("34") == 34 && DecimalValue("56") == 56
  {
  }

  /** `rgb(12,34,56)` becomes `#0c2238`. */
  lemma RgbExample(v: string)
    requires v == "rgb(12,34,56)"
    ensures RgbAt(v, 0).Some? && RgbAt(v, 0).value.0 == "#0c2238"
  {
    assert v[..4] == "rgb(";
    assert forall t :: 4 <= t < 12 && t != 6 && t != 9 ==> IsDigit(v[t]);
    assert v[4..6] == "12" && v[7..9] == "34" && v[10..12] == "56";
    RgbReadsChannels(v, 0, 7, 10, 12);
    ChannelValuesExample();
    HexTripleExample();
  }

  /** `rgba(12,34,56,0.5)` becomes `#0c2238` too. */
  lemma RgbaExample(w: string)
    requires w == "rgba(12,34,56,0.5)"
    ensures RgbaAt(w, 0).Some? && RgbaAt(w, 0).value.0 == "#0c2238"
  {
    assert w[..5] == "rgba(";
    assert forall t :: 5 <= t < 13 && t != 7 && t != 10 ==> IsDigit(w[t]);
    assert forall t :: 13 < t < 17 ==> IsDigit(w[t]) || w[t] == '.';
    assert w[5..7] == "12" && w[8..10] == "34" && w[11..13] == "56";
    AlphaEndOfRun(w, 14, 17);
    RgbaReadsChannels(w, 0, 8, 11, 13);
    ChannelValuesExample();
    HexTripleExample();
  }

  /** A channel above 255 is not clamped: `{:02x}` simply writes more digits. */
  lemma WideChannelExample()
    ensures HexTriple(256, 0, 0) == "#1000000"
  {
    assert HexDigits(256) == "100";
  }

  /** A 3-digit hex literal is lowercased but not expanded to six digits. */
  lemma ShortHexExample(v: string)
    requires v == "#ABC"
    ensures LowerAll(PatternMatches(ShortHex, v)) == {"#abc"}
  {
    assert HexAt(v, 0, 3);
    assert v[0..4] == v;
    assert ColorAt(ShortHex, v, 0).Some? && ColorAt(ShortHex, v, 0).value.1 == 4;
    assert ColorAt(ShortHex, v, 0).value.0 == v;
    assert PatternMatchesFrom(ShortHex, v, 4) == [];
    assert PatternMatches(ShortHex, v) == [v];
    var l := Lower(v);
    assert |l| == 4 && l[0] == '#' && l[1] == 'a' && l[2] == 'b' && l[3] == 'c';
    assert l == "#abc";
    assert LowerAll([v]) == LowerAll([]) + {l};
  }

  // ---------------------------------------------------------------------
  // Fonts
  // ---------------------------------------------------------------------

  /** A piece contributes its cleaned name, unless that name is generic. */
  lemma KeptNameExactly(piece: string, f: string)
    ensures f in KeptName(piece) <==> f == CleanFontName(piece) && !IsGeneric(f)
  {
  }

  /** A declaration yields exactly the cleaned names of its pieces that are not generic. */
  lemma FontsOfPiecesExactly(pieces: seq<string>, f: string)
    ensures f in FontsOfPieces(pieces) <==>
      exists m :: 0 <= m < |pieces| && f == CleanFontName(pieces[m]) && !IsGeneric(f)
  {
    UnionOverExactly(pieces, KeptName, f);
    if f in FontsOfPieces(pieces) {
      var m :| 0 <= m < |pieces| && f in KeptName(pieces[m]);
      KeptNameExactly(pieces[m], f);
    }
    if m :| 0 <= m < |pieces| && f == CleanFontName(pieces[m]) && !IsGeneric(f) {
      KeptNameExactly(pieces[m], f);
    }
  }

  /** A list of declarations yields exactly what its comma-split declarations yield. */
  lemma FontsOfGroupsExactly(groups: seq<string>, f: string)
    ensures f in FontsOfGroups(groups) <==>
      exists k :: 0 <= k < |groups| && f in FontsOfPieces(Split(groups[k], ','))
  {
    UnionOverExactly(groups, GroupFonts, f);
  }

  /** No generic family or CSS-wide keyword is ever returned, whatever its case. */
  lemma FontsOfGroupsNotGeneric(groups: seq<string>, f: string)
    requires f in FontsOfGroups(groups)
    ensures !IsGeneric(f)
  {
    FontsOfGroupsExactly(groups, f);
    var k :| 0 <= k < |groups| && f in FontsOfPieces(Split(groups[k], ','));
    FontsOfPiecesExactly(Split(groups[k], ','), f);
  }

  lemma FontsOfStyledNotGeneric(els: seq<Node>, f: string)
    requires f in FontsOfStyled(els)
    ensures !IsGeneric(f)
  {
    UnionOverExactly(els, ElementFonts, f);
    var k :| 0 <= k < |els| && f in ElementFonts(els[k]);
    FontsOfGroupsNotGeneric(InlineFontGroups(Get(els[k], "style").value), f);
  }

  /** The design context's font list never holds a generic family. */
  lemma DesignFontsNotGeneric(css: string, doc: Node, f: string)
    requires f in FontsOfGroups(CssFontGroups(css)) || f in FontsOfStyled(StyledElements(doc))
    ensures !IsGeneric(f)
  {
    if f in FontsOfGroups(CssFontGroups(css)) {
      FontsOfGroupsNotGeneric(CssFontGroups(css), f);
    } else {
      FontsOfStyledNotGeneric(StyledElements(doc), f);
    }
  }

  /** In a stylesheet, a declaration that no ';' or '}' closes is not a match. */
  lemma {:induction false} CssDeclarationNeedsTerminator(s: string, i: nat)
    requires forall j :: 0 <= j < |s| ==> s[j] != ';' && s[j] != '}'
    decreases |s| - i
    ensures FontGroupsFrom(s, i, true) == []
  {
    if i < |s| {
      assert FontDeclAt(s, i, true).None?;
      CssDeclarationNeedsTerminator(s, i + 1);
    }
  }

  lemma {:induction false} RunEndOfRun(s: string, i: nat, k: nat, stops: set<char>)
    requires i <= k <= |s|
    requires forall t :: i <= t < k ==> s[t] !in stops
    requires k == |s| || s[k] in stops
    decreases k - i
    ensures RunEnd(s, i, stops) == k
  {
    if i < k {
      RunEndOfRun(s, i + 1, k, stops);
    }
  }

  /**
   * A declaration `font-family` (any case), optional whitespace, ':',
   * optional whitespace, then a value that starts at `c` with a non-space
   * character and runs to index `k`: the group is that value. In a
   * stylesheet a ';' or '}' must stand at `k` and the search resumes after
   * it; inline, the value runs to the next ';' or to the end, and the search
   * resumes at `k`.
   */
  lemma FontDeclReads(s: string, i: nat, a: nat, c: nat, k: nat, rule: bool)
    requires AtIgnoringCase(s, i, "font-family")
    requires i + 11 <= a < c < k <= |s| && s[a] == ':'
    requires forall t :: i + 11 <= t < a ==> IsSpace(s[t])
    requires forall t :: a + 1 <= t < c ==> IsSpace(s[t])
    requires !IsSpace(s[c])
    requires forall t :: a + 1 <= t < k ==> s[t] != ';' && (!rule || s[t] != '}')
    requires if rule then k < |s| && (s[k] == ';' || s[k] == '}') else k == |s| || s[k] == ';'
    ensures FontDeclAt(s, i, rule).Some? && FontDeclAt(s, i, rule).value.0 == s[c..k]
    ensures FontDeclAt(s, i, rule).value.1 == if rule then k + 1 else k
  {
    SkipSpacesOfRun(s, i + 11, a);
    var stops := if rule then {';', '}'} else {';'};
    assert forall t :: a + 1 <= t < k ==> s[t] !in stops;
    assert k == |s| || s[k] in stops;
    RunEndOfRun(s, a + 1, k, stops);
    SkipSpacesOfRun(s, a + 1, c);
    FontDeclAtIs(s, i, rule, a, c, k);
  }

  /** `FontDeclAt` once its three scans are known. */
  lemma FontDeclAtIs(s: string, i: nat, rule: bool, a: nat, c: nat, k: nat)
    requires AtIgnoringCase(s, i, "font-family") && i + 11 <= |s|
    requires SkipSpaces(s, i + 11) == a && a < |s| && s[a] == ':'
    requires RunEnd(s, a + 1, if rule then {';', '}'} else {';'}) == k
    requires a + 1 < k && (rule ==> k < |s|)
    requires SkipSpaces(s, a + 1) == c && c < k
    ensures FontDeclAt(s, i, rule) == Some((s[c..k], if rule then k + 1 else k))
  {
  }

  lemma {:induction false} SkipSpacesOfRun(s: string, i: nat, k: nat)
    requires i <= k < |s| && !IsSpace(s[k])
    requires forall t :: i <= t < k ==> IsSpace(s[t])
    decreases k - i
    ensures SkipSpaces(s, i) == k
  {
    if i < k {
      SkipSpacesOfRun(s, i + 1, k);
    }
  }

  /** `font-family:Arial,serif;` in a stylesheet gives the one font `Arial`: the generic `serif` is dropped. */
  lemma CssFontsExample(s: string)
    requires s == "font-family:Arial,serif;"
    ensures FontsOfGroups(CssFontGroups(s)) == {"Arial"}
  {
    var a, b := "Arial", "serif";
    assert s == "font-family:" + a + "," + b + ";";
    ArialSerifRule(a, b);
    ArialKept(a);
    SerifDropped(b);
  }

  lemma ArialSerifRule(a: string, b: string)
    requires a == "Arial" && b == "serif"
    ensures FontsOfGroups(CssFontGroups("font-family:" + a + "," + b + ";")) == KeptName(a) + KeptName(b)
  {
    OneRuleFonts(a, b);
  }

  /** `Arial` is kept as written. */
  lemma ArialKept(a: string)
    requires a == "Arial"
    ensures KeptName(a) == {a}
  {
    CleanPlainName(a);
    ArialNotGeneric(a);
  }

  /** `serif` is a generic family and is dropped. */
  lemma SerifDropped(b: string)
    requires b == "serif"
    ensures KeptName(b) == {}
  {
    CleanPlainName(b);
    SerifGeneric(b);
  }

  /**
   * A stylesheet holding just `font-family:a,b;`, for two names without
   * commas or terminators, yields what the two names contribute.
   */
  lemma OneRuleFonts(a: string, b: string)
    requires a != [] && !IsSpace(a[0])
    requires forall t :: 0 <= t < |a| ==> a[t] != ',' && a[t] != ';' && a[t] != '}'
    requires forall t :: 0 <= t < |b| ==> b[t] != ',' && b[t] != ';' && b[t] != '}'
    ensures FontsOfGroups(CssFontGroups("font-family:" + a + "," + b + ";")) == KeptName(a) + KeptName(b)
  {
    var g := a + "," + b;
    var p := "font-family:";
    var s := p + a + "," + b + ";";
    assert s == p + g + ";" by {
      assert p + a + "," + b == p + (a + "," + b);
    }
    OneRuleGroups(g);
    assert CssFontGroups(s) == [g];
    SingleGroupFonts(g);
    GroupFontsOfTwo(a, b);
  }

  /** The fonts of one declaration are that declaration's names. */
  lemma SingleGroupFonts(g: string)
    ensures FontsOfGroups([g]) == GroupFonts(g)
  {
    assert [g][..0] == [];
    assert FontsOfGroups([g]) == UnionOver([g][..0], GroupFonts) + GroupFonts(g);
  }

  /** `font-family:g;` is read as the one declaration `g`. */
  lemma OneRuleGroups(g: string)
    requires g != [] && !IsSpace(g[0])
    requires forall t :: 0 <= t < |g| ==> g[t] != ';' && g[t] != '}'
    ensures CssFontGroups("font-family:" + g + ";") == [g]
  {
    var p := "font-family:";
    var s := p + g + ";";
    var k := |p| + |g|;
    var name := s[0..11];
    assert name == p[0..11];
    FontFamilyIsLower(name);
    assert s[11] == ':' && s[12] == g[0] && s[k] == ';';
    forall t | 12 <= t < k ensures s[t] != ';' && s[t] != '}' {
      assert s[t] == (p + g)[t] == g[t - 12];
    }
    FontDeclReads(s, 0, 11, 12, k, true);
    assert s[12..k] == g;
    assert FontGroupsFrom(s, k + 1, true) == [];
  }

  lemma FontFamilyIsLower(name: string)
    requires name == "font-family:"[0..11]
    ensures Lower(name) == "font-family"
  {
    assert name == "font-family";
    assert forall i :: 0 <= i < |name| ==> !('A' <= name[i] <= 'Z');
    LowerOfNoUpper(name);
  }

  /** A declaration of two pieces contributes what each piece does. */
  lemma GroupFontsOfTwo(a: string, b: string)
    requires ',' !in a && ',' !in b
    ensures GroupFonts(a + "," + b) == KeptName(a) + KeptName(b)
  {
    SplitAtFirst(a, b, ',');
    SplitNoSeparator(b, ',');
    var ps := [a, b];
    assert Split(a + "," + b, ',') == ps;
    assert ps[..1] == [a] && ps[1] == b && [a][..0] == [];
    assert UnionOver([a], KeptName) == UnionOver([a][..0], KeptName) + KeptName(a);
    assert UnionOver(ps, KeptName) == UnionOver(ps[..1], KeptName) + KeptName(b);
  }

  lemma ArialNotGeneric(a: string)
    requires a == "Arial"
    ensures !IsGeneric(a)
  {
    var l := Lower(a);
    assert l[0] == 'a' && l[1] == 'r' && l[2] == 'i' && l[3] == 'a' && l[4] == 'l';
    assert l !in GenericFamilies by {
      forall g | g in GenericFamilies ensures l != g {
        assert |g| != 5 || g[0] != 'a';
      }
    }
  }

  lemma SerifGeneric(b: string)
    requires b == "serif"
    ensures IsGeneric(b)
  {
    var l := Lower(b);
    assert forall i :: 0 <= i < 5 ==> l[i] == b[i];
    assert l == b;
  }

  /** A name with no whitespace or quote at either end is kept as it is. */
  lemma CleanPlainName(w: string)
    requires w != [] && !IsSpace(w[0]) && !IsSpace(w[|w| - 1])
    requires w[0] != '\'' && w[|w| - 1] != '\'' && w[0] != '"' && w[|w| - 1] != '"'
    ensures CleanFontName(w) == w
  {
    assert TrimStart(w) == w;
    assert TrimEnd(w) == w;
    assert DropLeading(w, '\'') == w && DropTrailing(w, '\'') == w;
    assert DropLeading(w, '"') == w && DropTrailing(w, '"') == w;
  }

  /** Whitespace is stripped before the quotes: ` 'Inter' ` gives `Inter`. */
  lemma CleanFontNameExample()
    ensures CleanFontName(" 'Inter' ") == "Inter"
  {
    assert " 'Inter' "[1..] == "'Inter' ";
    assert TrimStart(" 'Inter' ") == "'Inter' ";
    assert "'Inter' "[..7] == "'Inter'";
    assert TrimEnd("'Inter' ") == "'Inter'";
    assert "'Inter'"[1..] == "Inter'";
    assert DropLeading("'Inter'", '\'') == "Inter'";
    assert "Inter'"[..5] == "Inter";
    assert DropTrailing("Inter'", '\'') == "Inter";
    assert DropLeading("Inter", '"') == "Inter";
    assert DropTrailing("Inter", '"') == "Inter";
  }

  /** Single quotes are stripped before double quotes, so `"'Roboto'"` keeps its single quotes. */
  lemma QuoteOrderExample()
    ensures CleanFontName("\"'Roboto'\"") == "'Roboto'"
  {
    assert Strip("\"'Roboto'\"") == "\"'Roboto'\"";
    assert StripChar("\"'Roboto'\"", '\'') == "\"'Roboto'\"";
  }
}
