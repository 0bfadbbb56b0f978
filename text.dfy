/**
 * Python string operations that the extractors rely on: whitespace as
 * `str.isspace()` and the regex class `\s` see it, `strip`, `lower`,
 * `split`, `join`, `in`, `startswith`, code-point ordering of `str`, and
 * the decimal and `{:02x}` formatting of integers.
 */
module Text {

  datatype Option<+T> = None | Some(value: T)

  /** The characters for which Python's `str.isspace()` holds; `str.strip()`
      removes exactly these and the regex class `\s` matches exactly these. */
  predicate IsSpace(c: char) {
    || c == ' '
    || ('\t' <= c <= '\r')
    || ('\U{1C}' <= c <= '\U{1F}')
    || c == '\U{85}' || c == '\U{A0}' || c == '\U{1680}'
    || ('\U{2000}' <= c <= '\U{200A}')
    || c == '\U{2028}' || c == '\U{2029}' || c == '\U{202F}' || c == '\U{205F}' || c == '\U{3000}'
  }

  /** ASCII digit, the class `\d` as the model reads it. */
  predicate IsDigit(c: char) { '0' <= c <= '9' }

  predicate IsHexDigit(c: char) { IsDigit(c) || ('a' <= c <= 'f') || ('A' <= c <= 'F') }

  /** A character of the regex class `\w` (ASCII reading). */
  predicate IsWordChar(c: char) {
    IsDigit(c) || ('a' <= c <= 'z') || ('A' <= c <= 'Z') || c == '_'
  }

  function LowerChar(c: char): char {
    if 'A' <= c <= 'Z' then (c as int + 32) as char else c
  }

  /** `s.lower()` on the ASCII letters. */
  function Lower(s: string): (r: string)
    ensures |r| == |s|
    ensures forall i :: 0 <= i < |s| ==> r[i] == LowerChar(s[i])
  {
    if s == [] then [] else [LowerChar(s[0])] + Lower(s[1..])
  }

  /** A text without upper-case ASCII letters is its own lower case. */
  lemma LowerOfNoUpper(s: string)
    requires forall i :: 0 <= i < |s| ==> !('A' <= s[i] <= 'Z')
    ensures Lower(s) == s
  {
  }

  lemma {:induction false} LowerIdempotent(s: string)
    ensures Lower(Lower(s)) == Lower(s)
  {
    var l := Lower(s);
    assert forall i :: 0 <= i < |s| ==> Lower(l)[i] == LowerChar(LowerChar(s[i])) == l[i];
  }

  predicate StartsWith(s: string, prefix: string) {
    |prefix| <= |s| && s[..|prefix|] == prefix
  }

  /** The first index k >= from at which `t` occurs in `s`. */
  function FindFrom(s: string, t: string, from: nat): (r: Option<nat>)
    decreases |s| - from
    ensures r.Some? ==> from <= r.value <= |s| && StartsWith(s[r.value..], t)
    ensures forall k :: from <= k <= |s| && (r.None? || k < r.value) ==> !StartsWith(s[k..], t)
  {
    if from > |s| then None
    else if StartsWith(s[from..], t) then Some(from)
    else FindFrom(s, t, from + 1)
  }

  /** An occurrence of `t` at `k` is the slice of `s` there. */
  lemma OccurrenceSlice(s: string, t: string, k: nat)
    requires k <= |s| && StartsWith(s[k..], t)
    ensures k + |t| <= |s| && s[k..k + |t|] == t
  {
    assert s[k..][..|t|] == s[k..k + |t|];
  }

  /** Python's `t in s`. */
  predicate Contains(s: string, t: string) {
    FindFrom(s, t, 0).Some?
  }

  lemma ContainsAt(s: string, t: string, i: nat)
    requires i + |t| <= |s| && s[i..i + |t|] == t
    ensures Contains(s, t)
  {
    assert StartsWith(s[i..], t);
  }

  lemma ContainsSlice(s: string, i: nat, j: nat)
    requires i <= j <= |s|
    ensures Contains(s, s[i..j])
  {
    ContainsAt(s, s[i..j], i);
  }

  /** Substrings of substrings are substrings. */
  lemma ContainsTransitive(s: string, t: string, u: string)
    requires Contains(s, t) && Contains(t, u)
    ensures Contains(s, u)
  {
    var i := FindFrom(s, t, 0).value;
    var j := FindFrom(t, u, 0).value;
    assert s[i..i + |t|] == t by { assert s[i..][..|t|] == s[i..i + |t|]; }
    assert t[j..j + |u|] == u by { assert t[j..][..|u|] == t[j..j + |u|]; }
    forall k | 0 <= k < |u| ensures s[i + j + k] == u[k] {
      assert u[k] == t[j + k] == s[i..i + |t|][j + k];
    }
    assert s[i + j..i + j + |u|] == u;
    ContainsAt(s, u, i + j);
  }

  // The strip helpers keep their contracts quantifier-free; the index facts
  // are lemmas, so that unfolding a composition of them stays cheap.

  function TrimStart(s: string): (r: string)
    ensures |r| <= |s| && (r == [] || !IsSpace(r[0]))
  {
    if s != [] && IsSpace(s[0]) then TrimStart(s[1..]) else s
  }

  /** `lstrip()` removes a prefix and leaves the rest untouched. */
  lemma {:induction false} TrimStartSuffix(s: string)
    ensures TrimStart(s) == s[|s| - |TrimStart(s)|..]
  {
    if s != [] && IsSpace(s[0]) { TrimStartSuffix(s[1..]); }
  }

  /** What `lstrip()` removes is whitespace. */
  lemma {:induction false} TrimStartShape(s: string)
    ensures TrimStart(s) == s[|s| - |TrimStart(s)|..]
    ensures forall k :: 0 <= k < |s| - |TrimStart(s)| ==> IsSpace(s[k])
  {
    if s != [] && IsSpace(s[0]) { TrimStartShape(s[1..]); }
  }

  function TrimEnd(s: string): (r: string)
    ensures |r| <= |s| && (r == [] || !IsSpace(r[|r| - 1]))
  {
    if s != [] && IsSpace(s[|s| - 1]) then TrimEnd(s[..|s| - 1]) else s
  }

  /** `rstrip()` removes a suffix and leaves the rest untouched. */
  lemma {:induction false} TrimEndPrefix(s: string)
    ensures TrimEnd(s) == s[..|TrimEnd(s)|]
  {
    if s != [] && IsSpace(s[|s| - 1]) { TrimEndPrefix(s[..|s| - 1]); }
  }

  /** What `rstrip()` removes is whitespace. */
  lemma {:induction false} TrimEndShape(s: string)
    ensures TrimEnd(s) == s[..|TrimEnd(s)|]
    ensures forall k :: |TrimEnd(s)| <= k < |s| ==> IsSpace(s[k])
  {
    if s != [] && IsSpace(s[|s| - 1]) { TrimEndShape(s[..|s| - 1]); }
  }

  /** Python's `s.strip()`. */
  function Strip(s: string): (r: string)
  {
    TrimEnd(TrimStart(s))
  }

  /** What `strip()` leaves is a piece of the input with no surrounding whitespace. */
  lemma StripShape(s: string)
    ensures Contains(s, Strip(s))
    ensures Strip(s) == [] || (!IsSpace(Strip(s)[0]) && !IsSpace(Strip(s)[|Strip(s)| - 1]))
  {
    var a := TrimStart(s);
    var r := TrimEnd(a);
    StripIsSlice(s);
    if r != [] {
      TrimEndPrefix(a);
      assert r[0] == a[0];
    }
  }

  /** What `strip()` leaves is a slice of the input. */
  lemma StripIsSlice(s: string)
    ensures Contains(s, Strip(s))
  {
    var a := TrimStart(s);
    var r := TrimEnd(a);
    TrimStartSuffix(s);
    TrimEndPrefix(a);
    var i := |s| - |a|;
    assert r == s[i..i + |r|];
    ContainsSlice(s, i, i + |r|);
  }

  lemma StripIdempotent(s: string)
    ensures Strip(Strip(s)) == Strip(s)
  {
    var r := Strip(s);
    StripShape(s);
    if r != [] {
      assert TrimStart(r) == r;
      assert TrimEnd(r) == r;
    }
  }

  /** `s.strip()` is empty exactly when every character of `s` is whitespace. */
  lemma StripEmpty(s: string)
    ensures Strip(s) == [] <==> forall k :: 0 <= k < |s| ==> IsSpace(s[k])
  {
    var a := TrimStart(s);
    TrimStartShape(s);
    TrimEndShape(a);
    if a != [] {
      assert !IsSpace(a[0]) && a[0] == s[|s| - |a|];
      var c := a[0];
      assert TrimEnd(a) != [] by {
        assert TrimEnd(a) == [] ==> IsSpace(c);
      }
    }
  }

  function DropLeading(s: string, c: char): (r: string)
    ensures |r| <= |s| && (r == [] || r[0] != c)
  {
    if s != [] && s[0] == c then DropLeading(s[1..], c) else s
  }

  lemma {:induction false} DropLeadingShape(s: string, c: char)
    ensures DropLeading(s, c) == s[|s| - |DropLeading(s, c)|..]
    ensures forall k :: 0 <= k < |s| - |DropLeading(s, c)| ==> s[k] == c
  {
    if s != [] && s[0] == c { DropLeadingShape(s[1..], c); }
  }

  function DropTrailing(s: string, c: char): (r: string)
    ensures |r| <= |s| && (r == [] || r[|r| - 1] != c)
  {
    if s != [] && s[|s| - 1] == c then DropTrailing(s[..|s| - 1], c) else s
  }

  lemma {:induction false} DropTrailingShape(s: string, c: char)
    ensures DropTrailing(s, c) == s[..|DropTrailing(s, c)|]
    ensures forall k :: |DropTrailing(s, c)| <= k < |s| ==> s[k] == c
  {
    if s != [] && s[|s| - 1] == c { DropTrailingShape(s[..|s| - 1], c); }
  }

  /** Python's `s.strip(c)` for a one-character argument. */
  function StripChar(s: string, c: char): (r: string)
    ensures |r| <= |s|
    ensures r == [] || (r[0] != c && r[|r| - 1] != c)
  {
    var a := DropLeading(s, c);
    var r := DropTrailing(a, c);
    DropTrailingShape(a, c);
    assert r != [] ==> r[0] == a[0];
    r
  }

  /** `s.strip(c)` removes `c` from both ends and nothing else. */
  lemma StripCharShape(s: string, c: char)
    ensures Contains(s, StripChar(s, c))
    ensures forall k :: 0 <= k < |s| - |DropLeading(s, c)| ==> s[k] == c
  {
    var a := DropLeading(s, c);
    var r := DropTrailing(a, c);
    DropLeadingShape(s, c);
    DropTrailingShape(a, c);
    var i := |s| - |a|;
    assert r == s[i..i + |r|];
    ContainsSlice(s, i, i + |r|);
  }

  /** Python's `s.split(sep)` for a one-character separator. */
  function Split(s: string, sep: char): (r: seq<string>)
    ensures |r| >= 1
    ensures forall k :: 0 <= k < |r| ==> sep !in r[k]
  {
    if s == [] then [""]
    else
      var rest := Split(s[1..], sep);
      if s[0] == sep then [""] + rest
      else [[s[0]] + rest[0]] + rest[1..]
  }

  /** A text without the separator is one piece. */
  lemma {:induction false} SplitNoSeparator(a: string, sep: char)
    requires sep !in a
    ensures Split(a, sep) == [a]
  {
    if a != [] {
      SplitNoSeparator(a[1..], sep);
      assert [a[0]] + a[1..] == a;
    }
  }

  /** The first separator ends the first piece; the rest is split on its own. */
  lemma {:induction false} SplitAtFirst(a: string, b: string, sep: char)
    requires sep !in a
    ensures Split(a + [sep] + b, sep) == [a] + Split(b, sep)
  {
    var s := a + [sep] + b;
    if a == [] {
      assert s[1..] == b;
    } else {
      assert s[0] == a[0] && s[1..] == a[1..] + [sep] + b;
      SplitAtFirst(a[1..], b, sep);
      assert [a[0]] + a[1..] == a;
    }
  }

  /** Python's `sep.join(xs)`. */
  function Join(xs: seq<string>, sep: string): string {
    if xs == [] then ""
    else if |xs| == 1 then xs[0]
    else xs[0] + sep + Join(xs[1..], sep)
  }

  /** Splitting loses nothing: re-joining the pieces gives back the input. */
  lemma {:induction false} SplitJoin(s: string, sep: char)
    ensures Join(Split(s, sep), [sep]) == s
  {
    if s != [] {
      var rest := Split(s[1..], sep);
      SplitJoin(s[1..], sep);
      if s[0] == sep {
        assert Split(s, sep) == [""] + rest;
        assert Join([""] + rest, [sep]) == "" + [sep] + Join(rest, [sep]);
      } else {
        var r := Split(s, sep);
        assert r == [[s[0]] + rest[0]] + rest[1..];
        if |rest| == 1 {
          assert r == [[s[0]] + rest[0]];
        } else {
          assert r[1..] == rest[1..];
          assert Join(r, [sep]) == [s[0]] + rest[0] + [sep] + Join(rest[1..], [sep]);
        }
      }
    }
  }

  // --- integer formatting ---

  function DigitValue(c: char): nat
    requires IsDigit(c)
  {
    c as int - '0' as int
  }

  /** `int(digits)` for a run of ASCII digits. */
  function DecimalValue(digits: string): nat
    requires forall k :: 0 <= k < |digits| ==> IsDigit(digits[k])
  {
    if digits == [] then 0
    else 10 * DecimalValue(digits[..|digits| - 1]) + DigitValue(digits[|digits| - 1])
  }

  /** `str(n)`, as an f-string renders a count. */
  function NatToString(n: nat): (r: string)
    ensures r != [] && forall k :: 0 <= k < |r| ==> IsDigit(r[k])
  {
    if n < 10 then ["0123456789"[n]]
    else NatToString(n / 10) + ["0123456789"[n % 10]]
  }

  lemma {:induction false} NatToStringRoundTrip(n: nat)
    ensures DecimalValue(NatToString(n)) == n
  {
    var r := NatToString(n);
    if n >= 10 {
      NatToStringRoundTrip(n / 10);
      assert r[..|r| - 1] == NatToString(n / 10);
    }
  }

  const HexAlphabet := "0123456789abcdef"

  /** The digits of `format(n, 'x')`: lowercase hexadecimal, no padding. */
  function HexDigits(n: nat): (r: string)
    ensures r != [] && forall k :: 0 <= k < |r| ==> r[k] in HexAlphabet
  {
    if n < 16 then [HexAlphabet[n]]
    else HexDigits(n / 16) + [HexAlphabet[n % 16]]
  }

  /** Python's `'{:02x}'.format(n)`: lowercase hexadecimal padded with zeros to two digits. */
  function Hex2(n: nat): (r: string)
  {
    if n < 16 then "0" + HexDigits(n) else HexDigits(n)
  }

  function HexDigitValue(c: char): nat
    requires c in HexAlphabet
  {
    if '0' <= c <= '9' then c as int - '0' as int else c as int - 'a' as int + 10
  }

  lemma HexDigitValueInverse(k: nat)
    requires k < 16
    ensures HexDigitValue(HexAlphabet[k]) == k
  {
    if k < 10 {
      assert HexAlphabet[k] as int == '0' as int + k;
    } else {
      assert HexAlphabet[k] as int == 'a' as int + k - 10;
    }
  }

  function HexValue(s: string): nat
    requires forall k :: 0 <= k < |s| ==> s[k] in HexAlphabet
  {
    if s == [] then 0 else 16 * HexValue(s[..|s| - 1]) + HexDigitValue(s[|s| - 1])
  }

  /** Every byte value becomes exactly two lowercase hex digits, from which it can be read back. */
  lemma Hex2RoundTrip(n: nat)
    requires n < 256
    ensures |Hex2(n)| == 2
    ensures forall k :: 0 <= k < 2 ==> Hex2(n)[k] in HexAlphabet
    ensures HexValue(Hex2(n)) == n
  {
    var r := Hex2(n);
    if n < 16 {
      assert r == ['0', HexAlphabet[n]];
      assert r[..1] == "0";
      HexDigitValueInverse(n);
      HexDigitValueInverse(0);
      assert HexValue(r[..1]) == HexDigitValue(r[0]) by {
        assert r[..1][..0] == [];
      }
      assert HexValue(r) == 16 * HexValue(r[..1]) + HexDigitValue(r[1]);
    } else {
      assert HexDigits(n / 16) == [HexAlphabet[n / 16]];
      assert r == [HexAlphabet[n / 16], HexAlphabet[n % 16]];
      assert r[..1] == [HexAlphabet[n / 16]];
      HexDigitValueInverse(n / 16);
      HexDigitValueInverse(n % 16);
      assert HexValue(r[..1]) == HexDigitValue(r[0]) by {
        assert r[..1][..0] == [];
      }
      assert HexValue(r) == 16 * HexValue(r[..1]) + HexDigitValue(r[1]);
    }
  }

  // --- code-point order on str, as Python's sorted() uses it ---

  predicate Less(a: string, b: string) {
    if a == [] then b != []
    else b != [] && (a[0] < b[0] || (a[0] == b[0] && Less(a[1..], b[1..])))
  }

  lemma {:induction false} LessIrreflexive(a: string)
    ensures !Less(a, a)
  {
    if a != [] { LessIrreflexive(a[1..]); }
  }

  lemma {:induction false} LessTransitive(a: string, b: string, c: string)
    requires Less(a, b) && Less(b, c)
    ensures Less(a, c)
  {
    if a != [] && b != [] && c != [] && a[0] == b[0] == c[0] {
      LessTransitive(a[1..], b[1..], c[1..]);
    }
  }

  lemma {:induction false} LessTotal(a: string, b: string)
    requires a != b
    ensures Less(a, b) || Less(b, a)
  {
    if a != [] && b != [] && a[0] == b[0] {
      assert a == [a[0]] + a[1..] && b == [b[0]] + b[1..];
      LessTotal(a[1..], b[1..]);
    }
  }

  lemma LessAsymmetric(a: string, b: string)
    requires Less(a, b)
    ensures !Less(b, a)
  {
    if Less(b, a) {
      LessTransitive(a, b, a);
      LessIrreflexive(a);
    }
  }

  /** Strictly increasing in code-point order (hence also free of duplicates). */
  predicate StrictlySorted(xs: seq<string>) {
    forall i, j :: 0 <= i < j < |xs| ==> Less(xs[i], xs[j])
  }

  predicate NoDuplicates<T(==)>(xs: seq<T>) {
    forall i, j :: 0 <= i < j < |xs| ==> xs[i] != xs[j]
  }

  lemma StrictlySortedNoDuplicates(xs: seq<string>)
    requires StrictlySorted(xs)
    ensures NoDuplicates(xs)
  {
    forall i, j | 0 <= i < j < |xs| ensures xs[i] != xs[j] {
      if xs[i] == xs[j] { LessIrreflexive(xs[i]); }
    }
  }

  function Min(a: int, b: int): int { if a <= b then a else b }

  // --- accumulating into a set over a sequence, as the extractors' loops do ---

  /** The union of `f(x)` over the elements `x` of `xs`. */
  function UnionOver<T, U>(xs: seq<T>, f: T -> set<U>): set<U> {
    if xs == [] then {} else UnionOver(xs[..|xs| - 1], f) + f(xs[|xs| - 1])
  }

  /** One more loop step adds the contribution of the next element. */
  lemma UnionOverSnoc<T, U>(xs: seq<T>, f: T -> set<U>, k: nat)
    requires k < |xs|
    ensures UnionOver(xs[..k + 1], f) == UnionOver(xs[..k], f) + f(xs[k])
  {
    assert xs[..k + 1][..k] == xs[..k];
  }

  /** An element is in the union exactly when some element of `xs` contributes it. */
  lemma {:induction false} UnionOverExactly<T, U>(xs: seq<T>, f: T -> set<U>, y: U)
    ensures y in UnionOver(xs, f) <==> exists k :: 0 <= k < |xs| && y in f(xs[k])
  {
    if xs != [] {
      var init := xs[..|xs| - 1];
      UnionOverExactly(init, f, y);
      if y in UnionOver(init, f) {
        var k :| 0 <= k < |init| && y in f(init[k]);
        assert xs[k] == init[k];
      }
      if k :| 0 <= k < |xs| && y in f(xs[k]) {
        if k < |init| {
          assert init[k] == xs[k];
        }
      }
    }
  }
}
