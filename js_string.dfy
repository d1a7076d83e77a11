/** The few JavaScript value semantics the decorator relies on: optional
    (possibly `undefined`) configuration values, `String.prototype.trim`,
    decimal interpolation of numbers in template literals, and
    `String.prototype.indexOf`. A JavaScript string is a sequence of UTF-16
    code units; here each `char` stands for one code unit. */
module JsString {

  /** An optional configuration field: `None` is `undefined`. */
  datatype Option<+T> = None | Some(value: T)

  /** The characters `trim` removes: ECMAScript WhiteSpace and LineTerminator. */
  predicate IsJsWhitespace(c: char) {
    c == '\t' || c == '\n' || c == '\U{000B}' || c == '\U{000C}' || c == '\r' || c == ' '
    || c == '\U{00A0}' || c == '\U{1680}' || ('\U{2000}' <= c <= '\U{200A}')
    || c == '\U{2028}' || c == '\U{2029}' || c == '\U{202F}' || c == '\U{205F}'
    || c == '\U{3000}' || c == '\U{FEFF}'
  }

  /** `s.trimStart()` */
  function TrimStart(s: string): (r: string)
    ensures |r| <= |s| && r == s[|s| - |r|..]
    ensures r == [] || !IsJsWhitespace(r[0])
    ensures forall k :: 0 <= k < |s| - |r| ==> IsJsWhitespace(s[k])
  {
    if s == [] || !IsJsWhitespace(s[0]) then s else TrimStart(s[1..])
  }

  /** `s.trimEnd()` */
  function TrimEnd(s: string): (r: string)
    ensures |r| <= |s| && r == s[..|r|]
    ensures r == [] || !IsJsWhitespace(r[|r| - 1])
    ensures forall k :: |r| <= k < |s| ==> IsJsWhitespace(s[k])
  {
    if s == [] || !IsJsWhitespace(s[|s| - 1]) then s else TrimEnd(s[..|s| - 1])
  }

  /** `s.trim()`: an infix of `s` that neither starts nor ends with
      whitespace. */
  function Trim(s: string): (r: string)
    ensures exists a :: InfixAt(s, r, a)
    ensures r == [] || (!IsJsWhitespace(r[0]) && !IsJsWhitespace(r[|r| - 1]))
  {
    var t := TrimStart(s);
    var r := TrimEnd(t);
    assert InfixAt(s, r, |s| - |t|);
    r
  }

  predicate InfixAt(s: string, r: string, a: int) {
    0 <= a && a + |r| <= |s| && s[a..a + |r|] == r
  }

  /** `r` sits at offset `a` of `s`, and everything before and after it is
      whitespace. */
  predicate TrimmedAt(s: string, r: string, a: int) {
    && InfixAt(s, r, a)
    && (forall k :: 0 <= k < a ==> IsJsWhitespace(s[k]))
    && (forall k :: a + |r| <= k < |s| ==> IsJsWhitespace(s[k]))
  }

  /** What `trim` drops from either end is whitespace, and only whitespace. */
  lemma TrimDropsWhitespace(s: string)
    ensures exists a :: TrimmedAt(s, Trim(s), a)
  {
    var t := TrimStart(s);
    var r := TrimEnd(t);
    assert r == Trim(s);
    TrimmedPieces(s, t, r);
  }

  /** Dropping a whitespace prefix (leaving `t`) and then a whitespace suffix
      (leaving `r`) leaves `r` trimmed out of `s`. */
  lemma TrimmedPieces(s: string, t: string, r: string)
    requires |t| <= |s| && t == s[|s| - |t|..]
    requires forall k :: 0 <= k < |s| - |t| ==> IsJsWhitespace(s[k])
    requires |r| <= |t| && r == t[..|r|]
    requires forall k :: |r| <= k < |t| ==> IsJsWhitespace(t[k])
    ensures TrimmedAt(s, r, |s| - |t|)
  {
    var a := |s| - |t|;
    assert s[a..a + |r|] == t[..|r|];
    forall k | a + |r| <= k < |s| ensures IsJsWhitespace(s[k]) {
      assert s[k] == t[k - a];
    }
  }

  /** The test the decorator writes as `x && x.trim() !== ''`. */
  predicate NonBlank(x: Option<string>) {
    x.Some? && x.value != "" && Trim(x.value) != ""
  }

  /** JavaScript truthiness of a string: only the empty string is falsy. */
  predicate Truthy(x: Option<string>) {
    x.Some? && x.value != ""
  }

  /** A string trims to nothing exactly when every one of its characters is
      whitespace, so `NonBlank` holds exactly when the value has a visible
      character. */
  lemma {:induction false} TrimEmptyIffAllWhitespace(s: string)
    ensures Trim(s) == "" <==> forall k :: 0 <= k < |s| ==> IsJsWhitespace(s[k])
  {
    var t := TrimStart(s);
    if Trim(s) == "" {
      forall k | 0 <= k < |s| ensures IsJsWhitespace(s[k]) {
        if k >= |s| - |t| {
          assert t[k - (|s| - |t|)] == s[k];
        }
      }
    } else {
      var r := Trim(s);
      assert !IsJsWhitespace(r[0]);
      assert r[0] == t[0];
      assert t[0] == s[|s| - |t|];
    }
  }

  lemma NonBlankIffVisible(x: Option<string>)
    ensures NonBlank(x) <==> x.Some? && exists k :: 0 <= k < |x.value| && !IsJsWhitespace(x.value[k])
  {
    if x.Some? {
      TrimEmptyIffAllWhitespace(x.value);
    }
  }

  // ---------------------------------------------------------------------
  // Decimal rendering of non-negative integers, as `${n}` produces it.

  predicate IsDigit(c: char) { '0' <= c <= '9' }

  function DigitChar(d: nat): (c: char)
    requires d < 10
    ensures IsDigit(c)
  {
    "0123456789"[d]
  }

  function DigitValue(c: char): (d: nat)
    requires IsDigit(c)
    ensures d < 10
  {
    (c as int - '0' as int) as nat
  }

  /** `${n}` for a non-negative integer `n`. */
  function ShowNat(n: nat): (r: string)
    ensures r != [] && forall k :: 0 <= k < |r| ==> IsDigit(r[k])
    ensures r[0] == '0' ==> n == 0
  {
    if n < 10 then [DigitChar(n)] else ShowNat(n / 10) + [DigitChar(n % 10)]
  }

  /** The value of a string of decimal digits. */
  function ParseDigits(s: string): nat
    requires forall k :: 0 <= k < |s| ==> IsDigit(s[k])
  {
    if s == [] then 0 else ParseDigits(s[..|s| - 1]) * 10 + DigitValue(s[|s| - 1])
  }

  /** Reading back the rendered digits gives the number: rendering is injective. */
  lemma {:induction false} ParseShowNat(n: nat)
    ensures ParseDigits(ShowNat(n)) == n
  {
    var s := ShowNat(n);
    if n < 10 {
      assert s[..0] == [];
      assert DigitValue(DigitChar(n)) == n;
    } else {
      assert s[..|s| - 1] == ShowNat(n / 10);
      ParseShowNat(n / 10);
      assert DigitValue(DigitChar(n % 10)) == n % 10;
    }
  }

  /** A rendered number followed by text that does not begin with a digit can be
      split in only one way: the number and the rest are both determined. This
      is what keeps the style keys `rule-i` / `rule-i-group-g` and the tooltips
      apart. */
  lemma NumberThenRestUnique(a: nat, x: string, b: nat, y: string)
    requires x == [] || !IsDigit(x[0])
    requires y == [] || !IsDigit(y[0])
    requires ShowNat(a) + x == ShowNat(b) + y
    ensures a == b && x == y
  {
    var sa, sb := ShowNat(a), ShowNat(b);
    assert sa == (sa + x)[..|sa|] == (sb + y)[..|sb|] == sb;
    assert x == (sa + x)[|sa|..] == (sb + y)[|sb|..] == y;
    ParseShowNat(a);
    ParseShowNat(b);
  }

  // ---------------------------------------------------------------------
  // `s.indexOf(t)`

  predicate OccursAt(s: string, t: string, p: int) {
    0 <= p && p + |t| <= |s| && s[p..p + |t|] == t
  }

  function IndexOfFrom(s: string, t: string, from: nat): (r: int)
    requires from <= |s|
    ensures r == -1 || (from <= r && OccursAt(s, t, r))
    ensures forall p :: from <= p && (r == -1 || p < r) ==> !OccursAt(s, t, p)
    decreases |s| - from
  {
    if from + |t| > |s| then -1
    else if s[from..from + |t|] == t then from
    else if from == |s| then -1
    else IndexOfFrom(s, t, from + 1)
  }

  /** `s.indexOf(t)`: the first position at which `t` occurs in `s`, or -1. */
  function IndexOf(s: string, t: string): (r: int)
    ensures r == -1 || OccursAt(s, t, r)
    ensures r == -1 <==> forall p :: !OccursAt(s, t, p)
    ensures forall p :: 0 <= p < r ==> !OccursAt(s, t, p)
  {
    IndexOfFrom(s, t, 0)
  }
}
