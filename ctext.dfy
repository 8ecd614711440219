/** The parts of the C library that the register conversions lean on:
    `sprintf` with `%d`, `%+d`, `%02d` and `%02x`, `atoi`, `sscanf` with
    `%d`, and ASCII `strcasecmp`. Strings are sequences of characters. */
module CText {
  import opened Wrappers

  predicate IsDigit(c: char) { '0' <= c <= '9' }

  /** isspace() in the C locale. */
  predicate IsSpace(c: char) {
    c == ' ' || c == '\t' || c == '\n' || c == '\r' || c == '\U{B}' || c == '\U{C}'
  }

  function DigitChar(d: nat): (c: char)
    requires d < 10
    ensures IsDigit(c)
  {
    (48 + d) as char
  }

  function DigitValue(c: char): (d: nat)
    requires IsDigit(c)
    ensures d < 10
  {
    c as int - 48
  }

  predicate AllDigits(s: string) {
    forall i :: 0 <= i < |s| ==> IsDigit(s[i])
  }

  /** `sprintf("%d", n)` for a non-negative n: no leading zeros. */
  function Dec(n: nat): (s: string)
    ensures |s| >= 1 && AllDigits(s)
    ensures n < 10 <==> |s| == 1
  {
    if n < 10 then [DigitChar(n)] else Dec(n / 10) + [DigitChar(n % 10)]
  }

  /** `sprintf("%d", n)`. */
  function DecInt(n: int): string {
    if n < 0 then "-" + Dec(-n) else Dec(n)
  }

  /** `sprintf("%+d", n)`: the sign is always written. */
  function PlusDec(n: int): string {
    if n < 0 then "-" + Dec(-n) else "+" + Dec(n)
  }

  /** `sprintf("%02d", n)` for 0 <= n < 100. */
  function Pad2(n: nat): (s: string)
    requires n < 100
    ensures |s| == 2 && AllDigits(s)
  {
    [DigitChar(n / 10), DigitChar(n % 10)]
  }

  function HexDigit(d: nat): char
    requires d < 16
  {
    if d < 10 then DigitChar(d) else (87 + d) as char
  }

  /** `sprintf("%02x", b)` for a byte: two lower-case hex digits. */
  function Hex2(b: nat): (s: string)
    requires b < 256
    ensures |s| == 2
  {
    [HexDigit(b / 16), HexDigit(b % 16)]
  }

  /** Value of a string of decimal digits. */
  function DigitsValue(s: string): nat
    requires AllDigits(s)
  {
    if s == [] then 0 else DigitsValue(s[..|s| - 1]) * 10 + DigitValue(s[|s| - 1])
  }

  /** Length of the run of digits at the start of s. */
  function LeadingDigits(s: string): (k: nat)
    ensures k <= |s| && AllDigits(s[..k])
    ensures k < |s| ==> !IsDigit(s[k])
  {
    if s != [] && IsDigit(s[0]) then
      var k := 1 + LeadingDigits(s[1..]);
      assert s[..k] == [s[0]] + s[1..][..k - 1];
      k
    else 0
  }

  function SkipSpace(s: string): (t: string)
    ensures t != [] ==> !IsSpace(t[0])
  {
    if s != [] && IsSpace(s[0]) then SkipSpace(s[1..]) else s
  }

  predicate IsSign(c: char) { c == '-' || c == '+' }

  /** The digit run at the start of u: whether there was one, its value,
      and what follows it. */
  function UnsignedDigits(u: string): (r: (bool, nat, string))
  {
    var k := LeadingDigits(u);
    (k > 0, DigitsValue(u[..k]), u[k..])
  }

  /** Value of the optional sign and digit run at the start of t
      (no leading space), and what follows it. */
  function SignedDigits(t: string): (r: (bool, int, string))
  {
    if t != [] && IsSign(t[0]) then
      var r := UnsignedDigits(t[1..]);
      (r.0, if t[0] == '-' then -(r.1 as int) else r.1, r.2)
    else
      var r := UnsignedDigits(t);
      (r.0, r.1, r.2)
  }

  /** `atoi(s)`: leading space, an optional sign, then digits; 0 when there
      are none. Overflow is not modelled (the integer is unbounded). */
  function Atoi(s: string): int {
    SignedDigits(SkipSpace(s)).1
  }

  /** One `%d` conversion of `sscanf`: Some(value, rest) when at least one
      digit was read, None on a matching failure. */
  function ScanInt(s: string): Option<(int, string)> {
    var r := SignedDigits(SkipSpace(s));
    if r.0 then Some((r.1, r.2)) else None
  }

  /** tolower() in the C locale. */
  function ToLower(c: char): char {
    if 'A' <= c <= 'Z' then (c as int + 32) as char else c
  }

  /** `strcasecmp(s, t) == 0`. */
  predicate EqualsIgnoreCase(s: string, t: string) {
    |s| == |t| && forall i :: 0 <= i < |s| ==> ToLower(s[i]) == ToLower(t[i])
  }

  /** C's `/` on int: truncates toward zero. */
  function CDiv(a: int, d: int): (q: int)
    requires d > 0
    ensures a >= 0 ==> q == a / d
  {
    if a >= 0 then a / d else -((-a) / d)
  }

  /** C's `%` on int: the remainder takes the sign of the dividend. */
  function CRem(a: int, d: int): (r: int)
    requires d > 0
    ensures a == CDiv(a, d) * d + r
    ensures -d < r < d && (a >= 0 ==> r >= 0) && (a < 0 ==> r <= 0)
  {
    a - CDiv(a, d) * d
  }

  // ----- lemmas -----

  lemma {:induction false} DigitsValueDec(n: nat)
    ensures DigitsValue(Dec(n)) == n
  {
    if n >= 10 {
      var s := Dec(n);
      assert s[..|s| - 1] == Dec(n / 10);
      DigitsValueDec(n / 10);
    }
  }

  lemma {:induction false} LeadingDigitsOf(ds: string, rest: string)
    requires AllDigits(ds)
    requires rest == [] || !IsDigit(rest[0])
    ensures LeadingDigits(ds + rest) == |ds|
  {
    if ds != [] {
      assert (ds + rest)[1..] == ds[1..] + rest;
      LeadingDigitsOf(ds[1..], rest);
    } else {
      assert ds + rest == rest;
    }
  }

  /** Reading back a run of digits followed by a non-digit. */
  lemma DigitsThenRest(ds: string, rest: string)
    requires ds != [] && AllDigits(ds)
    requires rest == [] || !IsDigit(rest[0])
    ensures UnsignedDigits(ds + rest) == (true, DigitsValue(ds), rest)
  {
    LeadingDigitsOf(ds, rest);
    assert (ds + rest)[..|ds|] == ds;
    assert (ds + rest)[|ds|..] == rest;
  }

  lemma SignThenDigits(sign: char, ds: string, rest: string)
    requires IsSign(sign)
    requires ds != [] && AllDigits(ds)
    requires rest == [] || !IsDigit(rest[0])
    ensures SignedDigits([sign] + ds + rest) ==
      (true, if sign == '-' then -(DigitsValue(ds) as int) else DigitsValue(ds), rest)
  {
    var u := ds + rest;
    var t := [sign] + u;
    assert [sign] + ds + rest == t;
    assert t[0] == sign && t[1..] == u;
    DigitsThenRest(ds, rest);
    SignedOfSign(t);
  }

  lemma SignedOfSign(t: string)
    requires t != [] && IsSign(t[0])
    ensures SignedDigits(t) == (UnsignedDigits(t[1..]).0,
      if t[0] == '-' then -(UnsignedDigits(t[1..]).1 as int) else UnsignedDigits(t[1..]).1,
      UnsignedDigits(t[1..]).2)
  {
  }

  /** `atoi` reads back what `%d` wrote, for every integer. */
  lemma AtoiDecInt(n: int)
    ensures Atoi(DecInt(n)) == n
  {
    if n < 0 {
      DigitsValueDec(-n);
      SignThenDigits('-', Dec(-n), []);
      assert DecInt(n) == ['-'] + Dec(-n) + [];
    } else {
      var s := Dec(n);
      DigitsValueDec(n);
      DigitsThenRest(s, []);
      assert s + [] == s && !IsSign(s[0]);
    }
    assert SkipSpace(DecInt(n)) == DecInt(n);
  }

  /** `atoi` reads back what `%+d` wrote, for every integer. */
  lemma AtoiPlusDec(n: int)
    ensures Atoi(PlusDec(n)) == n
  {
    var sign := if n < 0 then '-' else '+';
    var m := if n < 0 then -n else n;
    DigitsValueDec(m);
    SignThenDigits(sign, Dec(m), []);
    var t := PlusDec(n);
    assert t == [sign] + Dec(m) + [];
    assert t[0] == sign && !IsSpace(t[0]);
    assert SkipSpace(t) == t;
  }

  /** `%d` in `sscanf` reads a zero-padded two-digit field. */
  lemma ScanPad2(n: nat, rest: string)
    requires n < 100
    requires rest == [] || !IsDigit(rest[0])
    ensures ScanInt(Pad2(n) + rest) == Some((n, rest))
  {
    var s := Pad2(n);
    assert s[..1] == [DigitChar(n / 10)] && s[..1][..0] == [];
    assert DigitValue(DigitChar(n / 10)) == n / 10;
    assert DigitValue(DigitChar(n % 10)) == n % 10;
    assert DigitsValue(s[..1]) == n / 10;
    assert DigitsValue(s) == n;
    DigitsThenRest(s, rest);
    var t := s + rest;
    assert t[0] == s[0] && IsDigit(t[0]);
    assert SkipSpace(t) == t;
    assert SignedDigits(t) == (true, n, rest);
  }

  /** strcasecmp equality depends only on the lower-cased strings. */
  lemma EqualsIgnoreCaseLower(s: string, t: string, u: string)
    requires |s| == |t| && forall i :: 0 <= i < |s| ==> ToLower(s[i]) == ToLower(t[i])
    ensures EqualsIgnoreCase(s, u) <==> EqualsIgnoreCase(t, u)
  {
  }
}
