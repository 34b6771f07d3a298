/**
 * The C library's view of text that the server and the CGI adder rely on:
 * NUL-terminated strings, strstr, strchr/index, isspace, atoi, printf("%d")
 * and strcasecmp.  A C `char` is modelled as a Dafny `char`.
 */
module CText {
  import opened Wrappers

  const INT_MIN: int := -0x8000_0000
  const INT_MAX: int := 0x7fff_ffff
  const LONG_MIN: int := -0x8000_0000_0000_0000
  const LONG_MAX: int := 0x7fff_ffff_ffff_ffff

  /** `x` fits in a 32-bit `int`. */
  predicate InInt(x: int) {
    INT_MIN <= x <= INT_MAX
  }

  // ---------------------------------------------------------------------------
  // NUL-terminated strings

  /** The C string held in `s`: the bytes before the first NUL, or all of `s` if it has none. */
  function CStr(s: string): (r: string)
    ensures |r| <= |s| && r == s[..|r|]
    ensures '\0' !in r
    ensures |r| < |s| ==> s[|r|] == '\0'
  {
    if s == [] || s[0] == '\0' then [] else [s[0]] + CStr(s[1..])
  }

  lemma CStrNulFree(s: string)
    requires '\0' !in s
    ensures CStr(s) == s
  {
  }

  /** A NUL written after a text ends the C string no later than there. */
  lemma {:induction false} CStrCut(s: string, t: string)
    ensures CStr(s + ['\0'] + t) == CStr(s)
  {
    var u := s + ['\0'] + t;
    if s != [] && s[0] != '\0' {
      assert u[1..] == s[1..] + ['\0'] + t;
      CStrCut(s[1..], t);
    }
  }

  /** A NUL written right after a NUL-free text ends the C string there. */
  lemma CStrTerminated(s: string, t: string)
    requires '\0' !in s
    ensures CStr(s + ['\0'] + t) == s
  {
    var u := s + ['\0'] + t;
    assert u[..|s|] == s;
    assert u[|s|] == '\0';
  }

  // ---------------------------------------------------------------------------
  // strstr, strchr

  /** `pat` occurs in `s` starting at index `i`. */
  predicate OccursAt(s: string, pat: string, i: nat) {
    i + |pat| <= |s| && s[i..i + |pat|] == pat
  }

  /** The first index at or after `from` where `pat` occurs in `s`. */
  function FindFrom(s: string, pat: string, from: nat): (r: Option<nat>)
    decreases |s| - from
    ensures r.Some? ==> from <= r.value && OccursAt(s, pat, r.value)
    ensures forall i: nat :: from <= i && (r.None? || i < r.value) ==> !OccursAt(s, pat, i)
  {
    if from + |pat| > |s| then None
    else if OccursAt(s, pat, from) then Some(from)
    else FindFrom(s, pat, from + 1)
  }

  /** strstr(s, pat): the index of the first occurrence of `pat` in `s`. */
  function FindSub(s: string, pat: string): Option<nat> {
    FindFrom(s, pat, 0)
  }

  /** strstr(s, pat) != NULL. */
  predicate Contains(s: string, pat: string) {
    FindSub(s, pat).Some?
  }

  /** strstr finds an occurrence exactly when there is one. */
  lemma ContainsIff(s: string, pat: string)
    ensures Contains(s, pat) <==> exists i: nat :: OccursAt(s, pat, i)
  {
    if exists i: nat :: OccursAt(s, pat, i) {
      var i: nat :| OccursAt(s, pat, i);
      assert FindSub(s, pat).None? ==> !OccursAt(s, pat, i);
    }
  }

  /** An occurrence with none before it is the one strstr reports. */
  lemma FindSubAt(s: string, pat: string, k: nat)
    requires OccursAt(s, pat, k)
    requires forall i: nat :: i < k ==> !OccursAt(s, pat, i)
    ensures FindSub(s, pat) == Some(k)
  {
  }

  /** strchr(s, c) / index(s, c): the index of the first `c` in `s`. */
  function IndexOf(s: string, c: char): (r: Option<nat>)
    ensures r.Some? ==> r.value < |s| && s[r.value] == c && c !in s[..r.value]
    ensures r.None? <==> c !in s
  {
    if s == [] then None
    else if s[0] == c then Some(0)
    else match IndexOf(s[1..], c)
      case None => None
      case Some(i) => assert s[..i + 1] == [s[0]] + s[1..][..i]; Some(i + 1)
  }

  /** A character found at `k` with none before it is the one IndexOf returns. */
  lemma IndexOfAt(s: string, c: char, k: nat)
    requires k < |s| && s[k] == c && c !in s[..k]
    ensures IndexOf(s, c) == Some(k)
  {
    assert s[k] == c;
  }

  // ---------------------------------------------------------------------------
  // Characters

  /** isspace in the C locale. */
  predicate IsSpace(c: char) {
    c == ' ' || c == '\t' || c == '\n' || c == '\r' || c as int == 11 || c as int == 12
  }

  predicate IsDigit(c: char) {
    '0' <= c <= '9'
  }

  /** tolower in the C locale. */
  function ToLower(c: char): char {
    if 'A' <= c <= 'Z' then (c as int + 32) as char else c
  }

  /** strcasecmp(a, b) == 0 for NUL-free `a` and `b`. */
  predicate EqualsIgnoreCase(a: string, b: string) {
    |a| == |b| && forall i | 0 <= i < |a| :: ToLower(a[i]) == ToLower(b[i])
  }

  // ---------------------------------------------------------------------------
  // Numbers in text: digits in a base, printf("%d"), atoi

  /** The digit for `d`: '0'-'9', then 'a'-'z' (the digit rule of sio_ltoa). */
  function DigitChar(d: nat): char
    requires d < 36
  {
    if d < 10 then ('0' as int + d) as char else ('a' as int + d - 10) as char
  }

  /** The value of a digit character, inverse of DigitChar. */
  function DigitValue(c: char): nat {
    if '0' <= c <= '9' then c as int - '0' as int
    else if 'a' <= c <= 'z' then c as int - 'a' as int + 10
    else 0
  }

  /** Multiplying by a base of at least two moves a number away from zero. */
  lemma MulSign(q: int, b: int)
    requires b >= 2
    ensures q >= 1 ==> q * b >= 2 * q
    ensures q <= -1 ==> q * b <= -b
  {
    assert q * b == 2 * q + q * (b - 2);
    assert q * b == -b + (q + 1) * b;
    if q >= 1 {
      assert q * (b - 2) >= 0;
    } else if q <= -1 {
      assert (q + 1) * b <= 0;
    }
  }

  /** DigitValue reads back what DigitChar writes; only zero is written as '0'. */
  lemma DigitCharValue(d: nat)
    requires d < 36
    ensures DigitValue(DigitChar(d)) == d && (DigitChar(d) == '0' <==> d == 0)
  {
  }

  /** What one step of a digit loop needs to know about `v / base` and `v % base`. */
  lemma DivFacts(v: nat, base: nat)
    requires 2 <= base
    ensures 0 <= v / base <= v && v % base < base && v == v / base * base + v % base
    ensures (v / base == 0 <==> v < base) && (v >= base ==> 0 < v / base < v)
  {
    var q, r := v / base, v % base;
    assert v == q * base + r && 0 <= r < base;
    MulSign(q, base);
  }

  /** The digits of `v` in `base`, most significant first, without leading zeros. */
  function Digits(v: nat, base: nat): (r: string)
    requires 2 <= base <= 36
    ensures |r| > 0
  {
    DivFacts(v, base);
    if v < base then [DigitChar(v)] else Digits(v / base, base) + [DigitChar(v % base)]
  }

  /** The text sio_ltoa(v, s, base) produces, and printf("%d", v) for base 10. */
  function FormatInt(v: int, base: nat): string
    requires 2 <= base <= 36
  {
    if v < 0 then "-" + Digits(-v, base) else Digits(v, base)
  }

  /** The value of a digit string in `base`, most significant digit first. */
  function ValueOf(d: string, base: nat): nat {
    if d == [] then 0 else ValueOf(d[..|d| - 1], base) * base + DigitValue(d[|d| - 1])
  }

  /** Reading the digits back gives the number, and the leading digit is '0' only for zero. */
  lemma {:induction false} DigitsRoundTrip(v: nat, base: nat)
    requires 2 <= base <= 36
    ensures ValueOf(Digits(v, base), base) == v
    ensures (Digits(v, base)[0] == '0') <==> v == 0
  {
    var d := Digits(v, base);
    DivFacts(v, base);
    if v >= base {
      var q := v / base;
      DigitsRoundTrip(q, base);
      DigitCharValue(v % base);
      assert d[..|d| - 1] == Digits(q, base);
      assert d[0] == Digits(q, base)[0];
      assert ValueOf(d, base) == q * base + v % base;
    } else {
      DigitCharValue(v);
    }
  }

  /** The longest prefix of `s` made of white space. */
  function SkipSpaces(s: string): (r: string)
    ensures |r| <= |s| && r == s[|s| - |r|..]
    ensures r == [] || !IsSpace(r[0])
  {
    if s != [] && IsSpace(s[0]) then SkipSpaces(s[1..]) else s
  }

  /** The longest prefix of `s` made of decimal digits. */
  function DigitPrefix(s: string): (r: string)
    ensures |r| <= |s| && r == s[..|r|]
    ensures forall i | 0 <= i < |r| :: IsDigit(r[i])
    ensures |r| < |s| ==> !IsDigit(s[|r|])
  {
    if s != [] && IsDigit(s[0]) then [s[0]] + DigitPrefix(s[1..]) else []
  }

  /** The number strtol(s, NULL, 10) reads before it saturates: optional white space,
      an optional sign, then decimal digits (no digits reads as 0). */
  function StrtolValue(s: string): int {
    var t := SkipSpaces(s);
    if t != [] && (t[0] == '-' || t[0] == '+') then
      var v: int := ValueOf(DigitPrefix(t[1..]), 10);
      if t[0] == '-' then -v else v
    else
      ValueOf(DigitPrefix(t), 10)
  }

  /** The cast of a `long` to a 32-bit `int` (two's complement truncation). */
  function WrapInt(x: int): (r: int)
    ensures InInt(r)
    ensures InInt(x) ==> r == x
    ensures (r - x) % 0x1_0000_0000 == 0
    ensures 0 <= x ==> r <= x
  {
    if InInt(x) then x else (x - INT_MIN) % 0x1_0000_0000 + INT_MIN
  }

  /** atoi(s), which glibc computes as (int) strtol(s, NULL, 10); strtol saturates
      at LONG_MIN and LONG_MAX. */
  function Atoi(s: string): (r: int)
    ensures InInt(r)
  {
    var v := StrtolValue(s);
    WrapInt(if v < LONG_MIN then LONG_MIN else if v > LONG_MAX then LONG_MAX else v)
  }

  /** printf("%d", v). */
  function Decimal(v: int): string {
    FormatInt(v, 10)
  }

  function Pow10(n: nat): (r: nat)
    ensures r >= 1
  {
    if n == 0 then 1 else 10 * Pow10(n - 1)
  }

  /** A number below 10^n has at most n digits. */
  lemma {:induction false} DigitsBound(v: nat, n: nat)
    requires 1 <= n && v < Pow10(n)
    ensures |Digits(v, 10)| <= n
  {
    if v >= 10 {
      DivFacts(v, 10);
      assert Pow10(n) == 10 * Pow10(n - 1);
      DigitsBound(v / 10, n - 1);
    }
  }

  /** An int printed with "%d" takes at most eleven characters. */
  lemma DecimalShort(v: int)
    requires InInt(v)
    ensures |Decimal(v)| <= 11
  {
    assert Pow10(10) == 10000000000;
    if v < 0 {
      DigitsBound(-v, 10);
    } else {
      DigitsBound(v, 10);
    }
  }

  lemma DigitsAreDecimal(v: nat)
    ensures forall i | 0 <= i < |Digits(v, 10)| :: IsDigit(Digits(v, 10)[i])
  {
    if v >= 10 {
      DigitsAreDecimal(v / 10);
    }
  }

  lemma {:induction false} DigitPrefixOfDigits(d: string, rest: string)
    requires forall i | 0 <= i < |d| :: IsDigit(d[i])
    requires rest == [] || !IsDigit(rest[0])
    ensures DigitPrefix(d + rest) == d
  {
    if d != [] {
      DigitPrefixOfDigits(d[1..], rest);
      assert (d + rest)[1..] == d[1..] + rest;
    } else {
      assert d + rest == rest;
    }
  }

  /** The digits of `n` followed by text that does not start with a digit. */
  lemma StrtolDigits(n: nat, rest: string)
    requires rest == [] || !IsDigit(rest[0])
    ensures var s := Digits(n, 10) + rest;
      SkipSpaces(s) == s && !(s[0] == '-' || s[0] == '+')
      && DigitPrefix(s) == Digits(n, 10) && ValueOf(Digits(n, 10), 10) == n
  {
    var d := Digits(n, 10);
    DigitsAreDecimal(n);
    DigitsRoundTrip(n, 10);
    DigitPrefixOfDigits(d, rest);
    var s := d + rest;
    assert s[0] == d[0] && IsDigit(s[0]);
  }

  lemma StrtolUnsigned(n: nat, rest: string)
    requires rest == [] || !IsDigit(rest[0])
    ensures StrtolValue(Digits(n, 10) + rest) == n
  {
    StrtolDigits(n, rest);
  }

  lemma StrtolNegative(n: nat, rest: string)
    requires rest == [] || !IsDigit(rest[0])
    ensures StrtolValue("-" + (Digits(n, 10) + rest)) == -(n as int)
  {
    var t := Digits(n, 10) + rest;
    var s := "-" + t;
    StrtolDigits(n, rest);
    assert s[0] == '-' && !IsSpace(s[0]);
    assert SkipSpaces(s) == s;
    assert s[1..] == t;
  }

  /** strtol reads back what printf("%d") wrote, up to the first character that is
      not a digit. */
  lemma StrtolDecimal(v: int, rest: string)
    requires rest == [] || !IsDigit(rest[0])
    ensures StrtolValue(Decimal(v) + rest) == v
  {
    if v < 0 {
      var n: nat := -v;
      var d := Digits(n, 10);
      assert Decimal(v) == "-" + d;
      assert Decimal(v) + rest == "-" + (d + rest);
      StrtolNegative(n, rest);
    } else {
      StrtolUnsigned(v, rest);
    }
  }

  /** atoi reads back what printf("%d") wrote. */
  lemma AtoiDecimal(v: int)
    requires InInt(v)
    ensures Atoi(Decimal(v)) == v
  {
    StrtolDecimal(v, []);
    assert Decimal(v) + [] == Decimal(v);
  }

  /** atoi stops at the first character that is not a digit, so a number printed
      with "%d" and followed by other text still reads back. */
  lemma AtoiDecimalThen(v: int, rest: string)
    requires InInt(v) && (rest == [] || !IsDigit(rest[0]))
    ensures Atoi(Decimal(v) + rest) == v
  {
    StrtolDecimal(v, rest);
  }

  /** printf("%d") writes only a sign and digits: no '&', NUL, CR or LF. */
  lemma DecimalPlain(v: int)
    ensures '&' !in Decimal(v) && '\0' !in Decimal(v) && '\r' !in Decimal(v) && '\n' !in Decimal(v)
  {
    var n: nat := if v < 0 then -v else v;
    DigitsAreDecimal(n);
  }
}
