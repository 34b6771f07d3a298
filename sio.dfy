/**
 * The async-signal-safe text helpers of csapp.c (sio_reverse, sio_ltoa,
 * sio_strlen), which work in place on NUL-terminated character arrays.
 */
module Sio {
  import opened CText

  /** `s` back to front. */
  function Reversed(s: string): (r: string)
    ensures |r| == |s|
  {
    if s == [] then [] else Reversed(s[1..]) + [s[0]]
  }

  lemma {:induction false} ReversedIndex(s: string, k: nat)
    requires k < |s|
    ensures Reversed(s)[k] == s[|s| - 1 - k]
  {
    if k < |s| - 1 {
      ReversedIndex(s[1..], k);
    }
  }

  lemma {:induction false} ReversedAppend(s: string, c: char)
    ensures Reversed(s + [c]) == [c] + Reversed(s)
  {
    if s != [] {
      ReversedAppend(s[1..], c);
      assert (s + [c])[1..] == s[1..] + [c];
    } else {
      assert Reversed([c]) == Reversed([]) + [c];
    }
  }

  /** Reversing twice gives the text back, so sio_reverse applied twice is the identity. */
  lemma {:induction false} ReversedTwice(s: string)
    ensures Reversed(Reversed(s)) == s
  {
    if s != [] {
      ReversedTwice(s[1..]);
      ReversedAppend(Reversed(s[1..]), s[0]);
    }
  }

  /** sio_strlen: the index of the first NUL. */
  method StrLen(s: array<char>) returns (n: nat)
    requires '\0' in s[..]
    ensures n < s.Length && s[n] == '\0' && '\0' !in s[..n]
    ensures n == |CStr(s[..])|
  {
    n := 0;
    while s[n] != '\0'
      invariant n < s.Length && '\0' in s[n..]
      invariant '\0' !in s[..n]
      decreases s.Length - n
    {
      assert s[n..] == [s[n]] + s[n + 1..];
      assert s[..n + 1] == s[..n] + [s[n]];
      n := n + 1;
    }
  }

  /** `a` with its first `i` and its last `i` characters before index `n` exchanged
      mirror-wise: the state of sio_reverse after `i` rounds. */
  ghost function HalfReversed(a: string, n: nat, i: nat): (r: string)
    requires i <= n <= |a|
    ensures |r| == |a|
  {
    seq(|a|, k requires 0 <= k < |a| => if k < i || n - 1 - i < k < n then a[n - 1 - k] else a[k])
  }

  lemma HalfReversedStep(a: string, n: nat, i: nat)
    requires n <= |a| && i < n - 1 - i
    ensures HalfReversed(a, n, i + 1) == HalfReversed(a, n, i)[i := a[n - 1 - i]][n - 1 - i := a[i]]
  {
  }

  lemma HalfReversedDone(a: string, n: nat, i: nat)
    requires n <= |a| && n - 1 - i <= i <= n
    ensures HalfReversed(a, n, i)[..n] == Reversed(a[..n])
    ensures HalfReversed(a, n, i)[n..] == a[n..]
  {
    var t := HalfReversed(a, n, i);
    forall k | 0 <= k < n
      ensures t[k] == Reversed(a[..n])[k]
    {
      ReversedIndex(a[..n], k);
    }
  }

  /** sio_reverse: reverses the C string held in `s` in place; the NUL and what follows it stay. */
  method Reverse(s: array<char>)
    requires '\0' in s[..]
    modifies s
    ensures var n := |CStr(old(s[..]))|;
      n < s.Length && s[..n] == Reversed(old(s[..n])) && s[n..] == old(s[n..])
  {
    ghost var a := s[..];
    var n := StrLen(s);
    var i: nat, j: int := 0, n - 1;
    while i < j
      invariant j == n - 1 - i && i <= j + 1
      invariant s[..] == HalfReversed(a, n, i)
    {
      HalfReversedStep(a, n, i);
      var c := s[i];
      s[i] := s[j];
      s[j] := c;
      i, j := i + 1, j - 1;
    }
    HalfReversedDone(a, n, i);
  }

  /** The digits of `v` least significant first, the order sio_ltoa produces them in. */
  function LowFirst(v: nat, base: nat): (r: string)
    requires 2 <= base <= 36
    ensures 0 < |r| == |Digits(v, base)|
  {
    Reversed(Digits(v, base))
  }

  lemma LowFirstStep(v: nat, base: nat)
    requires 2 <= base <= 36
    ensures 0 <= v / base && v % base < base && (v / base == 0 <==> v < base) && (v >= base ==> v / base < v)
    ensures v < base ==> LowFirst(v, base) == [DigitChar(v % base)]
    ensures v >= base ==> LowFirst(v, base) == [DigitChar(v % base)] + LowFirst(v / base, base)
  {
    DivFacts(v, base);
    if v >= base {
      ReversedAppend(Digits(v / base, base), DigitChar(v % base));
    } else {
      assert Reversed([DigitChar(v)]) == Reversed([]) + [DigitChar(v)];
    }
  }

  lemma {:induction false} DigitsNulFree(v: nat, base: nat)
    requires 2 <= base <= 36
    ensures '\0' !in Digits(v, base) && '\0' !in LowFirst(v, base)
  {
    var d := Digits(v, base);
    DivFacts(v, base);
    if v >= base {
      DigitsNulFree(v / base, base);
      assert d == Digits(v / base, base) + [DigitChar(v % base)];
      assert d[|d| - 1] != '\0';
    }
    forall k | 0 <= k < |d|
      ensures LowFirst(v, base)[k] != '\0'
    {
      ReversedIndex(d, k);
    }
  }

  /** What sio_ltoa has written before its final sio_reverse: the digits least
      significant first, then the sign. */
  function Unreversed(v: int, b: nat): string
    requires 2 <= b <= 36
  {
    if v < 0 then LowFirst(-v, b) + ['-'] else LowFirst(v, b)
  }

  /** Reversing that text gives the text of `v`. */
  lemma LtoaReversal(v: int, b: nat)
    requires 2 <= b <= 36
    ensures Reversed(Unreversed(v, b)) == FormatInt(v, b)
    ensures |Unreversed(v, b)| == |FormatInt(v, b)| && '\0' !in Unreversed(v, b)
  {
    var w: nat := if v < 0 then -v else v;
    ReversedTwice(Digits(w, b));
    DigitsNulFree(w, b);
    if v < 0 {
      ReversedAppend(LowFirst(w, b), '-');
    }
  }

  /** The do-while of sio_ltoa: one digit per round, least significant first;
      returns how many were written. */
  method LtoaDigits(w: nat, s: array<char>, b: nat) returns (i: nat)
    requires 2 <= b <= 36
    requires |Digits(w, b)| <= s.Length
    modifies s
    ensures i == |Digits(w, b)| && s[..i] == LowFirst(w, b)
    ensures s[i..] == old(s[i..])
  {
    i := 0;
    var u: nat := w;
    ghost var low := LowFirst(w, b);
    while true
      invariant i < |low|
      invariant s[..i] + LowFirst(u, b) == low
      invariant s[i..] == old(s[i..])
      decreases u
    {
      LowFirstStep(u, b);
      var d := u % b;
      ghost var done := s[..i];
      s[i] := DigitChar(d);
      i := i + 1;
      assert s[..i] == done + [DigitChar(d)];
      u := u / b;
      if u == 0 {
        break;
      }
    }
  }

  /** The first half of sio_ltoa: the digits of |v|, least significant first, then
      '-' when v is negative; returns how many bytes were written. */
  method LtoaUnreversed(v: int, s: array<char>, b: nat) returns (i: nat)
    requires LONG_MIN < v <= LONG_MAX
    requires 2 <= b <= 36
    requires |FormatInt(v, b)| < s.Length
    modifies s
    ensures i == |FormatInt(v, b)| && s[..i] == Unreversed(v, b) && s[i..] == old(s[i..])
  {
    LtoaReversal(v, b);
    var neg := v < 0;
    var w: nat := if neg then -v else v;
    i := LtoaDigits(w, s, b);
    if neg {
      ghost var digits := s[..i];
      s[i] := '-';
      i := i + 1;
      assert s[..i] == digits + ['-'];
    }
  }

  /** sio_ltoa(v, s, b): writes the text of `v` in base `b` into `s`, NUL-terminated,
      and leaves the bytes after the NUL alone. Negating LONG_MIN overflows a long,
      so that value is excluded. */
  method Ltoa(v: int, s: array<char>, b: nat)
    requires LONG_MIN < v <= LONG_MAX
    requires 2 <= b <= 36
    requires |FormatInt(v, b)| < s.Length
    modifies s
    ensures var t := FormatInt(v, b); s[..|t|] == t && s[|t|] == '\0'
    ensures var t := FormatInt(v, b); s[|t| + 1..] == old(s[|t| + 1..])
  {
    LtoaReversal(v, b);
    var i := LtoaUnreversed(v, s, b);
    ghost var text := Unreversed(v, b);
    ghost var rest := s[i + 1..];
    assert rest == old(s[i + 1..]);
    s[i] := '\0';
    ghost var before := s[..];
    assert before == text + ['\0'] + rest;
    CStrTerminated(text, rest);
    Reverse(s);
    assert s[i + 1..] == s[i..][1..];
  }
}
