/** The C text conversions the drivers and tools share: `%d` rendering, `atol`, and NUL-terminated strings. */
module Text {

  function Digit(d: nat): char
    requires d < 10
  {
    '0' + d as char
  }

  predicate IsDigit(c: char) { '0' <= c <= '9' }

  /** `%d` of a non-negative number. */
  function Dec(n: nat): (s: string)
    ensures |s| > 0 && forall i | 0 <= i < |s| :: IsDigit(s[i])
  {
    if n < 10 then [Digit(n)] else Dec(n / 10) + [Digit(n % 10)]
  }

  function Pow10(k: nat): nat { if k == 0 then 1 else 10 * Pow10(k - 1) }

  lemma {:induction false} DecLength(n: nat, k: nat)
    requires k > 0
    ensures |Dec(n)| <= k <==> n < Pow10(k)
    decreases k
  {
    if k == 1 {
      assert Pow10(1) == 10 * Pow10(0);
    } else if n >= 10 {
      DecLength(n / 10, k - 1);
    } else {
      assert Pow10(k) >= 10 by { Pow10Grows(k); }
    }
  }

  lemma {:induction false} Pow10Grows(k: nat)
    requires k > 0
    ensures Pow10(k) >= 10
  {
    if k > 1 { Pow10Grows(k - 1); } else { assert Pow10(1) == 10 * Pow10(0); }
  }

  /** `%d` of any number. */
  function DecInt(n: int): string {
    if n < 0 then "-" + Dec(-n) else Dec(n)
  }

  /** The number of leading digits of `s`. */
  function DigitSpan(s: string): (k: nat)
    ensures k <= |s| && (forall i | 0 <= i < k :: IsDigit(s[i])) && (k < |s| ==> !IsDigit(s[k]))
  {
    if s != [] && IsDigit(s[0]) then 1 + DigitSpan(s[1..]) else 0
  }

  lemma {:induction false} DigitSpanIs(s: string, k: nat)
    requires k <= |s| && (forall i | 0 <= i < k :: IsDigit(s[i])) && (k < |s| ==> !IsDigit(s[k]))
    ensures DigitSpan(s) == k
  {
    if k == 0 {
    } else {
      assert IsDigit(s[0]);
      DigitSpanIs(s[1..], k - 1);
    }
  }

  function DigitsValue(s: string): nat
    requires forall i | 0 <= i < |s| :: IsDigit(s[i])
  {
    if s == [] then 0 else assert IsDigit(s[|s| - 1]); 10 * DigitsValue(s[..|s| - 1]) + (s[|s| - 1] as nat - '0' as nat)
  }

  predicate IsSpace(c: char) { c == ' ' || '\t' <= c <= '\r' }

  /** C `atol`, without overflow: leading white space, one sign, then digits up to the first other character. */
  function Atol(s: string): int {
    if s != [] && IsSpace(s[0]) then Atol(s[1..])
    else if s != [] && s[0] == '-' then -(DigitsValue(s[1..][..DigitSpan(s[1..])]) as int)
    else if s != [] && s[0] == '+' then DigitsValue(s[1..][..DigitSpan(s[1..])])
    else DigitsValue(s[..DigitSpan(s)])
  }

  lemma {:induction false} DigitsValueOfDec(n: nat)
    ensures DigitsValue(Dec(n)) == n
  {
    if n >= 10 {
      DigitsValueOfDec(n / 10);
      assert Dec(n)[..|Dec(n)| - 1] == Dec(n / 10);
    } else {
      assert Dec(n)[..0] == [];
    }
  }

  /** Reading a rendered number back, whatever follows it, as long as that is not another digit. */
  lemma {:induction false} AtolOfDec(n: nat, rest: string)
    requires rest == [] || !IsDigit(rest[0])
    ensures Atol(Dec(n) + rest) == n
  {
    var s := Dec(n) + rest;
    assert forall i | 0 <= i < |Dec(n)| :: s[i] == Dec(n)[i];
    DigitSpanIs(s, |Dec(n)|);
    assert s[..|Dec(n)|] == Dec(n);
    DigitsValueOfDec(n);
  }

  /** The index of the first `c` in `s`, or |s| when there is none. */
  function IndexOf(s: string, c: char): (k: nat)
    ensures k <= |s| && c !in s[..k] && (k < |s| ==> s[k] == c)
  {
    if s == [] || s[0] == c then 0 else 1 + IndexOf(s[1..], c)
  }

  lemma {:induction false} IndexOfIs(s: string, c: char, k: nat)
    requires k < |s| && s[k] == c && c !in s[..k]
    ensures IndexOf(s, c) == k
  {
    if k == 0 {
    } else {
      assert s[..k][0] == s[0] && s[1..][..k - 1] == s[..k][1..];
      IndexOfIs(s[1..], c, k - 1);
    }
  }

  /** What C sees of a character array: the characters before the first NUL. */
  function CString(s: string): string { s[..IndexOf(s, '\0')] }

  function Min(a: nat, b: nat): nat { if a < b then a else b }

  /** What a buffer with room for `n` characters keeps of a text. */
  function Take(s: string, n: nat): string { s[..Min(|s|, n)] }

  /** The longest beginning of the text that fits. */
  lemma TakeIs(s: string, n: nat, t: string)
    ensures t == Take(s, n) <==> t <= s && |t| <= n && (|t| == n || t == s)
  {
  }

  /** The ten digits, and how numbers are made of them. */
  lemma DecIs(n: nat, d: nat)
    requires d < 10
    ensures Dec(d) == ["0123456789"[d]] && (n > 0 ==> Dec(10 * n + d) == Dec(n) + Dec(d))
    ensures n > 0 ==> DecInt(-(n as int)) == "-" + Dec(n)
  {
    assert (10 * n + d) / 10 == n && (10 * n + d) % 10 == d;
  }
}
