/** C strings, and the numbers the C library prints into and reads out of them. */
module Text {
  import opened Arithmetic

  const NUL: char := '\0'

  /** Text a C string can hold. */
  predicate CText(s: string) { NUL !in s }

  /** What strchr finds: the index of the first c, or the length if there is none. */
  function IndexOf(s: string, c: char): (i: nat)
    ensures i <= |s| && c !in s[..i] && (i < |s| ==> s[i] == c)
  {
    if s == [] || s[0] == c then 0 else 1 + IndexOf(s[1..], c)
  }

  /** The C string that starts a run of bytes. */
  function CString(s: string): (t: string)
    ensures CText(t) && |t| <= |s|
  {
    s[..IndexOf(s, NUL)]
  }

  lemma {:induction false} IndexOfConcat(s: string, c: char, t: string)
    requires c !in s
    ensures IndexOf(s + [c] + t, c) == |s|
    ensures t == [] ==> IndexOf(s, c) == |s|
  {
    if s != [] {
      assert (s + [c] + t)[1..] == s[1..] + [c] + t;
      IndexOfConcat(s[1..], c, t);
    }
  }

  lemma {:induction false} IndexOfAbsent(s: string, c: char)
    ensures c !in s <==> IndexOf(s, c) == |s|
  {
    if s != [] {
      IndexOfAbsent(s[1..], c);
    }
  }

  lemma CStringConcat(s: string, t: string)
    requires CText(s)
    ensures CString(s + [NUL] + t) == s && CString(s) == s
  {
    IndexOfConcat(s, NUL, t);
    IndexOfAbsent(s, NUL);
  }

  // ---------- printing ----------

  const DIGITS := "0123456789abcdef"

  /** %u (base 10) and %lx (base 16). */
  function Printed(n: nat, base: nat): (s: string)
    requires 2 <= base <= 16
    ensures |s| > 0
  {
    if n < base then [DIGITS[n]] else
      Quotient(n, base);
      Printed(n / base, base) + [DIGITS[n % base]]
  }

  lemma Quotient(n: nat, base: nat)
    requires 2 <= base
    ensures n >= base ==> 0 < n / base < n
    ensures n == n / base * base + n % base
  {}

  // ---------- reading ----------

  /** The value of a digit, or 16 for any other character. */
  function DigitValue(c: char): (d: nat)
    ensures d <= 16
  {
    if '0' <= c <= '9' then c as int - '0' as int
    else if 'a' <= c <= 'f' then 10 + (c as int - 'a' as int)
    else if 'A' <= c <= 'F' then 10 + (c as int - 'A' as int)
    else 16
  }

  predicate IsDigit(c: char, base: nat) { DigitValue(c) < base }

  /** The digits at the start of s. */
  function DigitRun(s: string, base: nat): (n: nat)
    ensures n <= |s| && (n < |s| ==> !IsDigit(s[n], base))
    ensures forall i :: 0 <= i < n ==> IsDigit(s[i], base)
  {
    if s == [] || !IsDigit(s[0], base) then 0 else 1 + DigitRun(s[1..], base)
  }

  function Value(s: string, base: nat): nat {
    if s == [] then 0 else Value(s[..|s| - 1], base) * base + DigitValue(s[|s| - 1])
  }

  predicate IsSpace(c: char) { c == ' ' || '\t' <= c <= '\r' }

  function SkipSpaces(s: string): (t: string)
    ensures |t| <= |s|
  {
    if s != [] && IsSpace(s[0]) then SkipSpaces(s[1..]) else s
  }

  const LONG_MAX := 0x7fff_ffff
  const ULONG_MAX := 0xffff_ffff

  datatype Number = Number(negative: bool, digits: string, magnitude: nat, rest: string)

  /** White space, an optional sign, for base 16 an optional 0x, and as many digits as follow. */
  function ReadNumber(s: string, base: nat): (r: Number) {
    var t := SkipSpaces(s);
    var negative := t != [] && t[0] == '-';
    var u := if t != [] && (t[0] == '-' || t[0] == '+') then t[1..] else t;
    var v := if base == 16 && |u| > 2 && u[0] == '0' && (u[1] == 'x' || u[1] == 'X') && IsDigit(u[2], 16) then u[2..] else u;
    var n := DigitRun(v, base);
    Number(negative, v[..n], Value(v[..n], base), v[n..])
  }

  /** atoi with the 32-bit long of the target: strtol's clamping. */
  function Atoi(s: string): (r: int)
    ensures -LONG_MAX - 1 <= r <= LONG_MAX
  {
    var n := ReadNumber(s, 10);
    var v: int := if n.negative then 0 - n.magnitude else n.magnitude;
    if v < -LONG_MAX - 1 then -LONG_MAX - 1 else if v > LONG_MAX then LONG_MAX else v
  }

  /** strtoul with the 32-bit long of the target. */
  function Strtoul(s: string, base: nat): (r: nat)
    ensures r <= ULONG_MAX
  {
    Unsigned(ReadNumber(s, base))
  }

  function Unsigned(n: Number): (r: nat)
    ensures r <= ULONG_MAX
  {
    if n.magnitude > ULONG_MAX then ULONG_MAX
    else if n.negative then (ULONG_MAX + 1 - n.magnitude) % (ULONG_MAX + 1) else n.magnitude
  }

  // ---------- reading undoes printing ----------

  lemma DigitsAreDigits(d: nat)
    requires d < 16
    ensures DigitValue(DIGITS[d]) == d
  {}

  lemma PushDigit(s: string, c: char, base: nat)
    ensures Value(s + [c], base) == Value(s, base) * base + DigitValue(c)
  {
    assert (s + [c])[..|s|] == s;
  }

  lemma {:induction false} PrintedDigits(n: nat, base: nat)
    requires 2 <= base <= 16
    ensures forall i :: 0 <= i < |Printed(n, base)| ==> IsDigit(Printed(n, base)[i], base)
    ensures Value(Printed(n, base), base) == n
  {
    if n < base {
      DigitsAreDigits(n);
      assert Printed(n, base)[..0] == [];
    } else {
      Quotient(n, base);
      DigitsAreDigits(n % base);
      PrintedDigits(n / base, base);
      PushDigit(Printed(n / base, base), DIGITS[n % base], base);
    }
  }

  lemma {:induction false} DigitRunConcat(s: string, t: string, base: nat)
    requires forall i :: 0 <= i < |s| ==> IsDigit(s[i], base)
    requires t == [] || !IsDigit(t[0], base)
    ensures DigitRun(s + t, base) == |s|
  {
    if s == [] {
      assert s + t == t;
    } else {
      assert (s + t)[1..] == s[1..] + t;
      DigitRunConcat(s[1..], t, base);
    }
  }

  /** A printed number is read back, whatever non-digit follows it. */
  lemma ReadPrinted(n: nat, base: nat, t: string)
    requires 2 <= base <= 16
    requires t == [] || !IsDigit(t[0], base)
    requires base == 16 ==> t == [] || (t[0] != 'x' && t[0] != 'X')
    ensures ReadNumber(Printed(n, base) + t, base) == Number(false, Printed(n, base), n, t)
  {
    hide Printed, Value, DigitRun, IsDigit, IsSpace;
    var s := Printed(n, base);
    PrintedDigits(n, base);
    DigitIsOrdinary(s[0], base);
    if |s| > 1 { DigitIsOrdinary(s[1], base); }
    DigitRunConcat(s, t, base);
    assert (s + t)[..|s|] == s && (s + t)[|s|..] == t;
  }

  lemma DigitIsOrdinary(c: char, base: nat)
    requires base <= 16 && IsDigit(c, base)
    ensures !IsSpace(c) && c != '-' && c != '+' && c != 'x' && c != 'X'
  {}

  /** atoi recovers a printed number exactly when it is below 2^31. */
  lemma AtoiPrinted(n: nat, t: string)
    requires t == [] || !IsDigit(t[0], 10)
    ensures Atoi(Printed(n, 10) + t) == if n <= 0x7fff_ffff then n else 0x7fff_ffff
    ensures Atoi(Printed(n, 10) + t) == n <==> n <= LONG_MAX
  {
    ReadPrinted(n, 10, t);
  }

  /** With a minus in front it recovers the negative number, down to -2^31. */
  lemma AtoiNegative(n: nat, t: string)
    requires t == [] || !IsDigit(t[0], 10)
    ensures Atoi("-" + (Printed(n, 10) + t)) == if n <= 0x8000_0000 then 0 - n else -0x8000_0000
  {
    hide Printed, Value, DigitRun, IsDigit;
    var u := Printed(n, 10) + t;
    PrintedDigits(n, 10);
    DigitRunConcat(Printed(n, 10), t, 10);
    assert u[..|Printed(n, 10)|] == Printed(n, 10);
    assert ("-" + u)[1..] == u && SkipSpaces("-" + u) == "-" + u;
  }

  /** White space in front is skipped. */
  lemma {:induction false} SpacesSkipped(w: string, s: string)
    requires forall i :: 0 <= i < |w| ==> w[i] == ' ' || w[i] == '\t' || w[i] == '\n'
    ensures SkipSpaces(w + s) == SkipSpaces(s) && Atoi(w + s) == Atoi(s)
  {
    hide DigitRun, Value;
    if w == [] {
      assert w + s == s;
    } else {
      assert (w + s)[1..] == w[1..] + s;
      SpacesSkipped(w[1..], s);
    }
  }

  /** Text that does not begin with a number is 0. */
  lemma AtoiOther(s: string)
    requires s == [] || (!IsDigit(s[0], 10) && s[0] != '-' && s[0] != '+' && !IsSpace(s[0]))
    ensures Atoi(s) == 0
  {}

  lemma StrtoulPrinted(n: nat, base: nat)
    requires 2 <= base <= 16
    ensures Strtoul(Printed(n, base), base) == if n <= 0xffff_ffff then n else 0xffff_ffff
  {
    ReadPrinted(n, base, []);
    assert Printed(n, base) + [] == Printed(n, base);
  }

  /** The digits themselves, in both bases. */
  lemma PrintedValues()
    ensures Printed(0, 10) == "0" && Printed(120, 10) == "120" && Printed(4194339, 10) == "4194339" && Printed(257, 10) == "257"
    ensures Printed(10, 16) == "a" && Printed(0x1fe, 16) == "1fe"
    ensures DigitValue('0') == 0 && DigitValue('9') == 9 && DigitValue('a') == 10 && DigitValue('F') == 15
    ensures DigitValue('g') == DigitValue('G') == DigitValue('/') == DigitValue(':') == 16
  {
    PrintedStep(120, 10);
    PrintedStep(12, 10);
    PrintedStep(257, 10);
    PrintedStep(25, 10);
    PrintedStep(0x1fe, 16);
    PrintedStep(0x1f, 16);
    PrintedCommand();
  }

  lemma PrintedStep(n: nat, base: nat)
    requires 2 <= base <= 16
    ensures n >= base ==> Printed(n, base) == Printed(n / base, base) + [DIGITS[n % base]]
  {}

  lemma PrintedCommand()
    ensures Printed(4194339, 10) == "4194339"
  {
    hide Printed;
    PrintedStep(4194339, 10);
    PrintedStep(419433, 10);
    PrintedStep(41943, 10);
    PrintedStep(4194, 10);
    PrintedStep(419, 10);
    PrintedStep(41, 10);
    OneDigit();
  }

  lemma OneDigit()
    ensures Printed(4, 10) == "4"
  {}

  /** Printed numbers contain no separator of the protocol. */
  lemma PrintedPlain(n: nat, base: nat, c: char)
    requires 2 <= base <= 16 && DigitValue(c) == 16
    ensures c !in Printed(n, base)
  {
    PrintedDigits(n, base);
  }

  /** A number below base^k has at most k digits. */
  lemma {:induction false} PrintedShort(n: nat, base: nat, k: nat)
    requires 2 <= base <= 16 && 0 < k && n < Power(base, k)
    ensures |Printed(n, base)| <= k
  {
    assert Power(base, 0) == 1;
    if n >= base {
      Quotient(n, base);
      QuotientBelow(n, base, Power(base, k - 1));
      PrintedShort(n / base, base, k - 1);
    }
  }

  lemma QuotientBelow(n: nat, base: nat, q: nat)
    requires 0 < base && n < base * q
    ensures n / base < q
  {
    if n / base >= q { ProductGrows(base, q, n / base); }
  }

  lemma ProductGrows(base: nat, q: nat, r: nat)
    requires q <= r
    ensures base * q <= base * r
  {}
}
