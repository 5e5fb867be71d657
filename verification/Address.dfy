/** IPv4 addresses in dotted-decimal text. */
module Address {
  import opened Words
  import opened Text

  /** sscanf's "%u" repeated k times with '.' between: the numbers stored before the first mismatch. */
  function ScanDotted(s: string, k: nat): (r: seq<nat>)
    ensures |r| <= k
    ensures forall i :: 0 <= i < |r| ==> r[i] <= ULONG_MAX
    decreases k
  {
    if k == 0 then [] else
      var n := ReadNumber(s, 10);
      if n.digits == [] then []
      else if k > 1 && (n.rest == [] || n.rest[0] != '.') then [Unsigned(n)]
      else [Unsigned(n)] + ScanDotted(if k > 1 then n.rest[1..] else [], k - 1)
  }

  function ToWord(n: nat): Word
    requires n <= ULONG_MAX
  {
    n as Word
  }

  /** str2ip; fewer than four numbers leave the result undefined. */
  function Str2Ip(ip: string): Word
    requires |ScanDotted(ip, 4)| == 4
  {
    var p := ScanDotted(ip, 4);
    Joined(ToWord(p[0]), ToWord(p[1]), ToWord(p[2]), ToWord(p[3]))
  }

  function Joined(p1: Word, p2: Word, p3: Word, p4: Word): Word {
    (p1 << 24) | (p2 << 16) | (p3 << 8) | p4
  }

  function Dotted(a: nat, b: nat, c: nat, d: nat): string {
    Printed(a, 10) + "." + Printed(b, 10) + "." + Printed(c, 10) + "." + Printed(d, 10)
  }

  function Ip2Str(ip: Word): string {
    Dotted(OctetA(ip) as int, OctetB(ip) as int, OctetC(ip) as int, OctetD(ip) as int)
  }

  function OctetA(ip: Word): Word { (ip & 0xff00_0000) >> 24 }
  function OctetB(ip: Word): Word { (ip & 0x00ff_0000) >> 16 }
  function OctetC(ip: Word): Word { (ip & 0x0000_ff00) >> 8 }
  function OctetD(ip: Word): Word { ip & 0x0000_00ff }

  lemma ScanOne(n: nat, t: string, k: nat)
    requires n <= ULONG_MAX && k > 0
    ensures k > 1 ==> ScanDotted(Printed(n, 10) + "." + t, k) == [n] + ScanDotted(t, k - 1)
    ensures ScanDotted(Printed(n, 10), 1) == [n]
  {
    hide Printed, ReadNumber, DigitValue;
    DotIsNoDigit();
    ReadPrinted(n, 10, "." + t);
    ReadPrinted(n, 10, []);
    PrintedSome(n);
    assert Printed(n, 10) + "." + t == Printed(n, 10) + ("." + t);
    assert Printed(n, 10) + [] == Printed(n, 10);
    assert ("." + t)[1..] == t;
    assert ScanDotted([], 0) == [];
  }

  lemma PrintedSome(n: nat)
    ensures Printed(n, 10) != []
  {}

  lemma DotIsNoDigit()
    ensures !IsDigit('.', 10)
  {}

  lemma ScanPrinted(a: nat, b: nat, c: nat, d: nat)
    requires a <= ULONG_MAX && b <= ULONG_MAX && c <= ULONG_MAX && d <= ULONG_MAX
    ensures ScanDotted(Dotted(a, b, c, d), 4) == [a, b, c, d]
  {
    hide Printed, ScanDotted;
    var t3 := Printed(d, 10);
    var t2 := Printed(c, 10) + "." + t3;
    var t1 := Printed(b, 10) + "." + t2;
    assert Dotted(a, b, c, d) == Printed(a, 10) + "." + t1;
    ScanOne(a, t1, 4);
    ScanOne(b, t2, 3);
    ScanOne(c, t3, 2);
    ScanOne(d, [], 1);
  }

  /** Every 32-bit address survives printing and parsing. */
  lemma AddressRoundTrip(x: Word)
    ensures |ScanDotted(Ip2Str(x), 4)| == 4 && Str2Ip(Ip2Str(x)) == x
  {
    hide ScanDotted, Dotted, ToWord, OctetA, OctetB, OctetC, OctetD, Joined;
    WordInt(OctetA(x));
    WordInt(OctetB(x));
    WordInt(OctetC(x));
    WordInt(OctetD(x));
    ScanPrinted(OctetA(x) as int, OctetB(x) as int, OctetC(x) as int, OctetD(x) as int);
    Reassembled(x);
  }

  lemma WordInt(b: Word)
    ensures b as int <= ULONG_MAX && ToWord(b as int) == b
  {}

  lemma Reassembled(x: Word)
    ensures Joined(OctetA(x), OctetB(x), OctetC(x), OctetD(x)) == x
  {}

  /** The numbers in the text of an address are its bytes, the most significant first. */
  lemma DottedText(x: Word)
    ensures Ip2Str(x) == Printed((x >> 24) as int, 10) + "." + Printed(((x >> 16) & 0xff) as int, 10) + "." +
                         Printed(((x >> 8) & 0xff) as int, 10) + "." + Printed((x & 0xff) as int, 10)
  {
    hide Printed, Dotted;
    Octets(x);
    DottedIs((x >> 24) as int, ((x >> 16) & 0xff) as int, ((x >> 8) & 0xff) as int, (x & 0xff) as int);
  }

  lemma Octets(x: Word)
    ensures OctetA(x) == x >> 24 && OctetB(x) == (x >> 16) & 0xff && OctetC(x) == (x >> 8) & 0xff && OctetD(x) == x & 0xff
  {}

  lemma DottedIs(a: nat, b: nat, c: nat, d: nat)
    ensures Dotted(a, b, c, d) == Printed(a, 10) + "." + Printed(b, 10) + "." + Printed(c, 10) + "." + Printed(d, 10)
  {}

  /** 127.0.0.1, both ways. */
  lemma Loopback()
    ensures Ip2Str(0x7f00_0001) == "127.0.0.1"
    ensures |ScanDotted("127.0.0.1", 4)| == 4 && Str2Ip("127.0.0.1") == 0x7f00_0001
  {
    hide Ip2Str, Str2Ip, ScanDotted, Printed;
    DottedText(0x7f00_0001);
    LoopbackNumbers();
    AddressRoundTrip(0x7f00_0001);
  }

  lemma LoopbackNumbers()
    ensures Printed(127, 10) == "127" && Printed(0, 10) == "0" && Printed(1, 10) == "1"
    ensures (0x7f00_0001 as Word >> 24) as int == 127 && ((0x7f00_0001 as Word >> 16) & 0xff) as int == 0
    ensures ((0x7f00_0001 as Word >> 8) & 0xff) as int == 0 && (0x7f00_0001 as Word & 0xff) as int == 1
  {
    PrintedStep(127, 10);
    PrintedStep(12, 10);
  }
}
