/**
 * The hash index. An insertion stores the new entry in its slot before looking what was there, so a slot
 * holds only the latest entry of its bucket.
 */
module HashTable {
  import opened Arithmetic
  import opened Collections
  import opened Words
  import opened ByteValues
  import opened HashMix
  import opened DList

  /** KEY_INT and KEY_STR keys. */
  datatype Key = IntKey(value: Word) | StrKey(text: string)

  datatype Pair<+V> = Pair(key: Key, val: V)

  function CharWord(c: char): Word { Word32(c as int % 0x100) }

  /** hash * 33 + c, from 5381. */
  function StringHash(s: string): Word {
    if s == [] then Word32(5381) else Mixed(StringHash(s[..|s| - 1]), s[|s| - 1])
  }

  function Mixed(hash: Word, c: char): Word { Plus(Plus(Times(hash, 32), hash), CharWord(c)) }

  /** hash_string */
  method HashString(buf: string) returns (hash: Word)
    ensures hash == StringHash(buf)
  {
    hide Mixed, Word32;
    hash := Word32(5381);
    var i := 0;
    while i < |buf|
      invariant i <= |buf| && hash == StringHash(buf[..i])
    {
      hash := Mixed(hash, buf[i]);
      assert buf[..i + 1][..i] == buf[..i];
      i := i + 1;
    }
    assert buf[..i] == buf;
  }

  function Hashed(key: Key): Word {
    match key
    case IntKey(value) => HashInteger(value)
    case StrKey(text) => HashInteger(StringHash(text))
  }

  function Masked(w: Word, mask: Word): Word { w & mask }

  /** hash_index */
  function Index(key: Key, mask: Word): (i: nat)
    ensures i <= Number(mask)
  {
    hide *;
    MaskedSmaller(Hashed(key), mask);
    Number(Masked(Hashed(key), mask))
  }

  lemma MaskedSmaller(w: Word, mask: Word)
    ensures Number(Masked(w, mask)) <= Number(mask)
  {
    hide Byte0, Byte1, Byte2, Byte3, ByteValue, Masked;
    MaskedBytes(w, mask);
    AndSmaller(Byte0(w), Byte0(mask));
    AndSmaller(Byte1(w), Byte1(mask));
    AndSmaller(Byte2(w), Byte2(mask));
    AndSmaller(Byte3(w), Byte3(mask));
  }

  function AndByte(a: Byte, b: Byte): Byte { a & b }

  lemma MaskedBytes(w: Word, mask: Word)
    ensures Byte0(Masked(w, mask)) == AndByte(Byte0(w), Byte0(mask))
    ensures Byte1(Masked(w, mask)) == AndByte(Byte1(w), Byte1(mask))
    ensures Byte2(Masked(w, mask)) == AndByte(Byte2(w), Byte2(mask))
    ensures Byte3(Masked(w, mask)) == AndByte(Byte3(w), Byte3(mask))
  {}

  lemma AndSmaller(a: Byte, b: Byte)
    ensures ByteValue(AndByte(a, b)) <= ByteValue(b)
  {
    hide AndByte, Worth;
    var c := AndByte(a, b);
    AndBits(a, b);
    WorthGrows(c & 0x80 != 0, c & 0x40 != 0, c & 0x20 != 0, c & 0x10 != 0, c & 8 != 0, c & 4 != 0, c & 2 != 0, c & 1 != 0,
               b & 0x80 != 0, b & 0x40 != 0, b & 0x20 != 0, b & 0x10 != 0, b & 8 != 0, b & 4 != 0, b & 2 != 0, b & 1 != 0);
  }

  lemma AndBits(a: Byte, b: Byte)
    ensures var c := AndByte(a, b);
            && (c & 0x80 != 0 ==> b & 0x80 != 0) && (c & 0x40 != 0 ==> b & 0x40 != 0)
            && (c & 0x20 != 0 ==> b & 0x20 != 0) && (c & 0x10 != 0 ==> b & 0x10 != 0)
            && (c & 8 != 0 ==> b & 8 != 0) && (c & 4 != 0 ==> b & 4 != 0)
            && (c & 2 != 0 ==> b & 2 != 0) && (c & 1 != 0 ==> b & 1 != 0)
  {}

  lemma WorthGrows(a7: bool, a6: bool, a5: bool, a4: bool, a3: bool, a2: bool, a1: bool, a0: bool,
                   b7: bool, b6: bool, b5: bool, b4: bool, b3: bool, b2: bool, b1: bool, b0: bool)
    requires (a7 ==> b7) && (a6 ==> b6) && (a5 ==> b5) && (a4 ==> b4) && (a3 ==> b3) && (a2 ==> b2) && (a1 ==> b1) && (a0 ==> b0)
    ensures Worth(a7, a6, a5, a4, a3, a2, a1, a0) <= Worth(b7, b6, b5, b4, b3, b2, b1, b0)
  {
    hide Push;
    PushGrows(0, 0, a7, b7);
    var m7, n7 := Push(0, a7), Push(0, b7);
    PushGrows(m7, n7, a6, b6);
    var m6, n6 := Push(m7, a6), Push(n7, b6);
    PushGrows(m6, n6, a5, b5);
    var m5, n5 := Push(m6, a5), Push(n6, b5);
    PushGrows(m5, n5, a4, b4);
    var m4, n4 := Push(m5, a4), Push(n5, b4);
    PushGrows(m4, n4, a3, b3);
    var m3, n3 := Push(m4, a3), Push(n4, b3);
    PushGrows(m3, n3, a2, b2);
    var m2, n2 := Push(m3, a2), Push(n3, b2);
    PushGrows(m2, n2, a1, b1);
    PushGrows(Push(m2, a1), Push(n2, b1), a0, b0);
  }

  lemma PushGrows(m: nat, n: nat, a: bool, b: bool)
    requires m <= n && (a ==> b)
    ensures Push(m, a) <= Push(n, b)
  {}

  // ---------- what the index is ----------

  lemma HashedIs(v: Word, text: string)
    ensures Hashed(IntKey(v)) == HashInteger(v) && Hashed(StrKey(text)) == HashInteger(StringHash(text))
  {}

  /** c_0 * 33^(n-1) + ... + c_(n-1) for the n characters as bytes. */
  function Polynomial(s: string): nat {
    if s == [] then 0 else (s[0] as int % 0x100) * Power(33, |s| - 1) + Polynomial(s[1..])
  }

  lemma {:induction false} PolynomialMore(s: string, c: char)
    ensures Polynomial(s + [c]) == Polynomial(s) * 33 + c as int % 0x100
  {
    if s == [] {
      assert [] + [c] == [c] && [c][1..] == [];
    } else {
      var t := s + [c];
      assert t[1..] == s[1..] + [c];
      PolynomialMore(s[1..], c);
      var a, p := s[0] as int % 0x100, Power(33, |s| - 1);
      assert Power(33, |s|) == 33 * p;
      assert a * (33 * p) == a * p * 33;
    }
  }

  /** The hash of a string is 5381 * 33^n plus the polynomial, modulo 2^32. */
  lemma {:induction false} StringHashNumber(s: string)
    ensures Number(StringHash(s)) == (5381 * Power(33, |s|) + Polynomial(s)) % 0x1_0000_0000
  {
    hide Number, Word32, Mixed, Polynomial;
    if s == [] {
      NumberRoundTrip(5381, 0);
      PolynomialNothing();
    } else {
      var t, c := s[..|s| - 1], s[|s| - 1];
      assert s == t + [c];
      StringHashNumber(t);
      PolynomialMore(t, c);
      MixedNumber(StringHash(t), c);
      var x := 5381 * Power(33, |t|) + Polynomial(t);
      Remainder33(x, c as int % 0x100);
      assert Power(33, |s|) == 33 * Power(33, |t|);
    }
  }

  lemma PolynomialNothing()
    ensures Polynomial([]) == 0
  {}

  lemma MixedNumber(hash: Word, c: char)
    ensures Number(Mixed(hash, c)) == (Number(hash) * 33 + c as int % 0x100) % 0x1_0000_0000
  {
    hide Number, Plus, Times, CharWord;
    var x, b := Number(hash), c as int % 0x100;
    TimesNumber(hash, 32);
    PlusNumber(Times(hash, 32), hash);
    CharNumber(c);
    PlusNumber(Plus(Times(hash, 32), hash), CharWord(c));
    SumOfRemainder(x, x * 32);
    SumOfRemainder(b, x * 32 + x);
  }

  lemma CharNumber(c: char)
    ensures Number(CharWord(c)) == c as int % 0x100
  {
    hide Number, Word32;
    NumberRoundTrip(c as int % 0x100, 0);
  }

  lemma Remainder33(x: nat, b: nat)
    ensures (x % 0x1_0000_0000 * 33 + b) % 0x1_0000_0000 == (x * 33 + b) % 0x1_0000_0000
  {
    var q, z := x / 0x1_0000_0000, x % 0x1_0000_0000 * 33 + b;
    DivisionUnique(x * 33 + b, 0x1_0000_0000, q * 33 + z / 0x1_0000_0000, z % 0x1_0000_0000);
  }

  /** With all bits kept, integer keys never share an index. */
  lemma IntIndexInjective(u: Word, v: Word)
    ensures Index(IntKey(u), 0xffff_ffff) == Index(IntKey(v), 0xffff_ffff) <==> u == v
  {
    hide Number, HashInteger, Masked;
    KeepsAll(HashInteger(u));
    KeepsAll(HashInteger(v));
    NumberRoundTrip(0, HashInteger(u));
    NumberRoundTrip(0, HashInteger(v));
    HashIntegerBijective(u);
    HashIntegerBijective(v);
  }

  lemma KeepsAll(w: Word)
    ensures Masked(w, 0xffff_ffff) == w
  {}

  /** The last r bits of a byte are its remainder. */
  lemma LastBits(b: Byte, r: nat)
    requires r <= 8
    ensures ByteValue(AndByte(b, Ones(r))) == ByteValue(b) % Power(2, r)
  {
    hide AndByte, Worth;
    KeptBits(b, r);
    PowersOfTwo();
    WorthRemainder(b & 0x80 != 0, b & 0x40 != 0, b & 0x20 != 0, b & 0x10 != 0, b & 8 != 0, b & 4 != 0, b & 2 != 0, b & 1 != 0, r);
  }

  function Ones(r: nat): Byte {
    match r
    case 0 => 0
    case 1 => 1
    case 2 => 3
    case 3 => 7
    case 4 => 0xf
    case 5 => 0x1f
    case 6 => 0x3f
    case 7 => 0x7f
    case _ => 0xff
  }

  lemma KeptBits(b: Byte, r: nat)
    requires r <= 8
    ensures var c := AndByte(b, Ones(r));
            && (c & 0x80 != 0 <==> r > 7 && b & 0x80 != 0) && (c & 0x40 != 0 <==> r > 6 && b & 0x40 != 0)
            && (c & 0x20 != 0 <==> r > 5 && b & 0x20 != 0) && (c & 0x10 != 0 <==> r > 4 && b & 0x10 != 0)
            && (c & 8 != 0 <==> r > 3 && b & 8 != 0) && (c & 4 != 0 <==> r > 2 && b & 4 != 0)
            && (c & 2 != 0 <==> r > 1 && b & 2 != 0) && (c & 1 != 0 <==> r > 0 && b & 1 != 0)
  {}

  lemma PowersOfTwo()
    ensures Power(2, 0) == 1 && Power(2, 1) == 2 && Power(2, 2) == 4 && Power(2, 3) == 8 && Power(2, 4) == 16
    ensures Power(2, 5) == 32 && Power(2, 6) == 64 && Power(2, 7) == 128 && Power(2, 8) == 256
  {
    assert Power(2, 0) == 1;
    assert Power(2, 1) == 2 * Power(2, 0);
    assert Power(2, 2) == 2 * Power(2, 1);
    assert Power(2, 3) == 2 * Power(2, 2);
    assert Power(2, 4) == 2 * Power(2, 3);
    assert Power(2, 5) == 2 * Power(2, 4);
    assert Power(2, 6) == 2 * Power(2, 5);
    assert Power(2, 7) == 2 * Power(2, 6);
    assert Power(2, 8) == 2 * Power(2, 7);
  }

  lemma WorthRemainder(b7: bool, b6: bool, b5: bool, b4: bool, b3: bool, b2: bool, b1: bool, b0: bool, r: nat)
    requires r <= 8
    ensures Worth(r > 7 && b7, r > 6 && b6, r > 5 && b5, r > 4 && b4, r > 3 && b3, r > 2 && b2, r > 1 && b1, r > 0 && b0) ==
            Worth(b7, b6, b5, b4, b3, b2, b1, b0) % Power(2, r)
  {
    hide Push, Power;
    var n7 := Push(0, b7);
    var n6 := Push(n7, b6);
    var n5 := Push(n6, b5);
    var n4 := Push(n5, b4);
    var n3 := Push(n4, b3);
    var n2 := Push(n3, b2);
    var n1 := Push(n2, b1);
    KeptPush(0, b7, r, 7);
    KeptPush(n7, b6, r, 6);
    KeptPush(n6, b5, r, 5);
    KeptPush(n5, b4, r, 4);
    KeptPush(n4, b3, r, 3);
    KeptPush(n3, b2, r, 2);
    KeptPush(n2, b1, r, 1);
    KeptPush(n1, b0, r, 0);
    LowDigits(0, r, 8);
    LowDigits(Push(n1, b0), r, 0);
  }

  /** What r binary digits at the end keep of a number from which k digits at the end are missing. */
  function Low(n: nat, r: nat, k: nat): nat { if r <= k then 0 else n % Power(2, r - k) }

  lemma LowDigits(n: nat, r: nat, k: nat)
    ensures r <= 8 <= k ==> Low(n, r, k) == 0
    ensures Low(n, r, 0) == n % Power(2, r)
    ensures Low(0, r, k) == 0
  {
    if r == 0 { assert Power(2, 0) == 1; }
  }

  lemma KeptPush(n: nat, bit: bool, r: nat, k: nat)
    ensures Push(Low(n, r, k + 1), r > k && bit) == Low(Push(n, bit), r, k)
  {
    if r > k {
      var m := Power(2, r - k - 1);
      assert Power(2, r - k) == 2 * m;
      var q := n / m;
      DivisionUnique(Push(n, bit), 2 * m, q, Push(n % m, bit));
      if r == k + 1 { assert m == 1; }
    }
  }

  /** A mask of k ones keeps the remainder by 2^k. */
  lemma MaskedRemainder(w: Word, mask: Word, k: nat)
    requires k <= 32 && Number(mask) + 1 == Power(2, k)
    ensures Number(Masked(w, mask)) == Number(w) % Power(2, k)
  {
    hide Number, Masked, Power;
    MaskBytes(mask, k);
    NumberBytes(w);
    NumberBytes(Masked(w, mask));
    MaskedBytes(w, mask);
    LastBits(Byte0(w), OnesIn(k, 24));
    LastBits(Byte1(w), OnesIn(k, 16));
    LastBits(Byte2(w), OnesIn(k, 8));
    LastBits(Byte3(w), OnesIn(k, 0));
    RemainderByBytes(ByteValue(Byte0(w)), ByteValue(Byte1(w)), ByteValue(Byte2(w)), ByteValue(Byte3(w)), k);
  }

  /** How many of k ones at the end of a word lie in the byte that begins `from` places from the end. */
  function OnesIn(k: nat, from: nat): (r: nat)
    ensures r <= 8
  {
    if k <= from then 0 else if k >= from + 8 then 8 else k - from
  }

  lemma NumberBytes(w: Word)
    ensures Number(w) == ByteValue(Byte0(w)) * 0x100_0000 + ByteValue(Byte1(w)) * 0x1_0000 + ByteValue(Byte2(w)) * 0x100 + ByteValue(Byte3(w))
  {}

  lemma MaskBytes(mask: Word, k: nat)
    requires k <= 32 && Number(mask) + 1 == Power(2, k)
    ensures Byte0(mask) == Ones(OnesIn(k, 24)) && Byte1(mask) == Ones(OnesIn(k, 16))
    ensures Byte2(mask) == Ones(OnesIn(k, 8)) && Byte3(mask) == Ones(OnesIn(k, 0))
  {
    hide Number, Byte0, Byte1, Byte2, Byte3, ByteValue, Power, Ones;
    OnesDigits(k);
    OnesValue(OnesIn(k, 24));
    OnesValue(OnesIn(k, 16));
    OnesValue(OnesIn(k, 8));
    OnesValue(OnesIn(k, 0));
    BytesOfNumber(mask, Ones(OnesIn(k, 24)), Ones(OnesIn(k, 16)), Ones(OnesIn(k, 8)), Ones(OnesIn(k, 0)));
  }

  /** A number determines its bytes. */
  lemma BytesOfNumber(w: Word, b0: Byte, b1: Byte, b2: Byte, b3: Byte)
    requires Number(w) == ByteValue(b0) * 0x100_0000 + ByteValue(b1) * 0x1_0000 + ByteValue(b2) * 0x100 + ByteValue(b3)
    ensures Byte0(w) == b0 && Byte1(w) == b1 && Byte2(w) == b2 && Byte3(w) == b3
  {
    hide Number, Byte0, Byte1, Byte2, Byte3, ByteValue, Pack;
    var v := Pack(b0, b1, b2, b3);
    UnpackPack(b0, b1, b2, b3);
    NumberBytes(v);
    assert Number(v) == Number(w);
    NumberRoundTrip(0, v);
    NumberRoundTrip(0, w);
  }

  lemma OnesValue(r: nat)
    requires r <= 8
    ensures ByteValue(Ones(r)) + 1 == Power(2, r)
  {
    hide ByteValue, Power;
    PowersOfTwo();
    OnesValues();
  }

  lemma OnesValues()
    ensures ByteValue(0) == 0 && ByteValue(1) == 1 && ByteValue(3) == 3 && ByteValue(7) == 7 && ByteValue(0xf) == 15
    ensures ByteValue(0x1f) == 31 && ByteValue(0x3f) == 63 && ByteValue(0x7f) == 127 && ByteValue(0xff) == 255
  {
    ByteNumber(0);
    ByteNumber(1);
    ByteNumber(3);
    ByteNumber(7);
    ByteNumber(0xf);
    ByteNumber(0x1f);
    ByteNumber(0x3f);
    ByteNumber(0x7f);
    ByteNumber(0xff);
  }

  /** The bytes of 2^k - 1. */
  lemma OnesDigits(k: nat)
    requires k <= 32
    ensures Power(2, k) - 1 == (Power(2, OnesIn(k, 24)) - 1) * 0x100_0000 + (Power(2, OnesIn(k, 16)) - 1) * 0x1_0000 +
                               (Power(2, OnesIn(k, 8)) - 1) * 0x100 + (Power(2, OnesIn(k, 0)) - 1)
  {
    PowersOfTwo();
    PowerShift(k);
  }

  /** A power of two is a whole number of bytes and a small power. */
  lemma PowerShift(k: nat)
    requires k <= 32
    ensures k >= 24 ==> Power(2, k) == Power(2, k - 24) * 0x100_0000
    ensures k >= 16 ==> Power(2, k) == Power(2, k - 16) * 0x1_0000
    ensures k >= 8 ==> Power(2, k) == Power(2, k - 8) * 0x100
  {
    hide Power;
    if k >= 8 { PowerByte(k - 8); }
    if k >= 16 { PowerByte(k - 16); }
    if k >= 24 { PowerByte(k - 24); }
  }

  lemma PowerByte(k: nat)
    ensures Power(2, k + 8) == Power(2, k) * 0x100
  {
    assert Power(2, k + 1) == 2 * Power(2, k);
    assert Power(2, k + 2) == 2 * Power(2, k + 1);
    assert Power(2, k + 3) == 2 * Power(2, k + 2);
    assert Power(2, k + 4) == 2 * Power(2, k + 3);
    assert Power(2, k + 5) == 2 * Power(2, k + 4);
    assert Power(2, k + 6) == 2 * Power(2, k + 5);
    assert Power(2, k + 7) == 2 * Power(2, k + 6);
    assert Power(2, k + 8) == 2 * Power(2, k + 7);
  }

  lemma RemainderByBytes(v0: nat, v1: nat, v2: nat, v3: nat, k: nat)
    requires v0 < 0x100 && v1 < 0x100 && v2 < 0x100 && v3 < 0x100 && k <= 32
    ensures Power(2, k) > 0
    ensures (v0 * 0x100_0000 + v1 * 0x1_0000 + v2 * 0x100 + v3) % Power(2, k) ==
            v0 % Power(2, OnesIn(k, 24)) * 0x100_0000 + v1 % Power(2, OnesIn(k, 16)) * 0x1_0000 +
            v2 % Power(2, OnesIn(k, 8)) * 0x100 + v3 % Power(2, OnesIn(k, 0))
  {
    hide Power;
    NothingAndAll(v0);
    NothingAndAll(v1);
    NothingAndAll(v2);
    NothingAndAll(v3);
    if k >= 24 {
      HighRemainder(v0, v1 * 0x1_0000 + v2 * 0x100 + v3, k - 24, 0x100_0000);
      PowerShift(k);
    } else if k >= 16 {
      HighRemainder(v0 * 0x100 + v1, v2 * 0x100 + v3, k - 16, 0x1_0000);
      PowerShift(k);
      LowRemainder(v0, v1, k - 16);
    } else if k >= 8 {
      HighRemainder(v0 * 0x1_0000 + v1 * 0x100 + v2, v3, k - 8, 0x100);
      PowerShift(k);
      LowRemainder(v0 * 0x100 + v1, v2, k - 8);
    } else {
      LowRemainder(v0 * 0x1_0000 + v1 * 0x100 + v2, v3, k);
    }
  }

  lemma NothingAndAll(v: nat)
    requires v < 0x100
    ensures Power(2, 0) == 1 && v % Power(2, 0) == 0 && Power(2, 8) == 0x100 && v % Power(2, 8) == v
  {
    PowersOfTwo();
  }

  /** A remainder by a multiple of m takes the digits below m as they are. */
  lemma HighRemainder(high: nat, low: nat, r: nat, m: nat)
    requires 0 < m && low < m
    ensures Power(2, r) * m > 0 && (high * m + low) % (Power(2, r) * m) == high % Power(2, r) * m + low
  {
    hide Power;
    var p := Power(2, r);
    var q, z := high / p, high % p;
    Distribute(q, p, z, m);
    MultipleGap(p, z, m);
    DivisionUnique(high * m + low, p * m, q, z * m + low);
  }

  lemma Distribute(q: nat, p: nat, z: nat, m: nat)
    ensures (q * p + z) * m == q * (p * m) + z * m
  {}

  /** A remainder by a divisor of 2^8 leaves out everything above a byte. */
  lemma LowRemainder(high: nat, low: nat, r: nat)
    requires low < 0x100 && r <= 8
    ensures (high * 0x100 + low) % Power(2, r) == low % Power(2, r)
  {
    hide Power;
    var p := Power(2, r);
    var c := Cofactor(r);
    var q := low / p;
    assert high * 0x100 == high * (c * p) == high * c * p;
    DivisionUnique(high * 0x100 + low, p, high * c + q, low % p);
  }

  lemma Cofactor(r: nat) returns (c: nat)
    requires r <= 8
    ensures c * Power(2, r) == 0x100
  {
    hide Power;
    PowersOfTwo();
    c := match r
      case 0 => 256
      case 1 => 128
      case 2 => 64
      case 3 => 32
      case 4 => 16
      case 5 => 8
      case 6 => 4
      case 7 => 2
      case _ => 1;
  }

  /** With a mask of k ones, the index is the remainder of the hash by 2^k. */
  lemma IndexRemainder(key: Key, mask: Word, k: nat)
    requires k <= 32 && Number(mask) + 1 == Power(2, k)
    ensures Index(key, mask) == Number(Hashed(key)) % Power(2, k)
  {
    hide Number, Masked, Power, Hashed;
    MaskedRemainder(Hashed(key), mask, k);
  }

  // ---------- buckets ----------

  type Buckets<V> = map<nat, Pair<V>>

  function Inserted<V>(b: Buckets<V>, key: Key, val: V, mask: Word): Buckets<V> {
    b[Index(key, mask) := Pair(key, val)]
  }

  function Found<V>(b: Buckets<V>, key: Key, mask: Word): Option<V> {
    var i := Index(key, mask);
    if i in b && b[i].key == key then Some(b[i].val) else None
  }

  function Deleted<V>(b: Buckets<V>, key: Key, mask: Word): Buckets<V> {
    if Found(b, key, mask).Some? then b - {Index(key, mask)} else b
  }

  // ---------- any sequence of insertions and deletions ----------

  datatype Op<V> = Insert(key: Key, val: V) | Delete(key: Key)

  function Replay<V>(ops: seq<Op<V>>, mask: Word): Buckets<V> {
    if ops == [] then map[] else
      var b := Replay(ops[..|ops| - 1], mask);
      match ops[|ops| - 1]
      case Insert(key, val) => Inserted(b, key, val, mask)
      case Delete(key) => Deleted(b, key, mask)
  }

  /** An operation after which an earlier insertion of `key` is gone: into its bucket, or its own deletion. */
  predicate Displaces<V>(op: Op<V>, key: Key, mask: Word) {
    match op
    case Insert(k, _) => Index(k, mask) == Index(key, mask)
    case Delete(k) => k == key
  }

  /** The i-th operation inserted the key with this value, and nothing has displaced it since. */
  ghost predicate Current<V>(ops: seq<Op<V>>, key: Key, val: V, mask: Word, i: nat) {
    i < |ops| && ops[i] == Insert(key, val) && forall j :: i < j < |ops| ==> !Displaces(ops[j], key, mask)
  }

  /** A search finds exactly the value of an insertion of the key that nothing has displaced. */
  lemma {:induction false} FoundIsCurrent<V>(ops: seq<Op<V>>, key: Key, val: V, mask: Word)
    ensures Found(Replay(ops, mask), key, mask) == Some(val) <==> exists i: nat :: Current(ops, key, val, mask, i)
  {
    hide Index, Found, Replay, Displaces;
    if ops != [] {
      FoundIsCurrent(ops[..|ops| - 1], key, val, mask);
      if Found(Replay(ops, mask), key, mask) == Some(val) {
        FoundHasWitness(ops, key, val, mask);
      }
      if i: nat :| Current(ops, key, val, mask, i) {
        CurrentIsFound(ops, key, val, mask, i);
      }
    } else {
      NothingFound(key, val, mask);
    }
  }

  lemma NothingFound<V>(key: Key, val: V, mask: Word)
    ensures Found(Replay([], mask), key, mask) != Some(val)
    ensures forall i: nat :: !Current([], key, val, mask, i)
  {}

  lemma CurrentIsFound<V>(ops: seq<Op<V>>, key: Key, val: V, mask: Word, i: nat)
    requires ops != [] && Current(ops, key, val, mask, i)
    requires var before := ops[..|ops| - 1];
             (exists j: nat :: Current(before, key, val, mask, j)) ==> Found(Replay(before, mask), key, mask) == Some(val)
    ensures Found(Replay(ops, mask), key, mask) == Some(val)
  {
    hide Index;
    var n := |ops| - 1;
    if i < n {
      assert Current(ops[..n], key, val, mask, i);
      assert !Displaces(ops[n], key, mask);
    }
  }

  lemma FoundHasWitness<V>(ops: seq<Op<V>>, key: Key, val: V, mask: Word)
    requires ops != [] && Found(Replay(ops, mask), key, mask) == Some(val)
    requires var before := ops[..|ops| - 1];
             Found(Replay(before, mask), key, mask) == Some(val) ==> exists i: nat :: Current(before, key, val, mask, i)
    ensures exists i: nat :: Current(ops, key, val, mask, i)
  {
    hide Index;
    var n := |ops| - 1;
    var before, op := ops[..n], ops[n];
    if Displaces(op, key, mask) {
      assert op == Insert(key, val);
      assert Current(ops, key, val, mask, n);
    } else {
      assert Found(Replay(before, mask), key, mask) == Some(val);
      var i: nat :| Current(before, key, val, mask, i);
      assert Current(ops, key, val, mask, i);
    }
  }

  // ---------- the table ----------

  class Hash<V> {
    const slots: array<Node?<Pair<V>>>
    const mask: Word  // hash_size, one less than the number of slots

    /** Slots hold nodes of their own bucket. */
    ghost predicate Shaped()
      reads this, slots
    {
      && slots.Length == Number(mask) + 1
      && forall i :: 0 <= i < slots.Length && slots[i] != null ==>
           slots[i].entry.Some? && Index(slots[i].entry.value.key, mask) == i
    }

    /** Each of them is the whole of its ring. */
    ghost predicate Valid()
      reads this, slots, slots[..]
    {
      Shaped() && forall i :: 0 <= i < slots.Length && slots[i] != null ==> Ring([slots[i]])
    }

    ghost function Contents(): (b: Buckets<V>)
      requires Shaped()
      reads this, slots
    {
      map i: nat | i < slots.Length && slots[i] != null :: slots[i].entry.value
    }

    /** create_hash */
    constructor (mask: Word)
      ensures Valid() && this.mask == mask && Contents() == map[] && fresh(slots)
    {
      this.mask := mask;
      slots := new Node?<Pair<V>>[Number(mask) + 1](_ => null);
    }

    method Put(key: Key, val: V)
      requires Valid()
      modifies slots
      ensures Valid() && Contents() == Inserted(old(Contents()), key, val, mask)
      ensures forall i :: 0 <= i < slots.Length ==> slots[i] == old(slots[i]) || fresh(slots[i])
    {
      hide Index, Number;
      var entry := new Node(Some(Pair(key, val)));
      var idx := Index(key, mask);
      slots[idx] := entry;
      AddTail(entry, entry, [entry]);
    }

    method Find(key: Key) returns (val: Option<V>)
      requires Valid()
      ensures val == Found(Contents(), key, mask)
    {
      hide Index, Number;
      var idx := Index(key, mask);
      var entry := slots[idx];
      if entry == null {
        return None;
      }
      if entry.entry.value.key == key {
        return Some(entry.entry.value.val);
      }
      // the walk along the ring, from entry.next back to entry, is over at once
      assert entry.next == entry by { assert Succ(0, 1) == 0 && [entry][0].next == [entry][Succ(0, 1)]; }
      return None;
    }

    method Del(key: Key) returns (val: Option<V>)
      requires Valid()
      modifies slots
      ensures Valid() && val == Found(old(Contents()), key, mask)
      ensures Contents() == Deleted(old(Contents()), key, mask)
    {
      hide Index, Number;
      var idx := Index(key, mask);
      var entry := slots[idx];
      if entry == null {
        return None;
      }
      if entry.entry.value.key == key {
        val := Some(entry.entry.value.val);
        slots[idx] := null;
        return;
      }
      assert entry.next == entry by { assert Succ(0, 1) == 0 && [entry][0].next == [entry][Succ(0, 1)]; }
      return None;
    }
  }
}
