/** The 32-bit mix function is a bijection, with an explicit inverse. */
module HashMix {
  import opened Arithmetic
  import opened Words
  import opened ByteValues

  const MODULUS := 0x1_0000_0000

  // ---------- unsigned arithmetic on words ----------

  function Number(w: Word): (n: nat)
    ensures n < MODULUS
  {
    ByteValue(Byte0(w)) * 0x100_0000 + ByteValue(Byte1(w)) * 0x1_0000 + ByteValue(Byte2(w)) * 0x100 + ByteValue(Byte3(w))
  }

  function Word32(n: nat): Word
    requires n < MODULUS
  {
    Pack(ByteOf(n / 0x100_0000), ByteOf(n / 0x1_0000 % 0x100), ByteOf(n / 0x100 % 0x100), ByteOf(n % 0x100))
  }

  lemma Digits(n: nat)
    requires n < MODULUS
    ensures n / 0x100_0000 * 0x100_0000 + n / 0x1_0000 % 0x100 * 0x1_0000 + n / 0x100 % 0x100 * 0x100 + n % 0x100 == n
  {
    assert n / 0x100 / 0x100 == n / 0x1_0000 && n / 0x1_0000 / 0x100 == n / 0x100_0000;
  }

  lemma DigitsUnique(b0: nat, b1: nat, b2: nat, b3: nat)
    requires b0 < 0x100 && b1 < 0x100 && b2 < 0x100 && b3 < 0x100
    ensures var n := b0 * 0x100_0000 + b1 * 0x1_0000 + b2 * 0x100 + b3;
            n / 0x100_0000 == b0 && n / 0x1_0000 % 0x100 == b1 && n / 0x100 % 0x100 == b2 && n % 0x100 == b3
  {
    var n := b0 * 0x100_0000 + b1 * 0x1_0000 + b2 * 0x100 + b3;
    DivisionUnique(n, 0x100_0000, b0, b1 * 0x1_0000 + b2 * 0x100 + b3);
    DivisionUnique(n, 0x1_0000, b0 * 0x100 + b1, b2 * 0x100 + b3);
    DivisionUnique(n, 0x100, b0 * 0x1_0000 + b1 * 0x100 + b2, b3);
    DivisionUnique(b0 * 0x100 + b1, 0x100, b0, b1);
    DivisionUnique(b0 * 0x1_0000 + b1 * 0x100 + b2, 0x100, b0 * 0x100 + b1, b2);
  }

  lemma NumberRoundTrip(n: nat, w: Word)
    ensures n < MODULUS ==> Number(Word32(n)) == n
    ensures Word32(Number(w)) == w
  {
    if n < MODULUS { NumberOfWord(n); }
    WordOfNumber(w);
  }

  lemma NumberOfWord(n: nat)
    requires n < MODULUS
    ensures Number(Word32(n)) == n
  {
    hide Byte0, Byte1, Byte2, Byte3, Pack, ByteOf, ByteValue;
    var b0, b1, b2, b3 := n / 0x100_0000, n / 0x1_0000 % 0x100, n / 0x100 % 0x100, n % 0x100;
    ByteOfValue(b0);
    ByteOfValue(b1);
    ByteOfValue(b2);
    ByteOfValue(b3);
    UnpackPack(ByteOf(b0), ByteOf(b1), ByteOf(b2), ByteOf(b3));
    Digits(n);
  }

  lemma WordOfNumber(w: Word)
    ensures Word32(Number(w)) == w
  {
    hide Byte0, Byte1, Byte2, Byte3, Pack, ByteOf, ByteValue;
    ValueOfByte(Byte0(w));
    ValueOfByte(Byte1(w));
    ValueOfByte(Byte2(w));
    ValueOfByte(Byte3(w));
    DigitsUnique(ByteValue(Byte0(w)), ByteValue(Byte1(w)), ByteValue(Byte2(w)), ByteValue(Byte3(w)));
    PackUnpack(w);
  }

  /** a + b, k << n and ~k for unsigned int. */
  function Plus(a: Word, b: Word): Word { Word32((Number(a) + Number(b)) % 0x1_0000_0000) }
  function Times(k: Word, c: nat): Word { Word32(Number(k) * c % 0x1_0000_0000) }
  function Complement(k: Word): Word { Word32(0xffff_ffff - Number(k)) }

  // ---------- the six steps ----------

  function Add15(k: Word): Word { Plus(k, Complement(Times(k, 0x8000))) }  // key += ~(key << 15)
  function Xor10(k: Word): Word { XorWord(k, Right10(k)) }                  // key ^= key >> 10
  function Add3(k: Word): Word { Plus(k, Times(k, 8)) }                     // key += key << 3
  function Xor6(k: Word): Word { XorWord(k, Right6(k)) }                    // key ^= key >> 6
  function Add11(k: Word): Word { Plus(k, Complement(Times(k, 0x800))) }   // key += ~(key << 11)
  function Xor16(k: Word): Word { XorWord(k, Right16(k)) }                  // key ^= key >> 16

  function Right6(k: Word): Word { k >> 6 }
  function Right10(k: Word): Word { k >> 10 }
  function Right12(k: Word): Word { k >> 12 }
  function Right16(k: Word): Word { k >> 16 }
  function Right20(k: Word): Word { k >> 20 }
  function Right24(k: Word): Word { k >> 24 }

  function HashInteger(key: Word): Word {
    Xor16(Add11(Xor6(Add3(Xor10(Add15(key))))))
  }

  // ---------- undoing them ----------

  /** 1 + 2^15 + 2^30, 0x38e38e39 and 1 + 2^11 + 2^22 invert 1 - 2^15, 9 and 1 - 2^11 modulo 2^32. */
  function UnAdd15(k: Word): Word { Word32((Number(k) + 1) * 0x4000_8001 % 0x1_0000_0000) }
  function UnAdd3(k: Word): Word { Times(k, 0x38e3_8e39) }
  function UnAdd11(k: Word): Word { Word32((Number(k) + 1) * 0x40_0801 % 0x1_0000_0000) }

  function Xor12(k: Word): Word { XorWord(k, Right12(k)) }
  function Xor20(k: Word): Word { XorWord(k, Right20(k)) }
  function Xor24(k: Word): Word { XorWord(k, Right24(k)) }

  /** The same step with the shift, with twice the shift, and so on until nothing is left to shift. */
  function UnXor10(k: Word): Word { Xor20(Xor10(k)) }
  function UnXor6(k: Word): Word { Xor24(Xor12(Xor6(k))) }

  function UnhashInteger(h: Word): Word {
    UnAdd15(UnXor10(UnAdd3(UnXor6(UnAdd11(Xor16(h))))))
  }

  lemma Add3Number(x: nat)
    requires x < MODULUS
    ensures (x + x * 8 % 0x1_0000_0000) % 0x1_0000_0000 * 0x38e3_8e39 % 0x1_0000_0000 == x
    ensures var u := x * 0x38e3_8e39 % 0x1_0000_0000;
            (u + u * 8 % 0x1_0000_0000) % 0x1_0000_0000 == x
  {
    var q1, q2 := x * 8 / 0x1_0000_0000, (x + x * 8 % 0x1_0000_0000) / 0x1_0000_0000;
    var y := (x + x * 8 % 0x1_0000_0000) % 0x1_0000_0000;
    assert y == 9 * x - (q1 + q2) * 0x1_0000_0000;
    DivisionUnique(y * 0x38e3_8e39, 0x1_0000_0000, 2 * x - (q1 + q2) * 0x38e3_8e39, x);
    var q3 := x * 0x38e3_8e39 / 0x1_0000_0000;
    var u := x * 0x38e3_8e39 % 0x1_0000_0000;
    var q4 := u * 8 / 0x1_0000_0000;
    DivisionUnique(u + u * 8 % 0x1_0000_0000, 0x1_0000_0000, 2 * x - 9 * q3 - q4, x);
  }

  /** The numbers of Add15, Add11 and what undoes them. */
  function Mixed15(x: nat): (y: nat)
    ensures y < MODULUS
  {
    (x + (0xffff_ffff - x * 0x8000 % 0x1_0000_0000)) % 0x1_0000_0000
  }

  function Unmixed15(x: nat): (y: nat)
    ensures y < MODULUS
  {
    (x + 1) * 0x4000_8001 % 0x1_0000_0000
  }

  function Mixed11(x: nat): (y: nat)
    ensures y < MODULUS
  {
    (x + (0xffff_ffff - x * 0x800 % 0x1_0000_0000)) % 0x1_0000_0000
  }

  function Unmixed11(x: nat): (y: nat)
    ensures y < MODULUS
  {
    (x + 1) * 0x40_0801 % 0x1_0000_0000
  }

  /** (1 - 2^15) times its inverse is 1 - 0x2000 * 2^32. */
  lemma Add15Number(x: nat)
    requires x < MODULUS
    ensures Unmixed15(Mixed15(x)) == x && Mixed15(Unmixed15(x)) == x
  {
    var sum := x + (0xffff_ffff - x * 0x8000 % 0x1_0000_0000);
    var q1, q2 := x * 0x8000 / 0x1_0000_0000, sum / 0x1_0000_0000;
    var y := sum % 0x1_0000_0000;
    assert y + 1 == x - 0x8000 * x + (1 + q1 - q2) * 0x1_0000_0000;
    DivisionUnique((y + 1) * 0x4000_8001, 0x1_0000_0000, (1 + q1 - q2) * 0x4000_8001 - 0x2000 * x, x);
    var q3 := (x + 1) * 0x4000_8001 / 0x1_0000_0000;
    var u := (x + 1) * 0x4000_8001 % 0x1_0000_0000;
    var q4 := u * 0x8000 / 0x1_0000_0000;
    DivisionUnique(u + (0xffff_ffff - u * 0x8000 % 0x1_0000_0000), 0x1_0000_0000, 1 + q4 + (0x8000 - 1) * q3 - 0x2000 * (x + 1), x);
  }

  /** (1 - 2^11) times its inverse is 1 - 2 * 2^32. */
  lemma Add11Number(x: nat)
    requires x < MODULUS
    ensures Unmixed11(Mixed11(x)) == x && Mixed11(Unmixed11(x)) == x
  {
    var sum := x + (0xffff_ffff - x * 0x800 % 0x1_0000_0000);
    var q1, q2 := x * 0x800 / 0x1_0000_0000, sum / 0x1_0000_0000;
    var y := sum % 0x1_0000_0000;
    assert y + 1 == x - 0x800 * x + (1 + q1 - q2) * 0x1_0000_0000;
    DivisionUnique((y + 1) * 0x40_0801, 0x1_0000_0000, (1 + q1 - q2) * 0x40_0801 - 2 * x, x);
    var q3 := (x + 1) * 0x40_0801 / 0x1_0000_0000;
    var u := (x + 1) * 0x40_0801 % 0x1_0000_0000;
    var q4 := u * 0x800 / 0x1_0000_0000;
    DivisionUnique(u + (0xffff_ffff - u * 0x800 % 0x1_0000_0000), 0x1_0000_0000, 1 + q4 + (0x800 - 1) * q3 - 2 * (x + 1), x);
  }

  lemma Add3Undone(k: Word)
    ensures UnAdd3(Add3(k)) == k && Add3(UnAdd3(k)) == k
  {
    hide Number, Word32;
    var x := Number(k);
    Add3Number(x);
    NumberRoundTrip(x * 8 % 0x1_0000_0000, k);
    NumberRoundTrip((x + x * 8 % 0x1_0000_0000) % 0x1_0000_0000, k);
    var u := x * 0x38e3_8e39 % 0x1_0000_0000;
    NumberRoundTrip(u, k);
    NumberRoundTrip(u * 8 % 0x1_0000_0000, k);
  }

  lemma Add15Undone(k: Word)
    ensures UnAdd15(Add15(k)) == k && Add15(UnAdd15(k)) == k
  {
    hide Number, Word32, Mixed15, Unmixed15, Add15, UnAdd15;
    Add15IsMixed(k);
    Add15IsMixed(UnAdd15(k));
    UnAdd15IsUnmixed(k);
    UnAdd15IsUnmixed(Add15(k));
    Add15Number(Number(k));
    NumberRoundTrip(0, UnAdd15(Add15(k)));
    NumberRoundTrip(0, Add15(UnAdd15(k)));
    NumberRoundTrip(0, k);
  }

  lemma Add15IsMixed(k: Word)
    ensures Number(Add15(k)) == Mixed15(Number(k))
  {
    hide Number, Word32;
    var x := Number(k);
    NumberRoundTrip(x * 0x8000 % 0x1_0000_0000, k);
    NumberRoundTrip(0xffff_ffff - x * 0x8000 % 0x1_0000_0000, k);
    NumberRoundTrip(Mixed15(x), k);
  }

  lemma UnAdd15IsUnmixed(k: Word)
    ensures Number(UnAdd15(k)) == Unmixed15(Number(k))
  {
    hide Number, Word32;
    NumberRoundTrip(Unmixed15(Number(k)), k);
  }

  lemma Add11Undone(k: Word)
    ensures UnAdd11(Add11(k)) == k && Add11(UnAdd11(k)) == k
  {
    hide Number, Word32, Mixed11, Unmixed11, Add11, UnAdd11;
    Add11IsMixed(k);
    Add11IsMixed(UnAdd11(k));
    UnAdd11IsUnmixed(k);
    UnAdd11IsUnmixed(Add11(k));
    Add11Number(Number(k));
    NumberRoundTrip(0, UnAdd11(Add11(k)));
    NumberRoundTrip(0, Add11(UnAdd11(k)));
    NumberRoundTrip(0, k);
  }

  lemma Add11IsMixed(k: Word)
    ensures Number(Add11(k)) == Mixed11(Number(k))
  {
    hide Number, Word32;
    var x := Number(k);
    NumberRoundTrip(x * 0x800 % 0x1_0000_0000, k);
    NumberRoundTrip(0xffff_ffff - x * 0x800 % 0x1_0000_0000, k);
    NumberRoundTrip(Mixed11(x), k);
  }

  lemma UnAdd11IsUnmixed(k: Word)
    ensures Number(UnAdd11(k)) == Unmixed11(Number(k))
  {
    hide Number, Word32;
    NumberRoundTrip(Unmixed11(Number(k)), k);
  }

  // Shifting distributes over exclusive-or; two shifts add up, and their order does not matter.

  lemma Right6Xor(a: Word, b: Word)
    ensures Right6(XorWord(a, b)) == XorWord(Right6(a), Right6(b))
  {}

  lemma Right10Xor(a: Word, b: Word)
    ensures Right10(XorWord(a, b)) == XorWord(Right10(a), Right10(b))
  {}

  lemma Right12Xor(a: Word, b: Word)
    ensures Right12(XorWord(a, b)) == XorWord(Right12(a), Right12(b))
  {}

  lemma Right16Xor(a: Word, b: Word)
    ensures Right16(XorWord(a, b)) == XorWord(Right16(a), Right16(b))
  {}

  lemma Right20Xor(a: Word, b: Word)
    ensures Right20(XorWord(a, b)) == XorWord(Right20(a), Right20(b))
  {}

  lemma Right24Xor(a: Word, b: Word)
    ensures Right24(XorWord(a, b)) == XorWord(Right24(a), Right24(b))
  {}

  lemma RightTwice(a: Word)
    ensures Right6(Right6(a)) == Right12(a) && Right12(Right12(a)) == Right24(a) && Right24(Right24(a)) == 0
    ensures Right10(Right10(a)) == Right20(a) && Right20(Right20(a)) == 0 && Right16(Right16(a)) == 0
  {}

  lemma RightCommutes(a: Word)
    ensures Right6(Right12(a)) == Right12(Right6(a)) && Right6(Right24(a)) == Right24(Right6(a))
    ensures Right10(Right20(a)) == Right20(Right10(a))
  {}

  lemma XorTelescope(a: Word, b: Word, c: Word)
    ensures XorWord(XorWord(a, b), XorWord(b, c)) == XorWord(a, c)
  {}

  lemma XorRegroup(a: Word, b: Word, c: Word, d: Word)
    ensures XorWord(XorWord(a, b), XorWord(c, d)) == XorWord(XorWord(a, c), XorWord(b, d))
  {
    hide XorWord;
    XorAssociates(a, b, XorWord(c, d));
    XorAssociates(b, c, d);
    XorCommutes(b, c);
    XorAssociates(c, b, d);
    XorAssociates(a, c, XorWord(b, d));
  }

  lemma XorCommutes(a: Word, b: Word)
    ensures XorWord(a, b) == XorWord(b, a)
  {}

  lemma XorZero(a: Word)
    ensures XorWord(a, 0) == a
  {}

  lemma Xor6Twice(k: Word)
    ensures Xor6(Xor6(k)) == Xor12(k)
  {
    hide XorWord, Right6, Right12;
    Right6Xor(k, Right6(k));
    RightTwice(k);
    XorTelescope(k, Right6(k), Right12(k));
  }

  lemma Xor12Twice(k: Word)
    ensures Xor12(Xor12(k)) == Xor24(k)
  {
    hide XorWord, Right12, Right24;
    Right12Xor(k, Right12(k));
    RightTwice(k);
    XorTelescope(k, Right12(k), Right24(k));
  }

  lemma Xor24Twice(k: Word)
    ensures Xor24(Xor24(k)) == k
  {
    hide XorWord, Right24;
    Right24Xor(k, Right24(k));
    RightTwice(k);
    XorTelescope(k, Right24(k), 0);
    XorZero(k);
  }

  lemma Xor10Twice(k: Word)
    ensures Xor10(Xor10(k)) == Xor20(k)
  {
    hide XorWord, Right10, Right20;
    Right10Xor(k, Right10(k));
    RightTwice(k);
    XorTelescope(k, Right10(k), Right20(k));
  }

  lemma Xor20Twice(k: Word)
    ensures Xor20(Xor20(k)) == k
  {
    hide XorWord, Right20;
    Right20Xor(k, Right20(k));
    RightTwice(k);
    XorTelescope(k, Right20(k), 0);
    XorZero(k);
  }

  lemma Xor16Twice(k: Word)
    ensures Xor16(Xor16(k)) == k
  {
    hide XorWord, Right16;
    Right16Xor(k, Right16(k));
    RightTwice(k);
    XorTelescope(k, Right16(k), 0);
    XorZero(k);
  }

  lemma Xor6Xor12(k: Word)
    ensures Xor6(Xor12(k)) == Xor12(Xor6(k))
  {
    hide XorWord, Right6, Right12;
    Right6Xor(k, Right12(k));
    Right12Xor(k, Right6(k));
    RightCommutes(k);
    XorRegroup(k, Right12(k), Right6(k), Right6(Right12(k)));
  }

  lemma Xor6Xor24(k: Word)
    ensures Xor6(Xor24(k)) == Xor24(Xor6(k))
  {
    hide XorWord, Right6, Right24;
    Right6Xor(k, Right24(k));
    Right24Xor(k, Right6(k));
    RightCommutes(k);
    XorRegroup(k, Right24(k), Right6(k), Right6(Right24(k)));
  }

  lemma Xor10Xor20(k: Word)
    ensures Xor10(Xor20(k)) == Xor20(Xor10(k))
  {
    hide XorWord, Right10, Right20;
    Right10Xor(k, Right20(k));
    Right20Xor(k, Right10(k));
    RightCommutes(k);
    XorRegroup(k, Right20(k), Right10(k), Right10(Right20(k)));
  }

  lemma Xor10Undone(k: Word)
    ensures UnXor10(Xor10(k)) == k && Xor10(UnXor10(k)) == k
  {
    hide Xor10, Xor20;
    Xor10Twice(k);
    Xor20Twice(k);
    Xor10Xor20(Xor10(k));
  }

  lemma Xor6Undone(k: Word)
    ensures UnXor6(Xor6(k)) == k && Xor6(UnXor6(k)) == k
  {
    hide Xor6, Xor12, Xor24;
    Xor6Twice(k);
    Xor12Twice(k);
    Xor24Twice(k);
    Xor6Xor24(Xor12(Xor6(k)));
    Xor6Xor12(Xor6(k));
  }

  /** No two keys collide, and every word is some key's hash. */
  lemma HashIntegerBijective(key: Word)
    ensures UnhashInteger(HashInteger(key)) == key && HashInteger(UnhashInteger(key)) == key
  {
    hide Add15, Xor10, Add3, Xor6, Add11, Xor16, UnAdd15, UnXor10, UnAdd3, UnXor6, UnAdd11;
    var k1 := Add15(key);
    var k2 := Xor10(k1);
    var k3 := Add3(k2);
    var k4 := Xor6(k3);
    var k5 := Add11(k4);
    Add15Undone(key);
    Xor10Undone(k1);
    Add3Undone(k2);
    Xor6Undone(k3);
    Add11Undone(k4);
    Xor16Twice(k5);
    var h5 := Xor16(key);
    var h4 := UnAdd11(h5);
    var h3 := UnXor6(h4);
    var h2 := UnAdd3(h3);
    var h1 := UnXor10(h2);
    Xor16Twice(key);
    Add11Undone(h5);
    Xor6Undone(h4);
    Add3Undone(h3);
    Xor10Undone(h2);
    Add15Undone(h1);
  }

  // ---------- what the mix computes ----------

  /** The number of a word is the sum of its bytes by their weights. */
  lemma NumberWeights(w: Word, b0: Byte, b1: Byte, b2: Byte, b3: Byte)
    requires w >> 24 == b0 as Word && (w >> 16) & 0xff == b1 as Word && (w >> 8) & 0xff == b2 as Word && w & 0xff == b3 as Word
    ensures Number(w) == b0 as int * 0x100_0000 + b1 as int * 0x1_0000 + b2 as int * 0x100 + b3 as int
  {
    hide Byte0, Byte1, Byte2, Byte3, ByteValue;
    TopBytes(w, b0, b1, b2, b3);
    ByteNumber(b0);
    ByteNumber(b1);
    ByteNumber(b2);
    ByteNumber(b3);
  }

  lemma TopBytes(w: Word, b0: Byte, b1: Byte, b2: Byte, b3: Byte)
    requires w >> 24 == b0 as Word && (w >> 16) & 0xff == b1 as Word && (w >> 8) & 0xff == b2 as Word && w & 0xff == b3 as Word
    ensures Byte0(w) == b0 && Byte1(w) == b1 && Byte2(w) == b2 && Byte3(w) == b3
  {}

  /** The six steps of the mix, sums and products on numbers and shifts on words. */
  lemma HashSteps(key: Word) returns (k1: Word, k2: Word, k3: Word, k4: Word, k5: Word)
    ensures Number(k1) == (Number(key) + (0xffff_ffff - Number(key) * 0x8000 % 0x1_0000_0000)) % 0x1_0000_0000
    ensures k2 == XorWord(k1, Right10(k1))
    ensures Number(k3) == (Number(k2) + Number(k2) * 8) % 0x1_0000_0000
    ensures k4 == XorWord(k3, Right6(k3))
    ensures Number(k5) == (Number(k4) + (0xffff_ffff - Number(k4) * 0x800 % 0x1_0000_0000)) % 0x1_0000_0000
    ensures HashInteger(key) == XorWord(k5, Right16(k5))
  {
    hide Number, Add15, Add3, Add11, XorWord;
    k1 := Add15(key);
    k2 := Xor10(k1);
    k3 := Add3(k2);
    k4 := Xor6(k3);
    k5 := Add11(k4);
    Add15IsMixed(key);
    Add3Is(k2);
    Add11IsMixed(k4);
  }

  /** The shifts of the mix, by their number of places. */
  lemma Shifts(k: Word)
    ensures Right10(k) == k >> 10 && Right6(k) == k >> 6 && Right16(k) == k >> 16
  {}

  lemma Add3Is(k: Word)
    ensures Number(Add3(k)) == (Number(k) + Number(k) * 8) % 0x1_0000_0000
  {
    hide Number, Word32;
    var x := Number(k);
    NumberRoundTrip(x * 8 % 0x1_0000_0000, k);
    NumberRoundTrip((x + x * 8 % 0x1_0000_0000) % 0x1_0000_0000, k);
    SumOfRemainder(x, x * 8);
  }

  lemma PlusNumber(a: Word, b: Word)
    ensures Number(Plus(a, b)) == (Number(a) + Number(b)) % 0x1_0000_0000
  {
    hide Number, Word32;
    NumberRoundTrip((Number(a) + Number(b)) % 0x1_0000_0000, a);
  }

  lemma TimesNumber(k: Word, c: nat)
    ensures Number(Times(k, c)) == Number(k) * c % 0x1_0000_0000
  {
    hide Number, Word32;
    NumberRoundTrip(Number(k) * c % 0x1_0000_0000, k);
  }

  lemma SumOfRemainder(x: nat, y: nat)
    ensures (x + y % 0x1_0000_0000) % 0x1_0000_0000 == (x + y) % 0x1_0000_0000
  {
    var q := y / 0x1_0000_0000;
    var z := x + y % 0x1_0000_0000;
    DivisionUnique(x + y, 0x1_0000_0000, q + z / 0x1_0000_0000, z % 0x1_0000_0000);
  }
}
