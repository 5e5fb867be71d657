/** Bytes as numbers below 256, by way of their bits. */
module ByteValues {
  import opened Words

  /** The number with one more binary digit. */
  function Push(n: nat, bit: bool): nat { 2 * n + if bit then 1 else 0 }

  function Odd(n: nat): bool { n % 2 == 1 }

  lemma PushPop(n: nat, bit: bool)
    ensures Push(n, bit) / 2 == n && Odd(Push(n, bit)) == bit
    ensures Push(n / 2, Odd(n)) == n
  {}

  function Worth(b7: bool, b6: bool, b5: bool, b4: bool, b3: bool, b2: bool, b1: bool, b0: bool): (n: nat)
    ensures n < 0x100
  {
    Push(Push(Push(Push(Push(Push(Push(Push(0, b7), b6), b5), b4), b3), b2), b1), b0)
  }

  /** A byte put together from its bits. */
  function FromBits(b7: bool, b6: bool, b5: bool, b4: bool, b3: bool, b2: bool, b1: bool, b0: bool): Byte {
    (if b7 then 0x80 else 0) | (if b6 then 0x40 else 0) | (if b5 then 0x20 else 0) | (if b4 then 0x10 else 0) |
    (if b3 then 8 else 0) | (if b2 then 4 else 0) | (if b1 then 2 else 0) | (if b0 then 1 else 0)
  }

  function ByteValue(b: Byte): (n: nat)
    ensures n < 0x100
  {
    Worth(b & 0x80 != 0, b & 0x40 != 0, b & 0x20 != 0, b & 0x10 != 0, b & 8 != 0, b & 4 != 0, b & 2 != 0, b & 1 != 0)
  }

  function ByteOf(n: nat): Byte
    requires n < 0x100
  {
    var n1 := n / 2;
    var n2 := n1 / 2;
    var n3 := n2 / 2;
    var n4 := n3 / 2;
    var n5 := n4 / 2;
    var n6 := n5 / 2;
    FromBits(Odd(n6 / 2), Odd(n6), Odd(n5), Odd(n4), Odd(n3), Odd(n2), Odd(n1), Odd(n))
  }

  lemma BitsOfByte(b7: bool, b6: bool, b5: bool, b4: bool, b3: bool, b2: bool, b1: bool, b0: bool)
    ensures var b := FromBits(b7, b6, b5, b4, b3, b2, b1, b0);
            (b & 0x80 != 0) == b7 && (b & 0x40 != 0) == b6 && (b & 0x20 != 0) == b5 && (b & 0x10 != 0) == b4 &&
            (b & 8 != 0) == b3 && (b & 4 != 0) == b2 && (b & 2 != 0) == b1 && (b & 1 != 0) == b0
  {}

  lemma ByteOfBits(b: Byte)
    ensures FromBits(b & 0x80 != 0, b & 0x40 != 0, b & 0x20 != 0, b & 0x10 != 0, b & 8 != 0, b & 4 != 0, b & 2 != 0, b & 1 != 0) == b
  {}

  lemma ByteOfWorth(b7: bool, b6: bool, b5: bool, b4: bool, b3: bool, b2: bool, b1: bool, b0: bool)
    ensures ByteOf(Worth(b7, b6, b5, b4, b3, b2, b1, b0)) == FromBits(b7, b6, b5, b4, b3, b2, b1, b0)
  {
    hide Push, Odd, FromBits;
    PushPop(0, b7);
    var n7 := Push(0, b7);
    PushPop(n7, b6);
    var n6 := Push(n7, b6);
    PushPop(n6, b5);
    var n5 := Push(n6, b5);
    PushPop(n5, b4);
    var n4 := Push(n5, b4);
    PushPop(n4, b3);
    var n3 := Push(n4, b3);
    PushPop(n3, b2);
    var n2 := Push(n3, b2);
    PushPop(n2, b1);
    PushPop(Push(n2, b1), b0);
  }

  lemma ValueOfByte(b: Byte)
    ensures ByteOf(ByteValue(b)) == b
  {
    hide FromBits, Worth, ByteOf;
    ByteOfWorth(b & 0x80 != 0, b & 0x40 != 0, b & 0x20 != 0, b & 0x10 != 0, b & 8 != 0, b & 4 != 0, b & 2 != 0, b & 1 != 0);
    ByteOfBits(b);
  }

  lemma ValueOfBits(b7: bool, b6: bool, b5: bool, b4: bool, b3: bool, b2: bool, b1: bool, b0: bool)
    ensures ByteValue(FromBits(b7, b6, b5, b4, b3, b2, b1, b0)) == Worth(b7, b6, b5, b4, b3, b2, b1, b0)
  {
    hide FromBits, Worth;
    BitsOfByte(b7, b6, b5, b4, b3, b2, b1, b0);
  }

  lemma ByteOfValue(n: nat)
    requires n < 0x100
    ensures ByteValue(ByteOf(n)) == n
  {
    hide FromBits, Worth, ByteValue, Odd;
    ValueOfBits(Odd(n / 2 / 2 / 2 / 2 / 2 / 2 / 2), Odd(n / 2 / 2 / 2 / 2 / 2 / 2), Odd(n / 2 / 2 / 2 / 2 / 2), Odd(n / 2 / 2 / 2 / 2),
                Odd(n / 2 / 2 / 2), Odd(n / 2 / 2), Odd(n / 2), Odd(n));
    WorthOfHalves(n);
  }

  lemma WorthOfHalves(n: nat)
    requires n < 0x100
    ensures Worth(Odd(n / 2 / 2 / 2 / 2 / 2 / 2 / 2), Odd(n / 2 / 2 / 2 / 2 / 2 / 2), Odd(n / 2 / 2 / 2 / 2 / 2), Odd(n / 2 / 2 / 2 / 2),
                  Odd(n / 2 / 2 / 2), Odd(n / 2 / 2), Odd(n / 2), Odd(n)) == n
  {
    hide Push, Odd;
    EightHalves(n);
    PushPop(n / 2 / 2 / 2 / 2 / 2 / 2 / 2, false);
    PushPop(n / 2 / 2 / 2 / 2 / 2 / 2, false);
    PushPop(n / 2 / 2 / 2 / 2 / 2, false);
    PushPop(n / 2 / 2 / 2 / 2, false);
    PushPop(n / 2 / 2 / 2, false);
    PushPop(n / 2 / 2, false);
    PushPop(n / 2, false);
    PushPop(n, false);
  }

  lemma EightHalves(n: nat)
    requires n < 0x100
    ensures n / 2 / 2 / 2 / 2 / 2 / 2 / 2 / 2 == 0
  {}

  /** They are the byte's own values. */
  lemma ByteNumber(b: Byte)
    ensures ByteValue(b) == b as int
  {}
}
