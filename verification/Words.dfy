/** Bytes, 32-bit words and 64-bit words as the i686 target stores them. */
module Words {
  type Byte = bv8
  type Word = bv32

  function XorByte(a: Byte, b: Byte): Byte { a ^ b }
  function XorWord(a: Word, b: Word): Word { a ^ b }
  /** Addition modulo 2^32. */
  function AddWord(a: Word, b: Word): Word { a + b }
  function XorLong(a: bv64, b: bv64): bv64 { a ^ b }

  // ---------- 32-bit words ----------

  /** The byte of weight 2^24: `w.byte0` under ORDER_DCBA; byte3 is the lowest. */
  function Byte0(w: Word): Byte { ((w >> 24) & 0xff) as Byte }
  function Byte1(w: Word): Byte { ((w >> 16) & 0xff) as Byte }
  function Byte2(w: Word): Byte { ((w >> 8) & 0xff) as Byte }
  function Byte3(w: Word): Byte { (w & 0xff) as Byte }

  function Pack(b0: Byte, b1: Byte, b2: Byte, b3: Byte): Word {
    ((b0 as Word) << 24) | ((b1 as Word) << 16) | ((b2 as Word) << 8) | (b3 as Word)
  }

  /** Most significant byte first. */
  function BigEndian(w: Word): (b: seq<Byte>)
    ensures |b| == 4
  {
    [Byte0(w), Byte1(w), Byte2(w), Byte3(w)]
  }

  function FromBigEndian(b: seq<Byte>): Word
    requires |b| == 4
  {
    Pack(b[0], b[1], b[2], b[3])
  }

  /** A word as the little-endian processor reads it from memory. */
  function LoadWord(b: seq<Byte>): Word
    requires |b| == 4
  {
    Pack(b[3], b[2], b[1], b[0])
  }

  function StoredWord(w: Word): (b: seq<Byte>)
    ensures |b| == 4
  {
    [Byte3(w), Byte2(w), Byte1(w), Byte0(w)]
  }

  /** The word whose big-endian bytes are this word's little-endian bytes. */
  function ChangeOrder(w: Word): Word {
    Pack(Byte3(w), Byte2(w), Byte1(w), Byte0(w))
  }

  lemma PackUnpack(w: Word)
    ensures Pack(Byte0(w), Byte1(w), Byte2(w), Byte3(w)) == w
  {}

  lemma UnpackPack(b0: Byte, b1: Byte, b2: Byte, b3: Byte)
    ensures Byte0(Pack(b0, b1, b2, b3)) == b0
    ensures Byte1(Pack(b0, b1, b2, b3)) == b1
    ensures Byte2(Pack(b0, b1, b2, b3)) == b2
    ensures Byte3(Pack(b0, b1, b2, b3)) == b3
  {}

  lemma BigEndianRoundTrip(w: Word, b: seq<Byte>)
    requires |b| == 4
    ensures FromBigEndian(BigEndian(w)) == w
    ensures BigEndian(FromBigEndian(b)) == b
  {
    PackUnpack(w);
    UnpackPack(b[0], b[1], b[2], b[3]);
  }

  lemma ChangeOrderInvolution(w: Word)
    ensures ChangeOrder(ChangeOrder(w)) == w
  {
    UnpackPack(Byte3(w), Byte2(w), Byte1(w), Byte0(w));
    PackUnpack(w);
  }

  /** Reordering on a little-endian processor reads and writes the bytes big-endian. */
  lemma ChangeOrderIsBigEndian(w: Word, b: seq<Byte>)
    requires |b| == 4
    ensures ChangeOrder(LoadWord(b)) == FromBigEndian(b)
    ensures StoredWord(ChangeOrder(w)) == BigEndian(w)
  {
    UnpackPack(b[3], b[2], b[1], b[0]);
    UnpackPack(Byte3(w), Byte2(w), Byte1(w), Byte0(w));
  }

  /** The bytes of a word, most significant first, by their weights. */
  lemma BigEndianWeights(w: Word, b: seq<Byte>)
    requires |b| == 4
    ensures var v := FromBigEndian(b);
            && v >> 24 == b[0] as Word && (v >> 16) & 0xff == b[1] as Word
            && (v >> 8) & 0xff == b[2] as Word && v & 0xff == b[3] as Word
    ensures var c := BigEndian(w);
            && c[0] as Word == w >> 24 && c[1] as Word == (w >> 16) & 0xff
            && c[2] as Word == (w >> 8) & 0xff && c[3] as Word == w & 0xff
  {}

  /** In memory the byte of the lowest weight comes first. */
  lemma LittleEndianWeights(w: Word, b: seq<Byte>)
    requires |b| == 4
    ensures var v := LoadWord(b);
            && v >> 24 == b[3] as Word && (v >> 16) & 0xff == b[2] as Word
            && (v >> 8) & 0xff == b[1] as Word && v & 0xff == b[0] as Word
    ensures var c := StoredWord(w);
            && c[3] as Word == w >> 24 && c[2] as Word == (w >> 16) & 0xff
            && c[1] as Word == (w >> 8) & 0xff && c[0] as Word == w & 0xff
  {}

  /** Reordering exchanges the outer and the inner bytes. */
  lemma ChangeOrderBytes(w: Word)
    ensures var v := ChangeOrder(w);
            && v >> 24 == w & 0xff && (v >> 16) & 0xff == (w >> 8) & 0xff
            && (v >> 8) & 0xff == (w >> 16) & 0xff && v & 0xff == w >> 24
  {}

  // The named operations are the machine's.

  lemma Sum(a: Word, b: Word)
    ensures AddWord(a, b) == a + b
  {}

  lemma Exclusive(a: Word, b: Word)
    ensures XorWord(a, b) == a ^ b
  {}

  lemma ExclusiveBytes(a: Byte, b: Byte)
    ensures XorByte(a, b) == a ^ b
  {}

  lemma ExclusiveLong(a: bv64, b: bv64)
    ensures XorLong(a, b) == a ^ b
  {}

  // ---------- 64-bit words ----------

  function PackLong(lo: Word, hi: Word): bv64 {
    ((hi as bv64) << 32) | (lo as bv64)
  }

  function Low(v: bv64): Word { (v & 0xffff_ffff) as Word }
  function High(v: bv64): Word { ((v >> 32) & 0xffff_ffff) as Word }

  function LoadLong(b: seq<Byte>): bv64
    requires |b| == 8
  {
    PackLong(LoadWord(b[..4]), LoadWord(b[4..]))
  }

  function StoredLong(v: bv64): (b: seq<Byte>)
    ensures |b| == 8
  {
    StoredWord(Low(v)) + StoredWord(High(v))
  }

  /** The word of the lower weight comes first. */
  lemma LongWeights(v: bv64, b: seq<Byte>)
    requires |b| == 8
    ensures LoadLong(b) & 0xffff_ffff == LoadWord(b[..4]) as bv64 && LoadLong(b) >> 32 == LoadWord(b[4..]) as bv64
    ensures LoadWord(StoredLong(v)[..4]) as bv64 == v & 0xffff_ffff && LoadWord(StoredLong(v)[4..]) as bv64 == v >> 32
  {
    hide LoadWord, StoredWord;
    StoredHalves(v);
    Halves64(LoadWord(b[..4]), LoadWord(b[4..]), v);
  }

  lemma Halves64(lo: Word, hi: Word, v: bv64)
    ensures PackLong(lo, hi) & 0xffff_ffff == lo as bv64 && PackLong(lo, hi) >> 32 == hi as bv64
    ensures Low(v) as bv64 == v & 0xffff_ffff && High(v) as bv64 == v >> 32
  {}

  lemma StoredHalves(v: bv64)
    ensures LoadWord(StoredLong(v)[..4]) == Low(v) && LoadWord(StoredLong(v)[4..]) == High(v)
  {
    hide LoadWord, StoredWord;
    assert StoredLong(v)[..4] == StoredWord(Low(v)) && StoredLong(v)[4..] == StoredWord(High(v));
    LoadOfStored(Low(v));
    LoadOfStored(High(v));
  }

  lemma LoadOfStored(w: Word)
    ensures LoadWord(StoredWord(w)) == w
  {
    PackUnpack(w);
  }

  /** Exclusive-or byte by byte. */
  function Xor(a: seq<Byte>, b: seq<Byte>): (r: seq<Byte>)
    requires |a| == |b|
    ensures |r| == |a|
    ensures forall i :: 0 <= i < |r| ==> r[i] == XorByte(a[i], b[i])
  {
    seq(|a|, i requires 0 <= i < |a| => XorByte(a[i], b[i]))
  }

  lemma XorByteUndo(a: Byte, b: Byte)
    ensures XorByte(XorByte(a, b), b) == a
  {}

  lemma XorWordUndo(a: Word, b: Word)
    ensures XorWord(XorWord(a, b), b) == a
  {}

  lemma XorAssociates(a: Word, b: Word, c: Word)
    ensures XorWord(XorWord(a, b), c) == XorWord(a, XorWord(b, c))
  {}

  lemma XorUndo(a: seq<Byte>, b: seq<Byte>)
    requires |a| == |b|
    ensures Xor(Xor(a, b), b) == a
  {
    forall i | 0 <= i < |a| ensures Xor(Xor(a, b), b)[i] == a[i] { XorByteUndo(a[i], b[i]); }
  }

  lemma StoredLongRoundTrip(v: bv64, b: seq<Byte>)
    requires |b| == 8
    ensures LoadLong(StoredLong(v)) == v
    ensures StoredLong(LoadLong(b)) == b
  {
    assert StoredLong(v)[..4] == StoredWord(Low(v)) && StoredLong(v)[4..] == StoredWord(High(v));
    PackUnpack(Low(v));
    PackUnpack(High(v));
    PackLongRoundTrip(v, LoadWord(b[..4]), LoadWord(b[4..]));
    UnpackPack(b[3], b[2], b[1], b[0]);
    UnpackPack(b[7], b[6], b[5], b[4]);
    assert b == b[..4] + b[4..];
  }

  lemma PackLongRoundTrip(v: bv64, lo: Word, hi: Word)
    ensures PackLong(Low(v), High(v)) == v
    ensures Low(PackLong(lo, hi)) == lo && High(PackLong(lo, hi)) == hi
  {}

  /** Exclusive-or of 64-bit words in memory is exclusive-or byte by byte. */
  lemma StoredXor(v: bv64, w: bv64)
    ensures StoredLong(XorLong(v, w)) == Xor(StoredLong(v), StoredLong(w))
  {
    hide XorByte, XorWord, XorLong, High, Low, StoredWord;
    XorLow(v, w);
    XorHigh(v, w);
    StoredWordXor(Low(v), Low(w));
    StoredWordXor(High(v), High(w));
    assert StoredLong(XorLong(v, w)) == StoredWord(XorWord(Low(v), Low(w))) + StoredWord(XorWord(High(v), High(w)));
  }

  lemma StoredWordXor(v: Word, w: Word)
    ensures StoredWord(XorWord(v, w)) == Xor(StoredWord(v), StoredWord(w))
  {
    hide XorByte, XorWord, Byte0, Byte1, Byte2, Byte3;
    XorByte0(v, w);
    XorByte1(v, w);
    XorByte2(v, w);
    XorByte3(v, w);
  }

  lemma XorLow(v: bv64, w: bv64)
    ensures Low(XorLong(v, w)) == XorWord(Low(v), Low(w))
  {}

  lemma XorHigh(v: bv64, w: bv64)
    ensures High(XorLong(v, w)) == XorWord(High(v), High(w))
  {}

  lemma XorByte0(v: Word, w: Word)
    ensures Byte0(XorWord(v, w)) == XorByte(Byte0(v), Byte0(w))
  {}

  lemma XorByte1(v: Word, w: Word)
    ensures Byte1(XorWord(v, w)) == XorByte(Byte1(v), Byte1(w))
  {}

  lemma XorByte2(v: Word, w: Word)
    ensures Byte2(XorWord(v, w)) == XorByte(Byte2(v), Byte2(w))
  {}

  lemma XorByte3(v: Word, w: Word)
    ensures Byte3(XorWord(v, w)) == XorByte(Byte3(v), Byte3(w))
  {}
}
