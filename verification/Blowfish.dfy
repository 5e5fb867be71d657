/** The cipher object and its in-place loops. */
module Blowfish {
  import opened Words
  import opened Feistel
  import opened KeySchedule
  import opened Cbc

  const CBC: bv32 := 0x0002
  const PKCS5: bv32 := 0x0020

  predicate Chained(mode: bv32) { mode & CBC != 0 }
  predicate Pads(mode: bv32) { mode & PKCS5 != 0 }

  /** GetOutputLength, in 32-bit arithmetic. */
  function OutputLength(inputLong: nat, mode: bv32): (r: nat)
    requires inputLong < 0x1_0000_0000
    ensures r % 8 == 0
    ensures r == BLOCK * BlocksFor(inputLong, Pads(mode)) <==> inputLong <= 0xffff_ffff - (if Pads(mode) then 8 else 7)
  {
    var n := if Pads(mode) then (inputLong + 1) % 0x1_0000_0000 else inputLong;
    (n + 7) % 0x1_0000_0000 / 8 * 8
  }

  // ---------- words in a byte buffer ----------

  method ReadWord(a: array<Byte>, off: nat) returns (w: Word)
    requires off + 4 <= a.Length
    ensures w == LoadWord(a[off..off + 4])
  {
    w := Pack(a[off + 3], a[off + 2], a[off + 1], a[off]);
  }

  method WriteWord(a: array<Byte>, off: nat, w: Word)
    requires off + 4 <= a.Length
    modifies a
    ensures a[off..off + 4] == StoredWord(w)
    ensures a[..off] == old(a[..off]) && a[off + 4..] == old(a[off + 4..])
  {
    a[off] := Byte3(w);
    a[off + 1] := Byte2(w);
    a[off + 2] := Byte1(w);
    a[off + 3] := Byte0(w);
  }

  method ReadLong(a: array<Byte>, off: nat) returns (v: bv64)
    requires off + 8 <= a.Length
    ensures v == LoadLong(a[off..off + 8])
  {
    var lo := ReadWord(a, off);
    var hi := ReadWord(a, off + 4);
    assert a[off..off + 8][..4] == a[off..off + 4] && a[off..off + 8][4..] == a[off + 4..off + 8];
    v := PackLong(lo, hi);
  }

  method WriteLong(a: array<Byte>, off: nat, v: bv64)
    requires off + 8 <= a.Length
    modifies a
    ensures a[off..off + 8] == StoredLong(v)
    ensures a[..off] == old(a[..off]) && a[off + 8..] == old(a[off + 8..])
  {
    hide StoredWord, Low, High;
    ghost var before := a[..];
    WriteWord(a, off, Low(v));
    ghost var half := a[..];
    TailSame(half, before, off);
    WriteWord(a, off + 4, High(v));
    HeadSame(a[..], half, off);
    TwoHalves(a[..], off);
  }

  /** change_order: reverses the four bytes of a word in the buffer. */
  method ChangeOrderAt(a: array<Byte>, off: nat)
    requires off + 4 <= a.Length
    modifies a
    ensures a[off..off + 4] == StoredWord(ChangeOrder(old(LoadWord(a[off..off + 4]))))
    ensures a[..off] == old(a[..off]) && a[off + 4..] == old(a[off + 4..])
  {
    var w := ReadWord(a, off);
    WriteWord(a, off, ChangeOrder(w));
  }

  /** `*(_int64 *)p ^= iv` exclusive-ors the eight bytes at p with the bytes of iv. */
  method XorLongAt(a: array<Byte>, off: nat, iv: bv64)
    requires off + 8 <= a.Length
    modifies a
    ensures a[off..off + 8] == Xor(old(a[off..off + 8]), StoredLong(iv))
    ensures a[..off] == old(a[..off]) && a[off + 8..] == old(a[off + 8..])
  {
    hide StoredLong, LoadLong, XorLong, XorByte;
    var v := ReadLong(a, off);
    WriteLong(a, off, XorLong(v, iv));
    StoredXor(v, iv);
    StoredLongRoundTrip(v, old(a[off..off + 8]));
  }

  class CBlowFish {
    const PArray: array<Word>
    const SBoxes: array<Word>  // four rows of 256

    ghost predicate Valid()
      reads this
    {
      PArray.Length == 18 && SBoxes.Length == 1024 && PArray != SBoxes
    }

    ghost function Contents(): (t: Tables)
      requires Valid()
      reads this, PArray, SBoxes
      ensures t.Sized()
    {
      Tables(PArray[..], SBoxes[..])
    }

    /** CreateBlowFish: bfP and bfS are the digit tables of blowfish.h2. */
    constructor (bfP: seq<Word>, bfS: seq<Word>, key: seq<Byte>)
      requires |bfP| == 18 && |bfS| == 1024 && |key| > 0
      ensures Valid() && fresh(PArray) && fresh(SBoxes)
      ensures Contents() == Schedule(bfP, bfS, key)
    {
      PArray := new Word[18];
      SBoxes := new Word[1024];
      new;
      Initialize(bfP, bfS, key);
    }

    /** bf_F. */
    method Mix(x: Word) returns (r: Word)
      requires Valid()
      ensures r == F(Contents().s, x)
    {
      hide AddWord, XorWord, Byte0, Byte1, Byte2, Byte3;
      r := AddWord(SBoxes[Byte0(x) as int], SBoxes[256 + Byte1(x) as int]);
      r := XorWord(r, SBoxes[512 + Byte2(x) as int]);
      r := AddWord(r, SBoxes[768 + Byte3(x) as int]);
    }

    /** ROUND(a, b, n): the new value of a. */
    method Round(a: Word, b: Word, n: nat) returns (r: Word)
      requires Valid() && n < 18
      ensures r == XorWord(XorWord(a, F(Contents().s, b)), Contents().p[n])
    {
      var f := Mix(b);
      r := XorWord(a, XorWord(f, PArray[n]));
      XorAssociates(a, f, PArray[n]);
    }

    /** One line of the unrolled code: ROUND(Xr, Xl, i); ROUND(Xl, Xr, j). */
    method RoundPair(Xl: Word, Xr: Word, i: nat, j: nat, ghost t: Tables, ghost l: Word, ghost r: Word, ghost n: nat)
      returns (Xl': Word, Xr': Word)
      requires Valid() && i < 18 && j < 18
      requires t.Sized() && n <= 14 && t.s == Contents().s
      requires Contents().p[i] == t.p[n + 1] && Contents().p[j] == t.p[n + 2]
      requires Reached(t, l, r, n, Xl, Xr)
      ensures Reached(t, l, r, n + 2, Xl', Xr')
    {
      hide F, XorWord, Reached;
      Xr' := Round(Xr, Xl, i);
      Xl' := Round(Xl, Xr', j);
      ReachedStep(t, l, r, n, Xl, Xr, Xl', Xr');
    }

    /** The sixteen unrolled rounds, which never swap, compute the published cipher. */
    method Encipher(xl: Word, xr: Word) returns (yl: Word, yr: Word)
      requires Valid()
      ensures (yl, yr) == Feistel.Encipher(Contents(), xl, xr)
    {
      hide XorWord, Feistel.Encipher, Reached;
      ghost var t := Contents();
      var Xl, Xr := xl, xr;
      Xl := XorWord(Xl, PArray[0]);
      ReachedEnds(t, xl, xr, Xl, Xr);
      Xl, Xr := RoundPair(Xl, Xr, 1, 2, t, xl, xr, 0);
      Xl, Xr := RoundPair(Xl, Xr, 3, 4, t, xl, xr, 2);
      Xl, Xr := RoundPair(Xl, Xr, 5, 6, t, xl, xr, 4);
      Xl, Xr := RoundPair(Xl, Xr, 7, 8, t, xl, xr, 6);
      Xl, Xr := RoundPair(Xl, Xr, 9, 10, t, xl, xr, 8);
      Xl, Xr := RoundPair(Xl, Xr, 11, 12, t, xl, xr, 10);
      Xl, Xr := RoundPair(Xl, Xr, 13, 14, t, xl, xr, 12);
      Xl, Xr := RoundPair(Xl, Xr, 15, 16, t, xl, xr, 14);
      ReachedEnds(t, xl, xr, Xl, Xr);
      Xr := XorWord(Xr, PArray[17]);
      yr := Xl;
      yl := Xr;
    }

    /** The same rounds with the P-array read downwards compute its inverse. */
    method Decipher(xl: Word, xr: Word) returns (yl: Word, yr: Word)
      requires Valid()
      ensures (yl, yr) == Feistel.Decipher(Contents(), xl, xr)
    {
      hide XorWord, Feistel.Encipher, Reached;
      ghost var t := Reversed(Contents());
      var Xl, Xr := xl, xr;
      Xl := XorWord(Xl, PArray[17]);
      ReachedEnds(t, xl, xr, Xl, Xr);
      Xl, Xr := RoundPair(Xl, Xr, 16, 15, t, xl, xr, 0);
      Xl, Xr := RoundPair(Xl, Xr, 14, 13, t, xl, xr, 2);
      Xl, Xr := RoundPair(Xl, Xr, 12, 11, t, xl, xr, 4);
      Xl, Xr := RoundPair(Xl, Xr, 10, 9, t, xl, xr, 6);
      Xl, Xr := RoundPair(Xl, Xr, 8, 7, t, xl, xr, 8);
      Xl, Xr := RoundPair(Xl, Xr, 6, 5, t, xl, xr, 10);
      Xl, Xr := RoundPair(Xl, Xr, 4, 3, t, xl, xr, 12);
      Xl, Xr := RoundPair(Xl, Xr, 2, 1, t, xl, xr, 14);
      ReachedEnds(t, xl, xr, Xl, Xr);
      Xr := XorWord(Xr, PArray[0]);
      yl := Xr;
      yr := Xl;
    }

    /** Constructs the encryption sieve: each block is enciphered with the tables being rewritten. */
    method Initialize(bfP: seq<Word>, bfS: seq<Word>, key: seq<Byte>)
      requires Valid() && |bfP| == 18 && |bfS| == 1024 && |key| > 0
      modifies PArray, SBoxes
      ensures Contents() == Schedule(bfP, bfS, key)
    {
      hide Fold, Stored, KeyedP;
      forall i | 0 <= i < 18 { PArray[i] := bfP[i]; }
      forall i | 0 <= i < 1024 { SBoxes[i] := bfS[i]; }
      assert PArray[..] == bfP && SBoxes[..] == bfS;
      MixKey(bfP, key);
      ghost var t := Tables(KeyedP(bfP, key), bfS);
      var datal, datar: Word := 0, 0;
      FoldStart(t);
      var i := 0;
      while i < 18
        invariant 0 <= i <= 18 && i % 2 == 0
        invariant Progress(Contents(), datal, datar) == Fold(t, i / 2)
      {
        datal, datar := ReplaceBlock(PArray, i, datal, datar, t, i / 2);
        i := i + 2;
      }
      i := 0;
      while i < 4
        invariant 0 <= i <= 4
        invariant Progress(Contents(), datal, datar) == Fold(t, 9 + 128 * i)
      {
        var j := 0;
        while j < 256
          invariant 0 <= j <= 256 && j % 2 == 0
          invariant Progress(Contents(), datal, datar) == Fold(t, 9 + 128 * i + j / 2)
        {
          datal, datar := ReplaceBlock(SBoxes, 256 * i + j, datal, datar, t, 9 + 128 * i + j / 2);
          j := j + 2;
        }
        i := i + 1;
      }
    }

    /** Enciphers the running block and stores it over the words i and i + 1 of a table. */
    method ReplaceBlock(table: array<Word>, i: nat, datal: Word, datar: Word, ghost t: Tables, ghost k: nat)
      returns (l: Word, r: Word)
      requires Valid() && t.Sized() && k < BLOCKS
      requires if k < 9 then table == PArray && i == 2 * k else table == SBoxes && i == 2 * k - 18
      requires Progress(Contents(), datal, datar) == Fold(t, k)
      modifies table
      ensures Progress(Contents(), l, r) == Fold(t, k + 1)
    {
      hide Feistel.Encipher;
      l, r := Encipher(datal, datar);
      table[i] := l;
      table[i + 1] := r;
    }

    /** The key, cyclically, four bytes to a word. */
    method MixKey(bfP: seq<Word>, key: seq<Byte>)
      requires Valid() && |bfP| == 18 && |key| > 0 && PArray[..] == bfP
      modifies PArray
      ensures PArray[..] == KeyedP(bfP, key)
    {
      hide XorWord, Pack;
      var i, j := 0, 0;
      while i < 18
        invariant 0 <= i <= 18 && j == 4 * i
        invariant PArray[..i] == KeyedP(bfP, key)[..i] && PArray[i..] == bfP[i..]
      {
        var b0 := key[j % |key|];
        j := j + 1;
        var b1 := key[j % |key|];
        j := j + 1;
        var b2 := key[j % |key|];
        j := j + 1;
        var b3 := key[j % |key|];
        j := j + 1;
        assert PArray[i] == bfP[i];
        PArray[i] := XorWord(PArray[i], Pack(b0, b1, b2, b3));
        i := i + 1;
      }
    }

    /** The two words at off, read and written most significant byte first, enciphered where they lie. */
    method EncipherAt(a: array<Byte>, off: nat)
      requires Valid() && off + 8 <= a.Length
      modifies a
      ensures a[off..off + 8] == EncryptBlock(Contents(), old(a[off..off + 8]))
      ensures a[..off] == old(a[..off]) && a[off + 8..] == old(a[off + 8..])
    {
      hide Feistel.Encipher, LoadWord, StoredWord, ChangeOrder, BigEndian, FromBigEndian;
      var l, r := TakeWords(a, off);
      l, r := Encipher(l, r);
      PutWords(a, off, l, r);
    }

    method DecipherAt(a: array<Byte>, off: nat)
      requires Valid() && off + 8 <= a.Length
      modifies a
      ensures a[off..off + 8] == DecryptBlock(Contents(), old(a[off..off + 8]))
      ensures a[..off] == old(a[..off]) && a[off + 8..] == old(a[off + 8..])
    {
      hide Feistel.Decipher, LoadWord, StoredWord, ChangeOrder, BigEndian, FromBigEndian;
      var l, r := TakeWords(a, off);
      l, r := Decipher(l, r);
      PutWords(a, off, l, r);
    }

    /** The body of the encryption loop: one block, and the initialization vector for the next. */
    method EncryptBlockAt(a: array<Byte>, off: nat, mode: bv32, IV: bv64) returns (IV': bv64)
      requires Valid() && off + 8 <= a.Length
      modifies a
      ensures a[off..off + 8] == EncryptBlock(Contents(), Whitened(Chained(mode), StoredLong(IV), old(a[off..off + 8])))
      ensures StoredLong(IV') == if Chained(mode) then a[off..off + 8] else StoredLong(IV)
      ensures a[..off] == old(a[..off]) && a[off + 8..] == old(a[off + 8..])
    {
      hide EncryptBlock, StoredLong, LoadLong, Xor, Chained;
      IV' := IV;
      if Chained(mode) {
        XorLongAt(a, off, IV);
      }
      EncipherAt(a, off);
      if Chained(mode) {
        IV' := ReadLong(a, off);
        StoredLongRoundTrip(IV, a[off..off + 8]);
      }
    }

    method DecryptBlockAt(a: array<Byte>, off: nat, mode: bv32, IV: bv64) returns (IV': bv64)
      requires Valid() && off + 8 <= a.Length
      modifies a
      ensures a[off..off + 8] == Whitened(Chained(mode), StoredLong(IV), DecryptBlock(Contents(), old(a[off..off + 8])))
      ensures StoredLong(IV') == if Chained(mode) then old(a[off..off + 8]) else StoredLong(IV)
      ensures a[..off] == old(a[..off]) && a[off + 8..] == old(a[off + 8..])
    {
      hide DecryptBlock, StoredLong, LoadLong, Xor, Chained;
      var prevIV: bv64 := 0;
      IV' := IV;
      if Chained(mode) {
        prevIV := IV;
        IV' := ReadLong(a, off);
        StoredLongRoundTrip(IV, a[off..off + 8]);
      }
      DecipherAt(a, off);
      if Chained(mode) {
        XorLongAt(a, off, prevIV);
      }
    }

    /** The encryption loop over the first lOutSize bytes of a buffer. */
    method EncryptBlocks(pOutput: array<Byte>, lOutSize: nat, mode: bv32, IV: bv64, ghost n: nat) returns (lCount: nat)
      requires Valid() && lOutSize == 8 * n <= pOutput.Length
      modifies pOutput
      ensures lCount == lOutSize
      ensures pOutput[..lCount] == old(Encrypted(Contents(), Chained(mode), StoredLong(IV), pOutput[..lOutSize], n))
      ensures pOutput[lCount..] == old(pOutput[lCount..])
    {
      hide EncryptBlock, StoredLong, Whitened, Chained, Encrypted, BlocksFor, EncryptedUpTo;
      ghost var all := pOutput[..];
      ghost var m := all[..8 * n];
      var iv := IV;
      lCount := 0;
      ghost var k := 0;
      EncryptedFromStart(Contents(), Chained(mode), StoredLong(IV), m, n);
      while lCount < lOutSize
        invariant lCount == 8 * k && k <= n
        invariant pOutput[lCount..] == all[lCount..] && Contents() == old(Contents())
        invariant EncryptedUpTo(Contents(), Chained(mode), StoredLong(IV), m, n, k, pOutput[..lCount], StoredLong(iv))
      {
        ghost var iv0, before := StoredLong(iv), pOutput[..];
        SameBlock(before, all, lCount, m);
        iv := EncryptBlockAt(pOutput, lCount, mode, iv);
        Advance(pOutput[..], before, all, lCount);
        EncryptedOneMore(Contents(), Chained(mode), StoredLong(IV), m, n, k, before[..lCount], iv0);
        lCount := lCount + BLOCK;
        k := k + 1;
      }
      EncryptedToEnd(Contents(), Chained(mode), StoredLong(IV), m, n, pOutput[..lCount], StoredLong(iv));
    }

    method DecryptBlocks(pOutput: array<Byte>, lSize: nat, mode: bv32, IV: bv64, ghost n: nat) returns (lCount: nat)
      requires Valid() && n == BlocksFor(lSize, false) && 8 * n <= pOutput.Length
      modifies pOutput
      ensures lCount == 8 * n
      ensures pOutput[..lCount] == old(Decrypted(Contents(), Chained(mode), StoredLong(IV), pOutput[..8 * n], n))
      ensures pOutput[lCount..] == old(pOutput[lCount..])
    {
      hide DecryptBlock, StoredLong, Whitened, Chained, Decrypted, BlocksFor, DecryptedUpTo;
      ghost var all := pOutput[..];
      ghost var c := all[..8 * n];
      var iv := IV;
      lCount := 0;
      ghost var k := 0;
      DecryptedFromStart(Contents(), Chained(mode), StoredLong(IV), c, n);
      while lCount < lSize
        invariant lCount == 8 * k && k <= n
        invariant pOutput[lCount..] == all[lCount..] && Contents() == old(Contents())
        invariant DecryptedUpTo(Contents(), Chained(mode), StoredLong(IV), c, n, k, pOutput[..lCount], StoredLong(iv))
      {
        ghost var iv0, before := StoredLong(iv), pOutput[..];
        SameBlock(before, all, lCount, c);
        iv := DecryptBlockAt(pOutput, lCount, mode, iv);
        Advance(pOutput[..], before, all, lCount);
        DecryptedOneMore(Contents(), Chained(mode), StoredLong(IV), c, n, k, before[..lCount], iv0);
        lCount := lCount + BLOCK;
        k := k + 1;
      }
      DecryptedToEnd(Contents(), Chained(mode), StoredLong(IV), c, n, pOutput[..lCount], StoredLong(iv));
    }

    /** Encrypts into a buffer that may be the input buffer itself. */
    method Encrypt(pInput: array<Byte>, pOutput: array<Byte>, lSize: nat, mode: bv32, IV: bv64) returns (lCount: nat)
      requires Valid() && lSize <= pInput.Length && lSize < 0xffff_fff7
      requires BLOCK * BlocksFor(lSize, Pads(mode)) <= pOutput.Length
      modifies pOutput
      ensures lCount == BLOCK * BlocksFor(lSize, Pads(mode))
      ensures pOutput[..lCount] == Ciphertext(Contents(), mode, IV, old(pInput[..lSize]))
      ensures pOutput[lCount..] == old(pOutput[lCount..])
    {
      hide Encrypted, StoredLong, Chained, Pads, PadByte;
      if pInput != pOutput {
        forall i | 0 <= i < lSize { pOutput[i] := pInput[i]; }
      }
      var lOutSize := OutputLength(lSize, mode);
      forall i | lSize <= i < lOutSize { pOutput[i] := PadByte(lOutSize - lSize, Pads(mode)); }
      assert pOutput[..lOutSize] == Padded(old(pInput[..lSize]), Pads(mode));
      assert pOutput[lOutSize..] == old(pOutput[lOutSize..]);
      lCount := EncryptBlocks(pOutput, lOutSize, mode, IV, BlocksFor(lSize, Pads(mode)));
    }

    /** Decrypts into a buffer that may be the input buffer itself; 0 is also the answer to a padding error. */
    method Decrypt(pInput: array<Byte>, pOutput: array<Byte>, lSize: nat, mode: bv32, IV: bv64) returns (lCount: nat)
      requires Valid() && lSize <= pInput.Length
      requires BLOCK * BlocksFor(lSize, false) <= pOutput.Length
      requires Pads(mode) ==> lSize > 0
      modifies pOutput
      ensures var n := BlocksFor(lSize, false);
              var read := old(pInput[..lSize]) + old(pOutput[lSize..BLOCK * n]);
              var r := Plaintext(Contents(), mode, IV, read, n);
              lCount == r.size && pOutput[..] == r.bytes + old(pOutput[BLOCK * n..])
    {
      hide Decrypted, StoredLong, Chained, Pads;
      ghost var n := BlocksFor(lSize, false);
      if pInput != pOutput {
        forall i | 0 <= i < lSize { pOutput[i] := pInput[i]; }
      }
      assert pOutput[..BLOCK * n] == old(pInput[..lSize]) + old(pOutput[lSize..BLOCK * n]);
      assert pOutput[BLOCK * n..] == old(pOutput[BLOCK * n..]);
      lCount := DecryptBlocks(pOutput, lSize, mode, IV, n);
      assert pOutput[..] == pOutput[..lCount] + old(pOutput[BLOCK * n..]);
      if Pads(mode) {
        lCount := StripPadding(pOutput, lCount);
      }
    }
  }

  /** The end of Decrypt: checks two padding bytes, and puts a NUL in place of the padding. */
  method StripPadding(pOutput: array<Byte>, lCount: nat) returns (r: nat)
    requires BLOCK <= lCount <= pOutput.Length
    modifies pOutput
    ensures Stripped(old(pOutput[..lCount])) == Deciphered(r, pOutput[..lCount])
    ensures pOutput[lCount..] == old(pOutput[lCount..])
  {
    var paddingLen := pOutput[lCount - 1] as int;
    if paddingLen <= 0 || paddingLen > BLOCK || pOutput[lCount - paddingLen] as int != paddingLen {
      return 0;
    }
    r := lCount - paddingLen;
    pOutput[r] := 0;
  }

  /** Reads the words at off and off + 4 after change_order has been applied to both. */
  method TakeWords(a: array<Byte>, off: nat) returns (l: Word, r: Word)
    requires off + 8 <= a.Length
    modifies a
    ensures l == FromBigEndian(old(a[off..off + 8])[..4]) && r == FromBigEndian(old(a[off..off + 8])[4..])
    ensures a[..off] == old(a[..off]) && a[off + 8..] == old(a[off + 8..])
  {
    hide LoadWord, StoredWord, ChangeOrder, FromBigEndian;
    ghost var before := a[..];
    ghost var b := a[off..off + 8];
    TwoHalves(before, off);
    ChangeOrderAt(a, off);
    ghost var half := a[..];
    TailSame(half, before, off);
    ChangeOrderAt(a, off + 4);
    HeadSame(a[..], half, off);
    l := ReadWord(a, off);
    r := ReadWord(a, off + 4);
    ChangeOrderThroughMemory(b[..4]);
    ChangeOrderThroughMemory(b[4..]);
  }

  method PutWords(a: array<Byte>, off: nat, l: Word, r: Word)
    requires off + 8 <= a.Length
    modifies a
    ensures a[off..off + 8] == BigEndian(l) + BigEndian(r)
    ensures a[..off] == old(a[..off]) && a[off + 8..] == old(a[off + 8..])
  {
    hide LoadWord, StoredWord, ChangeOrder, BigEndian;
    ghost var m0 := a[..];
    WriteWord(a, off, l);
    ghost var m1 := a[..];
    WriteWord(a, off + 4, r);
    ghost var m2 := a[..];
    ChangeOrderAt(a, off);
    ghost var m3 := a[..];
    ChangeOrderAt(a, off + 4);
    TailSame(m1, m0, off);
    HeadSame(m2, m1, off);
    TailSame(m3, m2, off);
    HeadSame(a[..], m3, off);
    WordThroughMemory(l);
    WordThroughMemory(r);
    TwoHalves(a[..], off);
  }

  /** What lies behind the first word of a block is unchanged. */
  lemma TailSame(after: seq<Byte>, before: seq<Byte>, off: nat)
    requires off + 8 <= |after| == |before| && after[off + 4..] == before[off + 4..]
    ensures after[off + 4..off + 8] == before[off + 4..off + 8] && after[off + 8..] == before[off + 8..]
  {
    assert after[off + 4..off + 8] == after[off + 4..][..4] && before[off + 4..off + 8] == before[off + 4..][..4];
    assert after[off + 8..] == after[off + 4..][4..] && before[off + 8..] == before[off + 4..][4..];
  }

  /** What lies in front of the second word of a block is unchanged. */
  lemma HeadSame(after: seq<Byte>, before: seq<Byte>, off: nat)
    requires off + 8 <= |after| == |before| && after[..off + 4] == before[..off + 4]
    ensures after[off..off + 4] == before[off..off + 4] && after[..off] == before[..off]
  {
    assert after[off..off + 4] == after[..off + 4][off..] && before[off..off + 4] == before[..off + 4][off..];
    assert after[..off] == after[..off + 4][..off] && before[..off] == before[..off + 4][..off];
  }

  lemma TwoHalves(a: seq<Byte>, off: nat)
    requires off + 8 <= |a|
    ensures a[off..off + 8] == a[off..off + 4] + a[off + 4..off + 8]
    ensures a[off..off + 8][..4] == a[off..off + 4] && a[off..off + 8][4..] == a[off + 4..off + 8]
  {}

  lemma ChangeOrderThroughMemory(b: seq<Byte>)
    requires |b| == 4
    ensures LoadWord(StoredWord(ChangeOrder(LoadWord(b)))) == FromBigEndian(b)
  {
    hide ChangeOrder, FromBigEndian;
    ChangeOrderIsBigEndian(0, b);
    LoadStored(ChangeOrder(LoadWord(b)));
  }

  lemma WordThroughMemory(w: Word)
    ensures StoredWord(ChangeOrder(LoadWord(StoredWord(w)))) == BigEndian(w)
  {
    hide LoadWord, StoredWord, ChangeOrder, BigEndian;
    LoadStored(w);
    ChangeOrderIsBigEndian(w, StoredWord(w));
  }

  lemma LoadStored(w: Word)
    ensures LoadWord(StoredWord(w)) == w
  {
    PackUnpack(w);
  }

  lemma SameBlock(bytes: seq<Byte>, all: seq<Byte>, off: nat, m: seq<Byte>)
    requires off + 8 <= |m| <= |bytes| == |all| && bytes[off..] == all[off..] && m == all[..|m|]
    ensures bytes[off..off + 8] == m[off..off + 8]
  {
    assert bytes[off..off + 8] == bytes[off..][..8] && all[off..off + 8] == all[off..][..8];
  }

  /** A buffer of which only the eight bytes at off have changed. */
  lemma Advance(after: seq<Byte>, before: seq<Byte>, all: seq<Byte>, off: nat)
    requires off + 8 <= |before| == |after| == |all| && before[off..] == all[off..]
    requires after[..off] == before[..off] && after[off + 8..] == before[off + 8..]
    ensures after[..off + 8] == before[..off] + after[off..off + 8]
    ensures after[off + 8..] == all[off + 8..]
  {
    assert before[off + 8..] == before[off..][8..] && all[off + 8..] == all[off..][8..];
  }

  lemma EncryptedStep(t: Tables, cbc: bool, iv: seq<Byte>, m: seq<Byte>, n: nat)
    requires t.Sized() && |iv| == BLOCK && |m| == BLOCK * n && n > 0
    ensures var c0 := EncryptBlock(t, Whitened(cbc, iv, m[..BLOCK]));
            Encrypted(t, cbc, iv, m, n) == c0 + Encrypted(t, cbc, if cbc then c0 else iv, m[BLOCK..], n - 1)
  {}

  lemma DecryptedStep(t: Tables, cbc: bool, iv: seq<Byte>, c: seq<Byte>, n: nat)
    requires t.Sized() && |iv| == BLOCK && |c| == BLOCK * n && n > 0
    ensures Decrypted(t, cbc, iv, c, n) ==
            Whitened(cbc, iv, DecryptBlock(t, c[..BLOCK])) + Decrypted(t, cbc, if cbc then c[..BLOCK] else iv, c[BLOCK..], n - 1)
  {}

  /** Of n blocks the first k are done. */
  ghost predicate EncryptedUpTo(t: Tables, cbc: bool, iv: seq<Byte>, m: seq<Byte>, n: nat, k: nat, done: seq<Byte>, iv': seq<Byte>)
    requires t.Sized() && |iv| == |iv'| == BLOCK && |m| == BLOCK * n && k <= n
  {
    Encrypted(t, cbc, iv, m, n) == done + Encrypted(t, cbc, iv', m[BLOCK * k..], n - k)
  }

  lemma EncryptedFromStart(t: Tables, cbc: bool, iv: seq<Byte>, m: seq<Byte>, n: nat)
    requires t.Sized() && |iv| == BLOCK && |m| == BLOCK * n
    ensures EncryptedUpTo(t, cbc, iv, m, n, 0, [], iv)
  {
    hide Encrypted;
    assert m[0..] == m;
  }

  lemma EncryptedOneMore(t: Tables, cbc: bool, iv: seq<Byte>, m: seq<Byte>, n: nat, k: nat, done: seq<Byte>, iv': seq<Byte>)
    requires t.Sized() && |iv| == |iv'| == BLOCK && |m| == BLOCK * n && k < n
    requires EncryptedUpTo(t, cbc, iv, m, n, k, done, iv')
    ensures var block := m[BLOCK * k..BLOCK * k + BLOCK];
            var r := EncryptBlock(t, Whitened(cbc, iv', block));
            EncryptedUpTo(t, cbc, iv, m, n, k + 1, done + r, if cbc then r else iv')
  {
    hide Encrypted, EncryptBlock, Whitened;
    var rest := m[BLOCK * k..];
    EncryptedStep(t, cbc, iv', rest, n - k);
    assert rest[..BLOCK] == m[BLOCK * k..BLOCK * k + BLOCK] && rest[BLOCK..] == m[BLOCK * (k + 1)..];
  }

  lemma EncryptedToEnd(t: Tables, cbc: bool, iv: seq<Byte>, m: seq<Byte>, n: nat, done: seq<Byte>, iv': seq<Byte>)
    requires t.Sized() && |iv| == |iv'| == BLOCK && |m| == BLOCK * n && EncryptedUpTo(t, cbc, iv, m, n, n, done, iv')
    ensures Encrypted(t, cbc, iv, m, n) == done
  {}

  /** Of n blocks the first k are done. */
  ghost predicate DecryptedUpTo(t: Tables, cbc: bool, iv: seq<Byte>, c: seq<Byte>, n: nat, k: nat, done: seq<Byte>, iv': seq<Byte>)
    requires t.Sized() && |iv| == |iv'| == BLOCK && |c| == BLOCK * n && k <= n
  {
    Decrypted(t, cbc, iv, c, n) == done + Decrypted(t, cbc, iv', c[BLOCK * k..], n - k)
  }

  lemma DecryptedFromStart(t: Tables, cbc: bool, iv: seq<Byte>, c: seq<Byte>, n: nat)
    requires t.Sized() && |iv| == BLOCK && |c| == BLOCK * n
    ensures DecryptedUpTo(t, cbc, iv, c, n, 0, [], iv)
  {
    hide Decrypted;
    assert c[0..] == c;
  }

  lemma DecryptedOneMore(t: Tables, cbc: bool, iv: seq<Byte>, c: seq<Byte>, n: nat, k: nat, done: seq<Byte>, iv': seq<Byte>)
    requires t.Sized() && |iv| == |iv'| == BLOCK && |c| == BLOCK * n && k < n
    requires DecryptedUpTo(t, cbc, iv, c, n, k, done, iv')
    ensures var block := c[BLOCK * k..BLOCK * k + BLOCK];
            var r := Whitened(cbc, iv', DecryptBlock(t, block));
            DecryptedUpTo(t, cbc, iv, c, n, k + 1, done + r, if cbc then block else iv')
  {
    hide Decrypted, DecryptBlock, Whitened;
    var rest := c[BLOCK * k..];
    DecryptedStep(t, cbc, iv', rest, n - k);
    assert rest[..BLOCK] == c[BLOCK * k..BLOCK * k + BLOCK] && rest[BLOCK..] == c[BLOCK * (k + 1)..];
  }

  lemma DecryptedToEnd(t: Tables, cbc: bool, iv: seq<Byte>, c: seq<Byte>, n: nat, done: seq<Byte>, iv': seq<Byte>)
    requires t.Sized() && |iv| == |iv'| == BLOCK && |c| == BLOCK * n && DecryptedUpTo(t, cbc, iv, c, n, n, done, iv')
    ensures Decrypted(t, cbc, iv, c, n) == done
  {}

  /** What Encrypt leaves in the output buffer. */
  function Ciphertext(t: Tables, mode: bv32, IV: bv64, m: seq<Byte>): (c: seq<Byte>)
    requires t.Sized()
    ensures |c| == BLOCK * BlocksFor(|m|, Pads(mode))
  {
    Encrypted(t, Chained(mode), StoredLong(IV), Padded(m, Pads(mode)), BlocksFor(|m|, Pads(mode)))
  }

  datatype Deciphered = Deciphered(size: nat, bytes: seq<Byte>)

  function Stripped(d: seq<Byte>): (r: Deciphered)
    requires |d| >= BLOCK
    ensures |r.bytes| == |d|
  {
    if !PaddingAccepted(d) then Deciphered(0, d)
    else var size := |d| - d[|d| - 1] as int; Deciphered(size, d[size := 0])
  }

  /** The bits of the mode, by their values. */
  lemma ModeValues(mode: bv32)
    ensures Chained(mode) <==> mode & 0x0002 == 0x0002
    ensures Pads(mode) <==> mode & 0x0020 == 0x0020
  {}

  /** Padding that is refused: the length is 0, and all bytes stay. */
  lemma RefusedPadding(d: seq<Byte>)
    requires |d| >= BLOCK && !(1 <= d[|d| - 1] as int <= 8 && d[|d| - d[|d| - 1] as int] == d[|d| - 1])
    ensures Stripped(d).size == 0 && Stripped(d).bytes == d
  {}

  /** What Decrypt returns for n blocks, and what it leaves in their place. */
  function Plaintext(t: Tables, mode: bv32, IV: bv64, c: seq<Byte>, n: nat): (r: Deciphered)
    requires t.Sized() && |c| == BLOCK * n && (Pads(mode) ==> n > 0)
    ensures |r.bytes| == |c|
  {
    var d := Decrypted(t, Chained(mode), StoredLong(IV), c, n);
    if Pads(mode) then Stripped(d) else Deciphered(|d|, d)
  }

  /**
   * Decrypting what was encrypted gives the message back: with PKCS#5 its very length, every byte,
   * and a NUL right after; without, the message filled with zeros to whole blocks.
   */
  lemma MessageRoundTrip(t: Tables, mode: bv32, IV: bv64, m: seq<Byte>)
    requires t.Sized()
    ensures var n := BlocksFor(|m|, Pads(mode));
            var r := Plaintext(t, mode, IV, Ciphertext(t, mode, IV, m), n);
            if Pads(mode) then r.size == |m| < |r.bytes| && r.bytes[..|m|] == m && r.bytes[|m|] == 0
            else r.size == BLOCK * n && r.bytes == m + seq(BLOCK * n - |m|, _ => 0)
  {
    hide Encrypted, Decrypted, StoredLong, Chained, Pads;
    DecryptedEncrypted(t, Chained(mode), StoredLong(IV), Padded(m, Pads(mode)), BlocksFor(|m|, Pads(mode)));
    if Pads(mode) {
      PaddedIsWellPadded(m);
    }
  }

  /** The words Xl and Xr of the unrolled code after n rounds, n even. */
  ghost predicate Reached(t: Tables, l: Word, r: Word, n: nat, Xl: Word, Xr: Word)
    requires t.Sized() && n <= 16
  {
    var (a, b) := Rounds(t, l, r, n);
    Xl == XorWord(a, t.p[n]) && Xr == b
  }

  lemma ReachedEnds(t: Tables, l: Word, r: Word, Xl: Word, Xr: Word)
    requires t.Sized()
    ensures Reached(t, l, r, 0, XorWord(l, t.p[0]), r)
    ensures Reached(t, l, r, 16, Xl, Xr) ==> Feistel.Encipher(t, l, r) == (XorWord(Xr, t.p[17]), Xl)
  {}

  lemma ReachedStep(t: Tables, l: Word, r: Word, n: nat, Xl: Word, Xr: Word, Xl': Word, Xr': Word)
    requires t.Sized() && n <= 14 && Reached(t, l, r, n, Xl, Xr)
    requires Xr' == XorWord(XorWord(Xr, F(t.s, Xl)), t.p[n + 1])
    requires Xl' == XorWord(XorWord(Xl, F(t.s, Xr')), t.p[n + 2])
    ensures Reached(t, l, r, n + 2, Xl', Xr')
  {
    hide F, XorWord;
    var (a1, b1) := Rounds(t, l, r, n + 1);
  }
}
