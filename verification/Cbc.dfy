/**
 * Cipher block chaining (section 6.2 of NIST SP 800-38A) over Blowfish blocks, the electronic
 * codebook the same code falls back to, and PKCS#5 padding (section 6.1.1 of RFC 8018).
 */
module Cbc {
  import opened Words
  import opened Feistel

  const BLOCK := 8

  // ---------- one block ----------

  function EncryptBlock(t: Tables, b: seq<Byte>): (c: seq<Byte>)
    requires t.Sized() && |b| == BLOCK
    ensures |c| == BLOCK
  {
    var (x, y) := Encipher(t, FromBigEndian(b[..4]), FromBigEndian(b[4..]));
    BigEndian(x) + BigEndian(y)
  }

  function DecryptBlock(t: Tables, c: seq<Byte>): (b: seq<Byte>)
    requires t.Sized() && |c| == BLOCK
    ensures |b| == BLOCK
  {
    var (x, y) := Decipher(t, FromBigEndian(c[..4]), FromBigEndian(c[4..]));
    BigEndian(x) + BigEndian(y)
  }

  lemma BlockRoundTrip(t: Tables, b: seq<Byte>)
    requires t.Sized() && |b| == BLOCK
    ensures DecryptBlock(t, EncryptBlock(t, b)) == b
    ensures EncryptBlock(t, DecryptBlock(t, b)) == b
  {
    hide Encipher, Decipher, Pack, Byte0, Byte1, Byte2, Byte3, FromBigEndian, BigEndian;
    var l, r := FromBigEndian(b[..4]), FromBigEndian(b[4..]);
    var (x, y) := Encipher(t, l, r);
    var (u, v) := Decipher(t, l, r);
    Halves(x, y);
    Halves(u, v);
    DecipherEncipher(t, l, r);
    EncipherDecipher(t, l, r);
    BigEndianRoundTrip(l, b[..4]);
    BigEndianRoundTrip(r, b[4..]);
    assert b == b[..4] + b[4..];
  }

  /** A block is two words, most significant byte first, and the left one comes first. */
  lemma BlockOfWords(t: Tables, l: Word, r: Word)
    requires t.Sized()
    ensures var (x, y) := Encipher(t, l, r); EncryptBlock(t, BigEndian(l) + BigEndian(r)) == BigEndian(x) + BigEndian(y)
    ensures var (x, y) := Decipher(t, l, r); DecryptBlock(t, BigEndian(l) + BigEndian(r)) == BigEndian(x) + BigEndian(y)
  {
    hide BigEndian, FromBigEndian, Encipher, Decipher;
    var b := BigEndian(l) + BigEndian(r);
    assert b[..4] == BigEndian(l) && b[4..] == BigEndian(r);
    BigEndianRoundTrip(l, BigEndian(l));
    BigEndianRoundTrip(r, BigEndian(r));
  }

  /** With a one in P and zeros elsewhere, a block of zeros becomes a one in the last byte. */
  lemma OneInP(t: Tables)
    requires t.Sized() && t.p[0] == 1 && (forall i :: 1 <= i < 18 ==> t.p[i] == 0) && forall i :: 0 <= i < 1024 ==> t.s[i] == 0
    ensures EncryptBlock(t, [0, 0, 0, 0, 0, 0, 0, 0]) == [0, 0, 0, 0, 0, 0, 0, 1]
  {
    hide Encipher, Decipher, EncryptBlock, DecryptBlock, F, Byte0, Byte1, Byte2, Byte3;
    var h := EncipherRow(t, 0, 0);
    OnesAndZeros(t, h, 16);
    assert h[16] ^ t.p[17] == 0 by { assert h[16] == 0 && t.p[17] == 0; }
    BlockOfWords(t, 0, 0);
    BigEndianOfSmall();
    assert [0 as Byte, 0, 0, 0] + [0, 0, 0, 0] == [0, 0, 0, 0, 0, 0, 0, 0];
    assert [0 as Byte, 0, 0, 0] + [0, 0, 0, 1] == [0, 0, 0, 0, 0, 0, 0, 1];
  }

  lemma BigEndianOfSmall()
    ensures BigEndian(0) == [0, 0, 0, 0] && BigEndian(1) == [0, 0, 0, 1]
  {}

  lemma {:induction false} OnesAndZeros(t: Tables, h: seq<Word>, n: nat)
    requires t.Sized() && (forall i :: 1 <= i < 18 ==> t.p[i] == 0) && forall i :: 0 <= i < 1024 ==> t.s[i] == 0
    requires |h| == 18 && h[0] == 0 && h[1] == 1 && n <= 16
    requires forall i :: 1 <= i <= 16 ==> h[i + 1] == h[i - 1] ^ F(t.s, h[i]) ^ t.p[i]
    ensures h[n] == (if n % 2 == 0 then 0 else 1) && h[n + 1] == (if n % 2 == 0 then 1 else 0)
  {
    hide F;
    if n > 0 {
      OnesAndZeros(t, h, n - 1);
      NothingMixed(t.s, h[n]);
      assert h[n + 1] == h[n - 1] ^ F(t.s, h[n]) ^ t.p[n];
      XorZeros(h[n - 1]);
    }
  }

  lemma XorZeros(w: Word)
    ensures w ^ 0 ^ 0 == w
  {}

  lemma NothingMixed(s: seq<Word>, x: Word)
    requires |s| == 1024 && forall i :: 0 <= i < 1024 ==> s[i] == 0
    ensures F(s, x) == 0
  {}

  lemma Halves(x: Word, y: Word)
    ensures var c := BigEndian(x) + BigEndian(y);
            FromBigEndian(c[..4]) == x && FromBigEndian(c[4..]) == y
  {
    hide FromBigEndian, BigEndian;
    var c := BigEndian(x) + BigEndian(y);
    assert c[..4] == BigEndian(x) && c[4..] == BigEndian(y);
    BigEndianRoundTrip(x, BigEndian(x));
    BigEndianRoundTrip(y, BigEndian(y));
  }

  // ---------- messages of n whole blocks ----------

  /** What the block cipher is given for a block of text (cbc false: the block as it is). */
  function Whitened(cbc: bool, iv: seq<Byte>, b: seq<Byte>): (r: seq<Byte>)
    requires |iv| == |b| == BLOCK
    ensures |r| == BLOCK
  {
    if cbc then Xor(b, iv) else b
  }

  function Encrypted(t: Tables, cbc: bool, iv: seq<Byte>, m: seq<Byte>, n: nat): (c: seq<Byte>)
    requires t.Sized() && |iv| == BLOCK && |m| == BLOCK * n
    ensures |c| == |m|
    decreases n
  {
    if n == 0 then [] else
      var c0 := EncryptBlock(t, Whitened(cbc, iv, m[..BLOCK]));
      c0 + Encrypted(t, cbc, if cbc then c0 else iv, m[BLOCK..], n - 1)
  }

  function Decrypted(t: Tables, cbc: bool, iv: seq<Byte>, c: seq<Byte>, n: nat): (m: seq<Byte>)
    requires t.Sized() && |iv| == BLOCK && |c| == BLOCK * n
    ensures |m| == |c|
    decreases n
  {
    if n == 0 then [] else
      var c0 := c[..BLOCK];
      Whitened(cbc, iv, DecryptBlock(t, c0)) + Decrypted(t, cbc, if cbc then c0 else iv, c[BLOCK..], n - 1)
  }

  lemma {:induction false} DecryptedEncrypted(t: Tables, cbc: bool, iv: seq<Byte>, m: seq<Byte>, n: nat)
    requires t.Sized() && |iv| == BLOCK && |m| == BLOCK * n
    ensures Decrypted(t, cbc, iv, Encrypted(t, cbc, iv, m, n), n) == m
    decreases n
  {
    hide EncryptBlock, DecryptBlock, XorByte;
    if n > 0 {
      var b := Whitened(cbc, iv, m[..BLOCK]);
      var c0 := EncryptBlock(t, b);
      var c := Encrypted(t, cbc, iv, m, n);
      assert c[..BLOCK] == c0;
      assert c[BLOCK..] == Encrypted(t, cbc, if cbc then c0 else iv, m[BLOCK..], n - 1);
      BlockRoundTrip(t, b);
      XorUndo(m[..BLOCK], iv);
      DecryptedEncrypted(t, cbc, if cbc then c0 else iv, m[BLOCK..], n - 1);
      assert m == m[..BLOCK] + m[BLOCK..];
    }
  }

  lemma {:induction false} EncryptedDecrypted(t: Tables, cbc: bool, iv: seq<Byte>, c: seq<Byte>, n: nat)
    requires t.Sized() && |iv| == BLOCK && |c| == BLOCK * n
    ensures Encrypted(t, cbc, iv, Decrypted(t, cbc, iv, c, n), n) == c
    decreases n
  {
    hide EncryptBlock, DecryptBlock, XorByte;
    if n > 0 {
      var d := DecryptBlock(t, c[..BLOCK]);
      var m := Decrypted(t, cbc, iv, c, n);
      assert m[..BLOCK] == Whitened(cbc, iv, d);
      assert m[BLOCK..] == Decrypted(t, cbc, if cbc then c[..BLOCK] else iv, c[BLOCK..], n - 1);
      XorUndo(d, iv);
      BlockRoundTrip(t, c[..BLOCK]);
      EncryptedDecrypted(t, cbc, if cbc then c[..BLOCK] else iv, c[BLOCK..], n - 1);
      assert c == c[..BLOCK] + c[BLOCK..];
    }
  }

  // ---------- block by block ----------

  function Block(m: seq<Byte>, i: nat): (b: seq<Byte>)
    requires BLOCK * i + BLOCK <= |m|
    ensures |b| == BLOCK
  {
    m[BLOCK * i..BLOCK * i + BLOCK]
  }

  /** The ciphertext block before block i, or the initialization vector. */
  function Previous(iv: seq<Byte>, c: seq<Byte>, i: nat): (b: seq<Byte>)
    requires |iv| == BLOCK && BLOCK * i <= |c|
    ensures |b| == BLOCK
  {
    if i == 0 then iv else Block(c, i - 1)
  }

  /** The equations of section 6.2 of NIST SP 800-38A. */
  ghost predicate CbcEquations(t: Tables, iv: seq<Byte>, m: seq<Byte>, c: seq<Byte>, n: nat)
    requires t.Sized() && |iv| == BLOCK && |m| == |c| == BLOCK * n
  {
    forall i: nat {:trigger Block(c, i)} :: i < n ==>
      Block(c, i) == EncryptBlock(t, Xor(Block(m, i), Previous(iv, c, i)))
  }

  lemma CbcEquationsTail(t: Tables, iv: seq<Byte>, m: seq<Byte>, c: seq<Byte>, n: nat)
    requires t.Sized() && |iv| == BLOCK && |m| == |c| == BLOCK * n && n > 0
    ensures CbcEquations(t, iv, m, c, n) <==>
            c[..BLOCK] == EncryptBlock(t, Xor(m[..BLOCK], iv)) &&
            CbcEquations(t, c[..BLOCK], m[BLOCK..], c[BLOCK..], n - 1)
  {
    hide EncryptBlock, XorByte, Xor;
    var m', c' := m[BLOCK..], c[BLOCK..];
    assert Block(c, 0) == c[..BLOCK] && Block(m, 0) == m[..BLOCK];
    forall i: nat | i < n - 1
      ensures Block(c', i) == Block(c, i + 1) && Block(m', i) == Block(m, i + 1)
      ensures Previous(c[..BLOCK], c', i) == Previous(iv, c, i + 1)
    {}
    if CbcEquations(t, c[..BLOCK], m', c', n - 1) && c[..BLOCK] == EncryptBlock(t, Xor(m[..BLOCK], iv)) {
      forall i: nat | i < n
        ensures Block(c, i) == EncryptBlock(t, Xor(Block(m, i), Previous(iv, c, i)))
      {
        if i > 0 { assert Block(c', i - 1) == Block(c, i); }
      }
    }
  }

  /** The recursive form is the one and only solution of the standard's equations. */
  lemma EncryptedIsCbc(t: Tables, iv: seq<Byte>, m: seq<Byte>, c: seq<Byte>, n: nat)
    requires t.Sized() && |iv| == BLOCK && |m| == |c| == BLOCK * n
    ensures CbcEquations(t, iv, m, c, n) <==> c == Encrypted(t, true, iv, m, n)
  {
    hide *;
    EncryptedSolves(t, iv, m, n);
    if CbcEquations(t, iv, m, c, n) {
      CbcSolutionUnique(t, iv, m, c, n);
    }
  }

  lemma {:induction false} EncryptedSolves(t: Tables, iv: seq<Byte>, m: seq<Byte>, n: nat)
    requires t.Sized() && |iv| == BLOCK && |m| == BLOCK * n
    ensures CbcEquations(t, iv, m, Encrypted(t, true, iv, m, n), n)
    decreases n
  {
    hide EncryptBlock, XorByte, Xor, CbcEquations;
    var c := Encrypted(t, true, iv, m, n);
    if n == 0 {
      CbcNoBlocks(t, iv, m, c);
    } else {
      EncryptedSplit(t, iv, m, c, n);
      EncryptedSolves(t, c[..BLOCK], m[BLOCK..], n - 1);
      CbcEquationsTail(t, iv, m, c, n);
    }
  }

  lemma CbcNoBlocks(t: Tables, iv: seq<Byte>, m: seq<Byte>, c: seq<Byte>)
    requires t.Sized() && |iv| == BLOCK && |m| == |c| == 0
    ensures CbcEquations(t, iv, m, c, 0)
  {}

  lemma {:induction false} CbcSolutionUnique(t: Tables, iv: seq<Byte>, m: seq<Byte>, c: seq<Byte>, n: nat)
    requires t.Sized() && |iv| == BLOCK && |m| == |c| == BLOCK * n
    requires CbcEquations(t, iv, m, c, n)
    ensures c == Encrypted(t, true, iv, m, n)
    decreases n
  {
    hide EncryptBlock, XorByte, Xor, CbcEquations;
    if n > 0 {
      CbcEquationsTail(t, iv, m, c, n);
      CbcSolutionUnique(t, c[..BLOCK], m[BLOCK..], c[BLOCK..], n - 1);
      EncryptedSplit(t, iv, m, c, n);
    }
  }

  lemma EncryptedSplit(t: Tables, iv: seq<Byte>, m: seq<Byte>, c: seq<Byte>, n: nat)
    requires t.Sized() && |iv| == BLOCK && |m| == |c| == BLOCK * n && n > 0
    ensures c == Encrypted(t, true, iv, m, n) <==>
            c[..BLOCK] == EncryptBlock(t, Xor(m[..BLOCK], iv)) &&
            c[BLOCK..] == Encrypted(t, true, c[..BLOCK], m[BLOCK..], n - 1)
  {
    hide EncryptBlock, XorByte, Xor;
    var c0 := EncryptBlock(t, Xor(m[..BLOCK], iv));
    Concatenation(c, c0, Encrypted(t, true, c0, m[BLOCK..], n - 1));
  }

  lemma Concatenation<T>(c: seq<T>, a: seq<T>, b: seq<T>)
    requires |c| == |a| + |b|
    ensures c == a + b <==> c[..|a|] == a && c[|a|..] == b
  {
    assert c == c[..|a|] + c[|a|..];
  }

  lemma BlockOfRest(c: seq<Byte>, i: nat)
    requires i > 0 && BLOCK * i + BLOCK <= |c|
    ensures Block(c[BLOCK..], i - 1) == Block(c, i)
  {
    assert c[BLOCK..][BLOCK * (i - 1)..BLOCK * (i - 1) + BLOCK] == c[BLOCK * i..BLOCK * i + BLOCK];
  }

  lemma PreviousOfRest(iv: seq<Byte>, c: seq<Byte>, i: nat)
    requires i > 0 && BLOCK * i + BLOCK <= |c| && |iv| == BLOCK
    ensures Previous(c[..BLOCK], c[BLOCK..], i - 1) == Previous(iv, c, i)
  {
    if i > 1 { BlockOfRest(c, i - 1); }
  }

  /** A decrypted block depends on its own ciphertext block and the one before, and on nothing else. */
  lemma {:induction false} DecryptedBlock(t: Tables, iv: seq<Byte>, c: seq<Byte>, n: nat, i: nat)
    requires t.Sized() && |iv| == BLOCK && |c| == BLOCK * n && i < n
    ensures Block(Decrypted(t, true, iv, c, n), i) == Xor(DecryptBlock(t, Block(c, i)), Previous(iv, c, i))
    decreases n
  {
    hide DecryptBlock, XorByte, Xor;
    var m := Decrypted(t, true, iv, c, n);
    if i == 0 {
      assert m[..BLOCK] == Whitened(true, iv, DecryptBlock(t, c[..BLOCK]));
    } else {
      hide Block, Previous;
      assert m[BLOCK..] == Decrypted(t, true, c[..BLOCK], c[BLOCK..], n - 1);
      BlockOfRest(m, i);
      BlockOfRest(c, i);
      PreviousOfRest(iv, c, i);
      DecryptedBlock(t, c[..BLOCK], c[BLOCK..], n - 1, i - 1);
    }
  }

  /** Without chaining each block is enciphered by itself. */
  lemma {:induction false} EncryptedBlock(t: Tables, iv: seq<Byte>, m: seq<Byte>, n: nat, i: nat)
    requires t.Sized() && |iv| == BLOCK && |m| == BLOCK * n && i < n
    ensures Block(Encrypted(t, false, iv, m, n), i) == EncryptBlock(t, Block(m, i))
    decreases n
  {
    hide EncryptBlock;
    var c := Encrypted(t, false, iv, m, n);
    if i == 0 {
      assert c[..BLOCK] == EncryptBlock(t, m[..BLOCK]);
    } else {
      hide Block;
      assert c[BLOCK..] == Encrypted(t, false, iv, m[BLOCK..], n - 1);
      BlockOfRest(c, i);
      BlockOfRest(m, i);
      EncryptedBlock(t, iv, m[BLOCK..], n - 1, i - 1);
    }
  }

  // ---------- padding ----------

  /** The fewest blocks that hold n bytes, and with PKCS#5 at least one more byte. */
  function BlocksFor(n: nat, pkcs5: bool): (k: nat)
    ensures if pkcs5 then n < BLOCK * k <= n + BLOCK else n <= BLOCK * k < n + BLOCK
  {
    if pkcs5 then n / 8 + 1 else (n + 7) / 8
  }

  function Padded(m: seq<Byte>, pkcs5: bool): (p: seq<Byte>)
    ensures |p| == BLOCK * BlocksFor(|m|, pkcs5)
  {
    var k := BLOCK * BlocksFor(|m|, pkcs5) - |m|;
    m + seq(k, _ => PadByte(k, pkcs5))
  }

  function PadByte(k: nat, pkcs5: bool): Byte
    requires k <= BLOCK
  {
    if pkcs5 then k as Byte else 0
  }

  lemma PadByteValue(k: nat, b: Byte)
    requires k <= BLOCK
    ensures PadByte(k, true) as int == k
    ensures b as int == k ==> b == PadByte(k, true)
  {}

  /** The two bytes Decrypt looks at: the last one, and the first of the padding it announces. */
  predicate PaddingAccepted(d: seq<Byte>)
    requires |d| >= BLOCK
  {
    var k := d[|d| - 1] as int;
    0 < k <= BLOCK && d[|d| - k] == d[|d| - 1]
  }

  /** The padding section 6.1.1 of RFC 8018 asks for: every one of its bytes is its length. */
  predicate WellPadded(d: seq<Byte>)
    requires |d| >= BLOCK
  {
    var k := d[|d| - 1] as int;
    0 < k <= BLOCK && forall i :: |d| - k <= i < |d| ==> d[i] == d[|d| - 1]
  }

  lemma PaddedIsWellPadded(m: seq<Byte>)
    ensures var p := Padded(m, true);
            WellPadded(p) && PaddingAccepted(p) && |p| - p[|p| - 1] as int == |m| && p[..|m|] == m
  {
    hide PadByte;
    PadByteValue(BLOCK * BlocksFor(|m|, true) - |m|, 0);
  }

  lemma WellPaddedIsPadded(d: seq<Byte>, n: nat)
    requires |d| == BLOCK * n && n > 0 && WellPadded(d)
    ensures d == Padded(d[..|d| - (d[|d| - 1] as int)], true)
  {
    hide PadByte;
    var last := d[|d| - 1];
    var k := last as int;
    PadByteValue(k, last);
    assert d == d[..|d| - k] + seq(k, _ => last);
  }

  /** The check is exact for padding of one or two bytes; beyond that it also lets other bytes through. */
  lemma PaddingCheckStrength(d: seq<Byte>)
    requires |d| >= BLOCK
    ensures WellPadded(d) <==>
            PaddingAccepted(d) &&
            forall i :: |d| - (d[|d| - 1] as int) < i < |d| - 1 ==> d[i] == d[|d| - 1]
    ensures var bad: seq<Byte> := [0, 0, 0, 0, 0, 3, 0, 3];
            PaddingAccepted(bad) && !WellPadded(bad)
  {
    var bad: seq<Byte> := [0, 0, 0, 0, 0, 3, 0, 3];
    assert bad[6] != bad[7];
  }
}
