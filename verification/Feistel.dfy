/** One Blowfish block in the form its designer published: sixteen equal rounds with a swap. */
module Feistel {
  import opened Words

  /** The P-array (18 words) and the four S-boxes, box i at offset 256 * i. */
  datatype Tables = Tables(p: seq<Word>, s: seq<Word>) {
    predicate Sized() { |p| == 18 && |s| == 1024 }
  }

  /** ((S0 + S1) ^ S2) + S3. */
  function Mixed(s0: Word, s1: Word, s2: Word, s3: Word): Word {
    AddWord(XorWord(AddWord(s0, s1), s2), s3)
  }

  /** The mixing function; each byte of the half selects a word of its own S-box. */
  function F(s: seq<Word>, x: Word): Word
    requires |s| == 1024
  {
    Mixed(s[Byte0(x) as int], s[256 + Byte1(x) as int], s[512 + Byte2(x) as int], s[768 + Byte3(x) as int])
  }

  /** The mixing function reads one word from each box, by the bytes of the half from the top, and no other. */
  lemma MixReads(s: seq<Word>, x: Word, b0: Byte, b1: Byte, b2: Byte, b3: Byte)
    requires |s| == 1024
    requires x >> 24 == b0 as Word && (x >> 16) & 0xff == b1 as Word && (x >> 8) & 0xff == b2 as Word && x & 0xff == b3 as Word
    ensures F(s, x) == Mixed(s[b0 as int], s[256 + b1 as int], s[512 + b2 as int], s[768 + b3 as int])
  {
    hide Byte0, Byte1, Byte2, Byte3, Mixed;
    BytesOf(x, b0, b1, b2, b3);
  }

  lemma BytesOf(x: Word, b0: Byte, b1: Byte, b2: Byte, b3: Byte)
    requires x >> 24 == b0 as Word && (x >> 16) & 0xff == b1 as Word && (x >> 8) & 0xff == b2 as Word && x & 0xff == b3 as Word
    ensures Byte0(x) == b0 && Byte1(x) == b1 && Byte2(x) == b2 && Byte3(x) == b3
  {}

  /** How the four words are mixed, with two cases: sums lose their carry and are not joined. */
  lemma MixFormula(a: Word, b: Word, c: Word, d: Word)
    ensures Mixed(a, b, c, d) == ((a + b) ^ c) + d
    ensures Mixed(1, 2, 5, 7) == 13 && Mixed(0xffff_ffff, 3, 3, 0xffff_ffff) == 0
  {
    MixSteps(a, b, c, d);
    MixSteps(1, 2, 5, 7);
    MixSteps(0xffff_ffff, 3, 3, 0xffff_ffff);
  }

  lemma MixSteps(a: Word, b: Word, c: Word, d: Word)
    ensures Mixed(a, b, c, d) == ((a + b) ^ c) + d
  {
    hide AddWord, XorWord;
    Sum(a, b);
    Exclusive(a + b, c);
    Sum((a + b) ^ c, d);
  }

  /** The two halves after n rounds, each ending in a swap. */
  function Rounds(t: Tables, l: Word, r: Word, n: nat): (Word, Word)
    requires t.Sized() && n <= 16
  {
    if n == 0 then (l, r) else
      var (a, b) := Rounds(t, l, r, n - 1);
      var mixed := XorWord(a, t.p[n - 1]);
      (XorWord(b, F(t.s, mixed)), mixed)
  }

  /** Sixteen rounds, the last swap undone, and the final whitening. */
  function Encipher(t: Tables, l: Word, r: Word): (Word, Word)
    requires t.Sized()
  {
    var (a, b) := Rounds(t, l, r, 16);
    (XorWord(b, t.p[17]), XorWord(a, t.p[16]))
  }

  /** The successive values of the two halves up to round n, in one row. */
  lemma {:induction false} RoundsRow(t: Tables, l: Word, r: Word, n: nat) returns (h: seq<Word>)
    requires t.Sized() && n <= 16
    ensures |h| == n + 2 && h[0] == r && h[1] == XorWord(l, t.p[0])
    ensures forall i :: 1 <= i <= n ==> h[i + 1] == XorWord(XorWord(h[i - 1], F(t.s, h[i])), t.p[i])
    ensures Rounds(t, l, r, n).1 == h[n] && XorWord(Rounds(t, l, r, n).0, t.p[n]) == h[n + 1]
  {
    hide F, XorWord;
    if n == 0 {
      h := [r, XorWord(l, t.p[0])];
    } else {
      var g := RoundsRow(t, l, r, n - 1);
      h := g + [XorWord(XorWord(g[n - 1], F(t.s, g[n])), t.p[n])];
    }
  }

  /**
   * The cipher, half by half: each new value is the one before last, mixed with the last and a word of P,
   * and the last two values are whitened and put out.
   */
  lemma EncipherRow(t: Tables, l: Word, r: Word) returns (h: seq<Word>)
    requires t.Sized()
    ensures |h| == 18 && h[0] == r && h[1] == l ^ t.p[0]
    ensures forall i :: 1 <= i <= 16 ==> h[i + 1] == h[i - 1] ^ F(t.s, h[i]) ^ t.p[i]
    ensures Encipher(t, l, r) == (h[16] ^ t.p[17], h[17])
  {
    hide F, Rounds;
    h := RoundsRow(t, l, r, 16);
  }

  /** Deciphering is the same with P read from the end. */
  lemma DecipherRow(t: Tables, l: Word, r: Word) returns (h: seq<Word>)
    requires t.Sized()
    ensures |h| == 18 && h[0] == r && h[1] == l ^ t.p[17]
    ensures forall i :: 1 <= i <= 16 ==> h[i + 1] == h[i - 1] ^ F(t.s, h[i]) ^ t.p[17 - i]
    ensures Decipher(t, l, r) == (h[16] ^ t.p[0], h[17])
  {
    hide F, Encipher;
    h := EncipherRow(Reversed(t), l, r);
  }

  function Reversed(t: Tables): (u: Tables)
    requires t.Sized()
    ensures u.Sized()
    ensures forall i :: 0 <= i < 18 ==> u.p[i] == t.p[17 - i]
  {
    Tables(seq(18, i requires 0 <= i < 18 => t.p[17 - i]), t.s)
  }

  /** Deciphering is enciphering with the P-array read backwards. */
  function Decipher(t: Tables, l: Word, r: Word): (Word, Word)
    requires t.Sized()
  {
    Encipher(Reversed(t), l, r)
  }

  lemma XorUndoUnder(b: Word, f: Word, p: Word)
    ensures XorWord(XorWord(XorWord(b, f), p), f) == XorWord(b, p)
  {
    assert ((b ^ f) ^ p) ^ f == b ^ p;
  }

  /** k rounds of deciphering stand where 16 - k rounds of enciphering stood, halves swapped and whitened. */
  lemma {:induction false} RoundsUnwind(t: Tables, l: Word, r: Word, k: nat)
    requires t.Sized() && k <= 16
    ensures var (a, b) := Rounds(t, l, r, 16 - k);
            var (x, y) := Encipher(t, l, r);
            Rounds(Reversed(t), x, y, k) == (XorWord(b, t.p[17 - k]), XorWord(a, t.p[16 - k]))
  {
    if k > 0 {
      RoundsUnwind(t, l, r, k - 1);
      var (x, y) := Encipher(t, l, r);
      RoundUnwind(t, l, r, x, y, k);
    }
  }

  lemma RoundUnwind(t: Tables, l: Word, r: Word, x: Word, y: Word, k: nat)
    requires t.Sized() && 1 <= k <= 16
    requires var (a, b) := Rounds(t, l, r, 17 - k);
             Rounds(Reversed(t), x, y, k - 1) == (XorWord(b, t.p[18 - k]), XorWord(a, t.p[17 - k]))
    ensures var (a, b) := Rounds(t, l, r, 16 - k);
            Rounds(Reversed(t), x, y, k) == (XorWord(b, t.p[17 - k]), XorWord(a, t.p[16 - k]))
  {
    hide F, XorWord;
    var (a, b) := Rounds(t, l, r, 16 - k);
    var (a', b') := Rounds(t, l, r, 17 - k);
    assert (a', b') == (XorWord(b, F(t.s, b')), XorWord(a, t.p[16 - k]));
    XorWordUndo(b', t.p[18 - k]);
    XorUndoUnder(b, F(t.s, b'), t.p[17 - k]);
    assert Reversed(t).p[k - 1] == t.p[18 - k];
  }

  lemma DecipherEncipher(t: Tables, l: Word, r: Word)
    requires t.Sized()
    ensures var (x, y) := Encipher(t, l, r); Decipher(t, x, y) == (l, r)
  {
    RoundsUnwind(t, l, r, 16);
    XorWordUndo(l, t.p[0]);
    XorWordUndo(r, t.p[1]);
  }

  lemma EncipherDecipher(t: Tables, l: Word, r: Word)
    requires t.Sized()
    ensures var (x, y) := Decipher(t, l, r); Encipher(t, x, y) == (l, r)
  {
    assert Reversed(Reversed(t)).p == t.p;
    assert Reversed(Reversed(t)) == t;
    DecipherEncipher(Reversed(t), l, r);
  }
}
