/** The key schedule as a fold of 521 block encryptions over the tables it rewrites. */
module KeySchedule {
  import opened Arithmetic
  import opened Words
  import opened Feistel

  const BLOCKS := 521  // (18 + 4 * 256) / 2
  const KEY_BYTES_USED := 72  // 18 * 4

  /** Byte j of the key, cyclically. */
  function KeyByte(key: seq<Byte>, j: nat): Byte
    requires |key| > 0
  {
    key[j % |key|]
  }

  function KeyWord(key: seq<Byte>, i: nat): Word
    requires |key| > 0
  {
    Pack(KeyByte(key, 4 * i), KeyByte(key, 4 * i + 1), KeyByte(key, 4 * i + 2), KeyByte(key, 4 * i + 3))
  }

  function KeyedP(p: seq<Word>, key: seq<Byte>): (r: seq<Word>)
    requires |p| == 18 && |key| > 0
    ensures |r| == 18
  {
    seq(18, i requires 0 <= i < 18 => XorWord(p[i], KeyWord(key, i)))
  }

  datatype Progress = Progress(t: Tables, l: Word, r: Word)

  /** The tables as one run of 1042 words, P first; block k is words 2k and 2k + 1. */
  function Stored(t: Tables, k: nat, l: Word, r: Word): (u: Tables)
    requires t.Sized() && k < BLOCKS
    ensures u.Sized()
    ensures var before, after := t.p + t.s, u.p + u.s;
            after == before[2 * k := l][2 * k + 1 := r]
  {
    if k < 9 then t.(p := t.p[2 * k := l][2 * k + 1 := r])
    else t.(s := t.s[2 * k - 18 := l][2 * k - 17 := r])
  }

  /** k block encryptions from a zero block, each with the tables left by the one before. */
  function Fold(t: Tables, k: nat): (g: Progress)
    requires t.Sized() && k <= BLOCKS
    ensures g.t.Sized()
  {
    if k == 0 then Progress(t, 0, 0) else
      var g := Fold(t, k - 1);
      var (l, r) := Encipher(g.t, g.l, g.r);
      Progress(Stored(g.t, k - 1, l, r), l, r)
  }

  lemma FoldStart(t: Tables)
    requires t.Sized()
    ensures Fold(t, 0) == Progress(t, 0, 0)
  {}

  function Schedule(p: seq<Word>, s: seq<Word>, key: seq<Byte>): (t: Tables)
    requires |p| == 18 && |s| == 1024 && |key| > 0
    ensures t.Sized()
  {
    Fold(Tables(KeyedP(p, key), s), BLOCKS).t
  }

  /** Word i of P is mixed with key bytes 4i to 4i + 3, taken cyclically, most significant first. */
  lemma KeyedPBytes(p: seq<Word>, key: seq<Byte>, i: nat)
    requires |p| == 18 && |key| > 0 && i < 18
    ensures var w := KeyedP(p, key)[i] ^ p[i];
            && w >> 24 == key[4 * i % |key|] as Word && (w >> 16) & 0xff == key[(4 * i + 1) % |key|] as Word
            && (w >> 8) & 0xff == key[(4 * i + 2) % |key|] as Word && w & 0xff == key[(4 * i + 3) % |key|] as Word
  {
    hide XorWord, KeyWord;
    var k := KeyWord(key, i);
    assert KeyedP(p, key)[i] == XorWord(p[i], k);
    MixedOut(p[i], k);
    KeyWordBytes(key, i);
  }

  lemma KeyWordBytes(key: seq<Byte>, i: nat)
    requires |key| > 0
    ensures var w := KeyWord(key, i);
            && w >> 24 == key[4 * i % |key|] as Word && (w >> 16) & 0xff == key[(4 * i + 1) % |key|] as Word
            && (w >> 8) & 0xff == key[(4 * i + 2) % |key|] as Word && w & 0xff == key[(4 * i + 3) % |key|] as Word
  {
    hide Pack;
    PackWeights(KeyByte(key, 4 * i), KeyByte(key, 4 * i + 1), KeyByte(key, 4 * i + 2), KeyByte(key, 4 * i + 3));
  }

  lemma PackWeights(b0: Byte, b1: Byte, b2: Byte, b3: Byte)
    ensures var w := Pack(b0, b1, b2, b3);
            && w >> 24 == b0 as Word && (w >> 16) & 0xff == b1 as Word && (w >> 8) & 0xff == b2 as Word && w & 0xff == b3 as Word
  {}

  lemma MixedOut(p: Word, k: Word)
    ensures XorWord(p, k) ^ p == k
  {}

  /** The first k steps of the schedule, with the tables and the block after each. */
  lemma {:induction false} FoldRow(t: Tables, k: nat) returns (ts: seq<Tables>, bs: seq<(Word, Word)>)
    requires t.Sized() && k <= BLOCKS
    ensures |ts| == |bs| == k + 1 && ts[0] == t && bs[0] == (0, 0)
    ensures ts[k] == Fold(t, k).t && bs[k] == (Fold(t, k).l, Fold(t, k).r)
    ensures forall i :: 0 <= i <= k ==> ts[i].Sized()
    ensures forall i :: 0 <= i < k ==> bs[i + 1] == Encipher(ts[i], bs[i].0, bs[i].1)
    ensures forall i :: 0 <= i < k ==>
              |ts[i].p + ts[i].s| == 1042 &&
              ts[i + 1].p + ts[i + 1].s == (ts[i].p + ts[i].s)[2 * i := bs[i + 1].0][2 * i + 1 := bs[i + 1].1]
  {
    hide Encipher, Fold;
    FoldStart(t);
    if k == 0 {
      ts, bs := [t], [(0, 0)];
    } else {
      var ts', bs' := FoldRow(t, k - 1);
      var g := Fold(t, k);
      FoldStep(t, k);
      ts, bs := ts' + [g.t], bs' + [(g.l, g.r)];
    }
  }

  lemma FoldStep(t: Tables, k: nat)
    requires t.Sized() && 0 < k <= BLOCKS
    ensures var g, g' := Fold(t, k - 1), Fold(t, k);
            && (g'.l, g'.r) == Encipher(g.t, g.l, g.r) && |g.t.p + g.t.s| == 1042
            && g'.t.p + g'.t.s == (g.t.p + g.t.s)[2 * (k - 1) := g'.l][2 * (k - 1) + 1 := g'.r]
  {
    hide Encipher, Stored;
  }

  /**
   * The schedule, step by step: each of 521 steps enciphers the block of the step before with the tables as
   * they are, and puts its two halves over the next two of the 1042 words of P and the S-boxes.
   */
  lemma ScheduleRow(p: seq<Word>, s: seq<Word>, key: seq<Byte>) returns (ts: seq<Tables>, bs: seq<(Word, Word)>)
    requires |p| == 18 && |s| == 1024 && |key| > 0
    ensures |ts| == |bs| == 522 && ts[0] == Tables(KeyedP(p, key), s) && bs[0] == (0, 0) && ts[521] == Schedule(p, s, key)
    ensures forall i :: 0 <= i < 522 ==> ts[i].Sized()
    ensures forall i :: 0 <= i < 521 ==> bs[i + 1] == Encipher(ts[i], bs[i].0, bs[i].1)
    ensures forall i :: 0 <= i < 521 ==>
              |ts[i].p + ts[i].s| == 1042 &&
              ts[i + 1].p + ts[i + 1].s == (ts[i].p + ts[i].s)[2 * i := bs[i + 1].0][2 * i + 1 := bs[i + 1].1]
  {
    hide Encipher, Fold;
    ts, bs := FoldRow(Tables(KeyedP(p, key), s), BLOCKS);
  }

  /** The 72 key bytes that reach the tables. */
  function Expanded(key: seq<Byte>): (e: seq<Byte>)
    requires |key| > 0
    ensures |e| == KEY_BYTES_USED
  {
    seq(KEY_BYTES_USED, j requires 0 <= j < KEY_BYTES_USED => KeyByte(key, j))
  }

  /** The mixed-in P-array determines, and is determined by, the 72 cyclic key bytes. */
  lemma KeyedPCharacterised(p: seq<Word>, key1: seq<Byte>, key2: seq<Byte>)
    requires |p| == 18 && |key1| > 0 && |key2| > 0
    ensures KeyedP(p, key1) == KeyedP(p, key2) <==> Expanded(key1) == Expanded(key2)
  {
    hide Expanded, KeyWord;
    var e1, e2 := Expanded(key1), Expanded(key2);
    if e1 == e2 {
      forall i | 0 <= i < 18 ensures KeyWord(key1, i) == KeyWord(key2, i) {
        KeyWordExpanded(key1, i);
        KeyWordExpanded(key2, i);
      }
      assert KeyedP(p, key1) == KeyedP(p, key2);
    }
    if KeyedP(p, key1) == KeyedP(p, key2) {
      forall j | 0 <= j < KEY_BYTES_USED ensures e1[j] == e2[j] {
        var i := j / 4;
        assert KeyedP(p, key1)[i] == KeyedP(p, key2)[i];
        SameBytes(p[i], key1, key2, i);
      }
    }
  }

  lemma KeyWordExpanded(key: seq<Byte>, i: nat)
    requires |key| > 0 && i < 18
    ensures var e := Expanded(key); KeyWord(key, i) == Pack(e[4 * i], e[4 * i + 1], e[4 * i + 2], e[4 * i + 3])
  {
    hide Pack;
  }

  /** Four key bytes can be told from the word they are mixed into. */
  lemma SameBytes(w: Word, key1: seq<Byte>, key2: seq<Byte>, i: nat)
    requires |key1| > 0 && |key2| > 0 && i < 18
    requires XorWord(w, KeyWord(key1, i)) == XorWord(w, KeyWord(key2, i))
    ensures forall j :: 4 * i <= j < 4 * i + 4 ==> Expanded(key1)[j] == Expanded(key2)[j]
  {
    hide Pack, XorWord, Byte0, Byte1, Byte2, Byte3, Expanded;
    var e1, e2 := Expanded(key1), Expanded(key2);
    KeyWordExpanded(key1, i);
    KeyWordExpanded(key2, i);
    XorWordInjective(w, KeyWord(key1, i), KeyWord(key2, i));
    UnpackPack(e1[4 * i], e1[4 * i + 1], e1[4 * i + 2], e1[4 * i + 3]);
    UnpackPack(e2[4 * i], e2[4 * i + 1], e2[4 * i + 2], e2[4 * i + 3]);
  }

  lemma XorWordInjective(p: Word, a: Word, b: Word)
    requires XorWord(p, a) == XorWord(p, b)
    ensures a == b
  {}

  function Repeated(key: seq<Byte>, n: nat): (r: seq<Byte>)
    ensures |r| == n * |key|
  {
    if n == 0 then [] else key + Repeated(key, n - 1)
  }

  lemma {:induction false} RepeatedAt(key: seq<Byte>, n: nat, j: nat)
    requires |key| > 0 && j < n * |key|
    ensures Repeated(key, n)[j] == key[j % |key|]
  {
    if j >= |key| {
      RepeatedAt(key, n - 1, j - |key|);
      assert (j - |key|) % |key| == j % |key| by { SubtractModulus(j, |key|); }
    } else {
      assert j % |key| == j by { SmallModulus(j, |key|); }
    }
  }

  /** Writing a key several times over gives the very same tables. */
  lemma RepeatedKey(p: seq<Word>, s: seq<Word>, key: seq<Byte>, n: nat)
    requires |p| == 18 && |s| == 1024 && |key| > 0 && n > 0
    ensures |Repeated(key, n)| > 0
    ensures Schedule(p, s, Repeated(key, n)) == Schedule(p, s, key)
  {
    var rep := Repeated(key, n);
    assert |rep| >= |key| by { assert n * |key| >= |key|; }
    forall j | 0 <= j < KEY_BYTES_USED ensures KeyByte(rep, j) == KeyByte(key, j) {
      var i := j % |rep|;
      RepeatedAt(key, n, i);
      MultipleModulus(j, |key|, n);
    }
    assert Expanded(rep) == Expanded(key);
    KeyedPCharacterised(p, rep, key);
  }

  /** Key bytes past the first 72 never matter. */
  lemma LongKeyTruncates(p: seq<Word>, s: seq<Word>, key: seq<Byte>)
    requires |p| == 18 && |s| == 1024 && |key| >= KEY_BYTES_USED
    ensures Schedule(p, s, key) == Schedule(p, s, key[..KEY_BYTES_USED])
  {
    forall j | 0 <= j < KEY_BYTES_USED ensures KeyByte(key, j) == KeyByte(key[..KEY_BYTES_USED], j) {
      SmallModulus(j, |key|);
      SmallModulus(j, KEY_BYTES_USED);
    }
    assert Expanded(key) == Expanded(key[..KEY_BYTES_USED]);
    KeyedPCharacterised(p, key, key[..KEY_BYTES_USED]);
  }
}
