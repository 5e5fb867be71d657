/** Emoticon codes: the list, and the ninety-six successive replacements of replace_emotion. */
module Emotion {
  import opened Text

  // The codes of emotion_list, eight to a row and then, as they get longer, four to a row.
  const ROW0: seq<string> := ["/:)", "/:~", "/:*", "/:|", "/8-)", "/:<", "/:$", "/:X"]
  const ROW1: seq<string> := ["/:Z", "/:'(", "/:-|", "/:-@", "/:P", "/:D", "/:O", "/<rotate>"]
  const ROW2: seq<string> := ["/:(", "/:+", "/:lenhan", "/:Q", "/:T", "/;P", "/;-D", "/;d"]
  const ROW3: seq<string> := ["/;o", "/:g", "/|-)", "/:!", "/:L", "/:>", "/;bin", "/:fw"]
  const ROW4: seq<string> := ["/;fd", "/:-S", "/;?", "/;x", "/;@", "/:8", "/;!", "/!!!"]
  const ROW5: seq<string> := ["/:xx", "/:bye", "/:csweat", "/:knose"]
  const ROW6: seq<string> := ["/:applause", "/:cdale", "/:huaixiao", "/:shake"]
  const ROW7: seq<string> := ["/:lhenhen", "/:rhenhen", "/:yawn", "/:snooty"]
  const ROW8: seq<string> := ["/:chagrin", "/:kcry", "/:yinxian", "/:qinqin"]
  const ROW9: seq<string> := ["/:xiaren", "/:kelin", "/:caidao", "/:xig"]
  const ROW10: seq<string> := ["/:bj", "/:basketball", "/:pingpong", "/:jump"]
  const ROW11: seq<string> := ["/:coffee", "/:eat", "/:pig", "/:rose"]
  const ROW12: seq<string> := ["/:fade", "/:kiss", "/:heart", "/:break"]
  const ROW13: seq<string> := ["/:cake", "/:shd", "/:bomb", "/:dao"]
  const ROW14: seq<string> := ["/:footb", "/:piaocon", "/:shit", "/:oh"]
  const ROW15: seq<string> := ["/:moon", "/:sun", "/;gift", "/:hug"]
  const ROW16: seq<string> := ["/:strong", "/;weak", "/:share", "/:shl"]
  const ROW17: seq<string> := ["/:baoquan", "/:cajole", "/:quantou", "/:chajin"]
  const ROW18: seq<string> := ["/:aini", "/:sayno", "/:sayok", "/:love"]
  const EMOTIONS: seq<string> := ROW0 + ROW1 + ROW2 + ROW3 + ROW4 + ROW5 + ROW6 + ROW7 + ROW8 + ROW9 +
                                 ROW10 + ROW11 + ROW12 + ROW13 + ROW14 + ROW15 + ROW16 + ROW17 + ROW18

  /** A code starts with the only '/' in it and contains no '#'. */
  predicate IsCode(c: string) { |c| >= 2 && c[0] == '/' && '/' !in c[1..] && '#' !in c }

  predicate AreCodes(codes: seq<string>) { forall i :: 0 <= i < |codes| ==> IsCode(codes[i]) }

  lemma Row0()
    ensures |ROW0| == 8 && AreCodes(ROW0)
  {}

  lemma Row1()
    ensures |ROW1| == 8 && AreCodes(ROW1)
  {}

  lemma Row2()
    ensures |ROW2| == 8 && AreCodes(ROW2)
  {}

  lemma Row3()
    ensures |ROW3| == 8 && AreCodes(ROW3)
  {}

  lemma Row4()
    ensures |ROW4| == 8 && AreCodes(ROW4)
  {}

  lemma Row5()
    ensures |ROW5| == 4 && AreCodes(ROW5)
  {}

  lemma Row6()
    ensures |ROW6| == 4 && AreCodes(ROW6)
  {}

  lemma Row7()
    ensures |ROW7| == 4 && AreCodes(ROW7)
  {}

  lemma Row8()
    ensures |ROW8| == 4 && AreCodes(ROW8)
  {}

  lemma Row9()
    ensures |ROW9| == 4 && AreCodes(ROW9)
  {}

  lemma Row10()
    ensures |ROW10| == 4 && AreCodes(ROW10)
  {}

  lemma Row11()
    ensures |ROW11| == 4 && AreCodes(ROW11)
  {}

  lemma Row12()
    ensures |ROW12| == 4 && AreCodes(ROW12)
  {}

  lemma Row13()
    ensures |ROW13| == 4 && AreCodes(ROW13)
  {}

  lemma Row14()
    ensures |ROW14| == 4 && AreCodes(ROW14)
  {}

  lemma Row15()
    ensures |ROW15| == 4 && AreCodes(ROW15)
  {}

  lemma Row16()
    ensures |ROW16| == 4 && AreCodes(ROW16)
  {}

  lemma Row17()
    ensures |ROW17| == 4 && AreCodes(ROW17)
  {}

  lemma Row18()
    ensures |ROW18| == 4 && AreCodes(ROW18)
  {}

  lemma EmotionsAreCodes()
    ensures |EMOTIONS| == 96 && AreCodes(EMOTIONS)
  {
    hide IsCode;
    Row0();
    Row1();
    Row2();
    Row3();
    Row4();
    Row5();
    Row6();
    Row7();
    Row8();
    Row9();
    Row10();
    Row11();
    Row12();
    Row13();
    Row14();
    Row15();
    Row16();
    Row17();
    Row18();
  }

  // The codes of each row.

  lemma Codes0()
    ensures ROW0 == ["/:)", "/:~", "/:*", "/:|", "/8-)", "/:<", "/:$", "/:X"]
  {}

  lemma Codes1()
    ensures ROW1 == ["/:Z", "/:'(", "/:-|", "/:-@", "/:P", "/:D", "/:O", "/<rotate>"]
  {}

  lemma Codes2()
    ensures ROW2 == ["/:(", "/:+", "/:lenhan", "/:Q", "/:T", "/;P", "/;-D", "/;d"]
  {}

  lemma Codes3()
    ensures ROW3 == ["/;o", "/:g", "/|-)", "/:!", "/:L", "/:>", "/;bin", "/:fw"]
  {}

  lemma Codes4()
    ensures ROW4 == ["/;fd", "/:-S", "/;?", "/;x", "/;@", "/:8", "/;!", "/!!!"]
  {}

  lemma Codes5()
    ensures ROW5 == ["/:xx", "/:bye", "/:csweat", "/:knose"]
  {}

  lemma Codes6()
    ensures ROW6 == ["/:applause", "/:cdale", "/:huaixiao", "/:shake"]
  {}

  lemma Codes7()
    ensures ROW7 == ["/:lhenhen", "/:rhenhen", "/:yawn", "/:snooty"]
  {}

  lemma Codes8()
    ensures ROW8 == ["/:chagrin", "/:kcry", "/:yinxian", "/:qinqin"]
  {}

  lemma Codes9()
    ensures ROW9 == ["/:xiaren", "/:kelin", "/:caidao", "/:xig"]
  {}

  lemma Codes10()
    ensures ROW10 == ["/:bj", "/:basketball", "/:pingpong", "/:jump"]
  {}

  lemma Codes11()
    ensures ROW11 == ["/:coffee", "/:eat", "/:pig", "/:rose"]
  {}

  lemma Codes12()
    ensures ROW12 == ["/:fade", "/:kiss", "/:heart", "/:break"]
  {}

  lemma Codes13()
    ensures ROW13 == ["/:cake", "/:shd", "/:bomb", "/:dao"]
  {}

  lemma Codes14()
    ensures ROW14 == ["/:footb", "/:piaocon", "/:shit", "/:oh"]
  {}

  lemma Codes15()
    ensures ROW15 == ["/:moon", "/:sun", "/;gift", "/:hug"]
  {}

  lemma Codes16()
    ensures ROW16 == ["/:strong", "/;weak", "/:share", "/:shl"]
  {}

  lemma Codes17()
    ensures ROW17 == ["/:baoquan", "/:cajole", "/:quantou", "/:chajin"]
  {}

  lemma Codes18()
    ensures ROW18 == ["/:aini", "/:sayno", "/:sayok", "/:love"]
  {}

  // Where each row stands in the list, and so the number of each code.

  lemma Lengths()
    ensures |ROW0| == 8 && |ROW1| == 8 && |ROW2| == 8 && |ROW3| == 8 && |ROW4| == 8 && |ROW5| == 4 && |ROW6| == 4 && |ROW7| == 4 && |ROW8| == 4 && |ROW9| == 4
    ensures |ROW10| == 4 && |ROW11| == 4 && |ROW12| == 4 && |ROW13| == 4 && |ROW14| == 4 && |ROW15| == 4 && |ROW16| == 4 && |ROW17| == 4 && |ROW18| == 4
  {
    hide IsCode;
    Row0();
    Row1();
    Row2();
    Row3();
    Row4();
    Row5();
    Row6();
    Row7();
    Row8();
    Row9();
    Row10();
    Row11();
    Row12();
    Row13();
    Row14();
    Row15();
    Row16();
    Row17();
    Row18();
  }

  /** The rows stand one behind the other. */
  lemma Numbers()
    ensures |EMOTIONS| == 96
    ensures EMOTIONS[0..8] == ROW0
    ensures EMOTIONS[8..16] == ROW1
    ensures EMOTIONS[16..24] == ROW2
    ensures EMOTIONS[24..32] == ROW3
    ensures EMOTIONS[32..40] == ROW4
    ensures EMOTIONS[40..44] == ROW5
    ensures EMOTIONS[44..48] == ROW6
    ensures EMOTIONS[48..52] == ROW7
    ensures EMOTIONS[52..56] == ROW8
    ensures EMOTIONS[56..60] == ROW9
    ensures EMOTIONS[60..64] == ROW10
    ensures EMOTIONS[64..68] == ROW11
    ensures EMOTIONS[68..72] == ROW12
    ensures EMOTIONS[72..76] == ROW13
    ensures EMOTIONS[76..80] == ROW14
    ensures EMOTIONS[80..84] == ROW15
    ensures EMOTIONS[84..88] == ROW16
    ensures EMOTIONS[88..92] == ROW17
    ensures EMOTIONS[92..96] == ROW18
  {
    Lengths();
    Joined(ROW0, ROW1, ROW2, ROW3, ROW4, ROW5, ROW6, ROW7, ROW8, ROW9, ROW10, ROW11, ROW12, ROW13, ROW14, ROW15, ROW16, ROW17, ROW18);
  }

  lemma Joined(r0: seq<string>, r1: seq<string>, r2: seq<string>, r3: seq<string>, r4: seq<string>, r5: seq<string>, r6: seq<string>, r7: seq<string>, r8: seq<string>, r9: seq<string>, r10: seq<string>, r11: seq<string>, r12: seq<string>, r13: seq<string>, r14: seq<string>, r15: seq<string>, r16: seq<string>, r17: seq<string>, r18: seq<string>)
    requires |r0| == 8 && |r1| == 8 && |r2| == 8 && |r3| == 8 && |r4| == 8 && |r5| == 4 && |r6| == 4 && |r7| == 4 && |r8| == 4 && |r9| == 4
    requires |r10| == 4 && |r11| == 4 && |r12| == 4 && |r13| == 4 && |r14| == 4 && |r15| == 4 && |r16| == 4 && |r17| == 4 && |r18| == 4
    ensures var all := r0 + r1 + r2 + r3 + r4 + r5 + r6 + r7 + r8 + r9 + r10 + r11 + r12 + r13 + r14 + r15 + r16 + r17 + r18;
            && |all| == 96
            && all[0..8] == r0
            && all[8..16] == r1
            && all[16..24] == r2
            && all[24..32] == r3
            && all[32..40] == r4
            && all[40..44] == r5
            && all[44..48] == r6
            && all[48..52] == r7
            && all[52..56] == r8
            && all[56..60] == r9
            && all[60..64] == r10
            && all[64..68] == r11
            && all[68..72] == r12
            && all[72..76] == r13
            && all[76..80] == r14
            && all[80..84] == r15
            && all[84..88] == r16
            && all[88..92] == r17
            && all[92..96] == r18
  {
    var p0 := r0;
    var p1 := p0 + r1;
    var p2 := p1 + r2;
    var p3 := p2 + r3;
    var p4 := p3 + r4;
    var p5 := p4 + r5;
    var p6 := p5 + r6;
    var p7 := p6 + r7;
    var p8 := p7 + r8;
    var p9 := p8 + r9;
    var p10 := p9 + r10;
    var p11 := p10 + r11;
    var p12 := p11 + r12;
    var p13 := p12 + r13;
    var p14 := p13 + r14;
    var p15 := p14 + r15;
    var p16 := p15 + r16;
    var p17 := p16 + r17;
    var p18 := p17 + r18;
    var all := p18;
    LastOf(all, p17, r18);
    LastOf(all, p16, r17);
    LastOf(all, p15, r16);
    LastOf(all, p14, r15);
    LastOf(all, p13, r14);
    LastOf(all, p12, r13);
    LastOf(all, p11, r12);
    LastOf(all, p10, r11);
    LastOf(all, p9, r10);
    LastOf(all, p8, r9);
    LastOf(all, p7, r8);
    LastOf(all, p6, r7);
    LastOf(all, p5, r6);
    LastOf(all, p4, r5);
    LastOf(all, p3, r4);
    LastOf(all, p2, r3);
    LastOf(all, p1, r2);
    LastOf(all, p0, r1);
  }

  lemma LastOf(all: seq<string>, p: seq<string>, r: seq<string>)
    requires |p| + |r| <= |all| && all[..|p| + |r|] == p + r
    ensures all[..|p|] == p && all[|p|..|p| + |r|] == r
  {
    assert all[..|p|] == all[..|p| + |r|][..|p|] && all[|p|..|p| + |r|] == all[..|p| + |r|][|p|..];
  }

  // ---------- one replacement ----------

  /** The code does not begin at any of the first i places. */
  predicate Absent(s: string, c: string, i: nat)
    requires i <= |s|
  {
    forall j :: 0 <= j < i ==> !(c <= s[j..])
  }

  /** strstr: where the first c in s starts, or the length of s. */
  function IndexOfText(s: string, c: string): (i: nat)
    requires c != []
    ensures i <= |s| && (i < |s| ==> c <= s[i..])
    ensures Absent(s, c, i)
  {
    if s == [] || c <= s then 0 else
      var i := 1 + IndexOfText(s[1..], c);
      assert s[0..] == s;
      assert forall j :: 1 <= j <= |s| ==> s[j..] == s[1..][j - 1..];
      i
  }

  /** g_strsplit of a string that is not empty. */
  function SplitAt(s: string, c: string): (tokens: seq<string>)
    requires c != []
    ensures tokens != []
    decreases |s|
  {
    var i := IndexOfText(s, c);
    if i == |s| then [s] else [s[..i]] + SplitAt(s[i + |c|..], c)
  }

  /** g_strjoinv */
  function Join(tokens: seq<string>, glue: string): string {
    if tokens == [] then [] else if |tokens| == 1 then tokens[0] else tokens[0] + glue + Join(tokens[1..], glue)
  }

  function StrReplace(s: string, c: string, glue: string): string
    requires c != []
  {
    Join(if s == [] then [] else SplitAt(s, c), glue)
  }

  /** Every occurrence of c, from the left, replaced by glue. */
  function Replaced(s: string, c: string, glue: string): string
    requires c != []
    decreases |s|
  {
    if s == [] then []
    else if c <= s then glue + Replaced(s[|c|..], c, glue)
    else [s[0]] + Replaced(s[1..], c, glue)
  }

  lemma AbsentNext(s: string, c: string, i: nat)
    requires 0 < i <= |s| && Absent(s, c, i)
    ensures !(c <= s) && Absent(s[1..], c, i - 1)
  {
    assert s[0..] == s;
    forall j | 0 <= j < i - 1 ensures !(c <= s[1..][j..]) {
      assert s[1..][j..] == s[j + 1..];
    }
  }

  lemma {:induction false} ReplacedSkips(s: string, c: string, glue: string, i: nat)
    requires c != [] && i <= |s| && Absent(s, c, i)
    ensures Replaced(s, c, glue) == s[..i] + Replaced(s[i..], c, glue)
    decreases i
  {
    hide Replaced, Absent;
    if i > 0 {
      AbsentNext(s, c, i);
      ReplacedNext(s, c, glue);
      ReplacedSkips(s[1..], c, glue, i - 1);
      assert s[1..][i - 1..] == s[i..] && s[..i] == [s[0]] + s[1..][..i - 1];
    } else {
      assert s[..0] == [] && s[0..] == s;
    }
  }

  lemma ReplacedNext(s: string, c: string, glue: string)
    requires c != [] && s != [] && !(c <= s)
    ensures Replaced(s, c, glue) == [s[0]] + Replaced(s[1..], c, glue)
  {}

  /** Splitting at the code and joining with the glue replaces every occurrence. */
  lemma {:induction false} StrReplaceIsReplaced(s: string, c: string, glue: string)
    requires c != []
    ensures StrReplace(s, c, glue) == Replaced(s, c, glue)
    decreases |s|
  {
    hide StrReplace, Replaced, IndexOfText, Absent;
    var i := IndexOfText(s, c);
    ReplacedSkips(s, c, glue, i);
    if i < |s| {
      var rest := s[i + |c|..];
      assert s[i..][|c|..] == rest;
      StrReplaceIsReplaced(rest, c, glue);
      ReplacedFirst(s[i..], c, glue);
      StrReplaceFirst(s, c, glue);
    } else {
      assert s[..i] == s && s[i..] == [];
      NothingToReplace(s, c, glue);
    }
  }

  lemma ReplacedFirst(s: string, c: string, glue: string)
    requires c != [] && c <= s
    ensures Replaced(s, c, glue) == glue + Replaced(s[|c|..], c, glue)
  {}

  lemma NothingToReplace(s: string, c: string, glue: string)
    requires c != [] && IndexOfText(s, c) == |s|
    ensures StrReplace(s, c, glue) == s && Replaced([], c, glue) == []
  {}

  lemma StrReplaceFirst(s: string, c: string, glue: string)
    requires c != [] && IndexOfText(s, c) < |s|
    ensures var i := IndexOfText(s, c);
            StrReplace(s, c, glue) == s[..i] + glue + StrReplace(s[i + |c|..], c, glue)
  {
    hide StrReplace, SplitAt, Absent;
    hide IndexOfText, Join;
    var first, rest := SplitFirst(s, c);
    StrReplaceRest(s, c, glue, first, rest);
  }

  lemma StrReplaceRest(s: string, c: string, glue: string, first: string, rest: string)
    requires c != [] && SplitAt(s, c) == [first] + SplitAt(rest, c)
    ensures StrReplace(s, c, glue) == first + glue + StrReplace(rest, c, glue)
  {
    hide Join, SplitAt, StrReplace;
    JoinFirst(first, SplitAt(rest, c), glue);
    StrReplaceIs(s, c, glue);
    StrReplaceIs(rest, c, glue);
  }

  lemma StrReplaceIs(s: string, c: string, glue: string)
    requires c != []
    ensures StrReplace(s, c, glue) == Join(SplitAt(s, c), glue)
  {
    SplitNothing(c, glue);
  }

  lemma SplitFirst(s: string, c: string) returns (first: string, rest: string)
    requires c != [] && IndexOfText(s, c) < |s|
    ensures SplitAt(s, c) == [first] + SplitAt(rest, c)
    ensures var i := IndexOfText(s, c); first == s[..i] && rest == s[i + |c|..]
  {
    hide IndexOfText, Absent;
    var i := IndexOfText(s, c);
    first, rest := s[..i], s[i + |c|..];
  }

  lemma JoinFirst(first: string, tokens: seq<string>, glue: string)
    requires tokens != []
    ensures Join([first] + tokens, glue) == first + glue + Join(tokens, glue)
  {
    assert ([first] + tokens)[1..] == tokens;
  }

  lemma SplitNothing(c: string, glue: string)
    requires c != []
    ensures Join(SplitAt([], c), glue) == Join([], glue)
  {}

  // ---------- all replacements in one pass ----------

  /** sprintf(emo, "#%d#", i) */
  function Tag(i: nat): string { "#" + Printed(i, 10) + "#" }

  /** The first of the first n codes that s starts with, or n. */
  function Match(s: string, codes: seq<string>, n: nat): (i: nat)
    requires n <= |codes|
    ensures i <= n && (i < n ==> codes[i] <= s)
    ensures forall j :: 0 <= j < i ==> !(codes[j] <= s)
  {
    if n == 0 then 0 else
      var i := Match(s, codes, n - 1);
      if i < n - 1 || codes[n - 1] <= s then i else n
  }

  /** One pass from the left that knows the first n codes. */
  function OnePass(s: string, codes: seq<string>, n: nat): string
    requires n <= |codes| && AreCodes(codes)
    decreases |s|
  {
    if s == [] then [] else
      var i := Match(s, codes, n);
      if i < n then Tag(i) + OnePass(s[|codes[i]|..], codes, n)
      else [s[0]] + OnePass(s[1..], codes, n)
  }

  lemma {:induction false} OnePassNothing(s: string, codes: seq<string>)
    requires AreCodes(codes)
    ensures OnePass(s, codes, 0) == s
    decreases |s|
  {
    if s != [] { OnePassNothing(s[1..], codes); }
  }

  lemma CopyFirst(s: string, codes: seq<string>, n: nat)
    requires AreCodes(codes) && n <= |codes| && Match(s, codes, n) == n && s != []
    ensures OnePass(s, codes, n) == [s[0]] + OnePass(s[1..], codes, n)
  {}

  lemma {:induction false} NoSlashNoMatch(s: string, codes: seq<string>, n: nat)
    requires n <= |codes| && AreCodes(codes) && s != [] && s[0] != '/'
    ensures Match(s, codes, n) == n
  {
    if n > 0 {
      NoSlashNoMatch(s, codes, n - 1);
      assert IsCode(codes[n - 1]);
    }
  }

  /** Text without '/' at the front is copied. */
  lemma {:induction false} OnePassCopies(w: string, s: string, codes: seq<string>, n: nat)
    requires n <= |codes| && AreCodes(codes) && w <= s && '/' !in w
    ensures OnePass(s, codes, n) == w + OnePass(s[|w|..], codes, n)
    decreases |w|
  {
    hide OnePass, Match, Tag, AreCodes;
    if w != [] {
      assert s[0] == w[0];
      NoSlashNoMatch(s, codes, n);
      CopyFirst(s, codes, n);
      OnePassCopies(w[1..], s[1..], codes, n);
      assert [s[0]] + (w[1..] + OnePass(s[|w|..], codes, n)) == w + OnePass(s[|w|..], codes, n);
      assert s[1..][|w| - 1..] == s[|w|..];
    } else {
      assert s[0..] == s;
    }
  }

  /** What the pass puts out without '#' was there before. */
  lemma {:induction false} OnePassInvents(w: string, s: string, codes: seq<string>, n: nat)
    requires n <= |codes| && AreCodes(codes) && '#' !in w && w <= OnePass(s, codes, n)
    ensures w <= s
    decreases |w|
  {
    if w != [] {
      var out := OnePass(s, codes, n);
      assert w[0] == out[0] && w[0] != '#';
      var i := Match(s, codes, n);
      if i == n {
        assert out[1..] == OnePass(s[1..], codes, n);
        OnePassInvents(w[1..], s[1..], codes, n);
      }
    }
  }

  /** Replacing skips text without '/'. */
  lemma {:induction false} ReplacedSkipsText(u: string, t: string, c: string, glue: string)
    requires IsCode(c) && '/' !in u
    ensures Replaced(u + t, c, glue) == u + Replaced(t, c, glue)
    decreases |u|
  {
    if u == [] {
      assert u + t == t;
    } else {
      assert (u + t)[1..] == u[1..] + t;
      ReplacedSkipsText(u[1..], t, c, glue);
    }
  }

  lemma TagHasNoSlash(i: nat)
    ensures '/' !in Tag(i)
  {
    PrintedPlain(i, 10, '/');
  }

  /** Replacing the next code after a pass is a pass that knows one code more. */
  lemma {:induction false} NextCode(s: string, codes: seq<string>, n: nat)
    requires AreCodes(codes) && n < |codes|
    ensures Replaced(OnePass(s, codes, n), codes[n], Tag(n)) == OnePass(s, codes, n + 1)
    decreases |s|
  {
    hide Tag, Printed;
    if s != [] {
      var c, i := codes[n], Match(s, codes, n);
      if i < n {
        var rest := s[|codes[i]|..];
        NextCode(rest, codes, n);
        TagHasNoSlash(i);
        ReplacedSkipsText(Tag(i), OnePass(rest, codes, n), c, Tag(n));
      } else if c <= s {
        NextCodeHere(s, codes, n);
        NextCode(s[|c|..], codes, n);
      } else {
        NextCode(s[1..], codes, n);
        if c <= OnePass(s, codes, n) { OnePassInvents(c, s, codes, n); }
      }
    }
  }

  lemma NextCodeHere(s: string, codes: seq<string>, n: nat)
    requires AreCodes(codes) && n < |codes| && Match(s, codes, n) == n && codes[n] <= s
    ensures Replaced(OnePass(s, codes, n), codes[n], Tag(n)) ==
            Tag(n) + Replaced(OnePass(s[|codes[n]|..], codes, n), codes[n], Tag(n))
  {
    hide Tag;
    PassKeepsCode(s, codes, n);
    ReplacedHead(codes[n], OnePass(s[|codes[n]|..], codes, n), Tag(n));
  }

  /** A pass that does not know a code copies it. */
  lemma PassKeepsCode(s: string, codes: seq<string>, n: nat)
    requires AreCodes(codes) && n < |codes| && Match(s, codes, n) == n && codes[n] <= s
    ensures OnePass(s, codes, n) == codes[n] + OnePass(s[|codes[n]|..], codes, n)
  {
    hide OnePass;
    var c := codes[n];
    var rest := OnePass(s[|c|..], codes, n);
    CopyFirst(s, codes, n);
    assert c[1..] <= s[1..];
    OnePassCopies(c[1..], s[1..], codes, n);
    assert s[1..][|c| - 1..] == s[|c|..];
    assert [s[0]] + (c[1..] + rest) == c + rest;
  }

  lemma ReplacedHead(c: string, rest: string, glue: string)
    requires c != []
    ensures Replaced(c + rest, c, glue) == glue + Replaced(rest, c, glue)
  {
    assert (c + rest)[|c|..] == rest;
  }

  /** replace_emotion: each code in turn, over the whole string. */
  method ReplaceEmotion(msg: string) returns (str: string)
    ensures AreCodes(EMOTIONS) && str == OnePass(msg, EMOTIONS, |EMOTIONS|)
  {
    hide EMOTIONS;
    EmotionsAreCodes();
    str := ReplaceEach(msg, EMOTIONS);
  }

  method ReplaceEach(msg: string, codes: seq<string>) returns (str: string)
    requires AreCodes(codes)
    ensures str == OnePass(msg, codes, |codes|)
  {
    hide OnePass, StrReplace, Replaced, Tag, IsCode;
    OnePassNothing(msg, codes);
    str := msg;
    var i := 0;
    while i < |codes|
      invariant i <= |codes| && str == OnePass(msg, codes, i)
    {
      NextCode(msg, codes, i);
      CodeNotEmpty(codes[i]);
      StrReplaceIsReplaced(str, codes[i], Tag(i));
      if IndexOfText(str, codes[i]) < |str| {
        str := StrReplace(str, codes[i], Tag(i));
      } else {
        NotThere(str, codes[i], Tag(i));
      }
      i := i + 1;
    }
  }

  lemma CodeNotEmpty(c: string)
    requires IsCode(c)
    ensures c != []
  {}

  lemma NotThere(s: string, c: string, glue: string)
    requires c != [] && IndexOfText(s, c) == |s|
    ensures Replaced(s, c, glue) == s
  {
    ReplacedSkips(s, c, glue, |s|);
    assert s[|s|..] == [] && s[..|s|] == s;
  }

  /** A message with the first code in it. */
  lemma SmileReplaced()
    ensures AreCodes(EMOTIONS) && OnePass("hi /:)!", EMOTIONS, |EMOTIONS|) == "hi #0#!"
  {
    hide EMOTIONS, OnePass, AreCodes, Printed;
    EmotionsAreCodes();
    FirstCode();
    var s, n := "hi /:)!", |EMOTIONS|;
    assert s[3..] == "/:)!" && s[..3] == "hi " && "hi " <= s;
    NoSlashIn();
    OnePassCopies("hi ", s, EMOTIONS, n);
    SmileThenMore(EMOTIONS, n);
  }

  lemma NoSlashIn()
    ensures '/' !in "hi " && '/' !in "!"
  {}

  lemma FirstCode()
    ensures |EMOTIONS| == 96 && EMOTIONS[0] == "/:)"
  {
    hide EMOTIONS, ROW0;
    Numbers();
    Codes0();
    assert EMOTIONS[0..8][0] == EMOTIONS[0];
  }

  lemma SmileThenMore(codes: seq<string>, n: nat)
    requires 0 < n <= |codes| && AreCodes(codes) && codes[0] == "/:)"
    ensures OnePass("/:)!", codes, n) == "#0#!"
  {
    hide AreCodes, Printed;
    var s := "/:)!";
    assert s[..3] == "/:)" && s[3..] == "!";
    assert codes[0] <= s;
    assert Match(s, codes, n) == 0;
    NoSlashIn();
    OnePassCopies("!", "!", codes, n);
    assert "!"[1..] == [];
    ZeroTag();
  }

  lemma ZeroTag()
    ensures Tag(0) == "#0#"
  {}
}
