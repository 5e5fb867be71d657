/** What a message looks like after both steps: codes rewritten to marks, marks turned into images. */
module MessageView {
  import opened Text
  import opened Emotion
  import opened RenderScan

  /** What the sender meant: codes are images, everything else is letters. */
  function Wanted(s: string, codes: seq<string>, n: nat): seq<Item>
    requires n <= |codes| && AreCodes(codes)
    decreases |s|
  {
    if s == [] then [] else
      var i := Match(s, codes, n);
      if i < n then [Image(i)] + Wanted(s[|codes[i]|..], codes, n)
      else [Letter(s[0])] + Wanted(s[1..], codes, n)
  }

  /** How far the first '#' or code is. */
  function Gap(s: string, codes: seq<string>, n: nat): (gap: nat)
    requires n <= |codes|
    ensures gap <= |s|
  {
    if s == [] || s[0] == '#' || Match(s, codes, n) < n then 0 else 1 + Gap(s[1..], codes, n)
  }

  /** The sender's own '#' at the front, one or two characters that read as an image, and a '#' or a code. */
  predicate Stray(s: string, codes: seq<string>, n: nat)
    requires n <= |codes| && s != []
  {
    var gap := Gap(s[1..], codes, n);
    s[0] == '#' && (gap == 1 || gap == 2) && gap < |s| - 1 && 0 <= Atoi(s[1..gap + 1]) < IMAGES
  }

  /** No character outside the codes is a stray '#'. */
  predicate Clean(s: string, codes: seq<string>, n: nat)
    requires n <= |codes| && AreCodes(codes)
    decreases |s|
  {
    s == [] ||
    var i := Match(s, codes, n);
    if i < n then Clean(s[|codes[i]|..], codes, n) else !Stray(s, codes, n) && Clean(s[1..], codes, n)
  }

  lemma PassStarts(s: string, codes: seq<string>, n: nat)
    requires n <= |codes| && AreCodes(codes) && s != [] && Match(s, codes, n) < n
    ensures var i := Match(s, codes, n); OnePass(s, codes, n) == Tag(i) + OnePass(s[|codes[i]|..], codes, n)
  {}

  lemma {:induction false} GapInPass(s: string, codes: seq<string>, n: nat)
    requires n <= |codes| && AreCodes(codes)
    ensures var gap, out := Gap(s, codes, n), OnePass(s, codes, n);
            IndexOf(out, '#') == gap && (gap < |s| <==> gap < |out|) && out[..gap] == s[..gap]
    decreases |s|
  {
    hide OnePass, Match, AreCodes;
    if s == [] {
      OnePassEmpty(codes, n);
    } else if Match(s, codes, n) < n {
      PassStarts(s, codes, n);
    } else {
      CopyFirst(s, codes, n);
      GapInPass(s[1..], codes, n);
      var out, rest := OnePass(s, codes, n), OnePass(s[1..], codes, n);
      assert out[1..] == rest;
      if s[0] != '#' {
        var gap := Gap(s[1..], codes, n);
        assert out[..1 + gap] == [s[0]] + rest[..gap] && s[..1 + gap] == [s[0]] + s[1..][..gap];
      }
    }
  }

  lemma OnePassEmpty(codes: seq<string>, n: nat)
    requires n <= |codes| && AreCodes(codes)
    ensures OnePass([], codes, n) == []
  {}

  /** A copied '#' becomes the start of a mark exactly when it is stray. */
  lemma StrayIsMark(s: string, codes: seq<string>, n: nat)
    requires n <= |codes| && AreCodes(codes) && s != [] && Match(s, codes, n) == n
    ensures MarkLength(OnePass(s, codes, n)) > 0 <==> Stray(s, codes, n)
  {
    hide Gap, Match, Atoi, OnePass, AreCodes;
    var out, gap := OnePass(s, codes, n), Gap(s[1..], codes, n);
    GapInPass(s[1..], codes, n);
    CopyFirst(s, codes, n);
    assert out[1..] == OnePass(s[1..], codes, n);
    if gap < |s| - 1 {
      assert out[1..gap + 1] == out[1..][..gap] && s[1..gap + 1] == s[1..][..gap];
    }
  }

  lemma SmallNumber(i: nat)
    requires i < IMAGES
    ensures |Printed(i, 10)| == 1 || |Printed(i, 10)| == 2
    ensures Atoi(Printed(i, 10)) == i
  {
    AtoiPrinted(i, []);
    assert Printed(i, 10) + [] == Printed(i, 10);
  }

  /** A tag is a mark for its number, whatever follows it. */
  lemma TagIsMark(i: nat, rest: string)
    requires i < IMAGES
    ensures Items(Tag(i) + rest) == [Image(i)] + Items(rest)
  {
    hide Atoi, Printed, Items, MarkLength, MarkId;
    var number, s := Printed(i, 10), Tag(i) + rest;
    assert s[1..] == number + ['#'] + rest;
    assert s[1..|number| + 1] == number && s[|number| + 2..] == rest;
    SmallNumber(i);
    PrintedPlain(i, 10, '#');
    IndexOfConcat(number, '#', rest);
    MarkOf(s, |number|);
    OneMark(s, 0);
    assert s[0..] == s;
  }

  lemma MarkOf(s: string, n: nat)
    requires s != [] && s[0] == '#' && IndexOf(s[1..], '#') == n < |s| - 1 && (n == 1 || n == 2) && 0 <= Atoi(s[1..n + 1]) < IMAGES
    ensures MarkLength(s) == n + 2 && MarkId(s) == Atoi(s[1..n + 1])
  {}

  /** The screen shows what the sender meant exactly when no '#' of the sender is stray. */
  lemma {:induction false} ShownIsWanted(s: string, codes: seq<string>, n: nat)
    requires n <= |codes| && n <= IMAGES && AreCodes(codes)
    ensures Items(OnePass(s, codes, n)) == Wanted(s, codes, n) <==> Clean(s, codes, n)
    decreases |s|
  {
    hide MarkLength, MarkId, Stray, Tag, Match, OnePass, AreCodes, Items, Wanted, Clean;
    if s == [] {
      NothingShown(codes, n);
    } else {
      var i := Match(s, codes, n);
      if i < n {
        CodesNotEmpty(codes, i);
        ShownIsWanted(s[|codes[i]|..], codes, n);
        TagShown(s, codes, n);
      } else {
        ShownIsWanted(s[1..], codes, n);
        LetterShown(s, codes, n);
      }
    }
  }

  lemma TagShown(s: string, codes: seq<string>, n: nat)
    requires n <= |codes| && n <= IMAGES && AreCodes(codes) && s != [] && Match(s, codes, n) < n
    ensures var rest := s[|codes[Match(s, codes, n)]|..];
            && (Items(OnePass(s, codes, n)) == Wanted(s, codes, n) <==>
               Items(OnePass(rest, codes, n)) == Wanted(rest, codes, n))
            && (Clean(s, codes, n) <==> Clean(rest, codes, n))
  {
    hide MarkLength, MarkId, Stray, Tag, Match, OnePass, Items;
    var i := Match(s, codes, n);
    var rest := s[|codes[i]|..];
    PassStarts(s, codes, n);
    TagIsMark(i, OnePass(rest, codes, n));
    SameRest(Image(i), Image(i), Items(OnePass(rest, codes, n)), Wanted(rest, codes, n));
  }

  lemma LetterShown(s: string, codes: seq<string>, n: nat)
    requires n <= |codes| && n <= IMAGES && AreCodes(codes) && s != [] && Match(s, codes, n) == n
    ensures Clean(s, codes, n) <==> !Stray(s, codes, n) && Clean(s[1..], codes, n)
    ensures Items(OnePass(s, codes, n)) == Wanted(s, codes, n) <==>
            !Stray(s, codes, n) && Items(OnePass(s[1..], codes, n)) == Wanted(s[1..], codes, n)
  {
    hide MarkLength, MarkId, Stray, Tag, Match, OnePass, Items, AreCodes;
    var out := Items(OnePass(s, codes, n));
    CopyFirst(s, codes, n);
    StrayIsMark(s, codes, n);
    FirstShown(s[0], OnePass(s[1..], codes, n));
    if Stray(s, codes, n) {
      assert Wanted(s, codes, n)[0] == Letter(s[0]);
    } else {
      SameRest(Letter(s[0]), Letter(s[0]), Items(OnePass(s[1..], codes, n)), Wanted(s[1..], codes, n));
    }
  }

  lemma SameRest(x: Item, y: Item, a: seq<Item>, b: seq<Item>)
    ensures [x] + a == [y] + b <==> x == y && a == b
    ensures a + [x] == b + [y] <==> x == y && a == b
  {
    assert ([x] + a)[1..] == a && ([y] + b)[1..] == b && ([x] + a)[0] == x && ([y] + b)[0] == y;
    assert (a + [x])[..|a|] == a && (b + [y])[..|b|] == b && (a + [x])[|a|] == x && (b + [y])[|b|] == y;
  }

  lemma NothingShown(codes: seq<string>, n: nat)
    requires n <= |codes| && AreCodes(codes)
    ensures Items(OnePass([], codes, n)) == [] == Wanted([], codes, n) && Clean([], codes, n)
  {}

  lemma CodesNotEmpty(codes: seq<string>, i: nat)
    requires AreCodes(codes) && i < |codes|
    ensures codes[i] != []
  {}

  lemma FirstShown(c: char, rest: string)
    ensures var items := Items([c] + rest);
            if MarkLength([c] + rest) > 0 then items != [] && items[0].Image? else items == [Letter(c)] + Items(rest)
  {
    hide MarkLength, MarkId;
    assert ([c] + rest)[1..] == rest;
  }

  /** A message without '#' is always shown as meant. */
  lemma {:induction false} NoHashIsClean(s: string, codes: seq<string>, n: nat)
    requires n <= |codes| && AreCodes(codes) && '#' !in s
    ensures Clean(s, codes, n)
    decreases |s|
  {
    if s != [] {
      var i := Match(s, codes, n);
      NoHashIsClean(if i < n then s[|codes[i]|..] else s[1..], codes, n);
    }
  }

  /** Typed text that reads like a mark is shown as an image. */
  lemma TypedMark(codes: seq<string>)
    requires AreCodes(codes) && |codes| <= IMAGES
    ensures Stray("#7#", codes, |codes|)
    ensures Items(OnePass("#7#", codes, |codes|)) != Wanted("#7#", codes, |codes|)
  {
    hide Stray, OnePass, Items, Wanted, Match;
    var s, n := "#7#", |codes|;
    GapAfterSeven(codes);
    SevenIsStray(codes);
    NoSlashNoMatch(s, codes, n);
    StrayNotClean(s, codes, n);
    ShownIsWanted(s, codes, n);
  }

  lemma StrayNotClean(s: string, codes: seq<string>, n: nat)
    requires n <= |codes| && AreCodes(codes) && s != [] && Match(s, codes, n) == n && Stray(s, codes, n)
    ensures !Clean(s, codes, n)
  {}

  lemma GapAfterSeven(codes: seq<string>)
    requires AreCodes(codes)
    ensures Gap("7#", codes, |codes|) == 1
  {
    hide Match, AreCodes, IsCode;
    Sevens();
    NoSlashNoMatch("7#", codes, |codes|);
    assert Gap("#", codes, |codes|) == 0;
  }

  lemma SevenIsStray(codes: seq<string>)
    requires Gap("7#", codes, |codes|) == 1
    ensures Stray("#7#", codes, |codes|)
  {
    hide Gap, Atoi, Printed;
    Sevens();
    SmallNumber(7);
  }

  lemma Sevens()
    ensures "#7#"[1..] == "7#" && "7#"[1..] == "#" && "#7#"[1..2] == "7" && Printed(7, 10) == "7"
  {}

  /** Rewriting, then scanning: what is put into the text view for a message. */
  method InsertMessage(msg: string) returns (spans: seq<Span>)
    ensures AreCodes(EMOTIONS)
    ensures FacesAreMarks(spans)
    ensures Sources(spans) == OnePass(msg, EMOTIONS, |EMOTIONS|) + "\n"
    ensures Shown(spans) == Wanted(msg, EMOTIONS, |EMOTIONS|) + [Letter('\n')] <==> Clean(msg, EMOTIONS, |EMOTIONS|)
  {
    hide EMOTIONS, AreCodes, OnePass, Wanted, Clean, Shown, Sources, FacesAreMarks, Items;
    EmotionsAreCodes();
    var str := ReplaceEmotion(msg);
    spans := Scan(str);
    ShownIsWanted(msg, EMOTIONS, |EMOTIONS|);
    SameRest(Letter('\n'), Letter('\n'), Items(str), Wanted(msg, EMOTIONS, |EMOTIONS|));
  }
}
