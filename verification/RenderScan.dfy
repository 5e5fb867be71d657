/** The scan that puts a message with "#id#" marks into the text view: text here, an image there. */
module RenderScan {
  import opened Text

  const IMAGES := 96

  /** What is inserted: a piece of the string as text, or an image for a piece of the string. */
  datatype Span = Words(source: string) | Face(source: string, id: nat)

  function Sources(spans: seq<Span>): string {
    if spans == [] then [] else Sources(spans[..|spans| - 1]) + spans[|spans| - 1].source
  }

  /** The length of the mark that starts s, or 0: '#', one or two characters that atoi reads as an image, '#'. */
  function MarkLength(s: string): (n: nat)
    ensures n == 0 || (3 <= n <= 4 && n <= |s| && s[0] == '#' && s[n - 1] == '#')
  {
    if s == [] || s[0] != '#' then 0 else
      var n := IndexOf(s[1..], '#');
      if n < |s| - 1 && (n == 1 || n == 2) && 0 <= Atoi(s[1..n + 1]) < IMAGES then n + 2 else 0
  }

  function MarkId(s: string): (id: nat)
    requires MarkLength(s) > 0
    ensures id < IMAGES
  {
    Atoi(s[1..MarkLength(s) - 1])
  }

  /** A mark is '#', one or two characters that read as a number from 0 to 95, and the next '#'. */
  lemma MarkIs(s: string)
    ensures MarkLength(s) > 0 <==>
            && |s| > 2 && s[0] == '#' && '#' in s[1..]
            && var n := IndexOf(s[1..], '#'); 1 <= n <= 2 && 0 <= Atoi(s[1..n + 1]) <= 95
    ensures MarkLength(s) > 0 ==> MarkLength(s) == IndexOf(s[1..], '#') + 2 && MarkId(s) == Atoi(s[1..MarkLength(s) - 1])
  {
    hide Atoi;
    if s != [] { IndexOfAbsent(s[1..], '#'); }
  }

  /** One thing seen on the screen. */
  datatype Item = Letter(c: char) | Image(id: nat)

  function Letters(s: string): (items: seq<Item>)
    ensures |items| == |s|
  {
    seq(|s|, i requires 0 <= i < |s| => Letter(s[i]))
  }

  /** What spans look like. */
  function Shown(spans: seq<Span>): seq<Item> {
    if spans == [] then [] else
      var last := spans[|spans| - 1];
      Shown(spans[..|spans| - 1]) + (match last case Words(w) => Letters(w) case Face(_, id) => [Image(id)])
  }

  /** What a string looks like: marks are images, everything else is letters. */
  function Items(s: string): seq<Item>
    decreases |s|
  {
    if s == [] then []
    else if MarkLength(s) > 0 then [Image(MarkId(s))] + Items(s[MarkLength(s)..])
    else [Letter(s[0])] + Items(s[1..])
  }

  /** An image stands for exactly one mark, the one with its number. */
  ghost predicate Faithful(span: Span) {
    span.Face? ==> 0 < MarkLength(span.source) == |span.source| && span.id == MarkId(span.source)
  }

  ghost predicate FacesAreMarks(spans: seq<Span>) { forall i :: 0 <= i < |spans| ==> Faithful(spans[i]) }

  lemma AddSpan(spans: seq<Span>, span: Span)
    ensures Sources(spans + [span]) == Sources(spans) + span.source
    ensures Shown(spans + [span]) == Shown(spans) + (match span case Words(w) => Letters(w) case Face(_, id) => [Image(id)])
    ensures FacesAreMarks(spans) && Faithful(span) ==> FacesAreMarks(spans + [span])
  {
    hide Faithful, Letters;
    assert (spans + [span])[..|spans|] == spans;
  }

  /** A mark is decided by its own characters. */
  lemma MarkAlone(s: string)
    requires MarkLength(s) > 0
    ensures var m := s[..MarkLength(s)]; MarkLength(m) == |m| && MarkId(m) == MarkId(s)
  {
    hide Atoi, IndexOf;
    var n := MarkLength(s) - 2;
    var m := s[..n + 2];
    assert s[1..][..n] == m[1..][..n] && m[1..][n] == '#';
    assert m[1..] == s[1..][..n] + ['#'] + [];
    IndexOfConcat(s[1..][..n], '#', []);
    assert m[1..n + 1] == s[1..n + 1];
  }

  lemma LettersConcat(s: string, t: string)
    ensures Letters(s + t) == Letters(s) + Letters(t)
  {}

  /** The view holds str before j; the text from j to i has no mark; str from i on is still to be scanned. */
  ghost predicate Scanned(spans: seq<Span>, str: string, j: nat, i: nat) {
    && j <= i <= |str|
    && Sources(spans) == str[..j]
    && Shown(spans) + Letters(str[j..i]) + Items(str[i..]) == Items(str)
    && FacesAreMarks(spans)
  }

  lemma ScanStarts(str: string)
    ensures Scanned([], str, 0, 0)
  {
    assert str[0..] == str && str[..0] == [] && Letters(str[0..0]) == [];
  }

  /** One character that starts no mark joins the text. */
  lemma OneLetter(spans: seq<Span>, str: string, j: nat, i: nat)
    requires Scanned(spans, str, j, i) && i < |str| && MarkLength(str[i..]) == 0
    ensures Scanned(spans, str, j, i + 1)
  {
    hide MarkLength, MarkId, Letters, Sources, Shown, FacesAreMarks;
    FirstLetter(str[i..]);
    assert str[i..][1..] == str[i + 1..] && str[j..i + 1] == str[j..i] + [str[i]];
    LettersConcat(str[j..i], [str[i]]);
    assert Letters(str[j..i]) + Items(str[i..]) == Letters(str[j..i + 1]) + Items(str[i + 1..]);
  }

  lemma FirstLetter(s: string)
    requires s != [] && MarkLength(s) == 0
    ensures Items(s) == Letters([s[0]]) + Items(s[1..])
  {
    hide MarkLength, MarkId;
    assert Letters([s[0]]) == [Letter(s[0])];
  }

  /** A mark becomes one image. */
  lemma OneMark(str: string, i: nat)
    requires i < |str| && MarkLength(str[i..]) > 0
    ensures var n := MarkLength(str[i..]);
            i + n <= |str| && Items(str[i..]) == [Image(MarkId(str[i..]))] + Items(str[i + n..])
  {
    assert str[i..][MarkLength(str[i..])..] == str[i + MarkLength(str[i..])..];
  }

  /** The text before a mark and the mark, put into the view. */
  lemma TextAndMark(spans: seq<Span>, str: string, j: nat, i: nat, n: nat)
    requires Scanned(spans, str, j, i) && i < |str| && MarkLength(str[i..]) == n > 0
    ensures i + n <= |str|
    ensures Scanned(spans + [Words(str[j..i])] + [Face(str[i..i + n], MarkId(str[i..]))], str, i + n, i + n)
  {
    hide Items, MarkLength, MarkId, Sources, Shown, FacesAreMarks, Faithful, Letters;
    OneMark(str, i);
    var words, face := Words(str[j..i]), Face(str[i..i + n], MarkId(str[i..]));
    FaithfulMark(str, i);
    AddSpan(spans, words);
    AddSpan(spans + [words], face);
    assert str[..j] + str[j..i] + str[i..i + n] == str[..i + n];
    assert str[i + n..i + n] == [];
  }

  lemma FaithfulMark(str: string, i: nat)
    requires i < |str| && MarkLength(str[i..]) > 0
    ensures var n := MarkLength(str[i..]);
            Faithful(Face(str[i..i + n], MarkId(str[i..]))) && forall w :: Faithful(Words(w))
  {
    hide MarkLength, MarkId;
    MarkAlone(str[i..]);
    assert str[i..][..MarkLength(str[i..])] == str[i..i + MarkLength(str[i..])];
  }

  lemma IdOfMark(s: string, n: nat)
    requires MarkLength(s) == n + 2 > 2
    ensures MarkId(s) == Atoi(s[1..n + 1])
  {}

  /** The rest of the text, put into the view. */
  lemma TextEnds(spans: seq<Span>, str: string, j: nat)
    requires Scanned(spans, str, j, |str|)
    ensures var all := if j < |str| then spans + [Words(str[j..])] else spans;
            Sources(all) == str && Shown(all) == Items(str) && FacesAreMarks(all)
  {
    hide Shown, Sources, MarkLength, MarkId, Letters, FacesAreMarks;
    assert str[|str|..] == [] && str[j..|str|] == str[j..] && str[..j] + str[j..] == str;
    AddSpan(spans, Words(str[j..]));
  }

  lemma LineEnds(spans: seq<Span>)
    requires FacesAreMarks(spans)
    ensures var all := spans + [Words("\n")];
            Sources(all) == Sources(spans) + "\n" && Shown(all) == Shown(spans) + [Letter('\n')] && FacesAreMarks(all)
  {
    hide Shown, Sources, MarkLength, MarkId, FacesAreMarks;
    AddSpan(spans, Words("\n"));
    assert Letters("\n") == [Letter('\n')];
  }

  /** The scanning loop: i looks for marks, j remembers where the text not yet inserted starts. */
  method Scan(str: string) returns (spans: seq<Span>)
    ensures Sources(spans) == str + "\n"
    ensures Shown(spans) == Items(str) + [Letter('\n')]
    ensures FacesAreMarks(spans)
  {
    hide Scanned, MarkId, Atoi, FacesAreMarks, Sources, Shown, Items;
    spans := [];
    var i, j := 0, 0;
    ScanStarts(str);
    while i < |str|
      invariant 0 <= j <= i <= |str|
      invariant Scanned(spans, str, j, i)
      decreases |str| - i
    {
      ghost var start := i;
      if str[i] == '#' {
        var p := i + 1;
        var n := IndexOf(str[p..], '#');
        assert str[i..][1..] == str[p..];
        if n < |str[p..]| && (n == 1 || n == 2) {
          var id := Atoi(str[p..p + n]);
          assert str[i..][1..n + 1] == str[p..p + n];
          if 0 <= id < IMAGES {
            IdOfMark(str[i..], n);
            TextAndMark(spans, str, j, i, n + 2);
            spans := spans + [Words(str[j..i])];
            spans := spans + [Face(str[i..i + n + 2], id)];
            j := i + n + 2;
            i := i + n + 1;
          }
        }
      }
      if i == start {
        assert MarkLength(str[i..]) == 0;
        OneLetter(spans, str, j, i);
      }
      i := i + 1;
    }
    TextEnds(spans, str, j);
    if j < |str| {
      spans := spans + [Words(str[j..])];
    }
    LineEnds(spans);
    spans := spans + [Words("\n")];
  }
}
