/** The entry broadcast: sent by one client, parsed and entered by another. */
module FeiqEntry {
  import opened Text
  import opened Wire
  import opened ParseMessage
  import opened MsgText
  import opened Feiq

  datatype Entry = Entry(avatar: nat, mac: string, packetId: nat, username: string, hostname: string, nickname: string, category: string) {
    function Fields(): Fields { Header(avatar, "128", mac, 0, packetId, username, hostname, 0x101, nickname) }

    function Text(): string { Fields().Stored(':') }

    predicate Texts() { CText(mac) && CText(username) && CText(hostname) && CText(nickname) && CText(category) }

    /** The packet: the size counts the header text twice and the category not at all. */
    function Sent(): (s: string)
      ensures |s| == 2 * (|Text()| + 1)
    {
      (Text() + [NUL] + category + Zeros(|Text()| + 1))[..2 * (|Text()| + 1)]
    }

    /** The part of the category that fits in the size computed from the header. */
    function Arriving(): string {
      if |category| <= |Text()| + 1 then category else category[..|Text()| + 1]
    }

    /** The nickname, NUL, the category and zeros, as the receiver finds them. */
    function Payload(): string {
      nickname + [NUL] + Arriving() + Zeros(|Text()| + 1 - |Arriving()|)
    }

    /** The names as they lie in the receiver's memory after parsing; one that is too long runs on into the next. */
    function ParsedHostname(): string { RunOn(hostname, 160, nickname) }

    function ParsedUsername(): string { RunOn(username, 32, ParsedHostname()) }

    /** The nickname, or the user name in its place. */
    function Shown(): string { if nickname == "" then ParsedUsername() else nickname }
  }

  /** What an entry is announced with. */
  lemma EntryText(e: Entry)
    ensures e.Text() == "1_lbt4_" + Printed(e.avatar, 10) + "#128#" + e.mac + "#0#0#0:" + Printed(e.packetId, 10) + ":" +
                        e.username + ":" + e.hostname + ":257:" + e.nickname
  {
    hide Printed;
    PrintedValues();
    HeaderText(e.avatar, "128", e.mac, 0, e.packetId, e.username, e.hostname, 0x101, e.nickname);
    Regrouping("1_lbt4_" + Printed(e.avatar, 10) + "#128#" + e.mac, Printed(e.packetId, 10), e.username + ":" + e.hostname, e.nickname);
  }

  lemma Regrouping(a: string, b: string, c: string, d: string)
    ensures a + "#0#0#" + "0" + ":" + b + ":" + c + ":" + "257" + ":" + d == a + "#0#0#0:" + b + ":" + c + ":257:" + d
  {}

  method EntryBroadcast(e: Entry, now: nat, room: nat) returns (r: int, pkt: Packet?)
    requires e.Texts() && 2 * (|e.Text()| + 1) <= BUF_SIZE && |e.Text()| + 1 + |e.category| < BUF_SIZE
    ensures r == if 20 + |e.Sent()| + 1 > room then -1 else 0
    ensures pkt == null <==> r == -1
    ensures pkt != null ==>
              && fresh(pkt) && fresh(pkt.data) && pkt.data.Length == pkt.size + 1
              && pkt.ip == 0xffff_ffff && pkt.port == 9090 && pkt.mtime == now
              && pkt.data[..pkt.size] == e.Sent()
  {
    hide Fields.Stored, Header;
    var buf := new char[BUF_SIZE](_ => NUL);
    var text := e.Text();
    HeaderIsText(e.avatar, "128", e.mac, 0, e.packetId, e.username, e.hostname, 0x101, e.nickname);
    PrintInto(buf, 0, text);
    var size := StrLen(buf, text);
    size := size + 1;
    assert buf[..] == text + [NUL] + Zeros(BUF_SIZE - size);
    PrintInto(buf, size, e.category);
    assert buf[..] == text + [NUL] + e.category + Zeros(BUF_SIZE - size - |e.category|);
    var len := StrLen(buf, text);
    size := size + (len + 1);
    SentPrefix(e, buf[..]);
    pkt := NewPacket(now, 0xffff_ffff, 9090, buf, size, room);
    r := if pkt == null then -1 else 0;
  }

  lemma SentPrefix(e: Entry, buf: string)
    requires |buf| == BUF_SIZE && 2 * (|e.Text()| + 1) <= BUF_SIZE && |e.Text()| + 1 + |e.category| < BUF_SIZE
    requires buf == e.Text() + [NUL] + e.category + Zeros(BUF_SIZE - (|e.Text()| + 1) - |e.category|)
    ensures buf[..2 * (|e.Text()| + 1)] == e.Sent()
  {}

  // ---------- entering ----------

  /** sprintf of the avatar's file name. */
  function AvatarFile(avatar: nat): string {
    if avatar == 0 then "../pixmaps/avatar/default.png" else "../pixmaps/avatar/" + Printed(avatar, 10) + ".bmp"
  }

  /** The default for 0; otherwise the number in the file's name reads back. */
  lemma AvatarFileName(avatar: nat)
    ensures AvatarFile(0) == "../pixmaps/avatar/default.png"
    ensures avatar > 0 ==>
              var name := AvatarFile(avatar);
              && |name| > 22 && name[..18] == "../pixmaps/avatar/" && name[|name| - 4..] == ".bmp"
              && Atoi(name[18..]) == if avatar <= 0x7fff_ffff then avatar else 0x7fff_ffff
  {
    hide Printed, Atoi;
    if avatar > 0 {
      var name := AvatarFile(avatar);
      assert name[18..] == Printed(avatar, 10) + ".bmp";
      AtoiPrinted(avatar, ".bmp");
    }
  }

  lemma AvatarFileShort(avatar: nat)
    requires avatar < 0x1_0000
    ensures |AvatarFile(avatar)| < 32 && CText(AvatarFile(avatar))
  {
    hide Printed;
    NumberShort(avatar);
    PrintedPlain(avatar, 10, NUL);
  }

  /** The first C string of the data, and where the second begins. */
  function First(mem: string): string
    requires |mem| == TEXT_SIZE
  {
    At(mem, DATA)
  }

  function SecondAt(mem: string): (p: nat)
    requires |mem| == TEXT_SIZE && Ends(mem, DATA)
    ensures DATA < p <= TEXT_SIZE
  {
    DATA + |First(mem)| + 1
  }

  function Nickname(mem: string): string
    requires |mem| == TEXT_SIZE
  {
    if First(mem) == [] then At(mem, USERNAME) else First(mem)
  }

  function Category(mem: string): string
    requires |mem| == TEXT_SIZE && Ends(mem, DATA)
  {
    if At(mem, SecondAt(mem)) == [] then "no group" else At(mem, SecondAt(mem))
  }

  /** Both strings end, and a user name to be copied does not reach the nickname, its target. */
  predicate Enterable(mem: string) {
    && |mem| == TEXT_SIZE && Ends(mem, DATA) && Ends(mem, SecondAt(mem))
    && (First(mem) == [] ==> |At(mem, USERNAME)| < 64)
  }

  lemma EntryFits(mem: string)
    requires Enterable(mem)
    ensures |Nickname(mem)| <= DATA_SIZE && |Category(mem)| <= DATA_SIZE && CText(Nickname(mem)) && CText(Category(mem))
  {}

  /** Writing the avatar disturbs nothing that is read afterwards. */
  lemma AfterAvatar(mem: string, file: string)
    requires Enterable(mem) && |file| < 32 && CText(file)
    ensures var m := Put(mem, AVATAR, file);
            Enterable(m) && First(m) == First(mem) && SecondAt(m) == SecondAt(mem) && Nickname(m) == Nickname(mem)
            && Category(m) == Category(mem)
  {
    hide At, Put, CText;
    AtPut(mem, AVATAR, file, DATA);
    AtPut(mem, AVATAR, file, SecondAt(mem));
    AtPut(mem, AVATAR, file, USERNAME);
  }

  /** Nor does writing the nickname, however long, reach the category in the data. */
  lemma AfterNickname(mem: string)
    requires Enterable(mem)
    ensures NICKNAME + |Nickname(mem)| < TEXT_SIZE
    ensures At(Put(mem, NICKNAME, Nickname(mem)), SecondAt(mem)) == At(mem, SecondAt(mem))
  {
    hide At, Put, CText;
    EntryFits(mem);
    AtPut(mem, NICKNAME, Nickname(mem), SecondAt(mem));
  }

  /** feiq_on_entry: the avatar number is read again, from what now follows the version in memory. */
  method OnEntry(msg: Msg)
    requires msg.text.Length == TEXT_SIZE && Enterable(msg.text[..])
    modifies msg`avatarId, msg.text
    ensures msg.avatarId == AvatarOf(old(At(msg.text[..], VERSION))) % 0x1_0000
    ensures var mem := old(msg.text[..]);
            |AvatarFile(msg.avatarId)| < 32 && |Nickname(mem)| <= DATA_SIZE && |Category(mem)| <= DATA_SIZE
    ensures msg.text[..] == EnteredText(old(msg.text[..]), AvatarFile(msg.avatarId), old(Nickname(msg.text[..])), old(Category(msg.text[..])))
  {
    hide AvatarOf, Printed, At, Put, CText;
    ghost var mem := msg.text[..];
    msg.avatarId := AvatarOf(At(msg.text[..], VERSION)) % 0x1_0000;
    AvatarFileShort(msg.avatarId);
    EntryFits(mem);
    PutInto(msg.text, AVATAR, AvatarFile(msg.avatarId));
    AfterAvatar(mem, AvatarFile(msg.avatarId));
    ghost var m1 := msg.text[..];
    var p := DATA + |At(msg.text[..], DATA)|;
    TextThenNul(m1, DATA);
    msg.text[p] := NUL;
    assert msg.text[..] == m1;
    p := p + 1;
    AfterNickname(m1);
    if |At(msg.text[..], DATA)| == 0 {
      CopyWithin(msg.text, USERNAME, NICKNAME);
    } else {
      CopyWithin(msg.text, DATA, NICKNAME);
    }
    if |At(msg.text[..], p)| == 0 {
      PutInto(msg.text, CATEGORY, "no group");
    } else {
      CopyWithin(msg.text, p, CATEGORY);
    }
  }

  // ---------- the avatar, read again ----------

  lemma {:induction false} AfterLastSuffix(s: string, t: string, c: char)
    requires c in t
    ensures AfterLast(s + t, c) == AfterLast(t, c)
  {
    var n := |t| - 1;
    if t[n] != c {
      assert (s + t)[..|s + t| - 1] == s + t[..n];
      assert t == t[..n] + [t[n]];
      AfterLastSuffix(s, t[..n], c);
    }
  }

  /** The first 16 characters of a version hold the avatar and the '#' behind it. */
  lemma VersionHead(avatar: nat, mac: string, size: nat) returns (behind: string)
    requires avatar < 0x1_0000 && '_' !in mac
    ensures |Version(avatar, "128", mac, size)| >= 16
    ensures Version(avatar, "128", mac, size)[..16] == "1_lbt4" + ['_'] + (Printed(avatar, 10) + behind)
    ensures behind != [] && behind[0] == '#' && '_' !in behind
  {
    hide Printed;
    var number, rest := Printed(avatar, 10), "#128#" + mac + "#0#0#" + Printed(size, 10);
    NumberShort(avatar);
    PrintedPlain(size, 10, '_');
    behind := rest[..9 - |number|];
    var v := Version(avatar, "128", mac, size);
    assert v == "1_lbt4_" + number + rest;
    assert v[..16] == "1_lbt4_" + number + behind;
  }

  /**
   * The first 16 characters of a version, and a user name behind them. The avatar is read from behind the
   * last '_', which is the version's own only if the user name has none.
   */
  lemma AvatarReread(avatar: nat, mac: string, size: nat, username: string)
    requires avatar < 0x1_0000 && '_' !in mac
    ensures AvatarOf(RunOn(Version(avatar, "128", mac, size), 16, username)) ==
            if '_' in username then Atoi(AfterLast(username, '_')) else avatar
  {
    hide Printed, AfterLast, Atoi, Version;
    var v := Version(avatar, "128", mac, size);
    var behind := VersionHead(avatar, mac, size);
    if '_' in username {
      AfterLastSuffix(v[..16], username, '_');
    } else {
      var number := Printed(avatar, 10) + (behind + username);
      assert v[..16] + username == "1_lbt4" + ['_'] + number;
      PrintedPlain(avatar, 10, '_');
      AfterLastConcat("1_lbt4", '_', number);
      AtoiPrinted(avatar, behind + username);
    }
  }

  // ---------- from one client to another ----------

  /** The bytes sent split into the header and a payload of nickname, category and zeros. */
  lemma SentSplits(e: Entry)
    ensures e.Sent() == e.Fields().(data := e.Payload()).Stored(':')
  {
    hide Header, Fields.Stored, Zeros;
    var n := |e.Text()| + 1;
    var header := e.Fields().(data := []).Stored(':');
    HeaderThenData(e.Fields());
    HeaderThenData(e.Fields().(data := e.Payload()));
    NicknameIsData(e);
    SentPieces(e.Text(), e.category, n);
    CutCategory(e.category, n);
    Regroup(header, e.nickname, e.Arriving(), Zeros(n - |e.Arriving()|));
  }

  lemma SentPieces(text: string, category: string, n: nat)
    requires n == |text| + 1
    ensures (text + [NUL] + category + Zeros(n))[..2 * n] == text + [NUL] + (category + Zeros(n))[..n]
  {
    assert text + [NUL] + category + Zeros(n) == text + [NUL] + (category + Zeros(n));
  }

  lemma Regroup(header: string, nickname: string, category: string, zeros: string)
    ensures header + nickname + [NUL] + (category + zeros) == header + (nickname + [NUL] + category + zeros)
  {}

  lemma NicknameIsData(e: Entry)
    ensures e.Fields().data == e.nickname
  {}

  lemma CutCategory(category: string, n: nat)
    ensures (category + Zeros(n))[..n] == if |category| <= n then category + Zeros(n - |category|) else category[..n]
  {}

  /** Two C strings, one after the other, with zeros to the end of the data. */
  lemma TwoStrings(mem: string, first: string, second: string, zeros: nat)
    requires CText(first) && CText(second) && zeros > 0 && |mem| == TEXT_SIZE
    requires mem[DATA..] == first + [NUL] + second + Zeros(zeros)
    ensures First(mem) == first && Ends(mem, DATA)
    ensures SecondAt(mem) == DATA + |first| + 1 && At(mem, SecondAt(mem)) == second && Ends(mem, SecondAt(mem))
  {
    hide CString;
    var tail := second + Zeros(zeros);
    assert mem[DATA..] == first + [NUL] + tail;
    CStringConcat(first, tail);
    assert mem[DATA + |first| + 1..] == mem[DATA..][|first| + 1..] == tail == second + [NUL] + Zeros(zeros - 1);
    CStringConcat(second, Zeros(zeros - 1));
  }

  /** What the source demands of the names of an entry: no separators in them, and room in its buffers. */
  predicate Announceable(e: Entry) {
    && e.Texts() && Plain(e.mac, e.username, e.hostname) && |e.mac| < 32
    && 2 * (|e.Text()| + 1) <= BUF_SIZE && |e.Text()| + 1 + |e.category| < BUF_SIZE
    && |e.Payload()| <= DATA_SIZE && (|e.Payload()| == DATA_SIZE ==> |e.category| <= |e.Text()|)
  }

  lemma AnnounceableFits(e: Entry)
    requires Announceable(e)
    ensures |e.Text()| < DATA_SIZE && CText(e.Arriving()) && CText(e.Fields().version)
    ensures VERSION + |e.Fields().version| < TEXT_SIZE && USERNAME + |e.username| < TEXT_SIZE && HOSTNAME + |e.hostname| < TEXT_SIZE
    ensures e.Payload() + Zeros(DATA_SIZE - |e.Payload()|) ==
            e.nickname + [NUL] + e.Arriving() + Zeros(DATA_SIZE - |e.nickname| - 1 - |e.Arriving()|)
    ensures DATA_SIZE - |e.nickname| - 1 - |e.Arriving()| > 0
  {
    hide Printed;
    PrintedPlain(e.avatar, 10, NUL);
    PrintedPlain(0, 10, NUL);
  }

  /** The broadcast, parsed: what the receiver's memory holds before the entry handler looks at it. */
  method Announce(e: Entry, now: nat, msg: Msg)
    requires Announceable(e) && msg.text.Length == TEXT_SIZE
    modifies msg, msg.text
    ensures msg.avatarId == Clamped(e.avatar) % 0x1_0000 && msg.command == 0x101
    ensures var t := msg.text[..];
            && At(t, MACADDR) == e.mac && At(t, USERNAME) == e.ParsedUsername() && At(t, HOSTNAME) == e.ParsedHostname()
            && At(t, VERSION) == RunOn(e.Fields().version, 16, e.ParsedUsername())
            && First(t) == e.nickname && Ends(t, DATA)
            && At(t, SecondAt(t)) == e.Arriving() && Ends(t, SecondAt(t))
  {
    hide Field, HasFields, Split, HasHashes, AvatarOf, MacOf, GroupSizeOf, Atoi, Version, Fields.Stored, Parseable;
    hide Zeros, At, RunOn, ParsedText, Printed, Entry.Payload, Entry.Arriving, Entry.Text;
    ghost var before, data := msg.text[..], e.Payload();
    AnnounceableFits(e);
    SentSplits(e);
    BuiltParses(e.avatar, "128", e.mac, 0, e.packetId, e.username, e.hostname, 0x101, data);
    var r, pkt := EntryBroadcast(e, now, POOL_ROOM);
    assert Header(e.avatar, "128", e.mac, 0, e.packetId, e.username, e.hostname, 0x101, data) == e.Fields().(data := data);
    r := ParsePacket(pkt, msg);
    AddressShort(pkt.ip);
    ghost var all := data + Zeros(DATA_SIZE - |data|);
    ParsedMembers(before, e.Fields().version, e.mac, Address.Ip2Str(pkt.ip), e.username, e.hostname, all);
    TwoStrings(msg.text[..], e.nickname, e.Arriving(), DATA_SIZE - |e.nickname| - 1 - |e.Arriving()|);
  }

  /**
   * An entry broadcast received by another client. The category arrives whole exactly when it is not empty
   * and no longer than the header text plus one. The avatar arrives exactly when it has 16 bits and the user
   * name behind the version in memory has no '_' or the number behind its last one happens to be the avatar. A name arrives
   * exactly when it fits its member, or the member behind it happens to continue it.
   */
  method AnnounceThenEnter(e: Entry, now: nat, msg: Msg)
    requires Announceable(e) && msg.text.Length == TEXT_SIZE
    requires e.nickname == "" ==> |e.ParsedUsername()| < 64
    modifies msg, msg.text
    ensures msg.command == 0x101 && At(msg.text[..], MACADDR) == e.mac
    ensures msg.avatarId == e.avatar <==>
            e.avatar < 0x1_0000 &&
            ('_' !in e.ParsedUsername() || Atoi(AfterLast(e.ParsedUsername(), '_')) % 0x1_0000 == e.avatar)
    ensures var t := msg.text[..];
            && At(t, CATEGORY) == (if e.category == "" then "no group" else e.Arriving())
            && At(t, NICKNAME) == RunOn(e.Shown(), 96, At(t, CATEGORY))
            && At(t, HOSTNAME) == RunOn(e.hostname, 32, At(t, NICKNAME))
            && At(t, USERNAME) == RunOn(e.username, 32, At(t, HOSTNAME))
            && (|e.Shown()| < 32 ==> At(t, AVATAR) == AvatarFile(msg.avatarId))
    ensures var t := msg.text[..];
            && (At(t, CATEGORY) == e.category <==> e.category != "" && |e.category| <= |e.Text()| + 1)
            && (At(t, NICKNAME) == e.Shown() <==> |e.Shown()| < 96 || At(t, CATEGORY) == e.Shown()[96..])
            && (At(t, HOSTNAME) == e.hostname <==> |e.hostname| < 32 || At(t, NICKNAME) == e.hostname[32..])
            && (At(t, USERNAME) == e.username <==> |e.username| < 32 || At(t, HOSTNAME) == e.username[32..])
  {
    hide AvatarOf, At, RunOn, Put, Atoi, AfterLast, Announceable, Entry.Arriving, EnteredText, Nickname, Category, AvatarFile, Version;
    hide Entry.ParsedUsername, Entry.ParsedHostname;
    Announce(e, now, msg);
    ghost var mem := msg.text[..];
    Entering(e, mem);
    OnEntry(msg);
    if e.avatar < 0x1_0000 { AvatarReread(e.avatar, e.mac, 0, e.ParsedUsername()); }
    AvatarFileShort(msg.avatarId);
    Entered(e, mem, AvatarFile(msg.avatarId), e.Shown(), Category(mem));
    CategoryArrives(e);
  }

  /** What the entry handler finds. */
  lemma Entering(e: Entry, mem: string)
    requires Announceable(e) && |mem| == TEXT_SIZE && (e.nickname == "" ==> |e.ParsedUsername()| < 64)
    requires At(mem, USERNAME) == e.ParsedUsername() && First(mem) == e.nickname && Ends(mem, DATA)
    requires At(mem, SecondAt(mem)) == e.Arriving() && Ends(mem, SecondAt(mem))
    ensures Enterable(mem) && Nickname(mem) == e.Shown()
    ensures Category(mem) == if e.category == "" then "no group" else e.Arriving()
    ensures |Nickname(mem)| <= DATA_SIZE && |Category(mem)| <= DATA_SIZE && CText(Nickname(mem)) && CText(Category(mem))
    ensures '_' !in e.mac && |e.mac| < 32
  {
    EntryFits(mem);
  }

  /** What it leaves. */
  lemma Entered(e: Entry, mem: string, file: string, nickname: string, category: string)
    requires |mem| == TEXT_SIZE && |file| < 32 && |nickname| <= DATA_SIZE && |category| <= DATA_SIZE
    requires CText(file) && CText(nickname) && CText(category) && |e.mac| < 32
    requires At(mem, MACADDR) == e.mac && At(mem, USERNAME) == e.ParsedUsername() && At(mem, HOSTNAME) == e.ParsedHostname()
    ensures var t := EnteredText(mem, file, nickname, category);
            && At(t, MACADDR) == e.mac && At(t, CATEGORY) == category
            && At(t, NICKNAME) == RunOn(nickname, 96, category)
            && At(t, HOSTNAME) == RunOn(e.hostname, 32, At(t, NICKNAME))
            && At(t, USERNAME) == RunOn(e.username, 32, At(t, HOSTNAME))
            && (|nickname| < 32 ==> At(t, AVATAR) == file)
    ensures var t := EnteredText(mem, file, nickname, category);
            && (At(t, NICKNAME) == nickname <==> |nickname| < 96 || category == nickname[96..])
            && (At(t, HOSTNAME) == e.hostname <==> |e.hostname| < 32 || At(t, NICKNAME) == e.hostname[32..])
            && (At(t, USERNAME) == e.username <==> |e.username| < 32 || At(t, HOSTNAME) == e.username[32..])
  {
    hide At, RunOn, EnteredText, CText;
    var t := EnteredText(mem, file, nickname, category);
    EnteredMembers(mem, file, nickname, category);
    InFrontOfNickname(mem, file, nickname, category, MACADDR);
    InFrontOfNickname(mem, file, nickname, category, HOSTNAME);
    InFrontOfNickname(mem, file, nickname, category, USERNAME);
    RunOnShort(e.mac, 112, At(t, NICKNAME));
    RunOnAgain(e.hostname, 160, e.nickname, 32, At(t, NICKNAME));
    RunOnTwice(e.username, 32, e.ParsedHostname(), 32, At(t, NICKNAME));
    RunOnSame(nickname, 96, category);
    RunOnSame(e.hostname, 32, At(t, NICKNAME));
    RunOnSame(e.username, 32, At(t, HOSTNAME));
  }

  lemma CategoryArrives(e: Entry)
    ensures (if e.category == "" then "no group" else e.Arriving()) == e.category <==>
            e.category != "" && |e.category| <= |e.Text()| + 1
  {
    hide Entry.Text;
  }

  // ---------- an avatar that does not arrive ----------

  const WEB7 := Entry(3, "001122334455", 1, "web_7", "host", "nick", "friends")

  /** A user called web_7 whose avatar is 3 arrives with avatar 7. */
  lemma AvatarOfAnother()
    ensures Announceable(WEB7)
    ensures AvatarOf(RunOn(WEB7.Fields().version, 16, WEB7.ParsedUsername())) == 7 != WEB7.avatar
  {
    hide Printed, AfterLast, Atoi, AvatarOf, Version, RunOn, Announceable;
    Web7IsPlain();
    Web7Fits();
    AvatarReread(WEB7.avatar, WEB7.mac, 0, WEB7.username);
    RunOnShort(WEB7.username, 32, WEB7.ParsedHostname());
    AfterLastConcat("web", '_', "7");
    assert WEB7.username == "web" + ['_'] + "7";
    Seven();
  }

  lemma Web7IsPlain()
    ensures WEB7.Texts() && Plain(WEB7.mac, WEB7.username, WEB7.hostname)
    ensures '_' in WEB7.username
  {
    hide CText;
    Web7Mac();
    Web7Names();
    assert WEB7.username[3] == '_';
  }

  lemma Web7Mac()
    ensures ':' !in WEB7.mac && '#' !in WEB7.mac && '_' !in WEB7.mac && CText(WEB7.mac)
  {}

  lemma Web7Names()
    ensures ':' !in WEB7.username && ':' !in WEB7.hostname && CText(WEB7.username) && CText(WEB7.hostname)
    ensures CText(WEB7.nickname) && CText(WEB7.category)
  {}

  lemma Seven()
    ensures Atoi("7") == 7
  {
    AtoiPrinted(7, []);
    assert Printed(7, 10) + [] == "7";
  }

  lemma Web7Fits()
    ensures Announceable(WEB7)
  {
    hide Printed, CText, Zeros;
    Web7IsPlain();
    NumberShort(3);
    NumberShort(0);
    NumberShort(1);
    NumberShort(0x101);
    Web7Short();
  }

  lemma Web7Short()
    ensures |WEB7.mac| == 12 && |WEB7.username| == 5 && |WEB7.hostname| == 4 && |WEB7.nickname| == 4 && |WEB7.category| == 7
  {}
}
