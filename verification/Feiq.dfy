/** FeiQ packets: building them, parsing them in place, and the entry broadcast. */
module Feiq {
  import opened Arithmetic
  import opened Words
  import opened Text
  import opened Wire
  import opened Address
  import opened ParseMessage
  import opened MsgText

  const BUF_SIZE := 65535
  const PACKET_SIZE := 20  // sizeof(packet_t)
  const POOL_ROOM := 8 * 1024 * 1024 - 4  // the largest request that the program's pool grants

  /** uint16_t */
  type Short = n: nat | n < 0x1_0000

  class Packet {
    const mtime: nat
    const ip: Word
    const port: Short
    const size: nat
    const data: array<char>

    /** The packet's members and a copy of the bytes, in a buffer one byte longer. */
    constructor (now: nat, ip: Word, port: Short, buf: array<char>, size: nat)
      requires size <= buf.Length
      ensures fresh(data) && data.Length == size + 1
      ensures this.mtime == now && this.ip == ip && this.port == port && this.size == size
      ensures data[..size] == buf[..size]
    {
      mtime, this.ip, this.port, this.size := now, ip, port, size;
      data := new char[size + 1];
      new;
      forall i | 0 <= i < size { data[i] := buf[i]; }
    }
  }

  /** new_packet: NULL if the pool does not grant a request for the packet, its bytes and one more. */
  method NewPacket(now: nat, ip: Word, port: Short, buf: array<char>, size: nat, room: nat) returns (pkt: Packet?)
    requires size <= buf.Length
    ensures pkt == null <==> 20 + size + 1 > room
    ensures pkt != null ==>
              && fresh(pkt) && fresh(pkt.data) && pkt.data.Length == size + 1
              && pkt.mtime == now && pkt.ip == ip && pkt.port == port && pkt.size == size
              && pkt.data[..size] == buf[..size]
  {
    if PACKET_SIZE + size + 1 > room {
      return null;
    }
    pkt := new Packet(now, ip, port, buf, size);
  }

  class Msg {
    var mtime: nat
    var dataSize: nat
    var command: nat
    var packetId: nat
    var port: Short
    var avatarId: Short
    var gpmsgSize: Short
    var gpid: nat
    const text: array<char>  // ip to data

    constructor ()
      ensures fresh(text) && text.Length == TEXT_SIZE
    {
      text := new char[TEXT_SIZE];
    }

    /** The fields the packet builder prints, and the payload. */
    ghost function Outgoing(): Fields
      requires text.Length == TEXT_SIZE && dataSize <= DATA_SIZE
      reads this, text
    {
      Header(avatarId, "131", At(text[..], MACADDR), gpmsgSize, packetId, At(text[..], USERNAME), At(text[..], HOSTNAME), command,
             text[DATA..DATA + dataSize])
    }
  }

  /** "1_lbt4_%d#<tag>#%s#0#0#%d:%u:%s:%s:%u:" and what follows. */
  function Header(avatar: nat, tag: string, mac: string, size: nat, packetId: nat, username: string, hostname: string,
                  command: nat, data: string): Fields
  {
    Fields(Version(avatar, tag, mac, size), Printed(packetId, 10), username, hostname, Printed(command, 10), data)
  }

  /** The names of a header do not contain what separates its parts. */
  predicate Plain(mac: string, username: string, hostname: string) {
    && ':' !in mac && '#' !in mac && '_' !in mac && CText(mac)
    && ':' !in username && CText(username) && ':' !in hostname && CText(hostname)
  }

  /** The template, part by part. */
  lemma HeaderText(avatar: nat, tag: string, mac: string, size: nat, packetId: nat, username: string, hostname: string,
                   command: nat, data: string)
    ensures Header(avatar, tag, mac, size, packetId, username, hostname, command, data).Stored(':') ==
            "1_lbt4_" + Printed(avatar, 10) + "#" + tag + "#" + mac + "#0#0#" + Printed(size, 10) + ":" + Printed(packetId, 10) + ":" +
            username + ":" + hostname + ":" + Printed(command, 10) + ":" + data
  {
    hide Printed;
    VersionText(avatar, tag, mac, size);
    StoredText(Header(avatar, tag, mac, size, packetId, username, hostname, command, data));
  }

  /** sprintf(buf + off, "%s", s) */
  method PrintInto(buf: array<char>, off: nat, s: string)
    requires off + |s| < buf.Length
    modifies buf
    ensures buf[..] == old(buf[..off]) + s + [NUL] + old(buf[off + |s| + 1..])
  {
    forall i | 0 <= i < |s| { buf[off + i] := s[i]; }
    buf[off + |s|] := NUL;
  }

  /** What a message is sent as. */
  lemma OutgoingText(msg: Msg)
    requires msg.text.Length == TEXT_SIZE && msg.dataSize <= DATA_SIZE
    ensures var t := msg.text[..];
            msg.Outgoing().Stored(':') ==
            "1_lbt4_" + Printed(msg.avatarId, 10) + "#131#" + At(t, 32) + "#0#0#" + Printed(msg.gpmsgSize, 10) + ":" +
            Printed(msg.packetId, 10) + ":" + At(t, 80) + ":" + At(t, 112) + ":" + Printed(msg.command, 10) + ":" + t[272..272 + msg.dataSize]
  {
    hide Printed, At;
    var t := msg.text[..];
    HeaderText(msg.avatarId, "131", At(t, 32), msg.gpmsgSize, msg.packetId, At(t, 80), At(t, 112), msg.command, t[272..272 + msg.dataSize]);
  }

  method BuildPacket(msg: Msg, now: nat, room: nat) returns (r: int, pkt: Packet?)
    requires msg.text.Length == TEXT_SIZE && msg.dataSize <= DATA_SIZE
    requires Ends(msg.text[..], HOSTNAME) && |ScanDotted(At(msg.text[..], IP), 4)| == 4
    requires |msg.Outgoing().Stored(':')| < BUF_SIZE
    ensures r == if 20 + |msg.Outgoing().Stored(':')| + 1 > room then -1 else 0
    ensures pkt == null <==> r == -1
    ensures pkt != null ==>
              && fresh(pkt) && fresh(pkt.data) && pkt.data.Length == pkt.size + 1
              && pkt.mtime == now && pkt.ip == Str2Ip(At(msg.text[..], IP)) && pkt.port == msg.port
              && pkt.data[..pkt.size] == msg.Outgoing().Stored(':')
  {
    hide Str2Ip, ScanDotted, Fields.Stored, At;
    var buf := new char[BUF_SIZE](_ => NUL);
    var mac, username, hostname := At(msg.text[..], MACADDR), At(msg.text[..], USERNAME), At(msg.text[..], HOSTNAME);
    var header := Header(msg.avatarId, "131", mac, msg.gpmsgSize, msg.packetId, username, hostname, msg.command, []).Stored(':');
    HeaderThenData(msg.Outgoing());
    PrintInto(buf, 0, header);
    HeaderIsText(msg.avatarId, "131", mac, msg.gpmsgSize, msg.packetId, username, hostname, msg.command, []);
    var size := StrLen(buf, header);
    MemCpy(buf, size, msg.text, DATA, msg.dataSize);
    size := size + msg.dataSize;
    pkt := NewPacket(now, Str2Ip(At(msg.text[..], IP)), msg.port, buf, size, room);
    r := if pkt == null then -1 else 0;
  }

  /** memcpy(buf + off, data + from, n) */
  method MemCpy(buf: array<char>, off: nat, data: array<char>, from: nat, n: nat)
    requires off + n <= buf.Length && from + n <= data.Length && buf != data
    modifies buf
    ensures buf[..off + n] == old(buf[..off]) + data[from..from + n] && buf[off + n..] == old(buf[off + n..])
  {
    forall i | 0 <= i < n { buf[off + i] := data[from + i]; }
  }

  /** strlen of a buffer that starts with a C string. */
  method StrLen(buf: array<char>, ghost s: string) returns (n: nat)
    requires |s| < buf.Length && CText(s) && buf[..|s|] == s && buf[|s|] == NUL
    ensures n == |s|
  {
    n := IndexOf(buf[..], NUL);
    assert buf[..] == s + [NUL] + buf[|s| + 1..];
    IndexOfConcat(s, NUL, buf[|s| + 1..]);
  }

  lemma HeaderThenData(f: Fields)
    ensures f.Stored(':') == f.(data := []).Stored(':') + f.data
  {}

  lemma HeaderIsText(avatar: nat, tag: string, mac: string, size: nat, packetId: nat, username: string, hostname: string,
                     command: nat, data: string)
    requires CText(tag) && CText(mac) && CText(username) && CText(hostname) && CText(data)
    ensures CText(Header(avatar, tag, mac, size, packetId, username, hostname, command, data).Stored(':'))
  {
    hide Printed;
    PrintedPlain(avatar, 10, NUL);
    PrintedPlain(size, 10, NUL);
    PrintedPlain(packetId, 10, NUL);
    PrintedPlain(command, 10, NUL);
  }

  // ---------- parsing ----------

  /** What the parser takes for granted: the separators of a packet that calls itself "1_lbt4", and room. */
  predicate Parseable(s: string) {
    HasField(s) && VERSION + |Field(s)| < TEXT_SIZE &&
    ("1_lbt4" <= Field(s) ==>
       HasFields(s, 5) && HasHashes(Field(s), 5) && HasHashes(Field(s), 2) && '#' in AfterHashes(Field(s), 2)
       && Fits(Split(s)))
  }

  /** No member runs past the end of the last. */
  predicate Fits(f: Fields)
    requires HasHashes(f.version, 2)
  {
    && VERSION + |f.version| < TEXT_SIZE && MACADDR + |MacOf(f.version)| < TEXT_SIZE
    && USERNAME + |f.username| < TEXT_SIZE && HOSTNAME + |f.hostname| < TEXT_SIZE && |f.data| <= DATA_SIZE
  }

  /** The message after a packet with these fields from this address has been parsed into memory `before`. */
  ghost predicate Holds(msg: Msg, before: string, f: Fields, ip: Word)
    requires HasHashes(f.version, 5) && HasHashes(f.version, 2) && Fits(f) && |before| == TEXT_SIZE
    reads msg, msg.text
  {
    AddressShort(ip);
    && msg.avatarId == AvatarOf(f.version) % 0x1_0000
    && msg.gpmsgSize == GroupSizeOf(f.version) % 0x1_0000
    && msg.packetId == Atoi(f.packetNo) % 0x1_0000_0000
    && msg.command == Atoi(f.cmd) % 0x1_0000_0000
    && msg.dataSize == |f.data|
    && msg.text[..] == ParsedText(before, f.version, MacOf(f.version), Ip2Str(ip), f.username, f.hostname,
                                  f.data + Zeros(DATA_SIZE - |f.data|))
    && msg.gpid == 0
  }

  /** get_mac_from_version: copies up to the third '#'. */
  method GetMac(version: string) returns (mac: string)
    requires IsFeiq(version) ==> HasHashes(version, 2) && '#' in AfterHashes(version, 2)
    ensures mac == MacOf(version)
  {
    if !IsFeiq(version) {
      return "000000000000";
    }
    var q := AfterHashes(version, 2);
    mac := [];
    var i := 0;
    while q[i] != '#'
      invariant 0 <= i < |q| && '#' !in q[..i] && '#' in q[i..]
      invariant mac == q[..i]
      decreases |q| - i
    {
      mac := mac + [q[i]];
      assert q[i..] == [q[i]] + q[i + 1..];
      i := i + 1;
    }
    FirstIndex(q, '#', i);
  }

  method ParsePacket(pkt: Packet, msg: Msg) returns (r: int)
    requires pkt.size <= pkt.data.Length && pkt.data != msg.text && msg.text.Length == TEXT_SIZE
    requires Parseable(pkt.data[..pkt.size])
    modifies pkt.data, msg, msg.text
    ensures msg.mtime == pkt.mtime
    ensures var version := old(Field(pkt.data[..pkt.size]));
            if !("1_lbt4" <= version) then r == -1 && msg.text[..] == old(Put(msg.text[..], VERSION, Field(pkt.data[..pkt.size])))
            else r == 0 && msg.port == pkt.port && Holds(msg, old(msg.text[..]), old(Split(pkt.data[..pkt.size])), pkt.ip)
  {
    hide Field, AfterField, HasField, HasFields, Split, Put, AvatarOf, GroupSizeOf, MacOf, Atoi, HasHashes, AfterHashes;
    ghost var s, before := pkt.data[..pkt.size], msg.text[..];
    msg.mtime := pkt.mtime;
    assert pkt.data[0..pkt.size] == s;
    var q, size, text := NextField(pkt.data, pkt.size, 0, pkt.size);
    PutInto(msg.text, VERSION, text);
    if !("1_lbt4" <= text) {
      return -1;
    }
    ParseBody(pkt, msg, text, q, size, before, s);
    r := 0;
  }

  /** Everything after the version check. */
  method ParseBody(pkt: Packet, msg: Msg, version: string, p: nat, size: nat, ghost before: string, ghost s: string)
    requires p <= pkt.size <= pkt.data.Length && size == pkt.size - p && pkt.data != msg.text
    requires msg.text.Length == TEXT_SIZE == |before| && Parseable(s) && "1_lbt4" <= version
    requires version == Field(s) && pkt.data[p..pkt.size] == AfterField(s)
    requires msg.text[..] == Put(before, VERSION, version)
    modifies pkt.data, msg.text, msg`avatarId, msg`gpmsgSize, msg`port, msg`packetId, msg`command, msg`dataSize, msg`gpid
    ensures msg.port == pkt.port && Holds(msg, before, Split(s), pkt.ip)
  {
    hide Field, AfterField, HasField, HasFields, Split, Zeros, Put, Fill, Ip2Str, AvatarOf, GroupSizeOf, MacOf, Atoi, HasHashes, AfterHashes;
    ghost var s1, s2, s3, s4 := SplitSteps(s);
    ParseVersion(msg, version);
    AddressShort(pkt.ip);
    PutInto(msg.text, IP, Ip2Str(pkt.ip));
    msg.port := pkt.port;
    var size', q := ParseNumbersAndNames(pkt, msg, p, size, s1, s2, s3, s4);
    FillData(pkt.data, q, size', msg.text);
    msg.dataSize := size';
    msg.gpid := 0;
  }

  method ParseVersion(msg: Msg, version: string)
    requires IsFeiq(version) && HasHashes(version, 5) && HasHashes(version, 2) && '#' in AfterHashes(version, 2)
    requires msg.text.Length == TEXT_SIZE && MACADDR + |MacOf(version)| < TEXT_SIZE
    modifies msg`avatarId, msg`gpmsgSize, msg.text
    ensures msg.avatarId == AvatarOf(version) % 0x1_0000
    ensures msg.text[..] == Put(old(msg.text[..]), MACADDR, MacOf(version))
    ensures msg.gpmsgSize == GroupSizeOf(version) % 0x1_0000
  {
    hide HasHashes, AvatarOf, MacOf, GroupSizeOf;
    msg.avatarId := AvatarOf(version) % 0x1_0000;
    var mac := GetMac(version);
    PutInto(msg.text, MACADDR, mac);
    msg.gpmsgSize := GroupSizeOf(version) % 0x1_0000;
  }

  /** One field: NUL over its ':', and its length plus one off the running size. */
  method NextField(data: array<char>, end: nat, p: nat, size: nat) returns (q: nat, size': nat, text: string)
    requires p <= end <= data.Length && size == end - p
    requires HasField(data[p..end])
    modifies data
    ensures p < q <= end && size' == end - q
    ensures text == old(Field(data[p..end])) && data[q..end] == old(AfterField(data[p..end]))
  {
    q := CutField(data, end, p);
    text := data[p..q - 1];
    size' := size - (|text| + 1);
  }

  /** From the packet number to the command. */
  method ParseNumbersAndNames(pkt: Packet, msg: Msg, p: nat, size: nat, ghost s1: string, ghost s2: string, ghost s3: string, ghost s4: string)
    returns (size': nat, q: nat)
    requires p <= pkt.size <= pkt.data.Length && size == pkt.size - p && pkt.data[p..pkt.size] == s1
    requires pkt.data != msg.text && msg.text.Length == TEXT_SIZE
    requires HasField(s1) && s2 == AfterField(s1) && HasField(s2) && s3 == AfterField(s2)
    requires HasField(s3) && s4 == AfterField(s3) && HasField(s4)
    requires USERNAME + |Field(s2)| < TEXT_SIZE && HOSTNAME + |Field(s3)| < TEXT_SIZE
    modifies pkt.data, msg.text, msg`packetId, msg`command
    ensures msg.packetId == Atoi(Field(s1)) % 0x1_0000_0000 && msg.command == Atoi(Field(s4)) % 0x1_0000_0000
    ensures msg.text[..] == Put(Put(old(msg.text[..]), USERNAME, Field(s2)), HOSTNAME, Field(s3))
    ensures q <= pkt.size && size' == pkt.size - q && pkt.data[q..pkt.size] == AfterField(s4)
  {
    hide Field, AfterField, HasField, Atoi, Put;
    var text;
    q, size', text := NextField(pkt.data, pkt.size, p, size);
    msg.packetId := Atoi(text) % 0x1_0000_0000;
    q, size', text := NextField(pkt.data, pkt.size, q, size');
    PutInto(msg.text, USERNAME, text);
    q, size', text := NextField(pkt.data, pkt.size, q, size');
    PutInto(msg.text, HOSTNAME, text);
    q, size', text := NextField(pkt.data, pkt.size, q, size');
    msg.command := Atoi(text) % 0x1_0000_0000;
  }

  /** strcpy(msg + off, s) */
  method PutInto(a: array<char>, off: nat, s: string)
    requires off + |s| < a.Length
    modifies a
    ensures a[..] == Put(old(a[..]), off, s)
  {
    PrintInto(a, off, s);
  }

  /** memset of the data to zero, then memcpy of the payload. */
  method FillData(data: array<char>, p: nat, size: nat, text: array<char>)
    requires p + size <= data.Length && size <= DATA_SIZE && data != text && text.Length == TEXT_SIZE
    modifies text
    ensures text[..] == Fill(old(text[..]), data[p..p + size] + Zeros(DATA_SIZE - size))
  {
    forall i | DATA <= i < TEXT_SIZE { text[i] := NUL; }
    forall i | 0 <= i < size { text[DATA + i] := data[p + i]; }
  }

  lemma AddressShort(ip: Word)
    ensures |Ip2Str(ip)| < 16 && CText(Ip2Str(ip))
  {
    hide Printed;
    OctetsSmall(ip);
    var a, b, c, d := OctetA(ip) as int, OctetB(ip) as int, OctetC(ip) as int, OctetD(ip) as int;
    OctetShort(a);
    OctetShort(b);
    OctetShort(c);
    OctetShort(d);
  }

  lemma OctetsSmall(ip: Word)
    ensures OctetA(ip) as int < 256 && OctetB(ip) as int < 256 && OctetC(ip) as int < 256 && OctetD(ip) as int < 256
  {}

  lemma OctetShort(n: nat)
    requires n < 256
    ensures |Printed(n, 10)| <= 3 && CText(Printed(n, 10))
  {
    assert Power(10, 3) == 10 * Power(10, 2) == 100 * Power(10, 1) == 1000 * Power(10, 0);
    PrintedShort(n, 10, 3);
    PrintedPlain(n, 10, NUL);
  }

  // ---------- parsing undoes building ----------

  /** The bytes the five header fields and their colons take up. */
  function HeaderSize(f: Fields): nat {
    |f.version| + |f.packetNo| + |f.username| + |f.hostname| + |f.cmd| + 5
  }

  /** For every packet: header fields and payload account for all of its bytes. */
  lemma SizesAddUp(s: string)
    requires HasFields(s, 5)
    ensures HeaderSize(Split(s)) + |Split(s).data| == |s|
  {
    hide HasFields, Split;
    SplitLossless(s);
  }

  function Clamped(n: nat): (r: nat)
    ensures r == n <==> n <= LONG_MAX
  {
    if n <= LONG_MAX then n else LONG_MAX
  }

  lemma BuiltParses(avatar: nat, tag: string, mac: string, size: nat, packetId: nat, username: string, hostname: string,
                    command: nat, data: string)
    requires Plain(mac, username, hostname) && ':' !in tag && '#' !in tag && '_' !in tag && CText(tag)
    requires VERSION + |Version(avatar, tag, mac, size)| < TEXT_SIZE && |data| <= DATA_SIZE
    requires USERNAME + |username| < TEXT_SIZE && HOSTNAME + |hostname| < TEXT_SIZE
    ensures var f := Header(avatar, tag, mac, size, packetId, username, hostname, command, data);
            && Parseable(f.Stored(':')) && HasFields(f.Stored(':'), 5) && Split(f.Stored(':')) == f
            && f.version == Field(f.Stored(':'))
            && "1_lbt4" <= f.version && HasHashes(f.version, 5) && HasHashes(f.version, 2) && Fits(f)
            && AvatarOf(f.version) == Clamped(avatar) && MacOf(f.version) == mac && GroupSizeOf(f.version) == Clamped(size)
            && Atoi(f.packetNo) == Clamped(packetId) && Atoi(f.cmd) == Clamped(command)
  {
    hide Field, HasFields, Split, HasHashes, AvatarOf, MacOf, GroupSizeOf, Atoi, Printed, Fields.Stored, AfterHashes;
    var f := Header(avatar, tag, mac, size, packetId, username, hostname, command, data);
    HeaderSeparable(avatar, tag, mac, size, packetId, username, hostname, command, data);
    SplitStored(f);
    var s1, s2, s3, s4 := SplitSteps(f.Stored(':'));
    VersionParts(avatar, tag, mac, size);
    VersionAvatar(avatar, tag, mac, size);
    AtoiPrinted(packetId, []);
    AtoiPrinted(command, []);
    assert Printed(packetId, 10) + [] == Printed(packetId, 10) && Printed(command, 10) + [] == Printed(command, 10);
  }

  lemma HeaderSeparable(avatar: nat, tag: string, mac: string, size: nat, packetId: nat, username: string, hostname: string,
                        command: nat, data: string)
    requires Plain(mac, username, hostname) && ':' !in tag && CText(tag)
    ensures Header(avatar, tag, mac, size, packetId, username, hostname, command, data).Separable()
  {
    hide Printed;
    forall n: nat ensures ':' !in Printed(n, 10) && CText(Printed(n, 10)) {
      PrintedPlain(n, 10, ':');
      PrintedPlain(n, 10, NUL);
    }
  }

  lemma VersionShort(avatar: nat, mac: string, size: nat)
    requires avatar < 0x1_0000 && size < 0x1_0000 && |mac| < 32 && CText(mac)
    ensures var v := Version(avatar, "131", mac, size); |v| < 64 && CText(v)
  {
    hide Printed;
    NumberShort(avatar);
    NumberShort(size);
    PrintedPlain(avatar, 10, NUL);
    PrintedPlain(size, 10, NUL);
  }

  lemma NumberShort(n: nat)
    requires n < 0x1_0000
    ensures |Printed(n, 10)| <= 5
  {
    assert Power(10, 5) == 10 * Power(10, 4) == 100 * Power(10, 3) == 1000 * Power(10, 2) == 1_0000 * Power(10, 1) == 10_0000 * Power(10, 0);
    PrintedShort(n, 10, 5);
  }

  lemma EndsEarlier(mem: string, a: nat, b: nat)
    requires a <= b <= |mem| && Ends(mem, b)
    ensures Ends(mem, a)
  {
    IndexOfAbsent(mem[a..], NUL);
    IndexOfAbsent(mem[b..], NUL);
    var i := |At(mem, b)|;
    assert mem[b..][i] == NUL == mem[a..][b - a + i];
  }

  /**
   * A message built into a packet and parsed again. The numbers the parser reads with atoi come back
   * exactly when they are below 2^31, and as 2^31 - 1 otherwise. A user name comes back exactly when it fits
   * its member or is continued by the host name that overwrites its end; a host name likewise by the data.
   */
  method BuildThenParse(m: Msg, now: nat, address: Word, m': Msg) returns (r: int)
    requires m.text.Length == m'.text.Length == TEXT_SIZE && m != m' && m.text != m'.text && m.dataSize <= DATA_SIZE
    requires Ends(m.text[..], HOSTNAME) && |At(m.text[..], MACADDR)| < 32
    requires Plain(At(m.text[..], MACADDR), At(m.text[..], USERNAME), At(m.text[..], HOSTNAME))
    requires At(m.text[..], IP) == Ip2Str(address)
    requires |m.Outgoing().Stored(':')| < BUF_SIZE
    modifies m', m'.text
    ensures r == 0 && m'.mtime == now && m'.port == m.port
    ensures m'.avatarId == m.avatarId && m'.gpmsgSize == m.gpmsgSize
    ensures m'.packetId == Clamped(m.packetId) && m'.command == Clamped(m.command)
    ensures var t, t' := m.text[..], m'.text[..];
            && m'.dataSize == m.dataSize && t'[DATA..DATA + m.dataSize] == t[DATA..DATA + m.dataSize]
            && forall i :: DATA + m.dataSize <= i < TEXT_SIZE ==> t'[i] == NUL
    ensures var t, t' := m.text[..], m'.text[..];
            && At(t', IP) == At(t, IP) && At(t', MACADDR) == At(t, MACADDR)
            && At(t', USERNAME) == RunOn(At(t, USERNAME), 32, At(t', HOSTNAME))
            && At(t', HOSTNAME) == RunOn(At(t, HOSTNAME), 160, At(t', DATA))
            && At(t', VERSION) == RunOn(m.Outgoing().version, 16, At(t', USERNAME))
    ensures var t, t' := m.text[..], m'.text[..];
            && (At(t', USERNAME) == At(t, USERNAME) <==>
               |At(t, USERNAME)| < 32 || At(t', HOSTNAME) == At(t, USERNAME)[32..])
            && (At(t', HOSTNAME) == At(t, HOSTNAME) <==>
               |At(t, HOSTNAME)| < 160 || At(t', DATA) == At(t, HOSTNAME)[160..])
  {
    hide Field, HasFields, Split, HasHashes, AvatarOf, MacOf, GroupSizeOf, Atoi, Version, Fields.Stored, Parseable;
    hide Ip2Str, Str2Ip, ScanDotted, At, RunOn, ParsedText, Zeros, CText;
    ghost var t, before := m.text[..], m'.text[..];
    ghost var f := m.Outgoing();
    SendableParses(m.avatarId, At(t, MACADDR), m.gpmsgSize, m.packetId, At(t, USERNAME), At(t, HOSTNAME), m.command,
                   t[DATA..DATA + m.dataSize], t);
    AddressRoundTrip(address);
    AddressShort(address);
    var pkt;
    r, pkt := BuildPacket(m, now, POOL_ROOM);
    r := ParsePacket(pkt, m');
    MembersBack(before, f.version, MacOf(f.version), Ip2Str(address), f.username, f.hostname, f.data);
  }

  /** A message that lies in memory with its host name ended can be sent and parsed. */
  lemma SendableParses(avatar: Short, mac: string, size: Short, packetId: nat, username: string, hostname: string, command: nat,
                       data: string, t: string)
    requires |t| == TEXT_SIZE && Ends(t, HOSTNAME) && |data| <= DATA_SIZE
    requires mac == At(t, MACADDR) && username == At(t, USERNAME) && hostname == At(t, HOSTNAME)
    requires Plain(mac, username, hostname) && |mac| < 32
    ensures var f := Header(avatar, "131", mac, size, packetId, username, hostname, command, data);
            && Parseable(f.Stored(':')) && HasFields(f.Stored(':'), 5) && Split(f.Stored(':')) == f
            && f.version == Field(f.Stored(':'))
            && "1_lbt4" <= f.version && HasHashes(f.version, 5) && HasHashes(f.version, 2) && Fits(f)
            && AvatarOf(f.version) == Clamped(avatar) && MacOf(f.version) == mac && GroupSizeOf(f.version) == Clamped(size)
            && Atoi(f.packetNo) == Clamped(packetId) && Atoi(f.cmd) == Clamped(command)
            && CText(f.version) && CText(mac) && CText(username) && CText(hostname)
  {
    hide Field, HasFields, Split, HasHashes, AvatarOf, MacOf, GroupSizeOf, Atoi, Version, Fields.Stored, Parseable, At;
    EndsEarlier(t, USERNAME, HOSTNAME);
    VersionShort(avatar, mac, size);
    BuiltParses(avatar, "131", mac, size, packetId, username, hostname, command, data);
  }

  /** The text members of a parsed packet. */
  lemma MembersBack(before: string, version: string, mac: string, ip: string, username: string, hostname: string, data: string)
    requires |before| == TEXT_SIZE && |mac| < 32 && |ip| < 32 && |data| <= DATA_SIZE
    requires VERSION + |version| < TEXT_SIZE && USERNAME + |username| < TEXT_SIZE && HOSTNAME + |hostname| < TEXT_SIZE
    requires CText(version) && CText(mac) && CText(ip) && CText(username) && CText(hostname)
    ensures var t := ParsedText(before, version, mac, ip, username, hostname, data + Zeros(DATA_SIZE - |data|));
            && At(t, IP) == ip && At(t, MACADDR) == mac
            && At(t, VERSION) == RunOn(version, 16, At(t, USERNAME))
            && At(t, USERNAME) == RunOn(username, 32, At(t, HOSTNAME))
            && At(t, HOSTNAME) == RunOn(hostname, 160, At(t, DATA))
            && (At(t, USERNAME) == username <==> |username| < 32 || At(t, HOSTNAME) == username[32..])
            && (At(t, HOSTNAME) == hostname <==> |hostname| < 160 || At(t, DATA) == hostname[160..])
            && t[DATA..DATA + |data|] == data && forall i :: DATA + |data| <= i < TEXT_SIZE ==> t[i] == NUL
  {
    hide At, RunOn, ParsedText, CText;
    var all := data + Zeros(DATA_SIZE - |data|);
    var t := ParsedText(before, version, mac, ip, username, hostname, all);
    ParsedMembers(before, version, mac, ip, username, hostname, all);
    DataBack(t, data);
    RunOnSame(username, 32, At(t, HOSTNAME));
    RunOnSame(hostname, 160, At(t, DATA));
  }

  lemma DataBack(mem: string, data: string)
    requires |mem| == TEXT_SIZE && |data| <= DATA_SIZE && mem[DATA..] == data + Zeros(DATA_SIZE - |data|)
    ensures mem[DATA..DATA + |data|] == data && forall i :: DATA + |data| <= i < TEXT_SIZE ==> mem[i] == NUL
  {
    assert mem[DATA..DATA + |data|] == mem[DATA..][..|data|];
    forall i | DATA + |data| <= i < TEXT_SIZE ensures mem[i] == NUL {
      assert mem[i] == mem[DATA..][i - DATA];
    }
  }
}
