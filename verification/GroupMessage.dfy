/** A group message from the sender's text to the receiver's: printed, enciphered, sent, cut up, deciphered, read. */
module GroupMessage {
  import opened Words
  import opened ByteValues
  import opened Feistel
  import opened KeySchedule
  import opened Cbc
  import opened Blowfish
  import opened Text
  import opened Wire
  import ParseMessage

  const MODE: bv32 := 0x0022  // CBC | PKCS5
  const GROUP_COMMAND := 4194339
  const CMD_GPMSG := 0x23
  const PLAIN_SIZE := 1024

  // ---------- char and BYTE ----------

  /** Characters that are bytes. */
  predicate Octets(s: string) { forall i :: 0 <= i < |s| ==> s[i] as int < 256 }

  function ToByte(c: char): Byte
    requires c as int < 256
  {
    ByteOf(c as int)
  }

  function ToChar(b: Byte): (c: char)
    ensures c as int < 256
  {
    ByteValue(b) as char
  }

  function Bytes(s: string): (b: seq<Byte>)
    requires Octets(s)
    ensures |b| == |s|
  {
    seq(|s|, i requires 0 <= i < |s| => ToByte(s[i]))
  }

  function Chars(b: seq<Byte>): (s: string)
    ensures |s| == |b|
  {
    seq(|b|, i requires 0 <= i < |b| => ToChar(b[i]))
  }

  lemma ByteRoundTrip(b: Byte, c: char)
    ensures ToChar(b) as int < 256 && ToByte(ToChar(b)) == b
    ensures c as int < 256 ==> ToChar(ToByte(c)) == c
  {
    hide ByteOf, ByteValue;
    ValueOfByte(b);
    if c as int < 256 { ByteOfValue(c as int); }
  }

  lemma BytesRoundTrip(b: seq<Byte>, s: string)
    ensures Octets(Chars(b)) && Bytes(Chars(b)) == b
    ensures Octets(s) ==> Chars(Bytes(s)) == s
  {
    hide ToByte, ToChar;
    forall i | 0 <= i < |b| ensures Chars(b)[i] as int < 256 && ToByte(Chars(b)[i]) == b[i] { ByteRoundTrip(b[i], ' '); }
    if Octets(s) {
      forall i | 0 <= i < |s| ensures ToChar(ToByte(s[i])) == s[i] { ByteRoundTrip(0, s[i]); }
    }
  }

  // ---------- the sender ----------

  datatype Sender = Sender(avatar: nat, mac: string, username: string, hostname: string) {
    /** The separators of the format may not occur in the names; the MAC is also the key. */
    predicate Plain() {
      && mac != [] && Octets(mac) && ':' !in mac && '#' !in mac && CText(mac)
      && ':' !in username && CText(username) && ':' !in hostname && CText(hostname)
    }
  }

  function PlainText(groupId: nat, msg: string): (s: string)
    ensures Octets(msg) ==> Octets(s)
  {
    PrintedOctets(groupId);
    "QUNMSGMARK#" + Printed(groupId, 16) + "#" + msg
  }

  lemma PrintedOctets(n: nat)
    ensures Octets(Printed(n, 16))
  {
    PrintedDigits(n, 16);
  }

  /** The tables both ends derive from the MAC address. */
  function KeyedTables(bfP: seq<Word>, bfS: seq<Word>, mac: string): (t: Tables)
    requires |bfP| == 18 && |bfS| == 1024 && mac != [] && Octets(mac)
    ensures t.Sized()
  {
    Schedule(bfP, bfS, Bytes(mac))
  }

  function Cipher(t: Tables, groupId: nat, msg: string): (c: seq<Byte>)
    requires t.Sized() && Octets(PlainText(groupId, msg))
    ensures |c| == BLOCK * BlocksFor(|PlainText(groupId, msg)|, Pads(MODE))
  {
    Ciphertext(t, MODE, 0, Bytes(PlainText(groupId, msg)))
  }

  /** The five header fields and the ciphertext as payload. */
  function Sent(me: Sender, pno: nat, c: seq<Byte>): Fields {
    Fields(Version(me.avatar, "128", me.mac, |c|), Printed(pno, 10), me.username, me.hostname,
           Printed(GROUP_COMMAND, 10), Chars(c))
  }

  /** The header that is sent, part by part. */
  lemma SentText(me: Sender, pno: nat, c: seq<Byte>)
    ensures Sent(me, pno, c).Stored(':') ==
            "1_lbt4_" + Printed(me.avatar, 10) + "#128#" + me.mac + "#0#0#" + Printed(|c|, 10) + ":" + Printed(pno, 10) + ":" +
            me.username + ":" + me.hostname + ":4194339:" + Chars(c)
  {
    hide Printed, Chars, Fields.Stored;
    PrintedCommand();
    var f := Sent(me, pno, c);
    VersionText(me.avatar, "128", me.mac, |c|);
    TagJoined("1_lbt4_" + Printed(me.avatar, 10), me.mac + "#0#0#" + Printed(|c|, 10));
    TagGrouped("1_lbt4_" + Printed(me.avatar, 10), me.mac, Printed(|c|, 10));
    StoredText(f);
    CommandJoined(f.version + ":" + f.packetNo + ":" + f.username + ":" + f.hostname, f.data);
  }

  lemma TagJoined(a: string, b: string)
    ensures a + "#" + "128" + "#" + b == a + "#128#" + b
  {}

  lemma TagGrouped(a: string, mac: string, size: string)
    ensures a + "#" + "128" + "#" + mac + "#0#0#" + size == a + "#" + "128" + "#" + (mac + "#0#0#" + size)
    ensures a + "#128#" + mac + "#0#0#" + size == a + "#128#" + (mac + "#0#0#" + size)
  {}

  lemma CommandJoined(a: string, data: string)
    ensures a + ":" + "4194339" + ":" + data == a + ":4194339:" + data
  {}

  /** What is enciphered, for one message. */
  lemma PlainTextValue()
    ensures PlainText(10, "hi") == "QUNMSGMARK#a#hi"
  {
    PrintedValues();
  }

  /** The key is the MAC address, character by character, and the cipher starts from a vector of zeros. */
  lemma KeyIsMac(mac: string)
    requires Octets(mac)
    ensures |Bytes(mac)| == |mac| && forall i :: 0 <= i < |mac| ==> Bytes(mac)[i] as int == mac[i] as int
  {
    hide ByteOf, ByteValue;
    forall i | 0 <= i < |mac| ensures Bytes(mac)[i] as int == mac[i] as int {
      ByteOfValue(mac[i] as int);
      ByteNumber(Bytes(mac)[i]);
    }
  }

  lemma CipherIsCbc(t: Tables, groupId: nat, msg: string)
    requires t.Sized() && Octets(PlainText(groupId, msg))
    ensures var m := Bytes(PlainText(groupId, msg));
            CbcEquations(t, [0, 0, 0, 0, 0, 0, 0, 0], Padded(m, true), Cipher(t, groupId, msg), BlocksFor(|m|, true))
  {
    hide Encrypted, CbcEquations, StoredLong, Padded, PlainText;
    ModeBits();
    ZeroVector();
    var m := Bytes(PlainText(groupId, msg));
    EncryptedIsCbc(t, StoredLong(0), Padded(m, true), Cipher(t, groupId, msg), BlocksFor(|m|, true));
  }

  lemma ZeroVector()
    ensures StoredLong(0) == [0, 0, 0, 0, 0, 0, 0, 0]
  {}

  /** sprintf into a byte buffer: the text and its NUL. */
  method PrintBytes(a: array<Byte>, s: string)
    requires |s| < a.Length && Octets(s)
    modifies a
    ensures a[..|s|] == Bytes(s) && a[|s|] == 0
  {
    hide ToByte;
    forall i | 0 <= i < |s| { a[i] := ToByte(s[i]); }
    a[|s|] := 0;
  }

  /** The marked text, printed and enciphered. */
  method EncipherText(bf: CBlowFish, text: string) returns (cipher: array<Byte>, len: nat)
    requires bf.Valid() && Octets(text) && |text| < PLAIN_SIZE - 8
    ensures fresh(cipher) && len < cipher.Length && cipher[..len] == Ciphertext(bf.Contents(), MODE, 0, Bytes(text))
  {
    hide Ciphertext, ToByte;
    var plain := new Byte[PLAIN_SIZE];
    cipher := new Byte[PLAIN_SIZE];
    PrintBytes(plain, text);
    len := bf.Encrypt(plain, cipher, |text|, MODE, 0);
  }

  /** The header, and len + 1 bytes of the cipher buffer behind it. */
  method Assemble(header: string, cipher: array<Byte>, len: nat, buf: array<char>) returns (size: nat)
    requires len < cipher.Length && |header| + len + 1 <= buf.Length && cipher as object != buf
    modifies buf
    ensures size == |header| + len + 1 && buf[..size - 1] == header + Chars(cipher[..len])
  {
    hide ToChar;
    forall i | 0 <= i < |header| { buf[i] := header[i]; }
    assert buf[..|header|] == header;
    size := |header|;
    CopyChars(cipher, len + 1, buf, size);
    assert buf[..size + len] == buf[..size] + buf[size..size + (len + 1)][..len];
    size := size + len + 1;
  }

  /** memcpy(buf + off, cipher, n) */
  method CopyChars(cipher: array<Byte>, n: nat, buf: array<char>, off: nat)
    requires n <= cipher.Length && off + n <= buf.Length
    modifies buf
    ensures buf[..off] == old(buf[..off]) && buf[off..off + n] == old(Chars(cipher[..n]))
  {
    hide ToChar;
    ghost var c := cipher[..n];
    forall i | 0 <= i < n { buf[off + i] := assert cipher[i] == c[i]; ToChar(cipher[i]); }
  }

  /** Packet construction in on_send_gpmessage; one byte beyond the ciphertext is sent along. */
  method Send(bfP: seq<Word>, bfS: seq<Word>, me: Sender, groupId: nat, msg: string, pno: nat, buf: array<char>)
    returns (size: nat)
    requires |bfP| == 18 && |bfS| == 1024 && me.mac != [] && Octets(me.mac)
    requires Octets(msg) && |PlainText(groupId, msg)| < PLAIN_SIZE - 8
    requires |Sent(me, pno, Cipher(KeyedTables(bfP, bfS, me.mac), groupId, msg)).Stored(':')| < buf.Length
    modifies buf
    ensures var f := Sent(me, pno, Cipher(KeyedTables(bfP, bfS, me.mac), groupId, msg));
            size == |f.Stored(':')| + 1 && buf[..size - 1] == f.Stored(':')
  {
    hide Schedule, Ciphertext, Chars, Bytes, Printed, PlainText, Octets, Fields.Stored;
    var bf := new CBlowFish(bfP, bfS, Bytes(me.mac));
    var cipher, len := EncipherText(bf, PlainText(groupId, msg));
    assert cipher[..len] == Cipher(KeyedTables(bfP, bfS, me.mac), groupId, msg);
    var header := Sent(me, pno, cipher[..len]).(data := []).Stored(':');
    HeaderAndData(Sent(me, pno, cipher[..len]));
    size := Assemble(header, cipher, len, buf);
  }

  lemma HeaderAndData(f: Fields)
    ensures f.Stored(':') == f.(data := []).Stored(':') + f.data
  {}

  // ---------- the receiver ----------

  function GroupIdOf(plain: string): (id: nat)
    requires HasHashes(plain, 2)
    ensures id <= ULONG_MAX
  {
    Strtoul(UpToHash(AfterHash(plain)), 16)
  }

  function BodyOf(plain: string): string
    requires HasHashes(plain, 2)
  {
    AfterHashes(plain, 2)
  }

  /** What the receiver takes for granted about a message's size field and ciphertext. */
  ghost predicate Sizes(f: Fields) {
    && HasHashes(f.version, 5)
    && 0 < GroupSizeOf(f.version) <= |f.data| && GroupSizeOf(f.version) % 8 == 0
    && Octets(f.data[..GroupSizeOf(f.version)])
  }

  /** The deciphered C string. */
  ghost function Deciphered(t: Tables, f: Fields): string
    requires t.Sized() && Sizes(f)
  {
    var size := GroupSizeOf(f.version);
    CString(Chars(Plaintext(t, MODE, 0, Bytes(f.data[..size]), size / 8).bytes))
  }

  /** ... and that it is padded, and marked with two hashes. */
  ghost predicate Readable(t: Tables, f: Fields)
    requires t.Sized()
  {
    Sizes(f) &&
    var size := GroupSizeOf(f.version);
    PaddingAccepted(Decrypted(t, true, StoredLong(0), Bytes(f.data[..size]), size / 8)) &&
    HasHashes(Deciphered(t, f), 2)
  }

  /** get_group_id: cuts the text at its second '#' to read the number, then mends it. */
  method GetGroupId(msg: array<char>, len: nat) returns (id: nat)
    requires len < msg.Length && msg[len] == NUL && CText(msg[..len]) && HasHashes(msg[..len], 2)
    modifies msg
    ensures id == old(GroupIdOf(msg[..len])) && msg[..] == old(msg[..])
  {
    hide Strtoul, HasHashes, IndexOf;
    ghost var s := msg[..len];
    TwoHashes(s);
    var p := ParseMessage.StrChr(msg, 0, len, '#');
    assert msg[0..len] == s;
    HashBounds(s, IndexOf(s, '#'));
    p := p + 1;
    assert msg[p..len] == AfterHash(s);
    var q := ParseMessage.StrChr(msg, p, len, '#');
    HashBounds(AfterHash(s), IndexOf(AfterHash(s), '#'));
    BetweenHashes(s, p, q);
    msg[q] := NUL;
    assert msg[..q] == s[..q];
    SameSlice(msg[..], s, p, q);
    id := Strtoul(msg[p..q], 16);
    msg[q] := '#';
    assert msg[..len] == s;
  }

  /** The places that two searches for '#' find. */
  lemma BetweenHashes(s: string, p: nat, q: nat)
    requires IndexOf(s, '#') < |s| && p == IndexOf(s, '#') + 1 <= q < |s| && q - p == IndexOf(AfterHash(s), '#')
    ensures s[p..q] == UpToHash(AfterHash(s)) && s[q] == '#'
  {
    hide IndexOf;
    var t := AfterHash(s);
    assert t == s[p..];
    assert s[p..][..q - p] == s[p..q] && s[p..][q - p] == s[q];
  }

  lemma SameSlice(a: string, b: string, p: nat, q: nat)
    requires p <= q <= |a| && q <= |b| && a[..q] == b[..q]
    ensures a[p..q] == b[p..q]
  {
    assert a[p..q] == a[..q][p..] && b[p..q] == b[..q][p..];
  }

  lemma HashBounds(s: string, i: nat)
    requires CText(s) && i <= |s|
    ensures CText(s[..i]) && CText(s[i..])
  {}

  /** The C string at the start of a run is unchanged by what follows its NUL. */
  lemma CStringPrefix(s: string, t: string)
    requires NUL in s
    ensures CString(s + t) == CString(s)
  {
    var k := IndexOf(s, NUL);
    IndexOfAbsent(s, NUL);
    assert (s + t)[..k] == s[..k];
    ParseMessage.FirstIndex(s + t, NUL, k);
  }

  lemma ModeBits()
    ensures Chained(MODE) && Pads(MODE)
  {}

  /** The characters at base + off seen as bytes. */
  method CastBytes(base: array<char>, off: nat, bytes: array<Byte>)
    requires off + bytes.Length <= base.Length && Octets(base[off..off + bytes.Length])
    modifies bytes
    ensures bytes[..] == old(Bytes(base[off..off + bytes.Length]))
  {
    hide ToByte;
    ghost var s := base[off..off + bytes.Length];
    forall i | 0 <= i < bytes.Length { bytes[i] := assert base[off + i] == s[i]; ToByte(base[off + i]); }
  }

  /** CreateBlowFish and BlowFish_Decrypt into a buffer of size + 1, seen as text afterwards. */
  method Decipher(bfP: seq<Word>, bfS: seq<Word>, mac: string, base: array<char>, off: nat, size: nat, ghost f: Fields)
    returns (plain: array<char>)
    requires |bfP| == 18 && |bfS| == 1024 && mac != [] && Octets(mac)
    requires Readable(KeyedTables(bfP, bfS, mac), f) && size == GroupSizeOf(f.version)
    requires off + size <= base.Length && base[off..off + size] == f.data[..size]
    ensures fresh(plain) && plain.Length == size + 1
    ensures NUL in plain[..] && CString(plain[..]) == Deciphered(KeyedTables(bfP, bfS, mac), f)
  {
    hide Schedule, Octets, CString, Plaintext, HasHashes, Bytes, Chars, PaddingAccepted, Decrypted, GroupSizeOf;
    ghost var t := KeyedTables(bfP, bfS, mac);
    var bf := new CBlowFish(bfP, bfS, Bytes(mac));
    var cipher := TakeCipher(base, off, size, f.data[..size]);
    var out := new Byte[size + 1];
    ghost var last := out[size..];
    ghost var bytes := DecryptInto(bf, cipher, out, size);
    StrippedHasNul(t, f);
    plain := CastChars(out, bytes, last);
  }

  method TakeCipher(base: array<char>, off: nat, size: nat, ghost data: string) returns (cipher: array<Byte>)
    requires off + size <= base.Length && base[off..off + size] == data && Octets(data)
    ensures fresh(cipher) && cipher.Length == size && cipher[..] == Bytes(data)
  {
    hide ToByte;
    cipher := new Byte[size];
    CastBytes(base, off, cipher);
  }

  /** BlowFish_Decrypt of a whole number of blocks into a buffer with room for one byte more. */
  method DecryptInto(bf: CBlowFish, cipher: array<Byte>, out: array<Byte>, size: nat) returns (ghost bytes: seq<Byte>)
    requires bf.Valid() && cipher.Length == size && out.Length == size + 1 && out != cipher
    requires size > 0 && size % 8 == 0
    modifies out
    ensures bytes == Plaintext(bf.Contents(), MODE, 0, cipher[..], size / 8).bytes && out[..] == bytes + old(out[size..])
  {
    hide Plaintext;
    ModeBits();
    assert BlocksFor(size, false) == size / 8;
    assert cipher[..size] + out[size..size] == cipher[..];
    bytes := Plaintext(bf.Contents(), MODE, 0, cipher[..], size / 8).bytes;
    var n := bf.Decrypt(cipher, out, size, MODE, 0);
  }

  lemma StrippedHasNul(t: Tables, f: Fields)
    requires t.Sized() && Readable(t, f)
    ensures var size := GroupSizeOf(f.version);
            0 in Plaintext(t, MODE, 0, Bytes(f.data[..size]), size / 8).bytes
  {
    hide Decrypted, Bytes, Octets, GroupSizeOf, StoredLong, Deciphered;
    ModeBits();
    var size := GroupSizeOf(f.version);
    var r := Plaintext(t, MODE, 0, Bytes(f.data[..size]), size / 8);
    assert r.bytes[r.size] == 0;
  }

  /** The bytes of a buffer seen as characters; the first of them hold a NUL. */
  method CastChars(a: array<Byte>, ghost b: seq<Byte>, ghost rest: seq<Byte>) returns (s: array<char>)
    requires a[..] == b + rest && 0 in b
    ensures fresh(s) && s.Length == a.Length && NUL in s[..] && CString(s[..]) == CString(Chars(b))
  {
    hide ToChar, CString;
    s := new char[a.Length];
    forall i | 0 <= i < a.Length { s[i] := ToChar(a[i]); }
    assert forall i | 0 <= i < |b| :: (b + rest)[i] == b[i];
    assert s[..] == Chars(b) + Chars(rest);
    ZeroIsNul();
    ghost var k :| 0 <= k < |b| && b[k] == 0;
    assert Chars(b)[k] == NUL && s[..][k] == NUL;
    CStringPrefix(Chars(b), Chars(rest));
  }

  lemma ZeroIsNul()
    ensures ToChar(0) == NUL
  {
    assert ByteValue(0) == Worth(false, false, false, false, false, false, false, false) == 0;
  }

  lemma TwoHashes(s: string)
    requires HasHashes(s, 2)
    ensures IndexOf(s, '#') < |s| && IndexOf(AfterHash(s), '#') < |AfterHash(s)|
    ensures AfterHashes(s, 2) == AfterHash(AfterHash(s))
  {
    assert HasHashes(AfterHash(s), 1);
    HashStep(AfterHash(s), 0);
    HashStep(s, 1);
  }

  /** The body scan: what follows the second '#'. */
  method Body(msg: array<char>, len: nat) returns (text: string)
    requires len <= msg.Length && CText(msg[..len]) && HasHashes(msg[..len], 2)
    ensures text == BodyOf(msg[..len])
  {
    hide HasHashes, IndexOf;
    ghost var s := msg[..len];
    TwoHashes(s);
    assert msg[0..len] == s;
    HashBounds(s, IndexOf(s, '#'));
    var pmsg := ParseMessage.StrChr(msg, 0, len, '#');
    var data := pmsg + 1;
    assert msg[data..len] == AfterHash(s);
    HashBounds(s, data);
    HashBounds(AfterHash(s), IndexOf(AfterHash(s), '#'));
    pmsg := ParseMessage.StrChr(msg, data, len, '#');
    assert msg[pmsg + 1..len] == AfterHash(AfterHash(s));
    text := msg[pmsg + 1..len];
  }

  /** The deciphering and reading part of on_buddy_sendgpmsg, on a message cut up by parse_message. */
  method OnGroupMessage(bfP: seq<Word>, bfS: seq<Word>, mac: string, msg: ParseMessage.Message, ghost f: Fields)
    returns (gpid: nat, text: string)
    requires |bfP| == 18 && |bfS| == 1024 && mac != [] && Octets(mac)
    requires ParseMessage.Laid(msg, f) && f.Separable() && Readable(KeyedTables(bfP, bfS, mac), f)
    modifies msg.base
    ensures var plain := Deciphered(KeyedTables(bfP, bfS, mac), f);
            gpid == GroupIdOf(plain) && text == BodyOf(plain)
    ensures msg.data + |text| < msg.base.Length
    ensures msg.base[..] == old(msg.base[..msg.data]) + text + [NUL] + old(msg.base[msg.data + |text| + 1..])
  {
    hide KeyedTables, Deciphered, Octets, HasHashes, Sizes, GroupIdOf, BodyOf, CString, IndexOf, Readable;
    ghost var t := KeyedTables(bfP, bfS, mac);
    var size := MessageSize(msg, f, t);
    var plain := Decipher(bfP, bfS, mac, msg.base, msg.data, size, f);
    var len := TextLength(plain);
    HasTwoHashes(t, f);
    gpid := GetGroupId(plain, len);
    text := Body(plain, len);
    BodyShorter(plain[..len]);
    CopyText(text, msg.base, msg.data);
  }

  lemma HasTwoHashes(t: Tables, f: Fields)
    requires t.Sized() && Readable(t, f)
    ensures HasHashes(Deciphered(t, f), 2)
  {}

  method TextLength(s: array<char>) returns (len: nat)
    requires NUL in s[..]
    ensures len < s.Length && s[len] == NUL && s[..len] == CString(s[..])
  {
    len := IndexOf(s[..], NUL);
    IndexOfAbsent(s[..], NUL);
  }

  /** get_gpmsg_size of the version field in the message's storage. */
  method MessageSize(msg: ParseMessage.Message, ghost f: Fields, ghost t: Tables) returns (size: nat)
    requires t.Sized() && ParseMessage.Laid(msg, f) && f.Separable() && Readable(t, f)
    ensures size == GroupSizeOf(f.version) <= |f.data|
    ensures msg.data + |f.data| < msg.base.Length && msg.base[msg.data..msg.data + size] == f.data[..size]
  {
    hide Deciphered, PaddingAccepted, GroupSizeOf, CString, Octets, HasHashes;
    ParseMessage.StoredFields(msg, f);
    size := GroupSizeOf(CString(msg.base[msg.version..]));
    Slice(msg.base[..], msg.data, f.data, size);
  }

  lemma Slice(b: string, at: nat, s: string, k: nat)
    requires at <= |b| && b[at..] == s + [NUL] && k <= |s|
    ensures b[at..at + k] == s[..k]
  {
    assert b[at..at + k] == b[at..][..k];
  }

  /** strcpy(base + off, text). */
  method CopyText(text: string, base: array<char>, off: nat)
    requires off + |text| < base.Length
    modifies base
    ensures base[..] == old(base[..off]) + text + [NUL] + old(base[off + |text| + 1..])
  {
    forall i | 0 <= i < |text| { base[off + i] := text[i]; }
    base[off + |text|] := NUL;
  }

  lemma BodyShorter(plain: string)
    requires HasHashes(plain, 2)
    ensures |BodyOf(plain)| < |plain|
  {
    TwoHashes(plain);
  }

  // ---------- end to end ----------

  /**
   * Whatever bytes the ciphertext happens to consist of and whatever the message contains, the receiver
   * who holds the sender's MAC address reads exactly the group number and the message that were sent.
   */
  lemma GroupMessageDelivered(bfP: seq<Word>, bfS: seq<Word>, me: Sender, pno: nat, groupId: nat, msg: string, extra: char)
    requires |bfP| == 18 && |bfS| == 1024 && me.Plain()
    requires groupId <= ULONG_MAX && CText(msg) && Octets(msg) && |PlainText(groupId, msg)| < PLAIN_SIZE - 8
    ensures var t := KeyedTables(bfP, bfS, me.mac);
            var packet := Sent(me, pno, Cipher(t, groupId, msg)).Stored(':') + [extra];
            && HasFields(packet, 5)
            && var f := Split(packet);
            && f.username == me.username && f.hostname == me.hostname
            && Atoi(f.packetNo) == (if pno <= 0x7fff_ffff then pno else 0x7fff_ffff)
            && Atoi(f.cmd) == 4194339 && Atoi(f.cmd) % 256 == CMD_GPMSG
            && HasHashes(f.version, 2) && MacOf(f.version) == me.mac
            && ('_' !in me.mac ==> AvatarOf(f.version) == (if me.avatar <= 0x7fff_ffff then me.avatar else 0x7fff_ffff))
            && Readable(t, f)
            && GroupIdOf(Deciphered(t, f)) == groupId && BodyOf(Deciphered(t, f)) == msg
  {
    hide KeyedTables, Cipher, PlainText, Sent, Received, Fields.Stored, Split, HasFields, HasHashes, Readable, Deciphered;
    hide CString, Chars, Plaintext, Decrypted, PaddingAccepted, Octets, StoredLong, GroupIdOf, BodyOf, Atoi, MacOf, AvatarOf;
    var t := KeyedTables(bfP, bfS, me.mac);
    var c := Cipher(t, groupId, msg);
    var f := Received(me, pno, c, extra);
    CipherDeciphered(t, groupId, msg);
    CipherFits(t, groupId, msg);
    ReceivedFields(me, pno, c, extra);
    ReceivedHeader(me, pno, c, extra);
    PlainTextParts(groupId, msg);
    ReceivedReadable(t, me, pno, c, extra, PlainText(groupId, msg));
  }

  /** The two programs back to back: one buffer is filled by the sender and handed to the receiver. */
  method SendAndReceive(bfP: seq<Word>, bfS: seq<Word>, me: Sender, pno: nat, groupId: nat, msg: string, buf: array<char>)
    returns (gpid: nat, text: string)
    requires |bfP| == 18 && |bfS| == 1024 && me.Plain()
    requires groupId <= ULONG_MAX && CText(msg) && Octets(msg) && |PlainText(groupId, msg)| < PLAIN_SIZE - 8
    requires |Sent(me, pno, Cipher(KeyedTables(bfP, bfS, me.mac), groupId, msg)).Stored(':')| < buf.Length
    modifies buf
    ensures gpid == groupId && text == msg
  {
    hide KeyedTables, Cipher, PlainText, Sent, Fields.Stored, Split, HasFields, HasHashes, Readable, Deciphered;
    hide Octets, GroupIdOf, BodyOf, Atoi, MacOf, ParseMessage.Laid;
    var size := Send(bfP, bfS, me, groupId, msg, pno, buf);
    ghost var sent := Sent(me, pno, Cipher(KeyedTables(bfP, bfS, me.mac), groupId, msg)).Stored(':');
    assert buf[..size] == sent + [buf[size - 1]];
    GroupMessageDelivered(bfP, bfS, me, pno, groupId, msg, buf[size - 1]);
    ghost var f := Split(buf[..size]);
    SplitLossless(buf[..size]);
    var received := ParseMessage.Parse(buf, size);
    gpid, text := OnGroupMessage(bfP, bfS, me.mac, received, f);
  }

  /** The fields cut from the packet, its stray last byte included. */
  function Received(me: Sender, pno: nat, c: seq<Byte>, extra: char): Fields {
    Sent(me, pno, c).(data := Chars(c) + [extra])
  }

  lemma ReceivedFields(me: Sender, pno: nat, c: seq<Byte>, extra: char)
    requires me.Plain()
    ensures var packet := Sent(me, pno, c).Stored(':') + [extra];
            HasFields(packet, 5) && Split(packet) == Received(me, pno, c, extra)
  {
    hide Printed, Version;
    var f := Received(me, pno, c, extra);
    SentSeparable(me, pno, c);
    assert f.Stored(':') == Sent(me, pno, c).Stored(':') + [extra];
    SplitStored(f);
  }

  lemma ReceivedHeader(me: Sender, pno: nat, c: seq<Byte>, extra: char)
    requires me.Plain()
    ensures var f := Received(me, pno, c, extra);
            && f.username == me.username && f.hostname == me.hostname
            && Atoi(f.packetNo) == (if pno <= 0x7fff_ffff then pno else 0x7fff_ffff)
            && Atoi(f.cmd) == 4194339 && Atoi(f.cmd) % 256 == CMD_GPMSG
            && HasHashes(f.version, 2) && MacOf(f.version) == me.mac
            && ('_' !in me.mac ==> AvatarOf(f.version) == (if me.avatar <= 0x7fff_ffff then me.avatar else 0x7fff_ffff))
  {
    hide Atoi, Printed, Version, MacOf, HasHashes, AvatarOf;
    AtoiPrinted(pno, []);
    assert Printed(pno, 10) + [] == Printed(pno, 10);
    if '_' !in me.mac { VersionAvatar(me.avatar, "128", me.mac, |c|); }
    VersionParts(me.avatar, "128", me.mac, |c|);
    AtoiPrinted(GROUP_COMMAND, []);
    assert Printed(GROUP_COMMAND, 10) + [] == Printed(GROUP_COMMAND, 10);
  }

  /** The receiver deciphers the sender's ciphertext, and nothing but that. */
  lemma ReceivedReadable(t: Tables, me: Sender, pno: nat, c: seq<Byte>, extra: char, plain: string)
    requires t.Sized() && me.Plain() && 0 < |c| <= LONG_MAX && |c| % 8 == 0
    requires PaddingAccepted(Decrypted(t, true, StoredLong(0), c, |c| / 8))
    requires CString(Chars(Plaintext(t, MODE, 0, c, |c| / 8).bytes)) == plain
    requires HasHashes(plain, 2)
    ensures var f := Received(me, pno, c, extra); Readable(t, f) && Deciphered(t, f) == plain
  {
    hide Printed, Version, Decrypted, Plaintext, StoredLong, HasHashes, CString, PaddingAccepted, Chars, Bytes, GroupSizeOf;
    VersionParts(me.avatar, "128", me.mac, |c|);
    var f := Received(me, pno, c, extra);
    assert f.data[..|c|] == Chars(c);
    BytesRoundTrip(c, []);
  }

  lemma CipherFits(t: Tables, groupId: nat, msg: string)
    requires t.Sized() && Octets(msg) && |PlainText(groupId, msg)| < PLAIN_SIZE - 8
    ensures |Cipher(t, groupId, msg)| <= PLAIN_SIZE
  {}

  lemma SentSeparable(me: Sender, pno: nat, c: seq<Byte>)
    requires me.Plain()
    ensures Sent(me, pno, c).Separable()
  {
    hide Printed;
    forall n: nat ensures ':' !in Printed(n, 10) && CText(Printed(n, 10)) {
      PrintedPlain(n, 10, ':');
      PrintedPlain(n, 10, NUL);
    }
  }

  /** Deciphering the ciphertext gives the plain text as a C string. */
  lemma CipherDeciphered(t: Tables, groupId: nat, msg: string)
    requires t.Sized() && CText(msg) && Octets(msg)
    ensures var plain := PlainText(groupId, msg);
            var c := Cipher(t, groupId, msg);
            && |c| > 0 && |c| % 8 == 0
            && PaddingAccepted(Decrypted(t, true, StoredLong(0), c, |c| / 8))
            && CString(Chars(Plaintext(t, MODE, 0, c, |c| / 8).bytes)) == plain
  {
    hide Decrypted, Plaintext, Ciphertext, PlainText, CString, Chars, Bytes, StoredLong, PaddingAccepted;
    var plain := PlainText(groupId, msg);
    PlainTextIsText(groupId, msg);
    ModeBits();
    CipherRoundTrip(t, Bytes(plain));
    TerminatedText(plain, Plaintext(t, MODE, 0, Cipher(t, groupId, msg), |Cipher(t, groupId, msg)| / 8).bytes);
  }

  lemma CipherRoundTrip(t: Tables, m: seq<Byte>)
    requires t.Sized()
    ensures var c := Ciphertext(t, MODE, 0, m);
            && |c| > 0 && |c| % 8 == 0
            && PaddingAccepted(Decrypted(t, true, StoredLong(0), c, |c| / 8))
            && var b := Plaintext(t, MODE, 0, c, |c| / 8).bytes;
            |m| < |b| && b[..|m|] == m && b[|m|] == 0
  {
    hide Decrypted, Encrypted, StoredLong, Padded, PaddingAccepted, Stripped;
    ModeBits();
    var n := BlocksFor(|m|, true);
    var c := Ciphertext(t, MODE, 0, m);
    assert |c| == 8 * n && |c| / 8 == n;
    MessageRoundTrip(t, MODE, 0, m);
    DecryptedEncrypted(t, true, StoredLong(0), Padded(m, true), n);
    PaddedIsWellPadded(m);
  }

  lemma TerminatedText(s: string, b: seq<Byte>)
    requires CText(s) && Octets(s) && |s| < |b| && b[..|s|] == Bytes(s) && b[|s|] == 0
    ensures CString(Chars(b)) == s
  {
    hide ToByte, ToChar, CString;
    ZeroIsNul();
    BytesRoundTrip([], s);
    forall i | 0 <= i < |s| ensures Chars(b)[i] == s[i] {
      assert b[i] == b[..|s|][i];
      assert Chars(Bytes(s))[i] == s[i];
    }
    assert Chars(b) == s + [NUL] + Chars(b)[|s| + 1..];
    CStringConcat(s, Chars(b)[|s| + 1..]);
  }

  lemma PlainTextIsText(groupId: nat, msg: string)
    requires CText(msg)
    ensures CText(PlainText(groupId, msg))
  {
    PrintedPlain(groupId, 16, NUL);
  }

  lemma PlainTextParts(groupId: nat, msg: string)
    requires groupId <= ULONG_MAX
    ensures var plain := PlainText(groupId, msg);
            HasHashes(plain, 2) && GroupIdOf(plain) == groupId && BodyOf(plain) == msg
  {
    hide Printed, Strtoul;
    var id := Printed(groupId, 16);
    var plain := PlainText(groupId, msg);
    assert plain == "QUNMSGMARK" + "#" + (id + "#" + msg);
    HashConcat("QUNMSGMARK", id + "#" + msg);
    PrintedPlain(groupId, 16, '#');
    HashConcat(id, msg);
    HashStep(id + "#" + msg, 0);
    HashStep(plain, 1);
    StrtoulPrinted(groupId, 16);
  }
}
