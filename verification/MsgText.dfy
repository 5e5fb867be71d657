/**
 * The character members of msg_t, which lie one behind the other in memory. strcpy does not stop at the end
 * of a member: what does not fit lands in the next one, and reading a member goes on into the next one too.
 */
module MsgText {
  import opened Text

  const IP := 0
  const MACADDR := 32
  const VERSION := 64
  const USERNAME := 80
  const HOSTNAME := 112
  const NICKNAME := 144
  const AVATAR := 176
  const CATEGORY := 240
  const DATA := 272
  const DATA_SIZE := 1024
  const TEXT_SIZE := 1296

  /** The C string at an offset. */
  function At(mem: string, off: nat): (s: string)
    requires off <= |mem|
    ensures CText(s) && |s| <= |mem| - off
  {
    CString(mem[off..])
  }

  /** There is a NUL at the end of it. */
  predicate Ends(mem: string, off: nat)
    requires off <= |mem|
  {
    off + |At(mem, off)| < |mem|
  }

  /** What strcpy and sprintf make of memory. */
  function Put(mem: string, off: nat, s: string): (r: string)
    requires off + |s| < |mem|
    ensures |r| == |mem|
  {
    mem[..off] + s + [NUL] + mem[off + |s| + 1..]
  }

  /** What memset and memcpy make of the data member. */
  function Fill(mem: string, data: string): (r: string)
    requires |mem| == DATA + |data|
    ensures |r| == |mem|
  {
    mem[..DATA] + data
  }

  /** A string in a member of n characters that `next` follows. */
  function RunOn(s: string, n: nat, next: string): string {
    if |s| < n then s else s[..n] + next
  }

  /** It reads back as it was written exactly when it fits or what follows happens to be the rest of it. */
  lemma RunOnSame(s: string, n: nat, next: string)
    ensures RunOn(s, n, next) == s <==> |s| < n || next == s[n..]
  {
    if |s| >= n {
      assert s == s[..n] + s[n..];
      assert (s[..n] + next)[n..] == next;
    }
  }

  /** Three members in a row. */
  lemma RunOnTwice(s: string, n: nat, t: string, k: nat, u: string)
    ensures RunOn(RunOn(s, n, t), n + k, u) == RunOn(s, n, RunOn(t, k, u))
  {
    if |s| >= n && |t| >= k {
      assert (s[..n] + t)[..n + k] == s[..n] + t[..k];
    }
  }

  /** Only the latest string behind the first k characters is seen. */
  lemma RunOnAgain(s: string, n: nat, t: string, k: nat, u: string)
    requires k <= n
    ensures RunOn(RunOn(s, n, t), k, u) == RunOn(s, k, u)
  {
    if |s| >= n {
      assert (s[..n] + t)[..k] == s[..k];
    }
  }

  lemma CStringAt(s: string, t: string)
    requires CText(s)
    ensures CString(s + [NUL] + t) == s
  {
    CStringConcat(s, t);
  }

  /** Reading across the place where t begins. */
  lemma {:induction false} CStringJoin(s: string, t: string)
    ensures CString(s + t) == RunOn(CString(s + t), |s|, CString(t))
    ensures CString(s + t) == if CText(s) then s + CString(t) else CString(s)
  {
    var i := IndexOf(s, NUL);
    IndexOfAbsent(s, NUL);
    IndexOfAbsent(t, NUL);
    if i < |s| {
      FirstNul(s + t, i);
      assert (s + t)[..i] == s[..i];
    } else {
      var j := IndexOf(t, NUL);
      if j < |t| { FirstNul(s + t, |s| + j); } else { IndexOfAbsent(s + t, NUL); }
      assert (s + t)[..|s| + j] == s + t[..j];
      assert (s + t[..j])[..|s|] == s;
    }
  }

  lemma {:induction false} FirstNul(s: string, i: nat)
    requires i < |s| && s[i] == NUL && NUL !in s[..i]
    ensures IndexOf(s, NUL) == i
  {
    assert s == s[..i] + [NUL] + s[i + 1..];
    IndexOfConcat(s[..i], NUL, s[i + 1..]);
  }

  /** What can be read at `b` once s has been written at `a`. */
  lemma AtPut(mem: string, a: nat, s: string, b: nat)
    requires a + |s| < |mem| && b <= |mem| && CText(s)
    ensures At(Put(mem, a, s), b) ==
            if b < a then RunOn(At(mem, b), a - b, s) else if b <= a + |s| then s[b - a..] else At(mem, b)
  {
    var m := Put(mem, a, s);
    var rest := mem[a + |s| + 1..];
    if b < a {
      assert m[b..] == mem[b..a] + (s + [NUL] + rest);
      assert mem[b..] == mem[b..a] + mem[a..];
      CStringAt(s, rest);
      AtAcross(mem[b..a], mem[a..], s + [NUL] + rest);
    } else if b <= a + |s| {
      assert m[b..] == s[b - a..] + [NUL] + rest;
      CStringAt(s[b - a..], rest);
    } else {
      assert m[b..] == mem[b..];
    }
  }

  /** Replacing what follows s replaces what is read behind s. */
  lemma AtAcross(s: string, t: string, u: string)
    ensures CString(s + u) == RunOn(CString(s + t), |s|, CString(u))
  {
    hide CString;
    CStringJoin(s, t);
    CStringJoin(s, u);
    CStringShort(s);
  }

  lemma CStringShort(s: string)
    ensures CText(s) <==> |CString(s)| == |s|
    ensures CText(s) ==> CString(s) == s
  {
    IndexOfAbsent(s, NUL);
  }

  lemma AtFill(mem: string, data: string, b: nat)
    requires |mem| == DATA + |data| && b <= DATA
    ensures At(Fill(mem, data), b) == RunOn(At(mem, b), DATA - b, CString(data))
    ensures Fill(mem, data)[DATA..] == data
  {
    assert Fill(mem, data)[b..] == mem[b..DATA] + data;
    assert mem[b..] == mem[b..DATA] + mem[DATA..];
    AtAcross(mem[b..DATA], mem[DATA..], data);
  }

  /** strcpy from one place to another, front to back; where the two overlap, the target lies in front. */
  method CopyWithin(a: array<char>, src: nat, dst: nat)
    requires src < a.Length && Ends(a[..], src)
    requires dst + |At(a[..], src)| < a.Length
    requires dst < src || src + |At(a[..], src)| < dst
    modifies a
    ensures a[..] == Put(old(a[..]), dst, old(At(a[..], src)))
  {
    hide At, Put;
    ghost var mem, s := a[..], At(a[..], src);
    TextThenNul(mem, src);
    var i := 0;
    while a[src + i] != NUL
      invariant i <= |s|
      invariant forall k :: 0 <= k < dst ==> a[k] == mem[k]
      invariant forall k :: dst <= k < dst + i ==> a[k] == s[k - dst]
      invariant forall k :: dst + i <= k < a.Length ==> a[k] == mem[k]
      decreases |s| - i
    {
      assert mem[src + i] == s[i];
      a[dst + i] := a[src + i];
      i := i + 1;
    }
    assert i == |s|;
    a[dst + i] := NUL;
    PutIs(mem, dst, s, a[..]);
  }

  lemma PutIs(mem: string, dst: nat, s: string, after: string)
    requires |after| == |mem| && dst + |s| < |mem|
    requires forall k :: 0 <= k < dst ==> after[k] == mem[k]
    requires forall k :: dst <= k < dst + |s| ==> after[k] == s[k - dst]
    requires after[dst + |s|] == NUL && forall k :: dst + |s| < k < |mem| ==> after[k] == mem[k]
    ensures after == Put(mem, dst, s)
  {}

  lemma TextThenNul(mem: string, src: nat)
    requires src < |mem| && Ends(mem, src)
    ensures var s := At(mem, src); src + |s| < |mem| && mem[src..src + |s|] == s && mem[src + |s|] == NUL
    ensures forall k :: src <= k < src + |At(mem, src)| ==> mem[k] == At(mem, src)[k - src] != NUL
  {
    IndexOfAbsent(mem[src..], NUL);
  }

  // ---------- what parsing and entering leave ----------

  /** The members in the order in which the parser writes them. */
  function ParsedText(mem: string, version: string, mac: string, ip: string, username: string, hostname: string, data: string): (r: string)
    requires |mem| == TEXT_SIZE && |data| == DATA_SIZE
    requires VERSION + |version| < TEXT_SIZE && MACADDR + |mac| < TEXT_SIZE && IP + |ip| < TEXT_SIZE
    requires USERNAME + |username| < TEXT_SIZE && HOSTNAME + |hostname| < TEXT_SIZE
    ensures |r| == TEXT_SIZE
  {
    Fill(Put(Put(Put(Put(Put(mem, VERSION, version), MACADDR, mac), IP, ip), USERNAME, username), HOSTNAME, hostname), data)
  }

  /** Of the host name, the user name and the version what does not fit is replaced by the member behind it. */
  lemma ParsedMembers(mem: string, version: string, mac: string, ip: string, username: string, hostname: string, data: string)
    requires |mem| == TEXT_SIZE && |data| == DATA_SIZE && |mac| < 32 && |ip| < 32
    requires VERSION + |version| < TEXT_SIZE && USERNAME + |username| < TEXT_SIZE && HOSTNAME + |hostname| < TEXT_SIZE
    requires CText(version) && CText(mac) && CText(ip) && CText(username) && CText(hostname)
    ensures var m := ParsedText(mem, version, mac, ip, username, hostname, data);
            && At(m, IP) == ip && At(m, MACADDR) == mac
            && At(m, VERSION) == RunOn(version, 16, At(m, USERNAME))
            && At(m, USERNAME) == RunOn(username, 32, At(m, HOSTNAME))
            && At(m, HOSTNAME) == RunOn(hostname, 160, At(m, DATA))
            && m[DATA..] == data
  {
    hide At, Put, Fill, CText, RunOn;
    var m1 := Put(mem, VERSION, version);
    var m2 := Put(m1, MACADDR, mac);
    var m3 := Put(m2, IP, ip);
    AtPut(mem, VERSION, version, VERSION);
    AtPut(m1, MACADDR, mac, VERSION);
    AtPut(m1, MACADDR, mac, MACADDR);
    AtPut(m2, IP, ip, VERSION);
    AtPut(m2, IP, ip, MACADDR);
    AtPut(m2, IP, ip, IP);
    assert version[0..] == version && mac[0..] == mac && ip[0..] == ip;
    NamesAndData(m3, username, hostname, data);
    InFrontOfNames(m3, username, hostname, data, VERSION);
    InFrontOfNames(m3, username, hostname, data, MACADDR);
    InFrontOfNames(m3, username, hostname, data, IP);
    var m := ParsedText(mem, version, mac, ip, username, hostname, data);
    RunOnShort(ip, 80, At(m, USERNAME));
    RunOnShort(mac, 48, At(m, USERNAME));
  }

  /** A MAC address that is too long, written after the version, takes the version's place. */
  lemma LongMac(mem: string, version: string, mac: string, ip: string, username: string, hostname: string, data: string)
    requires |mem| == TEXT_SIZE && |data| == DATA_SIZE && 32 <= |mac| < 48 && |ip| < 32
    requires VERSION + |version| < TEXT_SIZE && USERNAME + |username| < TEXT_SIZE && HOSTNAME + |hostname| < TEXT_SIZE
    requires CText(version) && CText(mac) && CText(ip) && CText(username) && CText(hostname)
    ensures var m := ParsedText(mem, version, mac, ip, username, hostname, data);
            At(m, IP) == ip && At(m, MACADDR) == mac && At(m, VERSION) == mac[32..]
  {
    hide At, Put, Fill, CText, RunOn;
    var m1 := Put(mem, VERSION, version);
    var m2 := Put(m1, MACADDR, mac);
    var m3 := Put(m2, IP, ip);
    AtPut(m1, MACADDR, mac, VERSION);
    AtPut(m1, MACADDR, mac, MACADDR);
    AtPut(m2, IP, ip, VERSION);
    AtPut(m2, IP, ip, MACADDR);
    AtPut(m2, IP, ip, IP);
    assert mac[0..] == mac && ip[0..] == ip;
    InFrontOfNames(m3, username, hostname, data, VERSION);
    InFrontOfNames(m3, username, hostname, data, MACADDR);
    InFrontOfNames(m3, username, hostname, data, IP);
    var m := ParsedText(mem, version, mac, ip, username, hostname, data);
    RunOnShort(ip, 80, At(m, USERNAME));
    RunOnShort(mac, 48, At(m, USERNAME));
    RunOnShort(mac[32..], 16, At(m, USERNAME));
  }

  lemma RunOnShort(s: string, n: nat, next: string)
    requires |s| < n
    ensures RunOn(s, n, next) == s
  {}

  /** The last three writes of the parser, over any memory. */
  lemma NamesAndData(mem: string, username: string, hostname: string, data: string)
    requires |mem| == TEXT_SIZE && |data| == DATA_SIZE
    requires USERNAME + |username| < TEXT_SIZE && HOSTNAME + |hostname| < TEXT_SIZE && CText(username) && CText(hostname)
    ensures var m := Fill(Put(Put(mem, USERNAME, username), HOSTNAME, hostname), data);
            && At(m, USERNAME) == RunOn(username, 32, At(m, HOSTNAME))
            && At(m, HOSTNAME) == RunOn(hostname, 160, At(m, DATA))
            && m[DATA..] == data
  {
    hide At, Put, Fill, CText, RunOn, CString;
    var m1 := Put(mem, USERNAME, username);
    var m2 := Put(m1, HOSTNAME, hostname);
    var m, d := Fill(m2, data), CString(data);
    assert username[0..] == username && hostname[0..] == hostname;
    AtPut(mem, USERNAME, username, USERNAME);
    AtPut(m1, HOSTNAME, hostname, USERNAME);
    AtPut(m1, HOSTNAME, hostname, HOSTNAME);
    AtFill(m2, data, USERNAME);
    AtFill(m2, data, HOSTNAME);
    AtFill(m2, data, DATA);
    AtData(m, data);
    RunOnTwice(username, 32, hostname, 160, d);
  }

  /** What is read in front of the user name goes on into it. */
  lemma InFrontOfNames(mem: string, username: string, hostname: string, data: string, b: nat)
    requires |mem| == TEXT_SIZE && |data| == DATA_SIZE && b < USERNAME
    requires USERNAME + |username| < TEXT_SIZE && HOSTNAME + |hostname| < TEXT_SIZE && CText(username) && CText(hostname)
    ensures var m := Fill(Put(Put(mem, USERNAME, username), HOSTNAME, hostname), data);
            At(m, b) == RunOn(At(mem, b), USERNAME - b, At(m, USERNAME))
  {
    hide At, Put, Fill, CText, RunOn, CString;
    var m1 := Put(mem, USERNAME, username);
    var m2 := Put(m1, HOSTNAME, hostname);
    var s, n := At(mem, b), USERNAME - b;
    assert username[0..] == username;
    AtPut(mem, USERNAME, username, b);
    AtPut(mem, USERNAME, username, USERNAME);
    AtPut(m1, HOSTNAME, hostname, b);
    AtPut(m1, HOSTNAME, hostname, USERNAME);
    AtFill(m2, data, b);
    AtFill(m2, data, USERNAME);
    RunOnTwice(s, n, username, 32, hostname);
    RunOnTwice(s, n, RunOn(username, 32, hostname), 192, CString(data));
  }

  lemma AtData(m: string, data: string)
    requires |m| == TEXT_SIZE && m[DATA..] == data
    ensures At(m, DATA) == CString(data)
  {}

  /** The members an entry message fills in, in the order in which they are written. */
  function EnteredText(mem: string, avatar: string, nickname: string, category: string): (r: string)
    requires |mem| == TEXT_SIZE
    requires AVATAR + |avatar| < TEXT_SIZE && NICKNAME + |nickname| < TEXT_SIZE && CATEGORY + |category| < TEXT_SIZE
    ensures |r| == TEXT_SIZE
  {
    Put(Put(Put(mem, AVATAR, avatar), NICKNAME, nickname), CATEGORY, category)
  }

  /** A nickname of 32 characters or more replaces the avatar; from the 96th on it is replaced by the category. */
  lemma EnteredMembers(mem: string, avatar: string, nickname: string, category: string)
    requires |mem| == TEXT_SIZE && |avatar| < 64
    requires NICKNAME + |nickname| < TEXT_SIZE && CATEGORY + |category| < TEXT_SIZE
    requires CText(avatar) && CText(nickname) && CText(category)
    ensures var m := EnteredText(mem, avatar, nickname, category);
            && At(m, CATEGORY) == category
            && At(m, NICKNAME) == RunOn(nickname, 96, category)
            && At(m, AVATAR) == (if |nickname| < 32 then avatar else RunOn(nickname[32..], 64, category))
  {
    hide At, Put, CText, RunOn;
    var m1 := Put(mem, AVATAR, avatar);
    var m2 := Put(m1, NICKNAME, nickname);
    var m := Put(m2, CATEGORY, category);
    assert avatar[0..] == avatar && nickname[0..] == nickname && category[0..] == category;
    AtPut(mem, AVATAR, avatar, AVATAR);
    AtPut(m1, NICKNAME, nickname, AVATAR);
    AtPut(m1, NICKNAME, nickname, NICKNAME);
    AtPut(m2, CATEGORY, category, AVATAR);
    AtPut(m2, CATEGORY, category, NICKNAME);
    AtPut(m2, CATEGORY, category, CATEGORY);
    RunOnShort(avatar, 64, category);
  }

  /** What is read in front of the nickname goes on into it. */
  lemma InFrontOfNickname(mem: string, avatar: string, nickname: string, category: string, b: nat)
    requires |mem| == TEXT_SIZE && b < NICKNAME
    requires AVATAR + |avatar| < TEXT_SIZE && NICKNAME + |nickname| < TEXT_SIZE && CATEGORY + |category| < TEXT_SIZE
    requires CText(avatar) && CText(nickname) && CText(category)
    ensures var m := EnteredText(mem, avatar, nickname, category);
            At(m, b) == RunOn(At(mem, b), NICKNAME - b, At(m, NICKNAME))
  {
    hide At, Put, CText, RunOn;
    var m1 := Put(mem, AVATAR, avatar);
    var m2 := Put(m1, NICKNAME, nickname);
    assert nickname[0..] == nickname;
    AtPut(mem, AVATAR, avatar, b);
    AtPut(m1, NICKNAME, nickname, b);
    AtPut(m1, NICKNAME, nickname, NICKNAME);
    AtPut(m2, CATEGORY, category, b);
    AtPut(m2, CATEGORY, category, NICKNAME);
    RunOnAgain(At(mem, b), AVATAR - b, avatar, NICKNAME - b, nickname);
    RunOnTwice(At(mem, b), NICKNAME - b, nickname, 96, category);
  }
}
