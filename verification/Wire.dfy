/** The colon-separated fields of a FeiQ packet and the hash-separated parts of its version field. */
module Wire {
  import opened Text

  // ---------- five fields and a payload ----------

  /** version ':' packet number ':' user ':' host ':' command ':' data */
  datatype Fields = Fields(version: string, packetNo: string, username: string, hostname: string, cmd: string, data: string) {
    function Stored(separator: char): string {
      version + [separator] + packetNo + [separator] + username + [separator] + hostname + [separator] + cmd + [separator] + data
    }

    /** Each header field can stand before a ':' in a C string. */
    predicate Separable() {
      && ':' !in version && ':' !in packetNo && ':' !in username && ':' !in hostname && ':' !in cmd
      && CText(version) && CText(packetNo) && CText(username) && CText(hostname) && CText(cmd)
    }
  }

  function Field(s: string): (f: string)
    ensures |f| <= |s| && ':' !in f
  {
    s[..IndexOf(s, ':')]
  }

  predicate HasField(s: string) { |Field(s)| < |s| && CText(Field(s)) }

  function AfterField(s: string): (t: string)
    requires HasField(s)
    ensures s == Field(s) + [':'] + t
  {
    s[|Field(s)| + 1..]
  }

  /** k times strchr(p, ':') finds a colon before any NUL. */
  predicate HasFields(s: string, k: nat) {
    k == 0 || (HasField(s) && HasFields(AfterField(s), k - 1))
  }

  function Split(s: string): (f: Fields)
    requires HasFields(s, 5)
  {
    var s1 := AfterField(s);
    assert HasFields(s1, 4);
    var s2 := AfterField(s1);
    assert HasFields(s2, 3);
    var s3 := AfterField(s2);
    assert HasFields(s3, 2);
    var s4 := AfterField(s3);
    assert HasFields(s4, 1);
    Fields(Field(s), Field(s1), Field(s2), Field(s3), Field(s4), AfterField(s4))
  }

  /** The successive remainders of a packet. */
  lemma SplitSteps(s: string) returns (s1: string, s2: string, s3: string, s4: string)
    requires HasFields(s, 5)
    ensures HasField(s) && s1 == AfterField(s)
    ensures HasField(s1) && s2 == AfterField(s1)
    ensures HasField(s2) && s3 == AfterField(s2)
    ensures HasField(s3) && s4 == AfterField(s3)
    ensures HasField(s4)
    ensures Split(s) == Fields(Field(s), Field(s1), Field(s2), Field(s3), Field(s4), AfterField(s4))
  {
    s1 := AfterField(s);
    assert HasFields(s1, 4);
    s2 := AfterField(s1);
    assert HasFields(s2, 3);
    s3 := AfterField(s2);
    assert HasFields(s3, 2);
    s4 := AfterField(s3);
    assert HasFields(s4, 1);
  }

  /** No byte of a packet is lost or invented by splitting it. */
  lemma SplitLossless(s: string)
    requires HasFields(s, 5)
    ensures Split(s).Stored(':') == s && Split(s).Separable()
  {
    hide Field, AfterField, HasField, HasFields, Split;
    var s1, s2, s3, s4 := SplitSteps(s);
    FieldAndRest(s);
    FieldAndRest(s1);
    FieldAndRest(s2);
    FieldAndRest(s3);
    FieldAndRest(s4);
    var c := [':'];
    assert s == Field(s) + c + (Field(s1) + c + (Field(s2) + c + (Field(s3) + c + (Field(s4) + c + AfterField(s4)))));
  }

  lemma FieldAndRest(s: string)
    requires HasField(s)
    ensures s == Field(s) + [':'] + AfterField(s) && ':' !in Field(s) && CText(Field(s))
  {}

  lemma FieldConcat(f: string, t: string)
    requires ':' !in f && CText(f)
    ensures HasField(f + [':'] + t) && Field(f + [':'] + t) == f && AfterField(f + [':'] + t) == t
  {
    IndexOfConcat(f, ':', t);
  }

  /** Splitting undoes joining, whatever the payload contains. */
  lemma SplitStored(f: Fields)
    requires f.Separable()
    ensures HasFields(f.Stored(':'), 5) && Split(f.Stored(':')) == f
  {
    var s4 := f.cmd + [':'] + f.data;
    var s3 := f.hostname + [':'] + s4;
    var s2 := f.username + [':'] + s3;
    var s1 := f.packetNo + [':'] + s2;
    var s := f.version + [':'] + s1;
    assert f.Stored(':') == s;
    FieldConcat(f.version, s1);
    FieldConcat(f.packetNo, s2);
    FieldConcat(f.username, s3);
    FieldConcat(f.hostname, s4);
    FieldConcat(f.cmd, f.data);
    assert HasFields(s4, 1) && HasFields(s3, 2) && HasFields(s2, 3) && HasFields(s1, 4);
  }

  // ---------- the version field ----------

  predicate HasHashes(s: string, k: nat) {
    k == 0 || (IndexOf(s, '#') < |s| && HasHashes(AfterHash(s), k - 1))
  }

  function AfterHash(s: string): string
    requires IndexOf(s, '#') < |s|
  {
    s[IndexOf(s, '#') + 1..]
  }

  function UpToHash(s: string): string { s[..IndexOf(s, '#')] }

  /** strncmp(version, "1_lbt", 5) == 0 */
  predicate IsFeiq(version: string) { "1_lbt" <= version }

  /** What k times `p = strchr(p, '#') + 1` leaves. */
  function AfterHashes(s: string, k: nat): string
    requires HasHashes(s, k)
  {
    if k == 0 then s else AfterHashes(AfterHash(s), k - 1)
  }

  function MacOf(version: string): string
    requires IsFeiq(version) ==> HasHashes(version, 2)
  {
    if !IsFeiq(version) then "000000000000" else UpToHash(AfterHashes(version, 2))
  }

  function GroupSizeOf(version: string): int
    requires HasHashes(version, 5)
  {
    Atoi(AfterHashes(version, 5))
  }

  /** What follows the last c (all of s if there is none). */
  function AfterLast(s: string, c: char): (t: string)
    ensures c !in t
  {
    if s == [] || s[|s| - 1] == c then [] else AfterLast(s[..|s| - 1], c) + [s[|s| - 1]]
  }

  function AvatarOf(version: string): int {
    if !IsFeiq(version) then 0 else Atoi(AfterLast(version, '_'))
  }

  /** The template "1_lbt4_%d#<tag>#%s#0#0#%d". */
  function Version(avatar: nat, tag: string, mac: string, size: nat): string {
    "1_lbt4_" + Printed(avatar, 10) + "#" + tag + "#" + mac + "#0#0#" + Printed(size, 10)
  }

  lemma HashConcat(s: string, t: string)
    requires '#' !in s
    ensures IndexOf(s + "#" + t, '#') == |s|
    ensures AfterHash(s + "#" + t) == t && UpToHash(s + "#" + t) == s
  {
    IndexOfConcat(s, '#', t);
  }

  lemma {:induction false} AfterLastConcat(s: string, c: char, t: string)
    requires c !in t
    ensures AfterLast(s + [c] + t, c) == t
  {
    var u := s + [c] + t;
    if t != [] {
      assert u[..|u| - 1] == s + [c] + t[..|t| - 1];
      AfterLastConcat(s, c, t[..|t| - 1]);
    }
  }

  /** The version field gives back the numbers and the MAC printed into it. */
  lemma VersionParts(avatar: nat, tag: string, mac: string, size: nat)
    requires '#' !in tag && '#' !in mac
    ensures var v := Version(avatar, tag, mac, size);
            && IsFeiq(v) && "1_lbt4" <= v && HasHashes(v, 5) && HasHashes(v, 2)
            && '#' in AfterHashes(v, 2) && MacOf(v) == mac
            && GroupSizeOf(v) == (if size <= LONG_MAX then size else LONG_MAX)
  {
    hide Printed, IndexOf, Atoi, UpToHash, AfterHash;
    var v := Version(avatar, tag, mac, size);
    var v5 := Printed(size, 10);
    var v4 := "0" + "#" + v5;
    var v3 := "0" + "#" + v4;
    var v2 := mac + "#" + v3;
    var v1 := tag + "#" + v2;
    var v0 := "1_lbt4_" + Printed(avatar, 10);
    PrintedPlain(avatar, 10, '#');
    assert v == v0 + "#" + v1;
    HashConcat(v0, v1);
    HashConcat(tag, v2);
    HashConcat(mac, v3);
    HashConcat("0", v4);
    HashConcat("0", v5);
    HashStep(v4, 0);
    HashStep(v3, 1);
    HashStep(v2, 2);
    HashStep(v1, 3);
    HashStep(v, 4);
    HashStep(v1, 0);
    HashStep(v, 1);
    AtoiPrinted(size, []);
    assert v5 + [] == v5;
    assert v2[|mac|] == '#';
  }

  lemma HashStep(s: string, k: nat)
    requires IndexOf(s, '#') < |s| && HasHashes(AfterHash(s), k)
    ensures HasHashes(s, k + 1) && AfterHashes(s, k + 1) == AfterHashes(AfterHash(s), k)
  {}

  /** So does the avatar number, if no '_' follows it. */
  lemma VersionAvatar(avatar: nat, tag: string, mac: string, size: nat)
    requires '_' !in tag && '_' !in mac
    ensures AvatarOf(Version(avatar, tag, mac, size)) == if avatar <= LONG_MAX then avatar else LONG_MAX
  {
    var v := Version(avatar, tag, mac, size);
    var rest := "#" + tag + "#" + mac + "#0#0#" + Printed(size, 10);
    PrintedPlain(avatar, 10, '_');
    PrintedPlain(size, 10, '_');
    assert v == "1_lbt4" + ['_'] + (Printed(avatar, 10) + rest);
    AfterLastConcat("1_lbt4", '_', Printed(avatar, 10) + rest);
    AtoiPrinted(avatar, rest);
    assert IsFeiq(v);
  }

  /** A version of another program has no avatar and no MAC address. */
  lemma ForeignVersion(version: string)
    requires !("1_lbt" <= version)
    ensures AvatarOf(version) == 0 && MacOf(version) == "000000000000"
  {}

  /** The template, literally. */
  lemma VersionText(avatar: nat, tag: string, mac: string, size: nat)
    ensures Version(avatar, tag, mac, size) == "1_lbt4_" + Printed(avatar, 10) + "#" + tag + "#" + mac + "#0#0#" + Printed(size, 10)
  {}

  /** The order of the fields in a packet. */
  lemma StoredText(f: Fields)
    ensures f.Stored(':') == f.version + ":" + f.packetNo + ":" + f.username + ":" + f.hostname + ":" + f.cmd + ":" + f.data
  {}
}
