/** parse_message: one pass of pointers over the packet, copying each field into one allocation. */
module ParseMessage {
  import opened Text
  import opened Wire

  const IP_SIZE := 20

  /** The message header's pointers, as offsets into the storage allocated behind it. */
  datatype Message = Message(base: array<char>, ip: nat, version: nat, packetNo: nat, username: nat, hostname: nat, cmd: nat, data: nat)

  function Zeros(n: nat): (s: string)
    ensures |s| == n
  {
    seq(n, _ => NUL)
  }

  /** strchr(a + p, c) in a packet of the given size; -1 where the C function returns NULL. */
  method StrChr(a: array<char>, p: nat, size: nat, c: char) returns (q: int)
    requires p <= size <= a.Length && c != NUL
    ensures var s := a[p..size];
            if IndexOf(s, c) < |s| && CText(s[..IndexOf(s, c)]) then q == p + IndexOf(s, c) else q == -1
  {
    var i := p;
    while i < size && a[i] != c && a[i] != NUL
      invariant p <= i <= size
      invariant c !in a[p..i] && NUL !in a[p..i]
    {
      i := i + 1;
    }
    assert a[p..size][..i - p] == a[p..i];
    FirstIndex(a[p..size], c, i - p);
    if i < size && a[i] == c {
      q := i;
    } else {
      if i < size {
        assert a[p..size][i - p] == NUL;
      }
      q := -1;
    }
  }

  /** A prefix without c, and what comes next, decide where the first c is. */
  lemma {:induction false} FirstIndex(s: string, c: char, i: nat)
    requires i <= |s| && c !in s[..i]
    ensures i <= IndexOf(s, c)
    ensures i < |s| ==> (s[i] == c <==> IndexOf(s, c) == i)
  {
    if i > 0 {
      assert s[0] == s[..i][0] && s[1..][..i - 1] == s[..i][1..];
      FirstIndex(s[1..], c, i - 1);
    }
  }

  /** strcpy of the len characters at data + p. */
  method CopyString(data: array<char>, p: nat, len: nat, base: array<char>, off: nat)
    requires p + len <= data.Length && off + len < base.Length && data != base
    modifies base
    ensures base[..off + len + 1] == old(base[..off]) + data[p..p + len] + [NUL]
    ensures base[off + len + 1..] == old(base[off + len + 1..])
  {
    forall i | 0 <= i < len { base[off + i] := data[p + i]; }
    base[off + len] := NUL;
  }

  lemma CutPieces(b: string, p: nat, q: nat, size: nat)
    requires p <= q < size <= |b| && HasField(b[p..size]) && q == p + IndexOf(b[p..size], ':')
    ensures Field(b[p..size]) == b[p..q] && AfterField(b[p..size]) == b[q + 1..size]
  {
    hide IndexOf;
  }

  /** Finds the ':' that ends the field at p and writes NUL over it. */
  method CutField(data: array<char>, size: nat, p: nat) returns (q: nat)
    requires p <= size <= data.Length
    requires HasField(data[p..size])
    modifies data
    ensures p < q <= size
    ensures data[p..q - 1] == old(Field(data[p..size])) && data[q - 1] == NUL
    ensures data[..p] == old(data[..p])
    ensures data[q..size] == old(AfterField(data[p..size])) && data[size..] == old(data[size..])
  {
    hide IndexOf;
    ghost var s := data[p..size];
    ghost var before := data[..];
    q := StrChr(data, p, size, ':');
    CutPieces(before, p, q, size);
    data[q] := NUL;
    assert data[p..q] == before[p..q];
    q := q + 1;
  }

  /** One field cut and copied, with its NUL, to base + off; the storage stays in step with the packet. */
  method TakeField(data: array<char>, size: nat, p: nat, base: array<char>, off: nat) returns (q: nat, end: nat)
    requires p <= size <= data.Length && data != base
    requires HasField(data[p..size])
    requires off == IP_SIZE + p && base.Length == IP_SIZE + size + 1
    requires base[..off] == Zeros(IP_SIZE) + data[..p]
    modifies data, base
    ensures p < q <= size && end == IP_SIZE + q
    ensures base[..end] == Zeros(IP_SIZE) + data[..q]
    ensures data[..q] == old(data[..p] + Field(data[p..size])) + [NUL]
    ensures data[q..size] == old(AfterField(data[p..size])) && data[size..] == old(data[size..])
    ensures base[base.Length - 1] == old(base[base.Length - 1])
  {
    hide Zeros, Field, AfterField, HasField;
    ghost var before := data[..p];
    q := CutField(data, size, p);
    var len := q - 1 - p;
    CopyString(data, p, len, base, off);
    end := off + len + 1;
    assert base[base.Length - 1] == base[end..][size - q];
    assert data[..q] == before + data[p..q - 1] + [NUL];
  }

  method Parse(data: array<char>, size: nat) returns (msg: Message)
    requires size <= data.Length && HasFields(data[..size], 5)
    modifies data
    ensures fresh(msg.base) && msg.base.Length == 1 + size + 20 && msg.version == 20
    ensures var f := Split(old(data[..size]));
            && Laid(msg, f)
            && data[..size] == f.Stored(NUL) && data[size..] == old(data[size..])
  {
    hide Zeros, Split, Fields.Stored;
    ghost var f := Split(data[..size]);
    var base := new char[1 + size + IP_SIZE](_ => NUL);
    assert base[..IP_SIZE] == Zeros(IP_SIZE) by { ZerosAre(base[..IP_SIZE]); }
    var p;
    p, msg := TakeHeader(data, size, base);
    assert data[..size] == data[..p] + data[p..size];
    HeaderAndData(f);
    CopyRest(data, p, size, base, msg.data);
  }

  lemma HeaderAndData(f: Fields)
    ensures f.Stored(NUL) == f.(data := []).Stored(NUL) + f.data
    ensures |f.(data := []).Stored(NUL)| == |f.version| + |f.packetNo| + |f.username| + |f.hostname| + |f.cmd| + 5
  {}

  /** The five header fields, one after the other. */
  method TakeHeader(data: array<char>, size: nat, base: array<char>) returns (p: nat, msg: Message)
    requires size <= data.Length && data != base && HasFields(data[..size], 5)
    requires base.Length == IP_SIZE + size + 1 && base[..IP_SIZE] == Zeros(IP_SIZE)
    modifies data, base
    ensures p <= size && msg.base == base && Pointers(msg, Split(old(data[..size]))) && msg.data == IP_SIZE + p
    ensures data[..p] == Split(old(data[..size])).(data := []).Stored(NUL)
    ensures data[p..size] == Split(old(data[..size])).data && data[size..] == old(data[size..])
    ensures base[..msg.data] == Zeros(IP_SIZE) + data[..p] && base[base.Length - 1] == old(base[base.Length - 1])
  {
    hide Field, AfterField, HasField, HasFields, Split, Zeros, Fields.Stored;
    ghost var f := Split(data[..size]);
    ghost var s1, s2, s3, s4 := SplitSteps(data[..size]);
    var ip, version := 0, IP_SIZE;
    assert data[0..size] == data[..size] && data[..0] == [];
    assert base[..version] == Zeros(IP_SIZE) + data[..0];
    var packetNo, username, hostname, cmd, end: nat;
    p, packetNo := TakeField(data, size, 0, base, version);
    p, username, hostname := TakeTwo(data, size, p, base, packetNo, s1, s2);
    ghost var three := data[..p];
    assert three == f.version + [NUL] + (f.packetNo + [NUL] + f.username + [NUL]);
    p, cmd, end := TakeTwo(data, size, p, base, hostname, s3, s4);
    HeaderPieces(f);
    msg := Message(base, ip, version, packetNo, username, hostname, cmd, end);
  }

  lemma HeaderPieces(f: Fields)
    ensures f.(data := []).Stored(NUL) ==
            f.version + [NUL] + (f.packetNo + [NUL] + f.username + [NUL]) + (f.hostname + [NUL] + f.cmd + [NUL])
  {}

  /** Two fields, one after the other. */
  method TakeTwo(data: array<char>, size: nat, from: nat, base: array<char>, off: nat, ghost s: string, ghost t: string)
    returns (p: nat, second: nat, end: nat)
    requires from <= size <= data.Length && data != base && data[from..size] == s
    requires HasField(s) && t == AfterField(s) && HasField(t)
    requires off == IP_SIZE + from && base.Length == IP_SIZE + size + 1
    requires base[..off] == Zeros(IP_SIZE) + data[..from]
    modifies data, base
    ensures p <= size && second == off + |Field(s)| + 1 && end == second + |Field(t)| + 1 == IP_SIZE + p
    ensures data[..p] == old(data[..from]) + (Field(s) + [NUL] + Field(t) + [NUL])
    ensures data[p..size] == AfterField(t) && data[size..] == old(data[size..])
    ensures base[..end] == Zeros(IP_SIZE) + data[..p] && base[base.Length - 1] == old(base[base.Length - 1])
  {
    hide Field, AfterField, HasField, Zeros;
    ghost var before := data[..from];
    p, second := TakeField(data, size, from, base, off);
    ghost var one := data[..p];
    assert one == before + Field(s) + [NUL];
    p, end := TakeField(data, size, p, base, second);
    assert data[..p] == one + Field(t) + [NUL];
    Regrouped(before, Field(s) + [NUL], Field(t) + [NUL]);
  }

  lemma Regrouped(a: string, b: string, c: string)
    ensures a + b + c == a + (b + c)
  {}

  /** The final memcpy; the storage was zeroed, and one zero stays behind the payload. */
  method CopyRest(data: array<char>, p: nat, size: nat, base: array<char>, off: nat)
    requires p <= size <= data.Length && data != base
    requires off == IP_SIZE + p && base.Length == IP_SIZE + size + 1
    requires base[..off] == Zeros(IP_SIZE) + data[..p] && base[base.Length - 1] == NUL
    modifies base
    ensures base[..] == Zeros(IP_SIZE) + data[..size] + [NUL]
  {
    forall i | 0 <= i < size - p { base[off + i] := data[p + i]; }
  }

  lemma ZerosAre(s: string)
    requires forall i :: 0 <= i < |s| ==> s[i] == NUL
    ensures s == Zeros(|s|)
  {}

  /** Where the fields start, counted from the start of the packet. */
  predicate Pointers(msg: Message, f: Fields) {
    && msg.ip == 0 && msg.version == IP_SIZE
    && msg.packetNo == msg.version + |f.version| + 1
    && msg.username == msg.packetNo + |f.packetNo| + 1
    && msg.hostname == msg.username + |f.username| + 1
    && msg.cmd == msg.hostname + |f.hostname| + 1
    && msg.data == msg.cmd + |f.cmd| + 1
  }

  /** The storage holds zeros for the address, the fields, each with its NUL, the data and a last NUL. */
  ghost predicate Laid(msg: Message, f: Fields)
    reads msg.base
  {
    && Pointers(msg, f)
    && msg.data + |f.data| + 1 == msg.base.Length
    && msg.base[..] == Zeros(IP_SIZE) + f.Stored(NUL) + [NUL]
  }

  /** Each pointer of the header reads back its own field as a C string, and the payload is all there. */
  lemma StoredFields(msg: Message, f: Fields)
    requires Laid(msg, f) && f.Separable()
    ensures CString(msg.base[msg.version..]) == f.version
    ensures CString(msg.base[msg.packetNo..]) == f.packetNo
    ensures CString(msg.base[msg.username..]) == f.username
    ensures CString(msg.base[msg.hostname..]) == f.hostname
    ensures CString(msg.base[msg.cmd..]) == f.cmd
    ensures msg.base[msg.data..] == f.data + [NUL]
  {
    hide CString, Zeros;
    var b := msg.base[..];
    var t5 := f.data + [NUL];
    var t4 := f.cmd + [NUL] + t5;
    var t3 := f.hostname + [NUL] + t4;
    var t2 := f.username + [NUL] + t3;
    var t1 := f.packetNo + [NUL] + t2;
    var t0 := f.version + [NUL] + t1;
    assert f.Stored(NUL) + [NUL] == t0;
    assert b[IP_SIZE..] == t0;
    NextField(b, msg.version, f.version, t1);
    NextField(b, msg.packetNo, f.packetNo, t2);
    NextField(b, msg.username, f.username, t3);
    NextField(b, msg.hostname, f.hostname, t4);
    NextField(b, msg.cmd, f.cmd, t5);
    assert forall i | 0 <= i <= |b| :: msg.base[i..] == b[i..];
    assert msg.base[msg.data..] == b[msg.data..];
  }

  lemma NextField(b: string, at: nat, f: string, t: string)
    requires at <= |b| && b[at..] == f + [NUL] + t && CText(f)
    ensures CString(b[at..]) == f
    ensures b[at + |f| + 1..] == t
  {
    CStringConcat(f, t);
    assert b[at + |f| + 1..] == b[at..][|f| + 1..];
  }
}
