/** A chat group's members, kept on a ring list and identified by their addresses. */
module Group {
  import opened Collections
  import opened DList
  import opened Users

  ghost predicate DistinctIps(members: seq<UserEntry>) {
    forall i, j :: 0 <= i < j < |members| ==> members[i].ipaddr != members[j].ipaddr
  }

  /** The members by address. */
  ghost function Table(members: seq<UserEntry>): map<string, UserEntry> {
    if members == [] then map[] else
      var last := members[|members| - 1];
      Table(members[..|members| - 1])[last.ipaddr := last]
  }

  ghost predicate IsFirst(members: seq<UserEntry>, ip: string, i: nat) {
    && i <= |members| && (i < |members| ==> members[i].ipaddr == ip)
    && forall j :: 0 <= j < i ==> members[j].ipaddr != ip
  }

  /** The walk that stops at the first match looks the address up in the table. */
  lemma {:induction false} TableLookup(members: seq<UserEntry>, ip: string, i: nat)
    requires DistinctIps(members) && IsFirst(members, ip, i)
    ensures if i < |members| then ip in Table(members) && Table(members)[ip] == members[i] else ip !in Table(members)
  {
    if members != [] {
      var n := |members| - 1;
      TableLookup(members[..n], ip, if i < n then i else n);
    }
  }

  lemma TableHas(members: seq<UserEntry>, i: nat)
    requires DistinctIps(members) && i < |members|
    ensures members[i].ipaddr in Table(members)
  {
    TableLookup(members, members[i].ipaddr, i);
  }

  lemma TableAdd(members: seq<UserEntry>, user: UserEntry)
    requires DistinctIps(members) && IsFirst(members, user.ipaddr, |members|)
    ensures DistinctIps(members + [user])
    ensures Table(members + [user]) == Table(members)[user.ipaddr := user]
  {
    TableSnoc(members, user);
    DistinctSnoc(members, user);
  }

  lemma TableSnoc(members: seq<UserEntry>, user: UserEntry)
    ensures Table(members + [user]) == Table(members)[user.ipaddr := user]
  {
    assert (members + [user])[..|members|] == members;
  }

  lemma DistinctSnoc(members: seq<UserEntry>, user: UserEntry)
    requires DistinctIps(members) && IsFirst(members, user.ipaddr, |members|)
    ensures DistinctIps(members + [user])
  {}

  lemma {:induction false} TableRemove(members: seq<UserEntry>, k: nat)
    requires DistinctIps(members) && k < |members|
    ensures DistinctIps(Removed(members, k))
    ensures Table(Removed(members, k)) == Table(members) - {members[k].ipaddr}
  {
    var n, m := |members| - 1, Removed(members, k);
    var ip := members[k].ipaddr;
    if k == n {
      assert m == members[..n];
      TableLookup(m, ip, n);
    } else {
      TableRemove(members[..n], k);
      assert m[..|m| - 1] == Removed(members[..n], k);
      assert m[|m| - 1] == members[n];
    }
  }

  /** The nodes behind the head carry users. */
  ghost predicate Carries(ring: seq<Node<UserEntry>>) { forall i :: 1 <= i < |ring| ==> ring[i].entry.Some? }

  ghost function MembersOf(ring: seq<Node<UserEntry>>): (m: seq<UserEntry>)
    requires |ring| > 0 && Carries(ring)
    ensures |m| == |ring| - 1
    ensures forall i :: 0 <= i < |m| ==> m[i] == ring[i + 1].entry.value
  {
    seq<UserEntry>(|ring| - 1, i requires 0 <= i < |ring| - 1 => ring[i + 1].entry.value)
  }

  lemma MembersAppend(ring: seq<Node<UserEntry>>, node: Node<UserEntry>)
    requires |ring| > 0 && Carries(ring) && node.entry.Some?
    ensures Carries(ring + [node]) && MembersOf(ring + [node]) == MembersOf(ring) + [node.entry.value]
  {}

  lemma MembersNth(ring: seq<Node<UserEntry>>, i: nat)
    requires i + 1 < |ring| && Carries(ring)
    ensures MembersOf(ring)[i] == ring[i + 1].entry.value
  {}

  lemma MembersRemove(ring: seq<Node<UserEntry>>, k: nat)
    requires k + 1 < |ring| && Carries(ring)
    ensures Carries(Removed(ring, k + 1)) && MembersOf(Removed(ring, k + 1)) == Removed(MembersOf(ring), k)
  {}

  class GroupEntry {
    const ulist: Node<UserEntry>
    ghost var ring: seq<Node<UserEntry>>

    ghost predicate Valid()
      reads this, ring
    {
      && Ring(ring) && ring[0] == ulist
      && Carries(ring) && DistinctIps(Members())
    }

    ghost function Members(): seq<UserEntry>
      requires |ring| > 0 && Carries(ring)
      reads this
    {
      MembersOf(ring)
    }

    constructor ()
      ensures Valid() && Members() == [] && fresh(ring)
    {
      ulist := new Node(None);
      new;
      ring := [ulist];
    }

    method AddUser(user: UserEntry) returns (r: int)
      requires Valid()
      modifies this, ring
      ensures Valid() && fresh(set n | n in ring && n !in old(ring))
      ensures r == if user.ipaddr in old(Table(Members())) then -1 else 0
      ensures Members() == if r == 0 then old(Members()) + [user] else old(Members())
      ensures Table(Members()) == if r == 0 then old(Table(Members()))[user.ipaddr := user] else old(Table(Members()))
    {
      ghost var m := Members();
      var p := ulist.next;
      ghost var i := 0;
      while p != ulist
        invariant 0 <= i <= |m| && p == ring[Succ(i, |ring|)]
        invariant forall j :: 0 <= j < i ==> m[j].ipaddr != user.ipaddr
        decreases |m| - i
      {
        assert p == ring[i + 1];
        var u := p.entry.value;
        if u.ipaddr == user.ipaddr {
          TableLookup(m, user.ipaddr, i);
          return -1;
        }
        p := p.next;
        i := i + 1;
      }
      assert i == |m|;
      TableLookup(m, user.ipaddr, i);
      Append(user);
      r := 0;
    }

    /** dlist_add_tail of a new node. */
    method Append(user: UserEntry)
      requires Valid() && IsFirst(Members(), user.ipaddr, |Members()|)
      modifies this, ring
      ensures Valid() && fresh(set n | n in ring && n !in old(ring))
      ensures Members() == old(Members()) + [user]
      ensures Table(Members()) == old(Table(Members()))[user.ipaddr := user]
    {
      hide MembersOf, Table, DistinctIps, IsFirst;
      TableAdd(Members(), user);
      var node := new Node(Some(user));
      AddTail(node, ulist, ring);
      MembersAppend(ring, node);
      ring := ring + [node];
    }

    /** Walks the ring with the successor saved, since the node found is unlinked under way. */
    method DelUser(user: UserEntry) returns (r: int)
      requires Valid()
      modifies this, ring
      ensures Valid() && (forall n :: n in ring ==> n in old(ring))
      ensures r == if user.ipaddr in old(Table(Members())) then 0 else -1
      ensures r == -1 ==> Members() == old(Members())
      ensures r == 0 ==> exists i :: 0 <= i < |old(Members())| && old(Members())[i].ipaddr == user.ipaddr
                                     && Members() == Removed(old(Members()), i)
      ensures Table(Members()) == old(Table(Members())) - {user.ipaddr}
    {
      ghost var m := Members();
      var p := ulist.next;
      var q := p.next;
      ghost var i := 0;
      while p != ulist
        invariant 0 <= i <= |m| && p == ring[Succ(i, |ring|)] && q == p.next
        invariant forall j :: 0 <= j < i ==> m[j].ipaddr != user.ipaddr
        decreases |m| - i
      {
        assert p == ring[i + 1];
        var u := p.entry.value;
        if u.ipaddr == user.ipaddr {
          Unlink(p, i);
          return 0;
        }
        p := q;
        q := p.next;
        i := i + 1;
      }
      assert i == |m|;
      TableLookup(m, user.ipaddr, i);
      r := -1;
    }

    /** dlist_del on the node of the i-th member. */
    method Unlink(p: Node<UserEntry>, ghost i: nat)
      requires Valid() && i < |Members()| && p == ring[i + 1]
      modifies this, ring
      ensures Valid() && (forall n :: n in ring ==> n in old(ring))
      ensures Members() == old(Removed(Members(), i))
      ensures old(Members()[i].ipaddr in Table(Members()))
      ensures Table(Members()) == old(Table(Members()) - {Members()[i].ipaddr})
    {
      hide MembersOf, Table, DistinctIps;
      ghost var m := Members();
      MembersNth(ring, i);
      TableHas(m, i);
      TableRemove(m, i);
      MembersRemove(ring, i);
      Del(p, ring, i + 1);
      ring := Removed(ring, i + 1);
    }

    method FindUser(ip: string) returns (user: UserEntry?)
      requires Valid()
      ensures if ip in Table(Members()) then user == Table(Members())[ip] else user == null
    {
      ghost var m := Members();
      var p := ulist.next;
      ghost var i := 0;
      while p != ulist
        invariant 0 <= i <= |m| && p == ring[Succ(i, |ring|)]
        invariant forall j :: 0 <= j < i ==> m[j].ipaddr != ip
        decreases |m| - i
      {
        assert p == ring[i + 1];
        var u := p.entry.value;
        if u.ipaddr == ip {
          TableLookup(m, ip, i);
          return u;
        }
        p := p.next;
        i := i + 1;
      }
      assert i == |m|;
      TableLookup(m, ip, i);
      return null;
    }
  }
}
