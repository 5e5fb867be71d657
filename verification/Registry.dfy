/** The user list, the category list, and what an entry message does to them. */
module Registry {
  import opened Words
  import opened Collections
  import opened DList
  import opened Users
  import opened HashTable
  import opened Listing

  const CATEGORY_SLOTS: Word := 0xff
  const USER_SLOTS: Word := 0xffff

  // ---------- counting ----------

  lemma {:induction false} CountUpdate<T>(owners: seq<T>, i: nat, d: T, c: T)
    requires i < |owners|
    ensures Count(owners[i := d], c) + (if owners[i] == c then 1 else 0) == Count(owners, c) + (if d == c then 1 else 0)
  {
    var n := |owners| - 1;
    if i < n {
      CountUpdate(owners[..n], i, d, c);
      assert owners[i := d][..n] == owners[..n][i := d];
    } else {
      assert owners[i := d][..n] == owners[..n];
    }
  }

  lemma {:induction false} CountAbsent<T>(owners: seq<T>, c: T)
    ensures Count(owners, c) == 0 <==> c !in owners
  {
    if owners != [] {
      var n := |owners| - 1;
      CountAbsent(owners[..n], c);
      assert owners == owners[..n] + [owners[n]];
    }
  }

  /** The counts of some owners, added up. */
  function CountAll<T(==)>(owners: seq<T>, cs: seq<T>): nat {
    if cs == [] then 0 else CountAll(owners, cs[..|cs| - 1]) + Count(owners, cs[|cs| - 1])
  }

  lemma {:induction false} CountAllAppend<T>(owners: seq<T>, d: T, cs: seq<T>)
    requires Distinct(cs)
    ensures CountAll(owners + [d], cs) == CountAll(owners, cs) + (if d in cs then 1 else 0)
  {
    if cs != [] {
      var n := |cs| - 1;
      CountAllAppend(owners, d, cs[..n]);
      CountAppend(owners, d, cs[n]);
      assert cs == cs[..n] + [cs[n]];
    }
  }

  /** If every item has its owner among the cs, the counts of the cs add up to the number of items. */
  lemma {:induction false} CountAllTotal<T>(owners: seq<T>, cs: seq<T>)
    requires Distinct(cs) && forall i :: 0 <= i < |owners| ==> owners[i] in cs
    ensures CountAll(owners, cs) == |owners|
  {
    if owners == [] {
      CountAllNothing(cs);
    } else {
      var n := |owners| - 1;
      CountAllTotal(owners[..n], cs);
      CountAllAppend(owners[..n], owners[n], cs);
      assert owners == owners[..n] + [owners[n]];
    }
  }

  lemma {:induction false} CountAllNothing<T>(cs: seq<T>)
    ensures CountAll([], cs) == 0
  {
    if cs != [] { CountAllNothing(cs[..|cs| - 1]); }
  }

  // ---------- the registry ----------

  ghost function Owners(users: seq<UserEntry>): (owners: seq<CategoryEntry?>)
    reads users
    ensures |owners| == |users| && forall i :: 0 <= i < |users| ==> owners[i] == users[i].categoryEntry
  {
    seq(|users|, i requires 0 <= i < |users| reads users => users[i].categoryEntry)
  }

  /** The index leads to users of the list under their own addresses. */
  ghost predicate IndexesUsers(b: Buckets<UserEntry>, users: seq<UserEntry>) {
    forall i :: i in b ==> b[i].val in users && b[i].key == StrKey(b[i].val.ipaddr)
  }

  ghost predicate IndexesCategories(b: Buckets<CategoryEntry>, cs: seq<CategoryEntry>) {
    forall i :: i in b ==> b[i].val in cs && b[i].key == StrKey(b[i].val.name)
  }

  lemma IndexNewCategory(b: Buckets<CategoryEntry>, cs: seq<CategoryEntry>, c: CategoryEntry, mask: Word)
    requires IndexesCategories(b, cs)
    ensures IndexesCategories(Inserted(b, StrKey(c.name), c, mask), cs + [c])
  {
    hide Index;
  }

  lemma IndexNewUser(b: Buckets<UserEntry>, users: seq<UserEntry>, u: UserEntry, mask: Word)
    requires IndexesUsers(b, users)
    ensures IndexesUsers(Inserted(b, StrKey(u.ipaddr), u, mask), users + [u])
  {
    hide Index;
  }

  lemma FoundInserted<V>(b: Buckets<V>, key: Key, val: V, mask: Word)
    ensures Found(Inserted(b, key, val, mask), key, mask) == Some(val)
  {
    hide Index;
  }

  class Registry {
    const uhash: Hash<UserEntry>
    const chash: Hash<CategoryEntry>
    var ulist: seq<UserEntry>
    var clist: seq<CategoryEntry>

    /** The lists hold no record twice; the indexes lead to records of the lists under their own keys. */
    ghost predicate Listed()
      reads this, uhash, uhash.slots, uhash.slots[..], chash, chash.slots, chash.slots[..]
    {
      && uhash.Valid() && chash.Valid()
      && Distinct(ulist) && Distinct(clist)
      && uhash.slots as object != chash.slots
      && IndexesUsers(uhash.Contents(), ulist) && IndexesCategories(chash.Contents(), clist)
    }

    /** Each category counts exactly the users whose entry it is. */
    ghost predicate Counted()
      reads this, ulist, clist
    {
      && (forall i :: 0 <= i < |ulist| ==> ulist[i].categoryEntry in clist)
      && (forall i :: 0 <= i < |clist| ==> clist[i].count == Count(Owners(ulist), clist[i]))
    }

    ghost predicate Valid()
      reads this, uhash, uhash.slots, uhash.slots[..], chash, chash.slots, chash.slots[..], ulist, clist
    {
      Listed() && Counted()
    }

    constructor ()
      ensures Valid() && ulist == [] && clist == []
      ensures uhash.Contents() == map[] && uhash.mask == 0xffff && chash.Contents() == map[] && chash.mask == 0xff
      ensures fresh(uhash) && fresh(uhash.slots) && fresh(chash) && fresh(chash.slots)
    {
      uhash := new Hash(USER_SLOTS);
      chash := new Hash(CATEGORY_SLOTS);
      ulist, clist := [], [];
    }

    /** No count is negative, and together they count every user once. */
    lemma Conservation()
      requires Valid()
      ensures forall i :: 0 <= i < |clist| ==> clist[i].count >= 0
      ensures CountAll(Owners(ulist), clist) == |ulist|
    {
      CountAllTotal(Owners(ulist), clist);
    }

    /** The category's entry, found through the index or newly made; an entry the index forgot is made anew. */
    method CategoryFor(category: string) returns (c: CategoryEntry)
      requires Valid()
      modifies this`clist, chash.slots
      ensures Valid()
      ensures c in clist && c.name == category
      ensures var known := old(Found(chash.Contents(), StrKey(category), chash.mask));
              if known.Some? then c == known.value && clist == old(clist) && chash.Contents() == old(chash.Contents())
              else fresh(c) && clist == old(clist) + [c] && chash.Contents() == Inserted(old(chash.Contents()), StrKey(category), c, chash.mask)
      ensures Found(chash.Contents(), StrKey(category), chash.mask) == Some(c)
      ensures uhash.Contents() == old(uhash.Contents())
    {
      hide Found, Inserted, IndexesCategories, IndexesUsers, Index, Count, Ring;
      var known := chash.Find(StrKey(category));
      if known.Some? {
        FoundCategory(chash.Contents(), clist, category, chash.mask);
        return known.value;
      }
      c := NewCategory(category);
    }

    method NewCategory(category: string) returns (c: CategoryEntry)
      requires Valid()
      modifies this`clist, chash.slots
      ensures Valid()
      ensures fresh(c) && c.name == category && clist == old(clist) + [c]
      ensures chash.Contents() == Inserted(old(chash.Contents()), StrKey(category), c, chash.mask)
      ensures Found(chash.Contents(), StrKey(category), chash.mask) == Some(c)
      ensures uhash.Contents() == old(uhash.Contents())
    {
      hide Found, Inserted, IndexesCategories, IndexesUsers, Index, Count, Ring;
      c := new CategoryEntry(category);
      InsertCategory(c);
      CountAbsent(Owners(ulist), c);
    }

    /** category_insert_entry: into the index, and at the end of the list. */
    method InsertCategory(c: CategoryEntry)
      requires Listed() && c !in clist
      modifies this`clist, chash.slots
      ensures Listed() && clist == old(clist) + [c]
      ensures chash.Contents() == Inserted(old(chash.Contents()), StrKey(c.name), c, chash.mask)
      ensures Found(chash.Contents(), StrKey(c.name), chash.mask) == Some(c)
      ensures uhash.Contents() == old(uhash.Contents())
    {
      hide Found, Inserted, IndexesCategories, IndexesUsers, Index;
      IndexNewCategory(chash.Contents(), clist, c, chash.mask);
      FoundInserted(chash.Contents(), StrKey(c.name), c, chash.mask);
      chash.Put(StrKey(c.name), c);
      clist := clist + [c];
    }

    /** A new user under category entry c. */
    method NewUser(ip: string, category: string, c: CategoryEntry) returns (u: UserEntry)
      requires Valid() && c in clist
      modifies this`ulist, c`count, uhash.slots
      ensures Valid()
      ensures fresh(u) && u.ipaddr == ip && u.category == category && u.categoryEntry == c
      ensures ulist == old(ulist) + [u] && Found(uhash.Contents(), StrKey(ip), uhash.mask) == Some(u)
      ensures uhash.Contents() == Inserted(old(uhash.Contents()), StrKey(ip), u, uhash.mask)
      ensures c.count == old(c.count) + 1
      ensures chash.Contents() == old(chash.Contents())
    {
      hide Found, Inserted, IndexesCategories, IndexesUsers, Count, Ring;
      ghost var owners := Owners(ulist);
      u := new UserEntry(ip, category);
      Join(u, c);
      AddEntry(u);
      assert Owners(ulist) == owners + [c];
      forall i | 0 <= i < |clist| ensures clist[i].count == Count(Owners(ulist), clist[i]) {
        CountAppend(owners, c, clist[i]);
      }
    }

    /** A user that is not listed yet, counted under c. */
    method Join(u: UserEntry, c: CategoryEntry)
      requires Listed()
      modifies u`categoryEntry, c`count
      ensures Listed() && uhash.Contents() == old(uhash.Contents()) && chash.Contents() == old(chash.Contents())
      ensures u.categoryEntry == c && c.count == old(c.count) + 1
    {
      hide IndexesCategories, IndexesUsers, Ring, Index, Distinct;
      u.categoryEntry := c;
      c.count := c.count + 1;
    }

    /** user_add_entry: into the index, and at the end of the list. */
    method AddEntry(u: UserEntry)
      requires Listed() && u !in ulist
      modifies this`ulist, uhash.slots
      ensures Listed() && ulist == old(ulist) + [u]
      ensures uhash.Contents() == Inserted(old(uhash.Contents()), StrKey(u.ipaddr), u, uhash.mask)
      ensures Found(uhash.Contents(), StrKey(u.ipaddr), uhash.mask) == Some(u)
      ensures chash.Contents() == old(chash.Contents())
    {
      hide Found, Inserted, IndexesCategories, IndexesUsers, Index;
      IndexNewUser(uhash.Contents(), ulist, u, uhash.mask);
      FoundInserted(uhash.Contents(), StrKey(u.ipaddr), u, uhash.mask);
      uhash.Put(StrKey(u.ipaddr), u);
      ulist := ulist + [u];
    }

    /** A known user from its category entry to c. */
    method MoveUser(u: UserEntry, c: CategoryEntry)
      requires Valid() && u in ulist && c in clist
      modifies u`categoryEntry, clist
      ensures Valid() && u.categoryEntry == c
      ensures uhash.Contents() == old(uhash.Contents()) && chash.Contents() == old(chash.Contents())
    {
      hide Found, Inserted, IndexesCategories, IndexesUsers, Index, Counted, Ring;
      Recount(u, c);
    }

    method Recount(u: UserEntry, c: CategoryEntry)
      requires Distinct(ulist) && Distinct(clist) && Counted() && u in ulist && c in clist
      modifies u`categoryEntry, clist
      ensures Counted() && u.categoryEntry == c
    {
      hide Count;
      ghost var owners := Owners(ulist);
      ghost var k :| 0 <= k < |ulist| && ulist[k] == u;
      var from := u.categoryEntry;
      from.count := from.count - 1;
      c.count := c.count + 1;
      u.categoryEntry := c;
      assert Owners(ulist) == owners[k := c];
      forall i | 0 <= i < |clist| ensures clist[i].count == Count(Owners(ulist), clist[i]) {
        CountUpdate(owners, k, c, clist[i]);
      }
    }

    /** on_entry_callback, without its calls into the user interface. */
    method OnEntry(ip: string, category: string) returns (c: CategoryEntry, u: UserEntry)
      requires Valid()
      modifies this`ulist, this`clist, ulist, clist, uhash.slots, chash.slots
      ensures Valid()
      ensures c in clist && c.name == category && u in ulist && u.ipaddr == ip
      ensures var known := old(Found(chash.Contents(), StrKey(category), chash.mask));
              if known.Some? then c == known.value && clist == old(clist) && chash.Contents() == old(chash.Contents())
              else fresh(c) && clist == old(clist) + [c] && chash.Contents() == Inserted(old(chash.Contents()), StrKey(category), c, chash.mask)
      ensures var known := old(Found(uhash.Contents(), StrKey(ip), uhash.mask));
              if known.Some? then u == known.value && ulist == old(ulist) && uhash.Contents() == old(uhash.Contents())
              else fresh(u) && u.category == category && u.categoryEntry == c && ulist == old(ulist) + [u]
                   && uhash.Contents() == Inserted(old(uhash.Contents()), StrKey(ip), u, uhash.mask)
      ensures u in old(ulist) ==>
                u.categoryEntry == if category != u.category then c else old(u.categoryEntry)
      ensures forall v :: v in old(ulist) && v != u ==> v.categoryEntry == old(v.categoryEntry)
      ensures u.categoryEntry in clist
      ensures Found(uhash.Contents(), StrKey(ip), uhash.mask) == Some(u)
    {
      hide Found, Inserted, Counted, IndexesCategories, IndexesUsers, Index, Distinct;
      c := CategoryFor(category);
      u := UserFor(ip, category, c);
      OwnerListed(u);
    }

    /** The user under category entry c: made, moved, or left where it is. */
    method UserFor(ip: string, category: string, c: CategoryEntry) returns (u: UserEntry)
      requires Valid() && c in clist
      modifies this`ulist, ulist, clist, uhash.slots
      ensures Valid()
      ensures u in ulist && u.ipaddr == ip && Found(uhash.Contents(), StrKey(ip), uhash.mask) == Some(u)
      ensures var known := old(Found(uhash.Contents(), StrKey(ip), uhash.mask));
              if known.Some? then u == known.value && ulist == old(ulist) && uhash.Contents() == old(uhash.Contents())
              else fresh(u) && u.category == category && u.categoryEntry == c && ulist == old(ulist) + [u]
                   && uhash.Contents() == Inserted(old(uhash.Contents()), StrKey(ip), u, uhash.mask)
      ensures u in old(ulist) ==> u.categoryEntry == if category != u.category then c else old(u.categoryEntry)
      ensures forall v :: v in old(ulist) && v != u ==> v.categoryEntry == old(v.categoryEntry)
      ensures chash.Contents() == old(chash.Contents())
    {
      hide Found, Inserted, Counted, IndexesCategories, IndexesUsers, Index, Ring, Distinct;
      var known := uhash.Find(StrKey(ip));
      if known.None? {
        u := NewUser(ip, category, c);
      } else {
        u := known.value;
        FoundUser(uhash.Contents(), ulist, ip, uhash.mask);
        if category != u.category {
          MoveUser(u, c);
        }
      }
    }

    lemma CountsRight()
      requires Valid()
      ensures forall c :: c in clist ==> c.count == Count(Owners(ulist), c)
    {}

    lemma OwnerListed(u: UserEntry)
      requires Valid() && u in ulist
      ensures u.categoryEntry in clist
    {}
  }

  /** What of an entry message matters here. */
  datatype EntryMessage = EntryMessage(ip: string, category: string)

  function Ips(messages: seq<EntryMessage>): (ips: seq<string>)
    ensures |ips| == |messages|
  {
    seq(|messages|, i requires 0 <= i < |messages| => messages[i].ip)
  }

  function Categories(messages: seq<EntryMessage>): (names: seq<string>)
    ensures |names| == |messages|
  {
    seq(|messages|, i requires 0 <= i < |messages| => messages[i].category)
  }

  ghost function IpsOf(users: seq<UserEntry>): (ips: seq<string>)
    ensures |ips| == |users|
  {
    seq<string>(|users|, i requires 0 <= i < |users| => users[i].ipaddr)
  }

  ghost function NamesOf(cs: seq<CategoryEntry>): (names: seq<string>)
    ensures |names| == |cs|
  {
    seq<string>(|cs|, i requires 0 <= i < |cs| => cs[i].name)
  }

  /** The lists and the contents of the indexes are what these messages make of them. */
  ghost predicate Made(users: seq<UserEntry>, ub: Buckets<UserEntry>, cs: seq<CategoryEntry>, cb: Buckets<CategoryEntry>,
                       messages: seq<EntryMessage>)
  {
    && IpsOf(users) == ListedNames(Ips(messages), USER_SLOTS) && NamesOf(cs) == ListedNames(Categories(messages), CATEGORY_SLOTS)
    && Agrees(ub, Ips(messages), USER_SLOTS) && Agrees(cb, Categories(messages), CATEGORY_SLOTS)
  }

  ghost predicate Reflects(r: Registry, messages: seq<EntryMessage>)
    requires r.Listed()
    reads r, r.uhash, r.uhash.slots, r.uhash.slots[..], r.chash, r.chash.slots, r.chash.slots[..]
  {
    && r.uhash.mask == USER_SLOTS && r.chash.mask == CATEGORY_SLOTS
    && Made(r.ulist, r.uhash.Contents(), r.clist, r.chash.Contents(), messages)
  }

  lemma UsersReflect(b: Buckets<UserEntry>, users: seq<UserEntry>, ips: seq<string>, ip: string, u: UserEntry, mask: Word)
    requires Agrees(b, ips, mask) && IpsOf(users) == ListedNames(ips, mask) && u.ipaddr == ip
    ensures var known := Found(b, StrKey(ip), mask).Some?;
            && Agrees(if known then b else Inserted(b, StrKey(ip), u, mask), ips + [ip], mask)
            && IpsOf(if known then users else users + [u]) == ListedNames(ips + [ip], mask)
  {
    hide Found, Inserted, Remembered, ListedNames, Index;
    ListedMore(ips, ip, mask);
    if Found(b, StrKey(ip), mask).Some? {
      AgreesFound(b, ips, ip, mask);
    } else {
      AgreesInserted(b, ips, ip, u, mask);
      assert IpsOf(users + [u]) == IpsOf(users) + [ip];
    }
  }

  lemma CategoriesReflect(b: Buckets<CategoryEntry>, cs: seq<CategoryEntry>, names: seq<string>, name: string, c: CategoryEntry, mask: Word)
    requires Agrees(b, names, mask) && NamesOf(cs) == ListedNames(names, mask) && c.name == name
    ensures var known := Found(b, StrKey(name), mask).Some?;
            && Agrees(if known then b else Inserted(b, StrKey(name), c, mask), names + [name], mask)
            && NamesOf(if known then cs else cs + [c]) == ListedNames(names + [name], mask)
  {
    hide Found, Inserted, Remembered, ListedNames, Index;
    ListedMore(names, name, mask);
    if Found(b, StrKey(name), mask).Some? {
      AgreesFound(b, names, name, mask);
    } else {
      AgreesInserted(b, names, name, c, mask);
      assert NamesOf(cs + [c]) == NamesOf(cs) + [name];
    }
  }

  lemma MoreMade(users: seq<UserEntry>, ub: Buckets<UserEntry>, cs: seq<CategoryEntry>, cb: Buckets<CategoryEntry>,
                 before: seq<EntryMessage>, m: EntryMessage, u: UserEntry, c: CategoryEntry)
    requires Made(users, ub, cs, cb, before) && u.ipaddr == m.ip && c.name == m.category
    ensures var user := Found(ub, StrKey(m.ip), USER_SLOTS).Some?;
            var category := Found(cb, StrKey(m.category), CATEGORY_SLOTS).Some?;
            Made(if user then users else users + [u], if user then ub else Inserted(ub, StrKey(m.ip), u, USER_SLOTS),
                 if category then cs else cs + [c], if category then cb else Inserted(cb, StrKey(m.category), c, CATEGORY_SLOTS),
                 before + [m])
  {
    hide Found, Inserted, Agrees, ListedNames;
    UsersReflect(ub, users, Ips(before), m.ip, u, USER_SLOTS);
    CategoriesReflect(cb, cs, Categories(before), m.category, c, CATEGORY_SLOTS);
    assert Ips(before + [m]) == Ips(before) + [m.ip] && Categories(before + [m]) == Categories(before) + [m.category];
  }

  /** One turn of the handling loop. */
  method HandleOne(r: Registry, ghost before: seq<EntryMessage>, m: EntryMessage)
    requires r.Valid() && Reflects(r, before)
    modifies r`ulist, r`clist, r.ulist, r.clist, r.uhash.slots, r.chash.slots
    ensures r.Valid() && Reflects(r, before + [m])
    ensures old(r.ulist) <= r.ulist && forall k :: |old(r.ulist)| <= k < |r.ulist| ==> fresh(r.ulist[k])
    ensures old(r.clist) <= r.clist && forall k :: |old(r.clist)| <= k < |r.clist| ==> fresh(r.clist[k])
  {
    hide Found, Inserted, Made, IndexesUsers, IndexesCategories, Registry.Counted, Distinct;
    ghost var users, cs, ub, cb := r.ulist, r.clist, r.uhash.Contents(), r.chash.Contents();
    var c, u := r.OnEntry(m.ip, m.category);
    MoreMade(users, ub, cs, cb, before, m, u, c);
  }

  /**
   * The handling loop, from an empty registry, over any sequence of entry messages. An address or category is
   * listed once it came, and a second time exactly when another of its bucket came in between.
   */
  method HandleMessages(messages: seq<EntryMessage>) returns (r: Registry)
    ensures fresh(r) && r.Valid() && Reflects(r, messages)
    ensures forall c :: c in r.clist ==> c.count == Count(Owners(r.ulist), c) >= 0
    ensures CountAll(Owners(r.ulist), r.clist) == |r.ulist| <= |messages|
    ensures forall ip :: Count(IpsOf(r.ulist), ip) >= 1 <==> ip in Ips(messages)
    ensures forall ip :: Count(IpsOf(r.ulist), ip) >= 2 <==> Interrupted(Ips(messages), ip, 0xffff)
    ensures forall name :: Count(NamesOf(r.clist), name) >= 1 <==> name in Categories(messages)
    ensures forall name :: Count(NamesOf(r.clist), name) >= 2 <==> Interrupted(Categories(messages), name, 0xff)
  {
    hide Found, Registry.Counted, Registry.Listed, Count, CountAll, Reflects, Interrupted;
    r := new Registry();
    StartReflects(r);
    for i := 0 to |messages|
      invariant fresh(r) && fresh(r.uhash) && fresh(r.chash) && fresh(r.uhash.slots) && fresh(r.chash.slots)
      invariant r.Valid() && Reflects(r, messages[..i])
      invariant forall k :: 0 <= k < |r.ulist| ==> fresh(r.ulist[k])
      invariant forall k :: 0 <= k < |r.clist| ==> fresh(r.clist[k])
    {
      HandleOne(r, messages[..i], messages[i]);
      assert messages[..i + 1] == messages[..i] + [messages[i]];
    }
    assert messages[..|messages|] == messages;
    r.Conservation();
    r.CountsRight();
    WhatIsListed(r, messages);
  }

  lemma WhatIsListed(r: Registry, messages: seq<EntryMessage>)
    requires r.Listed() && Reflects(r, messages)
    ensures |r.ulist| <= |messages|
    ensures forall ip :: Count(IpsOf(r.ulist), ip) >= 1 <==> ip in Ips(messages)
    ensures forall ip :: Count(IpsOf(r.ulist), ip) >= 2 <==> Interrupted(Ips(messages), ip, USER_SLOTS)
    ensures forall name :: Count(NamesOf(r.clist), name) >= 1 <==> name in Categories(messages)
    ensures forall name :: Count(NamesOf(r.clist), name) >= 2 <==> Interrupted(Categories(messages), name, CATEGORY_SLOTS)
  {
    hide Count, Agrees, ListedNames, Interrupted, Ips, Categories, IpsOf, NamesOf;
    forall name
      ensures Count(IpsOf(r.ulist), name) >= 1 <==> name in Ips(messages)
      ensures Count(IpsOf(r.ulist), name) >= 2 <==> Interrupted(Ips(messages), name, USER_SLOTS)
      ensures Count(NamesOf(r.clist), name) >= 1 <==> name in Categories(messages)
      ensures Count(NamesOf(r.clist), name) >= 2 <==> Interrupted(Categories(messages), name, CATEGORY_SLOTS)
    {
      ListedTwice(Ips(messages), name, USER_SLOTS);
      ListedTwice(Categories(messages), name, CATEGORY_SLOTS);
    }
  }

  lemma StartReflects(r: Registry)
    requires r.Listed() && r.ulist == [] && r.clist == [] && r.uhash.Contents() == map[] && r.chash.Contents() == map[]
    requires r.uhash.mask == USER_SLOTS && r.chash.mask == CATEGORY_SLOTS
    ensures Reflects(r, [])
  {
    hide Agrees, Index;
    AgreesNothing<UserEntry>(USER_SLOTS);
    AgreesNothing<CategoryEntry>(CATEGORY_SLOTS);
  }

  /**
   * A known user is shown under the category of its latest message exactly when that category differs
   * from the one of its first message, or it was shown there already.
   */
  method EntryOfKnownUser(r: Registry, known: UserEntry, category: string) returns (u: UserEntry)
    requires r.Valid() && Found(r.uhash.Contents(), StrKey(known.ipaddr), r.uhash.mask) == Some(known)
    modifies r`ulist, r`clist, r.ulist, r.clist, r.uhash.slots, r.chash.slots
    ensures r.Valid() && u == known && known.categoryEntry != null
    ensures old(known in r.ulist && known.categoryEntry != null)
    ensures known.categoryEntry.name == category <==> category != known.category || old(known.categoryEntry.name) == category
    ensures category == known.category ==> known.categoryEntry == old(known.categoryEntry)
    ensures Found(r.uhash.Contents(), StrKey(known.ipaddr), r.uhash.mask) == Some(known)
    ensures r.ulist == old(r.ulist)
    ensures old(r.clist) <= r.clist && forall i :: |old(r.clist)| <= i < |r.clist| ==> fresh(r.clist[i])
  {
    hide Found, Inserted, IndexesUsers, IndexesCategories, Count, Distinct, Ring;
    FoundUser(r.uhash.Contents(), r.ulist, known.ipaddr, r.uhash.mask);
    var c;
    c, u := r.OnEntry(known.ipaddr, category);
  }

  /** So a user who goes from its first category to another and back is still shown under the other. */
  method BackAndStillAway(r: Registry, known: UserEntry, away: string)
    requires r.Valid() && Found(r.uhash.Contents(), StrKey(known.ipaddr), r.uhash.mask) == Some(known)
    requires away != known.category
    modifies r`ulist, r`clist, r.ulist, r.clist, r.uhash.slots, r.chash.slots
    ensures r.Valid() && known.categoryEntry != null && known.categoryEntry.name == away
  {
    hide Found, Registry.Counted, IndexesUsers, IndexesCategories;
    var u := EntryOfKnownUser(r, known, away);
    forall o: object | o in r.clist ensures o in old(r.clist) || fresh(o) {
      var i :| 0 <= i < |r.clist| && r.clist[i] == o;
      if i < |old(r.clist)| { assert o == old(r.clist)[i]; }
    }
    u := EntryOfKnownUser(r, known, known.category);
  }

  lemma FoundUser(b: Buckets<UserEntry>, users: seq<UserEntry>, ip: string, mask: Word)
    requires IndexesUsers(b, users) && Found(b, StrKey(ip), mask).Some?
    ensures var u := Found(b, StrKey(ip), mask).value; u in users && u.ipaddr == ip
  {
    hide Index;
  }

  lemma FoundCategory(b: Buckets<CategoryEntry>, cs: seq<CategoryEntry>, category: string, mask: Word)
    requires IndexesCategories(b, cs) && Found(b, StrKey(category), mask).Some?
    ensures var c := Found(b, StrKey(category), mask).value; c in cs && c.name == category
  {
    hide Index;
  }
}
