/**
 * Which names end up in a list that an index guards: a name is appended when the index does not find it,
 * and the index remembers only the latest name of each bucket.
 */
module Listing {
  import opened Collections
  import opened Words
  import opened HashTable

  function Bucket(name: string, mask: Word): nat { Index(StrKey(name), mask) }

  /** The latest name in a bucket. */
  function Latest(names: seq<string>, b: nat, mask: Word): Option<string> {
    if names == [] then None else
      var name := names[|names| - 1];
      if Bucket(name, mask) == b then Some(name) else Latest(names[..|names| - 1], b, mask)
  }

  /** The index would find the name. */
  predicate Remembered(names: seq<string>, name: string, mask: Word) {
    Latest(names, Bucket(name, mask), mask) == Some(name)
  }

  /** The list after these names have come in. */
  function ListedNames(names: seq<string>, mask: Word): (list: seq<string>)
    ensures |list| <= |names|
  {
    if names == [] then [] else
      var before, name := names[..|names| - 1], names[|names| - 1];
      if Remembered(before, name, mask) then ListedNames(before, mask) else ListedNames(before, mask) + [name]
  }

  function Count<T(==)>(s: seq<T>, c: T): nat {
    if s == [] then 0 else Count(s[..|s| - 1], c) + (if s[|s| - 1] == c then 1 else 0)
  }

  lemma CountAppend<T>(s: seq<T>, d: T, c: T)
    ensures Count(s + [d], c) == Count(s, c) + (if d == c then 1 else 0)
  {
    assert (s + [d])[..|s|] == s;
  }

  /** The name came, then another of its bucket, then the name again. */
  ghost predicate Interrupted(names: seq<string>, name: string, mask: Word) {
    exists i, j, k :: Interruption(names, name, mask, i, j, k)
  }

  ghost predicate Interruption(names: seq<string>, name: string, mask: Word, i: nat, j: nat, k: nat) {
    && i < j < k < |names| && names[i] == name == names[k]
    && names[j] != name && Bucket(names[j], mask) == Bucket(name, mask)
  }

  /** Where the latest name of a bucket came. */
  lemma {:induction false} LatestAt(names: seq<string>, b: nat, mask: Word) returns (l: nat)
    requires exists i :: 0 <= i < |names| && Bucket(names[i], mask) == b
    ensures l < |names| && Bucket(names[l], mask) == b && Latest(names, b, mask) == Some(names[l])
    ensures forall i :: l < i < |names| ==> Bucket(names[i], mask) != b
  {
    hide Bucket;
    var n := |names| - 1;
    if Bucket(names[n], mask) == b {
      l := n;
    } else {
      var i :| 0 <= i < |names| && Bucket(names[i], mask) == b;
      assert names[..n][i] == names[i];
      l := LatestAt(names[..n], b, mask);
    }
  }

  lemma {:induction false} LatestNone(names: seq<string>, b: nat, mask: Word)
    requires Latest(names, b, mask).Some?
    ensures exists i :: 0 <= i < |names| && Bucket(names[i], mask) == b && Latest(names, b, mask) == Some(names[i])
  {
    hide Bucket;
    var n := |names| - 1;
    if Bucket(names[n], mask) != b {
      LatestNone(names[..n], b, mask);
      var i :| 0 <= i < |names[..n]| && Bucket(names[..n][i], mask) == b && Latest(names[..n], b, mask) == Some(names[..n][i]);
      assert names[i] == names[..n][i];
    }
  }

  /** An interruption of a shorter sequence is one of the longer. */
  lemma InterruptedLater(names: seq<string>, more: string, name: string, mask: Word)
    requires Interrupted(names, name, mask)
    ensures Interrupted(names + [more], name, mask)
  {
    hide Bucket;
    var i: nat, j: nat, k: nat :| Interruption(names, name, mask, i, j, k);
    assert Interruption(names + [more], name, mask, i, j, k);
  }

  /** A name that comes again is forgotten exactly when another of its bucket came since. */
  lemma ComesAgain(names: seq<string>, name: string, mask: Word)
    requires name in names
    ensures !Remembered(names, name, mask) ==> Interrupted(names + [name], name, mask)
    ensures Remembered(names, name, mask) && Interrupted(names + [name], name, mask) ==> Interrupted(names, name, mask)
  {
    hide Bucket;
    var b := Bucket(name, mask);
    var i :| 0 <= i < |names| && names[i] == name;
    var l := LatestAt(names, b, mask);
    if names[l] != name {
      assert i < l;
      assert Interruption(names + [name], name, mask, i, l, |names|);
    } else if Interrupted(names + [name], name, mask) {
      var i': nat, j': nat, k': nat :| Interruption(names + [name], name, mask, i', j', k');
      assert (names + [name])[i'] == names[i'] && (names + [name])[j'] == names[j'];
      if k' < |names| {
        assert (names + [name])[k'] == names[k'];
        assert Interruption(names, name, mask, i', j', k');
      } else {
        assert Interruption(names, name, mask, i', j', l);
      }
    }
  }

  /** Another name changes nothing, and a name that comes first is never forgotten. */
  lemma OtherComes(names: seq<string>, more: string, name: string, mask: Word)
    requires more != name || name !in names
    ensures Interrupted(names + [more], name, mask) ==> Interrupted(names, name, mask)
  {
    hide Bucket;
    if Interrupted(names + [more], name, mask) {
      var i: nat, j: nat, k: nat :| Interruption(names + [more], name, mask, i, j, k);
      assert (names + [more])[i] == names[i] && (names + [more])[j] == names[j];
      assert k < |names|;
      assert (names + [more])[k] == names[k];
      assert Interruption(names, name, mask, i, j, k);
    }
  }

  /** A name is listed if it came, and more than once exactly when it was interrupted. */
  lemma {:induction false} ListedTwice(names: seq<string>, name: string, mask: Word)
    ensures Count(ListedNames(names, mask), name) >= 1 <==> name in names
    ensures Count(ListedNames(names, mask), name) >= 2 <==> Interrupted(names, name, mask)
  {
    hide Remembered, Interrupted;
    if names == [] {
      NothingInterrupted(name, mask);
    } else {
      var before, more := names[..|names| - 1], names[|names| - 1];
      assert names == before + [more];
      ListedTwice(before, name, mask);
      CountAppend(ListedNames(before, mask), more, name);
      if Interrupted(before, name, mask) { InterruptedLater(before, more, name, mask); }
      if more != name || name !in before {
        OtherComes(before, more, name, mask);
        if more == name { FirstComes(before, name, mask); NotInterrupted(before, name, mask); }
      } else {
        ComesAgain(before, name, mask);
      }
    }
  }

  lemma NothingInterrupted(name: string, mask: Word)
    ensures !Interrupted([], name, mask)
  {}

  lemma NotInterrupted(names: seq<string>, name: string, mask: Word)
    requires name !in names
    ensures !Interrupted(names, name, mask)
  {
    hide Bucket;
  }

  lemma FirstComes(names: seq<string>, name: string, mask: Word)
    requires name !in names
    ensures !Remembered(names, name, mask)
  {
    hide Bucket;
    if Remembered(names, name, mask) { LatestNone(names, Bucket(name, mask), mask); }
  }

  /** The index agrees with what came: it finds exactly the remembered names. */
  ghost predicate Agrees<V>(b: Buckets<V>, names: seq<string>, mask: Word) {
    forall name :: Found(b, StrKey(name), mask).Some? <==> Remembered(names, name, mask)
  }

  lemma AgreesNothing<V>(mask: Word)
    ensures Agrees<V>(map[], [], mask)
  {
    hide Index;
  }

  /** Inserting the name that came last. */
  lemma AgreesInserted<V>(b: Buckets<V>, names: seq<string>, name: string, val: V, mask: Word)
    requires Agrees(b, names, mask)
    ensures Agrees(Inserted(b, StrKey(name), val, mask), names + [name], mask)
  {
    hide Index;
    forall other ensures Found(Inserted(b, StrKey(name), val, mask), StrKey(other), mask).Some? <==> Remembered(names + [name], other, mask) {
      assert (names + [name])[..|names|] == names;
      assert Found(b, StrKey(other), mask).Some? <==> Remembered(names, other, mask);
    }
  }

  /** The name that came last was found: nothing changes. */
  lemma AgreesFound<V>(b: Buckets<V>, names: seq<string>, name: string, mask: Word)
    requires Agrees(b, names, mask) && Found(b, StrKey(name), mask).Some?
    ensures Agrees(b, names + [name], mask)
  {
    hide Index;
    forall other ensures Found(b, StrKey(other), mask).Some? <==> Remembered(names + [name], other, mask) {
      assert (names + [name])[..|names|] == names;
      assert Found(b, StrKey(other), mask).Some? <==> Remembered(names, other, mask);
      assert Remembered(names, name, mask);
    }
  }

  lemma ListedMore(names: seq<string>, name: string, mask: Word)
    ensures ListedNames(names + [name], mask) ==
            if Remembered(names, name, mask) then ListedNames(names, mask) else ListedNames(names, mask) + [name]
  {
    hide Remembered;
    assert (names + [name])[..|names|] == names;
  }
}
