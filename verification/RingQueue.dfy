/** The ring queue as one thread sees it. */
module RingQueue {
  import opened Arithmetic

  /** The items from head up to tail, around the end of the ring. */
  function Ring<T>(entry: seq<T>, head: nat, tail: nat): (items: seq<T>)
    requires head < |entry| && tail < |entry|
    ensures |items| == if head <= tail then tail - head else tail + |entry| - head
  {
    if head <= tail then entry[head..tail] else entry[head..] + entry[..tail]
  }

  /** The index after i. */
  function Next(i: nat, size: nat): (j: nat)
    requires i < size
    ensures j == if i + 1 < size then i + 1 else 0
  {
    NextWraps(i, size);
    (i + 1) % size
  }

  lemma NextWraps(i: nat, size: nat)
    requires i < size
    ensures (i + 1) % size == if i + 1 < size then i + 1 else 0
  {
    if i + 1 < size { SmallModulus(i + 1, size); } else { DivisionUnique(size, size, 1, 0); }
  }

  lemma NextIs(i: nat, size: nat)
    requires i < size
    ensures Next(i, size) == (i + 1) % size
  {}

  lemma RingEmpty<T>(entry: seq<T>, head: nat, tail: nat)
    requires head < |entry| && tail < |entry|
    ensures Ring(entry, head, tail) == [] <==> head == tail
  {}

  lemma RingPush<T>(entry: seq<T>, head: nat, tail: nat, data: T)
    requires head < |entry| && tail < |entry|
    ensures Next(tail, |entry|) == head <==> |Ring(entry, head, tail)| == |entry| - 1
    ensures Next(tail, |entry|) != head ==>
              Ring(entry[tail := data], head, Next(tail, |entry|)) == Ring(entry, head, tail) + [data]
  {}

  lemma RingPop<T>(entry: seq<T>, head: nat, tail: nat)
    requires head < |entry| && tail < |entry| && head != tail
    ensures Ring(entry, head, tail)[0] == entry[head]
    ensures Ring(entry, Next(head, |entry|), tail) == Ring(entry, head, tail)[1..]
  {}

  class Queue<T(0)> {
    const entry: array<T>
    const size: nat
    var head: nat
    var tail: nat

    ghost predicate Valid()
      reads this
    {
      0 < size == entry.Length && head < size && tail < size
    }

    ghost function Contents(): (items: seq<T>)
      requires Valid()
      reads this, entry
      ensures |items| < size
    {
      Ring(entry[..], head, tail)
    }

    /** create_queue */
    constructor (size: nat)
      requires size > 0
      ensures Valid() && fresh(entry) && this.size == size && Contents() == []
    {
      entry := new T[size];
      this.size, head, tail := size, 0, 0;
    }

    method Push(data: T) returns (r: int)
      requires Valid()
      modifies `tail, entry
      ensures Valid()
      ensures r == if |old(Contents())| == size - 1 then -1 else 0
      ensures Contents() == if r == 0 then old(Contents()) + [data] else old(Contents())
    {
      hide Ring, Next;
      RingPush(entry[..], head, tail, data);
      NextWraps(tail, size);
      if (tail + 1) % size == head {
        return -1;
      }
      ghost var before := entry[..];
      entry[tail] := data;
      assert entry[..] == before[tail := data];
      tail := (tail + 1) % size;
      return 0;
    }

    method Pop() returns (r: int, data: T)
      requires Valid()
      modifies `head
      ensures Valid()
      ensures r == if old(Contents()) == [] then -1 else 0
      ensures r == 0 ==> data == old(Contents())[0]
      ensures Contents() == if r == 0 then old(Contents())[1..] else []
    {
      hide Ring, Next;
      NextWraps(head, size);
      RingEmpty(entry[..], head, tail);
      if head == tail {
        data := *;
        return -1, data;
      }
      RingPop(entry[..], head, tail);
      data := entry[head];
      head := (head + 1) % size;
      return 0, data;
    }
  }
}
