/**
 * The same ring queue without a lock: one thread runs queue_push, another queue_pop, and each read or
 * write of head, tail or a slot is a step of its own. Memory is sequentially consistent.
 */
module Spsc {
  import opened Arithmetic
  import opened Collections
  import RingQueue

  /** Where the pushing thread is; `seen` records how many items had been popped when it read head. */
  datatype Producer<T> =
    | ProducerIdle
    | Testing(data: T, t: Option<nat>, h: Option<nat>, seen: nat)  // (tail + 1) % size == head
    | Filling(data: T)                                             // about to read tail for the slot
    | Storing(data: T, slot: nat)                                  // about to write entry[slot]
    | Bumping(data: T)                                             // about to read tail again
    | Publishing(data: T, slot: nat)                               // about to write slot + 1 to tail

  /** Where the popping thread is; `seen` records how many items had been accepted when it read tail. */
  datatype Consumer<T> =
    | ConsumerIdle
    | Comparing(h: Option<nat>, t: Option<nat>, seen: nat)  // head == tail
    | Fetching                                              // about to read head for the slot
    | Loading(slot: nat)                                    // about to read entry[slot]
    | Advancing(data: T)                                    // about to read head again
    | Releasing(data: T, slot: nat)                         // about to write slot + 1 to head

  /** A finished push, and whether it found room. */
  datatype Offer<T> = Offer(data: T, accepted: bool)

  datatype State<T> = State(entry: seq<T>, head: nat, tail: nat, producer: Producer<T>, consumer: Consumer<T>,
                            offers: seq<Offer<T>>, popped: seq<T>)

  /** Which thread moves; what it pushes next; in which order it makes the two reads of its test. */
  datatype Action<T> = Produce(data: T, tailFirst: bool) | Consume(headFirst: bool)

  function Accepted<T>(offers: seq<Offer<T>>): (items: seq<T>) {
    if offers == [] then [] else
      var last := offers[|offers| - 1];
      Accepted(offers[..|offers| - 1]) + (if last.accepted then [last.data] else [])
  }

  function Pushed<T>(s: State<T>): seq<T> { Accepted(s.offers) }

  function ProducerStep<T>(s: State<T>, data: T, tailFirst: bool): State<T>
    requires |s.entry| > 0
  {
    match s.producer
    case ProducerIdle => s.(producer := Testing(data, None, None, 0))
    case Testing(d, t, h, seen) =>
      if t.None? && (tailFirst || h.Some?) then s.(producer := Testing(d, Some(s.tail), h, seen))
      else if h.None? then s.(producer := Testing(d, t, Some(s.head), |s.popped|))
      else if (t.value + 1) % |s.entry| == h.value then s.(producer := ProducerIdle, offers := s.offers + [Offer(d, false)])
      else s.(producer := Filling(d))
    case Filling(d) => s.(producer := Storing(d, s.tail))
    case Storing(d, t) => if t < |s.entry| then s.(entry := s.entry[t := d], producer := Bumping(d)) else s
    case Bumping(d) => s.(producer := Publishing(d, s.tail))
    case Publishing(d, t) =>
      s.(tail := (t + 1) % |s.entry|, producer := ProducerIdle, offers := s.offers + [Offer(d, true)])
  }

  function ConsumerStep<T>(s: State<T>, headFirst: bool): State<T>
    requires |s.entry| > 0
  {
    match s.consumer
    case ConsumerIdle => s.(consumer := Comparing(None, None, 0))
    case Comparing(h, t, seen) =>
      if h.None? && (headFirst || t.Some?) then s.(consumer := Comparing(Some(s.head), t, seen))
      else if t.None? then s.(consumer := Comparing(h, Some(s.tail), |Pushed(s)|))
      else if h.value == t.value then s.(consumer := ConsumerIdle)
      else s.(consumer := Fetching)
    case Fetching => s.(consumer := Loading(s.head))
    case Loading(h) => if h < |s.entry| then s.(consumer := Advancing(s.entry[h])) else s
    case Advancing(d) => s.(consumer := Releasing(d, s.head))
    case Releasing(d, h) => s.(head := (h + 1) % |s.entry|, consumer := ConsumerIdle, popped := s.popped + [d])
  }

  function Step<T>(s: State<T>, a: Action<T>): (s': State<T>)
    requires |s.entry| > 0
    ensures |s'.entry| == |s.entry|
  {
    match a
    case Produce(data, tailFirst) => ProducerStep(s, data, tailFirst)
    case Consume(headFirst) => ConsumerStep(s, headFirst)
  }

  /** Any interleaving of the two threads, from an empty queue over slots of any content. */
  function Run<T>(slots: seq<T>, actions: seq<Action<T>>): (s: State<T>)
    requires |slots| > 0
    ensures |s.entry| == |slots|
  {
    if actions == [] then State(slots, 0, 0, ProducerIdle, ConsumerIdle, [], [])
    else Step(Run(slots, actions[..|actions| - 1]), actions[|actions| - 1])
  }

  // ---------- the invariant ----------

  ghost predicate Positions<T>(s: State<T>) {
    var n, a, p := |s.entry|, |Pushed(s)|, |s.popped|;
    && n > 0 && p <= a <= p + n - 1
    && s.head == p % n && s.tail == a % n
  }

  ghost predicate Contents<T>(s: State<T>) {
    && |s.entry| > 0 && |s.popped| <= |Pushed(s)|
    && s.popped == Pushed(s)[..|s.popped|]
    && forall i :: |s.popped| <= i < |Pushed(s)| ==> s.entry[i % |s.entry|] == Pushed(s)[i]
  }

  ghost predicate ProducerKnows<T>(s: State<T>) {
    var n, a, p := |s.entry|, |Pushed(s)|, |s.popped|;
    n > 0 && s.tail < n &&
    match s.producer
    case ProducerIdle => true
    case Testing(_, t, h, seen) =>
      && (t.Some? ==> t.value == s.tail)
      && (h.Some? ==> seen <= p && a <= seen + n - 1 && h.value == seen % n)
    case Filling(_) => a < p + n - 1
    case Storing(_, t) => a < p + n - 1 && t == s.tail
    case Bumping(d) => a < p + n - 1 && s.entry[s.tail] == d
    case Publishing(d, t) => a < p + n - 1 && s.entry[s.tail] == d && t == s.tail
  }

  ghost predicate ConsumerKnows<T>(s: State<T>) {
    var n, a, p := |s.entry|, |Pushed(s)|, |s.popped|;
    n > 0 &&
    match s.consumer
    case ConsumerIdle => true
    case Comparing(h, t, seen) =>
      && (h.Some? ==> h.value == s.head)
      && (t.Some? ==> p <= seen <= a && t.value == seen % n)
    case Fetching => p < a
    case Loading(h) => p < a && h == s.head
    case Advancing(d) => p < a && d == Pushed(s)[p]
    case Releasing(d, h) => p < a && d == Pushed(s)[p] && h == s.head
  }

  ghost predicate Inv<T>(s: State<T>) {
    Positions(s) && Contents(s) && ProducerKnows(s) && ConsumerKnows(s)
  }

  lemma AcceptedSnoc<T>(offers: seq<Offer<T>>, o: Offer<T>)
    ensures Accepted(offers + [o]) == Accepted(offers) + (if o.accepted then [o.data] else [])
  {
    assert (offers + [o])[..|offers|] == offers;
  }

  /** The test sees a full ring exactly when all but one slot were taken at the time head was read. */
  lemma FullTest(a: nat, seen: nat, n: nat)
    requires n > 0 && seen <= a <= seen + n - 1
    ensures (a % n + 1) % n == seen % n <==> a == seen + n - 1
  {
    NextRemainder(a, n);
    if a == seen + n - 1 {
      SubtractModulus(seen + n, n);
    } else if (a + 1) % n == seen % n {
      SameRemainder(seen, a + 1, n);
    }
  }

  lemma EmptyTest(p: nat, seen: nat, n: nat)
    requires n > 0 && p <= seen <= p + n - 1
    ensures p % n == seen % n <==> p == seen
  {
    if p % n == seen % n { SameRemainder(p, seen, n); }
  }

  lemma ProducerStepInv<T>(s: State<T>, data: T, tailFirst: bool)
    requires Inv(s)
    ensures Inv(ProducerStep(s, data, tailFirst))
  {
    match s.producer
    case Testing(d, t, h, seen) => TestInv(s, data, tailFirst);
    case Storing(d, t) => StoreInv(s, data, tailFirst);
    case Publishing(d, t) => PublishInv(s, data, tailFirst);
    case _ =>
  }

  /** The slot at tail holds no item that is still to be popped, nor the one being popped. */
  lemma TailSlotFree<T>(s: State<T>)
    requires Positions(s) && |Pushed(s)| < |s.popped| + |s.entry| - 1
    ensures s.tail < |s.entry|
    ensures forall i :: |s.popped| <= i < |Pushed(s)| ==> i % |s.entry| != s.tail
  {
    var n, a, p := |s.entry|, |Pushed(s)|, |s.popped|;
    forall i | p <= i < a ensures i % n != s.tail { if i % n == a % n { SameRemainder(i, a, n); } }
  }

  lemma TestInv<T>(s: State<T>, data: T, tailFirst: bool)
    requires Inv(s) && s.producer.Testing?
    ensures Inv(ProducerStep(s, data, tailFirst))
  {
    if s.producer.t.Some? && s.producer.h.Some? {
      TestDone(s, data, tailFirst);
    }
  }

  lemma TestDone<T>(s: State<T>, data: T, tailFirst: bool)
    requires Inv(s) && s.producer.Testing? && s.producer.t.Some? && s.producer.h.Some?
    ensures Inv(ProducerStep(s, data, tailFirst))
  {
    hide Accepted;
    FullTest(|Pushed(s)|, s.producer.seen, |s.entry|);
    AcceptedSnoc(s.offers, Offer(s.producer.data, false));
  }

  lemma StoreInv<T>(s: State<T>, data: T, tailFirst: bool)
    requires Inv(s) && s.producer.Storing?
    ensures Inv(ProducerStep(s, data, tailFirst))
  {
    TailSlotFree(s);
    var s' := ProducerStep(s, data, tailFirst);
    assert s'.entry == s.entry[s.tail := s.producer.data] && s'.offers == s.offers;
    assert Contents(s');
  }

  lemma PublishInv<T>(s: State<T>, data: T, tailFirst: bool)
    requires Inv(s) && s.producer.Publishing?
    ensures Inv(ProducerStep(s, data, tailFirst))
  {
    hide Accepted;
    AcceptedSnoc(s.offers, Offer(s.producer.data, true));
    NextRemainder(|Pushed(s)|, |s.entry|);
    assert Contents(ProducerStep(s, data, tailFirst));
  }

  lemma ConsumerStepInv<T>(s: State<T>, headFirst: bool)
    requires Inv(s)
    ensures Inv(ConsumerStep(s, headFirst))
  {
    match s.consumer
    case Comparing(h, t, seen) => CompareInv(s, headFirst);
    case Releasing(d, h) => ReleaseInv(s, headFirst);
    case _ =>
  }

  lemma CompareInv<T>(s: State<T>, headFirst: bool)
    requires Inv(s) && s.consumer.Comparing?
    ensures Inv(ConsumerStep(s, headFirst))
  {
    if s.consumer.h.Some? && s.consumer.t.Some? {
      EmptyTest(|s.popped|, s.consumer.seen, |s.entry|);
    }
  }

  lemma ReleaseInv<T>(s: State<T>, headFirst: bool)
    requires Inv(s) && s.consumer.Releasing?
    ensures Inv(ConsumerStep(s, headFirst))
  {
    NextRemainder(|s.popped|, |s.entry|);
  }

  lemma {:induction false} RunInv<T>(slots: seq<T>, actions: seq<Action<T>>)
    requires |slots| > 0
    ensures Inv(Run(slots, actions))
  {
    if actions != [] {
      var s := Run(slots, actions[..|actions| - 1]);
      RunInv(slots, actions[..|actions| - 1]);
      match actions[|actions| - 1]
      case Produce(data, tailFirst) => ProducerStepInv(s, data, tailFirst);
      case Consume(headFirst) => ConsumerStepInv(s, headFirst);
    }
  }

  // ---------- what holds in every interleaving ----------

  /** Popped items are the accepted ones, in order, from the first; never more than size - 1 are held. */
  lemma FirstInFirstOut<T>(slots: seq<T>, actions: seq<Action<T>>)
    requires |slots| > 0
    ensures var s := Run(slots, actions);
            s.popped <= Pushed(s) && |Pushed(s)| - |s.popped| <= |slots| - 1
  {
    RunInv(slots, actions);
  }

  /** At every moment the ring between head and tail is exactly what was accepted and not yet popped. */
  lemma RingIsPending<T>(slots: seq<T>, actions: seq<Action<T>>)
    requires |slots| > 0
    ensures var s := Run(slots, actions);
            s.head < |slots| && s.tail < |slots| && |s.popped| <= |Pushed(s)| &&
            RingQueue.Ring(s.entry, s.head, s.tail) == Pushed(s)[|s.popped|..]
  {
    RunInv(slots, actions);
    var s := Run(slots, actions);
    RingPending(s);
  }

  lemma RingPending<T>(s: State<T>)
    requires Positions(s) && Contents(s)
    ensures s.head < |s.entry| && s.tail < |s.entry|
    ensures RingQueue.Ring(s.entry, s.head, s.tail) == Pushed(s)[|s.popped|..]
  {
    var n, a, p := |s.entry|, |Pushed(s)|, |s.popped|;
    var ring := RingQueue.Ring(s.entry, s.head, s.tail);
    Offset(p, a - p, n);
    forall k | 0 <= k < a - p ensures s.head + k < n ==> ring[k] == Pushed(s)[p + k]
      ensures s.head + k >= n ==> ring[k] == Pushed(s)[p + k]
    {
      Offset(p, k, n);
      assert s.entry[(p + k) % n] == Pushed(s)[p + k];
    }
  }

  /** k steps around the ring from p. */
  lemma Offset(p: nat, k: nat, n: nat)
    requires n > 0 && k < n
    ensures (p + k) % n == if p % n + k < n then p % n + k else p % n + k - n
  {
    var q, r := p / n, p % n;
    if r + k < n { DivisionUnique(p + k, n, q, r + k); } else { DivisionUnique(p + k, n, q + 1, r + k - n); }
  }

  /** No step of either thread changes the slot of an item that has not been popped. */
  lemma NeverOverwritten<T>(slots: seq<T>, actions: seq<Action<T>>, a: Action<T>, i: nat)
    requires |slots| > 0
    requires |Run(slots, actions).popped| <= i < |Pushed(Run(slots, actions))|
    ensures var s := Run(slots, actions); Step(s, a).entry[i % |slots|] == s.entry[i % |slots|] == Pushed(s)[i]
  {
    var s := Run(slots, actions);
    RunInv(slots, actions);
    if s.producer.Storing? { TailSlotFree(s); }
  }

  /** The state a prefix of the schedule reached. */
  ghost predicate Passed<T>(slots: seq<T>, actions: seq<Action<T>>, j: nat, s: State<T>)
    requires |slots| > 0
  {
    j <= |actions| && Run(slots, actions[..j]) == s
  }

  lemma PassedLater<T>(slots: seq<T>, actions: seq<Action<T>>, a: Action<T>, j: nat, s: State<T>)
    requires |slots| > 0 && Passed(slots, actions, j, s)
    ensures Passed(slots, actions + [a], j, s)
  {
    assert (actions + [a])[..j] == actions[..j];
  }

  predicate HoldsHead<T>(s: State<T>) { s.producer.Testing? && s.producer.h.Some? }

  predicate HoldsTail<T>(s: State<T>) { s.consumer.Comparing? && s.consumer.t.Some? }

  /** The state after i steps. */
  function After<T>(slots: seq<T>, actions: seq<Action<T>>, i: nat): State<T>
    requires |slots| > 0 && i <= |actions|
  {
    Run(slots, actions[..i])
  }

  lemma AfterMore<T>(slots: seq<T>, actions: seq<Action<T>>, a: Action<T>, i: nat)
    requires |slots| > 0 && i <= |actions|
    ensures After(slots, actions + [a], i) == After(slots, actions, i)
  {
    assert (actions + [a])[..i] == actions[..i];
  }

  lemma AfterAll<T>(slots: seq<T>, actions: seq<Action<T>>)
    requires |slots| > 0
    ensures After(slots, actions, |actions|) == Run(slots, actions)
  {
    assert actions[..|actions|] == actions;
  }

  /** The j-th step is the producer's read of head, and its test has gone on ever since. */
  ghost predicate ReadHead<T>(slots: seq<T>, actions: seq<Action<T>>, j: nat)
    requires |slots| > 0
  {
    && j < |actions| && actions[j].Produce?
    && !HoldsHead(After(slots, actions, j)) && (forall i :: j < i <= |actions| ==> HoldsHead(After(slots, actions, i)))
  }

  /** The j-th step is the consumer's read of tail, and its test has gone on ever since. */
  ghost predicate ReadTail<T>(slots: seq<T>, actions: seq<Action<T>>, j: nat)
    requires |slots| > 0
  {
    && j < |actions| && actions[j].Consume?
    && !HoldsTail(After(slots, actions, j)) && (forall i :: j < i <= |actions| ==> HoldsTail(After(slots, actions, i)))
  }

  lemma ReadHeadOn<T>(slots: seq<T>, actions: seq<Action<T>>, a: Action<T>, j: nat)
    requires |slots| > 0 && ReadHead(slots, actions, j) && HoldsHead(Run(slots, actions + [a]))
    ensures ReadHead(slots, actions + [a], j)
  {
    hide After, HoldsHead, Run;
    var more := actions + [a];
    AfterMore(slots, actions, a, j);
    forall i | j < i <= |more| ensures HoldsHead(After(slots, more, i)) {
      if i == |more| {
        AfterAll(slots, more);
      } else {
        assert HoldsHead(After(slots, actions, i));
        AfterMore(slots, actions, a, i);
      }
    }
    assert more[j] == actions[j];
  }

  lemma ReadHeadNow<T>(slots: seq<T>, actions: seq<Action<T>>, j: nat)
    requires |slots| > 0 && |actions| == j + 1 && actions[j].Produce?
    requires !HoldsHead(After(slots, actions, j)) && HoldsHead(After(slots, actions, j + 1))
    ensures ReadHead(slots, actions, j)
  {
    hide After, HoldsHead, Run;
  }

  lemma ReadTailOn<T>(slots: seq<T>, actions: seq<Action<T>>, a: Action<T>, j: nat)
    requires |slots| > 0 && ReadTail(slots, actions, j) && HoldsTail(Run(slots, actions + [a]))
    ensures ReadTail(slots, actions + [a], j)
  {
    hide After, HoldsTail, Run;
    var more := actions + [a];
    AfterMore(slots, actions, a, j);
    forall i | j < i <= |more| ensures HoldsTail(After(slots, more, i)) {
      if i == |more| {
        AfterAll(slots, more);
      } else {
        assert HoldsTail(After(slots, actions, i));
        AfterMore(slots, actions, a, i);
      }
    }
    assert more[j] == actions[j];
  }

  lemma ReadTailNow<T>(slots: seq<T>, actions: seq<Action<T>>, j: nat)
    requires |slots| > 0 && |actions| == j + 1 && actions[j].Consume?
    requires !HoldsTail(After(slots, actions, j)) && HoldsTail(After(slots, actions, j + 1))
    ensures ReadTail(slots, actions, j)
  {
    hide After, HoldsTail, Run;
  }

  /** What the producer remembers of head is what it read in an earlier step, since which it has pushed nothing. */
  lemma {:induction false} HeadWasRead<T>(slots: seq<T>, actions: seq<Action<T>>) returns (j: nat, s: State<T>)
    requires |slots| > 0 && HoldsHead(Run(slots, actions))
    ensures ReadHead(slots, actions, j) && Passed(slots, actions, j, s)
    ensures s.offers == Run(slots, actions).offers && |s.popped| == Run(slots, actions).producer.seen
    ensures s.head == Run(slots, actions).producer.h.value
  {
    var before, a := actions[..|actions| - 1], actions[|actions| - 1];
    assert before + [a] == actions;
    var s0 := Run(slots, before);
    if HoldsHead(s0) {
      j, s := HeadWasRead(slots, before);
      ReadHeadOn(slots, before, a, j);
    } else {
      j, s := |before|, s0;
      assert before == before[..|before|];
      AfterAll(slots, actions);
      ReadHeadNow(slots, actions, j);
    }
    PassedLater(slots, before, a, j, s);
  }

  /** What the consumer remembers of tail is what it read in an earlier step, since which it has popped nothing. */
  lemma {:induction false} TailWasRead<T>(slots: seq<T>, actions: seq<Action<T>>) returns (j: nat, s: State<T>)
    requires |slots| > 0 && HoldsTail(Run(slots, actions))
    ensures ReadTail(slots, actions, j) && Passed(slots, actions, j, s)
    ensures s.popped == Run(slots, actions).popped && |Pushed(s)| == Run(slots, actions).consumer.seen
    ensures s.tail == Run(slots, actions).consumer.t.value
  {
    var before, a := actions[..|actions| - 1], actions[|actions| - 1];
    assert before + [a] == actions;
    var s0 := Run(slots, before);
    if HoldsTail(s0) {
      j, s := TailWasRead(slots, before);
      ReadTailOn(slots, before, a, j);
    } else {
      j, s := |before|, s0;
      assert before == before[..|before|];
      AfterAll(slots, actions);
      ReadTailNow(slots, actions, j);
    }
    PassedLater(slots, before, a, j, s);
  }

  /** A push is refused exactly when, at the moment it read head, size - 1 items were in the ring. */
  lemma RefusedOnlyWhenFull<T>(slots: seq<T>, actions: seq<Action<T>>, data: T, tailFirst: bool) returns (j: nat, s: State<T>)
    requires |slots| > 0 && HoldsHead(Run(slots, actions)) && Run(slots, actions).producer.t.Some?
    ensures ReadHead(slots, actions, j) && Passed(slots, actions, j, s) && s.offers == Run(slots, actions).offers
    ensures var now := Run(slots, actions);
            var next := Step(now, Produce(data, tailFirst));
            if |Pushed(s)| - |s.popped| == |slots| - 1
            then next.producer == ProducerIdle && next.offers == now.offers + [Offer(now.producer.data, false)]
            else next.producer == Filling(now.producer.data) && next.offers == now.offers
  {
    RunInv(slots, actions);
    j, s := HeadWasRead(slots, actions);
    FullTest(|Pushed(s)|, |s.popped|, |slots|);
  }

  /** A pop comes back empty-handed exactly when the ring was empty at the moment it read tail. */
  lemma EmptyOnlyWhenEmpty<T>(slots: seq<T>, actions: seq<Action<T>>, headFirst: bool) returns (j: nat, s: State<T>)
    requires |slots| > 0 && HoldsTail(Run(slots, actions)) && Run(slots, actions).consumer.h.Some?
    ensures ReadTail(slots, actions, j) && Passed(slots, actions, j, s) && s.popped == Run(slots, actions).popped
    ensures Step(Run(slots, actions), Consume(headFirst)).consumer == if Pushed(s) == s.popped then ConsumerIdle else Fetching
  {
    RunInv(slots, actions);
    j, s := TailWasRead(slots, actions);
    RunInv(slots, actions[..j]);
    EmptyTest(|s.popped|, |Pushed(s)|, |slots|);
  }

  // ---------- without interference ----------

  function ProducerAlone<T>(s: State<T>, data: T, tailFirst: bool, steps: nat): (s': State<T>)
    requires |s.entry| > 0
    ensures |s'.entry| == |s.entry|
  {
    if steps == 0 then s else ProducerStep(ProducerAlone(s, data, tailFirst, steps - 1), data, tailFirst)
  }

  function ConsumerAlone<T>(s: State<T>, headFirst: bool, steps: nat): (s': State<T>)
    requires |s.entry| > 0
    ensures |s'.entry| == |s.entry|
  {
    if steps == 0 then s else ConsumerStep(ConsumerAlone(s, headFirst, steps - 1), headFirst)
  }

  /** The first half of a push, which is its test. */
  lemma TestAlone<T>(s: State<T>, data: T, tailFirst: bool)
    requires s.head < |s.entry| && s.tail < |s.entry| && s.producer.ProducerIdle?
    ensures ProducerAlone(s, data, tailFirst, 4) ==
            if (s.tail + 1) % |s.entry| == s.head then s.(offers := s.offers + [Offer(data, false)])
            else s.(producer := Filling(data))
  {
    assert ProducerAlone(s, data, tailFirst, 1) == s.(producer := Testing(data, None, None, 0));
    assert ProducerAlone(s, data, tailFirst, 2) == ProducerStep(s.(producer := Testing(data, None, None, 0)), data, tailFirst);
    var s3 := s.(producer := Testing(data, Some(s.tail), Some(s.head), |s.popped|));
    assert ProducerAlone(s, data, tailFirst, 3) == s3;
    assert ProducerAlone(s, data, tailFirst, 4) == ProducerStep(s3, data, tailFirst);
  }

  /**
   * A push that nobody interrupts does to the ring what the sequential Push does: four steps and a
   * refusal when size - 1 items are held, eight steps and the item at the end otherwise.
   */
  lemma PushAlone<T>(s: State<T>, data: T, tailFirst: bool)
    requires s.head < |s.entry| && s.tail < |s.entry| && s.producer.ProducerIdle?
    ensures var ring := RingQueue.Ring(s.entry, s.head, s.tail);
            if |ring| == |s.entry| - 1
            then ProducerAlone(s, data, tailFirst, 4) == s.(offers := s.offers + [Offer(data, false)])
            else var s' := ProducerAlone(s, data, tailFirst, 8);
                 && s'.producer == ProducerIdle && s'.offers == s.offers + [Offer(data, true)]
                 && s'.head == s.head && s'.tail < |s.entry| && RingQueue.Ring(s'.entry, s'.head, s'.tail) == ring + [data]
  {
    hide RingQueue.Ring, RingQueue.Next, ProducerAlone;
    RingQueue.RingPush(s.entry, s.head, s.tail, data);
    RingQueue.NextWraps(s.tail, |s.entry|);
    RingQueue.NextIs(s.tail, |s.entry|);
    TestAlone(s, data, tailFirst);
    if (s.tail + 1) % |s.entry| != s.head {
      FillAlone(s, data, tailFirst);
    }
  }

  /** The second half of a push, after its test. */
  lemma FillAlone<T>(s: State<T>, data: T, tailFirst: bool)
    requires s.tail < |s.entry|
    requires ProducerAlone(s, data, tailFirst, 4) == s.(producer := Filling(data))
    ensures ProducerAlone(s, data, tailFirst, 8) ==
            s.(entry := s.entry[s.tail := data], tail := (s.tail + 1) % |s.entry|, offers := s.offers + [Offer(data, true)],
               producer := ProducerIdle)
  {
    assert ProducerAlone(s, data, tailFirst, 5) == s.(producer := Storing(data, s.tail));
    assert ProducerAlone(s, data, tailFirst, 6) == s.(entry := s.entry[s.tail := data], producer := Bumping(data));
    assert ProducerAlone(s, data, tailFirst, 7) == s.(entry := s.entry[s.tail := data], producer := Publishing(data, s.tail));
  }

  /** A pop that nobody interrupts takes the first item, or finds the ring empty. */
  lemma PopAlone<T>(s: State<T>, headFirst: bool)
    requires s.head < |s.entry| && s.tail < |s.entry| && s.consumer.ConsumerIdle?
    ensures var ring := RingQueue.Ring(s.entry, s.head, s.tail);
            if ring == []
            then ConsumerAlone(s, headFirst, 4) == s
            else var s' := ConsumerAlone(s, headFirst, 8);
                 && s'.consumer == ConsumerIdle && s'.popped == s.popped + [ring[0]] && s'.tail == s.tail
                 && s'.head < |s.entry| && RingQueue.Ring(s'.entry, s'.head, s'.tail) == ring[1..]
  {
    hide RingQueue.Ring, RingQueue.Next, Accepted;
    RingQueue.RingEmpty(s.entry, s.head, s.tail);
    RingQueue.NextWraps(s.head, |s.entry|);
    RingQueue.NextIs(s.head, |s.entry|);
    assert ConsumerAlone(s, headFirst, 1) == s.(consumer := Comparing(None, None, 0));
    assert ConsumerAlone(s, headFirst, 2) == ConsumerStep(s.(consumer := Comparing(None, None, 0)), headFirst);
    var s3 := s.(consumer := Comparing(Some(s.head), Some(s.tail), |Pushed(s)|));
    assert ConsumerAlone(s, headFirst, 3) == s3;
    var s4 := ConsumerStep(s3, headFirst);
    assert ConsumerAlone(s, headFirst, 4) == s4;
    if s.head != s.tail {
      RingQueue.RingPop(s.entry, s.head, s.tail);
      assert ConsumerAlone(s, headFirst, 6) == s.(consumer := Advancing(s.entry[s.head])) by {
        assert ConsumerAlone(s, headFirst, 5) == s.(consumer := Loading(s.head));
      }
      assert ConsumerAlone(s, headFirst, 7) == s.(consumer := Releasing(s.entry[s.head], s.head));
    }
  }
}
