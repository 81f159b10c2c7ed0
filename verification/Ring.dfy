/** The mailbox rings: 32-bit producer and consumer indices over a fixed array of entries. */
module Ring {
  import opened MailboxAbi
  import opened Prelude

  /** Largest capacity whose 32-bit count never wraps. */
  const EXACT_CAPACITY: int := 0x8000_0000

  /** `ring_count` in `uint32_t`: the sum wraps before the remainder is taken. */
  function Count32(producer: u32, consumer: u32, capacity: u32): u32 {
    if capacity == 0 then 0 else Rem((producer + capacity - consumer) % W32, capacity)
  }

  /** How many entries lie from consumer to producer, going round. */
  function Distance(producer: nat, consumer: nat, capacity: nat): int {
    if consumer <= producer then producer - consumer else producer + capacity - consumer
  }

  lemma CountOf(producer: u32, consumer: u32, capacity: u32)
    requires producer < capacity && consumer < capacity
    ensures producer + capacity - consumer < W32 ==> Count32(producer, consumer, capacity) == Distance(producer, consumer, capacity)
  {
    RemSmall(producer + capacity - consumer, capacity);
  }

  lemma CountWraps(capacity: u32)
    requires capacity > EXACT_CAPACITY
    ensures Count32(capacity - 1, 0, capacity) != Distance(capacity - 1, 0, capacity)
  {
  }

  /** A ring of no place counts nothing, and one of a single place has no room. */
  lemma TinyRingsHoldNothing<T>(r: RingValue<T>)
    ensures r.capacity == 0 ==> r.Count() == 0
    ensures r.capacity <= 1 ==> r.Space() == 0
  {
  }

  /** The 32-bit count is exact at every pair of indices exactly for capacities up to 2^31. */
  lemma CountIsExact(capacity: u32)
    requires capacity > 1
    ensures (forall p: u32, c: u32 :: p < capacity && c < capacity ==> Count32(p, c, capacity) == Distance(p, c, capacity))
            <==> capacity <= EXACT_CAPACITY
  {
    if capacity <= EXACT_CAPACITY {
      forall p: u32, c: u32 | p < capacity && c < capacity
        ensures Count32(p, c, capacity) == Distance(p, c, capacity)
      {
        CountOf(p, c, capacity);
      }
    } else {
      CountWraps(capacity);
    }
  }

  /** A ring as a value. */
  datatype RingValue<T> = RingValue(abi: u32, words: u32, capacity: u32, producer: u32, consumer: u32, overflow: u32,
                                    slots: seq<T>)
  {
    predicate Validated(expected: u32) {
      && abi == ABI_VERSION && words == expected && capacity > 1
      && producer < capacity && consumer < capacity
    }

    predicate Sound(expected: u32) {
      Validated(expected) && capacity <= EXACT_CAPACITY && capacity <= |slots|
    }

    function Count(): u32 { Count32(producer, consumer, capacity) }

    function Space(): u32 { if capacity <= 1 then 0 else (capacity - 1 - Count()) % W32 }

    /** The abstract queue: the entries from consumer to producer, going round. */
    function Contents(): seq<T>
      requires producer < capacity && consumer < capacity && capacity <= |slots|
    {
      if consumer <= producer then slots[consumer..producer] else slots[consumer..capacity] + slots[..producer]
    }
  }

  function Next(index: u32, capacity: u32): u32
    requires capacity > 0
  {
    Rem((index + 1) % W32, capacity)
  }

  function Pushed<T>(r: RingValue<T>, expected: u32, x: T): (RingValue<T>, bool)
    requires r.capacity <= |r.slots|
  {
    if !r.Validated(expected) then (r, false)
    else if r.Space() == 0 then (r.(overflow := (r.overflow + 1) % W32), false)
    else (r.(slots := r.slots[r.producer := x], producer := Next(r.producer, r.capacity)), true)
  }

  function Popped<T>(r: RingValue<T>, expected: u32): (RingValue<T>, Option<T>)
    requires r.capacity <= |r.slots|
  {
    if !r.Validated(expected) || r.Count() == 0 then (r, None)
    else (r.(consumer := Next(r.consumer, r.capacity)), Some(r.slots[r.consumer]))
  }

  lemma NextIs(index: u32, capacity: u32)
    requires index < capacity <= EXACT_CAPACITY
    ensures Next(index, capacity) == if index + 1 == capacity then 0 else index + 1
  {
    RemSmall(index + 1, capacity);
  }

  lemma CountIsLength<T>(r: RingValue<T>, expected: u32)
    requires r.Sound(expected)
    ensures r.Count() == |r.Contents()| <= r.capacity - 1 && r.Space() == r.capacity - 1 - |r.Contents()|
  {
    CountOf(r.producer, r.consumer, r.capacity);
  }

  /** A push is refused exactly at capacity - 1, and then nothing but the overflow count changes. */
  lemma PushRefines<T>(r: RingValue<T>, expected: u32, x: T)
    requires r.Sound(expected)
    ensures var (t, ok) := Pushed(r, expected, x);
            && t.Sound(expected) && t.capacity == r.capacity
            && (ok <==> |r.Contents()| < r.capacity - 1)
            && t.Contents() == (if ok then r.Contents() + [x] else r.Contents())
            && t.overflow == (if ok then r.overflow else (r.overflow + 1) % W32)
            && (!ok ==> t == r.(overflow := t.overflow))
  {
    CountIsLength(r, expected);
    NextIs(r.producer, r.capacity);
  }

  lemma PopRefines<T>(r: RingValue<T>, expected: u32)
    requires r.Sound(expected)
    ensures var (t, x) := Popped(r, expected);
            && t.Sound(expected) && t.capacity == r.capacity && t.overflow == r.overflow
            && (x.None? <==> r.Contents() == [])
            && (x.None? ==> t == r)
            && (x.Some? ==> r.Contents() == [x.value] + t.Contents())
  {
    CountIsLength(r, expected);
    NextIs(r.consumer, r.capacity);
  }

  // ---- every sequence of operations -----------------------------------------------------------------------------------------

  datatype Op<T> = Push(x: T) | Pop

  /** What a caller sees: whether the push was taken, or what was popped. */
  datatype Answer<T> = Taken(ok: bool) | Got(x: Option<T>)

  function Step<T>(r: RingValue<T>, expected: u32, op: Op<T>): (RingValue<T>, Answer<T>)
    requires r.capacity <= |r.slots|
  {
    match op
    case Push(x) => var (t, ok) := Pushed(r, expected, x); (t, Taken(ok))
    case Pop => var (t, x) := Popped(r, expected); (t, Got(x))
  }

  function Steps<T>(r: RingValue<T>, expected: u32, ops: seq<Op<T>>): (RingValue<T>, seq<Answer<T>>)
    requires r.capacity <= |r.slots|
    decreases |ops|
  {
    if ops == [] then (r, [])
    else
      var (t, a) := Step(r, expected, ops[0]);
      var (u, rest) := Steps(t, expected, ops[1..]);
      (u, [a] + rest)
  }

  /** The bounded FIFO queue a ring stands for. */
  function QueueStep<T>(q: seq<T>, bound: nat, op: Op<T>): (seq<T>, Answer<T>) {
    match op
    case Push(x) => (if |q| < bound then q + [x] else q, Taken(|q| < bound))
    case Pop => if q == [] then (q, Got(None)) else (q[1..], Got(Some(q[0])))
  }

  function QueueSteps<T>(q: seq<T>, bound: nat, ops: seq<Op<T>>): (seq<T>, seq<Answer<T>>)
    decreases |ops|
  {
    if ops == [] then (q, [])
    else
      var (q', a) := QueueStep(q, bound, ops[0]);
      var (u, rest) := QueueSteps(q', bound, ops[1..]);
      (u, [a] + rest)
  }

  predicate IsRefusal<T>(a: Answer<T>) { a.Taken? && !a.ok }

  /** How many pushes the queue refuses. */
  function Refused<T>(answers: seq<Answer<T>>): nat {
    if answers == [] then 0 else (if IsRefusal(answers[0]) then 1 else 0) + Refused(answers[1..])
  }

  lemma StepRefines<T>(r: RingValue<T>, expected: u32, op: Op<T>)
    requires r.Sound(expected)
    ensures var (t, a) := Step(r, expected, op);
            && t.Sound(expected) && t.capacity == r.capacity
            && (t.Contents(), a) == QueueStep(r.Contents(), r.capacity - 1, op)
            && t.overflow == (r.overflow + if IsRefusal(a) then 1 else 0) % W32
  {
    match op {
      case Push(x) => PushRefines(r, expected, x);
      case Pop => PopRefines(r, expected);
    }
  }

  ghost predicate RunsAsQueue<T>(r: RingValue<T>, expected: u32, t: RingValue<T>, answers: seq<Answer<T>>, ops: seq<Op<T>>)
    requires r.Sound(expected)
  {
    && t.Sound(expected) && t.capacity == r.capacity
    && (t.Contents(), answers) == QueueSteps(r.Contents(), r.capacity - 1, ops)
    && t.overflow == (r.overflow + Refused(answers)) % W32
  }

  /** Over every sequence of pushes and pops a ring answers as the queue does; its overflow count is the refusals. */
  lemma {:induction false} RingIsBoundedQueue<T>(r: RingValue<T>, expected: u32, ops: seq<Op<T>>)
    requires r.Sound(expected)
    ensures RunsAsQueue(r, expected, Steps(r, expected, ops).0, Steps(r, expected, ops).1, ops)
    decreases |ops|
  {
    if ops == [] {
    } else {
      var (t, a) := Step(r, expected, ops[0]);
      StepRefines(r, expected, ops[0]);
      RingIsBoundedQueue(t, expected, ops[1..]);
      FirstThenRest(r, expected, ops, t, a, Steps(t, expected, ops[1..]).0, Steps(t, expected, ops[1..]).1);
    }
  }

  lemma FirstThenRest<T>(r: RingValue<T>, expected: u32, ops: seq<Op<T>>, t: RingValue<T>, a: Answer<T>, u: RingValue<T>,
                         rest: seq<Answer<T>>)
    requires ops != [] && r.Sound(expected) && t.Sound(expected) && t.capacity == r.capacity
    requires (t.Contents(), a) == QueueStep(r.Contents(), r.capacity - 1, ops[0])
    requires t.overflow == (r.overflow + if IsRefusal(a) then 1 else 0) % W32
    requires RunsAsQueue(t, expected, u, rest, ops[1..])
    ensures RunsAsQueue(r, expected, u, [a] + rest, ops)
  {
    RefusedOnce(a, rest, r.overflow, t.overflow);
  }

  lemma RefusedOnce<T>(a: Answer<T>, rest: seq<Answer<T>>, before: u32, after: u32)
    requires after == (before + if IsRefusal(a) then 1 else 0) % W32
    ensures (after + Refused(rest)) % W32 == (before + Refused([a] + rest)) % W32
  {
    assert ([a] + rest)[1..] == rest;
  }

  // ---- the ring object ------------------------------------------------------------------------------------------------------

  class RingBuffer<T> {
    var abi: u32
    var words: u32
    var capacity: u32
    var producer: u32
    var consumer: u32
    var overflow: u32
    const entries: array<T>
    const expected: u32   // the entry size, in words, that the typed push and pop functions pass

    ghost function Value(): RingValue<T>
      reads this, entries
    {
      RingValue(abi, words, capacity, producer, consumer, overflow, entries[..])
    }

    ghost predicate Valid()
      reads this, entries
    {
      Value().Sound(expected)
    }

    ghost function Contents(): seq<T>
      requires Valid()
      reads this, entries
    {
      Value().Contents()
    }

    /** `ring_init` over a fresh entry array. */
    constructor (expected: u32, capacity: u32, zero: T)
      requires 1 < capacity <= EXACT_CAPACITY
      ensures Valid() && Contents() == [] && this.capacity == capacity && overflow == 0 && fresh(entries)
      ensures this.expected == expected
    {
      this.abi := ABI_VERSION;
      this.words := expected;
      this.expected := expected;
      this.capacity := capacity;
      this.producer := 0;
      this.consumer := 0;
      this.overflow := 0;
      this.entries := new T[capacity](_ => zero);
    }

    method Full() returns (full: bool)
      ensures full == (Value().Space() == 0)
      ensures Valid() ==> full == (|Contents()| == capacity - 1)
    {
      var count := Count32(producer, consumer, capacity);
      var space := if capacity <= 1 then 0 else (capacity - 1 - count) % W32;
      full := space == 0;
      if Valid() { CountIsLength(Value(), expected); }
    }

    method Count() returns (count: u32)
      ensures count == Value().Count()
      ensures Valid() ==> count == |Contents()|
    {
      count := Count32(producer, consumer, capacity);
      if Valid() { CountIsLength(Value(), expected); }
    }

    method PushEntry(x: T) returns (ok: bool)
      requires capacity <= entries.Length
      modifies this, entries
      ensures (Value(), ok) == Pushed(old(Value()), expected, x)
      ensures capacity == old(capacity)
      ensures old(Valid()) ==> Valid()
      ensures old(Valid()) ==> ok == (|old(Contents())| < capacity - 1)
      ensures old(Valid()) ==> Contents() == (if ok then old(Contents()) + [x] else old(Contents()))
      ensures old(Valid()) && ok ==> overflow == old(overflow)
    {
      if old(Valid()) { PushRefines(old(Value()), expected, x); }
      if !(abi == ABI_VERSION && words == expected && capacity > 1 && producer < capacity && consumer < capacity) {
        return false;
      }
      var full := Full();
      if full {
        overflow := (overflow + 1) % W32;
        return false;
      }
      entries[producer] := x;
      producer := Next(producer, capacity);
      return true;
    }

    method PopEntry() returns (r: Option<T>)
      requires capacity <= entries.Length
      modifies this
      ensures (Value(), r) == Popped(old(Value()), expected)
      ensures capacity == old(capacity) && overflow == old(overflow)
      ensures old(Valid()) ==> Valid()
      ensures old(Valid()) ==> r.None? == (old(Contents()) == [])
      ensures old(Valid()) && r.None? ==> Contents() == old(Contents())
      ensures old(Valid()) && r.Some? ==> old(Contents()) == [r.value] + Contents()
    {
      if old(Valid()) { PopRefines(old(Value()), expected); }
      if !(abi == ABI_VERSION && words == expected && capacity > 1 && producer < capacity && consumer < capacity) {
        return None;
      }
      var count := Count32(producer, consumer, capacity);
      if count == 0 { return None; }
      r := Some(entries[consumer]);
      consumer := Next(consumer, capacity);
    }
  }
}
