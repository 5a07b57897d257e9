/** The single-producer single-consumer ring of perf/hardware_optimizations.rs: every atomic
    load and store, slot write and slot read is one step of a transition system, and the
    class runs those steps without interruption. */
module SpscRing {
  import opened Wrappers
  import opened Bits

  /** `a + b` and `a - b` on u64 counters, which wrap. */
  function WrapAdd(a: nat, b: nat): (r: nat)
    ensures r < U64
  {
    (a + b) % U64
  }

  function WrapSub(a: nat, b: nat): (r: nat)
    ensures r < U64
  {
    (a - b) % U64
  }

  /** Where a `try_push` in flight stands; `head` and `item` are its locals. */
  datatype Producer<T> =
    | PushIdle
    | PushLoadedHead(item: T, head: nat)
    | PushReady(item: T, head: nat)
    | PushWritten(item: T, head: nat)

  /** Where a `try_pop` in flight stands. */
  datatype Consumer<T> =
    | PopIdle
    | PopLoadedTail(tail: nat)
    | PopReady(tail: nat)
    | PopRead(item: T, tail: nat)

  /** `pushed` and `popped` record the calls that have returned true, or Some, in order. */
  datatype Ring<T> = Ring(
    buffer: seq<T>, head: nat, tail: nat,
    producer: Producer<T>, consumer: Consumer<T>,
    pushed: seq<T>, popped: seq<T>)

  datatype Step<T> =
    | PushLoadHead(item: T)
    | PushLoadTail
    | PushWrite
    | PushStore
    | PopLoadTail
    | PopLoadHead
    | PopReadSlot
    | PopStore

  /** The slot of a counter value: `counter & mask`. */
  function Slot(k: nat, counter: nat): (slot: nat)
    ensures slot == counter % Pow2(k)
  {
    AndLowMask(counter, k);
    And(counter, Pow2(k) - 1)
  }

  /** `try_push`'s test, on the two counter values it loaded. */
  predicate LooksFull(k: nat, head: nat, tail: nat) {
    Slot(k, WrapAdd(head, 1)) == Slot(k, tail)
  }

  /** One atomic step of a ring of capacity `1 << k`; None when the step is not the next
      one of its thread. */
  function Do<T>(k: nat, s: Ring<T>, step: Step<T>): Option<Ring<T>>
    requires |s.buffer| == Pow2(k)
  {
    match step
    case PushLoadHead(item) =>
      if s.producer.PushIdle? then Some(s.(producer := PushLoadedHead(item, s.head))) else None
    case PushLoadTail =>
      if !s.producer.PushLoadedHead? then None
      else if LooksFull(k, s.producer.head, s.tail) then Some(s.(producer := PushIdle))
      else Some(s.(producer := PushReady(s.producer.item, s.producer.head)))
    case PushWrite =>
      if !s.producer.PushReady? then None
      else Some(s.(buffer := s.buffer[Slot(k, s.producer.head) := s.producer.item],
                   producer := PushWritten(s.producer.item, s.producer.head)))
    case PushStore =>
      if !s.producer.PushWritten? then None
      else Some(s.(head := WrapAdd(s.producer.head, 1), producer := PushIdle,
                   pushed := s.pushed + [s.producer.item]))
    case PopLoadTail =>
      if s.consumer.PopIdle? then Some(s.(consumer := PopLoadedTail(s.tail))) else None
    case PopLoadHead =>
      if !s.consumer.PopLoadedTail? then None
      else if s.consumer.tail == s.head then Some(s.(consumer := PopIdle))
      else Some(s.(consumer := PopReady(s.consumer.tail)))
    case PopReadSlot =>
      if !s.consumer.PopReady? then None
      else Some(s.(consumer := PopRead(s.buffer[Slot(k, s.consumer.tail)], s.consumer.tail)))
    case PopStore =>
      if !s.consumer.PopRead? then None
      else Some(s.(tail := WrapAdd(s.consumer.tail, 1), consumer := PopIdle,
                   popped := s.popped + [s.consumer.item]))
  }

  /** Any interleaving: the steps of both threads in the order they happen. */
  function Run<T>(k: nat, s: Ring<T>, steps: seq<Step<T>>): (r: Option<Ring<T>>)
    requires |s.buffer| == Pow2(k)
    ensures r.Some? ==> |r.value.buffer| == Pow2(k)
    decreases |steps|
  {
    if steps == [] then Some(s)
    else
      match Do(k, s, steps[0])
      case None => None
      case Some(t) => Run(k, t, steps[1..])
  }

  function Empty<T>(buffer: seq<T>): Ring<T> {
    Ring(buffer, 0, 0, PushIdle, PopIdle, [], [])
  }

  ghost predicate Reachable<T(!new)>(k: nat, s: Ring<T>) {
    exists buffer: seq<T>, steps ::
      |buffer| == Pow2(k) && Run(k, Empty(buffer), steps) == Some(s)
  }

  /** The values pushed and not yet popped. */
  function Queue<T>(s: Ring<T>): seq<T>
    requires |s.popped| <= |s.pushed|
  {
    s.pushed[|s.popped|..]
  }

  ghost predicate CountersMatch<T>(k: nat, s: Ring<T>) {
    && |s.buffer| == Pow2(k)
    && s.head == |s.pushed| % U64
    && s.tail == |s.popped| % U64
    && s.popped <= s.pushed
    && |s.pushed| - |s.popped| < Pow2(k)
  }

  ghost predicate SlotsHoldQueue<T>(k: nat, s: Ring<T>)
    requires |s.buffer| == Pow2(k)
  {
    forall i :: |s.popped| <= i < |s.pushed| ==> s.buffer[i % Pow2(k)] == s.pushed[i]
  }

  ghost predicate ProducerMatches<T>(k: nat, s: Ring<T>)
    requires |s.buffer| == Pow2(k)
  {
    && (!s.producer.PushIdle? ==> s.producer.head == s.head)
    && (s.producer.PushReady? || s.producer.PushWritten? ==>
          |s.pushed| - |s.popped| + 1 < Pow2(k))
    && (s.producer.PushWritten? ==> s.buffer[|s.pushed| % Pow2(k)] == s.producer.item)
  }

  ghost predicate ConsumerMatches<T>(s: Ring<T>) {
    && (!s.consumer.PopIdle? ==> s.consumer.tail == s.tail)
    && (s.consumer.PopReady? || s.consumer.PopRead? ==> |s.popped| < |s.pushed|)
    && (s.consumer.PopRead? ==> s.consumer.item == s.pushed[|s.popped|])
  }

  ghost predicate Inv<T>(k: nat, s: Ring<T>) {
    && CountersMatch(k, s)
    && SlotsHoldQueue(k, s)
    && ProducerMatches(k, s)
    && ConsumerMatches(s)
  }

  /** Reducing a counter modulo 2^64 first does not change its slot. */
  lemma WrappedSlot(k: nat, n: nat)
    requires k <= 64
    ensures n % U64 % Pow2(k) == n % Pow2(k)
  {
    Pow64();
    Pow2Adds(k, 64 - k);
    ModOfMultiple(n, Pow2(k), Pow2(64 - k));
  }

  lemma WrappedSuccessor(n: nat)
    ensures WrapAdd(n % U64, 1) == (n + 1) % U64
  {}

  lemma FullMeans<T>(k: nat, s: Ring<T>)
    requires k <= 63 && CountersMatch(k, s)
    ensures LooksFull(k, s.head, s.tail) <==> |s.pushed| - |s.popped| == Pow2(k) - 1
  {
    WrappedSuccessor(|s.pushed|);
    WrappedSlot(k, |s.pushed| + 1);
    WrappedSlot(k, |s.popped|);
    SameRemainder(|s.pushed| + 1, |s.popped|, Pow2(k));
  }

  lemma EmptyMeans<T>(k: nat, s: Ring<T>)
    requires k <= 63 && CountersMatch(k, s)
    ensures s.head == s.tail <==> |s.pushed| == |s.popped|
  {
    Pow2Increases(k, 63);
    assert Pow2(64) == 2 * Pow2(63);
    Pow64();
    SameRemainder(|s.pushed|, |s.popped|, U64);
  }

  lemma SlotOfHead<T>(k: nat, s: Ring<T>)
    requires k <= 63 && CountersMatch(k, s)
    ensures Slot(k, s.head) == |s.pushed| % Pow2(k)
    ensures Slot(k, s.tail) == |s.popped| % Pow2(k)
  {
    WrappedSlot(k, |s.pushed|);
    WrappedSlot(k, |s.popped|);
  }

  lemma FreshSlot<T>(k: nat, s: Ring<T>, i: nat)
    requires CountersMatch(k, s) && |s.popped| <= i < |s.pushed|
    requires |s.pushed| - |s.popped| + 1 < Pow2(k)
    ensures i % Pow2(k) != |s.pushed| % Pow2(k)
  {
    SameRemainder(|s.pushed|, i, Pow2(k));
  }

  /** Every step of either thread keeps the invariant. */
  lemma StepKeepsInv<T>(k: nat, s: Ring<T>, step: Step<T>)
    requires k <= 63 && Inv(k, s) && Do(k, s, step).Some?
    ensures Inv(k, Do(k, s, step).value)
  {
    WrappedSuccessor(|s.pushed|);
    WrappedSuccessor(|s.popped|);
    SlotOfHead(k, s);
    match step
    case PushLoadTail => FullMeans(k, s);
    case PopLoadHead => EmptyMeans(k, s);
    case PushWrite =>
      forall i | |s.popped| <= i < |s.pushed|
        ensures i % Pow2(k) != |s.pushed| % Pow2(k)
      {
        FreshSlot(k, s, i);
      }
    case _ =>
  }

  lemma {:induction false} RunKeepsInv<T>(k: nat, s: Ring<T>, steps: seq<Step<T>>)
    requires k <= 63 && Inv(k, s) && Run(k, s, steps).Some?
    ensures Inv(k, Run(k, s, steps).value)
    decreases |steps|
  {
    if steps != [] {
      StepKeepsInv(k, s, steps[0]);
      RunKeepsInv(k, Do(k, s, steps[0]).value, steps[1..]);
    }
  }

  lemma ReachableInv<T(!new)>(k: nat, s: Ring<T>)
    requires k <= 63 && Reachable(k, s)
    ensures Inv(k, s)
  {
    var buffer: seq<T>, steps :|
      |buffer| == Pow2(k) && Run(k, Empty(buffer), steps) == Some(s);
    RunKeepsInv(k, Empty(buffer), steps);
  }

  /** Whatever the interleaving, however long it runs and however often the counters wrap:
      what was popped is a prefix of what was pushed, and at most capacity - 1 values wait. */
  lemma PoppedIsPrefixOfPushed<T(!new)>(k: nat, s: Ring<T>)
    requires k <= 63 && Reachable(k, s)
    ensures s.popped <= s.pushed
    ensures |s.pushed| - |s.popped| <= Pow2(k) - 1
  {
    ReachableInv(k, s);
  }

  /** A push about to write and a pop about to read never meet in one slot. */
  lemma NoSlotRace<T(!new)>(k: nat, s: Ring<T>)
    requires k <= 63 && Reachable(k, s)
    requires s.producer.PushReady? && s.consumer.PopReady?
    ensures Slot(k, s.producer.head) != Slot(k, s.consumer.tail)
  {
    ReachableInv(k, s);
    SlotOfHead(k, s);
    FreshSlot(k, s, |s.popped|);
  }

  /** A push is refused exactly when capacity - 1 values wait at the moment it loads the
      tail, and a pop finds nothing exactly when none waits as it loads the head. */
  lemma RefusalsAreExact<T(!new)>(k: nat, s: Ring<T>)
    requires k <= 63 && Reachable(k, s)
    ensures s.producer.PushLoadedHead? ==>
              (Do(k, s, PushLoadTail).value.producer.PushIdle? <==>
               |s.pushed| - |s.popped| == Pow2(k) - 1)
    ensures s.consumer.PopLoadedTail? ==>
              (Do(k, s, PopLoadHead).value.consumer.PopIdle? <==> s.pushed == s.popped)
  {
    ReachableInv(k, s);
    FullMeans(k, s);
    EmptyMeans(k, s);
  }

  /** Every step is, on the waiting values, an enqueue of the pushed item, a dequeue of the
      oldest value, or nothing. */
  lemma StepRefinesQueue<T(!new)>(k: nat, s: Ring<T>, step: Step<T>)
    requires k <= 63 && Reachable(k, s) && Do(k, s, step).Some?
    ensures
      var t := Do(k, s, step).value;
      && |s.popped| <= |s.pushed| && |t.popped| <= |t.pushed|
      && match step
         case PushStore => Queue(t) == Queue(s) + [s.producer.item]
         case PopStore => Queue(s) == [s.consumer.item] + Queue(t)
         case _ => Queue(t) == Queue(s)
  {
    ReachableInv(k, s);
    StepKeepsInv(k, s, step);
  }

  /** `is_power_of_two` */
  predicate IsPowerOfTwo(c: nat) {
    c == 1 || (c > 0 && c % 2 == 0 && IsPowerOfTwo(c / 2))
  }

  function Log2(c: nat): (k: nat)
    requires IsPowerOfTwo(c)
    ensures Pow2(k) == c
  {
    if c == 1 then 0 else 1 + Log2(c / 2)
  }

  lemma {:induction false} PowersOfTwoAreAccepted(k: nat)
    ensures IsPowerOfTwo(Pow2(k))
  {
    if k > 0 { PowersOfTwoAreAccepted(k - 1); }
  }

  lemma Log2OfUsize(c: nat)
    requires IsPowerOfTwo(c) && c < U64
    ensures Log2(c) <= 63
  {
    if Log2(c) >= 64 {
      Pow2Increases(64, Log2(c));
      Pow64();
    }
  }

  /** The steps of one whole call. */
  function PushSteps<T>(item: T, accepted: bool): seq<Step<T>> {
    [PushLoadHead(item), PushLoadTail] + if accepted then [PushWrite, PushStore] else []
  }

  function PopSteps<T>(found: bool): seq<Step<T>> {
    [PopLoadTail, PopLoadHead] + if found then [PopReadSlot, PopStore] else []
  }

  lemma RunFirst<T>(k: nat, s: Ring<T>, step: Step<T>, rest: seq<Step<T>>)
    requires |s.buffer| == Pow2(k) && Do(k, s, step).Some?
    ensures Run(k, s, [step] + rest) == Run(k, Do(k, s, step).value, rest)
  {
    assert ([step] + rest)[1..] == rest;
  }

  lemma RunTwo<T>(k: nat, s: Ring<T>, a: Step<T>, b: Step<T>, rest: seq<Step<T>>)
    requires |s.buffer| == Pow2(k)
    requires Do(k, s, a).Some? && Do(k, Do(k, s, a).value, b).Some?
    ensures Run(k, s, [a, b] + rest) == Run(k, Do(k, Do(k, s, a).value, b).value, rest)
  {
    RunFirst(k, s, a, [b] + rest);
    RunFirst(k, Do(k, s, a).value, b, rest);
    assert [a, b] + rest == [a] + ([b] + rest);
  }

  /** An uninterrupted push, from the state between calls. */
  lemma WholePush<T>(k: nat, s: Ring<T>, item: T)
    requires k <= 63 && Inv(k, s) && s.producer.PushIdle?
    ensures
      var full := LooksFull(k, s.head, s.tail);
      var t := s.(buffer := s.buffer[Slot(k, s.head) := item], head := WrapAdd(s.head, 1),
                  pushed := s.pushed + [item]);
      && (full <==> |s.pushed| - |s.popped| == Pow2(k) - 1)
      && Run(k, s, PushSteps(item, !full)) == Some(if full then s else t)
      && (!full ==> Inv(k, t))
  {
    FullMeans(k, s);
    var s1 := Do(k, s, PushLoadHead(item)).value;
    var s2 := Do(k, s1, PushLoadTail).value;
    StepKeepsInv(k, s, PushLoadHead(item));
    StepKeepsInv(k, s1, PushLoadTail);
    if LooksFull(k, s.head, s.tail) {
      RunTwo(k, s, PushLoadHead(item), PushLoadTail, []);
    } else {
      StepKeepsInv(k, s2, PushWrite);
      StepKeepsInv(k, Do(k, s2, PushWrite).value, PushStore);
      RunTwo(k, s, PushLoadHead(item), PushLoadTail, [PushWrite, PushStore]);
      RunTwo(k, s2, PushWrite, PushStore, []);
      assert PushSteps(item, true)[2..] + [] == [PushWrite, PushStore];
    }
  }

  lemma WholePop<T>(k: nat, s: Ring<T>)
    requires k <= 63 && Inv(k, s) && s.consumer.PopIdle?
    ensures
      var found := s.tail != s.head;
      var t := s.(tail := WrapAdd(s.tail, 1), popped := s.popped + [s.buffer[Slot(k, s.tail)]]);
      && (found <==> |s.popped| < |s.pushed|)
      && Run(k, s, PopSteps(found)) == Some(if found then t else s)
      && (found ==> Inv(k, t) && s.buffer[Slot(k, s.tail)] == s.pushed[|s.popped|])
  {
    EmptyMeans(k, s);
    SlotOfHead(k, s);
    var s1 := Do(k, s, PopLoadTail).value;
    var s2 := Do(k, s1, PopLoadHead).value;
    StepKeepsInv(k, s, PopLoadTail);
    StepKeepsInv(k, s1, PopLoadHead);
    if s.tail == s.head {
      RunTwo(k, s, PopLoadTail, PopLoadHead, []);
    } else {
      StepKeepsInv(k, s2, PopReadSlot);
      StepKeepsInv(k, Do(k, s2, PopReadSlot).value, PopStore);
      RunTwo(k, s, PopLoadTail, PopLoadHead, [PopReadSlot, PopStore]);
      RunTwo(k, s2, PopReadSlot, PopStore, []);
      assert PopSteps<T>(true)[2..] + [] == [PopReadSlot, PopStore];
    }
  }

  class CacheOptimizedRingBuffer<T(0)> {
    const buffer: array<T>
    const capacity: nat
    const mask: nat
    var producerHead: nat
    var consumerTail: nat
    ghost var pushed: seq<T>
    ghost var popped: seq<T>

    /** The state of the transition system while no call is in flight. */
    ghost function View(): Ring<T>
      reads this, buffer
    {
      Ring(buffer[..], producerHead, consumerTail, PushIdle, PopIdle, pushed, popped)
    }

    ghost predicate Valid()
      reads this, buffer
    {
      && IsPowerOfTwo(capacity) && capacity < U64 && mask == capacity - 1
      && Inv(Log2(capacity), View())
    }

    ghost function Contents(): seq<T>
      reads this, buffer
      requires Valid()
    {
      Queue(View())
    }

    constructor Allocate(capacity: nat)
      requires IsPowerOfTwo(capacity) && capacity < U64
      ensures Valid() && Contents() == [] && this.capacity == capacity
      ensures View() == Empty(buffer[..]) && fresh(buffer)
    {
      this.buffer := new T[capacity];
      this.capacity := capacity;
      this.mask := capacity - 1;
      producerHead, consumerTail := 0, 0;
      pushed, popped := [], [];
    }

    /** `new`: any other capacity is an error. */
    static method New(capacity: nat) returns (r: Result<CacheOptimizedRingBuffer<T>, string>)
      requires capacity < U64
      ensures r.Ok? <==> exists k :: capacity == Pow2(k)
      ensures r.Ok? ==> fresh(r.value) && fresh(r.value.buffer) && r.value.Valid()
      ensures r.Ok? ==> r.value.capacity == capacity && r.value.Contents() == []
    {
      forall k | capacity == Pow2(k) ensures IsPowerOfTwo(capacity) {
        PowersOfTwoAreAccepted(k);
      }
      if !IsPowerOfTwo(capacity) {
        return Err("Capacity must be a power of 2");
      }
      assert capacity == Pow2(Log2(capacity));
      var ring := new CacheOptimizedRingBuffer<T>.Allocate(capacity);
      r := Ok(ring);
    }

    method TryPush(item: T) returns (ok: bool)
      requires Valid()
      modifies this`producerHead, this`pushed, buffer
      ensures Valid()
      ensures ok <==> |old(Contents())| < capacity - 1
      ensures Contents() == if ok then old(Contents()) + [item] else old(Contents())
      ensures Run(Log2(capacity), old(View()), PushSteps(item, ok)) == Some(View())
    {
      ghost var k, s := Log2(capacity), View();
      Log2OfUsize(capacity);
      WholePush(k, s, item);
      AndLowMask(WrapAdd(producerHead, 1), k);
      AndLowMask(consumerTail, k);
      var currentHead := producerHead;
      var currentTail := consumerTail;
      if And(WrapAdd(currentHead, 1), mask) == And(currentTail, mask) {
        return false;
      }
      AndLowMask(currentHead, k);
      buffer[And(currentHead, mask)] := item;
      producerHead := WrapAdd(currentHead, 1);
      pushed := pushed + [item];
      return true;
    }

    method TryPop() returns (r: Option<T>)
      requires Valid()
      modifies this`consumerTail, this`popped
      ensures Valid()
      ensures r.Some? <==> old(Contents()) != []
      ensures if r.Some? then old(Contents()) == [r.value] + Contents()
                         else Contents() == old(Contents())
      ensures Run(Log2(capacity), old(View()), PopSteps(r.Some?)) == Some(View())
    {
      ghost var k, s := Log2(capacity), View();
      Log2OfUsize(capacity);
      WholePop(k, s);
      var currentTail := consumerTail;
      var currentHead := producerHead;
      if currentTail == currentHead {
        return None;
      }
      AndLowMask(currentTail, k);
      var item := buffer[And(currentTail, mask)];
      consumerTail := WrapAdd(currentTail, 1);
      popped := popped + [item];
      return Some(item);
    }

    method Len() returns (n: nat)
      requires Valid()
      ensures n == |Contents()|
    {
      var head := producerHead;
      var tail := consumerTail;
      n := And(WrapSub(WrapAdd(head, capacity), tail), mask);
      Log2OfUsize(capacity);
      LenIsExact(Log2(capacity), View());
    }
  }

  lemma LenIsExact<T>(k: nat, s: Ring<T>)
    requires k <= 63 && CountersMatch(k, s)
    ensures And(WrapSub(WrapAdd(s.head, Pow2(k)), s.tail), Pow2(k) - 1) == |s.pushed| - |s.popped|
  {
    var n, c := |s.pushed| - |s.popped|, Pow2(k);
    AndLowMask(WrapSub(WrapAdd(s.head, c), s.tail), k);
    WrappedDifference(|s.pushed|, |s.popped|, c);
    WrappedSlot(k, n + c);
    OneTurn(n, c);
  }

  lemma OneTurn(n: nat, c: nat)
    requires n < c
    ensures (n + c) % c == n
  {
    RemainderIsUnique(n + c, c, 1, n);
  }

  lemma WrappedDifference(p: nat, q: nat, c: nat)
    requires q <= p
    ensures WrapSub(WrapAdd(p % U64, c), q % U64) == (p - q + c) % U64
  {
    var sum := p % U64 + c;
    WrapsEqual(p - q + c, sum % U64 - q % U64, p / U64 - q / U64 + sum / U64);
  }

  lemma WrapsEqual(a: int, b: int, turns: int)
    requires a == b + U64 * turns
    ensures a % U64 == b % U64
  {
    RemainderIsUnique(a, U64, b / U64 + turns, b % U64);
  }
}
