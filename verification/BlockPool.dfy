/** The bitmap of perf/zero_copy_io.rs that records which blocks of a pool are free, and
    how single-bit updates of its words change the set of free blocks. */
module BlockBitmap {
  import opened Bits

  predicate IsFree(words: seq<nat>, b: nat) {
    b / 64 < |words| && Bit(words[b / 64], b % 64)
  }

  function FreeSet(words: seq<nat>): set<nat> {
    set b: nat | 0 <= b < 64 * |words| && IsFree(words, b)
  }

  function AllBlocks(total: nat): (all: set<nat>)
    ensures forall b :: b in all <==> 0 <= b < total
    ensures |all| == total
  {
    if total == 0 then {} else AllBlocks(total - 1) + {total - 1}
  }

  ghost predicate WordsOk(words: seq<nat>) {
    forall i :: 0 <= i < |words| ==> words[i] < U64
  }

  function BitmapSize(total: nat): nat {
    (total + 63) / 64
  }

  lemma InFreeSet(words: seq<nat>, b: nat)
    ensures b in FreeSet(words) <==> IsFree(words, b)
  {}

  lemma BlockPosition(i: nat, k: nat)
    requires k < 64
    ensures (64 * i + k) / 64 == i && (64 * i + k) % 64 == k
  {}

  lemma BlockInBitmap(total: nat, b: nat)
    requires b < total
    ensures b / 64 < BitmapSize(total) && 64 * (b / 64) + b % 64 == b
  {}

  /** Clearing bit `k` of word `i` takes block `64 i + k` out of the free set. */
  lemma ClearTakesBlock(words: seq<nat>, i: nat, k: nat)
    requires i < |words| && k < 64 && WordsOk(words)
    ensures WordsOk(words[i := AndNot(words[i], Shl1(k))])
    ensures FreeSet(words[i := AndNot(words[i], Shl1(k))]) == FreeSet(words) - {64 * i + k}
  {
    var w := AndNot(words[i], Shl1(k));
    AndNotIsRest(words[i], Shl1(k));
    BlockPosition(i, k);
    forall b: nat ensures IsFree(words[i := w], b) <==> IsFree(words, b) && b != 64 * i + k {
      BitOfAndNot(words[i], Shl1(k), b % 64);
      BitOfShl1(k, b % 64);
    }
  }

  /** Setting bit `b % 64` of word `b / 64` puts block `b` into the free set. */
  lemma SetReturnsBlock(words: seq<nat>, b: nat)
    requires b / 64 < |words| && WordsOk(words)
    ensures
      var words' := words[b / 64 := Or(words[b / 64], Shl1(b % 64))];
      WordsOk(words') && FreeSet(words') == FreeSet(words) + {b}
  {
    var w := Or(words[b / 64], Shl1(b % 64));
    SetBitStaysInWord(words[b / 64], b % 64);
    forall c: nat ensures IsFree(words[b / 64 := w], c) <==> IsFree(words, c) || c == b {
      BitOfOr(words[b / 64], Shl1(b % 64), c % 64);
      BitOfShl1(b % 64, c % 64);
    }
  }

  /** A word is zero exactly when none of its blocks is free. */
  lemma ZeroWordIsFull(words: seq<nat>, i: nat)
    requires i < |words| && WordsOk(words)
    ensures words[i] == 0 <==> forall b :: b in FreeSet(words) ==> b / 64 != i
  {
    if words[i] == 0 {
      forall b | b in FreeSet(words) ensures b / 64 != i {
        BitOfZero(b % 64);
      }
    } else {
      LowestBitInWord(words[i]);
      BlockPosition(i, TrailingZeros(words[i]));
      assert 64 * i + TrailingZeros(words[i]) in FreeSet(words);
    }
  }

  /** The word `SharedMemoryPool::new` stores at index `i`: all ones, or only the valid bits
      of a last word that is not full. */
  function InitialWord(total: nat, i: nat): nat {
    if i + 1 == BitmapSize(total) && total % 64 != 0 then Shl1(total % 64) - 1 else U64 - 1
  }

  lemma LastWord(total: nat, i: nat)
    requires i < BitmapSize(total)
    ensures if i + 1 == BitmapSize(total) && total % 64 != 0 then total == 64 * i + total % 64
            else 64 * i + 64 <= total
  {}

  lemma InitialWordBits(total: nat, i: nat, k: nat)
    requires i < BitmapSize(total) && k < 64
    ensures InitialWord(total, i) < U64
    ensures Bit(InitialWord(total, i), k) <==> 64 * i + k < total
  {
    LastWord(total, i);
    var valid := total % 64;
    Pow64();
    Pow2Increases(valid, 64);
    BitOfLowMask(valid, k);
    BitOfLowMask(64, k);
    assert InitialWord(total, i) == Shl1(valid) - 1 || InitialWord(total, i) == Shl1(64) - 1;
  }

  lemma InitialBits(total: nat, words: seq<nat>)
    requires |words| == BitmapSize(total)
    requires forall i :: 0 <= i < |words| ==> words[i] == InitialWord(total, i)
    ensures WordsOk(words) && FreeSet(words) == AllBlocks(total)
  {
    forall i | 0 <= i < |words| ensures words[i] < U64 {
      InitialWordBits(total, i, 0);
    }
    forall b: nat ensures IsFree(words, b) <==> b < total {
      if b / 64 < |words| { InitialWordBits(total, b / 64, b % 64); }
    }
  }

  /** The free blocks with index below `n`. */
  function FreeBelow(words: seq<nat>, n: nat): set<nat> {
    set b: nat | 0 <= b < n && IsFree(words, b)
  }

  lemma FreeBelowNext(words: seq<nat>, n: nat)
    ensures |FreeBelow(words, n + 1)|
            == |FreeBelow(words, n)| + if IsFree(words, n) then 1 else 0
  {
    var before := FreeBelow(words, n);
    assert FreeBelow(words, n + 1) == if IsFree(words, n) then before + {n} else before;
  }

  lemma {:induction false} CountOneWord(words: seq<nat>, i: nat, k: nat)
    requires i < |words| && k <= 64
    ensures |FreeBelow(words, 64 * i + k)| == |FreeBelow(words, 64 * i)| + OnesBelow(words[i], k)
  {
    if k > 0 {
      CountOneWord(words, i, k - 1);
      BlockPosition(i, k - 1);
      FreeBelowNext(words, 64 * i + (k - 1));
    }
  }

  /** The word the allocator looks at in an attempt: cyclically from `start`. */
  function ScanIndex(start: nat, attempt: nat, n: nat): (i: nat)
    requires n > 0
    ensures i < n
  {
    (start + attempt) % n
  }

  /** Block `b` is the first free block in the order the allocator looks: words cyclically
      from `start`, in a word the lowest bit. */
  ghost predicate FirstInScan(words: seq<nat>, start: nat, b: nat) {
    exists a ::
      && 0 <= a < |words| && ScanIndex(start, a, |words|) == b / 64
      && (forall earlier :: 0 <= earlier < a ==> words[ScanIndex(start, earlier, |words|)] == 0)
      && forall k :: 0 <= k < b % 64 ==> !Bit(words[b / 64], k)
  }

  lemma NextRemainder(k: nat, n: nat)
    requires n > 0
    ensures (k + 1) % n == if k % n + 1 < n then k % n + 1 else 0
  {
    var q, r := k / n, k % n;
    if r + 1 < n {
      RemainderIsUnique(k + 1, n, q, r + 1);
    } else {
      MulDistributes(n, q, 1);
      RemainderIsUnique(k + 1, n, q + 1, 0);
    }
  }

  /** The scan begins at the hint, if that is a word, and goes on word by word, from the last to
      word 0. */
  lemma ScanGoesRound(start: nat, a: nat, n: nat)
    requires n > 0
    ensures start < n ==> ScanIndex(start, 0, n) == start
    ensures
      var i := ScanIndex(start, a, n);
      ScanIndex(start, a + 1, n) == if i + 1 < n then i + 1 else 0
  {
    if start < n { RemainderIsUnique(start, n, 0, start); }
    NextRemainder(start + a, n);
  }

  /** The cyclic scan visits every word, wherever it starts. */
  lemma ScanVisits(start: nat, n: nat, i: nat) returns (a: nat)
    requires i < n
    ensures a < n && ScanIndex(start, a, n) == i
  {
    var r := start % n;
    a := if r <= i then i - r else n - r + i;
    assert start == n * (start / n) + r;
    if r <= i {
      RemainderIsUnique(start + a, n, start / n, i);
    } else {
      MulDistributes(n, start / n, 1);
      RemainderIsUnique(start + a, n, start / n + 1, i);
    }
  }

  /** The lowest one bit of the first word that is not zero is the first free block. */
  lemma FirstFreeBlock(words: seq<nat>, start: nat, a: nat) returns (b: nat)
    requires WordsOk(words) && a < |words| && words[ScanIndex(start, a, |words|)] != 0
    requires forall e :: 0 <= e < a ==> words[ScanIndex(start, e, |words|)] == 0
    ensures
      var i := ScanIndex(start, a, |words|);
      var cleared := words[i := AndNot(words[i], Shl1(TrailingZeros(words[i])))];
      && b == i * 64 + TrailingZeros(words[i])
      && b in FreeSet(words) && FirstInScan(words, start, b)
      && WordsOk(cleared) && FreeSet(cleared) == FreeSet(words) - {b}
  {
    var i := ScanIndex(start, a, |words|);
    var k := TrailingZeros(words[i]);
    b := i * 64 + k;
    LowestBitInWord(words[i]);
    BlockPosition(i, k);
    ClearTakesBlock(words, i, k);
    InFreeSet(words, b);
  }

  lemma NothingLeft(words: seq<nat>, start: nat)
    requires WordsOk(words)
    requires forall a :: 0 <= a < |words| ==> words[ScanIndex(start, a, |words|)] == 0
    ensures FreeSet(words) == {}
  {
    forall b | b in FreeSet(words) ensures false {
      var a := ScanVisits(start, |words|, b / 64);
      ZeroWordIsFull(words, b / 64);
    }
  }
}

/** Threads allocating and freeing blocks of one pool at the same time, one atomic load,
    compare-exchange, fetch_or or store at a time. */
module ConcurrentPool {
  import opened Bits
  import opened BlockBitmap
  import opened Wrappers

  /** Where a thread's `allocate_block` stands. */
  datatype Pc =
    | Idle
    | Scanning(start: nat, attempt: nat)
    | Loaded(start: nat, attempt: nat, current: nat)
    | Won(start: nat, attempt: nat, block: nat)

  /** `held` are the blocks whose handles the thread owns. */
  datatype Thread = Thread(pc: Pc, held: multiset<nat>)

  /** `leaked` are blocks whose handles were dropped without being freed. */
  datatype Pool = Pool(words: seq<nat>, head: nat, threads: seq<Thread>, leaked: multiset<nat>)

  datatype Step =
    | Begin(t: nat)
    | Load(t: nat)
    | Exchange(t: nat, spurious: bool)
    | Finish(t: nat)
    | Free(t: nat, block: nat)
    | Give(t: nat, to: nat, block: nat)
    | Drop(t: nat, block: nat)

  function WithPc(s: Pool, t: nat, pc: Pc): Pool
    requires t < |s.threads|
  {
    s.(threads := s.threads[t := s.threads[t].(pc := pc)])
  }

  function WithHeld(s: Pool, t: nat, held: multiset<nat>): Pool
    requires t < |s.threads|
  {
    s.(threads := s.threads[t := s.threads[t].(held := held)])
  }

  /** One atomic action of thread `t`; None when it is not that thread's next action. A
      compare_exchange_weak may fail spuriously. */
  function Do(total: nat, s: Pool, step: Step): Option<Pool> {
    if step.t >= |s.threads| then None
    else
      var th := s.threads[step.t];
      match step
      case Begin(t) =>
        if th.pc.Idle? then Some(WithPc(s, t, Scanning(s.head / 64, 0))) else None
      case Load(t) =>
        if !th.pc.Scanning? then None
        else if th.pc.attempt >= |s.words| then Some(WithPc(s, t, Idle))
        else
          var current := s.words[ScanIndex(th.pc.start, th.pc.attempt, |s.words|)];
          Some(WithPc(s, t, Loaded(th.pc.start, th.pc.attempt, current)))
      case Exchange(t, spurious) =>
        if !th.pc.Loaded? || |s.words| == 0 then None
        else
          var Loaded(start, attempt, current) := th.pc;
          var i := ScanIndex(start, attempt, |s.words|);
          if current == 0 then Some(WithPc(s, t, Scanning(start, attempt + 1)))
          else if s.words[i] != current || spurious then
            Some(WithPc(s, t, Loaded(start, attempt, s.words[i])))
          else
            var bit := TrailingZeros(current);
            var next := s.(words := s.words[i := AndNot(current, Shl1(bit))]);
            Some(WithPc(next, t, Won(start, attempt, i * 64 + bit)))
      case Finish(t) =>
        if !th.pc.Won? || |s.words| == 0 then None
        else
          var Won(start, attempt, block) := th.pc;
          var i := ScanIndex(start, attempt, |s.words|);
          if block >= total then
            var restored := s.(words := s.words[i := Or(s.words[i], Shl1(block % 64))]);
            Some(WithPc(restored, t, Scanning(start, attempt + 1)))
          else
            var next := s.(head := (block + 1) * 64);
            Some(WithHeld(WithPc(next, t, Idle), t, th.held + multiset{block}))
      case Free(t, block) =>
        if block !in th.held || !th.pc.Idle? then None
        else
          var next := WithHeld(s, t, th.held - multiset{block});
          var i := block / 64;
          Some(if i < |s.words| then
                 next.(words := s.words[i := Or(s.words[i], Shl1(block % 64))])
               else next)
      case Give(t, to, block) =>
        if block !in th.held || to >= |s.threads| || to == t then None
        else
          var next := WithHeld(s, t, th.held - multiset{block});
          Some(WithHeld(next, to, next.threads[to].held + multiset{block}))
      case Drop(t, block) =>
        if block !in th.held then None
        else Some(WithHeld(s, t, th.held - multiset{block}).(leaked := s.leaked + multiset{block}))
  }

  function Run(total: nat, s: Pool, steps: seq<Step>): Option<Pool>
    decreases |steps|
  {
    if steps == [] then Some(s)
    else
      match Do(total, s, steps[0])
      case None => None
      case Some(t) => Run(total, t, steps[1..])
  }

  function Fresh(total: nat, threads: nat): Pool {
    Pool(seq(BitmapSize(total), i requires 0 <= i => InitialWord(total, i)), 0,
         seq(threads, i => Thread(Idle, multiset{})), multiset{})
  }

  ghost predicate Reachable(total: nat, s: Pool) {
    exists threads: nat, steps :: Run(total, Fresh(total, threads), steps) == Some(s)
  }

  /** The blocks a thread owns: those it holds and the one it has just won. */
  function Claim(th: Thread): multiset<nat> {
    if th.pc.Won? then th.held + multiset{th.pc.block} else th.held
  }

  function Claims(threads: seq<Thread>): multiset<nat> {
    if threads == [] then multiset{} else Claim(threads[0]) + Claims(threads[1..])
  }

  ghost predicate PcOk(s: Pool, pc: Pc) {
    match pc
    case Loaded(_, attempt, current) => attempt < |s.words| && current < U64
    case Won(start, attempt, block) =>
      attempt < |s.words| && block / 64 == ScanIndex(start, attempt, |s.words|)
    case _ => true
  }

  /** In how many places block `b` is: in threads' hands, leaked, or free. */
  function Places(s: Pool, b: nat): nat {
    Claims(s.threads)[b] + s.leaked[b] + if IsFree(s.words, b) then 1 else 0
  }

  /** Every block of the pool is in exactly one place, and no other block is in any. */
  ghost predicate Inv(total: nat, s: Pool) {
    && |s.words| == BitmapSize(total)
    && WordsOk(s.words)
    && (forall t :: 0 <= t < |s.threads| ==> PcOk(s, s.threads[t].pc))
    && forall b: nat :: Places(s, b) == if b < total then 1 else 0
  }

  lemma {:induction false} ClaimsUpdate(threads: seq<Thread>, t: nat, th: Thread, b: nat)
    requires t < |threads|
    ensures Claims(threads[t := th])[b] + Claim(threads[t])[b] == Claims(threads)[b] + Claim(th)[b]
  {
    if t == 0 {
      assert threads[t := th][1..] == threads[1..];
    } else {
      assert threads[t := th][1..] == threads[1..][t - 1 := th];
      ClaimsUpdate(threads[1..], t - 1, th, b);
    }
  }

  lemma {:induction false} ClaimInClaims(threads: seq<Thread>, t: nat)
    requires t < |threads|
    ensures Claim(threads[t]) <= Claims(threads)
  {
    if t > 0 { ClaimInClaims(threads[1..], t - 1); }
  }

  lemma {:induction false} TwoClaimsInClaims(threads: seq<Thread>, t: nat, u: nat)
    requires t < u < |threads|
    ensures Claim(threads[t]) + Claim(threads[u]) <= Claims(threads)
  {
    if t == 0 {
      ClaimInClaims(threads[1..], u - 1);
    } else {
      TwoClaimsInClaims(threads[1..], t - 1, u - 1);
    }
  }

  /** A block some thread claims is a block of the pool, claimed once, and not free. */
  lemma ClaimedBlock(total: nat, s: Pool, t: nat, b: nat)
    requires Inv(total, s) && t < |s.threads| && b in Claim(s.threads[t])
    ensures b < total && !IsFree(s.words, b) && b / 64 < |s.words|
    ensures Claims(s.threads)[b] == 1 && s.leaked[b] == 0
  {
    ClaimInClaims(s.threads, t);
    assert Places(s, b) == if b < total then 1 else 0;
  }

  /** A step that changes one thread keeps the invariant when it moves blocks only between
      that thread, the leaked ones and the bitmap. */
  lemma MoveKeepsInv(total: nat, s: Pool, next: Pool, t: nat)
    requires Inv(total, s) && t < |s.threads| == |next.threads|
    requires next.threads == s.threads[t := next.threads[t]]
    requires |next.words| == |s.words| && WordsOk(next.words) && PcOk(next, next.threads[t].pc)
    requires forall b: nat ::
      Claim(next.threads[t])[b] + next.leaked[b] + (if IsFree(next.words, b) then 1 else 0)
      == Claim(s.threads[t])[b] + s.leaked[b] + if IsFree(s.words, b) then 1 else 0
    ensures Inv(total, next)
  {
    forall b: nat ensures Places(next, b) == Places(s, b) {
      ClaimsUpdate(s.threads, t, next.threads[t], b);
    }
    forall u | 0 <= u < |next.threads| ensures PcOk(next, next.threads[u].pc) {
      assert u != t ==> PcOk(s, s.threads[u].pc);
    }
  }

  /** Winning a block takes its bit, and nothing else, out of the bitmap. */
  lemma LowestBitTaken(words: seq<nat>, i: nat, b: nat)
    requires WordsOk(words) && i < |words| && words[i] != 0
    ensures
      var bit := TrailingZeros(words[i]);
      var next := words[i := AndNot(words[i], Shl1(bit))];
      && bit < 64 && (i * 64 + bit) / 64 == i && IsFree(words, i * 64 + bit) && WordsOk(next)
      && (IsFree(next, b) <==> IsFree(words, b) && b != i * 64 + bit)
  {
    var bit := TrailingZeros(words[i]);
    LowestBitInWord(words[i]);
    BlockPosition(i, bit);
    ClearTakesBlock(words, i, bit);
    InFreeSet(words[i := AndNot(words[i], Shl1(bit))], b);
    InFreeSet(words, b);
  }

  lemma ExchangeKeepsInv(total: nat, s: Pool, t: nat, spurious: bool)
    requires Inv(total, s) && Do(total, s, Exchange(t, spurious)).Some?
    ensures Inv(total, Do(total, s, Exchange(t, spurious)).value)
  {
    assert PcOk(s, s.threads[t].pc);
    var Loaded(start, attempt, current) := s.threads[t].pc;
    var i := ScanIndex(start, attempt, |s.words|);
    var next := Do(total, s, Exchange(t, spurious)).value;
    if current != 0 && s.words[i] == current && !spurious {
      var block := i * 64 + TrailingZeros(current);
      LowestBitTaken(s.words, i, block);
      forall b: nat ensures IsFree(next.words, b) <==> IsFree(s.words, b) && b != block {
        LowestBitTaken(s.words, i, b);
      }
    }
    MoveKeepsInv(total, s, next, t);
  }

  lemma FinishKeepsInv(total: nat, s: Pool, t: nat)
    requires Inv(total, s) && Do(total, s, Finish(t)).Some?
    ensures Inv(total, Do(total, s, Finish(t)).value)
  {
    ClaimedBlock(total, s, t, s.threads[t].pc.block);
    MoveKeepsInv(total, s, Do(total, s, Finish(t)).value, t);
  }

  lemma FreeKeepsInv(total: nat, s: Pool, t: nat, block: nat)
    requires Inv(total, s) && Do(total, s, Free(t, block)).Some?
    ensures Inv(total, Do(total, s, Free(t, block)).value)
  {
    ClaimedBlock(total, s, t, block);
    SetReturnsBlock(s.words, block);
    var next := Do(total, s, Free(t, block)).value;
    forall b: nat ensures IsFree(next.words, b) <==> IsFree(s.words, b) || b == block {
      InFreeSet(next.words, b);
      InFreeSet(s.words, b);
    }
    MoveKeepsInv(total, s, next, t);
  }

  lemma HeldLess(th: Thread, block: nat, b: nat)
    requires block in th.held
    ensures Claim(th.(held := th.held - multiset{block}))[b] + (if b == block then 1 else 0)
            == Claim(th)[b]
  {}

  lemma HeldMore(th: Thread, block: nat, b: nat)
    ensures Claim(th.(held := th.held + multiset{block}))[b]
            == Claim(th)[b] + if b == block then 1 else 0
  {}

  lemma GiveKeepsClaims(threads: seq<Thread>, t: nat, to: nat, block: nat, b: nat)
    requires t < |threads| && to < |threads| && t != to && block in threads[t].held
    ensures
      var less := threads[t].(held := threads[t].held - multiset{block});
      var more := threads[to].(held := threads[to].held + multiset{block});
      Claims(threads[t := less][to := more])[b] == Claims(threads)[b]
  {
    var less := threads[t].(held := threads[t].held - multiset{block});
    var more := threads[to].(held := threads[to].held + multiset{block});
    ClaimsUpdate(threads, t, less, b);
    ClaimsUpdate(threads[t := less], to, more, b);
    HeldLess(threads[t], block, b);
    HeldMore(threads[to], block, b);
  }

  lemma GiveKeepsInv(total: nat, s: Pool, t: nat, to: nat, block: nat)
    requires Inv(total, s) && Do(total, s, Give(t, to, block)).Some?
    ensures Inv(total, Do(total, s, Give(t, to, block)).value)
  {
    var next := Do(total, s, Give(t, to, block)).value;
    forall b: nat ensures Places(next, b) == Places(s, b) {
      GiveKeepsClaims(s.threads, t, to, block, b);
    }
    forall u | 0 <= u < |next.threads| ensures PcOk(next, next.threads[u].pc) {
      assert PcOk(s, s.threads[u].pc);
    }
  }

  lemma StepKeepsInv(total: nat, s: Pool, step: Step)
    requires Inv(total, s) && Do(total, s, step).Some?
    ensures Inv(total, Do(total, s, step).value)
  {
    match step
    case Exchange(t, spurious) => ExchangeKeepsInv(total, s, t, spurious);
    case Finish(t) => FinishKeepsInv(total, s, t);
    case Free(t, block) => FreeKeepsInv(total, s, t, block);
    case Give(t, to, block) => GiveKeepsInv(total, s, t, to, block);
    case _ => MoveKeepsInv(total, s, Do(total, s, step).value, step.t);
  }

  lemma {:induction false} RunKeepsInv(total: nat, s: Pool, steps: seq<Step>)
    requires Inv(total, s) && Run(total, s, steps).Some?
    ensures Inv(total, Run(total, s, steps).value)
    decreases |steps|
  {
    if steps != [] {
      StepKeepsInv(total, s, steps[0]);
      RunKeepsInv(total, Do(total, s, steps[0]).value, steps[1..]);
    }
  }

  lemma {:induction false} NoClaimsAtStart(threads: seq<Thread>)
    requires forall t :: 0 <= t < |threads| ==> threads[t] == Thread(Idle, multiset{})
    ensures Claims(threads) == multiset{}
  {
    if threads != [] { NoClaimsAtStart(threads[1..]); }
  }

  lemma ReachableInv(total: nat, s: Pool)
    requires Reachable(total, s)
    ensures Inv(total, s)
  {
    var threads: nat, steps :| Run(total, Fresh(total, threads), steps) == Some(s);
    var start := Fresh(total, threads);
    InitialBits(total, start.words);
    NoClaimsAtStart(start.threads);
    forall b: nat ensures Places(start, b) == if b < total then 1 else 0 {
      InFreeSet(start.words, b);
    }
    RunKeepsInv(total, start, steps);
  }

  /** Whatever the interleaving and the number of threads, no block has two owners: neither
      two threads, nor one thread twice, nor a thread and the free list. */
  lemma NoBlockHasTwoOwners(total: nat, s: Pool, t: nat, b: nat)
    requires Reachable(total, s) && t < |s.threads| && b in Claim(s.threads[t])
    ensures Claim(s.threads[t])[b] == 1 && b !in FreeSet(s.words) && b !in s.leaked
    ensures forall u :: 0 <= u < |s.threads| && u != t ==> b !in Claim(s.threads[u])
  {
    ReachableInv(total, s);
    ClaimedBlock(total, s, t, b);
    ClaimInClaims(s.threads, t);
    forall u | 0 <= u < |s.threads| && u != t ensures b !in Claim(s.threads[u]) {
      if t < u { TwoClaimsInClaims(s.threads, t, u); } else { TwoClaimsInClaims(s.threads, u, t); }
    }
  }

  /** Blocks are never lost or made: free + owned + leaked is always the pool size. */
  lemma BlocksAreConserved(total: nat, s: Pool)
    requires Reachable(total, s)
    ensures |FreeSet(s.words)| + |Claims(s.threads)| + |s.leaked| == total
  {
    ReachableInv(total, s);
    forall b: nat ensures Everywhere(s)[b] == multiset(AllBlocks(total))[b] {
      assert Places(s, b) == if b < total then 1 else 0;
      EverywhereCountsPlaces(s, b);
    }
    assert Everywhere(s) == multiset(AllBlocks(total));
  }

  function Everywhere(s: Pool): (m: multiset<nat>)
    ensures |m| == |Claims(s.threads)| + |s.leaked| + |FreeSet(s.words)|
  {
    Claims(s.threads) + s.leaked + multiset(FreeSet(s.words))
  }

  lemma EverywhereCountsPlaces(s: Pool, b: nat)
    ensures Everywhere(s)[b] == Places(s, b)
  {
    InFreeSet(s.words, b);
  }

  /** Bits at or above the block count are never set, and so the branch that gives back a
      block outside the pool is never taken. */
  lemma RestoreIsUnreachable(total: nat, s: Pool)
    requires Reachable(total, s)
    ensures forall b :: b in FreeSet(s.words) ==> b < total
    ensures forall t :: 0 <= t < |s.threads| && s.threads[t].pc.Won? ==>
              s.threads[t].pc.block < total
  {
    ReachableInv(total, s);
    forall b | b in FreeSet(s.words) ensures b < total {
      assert Places(s, b) == if b < total then 1 else 0;
    }
    forall t | 0 <= t < |s.threads| && s.threads[t].pc.Won?
      ensures s.threads[t].pc.block < total
    {
      ClaimedBlock(total, s, t, s.threads[t].pc.block);
    }
  }
}

/** The pool and the memory manager run by one thread. */
module SharedMemory {
  import opened Bits
  import opened BlockBitmap
  import opened ConcurrentPool
  import opened PoolRuns
  import opened Wrappers

  /** `offset` stands for the pointer into the pool's region. */
  datatype ZeroCopyBlock = ZeroCopyBlock(offset: nat, size: nat, poolId: nat, blockIndex: nat)

  /** The least multiple of the 64-byte cache line that holds a block. */
  function AlignedSize(blockSize: nat): nat {
    (blockSize + 63) / 64 * 64
  }

  lemma AlignedSizeIsLeast(blockSize: nat)
    ensures AlignedSize(blockSize) % 64 == 0
    ensures blockSize <= AlignedSize(blockSize) < blockSize + 64
  {}

  /** The mask computes it. */
  method Align(blockSize: nat) returns (aligned: nat)
    ensures aligned == AlignedSize(blockSize)
  {
    aligned := AndNot(blockSize + 63, 63);
    WithoutLowSixBits(blockSize + 63);
  }

  lemma WithoutLowSixBits(n: nat)
    ensures AndNot(n, 63) == n / 64 * 64
  {
    LowSixBits(n);
    AndNotIsRest(n, 63);
  }

  lemma LowSixBits(n: nat)
    ensures And(n, 63) == n % 64
  {
    assert Pow2(3) == 8;
    Pow2Adds(3, 3);
    AndLowMask(n, 6);
  }

  /** A set of blocks of the pool stays one when a block of the pool joins it. */
  lemma JoinStaysInPool(blocks: set<nat>, b: nat, total: nat)
    requires blocks <= AllBlocks(total) && b < total
    ensures blocks + {b} <= AllBlocks(total)
  {}

  /** A pool run by one thread. */
  function Alone(words: seq<nat>, head: nat, held: multiset<nat>): Pool {
    Pool(words, head, [Thread(Idle, held)], multiset{})
  }

  /** Word `i` loses its lowest bit, which is block `b`. */
  predicate TookWord(words: seq<nat>, words': seq<nat>, i: nat, b: nat) {
    && i < |words| && words[i] != 0 && b == i * 64 + TrailingZeros(words[i])
    && words' == words[i := AndNot(words[i], Shl1(TrailingZeros(words[i])))]
  }

  lemma AloneTakes(total: nat, words: seq<nat>, head: nat, n: nat, i: nat, words': seq<nat>,
                   b: nat)
    requires n < |words| && i == ScanIndex(head / 64, n, |words|) && b < total
    requires ZerosFirst(words, head / 64, n) && TookWord(words, words', i, b)
    ensures forall held: multiset<nat> ::
              Leads(total, Alone(words, head, held),
                    Alone(words', (b + 1) * 64, held + multiset{b}), false)
  {
    forall held: multiset<nat>
      ensures Leads(total, Alone(words, head, held),
                    Alone(words', (b + 1) * 64, held + multiset{b}), false)
    {
      var s := Alone(words, head, held);
      TakesFirst(total, s, 0, n, i);
      assert Took(s, 0, i).threads == Alone(words', 0, held + multiset{b}).threads;
    }
  }

  lemma AloneFindsNothing(total: nat, words: seq<nat>, head: nat)
    requires ZerosFirst(words, head / 64, |words|)
    ensures forall held: multiset<nat> ::
              Leads(total, Alone(words, head, held), Alone(words, head, held), false)
  {
    forall held: multiset<nat>
      ensures Leads(total, Alone(words, head, held), Alone(words, head, held), false)
    {
      FindsNothing(total, Alone(words, head, held), 0);
    }
  }

  /** The step system leads from the pool before an allocation to the pool after it, for one
      thread with any blocks in hand. */
  ghost predicate AllocationIsRun(total: nat, words: seq<nat>, head: nat, words': seq<nat>,
                                  head': nat, r: Option<ZeroCopyBlock>)
  {
    forall held: multiset<nat> ::
      Leads(total, Alone(words, head, held),
            Alone(words', head', if r.Some? then held + multiset{r.value.blockIndex} else held),
            false)
  }

  lemma RunOfScan(total: nat, words: seq<nat>, head: nat, n: nat, words': seq<nat>, head': nat,
                  r: Option<ZeroCopyBlock>)
    requires ZerosFirst(words, head / 64, n)
    requires r.None? ==> n == |words| && words' == words && head' == head
    requires r.Some? ==>
      var b := r.value.blockIndex;
      && n < |words| && b < total && head' == (b + 1) * 64
      && TookWord(words, words', ScanIndex(head / 64, n, |words|), b)
    ensures AllocationIsRun(total, words, head, words', head', r)
  {
    if r.Some? {
      AloneTakes(total, words, head, n, ScanIndex(head / 64, n, |words|), words',
                 r.value.blockIndex);
    } else {
      AloneFindsNothing(total, words, head);
    }
  }

  lemma AloneFrees(total: nat, words: seq<nat>, head: nat, b: nat)
    ensures
      var i := b / 64;
      var freed := if i < |words| then words[i := Or(words[i], Shl1(b % 64))] else words;
      forall held: multiset<nat> :: b in held ==>
        Do(total, Alone(words, head, held), Free(0, b))
        == Some(Alone(freed, head, held - multiset{b}))
  {
    forall held: multiset<nat> | b in held
      ensures WithHeld(Alone(words, head, held), 0, held - multiset{b})
              == Alone(words, head, held - multiset{b})
    {
      assert WithHeld(Alone(words, head, held), 0, held - multiset{b}).threads
             == Alone(words, head, held - multiset{b}).threads;
    }
  }

  function BlockCount(totalSize: nat, blockSize: nat): nat
    requires blockSize > 0
  {
    totalSize / blockSize
  }

  function RegionLength(total: nat, blockSize: nat): nat {
    total * blockSize
  }

  /** Every block of the pool is free, and nothing else is. */
  method InitialBitmap(total: nat) returns (words: array<nat>)
    ensures fresh(words) && words.Length == BitmapSize(total)
    ensures WordsOk(words[..]) && FreeSet(words[..]) == AllBlocks(total)
  {
    var size := BitmapSize(total);
    words := new nat[size];
    for i := 0 to size
      invariant forall j :: 0 <= j < i ==> words[j] == InitialWord(total, j)
    {
      words[i] := if i == size - 1 && total % 64 != 0 then Shl1(total % 64) - 1 else U64 - 1;
    }
    InitialBits(total, words[..]);
  }

  class SharedMemoryPool {
    const freeBlocks: array<nat>
    const blockSize: nat
    const totalBlocks: nat
    const regionLength: nat
    const poolId: nat
    var allocatorHead: nat

    ghost predicate Shaped()
      reads this, freeBlocks
    {
      && freeBlocks.Length == BitmapSize(totalBlocks)
      && WordsOk(freeBlocks[..])
      && blockSize > 0 && blockSize % 64 == 0
    }

    ghost predicate Valid()
      reads this, freeBlocks
    {
      Shaped() && Available() <= AllBlocks(totalBlocks)
    }

    /** The pool as the step system sees it, run by one thread that holds `held`. */
    ghost function View(held: multiset<nat>): Pool
      reads this, freeBlocks
    {
      Alone(freeBlocks[..], allocatorHead, held)
    }

    ghost function Available(): set<nat>
      reads this, freeBlocks
    {
      FreeSet(freeBlocks[..])
    }

    /** The handle of block `b`, which starts `b` block sizes into the region. */
    function Block(b: nat): ZeroCopyBlock {
      ZeroCopyBlock(b * blockSize, blockSize, poolId, b)
    }

    /** `new`; the block size must not be zero, which the code divides by. */
    constructor (poolId: nat, totalSize: nat, blockSize: nat)
      requires 0 < blockSize && blockSize + 63 < U64
      ensures Valid() && fresh(freeBlocks)
      ensures this.poolId == poolId && this.blockSize == AlignedSize(blockSize)
      ensures totalBlocks == BlockCount(totalSize, AlignedSize(blockSize))
      ensures regionLength == RegionLength(totalBlocks, this.blockSize)
      ensures Available() == AllBlocks(totalBlocks)
    {
      var aligned := Align(blockSize);
      AlignedSizeIsLeast(blockSize);
      var total := BlockCount(totalSize, aligned);
      this.poolId := poolId;
      this.blockSize := aligned;
      this.totalBlocks := total;
      this.regionLength := RegionLength(total, aligned);
      var words := InitialBitmap(total);
      this.freeBlocks := words;
      this.allocatorHead := 0;
    }

    /** The exchange succeeds: the lowest block of the first word that is not zero is taken. */
    method Take(bitmapIndex: nat, ghost attempt: nat) returns (block: ZeroCopyBlock)
      requires Valid() && attempt < freeBlocks.Length
      requires bitmapIndex == ScanIndex(allocatorHead / 64, attempt, freeBlocks.Length)
      requires ZerosFirst(freeBlocks[..], allocatorHead / 64, attempt)
      requires freeBlocks[bitmapIndex] != 0
      modifies this`allocatorHead, freeBlocks
      ensures
        var b := block.blockIndex;
        && block == Block(b) && allocatorHead == (b + 1) * 64 && Valid()
        && b in old(Available()) && Available() == old(Available()) - {b} && b < totalBlocks
        && FirstInScan(old(freeBlocks[..]), old(allocatorHead) / 64, b)
      ensures TookWord(old(freeBlocks[..]), freeBlocks[..], bitmapIndex, block.blockIndex)
    {
      ghost var words := freeBlocks[..];
      var current := freeBlocks[bitmapIndex];
      var bitPos := TrailingZeros(current);
      ghost var first := FirstFreeBlock(words, allocatorHead / 64, attempt);
      freeBlocks[bitmapIndex] := AndNot(current, Shl1(bitPos));
      var blockIndex := bitmapIndex * 64 + bitPos;
      if blockIndex >= totalBlocks {
        assert false;
      }
      assert freeBlocks[..] == words[bitmapIndex := AndNot(current, Shl1(bitPos))];
      allocatorHead := (blockIndex + 1) * 64;
      block := Block(blockIndex);
    }

    /** The scan; `n` is the attempt that ends it. */
    method Scan() returns (r: Option<ZeroCopyBlock>, ghost n: nat)
      requires Valid()
      modifies this`allocatorHead, freeBlocks
      ensures Valid()
      ensures ZerosFirst(old(freeBlocks[..]), old(allocatorHead) / 64, n)
      ensures r.None? ==>
        && n == freeBlocks.Length && allocatorHead == old(allocatorHead)
        && freeBlocks[..] == old(freeBlocks[..])
      ensures r.Some? ==>
        var b := r.value.blockIndex;
        && n < freeBlocks.Length && r.value == Block(b) && allocatorHead == (b + 1) * 64
        && b in old(Available()) && Available() == old(Available()) - {b} && b < totalBlocks
        && FirstInScan(old(freeBlocks[..]), old(allocatorHead) / 64, b)
        && TookWord(old(freeBlocks[..]), freeBlocks[..],
                    ScanIndex(old(allocatorHead) / 64, n, freeBlocks.Length), b)
    {
      var startIndex := allocatorHead / 64;
      for attempt := 0 to freeBlocks.Length
        invariant freeBlocks[..] == old(freeBlocks[..]) && allocatorHead == old(allocatorHead)
        invariant ZerosFirst(freeBlocks[..], startIndex, attempt)
      {
        var bitmapIndex := ScanIndex(startIndex, attempt, freeBlocks.Length);
        if freeBlocks[bitmapIndex] != 0 {
          var block := Take(bitmapIndex, attempt);
          return Some(block), attempt;
        }
      }
      return None, freeBlocks.Length;
    }

    /** Finds a block exactly when one is free, whatever the hint, and takes it; the call is a
        run of the step system. */
    method AllocateBlock() returns (r: Option<ZeroCopyBlock>)
      requires Valid()
      modifies this, freeBlocks
      ensures Valid()
      ensures r.Some? <==> old(Available()) != {}
      ensures r.None? ==> Available() == {} && allocatorHead == old(allocatorHead)
      ensures r.Some? ==>
        var b := r.value.blockIndex;
        && b in old(Available()) && Available() == old(Available()) - {b}
        && FirstInScan(old(freeBlocks[..]), old(allocatorHead) / 64, b)
        && r.value == Block(b)
        && allocatorHead == (b + 1) * 64
      ensures AllocationIsRun(totalBlocks, old(freeBlocks[..]), old(allocatorHead),
                              freeBlocks[..], allocatorHead, r)
    {
      ghost var words, head := freeBlocks[..], allocatorHead;
      ghost var n: nat;
      r, n := Scan();
      if r.None? { NothingLeft(words, head / 64); }
      RunOfScan(totalBlocks, words, head, n, freeBlocks[..], allocatorHead, r);
    }

    /** `fetch_or` of one bit. */
    method SetBit(b: nat)
      requires Shaped() && b / 64 < freeBlocks.Length
      modifies freeBlocks
      ensures Shaped() && Available() == old(Available()) + {b}
      ensures freeBlocks[..] == old(freeBlocks[..])
                [b / 64 := Or(old(freeBlocks[..])[b / 64], Shl1(b % 64))]
    {
      ghost var words := freeBlocks[..];
      var bitmapIndex, bitPos := b / 64, b % 64;
      SetReturnsBlock(words, b);
      freeBlocks[bitmapIndex] := Or(freeBlocks[bitmapIndex], Shl1(bitPos));
      assert freeBlocks[..] == words[bitmapIndex := Or(words[bitmapIndex], Shl1(bitPos))];
    }

    /** A block of another pool changes nothing. A block of this one becomes free, and freeing
        it is a step of the step system. Only an index past the pool that is still inside the
        bitmap, which `AllocateBlock` never gives out, makes the pool invalid. */
    method DeallocateBlock(block: ZeroCopyBlock)
      requires Valid()
      modifies freeBlocks
      ensures Shaped()
      ensures Available() == if block.poolId == poolId && block.blockIndex < 64 * freeBlocks.Length
                             then old(Available()) + {block.blockIndex} else old(Available())
      ensures (block.poolId == poolId && block.blockIndex < 64 * freeBlocks.Length ==>
                 block.blockIndex < totalBlocks) ==> Valid()
      ensures block.poolId == poolId ==> forall held: multiset<nat> :: block.blockIndex in held ==>
        Do(totalBlocks, old(View(held)), Free(0, block.blockIndex))
        == Some(View(held - multiset{block.blockIndex}))
    {
      ghost var words := freeBlocks[..];
      if block.poolId != poolId {
        return;
      }
      var b := block.blockIndex;
      AloneFrees(totalBlocks, words, allocatorHead, b);
      if b / 64 < freeBlocks.Length {
        SetBit(b);
        if b < totalBlocks { JoinStaysInPool(FreeSet(words), b, totalBlocks); }
      }
    }

    method AvailableBlocks() returns (n: nat)
      requires Valid()
      ensures n == |Available()|
    {
      ghost var words := freeBlocks[..];
      n := 0;
      for i := 0 to freeBlocks.Length
        invariant n == |FreeBelow(words, 64 * i)|
      {
        CountOneWord(words, i, 64);
        n := n + CountOnes(freeBlocks[i]);
      }
      assert FreeBelow(words, 64 * |words|) == FreeSet(words);
    }
  }

  /** Distinct blocks occupy disjoint byte ranges of the region. */
  lemma BlocksAreDisjoint(blockSize: nat, total: nat, b: nat, c: nat)
    requires blockSize > 0 && blockSize % 64 == 0 && b < c < total
    ensures b * blockSize + blockSize <= c * blockSize
    ensures c * blockSize + blockSize <= RegionLength(total, blockSize)
    ensures b * blockSize % 64 == 0
  {
    MulStep(blockSize, b, c);
    MulStep(blockSize, c, total);
    BlockIsAligned(blockSize, b);
  }

  /** The handles of two blocks of a pool name disjoint, aligned ranges of its region. */
  lemma HandlesAreApart(pool: SharedMemoryPool, b: nat, c: nat)
    requires pool.blockSize > 0 && pool.blockSize % 64 == 0 && b < c < pool.totalBlocks
    ensures
      var x, y := pool.Block(b), pool.Block(c);
      && x.blockIndex == b && y.blockIndex == c && x.poolId == y.poolId == pool.poolId
      && x.size == y.size == pool.blockSize && x.offset % 64 == y.offset % 64 == 0
      && x.offset + x.size <= y.offset
      && y.offset + y.size <= RegionLength(pool.totalBlocks, pool.blockSize)
  {
    BlocksAreDisjoint(pool.blockSize, pool.totalBlocks, b, c);
    BlockIsAligned(pool.blockSize, c);
  }

  lemma BlockIsAligned(blockSize: nat, b: nat)
    requires blockSize % 64 == 0
    ensures b * blockSize % 64 == 0
  {
    assert blockSize == 64 * (blockSize / 64);
    MulAssoc(64, blockSize / 64, b);
    assert b * blockSize == 64 * (blockSize / 64 * b);
  }

  /** The blocks use up the pool but for less than one block. */
  lemma BlocksFillPool(totalSize: nat, blockSize: nat)
    requires blockSize > 0
    ensures RegionLength(BlockCount(totalSize, blockSize), blockSize) <= totalSize
            < RegionLength(BlockCount(totalSize, blockSize), blockSize) + blockSize
  {
    assert totalSize == blockSize * (totalSize / blockSize) + totalSize % blockSize;
  }

  const KIB: nat := 1024
  const MIB: nat := 1024 * 1024
  const GIB: nat := 1024 * 1024 * 1024

  /** The pool `allocate` turns to. */
  function PoolFor(size: nat): nat {
    if size <= 64 * KIB then 0 else if size <= MIB then 1 else 2
  }

  function PoolBlockSize(pool: nat): nat
    requires pool < 3
  {
    if pool == 0 then 64 * KIB else if pool == 1 then MIB else 16 * MIB
  }

  /** The block handed out holds the request exactly when the request is at most 16 MiB:
      nothing turns larger requests away. */
  lemma BlockHoldsRequest(size: nat)
    ensures PoolBlockSize(PoolFor(size)) >= size <==> size <= 16 * MIB
  {}

  function PoolTotalSize(pool: nat): nat
    requires pool < 3
  {
    if pool == 0 then GIB else if pool == 1 then 4 * GIB else 8 * GIB
  }

  /** In every pool of the manager a concurrent allocation can find nothing although some block
      is free at every moment. */
  lemma ManagerPoolsAreLarge(pool: nat)
    requires pool < 3
    ensures !NoneMeansNothingFree(BlockCount(PoolTotalSize(pool), PoolBlockSize(pool)))
  {
    NoneMeansNothingFreeIff(BlockCount(PoolTotalSize(pool), PoolBlockSize(pool)));
  }

  ghost predicate PoolOk(pool: SharedMemoryPool, id: nat)
    requires id < 3
    reads pool, pool.freeBlocks
  {
    pool.Valid() && pool.poolId == id && pool.blockSize == PoolBlockSize(id)
  }

  ghost predicate Separate(p: SharedMemoryPool, q: SharedMemoryPool) {
    p != q && p.freeBlocks != q.freeBlocks
  }

  ghost predicate PoolIsNew(pool: SharedMemoryPool, id: nat)
    requires id < 3
    reads pool, pool.freeBlocks
  {
    && PoolOk(pool, id)
    && pool.totalBlocks == BlockCount(PoolTotalSize(id), PoolBlockSize(id))
    && pool.Available() == AllBlocks(pool.totalBlocks)
  }

  /** 64 KiB blocks of 1 GiB, 1 MiB blocks of 4 GiB and 16 MiB blocks of 8 GiB. */
  predicate HasSizes(pool: SharedMemoryPool, id: nat) {
    match id
    case 0 => pool.blockSize == 65536 && pool.totalBlocks == 16384
    case 1 => pool.blockSize == 1048576 && pool.totalBlocks == 4096
    case _ => pool.blockSize == 16777216 && pool.totalBlocks == 512
  }

  lemma NewPoolSizes(pool: SharedMemoryPool, id: nat)
    requires id < 3 && pool.blockSize == PoolBlockSize(id)
    requires pool.totalBlocks == BlockCount(PoolTotalSize(id), PoolBlockSize(id))
    ensures HasSizes(pool, id)
  {}

  method NewPool(id: nat) returns (pool: SharedMemoryPool)
    requires id < 3
    ensures fresh(pool) && fresh(pool.freeBlocks) && PoolIsNew(pool, id)
  {
    PoolSizes(id);
    pool := new SharedMemoryPool(id, PoolTotalSize(id), PoolBlockSize(id));
  }

  lemma AlignedAlready(blockSize: nat)
    requires blockSize % 64 == 0
    ensures AlignedSize(blockSize) == blockSize
  {
    AlignedSizeIsLeast(blockSize);
  }

  lemma PoolSizes(pool: nat)
    requires pool < 3
    ensures 0 < PoolBlockSize(pool) && PoolBlockSize(pool) + 63 < U64
    ensures AlignedSize(PoolBlockSize(pool)) == PoolBlockSize(pool)
  {
    AlignedAlready(PoolBlockSize(pool));
  }

  ghost predicate NewAndApart(pools: seq<SharedMemoryPool>)
    requires |pools| <= 3
    reads pools, set p | p in pools :: p.freeBlocks
  {
    && (forall i :: 0 <= i < |pools| ==> PoolIsNew(pools[i], i))
    && (forall i, j :: 0 <= i < j < |pools| ==> Separate(pools[i], pools[j]))
  }

  /** The manager's vector gets its next pool. */
  method PushPool(pools: seq<SharedMemoryPool>) returns (more: seq<SharedMemoryPool>)
    requires |pools| < 3 && NewAndApart(pools)
    ensures |more| == |pools| + 1 && NewAndApart(more)
  {
    var pool := NewPool(|pools|);
    assert NewAndApart(pools);
    forall i | 0 <= i < |pools| ensures Separate(pools[i], pool) {}
    more := pools + [pool];
  }

  class ZeroCopyMemoryManager {
    const pools: seq<SharedMemoryPool>
    var blocksAllocated: nat
    var blocksFreed: nat

    ghost predicate Valid()
      reads this, pools, set p | p in pools :: p.freeBlocks
    {
      && |pools| == 3
      && (forall i :: 0 <= i < 3 ==> PoolOk(pools[i], i))
      && (forall i, j :: 0 <= i < j < 3 ==> Separate(pools[i], pools[j]))
    }

    constructor ()
      ensures Valid()
      ensures forall i :: 0 <= i < 3 ==> PoolIsNew(pools[i], i)
      ensures forall i :: 0 <= i < 3 ==> HasSizes(pools[i], i)
    {
      var made := PushPool([]);
      made := PushPool(made);
      made := PushPool(made);
      forall i | 0 <= i < 3 ensures HasSizes(made[i], i) {
        NewPoolSizes(made[i], i);
      }
      pools := made;
      blocksAllocated, blocksFreed := 0, 0;
    }

    /** Pool `p` has the smallest blocks that hold the request, or is the last for requests no
        block holds. */
    ghost predicate Smallest(size: nat, p: nat)
      requires |pools| == 3
    {
      && p < 3 && (size <= pools[p].blockSize || p == 2)
      && forall q :: 0 <= q < p ==> pools[q].blockSize < size
    }

    lemma OnlySmallest(size: nat, p: nat)
      requires Valid()
      ensures Smallest(size, p) <==> p == PoolFor(size)
    {
      assert pools[0].blockSize == 65536 && pools[1].blockSize == 1048576;
    }

    method AllocateFrom(k: nat) returns (r: Option<ZeroCopyBlock>)
      requires Valid() && k < 3
      modifies this, pools[k], pools[k].freeBlocks
      ensures Valid()
      ensures r.Some? <==> old(pools[k].Available()) != {}
      ensures r.None? ==> pools[k].Available() == {}
      ensures r.Some? ==>
        && r.value == pools[k].Block(r.value.blockIndex)
        && r.value.blockIndex in old(pools[k].Available())
        && r.value.blockIndex < pools[k].totalBlocks
        && pools[k].Available() == old(pools[k].Available()) - {r.value.blockIndex}
      ensures forall p :: 0 <= p < 3 && p != k ==>
        pools[p].Available() == old(pools[p].Available())
      ensures blocksAllocated == old(blocksAllocated) + if r.Some? then 1 else 0
      ensures blocksFreed == old(blocksFreed)
    {
      r := pools[k].AllocateBlock();
      if r.Some? {
        blocksAllocated := blocksAllocated + 1;
      }
    }

    lemma SmallestBlock(size: nat, p: nat)
      requires Valid() && p < 3 && Smallest(size, p)
      ensures size <= 16777216 ==> pools[p].blockSize >= size
      ensures size > 16777216 ==> pools[p].blockSize == 16777216
      ensures forall q :: 0 <= q < 3 && size <= pools[q].blockSize ==>
        pools[p].blockSize <= pools[q].blockSize
    {
      assert forall i :: 0 <= i < 3 ==> pools[i].blockSize == PoolBlockSize(i);
    }

    /** The block comes from the pool with the smallest blocks that hold the request, or from the
        last for larger requests, exactly when that pool has a free one; other pools are
        untouched. */
    method Allocate(size: nat) returns (r: Option<ZeroCopyBlock>)
      requires Valid()
      modifies this, pools[PoolFor(size)], pools[PoolFor(size)].freeBlocks
      ensures Valid()
      ensures exists p: nat :: Smallest(size, p)
      ensures forall p: nat :: Smallest(size, p) ==>
        && (r.Some? <==> old(pools[p].Available()) != {})
        && (r.None? ==> pools[p].Available() == {})
        && (r.Some? ==>
              && r.value == pools[p].Block(r.value.blockIndex)
              && r.value.blockIndex in old(pools[p].Available())
              && r.value.blockIndex < pools[p].totalBlocks
              && pools[p].Available() == old(pools[p].Available()) - {r.value.blockIndex})
      ensures forall p: nat :: p < 3 && !Smallest(size, p) ==>
        pools[p].Available() == old(pools[p].Available())
      ensures r.Some? ==>
        && (size <= 16777216 ==> r.value.size >= size)
        && (size > 16777216 ==> r.value.size == 16777216)
        && (forall p :: 0 <= p < 3 && size <= pools[p].blockSize ==>
              r.value.size <= pools[p].blockSize)
      ensures blocksAllocated == old(blocksAllocated) + if r.Some? then 1 else 0
      ensures blocksFreed == old(blocksFreed)
    {
      var k := PoolFor(size);
      OnlySmallest(size, k);
      SmallestBlock(size, k);
      r := AllocateFrom(k);
      forall p: nat ensures Smallest(size, p) <==> p == k { OnlySmallest(size, p); }
    }

    /** Frees the block in its own pool; other pools, and all for an unknown one, stay. */
    method Deallocate(block: ZeroCopyBlock)
      requires Valid()
      modifies this, if block.poolId < |pools| then {pools[block.poolId].freeBlocks} else {}
      ensures (block.poolId < 3 ==> block.blockIndex < pools[block.poolId].totalBlocks) ==> Valid()
      ensures block.poolId < 3 ==>
        var pool := pools[block.poolId];
        pool.Available() == if block.blockIndex < 64 * pool.freeBlocks.Length
                            then old(pool.Available()) + {block.blockIndex}
                            else old(pool.Available())
      ensures blocksFreed == old(blocksFreed) + if block.poolId < 3 then 1 else 0
      ensures blocksAllocated == old(blocksAllocated)
    {
      if block.poolId < |pools| {
        pools[block.poolId].DeallocateBlock(block);
        blocksFreed := blocksFreed + 1;
      }
    }
  }
}
