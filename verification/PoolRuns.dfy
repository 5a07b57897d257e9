/** What whole calls of the concurrent block pool do: when an allocation may find nothing, and
    what a call that is not interrupted takes. */
module PoolRuns {
  import opened Bits
  import opened BlockBitmap
  import opened ConcurrentPool
  import opened Wrappers

  // ----- When a scan finds nothing -----

  /** The states a run goes through, one more than its steps. */
  predicate IsTrace(total: nat, states: seq<Pool>, steps: seq<Step>) {
    |states| == |steps| + 1
    && forall k :: 0 <= k < |steps| ==> Follows(total, states, steps, k)
  }

  predicate Follows(total: nat, states: seq<Pool>, steps: seq<Step>, k: nat)
    requires k < |steps| && |states| == |steps| + 1
  {
    Do(total, states[k], steps[k]) == Some(states[k + 1])
  }

  lemma {:induction false} TraceKeepsInv(total: nat, states: seq<Pool>, steps: seq<Step>, k: nat)
    requires IsTrace(total, states, steps) && k < |states| && Inv(total, states[0])
    ensures Inv(total, states[k]) && |states[k].threads| == |states[0].threads|
  {
    if k > 0 {
      TraceKeepsInv(total, states, steps, k - 1);
      assert Follows(total, states, steps, k - 1);
      ConcurrentPool.StepKeepsInv(total, states[k - 1], steps[k - 1]);
    }
  }

  predicate HasWord(s: Pool, i: nat, word: nat) {
    i < |s.words| && s.words[i] == word
  }

  /** Word `i` was `word` in one of the states up to `k`. */
  predicate WordWas(states: seq<Pool>, k: nat, i: nat, word: nat)
    requires k < |states|
  {
    exists j :: 0 <= j <= k && HasWord(states[j], i, word)
  }

  /** The first `n` words of a scan were all zero, each at some moment. */
  predicate SawZeros(states: seq<Pool>, k: nat, start: nat, n: nat)
    requires k < |states|
  {
    forall e :: 0 <= e < n && e < |states[k].words| ==>
      WordWas(states, k, ScanIndex(start, e, |states[k].words|), 0)
  }

  /** What the scan of thread `t` has behind it in state `k`. */
  predicate SawWhatItClaims(states: seq<Pool>, k: nat, t: nat)
    requires k < |states| && t < |states[k].threads|
  {
    match states[k].threads[t].pc
    case Scanning(start, attempt) => SawZeros(states, k, start, attempt)
    case Loaded(start, attempt, current) =>
      && SawZeros(states, k, start, attempt) && |states[k].words| > 0
      && WordWas(states, k, ScanIndex(start, attempt, |states[k].words|), current)
    case _ => true
  }

  lemma LaterStill(states: seq<Pool>, k: nat, i: nat, word: nat)
    requires k + 1 < |states| && WordWas(states, k, i, word)
    ensures WordWas(states, k + 1, i, word)
  {
    var j :| 0 <= j <= k && HasWord(states[j], i, word);
  }

  lemma ZerosLaterStill(states: seq<Pool>, k: nat, start: nat, n: nat)
    requires k + 1 < |states| && |states[k + 1].words| == |states[k].words|
    requires SawZeros(states, k, start, n)
    ensures SawZeros(states, k + 1, start, n)
  {
    forall e | 0 <= e < n && e < |states[k].words|
      ensures WordWas(states, k + 1, ScanIndex(start, e, |states[k].words|), 0)
    {
      LaterStill(states, k, ScanIndex(start, e, |states[k].words|), 0);
    }
  }

  lemma OneMoreZero(states: seq<Pool>, k: nat, start: nat, n: nat)
    requires k < |states| && SawZeros(states, k, start, n) && |states[k].words| > 0
    requires WordWas(states, k, ScanIndex(start, n, |states[k].words|), 0)
    ensures SawZeros(states, k, start, n + 1)
  {}

  /** A thread's claims outlive a step that leaves it where it is. */
  lemma ClaimsOutlive(states: seq<Pool>, k: nat, t: nat, pc: Pc)
    requires k + 1 < |states| && |states[k + 1].words| == |states[k].words|
    requires t < |states[k].threads| && pc == states[k].threads[t].pc
    requires SawWhatItClaims(states, k, t)
    ensures pc.Scanning? || pc.Loaded? ==> SawZeros(states, k + 1, pc.start, pc.attempt)
    ensures pc.Loaded? ==>
      WordWas(states, k + 1, ScanIndex(pc.start, pc.attempt, |states[k].words|), pc.current)
  {
    if pc.Scanning? || pc.Loaded? {
      ZerosLaterStill(states, k, pc.start, pc.attempt);
    }
    if pc.Loaded? {
      LaterStill(states, k, ScanIndex(pc.start, pc.attempt, |states[k].words|), pc.current);
    }
  }

  /** Its own load and exchange add what they read. */
  lemma OwnStepStaysTrue(total: nat, states: seq<Pool>, steps: seq<Step>, k: nat, t: nat)
    requires IsTrace(total, states, steps) && k < |steps| && t < |states[k].threads|
    requires Inv(total, states[k]) && SawWhatItClaims(states, k, t)
    requires steps[k].t == t && |states[k + 1].words| == |states[k].words|
    ensures t < |states[k + 1].threads| && SawWhatItClaims(states, k + 1, t)
  {
    var s, next, pc := states[k], states[k + 1], states[k].threads[t].pc;
    assert Follows(total, states, steps, k);
    assert PcOk(s, pc);
    ClaimsOutlive(states, k, t, pc);
    match steps[k] {
      case Load(_) =>
        if pc.attempt < |s.words| {
          assert HasWord(s, ScanIndex(pc.start, pc.attempt, |s.words|),
                         next.threads[t].pc.current);
        }
      case Exchange(_, _) =>
        if pc.current == 0 {
          OneMoreZero(states, k + 1, pc.start, pc.attempt);
        } else {
          var i := ScanIndex(pc.start, pc.attempt, |s.words|);
          assert HasWord(s, i, s.words[i]);
        }
      case Finish(_) => ClaimedBlock(total, s, t, pc.block);
      case _ =>
    }
  }

  lemma ClaimsStayTrue(total: nat, states: seq<Pool>, steps: seq<Step>, k: nat, t: nat)
    requires IsTrace(total, states, steps) && k < |steps| && t < |states[k].threads|
    requires Inv(total, states[k]) && SawWhatItClaims(states, k, t)
    ensures t < |states[k + 1].threads| && SawWhatItClaims(states, k + 1, t)
  {
    assert Follows(total, states, steps, k);
    ConcurrentPool.StepKeepsInv(total, states[k], steps[k]);
    if steps[k].t == t {
      OwnStepStaysTrue(total, states, steps, k, t);
    } else {
      ClaimsOutlive(states, k, t, states[k].threads[t].pc);
    }
  }

  lemma {:induction false} ClaimsAreTrue(total: nat, states: seq<Pool>, steps: seq<Step>, k: nat,
                                         t: nat)
    requires IsTrace(total, states, steps) && k < |states| && Inv(total, states[0])
    requires t < |states[0].threads| && states[0].threads[t].pc.Idle?
    ensures t < |states[k].threads| && SawWhatItClaims(states, k, t)
  {
    TraceKeepsInv(total, states, steps, k);
    if k > 0 {
      TraceKeepsInv(total, states, steps, k - 1);
      ClaimsAreTrue(total, states, steps, k - 1, t);
      ClaimsStayTrue(total, states, steps, k - 1, t);
    }
  }

  /** Thread `t` is between calls at the start of the run, and at its end is about to return
      None from `allocate_block`. */
  predicate EndsInNone(states: seq<Pool>, t: nat) {
    && states != [] && t < |states[0].threads| && states[0].threads[t].pc.Idle?
    && var last := states[|states| - 1];
       t < |last.threads| && last.threads[t].pc.Scanning?
       && last.threads[t].pc.attempt >= |last.words|
  }

  /** An allocation that finds nothing has seen every word zero, each at some moment of the
      call, whatever the other threads did. */
  lemma NoneSawEveryWordZero(total: nat, states: seq<Pool>, steps: seq<Step>, t: nat, i: nat)
    requires IsTrace(total, states, steps) && Reachable(total, states[0])
    requires EndsInNone(states, t) && i < BitmapSize(total)
    ensures exists k :: 0 <= k < |states| && HasWord(states[k], i, 0)
  {
    var last := |states| - 1;
    ReachableInv(total, states[0]);
    TraceKeepsInv(total, states, steps, last);
    ClaimsAreTrue(total, states, steps, last, t);
    var pc := states[last].threads[t].pc;
    var e := ScanVisits(pc.start, |states[last].words|, i);
    assert WordWas(states, last, ScanIndex(pc.start, e, |states[last].words|), 0);
  }

  /** So no block was free all the time. */
  lemma NoneMeansNoBlockStayedFree(total: nat, states: seq<Pool>, steps: seq<Step>, t: nat, b: nat)
    requires IsTrace(total, states, steps) && Reachable(total, states[0])
    requires EndsInNone(states, t) && b < total
    ensures exists k :: 0 <= k < |states| && b !in FreeSet(states[k].words)
  {
    BlockInBitmap(total, b);
    NoneSawEveryWordZero(total, states, steps, t, b / 64);
    var k :| 0 <= k < |states| && HasWord(states[k], b / 64, 0);
    BitOfZero(b % 64);
    InFreeSet(states[k].words, b);
  }

  // ----- Calls that are not interrupted -----

  /** Some block is free in every state. */
  predicate AlwaysSomeFree(states: seq<Pool>) {
    forall k :: 0 <= k < |states| ==> FreeSet(states[k].words) != {}
  }

  /** A run leads from one state to the other, with `free` one in which some block is free at
      every moment. */
  ghost predicate Leads(total: nat, s: Pool, s': Pool, free: bool) {
    exists states, steps :: Links(total, states, steps, s, s', free)
  }

  predicate Links(total: nat, states: seq<Pool>, steps: seq<Step>, s: Pool, s': Pool,
                  free: bool)
  {
    && IsTrace(total, states, steps)
    && states[0] == s && states[|steps|] == s'
    && (free ==> AlwaysSomeFree(states))
  }

  lemma LeadsNowhere(total: nat, s: Pool, free: bool)
    requires free ==> FreeSet(s.words) != {}
    ensures Leads(total, s, s, free)
  {
    assert Links(total, [s], [], s, s, free);
  }

  lemma LeadsJoins(total: nat, s: Pool, s': Pool, s'': Pool, free: bool)
    requires Leads(total, s, s', free) && Leads(total, s', s'', free)
    ensures Leads(total, s, s'', free)
  {
    var a, b :| Links(total, a, b, s, s', free);
    var c, d :| Links(total, c, d, s', s'', free);
    var states, steps := a + c[1..], b + d;
    forall k | 0 <= k < |steps| ensures Follows(total, states, steps, k) {
      if k < |b| { assert Follows(total, a, b, k); } else { assert Follows(total, c, d, k - |b|); }
    }
    assert Links(total, states, steps, s, s'', free);
  }

  lemma LeadsOn(total: nat, s: Pool, s': Pool, step: Step, next: Pool, free: bool)
    requires Leads(total, s, s', free) && Do(total, s', step) == Some(next)
    requires free ==> FreeSet(next.words) != {}
    ensures Leads(total, s, next, free)
  {
    var a, b :| Links(total, a, b, s, s', free);
    forall k | 0 <= k < |b| + 1 ensures Follows(total, a + [next], b + [step], k) {
      if k < |b| { assert Follows(total, a, b, k); }
    }
    assert Links(total, a + [next], b + [step], s, next, free);
  }

  lemma {:induction false} TraceRuns(total: nat, states: seq<Pool>, steps: seq<Step>)
    requires IsTrace(total, states, steps)
    ensures Run(total, states[0], steps) == Some(states[|steps|])
    decreases |steps|
  {
    if steps != [] {
      assert Follows(total, states, steps, 0);
      forall k | 0 <= k < |steps| - 1 ensures Follows(total, states[1..], steps[1..], k) {
        assert Follows(total, states, steps, k + 1);
      }
      TraceRuns(total, states[1..], steps[1..]);
    }
  }

  lemma {:induction false} RunJoins(total: nat, s: Pool, a: seq<Step>, b: seq<Step>)
    requires Run(total, s, a).Some?
    ensures Run(total, s, a + b) == Run(total, Run(total, s, a).value, b)
    decreases |a|
  {
    if a == [] {
      assert a + b == b;
    } else {
      assert (a + b)[1..] == a[1..] + b;
      RunJoins(total, Do(total, s, a[0]).value, a[1..], b);
    }
  }

  lemma ReachableOn(total: nat, s: Pool, s': Pool)
    requires Reachable(total, s) && Leads(total, s, s', false)
    ensures Reachable(total, s')
  {
    var threads: nat, a :| Run(total, Fresh(total, threads), a) == Some(s);
    var states, b :| Links(total, states, b, s, s', false);
    TraceRuns(total, states, b);
    RunJoins(total, Fresh(total, threads), a, b);
  }

  lemma PcTwice(s: Pool, t: nat, pc: Pc, pc': Pc)
    requires t < |s.threads|
    ensures WithPc(WithPc(s, t, pc), t, pc') == WithPc(s, t, pc')
  {
    assert WithPc(WithPc(s, t, pc), t, pc').threads == WithPc(s, t, pc').threads;
  }

  predicate ZerosFirst(words: seq<nat>, start: nat, n: nat) {
    n <= |words| && forall e :: 0 <= e < n ==> words[ScanIndex(start, e, |words|)] == 0
  }

  lemma LoadsWord(total: nat, s: Pool, t: nat, start: nat, n: nat)
    requires t < |s.threads| && n < |s.words|
    ensures Do(total, WithPc(s, t, Scanning(start, n)), Load(t))
            == Some(WithPc(s, t, Loaded(start, n, s.words[ScanIndex(start, n, |s.words|)])))
  {
    PcTwice(s, t, Scanning(start, n), Loaded(start, n, s.words[ScanIndex(start, n, |s.words|)]));
  }

  lemma PassesWord(total: nat, s: Pool, t: nat, start: nat, n: nat)
    requires t < |s.threads| && s.words != []
    ensures Do(total, WithPc(s, t, Loaded(start, n, 0)), Exchange(t, false))
            == Some(WithPc(s, t, Scanning(start, n + 1)))
  {
    PcTwice(s, t, Loaded(start, n, 0), Scanning(start, n + 1));
  }

  /** A scan passes the words that are zero. */
  lemma {:induction false} PassesZeros(total: nat, s: Pool, t: nat, n: nat, free: bool)
    requires t < |s.threads| && s.threads[t].pc.Idle? && ZerosFirst(s.words, s.head / 64, n)
    requires free ==> FreeSet(s.words) != {}
    ensures Leads(total, s, WithPc(s, t, Scanning(s.head / 64, n)), free)
    decreases n
  {
    var start := s.head / 64;
    if n == 0 {
      LeadsNowhere(total, s, free);
      LeadsOn(total, s, s, Begin(t), WithPc(s, t, Scanning(start, 0)), free);
    } else {
      PassesZeros(total, s, t, n - 1, free);
      LoadsWord(total, s, t, start, n - 1);
      PassesWord(total, s, t, start, n - 1);
      var loaded := WithPc(s, t, Loaded(start, n - 1, 0));
      LeadsOn(total, s, WithPc(s, t, Scanning(start, n - 1)), Load(t), loaded, free);
      LeadsOn(total, s, loaded, Exchange(t, false), WithPc(s, t, Scanning(start, n)), free);
    }
  }

  /** A whole scan that finds only zeros changes nothing. */
  lemma FindsNothing(total: nat, s: Pool, t: nat)
    requires t < |s.threads| && s.threads[t].pc.Idle?
    requires ZerosFirst(s.words, s.head / 64, |s.words|)
    ensures Leads(total, s, s, false)
  {
    PassesZeros(total, s, t, |s.words|, false);
    var done := WithPc(s, t, Scanning(s.head / 64, |s.words|));
    assert WithPc(done, t, Idle) == s;
    LeadsOn(total, s, done, Load(t), s, false);
  }

  /** The state after thread `t` takes the lowest block of word `i`. */
  function Took(s: Pool, t: nat, i: nat): Pool
    requires t < |s.threads| && i < |s.words| && s.words[i] != 0
  {
    var bit := TrailingZeros(s.words[i]);
    var block := i * 64 + bit;
    WithHeld(s, t, s.threads[t].held + multiset{block})
      .(words := s.words[i := AndNot(s.words[i], Shl1(bit))], head := (block + 1) * 64)
  }

  /** `s` with the lowest block of word `i` out of the bitmap. */
  function Cleared(s: Pool, i: nat): Pool
    requires i < |s.words| && s.words[i] != 0
  {
    s.(words := s.words[i := AndNot(s.words[i], Shl1(TrailingZeros(s.words[i])))])
  }

  lemma WinsBlock(total: nat, s: Pool, t: nat, start: nat, n: nat)
    requires t < |s.threads| && n < |s.words| && s.words[ScanIndex(start, n, |s.words|)] != 0
    ensures
      var i := ScanIndex(start, n, |s.words|);
      Do(total, WithPc(s, t, Loaded(start, n, s.words[i])), Exchange(t, false))
      == Some(WithPc(Cleared(s, i), t, Won(start, n, i * 64 + TrailingZeros(s.words[i]))))
  {
    var i := ScanIndex(start, n, |s.words|);
    PcTwice(Cleared(s, i), t, Loaded(start, n, s.words[i]),
            Won(start, n, i * 64 + TrailingZeros(s.words[i])));
  }

  lemma FinishesCall(total: nat, s: Pool, t: nat, start: nat, n: nat, i: nat)
    requires t < |s.threads| && s.threads[t].pc.Idle? && i < |s.words| && s.words[i] != 0
    requires i * 64 + TrailingZeros(s.words[i]) < total
    ensures Do(total, WithPc(Cleared(s, i), t, Won(start, n, i * 64 + TrailingZeros(s.words[i]))),
               Finish(t)) == Some(Took(s, t, i))
  {
    var won := WithPc(Cleared(s, i), t, Won(start, n, i * 64 + TrailingZeros(s.words[i])));
    assert Do(total, won, Finish(t)).value.threads == Took(s, t, i).threads;
  }

  lemma LeadsOnThrice(total: nat, s: Pool, s0: Pool, a: Step, s1: Pool, b: Step, s2: Pool,
                      c: Step, s3: Pool)
    requires Leads(total, s, s0, false) && Do(total, s0, a) == Some(s1)
    requires Do(total, s1, b) == Some(s2) && Do(total, s2, c) == Some(s3)
    ensures Leads(total, s, s3, false)
  {
    LeadsOn(total, s, s0, a, s1, false);
    LeadsOn(total, s, s1, b, s2, false);
    LeadsOn(total, s, s2, c, s3, false);
  }

  /** A scan takes the lowest block of the first word that is not zero. */
  lemma TakesFirst(total: nat, s: Pool, t: nat, n: nat, i: nat)
    requires t < |s.threads| && s.threads[t].pc.Idle? && ZerosFirst(s.words, s.head / 64, n)
    requires n < |s.words| && i == ScanIndex(s.head / 64, n, |s.words|) && s.words[i] != 0
    requires i * 64 + TrailingZeros(s.words[i]) < total
    ensures Leads(total, s, Took(s, t, i), false)
  {
    var start := s.head / 64;
    PassesZeros(total, s, t, n, false);
    LoadsWord(total, s, t, start, n);
    WinsBlock(total, s, t, start, n);
    FinishesCall(total, s, t, start, n, i);
    LeadsOnThrice(total, s, WithPc(s, t, Scanning(start, n)),
      Load(t), WithPc(s, t, Loaded(start, n, s.words[i])),
      Exchange(t, false),
      WithPc(Cleared(s, i), t, Won(start, n, i * 64 + TrailingZeros(s.words[i]))),
      Finish(t), Took(s, t, i));
  }

  /** The first attempt of a scan that finds a word not zero. */
  lemma FirstNonZero(words: seq<nat>, start: nat, n: nat) returns (first: nat)
    requires WordsOk(words) && FreeSet(words) != {} && ZerosFirst(words, start, n)
    ensures ZerosFirst(words, start, first) && first < |words|
    ensures words[ScanIndex(start, first, |words|)] != 0
    decreases |words| - n
  {
    if n == |words| {
      NothingLeft(words, start);
      assert false;
    } else if words[ScanIndex(start, n, |words|)] != 0 {
      first := n;
    } else {
      first := FirstNonZero(words, start, n + 1);
    }
  }

  /** A call that is not interrupted takes a block whenever one is free. */
  lemma TakesOne(total: nat, s: Pool, t: nat) returns (i: nat)
    requires t < |s.threads| && s.threads[t].pc.Idle? && WordsOk(s.words)
    requires FreeSet(s.words) <= AllBlocks(total) && FreeSet(s.words) != {}
    ensures i < |s.words| && s.words[i] != 0 && Leads(total, s, Took(s, t, i), false)
    ensures FreeSet(Took(s, t, i).words) < FreeSet(s.words) && WordsOk(Took(s, t, i).words)
  {
    var n := FirstNonZero(s.words, s.head / 64, 0);
    i := ScanIndex(s.head / 64, n, |s.words|);
    var b := FirstFreeBlock(s.words, s.head / 64, n);
    assert b in AllBlocks(total);
    TakesFirst(total, s, t, n, i);
  }

  // ----- An allocation can find nothing although some block is free at every moment -----

  /** Three threads, of which the last two are not holding any block. */
  function Three(words: seq<nat>, head: nat, held: multiset<nat>, a: Pc, c: Pc): Pool {
    Pool(words, head, [Thread(Idle, held), Thread(a, multiset{}), Thread(c, multiset{})],
         multiset{})
  }

  /** The first thread can take every block. */
  lemma {:induction false} TakesAll(total: nat, words: seq<nat>, head: nat, held: multiset<nat>)
    returns (words': seq<nat>, head': nat, held': multiset<nat>)
    requires WordsOk(words) && FreeSet(words) <= AllBlocks(total)
    ensures Leads(total, Three(words, head, held, Idle, Idle),
                  Three(words', head', held', Idle, Idle), false)
    ensures WordsOk(words') && FreeSet(words') == {} && |words'| == |words|
    decreases |FreeSet(words)|
  {
    var s := Three(words, head, held, Idle, Idle);
    if FreeSet(words) == {} {
      LeadsNowhere(total, s, false);
      words', head', held' := words, head, held;
    } else {
      var i := TakesOne(total, s, 0);
      var next := Took(s, 0, i);
      assert next == Three(next.words, next.head, next.threads[0].held, Idle, Idle);
      SmallerSet(FreeSet(next.words), FreeSet(words));
      words', head', held' := TakesAll(total, next.words, next.head, next.threads[0].held);
      LeadsJoins(total, s, next, Three(words', head', held', Idle, Idle), false);
    }
  }

  lemma SmallerSet(a: set<nat>, b: set<nat>)
    requires a < b
    ensures |a| < |b|
  {
    assert b == a + (b - a);
  }

  function Zeros(n: nat): (words: seq<nat>)
    ensures |words| == n
  {
    seq(n, i => 0)
  }

  lemma FullWords(words: seq<nat>)
    requires WordsOk(words) && FreeSet(words) == {}
    ensures words == Zeros(|words|)
  {
    forall i | 0 <= i < |words| ensures words[i] == 0 {
      ZeroWordIsFull(words, i);
    }
  }

  lemma ThreeClaims(s: Pool)
    requires |s.threads| == 3 && s.threads[1].held == s.threads[2].held == multiset{}
    requires s.threads[0].pc.Idle? && s.threads[1].pc.Idle? && s.threads[2].pc.Idle?
    ensures Claims(s.threads) == s.threads[0].held
  {
    assert s.threads[1..][1..] == [s.threads[2]] && s.threads[1..][0] == s.threads[1];
    assert Claims([s.threads[2]]) == Claim(s.threads[2]) + Claims([]);
  }

  /** What is not free is held by the first thread. */
  lemma FirstHoldsRest(total: nat, words: seq<nat>, head: nat, held: multiset<nat>, b: nat)
    requires Inv(total, Three(words, head, held, Idle, Idle)) && b < total
    requires b !in FreeSet(words)
    ensures b in held
  {
    var s := Three(words, head, held, Idle, Idle);
    ThreeClaims(s);
    InFreeSet(words, b);
    assert Places(s, b) == 1;
  }

  lemma FreshThree(total: nat)
    ensures
      var words := Fresh(total, 3).words;
      && Fresh(total, 3) == Three(words, 0, multiset{}, Idle, Idle)
      && Reachable(total, Fresh(total, 3))
      && WordsOk(words) && FreeSet(words) <= AllBlocks(total)
  {
    var start := Fresh(total, 3);
    assert start.threads == Three(start.words, 0, multiset{}, Idle, Idle).threads;
    assert Run(total, start, []) == Some(start);
    InitialBits(total, start.words);
  }

  /** The lowest block of every word is a block of the pool. */
  lemma FirstOfWord(total: nat, i: nat)
    requires i < BitmapSize(total)
    ensures 64 * i < total
  {}

  /** Every block can be taken, by the first of three threads. */
  lemma AllTaken(total: nat) returns (head: nat, held: multiset<nat>)
    ensures Reachable(total, Three(Zeros(BitmapSize(total)), head, held, Idle, Idle))
    ensures forall i :: 0 <= i < BitmapSize(total) ==> 64 * i in held
  {
    FreshThree(total);
    var start := Fresh(total, 3);
    var words;
    words, head, held := TakesAll(total, start.words, 0, multiset{});
    ReachableOn(total, start, Three(words, head, held, Idle, Idle));
    ReachableInv(total, Three(words, head, held, Idle, Idle));
    FullWords(words);
    forall i | 0 <= i < BitmapSize(total) ensures 64 * i in held {
      FirstOfWord(total, i);
      FirstHoldsRest(total, words, head, held, 64 * i);
    }
  }

  /** The words where only word `g` has its lowest block free. */
  function Only(n: nat, g: nat): (words: seq<nat>)
    requires g < n
    ensures |words| == n && words[g] == 1
    ensures forall i :: 0 <= i < n && i != g ==> words[i] == 0
  {
    Zeros(n)[g := 1]
  }

  lemma WordIsFree(words: seq<nat>, g: nat)
    requires WordsOk(words) && g < |words| && words[g] == 1
    ensures FreeSet(words) != {}
  {
    ZeroWordIsFull(words, g);
  }

  lemma OneBit()
    ensures TrailingZeros(1) == 0 && Shl1(0) == 1 && AndNot(1, 1) == 0 && Or(0, 1) == 1
  {}

  lemma ThreeWithPc(words: seq<nat>, head: nat, held: multiset<nat>, a: Pc, c: Pc, pc: Pc)
    ensures WithPc(Three(words, head, held, a, c), 1, pc) == Three(words, head, held, pc, c)
    ensures WithPc(Three(words, head, held, a, c), 2, pc) == Three(words, head, held, a, pc)
  {
    var s := Three(words, head, held, a, c);
    assert WithPc(s, 1, pc).threads == Three(words, head, held, pc, c).threads;
    assert WithPc(s, 2, pc).threads == Three(words, head, held, a, pc).threads;
  }

  /** The first thread frees the lowest block of word `f`. */
  lemma FreesWord(total: nat, words: seq<nat>, head: nat, held: multiset<nat>, a: Pc, c: Pc,
                  f: nat)
    requires f < |words| && words[f] == 0 && 64 * f in held
    ensures Do(total, Three(words, head, held, a, c), Free(0, 64 * f))
            == Some(Three(words[f := 1], head, held - multiset{64 * f}, a, c))
  {
    OneBit();
    BlockPosition(f, 0);
    var s := Three(words, head, held, a, c);
    assert WithHeld(s, 0, held - multiset{64 * f}).threads
           == Three(words, head, held - multiset{64 * f}, a, c).threads;
  }

  /** The third thread takes the lowest block of word `g`. */
  lemma ThirdWins(total: nat, words: seq<nat>, head: nat, held: multiset<nat>, a: Pc, start: nat,
                  n: nat, g: nat)
    requires g < |words| && words[g] == 1 && g == ScanIndex(start, n, |words|)
    ensures Do(total, Three(words, head, held, a, Loaded(start, n, 1)), Exchange(2, false))
            == Some(Three(words[g := 0], head, held, a, Won(start, n, g * 64)))
  {
    OneBit();
    ThreeWithPc(words[g := 0], head, held, a, Loaded(start, n, 1), Won(start, n, g * 64));
  }

  /** Different attempts look at different words. */
  lemma AttemptsDiffer(start: nat, a: nat, b: nat, n: nat)
    requires a < b < n
    ensures ScanIndex(start, a, n) != ScanIndex(start, b, n)
  {
    SameRemainder(start + b, start + a, n);
  }

  /** With only the last word of the scan free, all the others are passed. */
  lemma OthersPassed(start: nat, n: nat)
    requires n > 0
    ensures ZerosFirst(Only(n, ScanIndex(start, n - 1, n)), start, n - 1)
  {
    var g := ScanIndex(start, n - 1, n);
    forall e | 0 <= e < n - 1 ensures Only(n, g)[ScanIndex(start, e, n)] == 0 {
      AttemptsDiffer(start, e, n - 1, n);
    }
  }

  lemma OnlyIsWords(n: nat, g: nat)
    requires g < n
    ensures WordsOk(Only(n, g)) && FreeSet(Only(n, g)) != {}
  {
    WordIsFree(Only(n, g), g);
  }

  /** A reachable state in which the last word of every scan has the only free block, and the
      third thread, for a call of its own, has just loaded that word. */
  lemma LastLoaded(total: nat) returns (head: nat, held: multiset<nat>, g: nat)
    requires total > 64
    ensures g == ScanIndex(head / 64, BitmapSize(total) - 1, BitmapSize(total))
    ensures Reachable(total, Three(Only(BitmapSize(total), g), head, held, Idle,
                                   Loaded(head / 64, BitmapSize(total) - 1, 1)))
    ensures forall i :: 0 <= i < BitmapSize(total) && i != g ==> 64 * i in held
  {
    var n, all := BitmapSize(total), multiset{};
    head, all := AllTaken(total);
    var start := head / 64;
    g := ScanIndex(start, n - 1, n);
    held := all - multiset{64 * g};
    FirstFrees(total, head, all, n, g);
    ReachableOn(total, Three(Zeros(n), head, all, Idle, Idle),
                Three(Only(n, g), head, held, Idle, Idle));
    ThirdLoads(total, head, held, n, g);
    ReachableOn(total, Three(Only(n, g), head, held, Idle, Idle),
                Three(Only(n, g), head, held, Idle, Loaded(start, n - 1, 1)));
  }

  lemma FirstFrees(total: nat, head: nat, held: multiset<nat>, n: nat, g: nat)
    requires g < n && 64 * g in held
    ensures Leads(total, Three(Zeros(n), head, held, Idle, Idle),
                  Three(Only(n, g), head, held - multiset{64 * g}, Idle, Idle), false)
  {
    var s := Three(Zeros(n), head, held, Idle, Idle);
    FreesWord(total, Zeros(n), head, held, Idle, Idle, g);
    LeadsNowhere(total, s, false);
    LeadsOn(total, s, s, Free(0, 64 * g),
            Three(Only(n, g), head, held - multiset{64 * g}, Idle, Idle), false);
  }

  lemma ThirdLoads(total: nat, head: nat, held: multiset<nat>, n: nat, g: nat)
    requires n > 0 && g == ScanIndex(head / 64, n - 1, n)
    ensures Leads(total, Three(Only(n, g), head, held, Idle, Idle),
                  Three(Only(n, g), head, held, Idle, Loaded(head / 64, n - 1, 1)), false)
  {
    var s, start := Three(Only(n, g), head, held, Idle, Idle), head / 64;
    OthersPassed(start, n);
    PassesZeros(total, s, 2, n - 1, false);
    LoadsWord(total, s, 2, start, n - 1);
    LeadsOn(total, s, WithPc(s, 2, Scanning(start, n - 1)), Load(2),
            WithPc(s, 2, Loaded(start, n - 1, 1)), false);
    ThreeWithPc(Only(n, g), head, held, Idle, Idle, Loaded(start, n - 1, 1));
  }

  /** The second thread passes every word but the last, which keeps its free block; then the
      first word gets a block back and the third thread takes that of the last. */
  lemma MissedSoFar(total: nat, head: nat, held: multiset<nat>, n: nat, f: nat, g: nat)
    requires n > 1 && f == ScanIndex(head / 64, 0, n) && g == ScanIndex(head / 64, n - 1, n)
    requires f != g && 64 * f in held
    ensures Leads(total, Three(Only(n, g), head, held, Idle, Loaded(head / 64, n - 1, 1)),
                  Three(Only(n, f), head, held - multiset{64 * f}, Scanning(head / 64, n - 1),
                        Won(head / 64, n - 1, g * 64)), true)
  {
    var start, other, less := head / 64, Loaded(head / 64, n - 1, 1), held - multiset{64 * f};
    var s := Three(Only(n, g), head, held, Idle, other);
    var both := Only(n, g)[f := 1];
    OnlyIsWords(n, g);
    OnlyIsWords(n, f);
    WordIsFree(both, g);
    OthersPassed(start, n);
    PassesZeros(total, s, 1, n - 1, true);
    ThreeWithPc(Only(n, g), head, held, Idle, other, Scanning(start, n - 1));
    FreesWord(total, Only(n, g), head, held, Scanning(start, n - 1), other, f);
    LeadsOn(total, s, Three(Only(n, g), head, held, Scanning(start, n - 1), other),
            Free(0, 64 * f), Three(both, head, less, Scanning(start, n - 1), other), true);
    ThirdWins(total, both, head, less, Scanning(start, n - 1), start, n - 1, g);
    assert both[g := 0] == Only(n, f);
    LeadsOn(total, s, Three(both, head, less, Scanning(start, n - 1), other), Exchange(2, false),
            Three(Only(n, f), head, less, Scanning(start, n - 1), Won(start, n - 1, g * 64)),
            true);
  }

  /** So the second thread finds the last word empty too. */
  lemma MissesLast(total: nat, head: nat, held: multiset<nat>, n: nat, f: nat, g: nat, c: Pc)
    requires n > 1 && g == ScanIndex(head / 64, n - 1, n) && f < n && f != g
    ensures Leads(total, Three(Only(n, f), head, held, Scanning(head / 64, n - 1), c),
                  Three(Only(n, f), head, held, Scanning(head / 64, n), c), true)
  {
    var words, start := Only(n, f), head / 64;
    var s := Three(words, head, held, Idle, c);
    OnlyIsWords(n, f);
    LoadsWord(total, s, 1, start, n - 1);
    PassesWord(total, s, 1, start, n - 1);
    ThreeWithPc(words, head, held, Idle, c, Scanning(start, n - 1));
    ThreeWithPc(words, head, held, Idle, c, Loaded(start, n - 1, 0));
    ThreeWithPc(words, head, held, Idle, c, Scanning(start, n));
    var first := Three(words, head, held, Scanning(start, n - 1), c);
    var loaded := Three(words, head, held, Loaded(start, n - 1, 0), c);
    LeadsNowhere(total, first, true);
    LeadsOn(total, first, first, Load(1), loaded, true);
    LeadsOn(total, first, loaded, Exchange(1, false),
            Three(words, head, held, Scanning(start, n), c), true);
  }

  /** In a pool of more than one word an allocation can find nothing although at every moment
      some block is free. */
  lemma NoneDespiteFree(total: nat) returns (states: seq<Pool>, steps: seq<Step>)
    requires total > 64
    ensures IsTrace(total, states, steps) && Reachable(total, states[0])
    ensures EndsInNone(states, 1) && AlwaysSomeFree(states)
  {
    var n := BitmapSize(total);
    var head, held, g := LastLoaded(total);
    var f := ScanIndex(head / 64, 0, n);
    AttemptsDiffer(head / 64, 0, n - 1, n);
    var won, less := Won(head / 64, n - 1, g * 64), held - multiset{64 * f};
    var s := Three(Only(n, g), head, held, Idle, Loaded(head / 64, n - 1, 1));
    var last := Three(Only(n, f), head, less, Scanning(head / 64, n), won);
    MissedSoFar(total, head, held, n, f, g);
    MissesLast(total, head, less, n, f, g, won);
    LeadsJoins(total, s, Three(Only(n, f), head, less, Scanning(head / 64, n - 1), won), last,
               true);
    states, steps :| Links(total, states, steps, s, last, true);
  }

  /** Whenever an allocation returns None, no block was free at some moment. */
  ghost predicate NoneMeansNothingFree(total: nat) {
    forall states, steps, t ::
      IsTrace(total, states, steps) && Reachable(total, states[0]) && EndsInNone(states, t) ==>
        !AlwaysSomeFree(states)
  }

  /** That is so exactly for pools of at most one bitmap word. */
  lemma NoneMeansNothingFreeIff(total: nat)
    ensures NoneMeansNothingFree(total) <==> total <= 64
  {
    if total <= 64 {
      forall states, steps, t
        | IsTrace(total, states, steps) && Reachable(total, states[0]) && EndsInNone(states, t)
        ensures !AlwaysSomeFree(states)
      {
        OneWordWasEmpty(total, states, steps, t);
      }
    } else {
      var states, steps := NoneDespiteFree(total);
    }
  }

  lemma OneWordWasEmpty(total: nat, states: seq<Pool>, steps: seq<Step>, t: nat)
    requires IsTrace(total, states, steps) && Reachable(total, states[0])
    requires EndsInNone(states, t) && total <= 64
    ensures !AlwaysSomeFree(states)
  {
    ReachableInv(total, states[0]);
    var k := 0;
    if total > 0 {
      NoneSawEveryWordZero(total, states, steps, t, 0);
      k :| 0 <= k < |states| && HasWord(states[k], 0, 0);
    }
    TraceKeepsInv(total, states, steps, k);
    FullIfZeros(states[k].words);
  }

  lemma FullIfZeros(words: seq<nat>)
    requires forall i :: 0 <= i < |words| ==> words[i] == 0
    ensures FreeSet(words) == {}
  {
    forall b | b in FreeSet(words) ensures false {
      BitOfZero(b % 64);
    }
  }

  /** For instance in a pool of two words. */
  lemma NoneDespiteFreeBlocks() returns (states: seq<Pool>, steps: seq<Step>)
    ensures IsTrace(128, states, steps) && Reachable(128, states[0]) && EndsInNone(states, 1)
    ensures forall k :: 0 <= k < |states| ==> FreeSet(states[k].words) != {}
  {
    states, steps := NoneDespiteFree(128);
  }
}
