/** The fee-strategy table of common/gas_fee_strategy.rs: its updates as functions on the map
    they are applied to. */
module FeeTable {
  import opened Wrappers

  datatype SwqosType =
    | Jito | NextBlock | ZeroSlot | Temporal | Bloxroute | Node1 | FlashBlock | BlockRazor
    | Astralane | Stellium | Lightspeed | Soyas | Speedlanding | Helius | Default

  datatype TradeType = Create | CreateAndBuy | Buy | Sell

  datatype StrategyType = Normal | LowTipHighCuPrice | HighTipLowCuPrice

  /** `tip` is a floating-point number in the program. */
  datatype Value = Value(cuLimit: nat, cuPrice: nat, tip: real)

  datatype Key = Key(swqos: SwqosType, trade: TradeType, strategy: StrategyType)

  type Table = map<Key, Value>

  /** `SwqosType::values()` */
  const SERVICES: seq<SwqosType> :=
    [Jito, NextBlock, ZeroSlot, Temporal, Bloxroute, Node1, FlashBlock, BlockRazor,
     Astralane, Stellium, Lightspeed, Soyas, Speedlanding, Helius, Default]

  lemma ServicesAreAll(s: SwqosType)
    ensures s in SERVICES
  {
    var i := match s
      case Jito => 0 case NextBlock => 1 case ZeroSlot => 2 case Temporal => 3
      case Bloxroute => 4 case Node1 => 5 case FlashBlock => 6 case BlockRazor => 7
      case Astralane => 8 case Stellium => 9 case Lightspeed => 10 case Soyas => 11
      case Speedlanding => 12 case Helius => 13 case Default => 14;
    assert SERVICES[i] == s;
  }

  /** What one closure passed to `rcu`, or the store in `clear`, does to the map. */
  datatype Update =
    | Insert(key: Key, value: Value)
    | Remove(key: Key)
    | RemoveAll(swqos: SwqosType, trade: TradeType)
    | SetTip(trade: TradeType, tip: real)
    | SetCuPrice(trade: TradeType, cuPrice: nat)
    | Clear

  function Apply(u: Update, m: Table): Table {
    match u
    case Insert(key, value) => m[key := value]
    case Remove(key) => m - {key}
    case RemoveAll(s, t) =>
      m - {Key(s, t, Normal)} - {Key(s, t, LowTipHighCuPrice)} - {Key(s, t, HighTipLowCuPrice)}
    case SetTip(t, tip) => map k | k in m :: if k.trade == t then m[k].(tip := tip) else m[k]
    case SetCuPrice(t, p) => map k | k in m :: if k.trade == t then m[k].(cuPrice := p) else m[k]
    case Clear => map[]
  }

  function ApplyAll(us: seq<Update>, m: Table): Table {
    if us == [] then m else Apply(us[|us| - 1], ApplyAll(us[..|us| - 1], m))
  }

  /** No service and trade type hold Normal together with a high or low strategy. */
  ghost predicate Exclusive(m: Table) {
    forall s, t :: ExclusiveAt(m, s, t)
  }

  predicate ExclusiveAt(m: Table, s: SwqosType, t: TradeType) {
    !(&& Key(s, t, Normal) in m
      && (Key(s, t, LowTipHighCuPrice) in m || Key(s, t, HighTipLowCuPrice) in m))
  }

  /** The updates of one `set` call, in order. */
  function SetUpdates(key: Key, value: Value): seq<Update> {
    (if key.strategy.Normal? then
       [Remove(key.(strategy := HighTipLowCuPrice)), Remove(key.(strategy := LowTipHighCuPrice))]
     else [Remove(key.(strategy := Normal))])
    + [Insert(key, value)]
  }

  /** The table after an uninterrupted `set`. */
  function AfterSet(m: Table, key: Key, value: Value): Table {
    if key.strategy.Normal? then
      (m - {key.(strategy := HighTipLowCuPrice)} - {key.(strategy := LowTipHighCuPrice)})
        [key := value]
    else (m - {key.(strategy := Normal)})[key := value]
  }

  lemma SetIsItsUpdates(m: Table, key: Key, value: Value)
    ensures ApplyAll(SetUpdates(key, value), m) == AfterSet(m, key, value)
  {
    var us := SetUpdates(key, value);
    var n := |us|;
    assert us[..n - 1][..n - 2] == us[..n - 2];
    if key.strategy.Normal? {
      assert us[..1][..0] == [];
      assert ApplyAll(us[..1], m) == m - {key.(strategy := HighTipLowCuPrice)};
      assert ApplyAll(us[..2], m) == Apply(us[1], ApplyAll(us[..1], m));
    } else {
      assert ApplyAll(us[..1], m) == m - {key.(strategy := Normal)};
    }
  }

  /** An uninterrupted `set` keeps the exclusion, whatever it sets. */
  lemma SetKeepsExclusive(m: Table, key: Key, value: Value)
    requires Exclusive(m)
    ensures Exclusive(AfterSet(m, key, value))
  {
    forall s, t ensures ExclusiveAt(AfterSet(m, key, value), s, t) {
      assert ExclusiveAt(m, s, t);
    }
  }

  /** So does every single update that is not an insertion. */
  lemma UpdateKeepsExclusive(m: Table, u: Update)
    requires Exclusive(m) && !u.Insert?
    ensures Exclusive(Apply(u, m))
  {
    forall s, t ensures ExclusiveAt(Apply(u, m), s, t) {
      assert ExclusiveAt(m, s, t);
    }
  }
}

/** Threads running `rcu` retry loops on the shared table: load the current map, apply the
    closure to it, and swap it in if the pointer has not changed. */
module Rcu {
  import opened Wrappers
  import opened FeeTable

  /** A thread is idle, or inside a retry loop with the map it last loaded. */
  datatype Thread = Idle | Looping(update: Update, seen: nat, loaded: Table)

  /** `current` is the identity of the published map, `next` one not used yet; `log` lists
      the updates committed so far and `started` and `returned` count calls. */
  datatype Shared = Shared(current: nat, table: Table, next: nat, threads: seq<Thread>,
                           log: seq<Update>, started: nat, returned: nat)

  datatype Step =
    | Begin(t: nat, update: Update)
    | Swap(t: nat)
    | Store

  function WithThread(s: Shared, t: nat, th: Thread): Shared
    requires t < |s.threads|
  {
    s.(threads := s.threads[t := th])
  }

  /** One atomic action; None when the thread cannot take it. */
  function Do(s: Shared, step: Step): Option<Shared> {
    match step
    case Begin(t, update) =>
      if t >= |s.threads| || !s.threads[t].Idle? then None
      else Some(WithThread(s, t, Looping(update, s.current, s.table)).(started := s.started + 1))
    case Swap(t) =>
      if t >= |s.threads| || !s.threads[t].Looping? then None
      else
        var Looping(update, seen, loaded) := s.threads[t];
        if seen == s.current then
          Some(WithThread(s, t, Idle).(current := s.next, next := s.next + 1,
                                       table := Apply(update, loaded),
                                       log := s.log + [update], returned := s.returned + 1))
        else Some(WithThread(s, t, Looping(update, s.current, s.table)))
    case Store =>
      Some(s.(current := s.next, next := s.next + 1, table := map[], log := s.log + [Clear],
              started := s.started + 1, returned := s.returned + 1))
  }

  function Run(s: Shared, steps: seq<Step>): Option<Shared>
    decreases |steps|
  {
    if steps == [] then Some(s)
    else
      match Do(s, steps[0])
      case None => None
      case Some(t) => Run(t, steps[1..])
  }

  function Start(threads: nat): Shared {
    Shared(0, map[], 1, seq(threads, i => Idle), [], 0, 0)
  }

  ghost predicate Reachable(s: Shared) {
    exists threads: nat, steps :: Run(Start(threads), steps) == Some(s)
  }

  function Pending(threads: seq<Thread>): nat {
    if threads == [] then 0
    else (if threads[0].Looping? then 1 else 0) + Pending(threads[1..])
  }

  ghost predicate ThreadOk(s: Shared, th: Thread) {
    th.Looping? ==> th.seen < s.next && (th.seen == s.current ==> th.loaded == s.table)
  }

  ghost predicate TableIsFold(s: Shared) {
    s.table == ApplyAll(s.log, map[])
  }

  ghost predicate Inv(s: Shared) {
    && s.current < s.next
    && TableIsFold(s)
    && |s.log| == s.returned && s.started == s.returned + Pending(s.threads)
    && forall t :: 0 <= t < |s.threads| ==> ThreadOk(s, s.threads[t])
  }

  lemma {:induction false} PendingUpdate(threads: seq<Thread>, t: nat, th: Thread)
    requires t < |threads|
    ensures Pending(threads[t := th]) + (if threads[t].Looping? then 1 else 0)
            == Pending(threads) + if th.Looping? then 1 else 0
  {
    if t == 0 {
      assert threads[t := th][1..] == threads[1..];
    } else {
      assert threads[t := th][1..] == threads[1..][t - 1 := th];
      PendingUpdate(threads[1..], t - 1, th);
    }
  }

  lemma ApplyLast(us: seq<Update>, u: Update, m: Table)
    ensures ApplyAll(us + [u], m) == Apply(u, ApplyAll(us, m))
  {
    assert (us + [u])[..|us|] == us;
  }

  lemma StepKeepsInv(s: Shared, step: Step)
    requires Inv(s) && Do(s, step).Some?
    ensures Inv(Do(s, step).value)
  {
    var next := Do(s, step).value;
    match step {
      case Begin(t, update) => PendingUpdate(s.threads, t, next.threads[t]);
      case Swap(t) =>
        assert ThreadOk(s, s.threads[t]);
        PendingUpdate(s.threads, t, next.threads[t]);
        ApplyLast(s.log, s.threads[t].update, map[]);
      case Store => ApplyLast(s.log, Clear, map[]);
    }
    forall u | 0 <= u < |next.threads| ensures ThreadOk(next, next.threads[u]) {
      assert ThreadOk(s, s.threads[u]);
    }
  }

  lemma {:induction false} RunKeepsInv(s: Shared, steps: seq<Step>)
    requires Inv(s) && Run(s, steps).Some?
    ensures Inv(Run(s, steps).value)
    decreases |steps|
  {
    if steps != [] {
      StepKeepsInv(s, steps[0]);
      RunKeepsInv(Do(s, steps[0]).value, steps[1..]);
    }
  }

  lemma {:induction false} NonePending(threads: seq<Thread>)
    requires forall t :: 0 <= t < |threads| ==> threads[t].Idle?
    ensures Pending(threads) == 0
  {
    if threads != [] { NonePending(threads[1..]); }
  }

  lemma ReachableInv(s: Shared)
    requires Reachable(s)
    ensures Inv(s)
  {
    var threads: nat, steps :| Run(Start(threads), steps) == Some(s);
    NonePending(Start(threads).threads);
    RunKeepsInv(Start(threads), steps);
  }

  /** In every interleaving the published map is the fold of the committed updates in commit
      order, and every call that has returned committed exactly one: none is lost. */
  lemma NoUpdateIsLost(s: Shared)
    requires Reachable(s)
    ensures TableIsFold(s)
    ensures |s.log| == s.returned && s.started == s.returned + Pending(s.threads)
  {
    ReachableInv(s);
  }

  /** A swap that finds the map it loaded commits its own update on top of all the others. */
  lemma SwapAppliesToLatest(s: Shared, t: nat)
    requires Reachable(s) && t < |s.threads| && s.threads[t].Looping?
    requires s.threads[t].seen == s.current
    ensures Do(s, Swap(t)).value.table == Apply(s.threads[t].update, s.table)
    ensures Do(s, Swap(t)).value.log == s.log + [s.threads[t].update]
  {
    ReachableInv(s);
    assert ThreadOk(s, s.threads[t]);
  }

  function Whole(t: nat, u: Update): seq<Step> {
    [Begin(t, u), Swap(t)]
  }

  /** The state after a whole uninterrupted retry loop. */
  function Committed(s: Shared, u: Update): Shared {
    s.(current := s.next, next := s.next + 1, table := Apply(u, s.table), log := s.log + [u],
       started := s.started + 1, returned := s.returned + 1)
  }

  lemma RunTogether(s: Shared, t: nat, u: Update, rest: seq<Step>)
    requires t < |s.threads| && s.threads[t].Idle?
    ensures Run(s, Whole(t, u) + rest) == Run(Committed(s, u), rest)
  {
    var s1 := Do(s, Begin(t, u)).value;
    assert (Whole(t, u) + rest)[1..] == [Swap(t)] + rest;
    assert ([Swap(t)] + rest)[1..] == rest;
    assert s1.threads[t := Idle] == s.threads;
    assert Do(s1, Swap(t)).value == Committed(s, u);
  }

  /** Whole retry loops of one thread or another, in this order. */
  function InTurn(turns: seq<(nat, Update)>): seq<Step> {
    if turns == [] then [] else Whole(turns[0].0, turns[0].1) + InTurn(turns[1..])
  }

  function CommittedAll(s: Shared, turns: seq<(nat, Update)>): (t: Shared)
    ensures t.threads == s.threads
    ensures t.log == s.log + seq(|turns|, i requires 0 <= i < |turns| => turns[i].1)
    decreases |turns|
  {
    if turns == [] then s else CommittedAll(Committed(s, turns[0].1), turns[1..])
  }

  lemma {:induction false} TurnsCommit(s: Shared, turns: seq<(nat, Update)>)
    requires forall i :: 0 <= i < |turns| ==>
               turns[i].0 < |s.threads| && s.threads[turns[i].0].Idle?
    ensures Run(s, InTurn(turns)) == Some(CommittedAll(s, turns))
    decreases |turns|
  {
    if turns != [] {
      RunTogether(s, turns[0].0, turns[0].1, InTurn(turns[1..]));
      TurnsCommit(Committed(s, turns[0].1), turns[1..]);
    }
  }

  lemma LastTwoInserted(us: seq<Update>, a: Key, x: Value, b: Key, y: Value)
    ensures a in ApplyAll(us + [Insert(a, x)] + [Insert(b, y)], map[])
    ensures b in ApplyAll(us + [Insert(a, x)] + [Insert(b, y)], map[])
  {
    ApplyLast(us, Insert(a, x), map[]);
    ApplyLast(us + [Insert(a, x)], Insert(b, y), map[]);
  }

  /** `set` is three separate updates, or two, and so two overlapping calls can break the
      exclusion: thread 0 sets Normal, and thread 1 the low-tip strategy before thread 0's
      last update. */
  lemma OverlappingSetsBreakExclusive(normal: Value, low: Value) returns (s: Shared)
    ensures Reachable(s) && !Exclusive(s.table)
    ensures
      var first := SetUpdates(Key(Jito, Buy, Normal), normal);
      var second := SetUpdates(Key(Jito, Buy, LowTipHighCuPrice), low);
      s.log == first[..2] + second + first[2..]
  {
    var a, b := Key(Jito, Buy, Normal), Key(Jito, Buy, LowTipHighCuPrice);
    var first := [Remove(Key(Jito, Buy, HighTipLowCuPrice)), Remove(b)];
    var turns := [(0, first[0]), (0, first[1]), (1, Remove(a)), (1, Insert(b, low)),
                  (0, Insert(a, normal))];
    TurnsCommit(Start(2), turns);
    s := CommittedAll(Start(2), turns);
    assert s.log == first + [Remove(a)] + [Insert(b, low)] + [Insert(a, normal)];
    NoUpdateIsLost(s);
    LastTwoInserted(first + [Remove(a)], b, low, a, normal);
    assert !ExclusiveAt(s.table, Jito, Buy);
  }
}

/** Threads that run whole programs of public calls at the same time, one `rcu` update after
    another: which programs may overlap without breaking the exclusion. */
module ConcurrentSets {
  import opened Wrappers
  import opened FeeTable
  import Rcu

  const SOME_KEY: Key := Key(Default, Buy, Normal)

  /** An update other than an insertion, made by one `rcu`: `del`, `del_all` and `update_*`. */
  type Single = u: Update | !u.Insert? && !u.Clear? witness Remove(SOME_KEY)

  /** What the public mutators are made of. */
  datatype Op = Set(key: Key, value: Value) | Update(update: Single)

  /** A thread's operations still to finish, and how many updates of the first are committed. */
  datatype Job = Job(ops: seq<Op>, done: nat)

  datatype Sys = Sys(shared: Rcu.Shared, jobs: seq<Job>)

  /** `Store` is `clear`, by anyone at any time. */
  datatype Step = Begin(t: nat) | Swap(t: nat) | Store

  function Updates(op: Op): (us: seq<FeeTable.Update>)
    ensures us != []
  {
    match op
    case Set(key, value) => SetUpdates(key, value)
    case Update(update) => [update]
  }

  predicate HasNext(job: Job) {
    job.ops != [] && job.done < |Updates(job.ops[0])|
  }

  function NextUpdate(job: Job): FeeTable.Update
    requires HasNext(job)
  {
    Updates(job.ops[0])[job.done]
  }

  function Advanced(job: Job): Job
    requires HasNext(job)
  {
    if job.done + 1 < |Updates(job.ops[0])| then job.(done := job.done + 1)
    else Job(job.ops[1..], 0)
  }

  /** One atomic action: a thread loads for its next update, or tries to swap it in. */
  function Do(s: Sys, step: Step): Option<Sys> {
    match step
    case Begin(t) =>
      if t >= |s.jobs| || !HasNext(s.jobs[t]) then None
      else
        (match Rcu.Do(s.shared, Rcu.Begin(t, NextUpdate(s.jobs[t])))
         case None => None
         case Some(next) => Some(s.(shared := next)))
    case Swap(t) =>
      if t >= |s.jobs| || t >= |s.shared.threads| || !HasNext(s.jobs[t]) then None
      else
        (match Rcu.Do(s.shared, Rcu.Swap(t))
         case None => None
         case Some(next) =>
           Some(Sys(next, if next.threads[t].Idle? then s.jobs[t := Advanced(s.jobs[t])]
                          else s.jobs)))
    case Store =>
      match Rcu.Do(s.shared, Rcu.Store)
      case None => None
      case Some(next) => Some(s.(shared := next))
  }

  function Run(s: Sys, steps: seq<Step>): Option<Sys>
    decreases |steps|
  {
    if steps == [] then Some(s)
    else
      match Do(s, steps[0])
      case None => None
      case Some(t) => Run(t, steps[1..])
  }

  function Start(programs: seq<seq<Op>>): Sys {
    Sys(Rcu.Start(|programs|),
        seq(|programs|, t requires 0 <= t < |programs| => Job(programs[t], 0)))
  }

  ghost predicate Reachable(programs: seq<seq<Op>>, s: Sys) {
    exists steps :: Run(Start(programs), steps) == Some(s)
  }

  ghost predicate AlwaysExclusive(programs: seq<seq<Op>>) {
    forall s :: Reachable(programs, s) ==> Exclusive(s.shared.table)
  }

  /** One sets Normal and the other a tip strategy of the same service and trade type. */
  predicate Conflict(a: Op, b: Op) {
    && a.Set? && b.Set? && a.key.swqos == b.key.swqos && a.key.trade == b.key.trade
    && a.key.strategy.Normal? != b.key.strategy.Normal?
  }

  predicate NoConflicts(a: seq<Op>, b: seq<Op>) {
    forall i, j :: 0 <= i < |a| && 0 <= j < |b| ==> !Conflict(a[i], b[j])
  }

  /** No two different threads hold operations that conflict. */
  predicate Compatible(programs: seq<seq<Op>>) {
    forall t, u :: 0 <= t < |programs| && 0 <= u < |programs| && t != u ==>
      NoConflicts(programs[t], programs[u])
  }

  // ----- Compatible programs keep the exclusion -----

  /** What a call in flight has removed is still absent. */
  ghost predicate StillAbsent(m: Table, job: Job) {
    job.ops != [] ==>
      var us := Updates(job.ops[0]);
      forall i :: 0 <= i < job.done && i < |us| && us[i].Remove? ==> us[i].key !in m
  }

  ghost predicate JobOk(s: Sys, t: nat)
    requires t < |s.jobs| == |s.shared.threads|
  {
    && (s.jobs[t].ops != [] ==> HasNext(s.jobs[t]))
    && (s.shared.threads[t].Looping? ==>
          HasNext(s.jobs[t]) && s.shared.threads[t].update == NextUpdate(s.jobs[t]))
    && StillAbsent(s.shared.table, s.jobs[t])
  }

  ghost predicate Inv(s: Sys) {
    && Rcu.Inv(s.shared)
    && |s.jobs| == |s.shared.threads|
    && Exclusive(s.shared.table)
    && (forall t :: 0 <= t < |s.jobs| ==> JobOk(s, t))
    && forall t, u :: 0 <= t < |s.jobs| && 0 <= u < |s.jobs| && t != u ==>
         NoConflicts(s.jobs[t].ops, s.jobs[u].ops)
  }

  /** An update of one operation keeps the exclusion once its rivals are absent. */
  lemma CommitKeepsExclusive(m: Table, job: Job)
    requires Exclusive(m) && HasNext(job) && StillAbsent(m, job)
    ensures Exclusive(Apply(NextUpdate(job), m))
  {
    var us, u := Updates(job.ops[0]), NextUpdate(job);
    if u.Insert? {
      var key := job.ops[0].key;
      assert us[0].Remove? && us[0].key !in m;
      assert |us| == 3 ==> us[1].Remove? && us[1].key !in m;
      forall s, t ensures ExclusiveAt(Apply(u, m), s, t) {
        assert ExclusiveAt(m, s, t);
      }
    } else {
      UpdateKeepsExclusive(m, u);
    }
  }

  /** Nor does it bring back what another thread's call has removed. */
  lemma CommitKeepsAbsent(m: Table, job: Job, other: Job)
    requires HasNext(job) && StillAbsent(m, other) && NoConflicts(job.ops, other.ops)
    requires other.ops != [] ==> HasNext(other)
    ensures StillAbsent(Apply(NextUpdate(job), m), other)
  {
    var u := NextUpdate(job);
    if other.ops != [] && u.Insert? {
      var us := Updates(other.ops[0]);
      assert !Conflict(job.ops[0], other.ops[0]);
      forall i | 0 <= i < other.done && i < |us| && us[i].Remove?
        ensures us[i].key !in Apply(u, m)
      {
        assert other.ops[0].Set? && us[i].key != u.key;
      }
    }
  }

  lemma OwnStaysAbsent(m: Table, job: Job)
    requires HasNext(job) && StillAbsent(m, job)
    ensures StillAbsent(Apply(NextUpdate(job), m), Advanced(job))
    ensures Advanced(job).ops != [] ==> HasNext(Advanced(job))
  {}

  lemma FewerConflicts(job: Job, other: seq<Op>)
    requires HasNext(job)
    ensures NoConflicts(job.ops, other) ==> NoConflicts(Advanced(job).ops, other)
    ensures NoConflicts(other, job.ops) ==> NoConflicts(other, Advanced(job).ops)
  {
    if job.done + 1 >= |Updates(job.ops[0])| {
      assert forall i :: 0 <= i < |job.ops[1..]| ==> job.ops[1..][i] == job.ops[i + 1];
    }
  }

  lemma CommitKeepsInv(s: Sys, t: nat)
    requires Inv(s) && Do(s, Swap(t)).Some?
    requires Do(s, Swap(t)).value.shared.threads[t].Idle?
    ensures Inv(Do(s, Swap(t)).value)
  {
    var next, job := Do(s, Swap(t)).value, s.jobs[t];
    var m, m' := s.shared.table, next.shared.table;
    Rcu.StepKeepsInv(s.shared, Rcu.Swap(t));
    assert JobOk(s, t) && Rcu.ThreadOk(s.shared, s.shared.threads[t]);
    assert m' == Apply(NextUpdate(job), m);
    CommitKeepsExclusive(m, job);
    OwnStaysAbsent(m, job);
    forall u | 0 <= u < |next.jobs| ensures JobOk(next, u) {
      assert JobOk(s, u);
      if u != t { CommitKeepsAbsent(m, job, s.jobs[u]); }
    }
    forall u, v | 0 <= u < |next.jobs| && 0 <= v < |next.jobs| && u != v
      ensures NoConflicts(next.jobs[u].ops, next.jobs[v].ops)
    {
      assert NoConflicts(s.jobs[u].ops, s.jobs[v].ops);
      if u == t { FewerConflicts(job, s.jobs[v].ops); }
      if v == t { FewerConflicts(job, s.jobs[u].ops); }
    }
  }

  lemma StepKeepsInv(s: Sys, step: Step)
    requires Inv(s) && Do(s, step).Some?
    ensures Inv(Do(s, step).value)
  {
    var next := Do(s, step).value;
    match step
    case Begin(t) =>
      Rcu.StepKeepsInv(s.shared, Rcu.Begin(t, NextUpdate(s.jobs[t])));
      forall u | 0 <= u < |next.jobs| ensures JobOk(next, u) {
        assert JobOk(s, u);
      }
    case Swap(t) =>
      if next.shared.threads[t].Idle? {
        CommitKeepsInv(s, t);
      } else {
        Rcu.StepKeepsInv(s.shared, Rcu.Swap(t));
        forall u | 0 <= u < |next.jobs| ensures JobOk(next, u) {
          assert JobOk(s, u);
        }
      }
    case Store =>
      Rcu.StepKeepsInv(s.shared, Rcu.Store);
      forall u | 0 <= u < |next.jobs| ensures JobOk(next, u) {
        assert JobOk(s, u);
      }
  }

  lemma {:induction false} StaysExclusive(s: Sys, steps: seq<Step>)
    requires Inv(s) && Run(s, steps).Some?
    ensures Exclusive(Run(s, steps).value.shared.table)
    decreases |steps|
  {
    if steps != [] {
      StepKeepsInv(s, steps[0]);
      StaysExclusive(Do(s, steps[0]).value, steps[1..]);
    }
  }

  lemma CompatibleIsExclusive(programs: seq<seq<Op>>, s: Sys)
    requires Compatible(programs) && Reachable(programs, s)
    ensures Exclusive(s.shared.table)
  {
    var steps :| Run(Start(programs), steps) == Some(s);
    Rcu.NonePending(Start(programs).shared.threads);
    StaysExclusive(Start(programs), steps);
  }

  // ----- Conflicting programs can break it -----

  lemma {:induction false} RunJoins(s: Sys, a: seq<Step>, b: seq<Step>)
    requires Run(s, a).Some?
    ensures Run(s, a + b) == Run(Run(s, a).value, b)
    decreases |a|
  {
    if a == [] {
      assert a + b == b;
    } else {
      assert (a + b)[1..] == a[1..] + b;
      RunJoins(Do(s, a[0]).value, a[1..], b);
    }
  }

  predicate Ready(s: Sys) {
    |s.jobs| == |s.shared.threads| && forall t :: 0 <= t < |s.jobs| ==> s.shared.threads[t].Idle?
  }

  /** The state after a whole uninterrupted retry loop of thread `t`. */
  function Committed(s: Sys, t: nat): Sys
    requires t < |s.jobs| && HasNext(s.jobs[t])
  {
    Sys(Rcu.Committed(s.shared, NextUpdate(s.jobs[t])), s.jobs[t := Advanced(s.jobs[t])])
  }

  lemma Commits(s: Sys, t: nat) returns (steps: seq<Step>)
    requires Ready(s) && t < |s.jobs| && HasNext(s.jobs[t])
    ensures Run(s, steps) == Some(Committed(s, t)) && Ready(Committed(s, t))
  {
    steps := [Begin(t), Swap(t)];
    var s1 := Do(s, Begin(t)).value;
    assert s1.shared.threads[t := Rcu.Idle] == s.shared.threads;
    assert Do(s1, Swap(t)) == Some(Committed(s, t));
    assert steps[1..] == [Swap(t)] && steps[1..][1..] == [];
    assert Run(Committed(s, t), []) == Some(Committed(s, t));
    assert Run(s1, steps[1..]) == Some(Committed(s, t));
  }

  /** Thread `t` alone can get to just before update `d` of its operation `i`. */
  lemma {:induction false} Reaches(s: Sys, t: nat, i: nat, d: nat)
    returns (s': Sys, steps: seq<Step>)
    requires Ready(s) && t < |s.jobs| && s.jobs[t].done == 0 && i < |s.jobs[t].ops|
    requires d < |Updates(s.jobs[t].ops[i])|
    ensures Run(s, steps) == Some(s') && Ready(s')
    ensures s'.jobs == s.jobs[t := Job(s.jobs[t].ops[i..], d)]
    decreases i, d
  {
    var ops := s.jobs[t].ops;
    if i == 0 && d == 0 {
      s', steps := s, [];
      assert ops[0..] == ops;
    } else {
      var before, first;
      if d > 0 {
        before, first := Reaches(s, t, i, d - 1);
      } else {
        before, first := Reaches(s, t, i - 1, |Updates(ops[i - 1])| - 1);
        assert ops[i - 1..][1..] == ops[i..];
      }
      var second := Commits(before, t);
      RunJoins(s, first, second);
      s', steps := Committed(before, t), first + second;
    }
  }

  /** Two insertions made one after the other are both in the table. */
  lemma BothInsert(s: Sys, t: nat, u: nat, a: Op, b: Op) returns (s': Sys, steps: seq<Step>)
    requires Ready(s) && t < |s.jobs| && u < |s.jobs| && t != u && a.Set? && b.Set?
    requires HasNext(s.jobs[t]) && NextUpdate(s.jobs[t]) == Insert(a.key, a.value)
    requires HasNext(s.jobs[u]) && NextUpdate(s.jobs[u]) == Insert(b.key, b.value)
    ensures Run(s, steps) == Some(s')
    ensures a.key in s'.shared.table && b.key in s'.shared.table
  {
    var first := Commits(s, u);
    var second := Commits(Committed(s, u), t);
    RunJoins(s, first, second);
    s', steps := Committed(Committed(s, u), t), first + second;
  }

  /** The job of a thread about to make the insertion of its operation `i`. */
  function Inserting(ops: seq<Op>, i: nat): (job: Job)
    requires i < |ops| && ops[i].Set?
    ensures HasNext(job) && NextUpdate(job) == Insert(ops[i].key, ops[i].value)
  {
    Job(ops[i..], |Updates(ops[i])| - 1)
  }

  /** Two threads reach their insertions, and make them one after the other. */
  lemma BothReach(s: Sys, t: nat, u: nat, i: nat, j: nat) returns (s': Sys, steps: seq<Step>)
    requires Ready(s) && t < |s.jobs| && u < |s.jobs| && t != u
    requires s.jobs[t].done == s.jobs[u].done == 0
    requires i < |s.jobs[t].ops| && j < |s.jobs[u].ops|
    requires s.jobs[t].ops[i].Set? && s.jobs[u].ops[j].Set?
    ensures Run(s, steps) == Some(s')
    ensures s.jobs[t].ops[i].key in s'.shared.table && s.jobs[u].ops[j].key in s'.shared.table
  {
    var a, b := s.jobs[t].ops, s.jobs[u].ops;
    var s1, first := Reaches(s, t, i, |Updates(a[i])| - 1);
    var s2, second := Reaches(s1, u, j, |Updates(b[j])| - 1);
    assert s2.jobs[t] == Inserting(a, i) && s2.jobs[u] == Inserting(b, j);
    var third;
    s', third := BothInsert(s2, t, u, a[i], b[j]);
    RunJoins(s1, second, third);
    RunJoins(s, first, second + third);
    steps := first + (second + third);
  }

  lemma ConflictBreaks(programs: seq<seq<Op>>, t: nat, u: nat, i: nat, j: nat) returns (s: Sys)
    requires t < |programs| && u < |programs| && t != u && i < |programs[t]| && j < |programs[u]|
    requires Conflict(programs[t][i], programs[u][j])
    ensures Reachable(programs, s) && !Exclusive(s.shared.table)
  {
    var steps;
    s, steps := BothReach(Start(programs), t, u, i, j);
    var key := programs[t][i].key;
    assert !ExclusiveAt(s.shared.table, key.swqos, key.trade);
  }

  /** Every table of every interleaving is exclusive exactly when no two threads hold
      conflicting `set` calls. */
  lemma AlwaysExclusiveIff(programs: seq<seq<Op>>)
    ensures AlwaysExclusive(programs) <==> Compatible(programs)
  {
    if Compatible(programs) {
      forall s | Reachable(programs, s) ensures Exclusive(s.shared.table) {
        CompatibleIsExclusive(programs, s);
      }
    } else {
      var t, u :| 0 <= t < |programs| && 0 <= u < |programs| && t != u
                  && !NoConflicts(programs[t], programs[u]);
      var i, j :| 0 <= i < |programs[t]| && 0 <= j < |programs[u]|
                  && Conflict(programs[t][i], programs[u][j]);
      var s := ConflictBreaks(programs, t, u, i, j);
    }
  }
}

/** The public calls, one after another. */
module GasFees {
  import opened FeeTable

  datatype Call =
    | SetGlobal(buyCuLimit: nat, sellCuLimit: nat, buyCuPrice: nat, sellCuPrice: nat,
                buyTip: real, sellTip: real)
    | SetHighLow(swqos: seq<SwqosType>, trade: TradeType, cuLimit: nat, lowCuPrice: nat,
                 highCuPrice: nat, lowTip: real, highTip: real)
    | SetHighLowOne(service: SwqosType, trade: TradeType, cuLimit: nat, lowCuPrice: nat,
                    highCuPrice: nat, lowTip: real, highTip: real)
    | SetNormal(swqos: seq<SwqosType>, cuLimit: nat, cuPrice: nat, buyTip: real, sellTip: real)
    | Set(key: Key, value: Value)
    | Del(key: Key)
    | DelAll(service: SwqosType, trade: TradeType)
    | UpdateTip(buy: bool, tip: real)
    | UpdateCuPrice(buy: bool, cuPrice: nat)
    | ClearAll

  /** The trade type `update_buy_*` and `update_sell_*` look for. */
  function Side(buy: bool): TradeType {
    if buy then Buy else Sell
  }

  /** Buy and Sell of one service set to Normal. */
  function NormalFor(m: Table, s: SwqosType, buy: Value, sell: Value): Table {
    AfterSet(AfterSet(m, Key(s, Buy, Normal), buy), Key(s, Sell, Normal), sell)
  }

  function GlobalOver(m: Table, services: seq<SwqosType>, buy: Value, sell: Value): Table {
    if services == [] then m
    else
      var before := GlobalOver(m, services[..|services| - 1], buy, sell);
      var s := services[|services| - 1];
      if s.Default? then before else NormalFor(before, s, buy, sell)
  }

  function HighLowFor(m: Table, s: SwqosType, t: TradeType, low: Value, high: Value): Table {
    AfterSet(AfterSet(m - {Key(s, t, Normal)}, Key(s, t, LowTipHighCuPrice), low),
             Key(s, t, HighTipLowCuPrice), high)
  }

  function HighLowOver(m: Table, services: seq<SwqosType>, t: TradeType, low: Value, high: Value)
    : Table
  {
    if services == [] then m
    else HighLowFor(HighLowOver(m, services[..|services| - 1], t, low, high),
                    services[|services| - 1], t, low, high)
  }

  function ResetFor(m: Table, s: SwqosType, buy: Value, sell: Value): Table {
    NormalFor(Apply(RemoveAll(s, Sell), Apply(RemoveAll(s, Buy), m)), s, buy, sell)
  }

  function NormalOver(m: Table, services: seq<SwqosType>, buy: Value, sell: Value): Table {
    if services == [] then m
    else ResetFor(NormalOver(m, services[..|services| - 1], buy, sell),
                  services[|services| - 1], buy, sell)
  }

  /** The table after a call. */
  function After(m: Table, call: Call): Table {
    match call
    case SetGlobal(bl, sl, bp, sp, bt, st) =>
      NormalFor(GlobalOver(m, SERVICES, Value(bl, bp, bt), Value(sl, sp, st)),
                Default, Value(bl, bp, 0.0), Value(sl, sp, 0.0))
    case SetHighLow(services, t, limit, lowPrice, highPrice, lowTip, highTip) =>
      HighLowOver(m, services, t, Value(limit, highPrice, lowTip), Value(limit, lowPrice, highTip))
    case SetHighLowOne(s, t, limit, lowPrice, highPrice, lowTip, highTip) =>
      if s.Default? then m
      else HighLowFor(m, s, t, Value(limit, highPrice, lowTip), Value(limit, lowPrice, highTip))
    case SetNormal(services, limit, price, bt, st) =>
      NormalOver(m, services, Value(limit, price, bt), Value(limit, price, st))
    case Set(key, value) => AfterSet(m, key, value)
    case Del(key) => Apply(Remove(key), m)
    case DelAll(s, t) => Apply(RemoveAll(s, t), m)
    case UpdateTip(buy, tip) => Apply(SetTip(Side(buy), tip), m)
    case UpdateCuPrice(buy, price) => Apply(SetCuPrice(Side(buy), price), m)
    case ClearAll => map[]
  }

  function AfterAll(m: Table, calls: seq<Call>): Table {
    if calls == [] then m else After(AfterAll(m, calls[..|calls| - 1]), calls[|calls| - 1])
  }

  lemma NormalForKeeps(m: Table, s: SwqosType, buy: Value, sell: Value)
    requires Exclusive(m)
    ensures Exclusive(NormalFor(m, s, buy, sell))
  {
    SetKeepsExclusive(m, Key(s, Buy, Normal), buy);
    SetKeepsExclusive(AfterSet(m, Key(s, Buy, Normal), buy), Key(s, Sell, Normal), sell);
  }

  lemma {:induction false} GlobalOverKeeps(m: Table, ss: seq<SwqosType>, buy: Value, sell: Value)
    requires Exclusive(m)
    ensures Exclusive(GlobalOver(m, ss, buy, sell))
  {
    if ss != [] {
      GlobalOverKeeps(m, ss[..|ss| - 1], buy, sell);
      NormalForKeeps(GlobalOver(m, ss[..|ss| - 1], buy, sell), ss[|ss| - 1], buy, sell);
    }
  }

  lemma HighLowForKeeps(m: Table, s: SwqosType, t: TradeType, low: Value, high: Value)
    requires Exclusive(m)
    ensures Exclusive(HighLowFor(m, s, t, low, high))
  {
    var cleared := m - {Key(s, t, Normal)};
    UpdateKeepsExclusive(m, Remove(Key(s, t, Normal)));
    SetKeepsExclusive(cleared, Key(s, t, LowTipHighCuPrice), low);
    SetKeepsExclusive(AfterSet(cleared, Key(s, t, LowTipHighCuPrice), low),
                      Key(s, t, HighTipLowCuPrice), high);
  }

  lemma {:induction false} HighLowOverKeeps(m: Table, ss: seq<SwqosType>, t: TradeType,
                                            low: Value, high: Value)
    requires Exclusive(m)
    ensures Exclusive(HighLowOver(m, ss, t, low, high))
  {
    if ss != [] {
      HighLowOverKeeps(m, ss[..|ss| - 1], t, low, high);
      HighLowForKeeps(HighLowOver(m, ss[..|ss| - 1], t, low, high), ss[|ss| - 1], t, low, high);
    }
  }

  lemma {:induction false} NormalOverKeeps(m: Table, ss: seq<SwqosType>, buy: Value, sell: Value)
    requires Exclusive(m)
    ensures Exclusive(NormalOver(m, ss, buy, sell))
  {
    if ss != [] {
      var s, before := ss[|ss| - 1], NormalOver(m, ss[..|ss| - 1], buy, sell);
      NormalOverKeeps(m, ss[..|ss| - 1], buy, sell);
      UpdateKeepsExclusive(before, RemoveAll(s, Buy));
      UpdateKeepsExclusive(Apply(RemoveAll(s, Buy), before), RemoveAll(s, Sell));
      NormalForKeeps(Apply(RemoveAll(s, Sell), Apply(RemoveAll(s, Buy), before)), s, buy, sell);
    }
  }

  /** Every public call keeps the exclusion. */
  lemma CallKeepsExclusive(m: Table, call: Call)
    requires Exclusive(m)
    ensures Exclusive(After(m, call))
  {
    match call
    case SetGlobal(bl, sl, bp, sp, bt, st) =>
      GlobalOverKeeps(m, SERVICES, Value(bl, bp, bt), Value(sl, sp, st));
      NormalForKeeps(GlobalOver(m, SERVICES, Value(bl, bp, bt), Value(sl, sp, st)),
                     Default, Value(bl, bp, 0.0), Value(sl, sp, 0.0));
    case SetHighLow(services, t, limit, lp, hp, lt, ht) =>
      HighLowOverKeeps(m, services, t, Value(limit, hp, lt), Value(limit, lp, ht));
    case SetHighLowOne(s, t, limit, lp, hp, lt, ht) =>
      HighLowForKeeps(m, s, t, Value(limit, hp, lt), Value(limit, lp, ht));
    case SetNormal(services, limit, price, bt, st) =>
      NormalOverKeeps(m, services, Value(limit, price, bt), Value(limit, price, st));
    case Set(key, value) => SetKeepsExclusive(m, key, value);
    case Del(key) => UpdateKeepsExclusive(m, Remove(key));
    case DelAll(s, t) => UpdateKeepsExclusive(m, RemoveAll(s, t));
    case UpdateTip(buy, tip) => UpdateKeepsExclusive(m, SetTip(Side(buy), tip));
    case UpdateCuPrice(buy, price) => UpdateKeepsExclusive(m, SetCuPrice(Side(buy), price));
    case ClearAll => UpdateKeepsExclusive(m, Clear);
  }

  /** Over every sequence of calls that do not overlap, no service and trade type hold Normal
      together with a high or low strategy. */
  lemma {:induction false} CallsKeepExclusive(calls: seq<Call>)
    ensures Exclusive(AfterAll(map[], calls))
  {
    if calls != [] {
      CallsKeepExclusive(calls[..|calls| - 1]);
      CallKeepsExclusive(AfterAll(map[], calls[..|calls| - 1]), calls[|calls| - 1]);
    }
  }

  /** A sequence runs call by call, each from the table the ones before left. */
  lemma {:induction false} CallsCompose(m: Table, a: seq<Call>, b: seq<Call>)
    ensures AfterAll(m, a + b) == AfterAll(AfterAll(m, a), b)
    ensures |b| == 1 ==> AfterAll(m, a + b) == After(AfterAll(m, a), b[0])
    decreases |b|
  {
    if b == [] {
      assert a + b == a;
    } else {
      assert (a + b)[..|a + b| - 1] == a + b[..|b| - 1];
      CallsCompose(m, a, b[..|b| - 1]);
    }
  }

  /** The service and trade type hold Normal with this value and nothing else. */
  predicate OnlyNormal(m: Table, s: SwqosType, t: TradeType, v: Value) {
    && Key(s, t, Normal) in m && m[Key(s, t, Normal)] == v
    && Key(s, t, LowTipHighCuPrice) !in m && Key(s, t, HighTipLowCuPrice) !in m
  }

  predicate SameAt(m: Table, n: Table, key: Key) {
    (key in m <==> key in n) && (key in m ==> m[key] == n[key])
  }

  lemma NormalForAt(m: Table, s: SwqosType, buy: Value, sell: Value)
    ensures OnlyNormal(NormalFor(m, s, buy, sell), s, Buy, buy)
    ensures OnlyNormal(NormalFor(m, s, buy, sell), s, Sell, sell)
    ensures forall key: Key :: key.swqos != s || (key.trade != Buy && key.trade != Sell) ==>
              SameAt(m, NormalFor(m, s, buy, sell), key)
  {}

  lemma {:induction false} GlobalOverAt(m: Table, ss: seq<SwqosType>, buy: Value, sell: Value,
                                        key: Key)
    ensures key.swqos in ss && !key.swqos.Default? ==>
              OnlyNormal(GlobalOver(m, ss, buy, sell), key.swqos, Buy, buy) &&
              OnlyNormal(GlobalOver(m, ss, buy, sell), key.swqos, Sell, sell)
    ensures key.trade != Buy && key.trade != Sell ==> SameAt(m, GlobalOver(m, ss, buy, sell), key)
  {
    if ss != [] {
      var last, init := ss[|ss| - 1], ss[..|ss| - 1];
      GlobalOverAt(m, init, buy, sell, key);
      NormalForAt(GlobalOver(m, init, buy, sell), last, buy, sell);
      if key.swqos != last {
        assert key.swqos in ss ==> key.swqos in init;
        forall t, k ensures SameAt(GlobalOver(m, init, buy, sell), GlobalOver(m, ss, buy, sell),
                                   Key(key.swqos, t, k)) {}
      }
    }
  }

  /** After `set_global_fee_strategy` every service holds exactly a Normal entry for Buy and
      for Sell, Default without a tip, and other trade types are as they were. */
  lemma GlobalSetsEverything(m: Table, call: Call, s: SwqosType, t: TradeType, k: StrategyType)
    requires call.SetGlobal?
    ensures
      var n := After(m, call);
      && OnlyNormal(n, s, Buy, Value(call.buyCuLimit, call.buyCuPrice,
                                     if s.Default? then 0.0 else call.buyTip))
      && OnlyNormal(n, s, Sell, Value(call.sellCuLimit, call.sellCuPrice,
                                      if s.Default? then 0.0 else call.sellTip))
      && (t != Buy && t != Sell ==> SameAt(m, n, Key(s, t, k)))
  {
    var SetGlobal(bl, sl, bp, sp, bt, st) := call;
    var over := GlobalOver(m, SERVICES, Value(bl, bp, bt), Value(sl, sp, st));
    ServicesAreAll(s);
    GlobalOverAt(m, SERVICES, Value(bl, bp, bt), Value(sl, sp, st), Key(s, t, k));
    NormalForAt(over, Default, Value(bl, bp, 0.0), Value(sl, sp, 0.0));
    if !s.Default? {
      forall t', k' ensures SameAt(over, After(m, call), Key(s, t', k')) {}
    }
  }

  /** The service and trade type hold the two tip strategies with these values, and not Normal. */
  predicate OnlyHighLow(m: Table, s: SwqosType, t: TradeType, low: Value, high: Value) {
    && Key(s, t, Normal) !in m
    && Key(s, t, LowTipHighCuPrice) in m && m[Key(s, t, LowTipHighCuPrice)] == low
    && Key(s, t, HighTipLowCuPrice) in m && m[Key(s, t, HighTipLowCuPrice)] == high
  }

  lemma HighLowForAt(m: Table, s: SwqosType, t: TradeType, low: Value, high: Value)
    ensures OnlyHighLow(HighLowFor(m, s, t, low, high), s, t, low, high)
    ensures forall key: Key :: key.swqos != s || key.trade != t ==>
              SameAt(m, HighLowFor(m, s, t, low, high), key)
  {}

  lemma {:induction false} HighLowOverAt(m: Table, ss: seq<SwqosType>, t: TradeType, low: Value,
                                         high: Value, key: Key)
    ensures key.swqos in ss ==>
              OnlyHighLow(HighLowOver(m, ss, t, low, high), key.swqos, t, low, high)
    ensures key.swqos !in ss || key.trade != t ==>
              SameAt(m, HighLowOver(m, ss, t, low, high), key)
  {
    if ss != [] {
      var last, init := ss[|ss| - 1], ss[..|ss| - 1];
      var before, after := HighLowOver(m, init, t, low, high), HighLowOver(m, ss, t, low, high);
      HighLowOverAt(m, init, t, low, high, key);
      HighLowForAt(before, last, t, low, high);
      if key.swqos != last {
        assert key.swqos in ss <==> key.swqos in init;
        forall k ensures SameAt(before, after, Key(key.swqos, t, k)) {}
        assert SameAt(before, after, key);
      }
    }
  }

  /** After `set_high_low_fee_strategies` each listed service holds exactly the two tip
      strategies for the trade type, the low tip with the high price and the high tip with the
      low one, and everything else is as it was. */
  lemma HighLowSetsExactly(m: Table, call: Call, key: Key)
    requires call.SetHighLow?
    ensures
      var n := After(m, call);
      && (key.swqos in call.swqos ==>
            OnlyHighLow(n, key.swqos, call.trade,
                        Value(call.cuLimit, call.highCuPrice, call.lowTip),
                        Value(call.cuLimit, call.lowCuPrice, call.highTip)))
      && (key.swqos !in call.swqos || key.trade != call.trade ==> SameAt(m, n, key))
  {
    HighLowOverAt(m, call.swqos, call.trade, Value(call.cuLimit, call.highCuPrice, call.lowTip),
                  Value(call.cuLimit, call.lowCuPrice, call.highTip), key);
  }

  /** `set_high_low_fee_strategy` does the same for its one service and leaves Default alone. */
  lemma HighLowOneSetsExactly(m: Table, call: Call, key: Key)
    requires call.SetHighLowOne?
    ensures
      var n := After(m, call);
      && (call.service.Default? ==> n == m)
      && (!call.service.Default? ==>
            && OnlyHighLow(n, call.service, call.trade,
                           Value(call.cuLimit, call.highCuPrice, call.lowTip),
                           Value(call.cuLimit, call.lowCuPrice, call.highTip))
            && (key.swqos != call.service || key.trade != call.trade ==> SameAt(m, n, key)))
  {
    if !call.service.Default? {
      HighLowForAt(m, call.service, call.trade,
                   Value(call.cuLimit, call.highCuPrice, call.lowTip),
                   Value(call.cuLimit, call.lowCuPrice, call.highTip));
    }
  }

  /** `set` stores its entry, removes what excludes it, and leaves every other entry. */
  lemma SetSetsExactly(m: Table, call: Call, key: Key)
    requires call.Set?
    ensures
      var n, k := After(m, call), call.key;
      var excluded := key.swqos == k.swqos && key.trade == k.trade
                      && key.strategy.Normal? != k.strategy.Normal?;
      && k in n && n[k] == call.value
      && (key != k ==> if excluded then key !in n else SameAt(m, n, key))
  {}

  /** The deletions remove exactly their entries, and `clear` all. */
  lemma DeletionsAreExact(m: Table, call: Call, key: Key)
    requires call.Del? || call.DelAll? || call.ClearAll?
    ensures
      var n := After(m, call);
      match call
      case Del(k) => if key == k then key !in n else SameAt(m, n, key)
      case DelAll(s, t) =>
        if key.swqos == s && key.trade == t then key !in n else SameAt(m, n, key)
      case _ => key !in n
  {
    if call.DelAll? {
      match key.strategy { case Normal => case LowTipHighCuPrice => case HighTipLowCuPrice => }
    }
  }

  lemma ResetForAt(m: Table, s: SwqosType, buy: Value, sell: Value)
    ensures OnlyNormal(ResetFor(m, s, buy, sell), s, Buy, buy)
    ensures OnlyNormal(ResetFor(m, s, buy, sell), s, Sell, sell)
    ensures forall key: Key :: key.swqos != s || (key.trade != Buy && key.trade != Sell) ==>
              SameAt(m, ResetFor(m, s, buy, sell), key)
  {
    var cleared := Apply(RemoveAll(s, Sell), Apply(RemoveAll(s, Buy), m));
    NormalForAt(cleared, s, buy, sell);
    forall key: Key | key.swqos != s || (key.trade != Buy && key.trade != Sell)
      ensures SameAt(m, ResetFor(m, s, buy, sell), key)
    {
      assert SameAt(cleared, NormalFor(cleared, s, buy, sell), key);
    }
  }

  lemma {:induction false} NormalOverAt(m: Table, ss: seq<SwqosType>, buy: Value, sell: Value,
                                        key: Key)
    ensures key.swqos in ss ==>
              OnlyNormal(NormalOver(m, ss, buy, sell), key.swqos, Buy, buy) &&
              OnlyNormal(NormalOver(m, ss, buy, sell), key.swqos, Sell, sell)
    ensures key.swqos !in ss || (key.trade != Buy && key.trade != Sell) ==>
              SameAt(m, NormalOver(m, ss, buy, sell), key)
  {
    if ss != [] {
      var last, init := ss[|ss| - 1], ss[..|ss| - 1];
      var before, after := NormalOver(m, init, buy, sell), NormalOver(m, ss, buy, sell);
      NormalOverAt(m, init, buy, sell, key);
      ResetForAt(before, last, buy, sell);
      if key.swqos != last {
        assert key.swqos in ss <==> key.swqos in init;
        forall t, k ensures SameAt(before, after, Key(key.swqos, t, k)) {}
        assert SameAt(before, after, key);
      }
    }
  }

  /** After `set_normal_fee_strategies` each listed service, Default with its tip like the
      others, holds exactly Normal for Buy and for Sell, and everything else is as it was. */
  lemma NormalSetsExactly(m: Table, call: Call, key: Key)
    requires call.SetNormal?
    ensures
      var n := After(m, call);
      && (key.swqos in call.swqos ==>
            OnlyNormal(n, key.swqos, Buy, Value(call.cuLimit, call.cuPrice, call.buyTip)) &&
            OnlyNormal(n, key.swqos, Sell, Value(call.cuLimit, call.cuPrice, call.sellTip)))
      && (key.swqos !in call.swqos || (key.trade != Buy && key.trade != Sell) ==>
            SameAt(m, n, key))
  {
    NormalOverAt(m, call.swqos, Value(call.cuLimit, call.cuPrice, call.buyTip),
                 Value(call.cuLimit, call.cuPrice, call.sellTip), key);
  }

  datatype Entry = Entry(swqos: SwqosType, strategy: StrategyType, value: Value)

  const ALL_SERVICES: set<SwqosType> := set s | s in SERVICES

  const STRATEGIES: seq<StrategyType> := [Normal, LowTipHighCuPrice, HighTipLowCuPrice]

  /** `entries` lists what the table holds for `t` and the services in `done`, each once. */
  ghost predicate Lists(m: Table, t: TradeType, done: set<SwqosType>, entries: seq<Entry>) {
    && (forall i :: 0 <= i < |entries| ==>
          var e := entries[i];
          e.swqos in done && Key(e.swqos, t, e.strategy) in m &&
          m[Key(e.swqos, t, e.strategy)] == e.value)
    && (forall s, k :: s in done && Key(s, t, k) in m ==>
          Entry(s, k, m[Key(s, t, k)]) in entries)
    && (forall i, j :: 0 <= i < j < |entries| ==>
          entries[i].swqos != entries[j].swqos || entries[i].strategy != entries[j].strategy)
  }

  /** The entries of one service, in the order of `GasFeeStrategyType::values()`. */
  function EntriesOf(m: Table, t: TradeType, s: SwqosType): seq<Entry> {
    EntryAt(m, Key(s, t, Normal)) + EntryAt(m, Key(s, t, LowTipHighCuPrice))
    + EntryAt(m, Key(s, t, HighTipLowCuPrice))
  }

  function EntryAt(m: Table, key: Key): seq<Entry> {
    if key in m then [Entry(key.swqos, key.strategy, m[key])] else []
  }

  lemma EntryIsIn(m: Table, t: TradeType, s: SwqosType, k: StrategyType)
    requires Key(s, t, k) in m
    ensures Entry(s, k, m[Key(s, t, k)]) in EntriesOf(m, t, s)
  {
    var a, b := EntryAt(m, Key(s, t, Normal)), EntryAt(m, Key(s, t, LowTipHighCuPrice));
    var at := match k case Normal => 0 case LowTipHighCuPrice => |a|
                      case HighTipLowCuPrice => |a| + |b|;
    assert EntriesOf(m, t, s)[at] == Entry(s, k, m[Key(s, t, k)]);
  }

  /** The position of a strategy in `GasFeeStrategyType::values()`. */
  function Rank(k: StrategyType): nat {
    match k case Normal => 0 case LowTipHighCuPrice => 1 case HighTipLowCuPrice => 2
  }

  lemma EntryOfService(m: Table, t: TradeType, s: SwqosType, i: nat)
    requires i < |EntriesOf(m, t, s)|
    ensures
      var e := EntriesOf(m, t, s)[i];
      e.swqos == s && Key(s, t, e.strategy) in m && m[Key(s, t, e.strategy)] == e.value
    ensures i > 0 ==>
              Rank(EntriesOf(m, t, s)[i - 1].strategy) < Rank(EntriesOf(m, t, s)[i].strategy)
    ensures |EntriesOf(m, t, s)| <= 3
  {}

  lemma EntriesOfService(m: Table, t: TradeType, s: SwqosType)
    ensures Lists(m, t, {s}, EntriesOf(m, t, s))
  {
    var es := EntriesOf(m, t, s);
    forall i | 0 <= i < |es|
      ensures es[i].swqos == s && Key(s, t, es[i].strategy) in m
      ensures m[Key(s, t, es[i].strategy)] == es[i].value
    {
      EntryOfService(m, t, s, i);
    }
    forall i, j | 0 <= i < j < |es| ensures es[i].strategy != es[j].strategy {
      EntryOfService(m, t, s, j);
      EntryOfService(m, t, s, j - 1);
    }
    forall s', k | s' in {s} && Key(s', t, k) in m
      ensures Entry(s', k, m[Key(s', t, k)]) in EntriesOf(m, t, s)
    {
      EntryIsIn(m, t, s, k);
    }
  }

  lemma ListsJoin(m: Table, t: TradeType, done: set<SwqosType>, es: seq<Entry>,
                  s: SwqosType, more: seq<Entry>)
    requires Lists(m, t, done, es) && Lists(m, t, {s}, more) && s !in done
    ensures Lists(m, t, done + {s}, es + more)
  {
    var all := es + more;
    forall s', k | s' in done + {s} && Key(s', t, k) in m
      ensures Entry(s', k, m[Key(s', t, k)]) in all
    {
      if s' in done {
        assert Entry(s', k, m[Key(s', t, k)]) in es;
      } else {
        assert Entry(s', k, m[Key(s', t, k)]) in more;
      }
    }
    forall i, j | 0 <= i < j < |all|
      ensures all[i].swqos != all[j].swqos || all[i].strategy != all[j].strategy
    {
      if j < |es| {
        assert all[i] == es[i] && all[j] == es[j];
      } else if i >= |es| {
        assert all[i] == more[i - |es|] && all[j] == more[j - |es|];
      } else {
        assert all[i] == es[i] && all[j] == more[j - |es|];
      }
    }
  }

  class GasFeeStrategy {
    var strategies: Table

    constructor ()
      ensures strategies == map[]
    {
      strategies := map[];
    }

    method Rcu(u: Update)
      modifies this
      ensures strategies == Apply(u, old(strategies))
    {
      strategies := Apply(u, strategies);
    }

    method DelOne(s: SwqosType, t: TradeType, k: StrategyType)
      modifies this
      ensures strategies == After(old(strategies), Del(Key(s, t, k)))
    {
      Rcu(Remove(Key(s, t, k)));
    }

    method DelBoth(s: SwqosType, t: TradeType)
      modifies this
      ensures strategies == After(old(strategies), DelAll(s, t))
    {
      Rcu(RemoveAll(s, t));
    }

    /** `update_buy_tip` and `update_sell_tip` */
    method UpdateTips(buy: bool, tip: real)
      modifies this
      ensures strategies == After(old(strategies), UpdateTip(buy, tip))
      ensures strategies.Keys == old(strategies).Keys
      ensures forall k :: k in strategies ==>
        strategies[k] == if k.trade == (if buy then Buy else Sell)
                         then old(strategies)[k].(tip := tip)
                         else old(strategies)[k]
    {
      Rcu(SetTip(Side(buy), tip));
    }

    /** `update_buy_cu_price` and `update_sell_cu_price` */
    method UpdateCuPrices(buy: bool, cuPrice: nat)
      modifies this
      ensures strategies == After(old(strategies), UpdateCuPrice(buy, cuPrice))
      ensures strategies.Keys == old(strategies).Keys
      ensures forall k :: k in strategies ==>
        strategies[k] == if k.trade == (if buy then Buy else Sell)
                         then old(strategies)[k].(cuPrice := cuPrice)
                         else old(strategies)[k]
    {
      Rcu(SetCuPrice(Side(buy), cuPrice));
    }

    method ClearTable()
      modifies this
      ensures strategies == map[]
    {
      strategies := map[];
    }

    method SetEntry(s: SwqosType, t: TradeType, k: StrategyType, cuLimit: nat, cuPrice: nat,
                    tip: real)
      modifies this
      ensures strategies == AfterSet(old(strategies), Key(s, t, k), Value(cuLimit, cuPrice, tip))
    {
      if k.Normal? {
        DelOne(s, t, HighTipLowCuPrice);
        DelOne(s, t, LowTipHighCuPrice);
      } else {
        DelOne(s, t, Normal);
      }
      Rcu(Insert(Key(s, t, k), Value(cuLimit, cuPrice, tip)));
    }

    method SetGlobalFeeStrategy(buyCuLimit: nat, sellCuLimit: nat, buyCuPrice: nat,
                                sellCuPrice: nat, buyTip: real, sellTip: real)
      modifies this
      ensures strategies == After(old(strategies), SetGlobal(buyCuLimit, sellCuLimit, buyCuPrice,
                                                             sellCuPrice, buyTip, sellTip))
    {
      ghost var m := strategies;
      ghost var buy, sell := Value(buyCuLimit, buyCuPrice, buyTip),
                             Value(sellCuLimit, sellCuPrice, sellTip);
      assert SERVICES[..0] == [];
      for i := 0 to |SERVICES|
        invariant strategies == GlobalOver(m, SERVICES[..i], buy, sell)
      {
        assert SERVICES[..i + 1][..i] == SERVICES[..i];
        if !SERVICES[i].Default? {
          SetEntry(SERVICES[i], Buy, Normal, buyCuLimit, buyCuPrice, buyTip);
          SetEntry(SERVICES[i], Sell, Normal, sellCuLimit, sellCuPrice, sellTip);
        }
      }
      assert SERVICES[..|SERVICES|] == SERVICES;
      SetEntry(Default, Buy, Normal, buyCuLimit, buyCuPrice, 0.0);
      SetEntry(Default, Sell, Normal, sellCuLimit, sellCuPrice, 0.0);
    }

    method SetHighLowFeeStrategies(services: seq<SwqosType>, t: TradeType, cuLimit: nat,
                                   lowCuPrice: nat, highCuPrice: nat, lowTip: real, highTip: real)
      modifies this
      ensures strategies == After(old(strategies), SetHighLow(services, t, cuLimit, lowCuPrice,
                                                              highCuPrice, lowTip, highTip))
    {
      ghost var m := strategies;
      ghost var low, high := Value(cuLimit, highCuPrice, lowTip),
                             Value(cuLimit, lowCuPrice, highTip);
      for i := 0 to |services|
        invariant strategies == HighLowOver(m, services[..i], t, low, high)
      {
        assert services[..i + 1][..i] == services[..i];
        DelOne(services[i], t, Normal);
        SetEntry(services[i], t, LowTipHighCuPrice, cuLimit, highCuPrice, lowTip);
        SetEntry(services[i], t, HighTipLowCuPrice, cuLimit, lowCuPrice, highTip);
      }
      assert services[..|services|] == services;
    }

    /** Unlike the method for several services, this one leaves Default alone. */
    method SetHighLowFeeStrategy(s: SwqosType, t: TradeType, cuLimit: nat, lowCuPrice: nat,
                                 highCuPrice: nat, lowTip: real, highTip: real)
      modifies this
      ensures strategies == After(old(strategies), SetHighLowOne(s, t, cuLimit, lowCuPrice,
                                                                 highCuPrice, lowTip, highTip))
    {
      if s.Default? {
        return;
      }
      DelOne(s, t, Normal);
      SetEntry(s, t, LowTipHighCuPrice, cuLimit, highCuPrice, lowTip);
      SetEntry(s, t, HighTipLowCuPrice, cuLimit, lowCuPrice, highTip);
    }

    method SetNormalFeeStrategies(services: seq<SwqosType>, cuLimit: nat, cuPrice: nat,
                                  buyTip: real, sellTip: real)
      modifies this
      ensures strategies
              == After(old(strategies), SetNormal(services, cuLimit, cuPrice, buyTip, sellTip))
    {
      ghost var m := strategies;
      ghost var buy, sell := Value(cuLimit, cuPrice, buyTip), Value(cuLimit, cuPrice, sellTip);
      for i := 0 to |services|
        invariant strategies == NormalOver(m, services[..i], buy, sell)
      {
        assert services[..i + 1][..i] == services[..i];
        SetNormalFeeStrategy(services[i], cuLimit, cuPrice, buyTip, sellTip);
      }
      assert services[..|services|] == services;
    }

    method SetNormalFeeStrategy(s: SwqosType, cuLimit: nat, cuPrice: nat, buyTip: real,
                                sellTip: real)
      modifies this
      ensures strategies == ResetFor(old(strategies), s, Value(cuLimit, cuPrice, buyTip),
                                     Value(cuLimit, cuPrice, sellTip))
    {
      DelBoth(s, Buy);
      DelBoth(s, Sell);
      SetEntry(s, Buy, Normal, cuLimit, cuPrice, buyTip);
      SetEntry(s, Sell, Normal, cuLimit, cuPrice, sellTip);
    }

    /** The inner loop of `get_strategies`: the three possible entries of one service. */
    method StrategiesOf(s: SwqosType, t: TradeType) returns (result: seq<Entry>)
      ensures result == EntriesOf(strategies, t, s)
    {
      result := [];
      for i := 0 to |STRATEGIES|
        invariant result == (if i > 0 then EntryAt(strategies, Key(s, t, Normal)) else [])
                  + (if i > 1 then EntryAt(strategies, Key(s, t, LowTipHighCuPrice)) else [])
                  + (if i > 2 then EntryAt(strategies, Key(s, t, HighTipLowCuPrice)) else [])
      {
        var key := Key(s, t, STRATEGIES[i]);
        if key in strategies {
          result := result + [Entry(s, STRATEGIES[i], strategies[key])];
        }
      }
    }

    /** Every stored entry of the trade type, exactly once; services in any order. */
    method GetStrategies(t: TradeType) returns (result: seq<Entry>)
      ensures Lists(strategies, t, ALL_SERVICES, result)
    {
      result := [];
      var services := set key | key in strategies && key.trade == t :: key.swqos;
      var done: set<SwqosType> := {};
      while services != {}
        invariant Lists(strategies, t, done, result)
        invariant services !! done
        invariant forall key :: key in strategies && key.trade == t ==>
                    key.swqos in services + done
        decreases services
      {
        var s :| s in services;
        var entries := StrategiesOf(s, t);
        EntriesOfService(strategies, t, s);
        ListsJoin(strategies, t, done, result, s, entries);
        result := result + entries;
        services, done := services - {s}, done + {s};
      }
      AllListed(strategies, t, done, result);
    }
  }

  lemma AllListed(m: Table, t: TradeType, done: set<SwqosType>, es: seq<Entry>)
    requires Lists(m, t, done, es)
    requires forall key :: key in m && key.trade == t ==> key.swqos in done
    ensures Lists(m, t, ALL_SERVICES, es)
  {
    forall s ensures s in ALL_SERVICES {
      ServicesAreAll(s);
    }
    forall s, k | s in ALL_SERVICES && Key(s, t, k) in m
      ensures Entry(s, k, m[Key(s, t, k)]) in es
    {
      assert Key(s, t, k).swqos in done;
    }
  }
}
