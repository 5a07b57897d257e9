/** The confirmation polling of swqos/common.rs against an RPC node that may answer anything:
    the answers, and the time each round starts, are given poll by poll. */
module Confirmation {
  import opened Wrappers

  type Signature = nat

  datatype Level = Processed | Confirmed | Finalized

  datatype Status = Status(failed: bool, level: Option<Level>)

  datatype InstructionError =
    | Custom(code: nat) | GenericError | InvalidArgument | InvalidInstructionData
    | InvalidAccountData | AccountDataTooSmall | InsufficientFunds | IncorrectProgramId
    | MissingRequiredSignature | AccountAlreadyInitialized | UninitializedAccount | OtherError

  /** A transaction's error as the node reports it, when it can be decoded. */
  datatype ChainError = InstructionFailed(index: nat, error: InstructionError) | Other | Undecodable

  datatype Meta = Meta(error: Option<ChainError>)

  type StatusReply = Result<seq<Option<Status>>, string>

  /** A transaction fetch: an error, or details whose meta may be missing. */
  type TransactionReply = Result<Option<Meta>, string>

  /** The node and the clock, by poll number from 0. `elapsed` is in milliseconds since the
      call; a poll that does not return sleeps a second before the next. */
  datatype Rpc = Rpc(statuses: nat -> StatusReply, transactions: nat -> TransactionReply,
                     elapsed: nat -> nat)
  {
    ghost predicate SleepsBetweenPolls() {
      forall k: nat :: elapsed(k + 1) >= elapsed(k) + INTERVAL
    }
  }

  const TIMEOUT: nat := 15_000
  const INTERVAL: nat := 1_000

  /** `Panicked` is an index past the end of the signature list. */
  datatype Outcome =
    | Success(signature: Signature)
    | NoSignatures
    | TimedOut
    | RpcFailed
    | Rejected(code: nat, instruction: Option<nat>)
    | DecodeFailed
    | Panicked

  function ErrorCode(e: InstructionError): nat {
    match e
    case Custom(c) => c
    case GenericError => 1
    case InvalidArgument => 2
    case InvalidInstructionData => 3
    case InvalidAccountData => 4
    case AccountDataTooSmall => 5
    case InsufficientFunds => 6
    case IncorrectProgramId => 7
    case MissingRequiredSignature => 8
    case AccountAlreadyInitialized => 9
    case UninitializedAccount => 10
    case OtherError => 999
  }

  predicate Succeeded(s: Option<Status>) {
    && s.Some? && !s.value.failed
    && (s.value.level == Some(Confirmed) || s.value.level == Some(Finalized))
  }

  predicate Reported(s: Option<Status>) {
    s.Some?
  }

  /** The position of the first entry with a status, or the length. */
  function FirstReported(reply: seq<Option<Status>>): (i: nat)
    ensures i <= |reply|
    ensures i < |reply| ==> Reported(reply[i])
    ensures forall j :: 0 <= j < i ==> !Reported(reply[j])
  {
    if reply == [] || Reported(reply[0]) then 0
    else
      var i := FirstReported(reply[1..]);
      assert forall j :: 0 < j <= i ==> reply[j] == reply[1..][j - 1];
      i + 1
  }

  /** The position of the first entry confirmed without error, or the length. */
  function FirstSucceeded(reply: seq<Option<Status>>): (i: nat)
    ensures i <= |reply|
    ensures i < |reply| ==> Succeeded(reply[i])
    ensures forall j :: 0 <= j < i ==> !Succeeded(reply[j])
  {
    if reply == [] || Succeeded(reply[0]) then 0
    else
      var i := FirstSucceeded(reply[1..]);
      assert forall j :: 0 < j <= i ==> reply[j] == reply[1..][j - 1];
      i + 1
  }

  /** What has landed after a reply that decides nothing: the first landing is kept. */
  function LandedAfter(reply: seq<Option<Status>>, sigs: seq<Signature>,
                       before: Option<Signature>): (after: Option<Signature>)
    ensures after.Some? ==> after == before || after.value in sigs
  {
    var first := FirstReported(reply);
    if before.Some? then before
    else if first < |reply| && first < |sigs| then Some(sigs[first]) else None
  }

  /** What a reply decides on its own. */
  function ReplyVerdict(reply: seq<Option<Status>>, sigs: seq<Signature>,
                        before: Option<Signature>): Option<Outcome>
  {
    var reported, succeeded := FirstReported(reply), FirstSucceeded(reply);
    if before.None? && |sigs| <= reported < |reply| && reported < succeeded then Some(Panicked)
    else if succeeded == |reply| then None
    else if succeeded < |sigs| then Some(Success(sigs[succeeded]))
    else Some(Panicked)
  }

  /** The first signature seen on chain in the first `k` polls. */
  function Landed(rpc: Rpc, sigs: seq<Signature>, k: nat): (s: Option<Signature>)
    ensures s.Some? ==> s.value in sigs
  {
    if k == 0 then None
    else
      match rpc.statuses(k - 1)
      case Err(_) => Landed(rpc, sigs, k - 1)
      case Ok(reply) => LandedAfter(reply, sigs, Landed(rpc, sigs, k - 1))
  }

  /** What the status poll decides. */
  function StatusVerdict(rpc: Rpc, sigs: seq<Signature>, k: nat): Option<Outcome> {
    match rpc.statuses(k)
    case Err(_) => Some(RpcFailed)
    case Ok(reply) => ReplyVerdict(reply, sigs, Landed(rpc, sigs, k))
  }

  /** Whether poll `k` goes on to fetch a transaction: from the tenth on, once something has
      landed. */
  predicate Fetches(rpc: Rpc, sigs: seq<Signature>, k: nat) {
    StatusVerdict(rpc, sigs, k).None? && k + 1 >= 10 && Landed(rpc, sigs, k + 1).Some?
  }

  /** What a fetched transaction decides about the landed signature. */
  function FetchVerdict(transaction: TransactionReply, landed: Signature): Option<Outcome> {
    match transaction
    case Err(_) => None
    case Ok(None) => None
    case Ok(Some(Meta(None))) => Some(Success(landed))
    case Ok(Some(Meta(Some(InstructionFailed(i, e))))) => Some(Rejected(ErrorCode(e), Some(i)))
    case Ok(Some(Meta(Some(Other)))) => Some(Rejected(0, None))
    case Ok(Some(Meta(Some(Undecodable)))) => Some(DecodeFailed)
  }

  /** What poll `k` decides; None to sleep and go on. */
  function Verdict(rpc: Rpc, sigs: seq<Signature>, k: nat): Option<Outcome> {
    if StatusVerdict(rpc, sigs, k).Some? then StatusVerdict(rpc, sigs, k)
    else if !Fetches(rpc, sigs, k) then None
    else FetchVerdict(rpc.transactions(k), Landed(rpc, sigs, k + 1).value)
  }

  datatype Fetch = Fetch(poll: nat, signature: Signature)

  /** The fetches of the first `n` polls, in order. */
  function FetchesBefore(rpc: Rpc, sigs: seq<Signature>, n: nat): seq<Fetch> {
    if n == 0 then []
    else FetchesBefore(rpc, sigs, n - 1)
         + if Fetches(rpc, sigs, n - 1) then [Fetch(n - 1, Landed(rpc, sigs, n).value)] else []
  }

  /** `n` polls end in `r`: all but the last decide nothing and each starts in time; the last
      decides `r`, unless time runs out first. */
  ghost predicate Ends(rpc: Rpc, sigs: seq<Signature>, n: nat, r: Outcome) {
    && (forall k :: 0 <= k < n ==> rpc.elapsed(k) < TIMEOUT)
    && (forall k :: 0 <= k < n - 1 ==> Verdict(rpc, sigs, k).None?)
    && if r.TimedOut? then rpc.elapsed(n) >= TIMEOUT && (n > 0 ==> Verdict(rpc, sigs, n - 1).None?)
       else n > 0 && Verdict(rpc, sigs, n - 1) == Some(r)
  }

  /** The loop over one status reply: what it decides, and what has landed by then. */
  method ScanStatuses(reply: seq<Option<Status>>, sigs: seq<Signature>,
                      landed: Option<Signature>)
    returns (early: Option<Outcome>, landedSig: Option<Signature>)
    ensures early == ReplyVerdict(reply, sigs, landed)
    ensures early.None? ==> landedSig == LandedAfter(reply, sigs, landed)
  {
    landedSig := landed;
    var first := FirstReported(reply);
    for i := 0 to |reply|
      invariant forall j :: 0 <= j < i ==> !Succeeded(reply[j])
      invariant landed.None? && first < i ==> first < |sigs|
      invariant landedSig == if landed.Some? || first >= i then landed else Some(sigs[first])
    {
      if reply[i].Some? {
        if Succeeded(reply[i]) {
          if i >= |sigs| {
            return Some(Panicked), landedSig;
          }
          return Some(Success(sigs[i])), landedSig;
        }
        if landedSig.None? {
          if i >= |sigs| {
            return Some(Panicked), landedSig;
          }
          landedSig := Some(sigs[i]);
        }
      }
    }
    return None, landedSig;
  }

  /** `poll_any_transaction_confirmation`, with the polls made and the transactions fetched. */
  method PollAny(rpc: Rpc, sigs: seq<Signature>, wait: bool)
    returns (r: Outcome, polls: nat, fetched: seq<Fetch>)
    requires rpc.SleepsBetweenPolls()
    ensures sigs == [] ==> r == NoSignatures && polls == 0 && fetched == []
    ensures sigs != [] && !wait ==> r == Success(sigs[0]) && polls == 0 && fetched == []
    ensures sigs != [] && wait ==>
              Ends(rpc, sigs, polls, r) && fetched == FetchesBefore(rpc, sigs, polls)
  {
    polls, fetched := 0, [];
    if sigs == [] {
      return NoSignatures, polls, fetched;
    }
    if !wait {
      return Success(sigs[0]), polls, fetched;
    }
    var landedSig: Option<Signature> := None;
    while true
      invariant landedSig == Landed(rpc, sigs, polls)
      invariant fetched == FetchesBefore(rpc, sigs, polls)
      invariant forall k :: 0 <= k < polls ==> rpc.elapsed(k) < TIMEOUT
      invariant forall k :: 0 <= k < polls ==> Verdict(rpc, sigs, k).None?
      decreases TIMEOUT - rpc.elapsed(polls)
    {
      if rpc.elapsed(polls) >= TIMEOUT {
        return TimedOut, polls, fetched;
      }
      polls := polls + 1;
      assert rpc.elapsed(polls - 1 + 1) >= rpc.elapsed(polls - 1) + INTERVAL;
      var status := rpc.statuses(polls - 1);
      if status.Err? {
        return RpcFailed, polls, fetched;
      }
      var early;
      early, landedSig := ScanStatuses(status.value, sigs, landedSig);
      if early.Some? {
        return early.value, polls, fetched;
      }
      if landedSig.Some? && polls >= 10 {
        fetched := fetched + [Fetch(polls - 1, landedSig.value)];
        var verdict := FetchVerdict(rpc.transactions(polls - 1), landedSig.value);
        if verdict.Some? {
          return verdict.value, polls, fetched;
        }
      }
    }
  }

  lemma {:induction false} TimePasses(rpc: Rpc, k: nat)
    requires rpc.SleepsBetweenPolls()
    ensures rpc.elapsed(k) >= k * INTERVAL
  {
    if k > 0 {
      TimePasses(rpc, k - 1);
      assert rpc.elapsed(k - 1 + 1) >= rpc.elapsed(k - 1) + INTERVAL;
    }
  }

  /** Every poll starts within the 15 seconds, and a timeout is reported only after them. */
  lemma PollsStartInTime(rpc: Rpc, sigs: seq<Signature>, n: nat, r: Outcome)
    requires Ends(rpc, sigs, n, r)
    ensures forall k :: 0 <= k < n ==> rpc.elapsed(k) < 15_000
    ensures r.TimedOut? ==> rpc.elapsed(n) >= 15_000
  {}

  /** However the node answers, statuses are polled at most 15 times. */
  lemma AtMostFifteenPolls(rpc: Rpc, sigs: seq<Signature>, n: nat, r: Outcome)
    requires forall k: nat :: rpc.elapsed(k + 1) >= rpc.elapsed(k) + 1_000
    requires Ends(rpc, sigs, n, r)
    ensures n <= 15
  {
    if n > 15 {
      TimePasses(rpc, 15);
    }
  }

  /** What the call does is determined by the answers. */
  lemma EndIsUnique(rpc: Rpc, sigs: seq<Signature>, n: nat, r: Outcome, n': nat, r': Outcome)
    requires rpc.SleepsBetweenPolls()
    requires Ends(rpc, sigs, n, r) && Ends(rpc, sigs, n', r')
    ensures n == n' && r == r'
  {}

  /** Entry `i` has a status without error that is confirmed or finalized. */
  ghost predicate ConfirmedAt(reply: seq<Option<Status>>, i: nat) {
    && i < |reply| && reply[i].Some? && !reply[i].value.failed
    && reply[i].value.level.Some?
    && (reply[i].value.level.value == Confirmed || reply[i].value.level.value == Finalized)
  }

  /** A reply with an entry for at most each signature, and none confirmed. */
  ghost predicate NoneConfirmed(sigs: seq<Signature>, reply: StatusReply) {
    && reply.Ok? && |reply.value| <= |sigs|
    && forall i :: 0 <= i < |reply.value| ==> !ConfirmedAt(reply.value, i)
  }

  /** Poll `k` reported `s` confirmed or finalized without error. */
  ghost predicate ReportedConfirmed(rpc: Rpc, sigs: seq<Signature>, k: nat, s: Signature) {
    rpc.statuses(k).Ok? &&
    exists i :: 0 <= i < |rpc.statuses(k).value| && i < |sigs| && sigs[i] == s &&
                ConfirmedAt(rpc.statuses(k).value, i)
  }

  /** Poll `k` fetched `s`, the first signature seen landed, and its meta has no error. */
  ghost predicate FetchedClean(rpc: Rpc, sigs: seq<Signature>, k: nat, s: Signature) {
    && k + 1 >= 10 && Landed(rpc, sigs, k + 1) == Some(s)
    && rpc.transactions(k) == Ok(Some(Meta(None)))
  }

  /** Success names a listed signature that the last poll reported confirmed without error,
      or whose transaction the last poll fetched without error. */
  lemma SuccessIsJustified(rpc: Rpc, sigs: seq<Signature>, n: nat, s: Signature)
    requires Ends(rpc, sigs, n, Success(s))
    ensures s in sigs && n > 0
    ensures ReportedConfirmed(rpc, sigs, n - 1, s) || FetchedClean(rpc, sigs, n - 1, s)
  {
    var reply := rpc.statuses(n - 1).value;
    if StatusVerdict(rpc, sigs, n - 1).Some? {
      var i := FirstSucceeded(reply);
      assert ConfirmedAt(reply, i) && sigs[i] == s;
    }
  }

  /** Conversely a report of success is never passed over: once a well-formed reply holds one,
      the call ends there or earlier, with the first such signature of the reply. */
  lemma ReportEndsTheCall(rpc: Rpc, sigs: seq<Signature>, n: nat, r: Outcome, k: nat, i: nat)
    requires Ends(rpc, sigs, n, r)
    requires rpc.statuses(k).Ok? && i < |rpc.statuses(k).value| <= |sigs|
    requires ConfirmedAt(rpc.statuses(k).value, i)
    requires forall j :: 0 <= j < i ==> !ConfirmedAt(rpc.statuses(k).value, j)
    ensures n <= k + 1 && (n == k + 1 ==> r == Success(sigs[i]))
  {
    var reply := rpc.statuses(k).value;
    var first := FirstSucceeded(reply);
    assert Succeeded(reply[i]) && first <= i;
    assert ConfirmedAt(reply, first);
    assert Verdict(rpc, sigs, k) == Some(Success(sigs[i]));
  }

  /** The call goes on after poll `k`: to another poll, or to the end of its time. */
  predicate Passes(n: nat, r: Outcome, k: nat) {
    n > k + 1 || (n == k + 1 && r.TimedOut?)
  }

  lemma NoneSucceeds(rpc: Rpc, sigs: seq<Signature>, k: nat)
    requires NoneConfirmed(sigs, rpc.statuses(k))
    ensures StatusVerdict(rpc, sigs, k).None?
  {
    var reply := rpc.statuses(k).value;
    if FirstSucceeded(reply) < |reply| {
      assert ConfirmedAt(reply, FirstSucceeded(reply));
    }
  }

  /** A failed status call ends the poll with its error. */
  lemma FailedStatusesEnd(rpc: Rpc, sigs: seq<Signature>, n: nat, r: Outcome, k: nat)
    requires Ends(rpc, sigs, n, r) && k < n && rpc.statuses(k).Err?
    ensures n == k + 1 && r == RpcFailed
  {
    assert Verdict(rpc, sigs, k) == Some(RpcFailed);
  }

  /** Only a reply with more entries than signatures can make the call panic. */
  lemma PanicNeedsLongReply(rpc: Rpc, sigs: seq<Signature>, n: nat, r: Outcome)
    requires Ends(rpc, sigs, n, r) && r.Panicked?
    ensures n > 0 && rpc.statuses(n - 1).Ok? && |rpc.statuses(n - 1).value| > |sigs|
  {}

  /** Entry `i` is past the signatures, and the call needs the signature it stands for: it is
      confirmed, or the first with a status while nothing has landed. */
  ghost predicate NeedsMissing(rpc: Rpc, sigs: seq<Signature>, k: nat, i: nat) {
    && rpc.statuses(k).Ok? && |sigs| <= i < |rpc.statuses(k).value|
    && var reply := rpc.statuses(k).value;
       && (forall j :: 0 <= j < i ==> !ConfirmedAt(reply, j))
       && (ConfirmedAt(reply, i)
           || (Landed(rpc, sigs, k).None? && reply[i].Some?
               && forall j :: 0 <= j < i ==> reply[j].None?))
  }

  /** The call panics exactly when it needs a signature that is not there. */
  lemma PanicsIff(rpc: Rpc, sigs: seq<Signature>, n: nat, r: Outcome, k: nat)
    requires Ends(rpc, sigs, n, r) && k < n && rpc.statuses(k).Ok?
    ensures n == k + 1 && r.Panicked? <==> exists i :: NeedsMissing(rpc, sigs, k, i)
  {
    var reply := rpc.statuses(k).value;
    var reported, succeeded := FirstReported(reply), FirstSucceeded(reply);
    assert succeeded < |reply| ==> ConfirmedAt(reply, succeeded);
    assert forall j :: 0 <= j < |reply| && ConfirmedAt(reply, j) ==> Succeeded(reply[j]);
    if n == k + 1 && r.Panicked? {
      assert NeedsMissing(rpc, sigs, k, if succeeded <= reported then succeeded else reported)
          || NeedsMissing(rpc, sigs, k, succeeded);
    }
    forall i | NeedsMissing(rpc, sigs, k, i) ensures n == k + 1 && r.Panicked? {
      assert ReplyVerdict(reply, sigs, Landed(rpc, sigs, k)) == Some(Panicked);
      assert Verdict(rpc, sigs, k) == Some(Panicked);
    }
  }

  /** Before the tenth poll, or while nothing has landed, a poll without a success passes. */
  lemma EarlyPollsPass(rpc: Rpc, sigs: seq<Signature>, n: nat, r: Outcome, k: nat)
    requires Ends(rpc, sigs, n, r) && k < n && NoneConfirmed(sigs, rpc.statuses(k))
    requires k < 9 || Landed(rpc, sigs, k + 1).None?
    ensures Passes(n, r, k)
  {
    NoneSucceeds(rpc, sigs, k);
    assert Verdict(rpc, sigs, k).None?;
  }

  /** What the tenth and later polls do once something has landed: they pass exactly when the
      fetch fails or has no meta, and otherwise end as the meta says. */
  lemma FetchDecides(rpc: Rpc, sigs: seq<Signature>, n: nat, r: Outcome, k: nat)
    requires Ends(rpc, sigs, n, r) && 9 <= k < n && NoneConfirmed(sigs, rpc.statuses(k))
    requires Landed(rpc, sigs, k + 1).Some?
    ensures Passes(n, r, k) <==>
            rpc.transactions(k).Err? || rpc.transactions(k).value.None?
    ensures !Passes(n, r, k) ==>
      && n == k + 1
      && match rpc.transactions(k).value.value.error
         case None => r == Success(Landed(rpc, sigs, k + 1).value)
         case Some(Undecodable) => r == DecodeFailed
         case Some(Other) => r == Rejected(0, None)
         case Some(InstructionFailed(i, e)) =>
           r.Rejected? && r.instruction == Some(i) && CodeOf(e, r.code)
  {
    NoneSucceeds(rpc, sigs, k);
    assert Verdict(rpc, sigs, k)
           == FetchVerdict(rpc.transactions(k), Landed(rpc, sigs, k + 1).value);
  }

  /** The number reported for an instruction error: its own, or its place in the list. */
  ghost predicate CodeOf(e: InstructionError, code: nat) {
    match e
    case Custom(c) => code == c
    case OtherError => code == 999
    case _ => 1 <= code <= 10 && [GenericError, InvalidArgument, InvalidInstructionData,
                InvalidAccountData, AccountDataTooSmall, InsufficientFunds, IncorrectProgramId,
                MissingRequiredSignature, AccountAlreadyInitialized, UninitializedAccount]
                [code - 1] == e
  }

  /** Transactions are fetched only from the tenth poll on, and always for the first signature
      seen landed. */
  lemma {:induction false} FetchesAreLateAndSticky(rpc: Rpc, sigs: seq<Signature>, n: nat, j: nat)
    requires j < |FetchesBefore(rpc, sigs, n)|
    ensures
      var f := FetchesBefore(rpc, sigs, n)[j];
      && 9 <= f.poll < n && Landed(rpc, sigs, n) == Some(f.signature)
      && rpc.statuses(f.poll).Ok?
      && forall i :: 0 <= i < |rpc.statuses(f.poll).value| ==>
           !ConfirmedAt(rpc.statuses(f.poll).value, i)
  {
    if j < |FetchesBefore(rpc, sigs, n - 1)| {
      FetchesAreLateAndSticky(rpc, sigs, n - 1, j);
    }
  }

  /** Every poll from the tenth on fetches when something has landed and nothing is confirmed,
      and no poll fetches twice. */
  lemma FetchesAreComplete(rpc: Rpc, sigs: seq<Signature>, n: nat, k: nat, s: Signature)
    requires 9 <= k < n && NoneConfirmed(sigs, rpc.statuses(k))
    requires Landed(rpc, sigs, k + 1) == Some(s)
    ensures Fetch(k, s) in FetchesBefore(rpc, sigs, n)
    ensures forall i, j :: 0 <= i < j < |FetchesBefore(rpc, sigs, n)| ==>
      FetchesBefore(rpc, sigs, n)[i].poll < FetchesBefore(rpc, sigs, n)[j].poll
  {
    NoneSucceeds(rpc, sigs, k);
    FetchesAscend(rpc, sigs, n);
    FetchIsLogged(rpc, sigs, n, k);
  }

  lemma {:induction false} FetchIsLogged(rpc: Rpc, sigs: seq<Signature>, n: nat, k: nat)
    requires k < n && Fetches(rpc, sigs, k)
    ensures Fetch(k, Landed(rpc, sigs, k + 1).value) in FetchesBefore(rpc, sigs, n)
  {
    if k < n - 1 { FetchIsLogged(rpc, sigs, n - 1, k); }
  }

  lemma {:induction false} FetchesAscend(rpc: Rpc, sigs: seq<Signature>, n: nat)
    ensures forall i :: 0 <= i < |FetchesBefore(rpc, sigs, n)| ==>
      FetchesBefore(rpc, sigs, n)[i].poll < n
    ensures forall i, j :: 0 <= i < j < |FetchesBefore(rpc, sigs, n)| ==>
      FetchesBefore(rpc, sigs, n)[i].poll < FetchesBefore(rpc, sigs, n)[j].poll
  {
    if n > 0 { FetchesAscend(rpc, sigs, n - 1); }
  }

  /** The first landed signature is sticky: it was reported at some poll, first in its reply,
      and no earlier poll reported any. */
  lemma {:induction false} LandedIsFirst(rpc: Rpc, sigs: seq<Signature>, n: nat)
    requires Landed(rpc, sigs, n).Some?
    ensures exists k :: FirstSeen(rpc, sigs, n, k, Landed(rpc, sigs, n).value)
  {
    if Landed(rpc, sigs, n - 1).Some? {
      LandedIsFirst(rpc, sigs, n - 1);
      var k :| FirstSeen(rpc, sigs, n - 1, k, Landed(rpc, sigs, n).value);
      assert FirstSeen(rpc, sigs, n, k, Landed(rpc, sigs, n).value);
    } else {
      assert FirstSeen(rpc, sigs, n, n - 1, Landed(rpc, sigs, n).value);
    }
  }

  ghost predicate FirstSeen(rpc: Rpc, sigs: seq<Signature>, n: nat, k: int, s: Signature) {
    && 0 <= k < n && Landed(rpc, sigs, k).None? && rpc.statuses(k).Ok?
    && exists i :: 0 <= i < |rpc.statuses(k).value| && i < |sigs| && sigs[i] == s &&
                   rpc.statuses(k).value[i].Some? &&
                   forall j :: 0 <= j < i ==> rpc.statuses(k).value[j].None?
  }

  /** Nothing has landed exactly while no well-formed reply had a status. */
  lemma {:induction false} NothingLandedIff(rpc: Rpc, sigs: seq<Signature>, n: nat)
    requires forall k :: 0 <= k < n && rpc.statuses(k).Ok? ==> |rpc.statuses(k).value| <= |sigs|
    ensures Landed(rpc, sigs, n).None? <==>
            forall k, i :: 0 <= k < n && rpc.statuses(k).Ok? && 0 <= i < |rpc.statuses(k).value|
              ==> rpc.statuses(k).value[i].None?
  {
    if n > 0 { NothingLandedIff(rpc, sigs, n - 1); }
  }
}
