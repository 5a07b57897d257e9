/** The window of processed signatures of grpcSubscriber.ts. A JavaScript Set iterates in
    insertion order, so it is a sequence without repeats. */
module SignatureWindow {

  predicate NoRepeats(s: seq<string>) {
    forall i, j :: 0 <= i < j < |s| ==> s[i] != s[j]
  }

  /** `Set.add` and `Set.delete` */
  function Add(s: seq<string>, x: string): seq<string> {
    if x in s then s else s + [x]
  }

  function Delete(s: seq<string>, x: string): seq<string> {
    if s == [] then [] else if s[0] == x then s[1..] else [s[0]] + Delete(s[1..], x)
  }

  /** How many entries an overflow leaves: `slice` truncates `size - max / 2`. */
  function Kept(max: nat): nat {
    (max + 1) / 2
  }

  /** The set after one `markSignatureProcessed`. */
  function Mark(max: nat, s: seq<string>, x: string): seq<string> {
    var added := Add(s, x);
    if |added| > max then added[|added| - Kept(max)..] else added
  }

  function MarkAll(max: nat, marks: seq<string>): seq<string> {
    if marks == [] then []
    else Mark(max, MarkAll(max, marks[..|marks| - 1]), marks[|marks| - 1])
  }

  /** The marks that inserted something: those not remembered when they came. */
  function Insertions(max: nat, marks: seq<string>): seq<string> {
    if marks == [] then []
    else
      var before, x := marks[..|marks| - 1], marks[|marks| - 1];
      if x in MarkAll(max, before) then Insertions(max, before)
      else Insertions(max, before) + [x]
  }

  predicate IsSuffix(s: seq<string>, of: seq<string>) {
    |s| <= |of| && s == of[|of| - |s|..]
  }

  /** What one mark does to a window and its log. */
  lemma MarkKeepsWindow(max: nat, s: seq<string>, log: seq<string>, x: string)
    requires IsSuffix(s, log) && NoRepeats(s) && |s| <= max && (2 * |s| >= max || |s| == |log|)
    ensures
      var s', log' := Mark(max, s, x), if x in s then log else log + [x];
      && IsSuffix(s', log') && NoRepeats(s')
      && (2 * |s'| >= max || |s'| == |log'|) && |s'| <= max
  {
    var added := Add(s, x);
    var log' := if x in s then log else log + [x];
    assert added == log'[|log'| - |added|..];
    assert NoRepeats(added);
  }

  /** What a mark leaves, in numbers: a known signature nothing new, a fresh one is added while
      there is room, and in a full window it leaves the newest half, rounded up. */
  lemma MarkSizes(max: nat, s: seq<string>, x: string)
    requires NoRepeats(s) && |s| <= max
    ensures x in s ==> Mark(max, s, x) == s
    ensures x !in s && |s| < max ==> Mark(max, s, x) == s + [x]
    ensures x !in s && |s| == max ==>
      var s' := Mark(max, s, x);
      IsSuffix(s', s + [x]) && max <= 2 * |s'| <= max + 1
  {}

  /** After any marks the set is a suffix of the log of insertions, without repeats, and holds
      at least half the bound of them (all, if fewer) and at most the bound. */
  lemma {:induction false} WindowIsRecentLog(max: nat, marks: seq<string>)
    ensures
      var s, log := MarkAll(max, marks), Insertions(max, marks);
      && IsSuffix(s, log) && NoRepeats(s)
      && (2 * |s| >= max || |s| == |log|) && |s| <= max
  {
    if marks != [] {
      var before, x := marks[..|marks| - 1], marks[|marks| - 1];
      WindowIsRecentLog(max, before);
      MarkKeepsWindow(max, MarkAll(max, before), Insertions(max, before), x);
    }
  }

  lemma SuffixIndex(s: seq<string>, of: seq<string>, k: nat)
    requires IsSuffix(s, of) && k < |s|
    ensures of[|of| - 1 - k] == s[|s| - 1 - k]
  {
    var d, last := |of| - |s|, |s| - 1 - k;
    assert of[d..][last] == of[d + last];
  }

  /** So one of the latest half window of insertions is always recognised again. */
  lemma LatestAreRemembered(max: nat, marks: seq<string>, k: nat)
    requires 2 * k < max && k < |Insertions(max, marks)|
    ensures Insertions(max, marks)[|Insertions(max, marks)| - 1 - k] in MarkAll(max, marks)
  {
    WindowIsRecentLog(max, marks);
    var s, log := MarkAll(max, marks), Insertions(max, marks);
    SuffixIndex(s, log, k);
  }

  class GrpcSubscriber {
    const maxProcessedSignatures: nat
    var processedSignatures: seq<string>

    constructor (max: nat)
      ensures processedSignatures == [] && maxProcessedSignatures == max
    {
      maxProcessedSignatures := max;
      processedSignatures := [];
    }

    method IsSignatureProcessed(signature: string) returns (processed: bool)
      ensures processed <==> signature in processedSignatures
    {
      processed := signature in processedSignatures;
    }

    /** An overflowing set is cut to its newest half, one deletion at a time. */
    method MarkSignatureProcessed(signature: string)
      requires NoRepeats(processedSignatures)
      modifies this
      ensures processedSignatures
              == Mark(maxProcessedSignatures, old(processedSignatures), signature)
      ensures
        var max, before := maxProcessedSignatures, old(processedSignatures);
        && (signature in before && |before| <= max ==> processedSignatures == before)
        && (signature !in before && |before| < max ==>
              processedSignatures == before + [signature])
        && (signature !in before && |before| == max ==>
              IsSuffix(processedSignatures, before + [signature])
              && max <= 2 * |processedSignatures| <= max + 1)
      ensures NoRepeats(processedSignatures)
    {
      processedSignatures := Add(processedSignatures, signature);
      if |processedSignatures| > maxProcessedSignatures {
        var signatures := processedSignatures;
        var toRemove := signatures[..|signatures| - Kept(maxProcessedSignatures)];
        for i := 0 to |toRemove|
          invariant processedSignatures == signatures[i..]
        {
          processedSignatures := Delete(processedSignatures, toRemove[i]);
        }
      }
    }
  }
}
