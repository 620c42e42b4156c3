/**
 What a caller sees of a pipeline between calls, what one Run or ResumeFromStep may
 do to it, and what a run followed by resumes adds up to
 (internal/pipeline/executor.go:109-172, 182-373, internal/pipeline/pipeline.go).
 */
module PipelineRuns {
  import opened Transfers
  import opened Options
  import Histories

  datatype Status = Idle | Running | Paused | Completed | Failed

  /** A step that was confirmed, with the hash it returned. */
  datatype Success = Success(step: nat, txHash: string)

  type Plan = seq<Hop>

  /** What a pipeline shows, with every attempt it has made. */
  datatype Snapshot = Snapshot(status: Status, currentStep: int, hashes: map<int, string>, attempts: seq<Attempt>)

  function Successes(made: seq<Attempt>): seq<Success> {
    if made == [] then []
    else
      var rest, last := Successes(made[..|made| - 1]), made[|made| - 1];
      if last.result.Some? then rest + [Success(last.step, last.result.value)] else rest
  }

  /** The recorded hash of a step, "" when there is none. */
  function HashOf(hashes: map<int, string>, step: int): string {
    if step in hashes then hashes[step] else ""
  }

  /** The hashes after `done`: a run records every hash, a resume only those that are not empty. */
  function Recorded(hashes: map<int, string>, done: seq<Success>, resumed: bool): map<int, string> {
    if done == [] then hashes
    else
      var last := done[|done| - 1];
      var rest := Recorded(hashes, done[..|done| - 1], resumed);
      if resumed && last.txHash == "" then rest else rest[last.step := last.txHash]
  }

  /** The steps of `done` are `start`, `start + 1`, ... */
  predicate Numbered(done: seq<Success>, start: nat) {
    forall i :: 0 <= i < |done| ==> done[i].step == start + i
  }

  function NewSince(before: seq<Attempt>, after: seq<Attempt>): seq<Attempt>
    requires |before| <= |after|
  {
    after[|before|..]
  }

  // ------------------------------------------------------------ one run or resume

  /** Whether step `s` waits for its balance and then moves everything: not the first one, and in a resume only with an edge. */
  predicate Waits(plan: Plan, start: nat, resumed: bool, s: nat)
    requires s < |plan|
  {
    s > start && (resumed ==> plan[s].given.Some?)
  }

  /** A list of the account's deposits of an asset has one with this hash, and it is done. */
  predicate DepositListed(e: Event, account: Account, asset: string, txHash: string) {
    && e.DepositsListed? && e.account == account && e.asset == asset
    && e.records.Some? && Histories.DepositDone(e.records.value, txHash)
  }

  /** The exchange a step starts from has listed the deposit of the hash `prev`, asked in the node's own asset. */
  predicate AwaitedDeposit(h: Hop, prev: string, a: Attempt) {
    h.from.IsExchange() && prev != "" ==> exists e :: e in a.waited && DepositListed(e, h.from.account, h.from.asset, prev)
  }

  /** Attempt `i` of a run or resume is lawful, at the step after the one before, which had succeeded. */
  ghost predicate OrderlyAt(plan: Plan, made: seq<Attempt>, start: nat, resumed: bool, i: nat)
    requires i < |made|
  {
    var a, s := made[i], start + i;
    && a.step == s < |plan| && LawfulAttempt(plan[s], a) && a.forced == Waits(plan, start, resumed, s)
    && (i > 0 ==> made[i - 1].result.Some?)
    && (a.forced && i > 0 ==> AwaitedDeposit(plan[s], made[i - 1].result.value, a))
  }

  ghost predicate Orderly(plan: Plan, made: seq<Attempt>, start: nat, resumed: bool) {
    forall i :: 0 <= i < |made| ==> OrderlyAt(plan, made, start, resumed, i)
  }

  predicate LastFailed(made: seq<Attempt>) {
    made != [] && made[|made| - 1].result.None?
  }

  /** The steps from `start` on were attempted in order, up to the end or to the one that failed. */
  ghost predicate Advanced(before: Snapshot, after: Snapshot, plan: Plan, start: nat, resumed: bool) {
    && before.attempts <= after.attempts
    && (var made := NewSince(before.attempts, after.attempts);
        var done := Successes(made);
        && Orderly(plan, made, start, resumed) && start + |done| <= |plan|
        && after.hashes == Recorded(before.hashes, done, resumed)
        && (if start + |done| == |plan| then after.status.Completed? && after.currentStep == |plan|
            else after.status.Failed? && after.currentStep == start + |done| + 1))
  }

  /** A run: turned away by the checks made first, or under way from step 0. */
  ghost predicate Ran(before: Snapshot, after: Snapshot, plan: Plan) {
    after == before.(status := Failed, currentStep := 0) || Advanced(before, after, plan, 0, false)
  }

  ghost predicate Resumed(before: Snapshot, after: Snapshot, plan: Plan, start: nat) {
    start < |plan| && Advanced(before, after, plan, start, true)
  }

  /** The index of the step that failed; a run turned away by its first checks failed at step 0. */
  function FailedIndex(s: Snapshot): nat {
    if s.currentStep <= 0 then 0 else s.currentStep - 1
  }

  // ------------------------------------------------------------ attempts and successes

  lemma {:induction false} SuccessesAppend(a: seq<Attempt>, b: seq<Attempt>)
    ensures Successes(a + b) == Successes(a) + Successes(b)
    decreases |b|
  {
    if b == [] {
      assert a + b == a;
    } else {
      assert (a + b)[..|a + b| - 1] == a + b[..|b| - 1];
      SuccessesAppend(a, b[..|b| - 1]);
    }
  }

  lemma OneMoreAttempt(made: seq<Attempt>, a: Attempt)
    ensures Successes(made + [a]) ==
            Successes(made) + if a.result.Some? then [Success(a.step, a.result.value)] else []
  {
    assert (made + [a])[..|made + [a]| - 1] == made;
  }

  lemma ShorterOrderly(plan: Plan, made: seq<Attempt>, start: nat, resumed: bool, n: nat)
    requires Orderly(plan, made, start, resumed) && n <= |made|
    ensures Orderly(plan, made[..n], start, resumed)
  {
    hide LawfulAttempt, Waits, AwaitedDeposit;
    forall i | 0 <= i < n ensures OrderlyAt(plan, made[..n], start, resumed, i) {
      assert OrderlyAt(plan, made, start, resumed, i);
    }
  }

  /** In a run or resume every attempt but a failed last one succeeds, in step order. */
  lemma {:induction false} OrderlySuccesses(plan: Plan, made: seq<Attempt>, start: nat, resumed: bool)
    requires Orderly(plan, made, start, resumed)
    ensures Numbered(Successes(made), start)
    ensures |Successes(made)| == if LastFailed(made) then |made| - 1 else |made|
    decreases |made|
  {
    hide LawfulAttempt, Waits, AwaitedDeposit;
    if made != [] {
      var n := |made| - 1;
      ShorterOrderly(plan, made, start, resumed, n);
      OrderlySuccesses(plan, made[..n], start, resumed);
      assert OrderlyAt(plan, made, start, resumed, n);
      assert n > 0 ==> made[..n][n - 1] == made[n - 1];
    }
  }

  lemma OrderlyGrows(plan: Plan, made: seq<Attempt>, start: nat, resumed: bool, a: Attempt)
    requires Orderly(plan, made, start, resumed) && !LastFailed(made)
    requires a.step == start + |made| < |plan| && LawfulAttempt(plan[a.step], a)
    requires a.forced == Waits(plan, start, resumed, a.step)
    requires a.forced && made != [] ==> AwaitedDeposit(plan[a.step], made[|made| - 1].result.value, a)
    ensures Orderly(plan, made + [a], start, resumed)
  {
    hide LawfulAttempt, Waits, AwaitedDeposit;
    var more := made + [a];
    forall i | 0 <= i < |more| ensures OrderlyAt(plan, more, start, resumed, i) {
      if i < |made| {
        assert OrderlyAt(plan, made, start, resumed, i);
      }
    }
  }

  /** The attempt is at a step of the plan; its exchange spends what it has, and its transfer takes the network of its edge. */
  ghost predicate InBounds(plan: Plan, a: Attempt) {
    a.step < |plan| && SpendsWhatItHas(plan[a.step], a) && TakesItsNetwork(plan[a.step], a.log)
  }

  ghost predicate AllInBounds(plan: Plan, made: seq<Attempt>) {
    forall i :: 0 <= i < |made| ==> InBounds(plan, made[i])
  }

  lemma OrderlyInBounds(plan: Plan, made: seq<Attempt>, start: nat, resumed: bool)
    requires Orderly(plan, made, start, resumed)
    ensures AllInBounds(plan, made)
  {
    hide LawfulAttempt, SpendsWhatItHas, TakesItsNetwork, Waits, AwaitedDeposit;
    forall i | 0 <= i < |made| ensures InBounds(plan, made[i]) {
      assert OrderlyAt(plan, made, start, resumed, i);
      LawfulInBounds(plan[made[i].step], made[i]);
    }
  }

  // ------------------------------------------------------------ recording hashes

  /** A recorded step shows its own hash, or the older one if a resume got an empty hash for it. */
  lemma {:induction false} RecordedHash(hashes: map<int, string>, done: seq<Success>, start: nat, resumed: bool, step: int)
    requires Numbered(done, start)
    ensures HashOf(Recorded(hashes, done, resumed), step) ==
            if start <= step < start + |done| && !(resumed && done[step - start].txHash == "")
            then done[step - start].txHash else HashOf(hashes, step)
  {
    if done != [] {
      RecordedHash(hashes, done[..|done| - 1], start, resumed, step);
    }
  }

  lemma OneMoreRecorded(hashes: map<int, string>, done: seq<Success>, s: Success, resumed: bool)
    ensures Recorded(hashes, done + [s], resumed) ==
            if resumed && s.txHash == "" then Recorded(hashes, done, resumed)
            else Recorded(hashes, done, resumed)[s.step := s.txHash]
  {
    assert (done + [s])[..|done + [s]| - 1] == done;
  }

  lemma AdvancedHash(before: Snapshot, after: Snapshot, plan: Plan, start: nat, resumed: bool, step: int)
    requires Advanced(before, after, plan, start, resumed)
    ensures var done := Successes(NewSince(before.attempts, after.attempts));
            HashOf(after.hashes, step) ==
            if start <= step < start + |done| && !(resumed && done[step - start].txHash == "")
            then done[step - start].txHash else HashOf(before.hashes, step)
  {
    var made := NewSince(before.attempts, after.attempts);
    OrderlySuccesses(plan, made, start, resumed);
    RecordedHash(before.hashes, Successes(made), start, resumed, step);
  }

  // ------------------------------------------------------------ a run and its resumes

  /** A resume of a failed pipeline, at the step that failed. */
  ghost predicate PickedUp(before: Snapshot, after: Snapshot, plan: Plan) {
    before.status.Failed? && Resumed(before, after, plan, FailedIndex(before))
  }

  /** A run, then any number of resumes, each at the step that failed. */
  ghost predicate Session(h: seq<Snapshot>, plan: Plan) {
    && |h| >= 2 && Ran(h[0], h[1], plan)
    && forall i :: 2 <= i < |h| ==> PickedUp(h[i - 1], h[i], plan)
  }

  lemma ShorterSession(h: seq<Snapshot>, plan: Plan)
    requires Session(h, plan) && |h| > 2
    ensures Session(h[..|h| - 1], plan) && PickedUp(h[|h| - 2], h[|h| - 1], plan)
  {
    hide PickedUp, Ran;
  }

  lemma LongerSession(h: seq<Snapshot>, s: Snapshot, plan: Plan)
    requires Session(h, plan) && PickedUp(h[|h| - 1], s, plan)
    ensures Session(h + [s], plan)
  {
    hide PickedUp, Ran;
  }

  /** The attempts made since the session began. */
  function AttemptsIn(h: seq<Snapshot>): seq<Attempt>
    requires |h| >= 2 && |h[0].attempts| <= |h[|h| - 1].attempts|
  {
    NewSince(h[0].attempts, h[|h| - 1].attempts)
  }

  /** The steps done since the session began. */
  function DoneIn(h: seq<Snapshot>): seq<Success>
    requires |h| >= 2 && |h[0].attempts| <= |h[|h| - 1].attempts|
  {
    Successes(AttemptsIn(h))
  }

  /** Every step done shows the hash it returned. */
  ghost predicate Covers(hashes: map<int, string>, done: seq<Success>) {
    forall i :: 0 <= i < |done| ==> HashOf(hashes, done[i].step) == done[i].txHash
  }

  /**
   Attempt `i` is lawful and at the first step not confirmed before it; one that takes all there is follows the
   success of the step before, once the exchange it starts from has reported that step's deposit.
   */
  ghost predicate InTurnAt(plan: Plan, made: seq<Attempt>, i: nat)
    requires i < |made|
  {
    && made[i].step == |Successes(made[..i])| < |plan| && LawfulAttempt(plan[made[i].step], made[i])
    && (made[i].forced ==> i > 0 && Follows(plan, made[i - 1], made[i]))
  }

  predicate Follows(plan: Plan, before: Attempt, a: Attempt)
    requires a.step < |plan|
  {
    before.result.Some? && a.step == before.step + 1 && AwaitedDeposit(plan[a.step], before.result.value, a)
  }

  ghost predicate InTurn(plan: Plan, made: seq<Attempt>) {
    forall i :: 0 <= i < |made| ==> InTurnAt(plan, made, i)
  }

  lemma InTurnGoesOn(plan: Plan, made: seq<Attempt>, more: seq<Attempt>, resumed: bool)
    requires InTurn(plan, made) && Orderly(plan, more, |Successes(made)|, resumed)
    ensures InTurn(plan, made + more)
  {
    hide InTurnAt, Orderly, Successes;
    forall i | 0 <= i < |made + more| ensures InTurnAt(plan, made + more, i) {
      if i < |made| {
        StillInTurn(plan, made, more, i);
      } else {
        NextInTurn(plan, made, more, resumed, i - |made|);
      }
    }
  }

  lemma StillInTurn(plan: Plan, made: seq<Attempt>, more: seq<Attempt>, i: nat)
    requires i < |made| && InTurnAt(plan, made, i)
    ensures InTurnAt(plan, made + more, i)
  {
    hide LawfulAttempt, AwaitedDeposit, Successes;
    assert (made + more)[..i] == made[..i];
  }

  lemma NextInTurn(plan: Plan, made: seq<Attempt>, more: seq<Attempt>, resumed: bool, j: nat)
    requires j < |more| && Orderly(plan, more, |Successes(made)|, resumed)
    ensures InTurnAt(plan, made + more, |made| + j)
  {
    hide LawfulAttempt, AwaitedDeposit, Successes;
    assert (made + more)[..|made| + j] == made + more[..j];
    SuccessesAppend(made, more[..j]);
    ShorterOrderly(plan, more, |Successes(made)|, resumed, j);
    OrderlySuccesses(plan, more[..j], |Successes(made)|, resumed);
    assert OrderlyAt(plan, more, |Successes(made)|, resumed, j);
    if j > 0 {
      assert OrderlyAt(plan, more, |Successes(made)|, resumed, j - 1);
      assert more[..j][j - 1] == more[j - 1] == (made + more)[|made| + j - 1];
    }
  }

  lemma AttemptsGrow(h: seq<Snapshot>)
    requires |h| > 2 && h[0].attempts <= h[|h| - 2].attempts <= h[|h| - 1].attempts
    ensures AttemptsIn(h) == AttemptsIn(h[..|h| - 1]) + NewSince(h[|h| - 2].attempts, h[|h| - 1].attempts)
    ensures DoneIn(h) == DoneIn(h[..|h| - 1]) + Successes(NewSince(h[|h| - 2].attempts, h[|h| - 1].attempts))
  {
    SuccessesAppend(AttemptsIn(h[..|h| - 1]), NewSince(h[|h| - 2].attempts, h[|h| - 1].attempts));
  }

  /** Where a session stands after `last`. */
  ghost predicate Stands(plan: Plan, made: seq<Attempt>, last: Snapshot) {
    var done := Successes(made);
    && InTurn(plan, made) && Numbered(done, 0) && |done| <= |plan|
    && (|done| == |plan| <==> last.status.Completed?)
    && (last.status.Completed? || last.status.Failed?)
    && (last.status.Failed? ==> FailedIndex(last) == |done|)
  }

  lemma StandsAfter(plan: Plan, made: seq<Attempt>, before: Snapshot, after: Snapshot, resumed: bool)
    requires InTurn(plan, made) && Numbered(Successes(made), 0)
    requires Advanced(before, after, plan, |Successes(made)|, resumed)
    ensures Stands(plan, made + NewSince(before.attempts, after.attempts), after)
  {
    hide InTurn, Orderly, Recorded, Successes;
    var more := NewSince(before.attempts, after.attempts);
    OrderlySuccesses(plan, more, |Successes(made)|, resumed);
    InTurnGoesOn(plan, made, more, resumed);
    SuccessesAppend(made, more);
  }

  lemma NothingInTurn(plan: Plan)
    ensures InTurn(plan, []) && Successes([]) == []
  {
  }

  /**
   Whatever fails and is resumed, every attempt is at the first step not yet confirmed; the steps succeed in
   order and none twice; all have succeeded exactly when the pipeline shows Completed, and otherwise the step
   to resume at is the first that has not.
   */
  lemma {:induction false} StepsSucceedOnceInOrder(h: seq<Snapshot>, plan: Plan)
    requires Session(h, plan) && plan != []
    ensures h[0].attempts <= h[|h| - 1].attempts
    ensures Stands(plan, AttemptsIn(h), h[|h| - 1])
    decreases |h|
  {
    hide Recorded, InTurn, Orderly;
    if |h| == 2 {
      NothingInTurn(plan);
      if Advanced(h[0], h[1], plan, 0, false) {
        StandsAfter(plan, [], h[0], h[1], false);
        assert [] + AttemptsIn(h) == AttemptsIn(h);
      } else {
        assert AttemptsIn(h) == [];
      }
    } else {
      ShorterSession(h, plan);
      var g := h[..|h| - 1];
      StepsSucceedOnceInOrder(g, plan);
      StandsAfter(plan, AttemptsIn(g), h[|h| - 2], h[|h| - 1], true);
      AttemptsGrow(h);
    }
  }

  // ------------------------------------------------------------ the hashes of a session

  /** The hashes at the end of a session, step by step. */
  lemma {:induction false} HashesOfSession(h: seq<Snapshot>, plan: Plan, step: int)
    requires Session(h, plan) && plan != []
    ensures h[0].attempts <= h[1].attempts && h[0].attempts <= h[|h| - 1].attempts
    ensures var done, first := DoneIn(h), |Successes(NewSince(h[0].attempts, h[1].attempts))|;
            HashOf(h[|h| - 1].hashes, step) ==
            if 0 <= step < |done| && (step < first || done[step].txHash != "") then done[step].txHash
            else HashOf(h[0].hashes, step)
    decreases |h|
  {
    hide Recorded, InTurn, Orderly, Successes;
    StepsSucceedOnceInOrder(h, plan);
    if |h| == 2 {
      if Advanced(h[0], h[1], plan, 0, false) {
        AdvancedHash(h[0], h[1], plan, 0, false, step);
      } else {
        assert AttemptsIn(h) == [];
        NothingInTurn(plan);
      }
    } else {
      var g, before, last := h[..|h| - 1], h[|h| - 2], h[|h| - 1];
      ShorterSession(h, plan);
      StepsSucceedOnceInOrder(g, plan);
      HashesOfSession(g, plan, step);
      AdvancedHash(before, last, plan, |DoneIn(g)|, true, step);
      AttemptsGrow(h);
      FirstDoneStays(h, plan);
    }
  }

  /** The run's own successes are among those of the session before its last resume. */
  lemma FirstDoneStays(h: seq<Snapshot>, plan: Plan)
    requires Session(h, plan) && plan != [] && |h| > 2
    ensures h[0].attempts <= h[1].attempts <= h[|h| - 2].attempts
    ensures |Successes(NewSince(h[0].attempts, h[1].attempts))| <= |Successes(NewSince(h[0].attempts, h[|h| - 2].attempts))|
    decreases |h|
  {
    hide Recorded, Orderly, Successes;
    ShorterSession(h, plan);
    if |h| > 3 {
      var g := h[..|h| - 1];
      FirstDoneStays(g, plan);
      ShorterSession(g, plan);
      var a, b := NewSince(h[0].attempts, h[|h| - 3].attempts), NewSince(h[|h| - 3].attempts, h[|h| - 2].attempts);
      assert NewSince(h[0].attempts, h[|h| - 2].attempts) == a + b;
      SuccessesAppend(a, b);
    }
  }

  /**
   The recorded hashes cover the steps done exactly when no resumed step that returned an empty hash had a
   hash recorded before the session: a resume leaves such an older entry standing.
   */
  lemma HashesCoverIff(h: seq<Snapshot>, plan: Plan)
    requires Session(h, plan) && plan != []
    ensures h[0].attempts <= h[1].attempts && h[0].attempts <= h[|h| - 1].attempts
    ensures var done, first := DoneIn(h), |Successes(NewSince(h[0].attempts, h[1].attempts))|;
            Covers(h[|h| - 1].hashes, done) <==>
            (forall i :: first <= i < |done| && done[i].txHash == "" ==> HashOf(h[0].hashes, i) == "")
  {
    hide Recorded, InTurn, Successes, Ran, PickedUp, HashOf;
    StepsSucceedOnceInOrder(h, plan);
    HashesOfSession(h, plan, 0);
    var done, first, end := DoneIn(h), |Successes(NewSince(h[0].attempts, h[1].attempts))|, h[|h| - 1].hashes;
    forall i | 0 <= i < |done|
      ensures HashOf(end, done[i].step) ==
              if i < first || done[i].txHash != "" then done[i].txHash else HashOf(h[0].hashes, i)
    {
      HashesOfSession(h, plan, i);
    }
    if Covers(end, done) {
      forall i | first <= i < |done| && done[i].txHash == "" ensures HashOf(h[0].hashes, i) == "" {
        assert HashOf(end, done[i].step) == done[i].txHash;
      }
    }
  }

  /** Only a bridge returns an empty hash. */
  lemma EmptyHashIsBridged(h: Hop, a: Attempt)
    requires LawfulAttempt(h, a) && a.result == Some("")
    ensures h.NeedsBridge()
  {
    var i: nat :| DeliveredAt(h, a.log, "", i);
    assert LawfulEvent(h, a.forced, a.log[..i], a.log[i]);
    AskedUnderAHash(h, a.forced, a.log);
    assert forall e <- a.log[i + 1..] :: e in a.log;
  }

  lemma AskedUnderAHash(h: Hop, forced: bool, log: Log)
    requires LawfulLog(h, forced, log)
    ensures forall e <- log :: e.Asked? ==> e.txHash != ""
  {
    hide LawfulMove;
    forall e | e in log && e.Asked? ensures e.txHash != "" {
      var i :| 0 <= i < |log| && log[i] == e;
      assert LawfulEvent(h, forced, log[..i], log[i]);
    }
  }
}
