/**
 The money a pipeline moves over a run and its resumes: how often each step's is sent, what
 a caller can tell before a resume, and which deposits are ever reported
 (internal/pipeline/executor.go:41-172, 312-373).
 */
module PipelineMoney {
  import opened Attempts
  import opened Options
  import opened PipelineRuns
  import opened Transfers
  import Histories

  // ------------------------------------------------------------ sending twice

  /** How often the money of a step was sent. */
  function TransferCount(what: Counting, made: seq<Attempt>, step: nat): nat {
    if made == [] then 0
    else
      var last := made[|made| - 1];
      TransferCount(what, made[..|made| - 1], step) + if last.step == step then MoveCount(what, last.log) else 0
  }

  /** Attempt `i` sent the step's money. */
  predicate SendsAt(what: Counting, made: seq<Attempt>, step: nat, i: int) {
    0 <= i < |made| && made[i].step == step && Moves(what, made[i])
  }

  lemma MovesAtMostOnce(what: Counting, plan: Plan, made: seq<Attempt>, i: nat)
    requires InTurn(plan, made) && i < |made|
    ensures MoveCount(what, made[i].log) == if Moves(what, made[i]) then 1 else 0
  {
    hide LawfulLog, Successes;
    assert InTurnAt(plan, made, i);
    LawfulMovesOnce(what, plan[made[i].step], made[i].forced, made[i].log);
  }

  lemma ShorterInTurn(plan: Plan, made: seq<Attempt>, n: nat)
    requires InTurn(plan, made) && n <= |made|
    ensures InTurn(plan, made[..n])
  {
    hide LawfulAttempt, Successes;
    forall i | 0 <= i < n ensures InTurnAt(plan, made[..n], i) {
      assert made[..n][..i] == made[..i];
      assert InTurnAt(plan, made, i);
    }
  }

  ghost predicate NeverSent(what: Counting, made: seq<Attempt>, step: nat) {
    forall i :: !SendsAt(what, made, step, i)
  }

  ghost predicate NotSentTwice(what: Counting, made: seq<Attempt>, step: nat) {
    forall i, j :: i < j && SendsAt(what, made, step, i) ==> !SendsAt(what, made, step, j)
  }

  lemma SendsOneMore(what: Counting, made: seq<Attempt>, a: Attempt, step: nat)
    ensures forall i :: SendsAt(what, made + [a], step, i) <==> SendsAt(what, made, step, i) || (i == |made| && a.step == step && Moves(what, a))
  {
    hide Moves;
  }

  lemma CountsOneMore(what: Counting, made: seq<Attempt>, a: Attempt, step: nat)
    requires MoveCount(what, a.log) == if Moves(what, a) then 1 else 0
    requires TransferCount(what, made, step) == 0 <==> NeverSent(what, made, step)
    requires TransferCount(what, made, step) <= 1 <==> NotSentTwice(what, made, step)
    ensures TransferCount(what, made + [a], step) == 0 <==> NeverSent(what, made + [a], step)
    ensures TransferCount(what, made + [a], step) <= 1 <==> NotSentTwice(what, made + [a], step)
  {
    hide Moves, MoveCount, SendsAt;
    var more, n := made + [a], |made|;
    SendsOneMore(what, made, a, step);
    assert more[..n] == made;
    var sends := a.step == step && Moves(what, a);
    assert TransferCount(what, more, step) == TransferCount(what, made, step) + if sends then 1 else 0;
    assert forall i :: SendsAt(what, made, step, i) ==> i < n by {
      SendsInside(what, made, step);
    }
    assert sends ==> SendsAt(what, more, step, n);
    if !NeverSent(what, made, step) {
      var i :| SendsAt(what, made, step, i);
      assert SendsAt(what, more, step, i);
    }
    if !NotSentTwice(what, made, step) {
      var i, j :| i < j && SendsAt(what, made, step, i) && SendsAt(what, made, step, j);
      assert SendsAt(what, more, step, i) && SendsAt(what, more, step, j);
    }
  }

  lemma SendsInside(what: Counting, made: seq<Attempt>, step: nat)
    ensures forall i :: SendsAt(what, made, step, i) ==> 0 <= i < |made|
  {
  }

  lemma NothingSent(what: Counting, step: nat)
    ensures TransferCount(what, [], step) == 0 && NeverSent(what, [], step) && NotSentTwice(what, [], step)
  {
  }

  /** A step's money is sent as often as attempts at it transfer: never, once, or more than once. */
  lemma {:induction false} CountsSends(what: Counting, plan: Plan, made: seq<Attempt>, step: nat)
    requires InTurn(plan, made)
    ensures TransferCount(what, made, step) == 0 <==> NeverSent(what, made, step)
    ensures TransferCount(what, made, step) <= 1 <==> NotSentTwice(what, made, step)
    decreases |made|
  {
    hide InTurn, Moves, MoveCount, NeverSent, NotSentTwice, TransferCount;
    if made == [] {
      NothingSent(what, step);
    } else {
      var n := |made| - 1;
      ShorterInTurn(plan, made, n);
      CountsSends(what, plan, made[..n], step);
      MovesAtMostOnce(what, plan, made, n);
      CountsOneMore(what, made[..n], made[n], step);
      assert made[..n] + [made[n]] == made;
    }
  }

  /** A step that was confirmed is not attempted again. */
  lemma NotAgainAfterSuccess(plan: Plan, made: seq<Attempt>, i: nat, j: nat)
    requires InTurn(plan, made) && i < j < |made| && made[i].step == made[j].step
    ensures made[i].result.None?
  {
    hide LawfulAttempt;
    assert InTurnAt(plan, made, i) && InTurnAt(plan, made, j);
    OneMoreAttempt(made[..i], made[i]);
    assert made[..i] + [made[i]] == made[..i + 1];
    assert made[..j] == made[..i + 1] + made[i + 1..j];
    SuccessesAppend(made[..i + 1], made[i + 1..j]);
  }

  /** An attempt that sent the step's money and ended unconfirmed is followed by another at the step that sends it. */
  ghost predicate SentAgain(what: Counting, made: seq<Attempt>) {
    exists i, j :: 0 <= i < j < |made| && made[i].step == made[j].step
                   && Moves(what, made[i]) && made[i].result.None? && Moves(what, made[j])
  }

  /**
   Over a run and its resumes each step's money is sent at most once exactly when no attempt that sent it and
   ended unconfirmed was followed by another attempt at the step that sent it.
   */
  lemma SentOnceIff(what: Counting, h: seq<Snapshot>, plan: Plan)
    requires Session(h, plan) && plan != []
    ensures h[0].attempts <= h[|h| - 1].attempts
    ensures (forall s: nat :: TransferCount(what, AttemptsIn(h), s) <= 1) <==> !SentAgain(what, AttemptsIn(h))
  {
    hide Ran, PickedUp, InTurn, Moves, TransferCount, Successes, NotSentTwice, NeverSent;
    StepsSucceedOnceInOrder(h, plan);
    var made := AttemptsIn(h);
    forall s: nat ensures TransferCount(what, made, s) <= 1 <==> NotSentTwice(what, made, s) {
      CountsSends(what, plan, made, s);
    }
    forall i, j | 0 <= i < j < |made| && made[i].step == made[j].step ensures made[i].result.None? {
      NotAgainAfterSuccess(plan, made, i, j);
    }
    OnceByPairs(what, made);
    if !SentAgain(what, made) {
      forall s: nat ensures TransferCount(what, made, s) <= 1 {
        assert NotSentTwice(what, made, s);
      }
    } else {
      var s: nat :| !NotSentTwice(what, made, s);
      assert TransferCount(what, made, s) > 1;
    }
  }

  lemma OnceByPairs(what: Counting, made: seq<Attempt>)
    requires forall i, j :: 0 <= i < j < |made| && made[i].step == made[j].step ==> made[i].result.None?
    ensures (forall s: nat :: NotSentTwice(what, made, s)) <==> !SentAgain(what, made)
  {
    hide Moves;
    if SentAgain(what, made) {
      var i, j :| 0 <= i < j < |made| && made[i].step == made[j].step && Moves(what, made[i]) && Moves(what, made[j]);
      assert SendsAt(what, made, made[i].step, i) && SendsAt(what, made, made[i].step, j);
      assert !NotSentTwice(what, made, made[i].step);
    }
    if s: nat :| !NotSentTwice(what, made, s) {
      var i, j :| i < j && SendsAt(what, made, s, i) && SendsAt(what, made, s, j);
      assert made[i].step == made[j].step;
    }
  }

  // ------------------------------------------------------------ what a caller can tell before a resume

  lemma {:induction false} CountsAppend(what: Counting, a: seq<Attempt>, b: seq<Attempt>, step: nat)
    ensures TransferCount(what, a + b, step) == TransferCount(what, a, step) + TransferCount(what, b, step)
    decreases |b|
  {
    hide MoveCount;
    if b == [] {
      assert a + b == a;
    } else {
      assert (a + b)[..|a + b| - 1] == a + b[..|b| - 1];
      CountsAppend(what, a, b[..|b| - 1], step);
    }
  }

  /** One run or resume attempts each step at most once. */
  lemma {:induction false} OrderlyCounts(what: Counting, plan: Plan, made: seq<Attempt>, start: nat, resumed: bool, step: nat)
    requires Orderly(plan, made, start, resumed)
    ensures TransferCount(what, made, step) ==
            if start <= step < start + |made| then MoveCount(what, made[step - start].log) else 0
    decreases |made|
  {
    hide LawfulAttempt, Waits, AwaitedDeposit, MoveCount;
    if made != [] {
      var n := |made| - 1;
      ShorterOrderly(plan, made, start, resumed, n);
      OrderlyCounts(what, plan, made[..n], start, resumed, step);
      assert OrderlyAt(plan, made, start, resumed, n);
    }
  }

  lemma OrderlySendsOnce(what: Counting, plan: Plan, made: seq<Attempt>, start: nat, resumed: bool, step: nat)
    requires Orderly(plan, made, start, resumed)
    ensures TransferCount(what, made, step) <= 1 && (step < start ==> TransferCount(what, made, step) == 0)
  {
    hide MoveCount, LawfulLog, Waits, AwaitedDeposit;
    OrderlyCounts(what, plan, made, start, resumed, step);
    if start <= step < start + |made| {
      var a := made[step - start];
      assert OrderlyAt(plan, made, start, resumed, step - start);
      LawfulMovesOnce(what, plan[step], a.forced, a.log);
    }
  }

  /** Nothing has been sent yet for the steps after the first one not confirmed. */
  lemma {:induction false} NothingSentAhead(what: Counting, plan: Plan, made: seq<Attempt>, step: nat)
    requires InTurn(plan, made) && step > |Successes(made)|
    ensures TransferCount(what, made, step) == 0
    decreases |made|
  {
    hide LawfulAttempt, MoveCount;
    if made != [] {
      var n := |made| - 1;
      ShorterInTurn(plan, made, n);
      NothingSentAhead(what, plan, made[..n], step);
      assert InTurnAt(plan, made, n);
    }
  }

  /**
   A resume never sends a confirmed step's money again, and sends at most once for every other step, so only the
   failed step can be sent twice.
   */
  lemma ResumeIsSafe(what: Counting, h: seq<Snapshot>, s: Snapshot, plan: Plan, step: nat)
    requires Session(h, plan) && plan != [] && PickedUp(h[|h| - 1], s, plan)
    ensures h[0].attempts <= h[|h| - 1].attempts <= s.attempts
    ensures var failed, before, after := FailedIndex(h[|h| - 1]), AttemptsIn(h), AttemptsIn(h + [s]);
            && (step < failed ==> TransferCount(what, after, step) == TransferCount(what, before, step))
            && (step > failed ==> TransferCount(what, before, step) == 0)
            && TransferCount(what, after, step) <= TransferCount(what, before, step) + 1
            && (TransferCount(what, before, step) <= (if step == failed then 0 else 1) ==> TransferCount(what, after, step) <= 1)
  {
    hide InTurn, Orderly, Recorded, Successes, TransferCount;
    StepsSucceedOnceInOrder(h, plan);
    var last, before := h[|h| - 1], AttemptsIn(h);
    var more := NewSince(last.attempts, s.attempts);
    assert AttemptsIn(h + [s]) == before + more;
    CountsAppend(what, before, more, step);
    OrderlySendsOnce(what, plan, more, FailedIndex(last), true, step);
    if step > FailedIndex(last) {
      NothingSentAhead(what, plan, before, step);
    }
  }

  // ------------------------------------------------------------ before a resume

  lemma OneMoreCount(what: Counting, made: seq<Attempt>, a: Attempt)
    ensures TransferCount(what, made + [a], a.step) == TransferCount(what, made, a.step) + MoveCount(what, a.log)
  {
    hide MoveCount;
    assert (made + [a])[..|made + [a]| - 1] == made;
  }

  /** A feasible step can be sent by a resume that fails again. */
  lemma ResumeSends(what: Counting, last: Snapshot, plan: Plan) returns (s: Snapshot, a: Attempt)
    requires last.status.Failed? && FailedIndex(last) < |plan| && plan[FailedIndex(last)].Feasible(false)
    ensures PickedUp(last, s, plan) && s.attempts == last.attempts + [a]
    ensures a.step == FailedIndex(last) && MoveCount(what, a.log) == 1
  {
    hide LawfulAttempt, MoveCount, OnlyMove;
    var failed := FailedIndex(last);
    var move;
    a, move := Failure(plan[failed], failed, false, true);
    AcceptedCounts(what, plan[failed], a, move);
    s := Snapshot(Failed, failed + 1, last.hashes, last.attempts + [a]);
    assert NewSince(last.attempts, s.attempts) == [a];
    OneMoreAttempt([], a);
    assert [] + [a] == [a];
  }

  lemma AcceptedCounts(what: Counting, h: Hop, a: Attempt, move: Event)
    requires LawfulAttempt(h, a) && OnlyMove(a.log, move) && move.receipt.Accepted? && NoneFailed(a.log)
    ensures MoveCount(what, a.log) == 1
  {
    hide LawfulAttempt;
    OnlyMoveCounts(what, h, a, move);
  }

  /** A step that is not feasible is not sent by a resume. */
  lemma InfeasibleSendsNothing(what: Counting, h: Hop, forced: bool, log: Log)
    requires LawfulLog(h, forced, log) && !h.Feasible(forced)
    ensures MoveCount(what, log) == 0
  {
    hide LawfulMove, LawfulQuery, CameBack;
    forall i | 0 <= i < |log| ensures !Counts(what, log, log[i]) {
      assert LawfulEvent(h, forced, log[..i], log[i]);
      if log[i].Moved? {
        SentIsFeasible(h, forced, log[..i], log[i]);
      }
    }
    CountsNone(what, log, |log|);
  }

  /** What a resume adds at the failed step is one attempt at it with its own amount. */
  lemma ResumeAtFailed(what: Counting, last: Snapshot, s: Snapshot, plan: Plan)
    requires PickedUp(last, s, plan) && !plan[FailedIndex(last)].Feasible(false)
    ensures TransferCount(what, NewSince(last.attempts, s.attempts), FailedIndex(last)) == 0
  {
    hide MoveCount, LawfulLog, Recorded, Successes, AwaitedDeposit;
    var more, failed := NewSince(last.attempts, s.attempts), FailedIndex(last);
    OrderlyCounts(what, plan, more, failed, true, failed);
    if more != [] {
      assert OrderlyAt(plan, more, failed, true, 0);
      InfeasibleSendsNothing(what, plan[failed], false, more[0].log);
    }
  }

  /** However the next resume goes, no step's money has been sent twice after it. */
  ghost predicate SafeToResume(what: Counting, h: seq<Snapshot>, plan: Plan)
    requires |h| >= 2
  {
    forall s :: PickedUp(h[|h| - 1], s, plan) && h[0].attempts <= s.attempts ==>
      forall step: nat :: TransferCount(what, AttemptsIn(h + [s]), step) <= 1
  }

  /**
   What a caller can check after a failure, while no step's money has been sent twice: the next resume cannot send
   any twice exactly when nothing has been sent for the failed step, or its settings do not let it be sent at all.
   */
  lemma SafeToResumeIff(what: Counting, h: seq<Snapshot>, plan: Plan)
    requires Session(h, plan) && plan != [] && h[|h| - 1].status.Failed?
    requires h[0].attempts <= h[|h| - 1].attempts && forall step: nat :: TransferCount(what, AttemptsIn(h), step) <= 1
    ensures var failed := FailedIndex(h[|h| - 1]);
      failed < |plan|
      && (SafeToResume(what, h, plan) <==> TransferCount(what, AttemptsIn(h), failed) == 0 || !plan[failed].Feasible(false))
  {
    hide InTurn, Orderly, Recorded, Successes, TransferCount, PickedUp, Hop.Feasible;
    StepsSucceedOnceInOrder(h, plan);
    var last, before := h[|h| - 1], AttemptsIn(h);
    var failed := FailedIndex(last);
    if TransferCount(what, before, failed) == 0 || !plan[failed].Feasible(false) {
      forall s, step: nat | PickedUp(last, s, plan) && h[0].attempts <= s.attempts
        ensures TransferCount(what, AttemptsIn(h + [s]), step) <= 1
      {
        StaysSentOnce(what, h, s, plan, step);
      }
    } else {
      var s, a := ResumeSends(what, last, plan);
      assert AttemptsIn(h + [s]) == before + [a];
      OneMoreCount(what, before, a);
      assert !SafeToResume(what, h, plan);
    }
  }

  lemma StaysSentOnce(what: Counting, h: seq<Snapshot>, s: Snapshot, plan: Plan, step: nat)
    requires Session(h, plan) && plan != [] && PickedUp(h[|h| - 1], s, plan) && h[0].attempts <= h[|h| - 1].attempts
    requires TransferCount(what, AttemptsIn(h), step) <= 1
    requires FailedIndex(h[|h| - 1]) < |plan|
    requires TransferCount(what, AttemptsIn(h), FailedIndex(h[|h| - 1])) == 0 || !plan[FailedIndex(h[|h| - 1])].Feasible(false)
    ensures h[0].attempts <= s.attempts && TransferCount(what, AttemptsIn(h + [s]), step) <= 1
  {
    hide InTurn, Orderly, Recorded, Successes, TransferCount, Hop.Feasible;
    ResumeIsSafe(what, h, s, plan, step);
    var last, before := h[|h| - 1], AttemptsIn(h);
    var more := NewSince(last.attempts, s.attempts);
    if step == FailedIndex(last) && !plan[step].Feasible(false) {
      assert AttemptsIn(h + [s]) == before + more;
      CountsAppend(what, before, more, step);
      ResumeAtFailed(what, last, s, plan);
    }
  }

  // ------------------------------------------------------------ deposits

  /** A list of deposits has a row with the hash of an accepted transfer. */
  predicate ListsTransfer(e: Event, m: Event) {
    && e.DepositsListed? && e.records.Some? && m.Moved? && m.receipt.Accepted?
    && exists r :: r in e.records.value && r.txHash == m.receipt.txHash
  }

  /**
   Exchanges list a deposit under the hash it has on its chain, and only when asked in the asset that moved. What a
   wallet's transfer returns is that hash; what a withdrawal returns is the ID of the exchange it leaves.
   */
  ghost predicate Truthful(made: seq<Attempt>) {
    forall j, k, m, e :: 0 <= j < k < |made| && m in made[j].log && e in made[k].waited && ListsTransfer(e, m) ==>
      e.asset == m.asset && m.account.Wallet?
  }

  /** A successful attempt accepted a transfer of the step's asset under the hash it returned. */
  lemma SuccessMoved(h: Hop, a: Attempt) returns (m: Event)
    requires LawfulAttempt(h, a) && a.result.Some?
    ensures m in a.log && m.Moved? && m.account == h.from.account && m.asset == h.MovedAsset()
    ensures m.receipt.Accepted? && m.receipt.txHash == a.result.value
  {
    hide WellSent, WellBridged, Priced, Confirmed, LawfulQuery, Hop.Connected;
    var i: nat :| DeliveredAt(h, a.log, a.result.value, i);
    m := a.log[i];
    assert LawfulEvent(h, a.forced, a.log[..i], a.log[i]);
  }

  lemma ListedTransfer(e: Event, account: Account, asset: string, m: Event)
    requires m.Moved? && m.receipt.Accepted? && DepositListed(e, account, asset, m.receipt.txHash)
    ensures ListsTransfer(e, m)
  {
    Histories.DepositDoneIff(e.records.value, m.receipt.txHash);
    var k: nat :| Histories.FirstDeposit(e.records.value, m.receipt.txHash, k);
    assert e.records.value[k] in e.records.value;
  }

  /** Where the next of two attempts waited at an exchange for the transfer of the first. */
  lemma AwaitedOwnTransfer(made: seq<Attempt>, k: nat, before: Hop, next: Hop)
    requires 0 < k < |made| && Truthful(made) && next.from.IsExchange()
    requires LawfulAttempt(before, made[k - 1]) && made[k - 1].result.Some? && made[k - 1].result.value != ""
    requires AwaitedDeposit(next, made[k - 1].result.value, made[k])
    ensures !before.from.IsExchange() && before.MovedAsset() == next.from.asset
  {
    hide LawfulAttempt, DepositListed, ListsTransfer, Hop.MovedAsset;
    var m := SuccessMoved(before, made[k - 1]);
    var e :| e in made[k].waited && DepositListed(e, next.from.account, next.from.asset, made[k - 1].result.value);
    ListedTransfer(e, next.from.account, next.from.asset, m);
    ListedAsset(e, next.from.account, next.from.asset, m.receipt.txHash);
  }

  lemma ListedAsset(e: Event, account: Account, asset: string, txHash: string)
    requires DepositListed(e, account, asset, txHash)
    ensures e.DepositsListed? && e.asset == asset
  {
  }

  /** Attempt `k` starts from an exchange and waited there for the transfer of the attempt before, which had a hash. */
  predicate WaitedForDeposit(plan: Plan, made: seq<Attempt>, k: nat) {
    && 0 < k < |made| && made[k].forced && made[k].step < |plan| && plan[made[k].step].from.IsExchange()
    && made[k - 1].result.Some? && made[k - 1].result.value != ""
  }

  /**
   When exchanges tell the truth, a step that waits at an exchange for the deposit of the step before is only ever
   attempted if that step started from a wallet and moved the asset the exchange's node is configured with. A deposit
   of any other asset, and one that another exchange sent, is waited for in vain.
   */
  lemma DepositsOfOwnAssetOnly(plan: Plan, made: seq<Attempt>, k: nat)
    requires InTurn(plan, made) && Truthful(made) && WaitedForDeposit(plan, made, k)
    ensures made[k - 1].step + 1 == made[k].step
    ensures !plan[made[k - 1].step].from.IsExchange()
    ensures plan[made[k - 1].step].MovedAsset() == plan[made[k].step].from.asset
  {
    hide LawfulAttempt, Successes, AwaitedDeposit, Truthful;
    assert InTurnAt(plan, made, k - 1) && InTurnAt(plan, made, k);
    AwaitedOwnTransfer(made, k, plan[made[k - 1].step], plan[made[k].step]);
  }

  /** So it is over a run and its resumes. */
  lemma SessionAwaitsOwnAssetOnly(h: seq<Snapshot>, plan: Plan, k: nat)
    requires Session(h, plan) && plan != [] && h[0].attempts <= h[|h| - 1].attempts
    requires Truthful(AttemptsIn(h)) && WaitedForDeposit(plan, AttemptsIn(h), k)
    ensures var made := AttemptsIn(h);
      made[k - 1].step + 1 == made[k].step < |plan| && !plan[made[k - 1].step].from.IsExchange()
      && plan[made[k - 1].step].MovedAsset() == plan[made[k].step].from.asset
  {
    hide InTurn, Truthful, Successes, Ran, PickedUp;
    StepsSucceedOnceInOrder(h, plan);
    DepositsOfOwnAssetOnly(plan, AttemptsIn(h), k);
  }

  /** The step after `i` waits at an exchange for a deposit it is never told of. */
  predicate WaitsInVain(plan: Plan, start: nat, resumed: bool, i: nat) {
    && start <= i && i + 1 < |plan| && Waits(plan, start, resumed, i + 1)
    && plan[i].to == plan[i + 1].from && plan[i + 1].from.IsExchange()
    && (plan[i].from.IsExchange() || plan[i].MovedAsset() != plan[i + 1].from.asset)
  }

  /** A run or resume over such a step never tries the step after it and ends as failed, at that step or before it. */
  lemma NeverPasses(before: Snapshot, after: Snapshot, plan: Plan, start: nat, resumed: bool, i: nat)
    requires Advanced(before, after, plan, start, resumed) && Truthful(NewSince(before.attempts, after.attempts))
    requires WaitsInVain(plan, start, resumed, i)
    ensures after.status.Failed? && FailedIndex(after) <= i + 1
    ensures forall a <- NewSince(before.attempts, after.attempts) :: a.step <= i
  {
    hide LawfulAttempt, Truthful, Recorded, Successes, AwaitedDeposit, Waits, Hop.MovedAsset;
    var made, k := NewSince(before.attempts, after.attempts), i + 1 - start;
    if |made| > k {
      assert OrderlyAt(plan, made, start, resumed, k - 1) && OrderlyAt(plan, made, start, resumed, k);
      if made[k - 1].result.value == "" {
        EmptyHashIsBridged(plan[i], made[k - 1]);
      }
      AwaitedOwnTransfer(made, k, plan[i], plan[i + 1]);
      assert false;
    }
    OrderlySuccesses(plan, made, start, resumed);
    forall a | a in made ensures a.step <= i {
      var j :| 0 <= j < |made| && made[j] == a;
      assert OrderlyAt(plan, made, start, resumed, j);
    }
  }

  /** Two steps joined at an exchange, both delivered in one run, the first under a hash. */
  ghost predicate PassesOn(before: Hop, next: Hop, made: seq<Attempt>) {
    && Orderly([before, next], made, 0, false) && Truthful(made) && |made| == 2
    && made[0].result.Some? && made[0].result.value != "" && made[1].result.Some?
  }

  lemma BothDelivered(before: Hop, next: Hop) returns (made: seq<Attempt>)
    requires next.from == before.to && next.from.IsExchange()
    requires !before.from.IsExchange() && before.MovedAsset() == next.from.asset
    requires before.Feasible(false) && next.Feasible(true)
    ensures PassesOn(before, next, made)
  {
    hide LawfulLog, DeliveredAt, Hop.Feasible, Hop.MovedAsset, NoneFailed;
    var a, m := Delivery(before, 0, false, "0x1");
    var b, _ := Delivery(next, 1, true, "0x2");
    var list := DepositsListed(next.from.account, next.from.asset, Some([Histories.DepositRecord("0x1", "COMPLETED")]));
    made := [a, b.(waited := [list])];
    assert forall e <- made[1].waited :: e == list;
    assert list in made[1].waited && DepositListed(list, next.from.account, next.from.asset, "0x1");
    assert OrderlyAt([before, next], made, 0, false, 0) && OrderlyAt([before, next], made, 0, false, 1);
  }

  /**
   Two feasible steps joined at an exchange can both be delivered, the first under a hash, exactly when the first
   starts from a wallet and moves the exchange's own asset.
   */
  lemma PassesOnIff(before: Hop, next: Hop)
    requires next.from == before.to && next.from.IsExchange() && before.Feasible(false) && next.Feasible(true)
    ensures (exists made :: PassesOn(before, next, made)) <==>
            !before.from.IsExchange() && before.MovedAsset() == next.from.asset
  {
    if !before.from.IsExchange() && before.MovedAsset() == next.from.asset {
      var made := BothDelivered(before, next);
    }
    forall made | PassesOn(before, next, made)
      ensures !before.from.IsExchange() && before.MovedAsset() == next.from.asset
    {
      PassedOwnAsset(before, next, made);
    }
  }

  lemma PassedOwnAsset(before: Hop, next: Hop, made: seq<Attempt>)
    requires next.from.IsExchange() && PassesOn(before, next, made)
    ensures !before.from.IsExchange() && before.MovedAsset() == next.from.asset
  {
    hide LawfulAttempt, AwaitedDeposit, Truthful;
    assert OrderlyAt([before, next], made, 0, false, 0) && OrderlyAt([before, next], made, 0, false, 1);
    AwaitedOwnTransfer(made, 1, before, next);
  }
}
