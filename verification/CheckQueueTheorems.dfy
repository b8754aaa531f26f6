/** Safety and progress of the check queue over every interleaving. */
module CheckQueueTheorems {
  import opened CheckQueue

  /** `more` has at least the history of `s`, and no new run touches an unrun check of t. */
  lemma ThreadKeeps(s: State, more: State, t: Thread)
    requires ThreadOk(s, t) && s.ran <= more.ran && s.outcomes <= more.outcomes
    requires t.InFlight? ==> forall k :: t.through <= k < |t.batch| ==> t.batch[k] !in more.ran
    ensures ThreadOk(more, t)
    ensures SomeFailed(s) ==> SomeFailed(more)
  {
    if SomeFailed(s) {
      var c :| Failed(s, c);
      assert Failed(more, c);
    }
    if t.InFlight? && t.fOk {
      forall k | 0 <= k < t.through ensures Passed(more, t.batch[k]) {
        assert Passed(s, t.batch[k]);
      }
    }
  }

  /** Same history: every thread that stays put stays right. */
  lemma ThreadsKeep(s: State, s': State, i: nat)
    requires ThreadsOk(s) && s'.ran == s.ran && s'.outcomes == s.outcomes && |s'.threads| == |s.threads|
    requires forall j :: 0 <= j < |s.threads| && j != i ==> s'.threads[j] == s.threads[j] || !s'.threads[j].InFlight?
    requires i < |s.threads| ==> ThreadOk(s', s'.threads[i])
    ensures ThreadsOk(s')
    ensures SomeFailed(s) ==> SomeFailed(s')
  {
    forall j | 0 <= j < |s'.threads| ensures ThreadOk(s', s'.threads[j]) {
      if j != i && s'.threads[j].InFlight? {
        ThreadKeeps(s, s', s.threads[j]);
      }
    }
    if SomeFailed(s) {
      var c :| Failed(s, c);
      assert Failed(s', c);
    }
  }

  lemma ResultKeeps(s: State, s': State)
    requires ResultOk(s) && s'.ran == s.ran && s'.outcomes == s.outcomes && s'.fAllOk == s.fAllOk
        && s'.finished == s.finished
    requires |s'.queue| <= |s.queue| && s'.queue == s.queue[..|s'.queue|]
    ensures ResultOk(s')
  {
    if s.fAllOk {
      forall c | c in s'.finished ensures Passed(s', c) {
        assert Passed(s, c);
      }
    } else {
      var c :| Failed(s, c);
      assert Failed(s', c);
    }
  }

  // ----- Critical sections -----

  /** Clean-up keeps everything; the thread is then registered but not yet placed. */
  lemma CleanUpKeeps(s: State, i: nat)
    requires Inv(s) && i < |s.threads| && WantsLock(s.threads[i])
    ensures InvWith(CleanUp(s, i), 1) && CleanUp(s, i).threads[i] == Entering
    ensures CleanUp(s, i).queue == s.queue && |CleanUp(s, i).threads| == |s.threads|
  {
    assert s.threads[i].Entering? ==> s.threads[i := Entering] == s.threads;
    if s.threads[i].InFlight? {
      CleanUpBatch(s, i);
    } else {
      Register(s, CleanUp(s, i), i);
    }
  }

  /** First iteration, or return from the wait: only the counters move. */
  lemma Register(s: State, s': State, i: nat)
    requires Inv(s) && i < |s.threads| && (s.threads[i].Entering? || s.threads[i].Woken?)
    requires s' == s.(threads := s.threads[i := Entering], nIdle := s'.nIdle, nTotal := s'.nTotal)
    requires s'.nIdle == s.nIdle - IdleOf(s.threads[i]) && s'.nTotal == s.nTotal + 1 - TotalOf(s.threads[i])
    ensures InvWith(s', 1)
  {
    SumsUpdate(s.threads, i, Entering);
    forall c ensures OnceIn(s', c) {
      assert OnceIn(s, c);
      HeldUpdate(s.threads, i, Entering, c);
    }
    ThreadsKeep(s, s', i);
    ResultKeeps(s, s');
  }

  lemma CleanUpBatch(s: State, i: nat)
    requires Inv(s) && i < |s.threads| && WantsLock(s.threads[i]) && s.threads[i].InFlight?
    ensures InvWith(CleanUp(s, i), 1) && CleanUp(s, i).threads[i] == Entering
  {
    var s' := CleanUp(s, i);
    SumsUpdate(s.threads, i, Entering);
    SumsUpdate(s.threads[i := Entering], 0, Woken);
    CleanUpConserves(s, i);
    CleanUpResult(s, i);
    ThreadsKeep(s, s', i);
  }

  lemma CleanUpConserves(s: State, i: nat)
    requires Inv(s) && i < |s.threads| && WantsLock(s.threads[i]) && s.threads[i].InFlight?
    ensures Conserved(CleanUp(s, i))
  {
    var s', ts := CleanUp(s, i), s.threads[i := Entering];
    SumsUpdate(s.threads, i, Entering);
    SumsUpdate(ts, 0, Woken);
    forall c ensures OnceIn(s', c) {
      assert OnceIn(s, c);
      HeldUpdate(s.threads, i, Entering, c);
      HeldUpdate(ts, 0, Woken, c);
    }
  }

  lemma CleanUpResult(s: State, i: nat)
    requires Inv(s) && i < |s.threads| && WantsLock(s.threads[i]) && s.threads[i].InFlight?
    ensures ResultOk(CleanUp(s, i))
  {
    var s', t := CleanUp(s, i), s.threads[i];
    assert ThreadOk(s, s.threads[i]);
    if s'.fAllOk {
      forall c | c in s'.finished ensures Passed(s', c) {
        if c in s.finished {
          assert Passed(s, c);
        } else {
          assert c in multiset(t.batch);
          var k :| 0 <= k < |t.batch| && t.batch[k] == c;
          assert Passed(s, t.batch[k]);
        }
      }
    } else {
      var c :| Failed(s, c);
      assert Failed(s', c);
    }
  }

  predicate AllTrue(checks: seq<bool>) {
    forall k :: 0 <= k < |checks| ==> checks[k]
  }

  /** The master returns with nothing pending, and its answer is true iff every check
      added since the last Wait has run and returned true. */
  lemma MasterReturns(s: State)
    requires InvWith(s, 1) && |s.threads| > 0 && s.threads[0] == Entering && s.queue == [] && s.nTodo == 0
    ensures VerdictOk(Verdict(s.fAllOk, s.outcomes, s.ran)) && s.fAllOk == AllTrue(s.outcomes)
    ensures forall i :: 0 <= i < |s.threads| ==> !s.threads[i].InFlight?
  {
    forall i | 0 <= i < |s.threads| ensures !s.threads[i].InFlight? {
      assert ThreadOk(s, s.threads[i]);
      SumsUpdate(s.threads, i, Outside);
    }
    if s.fAllOk {
      forall c | 0 <= c < |s.outcomes| ensures c in s.ran && s.outcomes[c] {
        assert OnceIn(s, c);
        NothingHeld(s.threads, c);
        assert c in s.finished && Passed(s, c);
      }
    } else {
      var c :| Failed(s, c);
    }
  }

  lemma {:induction false} NothingHeld(ts: seq<Thread>, c: nat)
    requires forall i :: 0 <= i < |ts| ==> !ts[i].InFlight?
    ensures Held(ts, c) == 0
    decreases |ts|
  {
    if ts != [] {
      NothingHeld(ts[1..], c);
    }
  }

  lemma TakeOrWaitKeeps(s: State, i: nat)
    requires InvWith(s, 1) && i < |s.threads| && s.threads[i] == Entering
    ensures Inv(TakeOrWait(s, i))
  {
    var s' := TakeOrWait(s, i);
    if s.queue != [] {
      TakeKeeps(s, i);
    } else {
      SumsUpdate(s.threads, i, s'.threads[i]);
      if i == 0 && s.nTodo == 0 {
        MasterReturns(s);
        forall c ensures OnceIn(s', c) {
          NothingHeld(s'.threads, c);
        }
        forall j | 0 <= j < |s'.threads| ensures ThreadOk(s', s'.threads[j]) {}
        forall k | 0 <= k < |s'.verdicts| ensures VerdictOk(s'.verdicts[k]) {
          assert k < |s.verdicts| ==> VerdictOk(s.verdicts[k]);
        }
      } else {
        forall c ensures OnceIn(s', c) {
          assert OnceIn(s, c);
          HeldUpdate(s.threads, i, s'.threads[i], c);
        }
        ThreadsKeep(s, s', i);
        ResultKeeps(s, s');
      }
    }
  }

  /** Taking a batch: never empty, never more than is queued. */
  lemma BatchFits(s: State)
    requires 0 <= s.nTotal && 0 <= s.nIdle && s.queue != []
    ensures 1 <= BatchSize(s) <= |s.queue|
    ensures var n, d := BatchSize(s), s.nTotal + s.nIdle + 1;
            n > 1 ==> n <= s.nBatchSize && n * d <= |s.queue|
    ensures var n, d := BatchSize(s), s.nTotal + s.nIdle + 1;
            n < s.nBatchSize ==> |s.queue| < (n + 1) * d
  {
    var d := s.nTotal + s.nIdle + 1;
    assert |s.queue| / d <= |s.queue| by {
      DivAtMost(|s.queue|, d);
    }
  }

  lemma ProductNonNegative(x: nat, y: nat)
    ensures x * y >= 0
  {
  }

  lemma DivAtMost(a: nat, d: int)
    requires d >= 1
    ensures a / d <= a
  {
    var q := a / d;
    ProductNonNegative(d - 1, q);
    assert d * q == (d - 1) * q + q;
  }

  lemma TakeKeeps(s: State, i: nat)
    requires InvWith(s, 1) && i < |s.threads| && s.threads[i] == Entering && s.queue != []
    ensures Inv(TakeOrWait(s, i))
  {
    BatchFits(s);
    var s' := TakeOrWait(s, i);
    var rest := |s.queue| - BatchSize(s);
    var t := s'.threads[i];
    SumsUpdate(s.threads, i, t);
    forall c ensures OnceIn(s', c) {
      TakeOnce(s, i, rest, c);
    }
    ResultKeeps(s, s');
    assert ThreadOk(s', t) by {
      forall k | 0 <= k < |t.batch| ensures t.batch[k] !in s'.ran {
        assert t.batch[k] == s.queue[rest + k];
      }
    }
    ThreadsKeep(s, s', i);
  }

  lemma TakeOnce(s: State, i: nat, rest: nat, c: nat)
    requires Conserved(s) && i < |s.threads| && s.threads[i] == Entering && rest <= |s.queue|
    ensures var t := InFlight(s.queue[rest..], 0, s.fAllOk);
            multiset(s.queue[..rest])[c] + Held(s.threads[i := t], c) + s.finished[c] == if c < |s.outcomes| then 1
                else 0
  {
    assert OnceIn(s, c);
    assert s.queue == s.queue[..rest] + s.queue[rest..];
    HeldUpdate(s.threads, i, InFlight(s.queue[rest..], 0, s.fAllOk), c);
  }

  // ----- The other steps -----

  /** The facts that make every enabled step well defined. */
  lemma StepDefined(s: State, a: Action)
    requires Inv(s) && Enabled(s, a)
    ensures 0 <= s.nIdle && 0 <= s.nTotal
    ensures a.Critical? && s.threads[a.i].Woken? ==> s.nIdle > 0
    ensures a.RunOne? ==> s.threads[a.i].batch[s.threads[a.i].through] < |s.outcomes|
  {
    if a.Critical? {
      SumsUpdate(s.threads, a.i, Outside);
    } else if a.RunOne? {
      BatchedOnce(s, a.i, s.threads[a.i].through);
    }
  }

  ghost function Next(s: State, a: Action): State
    requires Inv(s) && Enabled(s, a)
  {
    StepDefined(s, a);
    Step(s, a)
  }

  /** A check is run at most once: whatever RunOne runs has not been run before. */
  lemma RunsFresh(s: State, i: nat)
    requires Inv(s) && Enabled(s, RunOne(i))
    ensures s.threads[i].batch[s.threads[i].through] !in s.ran
  {
    assert ThreadOk(s, s.threads[i]);
  }

  lemma RunOneKeeps(s: State, i: nat)
    requires Inv(s) && Enabled(s, RunOne(i))
    ensures Inv(Next(s, RunOne(i)))
  {
    var s', t := Next(s, RunOne(i)), s.threads[i];
    var c := t.batch[t.through];
    assert ThreadOk(s, s.threads[i]);
    BatchedOnce(s, i, t.through);
    SumsUpdate(s.threads, i, s'.threads[i]);
    forall d ensures OnceIn(s', d) {
      assert OnceIn(s, d);
      HeldUpdate(s.threads, i, s'.threads[i], d);
    }
    forall j | 0 <= j < |s.threads| ensures ThreadOk(s', s'.threads[j]) {
      RunOneThread(s, i, j);
    }
    RunOneResult(s, i);
  }

  lemma RunOneThread(s: State, i: nat, j: nat)
    requires Inv(s) && Enabled(s, RunOne(i)) && j < |s.threads|
    ensures ThreadOk(Next(s, RunOne(i)), Next(s, RunOne(i)).threads[j])
  {
    var s', t, u := Next(s, RunOne(i)), s.threads[i], s.threads[j];
    var c := t.batch[t.through];
    assert ThreadOk(s, s.threads[i]) && ThreadOk(s, s.threads[j]);
    BatchedOnce(s, i, t.through);
    if j != i {
      if u.InFlight? {
        forall k | u.through <= k < |u.batch| ensures u.batch[k] !in s'.ran {
          BatchesApart(s, i, t.through, j, k);
        }
      }
      ThreadKeeps(s, s', u);
    } else {
      var rest := t.(through := t.through + 1);
      assert t.fOk && !s.outcomes[c] ==> Failed(s', c);
      if SomeFailed(s) {
        var d :| Failed(s, d);
        assert Failed(s', d);
      }
      forall k | 0 <= k < t.through && t.fOk ensures Passed(s', t.batch[k]) {
        assert Passed(s, t.batch[k]);
      }
      assert t.fOk && s.outcomes[c] ==> Passed(s', c);
    }
  }

  lemma RunOneResult(s: State, i: nat)
    requires Inv(s) && Enabled(s, RunOne(i))
    ensures ResultOk(Next(s, RunOne(i)))
  {
    var s', t := Next(s, RunOne(i)), s.threads[i];
    BatchedOnce(s, i, t.through);
    if s.fAllOk {
      forall c | c in s'.finished ensures Passed(s', c) {
        assert Passed(s, c);
      }
    } else {
      var d :| Failed(s, d);
      assert Failed(s', d);
    }
  }

  lemma AddKeeps(s: State, a: Action)
    requires Inv(s) && a.Add? && Enabled(s, a)
    ensures Inv(Next(s, a))
  {
    var s' := Next(s, a);
    var n, m := |s.outcomes|, |a.checks|;
    var more := seq(m, k => n + k);
    forall c ensures OnceIn(s', c) {
      assert OnceIn(s, c);
      SumsAgree(s.threads, s'.threads, c);
      SeqCount(n, m, c);
      assert multiset(s'.queue) == multiset(s.queue) + multiset(more);
    }
    SumsAgree(s.threads, s'.threads, 0);
    forall j | 0 <= j < |s'.threads| ensures ThreadOk(s', s'.threads[j]) {
      assert ThreadOk(s, s.threads[j]);
      ThreadKeeps(s, s', s.threads[j]);
    }
    AddResult(s, a);
  }

  lemma {:induction false} SeqCount(n: nat, m: nat, c: nat)
    ensures multiset(seq(m, k => n + k))[c] == if n <= c < n + m then 1 else 0
    decreases m
  {
    var ids := seq(m, k => n + k);
    if m == 0 {
      assert ids == [];
    } else {
      SeqCount(n, m - 1, c);
      assert ids == seq(m - 1, k => n + k) + [n + m - 1];
    }
  }

  lemma AddResult(s: State, a: Action)
    requires Inv(s) && a.Add? && Enabled(s, a)
    ensures ResultOk(Next(s, a))
  {
    var s' := Next(s, a);
    if s.fAllOk {
      forall c | c in s'.finished ensures Passed(s', c) {
        assert Passed(s, c);
      }
    } else {
      var d :| Failed(s, d);
      assert Failed(s', d);
    }
    forall k | 0 <= k < |s'.queue| ensures s'.queue[k] !in s'.ran {
      assert k >= |s.queue| ==> s'.queue[k] >= |s.outcomes|;
    }
  }

  /** A thread that enters, or is woken without a notification. */
  lemma MoveKeeps(s: State, a: Action)
    requires Inv(s) && Enabled(s, a) && (a.Start? || a.Spurious?)
    ensures Inv(Next(s, a))
  {
    var s' := Next(s, a);
    SumsUpdate(s.threads, a.i, s'.threads[a.i]);
    forall c ensures OnceIn(s', c) {
      assert OnceIn(s, c);
      HeldUpdate(s.threads, a.i, s'.threads[a.i], c);
    }
    ThreadsKeep(s, s', a.i);
    ResultKeeps(s, s');
  }

  /** Every step keeps the invariant. */
  lemma StepKeeps(s: State, a: Action)
    requires Inv(s) && Enabled(s, a)
    ensures Inv(Next(s, a))
  {
    match a
    case Start(i) => MoveKeeps(s, a);
    case Spurious(i) => MoveKeeps(s, a);
    case RunOne(i) => RunOneKeeps(s, i);
    case Add(_, _) => AddKeeps(s, a);
    case Critical(i) =>
      CleanUpKeeps(s, i);
      TakeOrWaitKeeps(CleanUp(s, i), i);
  }

  // ----- Whole runs -----

  ghost predicate IsRun(s: State, run: seq<Action>)
    requires Inv(s)
    decreases |run|
  {
    run == [] || (Enabled(s, run[0]) && (StepKeeps(s, run[0]); IsRun(Next(s, run[0]), run[1..])))
  }

  ghost function After(s: State, run: seq<Action>): State
    requires Inv(s) && IsRun(s, run)
    decreases |run|
  {
    if run == [] then s else (StepKeeps(s, run[0]); After(Next(s, run[0]), run[1..]))
  }

  /** Main result: in every interleaving from the start, no check is lost, nTodo counts the queued
      and batched checks, and each Wait that has returned told the truth. */
  lemma {:induction false} RunSafe(s: State, run: seq<Action>)
    requires Inv(s) && IsRun(s, run)
    ensures Inv(After(s, run))
    decreases |run|
  {
    if run != [] {
      StepKeeps(s, run[0]);
      RunSafe(Next(s, run[0]), run[1..]);
    }
  }

  lemma InitialRunSafe(s: State, run: seq<Action>)
    requires Initial(s) && (InitialInv(s); IsRun(s, run))
    ensures var s' := (InitialInv(s); After(s, run));
            && s'.nTodo == |s'.queue| + Size(s'.threads)
            && VerdictsOk(s') && NoLostWakeup(s')
            && s'.outcomes == (InitialInv(s); AddedSince(s, run, []))
            && Returned(s'.verdicts) == (InitialInv(s); Answers(s, run, []))
  {
    InitialInv(s);
    RunSafe(s, run);
    RunAnswers(s, run);
  }

  // ----- What Wait answers, told from the actions -----

  /** The master leaves Wait. */
  ghost predicate Returns(s: State, a: Action)
    requires Inv(s) && Enabled(s, a)
  {
    s.threads[0] != Outside && |Next(s, a).threads| > 0 && Next(s, a).threads[0] == Outside
  }

  /** The checks pending after one action, when `had` were pending before it. */
  ghost function Pending(s: State, a: Action, had: seq<bool>): seq<bool>
    requires Inv(s) && Enabled(s, a)
  {
    if Returns(s, a) then [] else if a.Add? then had + a.checks else had
  }

  /** All the checks that Add handed over since the master last returned, in order. */
  ghost function AddedSince(s: State, run: seq<Action>, had: seq<bool>): seq<bool>
    requires Inv(s) && IsRun(s, run)
    decreases |run|
  {
    if run == [] then had else (StepKeeps(s, run[0]); AddedSince(Next(s, run[0]), run[1..], Pending(s, run[0], had)))
  }

  /** What the Waits that return during the run have to answer: for each, whether all the checks
      handed over since the previous one succeed. */
  ghost function Answers(s: State, run: seq<Action>, had: seq<bool>): seq<bool>
    requires Inv(s) && IsRun(s, run)
    decreases |run|
  {
    if run == [] then [] else
      StepKeeps(s, run[0]);
      Answer(s, run[0], had) + Answers(Next(s, run[0]), run[1..], Pending(s, run[0], had))
  }

  ghost function Answer(s: State, a: Action, had: seq<bool>): seq<bool>
    requires Inv(s) && Enabled(s, a)
  {
    if Returns(s, a) then [AllTrue(had)] else []
  }

  /** What the Waits have answered. */
  function Returned(vs: seq<Verdict>): (rets: seq<bool>)
    ensures |rets| == |vs|
  {
    seq(|vs|, k requires 0 <= k < |vs| => vs[k].ret)
  }

  /** Only Add adds checks, all of its checks, and only the master's return answers, for all of them. */
  lemma StepRecords(s: State, a: Action)
    requires Inv(s) && Enabled(s, a)
    ensures Next(s, a).outcomes == Pending(s, a, s.outcomes)
    ensures Returned(Next(s, a).verdicts) == Returned(s.verdicts) + Answer(s, a, s.outcomes)
  {
    if a.Critical? {
      CleanUpKeeps(s, a.i);
      CleanUpRecords(s, a.i);
      TakeRecords(CleanUp(s, a.i), a.i);
    } else {
      OtherRecords(s, a);
    }
  }

  lemma OtherRecords(s: State, a: Action)
    requires Inv(s) && Enabled(s, a) && !a.Critical?
    ensures !Returns(s, a) && Next(s, a).verdicts == s.verdicts
    ensures Next(s, a).outcomes == s.outcomes + if a.Add? then a.checks else []
  {
  }

  /** Whether the critical section of thread i ends with the master's return. */
  ghost predicate Leaves(s: State, i: nat) {
    i == 0 && s.queue == [] && s.nTodo == 0
  }

  lemma TakeRecords(s: State, i: nat)
    requires InvWith(s, 1) && i < |s.threads| && s.threads[i] == Entering
    ensures var s' := TakeOrWait(s, i);
            && |s'.threads| > 0 && (s'.threads[0] == Outside <==> Leaves(s, i) || s.threads[0] == Outside)
            && s'.outcomes == (if Leaves(s, i) then [] else s.outcomes)
            && Returned(s'.verdicts) == Returned(s.verdicts) + if Leaves(s, i) then [AllTrue(s.outcomes)] else []
  {
    if Leaves(s, i) {
      MasterReturns(s);
    }
  }

  lemma CleanUpRecords(s: State, i: nat)
    requires Inv(s) && i < |s.threads| && WantsLock(s.threads[i])
    ensures CleanUp(s, i).outcomes == s.outcomes && CleanUp(s, i).verdicts == s.verdicts
    ensures i != 0 ==> (CleanUp(s, i).threads[0] == Outside <==> s.threads[0] == Outside)
  {
  }

  /** Main result: in every interleaving, what is pending is all that was added since the last
      return, and each Wait answers true if and only if all the checks handed over for it succeed. */
  lemma {:induction false} RunAnswers(s: State, run: seq<Action>)
    requires Inv(s) && IsRun(s, run)
    ensures After(s, run).outcomes == AddedSince(s, run, s.outcomes)
    ensures Returned(After(s, run).verdicts) == Returned(s.verdicts) + Answers(s, run, s.outcomes)
    decreases |run|
  {
    if run != [] {
      StepKeeps(s, run[0]);
      StepRecords(s, run[0]);
      var next := Next(s, run[0]);
      RunAnswers(next, run[1..]);
      Regroup(Returned(s.verdicts), Answer(s, run[0], s.outcomes), Answers(next, run[1..], next.outcomes));
    }
  }

  lemma Regroup(a: seq<bool>, b: seq<bool>, c: seq<bool>)
    ensures (a + b) + c == a + (b + c)
  {
  }

  // ----- Progress -----

  function Rank(t: Thread): nat {
    match t
    case InFlight(batch, through, _) => if through <= |batch| then 7 + |batch| - through else 7
    case Entering => 3
    case Woken => 3
    case _ => 0
  }

  ghost function Ranks(ts: seq<Thread>): nat {
    if ts == [] then 0 else Rank(ts[0]) + Ranks(ts[1..])
  }

  ghost function Measure(s: State): nat {
    6 * |s.queue| + Ranks(s.threads)
  }

  lemma {:induction false} RanksUpdate(ts: seq<Thread>, i: nat, t: Thread)
    requires i < |ts|
    ensures Ranks(ts[i := t]) + Rank(ts[i]) == Ranks(ts) + Rank(t)
    decreases |ts|
  {
    var us := ts[i := t];
    if i == 0 {
      assert us[1..] == ts[1..];
    } else {
      RanksUpdate(ts[1..], i - 1, t);
      assert us[1..] == ts[1..][i - 1 := t];
    }
  }

  /** Work: running a check, or a critical section. */
  predicate IsWork(a: Action) {
    a.RunOne? || a.Critical?
  }

  lemma CleanUpMeasure(s: State, i: nat)
    requires Inv(s) && i < |s.threads| && WantsLock(s.threads[i])
    ensures Measure(CleanUp(s, i)) <= Measure(s)
  {
    RanksUpdate(s.threads, i, Entering);
    RanksUpdate(s.threads[i := Entering], 0, Woken);
  }

  lemma TakeMeasure(s: State, i: nat)
    requires 0 <= s.nTotal && 0 <= s.nIdle && i < |s.threads| && s.threads[i] == Entering
    ensures Measure(TakeOrWait(s, i)) < Measure(s)
  {
    var s' := TakeOrWait(s, i);
    RanksUpdate(s.threads, i, s'.threads[i]);
    if s.queue != [] {
      BatchFits(s);
    }
  }

  /** Every step of work brings the end nearer. */
  lemma WorkDecreases(s: State, a: Action)
    requires Inv(s) && Enabled(s, a) && IsWork(a)
    ensures Measure(Next(s, a)) < Measure(s)
  {
    var i := a.i;
    if a.RunOne? {
      RanksUpdate(s.threads, i, Next(s, a).threads[i]);
    } else {
      CleanUpKeeps(s, i);
      CleanUpMeasure(s, i);
      TakeMeasure(CleanUp(s, i), i);
    }
  }

  /** While the master is in Wait there is always work to do: no deadlock, and no sleeping
      master without a worker that will wake it. */
  lemma WorkEnabled(s: State)
    requires Inv(s) && s.threads[0] != Outside
    ensures exists a :: IsWork(a) && Enabled(s, a)
  {
    if s.threads[0] == Asleep {
      var i := SomeBatch(s.threads);
      BusyWorks(s, i);
    } else {
      BusyWorks(s, 0);
    }
  }

  lemma BusyWorks(s: State, i: nat)
    requires Inv(s) && i < |s.threads| && s.threads[i] != Asleep && s.threads[i] != Outside
    ensures exists a :: IsWork(a) && Enabled(s, a)
  {
    assert ThreadOk(s, s.threads[i]);
    var a := if s.threads[i].InFlight? && s.threads[i].through < |s.threads[i].batch| then RunOne(i) else Critical(i);
    assert IsWork(a) && Enabled(s, a);
  }

  lemma {:induction false} SomeBatch(ts: seq<Thread>) returns (i: nat)
    requires Size(ts) > 0
    ensures i < |ts| && ts[i].InFlight?
    decreases |ts|
  {
    if ts[0].InFlight? {
      i := 0;
    } else {
      i := SomeBatch(ts[1..]);
      i := i + 1;
    }
  }

  /** Wait returns: whatever work is done, and in whatever order, after no more steps than the measure
      allows no work is left, and then the master is out. */
  lemma WaitReturns(s: State, run: seq<Action>)
    requires Inv(s) && IsRun(s, run) && forall k :: 0 <= k < |run| ==> IsWork(run[k])
    ensures |run| <= Measure(s)
    ensures var s' := After(s, run);
            |s'.threads| > 0 && ((forall a :: IsWork(a) ==> !Enabled(s', a)) ==> s'.threads[0] == Outside)
  {
    WorkEnds(s, run);
    RunSafe(s, run);
    var s' := After(s, run);
    if s'.threads[0] != Outside {
      WorkEnabled(s');
    }
  }

  /** Work alone cannot go on longer than the measure allows. */
  lemma {:induction false} WorkEnds(s: State, run: seq<Action>)
    requires Inv(s) && IsRun(s, run) && forall k :: 0 <= k < |run| ==> IsWork(run[k])
    ensures |run| + Measure(After(s, run)) <= Measure(s)
    decreases |run|
  {
    if run != [] {
      StepKeeps(s, run[0]);
      WorkDecreases(s, run[0]);
      WorkEnds(Next(s, run[0]), run[1..]);
    }
  }
}
