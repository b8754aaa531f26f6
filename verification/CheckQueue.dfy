/** The script check queue of src/checkqueue.h as a state machine of one master (thread 0) and any
    number of workers.  A step is one critical section, one check run outside the lock, a wake-up,
    or a call by the master. */
module CheckQueue {
  import opened Integers

  /** Where a thread is.  `InFlight` holds the batch taken from the queue, how many of its
      checks have been gone through, and the thread's fOk. */
  datatype Thread =
    | Outside
    | Entering
    | InFlight(batch: seq<nat>, through: nat, fOk: bool)
    | Asleep
    | Woken

  /** What one Wait returned, for which checks, and which of them had been run. */
  datatype Verdict = Verdict(ret: bool, outcomes: seq<bool>, ran: set<nat>)

  /** The shared variables, the threads, and the history since the last Wait: `outcomes` has the
      result of every check added (a check is its index there), `finished` the checks of cleaned-up
      batches and `ran` those actually run. */
  datatype State = State(
    queue: seq<nat>, nTodo: int, fAllOk: bool, nIdle: int, nTotal: int, fQuit: bool, nBatchSize: nat,
    threads: seq<Thread>,
    outcomes: seq<bool>, finished: multiset<nat>, ran: set<nat>, verdicts: seq<Verdict>)

  datatype Action =
    | Start(i: nat)                              // a worker enters Loop, or the master calls Wait
    | Critical(i: nat)                           // from taking the lock to releasing it
    | RunOne(i: nat)                             // go through one check of the batch
    | Spurious(i: nat)                           // cond.wait returns without a notification
    | Add(checks: seq<bool>, notified: set<nat>) // the master adds checks and notifies workers

  // ----- The critical section of Loop -----

  /** Clean-up of the previous batch, or registration on the first iteration. */
  function CleanUp(s: State, i: nat): State
    requires i < |s.threads|
  {
    match s.threads[i]
    case InFlight(batch, _, fOk) =>
      var s1 := s.(fAllOk := s.fAllOk && fOk, nTodo := s.nTodo - |batch|, finished := s.finished + multiset(batch),
                   threads := s.threads[i := Entering]);
      if s1.nTodo == 0 && i != 0 && s1.threads[0] == Asleep then s1.(threads := s1.threads[0 := Woken]) else s1
    case Woken => s.(nIdle := s.nIdle - 1, threads := s.threads[i := Entering])
    case _ => s.(nTotal := s.nTotal + 1)
  }

  function BatchSize(s: State): nat
    requires 0 <= s.nTotal && 0 <= s.nIdle
  {
    var n := Min(s.nBatchSize, |s.queue| / (s.nTotal + s.nIdle + 1));
    if n < 1 then 1 else n
  }

  /** `while (queue.empty())` and what follows it, up to the release of the lock. */
  function TakeOrWait(s: State, i: nat): State
    requires i < |s.threads| && 0 <= s.nTotal && 0 <= s.nIdle
  {
    if s.queue == [] then
      if (i == 0 || s.fQuit) && s.nTodo == 0 then
        var left := s.(nTotal := s.nTotal - 1, threads := s.threads[i := Outside]);
        if i == 0 then
          left.(fAllOk := true, outcomes := [], finished := multiset{}, ran := {},
                verdicts := s.verdicts + [Verdict(s.fAllOk, s.outcomes, s.ran)])
        else left
      else s.(nIdle := s.nIdle + 1, threads := s.threads[i := Asleep])
    else
      var n := BatchSize(s);
      var rest := if n <= |s.queue| then |s.queue| - n else 0;
      s.(queue := s.queue[..rest], threads := s.threads[i := InFlight(s.queue[rest..], 0, s.fAllOk)])
  }

  // ----- Steps -----

  predicate WantsLock(t: Thread) {
    t.Entering? || t.Woken? || (t.InFlight? && t.through == |t.batch|)
  }

  predicate Enabled(s: State, a: Action) {
    match a
    case Start(i) => i < |s.threads| && s.threads[i] == Outside
    case Critical(i) => i < |s.threads| && WantsLock(s.threads[i])
    case RunOne(i) => i < |s.threads| && s.threads[i].InFlight? && s.threads[i].through < |s.threads[i].batch|
    case Spurious(i) => i < |s.threads| && s.threads[i] == Asleep
    case Add(checks, notified) =>
      && 0 < |s.threads| && s.threads[0] == Outside
      && (forall i :: i in notified ==> 0 < i < |s.threads| && s.threads[i] == Asleep)
      && (|checks| == 0 ==> notified == {})
      && (|checks| == 1 ==> |notified| <= 1)
      && (|checks| == 1 && notified == {} ==> forall i :: 0 < i < |s.threads| ==> s.threads[i] != Asleep)
      && (|checks| > 1 ==> forall i :: 0 < i < |s.threads| && s.threads[i] == Asleep ==> i in notified)
  }

  function Step(s: State, a: Action): State
    requires Enabled(s, a) && 0 <= s.nIdle && 0 <= s.nTotal
    requires a.Critical? && s.threads[a.i].Woken? ==> s.nIdle > 0
    requires a.RunOne? ==> s.threads[a.i].batch[s.threads[a.i].through] < |s.outcomes|
  {
    match a
    case Start(i) => s.(threads := s.threads[i := Entering])
    case Critical(i) => TakeOrWait(CleanUp(s, i), i)
    case RunOne(i) =>
      var t := s.threads[i];
      var c := t.batch[t.through];
      if t.fOk then
        s.(ran := s.ran + {c}, threads := s.threads[i := t.(through := t.through + 1, fOk := s.outcomes[c])])
      else s.(threads := s.threads[i := t.(through := t.through + 1)])
    case Spurious(i) => s.(threads := s.threads[i := Woken])
    case Add(checks, notified) =>
      s.(queue := s.queue + seq(|checks|, k => |s.outcomes| + k), nTodo := s.nTodo + |checks|,
         outcomes := s.outcomes + checks,
         threads := seq(|s.threads|, i requires 0 <= i < |s.threads| => if i in notified then Woken else s.threads[i]))
  }

  // ----- Sums over the threads -----

  /** How often a thread's batch holds check c. */
  function HeldOf(t: Thread, c: nat): nat {
    if t.InFlight? then multiset(t.batch)[c] else 0
  }

  function SizeOf(t: Thread): nat {
    if t.InFlight? then |t.batch| else 0
  }

  function IdleOf(t: Thread): nat {
    if t.Asleep? || t.Woken? then 1 else 0
  }

  function TotalOf(t: Thread): nat {
    if t.InFlight? || t.Asleep? || t.Woken? then 1 else 0
  }

  ghost function Held(ts: seq<Thread>, c: nat): nat {
    if ts == [] then 0 else HeldOf(ts[0], c) + Held(ts[1..], c)
  }

  ghost function Size(ts: seq<Thread>): nat {
    if ts == [] then 0 else SizeOf(ts[0]) + Size(ts[1..])
  }

  ghost function Idle(ts: seq<Thread>): nat {
    if ts == [] then 0 else IdleOf(ts[0]) + Idle(ts[1..])
  }

  ghost function Total(ts: seq<Thread>): nat {
    if ts == [] then 0 else TotalOf(ts[0]) + Total(ts[1..])
  }

  lemma {:induction false} SumsUpdate(ts: seq<Thread>, i: nat, t: Thread)
    requires i < |ts|
    ensures Size(ts[i := t]) + SizeOf(ts[i]) == Size(ts) + SizeOf(t)
    ensures Idle(ts[i := t]) + IdleOf(ts[i]) == Idle(ts) + IdleOf(t)
    ensures Total(ts[i := t]) + TotalOf(ts[i]) == Total(ts) + TotalOf(t)
    decreases |ts|
  {
    var us := ts[i := t];
    if i == 0 {
      assert us[1..] == ts[1..];
    } else {
      SumsUpdate(ts[1..], i - 1, t);
      assert us[1..] == ts[1..][i - 1 := t];
    }
  }

  lemma {:induction false} HeldUpdate(ts: seq<Thread>, i: nat, t: Thread, c: nat)
    requires i < |ts|
    ensures Held(ts[i := t], c) + HeldOf(ts[i], c) == Held(ts, c) + HeldOf(t, c)
    decreases |ts|
  {
    var us := ts[i := t];
    if i == 0 {
      assert us[1..] == ts[1..];
    } else {
      HeldUpdate(ts[1..], i - 1, t, c);
      assert us[1..] == ts[1..][i - 1 := t];
    }
  }

  /** Threads that are only woken hold what they held. */
  lemma {:induction false} SumsAgree(ts: seq<Thread>, us: seq<Thread>, c: nat)
    requires |ts| == |us| && forall i :: 0 <= i < |ts| ==> us[i] == ts[i] || (ts[i] == Asleep && us[i] == Woken)
    ensures Held(ts, c) == Held(us, c) && Size(ts) == Size(us) && Idle(ts) == Idle(us) && Total(ts) == Total(us)
    decreases |ts|
  {
    if ts != [] {
      SumsAgree(ts[1..], us[1..], c);
    }
  }

  lemma HeldTwo(ts: seq<Thread>, i: nat, j: nat, c: nat)
    requires i < |ts| && j < |ts|
    ensures HeldOf(ts[i], c) <= Held(ts, c)
    ensures i != j ==> HeldOf(ts[i], c) + HeldOf(ts[j], c) <= Held(ts, c)
  {
    HeldUpdate(ts, i, Outside, c);
    HeldUpdate(ts[i := Outside], j, Outside, c);
  }

  // ----- The invariant -----

  ghost predicate Passed(s: State, c: nat) {
    c in s.ran && c < |s.outcomes| && s.outcomes[c]
  }

  ghost predicate SomeFailed(s: State) {
    exists c :: Failed(s, c)
  }

  ghost predicate Failed(s: State, c: nat) {
    c in s.ran && c < |s.outcomes| && !s.outcomes[c]
  }

  /** A thread's fOk is right about what it has gone through, and it has run nothing beyond. */
  ghost predicate ThreadOk(s: State, t: Thread) {
    t.InFlight? ==>
      && t.through <= |t.batch| && |t.batch| > 0
      && (t.fOk ==> forall k :: 0 <= k < t.through ==> Passed(s, t.batch[k]))
      && (!t.fOk ==> SomeFailed(s))
      && (forall k :: t.through <= k < |t.batch| ==> t.batch[k] !in s.ran)
  }

  ghost predicate ThreadsOk(s: State) {
    forall i {:trigger ThreadOk(s, s.threads[i])} :: 0 <= i < |s.threads| ==> ThreadOk(s, s.threads[i])
  }

  /** fAllOk is right about the finished batches, and nothing still queued has been run. */
  ghost predicate ResultOk(s: State) {
    && (s.fAllOk ==> forall c :: c in s.finished ==> Passed(s, c))
    && (!s.fAllOk ==> SomeFailed(s))
    && (forall k :: 0 <= k < |s.queue| ==> s.queue[k] !in s.ran)
    && (forall c :: c in s.ran ==> c < |s.outcomes|)
  }

  /** Check c, if added, is queued, in a batch, or finished, and that exactly once. */
  ghost predicate OnceIn(s: State, c: nat) {
    multiset(s.queue)[c] + Held(s.threads, c) + s.finished[c] == if c < |s.outcomes| then 1 else 0
  }

  /** No check is lost or doubled, and nTodo counts the queued and the batched ones. */
  ghost predicate Conserved(s: State) {
    && (forall c {:trigger OnceIn(s, c)} :: OnceIn(s, c))
    && s.nTodo == |s.queue| + Size(s.threads)
  }

  /** `extra` is 1 inside the critical section, where the thread is registered but not placed. */
  ghost predicate Counted(s: State, extra: int) {
    s.nIdle == Idle(s.threads) && s.nTotal == Total(s.threads) + extra
  }

  /** The master sleeps without a pending notification only while a worker holds a batch. */
  ghost predicate NoLostWakeup(s: State) {
    |s.threads| > 0 && (s.threads[0] == Asleep ==> s.queue == [] && s.nTodo > 0)
  }

  ghost predicate VerdictOk(v: Verdict) {
    v.ret <==> forall c :: 0 <= c < |v.outcomes| ==> c in v.ran && v.outcomes[c]
  }

  ghost predicate VerdictsOk(s: State) {
    forall k :: 0 <= k < |s.verdicts| ==> VerdictOk(s.verdicts[k])
  }

  ghost predicate InvWith(s: State, extra: int) {
    Counted(s, extra) && Conserved(s) && ThreadsOk(s) && ResultOk(s) && NoLostWakeup(s) && VerdictsOk(s)
  }

  ghost predicate Inv(s: State) {
    InvWith(s, 0)
  }

  predicate Initial(s: State) {
    && s.queue == [] && s.nTodo == 0 && s.fAllOk && s.nIdle == 0 && s.nTotal == 0 && !s.fQuit
    && |s.threads| > 0 && (forall i :: 0 <= i < |s.threads| ==> s.threads[i] == Outside)
    && s.outcomes == [] && s.finished == multiset{} && s.ran == {} && s.verdicts == []
  }

  lemma {:induction false} NoSums(ts: seq<Thread>)
    requires forall i :: 0 <= i < |ts| ==> ts[i] == Outside
    ensures (forall c :: Held(ts, c) == 0) && Size(ts) == 0 && Idle(ts) == 0 && Total(ts) == 0
    decreases |ts|
  {
    if ts != [] {
      NoSums(ts[1..]);
    }
  }

  lemma InitialInv(s: State)
    requires Initial(s)
    ensures Inv(s)
  {
    NoSums(s.threads);
  }

  // ----- Consequences of conservation -----

  /** A check of a batch is an added one, in that batch once, and nowhere else. */
  lemma BatchedOnce(s: State, i: nat, k: nat)
    requires Conserved(s) && i < |s.threads| && s.threads[i].InFlight? && k < |s.threads[i].batch|
    ensures var c := s.threads[i].batch[k];
            && c < |s.outcomes|
            && (forall l :: 0 <= l < |s.queue| ==> s.queue[l] != c)
            && (forall l :: 0 <= l < |s.threads[i].batch| && l != k ==> s.threads[i].batch[l] != c)
  {
    var b := s.threads[i].batch;
    var c := b[k];
    assert OnceIn(s, c);
    HeldTwo(s.threads, i, i, c);
    PresentOnce(b, k);
    forall l | 0 <= l < |s.queue| ensures s.queue[l] != c {
      PresentOnce(s.queue, l);
    }
  }

  /** Two threads never hold the same check. */
  lemma BatchesApart(s: State, i: nat, k: nat, j: nat, l: nat)
    requires Conserved(s) && i < |s.threads| && s.threads[i].InFlight? && k < |s.threads[i].batch|
    requires j < |s.threads| && s.threads[j].InFlight? && l < |s.threads[j].batch| && i != j
    ensures s.threads[i].batch[k] != s.threads[j].batch[l]
  {
    var c := s.threads[i].batch[k];
    assert OnceIn(s, c);
    HeldTwo(s.threads, i, j, c);
    PresentOnce(s.threads[i].batch, k);
    PresentOnce(s.threads[j].batch, l);
  }

  lemma PresentOnce(b: seq<nat>, k: nat)
    requires k < |b|
    ensures multiset(b)[b[k]] >= 1
    ensures multiset(b)[b[k]] == 1 ==> forall l :: 0 <= l < |b| && l != k ==> b[l] != b[k]
  {
    var c, rest := b[k], b[..k] + b[k + 1..];
    assert b == b[..k] + [c] + b[k + 1..];
    assert multiset(b) == multiset(rest) + multiset{c};
    forall l | 0 <= l < |b| && l != k && b[l] == c ensures c in multiset(rest) {
      assert rest[if l < k then l else l - 1] == c;
    }
  }
}
