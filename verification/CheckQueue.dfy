/**
 The parallel verification queue: one master and any number of workers share a
 queue under a single mutex and two condition variables.

 Every critical section is one atomic step.  A thread that waits on a condition
 variable is `Parked`; a notification or a spurious wake-up makes it `Woken`, and
 the step that re-acquires the mutex is separate.  Evaluating a check happens
 outside the mutex, one check per step, with an arbitrary result.
 */
module CheckQueue {
  import opened Common

  /** The identity of one verification job. */
  type Check = nat

  datatype Phase =
    | Outside                                            // the master, between two calls of Wait
    | Entering                                           // called Loop, not yet inside the first critical section
    | Parked                                             // waiting on its condition variable
    | Woken                                              // notified (or woken spuriously), mutex not yet re-acquired
    | Locked                                             // inside a critical section, at the head of the inner loop
    | Running(batch: seq<Check>, done: nat, ok: bool)    // executing a batch outside the mutex

  /** What one call of Wait returned and what happened to the checks added for it. */
  datatype Session = Session(ret: bool, added: multiset<Check>, passed: multiset<Check>,
                             failed: multiset<Check>, skipped: multiset<Check>)

  /** Thread 0 is the master; every other thread is a worker.  The last five
      fields record history: nothing the queue does depends on them. */
  datatype State = State(
    queue: seq<Check>, nIdle: int, nTotal: int, fAllOk: bool, nTodo: int, nBatchSize: nat,
    threads: seq<Phase>,
    added: multiset<Check>, passed: multiset<Check>, failed: multiset<Check>, skipped: multiset<Check>,
    sessions: seq<Session>)

  const MAX_TODO := 0x1_0000_0000

  function Init(workers: nat, nBatchSize: nat): State {
    State([], 0, 0, true, 0, nBatchSize, [Outside] + seq(workers, i => Entering),
          multiset{}, multiset{}, multiset{}, multiset{}, [])
  }

  // ---------------------------------------------------------------- critical sections

  /** How many jobs one thread takes: as many as are its share, but no more than nBatchSize,
      and at least one. */
  function BatchSize(nBatchSize: nat, queued: nat, divisor: int): (n: int)
    requires queued >= 1
    requires divisor > 0
    ensures 1 <= n <= queued
    ensures n <= Max(1, nBatchSize)
    ensures n > 1 ==> n * divisor <= queued
    ensures n < nBatchSize ==> queued < (n + 1) * divisor
  {
    DivAtMost(queued, divisor);
    ShareBounds(queued, divisor, queued / divisor);
    Max(1, Min(nBatchSize, queued / divisor))
  }

  lemma ShareBounds(a: nat, b: int, q: int)
    requires b > 0 && q == a / b
    ensures q * b <= a < (q + 1) * b && (q < 1 ==> a < 2 * b)
  {
    assert a == q * b + a % b;
  }

  /** The divisor of the batch size.  Core below shows that the sum is positive. */
  function Divisor(s: State): (d: int)
    ensures d > 0
  {
    Max(1, s.nTotal + s.nIdle + 1)
  }

  lemma MulAtLeast(q: nat, b: int)
    requires b > 0
    ensures q * b >= q
  {}

  lemma DivAtMost(a: nat, b: int)
    requires b > 0
    ensures a / b <= a
  {
    var q := a / b;
    assert a == q * b + a % b;
    MulAtLeast(q, b);
  }

  /** Jobs are swapped off the back of the queue, so a batch is a reversed suffix. */
  function Suffix(q: seq<Check>, n: nat): (b: seq<Check>)
    requires n <= |q|
  {
    seq(n, i requires 0 <= i < n => q[|q| - 1 - i])
  }

  /** From "logically, the do loop starts here" to the end of the critical section. */
  function LoopHead(s: State, t: nat): State
    requires t < |s.threads|
  {
    if s.queue == [] then
      if t == 0 && s.nTodo == 0 then
        s.(nTotal := s.nTotal - 1, fAllOk := true, threads := s.threads[t := Outside],
           added := multiset{}, passed := multiset{}, failed := multiset{}, skipped := multiset{},
           sessions := s.sessions + [Session(s.fAllOk, s.added, s.passed, s.failed, s.skipped)])
      else
        s.(nIdle := s.nIdle + 1, threads := s.threads[t := Parked])
    else
      var n := BatchSize(s.nBatchSize, |s.queue|, Divisor(s));
      s.(queue := s.queue[..|s.queue| - n],
         threads := s.threads[t := Running(Suffix(s.queue, n), 0, s.fAllOk)])
  }

  function NotifyMaster(threads: seq<Phase>): (r: seq<Phase>)
    requires |threads| > 0
    ensures |r| == |threads|
  {
    if threads[0].Parked? then threads[0 := Woken] else threads
  }

  function NotifyAllWorkers(threads: seq<Phase>): (r: seq<Phase>)
    ensures |r| == |threads|
  {
    seq(|threads|, i requires 0 <= i < |threads| =>
      if i > 0 && threads[i].Parked? then Woken else threads[i])
  }

  // ---------------------------------------------------------------- steps

  datatype Step =
    | Call                                        // the master calls Wait
    | Add(checks: seq<Check>, target: nat)        // the master adds checks; notify_one wakes `target`
    | Enter(t: nat)                               // first critical section of Loop
    | Exec(t: nat, result: bool)                  // the next check of the batch, outside the mutex
    | Commit(t: nat)                              // critical section after a finished batch
    | Resume(t: nat)                              // a woken thread re-acquires the mutex
    | Spurious(t: nat)                            // a parked thread wakes without notification

  predicate WorkerParked(s: State, w: nat) {
    0 < w < |s.threads| && s.threads[w].Parked?
  }

  predicate NoWorkerParked(s: State) {
    forall w: nat :: w < |s.threads| ==> !WorkerParked(s, w)
  }

  /** When a step can happen.  The master adds only outside Wait; the number of
      unfinished checks must stay within an unsigned int. */
  predicate Enabled(s: State, step: Step) {
    && |s.threads| > 0
    && match step
       case Call => s.threads[0].Outside?
       case Add(checks, w) =>
         && s.threads[0].Outside?
         && s.nTodo + |checks| < MAX_TODO
         && (|checks| == 1 ==> NoWorkerParked(s) || WorkerParked(s, w))
       case Enter(t) => t < |s.threads| && s.threads[t].Entering?
       case Exec(t, _) => t < |s.threads| && s.threads[t].Running? && s.threads[t].done < |s.threads[t].batch|
       case Commit(t) => t < |s.threads| && s.threads[t].Running? && s.threads[t].done == |s.threads[t].batch|
       case Resume(t) => t < |s.threads| && s.threads[t].Woken?
       case Spurious(t) => t < |s.threads| && s.threads[t].Parked?
  }

  function Next(s: State, step: Step): State
    requires Enabled(s, step)
  {
    match step
    case Call => s.(threads := s.threads[0 := Entering])
    case Add(checks, w) => AddChecks(s, checks, w)
    case Enter(t) => LoopHead(s.(nTotal := s.nTotal + 1, threads := s.threads[t := Locked]), t)
    case Exec(t, result) => ExecOne(s, t, result)
    case Commit(t) => LoopHead(CommitBatch(s, t), t)
    case Resume(t) => LoopHead(s.(nIdle := s.nIdle - 1, threads := s.threads[t := Locked]), t)
    case Spurious(t) => s.(threads := s.threads[t := Woken])
  }

  function AddChecks(s: State, checks: seq<Check>, w: nat): State {
    s.(queue := s.queue + checks, nTodo := s.nTodo + |checks|, added := s.added + multiset(checks),
       threads :=
         if |checks| == 1 then (if WorkerParked(s, w) then s.threads[w := Woken] else s.threads)
         else if |checks| > 1 then NotifyAllWorkers(s.threads)
         else s.threads)
  }

  /** The next check of a batch: evaluated while nothing has failed, skipped afterwards. */
  function ExecOne(s: State, t: nat, result: bool): State
    requires Enabled(s, Exec(t, result))
  {
    var p := s.threads[t];
    var c := p.batch[p.done];
    if !p.ok then
      s.(threads := s.threads[t := p.(done := p.done + 1)], skipped := s.skipped + multiset{c})
    else if result then
      s.(threads := s.threads[t := p.(done := p.done + 1)], passed := s.passed + multiset{c})
    else
      s.(threads := s.threads[t := p.(done := p.done + 1, ok := false)], failed := s.failed + multiset{c})
  }

  function CommitBatch(s: State, t: nat): State
    requires Enabled(s, Commit(t))
  {
    var p := s.threads[t];
    var todo := s.nTodo - |p.batch|;
    var threads := s.threads[t := Locked];
    s.(fAllOk := s.fAllOk && p.ok, nTodo := todo,
       threads := if todo == 0 && t != 0 then NotifyMaster(threads) else threads)
  }

  // ---------------------------------------------------------------- runs

  predicate CanRun(s: State, steps: seq<Step>)
    decreases |steps|
  {
    steps == [] || (Enabled(s, steps[0]) && CanRun(Next(s, steps[0]), steps[1..]))
  }

  function Run(s: State, steps: seq<Step>): State
    requires CanRun(s, steps)
    decreases |steps|
  {
    if steps == [] then s else Run(Next(s, steps[0]), steps[1..])
  }

  // ---------------------------------------------------------------- sums over threads

  function Sum(f: Phase -> int, threads: seq<Phase>): int {
    if threads == [] then 0 else f(threads[0]) + Sum(f, threads[1..])
  }

  function Size(p: Phase): int { if p.Running? then |p.batch| else 0 }
  function Idle(p: Phase): int { if p.Parked? || p.Woken? then 1 else 0 }
  function Joined(p: Phase): int { if p.Outside? || p.Entering? then 0 else 1 }

  /** How often a check occurs in the part of a batch that has not been reached yet. */
  function Rest(c: Check): Phase -> int {
    (p: Phase) => if p.Running? && p.done <= |p.batch| then multiset(p.batch[p.done..])[c] else 0
  }

  lemma {:induction false} SumUpdate(f: Phase -> int, threads: seq<Phase>, t: nat, p: Phase)
    requires t < |threads|
    ensures Sum(f, threads[t := p]) == Sum(f, threads) - f(threads[t]) + f(p)
  {
    if t == 0 {
      assert threads[t := p][1..] == threads[1..];
    } else {
      SumUpdate(f, threads[1..], t - 1, p);
      assert threads[t := p][1..] == threads[1..][t - 1 := p];
    }
  }

  /** Notifications move threads between Parked and Woken only. */
  predicate SameButWoken(a: seq<Phase>, b: seq<Phase>) {
    && |a| == |b|
    && forall i :: 0 <= i < |a| ==> a[i] == b[i] || (a[i].Parked? && b[i].Woken?)
  }

  lemma {:induction false} WakingKeepsSum(f: Phase -> int, a: seq<Phase>, b: seq<Phase>)
    requires SameButWoken(a, b)
    requires f(Parked) == f(Woken)
    ensures Sum(f, a) == Sum(f, b)
  {
    if a != [] {
      assert a[0] == b[0] || (a[0].Parked? && b[0].Woken?);
      forall i | 0 <= i < |a| - 1
        ensures a[1..][i] == b[1..][i] || (a[1..][i].Parked? && b[1..][i].Woken?)
      {
        assert a[i + 1] == b[i + 1] || (a[i + 1].Parked? && b[i + 1].Woken?);
      }
      WakingKeepsSum(f, a[1..], b[1..]);
    }
  }

  /** A sum of non-negative terms is non-negative, and bounds each of its terms. */
  lemma {:induction false} SumBounds(f: Phase -> int, threads: seq<Phase>, t: nat)
    requires forall p :: f(p) >= 0
    requires t < |threads|
    ensures Sum(f, threads) >= f(threads[t]) >= 0
  {
    if t > 0 { SumBounds(f, threads[1..], t - 1); }
    else if |threads| > 1 { SumBounds(f, threads[1..], 0); }
  }

  /** A positive sum has a positive term. */
  lemma {:induction false} SumWitness(f: Phase -> int, threads: seq<Phase>) returns (t: nat)
    requires Sum(f, threads) > 0
    ensures t < |threads| && f(threads[t]) > 0
  {
    if f(threads[0]) > 0 {
      t := 0;
    } else {
      t := SumWitness(f, threads[1..]);
      t := t + 1;
    }
  }

  lemma {:induction false} SumInit(f: Phase -> int, workers: nat)
    requires f(Entering) == 0
    ensures Sum(f, seq(workers, i => Entering)) == 0
  {
    if workers > 0 {
      SumInit(f, workers - 1);
      assert seq(workers, i => Entering)[1..] == seq(workers - 1, i => Entering);
    }
  }

  // ---------------------------------------------------------------- the invariant

  predicate GoodPhase(p: Phase, t: nat) {
    && (p.Outside? ==> t == 0)
    && (p.Running? ==> 1 <= |p.batch| && p.done <= |p.batch|)
  }

  predicate GoodPhases(threads: seq<Phase>) {
    forall t: nat :: t < |threads| ==> GoodPhase(threads[t], t)
  }

  /** Some batch in progress has already seen a failure. */
  predicate LocalFailure(threads: seq<Phase>) {
    exists t: nat :: t < |threads| && threads[t].Running? && !threads[t].ok
  }

  /** Every occurrence of a check added since the last Wait is queued, in an
      unreached part of a batch, or already passed, failed or skipped. */
  predicate Balanced(s: State, c: Check) {
    s.added[c] == multiset(s.queue)[c] + Sum(Rest(c), s.threads) + s.passed[c] + s.failed[c] + s.skipped[c]
  }

  ghost predicate Conserved(s: State) {
    forall c: Check :: Balanced(s, c)
  }

  /** A failure is always still visible to the final verdict, and only a failure is. */
  predicate VerdictExact(s: State) {
    && (s.failed != multiset{} <==> !s.fAllOk || LocalFailure(s.threads))
    && (s.skipped != multiset{} ==> s.failed != multiset{})
  }

  predicate Counters(s: State) {
    && s.nTodo == |s.queue| + Sum(Size, s.threads)
    && s.nIdle == Sum(Idle, s.threads)
    && s.nTotal == Sum(Joined, s.threads)
  }

  /** A parked master has work to wait for, and none of it is in the queue. */
  predicate MasterWaits(s: State)
    requires |s.threads| > 0
  {
    s.threads[0].Parked? ==> s.queue == [] && s.nTodo > 0
  }

  /** Wait returned true exactly when every check added for it ran once and returned true. */
  predicate TrueVerdict(v: Session) {
    && v.added == v.passed + v.failed + v.skipped
    && (v.ret <==> v.passed == v.added)
  }

  ghost predicate Core(s: State) {
    && |s.threads| > 0
    && GoodPhases(s.threads)
    && Counters(s)
    && Conserved(s)
    && VerdictExact(s)
    && MasterWaits(s)
    && forall i :: 0 <= i < |s.sessions| ==> TrueVerdict(s.sessions[i])
  }

  /** Between steps nobody holds the mutex. */
  ghost predicate Inv(s: State) {
    Core(s) && forall t: nat :: t < |s.threads| ==> !s.threads[t].Locked?
  }

  lemma InitInv(workers: nat, nBatchSize: nat)
    ensures Inv(Init(workers, nBatchSize))
  {
    var s := Init(workers, nBatchSize);
    assert s.threads[1..] == seq(workers, i => Entering);
    SumInit(Size, workers);
    SumInit(Idle, workers);
    SumInit(Joined, workers);
    forall c: Check ensures Balanced(s, c) { SumInit(Rest(c), workers); }
  }

  /** The divisor of the batch size is the source's own sum. */
  lemma DivisorIsSum(s: State)
    requires Core(s)
    ensures Divisor(s) == s.nTotal + s.nIdle + 1
  {
    SumBounds(Idle, s.threads, 0);
    SumBounds(Joined, s.threads, 0);
  }

  // ---------------------------------------------------------------- LoopHead keeps the invariant

  lemma SuffixSplits(q: seq<Check>, n: nat)
    requires n <= |q|
    ensures multiset(q) == multiset(q[..|q| - n]) + multiset(Suffix(q, n))
  {
    if n == 0 {
      assert q[..|q|] == q;
    } else {
      SuffixSplits(q, n - 1);
      var k := |q| - n;
      assert q[..k + 1] == q[..k] + [q[k]];
      assert Suffix(q, n) == Suffix(q, n - 1) + [q[k]];
    }
  }

  lemma SumsAfter(s: State, t: nat, p: Phase)
    requires t < |s.threads|
    ensures Sum(Size, s.threads[t := p]) == Sum(Size, s.threads) - Size(s.threads[t]) + Size(p)
    ensures Sum(Idle, s.threads[t := p]) == Sum(Idle, s.threads) - Idle(s.threads[t]) + Idle(p)
    ensures Sum(Joined, s.threads[t := p]) == Sum(Joined, s.threads) - Joined(s.threads[t]) + Joined(p)
  {
    SumUpdate(Size, s.threads, t, p);
    SumUpdate(Idle, s.threads, t, p);
    SumUpdate(Joined, s.threads, t, p);
  }

  lemma AllDone(s: State)
    requires Core(s)
    requires s.queue == [] && s.nTodo == 0
    ensures forall t: nat :: t < |s.threads| ==> !s.threads[t].Running?
  {
    forall t: nat | t < |s.threads|
      ensures !s.threads[t].Running?
    {
      SumBounds(Size, s.threads, t);
      assert GoodPhase(s.threads[t], t);
    }
  }

  lemma {:induction false} NothingUnreached(threads: seq<Phase>, c: Check)
    requires forall t: nat :: t < |threads| ==> !threads[t].Running?
    ensures Sum(Rest(c), threads) == 0
  {
    if threads != [] { NothingUnreached(threads[1..], c); }
  }

  /** Replacing a thread outside a batch by one outside a batch. */
  lemma StillConserved(s: State, r: State, t: nat, p: Phase)
    requires Conserved(s)
    requires t < |s.threads| && !p.Running?
    requires s.threads[t].Running? ==> s.threads[t].done == |s.threads[t].batch|
    requires r.threads == s.threads[t := p]
    requires r.queue == s.queue && r.added == s.added
    requires r.passed == s.passed && r.failed == s.failed && r.skipped == s.skipped
    ensures Conserved(r)
  {
    forall c: Check ensures Balanced(r, c) {
      assert Balanced(s, c);
      SumUpdate(Rest(c), s.threads, t, p);
    }
  }

  lemma ReturnVerdict(s: State)
    requires Core(s)
    requires s.queue == [] && s.nTodo == 0
    ensures TrueVerdict(Session(s.fAllOk, s.added, s.passed, s.failed, s.skipped))
  {
    AllDone(s);
    assert !LocalFailure(s.threads);
    forall c: Check ensures s.added[c] == s.passed[c] + s.failed[c] + s.skipped[c] {
      assert Balanced(s, c);
      NothingUnreached(s.threads, c);
    }
    assert s.added == s.passed + s.failed + s.skipped;
    if s.failed != multiset{} {
      var c :| c in s.failed;
      assert s.added[c] > s.passed[c];
    }
  }

  lemma LoopHeadReturns(s: State)
    requires Core(s)
    requires s.threads[0].Locked?
    requires s.queue == [] && s.nTodo == 0
    ensures Core(LoopHead(s, 0))
  {
    AllDone(s);
    ReturnVerdict(s);
    var r := LoopHead(s, 0);
    assert Counters(r) by { SumsAfter(s, 0, Outside); }
    assert Conserved(r) by {
      forall c: Check ensures Balanced(r, c) { NothingUnreached(r.threads, c); }
    }
    assert !LocalFailure(r.threads);
  }

  lemma LoopHeadParks(s: State, t: nat)
    requires Core(s)
    requires t < |s.threads| && s.threads[t].Locked?
    requires s.queue == [] && (t != 0 || s.nTodo != 0)
    ensures Core(LoopHead(s, t))
  {
    var r := LoopHead(s, t);
    assert Counters(r) by { SumsAfter(s, t, Parked); }
    StillConserved(s, r, t, Parked);
    SameFailures(s.threads, t, Parked);
    SumNonNegative(Size, s.threads);
  }

  lemma {:induction false} SumNonNegative(f: Phase -> int, threads: seq<Phase>)
    requires forall p :: f(p) >= 0
    ensures Sum(f, threads) >= 0
  {
    if threads != [] { SumBounds(f, threads, 0); }
  }

  /** Replacing a thread by one with the same failure status. */
  lemma SameFailures(threads: seq<Phase>, t: nat, p: Phase)
    requires t < |threads|
    requires (threads[t].Running? && !threads[t].ok) == (p.Running? && !p.ok)
    ensures LocalFailure(threads[t := p]) == LocalFailure(threads)
  {
    var r := threads[t := p];
    if LocalFailure(threads) {
      var k: nat :| k < |threads| && threads[k].Running? && !threads[k].ok;
      assert r[k].Running? && !r[k].ok;
    }
    if LocalFailure(r) {
      var k: nat :| k < |r| && r[k].Running? && !r[k].ok;
      assert threads[k].Running? && !threads[k].ok;
    }
  }

  lemma LoopHeadTakes(s: State, t: nat)
    requires Core(s)
    requires t < |s.threads| && s.threads[t].Locked?
    requires s.queue != []
    ensures Core(LoopHead(s, t))
  {
    var r := LoopHead(s, t);
    var p := r.threads[t];
    assert r.threads == s.threads[t := p];
    SumsAfter(s, t, p);
    TakeConserves(s, r, t);
    if s.fAllOk { SameFailures(s.threads, t, p); }
    assert r.threads[t].Running? && (!s.fAllOk ==> !r.threads[t].ok);
    assert !s.threads[0].Parked?;
  }

  lemma TakeConserves(s: State, r: State, t: nat)
    requires Core(s)
    requires t < |s.threads| && s.threads[t].Locked?
    requires s.queue != [] && r == LoopHead(s, t)
    ensures Conserved(r)
  {
    var p := r.threads[t];
    assert p.batch[0..] == p.batch;
    SuffixSplits(s.queue, |p.batch|);
    forall c: Check ensures Balanced(r, c) {
      assert Balanced(s, c);
      SumUpdate(Rest(c), s.threads, t, p);
      assert r.threads == s.threads[t := p];
    }
  }

  lemma LoopHeadKeeps(s: State, t: nat)
    requires Core(s)
    requires t < |s.threads| && s.threads[t].Locked?
    ensures Core(LoopHead(s, t))
  {
    if s.queue != [] { LoopHeadTakes(s, t); }
    else if t == 0 && s.nTodo == 0 { LoopHeadReturns(s); }
    else { LoopHeadParks(s, t); }
  }

  predicate OnlyLocked(threads: seq<Phase>, t: nat) {
    forall k: nat :: k < |threads| && k != t ==> !threads[k].Locked?
  }

  lemma LoopHeadInv(s: State, t: nat)
    requires Core(s)
    requires t < |s.threads| && s.threads[t].Locked?
    requires OnlyLocked(s.threads, t)
    ensures Inv(LoopHead(s, t))
  {
    LoopHeadKeeps(s, t);
    var r := LoopHead(s, t);
    assert r.threads == s.threads[t := r.threads[t]] && !r.threads[t].Locked?;
  }

  /** Who is woken when checks are added: everyone for several, one parked worker for a
      single one, and nobody for none. */
  lemma AddWakes(s: State, checks: seq<Check>, w: nat)
    requires Enabled(s, Add(checks, w))
    ensures var r := Next(s, Add(checks, w));
            && r.queue == s.queue + checks && r.nTodo == s.nTodo + |checks| && |r.threads| == |s.threads|
            && (|checks| > 1 ==> NoWorkerParked(r) && forall i :: 0 <= i < |s.threads| ==>
                  r.threads[i] == if WorkerParked(s, i) then Woken else s.threads[i])
            && (|checks| == 1 && !NoWorkerParked(s) ==> s.threads[w].Parked? && w > 0 && r.threads == s.threads[w := Woken])
            && (|checks| == 1 && NoWorkerParked(s) ==> r.threads == s.threads)
            && (|checks| == 0 ==> r.threads == s.threads)
  {
    var r := Next(s, Add(checks, w));
    if |checks| > 1 {
      forall i | 0 <= i < |s.threads|
        ensures !WorkerParked(r, i) && r.threads[i] == if WorkerParked(s, i) then Woken else s.threads[i]
      {
      }
    }
  }

  // ---------------------------------------------------------------- every step keeps the invariant

  lemma CallKeeps(s: State)
    requires Inv(s) && Enabled(s, Call)
    ensures Inv(Next(s, Call))
  {
    SumsAfter(s, 0, Entering);
    StillConserved(s, Next(s, Call), 0, Entering);
    SameFailures(s.threads, 0, Entering);
  }

  lemma WakingKeepsFailures(a: seq<Phase>, b: seq<Phase>)
    requires SameButWoken(a, b)
    ensures LocalFailure(a) == LocalFailure(b)
  {
  }

  lemma WakingKeepsCounts(a: seq<Phase>, b: seq<Phase>)
    requires SameButWoken(a, b)
    ensures Sum(Size, a) == Sum(Size, b)
    ensures Sum(Idle, a) == Sum(Idle, b)
    ensures Sum(Joined, a) == Sum(Joined, b)
    ensures LocalFailure(a) == LocalFailure(b)
  {
    WakingKeepsSum(Size, a, b);
    WakingKeepsSum(Idle, a, b);
    WakingKeepsSum(Joined, a, b);
    WakingKeepsFailures(a, b);
  }

  lemma AddConserves(s: State, checks: seq<Check>, w: nat)
    requires Conserved(s)
    requires SameButWoken(s.threads, AddChecks(s, checks, w).threads)
    ensures Conserved(AddChecks(s, checks, w))
  {
    var r := AddChecks(s, checks, w);
    forall c: Check ensures Balanced(r, c) {
      assert Balanced(s, c);
      WakingKeepsSum(Rest(c), s.threads, r.threads);
    }
  }

  lemma AddKeeps(s: State, checks: seq<Check>, w: nat)
    requires Inv(s) && Enabled(s, Add(checks, w))
    ensures Inv(Next(s, Add(checks, w)))
  {
    var r := Next(s, Add(checks, w));
    assert SameButWoken(s.threads, r.threads);
    WakingKeepsCounts(s.threads, r.threads);
    AddConserves(s, checks, w);
    assert r.threads[0] == s.threads[0];
  }

  lemma EnterCore(s: State, t: nat)
    requires Inv(s) && Enabled(s, Enter(t))
    ensures Core(s.(nTotal := s.nTotal + 1, threads := s.threads[t := Locked]))
  {
    var m := s.(nTotal := s.nTotal + 1, threads := s.threads[t := Locked]);
    assert Counters(m) by { SumsAfter(s, t, Locked); }
    StillConserved(s, m, t, Locked);
    assert VerdictExact(m) by { SameFailures(s.threads, t, Locked); }
  }

  lemma EnterKeeps(s: State, t: nat)
    requires Inv(s) && Enabled(s, Enter(t))
    ensures Inv(Next(s, Enter(t)))
  {
    var m := s.(nTotal := s.nTotal + 1, threads := s.threads[t := Locked]);
    assert Core(m) by { EnterCore(s, t); }
    assert Inv(LoopHead(m, t)) by { LoopHeadInv(m, t); }
  }

  lemma ResumeCore(s: State, t: nat)
    requires Inv(s) && Enabled(s, Resume(t))
    ensures Core(s.(nIdle := s.nIdle - 1, threads := s.threads[t := Locked]))
  {
    var m := s.(nIdle := s.nIdle - 1, threads := s.threads[t := Locked]);
    assert Counters(m) by { SumsAfter(s, t, Locked); }
    StillConserved(s, m, t, Locked);
    assert VerdictExact(m) by { SameFailures(s.threads, t, Locked); }
  }

  lemma ResumeKeeps(s: State, t: nat)
    requires Inv(s) && Enabled(s, Resume(t))
    ensures Inv(Next(s, Resume(t)))
  {
    var m := s.(nIdle := s.nIdle - 1, threads := s.threads[t := Locked]);
    ResumeCore(s, t);
    LoopHeadInv(m, t);
  }

  lemma SpuriousKeeps(s: State, t: nat)
    requires Inv(s) && Enabled(s, Spurious(t))
    ensures Inv(Next(s, Spurious(t)))
  {
    var r := Next(s, Spurious(t));
    assert SameButWoken(s.threads, r.threads);
    WakingKeepsCounts(s.threads, r.threads);
    StillConserved(s, r, t, Woken);
  }

  lemma ExecRest(p: Phase, p': Phase, c: Check)
    requires p.Running? && p.done < |p.batch|
    requires p'.Running? && p'.batch == p.batch && p'.done == p.done + 1
    ensures Rest(c)(p) == Rest(c)(p') + (if c == p.batch[p.done] then 1 else 0)
  {
    assert p.batch[p.done..] == [p.batch[p.done]] + p.batch[p.done + 1..];
  }

  lemma ExecConserves(s: State, t: nat, result: bool)
    requires Inv(s) && Enabled(s, Exec(t, result))
    ensures Conserved(ExecOne(s, t, result))
  {
    var r := ExecOne(s, t, result);
    var p, p' := s.threads[t], r.threads[t];
    forall c: Check ensures Balanced(r, c) {
      assert Balanced(s, c);
      assert r.threads == s.threads[t := p'];
      SumUpdate(Rest(c), s.threads, t, p');
      ExecRest(p, p', c);
    }
  }

  lemma ExecVerdict(s: State, t: nat, result: bool)
    requires Inv(s) && Enabled(s, Exec(t, result))
    ensures VerdictExact(Next(s, Exec(t, result)))
  {
    var r := Next(s, Exec(t, result));
    var p, p' := s.threads[t], r.threads[t];
    assert r.threads == s.threads[t := p'];
    if p.ok == p'.ok {
      SameFailures(s.threads, t, p');
    }
    if !p.ok { assert LocalFailure(s.threads); }
    if !p'.ok { assert r.threads[t].Running? && !r.threads[t].ok; assert LocalFailure(r.threads); }
  }

  lemma ExecPhases(s: State, t: nat, result: bool)
    requires Inv(s) && Enabled(s, Exec(t, result))
    ensures var r := ExecOne(s, t, result);
            && GoodPhases(r.threads) && Counters(r) && MasterWaits(r)
            && forall k: nat :: k < |r.threads| ==> !r.threads[k].Locked?
  {
    var r := ExecOne(s, t, result);
    assert r.threads == s.threads[t := r.threads[t]];
    assert GoodPhase(s.threads[t], t);
    SumsAfter(s, t, r.threads[t]);
  }

  lemma ExecKeeps(s: State, t: nat, result: bool)
    requires Inv(s) && Enabled(s, Exec(t, result))
    ensures Inv(Next(s, Exec(t, result)))
  {
    var r := Next(s, Exec(t, result));
    assert Conserved(r) by { ExecConserves(s, t, result); }
    assert VerdictExact(r) by { ExecVerdict(s, t, result); }
    ExecPhases(s, t, result);
    assert r.sessions == s.sessions;
  }

  lemma CommitVerdict(s: State, t: nat)
    requires Inv(s) && Enabled(s, Commit(t))
    ensures VerdictExact(CommitBatch(s, t))
  {
    var m := CommitBatch(s, t);
    var mid := s.threads[t := Locked];
    assert SameButWoken(mid, m.threads);
    WakingKeepsFailures(mid, m.threads);
    if s.threads[t].ok { SameFailures(s.threads, t, Locked); }
    else {
      assert LocalFailure(s.threads);
    }
  }

  lemma CommitConserves(s: State, t: nat)
    requires Inv(s) && Enabled(s, Commit(t))
    ensures Conserved(CommitBatch(s, t))
  {
    var m := CommitBatch(s, t);
    var mid := s.(threads := s.threads[t := Locked]);
    StillConserved(s, mid, t, Locked);
    assert SameButWoken(mid.threads, m.threads);
    forall c: Check ensures Balanced(m, c) {
      assert Balanced(mid, c);
      WakingKeepsSum(Rest(c), mid.threads, m.threads);
    }
  }

  lemma CommitCore(s: State, t: nat)
    requires Inv(s) && Enabled(s, Commit(t))
    ensures Core(CommitBatch(s, t)) && CommitBatch(s, t).threads[t].Locked?
    ensures OnlyLocked(CommitBatch(s, t).threads, t)
  {
    var m := CommitBatch(s, t);
    var mid := s.threads[t := Locked];
    assert GoodPhase(s.threads[t], t);
    SumsAfter(s, t, Locked);
    assert SameButWoken(mid, m.threads);
    WakingKeepsCounts(mid, m.threads);
    CommitConserves(s, t);
    CommitVerdict(s, t);
    SumNonNegative(Size, mid);
  }

  lemma CommitKeeps(s: State, t: nat)
    requires Inv(s) && Enabled(s, Commit(t))
    ensures Inv(Next(s, Commit(t)))
  {
    CommitCore(s, t);
    LoopHeadInv(CommitBatch(s, t), t);
  }

  lemma NextKeeps(s: State, step: Step)
    requires Inv(s) && Enabled(s, step)
    ensures Inv(Next(s, step))
  {
    match step
    case Call => CallKeeps(s);
    case Add(checks, w) => AddKeeps(s, checks, w);
    case Enter(t) => EnterKeeps(s, t);
    case Exec(t, result) => ExecKeeps(s, t, result);
    case Commit(t) => CommitKeeps(s, t);
    case Resume(t) => ResumeKeeps(s, t);
    case Spurious(t) => SpuriousKeeps(s, t);
  }

  lemma {:induction false} RunKeeps(s: State, steps: seq<Step>)
    requires Inv(s) && CanRun(s, steps)
    ensures Inv(Run(s, steps))
    decreases |steps|
  {
    if steps != [] {
      NextKeeps(s, steps[0]);
      RunKeeps(Next(s, steps[0]), steps[1..]);
    }
  }

  // ---------------------------------------------------------------- main results

  /** Safety: in every interleaving the counters are exact and no check is lost
      or duplicated, and every Wait that returned gave the exact verdict on the
      checks added since the Wait before it. */
  lemma EveryRunIsSafe(workers: nat, nBatchSize: nat, steps: seq<Step>)
    requires CanRun(Init(workers, nBatchSize), steps)
    ensures var s := Run(Init(workers, nBatchSize), steps);
            && s.nTodo == |s.queue| + Sum(Size, s.threads)
            && s.nIdle == Sum(Idle, s.threads)
            && s.nTotal == Sum(Joined, s.threads)
            && Conserved(s)
            && forall i :: 0 <= i < |s.sessions| ==> TrueVerdict(s.sessions[i])
  {
    InitInv(workers, nBatchSize);
    RunKeeps(Init(workers, nBatchSize), steps);
  }

  predicate MasterParked(s: State) { |s.threads| > 0 && s.threads[0].Parked? }
  predicate MasterOutside(s: State) { |s.threads| > 0 && s.threads[0].Outside? }

  /** No wake-up is lost: while the master is parked the queue is empty, work is
      outstanding, and a worker holds an uncommitted batch. */
  lemma NoLostWakeup(workers: nat, nBatchSize: nat, steps: seq<Step>) returns (w: nat)
    requires CanRun(Init(workers, nBatchSize), steps)
    requires MasterParked(Run(Init(workers, nBatchSize), steps))
    ensures var s := Run(Init(workers, nBatchSize), steps);
            && s.queue == [] && s.nTodo > 0
            && 0 < w < |s.threads| && s.threads[w].Running? && |s.threads[w].batch| > 0
  {
    var s := Run(Init(workers, nBatchSize), steps);
    InitInv(workers, nBatchSize);
    RunKeeps(Init(workers, nBatchSize), steps);
    w := SumWitness(Size, s.threads);
  }

  /** The commit that empties the work list wakes a parked master. */
  lemma LastCommitNotifies(s: State, t: nat)
    requires Inv(s) && Enabled(s, Commit(t))
    requires s.threads[0].Parked? && s.nTodo == |s.threads[t].batch|
    ensures Next(s, Commit(t)).threads[0].Woken?
  {
    assert GoodPhase(s.threads[t], t);
  }

  // ---------------------------------------------------------------- Wait terminates

  predicate Internal(step: Step) {
    step.Enter? || step.Exec? || step.Commit? || step.Resume?
  }

  function Cost(p: Phase): int {
    match p
    case Outside => 0
    case Parked => 0
    case Locked => 1
    case Woken => 1
    case Entering => 1
    case Running(batch, done, _) => if done <= |batch| then |batch| - done + 3 else 0
  }

  /** A bound on the number of internal steps that can still happen. */
  function Potential(s: State): int {
    5 * |s.queue| + Sum(Cost, s.threads)
  }

  lemma LoopHeadPays(s: State, t: nat)
    requires t < |s.threads| && s.threads[t].Locked?
    ensures Potential(LoopHead(s, t)) < Potential(s)
  {
    var r := LoopHead(s, t);
    SumUpdate(Cost, s.threads, t, r.threads[t]);
    assert r.threads == s.threads[t := r.threads[t]];
  }

  lemma CommitPays(s: State, t: nat)
    requires Inv(s) && Enabled(s, Commit(t))
    ensures Potential(CommitBatch(s, t)) < Potential(s)
    ensures CommitBatch(s, t).threads[t].Locked?
  {
    var m := CommitBatch(s, t);
    var mid := s.threads[t := Locked];
    SumUpdate(Cost, s.threads, t, Locked);
    if m.threads != mid {
      SumUpdate(Cost, mid, 0, Woken);
      assert m.threads == mid[0 := Woken];
    }
  }

  lemma ExecPays(s: State, t: nat, result: bool)
    requires Enabled(s, Exec(t, result))
    ensures Potential(ExecOne(s, t, result)) < Potential(s)
  {
    var r := ExecOne(s, t, result);
    SumUpdate(Cost, s.threads, t, r.threads[t]);
    assert r.threads == s.threads[t := r.threads[t]];
  }

  lemma EnterPays(s: State, t: nat)
    requires Enabled(s, Enter(t)) || Enabled(s, Resume(t))
    ensures Sum(Cost, s.threads[t := Locked]) == Sum(Cost, s.threads)
  {
    SumUpdate(Cost, s.threads, t, Locked);
  }

  lemma InternalPays(s: State, step: Step)
    requires Inv(s) && Enabled(s, step) && Internal(step)
    ensures Potential(Next(s, step)) < Potential(s)
  {
    match step
    case Enter(t) =>
      EnterPays(s, t);
      LoopHeadPays(s.(nTotal := s.nTotal + 1, threads := s.threads[t := Locked]), t);
    case Resume(t) =>
      EnterPays(s, t);
      LoopHeadPays(s.(nIdle := s.nIdle - 1, threads := s.threads[t := Locked]), t);
    case Exec(t, result) =>
      ExecPays(s, t, result);
    case Commit(t) =>
      CommitPays(s, t);
      LoopHeadPays(CommitBatch(s, t), t);
  }

  /** While the master is inside Wait some internal step can always be taken. */
  lemma WaitIsNeverStuck(s: State) returns (step: Step)
    requires Inv(s) && !s.threads[0].Outside?
    ensures Internal(step) && Enabled(s, step)
  {
    var t: nat := 0;
    if s.threads[0].Parked? {
      t := SumWitness(Size, s.threads);
    }
    var p := s.threads[t];
    assert GoodPhase(p, t);
    match p
    case Entering => step := Enter(t);
    case Woken => step := Resume(t);
    case Running(batch, done, _) => if done < |batch| { step := Exec(t, true); } else { step := Commit(t); }
  }

  /** What can happen while the master is inside Wait: the threads of the pool take steps,
      and parked ones wake up for no reason. */
  predicate PoolStep(step: Step) { Internal(step) || step.Spurious? }

  predicate PoolSteps(steps: seq<Step>) { forall i :: 0 <= i < |steps| ==> PoolStep(steps[i]) }

  function Wakes(steps: seq<Step>): (n: nat)
    ensures n <= |steps|
  {
    if steps == [] then 0 else (if steps[0].Spurious? then 1 else 0) + Wakes(steps[1..])
  }

  /** No step of the pool is left. */
  ghost predicate Stuck(s: State) { forall step :: Internal(step) ==> !Enabled(s, step) }

  lemma PoolStepPays(s: State, step: Step)
    requires Inv(s) && Enabled(s, step) && PoolStep(step)
    ensures if step.Spurious? then Potential(Next(s, step)) == Potential(s) + 1 else Potential(Next(s, step)) < Potential(s)
  {
    if step.Spurious? { SumUpdate(Cost, s.threads, step.t, Woken); } else { InternalPays(s, step); }
  }

  /** Termination of Wait: whatever the schedule, the steps that are no spurious wake-ups
      are at most Potential(s) and one more for each of those; and they stop only with the
      master out of Wait. */
  lemma {:induction false} WaitTerminates(s: State, steps: seq<Step>)
    requires Inv(s) && CanRun(s, steps) && PoolSteps(steps)
    ensures |steps| - Wakes(steps) <= Potential(s) + Wakes(steps)
    ensures Stuck(Run(s, steps)) ==> MasterOutside(Run(s, steps))
    decreases |steps|
  {
    if steps == [] {
      SumNonNegative(Cost, s.threads);
      if !s.threads[0].Outside? {
        var step := WaitIsNeverStuck(s);
      }
    } else {
      PoolStepPays(s, steps[0]);
      NextKeeps(s, steps[0]);
      WaitTerminates(Next(s, steps[0]), steps[1..]);
    }
  }

  /** The same for every state that any run reaches. */
  lemma EveryWaitTerminates(workers: nat, nBatchSize: nat, before: seq<Step>, steps: seq<Step>)
    requires CanRun(Init(workers, nBatchSize), before)
    requires CanRun(Run(Init(workers, nBatchSize), before), steps) && PoolSteps(steps)
    ensures var s := Run(Init(workers, nBatchSize), before);
            && |steps| - Wakes(steps) <= Potential(s) + Wakes(steps)
            && (Stuck(Run(s, steps)) ==> MasterOutside(Run(s, steps)))
  {
    InitInv(workers, nBatchSize);
    RunKeeps(Init(workers, nBatchSize), before);
    WaitTerminates(Run(Init(workers, nBatchSize), before), steps);
  }

  // ---------------------------------------------------------------- the loops of the critical sections

  /** Which workers Add notifies. */
  datatype Notice = Nobody | OneWorker | AllWorkers

  /** How a critical section of Loop ends. */
  datatype Outcome = Returns(ret: bool) | Waits | Runs(vChecks: seq<Check>, fOk: bool)

  /** The fields guarded by the mutex, and the pieces of Loop and Add that work on them.
      Each is tied to the step of the protocol that it takes. */
  class SharedQueue {
    var queue: seq<Check>
    var nIdle: int
    var nTotal: int
    var fAllOk: bool
    var nTodo: int
    const nBatchSize: nat

    constructor (nBatchSizeIn: nat)
      ensures queue == [] && nIdle == 0 && nTotal == 0 && fAllOk && nTodo == 0 && nBatchSize == nBatchSizeIn
    {
      queue, nIdle, nTotal, fAllOk, nTodo := [], 0, 0, true, 0;
      nBatchSize := nBatchSizeIn;
    }

    /** These fields are the shared part of a protocol state. */
    ghost predicate Represents(s: State)
      reads this
    {
      && s.queue == queue && s.nIdle == nIdle && s.nTotal == nTotal
      && s.fAllOk == fAllOk && s.nTodo == nTodo && s.nBatchSize == nBatchSize
    }

    /** notify_one wakes `target` if that worker is parked. */
    method Add(vChecks: seq<Check>, ghost s: State, ghost target: nat) returns (notice: Notice)
      requires Represents(s)
      modifies `queue, `nTodo
      ensures Represents(AddChecks(s, vChecks, target))
      ensures queue == old(queue) + vChecks && nTodo == old(nTodo) + |vChecks|
      ensures notice == AllWorkers <==> |vChecks| > 1
      ensures notice == OneWorker <==> |vChecks| == 1
      ensures AddChecks(s, vChecks, target).threads ==
              match notice
              case Nobody => s.threads
              case OneWorker => if WorkerParked(s, target) then s.threads[target := Woken] else s.threads
              case AllWorkers => NotifyAllWorkers(s.threads)
    {
      for i := 0 to |vChecks|
        invariant queue == s.queue + vChecks[..i] && nTodo == s.nTodo
      {
        queue := queue + [vChecks[i]];
      }
      assert vChecks[..|vChecks|] == vChecks;
      nTodo := nTodo + |vChecks|;
      notice := if |vChecks| == 1 then OneWorker else if |vChecks| > 1 then AllWorkers else Nobody;
    }

    /** Lines 101 to 115: the batch a thread leaves the critical section with. */
    method TakeBatch(ghost s: State, ghost t: nat) returns (vChecks: seq<Check>, fOk: bool)
      requires Represents(s) && Core(s)
      requires queue != [] && t < |s.threads| && s.threads[t].Locked?
      modifies `queue
      ensures Represents(LoopHead(s, t))
      ensures LoopHead(s, t).threads[t] == Running(vChecks, 0, fOk)
      ensures nTotal + nIdle + 1 > 0 && |vChecks| == BatchSize(nBatchSize, |old(queue)|, nTotal + nIdle + 1) && fOk == fAllOk
      ensures queue == old(queue)[..|old(queue)| - |vChecks|]
      ensures forall k :: 0 <= k < |vChecks| ==> vChecks[k] == old(queue)[|old(queue)| - 1 - k]
    {
      DivisorIsSum(s);
      var nNow := BatchSize(nBatchSize, |queue|, nTotal + nIdle + 1);
      vChecks := [];
      for i := 0 to nNow
        invariant queue == s.queue[..|s.queue| - i]
        invariant |vChecks| == i && forall k :: 0 <= k < i ==> vChecks[k] == s.queue[|s.queue| - 1 - k]
      {
        vChecks := vChecks + [queue[|queue| - 1]];
        queue := queue[..|queue| - 1];
      }
      assert vChecks == Suffix(s.queue, nNow);
      fOk := fAllOk;
    }

    /** The clean-up after a batch; the result says whether the master is notified. */
    method Clean(nNow: nat, fOk: bool, fMaster: bool, ghost s: State, ghost t: nat) returns (notify: bool)
      requires Represents(s) && Enabled(s, Commit(t)) && fMaster == (t == 0)
      requires nNow == |s.threads[t].batch| && fOk == s.threads[t].ok
      modifies `fAllOk, `nTodo
      ensures Represents(CommitBatch(s, t))
      ensures fAllOk == (old(fAllOk) && fOk) && nTodo == old(nTodo) - nNow && (notify <==> nTodo == 0 && !fMaster)
      ensures var before := s.threads[t := Locked];
              CommitBatch(s, t).threads == if notify then NotifyMaster(before) else before
    {
      fAllOk := fAllOk && fOk;
      nTodo := nTodo - nNow;
      notify := nTodo == 0 && !fMaster;
    }

    /** From the head of the inner loop to the end of the critical section. */
    method Head(fMaster: bool, ghost s: State, ghost t: nat) returns (o: Outcome)
      requires Represents(s) && Core(s) && fMaster == (t == 0)
      requires t < |s.threads| && s.threads[t].Locked?
      modifies `queue, `nIdle, `nTotal, `fAllOk
      ensures Represents(LoopHead(s, t))
      ensures o.Returns? <==> old(queue) == [] && fMaster && nTodo == 0
      ensures o.Returns? ==> o.ret == old(fAllOk) && fAllOk && nTotal == old(nTotal) - 1 && nIdle == old(nIdle)
      ensures o.Waits? <==> old(queue) == [] && !(fMaster && nTodo == 0)
      ensures o.Waits? ==> nIdle == old(nIdle) + 1 && nTotal == old(nTotal) && fAllOk == old(fAllOk)
      ensures o.Runs? ==> nIdle == old(nIdle) && nTotal == old(nTotal) && fAllOk == old(fAllOk) == o.fOk
      ensures var r := LoopHead(s, t);
              match o
              case Returns(ret) => r.threads[t] == Outside && |r.sessions| == |s.sessions| + 1 && r.sessions[|s.sessions|].ret == ret
              case Waits => r.threads[t] == Parked
              case Runs(vChecks, fOk) => r.threads[t] == Running(vChecks, 0, fOk)
    {
      if queue == [] {
        if fMaster && nTodo == 0 {
          nTotal := nTotal - 1;
          var fRet := fAllOk;
          fAllOk := true;
          return Returns(fRet);
        }
        nIdle := nIdle + 1;
        return Waits;
      }
      var vChecks, fOk := TakeBatch(s, t);
      o := Runs(vChecks, fOk);
    }

    /** Run a batch outside the mutex; `check` gives the results of the checks. */
    static method Execute(vChecks: seq<Check>, ok: bool, check: Check -> bool, ghost s: State, ghost t: nat)
      returns (fOk: bool, ghost steps: seq<Step>, ghost r: State)
      requires t < |s.threads| && s.threads[t] == Running(vChecks, 0, ok)
      ensures Reaches(s, steps, r, t, Running(vChecks, |vChecks|, fOk))
      ensures fOk <==> ok && forall c :: c in vChecks ==> check(c)
    {
      fOk := ok;
      for i := 0 to |vChecks|
        invariant fOk == Verdict(vChecks, i, ok, check)
      {
        if fOk { fOk := check(vChecks[i]); }
      }
      VerdictAll(vChecks, |vChecks|, ok, check);
      steps, r := ExecAll(s, t, vChecks, |vChecks|, ok, check);
    }
  }

  /** A run to a state in which a thread is where it should be. */
  ghost predicate Reaches(s: State, steps: seq<Step>, r: State, t: nat, p: Phase) {
    CanRun(s, steps) && r == Run(s, steps) && t < |r.threads| && r.threads[t] == p
  }

  lemma ExecNext(s: State, steps: seq<Step>, r: State, t: nat, batch: seq<Check>, i: nat, ok: bool, result: bool, next: bool)
    returns (steps': seq<Step>, r': State)
    requires i < |batch| && Reaches(s, steps, r, t, Running(batch, i, ok)) && next == (ok && result)
    ensures Reaches(s, steps', r', t, Running(batch, i + 1, next))
  {
    var step := Exec(t, result);
    steps', r' := steps + [step], ExecOne(r, t, result);
    RunAppend(s, steps, step);
  }

  /** The verdict on the first n checks of a batch. */
  predicate Verdict(batch: seq<Check>, n: nat, ok: bool, check: Check -> bool)
    requires n <= |batch|
  {
    if n == 0 then ok else Verdict(batch, n - 1, ok, check) && check(batch[n - 1])
  }

  lemma {:induction false} VerdictAll(batch: seq<Check>, n: nat, ok: bool, check: Check -> bool)
    requires n <= |batch|
    ensures Verdict(batch, n, ok, check) <==> ok && forall k :: 0 <= k < n ==> check(batch[k])
  {
    if n > 0 { VerdictAll(batch, n - 1, ok, check); }
  }

  /** The steps of a thread that runs the first n checks of its batch. */
  lemma {:induction false} ExecAll(s: State, t: nat, batch: seq<Check>, n: nat, ok: bool, check: Check -> bool)
    returns (steps: seq<Step>, r: State)
    requires n <= |batch| && t < |s.threads| && s.threads[t] == Running(batch, 0, ok)
    ensures Reaches(s, steps, r, t, Running(batch, n, Verdict(batch, n, ok, check)))
    decreases n
  {
    steps, r := [], s;
    if n > 0 {
      steps, r := ExecAll(s, t, batch, n - 1, ok, check);
      steps, r := ExecNext(s, steps, r, t, batch, n - 1, Verdict(batch, n - 1, ok, check), check(batch[n - 1]), Verdict(batch, n, ok, check));
    }
  }

  /** One more step at the end of a run. */
  lemma {:induction false} RunAppend(s: State, steps: seq<Step>, step: Step)
    requires CanRun(s, steps) && Enabled(Run(s, steps), step)
    ensures CanRun(s, steps + [step]) && Run(s, steps + [step]) == Next(Run(s, steps), step)
    decreases |steps|
  {
    if steps == [] {
      assert [step][1..] == [];
    } else {
      RunAppend(Next(s, steps[0]), steps[1..], step);
      assert (steps + [step])[1..] == steps[1..] + [step];
    }
  }
}
