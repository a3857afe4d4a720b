/**
 The verification queue: src/checkqueue.h.

 One master adds checks and then joins the workers until all checks are done.  All
 shared state changes inside critical sections of one mutex, so a run is a sequence of
 such sections, in any order that the threads and the scheduler choose.  A section ends
 when its thread goes to sleep on a condition variable, returns, or leaves with a batch
 to execute.  The class at the end performs the sections on its own fields; the functions
 before it say what each section does, and the state machine in between runs them.
 */
module CheckQueue {
  import opened Sequences

  /** The fields that the mutex protects. */
  datatype Shared<T> = Shared(queue: seq<T>, nIdle: int, nTotal: int, fAllOk: bool, nTodo: int, nBatchSize: nat)

  /** How a critical section ends for its thread. */
  datatype Outcome<T> = Sleep | Return(ok: bool) | Work(batch: seq<T>, fOk: bool)

  datatype Section<T> = Section(shared: Shared<T>, outcome: Outcome<T>)

  /** The number of checks to take: smaller batches towards the end, at least one, at most a full batch.  Unless it is
      one, there are enough checks to take as many again for every thread that is counted, and it is the greatest such
      number. */
  function BatchSize(size: nat, nTotal: int, nIdle: int, nBatchSize: nat): (n: nat)
    requires size > 0 && nTotal + nIdle >= 0
    ensures 1 <= n <= size
    ensures n == 1 || (n <= nBatchSize && n * (nTotal + nIdle + 1) <= size)
    ensures n >= nBatchSize || (n + 1) * (nTotal + nIdle + 1) > size
  {
    var share := size / (nTotal + nIdle + 1);
    ShareBounds(size, nTotal + nIdle + 1, nBatchSize);
    var least := if nBatchSize < share then nBatchSize else share;
    if least < 1 then 1 else least
  }

  lemma ShareBounds(size: nat, b: nat, least: nat)
    requires b > 0
    ensures 0 <= size / b <= size && size / b * b <= size < (size / b + 1) * b
    ensures least < size / b ==> least * b <= size
    ensures size / b == 0 ==> size < 2 * b
  {
    DivSmaller(size, b);
    if least < size / b { TimesMonotone(least, size / b, b); }
  }

  lemma DivSmaller(a: nat, b: nat)
    requires b > 0
    ensures 0 <= a / b <= a && a / b * b <= a < (a / b + 1) * b
  {
    var q := a / b;
    assert a == q * b + a % b;
    AtLeastOnce(q, b);
  }

  lemma TimesMonotone(m: nat, n: nat, b: nat)
    requires m <= n
    ensures m * b <= n * b
  {
  }

  lemma AtLeastOnce(q: int, b: int)
    requires b > 0
    ensures q >= 0 ==> q * b >= q
    ensures q < 0 ==> q * b <= -b
  {
    assert q * b == q * (b - 1) + q;
  }

  /** The head of the work loop: sleep, return, or take a batch off the back of the queue. */
  function Head<T>(q: Shared<T>, fMaster: bool): Section<T>
    requires q.nTotal + q.nIdle >= 0
  {
    if q.queue == [] then
      if fMaster && q.nTodo == 0 then
        Section(q.(nTotal := q.nTotal - 1, fAllOk := true), Return(q.fAllOk))
      else Section(q.(nIdle := q.nIdle + 1), Sleep)
    else
      var rest := |q.queue| - BatchSize(|q.queue|, q.nTotal, q.nIdle, q.nBatchSize);
      Section(q.(queue := q.queue[..rest]), Work(Reversed(q.queue[rest..]), q.fAllOk))
  }

  /** A thread enters the loop. */
  function Begin<T>(q: Shared<T>, fMaster: bool): Section<T>
    requires q.nTotal + q.nIdle >= 0
  {
    Head(q.(nTotal := q.nTotal + 1), fMaster)
  }

  /** A thread wakes up, for whatever reason. */
  function Resume<T>(q: Shared<T>, fMaster: bool): Section<T>
    requires q.nTotal + q.nIdle > 0
  {
    Head(q.(nIdle := q.nIdle - 1), fMaster)
  }

  /** A thread reports the result of its batch and goes on. */
  function Finish<T>(q: Shared<T>, fMaster: bool, nNow: nat, fOk: bool): Section<T>
    requires q.nTotal + q.nIdle >= 0
  {
    Head(q.(fAllOk := q.fAllOk && fOk, nTodo := q.nTodo - nNow), fMaster)
  }

  /** Whether finishing a batch wakes the master. */
  predicate Notifies<T>(q: Shared<T>, fMaster: bool, nNow: nat) {
    q.nTodo - nNow == 0 && !fMaster
  }

  ghost predicate AllPass<T>(check: T -> bool, s: seq<T>) {
    forall i :: 0 <= i < |s| ==> check(s[i])
  }

  // ---- The state machine ----

  /** Where a thread is between two critical sections.  A sleeping thread remembers whether it was notified. */
  datatype Thread<T> = Outside | Sleeping(notified: bool) | Working(batch: seq<T>, fOk: bool)

  /** Thread 0 is the master.  `added` are the checks added since the master last returned from Wait. */
  datatype State<T> = State(q: Shared<T>, threads: seq<Thread<T>>, added: seq<T>)

  datatype Step<T> = Add(checks: seq<T>) | Enter(t: nat) | Wake(t: nat) | Report(t: nat)

  function Initial<T>(nBatchSize: nat, nThreads: nat): State<T> {
    State(Shared([], 0, 0, true, 0, nBatchSize), seq(nThreads, _ => Outside), [])
  }

  /** Which steps a thread can take. */
  predicate Enabled<T>(s: State<T>, step: Step<T>) {
    && s.threads != [] && s.q.nTotal >= 0 && s.q.nIdle >= 0
    && match step
       case Add(checks) => s.threads[0].Outside?
       case Enter(t) => t < |s.threads| && s.threads[t].Outside?
       case Wake(t) => t < |s.threads| && s.threads[t].Sleeping? && s.q.nIdle > 0
       case Report(t) => t < |s.threads| && s.threads[t].Working?
  }

  /** What executing a batch yields: nothing is executed once something has failed. */
  ghost predicate BatchOk<T>(check: T -> bool, batch: seq<T>, fOk: bool) {
    fOk && AllPass(check, batch)
  }

  ghost function SectionOf<T>(check: T -> bool, s: State<T>, step: Step<T>): Section<T>
    requires Enabled(s, step) && !step.Add?
  {
    match step
    case Enter(t) => Begin(s.q, t == 0)
    case Wake(t) => Resume(s.q, t == 0)
    case Report(t) =>
      var w := s.threads[t];
      Finish(s.q, t == 0, |w.batch|, BatchOk(check, w.batch, w.fOk))
  }

  /** The threads after a section; the last report of a worker notifies a sleeping master. */
  function ThreadsAfter<T>(s: State<T>, step: Step<T>, outcome: Outcome<T>): seq<Thread<T>>
    requires Enabled(s, step) && !step.Add?
  {
    var next := match outcome
      case Sleep => Sleeping(false)
      case Return(_) => Outside
      case Work(batch, fOk) => Working(batch, fOk);
    var threads := s.threads[step.t := next];
    if step.Report? && Notifies(s.q, step.t == 0, |s.threads[step.t].batch|) && threads[0].Sleeping?
    then threads[0 := Sleeping(true)] else threads
  }

  ghost function Next<T>(check: T -> bool, s: State<T>, step: Step<T>): State<T>
    requires Enabled(s, step)
  {
    if step.Add? then
      s.(q := s.q.(queue := s.q.queue + step.checks, nTodo := s.q.nTodo + |step.checks|), added := s.added + step.checks)
    else
      var section := SectionOf(check, s, step);
      State(section.shared, ThreadsAfter(s, step, section.outcome), if section.outcome.Return? then [] else s.added)
  }

  // ---- The invariant ----

  function CountSleeping<T>(threads: seq<Thread<T>>): nat {
    if threads == [] then 0 else (if threads[0].Sleeping? then 1 else 0) + CountSleeping(threads[1..])
  }

  function CountInside<T>(threads: seq<Thread<T>>): nat {
    if threads == [] then 0 else (if threads[0].Outside? then 0 else 1) + CountInside(threads[1..])
  }

  function InFlightOf<T>(t: Thread<T>): nat { if t.Working? then |t.batch| else 0 }

  /** The number of checks that threads have taken but not reported. */
  function InFlight<T>(threads: seq<Thread<T>>): nat {
    if threads == [] then 0 else InFlightOf(threads[0]) + InFlight(threads[1..])
  }

  lemma {:induction false} UpdateThread<T>(threads: seq<Thread<T>>, t: nat, next: Thread<T>)
    requires t < |threads|
    ensures var after := threads[t := next];
      && CountSleeping(after) == CountSleeping(threads) - (if threads[t].Sleeping? then 1 else 0) + (if next.Sleeping? then 1 else 0)
      && CountInside(after) == CountInside(threads) - (if threads[t].Outside? then 0 else 1) + (if next.Outside? then 0 else 1)
      && InFlight(after) == InFlight(threads) - InFlightOf(threads[t]) + InFlightOf(next)
  {
    if t == 0 {
      assert threads[0 := next][1..] == threads[1..];
    } else {
      assert threads[t := next][1..] == threads[1..][t - 1 := next];
      UpdateThread(threads[1..], t - 1, next);
    }
  }

  lemma {:induction false} InFlightSome<T>(threads: seq<Thread<T>>)
    requires InFlight(threads) > 0
    ensures exists t :: 0 <= t < |threads| && threads[t].Working? && threads[t].batch != []
  {
    if InFlightOf(threads[0]) > 0 {
      assert threads[0].Working? && threads[0].batch != [];
    } else {
      InFlightSome(threads[1..]);
      var t :| 0 <= t < |threads[1..]| && threads[1..][t].Working? && threads[1..][t].batch != [];
      assert threads[t + 1].Working? && threads[t + 1].batch != [];
    }
  }

  lemma {:induction false} InFlightAtLeast<T>(threads: seq<Thread<T>>, t: nat)
    requires t < |threads|
    ensures InFlightOf(threads[t]) <= InFlight(threads)
    ensures threads[t].Sleeping? ==> CountSleeping(threads) > 0
    ensures CountInside(threads) >= CountSleeping(threads)
  {
    if t > 0 { InFlightAtLeast(threads[1..], t - 1); } else if |threads| > 1 { InFlightAtLeast(threads[1..], 0); }
  }

  /** The counters count what they are meant to count. */
  ghost predicate CountersOk<T>(s: State<T>) {
    && s.q.nTotal == CountInside(s.threads)
    && s.q.nIdle == CountSleeping(s.threads)
    && s.q.nTodo == |s.q.queue| + InFlight(s.threads)
    && s.q.nTodo <= |s.added|
    && forall t :: 0 <= t < |s.threads| && s.threads[t].Working? ==> s.threads[t].batch != []
  }

  /** Nothing that was added is forgotten: all added checks pass exactly when nothing failed so far and all that is
      queued or in flight passes. */
  ghost predicate VerdictOk<T>(check: T -> bool, s: State<T>) {
    && (AllPass(check, s.added) <==> s.q.fAllOk && AllPass(check, s.q.queue) && InFlightPass(check, s.threads))
    && (forall t :: 0 <= t < |s.threads| && s.threads[t].Working? && !s.threads[t].fOk ==> !s.q.fAllOk)
  }

  ghost predicate InFlightPass<T>(check: T -> bool, threads: seq<Thread<T>>) {
    forall t :: 0 <= t < |threads| && threads[t].Working? ==> AllPass(check, threads[t].batch)
  }

  /** The master sleeps only while workers have work in flight, or with its wakeup pending once all is done. */
  ghost predicate MasterOk<T>(s: State<T>) {
    && s.threads != []
    && (s.threads[0].Sleeping? ==> s.q.queue == [] && (s.threads[0].notified <==> s.q.nTodo == 0))
    && (forall t :: 0 < t < |s.threads| && s.threads[t].Sleeping? ==> !s.threads[t].notified)
  }

  ghost predicate Inv<T>(check: T -> bool, s: State<T>) {
    CountersOk(s) && VerdictOk(check, s) && MasterOk(s)
  }

  lemma InitialInv<T>(check: T -> bool, nBatchSize: nat, nThreads: nat)
    requires nThreads > 0
    ensures Inv(check, Initial<T>(nBatchSize, nThreads))
  {
    NoneInside<T>(nThreads);
  }

  lemma {:induction false} NoneInside<T>(n: nat)
    ensures var threads: seq<Thread<T>> := seq(n, _ => Outside);
      CountSleeping(threads) == 0 && CountInside(threads) == 0 && InFlight(threads) == 0
  {
    if n > 0 {
      var threads: seq<Thread<T>> := seq(n, _ => Outside);
      assert threads[1..] == seq(n - 1, _ => Outside);
      NoneInside<T>(n - 1);
    }
  }

  /** Every step keeps the invariant, whichever thread takes it. */
  lemma NextInv<T>(check: T -> bool, s: State<T>, step: Step<T>)
    requires Inv(check, s) && Enabled(s, step)
    ensures Inv(check, Next(check, s, step))
  {
    hide Begin, Resume, Finish, BatchSize, CountSleeping, CountInside, InFlight;
    if step.Add? {
      AddInv(check, s, step.checks);
    } else {
      NextCounters(check, s, step);
      NextVerdict(check, s, step);
      NextMaster(check, s, step);
    }
  }

  lemma AddInv<T>(check: T -> bool, s: State<T>, checks: seq<T>)
    requires Inv(check, s) && Enabled(s, Add(checks))
    ensures Inv(check, Next(check, s, Add(checks)))
  {
    hide CountSleeping, CountInside, InFlight;
    JoinPass(check, s.added, checks);
    JoinPass(check, s.q.queue, checks);
  }

  lemma JoinPass<T>(check: T -> bool, a: seq<T>, b: seq<T>)
    ensures AllPass(check, a + b) <==> AllPass(check, a) && AllPass(check, b)
  {
    if AllPass(check, a + b) {
      forall i | 0 <= i < |a| ensures check(a[i]) { assert (a + b)[i] == a[i]; }
      forall i | 0 <= i < |b| ensures check(b[i]) { assert (a + b)[|a| + i] == b[i]; }
    }
  }

  lemma ReversedPass<T>(check: T -> bool, s: seq<T>)
    ensures AllPass(check, Reversed(s)) <==> AllPass(check, s)
  {
    if AllPass(check, Reversed(s)) {
      forall i | 0 <= i < |s| ensures check(s[i]) { assert Reversed(s)[|s| - 1 - i] == s[i]; }
    }
  }

  /** The shared state a thread sees at the head of the loop. */
  ghost function AtHead<T>(check: T -> bool, s: State<T>, step: Step<T>): Shared<T>
    requires Enabled(s, step) && !step.Add?
  {
    match step
    case Enter(t) => s.q.(nTotal := s.q.nTotal + 1)
    case Wake(t) => s.q.(nIdle := s.q.nIdle - 1)
    case Report(t) =>
      var w := s.threads[t];
      s.q.(fAllOk := s.q.fAllOk && BatchOk(check, w.batch, w.fOk), nTodo := s.q.nTodo - |w.batch|)
  }

  lemma SectionAtHead<T>(check: T -> bool, s: State<T>, step: Step<T>)
    requires Enabled(s, step) && !step.Add?
    ensures var q := AtHead(check, s, step);
      q.nTotal + q.nIdle >= 0 && SectionOf(check, s, step) == Head(q, step.t == 0)
  {
  }

  /** The threads while the one that takes the step is between its old and its new place. */
  function Idled<T>(s: State<T>, step: Step<T>): seq<Thread<T>>
    requires Enabled(s, step) && !step.Add?
  {
    s.threads[step.t := Outside]
  }

  lemma NextCounters<T>(check: T -> bool, s: State<T>, step: Step<T>)
    requires Inv(check, s) && Enabled(s, step) && !step.Add?
    ensures CountersOk(Next(check, s, step))
  {
    hide Begin, Resume, Finish, BatchSize, CountSleeping, CountInside, InFlight, VerdictOk;
    SectionAtHead(check, s, step);
    var section := SectionOf(check, s, step);
    var n := Next(check, s, step);
    var next := match section.outcome case Sleep => Sleeping(false) case Return(_) => Outside case Work(batch, fOk) => Working(batch, fOk);
    UpdateThread(s.threads, step.t, next);
    UpdateThread(s.threads[step.t := next], 0, Sleeping(true));
    InFlightAtLeast(s.threads, step.t);
  }

  lemma PassUpdate<T>(check: T -> bool, threads: seq<Thread<T>>, t: nat, next: Thread<T>)
    requires t < |threads|
    ensures InFlightPass(check, threads[t := next]) <==>
            InFlightPass(check, threads[t := Outside]) && (next.Working? ==> AllPass(check, next.batch))
    ensures InFlightPass(check, threads) <==>
            InFlightPass(check, threads[t := Outside]) && (threads[t].Working? ==> AllPass(check, threads[t].batch))
  {
    hide AllPass;
    PassUpdateOnce(check, threads[t := next], t);
    PassUpdateOnce(check, threads, t);
    assert threads[t := next][t := Outside] == threads[t := Outside];
  }

  lemma PassUpdateOnce<T>(check: T -> bool, threads: seq<Thread<T>>, t: nat)
    requires t < |threads|
    ensures InFlightPass(check, threads) <==>
            InFlightPass(check, threads[t := Outside]) && (threads[t].Working? ==> AllPass(check, threads[t].batch))
  {
    hide AllPass;
    var out := threads[t := Outside];
    if InFlightPass(check, threads) {
      forall u | 0 <= u < |out| && out[u].Working? ensures AllPass(check, out[u].batch) { assert threads[u] == out[u]; }
    }
    if InFlightPass(check, out) && (threads[t].Working? ==> AllPass(check, threads[t].batch)) {
      forall u | 0 <= u < |threads| && threads[u].Working? ensures AllPass(check, threads[u].batch) {
        if u != t { assert out[u] == threads[u]; }
      }
    }
  }

  /** Reporting moves a batch's verdict into the flag; the other sections start with nothing in hand. */
  lemma VerdictAtHead<T>(check: T -> bool, s: State<T>, step: Step<T>)
    requires Inv(check, s) && Enabled(s, step) && !step.Add?
    ensures var q := AtHead(check, s, step);
      && (AllPass(check, s.added) <==> q.fAllOk && AllPass(check, q.queue) && InFlightPass(check, Idled(s, step)))
      && (forall t :: 0 <= t < |s.threads| && Idled(s, step)[t].Working? && !s.threads[t].fOk ==> !q.fAllOk)
  {
    hide AllPass, CountersOk, MasterOk;
    PassUpdateOnce(check, s.threads, step.t);
  }

  lemma NoneInFlight<T>(check: T -> bool, threads: seq<Thread<T>>)
    requires InFlight(threads) == 0 && forall t :: 0 <= t < |threads| && threads[t].Working? ==> threads[t].batch != []
    ensures forall t :: 0 <= t < |threads| ==> !threads[t].Working?
    ensures InFlightPass(check, threads)
  {
    forall t | 0 <= t < |threads| ensures !threads[t].Working? {
      InFlightAtLeast(threads, t);
    }
  }

  /** When the master returns, it returns the verdict on everything added since it last returned. */
  lemma WaitReturns<T>(check: T -> bool, s: State<T>, step: Step<T>)
    requires Inv(check, s) && Enabled(s, step) && !step.Add? && SectionOf(check, s, step).outcome.Return?
    ensures step.t == 0
    ensures SectionOf(check, s, step).outcome.ok <==> AllPass(check, s.added)
    ensures InFlight(Idled(s, step)) == 0 && forall t :: 0 <= t < |s.threads| ==> !Idled(s, step)[t].Working?
  {
    hide AllPass, InFlight, CountSleeping, CountInside, MasterOk, BatchSize;
    SectionAtHead(check, s, step);
    VerdictAtHead(check, s, step);
    UpdateThread(s.threads, step.t, Outside);
    InFlightAtLeast(s.threads, step.t);
    NoneInFlight(check, Idled(s, step));
    assert AllPass(check, AtHead(check, s, step).queue) by { EmptyPass(check, AtHead(check, s, step).queue); }
  }

  lemma EmptyPass<T>(check: T -> bool, s: seq<T>)
    requires s == []
    ensures AllPass(check, s)
  {
  }

  /** Where the thread that takes the step goes. */
  function Place<T>(outcome: Outcome<T>): Thread<T> {
    match outcome
    case Sleep => Sleeping(false)
    case Return(_) => Outside
    case Work(batch, fOk) => Working(batch, fOk)
  }

  lemma NextPass<T>(check: T -> bool, s: State<T>, step: Step<T>)
    requires Enabled(s, step) && !step.Add?
    ensures var outcome := SectionOf(check, s, step).outcome;
      InFlightPass(check, Next(check, s, step).threads)
      <==> InFlightPass(check, Idled(s, step)) && (outcome.Work? ==> AllPass(check, outcome.batch))
  {
    hide AllPass, InFlightPass, SectionOf, Notifies;
    var next := Place(SectionOf(check, s, step).outcome);
    PassUpdate(check, s.threads, step.t, next);
    PassUpdate(check, s.threads[step.t := next], 0, Sleeping(true));
  }

  /** A thread that saw the verdict fail has lowered the flag. */
  lemma NextFlags<T>(check: T -> bool, s: State<T>, step: Step<T>)
    requires Inv(check, s) && Enabled(s, step) && !step.Add?
    requires var section := SectionOf(check, s, step);
      && (section.outcome.Work? && !section.outcome.fOk ==> !section.shared.fAllOk)
      && (!AtHead(check, s, step).fAllOk && !section.outcome.Return? ==> !section.shared.fAllOk)
      && (section.outcome.Return? ==> forall t :: 0 <= t < |s.threads| ==> !Idled(s, step)[t].Working?)
    ensures var n := Next(check, s, step);
      forall t :: 0 <= t < |n.threads| && n.threads[t].Working? && !n.threads[t].fOk ==> !n.q.fAllOk
  {
    hide AllPass, InFlight, CountSleeping, CountInside, MasterOk, BatchSize, InFlightPass, SectionOf, CountersOk, Notifies;
    VerdictAtHead(check, s, step);
    var n := Next(check, s, step);
    forall t | 0 <= t < |n.threads| && n.threads[t].Working? && !n.threads[t].fOk ensures !n.q.fAllOk {
      if t != step.t { assert n.threads[t] == s.threads[t] == Idled(s, step)[t]; }
    }
  }

  lemma NextVerdict<T>(check: T -> bool, s: State<T>, step: Step<T>)
    requires Inv(check, s) && Enabled(s, step) && !step.Add?
    ensures VerdictOk(check, Next(check, s, step))
  {
    hide AllPass, InFlight, MasterOk, BatchSize, InFlightPass, SectionOf, CountersOk, AtHead, ThreadsAfter, Inv;
    SectionAtHead(check, s, step);
    VerdictAtHead(check, s, step);
    NextPass(check, s, step);
    var q := AtHead(check, s, step);
    var section := SectionOf(check, s, step);
    if section.outcome.Return? {
      WaitReturns(check, s, step);
      EmptyPass(check, []);
      EmptyPass(check, q.queue);
      PassNone(check, Idled(s, step));
    } else if section.outcome.Work? {
      var rest := |q.queue| - BatchSize(|q.queue|, q.nTotal, q.nIdle, q.nBatchSize);
      assert q.queue == q.queue[..rest] + q.queue[rest..];
      JoinPass(check, q.queue[..rest], q.queue[rest..]);
      ReversedPass(check, q.queue[rest..]);
    }
    NextFlags(check, s, step);
  }

  lemma PassNone<T>(check: T -> bool, threads: seq<Thread<T>>)
    requires forall t :: 0 <= t < |threads| ==> !threads[t].Working?
    ensures InFlightPass(check, threads)
  {
  }

  lemma NextMaster<T>(check: T -> bool, s: State<T>, step: Step<T>)
    requires Inv(check, s) && Enabled(s, step) && !step.Add?
    ensures MasterOk(Next(check, s, step))
  {
    hide VerdictOk, InFlight, CountSleeping, CountInside, BatchSize;
    SectionAtHead(check, s, step);
    InFlightAtLeast(s.threads, step.t);
  }

  // ---- Runs ----

  /** A run: every state is the step's result from the one before. */
  ghost predicate IsRun<T>(check: T -> bool, states: seq<State<T>>, steps: seq<Step<T>>) {
    && |states| == |steps| + 1
    && forall i :: 0 <= i < |steps| ==> Enabled(states[i], steps[i]) && states[i + 1] == Next(check, states[i], steps[i])
  }

  lemma {:induction false} RunInv<T>(check: T -> bool, states: seq<State<T>>, steps: seq<Step<T>>, k: nat)
    requires IsRun(check, states, steps) && Inv(check, states[0]) && k < |states|
    ensures Inv(check, states[k])
  {
    if k > 0 {
      RunInv(check, states, steps, k - 1);
      NextInv(check, states[k - 1], steps[k - 1]);
    }
  }

  /** The checks added by steps `[lo, hi)`. */
  function AddedBy<T>(steps: seq<Step<T>>, lo: nat, hi: nat): seq<T>
    requires lo <= hi <= |steps|
    decreases hi - lo
  {
    if lo == hi then [] else AddedBy(steps, lo, hi - 1) + (if steps[hi - 1].Add? then steps[hi - 1].checks else [])
  }

  /** Step `k` makes Wait return. */
  ghost predicate ReturnsAt<T>(check: T -> bool, states: seq<State<T>>, steps: seq<Step<T>>, k: nat)
    requires IsRun(check, states, steps)
  {
    k < |steps| && !steps[k].Add? && SectionOf(check, states[k], steps[k]).outcome.Return?
  }

  lemma {:induction false} AddedSince<T>(check: T -> bool, states: seq<State<T>>, steps: seq<Step<T>>, lo: nat, hi: nat)
    requires IsRun(check, states, steps) && lo <= hi <= |steps| && states[lo].added == []
    requires forall k :: lo <= k < hi ==> !ReturnsAt(check, states, steps, k)
    ensures states[hi].added == AddedBy(steps, lo, hi)
    decreases hi - lo
  {
    hide SectionOf, ThreadsAfter, Enabled;
    if lo < hi {
      AddedSince(check, states, steps, lo, hi - 1);
      assert !ReturnsAt(check, states, steps, hi - 1);
    }
  }

  /** The main result: over every interleaving, Wait returns true exactly when every check added since the previous
      Wait returned (or since the start) passes. */
  lemma WaitVerdict<T>(check: T -> bool, states: seq<State<T>>, steps: seq<Step<T>>, nBatchSize: nat, lo: nat, k: nat)
    requires IsRun(check, states, steps) && states[0].threads != []
    requires states[0] == Initial(nBatchSize, |states[0].threads|)
    requires lo <= k && ReturnsAt(check, states, steps, k)
    requires lo == 0 || (lo - 1 < k && ReturnsAt(check, states, steps, lo - 1))
    requires forall j :: lo <= j < k ==> !ReturnsAt(check, states, steps, j)
    ensures SectionOf(check, states[k], steps[k]).outcome.ok <==> AllPass(check, AddedBy(steps, lo, k))
  {
    hide Inv, SectionOf, ThreadsAfter, AddedBy;
    InitialInv<T>(check, nBatchSize, |states[0].threads|);
    RunInv(check, states, steps, k);
    assert states[lo].added == [] by {
      if lo > 0 { assert states[lo] == Next(check, states[lo - 1], steps[lo - 1]); }
    }
    AddedSince(check, states, steps, lo, k);
    WaitReturns(check, states[k], steps[k]);
  }

  /** A moment at which the fields can be read without the mutex: between two sections, or inside one, between its
      first update and its second. */
  datatype Moment<T> = Between | Inside(step: Step<T>)

  ghost function Seen<T>(check: T -> bool, s: State<T>, m: Moment<T>): Shared<T>
    requires m.Inside? ==> Enabled(s, m.step) && !m.step.Add?
  {
    if m.Between? then s.q else AtHead(check, s, m.step)
  }

  /** The master is outside, where it alone may be constructing a control object, and has added nothing. */
  predicate Unused<T>(s: State<T>) { s.threads != [] && s.threads[0].Outside? && s.added == [] }

  /** What the constructor of a control object sees, which reads the fields without the mutex.  Nothing is to do and
      nothing has failed at any moment.  A worker in its section counts as inside but not as idle, so the two counts
      are equal exactly at the moments between sections; each such section updates one count after the other. */
  lemma ControlReads<T>(check: T -> bool, s: State<T>, m: Moment<T>)
    requires Inv(check, s) && Unused(s)
    requires m.Inside? ==> Enabled(s, m.step) && !m.step.Add? && m.step.t != 0
    ensures var q := Seen(check, s, m); q.nTodo == 0 && q.fAllOk && (q.nTotal == q.nIdle <==> m.Between?)
    ensures m.Inside? ==>
      var q := Seen(check, s, m); !m.step.Report? && SectionOf(check, s, m.step) == Section(q.(nIdle := q.nIdle + 1), Sleep)
  {
    hide InFlight, CountSleeping, CountInside, BatchSize;
    NoneInFlight(check, s.threads);
    AllIdle(s.threads);
  }

  /** A step of a worker leaves the queue unused. */
  lemma StaysUnused<T>(check: T -> bool, s: State<T>, step: Step<T>)
    requires Inv(check, s) && Unused(s) && Enabled(s, step) && !step.Add? && step.t != 0
    ensures Unused(Next(check, s, step))
  {
    hide InFlight, CountSleeping, CountInside, BatchSize, VerdictOk;
    ControlReads(check, s, Inside(step));
  }

  /** From the moment Wait returns until the master does something again, whatever the workers do. */
  lemma {:induction false} ReadyForNextUser<T>(check: T -> bool, states: seq<State<T>>, steps: seq<Step<T>>, k: nat, i: nat, m: Moment<T>)
    requires IsRun(check, states, steps) && Inv(check, states[0]) && ReturnsAt(check, states, steps, k) && k < i <= |steps|
    requires forall j :: k < j < i ==> !steps[j].Add? && steps[j].t != 0
    requires m.Inside? ==> Enabled(states[i], m.step) && !m.step.Add? && m.step.t != 0
    ensures Unused(states[i])
    ensures var q := Seen(check, states[i], m); q.nTodo == 0 && q.fAllOk && (q.nTotal == q.nIdle <==> m.Between?)
    decreases i
  {
    hide Inv, SectionOf, Seen, Enabled;
    RunInv(check, states, steps, i);
    RunInv(check, states, steps, i - 1);
    if i == k + 1 {
      WaitReturns(check, states[k], steps[k]);
      ReturnLeavesUnused(check, states[k], steps[k]);
    } else {
      ReadyForNextUser(check, states, steps, k, i - 1, Between);
      StaysUnused(check, states[i - 1], steps[i - 1]);
    }
    ControlReads(check, states[i], m);
  }

  lemma ReturnLeavesUnused<T>(check: T -> bool, s: State<T>, step: Step<T>)
    requires Enabled(s, step) && !step.Add? && step.t == 0 && SectionOf(check, s, step).outcome.Return?
    ensures Unused(Next(check, s, step))
  {
    hide SectionOf, BatchSize;
  }

  /** Such a moment comes: a worker that an Add has woken gets the mutex only after Wait has returned. */
  lemma LateWake<T>(check: T -> bool, x: T) returns (states: seq<State<T>>, steps: seq<Step<T>>)
    ensures IsRun(check, states, steps) && |steps| == 4 && states[0] == Initial(1, 2) && ReturnsAt(check, states, steps, 3)
    ensures Enabled(states[4], Wake(1))
    ensures var q := Seen(check, states[4], Inside(Wake(1))); q.nTotal == 1 && q.nIdle == 0
  {
    hide Next, SectionOf, AtHead, Initial;
    steps := [Enter(1), Add([x]), Enter(0), Report(0)];
    states := [Initial(1, 2), Idle(), Waiting(x), Busy(x), Idle()];
    FirstSteps(check, x);
    LastSteps(check, x);
    WakesLate<T>(check);
  }

  /** A worker sleeps; then a check is queued; then the master has it in hand. */
  function Idle<T>(): State<T> { State(Shared([], 1, 1, true, 0, 1), [Outside, Sleeping(false)], []) }

  function Waiting<T>(x: T): State<T> { State(Shared([x], 1, 1, true, 1, 1), [Outside, Sleeping(false)], [x]) }

  function Busy<T>(x: T): State<T> { State(Shared([], 1, 2, true, 1, 1), [Working([x], true), Sleeping(false)], [x]) }

  lemma FirstSteps<T>(check: T -> bool, x: T)
    ensures Enabled(Initial<T>(1, 2), Enter(1)) && Next(check, Initial<T>(1, 2), Enter(1)) == Idle()
    ensures Enabled(Idle(), Add([x])) && Next(check, Idle(), Add([x])) == Waiting(x)
  {
    var s: State<T> := Initial(1, 2);
    assert s.threads == [Outside, Outside];
    assert s.threads[1 := Sleeping(false)] == [Outside, Sleeping(false)];
    assert [] + [x] == [x];
  }

  lemma LastSteps<T>(check: T -> bool, x: T)
    ensures Enabled(Waiting(x), Enter(0)) && Next(check, Waiting(x), Enter(0)) == Busy(x)
    ensures Enabled(Busy(x), Report(0)) && SectionOf(check, Busy(x), Report(0)).outcome.Return?
    ensures Next(check, Busy(x), Report(0)) == Idle()
  {
    var s := Waiting(x);
    assert BatchSize(1, 2, 1, 1) == 1;
    assert [x][..0] == [] && [x][0..] == [x] && Reversed([x]) == [x];
    assert s.threads[0 := Working([x], true)] == Busy(x).threads;
    assert Busy(x).threads[0 := Outside] == Idle<T>().threads;
  }

  lemma WakesLate<T>(check: T -> bool)
    ensures Enabled(Idle<T>(), Wake(1))
    ensures var q := AtHead(check, Idle<T>(), Wake(1)); q.nTotal == 1 && q.nIdle == 0
  {
  }

  lemma {:induction false} AllIdle<T>(threads: seq<Thread<T>>)
    requires forall t :: 0 <= t < |threads| ==> !threads[t].Working?
    ensures CountInside(threads) == CountSleeping(threads)
  {
    if threads != [] {
      forall t | 0 <= t < |threads[1..]| ensures !threads[1..][t].Working? { assert threads[1..][t] == threads[t + 1]; }
      AllIdle(threads[1..]);
    }
  }

  /** No lost wakeup and no deadlock: while the master is in Wait, either some thread has a batch to report, or the
      master sleeps with its wakeup pending, and then it returns when it wakes. */
  lemma WaitProgresses<T>(check: T -> bool, s: State<T>)
    requires Inv(check, s) && !s.threads[0].Outside?
    ensures (exists t :: 0 <= t < |s.threads| && s.threads[t].Working? && Enabled(s, Report(t)))
      || (s.threads[0] == Sleeping(true) && Enabled(s, Wake(0)) && SectionOf(check, s, Wake(0)).outcome.Return?)
  {
    InFlightAtLeast(s.threads, 0);
    if s.threads[0] != Sleeping(true) {
      if s.threads[0].Working? {
        assert Enabled(s, Report(0));
      } else {
        InFlightSome(s.threads);
        var t: int :| 0 <= t < |s.threads| && s.threads[t].Working? && s.threads[t].batch != [];
        assert Enabled(s, Report(t));
      }
    }
  }

  /** Every report brings the master closer to returning: it strictly lowers the number of checks to do. */
  lemma ReportsDescend<T>(check: T -> bool, s: State<T>, t: nat)
    requires Inv(check, s) && Enabled(s, Report(t))
    ensures 0 <= Next(check, s, Report(t)).q.nTodo < s.q.nTodo
  {
    hide BatchSize;
    InFlightAtLeast(s.threads, t);
  }

  /** How many of the steps `[lo, hi)` are reports. */
  function Reports<T>(steps: seq<Step<T>>, lo: nat, hi: nat): nat
    requires lo <= hi <= |steps|
    decreases hi - lo
  {
    if lo == hi then 0 else Reports(steps, lo, hi - 1) + if steps[hi - 1].Report? then 1 else 0
  }

  /** A step during Wait that does not make it return: nothing can be added, and only reports change what is to do. */
  lemma WaitGoesOn<T>(check: T -> bool, s: State<T>, step: Step<T>)
    requires Inv(check, s) && Enabled(s, step) && !s.threads[0].Outside?
    requires step.Add? || !SectionOf(check, s, step).outcome.Return?
    ensures !step.Add? && !Next(check, s, step).threads[0].Outside?
    ensures Next(check, s, step).q.nTodo <= s.q.nTodo - if step.Report? then 1 else 0
  {
    hide BatchSize, Inv;
    if step.Report? { ReportsDescend(check, s, step.t); }
  }

  /** Nothing left to do while the master is in Wait: it is notified, and returns when it wakes. */
  lemma DoneWakes<T>(check: T -> bool, s: State<T>)
    requires Inv(check, s) && !s.threads[0].Outside? && s.q.nTodo == 0
    ensures s.threads[0] == Sleeping(true) && Enabled(s, Wake(0)) && SectionOf(check, s, Wake(0)).outcome.Return?
  {
    InFlightAtLeast(s.threads, 0);
  }

  lemma TodoReports<T>(check: T -> bool, s: State<T>)
    requires Inv(check, s) && !s.threads[0].Outside? && s.q.nTodo > 0
    ensures exists t :: 0 <= t < |s.threads| && s.threads[t].Working? && Enabled(s, Report(t))
  {
    hide Inv;
    WaitProgresses(check, s);
    if s.threads[0] == Sleeping(true) { NotifiedIsDone(check, s); }
  }

  lemma NotifiedIsDone<T>(check: T -> bool, s: State<T>)
    requires Inv(check, s) && s.threads[0] == Sleeping(true)
    ensures s.q.nTodo == 0
  {
  }

  /** Wait terminates.  However the threads interleave, from any moment in Wait until it returns there are at most as
      many reports as there were checks to do; as long as something is to do some thread has a batch to report; and
      once nothing is, the master's wakeup is pending and makes it return. */
  lemma {:induction false} WaitTerminates<T>(check: T -> bool, states: seq<State<T>>, steps: seq<Step<T>>, lo: nat, hi: nat)
    requires IsRun(check, states, steps) && Inv(check, states[0]) && lo <= hi <= |steps|
    requires states[lo].threads != [] && !states[lo].threads[0].Outside?
    requires forall k :: lo <= k < hi ==> !ReturnsAt(check, states, steps, k)
    ensures states[hi].threads != [] && !states[hi].threads[0].Outside?
    ensures 0 <= states[hi].q.nTodo <= states[lo].q.nTodo - Reports(steps, lo, hi)
    ensures var s := states[hi];
      if s.q.nTodo > 0 then exists t :: 0 <= t < |s.threads| && s.threads[t].Working? && Enabled(s, Report(t))
      else s.threads[0] == Sleeping(true) && Enabled(s, Wake(0)) && SectionOf(check, s, Wake(0)).outcome.Return?
    decreases hi - lo
  {
    hide Inv, Next, SectionOf, Enabled;
    RunInv(check, states, steps, hi);
    if lo < hi {
      WaitTerminates(check, states, steps, lo, hi - 1);
      RunInv(check, states, steps, hi - 1);
      assert !ReturnsAt(check, states, steps, hi - 1);
      WaitGoesOn(check, states[hi - 1], steps[hi - 1]);
    }
    var s := states[hi];
    TodoNonNegative(check, s);
    if s.q.nTodo > 0 { TodoReports(check, s); } else { DoneWakes(check, s); }
  }

  lemma TodoNonNegative<T>(check: T -> bool, s: State<T>)
    requires Inv(check, s)
    ensures s.q.nTodo >= 0 && s.threads != []
  {
  }

  // ---- The class ----

  /** The queue itself.  Every method is one critical section, or the work between two of them. */
  class CCheckQueue<T> {
    var queue: seq<T>
    var nIdle: int
    var nTotal: int
    var fAllOk: bool
    var nTodo: int
    const nBatchSize: nat

    constructor (nBatchSizeIn: nat)
      ensures View() == Initial<T>(nBatchSizeIn, 0).q
    {
      queue, nIdle, nTotal, fAllOk, nTodo, nBatchSize := [], 0, 0, true, 0, nBatchSizeIn;
    }

    ghost function View(): Shared<T>
      reads this
    {
      Shared(queue, nIdle, nTotal, fAllOk, nTodo, nBatchSize)
    }

    /** Adds a batch of checks at the back. */
    method Add(vChecks: seq<T>)
      modifies this
      ensures View() == old(View()).(queue := old(queue) + vChecks, nTodo := old(nTodo) + |vChecks|)
    {
      var i := 0;
      while i < |vChecks|
        invariant 0 <= i <= |vChecks|
        invariant View() == old(View()).(queue := old(queue) + vChecks[..i])
      {
        queue := queue + [vChecks[i]];
        assert vChecks[..i + 1] == vChecks[..i] + [vChecks[i]];
        i := i + 1;
      }
      assert vChecks[..i] == vChecks;
      nTodo := nTodo + |vChecks|;
    }

    method EnterLoop(fMaster: bool) returns (o: Outcome<T>)
      requires nTotal + nIdle >= 0
      modifies this
      ensures Begin(old(View()), fMaster) == Section(View(), o)
    {
      nTotal := nTotal + 1;
      o := LoopHead(fMaster);
    }

    method WakeUp(fMaster: bool) returns (o: Outcome<T>)
      requires nTotal + nIdle > 0
      modifies this
      ensures Resume(old(View()), fMaster) == Section(View(), o)
    {
      nIdle := nIdle - 1;
      o := LoopHead(fMaster);
    }

    /** Cleans up after a batch; `notify` says whether the master is notified. */
    method ReportBatch(fMaster: bool, nNow: nat, fOk: bool) returns (notify: bool, o: Outcome<T>)
      requires nTotal + nIdle >= 0
      modifies this
      ensures Finish(old(View()), fMaster, nNow, fOk) == Section(View(), o)
      ensures notify <==> Notifies(old(View()), fMaster, nNow)
    {
      fAllOk := fAllOk && fOk;
      nTodo := nTodo - nNow;
      notify := nTodo == 0 && !fMaster;
      o := LoopHead(fMaster);
    }

    /** What all sections have in common.  Going to sleep ends the section, so the waiting loop of the program is one
        call of this method for each time around. */
    method LoopHead(fMaster: bool) returns (o: Outcome<T>)
      requires nTotal + nIdle >= 0
      modifies this
      ensures Head(old(View()), fMaster) == Section(View(), o)
    {
      hide BatchSize;
      if queue == [] {
        if fMaster && nTodo == 0 {
          nTotal := nTotal - 1;
          var fRet := fAllOk;
          fAllOk := true;
          return Return(fRet);
        }
        nIdle := nIdle + 1;
        return Sleep;
      }
      var nNow := BatchSize(|queue|, nTotal, nIdle, nBatchSize);
      var vChecks := TakeBatch(nNow);
      return Work(vChecks, fAllOk);
    }

    /** Takes a batch from the end of the queue, last check first. */
    method TakeBatch(nNow: nat) returns (vChecks: seq<T>)
      requires nNow <= |queue|
      modifies this`queue
      ensures queue == old(queue)[..|old(queue)| - nNow]
      ensures vChecks == Reversed(old(queue)[|old(queue)| - nNow..])
    {
      vChecks := [];
      ghost var before := queue;
      var i := 0;
      while i < nNow
        invariant 0 <= i <= nNow <= |before|
        invariant queue == before[..|before| - i] && |vChecks| == i
        invariant forall j :: 0 <= j < i ==> vChecks[j] == before[|before| - 1 - j]
      {
        vChecks := vChecks + [queue[|queue| - 1]];
        queue := queue[..|queue| - 1];
        i := i + 1;
      }
    }

    /** Executes a batch outside the lock, skipping everything after a failure. */
    static method RunBatch(check: T -> bool, vChecks: seq<T>, ok: bool) returns (fOk: bool)
      ensures fOk <==> BatchOk(check, vChecks, ok)
    {
      fOk := ok;
      var i := 0;
      while i < |vChecks|
        invariant 0 <= i <= |vChecks|
        invariant fOk <==> ok && AllPass(check, vChecks[..i])
      {
        assert vChecks[..i + 1] == vChecks[..i] + [vChecks[i]];
        JoinPass(check, vChecks[..i], [vChecks[i]]);
        assert AllPass(check, [vChecks[i]]) <==> check(vChecks[i]) by { assert [vChecks[i]][0] == vChecks[i]; }
        if fOk {
          fOk := check(vChecks[i]);
        }
        i := i + 1;
      }
      assert vChecks[..i] == vChecks;
    }
  }
}
