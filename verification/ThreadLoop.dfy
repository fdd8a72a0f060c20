/** Worker threads of `do_loop` against threads that call `destory`: one flag, one mutex, every interleaving. */
module ThreadLoop {

  /** Where a worker stands in the thread of `do_loop`. */
  datatype Worker =
    | Unborn        // the thread does not exist yet
    | AtMutex       // about to take `mutex_`
    | AtFlag        // holds it, about to read `run_`
    | Waiting       // holds it, waits for the next deadline
    | Draining      // holds it, inside `takeAllTimeout`
    | InCallback    // ... inside a timer callback, about to push a frame into the engine
    | Gone          // has left the loop and the mutex

  /** Where a caller stands in `destory`. */
  datatype Destroyer =
    | Outside
    | Entered       // holds `m_exitMutex`; about to clear `run_`
    | Cleared       // about to take `mutex_`
    | HasMutex      // holds it; about to return from `cancel_loop`
    | Cancelled     // `cancel_loop` has returned; about to look at the engine pointer
    | Releasing     // found an engine, about to destroy it
    | Left

  datatype Owner = WorkerOf(w: nat) | DestroyerOf(d: nat) | Nobody

  datatype Event =
    | CallbackStarted
    | FramePushed(engineAlive: bool)
    | CallbackEnded
    | CancelReturned
    | EngineDestroyed(wasAlive: bool)

  datatype State = State(
    run: bool,
    mutex: Owner,
    exitMutex: Owner,
    engine: bool,
    workers: seq<Worker>,
    destroyers: seq<Destroyer>,
    log: seq<Event>)

  function Initial(workers: nat, destroyers: nat): State {
    State(true, Nobody, Nobody, true, seq(workers, _ => Unborn), seq(destroyers, _ => Outside), [])
  }

  /** `due` is what `takeAllTimeout` finds next: another due timer or none. */
  datatype Step = WorkerStep(w: nat, due: bool) | DestroyerStep(d: nat)

  predicate Enabled(s: State, step: Step) {
    match step
    case WorkerStep(w, _) =>
      w < |s.workers| && s.workers[w] != Gone && (s.workers[w] == AtMutex ==> s.mutex == Nobody)
    case DestroyerStep(d) =>
      && d < |s.destroyers| && s.destroyers[d] != Left
      && (s.destroyers[d] == Outside ==> s.exitMutex == Nobody)
      && (s.destroyers[d] == Cleared ==> s.mutex == Nobody)
  }

  function DoDestroyer(s: State, d: nat): State
    requires d < |s.destroyers|
  {
    match s.destroyers[d]
    case Outside => s.(destroyers := s.destroyers[d := Entered], exitMutex := DestroyerOf(d))
    case Entered => s.(destroyers := s.destroyers[d := Cleared], run := false)
    case Cleared => s.(destroyers := s.destroyers[d := HasMutex], mutex := DestroyerOf(d))
    case HasMutex =>
      s.(destroyers := s.destroyers[d := Cancelled], mutex := Nobody, log := s.log + [CancelReturned])
    case Cancelled =>
      if s.engine then s.(destroyers := s.destroyers[d := Releasing])
      else s.(destroyers := s.destroyers[d := Left], exitMutex := Nobody)
    case Releasing =>
      s.(destroyers := s.destroyers[d := Left], exitMutex := Nobody, engine := false,
         log := s.log + [EngineDestroyed(s.engine)])
    case Left => s
  }

  function DoWorker(s: State, w: nat, due: bool): State
    requires w < |s.workers|
  {
    match s.workers[w]
    case Unborn => s.(workers := s.workers[w := AtMutex])
    case AtMutex => s.(workers := s.workers[w := AtFlag], mutex := WorkerOf(w))
    case AtFlag =>
      if s.run then s.(workers := s.workers[w := Waiting])
      else s.(workers := s.workers[w := Gone], mutex := Nobody)
    case Waiting => s.(workers := s.workers[w := Draining])
    case Draining =>
      if due then s.(workers := s.workers[w := InCallback], log := s.log + [CallbackStarted])
      else s.(workers := s.workers[w := AtFlag])
    case InCallback =>
      s.(workers := s.workers[w := Draining], log := s.log + [FramePushed(s.engine), CallbackEnded])
    case Gone => s
  }

  function Do(s: State, step: Step): State
    requires Enabled(s, step)
  {
    match step
    case WorkerStep(w, due) => DoWorker(s, w, due)
    case DestroyerStep(d) => DoDestroyer(s, d)
  }

  /** The state after a run; a step that is not enabled ends it. */
  function After(s: State, run: seq<Step>): State
    decreases |run|
  {
    if run == [] || !Enabled(s, run[0]) then s else After(Do(s, run[0]), run[1..])
  }

  predicate InLoop(p: Worker) {
    p.AtFlag? || p.Waiting? || p.Draining? || p.InCallback?
  }

  /** Inside one pass of the loop, past the flag. */
  predicate InPass(p: Worker) {
    p.Waiting? || p.Draining? || p.InCallback?
  }

  predicate HasCleared(p: Destroyer) {
    p != Outside && p != Entered
  }

  predicate Inside(p: Destroyer) {
    p != Outside && p != Left
  }

  predicate IsCallback(e: Event) {
    e.CallbackStarted? || e.FramePushed? || e.CallbackEnded?
  }

  /** Nothing of a callback is seen after a return of `cancel_loop`. */
  ghost predicate QuietAfterCancel(log: seq<Event>) {
    forall i, j :: 0 <= i < j < |log| && log[i] == CancelReturned ==> !IsCallback(log[j])
  }

  /** Every frame was pushed into, and every release was of, a live engine. */
  ghost predicate EngineUsedAlive(log: seq<Event>) {
    forall e :: e in log ==> e != FramePushed(false) && e != EngineDestroyed(false)
  }

  /** A lock is held exactly by whoever stands behind it, and the flag stays down. */
  ghost predicate Ownership(s: State) {
    && (forall w :: 0 <= w < |s.workers| ==> (InLoop(s.workers[w]) <==> s.mutex == WorkerOf(w)))
    && (forall d :: 0 <= d < |s.destroyers| ==> (s.destroyers[d] == HasMutex <==> s.mutex == DestroyerOf(d)))
    && (forall d :: 0 <= d < |s.destroyers| ==> (Inside(s.destroyers[d]) <==> s.exitMutex == DestroyerOf(d)))
    && (forall d :: 0 <= d < |s.destroyers| && HasCleared(s.destroyers[d]) ==> !s.run)
  }

  /** Once a cancel has returned nobody is inside a pass, and the engine outlives the loop. */
  ghost predicate History(s: State) {
    && (CancelReturned in s.log ==> !s.run && forall w :: 0 <= w < |s.workers| ==> !InPass(s.workers[w]))
    && (forall d :: 0 <= d < |s.destroyers| && (s.destroyers[d] == Cancelled || s.destroyers[d] == Releasing) ==>
          CancelReturned in s.log)
    && (forall d :: 0 <= d < |s.destroyers| && s.destroyers[d] == Releasing ==> s.engine)
    && (!s.engine ==> CancelReturned in s.log)
    && QuietAfterCancel(s.log)
    && EngineUsedAlive(s.log)
  }

  ghost predicate Invariant(s: State) {
    Ownership(s) && History(s)
  }

  lemma WorkerKeepsInvariant(s: State, w: nat, due: bool)
    requires Invariant(s) && Enabled(s, WorkerStep(w, due))
    ensures Invariant(DoWorker(s, w, due))
  {
    assert InLoop(s.workers[w]) <==> s.mutex == WorkerOf(w);
  }

  lemma DestroyerKeepsOwnership(s: State, d: nat)
    requires Ownership(s) && Enabled(s, DestroyerStep(d))
    ensures Ownership(DoDestroyer(s, d))
  {
    assert s.destroyers[d] == HasMutex <==> s.mutex == DestroyerOf(d);
    assert Inside(s.destroyers[d]) <==> s.exitMutex == DestroyerOf(d);
  }

  lemma DestroyerKeepsHistory(s: State, d: nat)
    requires Invariant(s) && Enabled(s, DestroyerStep(d))
    ensures History(DoDestroyer(s, d))
  {
    assert s.destroyers[d] == HasMutex <==> s.mutex == DestroyerOf(d);
    if s.destroyers[d] == HasMutex {
      assert forall w :: 0 <= w < |s.workers| ==> !InLoop(s.workers[w]);
    } else if s.destroyers[d] == Releasing {
      assert forall e :: 0 <= e < |s.destroyers| && e != d ==> !Inside(s.destroyers[e]);
    }
  }

  lemma {:induction false} RunsKeepInvariant(s: State, run: seq<Step>)
    requires Invariant(s)
    ensures Invariant(After(s, run))
    decreases |run|
  {
    if run != [] && Enabled(s, run[0]) {
      match run[0] {
        case WorkerStep(w, due) => WorkerKeepsInvariant(s, w, due);
        case DestroyerStep(d) =>
          DestroyerKeepsOwnership(s, d);
          DestroyerKeepsHistory(s, d);
      }
      RunsKeepInvariant(Do(s, run[0]), run[1..]);
    }
  }

  /** In every run of any number of loops and any number of calls of `destory`: once `cancel_loop` has returned no
      callback runs or ever starts again, and the engine is never touched, nor destroyed, after it was destroyed. */
  lemma CancelIsFinal(workers: nat, destroyers: nat, run: seq<Step>)
    ensures var s := After(Initial(workers, destroyers), run);
            && QuietAfterCancel(s.log)
            && EngineUsedAlive(s.log)
            && (CancelReturned in s.log ==> forall w :: 0 <= w < |s.workers| ==> s.workers[w] != InCallback)
  {
    assert Invariant(Initial(workers, destroyers));
    RunsKeepInvariant(Initial(workers, destroyers), run);
  }

  lemma {:induction false} KeepsThreads(s: State, run: seq<Step>)
    ensures |After(s, run).workers| == |s.workers| && |After(s, run).destroyers| == |s.destroyers|
    decreases |run|
  {
    if run != [] && Enabled(s, run[0]) {
      KeepsThreads(Do(s, run[0]), run[1..]);
    }
  }

  /** Only threads of the system hold the mutex. */
  ghost predicate OwnerExists(s: State) {
    match s.mutex
    case Nobody => true
    case WorkerOf(w) => w < |s.workers|
    case DestroyerOf(d) => d < |s.destroyers|
  }

  lemma {:induction false} OwnersExist(s: State, run: seq<Step>)
    requires OwnerExists(s)
    ensures OwnerExists(After(s, run))
    decreases |run|
  {
    if run != [] && Enabled(s, run[0]) {
      OwnersExist(Do(s, run[0]), run[1..]);
    }
  }

  /** No deadlock: while anyone is in `destory`, some thread that is in the way, or the caller itself, can move. */
  lemma NeverStuck(workers: nat, destroyers: nat, run: seq<Step>, d: nat)
    requires d < destroyers
    ensures var s := After(Initial(workers, destroyers), run);
            d < |s.destroyers| && (Inside(s.destroyers[d]) ==>
              Enabled(s, DestroyerStep(d))
              || exists w :: s.mutex == WorkerOf(w) && Enabled(s, WorkerStep(w, false)))
  {
    assert Invariant(Initial(workers, destroyers));
    RunsKeepInvariant(Initial(workers, destroyers), run);
    KeepsThreads(Initial(workers, destroyers), run);
    var s := After(Initial(workers, destroyers), run);
    OwnersExist(Initial(workers, destroyers), run);
    if s.destroyers[d] == Cleared && s.mutex != Nobody {
      match s.mutex
      case WorkerOf(w) => assert Enabled(s, WorkerStep(w, false));
      case DestroyerOf(_) => assert false;
    }
  }

  // ----- what the threads get done

  /** All steps of the run can be taken, one after another, and end in `t`. */
  ghost predicate Leads(s: State, run: seq<Step>, t: State)
    decreases |run|
  {
    if run == [] then s == t else Enabled(s, run[0]) && Leads(Do(s, run[0]), run[1..], t)
  }

  lemma {:induction false} LeadsJoin(s: State, a: seq<Step>, t: State, b: seq<Step>, u: State)
    requires Leads(s, a, t) && Leads(t, b, u)
    ensures Leads(s, a + b, u)
    decreases |a|
  {
    hide Do, Enabled;
    if a == [] {
      assert a + b == b;
    } else {
      LeadsJoin(Do(s, a[0]), a[1..], t, b, u);
      assert (a + b)[1..] == a[1..] + b;
    }
  }

  lemma {:induction false} LeadsThere(s: State, run: seq<Step>, t: State)
    requires Leads(s, run, t)
    ensures After(s, run) == t
    decreases |run|
  {
    hide Do, Enabled;
    if run != [] {
      LeadsThere(Do(s, run[0]), run[1..], t);
    }
  }

  lemma LeadsStep(s: State, step: Step, run: seq<Step>, t: State)
    requires Enabled(s, step) && Leads(Do(s, step), run, t)
    ensures Leads(s, [step] + run, t)
  {
    hide Do, Enabled;
    assert ([step] + run)[1..] == run;
  }

  /** Steps of one worker, each time finding a due timer, or none. */
  function Own(w: nat, due: bool, n: nat): seq<Step> {
    if n == 0 then [] else [WorkerStep(w, due)] + Own(w, due, n - 1)
  }

  function Callers(d: nat, n: nat): seq<Step> {
    if n == 0 then [] else [DestroyerStep(d)] + Callers(d, n - 1)
  }

  /** Worker `w` stands at `p`, and the log has grown by `news`. */
  function Moved(s: State, w: nat, p: Worker, news: seq<Event>): State
    requires w < |s.workers|
  {
    s.(workers := s.workers[w := p], log := s.log + news)
  }

  const CALLBACK := [CallbackStarted, FramePushed(true), CallbackEnded]

  /** A due timer: its callback starts, pushes a frame, and ends. */
  lemma CallbackRuns(s: State, w: nat, rest: seq<Step>, t: State)
    requires w < |s.workers| && s.workers[w] == Draining && s.engine
    requires Leads(Moved(s, w, Draining, CALLBACK), rest, t)
    ensures Leads(s, [WorkerStep(w, true)] + ([WorkerStep(w, true)] + rest), t)
  {
    var s1 := Do(s, WorkerStep(w, true));
    assert Do(s1, WorkerStep(w, true)) == Moved(s, w, Draining, CALLBACK);
    LeadsStep(s1, WorkerStep(w, true), rest, t);
    LeadsStep(s, WorkerStep(w, true), [WorkerStep(w, true)] + rest, t);
  }

  /** The steps of one pass of the loop in which `n` timers are due: the flag, the wait, the callbacks, the end. */
  function Callbacks(w: nat, n: nat): seq<Step> {
    if n == 0 then [WorkerStep(w, false)]
    else [WorkerStep(w, true)] + ([WorkerStep(w, true)] + Callbacks(w, n - 1))
  }

  function Pass(w: nat, n: nat): seq<Step> {
    [WorkerStep(w, true)] + ([WorkerStep(w, true)] + Callbacks(w, n))
  }

  function CallbackEvents(n: nat): seq<Event> {
    if n == 0 then [] else CALLBACK + CallbackEvents(n - 1)
  }

  lemma {:induction false} CallbacksRun(s: State, w: nat, n: nat)
    requires w < |s.workers| && s.workers[w] == Draining && s.engine
    ensures Leads(s, Callbacks(w, n), Moved(s, w, AtFlag, CallbackEvents(n)))
    decreases n
  {
    var t := Moved(s, w, AtFlag, CallbackEvents(n));
    if n == 0 {
      assert Do(s, WorkerStep(w, false)) == t;
      assert [WorkerStep(w, false)] + [] == [WorkerStep(w, false)];
      LeadsStep(s, WorkerStep(w, false), [], t);
    } else {
      var u := Moved(s, w, Draining, CALLBACK);
      CallbacksRun(u, w, n - 1);
      assert Moved(u, w, AtFlag, CallbackEvents(n - 1)) == t;
      CallbackRuns(s, w, Callbacks(w, n - 1), t);
    }
  }

  /** In every reachable state whoever may still push a frame has a live engine. */
  lemma EngineIsUp(s: State, w: nat)
    requires Invariant(s) && w < |s.workers|
    ensures s.run || InPass(s.workers[w]) ==> s.engine
    ensures InLoop(s.workers[w]) ==> s.mutex == WorkerOf(w)
  {
  }

  lemma Reached(workers: nat, destroyers: nat, run: seq<Step>)
    ensures var s := After(Initial(workers, destroyers), run);
            Invariant(s) && |s.workers| == workers && |s.destroyers| == destroyers
  {
    assert Invariant(Initial(workers, destroyers));
    RunsKeepInvariant(Initial(workers, destroyers), run);
    KeepsThreads(Initial(workers, destroyers), run);
  }

  /** While the flag is up a pass of the loop runs the callbacks of all due timers, any number of them, pushes a frame
      in each, and comes back to the flag; nothing else changes. */
  lemma PassRuns(workers: nat, destroyers: nat, before: seq<Step>, w: nat, n: nat)
    requires w < workers
    ensures var s := After(Initial(workers, destroyers), before);
            && w < |s.workers|
            && (s.run && s.workers[w] == AtFlag ==> Leads(s, Pass(w, n), s.(log := s.log + CallbackEvents(n))))
  {
    var s := After(Initial(workers, destroyers), before);
    Reached(workers, destroyers, before);
    EngineIsUp(s, w);
    if s.run && s.workers[w] == AtFlag {
      var t := s.(log := s.log + CallbackEvents(n));
      var s1 := Do(s, WorkerStep(w, true));
      var s2 := Do(s1, WorkerStep(w, true));
      CallbacksRun(s2, w, n);
      assert Moved(s2, w, AtFlag, CallbackEvents(n)) == t;
      LeadsStep(s1, WorkerStep(w, true), Callbacks(w, n), t);
      LeadsStep(s, WorkerStep(w, true), [WorkerStep(w, true)] + Callbacks(w, n), t);
    }
  }

  /** How many steps a worker in the loop takes to be back where the next due timer is looked for. */
  function StepsToTimers(p: Worker): nat {
    match p
    case AtFlag => 2
    case Waiting => 1
    case InCallback => 1
    case _ => 0
  }

  /** What a worker still logs for the callback it is in. */
  function Unfinished(p: Worker): seq<Event> {
    if p.InCallback? then [FramePushed(true), CallbackEnded] else []
  }

  lemma TwoOwn(w: nat, due: bool, rest: seq<Step>)
    ensures Own(w, due, 1) + rest == [WorkerStep(w, due)] + rest
    ensures Own(w, due, 2) + rest == [WorkerStep(w, due)] + ([WorkerStep(w, due)] + rest)
  {
    assert Own(w, due, 0) == [] && Own(w, due, 1) == [WorkerStep(w, due)];
    assert Own(w, due, 2) == [WorkerStep(w, due)] + Own(w, due, 1);
  }

  lemma ToTimers(s: State, w: nat, rest: seq<Step>, t: State)
    requires w < |s.workers| && InLoop(s.workers[w]) && s.run && s.engine
    requires Leads(Moved(s, w, Draining, Unfinished(s.workers[w])), rest, t)
    ensures Leads(s, Own(w, true, StepsToTimers(s.workers[w])) + rest, t)
  {
    var p := s.workers[w];
    var u := Moved(s, w, Draining, Unfinished(p));
    if p == Draining {
      assert u == s && Own(w, true, 0) + rest == rest;
    } else if p == AtFlag {
      var s1 := Do(s, WorkerStep(w, true));
      assert Do(s1, WorkerStep(w, true)) == u;
      LeadsStep(s1, WorkerStep(w, true), rest, t);
      LeadsStep(s, WorkerStep(w, true), [WorkerStep(w, true)] + rest, t);
      TwoOwn(w, true, rest);
    } else {
      assert Do(s, WorkerStep(w, true)) == u;
      LeadsStep(s, WorkerStep(w, true), rest, t);
      TwoOwn(w, true, rest);
    }
  }

  lemma MoreOwn(w: nat, due: bool, m: nat, n: nat)
    ensures Own(w, due, m) + Own(w, due, n) == Own(w, due, m + n)
  {
    if m > 0 {
      MoreOwn(w, due, m - 1, n);
      assert Own(w, due, m) + Own(w, due, n) == [WorkerStep(w, due)] + (Own(w, due, m - 1) + Own(w, due, n));
    }
  }

  /** From every reachable state with the flag up a worker in the loop gets, by its own steps, to run the callback of a
      due timer, which pushes a frame. */
  lemma DueTimerFires(workers: nat, destroyers: nat, before: seq<Step>, w: nat)
    requires w < workers
    ensures var s := After(Initial(workers, destroyers), before);
            && w < |s.workers|
            && (s.run && InLoop(s.workers[w]) ==>
                  Leads(s, Own(w, true, StepsToTimers(s.workers[w]) + 2),
                        Moved(s, w, Draining, Unfinished(s.workers[w]) + CALLBACK)))
  {
    var s := After(Initial(workers, destroyers), before);
    Reached(workers, destroyers, before);
    EngineIsUp(s, w);
    if s.run && InLoop(s.workers[w]) {
      var k := StepsToTimers(s.workers[w]);
      var u := Moved(s, w, Draining, Unfinished(s.workers[w]));
      var t := Moved(s, w, Draining, Unfinished(s.workers[w]) + CALLBACK);
      assert Moved(u, w, Draining, CALLBACK) == t;
      assert Leads(t, [], t);
      CallbackRuns(u, w, [], t);
      TwoOwn(w, true, []);
      assert Own(w, true, 2) + [] == Own(w, true, 2);
      ToTimers(s, w, Own(w, true, 2), t);
      MoreOwn(w, true, k, 2);
    }
  }

  /** A thread that has just been made gets into the loop, whenever the mutex is free. */
  lemma WorkerStarts(workers: nat, destroyers: nat, before: seq<Step>, w: nat)
    requires w < workers
    ensures var s := After(Initial(workers, destroyers), before);
            && w < |s.workers|
            && (s.workers[w] == Unborn && s.mutex == Nobody ==>
                  Leads(s, Own(w, false, 2), s.(workers := s.workers[w := AtFlag], mutex := WorkerOf(w))))
  {
    var s := After(Initial(workers, destroyers), before);
    Reached(workers, destroyers, before);
    if s.workers[w] == Unborn && s.mutex == Nobody {
      var t := s.(workers := s.workers[w := AtFlag], mutex := WorkerOf(w));
      var s1 := Do(s, WorkerStep(w, false));
      assert Do(s1, WorkerStep(w, false)) == t;
      TwoOwn(w, false, []);
      LeadsStep(s1, WorkerStep(w, false), [], t);
      LeadsStep(s, WorkerStep(w, false), [WorkerStep(w, false)] + [], t);
      assert Own(w, false, 2) + [] == Own(w, false, 2);
    }
  }

  /** Worker `w` has left the loop and the mutex. */
  function LeftLoop(s: State, w: nat): State
    requires w < |s.workers|
  {
    s.(workers := s.workers[w := Gone], mutex := Nobody, log := s.log + Unfinished(s.workers[w]))
  }

  function StepsToLeave(p: Worker): nat {
    match p
    case AtFlag => 1
    case Draining => 2
    case _ => 3
  }

  lemma WorkerLeaves(s: State, w: nat)
    requires w < |s.workers| && InLoop(s.workers[w]) && !s.run && (s.workers[w] == InCallback ==> s.engine)
    ensures Leads(s, Own(w, false, StepsToLeave(s.workers[w])), LeftLoop(s, w))
    decreases StepsToLeave(s.workers[w])
  {
    var t := LeftLoop(s, w);
    var step := WorkerStep(w, false);
    var s1 := Do(s, step);
    if s.workers[w] == AtFlag {
      assert s1 == t && Own(w, false, 0) == [] && Own(w, false, 1) == [step];
    } else {
      assert LeftLoop(s1, w) == t;
      WorkerLeaves(s1, w);
      LeadsStep(s, step, Own(w, false, StepsToLeave(s1.workers[w])), t);
    }
  }

  /** From every reachable state with the flag down a worker in the loop leaves it by its own steps, once no further
      timer is due, and frees the mutex. */
  lemma FlagDownLeaves(workers: nat, destroyers: nat, before: seq<Step>, w: nat)
    requires w < workers
    ensures var s := After(Initial(workers, destroyers), before);
            && w < |s.workers|
            && (!s.run && InLoop(s.workers[w]) ==>
                  Leads(s, Own(w, false, StepsToLeave(s.workers[w])), LeftLoop(s, w)))
  {
    var s := After(Initial(workers, destroyers), before);
    Reached(workers, destroyers, before);
    EngineIsUp(s, w);
    if !s.run && InLoop(s.workers[w]) {
      WorkerLeaves(s, w);
    }
  }

  // ----- what `destory` gets done

  /** What a caller that looks at the engine pointer logs: the end of the engine, if there is one. */
  function EndOfEngine(s: State): seq<Event> {
    if s.engine then [EngineDestroyed(true)] else []
  }

  /** Caller `d` has returned from `destory`. */
  function Returned(s: State, d: nat, news: seq<Event>): State
    requires d < |s.destroyers|
  {
    s.(destroyers := s.destroyers[d := Left], exitMutex := Nobody, engine := false, log := s.log + news)
  }

  lemma EndsEngine(s: State, d: nat)
    requires d < |s.destroyers| && s.destroyers[d] == Cancelled
    ensures Leads(s, Callers(d, if s.engine then 2 else 1), Returned(s, d, EndOfEngine(s)))
  {
    var step := DestroyerStep(d);
    var s1 := Do(s, step);
    assert Callers(d, 0) == [] && Callers(d, 1) == [step] && Callers(d, 2) == [step] + [step];
    if s.engine {
      assert Do(s1, step) == Returned(s, d, EndOfEngine(s));
      LeadsStep(s1, step, [], Returned(s, d, EndOfEngine(s)));
      LeadsStep(s, step, [step], Returned(s, d, EndOfEngine(s)));
    } else {
      assert s1 == Returned(s, d, EndOfEngine(s));
    }
  }

  /** In every reachable state a caller whose `cancel_loop` has returned destroys the engine, once, if there is one, and
      leaves. */
  lemma CancelledDestroys(workers: nat, destroyers: nat, before: seq<Step>, d: nat)
    requires d < destroyers
    ensures var s := After(Initial(workers, destroyers), before);
            && d < |s.destroyers|
            && (s.destroyers[d] == Cancelled ==>
                  Leads(s, Callers(d, if s.engine then 2 else 1), Returned(s, d, EndOfEngine(s))))
  {
    Reached(workers, destroyers, before);
    var s := After(Initial(workers, destroyers), before);
    if s.destroyers[d] == Cancelled { EndsEngine(s, d); }
  }

  /** The steps of a call of `destory`, while the worker in the loop, if there is one, leaves it. */
  function Shutdown(s: State, d: nat): seq<Step> {
    var leave := if s.mutex.WorkerOf? && s.mutex.w < |s.workers|
                 then Own(s.mutex.w, false, StepsToLeave(s.workers[s.mutex.w])) else [];
    Callers(d, 2) + leave + (Callers(d, 2) + Callers(d, if s.engine then 2 else 1))
  }

  /** What is logged meanwhile. */
  function ShutdownEvents(s: State): seq<Event> {
    (if s.mutex.WorkerOf? && s.mutex.w < |s.workers| then Unfinished(s.workers[s.mutex.w]) else [])
    + [CancelReturned] + EndOfEngine(s)
  }

  lemma Enters(s: State, d: nat)
    requires d < |s.destroyers| && s.destroyers[d] == Outside && s.exitMutex == Nobody
    ensures Leads(s, Callers(d, 2),
                  s.(destroyers := s.destroyers[d := Cleared], exitMutex := DestroyerOf(d), run := false))
  {
    var t := s.(destroyers := s.destroyers[d := Cleared], exitMutex := DestroyerOf(d), run := false);
    var step := DestroyerStep(d);
    var s1 := Do(s, step);
    assert Do(s1, step) == t;
    assert Callers(d, 0) == [] && Callers(d, 1) == [step] && Callers(d, 2) == [step] + [step];
    LeadsStep(s1, step, [], t);
    LeadsStep(s, step, [step], t);
  }

  lemma Cancels(s: State, d: nat)
    requires d < |s.destroyers| && s.destroyers[d] == Cleared && s.mutex == Nobody
    ensures Leads(s, Callers(d, 2), s.(destroyers := s.destroyers[d := Cancelled], log := s.log + [CancelReturned]))
  {
    var t := s.(destroyers := s.destroyers[d := Cancelled], log := s.log + [CancelReturned]);
    var step := DestroyerStep(d);
    var s1 := Do(s, step);
    assert Do(s1, step) == t;
    assert Callers(d, 0) == [] && Callers(d, 1) == [step] && Callers(d, 2) == [step] + [step];
    LeadsStep(s1, step, [], t);
    LeadsStep(s, step, [step], t);
  }

  /** The worker in the loop, if there is one, leaves it, and nobody holds the mutex. */
  lemma LoopIsLeft(s: State, d: nat) returns (t: State)
    requires Invariant(s) && OwnerExists(s) && d < |s.destroyers| && s.destroyers[d] == Cleared
    ensures var inLoop := s.mutex.WorkerOf? && s.mutex.w < |s.workers|;
            && t == (if inLoop then LeftLoop(s, s.mutex.w) else s)
            && Leads(s, if inLoop then Own(s.mutex.w, false, StepsToLeave(s.workers[s.mutex.w])) else [], t)
    ensures t.mutex == Nobody
  {
    t := s;
    assert Inside(s.destroyers[d]);
    assert s.mutex.DestroyerOf? ==> Inside(s.destroyers[s.mutex.d]);
    if s.mutex.WorkerOf? {
      EngineIsUp(s, s.mutex.w);
      WorkerLeaves(s, s.mutex.w);
      t := LeftLoop(s, s.mutex.w);
    }
  }

  /** Once the flag is cleared: the worker in the loop leaves it, the cancel returns, the engine ends. */
  lemma ClearedCompletes(s: State, d: nat, inLoop: bool, leave: seq<Step>) returns (t: State)
    requires Invariant(s) && OwnerExists(s) && d < |s.destroyers| && s.destroyers[d] == Cleared
    requires inLoop == (s.mutex.WorkerOf? && s.mutex.w < |s.workers|)
    requires leave == if inLoop then Own(s.mutex.w, false, StepsToLeave(s.workers[s.mutex.w])) else []
    ensures Leads(s, leave + (Callers(d, 2) + Callers(d, if s.engine then 2 else 1)), t)
    ensures t.log == s.log + ((if inLoop then Unfinished(s.workers[s.mutex.w]) else [])
                              + [CancelReturned] + EndOfEngine(s))
    ensures t.destroyers == s.destroyers[d := Left]
    ensures t.exitMutex == t.mutex == Nobody && t.run == s.run && !t.engine
  {
    var s2 := LoopIsLeft(s, d);
    hide Invariant, OwnerExists, Leads, Callers, Own, StepsToLeave;
    Cancels(s2, d);
    var s3 := s2.(destroyers := s2.destroyers[d := Cancelled], log := s2.log + [CancelReturned]);
    EndsEngine(s3, d);
    t := Returned(s3, d, EndOfEngine(s3));
    var last := Callers(d, if s.engine then 2 else 1);
    LeadsJoin(s2, Callers(d, 2), s3, last, t);
    LeadsJoin(s, leave, s2, Callers(d, 2) + last, t);
  }

  lemma OwnersReached(workers: nat, destroyers: nat, run: seq<Step>)
    ensures OwnerExists(After(Initial(workers, destroyers), run))
  {
    OwnersExist(Initial(workers, destroyers), run);
  }

  lemma SameEngine(s: State, t: State)
    requires s.engine == t.engine
    ensures EndOfEngine(s) == EndOfEngine(t)
  {
  }

  /** From every reachable state in which nobody is in `destory`, a call of it completes: the worker in the loop leaves
      it, `cancel_loop` returns, and the engine is destroyed, unless it was before. */
  lemma ShutdownCompletes(workers: nat, destroyers: nat, before: seq<Step>, d: nat) returns (t: State)
    requires d < destroyers
    requires var s := After(Initial(workers, destroyers), before);
             d < |s.destroyers| && s.destroyers[d] == Outside && s.exitMutex == Nobody
    ensures var s := After(Initial(workers, destroyers), before);
            && Leads(s, Shutdown(s, d), t)
            && t.log == s.log + ShutdownEvents(s)
            && t.destroyers == s.destroyers[d := Left]
            && t.exitMutex == t.mutex == Nobody && !t.run && !t.engine
  {
    hide Invariant, OwnerExists, Callers, Own, StepsToLeave, Leads, Unfinished, EndOfEngine;
    var s := After(Initial(workers, destroyers), before);
    Reached(workers, destroyers, before);
    OwnersReached(workers, destroyers, before);
    Enters(s, d);
    var s1 := s.(destroyers := s.destroyers[d := Cleared], exitMutex := DestroyerOf(d), run := false);
    LeadsThere(s, Callers(d, 2), s1);
    RunsKeepInvariant(s, Callers(d, 2));
    OwnersExist(s, Callers(d, 2));
    var inLoop := s.mutex.WorkerOf? && s.mutex.w < |s.workers|;
    var leave := if inLoop then Own(s.mutex.w, false, StepsToLeave(s.workers[s.mutex.w])) else [];
    t := ClearedCompletes(s1, d, inLoop, leave);
    SameEngine(s, s1);
    var last := Callers(d, 2) + Callers(d, if s.engine then 2 else 1);
    LeadsJoin(s, Callers(d, 2), s1, leave + last, t);
    assert Callers(d, 2) + leave + last == Callers(d, 2) + (leave + last);
  }

  /** One such run, with one loop and one call: a frame is pushed, the loop is cancelled, the engine is destroyed. */
  lemma FrameThenShutdown() returns (run: seq<Step>)
    ensures After(Initial(1, 1), run).log == CALLBACK + [CancelReturned, EngineDestroyed(true)]
  {
    var s := Initial(1, 1);
    assert After(s, []) == s;
    WorkerStarts(1, 1, [], 0);
    var s1 := s.(workers := s.workers[0 := AtFlag], mutex := WorkerOf(0));
    LeadsThere(s, Own(0, false, 2), s1);
    PassRuns(1, 1, Own(0, false, 2), 0, 1);
    var s2 := s1.(log := CALLBACK);
    assert CallbackEvents(1) == CALLBACK + CallbackEvents(0) == CALLBACK;
    assert s2 == s1.(log := s1.log + CallbackEvents(1));
    LeadsJoin(s, Own(0, false, 2), s1, Pass(0, 1), s2);
    var before := Own(0, false, 2) + Pass(0, 1);
    LeadsThere(s, before, s2);
    var t := ShutdownCompletes(1, 1, before, 0);
    run := before + Shutdown(s2, 0);
    LeadsJoin(s, before, s2, Shutdown(s2, 0), t);
    LeadsThere(s, run, t);
  }

  // ----- what the log tells

  /** A frame is pushed right after a callback has started and nowhere else, and right after that the callback ends. */
  predicate InOrder(log: seq<Event>, i: nat)
    requires i < |log|
  {
    && (log[i].FramePushed? <==> i > 0 && log[i - 1].CallbackStarted?)
    && (log[i].CallbackEnded? <==> i > 0 && log[i - 1].FramePushed?)
  }

  /** Callbacks run one at a time, and nothing else is logged inside one. */
  ghost predicate CallbacksWhole(s: State) {
    && (forall i :: 0 <= i < |s.log| ==> InOrder(s.log, i))
    && (InCallback in s.workers <==> s.log != [] && s.log[|s.log| - 1] == CallbackStarted)
    && (s.log != [] ==> !s.log[|s.log| - 1].FramePushed?)
  }

  /** The log tells how many calls have cancelled the loop, and whether the engine is gone. */
  ghost predicate LogTells(s: State) {
    && multiset(s.log)[CancelReturned]
       == multiset(s.destroyers)[Cancelled] + multiset(s.destroyers)[Releasing] + multiset(s.destroyers)[Left]
    && multiset(s.log)[EngineDestroyed(true)] == (if s.engine then 0 else 1)
    && (multiset(s.destroyers)[Left] > 0 ==> !s.engine)
  }

  /** The flag is down exactly when a call has cleared it. */
  ghost predicate FlagTells(s: State) {
    s.run <==> forall d :: 0 <= d < |s.destroyers| ==> !HasCleared(s.destroyers[d])
  }

  lemma InOrderGrows(log: seq<Event>, e: Event)
    requires forall i :: 0 <= i < |log| ==> InOrder(log, i)
    requires InOrder(log + [e], |log|)
    ensures forall i :: 0 <= i < |log + [e]| ==> InOrder(log + [e], i)
  {
    forall i | 0 <= i < |log| ensures InOrder(log + [e], i) {
      assert InOrder(log, i);
    }
  }

  lemma PushInOrder(log: seq<Event>)
    requires forall i :: 0 <= i < |log| ==> InOrder(log, i)
    requires log != [] && log[|log| - 1] == CallbackStarted
    ensures forall i :: 0 <= i < |log| + 2 ==> InOrder(log + [FramePushed(true), CallbackEnded], i)
  {
    InOrderGrows(log, FramePushed(true));
    InOrderGrows(log + [FramePushed(true)], CallbackEnded);
    assert log + [FramePushed(true)] + [CallbackEnded] == log + [FramePushed(true), CallbackEnded];
  }

  lemma OnlyInLoop(s: State, w: nat, p: Worker)
    requires Ownership(s) && w < |s.workers| && InLoop(s.workers[w])
    ensures InCallback in s.workers <==> s.workers[w] == InCallback
    ensures InCallback in s.workers[w := p] <==> p == InCallback
  {
    assert s.mutex == WorkerOf(w) && s.workers[w := p][w] == p;
  }

  lemma OutsideLoop(s: State, w: nat, p: Worker)
    requires w < |s.workers| && s.workers[w] != InCallback && p != InCallback
    ensures InCallback in s.workers[w := p] <==> InCallback in s.workers
  {
    if k :| 0 <= k < |s.workers| && s.workers[k] == InCallback {
      assert s.workers[w := p][k] == InCallback;
    }
  }

  lemma StartInOrder(log: seq<Event>)
    requires forall i :: 0 <= i < |log| ==> InOrder(log, i)
    requires log != [] ==> log[|log| - 1] != CallbackStarted && !log[|log| - 1].FramePushed?
    ensures forall i :: 0 <= i < |log| + 1 ==> InOrder(log + [CallbackStarted], i)
  {
    InOrderGrows(log, CallbackStarted);
  }

  lemma WorkerKeepsCallbacks(s: State, w: nat, due: bool)
    requires Invariant(s) && CallbacksWhole(s) && Enabled(s, WorkerStep(w, due))
    ensures CallbacksWhole(DoWorker(s, w, due))
  {
    EngineIsUp(s, w);
    var t := DoWorker(s, w, due);
    if !InLoop(s.workers[w]) {
      assert t.workers[w] != InCallback;
      OutsideLoop(s, w, t.workers[w]);
    } else {
      OnlyInLoop(s, w, t.workers[w]);
      hide Ownership, History, InOrder;
      if s.workers[w] == InCallback {
        PushInOrder(s.log);
      } else if s.workers[w] == Draining && due {
        StartInOrder(s.log);
      }
    }
  }

  lemma DestroyerKeepsCallbacks(s: State, d: nat)
    requires Invariant(s) && CallbacksWhole(s) && Enabled(s, DestroyerStep(d))
    ensures CallbacksWhole(DoDestroyer(s, d))
  {
    var t := DoDestroyer(s, d);
    assert s.destroyers[d] == HasMutex <==> s.mutex == DestroyerOf(d);
    assert t.log != s.log ==> InCallback !in s.workers;
    hide Ownership, History;
    if t.log != s.log {
      var e := t.log[|s.log|];
      assert t.log == s.log + [e];
      InOrderGrows(s.log, e);
    }
  }

  lemma LogGrows(log: seq<Event>, news: seq<Event>, e: Event)
    ensures multiset(log + news)[e] == multiset(log)[e] + multiset(news)[e]
  {
  }

  lemma WorkerKeepsLedger(s: State, w: nat, due: bool)
    requires LogTells(s) && Enabled(s, WorkerStep(w, due))
    ensures LogTells(DoWorker(s, w, due))
  {
    LogGrows(s.log, [CallbackStarted], CancelReturned);
    LogGrows(s.log, [CallbackStarted], EngineDestroyed(true));
    LogGrows(s.log, [FramePushed(s.engine), CallbackEnded], CancelReturned);
    LogGrows(s.log, [FramePushed(s.engine), CallbackEnded], EngineDestroyed(true));
  }

  lemma CallMoves(ds: seq<Destroyer>, d: nat, p: Destroyer, q: Destroyer)
    requires d < |ds|
    ensures multiset(ds[d := p])[q]
            == multiset(ds)[q] - (if ds[d] == q then 1 else 0) + if p == q then 1 else 0
  {
  }

  /** What a step of a caller at `from` logs. */
  function LoggedBy(s: State, from: Destroyer): seq<Event> {
    if from == HasMutex then [CancelReturned] else if from == Releasing then [EngineDestroyed(s.engine)] else []
  }

  lemma CallCounts(s: State, d: nat, p: Destroyer)
    requires d < |s.destroyers|
    ensures var was, now := multiset(s.destroyers), multiset(s.destroyers[d := p]);
            var from := s.destroyers[d];
            now[Cancelled] + now[Releasing] + now[Left] == was[Cancelled] + was[Releasing] + was[Left]
              - (if from in {Cancelled, Releasing, Left} then 1 else 0)
              + (if p in {Cancelled, Releasing, Left} then 1 else 0)
    ensures p != Left ==> multiset(s.destroyers[d := p])[Left] <= multiset(s.destroyers)[Left]
  {
    CallMoves(s.destroyers, d, p, Cancelled);
    CallMoves(s.destroyers, d, p, Releasing);
    CallMoves(s.destroyers, d, p, Left);
  }

  lemma EventCounts(s: State, from: Destroyer)
    requires from == Releasing ==> s.engine
    ensures var was, now := multiset(s.log), multiset(s.log + LoggedBy(s, from));
            && now[CancelReturned] == was[CancelReturned] + (if from == HasMutex then 1 else 0)
            && now[EngineDestroyed(true)] == was[EngineDestroyed(true)] + (if from == Releasing then 1 else 0)
  {
    var news := LoggedBy(s, from);
    LogGrows(s.log, news, CancelReturned);
    LogGrows(s.log, news, EngineDestroyed(true));
  }

  lemma CallerStep(s: State, d: nat)
    requires Enabled(s, DestroyerStep(d))
    ensures var t, from := DoDestroyer(s, d), s.destroyers[d];
            && |t.destroyers| == |s.destroyers|
            && t.destroyers == s.destroyers[d := t.destroyers[d]] && t.log == s.log + LoggedBy(s, from)
            && t.engine == (s.engine && from != Releasing) && (t.destroyers[d] == Left ==> !t.engine)
            && (t.destroyers[d] in {Cancelled, Releasing, Left} <==> from in {HasMutex, Cancelled, Releasing})
  {
  }

  lemma DestroyerKeepsLedger(s: State, d: nat)
    requires LogTells(s) && Enabled(s, DestroyerStep(d)) && (s.destroyers[d] == Releasing ==> s.engine)
    ensures LogTells(DoDestroyer(s, d))
  {
    hide DoDestroyer, LoggedBy;
    CallerStep(s, d);
    CallCounts(s, d, DoDestroyer(s, d).destroyers[d]);
    EventCounts(s, s.destroyers[d]);
  }

  lemma StepKeepsFlag(s: State, step: Step)
    requires FlagTells(s) && Enabled(s, step)
    ensures FlagTells(Do(s, step))
  {
    var t := Do(s, step);
    if step.DestroyerStep? {
      assert t.run == (s.run && s.destroyers[step.d] != Entered);
      assert s.destroyers[step.d] == Entered ==> HasCleared(t.destroyers[step.d]);
      assert HasCleared(s.destroyers[step.d]) ==> HasCleared(t.destroyers[step.d]);
      forall d | 0 <= d < |s.destroyers| ensures HasCleared(s.destroyers[d]) ==> HasCleared(t.destroyers[d]) {
      }
    }
  }

  /** What the log and the flag tell. */
  ghost predicate Tells(s: State) {
    CallbacksWhole(s) && LogTells(s) && FlagTells(s)
  }

  lemma StepKeepsTells(s: State, step: Step)
    requires Invariant(s) && Tells(s) && Enabled(s, step)
    ensures Invariant(Do(s, step)) && Tells(Do(s, step))
  {
    hide CallbacksWhole, LogTells, FlagTells;
    StepKeepsFlag(s, step);
    match step {
      case WorkerStep(w, due) =>
        WorkerKeepsInvariant(s, w, due);
        WorkerKeepsCallbacks(s, w, due);
        WorkerKeepsLedger(s, w, due);
      case DestroyerStep(d) =>
        DestroyerKeepsOwnership(s, d);
        DestroyerKeepsHistory(s, d);
        DestroyerKeepsCallbacks(s, d);
        DestroyerKeepsLedger(s, d);
    }
  }

  lemma {:induction false} RunsKeepTells(s: State, run: seq<Step>)
    requires Invariant(s) && Tells(s)
    ensures Tells(After(s, run))
    decreases |run|
  {
    hide Invariant, Tells;
    if run != [] && Enabled(s, run[0]) {
      StepKeepsTells(s, run[0]);
      RunsKeepTells(Do(s, run[0]), run[1..]);
    }
  }

  lemma {:induction false} NobodyCalls(n: nat, p: Destroyer)
    requires p != Outside
    ensures multiset(Initial(0, n).destroyers)[p] == 0
  {
    assert forall q :: q in Initial(0, n).destroyers ==> q == Outside;
  }

  /** Over every run: callbacks never overlap, and each pushes its frame; every return of `cancel_loop` is logged once;
      the engine is destroyed at most once, and before any call of `destory` returns; only such calls clear the flag. */
  lemma LogIsExact(workers: nat, destroyers: nat, run: seq<Step>)
    ensures Tells(After(Initial(workers, destroyers), run))
  {
    var s := Initial(workers, destroyers);
    NobodyCalls(destroyers, Cancelled);
    NobodyCalls(destroyers, Releasing);
    NobodyCalls(destroyers, Left);
    assert Invariant(s) && CallbacksWhole(s) && FlagTells(s);
    RunsKeepTells(s, run);
  }
}
