/**
 The failure lockout of the web worker, shared by all connection threads, and
 the thread counter that bounds how many of them there are.  Each handler checks
 the lockout, compares the token and records a failure in three separate steps,
 and the handlers' steps interleave in every way.
 */
module Lockout {
  import opened Windows

  type Ip = nat
  type Handler = nat

  datatype Limits = Limits(failures: nat, window: nat, threads: nat) {
    predicate Ok() {
      failures > 0
    }

    /** The failures of one address that can fall in one window. */
    function Bound(): nat
      requires Ok()
    {
      failures - 1 + threads
    }
  }

  /** RATE_AUTH_FAIL_LIMIT, RATE_AUTH_FAIL_WINDOW in milliseconds, MAX_WEB_THREADS. */
  const SOURCE: Limits := Limits(20, 300_000, 64)

  /** A handler before the lockout check, past it, or with its response sent. */
  datatype Stage = Arrived(ip: Ip) | Passed(ip: Ip) | Done

  datatype State = State(
    now: nat,
    counter: int,                // WEB_THREADS
    admitted: bool,              // the accept loop has seen room and not yet counted
    spawning: nat,               // counted connections whose thread has not started
    handlers: map<Handler, Stage>,
    failed: map<Ip, seq<nat>>,   // auth_fail, as pruned by the checks
    log: map<Ip, seq<nat>>)      // history: every failure recorded

  datatype Step =
    | Tick(time: nat)
    | SeeRoom                    // the load that finds fewer than the maximum
    | CountIn                    // fetch_add
    | Spawn(h: Handler, ip: Ip)
    | SpawnFails
    | Check(h: Handler)          // auth_failures_exceeded
    | Authorize(h: Handler)      // the comparison succeeds
    | Record(h: Handler)         // the comparison fails: record_auth_failure
    | Respond(h: Handler)        // any response that records nothing
    | Exit(h: Handler)           // fetch_sub
    | Panic(h: Handler)          // the thread dies without counting itself out

  function Lookup(m: map<Ip, seq<nat>>, ip: Ip): seq<nat> {
    if ip in m then m[ip] else []
  }

  predicate Enabled(l: Limits, s: State, step: Step) {
    match step
    case Tick(_) => true
    case SeeRoom => !s.admitted && s.counter < l.threads
    case CountIn => s.admitted
    case Spawn(h, _) => s.spawning > 0 && h !in s.handlers
    case SpawnFails => s.spawning > 0
    case Check(h) => h in s.handlers && s.handlers[h].Arrived?
    case Authorize(h) => h in s.handlers && s.handlers[h].Passed?
    case Record(h) => h in s.handlers && s.handlers[h].Passed?
    case Respond(h) => h in s.handlers
    case Exit(h) => h in s.handlers && s.handlers[h].Done?
    case Panic(h) => h in s.handlers
  }

  function Apply(l: Limits, s: State, step: Step): State
    requires Enabled(l, s, step)
  {
    match step
    case Tick(d) => s.(now := s.now + d)
    case SeeRoom => s.(admitted := true)
    case CountIn => s.(admitted := false, counter := s.counter + 1, spawning := s.spawning + 1)
    case Spawn(h, ip) => s.(spawning := s.spawning - 1, handlers := s.handlers[h := Arrived(ip)])
    case SpawnFails => s.(spawning := s.spawning - 1, counter := s.counter - 1)
    case Check(h) =>
      var ip := s.handlers[h].ip;
      var hits := Recent(Lookup(s.failed, ip), s.now, l.window);
      s.(failed := s.failed[ip := hits], handlers := s.handlers[h := if |hits| >= l.failures then Done else Passed(ip)])
    case Authorize(h) => s.(handlers := s.handlers[h := Done])
    case Record(h) =>
      var ip := s.handlers[h].ip;
      s.(failed := s.failed[ip := Lookup(s.failed, ip) + [s.now]],
         log := s.log[ip := Lookup(s.log, ip) + [s.now]],
         handlers := s.handlers[h := Done])
    case Respond(h) => s.(handlers := s.handlers[h := Done])
    case Exit(h) => s.(handlers := s.handlers - {h}, counter := s.counter - 1)
    case Panic(h) => s.(handlers := s.handlers - {h})
  }

  function Initial(): State {
    State(0, 0, false, 0, map[], map[], map[])
  }

  // ----- What every step keeps

  /** Live handlers never exceed the counter, and the counter never exceeds the maximum. */
  predicate Capped(l: Limits, s: State) {
    && |s.handlers| + s.spawning <= s.counter
    && s.counter + (if s.admitted then 1 else 0) <= l.threads
  }

  /** Handlers that passed the check for this address and may still record a failure. */
  function Armed(s: State, ip: Ip): set<Handler> {
    set h | h in s.handlers && s.handlers[h] == Passed(ip)
  }

  /** The pruned vector of an address stands for its history. */
  predicate InStep(failed: seq<nat>, log: seq<nat>, now: nat, window: nat) {
    Sorted(log, now) && Recent(failed, now, window) == Recent(log, now, window)
  }

  predicate Agrees(l: Limits, s: State, ip: Ip) {
    InStep(Lookup(s.failed, ip), Lookup(s.log, ip), s.now, l.window)
  }

  lemma InStepLater(failed: seq<nat>, log: seq<nat>, now: nat, later: nat, window: nat)
    requires InStep(failed, log, now, window) && now <= later
    ensures InStep(failed, log, later, window)
  {
    RecentTwice(failed, now, later, window);
    RecentTwice(log, now, later, window);
  }

  lemma InStepPruned(failed: seq<nat>, log: seq<nat>, now: nat, window: nat)
    requires InStep(failed, log, now, window)
    ensures InStep(Recent(failed, now, window), log, now, window)
  {
    RecentTwice(failed, now, now, window);
  }

  lemma InStepRecorded(failed: seq<nat>, log: seq<nat>, now: nat, window: nat)
    requires InStep(failed, log, now, window)
    ensures InStep(failed + [now], log + [now], now, window)
  {
    RecentAppend(failed, now, now, window);
    RecentAppend(log, now, now, window);
  }

  /**
   Every window holds at most the bound; and a window that is still open and has
   reached the limit leaves room for every armed handler.
   */
  ghost predicate Bounded(l: Limits, s: State, ip: Ip, lo: nat)
    requires l.Ok()
  {
    var n := Count(Lookup(s.log, ip), lo, lo + l.window);
    && n <= l.Bound()
    && (s.now < lo + l.window && n >= l.failures ==> n + |Armed(s, ip)| <= l.Bound())
  }

  ghost predicate Inv(l: Limits, s: State) {
    && l.Ok() && Capped(l, s)
    && (forall ip :: Agrees(l, s, ip))
    && (forall ip, lo :: Bounded(l, s, ip, lo))
  }

  lemma CappedStep(l: Limits, s: State, step: Step)
    requires Capped(l, s) && Enabled(l, s, step)
    ensures Capped(l, Apply(l, s, step))
  {
    match step
    case Spawn(h, ip) => SizeUpdate(s.handlers, h, Arrived(ip));
    case Check(h) => SizeUpdate(s.handlers, h, Apply(l, s, step).handlers[h]);
    case Authorize(h) => SizeUpdate(s.handlers, h, Done);
    case Record(h) => SizeUpdate(s.handlers, h, Done);
    case Respond(h) => SizeUpdate(s.handlers, h, Done);
    case Exit(h) => SizeUpdate(s.handlers, h, Done);
    case Panic(h) => SizeUpdate(s.handlers, h, Done);
    case _ =>
  }

  lemma SizeUpdate(m: map<Handler, Stage>, h: Handler, stage: Stage)
    ensures |m[h := stage]| == if h in m then |m| else |m| + 1
    ensures h in m ==> |m - {h}| == |m| - 1
  {
    assert m[h := stage].Keys == m.Keys + {h};
    assert (m - {h}).Keys == m.Keys - {h};
  }

  lemma AgreesStep(l: Limits, s: State, step: Step, ip: Ip)
    requires Agrees(l, s, ip) && Enabled(l, s, step)
    ensures Agrees(l, Apply(l, s, step), ip)
  {
    var failed, log := Lookup(s.failed, ip), Lookup(s.log, ip);
    var t := Apply(l, s, step);
    if step.Tick? {
      InStepLater(failed, log, s.now, s.now + step.time, l.window);
    } else if step.Check? && s.handlers[step.h].ip == ip {
      InStepPruned(failed, log, s.now, l.window);
    } else if step.Record? && s.handlers[step.h].ip == ip {
      InStepRecorded(failed, log, s.now, l.window);
    } else {
      assert Lookup(t.failed, ip) == failed && Lookup(t.log, ip) == log;
    }
  }

  /** No step but a passed check arms a handler. */
  lemma ArmedStep(l: Limits, s: State, step: Step, ip: Ip)
    requires Enabled(l, s, step)
    ensures var t := Apply(l, s, step);
            && (!(step.Check? && s.handlers[step.h].ip == ip) ==> |Armed(t, ip)| <= |Armed(s, ip)|)
            && (step.Record? && s.handlers[step.h].ip == ip ==> |Armed(t, ip)| < |Armed(s, ip)|)
  {
    var t := Apply(l, s, step);
    if step.Record? && s.handlers[step.h].ip == ip {
      assert step.h in Armed(s, ip);
      Fewer(Armed(t, ip), Armed(s, ip) - {step.h});
    } else if !(step.Check? && s.handlers[step.h].ip == ip) {
      Fewer(Armed(t, ip), Armed(s, ip));
    }
  }

  lemma {:induction false} Fewer<T>(a: set<T>, b: set<T>)
    requires a <= b
    ensures |a| <= |b|
    decreases a
  {
    if a != {} {
      var x :| x in a;
      Fewer(a - {x}, b - {x});
    }
  }

  lemma ArmedWithinThreads(l: Limits, s: State, ip: Ip)
    requires Capped(l, s)
    ensures |Armed(s, ip)| <= l.threads
  {
    Fewer(Armed(s, ip), s.handlers.Keys);
  }

  /** A handler passes the check only while every open window is under the limit. */
  lemma CheckBounded(l: Limits, s: State, h: Handler, ip: Ip, lo: nat)
    requires Inv(l, s) && Enabled(l, s, Check(h)) && s.handlers[h].ip == ip
    ensures Bounded(l, Apply(l, s, Check(h)), ip, lo)
  {
    assert Bounded(l, s, ip, lo) && Agrees(l, s, ip);
    var t := Apply(l, s, Check(h));
    if t.handlers[h].Passed? {
      if s.now < lo + l.window {
        CountIsRecent(Lookup(s.log, ip), s.now, l.window, lo);
      }
    } else {
      Fewer(Armed(t, ip), Armed(s, ip));
    }
  }

  /**
   The check lets a handler pass exactly when fewer failures of its address than
   the limit are less than a window old; otherwise it is answered at once.
   Nothing else changes for any handler, and no failure is recorded.
   */
  lemma CheckExactly(l: Limits, s: State, h: Handler)
    requires Inv(l, s) && Enabled(l, s, Check(h))
    ensures var ip := s.handlers[h].ip;
            var t := Apply(l, s, Check(h));
            && t.log == s.log && t.counter == s.counter
            && t.handlers == s.handlers[h := if |Young(Lookup(s.log, ip), s.now, l.window)| < l.failures then Passed(ip) else Done]
  {
    var ip := s.handlers[h].ip;
    assert Agrees(l, s, ip);
    RecentIsSize(Lookup(s.log, ip), s.now, l.window);
  }

  /** So the lockout ends: when every failure of the address is a window old, its handlers pass. */
  lemma LockoutEnds(l: Limits, s: State, h: Handler)
    requires Inv(l, s) && Enabled(l, s, Check(h))
    requires forall t :: t in Lookup(s.log, s.handlers[h].ip) ==> s.now - t >= l.window
    ensures Apply(l, s, Check(h)).handlers[h] == Passed(s.handlers[h].ip)
  {
    CheckExactly(l, s, h);
    var log := Lookup(s.log, s.handlers[h].ip);
    assert forall i :: 0 <= i < |log| ==> log[i] in log;
    assert Young(log, s.now, l.window) == {};
  }

  /** With the constants of the source: fewer than 20 failures younger than five minutes. */
  lemma SourceCheck(s: State, h: Handler)
    requires Inv(SOURCE, s) && Enabled(SOURCE, s, Check(h))
    ensures var log := Lookup(s.log, s.handlers[h].ip);
            Apply(SOURCE, s, Check(h)).handlers[h].Passed?
            <==> |set i | 0 <= i < |log| && s.now - log[i] < 300_000| < 20
  {
    var log := Lookup(s.log, s.handlers[h].ip);
    CheckExactly(SOURCE, s, h);
    assert Young(log, s.now, 300_000) == set i | 0 <= i < |log| && s.now - log[i] < 300_000;
  }

  /** A failure recorded uses up the room its handler had. */
  lemma RecordBounded(l: Limits, s: State, h: Handler, ip: Ip, lo: nat)
    requires Inv(l, s) && Enabled(l, s, Record(h)) && s.handlers[h].ip == ip
    ensures Bounded(l, Apply(l, s, Record(h)), ip, lo)
  {
    assert Bounded(l, s, ip, lo);
    CountAppend(Lookup(s.log, ip), s.now, lo, lo + l.window);
    ArmedStep(l, s, Record(h), ip);
    ArmedWithinThreads(l, s, ip);
  }

  lemma BoundedStep(l: Limits, s: State, step: Step, ip: Ip, lo: nat)
    requires Inv(l, s) && Enabled(l, s, step)
    ensures Bounded(l, Apply(l, s, step), ip, lo)
  {
    if step.Check? && s.handlers[step.h].ip == ip {
      CheckBounded(l, s, step.h, ip, lo);
    } else if step.Record? && s.handlers[step.h].ip == ip {
      RecordBounded(l, s, step.h, ip, lo);
    } else {
      assert Bounded(l, s, ip, lo);
      ArmedStep(l, s, step, ip);
    }
  }

  lemma InvStep(l: Limits, s: State, step: Step)
    requires Inv(l, s) && Enabled(l, s, step)
    ensures Inv(l, Apply(l, s, step))
  {
    var t := Apply(l, s, step);
    CappedStep(l, s, step);
    forall ip
      ensures Agrees(l, t, ip)
    {
      AgreesStep(l, s, step, ip);
    }
    forall ip, lo
      ensures Bounded(l, t, ip, lo)
    {
      BoundedStep(l, s, step, ip, lo);
    }
  }

  // ----- Runs

  predicate CanRun(l: Limits, s: State, steps: seq<Step>)
    decreases |steps|
  {
    steps == [] || (Enabled(l, s, steps[0]) && CanRun(l, Apply(l, s, steps[0]), steps[1..]))
  }

  function Run(l: Limits, s: State, steps: seq<Step>): State
    requires CanRun(l, s, steps)
    decreases |steps|
  {
    if steps == [] then s else Run(l, Apply(l, s, steps[0]), steps[1..])
  }

  lemma {:induction false} InvRun(l: Limits, s: State, steps: seq<Step>)
    requires Inv(l, s) && CanRun(l, s, steps)
    ensures Inv(l, Run(l, s, steps))
    decreases |steps|
  {
    if steps != [] {
      InvStep(l, s, steps[0]);
      InvRun(l, Apply(l, s, steps[0]), steps[1..]);
    }
  }

  lemma InitialInv(l: Limits)
    requires l.Ok()
    ensures Inv(l, Initial())
  {
    forall ip
      ensures Armed(Initial(), ip) == {}
    {
    }
  }

  /**
   However the handlers interleave, no window of the lockout's length, wherever
   it lies, holds more failures of one address than the limit less one plus the
   number of threads; and the live handlers never exceed the counter, which
   never exceeds that number.
   */
  lemma EveryWindow(l: Limits, steps: seq<Step>, ip: Ip, lo: nat)
    requires l.Ok() && CanRun(l, Initial(), steps)
    ensures var s := Run(l, Initial(), steps);
            && Count(Lookup(s.log, ip), lo, lo + l.window) <= l.failures - 1 + l.threads
            && |s.handlers| <= s.counter <= l.threads
  {
    InitialInv(l);
    InvRun(l, Initial(), steps);
    assert Bounded(l, Run(l, Initial(), steps), ip, lo);
  }

  /** With the constants of the source: at most 83 failures in any five minutes. */
  lemma SourceWindow(steps: seq<Step>, ip: Ip, lo: nat)
    requires CanRun(SOURCE, Initial(), steps)
    ensures Count(Lookup(Run(SOURCE, Initial(), steps).log, ip), lo, lo + 300_000) <= 83
  {
    EveryWindow(SOURCE, steps, ip, lo);
  }

  // ----- The counter

  /** A step that is no panic changes the counter by the threads it starts or ends. */
  lemma ExactStep(l: Limits, s: State, step: Step)
    requires s.counter == |s.handlers| + s.spawning && Enabled(l, s, step) && !step.Panic?
    ensures var t := Apply(l, s, step); t.counter == |t.handlers| + t.spawning
  {
    match step
    case Spawn(h, ip) => SizeUpdate(s.handlers, h, Arrived(ip));
    case Check(h) => SizeUpdate(s.handlers, h, Apply(l, s, step).handlers[h]);
    case Authorize(h) => SizeUpdate(s.handlers, h, Done);
    case Record(h) => SizeUpdate(s.handlers, h, Done);
    case Respond(h) => SizeUpdate(s.handlers, h, Done);
    case Exit(h) => SizeUpdate(s.handlers, h, Done);
    case _ =>
  }

  lemma {:induction false} ExactRun(l: Limits, s: State, steps: seq<Step>)
    requires s.counter == |s.handlers| + s.spawning && CanRun(l, s, steps)
    requires forall i :: 0 <= i < |steps| ==> !steps[i].Panic?
    ensures var t := Run(l, s, steps); t.counter == |t.handlers| + t.spawning
    decreases |steps|
  {
    if steps != [] {
      ExactStep(l, s, steps[0]);
      ExactRun(l, Apply(l, s, steps[0]), steps[1..]);
    }
  }

  /** Every thread counts itself out: as long as none panics, the counter is the number of live and starting threads. */
  lemma CounterIsExact(l: Limits, steps: seq<Step>)
    requires CanRun(l, Initial(), steps) && forall i :: 0 <= i < |steps| ==> !steps[i].Panic?
    ensures var s := Run(l, Initial(), steps); s.counter == |s.handlers| + s.spawning
  {
    ExactRun(l, Initial(), steps);
  }

  // ----- The bound is reached

  /** Some run leads from one state to the other. */
  ghost predicate Reaches(l: Limits, s: State, t: State) {
    exists steps :: CanRun(l, s, steps) && Run(l, s, steps) == t
  }

  lemma ReachesSelf(l: Limits, s: State)
    ensures Reaches(l, s, s)
  {
    assert CanRun(l, s, []) && Run(l, s, []) == s;
  }

  lemma ReachesAfter(l: Limits, s: State, step: Step, t: State)
    requires Enabled(l, s, step) && Reaches(l, Apply(l, s, step), t)
    ensures Reaches(l, s, t)
  {
    var steps :| CanRun(l, Apply(l, s, step), steps) && Run(l, Apply(l, s, step), steps) == t;
    var all := [step] + steps;
    assert all[1..] == steps;
    assert CanRun(l, s, all) && Run(l, s, all) == t;
  }

  function Zeros(n: nat): (r: seq<nat>)
    ensures |r| == n
  {
    if n == 0 then [] else Zeros(n - 1) + [0]
  }

  lemma {:induction false} AtOnce(n: nat, window: nat)
    requires window > 0
    ensures Recent(Zeros(n), 0, window) == Zeros(n) && Count(Zeros(n), 0, window) == n
  {
    if n > 0 {
      AtOnce(n - 1, window);
      assert Zeros(n)[..n - 1] == Zeros(n - 1);
    }
  }

  /** All at time zero: so many handlers waiting past the check, so many failures of address 0. */
  ghost predicate Standing(s: State, waiting: nat, failures: nat) {
    && s.now == 0 && !s.admitted && s.spawning == 0 && s.counter == waiting
    && (forall h: Handler :: h in s.handlers <==> h < waiting)
    && (forall h :: h in s.handlers ==> s.handlers[h] == Passed(0))
    && Lookup(s.failed, 0) == Zeros(failures) && Lookup(s.log, 0) == Zeros(failures)
  }

  /** One more handler arrives and passes the check, as long as the limit is not reached. */
  lemma OneMoreWaits(l: Limits, s: State, waiting: nat, failures: nat) returns (t: State)
    requires Standing(s, waiting, failures) && failures < l.failures && waiting < l.threads && l.window > 0
    ensures Standing(t, waiting + 1, failures)
    ensures forall u :: Reaches(l, t, u) ==> Reaches(l, s, u)
  {
    AtOnce(failures, l.window);
    var s1 := Apply(l, s, SeeRoom);
    var s2 := Apply(l, s1, CountIn);
    var s3 := Apply(l, s2, Spawn(waiting, 0));
    t := Apply(l, s3, Check(waiting));
    forall u | Reaches(l, t, u)
      ensures Reaches(l, s, u)
    {
      ReachesAfter(l, s3, Check(waiting), u);
      ReachesAfter(l, s2, Spawn(waiting, 0), u);
      ReachesAfter(l, s1, CountIn, u);
      ReachesAfter(l, s, SeeRoom, u);
    }
  }

  /** A single handler fails and leaves. */
  lemma OneFails(l: Limits, s: State, failures: nat) returns (t: State)
    requires Standing(s, 0, failures) && failures < l.failures && l.threads > 0 && l.window > 0
    ensures Standing(t, 0, failures + 1)
    ensures forall u :: Reaches(l, t, u) ==> Reaches(l, s, u)
  {
    var s1 := OneMoreWaits(l, s, 0, failures);
    var s2 := Apply(l, s1, Record(0));
    t := Apply(l, s2, Exit(0));
    forall u | Reaches(l, t, u)
      ensures Reaches(l, s, u)
    {
      ReachesAfter(l, s2, Exit(0), u);
      ReachesAfter(l, s1, Record(0), u);
    }
  }

  /** Failures one after the other, up to one below the limit. */
  lemma {:induction false} FailInTurn(l: Limits, s: State, failures: nat) returns (t: State)
    requires l.Ok() && Standing(s, 0, failures) && failures < l.failures && l.threads > 0 && l.window > 0
    ensures Standing(t, 0, l.failures - 1) && Reaches(l, s, t)
    decreases l.failures - failures
  {
    if failures == l.failures - 1 {
      ReachesSelf(l, s);
      t := s;
    } else {
      var next := OneFails(l, s, failures);
      t := FailInTurn(l, next, failures + 1);
    }
  }

  /** Then as many handlers as there may be pass the check. */
  lemma {:induction false} AllWait(l: Limits, s: State, waiting: nat, failures: nat) returns (t: State)
    requires Standing(s, waiting, failures) && failures < l.failures && waiting <= l.threads && l.window > 0
    ensures Standing(t, l.threads, failures) && Reaches(l, s, t)
    decreases l.threads - waiting
  {
    if waiting == l.threads {
      ReachesSelf(l, s);
      t := s;
    } else {
      var next := OneMoreWaits(l, s, waiting, failures);
      t := AllWait(l, next, waiting + 1, failures);
    }
  }

  /** And all of them fail. */
  lemma {:induction false} AllFail(l: Limits, s: State, waiting: nat, failures: nat) returns (t: State)
    requires s.now == 0 && Lookup(s.log, 0) == Zeros(failures)
    requires forall h :: 0 <= h < waiting ==> h in s.handlers && s.handlers[h] == Passed(0)
    ensures Reaches(l, s, t) && Lookup(t.log, 0) == Zeros(failures + waiting)
    decreases waiting
  {
    if waiting == 0 {
      ReachesSelf(l, s);
      t := s;
    } else {
      var next := Apply(l, s, Record(waiting - 1));
      t := AllFail(l, next, waiting - 1, failures + 1);
      ReachesAfter(l, s, Record(waiting - 1), t);
    }
  }

  lemma {:induction false} RunSplit(l: Limits, s: State, a: seq<Step>, b: seq<Step>)
    requires CanRun(l, s, a) && CanRun(l, Run(l, s, a), b)
    ensures CanRun(l, s, a + b) && Run(l, s, a + b) == Run(l, Run(l, s, a), b)
    decreases |a|
  {
    if a == [] {
      assert a + b == b;
    } else {
      RunSplit(l, Apply(l, s, a[0]), a[1..], b);
      assert (a + b)[1..] == a[1..] + b;
    }
  }

  lemma ReachesThrough(l: Limits, s: State, t: State, u: State)
    requires Reaches(l, s, t) && Reaches(l, t, u)
    ensures Reaches(l, s, u)
  {
    var a :| CanRun(l, s, a) && Run(l, s, a) == t;
    var b :| CanRun(l, t, b) && Run(l, t, b) == u;
    RunSplit(l, s, a, b);
    assert CanRun(l, s, a + b) && Run(l, s, a + b) == u;
  }

  lemma Start()
    ensures Standing(Initial(), 0, 0)
  {
  }

  lemma Crowd(l: Limits) returns (v: State)
    requires l.Ok() && l.threads > 0 && l.window > 0
    ensures Reaches(l, Initial(), v) && Lookup(v.log, 0) == Zeros(l.failures - 1 + l.threads)
  {
    Start();
    var t := FailInTurn(l, Initial(), 0);
    var u := AllWait(l, t, 0, l.failures - 1);
    v := AllFail(l, u, l.threads, l.failures - 1);
    ReachesThrough(l, Initial(), t, u);
    ReachesThrough(l, Initial(), u, v);
  }

  /**
   The bound is exact, for all limits: some run puts that many failures of one
   address into one window, because handlers that passed the check earlier are
   not held back by the failures recorded since.
   */
  lemma BoundIsReached(l: Limits)
    requires l.Ok() && l.threads > 0 && l.window > 0
    ensures exists steps :: CanRun(l, Initial(), steps)
              && Count(Lookup(Run(l, Initial(), steps).log, 0), 0, l.window) == l.failures - 1 + l.threads
  {
    var v := Crowd(l);
    var n := l.failures - 1 + l.threads;
    AtOnce(n, l.window);
    var steps :| CanRun(l, Initial(), steps) && Run(l, Initial(), steps) == v;
    assert Lookup(Run(l, Initial(), steps).log, 0) == Zeros(n);
  }
}
