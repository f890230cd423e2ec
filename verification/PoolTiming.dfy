/**
 The HTTP pool with clocks.  N threads take jobs in the order they were sent, a
 call takes at most S, and a job is sent only while fewer than k*N are in flight.
 Jobs are numbered in the order they are sent; the channel holds those sent and
 not yet started.
 */
module PoolTiming {
  /** `service` bounds one call, `rounds` is k: the capacity is k times the threads. */
  datatype Pool = Pool(threads: nat, rounds: nat, service: nat) {
    predicate Ok() {
      threads > 0 && rounds > 0
    }

    function Capacity(): nat {
      Times(rounds, threads)
    }
  }

  /** j times x, as j additions. */
  function Times(j: nat, x: nat): nat {
    if j == 0 then 0 else Times(j - 1, x) + x
  }

  lemma {:induction false} TimesIsProduct(j: nat, x: nat)
    ensures Times(j, x) == j * x
  {
    if j > 0 {
      TimesIsProduct(j - 1, x);
    }
  }

  datatype State = State(
    now: nat,
    claim: seq<nat>,       // when each job was claimed and sent
    start: seq<nat>,       // when each job was taken, for the jobs taken so far
    running: set<nat>,
    finish: map<nat, nat>, // when each finished job finished
    harvested: nat)

  datatype Step = Delay(time: nat) | Claim | Take | Finish(job: nat) | Harvest

  predicate Enabled(p: Pool, s: State, step: Step) {
    match step
    // Time passes while every call is within its bound and no thread idles in front of a job.
    case Delay(d) =>
      && (forall m :: m in s.running ==> m < |s.start| && s.now + d <= s.start[m] + p.service)
      && (|s.start| >= |s.claim| || |s.running| >= p.threads)
    case Claim => |s.claim| - s.harvested < p.Capacity()
    case Take => |s.start| < |s.claim| && |s.running| < p.threads
    case Finish(m) => m in s.running
    case Harvest => s.harvested < |s.finish|
  }

  function Apply(p: Pool, s: State, step: Step): State
    requires Enabled(p, s, step)
  {
    match step
    case Delay(d) => s.(now := s.now + d)
    case Claim => s.(claim := s.claim + [s.now])
    case Take => s.(start := s.start + [s.now], running := s.running + {|s.start|})
    case Finish(m) => s.(running := s.running - {m}, finish := s.finish[m := s.now])
    case Harvest => s.(harvested := s.harvested + 1)
  }

  function Initial(): State {
    State(0, [], [], {}, map[], 0)
  }

  // ----- What every step keeps

  ghost predicate Ordered(s: State) {
    && |s.start| <= |s.claim|
    && (forall i :: 0 <= i < |s.claim| ==> s.claim[i] <= s.now)
    && (forall i, j :: 0 <= i <= j < |s.claim| ==> s.claim[i] <= s.claim[j])
    && (forall i :: 0 <= i < |s.start| ==> s.start[i] <= s.now)
    && (forall i, j :: 0 <= i <= j < |s.start| ==> s.start[i] <= s.start[j])
  }

  ghost predicate Timely(p: Pool, s: State) {
    && (forall m :: m in s.running ==> m < |s.start| && m !in s.finish && s.now <= s.start[m] + p.service)
    && (forall m :: m in s.finish ==> m < |s.start| && s.finish[m] <= s.start[m] + p.service)
    && (forall m :: 0 <= m < |s.start| ==> m in s.running || m in s.finish)
  }

  predicate Sized(p: Pool, s: State) {
    && |s.running| <= p.threads
    && |s.running| + |s.finish| == |s.start|
    && s.harvested <= |s.finish|
  }

  ghost predicate Busy(p: Pool, s: State) {
    Timely(p, s) && Sized(p, s)
  }

  /** The start of a job, or the present as long as it has none. */
  function StartOrNow(s: State, n: nat): nat {
    if n < |s.start| then s.start[n] else s.now
  }

  /** A job waits for no longer than the job N places before it runs. */
  ghost predicate Keeps(p: Pool, s: State, n: nat)
    requires n < |s.claim|
  {
    || StartOrNow(s, n) <= s.claim[n]
    || (n >= p.threads && (n - p.threads < |s.start| ==> StartOrNow(s, n) <= s.start[n - p.threads] + p.service))
  }

  /** When job n was claimed, the job (k-1)N places before it had started, or is about to. */
  ghost predicate Ahead(p: Pool, s: State, n: nat)
    requires p.Ok() && n < |s.claim|
  {
    var b := n - Times(p.rounds - 1, p.threads);
    || b < 0
    || (b < |s.start| && s.start[b] <= s.claim[n])
    || (s.claim[n] == s.now && n - |s.start| + |s.running| < p.Capacity())
  }

  ghost predicate Inv(p: Pool, s: State) {
    && p.Ok() && Ordered(s) && Busy(p, s)
    && (forall n :: 0 <= n < |s.claim| ==> Keeps(p, s, n))
    && (forall n :: 0 <= n < |s.claim| ==> Ahead(p, s, n))
  }

  // ----- Why

  lemma {:induction false} SmallSet(r: set<nat>, bound: nat)
    requires forall m :: m in r ==> m < bound
    ensures |r| <= bound
    decreases bound
  {
    if bound == 0 {
      assert r == {};
    } else {
      SmallSet(r - {bound - 1}, bound - 1);
    }
  }

  /** Of N busy threads, one runs a job that is N places from the end. */
  lemma OldestRunning(r: set<nat>, bound: nat, n: nat) returns (m: nat)
    requires (forall m :: m in r ==> m < bound) && |r| >= n > 0
    ensures m in r && m + n <= bound
  {
    if forall m :: m in r ==> m + n > bound {
      Above(r, bound, n);
      assert false;
    }
    m :| m in r && m + n <= bound;
  }

  lemma {:induction false} Above(r: set<nat>, bound: nat, n: nat)
    requires forall m :: m in r ==> m < bound && m + n > bound
    requires n > 0
    ensures |r| < n
    decreases n
  {
    if n == 1 {
      assert r == {};
    } else {
      var low: int := bound - n + 1;
      if low >= 0 {
        Above(r - {low}, bound, n - 1);
      } else {
        SmallSet(r, bound);
      }
    }
  }

  lemma DelayKeeps(p: Pool, s: State, d: nat, n: nat)
    requires Inv(p, s) && Enabled(p, s, Delay(d)) && n < |s.claim|
    ensures Keeps(p, Apply(p, s, Delay(d)), n)
  {
    assert Keeps(p, s, n);
    if n >= |s.start| {
      SmallSet(s.running, |s.start|);
      var m := OldestRunning(s.running, |s.start|, p.threads);
      if n - p.threads < |s.start| {
        assert s.start[m] <= s.start[n - p.threads];
      }
    }
  }

  lemma DelayAhead(p: Pool, s: State, d: nat, n: nat)
    requires Inv(p, s) && Enabled(p, s, Delay(d)) && n < |s.claim|
    ensures Ahead(p, Apply(p, s, Delay(d)), n)
  {
    assert Ahead(p, s, n);
    var b := n - Times(p.rounds - 1, p.threads);
    if b >= 0 && s.claim[n] == s.now && n - |s.start| + |s.running| < p.Capacity() {
      assert b < |s.start|;
      assert s.start[b] <= s.now;
    }
  }

  lemma OtherKeeps(p: Pool, s: State, step: Step, n: nat)
    requires Inv(p, s) && Enabled(p, s, step) && !step.Delay? && n < |s.claim|
    ensures Keeps(p, Apply(p, s, step), n) && Ahead(p, Apply(p, s, step), n)
  {
    assert Keeps(p, s, n) && Ahead(p, s, n);
    var t := Apply(p, s, step);
    if step.Take? {
      assert |s.start| !in s.running;
      assert |t.running| == |s.running| + 1;
      assert n < |s.start| ==> t.start[n] == s.start[n];
      assert n >= p.threads && n - p.threads < |s.start| ==> t.start[n - p.threads] == s.start[n - p.threads];
    } else if step.Finish? {
      assert |t.running| < |s.running|;
    }
  }

  lemma ClaimKeeps(p: Pool, s: State)
    requires Inv(p, s) && Enabled(p, s, Claim)
    ensures var t := Apply(p, s, Claim); Keeps(p, t, |s.claim|) && Ahead(p, t, |s.claim|)
  {
    var t := Apply(p, s, Claim);
    assert t.claim[|s.claim|] == s.now;
  }

  lemma OrderedStep(p: Pool, s: State, step: Step)
    requires Ordered(s) && Enabled(p, s, step)
    ensures Ordered(Apply(p, s, step))
  {
  }

  lemma BusyStep(p: Pool, s: State, step: Step)
    requires Ordered(s) && Busy(p, s) && Enabled(p, s, step)
    ensures Busy(p, Apply(p, s, step))
  {
    match step
    case Take => BusyTake(p, s);
    case Finish(m) => BusyFinish(p, s, m);
    case _ =>
  }

  lemma BusyTake(p: Pool, s: State)
    requires Ordered(s) && Busy(p, s) && Enabled(p, s, Take)
    ensures Busy(p, Apply(p, s, Take))
  {
    TimelyTake(p, s);
    assert |s.start| !in s.running;
    assert |s.running + {|s.start|}| == |s.running| + 1;
  }

  lemma TimelyTake(p: Pool, s: State)
    requires Ordered(s) && Timely(p, s) && Enabled(p, s, Take)
    ensures Timely(p, Apply(p, s, Take))
  {
    var t := Apply(p, s, Take);
    var n := |s.start|;
    forall m | m in t.running
      ensures m < |t.start| && m !in t.finish && t.now <= t.start[m] + p.service
    {
      assert m == n || (m in s.running && t.start[m] == s.start[m]);
    }
    forall m | m in t.finish
      ensures m < |t.start| && t.finish[m] <= t.start[m] + p.service
    {
      assert t.start[m] == s.start[m];
    }
    forall m | 0 <= m < |t.start|
      ensures m in t.running || m in t.finish
    {
      assert m == n || m in s.running || m in s.finish;
    }
  }

  lemma BusyFinish(p: Pool, s: State, m: nat)
    requires Ordered(s) && Busy(p, s) && Enabled(p, s, Finish(m))
    ensures Busy(p, Apply(p, s, Finish(m)))
  {
    var t := Apply(p, s, Finish(m));
    assert t.finish.Keys == s.finish.Keys + {m};
    assert |t.finish| == |s.finish| + 1;
    assert |t.running| == |s.running| - 1;
  }

  lemma InvStep(p: Pool, s: State, step: Step)
    requires Inv(p, s) && Enabled(p, s, step)
    ensures Inv(p, Apply(p, s, step))
  {
    OrderedStep(p, s, step);
    BusyStep(p, s, step);
    var t := Apply(p, s, step);
    forall n | 0 <= n < |t.claim|
      ensures Keeps(p, t, n) && Ahead(p, t, n)
    {
      if step.Delay? {
        DelayKeeps(p, s, step.time, n);
        DelayAhead(p, s, step.time, n);
      } else if n < |s.claim| {
        OtherKeeps(p, s, step, n);
      } else {
        ClaimKeeps(p, s);
      }
    }
  }

  // ----- The bound

  /** Stepping back N places j times costs j calls. */
  lemma {:induction false} Chain(p: Pool, s: State, m: nat, c: nat, j: nat)
    requires Inv(p, s) && m < |s.claim| && s.claim[m] <= c
    requires var b := m - Times(j, p.threads); b < 0 || (b < |s.start| && s.start[b] <= c)
    ensures StartOrNow(s, m) <= c + Times(j, p.service)
    decreases j
  {
    assert Keeps(p, s, m);
    if j > 0 && m >= p.threads {
      assert s.claim[m - p.threads] <= s.claim[m];
      Chain(p, s, m - p.threads, c, j - 1);
    }
  }

  /** A job starts within k-1 calls of its claim. */
  lemma StartBound(p: Pool, s: State, n: nat)
    requires Inv(p, s) && n < |s.claim|
    ensures StartOrNow(s, n) <= s.claim[n] + Times(p.rounds - 1, p.service)
  {
    assert Ahead(p, s, n);
    var b := n - Times(p.rounds - 1, p.threads);
    if b < 0 || (b < |s.start| && s.start[b] <= s.claim[n]) {
      Chain(p, s, n, s.claim[n], p.rounds - 1);
    }
  }

  /** In every state the invariant holds in, every job is done, or still within k calls of its claim. */
  lemma WithinRounds(p: Pool, s: State, n: nat)
    requires Inv(p, s) && n < |s.claim|
    ensures n in s.finish ==> s.finish[n] <= s.claim[n] + Times(p.rounds, p.service)
    ensures n !in s.finish ==> s.now <= s.claim[n] + Times(p.rounds, p.service)
  {
    StartBound(p, s, n);
    assert Times(p.rounds, p.service) == Times(p.rounds - 1, p.service) + p.service;
  }

  // ----- Runs

  predicate CanRun(p: Pool, s: State, steps: seq<Step>)
    decreases |steps|
  {
    steps == [] || (Enabled(p, s, steps[0]) && CanRun(p, Apply(p, s, steps[0]), steps[1..]))
  }

  function Run(p: Pool, s: State, steps: seq<Step>): State
    requires CanRun(p, s, steps)
    decreases |steps|
  {
    if steps == [] then s else Run(p, Apply(p, s, steps[0]), steps[1..])
  }

  lemma {:induction false} InvRun(p: Pool, s: State, steps: seq<Step>)
    requires Inv(p, s) && CanRun(p, s, steps)
    ensures Inv(p, Run(p, s, steps))
    decreases |steps|
  {
    if steps != [] {
      InvStep(p, s, steps[0]);
      InvRun(p, Apply(p, s, steps[0]), steps[1..]);
    }
  }

  /**
   In every timed run, with any number of threads N and any capacity kN, every
   claimed job finishes its HTTP work within k times the bound on one call.
   */
  lemma EveryJobInTime(p: Pool, steps: seq<Step>, n: nat)
    requires p.Ok() && CanRun(p, Initial(), steps) && n < |Run(p, Initial(), steps).claim|
    ensures var s := Run(p, Initial(), steps);
            && (n in s.finish ==> s.finish[n] - s.claim[n] <= p.rounds * p.service)
            && (n !in s.finish ==> s.now - s.claim[n] <= p.rounds * p.service)
  {
    InvRun(p, Initial(), steps);
    TimesIsProduct(p.rounds, p.service);
    WithinRounds(p, Run(p, Initial(), steps), n);
  }

  /** The pool of the source: capacity twice the threads, so twice the bound on one call. */
  lemma SourcePoolInTime(threads: nat, service: nat, steps: seq<Step>, n: nat)
    requires threads > 0
    requires CanRun(Pool(threads, 2, service), Initial(), steps)
    requires n in Run(Pool(threads, 2, service), Initial(), steps).finish
    ensures var s := Run(Pool(threads, 2, service), Initial(), steps);
            n < |s.claim| && s.finish[n] - s.claim[n] <= 2 * service
  {
    var p := Pool(threads, 2, service);
    InvRun(p, Initial(), steps);
    EveryJobInTime(p, steps, n);
  }

  // ----- The bound is reached

  lemma RunCons(p: Pool, s: State, step: Step, rest: seq<Step>)
    requires Enabled(p, s, step) && CanRun(p, Apply(p, s, step), rest)
    ensures CanRun(p, s, [step] + rest) && Run(p, s, [step] + rest) == Run(p, Apply(p, s, step), rest)
  {
    assert ([step] + rest)[1..] == rest;
  }

  /** One call that is as slow as allowed, and then the rest of a run. */
  function SlowCall(service: nat, n: nat, rest: seq<Step>): seq<Step> {
    [Take] + ([Delay(service)] + ([Finish(n)] + rest))
  }

  /** The state that such a call leaves, if no other is running. */
  function AfterCall(s: State, service: nat, n: nat): State {
    s.(now := s.now + service, start := s.start + [s.now], finish := s.finish[n := s.now + service])
  }

  lemma SlowCallRuns(p: Pool, s: State, n: nat, rest: seq<Step>)
    requires p.threads == 1 && s.running == {} && |s.start| == n < |s.claim| && CanRun(p, AfterCall(s, p.service, n), rest)
    ensures CanRun(p, s, SlowCall(p.service, n, rest))
    ensures Run(p, s, SlowCall(p.service, n, rest)) == Run(p, AfterCall(s, p.service, n), rest)
  {
    var s1 := s.(start := s.start + [s.now], running := {n});
    var s2 := s1.(now := s.now + p.service);
    assert Apply(p, s, Take) == s1;
    assert Apply(p, s1, Delay(p.service)) == s2;
    assert Apply(p, s2, Finish(n)) == AfterCall(s, p.service, n);
    RunCons(p, s2, Finish(n), rest);
    RunCons(p, s1, Delay(p.service), [Finish(n)] + rest);
    RunCons(p, s, Take, [Delay(p.service)] + ([Finish(n)] + rest));
  }

  /** Two jobs claimed at once, and the one thread as slow as allowed on both. */
  function TightRun(service: nat): seq<Step> {
    [Claim] + ([Claim] + SlowCall(service, 0, SlowCall(service, 1, [])))
  }

  /** The bound is met with equality. */
  lemma BoundIsTight(service: nat)
    ensures var p := Pool(1, 2, service);
            && CanRun(p, Initial(), TightRun(service))
            && (var s := Run(p, Initial(), TightRun(service));
                |s.claim| == 2 && 1 in s.finish && s.finish[1] == s.claim[1] + 2 * service)
  {
    var p := Pool(1, 2, service);
    var s2 := Initial().(claim := [0, 0]);
    var s3 := AfterCall(s2, service, 0);
    TwoClaims(p, SlowCall(service, 0, SlowCall(service, 1, [])));
    SlowCallRuns(p, s3, 1, []);
    SlowCallRuns(p, s2, 0, SlowCall(service, 1, []));
  }

  lemma TwoClaims(p: Pool, rest: seq<Step>)
    requires p.Capacity() >= 2
    ensures var s2 := Initial().(claim := [0, 0]);
            CanRun(p, s2, rest) ==>
              && CanRun(p, Initial(), [Claim] + ([Claim] + rest))
              && Run(p, Initial(), [Claim] + ([Claim] + rest)) == Run(p, s2, rest)
  {
    var s1 := Initial().(claim := [0]);
    var s2 := Initial().(claim := [0, 0]);
    assert Apply(p, Initial(), Claim) == s1 && Apply(p, s1, Claim) == s2;
    if CanRun(p, s2, rest) {
      RunCons(p, s1, Claim, rest);
      RunCons(p, Initial(), Claim, [Claim] + rest);
    }
  }
}
