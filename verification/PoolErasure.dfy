/**
 The timed pool is the pool of the runtime worker: with the clocks erased, every
 timed run is a run of the transition system.
 */
module PoolErasure {
  import T = PoolTiming
  import R = RuntimeSystem

  function Untimed(p: T.Pool): R.Pool {
    R.Pool(p.threads, p.Capacity())
  }

  function JobOf(n: nat): R.Job {
    R.Job(n, R.Outbound)
  }

  /** The jobs numbered from `lo` up to `hi`. */
  function Jobs(lo: nat, hi: nat): seq<R.Job>
    requires lo <= hi
  {
    seq(hi - lo, i requires 0 <= i < hi - lo => JobOf(lo + i))
  }

  /** The threads run these jobs, one each. */
  ghost predicate Busy(running: set<nat>, jobs: seq<R.Job>) {
    && |jobs| == |running|
    && (forall i :: 0 <= i < |jobs| ==> jobs[i].queue == R.Outbound && jobs[i].id in running)
    && (forall i, j :: 0 <= i < j < |jobs| ==> jobs[i] != jobs[j])
    && (forall m :: m in running ==> JobOf(m) in jobs)
  }

  /** The worker is between pumps and counts what the timed pool counts. */
  ghost predicate Counts(t: T.State, s: R.State) {
    && |t.start| <= |t.claim| && t.harvested <= |t.finish|
    && s.phase == R.Harvesting
    && s.inFlight == |t.claim| - t.harvested
    && |s.results| == |t.finish| - t.harvested
    && (forall id :: id in s.rows ==> id < |t.claim|)
  }

  /** The same jobs wait in the same order, the same jobs run, and as many results wait. */
  ghost predicate Erased(t: T.State, s: R.State) {
    && Counts(t, s)
    && s.channel == Jobs(|t.start|, |t.claim|)
    && Busy(t.running, s.running)
  }

  lemma RunCons(p: R.Pool, s: R.State, step: R.Step, rest: seq<R.Step>)
    requires R.Enabled(p, s, step) && R.CanRun(p, R.Apply(p, s, step), rest)
    ensures R.CanRun(p, s, [step] + rest)
    ensures R.Run(p, s, [step] + rest) == R.Run(p, R.Apply(p, s, step), rest)
  {
    assert ([step] + rest)[1..] == rest;
  }

  lemma RunOne(p: R.Pool, s: R.State, step: R.Step)
    requires R.Enabled(p, s, step)
    ensures R.CanRun(p, s, [step]) && R.Run(p, s, [step]) == R.Apply(p, s, step)
  {
    assert [step][1..] == [];
  }

  // ----- A claim is a pump that claims one call

  function PumpStart(n: nat): seq<R.Step> {
    [R.Enqueue(n, R.Outbound), R.BeginPump, R.Claim([n]), R.Send]
  }

  function PumpEnd(): seq<R.Step> {
    [R.EndStage, R.NoClaim, R.NoClaim, R.NoClaim]
  }

  /** The state with one more call sent. */
  function Sent(s: R.State, n: nat, phase: R.Phase): R.State {
    s.(rows := s.rows[n := R.Row(R.Outbound, R.InFlight)], phase := phase, inFlight := s.inFlight + 1,
       channel := s.channel + [JobOf(n)], sent := s.sent + multiset{JobOf(n)})
  }

  lemma PumpStarts(p: R.Pool, s: R.State, n: nat)
    requires s.phase.Harvesting? && n !in s.rows && s.inFlight < p.capacity
    ensures R.CanRun(p, s, PumpStart(n))
    ensures R.Run(p, s, PumpStart(n)) == Sent(s, n, R.Sending(0, []))
  {
    var s1 := s.(rows := s.rows[n := R.Row(R.Outbound, R.Queued)]);
    var s2 := s1.(phase := R.Claiming(0));
    SentOnce(s, n);
    ClaimAndSend(p, s2, n);
    RunCons(p, s1, R.BeginPump, [R.Claim([n]), R.Send]);
    RunCons(p, s, R.Enqueue(n, R.Outbound), [R.BeginPump, R.Claim([n]), R.Send]);
    assert [R.Enqueue(n, R.Outbound)] + [R.BeginPump, R.Claim([n]), R.Send] == PumpStart(n);
  }

  lemma ClaimAndSend(p: R.Pool, s: R.State, n: nat)
    requires s.phase == R.Claiming(0) && n in s.rows && s.rows[n] == R.Row(R.Outbound, R.Queued)
    requires s.inFlight < p.capacity
    ensures R.CanRun(p, s, [R.Claim([n]), R.Send])
    ensures R.Run(p, s, [R.Claim([n]), R.Send]) == Sent(s, n, R.Sending(0, []))
  {
    ClaimOne(p, s, n);
    var s1 := R.Apply(p, s, R.Claim([n]));
    RunOne(p, s1, R.Send);
    RunCons(p, s, R.Claim([n]), [R.Send]);
    SentOnce(s, n);
  }

  lemma SentOnce(s: R.State, n: nat)
    ensures s.rows[n := R.Row(R.Outbound, R.Queued)][n := R.Row(R.Outbound, R.InFlight)]
            == s.rows[n := R.Row(R.Outbound, R.InFlight)]
    ensures [JobOf(n)][1..] == []
  {
  }

  lemma ClaimOne(p: R.Pool, s: R.State, n: nat)
    requires s.phase == R.Claiming(0) && n in s.rows && s.rows[n] == R.Row(R.Outbound, R.Queued)
    requires s.inFlight < p.capacity
    ensures R.Enabled(p, s, R.Claim([n]))
    ensures R.Apply(p, s, R.Claim([n]))
            == s.(rows := s.rows[n := R.Row(R.Outbound, R.InFlight)], phase := R.Sending(0, [JobOf(n)]))
  {
    assert R.JobsFor([n], R.Outbound) == [JobOf(n)];
    assert R.MarkInFlight(s.rows, [n], R.Outbound) == s.rows[n := R.Row(R.Outbound, R.InFlight)];
  }

  lemma PumpEnds(p: R.Pool, s: R.State)
    requires s.phase == R.Sending(0, [])
    ensures R.CanRun(p, s, PumpEnd()) && R.Run(p, s, PumpEnd()) == s.(phase := R.Harvesting)
  {
    var s1 := R.Apply(p, s, R.EndStage);
    var s2 := R.Apply(p, s1, R.NoClaim);
    var s3 := R.Apply(p, s2, R.NoClaim);
    RunOne(p, s3, R.NoClaim);
    RunCons(p, s2, R.NoClaim, [R.NoClaim]);
    RunCons(p, s1, R.NoClaim, [R.NoClaim, R.NoClaim]);
    RunCons(p, s, R.EndStage, [R.NoClaim, R.NoClaim, R.NoClaim]);
    assert [R.EndStage] + [R.NoClaim, R.NoClaim, R.NoClaim] == PumpEnd();
  }

  lemma ClaimErased(p: T.Pool, t: T.State, s: R.State) returns (steps: seq<R.Step>)
    requires Erased(t, s) && T.Enabled(p, t, T.Claim)
    ensures R.CanRun(Untimed(p), s, steps)
    ensures Erased(T.Apply(p, t, T.Claim), R.Run(Untimed(p), s, steps))
  {
    var n := |t.claim|;
    PumpStarts(Untimed(p), s, n);
    PumpEnds(Untimed(p), Sent(s, n, R.Sending(0, [])));
    R.RunSplit(Untimed(p), s, PumpStart(n), PumpEnd());
    steps := PumpStart(n) + PumpEnd();
    SentErased(p, t, s);
  }

  lemma SentErased(p: T.Pool, t: T.State, s: R.State)
    requires Erased(t, s) && T.Enabled(p, t, T.Claim)
    ensures Erased(T.Apply(p, t, T.Claim), Sent(s, |t.claim|, R.Harvesting))
  {
    var n := |t.claim|;
    assert s.channel + [JobOf(n)] == Jobs(|t.start|, n + 1);
  }

  // ----- The other steps

  lemma BusyMore(running: set<nat>, jobs: seq<R.Job>, n: nat)
    requires Busy(running, jobs) && n !in running
    ensures Busy(running + {n}, jobs + [JobOf(n)])
  {
    var more := jobs + [JobOf(n)];
    forall m | m in running + {n}
      ensures JobOf(m) in more
    {
      assert m in running ==> JobOf(m) in jobs;
      assert more[|jobs|] == JobOf(n);
    }
  }

  lemma WithoutAt(jobs: seq<R.Job>, slot: nat, i: nat)
    requires slot < |jobs| && i < |jobs| - 1
    ensures R.Without(jobs, slot)[i] == jobs[if i < slot then i else i + 1]
  {
  }

  lemma BusyLess(running: set<nat>, jobs: seq<R.Job>, slot: nat)
    requires Busy(running, jobs) && slot < |jobs|
    ensures Busy(running - {jobs[slot].id}, R.Without(jobs, slot))
  {
    var m, less := jobs[slot].id, R.Without(jobs, slot);
    assert jobs[slot] == JobOf(m);
    forall i | 0 <= i < |less|
      ensures less[i] == jobs[if i < slot then i else i + 1] && less[i] != JobOf(m)
    {
      WithoutAt(jobs, slot, i);
    }
    forall k | k in running - {m}
      ensures JobOf(k) in less
    {
      var i :| 0 <= i < |jobs| && jobs[i] == JobOf(k);
      WithoutAt(jobs, slot, if i < slot then i else i - 1);
    }
  }

  lemma TakeErased(p: T.Pool, t: T.State, s: R.State)
    requires Erased(t, s) && T.Enabled(p, t, T.Take) && |t.start| !in t.running
    ensures R.Enabled(Untimed(p), s, R.Take)
    ensures Erased(T.Apply(p, t, T.Take), R.Apply(Untimed(p), s, R.Take))
  {
    var n := |t.start|;
    JobsHead(n, |t.claim|);
    BusyMore(t.running, s.running, n);
    TakeCounts(p, t, s);
  }

  lemma TakeCounts(p: T.Pool, t: T.State, s: R.State)
    requires Counts(t, s) && T.Enabled(p, t, T.Take) && R.Enabled(Untimed(p), s, R.Take)
    ensures Counts(T.Apply(p, t, T.Take), R.Apply(Untimed(p), s, R.Take))
  {
  }

  lemma JobsHead(lo: nat, hi: nat)
    requires lo < hi
    ensures Jobs(lo, hi) != [] && Jobs(lo, hi)[0] == JobOf(lo) && Jobs(lo, hi)[1..] == Jobs(lo + 1, hi)
  {
  }

  lemma FinishErased(p: T.Pool, t: T.State, s: R.State, m: nat) returns (slot: nat)
    requires Erased(t, s) && T.Enabled(p, t, T.Finish(m)) && m !in t.finish
    ensures R.Enabled(Untimed(p), s, R.Finish(slot))
    ensures Erased(T.Apply(p, t, T.Finish(m)), R.Apply(Untimed(p), s, R.Finish(slot)))
  {
    slot := SlotOf(t.running, s.running, m);
    FinishAt(p, t, s, m, slot);
  }

  lemma SlotOf(running: set<nat>, jobs: seq<R.Job>, m: nat) returns (slot: nat)
    requires Busy(running, jobs) && m in running
    ensures slot < |jobs| && jobs[slot] == JobOf(m)
  {
    slot :| slot < |jobs| && jobs[slot] == JobOf(m);
  }

  lemma FinishAt(p: T.Pool, t: T.State, s: R.State, m: nat, slot: nat)
    requires Erased(t, s) && T.Enabled(p, t, T.Finish(m)) && m !in t.finish
    requires slot < |s.running| && s.running[slot] == JobOf(m)
    ensures Erased(T.Apply(p, t, T.Finish(m)), R.Apply(Untimed(p), s, R.Finish(slot)))
  {
    BusyLess(t.running, s.running, slot);
    FinishCounts(p, t, s, m, slot);
  }

  lemma FinishCounts(p: T.Pool, t: T.State, s: R.State, m: nat, slot: nat)
    requires Counts(t, s) && T.Enabled(p, t, T.Finish(m)) && m !in t.finish && slot < |s.running|
    ensures Counts(T.Apply(p, t, T.Finish(m)), R.Apply(Untimed(p), s, R.Finish(slot)))
  {
    OneMore(t.finish, m, t.now);
  }

  lemma OneMore(finish: map<nat, nat>, m: nat, now: nat)
    requires m !in finish
    ensures |finish[m := now]| == |finish| + 1
  {
    assert finish[m := now].Keys == finish.Keys + {m};
  }

  lemma HarvestErased(p: T.Pool, t: T.State, s: R.State)
    requires Erased(t, s) && T.Enabled(p, t, T.Harvest) && T.Sized(p, t)
    ensures R.Enabled(Untimed(p), s, R.Harvest(false))
    ensures Erased(T.Apply(p, t, T.Harvest), R.Apply(Untimed(p), s, R.Harvest(false)))
  {
  }

  lemma StepErased(p: T.Pool, t: T.State, s: R.State, step: T.Step) returns (steps: seq<R.Step>)
    requires T.Inv(p, t) && Erased(t, s) && T.Enabled(p, t, step)
    ensures R.CanRun(Untimed(p), s, steps)
    ensures Erased(T.Apply(p, t, step), R.Run(Untimed(p), s, steps))
  {
    match step
    case Delay(_) => steps := [];
    case Claim => steps := ClaimErased(p, t, s);
    case Take =>
      TakeErased(p, t, s);
      RunOne(Untimed(p), s, R.Take);
      steps := [R.Take];
    case Finish(m) =>
      var slot := FinishErased(p, t, s, m);
      RunOne(Untimed(p), s, R.Finish(slot));
      steps := [R.Finish(slot)];
    case Harvest =>
      HarvestErased(p, t, s);
      RunOne(Untimed(p), s, R.Harvest(false));
      steps := [R.Harvest(false)];
  }

  lemma {:induction false} RunErased(p: T.Pool, t: T.State, s: R.State, timed: seq<T.Step>) returns (steps: seq<R.Step>)
    requires T.Inv(p, t) && Erased(t, s) && T.CanRun(p, t, timed)
    ensures R.CanRun(Untimed(p), s, steps)
    ensures Erased(T.Run(p, t, timed), R.Run(Untimed(p), s, steps))
    decreases |timed|
  {
    if timed == [] {
      steps := [];
    } else {
      var first := StepErased(p, t, s, timed[0]);
      T.InvStep(p, t, timed[0]);
      var rest := RunErased(p, T.Apply(p, t, timed[0]), R.Run(Untimed(p), s, first), timed[1..]);
      R.RunSplit(Untimed(p), s, first, rest);
      steps := first + rest;
    }
  }

  /**
   Every timed run, its clocks erased, is a run of the runtime worker's system:
   the jobs wait in the same order, the same jobs run, and as many results wait.
   So the accounting of that system holds of the timed pool.
   */
  lemma EveryTimedRun(p: T.Pool, timed: seq<T.Step>) returns (steps: seq<R.Step>)
    requires p.Ok() && T.CanRun(p, T.Initial(), timed)
    ensures R.CanRun(Untimed(p), R.Initial(), steps)
    ensures Erased(T.Run(p, T.Initial(), timed), R.Run(Untimed(p), R.Initial(), steps))
    ensures var t := T.Run(p, T.Initial(), timed);
            |t.claim| - t.harvested == (|t.claim| - |t.start|) + |t.running| + (|t.finish| - t.harvested) <= p.Capacity()
  {
    assert Erased(T.Initial(), R.Initial());
    steps := RunErased(p, T.Initial(), R.Initial(), timed);
    R.EveryRunIsCounted(Untimed(p), steps);
  }
}
