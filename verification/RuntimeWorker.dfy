/**
 The harvest loop and the claim stages of the SPI thread, as loops.  Between any
 two iterations the pool threads, the watchdog and the operators may take any
 number of steps; which ones is an argument of each method.
 */
module RuntimeWorker {
  import opened Options
  import opened RuntimeSystem

  /** Steps that are not the SPI thread's own. */
  predicate Foreign(step: Step) {
    step.Enqueue? || step.Cancel? || step.Watchdog? || step.Take? || step.Finish?
  }

  /** The foreign steps of a schedule that can be taken, one after the other. */
  function Taken(p: Pool, s: State, schedule: seq<Step>): (steps: seq<Step>)
    ensures CanRun(p, s, steps)
    ensures forall i :: 0 <= i < |steps| ==> Foreign(steps[i])
    decreases |schedule|
  {
    if schedule == [] then []
    else if Foreign(schedule[0]) && Enabled(p, s, schedule[0]) then
      [schedule[0]] + Taken(p, Apply(p, s, schedule[0]), schedule[1..])
    else Taken(p, s, schedule[1..])
  }

  /** For each harvest of a run, in order, whether the worker had its role. */
  function HarvestFlags(steps: seq<Step>): seq<bool> {
    if steps == [] then []
    else (if steps[0].Harvest? then [steps[0].privileged] else []) + HarvestFlags(steps[1..])
  }

  lemma TailOf(a: seq<Step>, b: seq<Step>)
    requires a != []
    ensures (a + b)[0] == a[0] && (a + b)[1..] == a[1..] + b
  {
  }

  lemma {:induction false} FlagsConcat(a: seq<Step>, b: seq<Step>)
    ensures HarvestFlags(a + b) == HarvestFlags(a) + HarvestFlags(b)
    decreases |a|
  {
    if a == [] {
      assert a + b == b;
    } else {
      FlagsConcat(a[1..], b);
      TailOf(a, b);
      Assoc(if a[0].Harvest? then [a[0].privileged] else [], HarvestFlags(a[1..]), HarvestFlags(b));
    }
  }

  /** Nobody else touches what belongs to the SPI thread, or takes a result away. */
  lemma {:induction false} ForeignKeeps(p: Pool, s: State, steps: seq<Step>)
    requires CanRun(p, s, steps) && forall i :: 0 <= i < |steps| ==> Foreign(steps[i])
    ensures var t := Run(p, s, steps);
            && t.phase == s.phase && t.inFlight == s.inFlight && t.sent == s.sent && t.submitted == s.submitted
            && multiset(s.results) <= multiset(t.results)
    ensures HarvestFlags(steps) == []
    decreases |steps|
  {
    if steps != [] {
      assert Foreign(steps[0]);
      ForeignKeeps(p, Apply(p, s, steps[0]), steps[1..]);
    }
  }

  /** No row goes back. */
  ghost predicate RowsMove(s: State, t: State) {
    forall id :: id in s.rows ==> id in t.rows && RowMoves(s.rows[id], t.rows[id])
  }

  lemma RowsRun(p: Pool, s: State, steps: seq<Step>)
    requires CanRun(p, s, steps)
    ensures RowsMove(s, Run(p, s, steps))
  {
    forall id | id in s.rows
      ensures id in Run(p, s, steps).rows && RowMoves(s.rows[id], Run(p, s, steps).rows[id])
    {
      RowRun(p, s, steps, id);
    }
  }

  /** Every result submitted beyond these has reached its row: harvested now, or lost before. */
  ghost predicate Reached(before: multiset<Job>, s: State) {
    forall j :: s.submitted[j] > before[j] ==> j.id in s.rows && Terminal(s.rows[j.id].status)
  }

  lemma ReachedRows(before: multiset<Job>, s: State)
    ensures Reached(before, s) ==>
              forall j :: s.submitted[j] > before[j] ==>
                j.id in s.rows && (s.rows[j.id].status == Harvested || s.rows[j.id].status == Lost)
  {
  }

  lemma ReachedLater(before: multiset<Job>, s: State, t: State)
    requires Reached(before, s) && RowsMove(s, t) && t.submitted == s.submitted
    ensures Reached(before, t)
  {
  }

  lemma HarvestReached(p: Pool, before: multiset<Job>, s: State)
    requires Inv(p, s) && Enabled(p, s, Harvest(true)) && Reached(before, s)
    ensures Reached(before, Apply(p, s, Harvest(true)))
  {
    var t := Apply(p, s, Harvest(true));
    HarvestReaches(p, s);
    forall j | t.submitted[j] > before[j]
      ensures j.id in t.rows && Terminal(t.rows[j.id].status)
    {
      if j != s.results[0] {
        assert s.submitted[j] == t.submitted[j];
        RowStep(p, s, Harvest(true), j.id);
      }
    }
  }

  /** The first n answers. */
  function FirstFlags(privileged: nat -> bool, n: nat): seq<bool> {
    if n == 0 then [] else FirstFlags(privileged, n - 1) + [privileged(n - 1)]
  }

  /** How far the harvest loop has come since it started. */
  ghost predicate Advanced(start: State, s: State, privileged: nat -> bool, n: nat) {
    && s.phase.Harvesting? && s.sent == start.sent
    && s.inFlight + n == start.inFlight && |s.submitted| == |start.submitted| + n
    && multiset(start.results) + start.submitted <= multiset(s.results) + s.submitted
    && ((forall k :: privileged(k)) ==> Reached(start.submitted, s))
  }

  lemma AdvancedLater(start: State, s: State, t: State, privileged: nat -> bool, n: nat)
    requires Advanced(start, s, privileged, n) && RowsMove(s, t)
    requires t.phase == s.phase && t.inFlight == s.inFlight && t.sent == s.sent && t.submitted == s.submitted
    requires multiset(s.results) <= multiset(t.results)
    ensures Advanced(start, t, privileged, n)
  {
    if forall k :: privileged(k) {
      ReachedLater(start.submitted, s, t);
    }
  }

  lemma AdvancedNext(p: Pool, start: State, s: State, privileged: nat -> bool, n: nat)
    requires Inv(p, s) && Advanced(start, s, privileged, n) && Enabled(p, s, Harvest(privileged(n)))
    ensures Advanced(start, Apply(p, s, Harvest(privileged(n))), privileged, n + 1)
  {
    HeadTail(s.results);
    OneLess(p, s, privileged(n));
    if forall k :: privileged(k) {
      HarvestReached(p, start.submitted, s);
    }
  }

  lemma OneLess(p: Pool, s: State, privileged: bool)
    requires Inv(p, s) && Enabled(p, s, Harvest(privileged))
    ensures var t := Apply(p, s, Harvest(privileged));
            && t.phase == s.phase && t.sent == s.sent && t.inFlight + 1 == s.inFlight
            && t.submitted == s.submitted + multiset{s.results[0]} && t.results == s.results[1..]
  {
  }

  /** The calls of a stage that are sent: those with a valid id, until the pool accepts no more. */
  function Accepted(jobs: seq<Job>, i: nat, valid: nat -> bool, accepted: nat -> bool): seq<Job> {
    if jobs == [] then []
    else if !valid(i) then Accepted(jobs[1..], i + 1, valid, accepted)
    else if accepted(i) then [jobs[0]] + Accepted(jobs[1..], i + 1, valid, accepted)
    else []
  }

  lemma OneFlag(privileged: bool)
    ensures HarvestFlags([Harvest(privileged)]) == [privileged]
  {
    assert [Harvest(privileged)][1..] == [];
  }

  class Worker {
    const pool: Pool
    var st: State
    ghost var trace: seq<Step> // everything that happened since the tables were created

    ghost predicate Valid()
      reads this
    {
      CanRun(pool, Initial(), trace) && st == Run(pool, Initial(), trace)
    }

    constructor (pool: Pool)
      ensures this.pool == pool && st == Initial() && trace == [] && Valid()
    {
      this.pool := pool;
      st := Initial();
      trace := [];
    }

    /** One step of the SPI thread. */
    method Do(step: Step)
      requires Valid() && Enabled(pool, st, step)
      modifies this`st, this`trace
      ensures Valid() && trace == old(trace) + [step] && st == Apply(pool, old(st), step)
    {
      RunSplit(pool, Initial(), trace, [step]);
      trace := trace + [step];
      st := Apply(pool, st, step);
    }

    /** What holds in every state that can be reached. */
    lemma Invariant()
      requires Valid()
      ensures Inv(pool, st)
    {
      InitialInv(pool);
      InvRun(pool, Initial(), trace);
    }

    /** A call whose row is harvested has one outcome in the log, and it is Completed. */
    lemma CompletedOnce(id: Id)
      requires Valid() && id in st.rows && st.rows[id].status == Harvested
      ensures exists i :: 0 <= i < |st.log| && st.log[i] == Entry(id, Completed)
                          && forall j :: 0 <= j < |st.log| && st.log[j].id == id ==> j == i
    {
      HarvestedIsCompleted(pool, trace, id);
    }

    /** The others take the steps of their schedule that they can. */
    method Interleave(schedule: seq<Step>)
      requires Valid()
      modifies this`st, this`trace
      ensures Valid() && old(trace) <= trace && HarvestFlags(trace) == HarvestFlags(old(trace))
      ensures st == Run(pool, old(st), Taken(pool, old(st), schedule))
      ensures st.phase == old(st.phase) && st.inFlight == old(st.inFlight)
      ensures st.sent == old(st.sent) && st.submitted == old(st.submitted)
      ensures multiset(old(st.results)) <= multiset(st.results) && RowsMove(old(st), st)
    {
      var steps := Taken(pool, st, schedule);
      ForeignKeeps(pool, st, steps);
      RowsRun(pool, st, steps);
      RunSplit(pool, Initial(), trace, steps);
      FlagsConcat(trace, steps);
      trace := trace + steps;
      st := Run(pool, st, steps);
    }

    /** One result, counted in flight since it was sent, is submitted, or skipped for want of the worker's role. */
    method HarvestOne(privileged: bool)
      requires Valid() && st.phase.Harvesting? && st.results != []
      modifies this`st, this`trace
      ensures Valid() && trace == old(trace) + [Harvest(privileged)]
      ensures HarvestFlags(trace) == HarvestFlags(old(trace)) + [privileged]
      ensures st == Apply(pool, old(st), Harvest(privileged))
    {
      FlagsConcat(trace, [Harvest(privileged)]);
      OneFlag(privileged);
      Do(Harvest(privileged));
    }

    /**
     The harvest loop: it ends although results keep arriving, because each one
     harvested was counted in flight; it leaves no result behind that arrived
     before its last look, and hands on every one that was waiting; the n-th is
     submitted under the n-th answer to whether the worker has its role, and if it
     always has, every result handed on has reached its row; and the counter goes
     down by exactly those results, so the saturating subtraction never saturates.
     */
    method HarvestAll(others: nat -> seq<Step>, privileged: nat -> bool) returns (n: nat)
      requires Valid() && st.phase.Harvesting?
      modifies this`st, this`trace
      ensures Valid() && old(trace) <= trace
      ensures st.phase.Harvesting? && st.results == [] && st.sent == old(st.sent)
      ensures st.inFlight + n == old(st.inFlight) && |st.submitted| == |old(st.submitted)| + n
      ensures multiset(old(st.results)) + old(st.submitted) <= st.submitted
      ensures HarvestFlags(trace) == HarvestFlags(old(trace)) + FirstFlags(privileged, n)
      ensures (forall k :: privileged(k)) ==>
                forall j :: st.submitted[j] > old(st.submitted)[j] ==>
                  j.id in st.rows && (st.rows[j.id].status == Harvested || st.rows[j.id].status == Lost)
    {
      ghost var start := st;
      n := 0;
      Interleave(others(0));
      AdvancedLater(start, start, st, privileged, 0);
      while st.results != []
        invariant Valid() && old(trace) <= trace
        invariant Advanced(start, st, privileged, n)
        invariant HarvestFlags(trace) == HarvestFlags(old(trace)) + FirstFlags(privileged, n)
        decreases st.inFlight
      {
        HarvestTurn(start, others(n + 1), privileged, n);
        Assoc(HarvestFlags(old(trace)), FirstFlags(privileged, n), [privileged(n)]);
        n := n + 1;
      }
      ReachedRows(start.submitted, st);
    }

    /** One turn of the loop: a harvest, and whatever the others do before the next. */
    method HarvestTurn(ghost start: State, schedule: seq<Step>, privileged: nat -> bool, n: nat)
      requires Valid() && Advanced(start, st, privileged, n) && st.results != []
      modifies this`st, this`trace
      ensures Valid() && old(trace) <= trace
      ensures Advanced(start, st, privileged, n + 1) && st.inFlight < old(st.inFlight)
      ensures HarvestFlags(trace) == HarvestFlags(old(trace)) + [privileged(n)]
    {
      Invariant();
      OneLess(pool, st, privileged(n));
      AdvancedNext(pool, start, st, privileged, n);
      HarvestOne(privileged(n));
      ghost var harvested := st;
      Interleave(schedule);
      AdvancedLater(start, harvested, st, privileged, n + 1);
    }

    /** The next claimed call: sent, skipped for want of a valid id, or the end of it when the pool is gone. */
    method SendOne(valid: bool, accepted: bool) returns (sent: nat)
      requires Valid() && st.phase.Sending? && st.phase.pending != []
      modifies this`st, this`trace
      ensures Valid() && old(trace) <= trace
      ensures st.phase.Sending? && st.phase.stage == old(st.phase.stage)
      ensures st.phase.pending == if valid && !accepted then [] else old(st.phase.pending)[1..]
      ensures sent == (if valid && accepted then 1 else 0)
      ensures st.inFlight == old(st.inFlight) + sent && st.submitted == old(st.submitted)
      ensures st.sent == old(st.sent) + if valid && accepted then multiset{old(st.phase.pending)[0]} else multiset{}
    {
      sent := if valid && accepted then 1 else 0;
      Do(if !valid then Skip else if accepted then Send else SendFails);
    }

    /** The claimed calls, one by one. */
    method SendAll(others: nat -> seq<Step>, valid: nat -> bool, accepted: nat -> bool) returns (queued: nat)
      requires Valid() && st.phase.Sending?
      modifies this`st, this`trace
      ensures Valid() && old(trace) <= trace
      ensures st.phase == Sending(old(st.phase.stage), []) && st.submitted == old(st.submitted)
      ensures var jobs := Accepted(old(st.phase.pending), 0, valid, accepted);
              && queued == |jobs| && st.inFlight == old(st.inFlight) + queued
              && st.sent == old(st.sent) + multiset(jobs)
    {
      ghost var done: seq<Job> := [];
      queued := 0;
      var i := 0;
      while st.phase.pending != []
        invariant Valid() && old(trace) <= trace
        invariant st.phase.Sending? && st.phase.stage == old(st.phase.stage) && st.submitted == old(st.submitted)
        invariant Accepted(old(st.phase.pending), 0, valid, accepted)
                  == done + Accepted(st.phase.pending, i, valid, accepted)
        invariant queued == |done| && st.inFlight == old(st.inFlight) + queued
        invariant st.sent == old(st.sent) + multiset(done)
        decreases |st.phase.pending|
      {
        Interleave(others(i));
        ghost var job := st.phase.pending[0];
        var sent := SendOne(valid(i), accepted(i));
        if sent == 1 {
          done := done + [job];
        }
        queued, i := queued + sent, i + 1;
      }
    }

    /**
     One claim stage: if the extension is ready and there is room, it claims at
     most the spare capacity from the table of its stage and sends, in order, the
     claimed calls with a valid id for as long as the pool accepts them; otherwise
     it does nothing.  The counter grows by the calls sent and stays within the
     capacity.
     */
    method ClaimStage(ids: seq<Id>, ready: bool, others: nat -> seq<Step>, valid: nat -> bool, accepted: nat -> bool)
      returns (queued: nat)
      requires Valid() && st.phase.Claiming?
      requires ready && st.inFlight < pool.capacity ==> Enabled(pool, st, Claim(ids))
      modifies this`st, this`trace
      ensures Valid() && old(trace) <= trace
      ensures st.phase == AfterStage(old(st.phase.stage)) && st.inFlight <= pool.capacity
      ensures st.inFlight == old(st.inFlight) + queued && st.submitted == old(st.submitted)
      ensures var open := ready && old(st.inFlight) < pool.capacity;
              var claimed := if open then JobsFor(ids, StageQueue(old(st.phase.stage))) else [];
              var jobs := Accepted(claimed, 0, valid, accepted);
              && queued == |jobs| && st.sent == old(st.sent) + multiset(jobs)
    {
      queued := 0;
      if !(ready && st.inFlight < pool.capacity) {
        Do(NoClaim);
      } else {
        Do(Claim(ids));
        queued := SendAll(others, valid, accepted);
        Do(EndStage);
      }
      EveryRunIsCounted(pool, trace);
    }
  }
}
