/**
 The runtime worker and its HTTP pool as a transition system.  The SPI thread
 harvests results and claims calls from four queues in turn; pool threads take
 jobs from one channel and put results on another; the database rows outlive the
 worker.  Every step of every thread may come between any two others.
 */
module RuntimeSystem {
  type Id = nat

  /** Which table a call came from, and so which function completes it. */
  datatype Queue = Outbound | Oauth | AgentEmbedding | ProviderProbe

  datatype Status = Queued | InFlight | Harvested | Lost

  datatype Row = Row(queue: Queue, status: Status)

  /** `OutboundJob` and `OutboundResult`, without their payloads. */
  datatype Job = Job(id: Id, queue: Queue)

  datatype Outcome = Completed | Reclaimed | Cancelled

  datatype Entry = Entry(id: Id, outcome: Outcome)

  /** Where the SPI thread is: harvesting, about to claim from a stage, or sending what it claimed. */
  datatype Phase = Harvesting | Claiming(stage: nat) | Sending(stage: nat, pending: seq<Job>)

  datatype Pool = Pool(threads: nat, capacity: nat)

  datatype State = State(
    rows: map<Id, Row>,       // the four tables
    log: seq<Entry>,          // outcomes recorded for calls, in order
    phase: Phase,
    inFlight: nat,            // the worker's counter
    channel: seq<Job>,        // jobs sent and not taken
    running: seq<Job>,        // jobs being performed, one per busy thread
    results: seq<Job>,        // results not harvested
    sent: multiset<Job>,      // history: every job ever sent to the pool,
    submitted: multiset<Job>, // every result handed to a completion function or skipped,
    dropped: multiset<Job>)   // every job that died with the worker

  datatype Step =
    | Enqueue(id: Id, queue: Queue)
    | Cancel(id: Id)                 // fn_cancel_session
    | Watchdog(id: Id)               // fn_watchdog
    | Take                           // a pool thread receives a job
    | Finish(slot: nat)              // a pool thread sends a result
    | Harvest(privileged: bool)      // a result is received and submitted, or skipped
    | BeginPump
    | Claim(ids: seq<Id>)
    | NoClaim
    | Send
    | Skip                           // a call without a valid id
    | SendFails                      // the pool is gone
    | EndStage
    | Crash

  // ----- Steps

  function StageQueue(stage: nat): Queue {
    if stage == 0 then Outbound else if stage == 1 then Oauth else if stage == 2 then AgentEmbedding else ProviderProbe
  }

  function AfterStage(stage: nat): Phase {
    if stage < 3 then Claiming(stage + 1) else Harvesting
  }

  function SaturatingSub(a: nat, b: nat): nat {
    if a >= b then a - b else 0
  }

  predicate Terminal(status: Status) {
    status == Harvested || status == Lost
  }

  function JobsFor(ids: seq<Id>, queue: Queue): seq<Job> {
    seq(|ids|, i requires 0 <= i < |ids| => Job(ids[i], queue))
  }

  /** The claim transaction marks the rows it returns. */
  function MarkInFlight(rows: map<Id, Row>, ids: seq<Id>, queue: Queue): map<Id, Row> {
    map id | id in rows :: if id in ids then Row(queue, InFlight) else rows[id]
  }

  predicate Claimable(s: State, ids: seq<Id>, queue: Queue) {
    && (forall i :: 0 <= i < |ids| ==> ids[i] in s.rows && s.rows[ids[i]] == Row(queue, Queued))
    && (forall i, j :: 0 <= i < j < |ids| ==> ids[i] != ids[j])
  }

  predicate Enabled(p: Pool, s: State, step: Step) {
    match step
    case Enqueue(id, _) => id !in s.rows
    case Cancel(id) => id in s.rows && !Terminal(s.rows[id].status)
    case Watchdog(id) => id in s.rows && s.rows[id].status == InFlight
    case Take => s.channel != [] && |s.running| < p.threads
    case Finish(slot) => slot < |s.running|
    case Harvest(_) => s.phase.Harvesting? && s.results != []
    case BeginPump => s.phase.Harvesting?
    case Claim(ids) =>
      && s.phase.Claiming? && s.inFlight < p.capacity && |ids| <= p.capacity - s.inFlight
      && Claimable(s, ids, StageQueue(s.phase.stage))
    case NoClaim => s.phase.Claiming?
    case Send => s.phase.Sending? && s.phase.pending != []
    case Skip => s.phase.Sending? && s.phase.pending != []
    case SendFails => s.phase.Sending? && s.phase.pending != []
    case EndStage => s.phase.Sending? && s.phase.pending == []
    case Crash => true
  }

  /**
   The completion function of a queue: it acts only on a row of its own table
   that is still in flight.
   */
  function Complete(s: State, queue: Queue, id: Id): State {
    if id in s.rows && s.rows[id] == Row(queue, InFlight) then
      s.(rows := s.rows[id := Row(queue, Harvested)], log := s.log + [Entry(id, Completed)])
    else s
  }

  function Lose(s: State, id: Id, outcome: Outcome): State
    requires id in s.rows
  {
    s.(rows := s.rows[id := s.rows[id].(status := Lost)], log := s.log + [Entry(id, outcome)])
  }

  function Without(jobs: seq<Job>, slot: nat): seq<Job>
    requires slot < |jobs|
  {
    jobs[..slot] + jobs[slot + 1..]
  }

  function Apply(p: Pool, s: State, step: Step): State
    requires Enabled(p, s, step)
  {
    match step
    case Enqueue(id, queue) => s.(rows := s.rows[id := Row(queue, Queued)])
    case Cancel(id) => Lose(s, id, Cancelled)
    case Watchdog(id) => Lose(s, id, Reclaimed)
    case Take => s.(channel := s.channel[1..], running := s.running + [s.channel[0]])
    case Finish(slot) => s.(running := Without(s.running, slot), results := s.results + [s.running[slot]])
    case Harvest(privileged) =>
      var r := s.results[0];
      var t := s.(results := s.results[1..], inFlight := SaturatingSub(s.inFlight, 1),
                  submitted := s.submitted + multiset{r});
      if privileged then Complete(t, r.queue, r.id) else t
    case BeginPump => s.(phase := Claiming(0))
    case Claim(ids) =>
      var queue := StageQueue(s.phase.stage);
      s.(rows := MarkInFlight(s.rows, ids, queue), phase := Sending(s.phase.stage, JobsFor(ids, queue)))
    case NoClaim => s.(phase := AfterStage(s.phase.stage))
    case Send =>
      var job := s.phase.pending[0];
      s.(phase := s.phase.(pending := s.phase.pending[1..]), channel := s.channel + [job],
         inFlight := s.inFlight + 1, sent := s.sent + multiset{job})
    case Skip => s.(phase := s.phase.(pending := s.phase.pending[1..]))
    case SendFails => s.(phase := s.phase.(pending := []))
    case EndStage => s.(phase := AfterStage(s.phase.stage))
    case Crash =>
      s.(phase := Harvesting, inFlight := 0, channel := [], running := [], results := [],
         dropped := s.dropped + InMemory(s))
  }

  function Initial(): State {
    State(map[], [], Harvesting, 0, [], [], [], multiset{}, multiset{}, multiset{})
  }

  // ----- What every step keeps

  function Pending(s: State): seq<Job> {
    if s.phase.Sending? then s.phase.pending else []
  }

  /** The jobs the pool holds. */
  function InMemory(s: State): multiset<Job> {
    multiset(s.channel) + multiset(s.running) + multiset(s.results)
  }

  /** Every job the worker holds or ever sent, once for each time it did. */
  function Handled(s: State): multiset<Job> {
    multiset(Pending(s)) + s.sent
  }

  predicate Counted(p: Pool, s: State) {
    && s.inFlight == |s.channel| + |s.running| + |s.results|
    && s.inFlight + |Pending(s)| <= p.capacity
    && |s.running| <= p.threads
  }

  predicate Conserved(s: State) {
    s.sent == InMemory(s) + s.submitted + s.dropped
  }

  /** A job is handled once, and its row has left the queue of its own table. */
  ghost predicate Fenced(s: State) {
    forall j :: j in Handled(s) ==>
      Handled(s)[j] == 1 && j.id in s.rows && s.rows[j.id].queue == j.queue && s.rows[j.id].status != Queued
  }

  /** A harvested row's job is no longer held by the worker. */
  ghost predicate Settled(s: State) {
    forall j :: j in multiset(Pending(s)) + InMemory(s) ==> j.id in s.rows && s.rows[j.id].status != Harvested
  }

  predicate Recorded(s: State, id: Id) {
    exists i :: 0 <= i < |s.log| && s.log[i].id == id
  }

  /** A call has an outcome exactly when its row is harvested or lost, and then one. */
  ghost predicate OneOutcome(s: State) {
    && (forall i :: 0 <= i < |s.log| ==>
          s.log[i].id in s.rows
          && s.rows[s.log[i].id].status == (if s.log[i].outcome == Completed then Harvested else Lost))
    && (forall i, j :: 0 <= i < j < |s.log| ==> s.log[i].id != s.log[j].id)
    && (forall id :: id in s.rows && Terminal(s.rows[id].status) ==> Recorded(s, id))
  }

  ghost predicate Inv(p: Pool, s: State) {
    Counted(p, s) && Conserved(s) && Fenced(s) && Settled(s) && OneOutcome(s)
  }

  lemma InitialInv(p: Pool)
    ensures Inv(p, Initial())
  {
  }

  // ----- Counting

  lemma HeadTail<T>(a: seq<T>)
    requires a != []
    ensures multiset(a) == multiset{a[0]} + multiset(a[1..])
  {
    assert a == [a[0]] + a[1..];
  }

  lemma Removed(a: seq<Job>, slot: nat)
    requires slot < |a|
    ensures multiset(a) == multiset{a[slot]} + multiset(Without(a, slot))
    ensures |Without(a, slot)| == |a| - 1
  {
    assert a == a[..slot] + [a[slot]] + a[slot + 1..];
  }

  lemma CountedStep(p: Pool, s: State, step: Step)
    requires Counted(p, s) && Enabled(p, s, step)
    ensures Counted(p, Apply(p, s, step))
  {
    if step.Finish? {
      Removed(s.running, step.slot);
    }
  }

  lemma ConservedStep(p: Pool, s: State, step: Step)
    requires Conserved(s) && Enabled(p, s, step)
    ensures Conserved(Apply(p, s, step))
  {
    var t := Apply(p, s, step);
    if !step.Crash? {
      MemoryStep(p, s, step);
      var out := if step.Harvest? then multiset{s.results[0]} else multiset{};
      var in_ := if step.Send? then multiset{s.phase.pending[0]} else multiset{};
      assert t.sent == s.sent + in_ && t.submitted == s.submitted + out;
      Balance(s.sent, InMemory(s), s.submitted, s.dropped, InMemory(t), in_, out);
    }
  }

  lemma Balance(sent: multiset<Job>, held: multiset<Job>, submitted: multiset<Job>, dropped: multiset<Job>,
                held': multiset<Job>, in_: multiset<Job>, out: multiset<Job>)
    requires sent == held + submitted + dropped && held' + out == held + in_
    ensures sent + in_ == held' + (submitted + out) + dropped
  {
    assert sent + in_ == (held + in_) + submitted + dropped;
  }

  /** What each step does to the jobs the pool holds. */
  lemma MemoryStep(p: Pool, s: State, step: Step)
    requires Enabled(p, s, step) && !step.Crash?
    ensures var t := Apply(p, s, step);
            InMemory(t) + (if step.Harvest? then multiset{s.results[0]} else multiset{})
            == InMemory(s) + (if step.Send? then multiset{s.phase.pending[0]} else multiset{})
  {
    match step
    case Take => TakeMemory(s, Apply(p, s, step));
    case Finish(slot) => FinishMemory(s, slot, Apply(p, s, step));
    case Harvest(_) => HarvestMemory(s, Apply(p, s, step));
    case Send => SendMemory(s, Apply(p, s, step));
    case _ =>
  }

  lemma TakeMemory(s: State, t: State)
    requires s.channel != [] && t.channel == s.channel[1..] && t.running == s.running + [s.channel[0]]
    requires t.results == s.results
    ensures InMemory(t) == InMemory(s)
  {
    MoveHead(s.channel, s.running);
  }

  lemma FinishMemory(s: State, slot: nat, t: State)
    requires slot < |s.running| && t.running == Without(s.running, slot) && t.results == s.results + [s.running[slot]]
    requires t.channel == s.channel
    ensures InMemory(t) == InMemory(s)
  {
    Removed(s.running, slot);
    assert multiset(t.results) == multiset(s.results) + multiset{s.running[slot]};
  }

  lemma HarvestMemory(s: State, t: State)
    requires s.results != [] && t.results == s.results[1..] && t.channel == s.channel && t.running == s.running
    ensures InMemory(t) + multiset{s.results[0]} == InMemory(s)
  {
    HeadTail(s.results);
  }

  lemma SendMemory(s: State, t: State)
    requires s.phase.Sending? && s.phase.pending != [] && t.channel == s.channel + [s.phase.pending[0]]
    requires t.running == s.running && t.results == s.results
    ensures InMemory(t) == InMemory(s) + multiset{s.phase.pending[0]}
  {
  }

  lemma MoveHead(a: seq<Job>, b: seq<Job>)
    requires a != []
    ensures multiset(a) + multiset(b) == multiset(a[1..]) + multiset(b + [a[0]])
  {
    HeadTail(a);
  }

  lemma {:induction false} ClaimedOnce(ids: seq<Id>, queue: Queue, j: Job)
    requires forall a, b :: 0 <= a < b < |ids| ==> ids[a] != ids[b]
    ensures multiset(JobsFor(ids, queue))[j] <= 1
    ensures j in JobsFor(ids, queue) <==> j.queue == queue && j.id in ids
    decreases |ids|
  {
    var jobs := JobsFor(ids, queue);
    if ids != [] {
      var tail := JobsFor(ids[1..], queue);
      assert jobs == [Job(ids[0], queue)] + tail;
      ClaimedOnce(ids[1..], queue, j);
      assert ids == [ids[0]] + ids[1..];
      if j == Job(ids[0], queue) {
        assert ids[0] !in ids[1..];
        assert j !in tail;
      }
    }
  }

  /** Every row that changes does so along queued, in flight, harvested or lost. */
  predicate RowMoves(a: Row, b: Row) {
    && a.queue == b.queue
    && (Terminal(a.status) ==> a == b)
    && (a.status == InFlight ==> b.status != Queued)
  }

  lemma RowStep(p: Pool, s: State, step: Step, id: Id)
    requires Enabled(p, s, step) && id in s.rows
    ensures id in Apply(p, s, step).rows && RowMoves(s.rows[id], Apply(p, s, step).rows[id])
  {
    if step.Claim? && id in step.ids {
      var i :| 0 <= i < |step.ids| && step.ids[i] == id;
      assert s.rows[step.ids[i]].status == Queued;
    }
  }

  lemma HandledStep(p: Pool, s: State, step: Step)
    requires Enabled(p, s, step) && !step.Claim?
    ensures Handled(Apply(p, s, step)) <= Handled(s)
  {
    if step.Send? || step.Skip? {
      HeadTail(s.phase.pending);
    }
  }

  lemma FencedStep(p: Pool, s: State, step: Step)
    requires Inv(p, s) && Enabled(p, s, step)
    ensures Fenced(Apply(p, s, step))
  {
    var t := Apply(p, s, step);
    forall j | j in Handled(t)
      ensures Handled(t)[j] == 1 && j.id in t.rows && t.rows[j.id].queue == j.queue && t.rows[j.id].status != Queued
    {
      if step.Claim? {
        ClaimFenced(p, s, step.ids, j);
      } else {
        OtherFenced(p, s, step, j);
      }
    }
  }

  lemma OtherFenced(p: Pool, s: State, step: Step, j: Job)
    requires Inv(p, s) && Enabled(p, s, step) && !step.Claim? && j in Handled(Apply(p, s, step))
    ensures var t := Apply(p, s, step);
            Handled(t)[j] == 1 && j.id in t.rows && t.rows[j.id].queue == j.queue && t.rows[j.id].status != Queued
  {
    HandledStep(p, s, step);
    assert j in Handled(s);
    RowStep(p, s, step, j.id);
  }

  /** What a claim returns was queued, so the worker never held or sent it before. */
  lemma ClaimFenced(p: Pool, s: State, ids: seq<Id>, j: Job)
    requires Inv(p, s) && Enabled(p, s, Claim(ids)) && j in Handled(Apply(p, s, Claim(ids)))
    ensures var t := Apply(p, s, Claim(ids));
            Handled(t)[j] == 1 && j.id in t.rows && t.rows[j.id].queue == j.queue && t.rows[j.id].status != Queued
  {
    var queue := StageQueue(s.phase.stage);
    ClaimedOnce(ids, queue, j);
    if j in s.sent {
      assert j in Handled(s);
      RowStep(p, s, Claim(ids), j.id);
      assert j !in JobsFor(ids, queue);
    }
  }

  lemma HeldIsHandled(s: State, j: Job)
    requires Conserved(s) && j in multiset(Pending(s)) + InMemory(s)
    ensures j in Handled(s)
  {
  }

  /** The job whose result is being submitted is held nowhere else. */
  lemma HarvestedOnce(p: Pool, s: State, j: Job)
    requires Inv(p, s) && s.results != []
    requires j in multiset(Pending(s)) + multiset(s.channel) + multiset(s.running) + multiset(s.results[1..])
    ensures j.id != s.results[0].id
  {
    var r := s.results[0];
    var others := multiset(Pending(s)) + multiset(s.channel) + multiset(s.running) + multiset(s.results[1..]);
    HeadTail(s.results);
    assert multiset(Pending(s)) + InMemory(s) == others + multiset{r};
    HeldIsHandled(s, r);
    HeldIsHandled(s, j);
    assert Handled(s)[r] == 1;
    assert others[r] == 0;
  }

  lemma PendingStep(p: Pool, s: State, step: Step)
    requires Enabled(p, s, step) && !step.Claim?
    ensures var t := Apply(p, s, step);
            multiset(Pending(t)) + (if step.Send? then multiset{s.phase.pending[0]} else multiset{}) <= multiset(Pending(s))
  {
    if step.Send? || step.Skip? {
      HeadTail(s.phase.pending);
    }
  }

  lemma MemoryShrinks(p: Pool, s: State, step: Step)
    requires Enabled(p, s, step)
    ensures var t := Apply(p, s, step);
            InMemory(t) <= InMemory(s) + (if step.Send? then multiset{s.phase.pending[0]} else multiset{})
  {
    if !step.Crash? {
      MemoryStep(p, s, step);
    }
  }

  lemma HeldStep(p: Pool, s: State, step: Step)
    requires Enabled(p, s, step) && !step.Claim?
    ensures var t := Apply(p, s, step); multiset(Pending(t)) + InMemory(t) <= multiset(Pending(s)) + InMemory(s)
  {
    PendingStep(p, s, step);
    MemoryShrinks(p, s, step);
    var t := Apply(p, s, step);
    Exchange(multiset(Pending(t)), InMemory(t), multiset(Pending(s)), InMemory(s),
             if step.Send? then multiset{s.phase.pending[0]} else multiset{});
  }

  lemma Exchange(a: multiset<Job>, b: multiset<Job>, c: multiset<Job>, d: multiset<Job>, x: multiset<Job>)
    requires a + x <= c && b <= d + x
    ensures a + b <= c + d
  {
    forall j
      ensures (a + b)[j] <= (c + d)[j]
    {
      assert (a + x)[j] <= c[j] && b[j] <= (d + x)[j];
    }
  }

  /** Only a harvest makes a row harvested, and only its own. */
  lemma NotHarvested(p: Pool, s: State, step: Step, id: Id)
    requires Enabled(p, s, step) && id in s.rows && s.rows[id].status != Harvested
    requires step.Harvest? ==> id != s.results[0].id
    ensures id in Apply(p, s, step).rows && Apply(p, s, step).rows[id].status != Harvested
  {
  }

  /** What a claim adds to the jobs held is what it claims. */
  lemma ClaimHeld(p: Pool, s: State, ids: seq<Id>, j: Job)
    requires Enabled(p, s, Claim(ids)) && j !in InMemory(s)
    requires var t := Apply(p, s, Claim(ids)); j in multiset(Pending(t)) + InMemory(t)
    ensures j.id in ids
  {
    ClaimedOnce(ids, StageQueue(s.phase.stage), j);
  }

  lemma HeldBefore(p: Pool, s: State, step: Step, j: Job)
    requires Inv(p, s) && Enabled(p, s, step)
    requires var t := Apply(p, s, step); j in multiset(Pending(t)) + InMemory(t)
    ensures j in multiset(Pending(s)) + InMemory(s) || (step.Claim? && j.id in step.ids)
  {
    if step.Claim? {
      if j !in InMemory(s) {
        ClaimHeld(p, s, step.ids, j);
      }
    } else {
      HeldStep(p, s, step);
    }
  }

  /** A job still held after a harvest is another one than the harvested. */
  lemma HeldAfterHarvest(p: Pool, s: State, privileged: bool, j: Job)
    requires Inv(p, s) && Enabled(p, s, Harvest(privileged))
    requires var t := Apply(p, s, Harvest(privileged)); j in multiset(Pending(t)) + InMemory(t)
    ensures j.id != s.results[0].id
  {
    HarvestedOnce(p, s, j);
  }

  lemma SettledStep(p: Pool, s: State, step: Step)
    requires Inv(p, s) && Enabled(p, s, step)
    ensures Settled(Apply(p, s, step))
  {
    var t := Apply(p, s, step);
    forall j | j in multiset(Pending(t)) + InMemory(t)
      ensures j.id in t.rows && t.rows[j.id].status != Harvested
    {
      HeldBefore(p, s, step, j);
      if step.Harvest? {
        HeldAfterHarvest(p, s, step.privileged, j);
      }
      NotHarvested(p, s, step, j.id);
    }
  }

  /** Losing or completing a call that has no outcome records its first one. */
  lemma RecordStep(s: State, id: Id, outcome: Outcome, t: State)
    requires OneOutcome(s) && id in s.rows && !Terminal(s.rows[id].status)
    requires t.rows == s.rows[id := s.rows[id].(status := if outcome == Completed then Harvested else Lost)]
    requires t.log == s.log + [Entry(id, outcome)]
    ensures OneOutcome(t)
  {
    forall k | k in t.rows && Terminal(t.rows[k].status)
      ensures Recorded(t, k)
    {
      if k == id {
        assert t.log[|s.log|].id == id;
      } else {
        assert Recorded(s, k);
        var i :| 0 <= i < |s.log| && s.log[i].id == k;
        assert t.log[i].id == k;
      }
    }
  }

  lemma SameOutcomes(s: State, t: State)
    requires OneOutcome(s) && t.log == s.log
    requires forall id :: id in s.rows ==> id in t.rows && (Terminal(s.rows[id].status) ==> t.rows[id] == s.rows[id])
    requires forall id :: id in t.rows && Terminal(t.rows[id].status) ==> id in s.rows && t.rows[id] == s.rows[id]
    ensures OneOutcome(t)
  {
    forall id | id in t.rows && Terminal(t.rows[id].status)
      ensures Recorded(t, id)
    {
      assert Recorded(s, id);
    }
  }

  lemma SameRows(s: State, t: State)
    requires OneOutcome(s) && t.log == s.log && t.rows == s.rows
    ensures OneOutcome(t)
  {
    SameOutcomes(s, t);
  }

  lemma OutcomeStep(p: Pool, s: State, step: Step)
    requires Inv(p, s) && Enabled(p, s, step)
    ensures OneOutcome(Apply(p, s, step))
  {
    var t := Apply(p, s, step);
    match step
    case Cancel(id) => RecordStep(s, id, Cancelled, t);
    case Watchdog(id) => RecordStep(s, id, Reclaimed, t);
    case Harvest(privileged) => HarvestOutcome(p, s, privileged);
    case Claim(ids) => ClaimOutcome(p, s, ids);
    case Enqueue(id, queue) => SameOutcomes(s, t);
    case _ => SameRows(s, t);
  }

  lemma HarvestOutcome(p: Pool, s: State, privileged: bool)
    requires OneOutcome(s) && Enabled(p, s, Harvest(privileged))
    ensures OneOutcome(Apply(p, s, Harvest(privileged)))
  {
    var t := Apply(p, s, Harvest(privileged));
    var r := s.results[0];
    if privileged && r.id in s.rows && s.rows[r.id] == Row(r.queue, InFlight) {
      RecordStep(s, r.id, Completed, t);
    } else {
      SameOutcomes(s, t);
    }
  }

  lemma ClaimOutcome(p: Pool, s: State, ids: seq<Id>)
    requires OneOutcome(s) && Enabled(p, s, Claim(ids))
    ensures OneOutcome(Apply(p, s, Claim(ids)))
  {
    var t := Apply(p, s, Claim(ids));
    forall id | id in s.rows
      ensures Terminal(s.rows[id].status) ==> t.rows[id] == s.rows[id]
    {
      RowStep(p, s, Claim(ids), id);
    }
    SameOutcomes(s, t);
  }

  /** Every step of every thread keeps the invariant. */
  lemma InvStep(p: Pool, s: State, step: Step)
    requires Inv(p, s) && Enabled(p, s, step)
    ensures Inv(p, Apply(p, s, step))
  {
    CountedStep(p, s, step);
    ConservedStep(p, s, step);
    FencedStep(p, s, step);
    SettledStep(p, s, step);
    OutcomeStep(p, s, step);
  }

  // ----- Runs

  /** The steps can be taken one after the other. */
  predicate CanRun(p: Pool, s: State, steps: seq<Step>)
    decreases |steps|
  {
    steps == [] || (Enabled(p, s, steps[0]) && CanRun(p, Apply(p, s, steps[0]), steps[1..]))
  }

  function Run(p: Pool, s: State, steps: seq<Step>): State
    requires CanRun(p, s, steps)
    decreases |steps|
  {
    if steps == [] then s else Run(p, Apply(p, s, steps[0]), steps[1..])
  }

  lemma {:induction false} InvRun(p: Pool, s: State, steps: seq<Step>)
    requires Inv(p, s) && CanRun(p, s, steps)
    ensures Inv(p, Run(p, s, steps))
    decreases |steps|
  {
    if steps != [] {
      InvStep(p, s, steps[0]);
      InvRun(p, Apply(p, s, steps[0]), steps[1..]);
    }
  }

  lemma {:induction false} RunSplit(p: Pool, s: State, a: seq<Step>, b: seq<Step>)
    requires CanRun(p, s, a) && CanRun(p, Run(p, s, a), b)
    ensures CanRun(p, s, a + b) && Run(p, s, a + b) == Run(p, Run(p, s, a), b)
    decreases |a|
  {
    if a == [] {
      assert a + b == b;
    } else {
      RunSplit(p, Apply(p, s, a[0]), a[1..], b);
      assert (a + b)[1..] == a[1..] + b;
    }
  }

  /**
   Accounting, in every reachable state: the counter equals the jobs queued,
   running and unharvested, it never exceeds the capacity across the four claim
   stages, no job was ever sent or submitted twice, and every job sent is with
   the pool, was submitted, or died with the worker.
   */
  lemma EveryRunIsCounted(p: Pool, steps: seq<Step>)
    requires CanRun(p, Initial(), steps)
    ensures var s := Run(p, Initial(), steps);
            && s.inFlight == |s.channel| + |s.running| + |s.results|
            && s.inFlight <= p.capacity
            && s.sent == InMemory(s) + s.submitted + s.dropped
            && (forall j :: s.sent[j] <= 1 && s.submitted[j] <= 1)
            && (s.results != [] ==> s.inFlight >= 1)
  {
    InitialInv(p);
    InvRun(p, Initial(), steps);
    var s := Run(p, Initial(), steps);
    forall j
      ensures s.sent[j] <= 1 && s.submitted[j] <= 1
    {
      if j in s.sent {
        assert j in Handled(s);
      }
    }
  }

  /**
   A result harvested under the worker's role while its row is in flight is
   recorded, through the completion function of the table that the call was
   claimed from; a result for a row lost meanwhile changes nothing in the
   database.
   */
  lemma HarvestReaches(p: Pool, s: State)
    requires Inv(p, s) && Enabled(p, s, Harvest(true))
    ensures var r := s.results[0];
            var t := Apply(p, s, Harvest(true));
            && r.id in s.rows && s.rows[r.id].queue == r.queue
            && (s.rows[r.id].status == InFlight || s.rows[r.id].status == Lost)
            && (s.rows[r.id].status == InFlight ==>
                  t.rows == s.rows[r.id := Row(r.queue, Harvested)] && t.log == s.log + [Entry(r.id, Completed)])
            && (s.rows[r.id].status == Lost ==> t.rows == s.rows && t.log == s.log)
            && t.inFlight == s.inFlight - 1
  {
    HeadTail(s.results);
    HeldIsHandled(s, s.results[0]);
  }

  /**
   A result skipped for want of the worker's role changes neither tables nor
   outcomes; the counter goes down all the same.
   */
  lemma HarvestSkips(p: Pool, s: State)
    requires Inv(p, s) && Enabled(p, s, Harvest(false))
    ensures var t := Apply(p, s, Harvest(false));
            && t.rows == s.rows && t.log == s.log && t.inFlight == s.inFlight - 1
            && t.results == s.results[1..] && t.submitted == s.submitted + multiset{s.results[0]}
  {
  }

  /** The four stages of a pump, in order, and the four tables they claim from. */
  lemma PumpOrder()
    ensures [StageQueue(0), StageQueue(1), StageQueue(2), StageQueue(3)]
            == [Outbound, Oauth, AgentEmbedding, ProviderProbe]
    ensures [AfterStage(0), AfterStage(1), AfterStage(2), AfterStage(3)]
            == [Claiming(1), Claiming(2), Claiming(3), Harvesting]
  {
  }

  /** A claim marks the rows it returns as in flight, leaves all others, and hands the calls on in its order. */
  lemma ClaimMarks(p: Pool, s: State, ids: seq<Id>, id: Id)
    requires Inv(p, s) && Enabled(p, s, Claim(ids)) && id in s.rows
    ensures var t := Apply(p, s, Claim(ids));
            && id in t.rows && t.log == s.log && t.inFlight == s.inFlight
            && t.rows[id] == (if id in ids then Row(s.rows[id].queue, InFlight) else s.rows[id])
            && t.phase.Sending? && |t.phase.pending| == |ids|
            && forall i :: 0 <= i < |ids| ==> t.phase.pending[i] == Job(ids[i], StageQueue(s.phase.stage))
  {
    if id in ids {
      var i :| 0 <= i < |ids| && ids[i] == id;
      assert s.rows[ids[i]].queue == StageQueue(s.phase.stage);
    }
  }

  /** A cancel and a reclaim each make the row lost and record that, once. */
  lemma LosesOnce(p: Pool, s: State, id: Id, step: Step)
    requires Inv(p, s) && Enabled(p, s, step) && (step == Cancel(id) || step == Watchdog(id))
    ensures var t := Apply(p, s, step);
            && t.rows == s.rows[id := Row(s.rows[id].queue, Lost)]
            && t.log == s.log + [Entry(id, if step.Cancel? then Cancelled else Reclaimed)]
            && forall i :: 0 <= i < |s.log| ==> s.log[i].id != id
  {
  }

  /** In every reachable state a harvested row has one outcome, and it is Completed. */
  lemma HarvestedIsCompleted(p: Pool, steps: seq<Step>, id: Id)
    requires CanRun(p, Initial(), steps)
    requires var s := Run(p, Initial(), steps); id in s.rows && s.rows[id].status == Harvested
    ensures var log := Run(p, Initial(), steps).log;
            exists i :: 0 <= i < |log| && log[i] == Entry(id, Completed)
                        && forall j :: 0 <= j < |log| && log[j].id == id ==> j == i
  {
    var s := Run(p, Initial(), steps);
    InitialInv(p);
    InvRun(p, Initial(), steps);
    assert Recorded(s, id);
    var i :| 0 <= i < |s.log| && s.log[i].id == id;
    assert s.log[i] == Entry(id, Completed);
  }

  lemma {:induction false} RowRun(p: Pool, s: State, steps: seq<Step>, id: Id)
    requires CanRun(p, s, steps) && id in s.rows
    ensures id in Run(p, s, steps).rows && RowMoves(s.rows[id], Run(p, s, steps).rows[id])
    decreases |steps|
  {
    if steps != [] {
      RowStep(p, s, steps[0], id);
      RowRun(p, Apply(p, s, steps[0]), steps[1..], id);
    }
  }

  /**
   Over every run with crashes, reclaims, cancels, skipped submissions and
   belated results: no call gets a second outcome, a call has one exactly when
   its row is harvested or lost, and no row ever leaves those two.
   */
  lemma OutcomesAreFinal(p: Pool, before: seq<Step>, after: seq<Step>, id: Id)
    requires CanRun(p, Initial(), before) && CanRun(p, Run(p, Initial(), before), after)
    ensures var s := Run(p, Initial(), before);
            var t := Run(p, s, after);
            && OneOutcome(s) && OneOutcome(t)
            && (id in s.rows && Terminal(s.rows[id].status) ==> id in t.rows && t.rows[id] == s.rows[id])
  {
    var s := Run(p, Initial(), before);
    InitialInv(p);
    InvRun(p, Initial(), before);
    InvRun(p, s, after);
    if id in s.rows {
      RowRun(p, s, after, id);
    }
  }
}
