/**
 Cancelling a running HTTP call.  A pool thread registers a flag for its call in
 a shared map and removes the entry of its call id when the call returns; the SPI
 thread copies the keys, asks the database which of those calls were lost, and
 later, under the lock again, sets the flags of those it still finds.
 */
module CancelFlags {
  type Id = nat
  type Flag = nat // an `Arc<AtomicBool>`, by identity; it stands for the guard that created it

  /** How call ids recur: never, only after the call before has ended, or in any way. */
  datatype Ids = Fresh | OneAtATime | Anyhow

  /** The SPI thread between passes, with the keys copied, or with the database's answer. */
  datatype Phase = Idle | Asked(calls: map<Id, Flag>) | Told(calls: map<Id, Flag>, lost: set<Id>)

  datatype State = State(
    flags: map<Id, Flag>,   // OUTBOUND_CANCEL_FLAGS
    live: map<Flag, Id>,    // guards between registration and drop, with the call id each holds
    raised: set<Flag>,      // flags that are true
    phase: Phase,
    lostRows: set<Id>,      // rows the database has marked lost
    reported: set<Flag>,    // history: calls that a query about them reported lost
    used: set<Id>,          // history: ids ever registered
    next: Flag)

  datatype Step =
    | Register(id: Id)
    | Drop(guard: Flag)
    | LoseRow(id: Id)
    | Snapshot
    | Query(privileged: bool)
    | Store

  predicate MayRegister(ids: Ids, s: State, id: Id) {
    match ids
    case Fresh => id !in s.used
    case OneAtATime => id !in s.live.Values
    case Anyhow => true
  }

  predicate Enabled(ids: Ids, s: State, step: Step) {
    match step
    case Register(id) => MayRegister(ids, s, id)
    case Drop(guard) => guard in s.live
    case LoseRow(_) => true
    case Snapshot => s.phase.Idle?
    case Query(_) => s.phase.Asked?
    case Store => s.phase.Told?
  }

  /** The flags that the store finds for the ids it was told about. */
  function Found(flags: map<Id, Flag>, lost: set<Id>): set<Flag> {
    set id | id in lost && id in flags :: flags[id]
  }

  function Apply(ids: Ids, s: State, step: Step): State
    requires Enabled(ids, s, step)
  {
    match step
    case Register(id) =>
      s.(flags := s.flags[id := s.next], live := s.live[s.next := id], used := s.used + {id}, next := s.next + 1)
    case Drop(guard) => s.(flags := s.flags - {s.live[guard]}, live := s.live - {guard})
    case LoseRow(id) => s.(lostRows := s.lostRows + {id})
    case Snapshot => s.(phase := Asked(s.flags))
    case Query(privileged) =>
      var lost := if privileged then s.phase.calls.Keys * s.lostRows else {};
      s.(phase := Told(s.phase.calls, lost), reported := s.reported + Found(s.phase.calls, lost))
    case Store => s.(raised := s.raised + Found(s.flags, s.phase.lost), phase := Idle)
  }

  function Initial(): State {
    State(map[], map[], {}, Idle, {}, {}, {}, 0)
  }

  // ----- What every step keeps

  /** The map holds exactly the calls in progress, each with the flag its own guard holds. */
  ghost predicate Right(s: State) {
    && (forall f :: f in s.live ==> s.live[f] in s.flags && s.flags[s.live[f]] == f)
    && (forall id :: id in s.flags ==> s.flags[id] in s.live && s.live[s.flags[id]] == id)
  }

  /** What holds however ids recur. */
  ghost predicate Numbered(s: State) {
    && (forall f :: f in s.live ==> f < s.next && s.live[f] in s.used)
    && (forall id :: id in s.flags ==> s.flags[id] < s.next)
    && (forall f :: f in s.raised ==> f < s.next)
  }

  /** A raised flag of a call in progress belongs to a lost row. */
  ghost predicate Justified(s: State) {
    && (forall f :: f in s.live && f in s.raised ==> s.live[f] in s.lostRows)
    && (s.phase.Told? ==> s.phase.lost <= s.lostRows && s.phase.lost <= s.phase.calls.Keys)
  }

  /** Calls that were asked about and are in progress are still the same calls. */
  ghost predicate Current(s: State) {
    && (s.phase.Idle? || forall id :: id in s.phase.calls ==>
          id in s.used && (id in s.flags ==> s.flags[id] == s.phase.calls[id]))
    && (s.phase.Told? ==> Found(s.phase.calls, s.phase.lost) <= s.reported)
    && s.raised <= s.reported
  }

  ghost predicate Inv(ids: Ids, s: State) {
    && Numbered(s)
    && (!ids.Anyhow? ==> Right(s) && Justified(s))
    && (ids.Fresh? ==> Current(s))
  }

  lemma NumberedStep(ids: Ids, s: State, step: Step)
    requires Numbered(s) && Enabled(ids, s, step)
    ensures Numbered(Apply(ids, s, step))
  {
  }

  /** A step keeps the map right if and only if it does not register an id that a call in progress has. */
  lemma RightStep(s: State, step: Step)
    requires Numbered(s) && Right(s) && Enabled(Anyhow, s, step)
    ensures Right(Apply(Anyhow, s, step)) <==> Enabled(OneAtATime, s, step)
  {
    var t := Apply(Anyhow, s, step);
    if step.Register? && step.id in s.live.Values {
      var f :| f in s.live && s.live[f] == step.id;
      assert f in t.live && t.live[f] == step.id && t.flags[step.id] == s.next != f;
    } else if step.Register? {
      assert forall f :: f in s.live ==> s.live[f] != step.id;
    }
  }

  /** Fresh ids are in particular not in use. */
  lemma FreshIsFree(ids: Ids, s: State, step: Step)
    requires Numbered(s) && Enabled(ids, s, step) && !ids.Anyhow?
    ensures Enabled(OneAtATime, s, step)
  {
  }

  lemma JustifiedStep(ids: Ids, s: State, step: Step)
    requires Numbered(s) && Right(s) && Justified(s) && Enabled(ids, s, step)
    ensures Justified(Apply(ids, s, step))
  {
    var t := Apply(ids, s, step);
    if step.Store? {
      forall f | f in t.live && f in t.raised
        ensures t.live[f] in t.lostRows
      {
        if f !in s.raised {
          var id :| id in s.phase.lost && id in s.flags && s.flags[id] == f;
          assert s.live[f] == id;
        }
      }
    }
  }

  lemma CurrentStep(s: State, step: Step)
    requires Numbered(s) && Right(s) && Justified(s) && Current(s) && Enabled(Fresh, s, step)
    ensures Current(Apply(Fresh, s, step))
  {
    var t := Apply(Fresh, s, step);
    if step.Store? {
      forall f | f in Found(s.flags, s.phase.lost)
        ensures f in s.reported
      {
        var id :| id in s.phase.lost && id in s.flags && s.flags[id] == f;
        assert s.phase.calls[id] in Found(s.phase.calls, s.phase.lost);
      }
    } else if step.Snapshot? {
      forall id | id in s.flags
        ensures id in s.used
      {
        assert s.live[s.flags[id]] == id;
      }
    }
  }

  lemma InvStep(ids: Ids, s: State, step: Step)
    requires Inv(ids, s) && Enabled(ids, s, step)
    ensures Inv(ids, Apply(ids, s, step))
  {
    NumberedStep(ids, s, step);
    if !ids.Anyhow? {
      FreshIsFree(ids, s, step);
      RightStep(s, step);
      JustifiedStep(ids, s, step);
    }
    if ids.Fresh? {
      CurrentStep(s, step);
    }
  }

  // ----- Runs

  predicate CanRun(ids: Ids, s: State, steps: seq<Step>)
    decreases |steps|
  {
    steps == [] || (Enabled(ids, s, steps[0]) && CanRun(ids, Apply(ids, s, steps[0]), steps[1..]))
  }

  function Run(ids: Ids, s: State, steps: seq<Step>): State
    requires CanRun(ids, s, steps)
    decreases |steps|
  {
    if steps == [] then s else Run(ids, Apply(ids, s, steps[0]), steps[1..])
  }

  lemma {:induction false} InvRun(ids: Ids, s: State, steps: seq<Step>)
    requires Inv(ids, s) && CanRun(ids, s, steps)
    ensures Inv(ids, Run(ids, s, steps))
    decreases |steps|
  {
    if steps != [] {
      InvStep(ids, s, steps[0]);
      InvRun(ids, Apply(ids, s, steps[0]), steps[1..]);
    }
  }

  /** The map is right in every state of a run. */
  ghost predicate RightThroughout(s: State, steps: seq<Step>)
    requires CanRun(Anyhow, s, steps)
    decreases |steps|
  {
    Right(s) && (steps != [] ==> RightThroughout(Apply(Anyhow, s, steps[0]), steps[1..]))
  }

  /**
   However ids recur: the map holds exactly the calls in progress throughout a
   run if and only if no id is ever registered while a call with that id is in
   progress.
   */
  lemma {:induction false} RightExactlyWhen(s: State, steps: seq<Step>)
    requires Numbered(s) && Right(s) && CanRun(Anyhow, s, steps)
    ensures RightThroughout(s, steps) <==> CanRun(OneAtATime, s, steps)
    decreases |steps|
  {
    if steps != [] {
      var t := Apply(Anyhow, s, steps[0]);
      NumberedStep(Anyhow, s, steps[0]);
      RightStep(s, steps[0]);
      if Right(t) {
        assert Apply(OneAtATime, s, steps[0]) == t;
        RightExactlyWhen(t, steps[1..]);
      }
    }
  }

  /**
   In every interleaving in which no two calls in progress share an id, the map's
   keys are exactly the calls in progress, and a raised flag of one means that
   its row is lost.  If ids are not reused at all, every raised flag belongs to a
   call that a query about that very call reported lost.
   */
  lemma EveryInterleaving(ids: Ids, steps: seq<Step>)
    requires CanRun(ids, Initial(), steps) && !ids.Anyhow?
    ensures var s := Run(ids, Initial(), steps);
            && s.flags.Keys == s.live.Values
            && (forall f :: f in s.live ==> s.live[f] in s.flags && s.flags[s.live[f]] == f)
            && (forall f :: f in s.live && f in s.raised ==> s.live[f] in s.lostRows)
            && (ids.Fresh? ==> s.raised <= s.reported)
  {
    InvRun(ids, Initial(), steps);
  }

  /** However ids recur, a guard keeps its flag, and the flag stays raised, until the call ends. */
  lemma {:induction false} StaysRaised(ids: Ids, s: State, steps: seq<Step>, guard: Flag)
    requires Numbered(s) && CanRun(ids, s, steps) && guard in s.live
    requires forall i :: 0 <= i < |steps| ==> steps[i] != Drop(guard)
    ensures var t := Run(ids, s, steps);
            && guard in t.live && t.live[guard] == s.live[guard] && s.raised <= t.raised && s.lostRows <= t.lostRows
    decreases |steps|
  {
    if steps != [] {
      assert steps[0] != Drop(guard);
      NumberedStep(ids, s, steps[0]);
      StaysRaised(ids, Apply(ids, s, steps[0]), steps[1..], guard);
    }
  }

  /**
   A store raises the flags of the calls it was told about that are still in
   progress, and no other flag: for a call that has ended meanwhile it does
   nothing.
   */
  lemma StoreTouches(ids: Ids, s: State, guard: Flag)
    requires Inv(ids, s) && !ids.Anyhow? && s.phase.Told? && guard in s.live
    ensures var t := Apply(ids, s, Store);
            && t.flags == s.flags
            && (guard in t.raised <==> guard in s.raised || s.live[guard] in s.phase.lost)
  {
    var t := Apply(ids, s, Store);
    if s.live[guard] in s.phase.lost {
      assert s.flags[s.live[guard]] in Found(s.flags, s.phase.lost);
    }
  }

  predicate Quiet(steps: seq<Step>, guard: Flag) {
    forall i :: 0 <= i < |steps| ==>
      steps[i] != Drop(guard) && (steps[i].Register? || steps[i].Drop? || steps[i].LoseRow?)
  }

  lemma {:induction false} PhaseKept(ids: Ids, s: State, steps: seq<Step>, guard: Flag)
    requires CanRun(ids, s, steps) && Quiet(steps, guard)
    ensures Run(ids, s, steps).phase == s.phase
    decreases |steps|
  {
    if steps != [] {
      assert Quiet([steps[0]], guard) by {
        assert steps[0].Register? || steps[0].Drop? || steps[0].LoseRow?;
      }
      PhaseKept(ids, Apply(ids, s, steps[0]), steps[1..], guard);
    }
  }

  /**
   One pass suffices: if the row is lost when the keys are copied and the call
   is in progress until the store, then whatever else happens in between, the
   store raises its flag.
   */
  lemma OnePassRaises(ids: Ids, s: State, a: seq<Step>, b: seq<Step>, guard: Flag)
    requires Inv(ids, s) && !ids.Anyhow? && s.phase.Idle? && guard in s.live && s.live[guard] in s.lostRows
    requires Quiet(a, guard) && Quiet(b, guard)
    requires var s1 := Apply(ids, s, Snapshot); CanRun(ids, s1, a)
    requires var s2 := Run(ids, Apply(ids, s, Snapshot), a);
             Enabled(ids, s2, Query(true)) && CanRun(ids, Apply(ids, s2, Query(true)), b)
    ensures var s2 := Run(ids, Apply(ids, s, Snapshot), a);
            var s3 := Run(ids, Apply(ids, s2, Query(true)), b);
            && Enabled(ids, s3, Store)
            && guard in s3.live && guard in Apply(ids, s3, Store).raised
  {
    var s1 := Apply(ids, s, Snapshot);
    var s2 := Run(ids, s1, a);
    var q := Apply(ids, s2, Query(true));
    var s3 := Run(ids, q, b);
    InvStep(ids, s, Snapshot);
    InvRun(ids, s1, a);
    PhaseKept(ids, s1, a, guard);
    StaysRaised(ids, s1, a, guard);
    InvStep(ids, s2, Query(true));
    InvRun(ids, q, b);
    PhaseKept(ids, q, b, guard);
    StaysRaised(ids, q, b, guard);
    StoreTouches(ids, s3, guard);
  }

  /** Steps that are not the SPI thread's. */
  predicate Others(steps: seq<Step>) {
    forall i :: 0 <= i < |steps| ==> steps[i].Register? || steps[i].Drop? || steps[i].LoseRow?
  }

  lemma {:induction false} OthersKeep(ids: Ids, s: State, steps: seq<Step>)
    requires CanRun(ids, s, steps) && Others(steps)
    ensures Run(ids, s, steps).phase == s.phase && Run(ids, s, steps).raised == s.raised
    decreases |steps|
  {
    if steps != [] {
      assert steps[0].Register? || steps[0].Drop? || steps[0].LoseRow?;
      OthersKeep(ids, Apply(ids, s, steps[0]), steps[1..]);
    }
  }

  /** A pass without the worker's role raises no flag, whatever rows are lost and whatever the others do meanwhile. */
  lemma UnprivilegedPass(ids: Ids, s: State, between: seq<Step>)
    requires s.phase.Asked? && Others(between) && CanRun(ids, Apply(ids, s, Query(false)), between)
    ensures var t := Run(ids, Apply(ids, s, Query(false)), between);
            && Enabled(ids, t, Store) && Apply(ids, t, Store).raised == s.raised
            && Apply(ids, s, Query(false)).reported == s.reported
  {
    var q := Apply(ids, s, Query(false));
    OthersKeep(ids, q, between);
    var t := Run(ids, q, between);
    assert Found(t.flags, {}) == {} && Found(s.phase.calls, {}) == {};
  }

  // ----- Why ids must not recur

  /** With an id used again after its call has ended, a late store raises the flag of a later call that nobody reported. */
  lemma ReuseHitsLaterCall()
    ensures exists steps :: CanRun(OneAtATime, Initial(), steps)
              && var s := Run(OneAtATime, Initial(), steps);
                 1 in s.live && 1 in s.raised && 1 !in s.reported
  {
    var o := OneAtATime;
    var steps := [Register(0), LoseRow(0), Snapshot, Query(true), Drop(0), Register(0), Store];
    var s1 := Apply(o, Initial(), Register(0));
    var s2 := Apply(o, s1, LoseRow(0));
    var s3 := Apply(o, s2, Snapshot);
    var s4 := Apply(o, s3, Query(true));
    assert s4.phase.lost == {0};
    assert Found(map[0 := 0], {0}) == {0};
    var s5 := Apply(o, s4, Drop(0));
    var s6 := Apply(o, s5, Register(0));
    var s7 := Apply(o, s6, Store);
    assert s6.flags[0] in Found(s6.flags, {0});
    RunCons(o, s6, Store, []);
    RunCons(o, s5, Register(0), [Store]);
    RunCons(o, s4, Drop(0), [Register(0), Store]);
    RunCons(o, s3, Query(true), [Drop(0), Register(0), Store]);
    RunCons(o, s2, Snapshot, [Query(true), Drop(0), Register(0), Store]);
    RunCons(o, s1, LoseRow(0), [Snapshot, Query(true), Drop(0), Register(0), Store]);
    RunCons(o, Initial(), Register(0), [LoseRow(0), Snapshot, Query(true), Drop(0), Register(0), Store]);
    assert steps == [Register(0)] + [LoseRow(0), Snapshot, Query(true), Drop(0), Register(0), Store];
  }

  /** With two calls of one id in progress, the end of the first takes the second out of the map: it cannot be cancelled. */
  lemma OverlapLosesCall(id: Id)
    ensures var steps := [Register(id), Register(id), Drop(0)];
            && CanRun(Anyhow, Initial(), steps)
            && (var s := Run(Anyhow, Initial(), steps); s.live == map[1 := id] && s.flags == map[])
  {
    var s1 := Apply(Anyhow, Initial(), Register(id));
    var s2 := Apply(Anyhow, s1, Register(id));
    RunCons(Anyhow, s2, Drop(0), []);
    RunCons(Anyhow, s1, Register(id), [Drop(0)]);
    RunCons(Anyhow, Initial(), Register(id), [Register(id), Drop(0)]);
    assert [Register(id)] + [Register(id), Drop(0)] == [Register(id), Register(id), Drop(0)];
  }

  lemma RunCons(ids: Ids, s: State, step: Step, rest: seq<Step>)
    requires Enabled(ids, s, step) && CanRun(ids, Apply(ids, s, step), rest)
    ensures CanRun(ids, s, [step] + rest) && Run(ids, s, [step] + rest) == Run(ids, Apply(ids, s, step), rest)
  {
    assert ([step] + rest)[1..] == rest;
  }
}
