/**
 `CancellableTransport`: a wait on the real transport is cut into slices so that
 a cancellation is noticed between them.  Times are milliseconds on one clock;
 time passes inside the inner transport's calls.
 */
module SlicedWait {
  import opened Options

  const CANCEL_POLL_INTERVAL: nat := 150

  /** What the inner transport answers: data, no data yet, its time is up, or an error. */
  datatype Reply = Ready | NotYet | TimedOut | Failed

  datatype Answer = Answer(reply: Reply, elapsed: nat)

  /** The inner transport: the answer to its n-th call, made at a time with a time allowed. */
  type Inner = (nat, nat, nat) -> Answer

  datatype Outcome = Cancelled | Returned(reply: Reply)

  /** The inner transport returns within the time allowed, and lets time pass when it has nothing. */
  ghost predicate Honours(inner: Inner) {
    forall n, now, allowed ::
      && inner(n, now, allowed).elapsed <= allowed
      && (allowed > 0 && (inner(n, now, allowed).reply.NotYet? || inner(n, now, allowed).reply.TimedOut?)
          ==> inner(n, now, allowed).elapsed > 0)
  }

  predicate CancelledBy(cancelAt: Option<nat>, now: nat) {
    cancelAt.Some? && cancelAt.value <= now
  }

  /** `sliced`: what is left of the wait, but no more than one poll interval. */
  function Slice(now: nat, deadline: nat): (d: nat)
    requires now < deadline
    ensures 0 < d <= 150 && now + d <= deadline
    ensures d == 150 || now + d == deadline
  {
    if deadline - now < CANCEL_POLL_INTERVAL then deadline - now else CANCEL_POLL_INTERVAL
  }

  /** The time allowed for a call made at `now`: a slice, or the whole timeout once the deadline has passed. */
  function Allowed(now: nat, deadline: nat, timeout: nat): nat {
    if now < deadline then Slice(now, deadline) else timeout
  }

  /** The inner calls of one wait: each made when the one before it returned, each given its slice. */
  ghost predicate Calls(inner: Inner, began: nat, timeout: nat, times: seq<nat>, replies: seq<Reply>) {
    && |times| == |replies| + 1
    && times[0] == began
    && (forall i :: 0 <= i < |replies| ==> CallAt(inner, began, timeout, times, replies, i))
  }

  ghost predicate CallAt(inner: Inner, began: nat, timeout: nat, times: seq<nat>, replies: seq<Reply>, i: nat)
    requires |times| == |replies| + 1 && i < |replies|
  {
    var answer := inner(i, times[i], Allowed(times[i], began + timeout, timeout));
    replies[i] == answer.reply && times[i + 1] == times[i] + answer.elapsed
  }

  predicate NothingYet(r: Reply) {
    r.NotYet? || r.TimedOut?
  }

  /**
   `await_input`, and `transmit_output`, whose inner call never answers NotYet.

   `times` and `replies` are the calls made.  The wait reports what the last call
   answered, and every earlier call had nothing; a timeout is reported only by a
   call made when the deadline has passed.  A cancel raised up to the deadline
   ends the wait within one poll interval, 150 ms; one raised later is never noticed.
   The wait outlasts its timeout if and only if a call was made at the deadline
   and took time: that call is given the whole timeout again, so a wait lasts at
   most twice its timeout.
   */
  method Await(inner: Inner, cancelAt: Option<nat>, began: nat, timeout: nat)
    returns (outcome: Outcome, times: seq<nat>, replies: seq<Reply>)
    requires Honours(inner)
    ensures Calls(inner, began, timeout, times, replies)
    ensures forall i :: 0 <= i < |replies| - 1 ==> NothingYet(replies[i])
    ensures outcome.Returned? ==> replies != [] && outcome.reply == replies[|replies| - 1]
    ensures outcome.Cancelled? ==> CancelledBy(cancelAt, times[|replies|]) && forall r :: r in replies ==> NothingYet(r)
    ensures outcome.Returned? && NothingYet(outcome.reply) ==> times[|replies| - 1] == began + timeout
    ensures times[|replies|] <= began + 2 * timeout
    ensures times[|replies|] > began + timeout
            <==> replies != [] && times[|replies| - 1] == began + timeout && times[|replies|] > times[|replies| - 1]
    ensures outcome.Cancelled? ==> cancelAt.value <= began + timeout
    ensures cancelAt.Some? && cancelAt.value <= began + timeout ==>
              && times[|replies|] <= began + timeout
              && times[|replies|] <= (if cancelAt.value < began then began else cancelAt.value + 150)
              && (outcome.Returned? ==> !NothingYet(outcome.reply))
  {
    var deadline := began + timeout;
    var now := began;
    times, replies := [began], [];
    while true
      invariant began <= now <= deadline && |times| == |replies| + 1 && times[|replies|] == now
      invariant Calls(inner, began, timeout, times, replies)
      invariant forall i :: 0 <= i < |replies| ==> NothingYet(replies[i])
      invariant replies == [] ==> now == began
      invariant cancelAt.Some? && replies != [] ==> began < cancelAt.value && now <= cancelAt.value + CANCEL_POLL_INTERVAL
      decreases deadline - now
    {
      if CancelledBy(cancelAt, now) {
        return Cancelled, times, replies;
      }
      var answer := inner(|replies|, now, Allowed(now, deadline, timeout));
      var over := now == deadline;
      now := now + answer.elapsed;
      ExtendCalls(inner, began, timeout, times, replies, answer, now);
      times, replies := times + [now], replies + [answer.reply];
      if over || !NothingYet(answer.reply) {
        return Returned(answer.reply), times, replies;
      }
    }
  }

  lemma ExtendCalls(inner: Inner, began: nat, timeout: nat, times: seq<nat>, replies: seq<Reply>, answer: Answer, next: nat)
    requires Calls(inner, began, timeout, times, replies)
    requires var now := times[|replies|];
             answer == inner(|replies|, now, Allowed(now, began + timeout, timeout)) && next == now + answer.elapsed
    ensures Calls(inner, began, timeout, times + [next], replies + [answer.reply])
  {
    var times', replies' := times + [next], replies + [answer.reply];
    forall i | 0 <= i < |replies'|
      ensures CallAt(inner, began, timeout, times', replies', i)
    {
      if i < |replies| {
        assert CallAt(inner, began, timeout, times, replies, i);
      }
    }
  }

  /**
   A transport that never has anything: the wait is cancelled if and only if the
   cancel is raised up to the deadline, and then ends within one poll interval of
   it; without one, or with a later one, it lasts exactly twice its timeout.
   */
  method SilentPeer(timeout: nat, cancelAt: Option<nat>) returns (outcome: Outcome, at: nat)
    ensures cancelAt.Some? && cancelAt.value <= timeout <==> outcome == Cancelled
    ensures outcome == Cancelled ==> cancelAt.value <= at <= cancelAt.value + 150 && at <= timeout
    ensures outcome != Cancelled ==> outcome == Returned(TimedOut) && at == 2 * timeout
  {
    var inner: Inner := (n: nat, now: nat, allowed: nat) => Answer(TimedOut, allowed);
    var times, replies;
    outcome, times, replies := Await(inner, cancelAt, 0, timeout);
    if outcome.Returned? {
      assert CallAt(inner, 0, timeout, times, replies, |replies| - 1);
    }
    at := times[|replies|];
  }
}
