/**
 Single-use tickets for the event stream.  Both operations read the clock before
 they take the lock, so the readings need not follow the order in which the
 operations happen.
 */
module Tickets {
  import opened Options
  import opened Windows

  type Ticket = nat

  /** SSE_TICKET_TTL in milliseconds. */
  const SSE_TICKET_TTL: nat := 30_000

  /** What happened, in lock order, with the clock reading each operation used. */
  datatype Op = Mint(ticket: Ticket, at: nat) | Consume(ticket: Ticket, at: nat, ok: bool)

  function Sweep(issued: map<Ticket, nat>, now: nat, ttl: nat): map<Ticket, nat> {
    map t | t in issued && Age(now, issued[t]) < ttl :: issued[t]
  }

  /** The ticket map after a history. */
  function After(ops: seq<Op>, ttl: nat): map<Ticket, nat> {
    if ops == [] then map[]
    else
      var op := ops[|ops| - 1];
      var swept := Sweep(After(ops[..|ops| - 1], ttl), op.at, ttl);
      if op.Mint? then swept[op.ticket := op.at] else swept - {op.ticket}
  }

  /** A consumer is let in exactly when it finds its ticket after sweeping. */
  ghost predicate Truthful(ops: seq<Op>, ttl: nat) {
    forall n :: 0 <= n < |ops| && ops[n].Consume? ==>
      (ops[n].ok <==> ops[n].ticket in Sweep(After(ops[..n], ttl), ops[n].at, ttl))
  }

  class TicketBox {
    const ttl: nat
    var tickets: map<Ticket, nat>
    ghost var ops: seq<Op>

    ghost predicate Valid()
      reads this
    {
      tickets == After(ops, ttl) && Truthful(ops, ttl)
    }

    constructor (ttl: nat)
      ensures this.ttl == ttl && ops == [] && Valid()
    {
      this.ttl := ttl;
      tickets, ops := map[], [];
    }

    /** `mint_sse_ticket` */
    method Mint(ticket: Ticket, now: nat)
      requires Valid()
      modifies this`tickets, this`ops
      ensures Valid() && ops == old(ops) + [Op.Mint(ticket, now)]
      ensures ticket in tickets && tickets[ticket] == now
    {
      Extend(ops, Op.Mint(ticket, now), ttl);
      tickets := Sweep(tickets, now, ttl);
      tickets := tickets[ticket := now];
      ops := ops + [Op.Mint(ticket, now)];
    }

    /** `consume_sse_ticket` */
    method Consume(ticket: Ticket, now: nat) returns (ok: bool)
      requires Valid()
      modifies this`tickets, this`ops
      ensures Valid() && ops == old(ops) + [Op.Consume(ticket, now, ok)]
      ensures ok <==> ticket in old(tickets) && ttl > 0 && now < old(tickets)[ticket] + ttl
      ensures ticket !in tickets
    {
      tickets := Sweep(tickets, now, ttl);
      ok := ticket in tickets;
      Extend(ops, Op.Consume(ticket, now, ok), ttl);
      tickets := tickets - {ticket};
      ops := ops + [Op.Consume(ticket, now, ok)];
    }
  }

  lemma Extend(ops: seq<Op>, op: Op, ttl: nat)
    requires Truthful(ops, ttl)
    requires op.Consume? ==> (op.ok <==> op.ticket in Sweep(After(ops, ttl), op.at, ttl))
    ensures Truthful(ops + [op], ttl)
    ensures var swept := Sweep(After(ops, ttl), op.at, ttl);
            After(ops + [op], ttl) == if op.Mint? then swept[op.ticket := op.at] else swept - {op.ticket}
  {
    var all := ops + [op];
    assert all[..|ops|] == ops;
    forall n | 0 <= n < |all| && all[n].Consume?
      ensures all[n].ok <==> all[n].ticket in Sweep(After(all[..n], ttl), all[n].at, ttl)
    {
      if n < |ops| {
        assert all[..n] == ops[..n];
      }
    }
  }

  // ----- What a history says about a ticket

  /** Minted at index m and since then neither touched nor outlived by any reading. */
  ghost predicate HeldSince(ops: seq<Op>, ttl: nat, t: Ticket, m: nat) {
    && m < |ops| && ops[m] == Mint(t, ops[m].at)
    && (forall k :: m < k < |ops| ==> ops[k].ticket != t && Age(ops[k].at, ops[m].at) < ttl)
  }

  lemma {:induction false} HeldWitness(ops: seq<Op>, ttl: nat, t: Ticket) returns (m: nat)
    requires t in After(ops, ttl)
    ensures HeldSince(ops, ttl, t, m) && After(ops, ttl)[t] == ops[m].at
    decreases |ops|
  {
    var n := |ops| - 1;
    if ops[n] == Mint(t, ops[n].at) {
      m := n;
    } else {
      var init := ops[..n];
      m := HeldWitness(init, ttl, t);
      forall k | m < k < |ops|
        ensures ops[k].ticket != t && Age(ops[k].at, ops[m].at) < ttl
      {
        if k < n {
          assert init[k] == ops[k];
        }
      }
    }
  }

  lemma {:induction false} HeldStays(ops: seq<Op>, ttl: nat, t: Ticket, m: nat)
    requires HeldSince(ops, ttl, t, m)
    ensures t in After(ops, ttl) && After(ops, ttl)[t] == ops[m].at
    decreases |ops|
  {
    var n := |ops| - 1;
    if m < n {
      var init := ops[..n];
      forall k | m < k < |init|
        ensures init[k].ticket != t && Age(init[k].at, init[m].at) < ttl
      {
        assert init[k] == ops[k];
      }
      HeldStays(init, ttl, t, m);
    }
  }

  /** Minted at m, untouched between m and n, and young by every reading from m to n. */
  ghost predicate Redeemable(ops: seq<Op>, ttl: nat, m: nat, n: nat)
    requires n < |ops|
  {
    && m < n && ops[m] == Mint(ops[n].ticket, ops[m].at)
    && (forall k :: m < k < n ==> ops[k].ticket != ops[n].ticket && ops[k].at < ops[m].at + ttl)
    && ops[n].at < ops[m].at + ttl && ttl > 0
  }

  /**
   In every history, a consumer is let in if and only if its ticket was minted,
   nobody minted or presented that ticket since, and no reading since then, its
   own included, was a lifetime or more after the mint.
   */
  lemma AdmittedExactlyWhen(ops: seq<Op>, ttl: nat, n: nat)
    requires Truthful(ops, ttl) && n < |ops| && ops[n].Consume?
    ensures ops[n].ok <==> exists m: nat :: Redeemable(ops, ttl, m, n)
  {
    var before, t := ops[..n], ops[n].ticket;
    if ops[n].ok {
      var m := HeldWitness(before, ttl, t);
      assert forall k :: m <= k < n ==> before[k] == ops[k];
      assert Redeemable(ops, ttl, m, n);
    }
    if exists m: nat :: Redeemable(ops, ttl, m, n) {
      var m: nat :| Redeemable(ops, ttl, m, n);
      assert HeldSince(before, ttl, t, m) by {
        assert forall k :: m <= k < n ==> before[k] == ops[k];
      }
      HeldStays(before, ttl, t, m);
    }
  }

  /** Between two admissions on one ticket, that ticket was minted again; a ticket minted once admits once. */
  lemma AdmitsOnce(ops: seq<Op>, ttl: nat, i: nat, j: nat)
    requires Truthful(ops, ttl) && i < j < |ops|
    requires ops[i].Consume? && ops[j].Consume? && ops[i].ticket == ops[j].ticket && ops[i].ok && ops[j].ok
    ensures exists m: nat :: i < m < j && ops[m] == Mint(ops[j].ticket, ops[m].at)
  {
    AdmittedExactlyWhen(ops, ttl, j);
    var m: nat :| Redeemable(ops, ttl, m, j);
  }

  /** Every admission is within the ticket's lifetime by the consumer's own reading. */
  lemma AdmittedInTime(ops: seq<Op>, ttl: nat, n: nat)
    requires Truthful(ops, ttl) && n < |ops| && ops[n].Consume? && ops[n].ok
    ensures exists m: nat :: m < n && ops[m] == Mint(ops[n].ticket, ops[m].at) && ops[n].at < ops[m].at + ttl
  {
    AdmittedExactlyWhen(ops, ttl, n);
    var m: nat :| Redeemable(ops, ttl, m, n);
    assert ops[m] == Mint(ops[n].ticket, ops[m].at);
  }

  /** With the lifetime of the source: within thirty seconds of the mint. */
  lemma SourceLifetime(ops: seq<Op>, n: nat)
    requires Truthful(ops, SSE_TICKET_TTL) && n < |ops| && ops[n].Consume? && ops[n].ok
    ensures exists m: nat :: m < n && ops[m] == Mint(ops[n].ticket, ops[m].at) && ops[n].at < ops[m].at + 30_000
  {
    AdmittedInTime(ops, SSE_TICKET_TTL, n);
  }

  /** The readings follow the lock order. */
  ghost predicate InOrder(ops: seq<Op>) {
    forall i, j :: 0 <= i <= j < |ops| ==> ops[i].at <= ops[j].at
  }

  /**
   When they do, sweeping is invisible: a consumer is let in exactly when its
   ticket was minted less than a lifetime ago and not touched since, as if no
   ticket had ever been swept.
   */
  lemma SweepingIsInvisible(ops: seq<Op>, ttl: nat, n: nat)
    requires Truthful(ops, ttl) && InOrder(ops) && n < |ops| && ops[n].Consume?
    ensures ops[n].ok <==> exists m: nat :: Untouched(ops, m, n) && ops[n].at - ops[m].at < ttl
  {
    AdmittedExactlyWhen(ops, ttl, n);
    if ops[n].ok {
      var m: nat :| Redeemable(ops, ttl, m, n);
      assert Untouched(ops, m, n);
    }
    if exists m: nat :: Untouched(ops, m, n) && ops[n].at - ops[m].at < ttl {
      var m: nat :| Untouched(ops, m, n) && ops[n].at - ops[m].at < ttl;
      assert forall k :: m < k <= n ==> ops[k].at <= ops[n].at;
      assert Redeemable(ops, ttl, m, n);
    }
  }

  /** With the lifetime of the source, and readings in order: minted less than thirty seconds ago and untouched since. */
  lemma SourceAdmits(ops: seq<Op>, n: nat)
    requires Truthful(ops, SSE_TICKET_TTL) && InOrder(ops) && n < |ops| && ops[n].Consume?
    ensures ops[n].ok <==> exists m: nat :: Untouched(ops, m, n) && ops[n].at - ops[m].at < 30_000
  {
    SweepingIsInvisible(ops, SSE_TICKET_TTL, n);
  }

  ghost predicate Untouched(ops: seq<Op>, m: nat, n: nat)
    requires n < |ops|
  {
    && m < n && ops[m] == Mint(ops[n].ticket, ops[m].at)
    && (forall k :: m < k < n ==> ops[k].ticket != ops[n].ticket)
  }

  /** When they do not, another operation's later reading can sweep a ticket its owner presents in time. */
  lemma LateReaderSweeps(ttl: nat, t: Ticket, u: Ticket)
    requires ttl > 0 && t != u
    ensures var ops := [Mint(t, 0), Mint(u, ttl), Consume(t, ttl - 1, false)];
            Truthful(ops, ttl) && Untouched(ops, 0, 2) && Age(ops[2].at, ops[0].at) < ttl
  {
    var ops := [Mint(t, 0), Mint(u, ttl), Consume(t, ttl - 1, false)];
    var two := [Mint(t, 0), Mint(u, ttl)];
    assert ops[..2] == two && two[..1] == [Mint(t, 0)] && [Mint(t, 0)][..0] == [];
    assert After([Mint(t, 0)], ttl) == map[t := 0];
    assert After(two, ttl) == map[u := ttl];
  }
}
