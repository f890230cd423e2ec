/** The general per-address request limiter (`rate_check`). */
module RateLimiter {
  import opened Windows

  type Ip = nat

  const RATE_GENERAL_LIMIT: nat := 120
  const RATE_GENERAL_WINDOW: nat := 60_000

  function Lookup(m: map<Ip, seq<nat>>, ip: Ip): seq<nat> {
    if ip in m then m[ip] else []
  }

  /** `map.retain(|_, v| !v.is_empty())` */
  function WithoutEmpty(m: map<Ip, seq<nat>>): (r: map<Ip, seq<nat>>)
    ensures forall ip :: Lookup(r, ip) == Lookup(m, ip)
  {
    map ip | ip in m && m[ip] != [] :: m[ip]
  }

  /** The admissions of one address, spaced out, and the pruned vector that stands for them. */
  ghost predicate Agrees(h: seq<nat>, hits: seq<nat>, now: nat, window: nat, limit: nat) {
    Sorted(h, now) && Spaced(h, window, limit) && Recent(hits, now, window) == Recent(h, now, window)
  }

  /** Time passing alone breaks nothing. */
  lemma Later(h: seq<nat>, hits: seq<nat>, early: nat, now: nat, window: nat, limit: nat)
    requires Agrees(h, hits, early, window, limit) && early <= now
    ensures Agrees(h, hits, now, window, limit)
  {
    RecentTwice(h, early, now, window);
    RecentTwice(hits, early, now, window);
  }

  /** An admission is a whole window after the one `limit` places before it. */
  lemma Admit(h: seq<nat>, now: nat, window: nat, limit: nat)
    requires Sorted(h, now) && Spaced(h, window, limit) && |Recent(h, now, window)| < limit
    ensures Sorted(h + [now], now) && Spaced(h + [now], window, limit)
  {
    RecentIsSuffix(h, now, window);
    var h' := h + [now];
    forall i, j | 0 <= i && j == i + limit && j < |h'|
      ensures h'[i] + window <= h'[j]
    {
      if j == |h| {
        assert i < |h| - |Recent(h, now, window)|;
      }
    }
  }

  /** Counting the pruned vector is counting the history, and both ways of going on keep them in step. */
  lemma Decide(h: seq<nat>, hits: seq<nat>, early: nat, now: nat, window: nat, limit: nat)
    requires Agrees(h, hits, early, window, limit) && early <= now
    ensures Recent(hits, now, window) == Recent(h, now, window)
    ensures Agrees(h, Recent(hits, now, window), now, window, limit)
    ensures |Recent(hits, now, window)| < limit ==>
              Agrees(h + [now], Recent(hits, now, window) + [now], now, window, limit)
  {
    Later(h, hits, early, now, window, limit);
    RecentTwice(hits, now, now, window);
    if |Recent(hits, now, window)| < limit {
      Admit(h, now, window, limit);
      RecentAppend(h, now, now, window);
      RecentAppend(Recent(hits, now, window), now, now, window);
    }
  }

  ghost predicate AllAgree(admitted: map<Ip, seq<nat>>, general: map<Ip, seq<nat>>, now: nat, window: nat, limit: nat) {
    forall ip :: Agrees(Lookup(admitted, ip), Lookup(general, ip), now, window, limit)
  }

  /** One address changed as it may, all others stayed and grew older. */
  lemma AllAgreeStep(admitted: map<Ip, seq<nat>>, general: map<Ip, seq<nat>>, early: nat,
                     admitted': map<Ip, seq<nat>>, general': map<Ip, seq<nat>>, now: nat,
                     window: nat, limit: nat, ip: Ip)
    requires AllAgree(admitted, general, early, window, limit) && early <= now
    requires Agrees(Lookup(admitted', ip), Lookup(general', ip), now, window, limit)
    requires forall other :: other != ip ==>
               Lookup(admitted', other) == Lookup(admitted, other) && Lookup(general', other) == Lookup(general, other)
    ensures AllAgree(admitted', general', now, window, limit)
  {
    forall other
      ensures Agrees(Lookup(admitted', other), Lookup(general', other), now, window, limit)
    {
      if other != ip {
        Later(Lookup(admitted, other), Lookup(general, other), early, now, window, limit);
      }
    }
  }

  /** `map[ip := v]`, as lookups see it. */
  lemma LookupUpdate(m: map<Ip, seq<nat>>, ip: Ip, v: seq<nat>)
    ensures forall other :: other != ip ==> Lookup(m[ip := v], other) == Lookup(m, other)
    ensures Lookup(m[ip := v], ip) == v
  {
    var m' := m[ip := v];
    forall other | other != ip
      ensures Lookup(m', other) == Lookup(m, other)
    {
      assert other in m' <==> other in m;
    }
  }

  /**
   The map of recent hits, with the history of every admission as a ghost.  The
   clock is read under the lock, so its readings do not decrease.
   */
  class Limiter {
    const window: nat
    const limit: nat
    var general: map<Ip, seq<nat>>
    ghost var admitted: map<Ip, seq<nat>>
    ghost var clock: nat

    ghost predicate Valid()
      reads this
    {
      AllAgree(admitted, general, clock, window, limit)
    }

    constructor (window: nat, limit: nat)
      ensures this.window == window && this.limit == limit
      ensures Valid() && clock == 0 && admitted == map[] && general == map[]
    {
      this.window, this.limit := window, limit;
      general, admitted, clock := map[], map[], 0;
    }

    /**
     A request is admitted exactly when fewer than `limit` admissions of its
     address are less than a window old; an admitted one is recorded; no other
     address is affected.
     */
    method RateCheck(ip: Ip, now: nat) returns (ok: bool)
      requires Valid() && now >= clock
      modifies this`general, this`admitted, this`clock
      ensures Valid() && clock == now
      ensures ok <==> |Young(Lookup(old(admitted), ip), now, window)| < limit
      ensures Lookup(admitted, ip) == Lookup(old(admitted), ip) + (if ok then [now] else [])
      ensures forall other :: other != ip ==> Lookup(admitted, other) == Lookup(old(admitted), other)
      ensures forall other :: other != ip ==> Lookup(general, other) == Lookup(old(general), other)
    {
      ghost var h, was, recorded, early := Lookup(admitted, ip), general, admitted, clock;
      var before := Lookup(general, ip);
      var hits := Recent(before, now, window);
      Decide(h, before, clock, now, window, limit);
      RecentIsSize(h, now, window);
      LookupUpdate(general, ip, hits);
      clock := now;
      if |hits| >= limit {
        general := general[ip := hits];
        AllAgreeStep(recorded, was, early, admitted, general, now, window, limit, ip);
        return false;
      }
      hits := hits + [now];
      LookupUpdate(general, ip, hits);
      LookupUpdate(admitted, ip, h + [now]);
      general := WithoutEmpty(general[ip := hits]);
      admitted := admitted[ip := h + [now]];
      AllAgreeStep(recorded, was, early, admitted, general, now, window, limit, ip);
      return true;
    }

    /** In every state, over every run: no window of the limiter's length ever held more than `limit` admissions. */
    lemma EveryWindow(ip: Ip, lo: nat)
      requires Valid()
      ensures Count(Lookup(admitted, ip), lo, lo + window) <= limit
    {
      assert Agrees(Lookup(admitted, ip), Lookup(general, ip), clock, window, limit);
      SpacedWindows(Lookup(admitted, ip), clock, window, limit, lo);
    }

    /** With the constants of the source: admitted if and only if fewer than 120 admissions are younger than a minute. */
    method SourceCheck(ip: Ip, now: nat) returns (ok: bool)
      requires Valid() && now >= clock && window == RATE_GENERAL_WINDOW && limit == RATE_GENERAL_LIMIT
      modifies this`general, this`admitted, this`clock
      ensures Valid() && clock == now
      ensures var h := Lookup(old(admitted), ip);
              && (ok <==> |set i | 0 <= i < |h| && now - h[i] < 60_000| < 120)
              && Lookup(admitted, ip) == h + (if ok then [now] else [])
    {
      ghost var h := Lookup(admitted, ip);
      assert Young(h, now, 60_000) == set i | 0 <= i < |h| && now - h[i] < 60_000;
      ok := RateCheck(ip, now);
    }

    /** With the constants of the source: at most 120 requests of one address in any minute. */
    lemma SourceWindow(ip: Ip, lo: nat)
      requires Valid() && window == RATE_GENERAL_WINDOW && limit == RATE_GENERAL_LIMIT
      ensures Count(Lookup(admitted, ip), lo, lo + 60_000) <= 120
    {
      EveryWindow(ip, lo);
    }
  }
}
