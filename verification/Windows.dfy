/** Timestamps in sliding windows. */
module Windows {
  /** `now.duration_since(t)`, which saturates at zero. */
  function Age(now: nat, t: nat): nat {
    if now >= t then now - t else 0
  }

  /** `retain(|t| now.duration_since(*t) < window)` */
  function Recent(h: seq<nat>, now: nat, window: nat): (r: seq<nat>)
    ensures |r| <= |h|
  {
    if h == [] then []
    else
      var last := h[|h| - 1];
      Recent(h[..|h| - 1], now, window) + (if Age(now, last) < window then [last] else [])
  }

  /** How many of the timestamps lie in [lo, hi). */
  function Count(h: seq<nat>, lo: nat, hi: nat): (n: nat)
    ensures n <= |h|
  {
    if h == [] then 0
    else
      var last := h[|h| - 1];
      Count(h[..|h| - 1], lo, hi) + (if lo <= last < hi then 1 else 0)
  }

  predicate Sorted(h: seq<nat>, now: nat) {
    && (forall i :: 0 <= i < |h| ==> h[i] <= now)
    && (forall i, j :: 0 <= i <= j < |h| ==> h[i] <= h[j])
  }

  /** The indices of the timestamps in [lo, hi). */
  function Within(h: seq<nat>, lo: nat, hi: nat): set<nat> {
    set i | 0 <= i < |h| && lo <= h[i] < hi
  }

  /** The indices of the timestamps less than a window old. */
  function Young(h: seq<nat>, now: nat, window: nat): set<nat> {
    set i | 0 <= i < |h| && now - h[i] < window
  }

  /** Counting counts them. */
  lemma {:induction false} CountIsSize(h: seq<nat>, lo: nat, hi: nat)
    ensures Count(h, lo, hi) == |Within(h, lo, hi)|
    decreases |h|
  {
    if h == [] {
      assert Within(h, lo, hi) == {};
    } else {
      var n := |h| - 1;
      var last: set<nat> := if lo <= h[n] < hi then {n} else {};
      CountIsSize(h[..n], lo, hi);
      assert Within(h, lo, hi) == Within(h[..n], lo, hi) + last;
    }
  }

  /** Pruning keeps as many as are less than a window old. */
  lemma {:induction false} RecentIsSize(h: seq<nat>, now: nat, window: nat)
    requires forall i :: 0 <= i < |h| ==> h[i] <= now
    ensures |Recent(h, now, window)| == |Young(h, now, window)|
    decreases |h|
  {
    if h == [] {
      assert Young(h, now, window) == {};
    } else {
      var n := |h| - 1;
      var last: set<nat> := if now - h[n] < window then {n} else {};
      RecentIsSize(h[..n], now, window);
      assert Young(h, now, window) == Young(h[..n], now, window) + last;
    }
  }

  lemma RecentAppend(h: seq<nat>, t: nat, now: nat, window: nat)
    ensures Recent(h + [t], now, window) == Recent(h, now, window) + (if Age(now, t) < window then [t] else [])
  {
    assert (h + [t])[..|h|] == h;
  }

  lemma CountAppend(h: seq<nat>, t: nat, lo: nat, hi: nat)
    ensures Count(h + [t], lo, hi) == Count(h, lo, hi) + (if lo <= t < hi then 1 else 0)
  {
    assert (h + [t])[..|h|] == h;
  }

  /** What was dropped as old stays old: pruning early does not change later pruning. */
  lemma {:induction false} RecentTwice(h: seq<nat>, early: nat, late: nat, window: nat)
    requires early <= late
    ensures Recent(Recent(h, early, window), late, window) == Recent(h, late, window)
    decreases |h|
  {
    if h != [] {
      var init, last := h[..|h| - 1], h[|h| - 1];
      RecentTwice(init, early, late, window);
      if Age(early, last) < window {
        RecentAppend(Recent(init, early, window), last, late, window);
      } else {
        assert Recent(h, early, window) == Recent(init, early, window);
      }
    }
  }

  lemma {:induction false} NoneRecent(h: seq<nat>, now: nat, window: nat)
    requires forall i :: 0 <= i < |h| ==> Age(now, h[i]) >= window
    ensures Recent(h, now, window) == []
    decreases |h|
  {
    if h != [] {
      NoneRecent(h[..|h| - 1], now, window);
    }
  }

  /** Of sorted timestamps, the recent ones are the last ones. */
  lemma {:induction false} RecentIsSuffix(h: seq<nat>, now: nat, window: nat)
    requires Sorted(h, now)
    ensures var k := |h| - |Recent(h, now, window)|;
            forall i :: 0 <= i < |h| ==> (now - h[i] < window <==> i >= k)
    decreases |h|
  {
    if h != [] {
      var init, last := h[..|h| - 1], h[|h| - 1];
      RecentIsSuffix(init, now, window);
      if Age(now, last) >= window {
        forall i | 0 <= i < |init|
          ensures Age(now, init[i]) >= window
        {
          assert h[i] <= last;
        }
        NoneRecent(init, now, window);
      }
    }
  }

  /** A window that reaches the present holds no more than what is recent. */
  lemma {:induction false} CountIsRecent(h: seq<nat>, now: nat, window: nat, lo: nat)
    requires Sorted(h, now) && now < lo + window
    ensures Count(h, lo, lo + window) <= |Recent(h, now, window)|
    decreases |h|
  {
    if h != [] {
      CountIsRecent(h[..|h| - 1], now, window, lo);
    }
  }

  lemma {:induction false} CountTail(h: seq<nat>, lo: nat, hi: nat, a: nat)
    requires a <= |h| && forall i :: 0 <= i < a ==> h[i] < lo
    ensures Count(h, lo, hi) <= |h| - a
    decreases |h|
  {
    if h != [] {
      var init := h[..|h| - 1];
      CountTail(init, lo, hi, if a == |h| then a - 1 else a);
    }
  }

  /** Any `limit` admissions apart, a whole window has passed. */
  ghost predicate Spaced(h: seq<nat>, window: nat, limit: nat) {
    forall i, j :: 0 <= i && j == i + limit && j < |h| ==> h[i] + window <= h[j]
  }

  /** Then no window of that length, wherever it lies, holds more than `limit` admissions. */
  lemma {:induction false} SpacedWindows(h: seq<nat>, now: nat, window: nat, limit: nat, lo: nat)
    requires Sorted(h, now) && Spaced(h, window, limit)
    ensures Count(h, lo, lo + window) <= limit
    decreases |h|
  {
    if h != [] {
      var n := |h|;
      var init, last := h[..n - 1], h[n - 1];
      if lo <= last < lo + window && limit < n {
        var a := n - limit;
        forall i | 0 <= i < a
          ensures h[i] < lo
        {
          assert h[a - 1] + window <= h[a - 1 + limit];
          assert h[i] <= h[a - 1];
        }
        CountTail(h, lo, lo + window, a);
      } else if !(lo <= last < lo + window) {
        SpacedWindows(init, now, window, limit, lo);
      }
    }
  }
}
