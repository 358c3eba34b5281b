/** The fixed-window limiter of authentication-failure log lines, and what it promises over any history of calls. */
module FailureLogLimiter {
  import opened Base

  // The current window and how many calls it has allowed.
  datatype Window = Window(started: Time, count: nat)

  datatype Settings = Settings(limit: nat, length: Time)

  function Opened(s: Settings, w: Window, now: Time): Window {
    if now - w.started >= s.length then Window(now, 0) else w
  }

  function Step(s: Settings, w: Window, now: Time): (Window, bool) {
    var current := Opened(s, w, now);
    if current.count >= s.limit then (current, false)
    else (current.(count := current.count + 1), true)
  }

  class AuthenticationFailureLogLimiter {
    const settings: Settings
    var windowStarted: Time
    var count: nat

    ghost function Value(): Window
      reads this
    {
      Window(windowStarted, count)
    }

    constructor (settings: Settings, now: Time)
      ensures this.settings == settings && Value() == Window(now, 0)
    {
      this.settings := settings;
      windowStarted := now;
      count := 0;
    }

    method Allow(now: Time) returns (allowed: bool)
      modifies this
      ensures (Value(), allowed) == Step(settings, old(Value()), now)
    {
      if now - windowStarted >= settings.length {
        windowStarted := now;
        count := 0;
      }
      if count >= settings.limit { return false; }
      count := count + 1;
      return true;
    }
  }

  // ------------------------------------------------------------------------------- histories

  ghost predicate NonDecreasing(from: Time, calls: seq<Time>) {
    && (forall i :: 0 <= i < |calls| ==> from <= calls[i])
    && forall i, j :: 0 <= i < j < |calls| ==> calls[i] <= calls[j]
  }

  function After(s: Settings, w: Window, calls: seq<Time>): Window {
    if calls == [] then w
    else Step(s, After(s, w, calls[..|calls| - 1]), calls[|calls| - 1]).0
  }

  // How many of the calls at instants in [a, b) are allowed.
  function AllowedIn(s: Settings, w: Window, calls: seq<Time>, a: Time, b: Time): nat {
    if calls == [] then 0
    else
      var n := |calls| - 1;
      var ok := Step(s, After(s, w, calls[..n]), calls[n]).1;
      AllowedIn(s, w, calls[..n], a, b) + if ok && a <= calls[n] < b then 1 else 0
  }

  lemma {:induction false} WindowHoldsTheLastCall(s: Settings, w: Window, calls: seq<Time>)
    requires s.length > 0 && w.count <= s.limit && NonDecreasing(w.started, calls)
    ensures After(s, w, calls).count <= s.limit
    ensures calls != [] ==>
      After(s, w, calls).started <= calls[|calls| - 1] < After(s, w, calls).started + s.length
    decreases |calls|
  {
    if calls != [] { WindowHoldsTheLastCall(s, w, calls[..|calls| - 1]); }
  }

  // The calls allowed since `a` fill the windows opened since then, each a window length after the one before,
  // and at most the rest of the window that was open at `a`.
  lemma {:induction false} FilledWindows(s: Settings, w: Window, calls: seq<Time>, a: Time, b: Time)
    returns (windows: nat)
    requires s.length > 0 && w.count <= s.limit && NonDecreasing(w.started, calls)
    ensures AllowedIn(s, w, calls, a, b) <= windows * s.limit + After(s, w, calls).count
    ensures windows > 0 ==> After(s, w, calls).started >= a + (windows - 1) * s.length
    decreases |calls|
  {
    windows := 0;
    if calls != [] {
      var n := |calls| - 1;
      var init, c := calls[..n], calls[n];
      var before := After(s, w, init);
      WindowHoldsTheLastCall(s, w, init);
      if c < a {
        NoneBefore(s, w, calls, a, b);
      } else {
        windows := FilledWindows(s, w, init, a, b);
        if c - before.started >= s.length {
          assert (windows + 1) * s.limit == windows * s.limit + s.limit;
          assert windows * s.length == (windows - 1) * s.length + s.length;
          windows := windows + 1;
        }
      }
    }
  }

  lemma {:induction false} NoneBefore(s: Settings, w: Window, calls: seq<Time>, a: Time, b: Time)
    requires forall i :: 0 <= i < |calls| ==> calls[i] < a
    ensures AllowedIn(s, w, calls, a, b) == 0
    decreases |calls|
  {
    if calls != [] { NoneBefore(s, w, calls[..|calls| - 1], a, b); }
  }

  lemma TimesMonotone(x: int, y: int, z: int)
    requires x <= y && z >= 0
    ensures x * z <= y * z
  {
    assert (y - x) * z >= 0;
  }

  // Windows a length apart, the last of them opened within k lengths of the first.
  lemma AtMostK(windows: nat, k: nat, length: Time, limit: nat)
    requires length > 0 && (windows > 0 ==> (windows - 1) * length < k * length)
    ensures windows * limit + limit <= (k + 1) * limit
  {
    if windows > k { TimesMonotone(k, windows - 1, length); }
    TimesMonotone(windows + 1, k + 1, limit);
  }

  // In any half-open interval of k window lengths at most (k + 1) * limit calls are allowed.
  lemma {:induction false} AllowedInWindows(s: Settings, w: Window, calls: seq<Time>, a: Time, k: nat)
    requires s.length > 0 && w.count <= s.limit && NonDecreasing(w.started, calls)
    ensures AllowedIn(s, w, calls, a, a + k * s.length) <= (k + 1) * s.limit
    decreases |calls|
  {
    var b := a + k * s.length;
    if calls != [] {
      var n := |calls| - 1;
      if calls[n] >= b {
        AllowedInWindows(s, w, calls[..n], a, k);
      } else {
        var windows := FilledWindows(s, w, calls, a, b);
        WindowHoldsTheLastCall(s, w, calls);
        AtMostK(windows, k, s.length, s.limit);
      }
    }
  }

  function Repeat(t: Time, n: nat): (r: seq<Time>)
    ensures |r| == n && forall i :: 0 <= i < n ==> r[i] == t
  {
    seq(n, _ => t)
  }

  // `n` calls at one instant of a window with room for them are all allowed.
  lemma {:induction false} Burst(s: Settings, w: Window, first: seq<Time>, t: Time, n: nat, a: Time, b: Time)
    requires a <= t < b
    requires var open := Opened(s, After(s, w, first), t); t - open.started < s.length && open.count + n <= s.limit
    ensures AllowedIn(s, w, first + Repeat(t, n), a, b) == AllowedIn(s, w, first, a, b) + n
    ensures var open := Opened(s, After(s, w, first), t);
      n > 0 ==> After(s, w, first + Repeat(t, n)) == Window(open.started, open.count + n)
    decreases n
  {
    if n == 0 {
      assert first + Repeat(t, 0) == first;
    } else {
      var calls := first + Repeat(t, n);
      assert calls[..|calls| - 1] == first + Repeat(t, n - 1);
      Burst(s, w, first, t, n - 1, a, b);
      if n == 1 { assert first + Repeat(t, 0) == first; }
    }
  }

  lemma FirstBurst(s: Settings, w: Window, t: Time, a: Time, b: Time)
    requires w.count == 0 && t - w.started < s.length && a <= t < b
    ensures AllowedIn(s, w, Repeat(t, s.limit), a, b) == s.limit
    ensures After(s, w, Repeat(t, s.limit)) == Window(w.started, s.limit)
  {
    assert [] + Repeat(t, s.limit) == Repeat(t, s.limit);
    Burst(s, w, [], t, s.limit, a, b);
    if s.limit == 0 { assert Repeat(t, 0) == []; }
  }

  // The edge, the instant after it, and then one instant a window length after the other.
  function Instant(s: Settings, edge: Time, k: nat): Time {
    if k == 0 then edge else if k == 1 then edge + 1 else Instant(s, edge, k - 1) + s.length
  }

  // A full window's calls at each of the first k + 1 of these instants.
  function Bursts(s: Settings, edge: Time, k: nat): seq<Time> {
    (if k == 0 then [] else Bursts(s, edge, k - 1)) + Repeat(Instant(s, edge, k), s.limit)
  }

  lemma {:induction false} BurstsInOrder(s: Settings, from: Time, edge: Time, k: nat)
    requires s.length > 0 && from <= edge
    ensures from <= Instant(s, edge, k) && NonDecreasing(from, Bursts(s, edge, k))
    ensures forall i :: 0 <= i < |Bursts(s, edge, k)| ==> Bursts(s, edge, k)[i] <= Instant(s, edge, k)
  {
    if k > 0 {
      BurstsInOrder(s, from, edge, k - 1);
      var before, last := Bursts(s, edge, k - 1), Repeat(Instant(s, edge, k), s.limit);
      assert Bursts(s, edge, k) == before + last;
      assert Instant(s, edge, k - 1) <= Instant(s, edge, k);
    }
  }

  lemma OneMore(k: nat, x: nat)
    ensures (k + 1) * x == k * x + x
  {
  }

  lemma {:induction false} LastInstant(s: Settings, edge: Time, k: nat)
    requires s.length > 1 && k > 0
    ensures edge < Instant(s, edge, k) < edge + k * s.length
  {
    if k > 1 {
      LastInstant(s, edge, k - 1);
      OneMore(k - 1, s.length);
    }
  }

  // A burst after a history opens a window of its own, so all its calls are allowed.
  lemma NextBurst(s: Settings, w: Window, edge: Time, k: nat, b: Time)
    requires s.length > 0 && k > 0 && edge <= Instant(s, edge, k) < b
    requires After(s, w, Bursts(s, edge, k - 1)).started + s.length <= Instant(s, edge, k)
    ensures
      AllowedIn(s, w, Bursts(s, edge, k), edge, b) == AllowedIn(s, w, Bursts(s, edge, k - 1), edge, b) + s.limit
    ensures After(s, w, Bursts(s, edge, k)).started <= Instant(s, edge, k)
  {
    var t := Instant(s, edge, k);
    Burst(s, w, Bursts(s, edge, k - 1), t, s.limit, edge, b);
    if s.limit == 0 { assert Bursts(s, edge, k) == Bursts(s, edge, k - 1); }
  }

  lemma {:induction false} BurstsAreAllowed(s: Settings, w: Window, edge: Time, k: nat, b: Time)
    requires s.length > 0 && w == Window(edge + 1 - s.length, 0) && edge <= Instant(s, edge, k) < b
    ensures AllowedIn(s, w, Bursts(s, edge, k), edge, b) == |Bursts(s, edge, k)|
    ensures After(s, w, Bursts(s, edge, k)).started + s.length <= Instant(s, edge, k + 1)
  {
    if k == 0 {
      assert Bursts(s, edge, 0) == Repeat(edge, s.limit);
      FirstBurst(s, w, edge, edge, b);
    } else {
      BurstsInOrder(s, edge, edge, k - 1);
      BurstsAreAllowed(s, w, edge, k - 1, b);
      NextBurst(s, w, edge, k, b);
    }
  }

  lemma {:induction false} BurstsSize(s: Settings, edge: Time, k: nat)
    ensures |Bursts(s, edge, k)| == (k + 1) * s.limit
  {
    if k > 0 { BurstsSize(s, edge, k - 1); }
    OneMore(k, s.limit);
  }

  // The bound cannot be lowered for any k: k + 1 full windows fit into k window lengths around a window's edge.
  lemma BoundIsReached(s: Settings, started: Time, k: nat)
    requires s.length > 1 && k > 0
    ensures
      var edge := started + s.length - 1;
      var calls := Bursts(s, edge, k);
      && NonDecreasing(started, calls)
      && AllowedIn(s, Window(started, 0), calls, edge, edge + k * s.length) == (k + 1) * s.limit
  {
    var edge := started + s.length - 1;
    LastInstant(s, edge, k);
    BurstsInOrder(s, started, edge, k);
    BurstsAreAllowed(s, Window(started, 0), edge, k, edge + k * s.length);
    BurstsSize(s, edge, k);
  }

  // A call is refused exactly when its own window has already allowed `limit` calls.
  lemma RefusedIffWindowIsFull(s: Settings, started: Time, calls: seq<Time>, now: Time)
    requires s.length > 0 && NonDecreasing(started, calls + [now])
    ensures
      var w := Window(started, 0);
      !Step(s, After(s, w, calls), now).1 <==>
        AllowedIn(s, w, calls, Opened(s, After(s, w, calls), now).started, now + 1) == s.limit
  {
    var w := Window(started, 0);
    var all := calls + [now];
    forall i | 0 <= i < |calls| ensures started <= calls[i] <= now {
      assert all[i] == calls[i] && all[|calls|] == now;
    }
    forall i, j | 0 <= i < j < |calls| ensures calls[i] <= calls[j] {
      assert all[i] == calls[i] && all[j] == calls[j];
    }
    CountIsAllowedSince(s, w, calls, now + 1);
    var before := After(s, w, calls);
    WindowHoldsTheLastCall(s, w, calls);
    if now - before.started >= s.length { NoneBefore(s, w, calls, now, now + 1); }
  }

  lemma {:induction false} CountIsAllowedSince(s: Settings, w: Window, calls: seq<Time>, b: Time)
    requires s.length > 0 && w.count == 0 && NonDecreasing(w.started, calls)
    requires forall i :: 0 <= i < |calls| ==> calls[i] < b
    ensures After(s, w, calls).count == AllowedIn(s, w, calls, After(s, w, calls).started, b)
    decreases |calls|
  {
    if calls != [] {
      var n := |calls| - 1;
      var init := calls[..n];
      CountIsAllowedSince(s, w, init, b);
      WindowHoldsTheLastCall(s, w, init);
      if calls[n] - After(s, w, init).started >= s.length {
        NoneBefore(s, w, init, calls[n], b);
      }
    }
  }
}
