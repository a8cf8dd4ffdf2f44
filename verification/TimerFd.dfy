/** timerfd: expirations counted lazily, whenever somebody looks. */
module TimerFds {
  import opened Collections

  datatype Timer = Timer(expiry: nat, interval: nat, expirations: nat)

  /** How often a timer armed to fire first at `first` has fired by time `t`. */
  function Fired(first: nat, interval: nat, t: nat): (n: nat) {
    if first == 0 || t < first then 0 else if interval == 0 then 1 else (t - first) / interval + 1
  }

  /** When it fires next; 0 once nothing is left. */
  function NextExpiry(first: nat, interval: nat, t: nat): (e: nat) {
    if first == 0 || t < first then first else if interval == 0 then 0 else first + Fired(first, interval, t) * interval
  }

  /** `check_expirations`. */
  function Checked(s: Timer, now: nat): (r: Timer) {
    if s.expiry == 0 || now < s.expiry then s
    else if s.interval > 0 then
      var extra := (now - s.expiry) / s.interval;
      s.(expirations := s.expirations + (1 + extra), expiry := s.expiry + (1 + extra) * s.interval)
    else s.(expirations := s.expirations + 1, expiry := 0)
  }

  lemma DivShift(d: nat, n: nat, i: nat)
    requires i > 0 && d >= n * i
    ensures (d - n * i) / i == d / i - n
  {
    var q := (d - n * i) / i;
    assert d - n * i == q * i + (d - n * i) % i;
    assert d == (q + n) * i + (d - n * i) % i;
    DivUnique(d, q + n, (d - n * i) % i, i);
  }

  lemma Monotone(a: nat, b: nat, i: nat)
    requires a <= b
    ensures a * i <= b * i
  {
    assert b * i == a * i + (b - a) * i;
  }

  lemma DivUnique(d: nat, q: nat, r: nat, i: nat)
    requires i > 0 && d == q * i + r && r < i
    ensures d / i == q
  {
    var k, m := d / i, d % i;
    assert d == k * i + m;
    if k < q { Monotone(k + 1, q, i); }
    if k > q { Monotone(q + 1, k, i); }
  }

  lemma NextAfter(first: nat, interval: nat, t: nat)
    requires 0 < first <= t && interval > 0
    ensures t < NextExpiry(first, interval, t) <= t + interval
  {
    var d := t - first;
    assert d == (d / interval) * interval + d % interval;
    assert (d / interval + 1) * interval == (d / interval) * interval + interval;
  }

  /** The timer as it stands after any samples up to time `t`, `delivered` expirations having been read. */
  predicate Tracks(s: Timer, first: nat, interval: nat, t: nat, delivered: nat) {
    && s.interval == interval && s.expiry == NextExpiry(first, interval, t)
    && delivered + s.expirations == Fired(first, interval, t)
  }

  /** Sampling at a later time counts exactly what has fired since. */
  lemma CheckTracks(s: Timer, first: nat, interval: nat, t: nat, delivered: nat, now: nat)
    requires Tracks(s, first, interval, t, delivered) && t <= now
    ensures Tracks(Checked(s, now), first, interval, now, delivered)
  {
    if 0 < first <= t && interval > 0 {
      NextAfter(first, interval, t);
      var n := Fired(first, interval, t);
      if now >= s.expiry {
        LaterFirings(first, interval, now, n);
      } else {
        NextMultiple(t - first, interval);
        SameFirings(t - first, now - first, interval);
      }
    }
  }

  /** Counting on from the `n`-th expiry reaches the count from the first. */
  lemma LaterFirings(first: nat, interval: nat, now: nat, n: nat)
    requires interval > 0 && n > 0 && first + n * interval <= now
    ensures var extra := (now - (first + n * interval)) / interval;
            && n + (1 + extra) == (now - first) / interval + 1
            && first + n * interval + (1 + extra) * interval == first + ((now - first) / interval + 1) * interval
  {
    var d := now - first;
    DivShift(d, n, interval);
    var extra := (d - n * interval) / interval;
    assert now - (first + n * interval) == d - n * interval;
    Distribute(n, 1 + extra, interval);
  }

  lemma Distribute(a: nat, b: nat, i: nat)
    ensures (a + b) * i == a * i + b * i
  {
  }

  /** Until the period of `x` ends the count does not change. */
  lemma SameFirings(x: nat, d: nat, i: nat)
    requires i > 0 && x <= d < x - x % i + i
    ensures d / i == x / i
  {
    assert x == (x / i) * i + x % i;
    DivUnique(d, x / i, d - x + x % i, i);
  }

  lemma NextMultiple(x: nat, i: nat)
    requires i > 0
    ensures (x / i + 1) * i == x - x % i + i
  {
    Distribute(x / i, 1, i);
    assert x == (x / i) * i + x % i;
  }

  /** A look at the timer: `read` consumes the count, `poll` leaves it. */
  datatype Sample = Sample(time: nat, consume: bool)

  ghost predicate Ordered(samples: seq<Sample>) {
    forall i, j | 0 <= i < j < |samples| :: samples[i].time <= samples[j].time
  }

  class TimerFdFile {
    var expiry: nat
    var interval: nat
    var expirations: nat

    function Value(): (s: Timer)
      reads this
    {
      Timer(expiry, interval, expirations)
    }

    constructor ()
      ensures Value() == Timer(0, 0, 0)
    {
      expiry, interval, expirations := 0, 0, 0;
    }

    /** `arm`: forgets what was pending. */
    method Arm(first: nat, period: nat)
      modifies this
      ensures Value() == Timer(first, period, 0)
      ensures Tracks(Value(), first, period, 0, 0)
    {
      expiry, interval, expirations := first, period, 0;
    }

    /** `disarm`: returns the time that was left. */
    method Disarm(now: nat) returns (remaining: nat)
      modifies this
      ensures Value() == Timer(0, 0, 0)
      ensures remaining == if old(expiry) > now then old(expiry) - now else 0
    {
      remaining := if expiry > now then expiry - now else 0;
      expiry, interval, expirations := 0, 0, 0;
    }

    /** `check_expirations`. */
    method CheckExpirations(now: nat) returns (r: Option<nat>)
      modifies this
      ensures Value() == Checked(old(Value()), now)
      ensures r == if expirations > 0 then Some(expirations) else None
    {
      if expiry == 0 {
        return if expirations > 0 then Some(expirations) else None;
      }
      if now >= expiry {
        var elapsed := now - expiry;
        if interval > 0 {
          var extra := elapsed / interval;
          expirations := expirations + (1 + extra);
          expiry := expiry + (1 + extra) * interval;
        } else {
          expirations := expirations + 1;
          expiry := 0;
        }
      }
      return if expirations > 0 then Some(expirations) else None;
    }

    /** `poll`: ready exactly when a read would deliver a count. */
    method Poll(now: nat) returns (ready: bool)
      modifies this
      ensures Value() == Checked(old(Value()), now) && (ready <==> expirations > 0)
    {
      var r := CheckExpirations(now);
      ready := r.Some?;
    }

    /** One round of `read`: delivers and clears the count, or has to wait; a short buffer is refused. */
    method Read(now: nat, room: nat) returns (count: Option<nat>)
      modifies this
      ensures room < 8 ==> count.None? && Value() == old(Value())
      ensures room >= 8 ==> var c := Checked(old(Value()), now);
                && Value() == c.(expirations := 0)
                && count == if c.expirations > 0 then Some(c.expirations) else None
    {
      if room < 8 { return None; }
      count := CheckExpirations(now);
      if count.Some? { expirations := 0; }
    }

    /** Whatever the polling schedule, counts delivered plus count pending are the expirations due by the last
        sample, and the next expiry is the first one after it. */
    method Follow(first: nat, period: nat, samples: seq<Sample>) returns (delivered: nat, end: nat)
      requires Ordered(samples)
      modifies this
      ensures end == if samples == [] then 0 else samples[|samples| - 1].time
      ensures Tracks(Value(), first, period, end, delivered)
    {
      hide Checked, Fired, NextExpiry;
      Arm(first, period);
      delivered, end := 0, 0;
      for i := 0 to |samples|
        invariant end == if i == 0 then 0 else samples[i - 1].time
        invariant Tracks(Value(), first, period, end, delivered)
      {
        var now := samples[i].time;
        assert end <= now;
        CheckTracks(Value(), first, period, end, delivered, now);
        if samples[i].consume {
          var count := Read(now, 8);
          if count.Some? { delivered := delivered + count.value; }
        } else {
          var _ := Poll(now);
        }
        end := now;
      }
    }
  }

  /** What `Tracks` says in closed form: nothing has fired before the first expiry; from then on a periodic timer
      has fired (t - first) / interval + 1 times and fires next at the first multiple after t, and a one-shot has
      fired once and never fires again. */
  lemma CountClosedForm(s: Timer, first: nat, interval: nat, t: nat, delivered: nat)
    requires Tracks(s, first, interval, t, delivered)
    ensures s.interval == interval
    ensures first == 0 || t < first ==> delivered == s.expirations == 0 && s.expiry == first
    ensures 0 < first <= t && interval > 0 ==>
              && delivered + s.expirations == (t - first) / interval + 1
              && t < s.expiry <= t + interval && (s.expiry - first) % interval == 0
    ensures 0 < first <= t && interval == 0 ==> delivered + s.expirations == 1 && s.expiry == 0
  {
    if 0 < first <= t && interval > 0 {
      NextAfter(first, interval, t);
      var n := Fired(first, interval, t);
      assert s.expiry - first == n * interval;
      MultipleMod(n, interval);
    }
  }

  lemma MultipleMod(n: nat, i: nat)
    requires i > 0
    ensures (n * i) % i == 0
  {
    DivUnique(n * i, n, 0, i);
  }
}
