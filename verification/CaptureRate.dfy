/** The session-scoped capture-rate window, in real-valued seconds. */
module CaptureRate {
  import opened Common

  const WINDOW := 2.0

  datatype Rate = Rate(started: Option<real>, frames: nat, latestFps: real, lastSuccess: Option<real>)

  const RESET := Rate(None, 0, 0.0, None)

  /** `saturating_duration_since`. */
  function Elapsed(now: real, since: real): (e: real)
    ensures e >= 0.0
  {
    if now >= since then now - since else 0.0
  }

  /** Whether a capture at `now` closes the window. */
  predicate Closes(r: Rate, now: real) {
    r.started.Some? && Elapsed(now, r.started.value) >= WINDOW
  }

  function Record(r: Rate, now: real): Rate {
    if r.started.None? then r.(started := Some(now), frames := 1, lastSuccess := Some(now))
    else if Closes(r, now) then
      Rate(Some(now), 1,
           if r.frames > 0 then (r.frames as real) / Elapsed(now, r.started.value) else r.latestFps, Some(now))
    else r.(frames := r.frames + 1, lastSuccess := Some(now))
  }

  /** The rate reported at `now`: only while a recent capture backs it. */
  function Current(r: Rate, now: real): real {
    if r.lastSuccess.None? || Elapsed(now, r.lastSuccess.value) >= WINDOW then 0.0 else r.latestFps
  }

  class CaptureRateWindow {
    var started: Option<real>
    var frames: nat
    var latestFps: real
    var lastSuccess: Option<real>

    ghost function State(): Rate
      reads this
    {
      Rate(started, frames, latestFps, lastSuccess)
    }

    constructor ()
      ensures State() == RESET
    {
      started, frames, latestFps, lastSuccess := None, 0, 0.0, None;
    }

    method Reset()
      modifies this
      ensures State() == RESET
    {
      started, frames, latestFps, lastSuccess := None, 0, 0.0, None;
    }

    method RecordCapture(now: real)
      modifies this
      ensures State() == Record(old(State()), now)
    {
      if started.None? {
        started, frames, lastSuccess := Some(now), 1, Some(now);
        return;
      }
      var elapsed := Elapsed(now, started.value);
      if elapsed >= WINDOW {
        if frames > 0 && elapsed != 0.0 {
          latestFps := (frames as real) / elapsed;
        }
        started, frames := Some(now), 1;
      } else {
        frames := frames + 1;
      }
      lastSuccess := Some(now);
    }

    method CurrentFps(now: real) returns (fps: real)
      ensures fps == Current(State(), now)
    {
      if lastSuccess.None? || Elapsed(now, lastSuccess.value) >= WINDOW {
        return 0.0;
      }
      fps := latestFps;
    }
  }

  // ----- Runs -----

  function RecordAll(r: Rate, times: seq<real>): Rate {
    if times == [] then r else Record(RecordAll(r, times[..|times| - 1]), times[|times| - 1])
  }

  /** Frames counted in the windows closed so far. */
  function ClosedFrames(r: Rate, times: seq<real>): nat {
    if times == [] then 0
    else
      var before := RecordAll(r, times[..|times| - 1]);
      ClosedFrames(r, times[..|times| - 1]) + if Closes(before, times[|times| - 1]) then before.frames else 0
  }

  /** Each capture since the reset is counted in exactly one window. */
  lemma {:induction false} EveryCaptureCountedOnce(times: seq<real>)
    ensures ClosedFrames(RESET, times) + RecordAll(RESET, times).frames == |times|
    ensures RecordAll(RESET, times).started.None? <==> times == []
    decreases |times|
  {
    if times != [] {
      EveryCaptureCountedOnce(times[..|times| - 1]);
    }
  }

  /** The time of capture `k` when captures come `d` apart from `t` on. */
  function Tick(t: real, d: real, k: int): real {
    t + Times(k, d)
  }

  function Times(k: int, d: real): real {
    (k as real) * d
  }

  function Steady(t: real, d: real, n: nat): (times: seq<real>)
    ensures |times| == n
  {
    if n == 0 then [] else Steady(t, d, n - 1) + [Tick(t, d, n - 1)]
  }

  /** After `n` steady captures the open window started with the first of its own frames. */
  predicate InStep(r: Rate, t: real, d: real, n: nat) {
    1 <= r.frames <= n && r.started == Some(Tick(t, d, n - r.frames))
  }

  lemma StepInStep(r: Rate, t: real, d: real, n: nat)
    requires d > 0.0 && InStep(r, t, d, n)
    ensures InStep(Record(r, Tick(t, d, n)), t, d, n + 1)
    ensures Record(r, Tick(t, d, n)).latestFps == if Closes(r, Tick(t, d, n)) then 1.0 / d else r.latestFps
  {
    var now := Tick(t, d, n);
    SteadyElapsed(t, d, n, r.frames);
    RateOf(r.frames, d);
    if Closes(r, now) {
      assert n + 1 - 1 == n;
    } else {
      assert n + 1 - (r.frames + 1) == n - r.frames;
    }
  }

  lemma SteadyElapsed(t: real, d: real, n: nat, frames: nat)
    requires d > 0.0 && 1 <= frames <= n
    ensures Elapsed(Tick(t, d, n), Tick(t, d, n - frames)) == Times(frames, d) > 0.0
  {
    var a, b := n as real, frames as real;
    assert (n - frames) as real == a - b;
    assert a * d - (a - b) * d == b * d;
    Positive(b, d);
  }

  lemma Positive(a: real, b: real)
    requires a > 0.0 && b > 0.0
    ensures a * b > 0.0
  {
  }

  lemma RateOf(frames: nat, d: real)
    requires d > 0.0 && frames >= 1
    ensures Times(frames, d) > 0.0 && (frames as real) / Times(frames, d) == 1.0 / d
  {
    var f := frames as real;
    Positive(f, d);
    Quotient(f, d, f * d, f / (f * d));
  }

  /** x * (f * d) == f makes x the inverse of d. */
  lemma Quotient(f: real, d: real, g: real, x: real)
    requires f > 0.0 && d > 0.0 && g == f * d && x == f / g && g > 0.0
    ensures x == 1.0 / d
  {
    DivMul(f, g);
    assert x * g == f;
    assert (x * d) * f == x * (f * d);
    Cancel(x * d, 1.0, f);
    DivMul(1.0, d);
    Cancel(x, 1.0 / d, d);
  }

  lemma DivMul(a: real, b: real)
    requires b > 0.0
    ensures (a / b) * b == a
  {
  }

  lemma Cancel(a: real, b: real, c: real)
    requires c > 0.0 && a * c == b * c
    ensures a == b
  {
    assert (a - b) * c == 0.0;
  }

  /**
   * With captures at any constant spacing, each window that closes reports exactly the
   * rate 1 / d; before the first one closes nothing is reported.
   */
  lemma {:induction false} SteadyRateIsExact(t: real, d: real, n: nat)
    requires d > 0.0 && n >= 1
    ensures InStep(RecordAll(RESET, Steady(t, d, n)), t, d, n)
    ensures RecordAll(RESET, Steady(t, d, n)).latestFps ==
            if ClosedFrames(RESET, Steady(t, d, n)) > 0 then 1.0 / d else 0.0
    decreases n
  {
    var times, init := Steady(t, d, n), Steady(t, d, n - 1);
    assert times[..n - 1] == init && times[n - 1] == Tick(t, d, n - 1);
    if n == 1 {
      assert init == [];
    } else {
      SteadyRateIsExact(t, d, n - 1);
      StepInStep(RecordAll(RESET, init), t, d, n - 1);
    }
  }

  /**
   * What a reader sees at any time after steady captures: the rate 1 / d while the latest
   * capture is less than two seconds old and a window has closed, and zero otherwise.
   */
  lemma SteadyRateIsReported(t: real, d: real, n: nat, now: real)
    requires d > 0.0
    ensures Current(RecordAll(RESET, Steady(t, d, n)), now) ==
            if n > 0 && now < Tick(t, d, n - 1) + WINDOW && ClosedFrames(RESET, Steady(t, d, n)) > 0 then 1.0 / d
            else 0.0
  {
    if n > 0 {
      SteadyRateIsExact(t, d, n);
      var times := Steady(t, d, n);
      assert times[n - 1] == Tick(t, d, n - 1);
    }
  }

  // ----- Any captures -----

  /**
   * The open window began with capture `m` of `n` and holds every capture since, none two
   * seconds after it; the rate is that of the window before, from capture `b` to `m`.
   */
  predicate Windowed(times: seq<real>, n: nat, r: Rate, b: nat, m: nat)
    requires n <= |times|
  {
    && m < n && r.frames == n - m && r.started == Some(times[m]) && r.lastSuccess == Some(times[n - 1])
    && (forall j :: m <= j < n ==> Elapsed(times[j], times[m]) < 2.0)
    && (if m == 0 then r.latestFps == 0.0
        else b < m && Elapsed(times[m], times[b]) >= 2.0
             && r.latestFps == ((m - b) as real) / Elapsed(times[m], times[b]))
  }

  lemma WindowStep(times: seq<real>, n: nat, r: Rate, b: nat, m: nat) returns (b': nat, m': nat)
    requires n < |times| && Windowed(times, n, r, b, m)
    ensures Windowed(times, n + 1, Record(r, times[n]), b', m')
  {
    if Closes(r, times[n]) {
      b', m' := m, n;
    } else {
      b', m' := b, m;
    }
  }

  /** For captures at any times whatever: the rate is the count of the last closed window over its length. */
  lemma {:induction false} LatestRateExactly(times: seq<real>, n: nat) returns (b: nat, m: nat)
    requires 1 <= n <= |times|
    ensures Windowed(times, n, RecordAll(RESET, times[..n]), b, m)
    decreases n
  {
    var before := times[..n][..n - 1];
    assert before == times[..n - 1];
    if n == 1 {
      b, m := 0, 0;
    } else {
      b, m := LatestRateExactly(times, n - 1);
      b, m := WindowStep(times, n - 1, RecordAll(RESET, times[..n - 1]), b, m);
    }
  }
}
