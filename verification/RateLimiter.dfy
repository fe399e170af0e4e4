/**
 The recording frame rate: WriteFrame of tcluvc.c skips a frame unless its time has come, by
 arithmetic on `struct timeval` with a single carry or borrow.
 */
module RateLimiter {

  datatype TimeVal = TimeVal(sec: int, usec: int) {
    function Total(): (t: int) { sec * 1000000 + usec }

    predicate Normal() { 0 <= usec < 1000000 }
  }

  function Min(a: int, b: int): (m: int) { if a <= b then a else b }

  // ----- the frames written

  /** Times that are at least `r` apart. */
  predicate Spaced(ts: seq<int>, r: int) {
    forall i :: 0 <= i < |ts| - 1 ==> ts[i] + r <= ts[i + 1]
  }

  function Window(ts: seq<int>, from: int, to: int): (ws: seq<int>) {
    if ts == [] then []
    else Window(ts[..|ts| - 1], from, to) + if from <= ts[|ts| - 1] <= to then [ts[|ts| - 1]] else []
  }

  ghost function IndicesIn(ts: seq<int>, from: int, to: int): (ks: set<nat>) {
    set k: nat | k < |ts| && from <= ts[k] <= to
  }

  /** The window misses nothing: it has as many times as there are indices with a time in it. */
  lemma {:induction false} WindowCounts(ts: seq<int>, from: int, to: int)
    ensures |Window(ts, from, to)| == |IndicesIn(ts, from, to)|
  {
    if ts != [] {
      var n := |ts| - 1;
      WindowCounts(ts[..n], from, to);
      var ks, rest := IndicesIn(ts, from, to), IndicesIn(ts[..n], from, to);
      assert ks == rest + if from <= ts[n] <= to then {n} else {};
    } else {
      assert IndicesIn(ts, from, to) == {};
    }
  }

  lemma {:induction false} SpacedFrom(ts: seq<int>, r: int, i: nat)
    requires Spaced(ts, r) && i < |ts| && 0 <= r
    ensures ts[0] + i * r <= ts[i]
  {
    if i > 0 {
      SpacedFrom(ts, r, i - 1);
      assert (i - 1) * r + r == i * r;
    }
  }

  lemma {:induction false} WindowSpaced(ts: seq<int>, r: int, from: int, to: int)
    requires Spaced(ts, r) && 0 <= r
    ensures var ws := Window(ts, from, to);
      && Spaced(ws, r)
      && (forall i :: 0 <= i < |ws| ==> from <= ws[i] <= to)
      && (ws != [] ==> ts != [] && ws[|ws| - 1] <= ts[|ts| - 1])
  {
    if ts != [] {
      WindowSpaced(ts[..|ts| - 1], r, from, to);
    }
  }

  /** At most t / r + 1 of the written frames have their time within a window of `t` microseconds. */
  lemma WindowBound(ts: seq<int>, r: int, from: int, t: nat)
    requires Spaced(ts, r) && 0 < r
    ensures |IndicesIn(ts, from, from + t)| <= t / r + 1
  {
    WindowCounts(ts, from, from + t);
    hide Window, Spaced, IndicesIn;
    var ws := Window(ts, from, from + t);
    WindowSpaced(ts, r, from, from + t);
    if ws != [] {
      var n := |ws| - 1;
      SpacedFrom(ws, r, n);
      assert n * r <= t;
      DivBound(n, r, t);
    }
  }

  lemma DivBound(n: int, r: int, t: int)
    requires 0 < r && n * r <= t
    ensures n <= t / r
  {
    var q := t / r;
    DivRest(t, r);
    if n > q {
      OneMore(q + 1, n, r);
    }
  }

  lemma DivRest(t: int, r: int)
    requires 0 < r
    ensures t < (t / r + 1) * r
  {
    assert t == r * (t / r) + t % r;
  }

  lemma OneMore(a: int, b: int, r: int)
    requires a <= b && 0 < r
    ensures a * r <= b * r
  {
    assert b * r - a * r == (b - a) * r;
  }

  // ----- the limiter

  /** a - b, with one borrow. */
  function Diff(a: TimeVal, b: TimeVal): (d: TimeVal) {
    var sec, usec := a.sec - b.sec, a.usec - b.usec;
    if usec < 0 then TimeVal(sec - 1, usec + 1000000) else TimeVal(sec, usec)
  }

  predicate Positive(d: TimeVal) { d.sec > 0 || (d.sec == 0 && d.usec > 0) }

  /** The comparison is exact, even when the minuend's microseconds are left at exactly 1000000. */
  lemma DiffPositive(a: TimeVal, b: TimeVal)
    requires 0 <= a.usec <= 1000000 && b.Normal()
    ensures Positive(Diff(a, b)) <==> a.Total() > b.Total()
  {
  }

  /** The interval that StartRecording computes for `rate` frames a second. */
  function IntervalFor(rate: real): (r: TimeVal)
    requires rate > 0.0
  {
    TimeVal((1.0 / rate).Floor, (1000000.0 / rate).Floor)
  }

  /** It is the frame time exactly for rates above 1; for slower ones the whole seconds count twice. */
  lemma IntervalIsFrameTime(rate: real)
    requires rate > 0.0
    ensures IntervalFor(rate).Total() == (1000000.0 / rate).Floor <==> rate > 1.0
    ensures rate > 1.0 ==> IntervalFor(rate).Normal()
  {
    var f := 1.0 / rate;
    assert f * rate == 1.0;
    Million(rate);
    if rate > 1.0 {
      Product(f - 1.0, rate);
      assert f < 1.0;
    } else {
      Product(1.0 - f, rate);
      assert f >= 1.0;
    }
    assert rate > 1.0 <==> 0.0 < f < 1.0 by { Product(f, rate); }
  }

  /** Where the signs of a product and of a positive factor leave no choice for the other factor. */
  lemma Product(x: real, rate: real)
    requires rate > 0.0
    ensures x * rate > 0.0 <==> x > 0.0
  {
  }

  lemma Million(rate: real)
    requires rate > 0.0
    ensures 1000000.0 / rate == 1000000.0 * (1.0 / rate)
  {
    assert 1000000.0 * (1.0 / rate) * rate == 1000000.0;
  }

  /** One frame a second makes an interval of two. */
  lemma OneFrameASecond()
    ensures IntervalFor(1.0) == TimeVal(1, 1000000) && IntervalFor(1.0).Total() == 2000000
  {
  }

  /** The interval that StartRecording keeps: 500 microseconds are reserved for processing. */
  function Reserve(rate: TimeVal): (r: TimeVal)
    requires 0 <= rate.usec
    ensures r.Total() == rate.Total() - 500 && (r.Normal() <==> rate.usec < 1000500)
  {
    if rate.usec < 500 then TimeVal(rate.sec - 1, rate.usec + 999500) else rate.(usec := rate.usec - 500)
  }

  class Limiter {
    var rrate: TimeVal   // the recording interval
    var rtv: TimeVal     // when the next frame is due
    ghost var times: seq<int>  // when frames were written since the timer was reset

    ghost predicate Valid()
      reads this
    {
      && rrate.Normal() && 0 <= rrate.Total() && 0 <= rtv.usec <= 1000000
      && Spaced(times, rrate.Total())
      && (times != [] ==> times[|times| - 1] + rrate.Total() <= rtv.Total())
    }

    /** StartRecording, and StartCapture while a recording pauses, reset the timer to the present. */
    constructor (rrate: TimeVal, now: TimeVal)
      requires rrate.Normal() && 0 <= rrate.Total() && now.Normal()
      ensures Valid() && times == [] && this.rrate == rrate && rtv == now
    {
      this.rrate, rtv, times := rrate, now, [];
    }

    method Reset(now: TimeVal)
      requires Valid() && now.Normal()
      modifies this
      ensures Valid() && times == [] && rtv == now && rrate == old(rrate)
    {
      rtv, times := now, [];
    }

    /** The timing part of WriteFrame for a frame captured at `capture`, when the clock says `clock`. */
    method Admit(clock: TimeVal, capture: TimeVal, dataBytes: nat) returns (write: bool)
      requires Valid() && clock.Normal() && capture.Normal()
      modifies this`rtv, this`times
      ensures Valid()
      ensures var t, passes := Min(clock.Total(), capture.Total()), Min(clock.Total(), capture.Total()) >= old(rtv.Total());
        && (write <==> passes && dataBytes > 0)
        && rtv.Total() == (if passes then t + rrate.Total() else old(rtv.Total()))
        && times == (if write then old(times) + [t] else old(times))
    {
      var now := clock;
      DiffPositive(clock, capture);
      if Positive(Diff(now, capture)) {
        now := capture;
      }
      DiffPositive(rtv, now);
      hide Diff, Positive;
      if Positive(Diff(rtv, now)) {
        return false;
      }
      rtv := TimeVal(now.sec + rrate.sec, now.usec + rrate.usec);
      if rtv.usec > 1000000 {
        rtv := TimeVal(rtv.sec + 1, rtv.usec - 1000000);
      }
      if dataBytes == 0 {
        return false;
      }
      times := times + [now.Total()];
      return true;
    }
  }
}
