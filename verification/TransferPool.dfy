/**
 The life of the in-flight USB transfers of a stream: submit, callback, cancel, wait, free
 (`uvc_stream_start`, `_uvc_stream_callback` and `uvc_stream_stop`).

 The number of transfers is arbitrary.  Everything done under one hold of `cb_mutex` is one step.
 */
module TransferPool {

  /** One entry of `transfers` and `transfer_flags`, with what libusb knows about the transfer. */
  datatype Slot = Slot(present: bool, flagged: bool, inFlight: bool, freed: nat)

  datatype Phase =
    | Starting(submitted: nat)  // in the submit loop of uvc_stream_start
    | Streaming
    | Entered                   // uvc_stream_stop has seen `running`
    | Stopped                   // `running` is cleared
    | Waiting                   // all transfers are cancelled
    | Finished(timedOut: bool)  // all transfers are freed

  datatype Pool = Pool(phase: Phase, running: bool, slots: seq<Slot>)

  /** The status of a transfer whose callback is called. */
  datatype Status = Completed | NoDevice | Cancelled | Error | TimedOut | Stall | Overflow

  datatype SubmitResult = Submitted | Busy | Refused

  datatype CancelResult = CancelOk | NotFound | CancelFailed

  datatype Event =
    | Submit(result: SubmitResult)
    | Callback(i: nat, status: Status, resubmit: SubmitResult)
    | StopCall
    | ClearRunning
    | CancelAll(results: seq<CancelResult>)
    | FreeAll(timedOut: bool)

  /** Whether the callback puts the transfer back in flight; otherwise its slot is flagged. */
  predicate Resubmits(p: Pool, status: Status, resubmit: SubmitResult) {
    p.running && (status.Completed? || status.TimedOut? || status.Stall? || status.Overflow?) && !resubmit.Refused?
  }

  function AfterCallback(s: Slot, again: bool): (r: Slot) {
    if again then s.(inFlight := true) else s.(inFlight := false, flagged := true)
  }

  function AfterCancel(s: Slot, result: CancelResult): (r: Slot) {
    if s.present && !s.flagged && result.CancelFailed? then s.(flagged := true) else s
  }

  function AfterFree(s: Slot): (r: Slot) {
    if s.present then s.(present := false, freed := s.freed + 1) else s
  }

  /** The slots from `from` on are freed. */
  function FreeFrom(slots: seq<Slot>, from: nat): (r: seq<Slot>)
    ensures |r| == |slots|
  {
    seq(|slots|, i requires 0 <= i < |slots| => if from <= i then AfterFree(slots[i]) else slots[i])
  }

  predicate AllFlagged(slots: seq<Slot>) {
    forall i :: 0 <= i < |slots| ==> slots[i].present ==> slots[i].flagged
  }

  /**
   When an event can happen.  libusb calls back only for a transfer in flight, and a cancel error other
   than NOT_FOUND is reported only for a transfer that is not in flight.
   */
  predicate Enabled(p: Pool, e: Event) {
    match e
    case Submit(_) => p.phase.Starting? && p.phase.submitted < |p.slots|
    case Callback(i, _, _) => i < |p.slots| && p.slots[i].inFlight
    case StopCall => p.phase.Streaming?
    case ClearRunning => p.phase.Entered?
    case CancelAll(results) =>
      p.phase.Stopped? && |results| == |p.slots| &&
      forall i :: 0 <= i < |p.slots| ==> results[i].CancelFailed? ==> !p.slots[i].inFlight
    case FreeAll(timedOut) => p.phase.Waiting? && (timedOut || AllFlagged(p.slots))
  }

  function Step(p: Pool, e: Event): (r: Pool)
    requires Enabled(p, e)
  {
    match e
    case Submit(result) =>
      var i := p.phase.submitted;
      if result.Submitted? then
        var slots := p.slots[i := p.slots[i].(inFlight := true)];
        p.(slots := slots, phase := if i + 1 == |slots| then Streaming else Starting(i + 1))
      else
        // the transfers that were not submitted are freed, unless there are no others
        p.(slots := if i > 0 then FreeFrom(p.slots, i) else p.slots, phase := Streaming)
    case Callback(i, status, resubmit) =>
      p.(running := p.running && !status.NoDevice?,
         slots := p.slots[i := AfterCallback(p.slots[i], Resubmits(p, status, resubmit))])
    case StopCall => if p.running then p.(phase := Entered) else p
    case ClearRunning => p.(running := false, phase := Stopped)
    case CancelAll(results) =>
      p.(slots := seq(|p.slots|, i requires 0 <= i < |p.slots| => AfterCancel(p.slots[i], results[i])), phase := Waiting)
    case FreeAll(timedOut) =>
      p.(slots := FreeFrom(p.slots, 0), phase := Finished(timedOut))
  }

  /** A run: `es[k]` leads from `ps[k]` to `ps[k + 1]`. */
  ghost predicate IsRun(ps: seq<Pool>, es: seq<Event>) {
    |ps| == |es| + 1 && forall k :: 0 <= k < |es| ==> Enabled(ps[k], es[k]) && ps[k + 1] == Step(ps[k], es[k])
  }

  predicate Initial(p: Pool) {
    p.running && p.phase == Starting(0) && |p.slots| > 0 &&
    forall i :: 0 <= i < |p.slots| ==> p.slots[i] == Slot(true, false, false, 0)
  }

  // ----- what every run keeps

  /**
   Until a stop has timed out: a flagged or absent transfer is not in flight, an absent one has been
   freed once and a present one not at all.
   */
  predicate GoodSlot(s: Slot) {
    && (s.inFlight ==> s.present && !s.flagged)
    && s.freed == (if s.present then 0 else 1)
  }

  predicate GoodPool(p: Pool) {
    && (forall i :: 0 <= i < |p.slots| ==> GoodSlot(p.slots[i]))
    && (p.phase.Starting? ==>
          && p.phase.submitted < |p.slots|
          && forall i :: p.phase.submitted <= i < |p.slots| ==> p.slots[i] == Slot(true, false, false, 0))
    && (p.phase.Stopped? || p.phase.Waiting? || p.phase.Finished? ==> !p.running)
    && (p.phase.Finished? ==> forall i :: 0 <= i < |p.slots| ==> !p.slots[i].present)
  }

  lemma StepGood(p: Pool, e: Event)
    requires GoodPool(p) && Enabled(p, e) && e != FreeAll(true)
    ensures GoodPool(Step(p, e))
  {
  }

  /** Safety over whole runs: as long as no stop times out, no transfer is freed in flight or twice. */
  lemma {:induction false} RunGood(ps: seq<Pool>, es: seq<Event>)
    requires IsRun(ps, es) && Initial(ps[0])
    requires forall k :: 0 <= k < |es| ==> es[k] != FreeAll(true)
    ensures forall k :: 0 <= k <= |es| ==> GoodPool(ps[k])
  {
    for n := 0 to |es|
      invariant forall k :: 0 <= k <= n ==> GoodPool(ps[k])
    {
      StepGood(ps[n], es[n]);
    }
  }

  /** The number of transfers that the wait loop still waits for. */
  function Outstanding(slots: seq<Slot>): (n: nat) {
    if slots == [] then 0
    else Outstanding(slots[1..]) + if slots[0].present && !slots[0].flagged then 1 else 0
  }

  lemma {:induction false} OutstandingUpdate(slots: seq<Slot>, i: nat, s: Slot)
    requires i < |slots|
    ensures Outstanding(slots[i := s]) + (if slots[i].present && !slots[i].flagged then 1 else 0)
      == Outstanding(slots) + (if s.present && !s.flagged then 1 else 0)
  {
    if i > 0 {
      OutstandingUpdate(slots[1..], i - 1, s);
      assert slots[i := s][1..] == slots[1..][i - 1 := s];
    } else {
      assert slots[i := s][1..] == slots[1..];
    }
  }

  lemma {:induction false} OutstandingZero(slots: seq<Slot>)
    ensures Outstanding(slots) == 0 <==> AllFlagged(slots)
  {
    if slots != [] {
      OutstandingZero(slots[1..]);
      assert AllFlagged(slots) <==> AllFlagged(slots[1..]) && (slots[0].present ==> slots[0].flagged) by {
        assert forall i :: 0 < i < |slots| ==> slots[i] == slots[1..][i - 1];
        assert forall i :: 0 <= i < |slots| - 1 ==> slots[1..][i] == slots[i + 1];
      }
    }
  }

  /** Once `running` is cleared, a callback never resubmits, and each one leaves one transfer less to wait for. */
  lemma CallbackAfterStop(p: Pool, e: Event)
    requires GoodPool(p) && e.Callback? && Enabled(p, e) && !p.running
    ensures !Step(p, e).running && !Step(p, e).slots[e.i].inFlight
    ensures Outstanding(Step(p, e).slots) == Outstanding(p.slots) - 1
  {
    OutstandingUpdate(p.slots, e.i, AfterCallback(p.slots[e.i], false));
  }

  /** No event puts a transfer in flight once `running` is cleared. */
  lemma NothingResubmitted(p: Pool, e: Event)
    requires GoodPool(p) && Enabled(p, e) && !p.running && !p.phase.Starting?
    ensures !Step(p, e).running
    ensures forall i :: 0 <= i < |p.slots| ==> Step(p, e).slots[i].inFlight ==> p.slots[i].inFlight
  {
  }

  /** A stop that ends without timing out has freed every transfer exactly once, each out of flight. */
  lemma StopReleasesAll(ps: seq<Pool>, es: seq<Event>)
    requires IsRun(ps, es) && Initial(ps[0])
    requires forall k :: 0 <= k < |es| ==> es[k] != FreeAll(true)
    requires ps[|es|].phase.Finished?
    ensures forall i :: 0 <= i < |ps[|es|].slots| ==> ps[|es|].slots[i].freed == 1 && !ps[|es|].slots[i].inFlight
    ensures forall e :: !Enabled(ps[|es|], e)
  {
    RunGood(ps, es);
    assert GoodPool(ps[|es|]);
  }

  ghost function Callbacks(es: seq<Event>): (n: nat) {
    if es == [] then 0 else Callbacks(es[..|es| - 1]) + if es[|es| - 1].Callback? then 1 else 0
  }

  lemma {:induction false} OutstandingCancelled(slots: seq<Slot>, after: seq<Slot>)
    requires |slots| == |after|
    requires forall i :: 0 <= i < |slots| ==> after[i] == slots[i] || after[i] == slots[i].(flagged := true)
    ensures Outstanding(after) <= Outstanding(slots)
  {
    if slots != [] {
      OutstandingCancelled(slots[1..], after[1..]);
    }
  }

  /** From the clearing of `running` to the freeing there are at most as many callbacks as transfers outstanding. */
  lemma {:induction false} WaitIsBounded(ps: seq<Pool>, es: seq<Event>)
    requires IsRun(ps, es) && GoodPool(ps[0]) && ps[0].phase.Stopped?
    requires forall k :: 0 <= k < |es| ==> !es[k].FreeAll?
    ensures GoodPool(ps[|es|]) && (ps[|es|].phase.Stopped? || ps[|es|].phase.Waiting?)
    ensures Callbacks(es) + Outstanding(ps[|es|].slots) <= Outstanding(ps[0].slots)
  {
    if es != [] {
      var n := |es| - 1;
      WaitIsBounded(ps[..n + 1], es[..n]);
      StepGood(ps[n], es[n]);
      if es[n].Callback? {
        CallbackAfterStop(ps[n], es[n]);
      } else {
        OutstandingCancelled(ps[n].slots, ps[n + 1].slots);
      }
    }
  }

  // ----- when the transfers keep going

  /** A callback takes its transfer out of flight, and flags it, in exactly these cases; no other transfer is touched. */
  lemma LeavesFlightIff(p: Pool, i: nat, status: Status, resubmit: SubmitResult)
    requires GoodPool(p) && Enabled(p, Callback(i, status, resubmit))
    ensures var r := Step(p, Callback(i, status, resubmit));
      && |r.slots| == |p.slots| && (forall j :: 0 <= j < |p.slots| && j != i ==> r.slots[j] == p.slots[j])
      && (r.slots[i] == Slot(true, true, false, 0) || r.slots[i] == Slot(true, false, true, 0))
      && (!r.slots[i].inFlight <==>
           !p.running || status == NoDevice || status == Cancelled || status == Error || resubmit == Refused)
      && (r.running <==> p.running && status != NoDevice)
  {
  }

  /** A submission that succeeds, or a callback for data or a passing trouble after which libusb takes the transfer back. */
  predicate Smooth(e: Event) {
    || e == Submit(Submitted)
    || (e.Callback? && e.status in {Completed, TimedOut, Stall, Overflow} && e.resubmit in {Submitted, Busy})
  }

  function SubmittedSoFar(p: Pool): (n: nat) {
    if p.phase.Starting? then p.phase.submitted else |p.slots|
  }

  /** The stream stays alive: over every run of such events, all transfers submitted so far are in flight. */
  lemma {:induction false} StreamsOn(ps: seq<Pool>, es: seq<Event>)
    requires IsRun(ps, es) && Initial(ps[0])
    requires forall k :: 0 <= k < |es| ==> Smooth(es[k])
    ensures forall k :: 0 <= k <= |es| ==>
      && ps[k].running && |ps[k].slots| == |ps[0].slots| && SubmittedSoFar(ps[k]) <= |ps[k].slots|
      && (forall i :: 0 <= i < SubmittedSoFar(ps[k]) ==> ps[k].slots[i] == Slot(true, false, true, 0))
      && (ps[k].phase.Starting? || ps[k].phase.Streaming?)
  {
    for n := 0 to |es|
      invariant forall k :: 0 <= k <= n ==>
        && ps[k].running && |ps[k].slots| == |ps[0].slots| && SubmittedSoFar(ps[k]) <= |ps[k].slots|
        && (forall i :: 0 <= i < SubmittedSoFar(ps[k]) ==> ps[k].slots[i] == Slot(true, false, true, 0))
        && (ps[k].phase.Starting? || ps[k].phase.Streaming?)
      invariant GoodPool(ps[n])
    {
      StepGood(ps[n], es[n]);
      if es[n].Callback? {
        LeavesFlightIff(ps[n], es[n].i, es[n].status, es[n].resubmit);
      }
    }
  }

  // ----- when a stop releases the transfers

  /**
   Every transfer that is waited for is in flight, apart from those still to be submitted.
   Otherwise its slot is never flagged by a callback.
   */
  predicate Live(p: Pool) {
    forall i :: 0 <= i < |p.slots| ==>
      p.slots[i].present && !p.slots[i].flagged ==> p.slots[i].inFlight || (p.phase.Starting? && p.phase.submitted <= i)
  }

  /** The first transfer could not be submitted. */
  predicate FailsAtFirst(p: Pool, e: Event) { p.phase == Starting(0) && e.Submit? && !e.result.Submitted? }

  lemma StepLive(p: Pool, e: Event)
    requires GoodPool(p) && Live(p) && Enabled(p, e) && !FailsAtFirst(p, e)
    ensures Live(Step(p, e))
  {
  }

  /** Every run in which the first transfer can be submitted, and no stop times out, keeps all waited-for transfers in flight. */
  lemma {:induction false} RunLive(ps: seq<Pool>, es: seq<Event>)
    requires IsRun(ps, es) && Initial(ps[0])
    requires forall k :: 0 <= k < |es| ==> es[k] != FreeAll(true) && !FailsAtFirst(ps[k], es[k])
    ensures forall k :: 0 <= k <= |es| ==> Live(ps[k])
  {
    RunGood(ps, es);
    for n := 0 to |es|
      invariant forall k :: 0 <= k <= n ==> Live(ps[k])
    {
      StepLive(ps[n], es[n]);
    }
  }

  /** If the first transfer cannot be submitted, the stream is running with transfers that are waited for and not in flight. */
  lemma FailedStart(p: Pool, e: Event)
    requires Initial(p) && FailsAtFirst(p, e)
    ensures Step(p, e).phase.Streaming? && Step(p, e).running && !Live(Step(p, e))
  {
    assert Step(p, e).slots[0] == Slot(true, false, false, 0);
  }

  /** Cancelling reports nothing but success and NOT_FOUND. */
  predicate Ordinary(e: Event) {
    e.CancelAll? ==> forall i :: 0 <= i < |e.results| ==> !e.results[i].CancelFailed?
  }

  predicate AllOrdinary(es: seq<Event>) { forall k :: 0 <= k < |es| ==> Ordinary(es[k]) }

  /** A run from `p` in which a stop comes to its end without timing out. */
  ghost predicate Releases(p: Pool, ps: seq<Pool>, es: seq<Event>) {
    && IsRun(ps, es) && ps[0] == p && ps[|es|].phase.Finished?
    && forall k :: 0 <= k < |es| ==> es[k] != FreeAll(true)
  }

  /** Once `running` is cleared without a stop, no run ever releases anything. */
  lemma {:induction false} NeverReleased(ps: seq<Pool>, es: seq<Event>)
    requires IsRun(ps, es) && ps[0].phase.Streaming? && !ps[0].running
    ensures forall k :: 0 <= k <= |es| ==>
      && ps[k].phase.Streaming? && !ps[k].running && |ps[k].slots| == |ps[0].slots|
      && forall i :: 0 <= i < |ps[0].slots| ==>
        ps[k].slots[i].present == ps[0].slots[i].present && ps[k].slots[i].freed == ps[0].slots[i].freed
  {
    for n := 0 to |es|
      invariant forall k :: 0 <= k <= n ==>
        && ps[k].phase.Streaming? && !ps[k].running && |ps[k].slots| == |ps[0].slots|
        && forall i :: 0 <= i < |ps[0].slots| ==>
          ps[k].slots[i].present == ps[0].slots[i].present && ps[k].slots[i].freed == ps[0].slots[i].freed
    {
      assert ps[n + 1] == Step(ps[n], es[n]);
    }
  }

  /** A transfer that is waited for and not in flight keeps the stop waiting, unless cancelling it reports another error than NOT_FOUND. */
  lemma {:induction false} Stuck(ps: seq<Pool>, es: seq<Event>, i: nat)
    requires IsRun(ps, es) && !ps[0].phase.Starting? && !ps[0].phase.Finished? && i < |ps[0].slots|
    requires ps[0].slots[i].present && !ps[0].slots[i].flagged && !ps[0].slots[i].inFlight
    requires forall k :: 0 <= k < |es| ==> Ordinary(es[k]) && es[k] != FreeAll(true)
    ensures !ps[|es|].phase.Finished?
  {
    for n := 0 to |es|
      invariant !ps[n].phase.Starting? && !ps[n].phase.Finished? && i < |ps[n].slots|
      invariant ps[n].slots[i].present && !ps[n].slots[i].flagged && !ps[n].slots[i].inFlight
    {
      assert Enabled(ps[n], es[n]) && ps[n + 1] == Step(ps[n], es[n]);
      StuckStep(ps[n], es[n], i);
    }
  }

  lemma StuckStep(p: Pool, e: Event, i: nat)
    requires Enabled(p, e) && Ordinary(e) && e != FreeAll(true)
    requires !p.phase.Starting? && !p.phase.Finished? && i < |p.slots|
    requires p.slots[i].present && !p.slots[i].flagged && !p.slots[i].inFlight
    ensures var r := Step(p, e);
      && !r.phase.Starting? && !r.phase.Finished? && |r.slots| == |p.slots| && r.slots[i] == p.slots[i]
  {
  }

  /** While the stop waits, the cancelled transfers come back one by one, and then it ends. */
  lemma {:induction false} WaitEnds(p: Pool) returns (ps: seq<Pool>, es: seq<Event>)
    requires GoodPool(p) && Live(p) && p.phase.Waiting?
    ensures Releases(p, ps, es) && AllOrdinary(es)
    decreases Outstanding(p.slots)
  {
    if AllFlagged(p.slots) {
      es := [FreeAll(false)];
      ps := [p, Step(p, es[0])];
    } else {
      var i: nat :| i < |p.slots| && p.slots[i].present && !p.slots[i].flagged;
      var e := Callback(i, Cancelled, Refused);
      var next := Step(p, e);
      CallbackAfterStop(p, e);
      StepGood(p, e);
      StepLive(p, e);
      var qs, ds := WaitEnds(next);
      ps, es := [p] + qs, [e] + ds;
      RunFrom(p, e, next, qs, ds);
    }
  }

  /** A run with one more event in front of it. */
  lemma RunFrom(p: Pool, e: Event, next: Pool, qs: seq<Pool>, ds: seq<Event>)
    requires Enabled(p, e) && next == Step(p, e) && e != FreeAll(true) && Releases(next, qs, ds)
    ensures Releases(p, [p] + qs, [e] + ds)
    ensures Ordinary(e) && AllOrdinary(ds) ==> AllOrdinary([e] + ds)
  {
    var ps, es := [p] + qs, [e] + ds;
    hide Enabled, Step;
    forall k | 0 <= k < |es|
      ensures Enabled(ps[k], es[k]) && ps[k + 1] == Step(ps[k], es[k]) && es[k] != FreeAll(true)
    {
      if k > 0 {
        assert ps[k] == qs[k - 1] && es[k] == ds[k - 1];
      }
    }
  }

  /**
   A stop of a stream that runs: it clears `running`, cancels, waits and frees.  Cancelling reports an
   error for each transfer that is waited for and not in flight; if there is none, all its answers are ordinary.
   */
  lemma StopEnds(p: Pool) returns (ps: seq<Pool>, es: seq<Event>)
    requires GoodPool(p) && p.phase.Streaming? && p.running
    ensures Releases(p, ps, es) && (Live(p) ==> AllOrdinary(es))
  {
    var results := seq(|p.slots|, i requires 0 <= i < |p.slots| => if p.slots[i].inFlight then CancelOk else
      if p.slots[i].present && !p.slots[i].flagged then CancelFailed else NotFound);
    var p1 := Step(p, StopCall);
    var p2 := Step(p1, ClearRunning);
    var e := CancelAll(results);
    var p3 := Step(p2, e);
    assert Live(p) ==> Ordinary(e);
    StepGood(p, StopCall);
    StepGood(p1, ClearRunning);
    StepGood(p2, e);
    assert Live(p3);
    ps, es := WaitEnds(p3);
    RunFrom(p2, e, p3, ps, es);
    ps, es := [p2] + ps, [e] + es;
    RunFrom(p1, ClearRunning, p2, ps, es);
    ps, es := [p1] + ps, [ClearRunning] + es;
    RunFrom(p, StopCall, p1, ps, es);
    ps, es := [p] + ps, [StopCall] + es;
  }

  /** A release has freed every transfer exactly once, each out of flight. */
  lemma {:induction false} ReleasesAll(p: Pool, ps: seq<Pool>, es: seq<Event>)
    requires GoodPool(p) && Releases(p, ps, es)
    ensures forall i :: 0 <= i < |ps[|es|].slots| ==> ps[|es|].slots[i].freed == 1 && !ps[|es|].slots[i].inFlight
  {
    for n := 0 to |es|
      invariant GoodPool(ps[n])
    {
      StepGood(ps[n], es[n]);
    }
  }

  /** A stream can be stopped, with all its transfers released and no time-out, exactly when `running` is still set. */
  lemma ReleasedIff(p: Pool)
    requires GoodPool(p) && p.phase.Streaming?
    ensures (exists ps, es :: Releases(p, ps, es)) <==> p.running
  {
    if p.running {
      var ps, es := StopEnds(p);
    } else if ps, es :| Releases(p, ps, es) {
      NeverReleased(ps, es);
      assert false;
    }
  }

  /**
   If cancelling answers nothing but success or NOT_FOUND, that is so exactly when `running` is still set
   and every transfer that has to be waited for is in flight.
   */
  lemma OrdinarilyReleasedIff(p: Pool)
    requires GoodPool(p) && p.phase.Streaming?
    ensures (exists ps, es :: Releases(p, ps, es) && AllOrdinary(es)) <==> p.running && Live(p)
  {
    if p.running && Live(p) {
      var ps, es := StopEnds(p);
    } else if ps, es :| Releases(p, ps, es) && AllOrdinary(es) {
      if !p.running {
        NeverReleased(ps, es);
        assert false;
      } else {
        var i: nat :| i < |p.slots| && p.slots[i].present && !p.slots[i].flagged && !p.slots[i].inFlight;
        Stuck(ps, es, i);
        assert false;
      }
    }
  }

  /** A device that is lost while transfers are in flight: the stop does nothing. */
  lemma DeviceLostStopsNothing() returns (ps: seq<Pool>, es: seq<Event>)
    ensures IsRun(ps, es) && Initial(ps[0]) && es != [] && es[|es| - 1] == StopCall
    ensures ps[|es|].phase.Streaming? && exists i :: 0 <= i < |ps[|es|].slots| && ps[|es|].slots[i].inFlight
  {
    es := [Submit(Submitted), Submit(Submitted), Callback(0, NoDevice, Submitted), StopCall];
    var s := Slot(true, false, false, 0);
    var p0 := Pool(Starting(0), true, [s, s]);
    var p1 := Step(p0, es[0]);
    var p2 := Step(p1, es[1]);
    var p3 := Step(p2, es[2]);
    ps := [p0, p1, p2, p3, Step(p3, es[3])];
    assert ps[4].slots[1].inFlight;
  }

  lemma FirstNotSubmitted(p: Pool)
    requires GoodPool(p) && p.phase.Starting?
    ensures p.phase.submitted < |p.slots|
    ensures forall i :: p.phase.submitted <= i < |p.slots| ==> p.slots[i] == Slot(true, false, false, 0)
  {
  }

  // ----- the arrays of the stream handle

  /** A libusb transfer; whether it is in flight and how often it was freed is libusb's knowledge. */
  class Transfer {
    ghost var inFlight: bool
    ghost var freed: nat

    constructor ()
      ensures !inFlight && freed == 0
    {
      inFlight, freed := false, 0;
    }
  }

  class TransferArrays {
    var running: bool
    const transfers: array<Transfer?>
    const flags: array<bool>
    ghost const all: seq<Transfer>
    ghost var pool: Pool

    /** The transfers that `uvc_stream_start` sets up. */
    constructor (n: nat)
      requires 0 < n
      ensures Valid() && Initial(pool) && |pool.slots| == n
      ensures fresh(transfers) && fresh(flags) && forall i :: 0 <= i < |all| ==> fresh(all[i])
    {
      var ts: seq<Transfer> := [];
      while |ts| < n
        invariant |ts| <= n && forall i :: 0 <= i < |ts| ==> fresh(ts[i]) && !ts[i].inFlight && ts[i].freed == 0
        invariant forall i, j :: 0 <= i < j < |ts| ==> ts[i] != ts[j]
      {
        var transfer := new Transfer();
        ts := ts + [transfer];
      }
      running := true;
      transfers := new Transfer?[n](i requires 0 <= i < |ts| => ts[i]);
      flags := new bool[n](_ => false);
      all := ts;
      pool := Pool(Starting(0), true, seq(n, _ => Slot(true, false, false, 0)));
    }

    ghost predicate Valid()
      reads this, transfers, flags, all
    {
      && transfers.Length == flags.Length == |all| == |pool.slots|
      && (forall i, j :: 0 <= i < j < |all| ==> all[i] != all[j])
      && running == pool.running
      && forall i :: 0 <= i < |all| ==>
        && transfers[i] == (if pool.slots[i].present then all[i] else null)
        && flags[i] == pool.slots[i].flagged
        && all[i].inFlight == pool.slots[i].inFlight
        && all[i].freed == pool.slots[i].freed
    }

    /** One round of the submit loop of `uvc_stream_start`, and the loop that frees the rest when it fails. */
    method SubmitNext(i: nat, result: SubmitResult)
      requires Valid() && GoodPool(pool) && pool.phase == Starting(i)
      modifies transfers, this`pool, all
      ensures Valid() && pool == Step(old(pool), Submit(result))
    {
      hide GoodPool;
      FirstNotSubmitted(pool);
      if result.Submitted? {
        all[i].inFlight := true;
        pool := Step(pool, Submit(result));
      } else {
        if i > 0 {
          FreeRest(i);
        }
        pool := pool.(phase := Streaming);
      }
    }

    /** Frees the transfers from `i` on, all of which are still there. */
    method FreeRest(i: nat)
      requires Valid() && i <= |all| && forall j :: i <= j < |all| ==> pool.slots[j].present
      modifies transfers, this`pool, all
      ensures Valid() && pool == old(pool).(slots := FreeFrom(old(pool).slots, i))
    {
      ghost var slots := pool.slots;
      for k := i to transfers.Length
        invariant pool == old(pool).(slots := pool.slots) && |pool.slots| == |slots| && Valid()
        invariant forall j :: 0 <= j < |slots| ==> pool.slots[j] == if i <= j < k then AfterFree(slots[j]) else slots[j]
      {
        all[k].freed := all[k].freed + 1;
        transfers[k] := null;
        pool := pool.(slots := pool.slots[k := AfterFree(pool.slots[k])]);
      }
      assert pool.slots == FreeFrom(slots, i);
    }

    /** The first locked part of `uvc_stream_stop`. */
    method Stop()
      requires Valid() && Enabled(pool, ClearRunning)
      modifies this`running, this`pool
      ensures Valid() && pool == Step(old(pool), ClearRunning)
    {
      running := false;
      pool := Step(pool, ClearRunning);
    }

    /** Marks the transfer as deleted, if it is still in the array. */
    method MarkDeleted(transfer: Transfer, ghost k: nat)
      requires Valid() && k < |all| && all[k] == transfer && pool.slots[k].present
      modifies flags, this`pool
      ensures Valid() && pool == old(pool).(slots := old(pool).slots[k := old(pool).slots[k].(flagged := true)])
    {
      var i := 0;
      while i < transfers.Length && transfers[i] != transfer
        invariant i <= k
      {
        i := i + 1;
      }
      flags[i] := true;
      pool := pool.(slots := pool.slots[k := pool.slots[k].(flagged := true)]);
    }

    /** `_uvc_stream_callback`, apart from the payloads. */
    method StreamCallback(transfer: Transfer, status: Status, resubmit: SubmitResult, ghost k: nat)
      requires Valid() && GoodPool(pool) && k < |all| && all[k] == transfer
      requires Enabled(pool, Callback(k, status, resubmit))
      modifies this, flags, transfer
      ensures Valid() && pool == Step(old(pool), Callback(k, status, resubmit))
    {
      transfer.inFlight := false;
      pool := pool.(slots := pool.slots[k := pool.slots[k].(inFlight := false)]);
      var retry: bool;
      match status {
        case Completed => retry := running;
        case NoDevice =>
          running := false;
          pool := pool.(running := false);
          retry := false;
        case Cancelled => retry := false;
        case Error => retry := false;
        case TimedOut => retry := running;
        case Stall => retry := running;
        case Overflow => retry := running;
      }
      if retry && !resubmit.Refused? {
        transfer.inFlight := true;
        pool := pool.(slots := pool.slots[k := pool.slots[k].(inFlight := true)]);
      } else {
        MarkDeleted(transfer, k);
      }
    }

    /** The cancel loop of `uvc_stream_stop`; `results` is what libusb answers for each transfer. */
    method CancelTransfers(results: seq<CancelResult>)
      requires Valid() && GoodPool(pool) && Enabled(pool, CancelAll(results))
      modifies flags, this`pool
      ensures Valid() && pool == Step(old(pool), CancelAll(results))
    {
      ghost var slots := pool.slots;
      for i := 0 to transfers.Length
        invariant pool == old(pool).(slots := pool.slots) && |pool.slots| == |slots| && Valid()
        invariant forall j :: 0 <= j < |slots| ==>
          pool.slots[j] == if j < i then AfterCancel(slots[j], results[j]) else slots[j]
      {
        if transfers[i] != null && !flags[i] {
          if results[i].CancelFailed? {
            flags[i] := true;
            pool := pool.(slots := pool.slots[i := pool.slots[i].(flagged := true)]);
          }
        }
      }
      pool := pool.(phase := Waiting);
      assert pool.slots == Step(old(pool), CancelAll(results)).slots;
    }

    /** The scan of the wait loop. */
    method NoneOutstanding() returns (done: bool)
      requires Valid()
      ensures done <==> AllFlagged(pool.slots)
    {
      for i := 0 to transfers.Length
        invariant forall j :: 0 <= j < i ==> pool.slots[j].present ==> pool.slots[j].flagged
      {
        if transfers[i] != null && !flags[i] {
          assert !pool.slots[i].flagged;
          return false;
        }
      }
      return true;
    }

    /** The last loop of `uvc_stream_stop`. */
    method FreeTransfers(timedOut: bool)
      requires Valid() && GoodPool(pool) && Enabled(pool, FreeAll(timedOut))
      modifies transfers, this`pool, all
      ensures Valid() && pool == Step(old(pool), FreeAll(timedOut))
    {
      ghost var slots := pool.slots;
      for i := 0 to transfers.Length
        invariant pool == old(pool).(slots := pool.slots) && |pool.slots| == |slots| && Valid()
        invariant forall j :: 0 <= j < |slots| ==> pool.slots[j] == if j < i then AfterFree(slots[j]) else slots[j]
      {
        if transfers[i] != null {
          all[i].freed := all[i].freed + 1;
          transfers[i] := null;
          pool := pool.(slots := pool.slots[i := AfterFree(pool.slots[i])]);
        }
      }
      pool := pool.(phase := Finished(timedOut));
      assert pool.slots == FreeFrom(slots, 0);
    }
  }
}
