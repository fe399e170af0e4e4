/**
 The one-slot frame mailbox of tcluvc.c, shared by the libuvc thread (`FrameCallback`) and the Tcl
 thread (`FrameReady0`, `FrameReady`, `GetImage`, `StartCapture`, `StopCapture`), with its wake-up events.

 Frames are told apart by the order in which they are made.  Everything done under one hold of
 `uvcMutex` is one step.
 */
module Mailbox {
  import opened Bytes

  /** Where the frames are. */
  datatype Frames = Frames(
    slot: Option<nat>,       // `frame`
    made: Option<nat>,       // libuvc thread: a converted frame, not stored yet
    replaced: Option<nat>,   // libuvc thread: the frame it took out of the slot
    hand: Option<nat>,       // Tcl thread: the frame taken out of the slot
    freed: multiset<nat>,
    next: nat,               // frames made so far
    history: seq<nat>        // all frames that were put into the slot, in order
  )

  /** What wakes up the Tcl thread. */
  datatype Wakeups = Wakeups(
    idle: bool,              // update mode; fixed
    capturing: bool,         // `tid` is set
    starting: bool,          // StartCapture is in uvc_start_streaming
    queue: seq<bool>,        // events in the Tcl queue; true for those that still name the device
    idlePending: bool,       // FrameReady is scheduled as an idle call
    numev: int
  )

  /** `counters[0..2]`, and how often the slot was emptied since they were reset. */
  datatype Counters = Counters(stored: nat, shown: nat, dropped: nat, takes: nat)

  datatype Box = Box(frames: Frames, wakeups: Wakeups, counters: Counters)

  datatype Step =
    | Convert          // FrameCallback makes a frame
    | ConvertFailed
    | Store            // FrameCallback, locked part
    | FreeReplaced
    | Deliver          // FrameReady0 for the first event of the queue
    | IdleCall         // FrameReady as an idle call
    | Take             // GetImage or FrameReady takes the frame out
    | PutBack(done: bool)
    | Stop
    | Start            // StartCapture up to uvc_start_streaming
    | StartDone(ok: bool)

  /**
   When a step can happen.  A frame may be on its way through FrameCallback when the capture is stopped:
   after a lost device nothing waits for the libuvc thread.  But then StartCapture fails to set the format,
   before it does anything else, and in other cases the thread has come to its end.  The new thread may
   store frames before uvc_start_streaming returns; that fails only if no transfer was submitted.
   */
  predicate Enabled(b: Box, e: Step) {
    var f, w := b.frames, b.wakeups;
    match e
    case Convert => w.capturing && f.made.None? && f.replaced.None?
    case ConvertFailed => w.capturing && f.made.None? && f.replaced.None?
    case Store => f.made.Some? && f.replaced.None?
    case FreeReplaced => f.replaced.Some?
    case Deliver => Free(b) && w.queue != []
    case IdleCall => Free(b) && w.idlePending
    case Take => Free(b)
    case PutBack(_) => f.hand.Some?
    case Stop => Free(b)
    case Start => Free(b) && !w.capturing && f.made.None? && f.replaced.None?
    case StartDone(ok) => w.starting && (!ok ==> b.counters.stored == 0 && f.made.None? && f.replaced.None?)
  }

  /** The Tcl thread is not in the middle of showing a frame or of starting. */
  predicate Free(b: Box) { b.frames.hand.None? && !b.wakeups.starting }

  function Fill(f: Frames, frame: nat): (r: Frames) {
    f.(slot := Some(frame), history := f.history + [frame])
  }

  function ApplyFrames(f: Frames, e: Step): (r: Frames) {
    match e
    case Convert => f.(made := Some(f.next), next := f.next + 1)
    case ConvertFailed => f.(freed := f.freed + multiset{f.next}, next := f.next + 1)
    case Store => if f.made.Some? then Fill(f, f.made.value).(made := None, replaced := f.slot) else f
    case FreeReplaced => if f.replaced.Some? then f.(freed := f.freed + multiset{f.replaced.value}, replaced := None) else f
    case Take => f.(hand := f.slot, slot := None)
    case PutBack(_) =>
      if f.hand.None? then f
      else if f.slot.None? then Fill(f, f.hand.value).(hand := None)
      else f.(freed := f.freed + multiset{f.hand.value}, hand := None)
    case _ => f
  }

  function ApplyWakeups(w: Wakeups, e: Step): (r: Wakeups) {
    match e
    case Store => if w.capturing && w.numev == 0 then w.(queue := w.queue + [true], numev := w.numev + 1) else w
    case Deliver =>
      if w.queue == [] then w
      else
        var w1 := w.(queue := w.queue[1..]);
        if !w.queue[0] then w1
        else if !w.capturing then w1.(numev := 0)
        else if w.idle then w1.(idlePending := true)
        else w1.(numev := w.numev - 1)
    case IdleCall => w.(idlePending := false, numev := if w.idle then 0 else w.numev)
    case Stop =>
      w.(capturing := false, idlePending := w.idlePending && !w.capturing, queue := seq(|w.queue|, _ => false))
    case Start => w.(capturing := true, starting := true, numev := 0)
    case StartDone(ok) => w.(capturing := w.capturing && ok, starting := false)
    case _ => w
  }

  function ApplyCounters(c: Counters, slotFull: bool, e: Step): (r: Counters) {
    match e
    case Store => c.(stored := c.stored + 1, dropped := if slotFull then c.dropped + 1 else c.dropped)
    case Take => c.(takes := c.takes + 1)
    case PutBack(done) => if done then c.(shown := c.shown + 1) else c
    case Start => Counters(0, 0, 0, 0)
    case _ => c
  }

  function Apply(b: Box, e: Step): (r: Box)
    requires Enabled(b, e)
  {
    Box(ApplyFrames(b.frames, e), ApplyWakeups(b.wakeups, e), ApplyCounters(b.counters, b.frames.slot.Some?, e))
  }

  ghost predicate IsRun(bs: seq<Box>, es: seq<Step>) {
    |bs| == |es| + 1 && forall k :: 0 <= k < |es| ==> Enabled(bs[k], es[k]) && bs[k + 1] == Apply(bs[k], es[k])
  }

  /** An opened device that does not capture yet. */
  function Opened(idle: bool): (b: Box) {
    Box(Frames(None, None, None, None, multiset{}, 0, []), Wakeups(idle, false, false, [], false, 0), Counters(0, 0, 0, 0))
  }

  // ----- wake-ups

  function Live(queue: seq<bool>): (n: nat) {
    if queue == [] then 0 else Live(queue[1..]) + if queue[0] then 1 else 0
  }

  lemma {:induction false} LivePush(queue: seq<bool>)
    ensures Live(queue + [true]) == Live(queue) + 1
  {
    if queue == [] {
      assert (queue + [true])[1..] == [];
    } else {
      LivePush(queue[1..]);
      assert (queue + [true])[1..] == queue[1..] + [true];
    }
  }

  lemma {:induction false} LiveNone(queue: seq<bool>)
    ensures Live(queue) == 0 <==> forall i :: 0 <= i < |queue| ==> !queue[i]
  {
    if queue != [] {
      LiveNone(queue[1..]);
      assert forall i :: 0 < i < |queue| ==> queue[i] == queue[1..][i - 1];
      assert forall i :: 0 <= i < |queue| - 1 ==> queue[1..][i] == queue[i + 1];
    }
  }

  /** `numev` counts the outstanding wake-ups: live events and a pending idle call, at most one in all. */
  predicate GoodWakeups(w: Wakeups) {
    && (w.capturing ==> w.numev == Live(w.queue) + (if w.idlePending then 1 else 0) && 0 <= w.numev <= 1)
    && (!w.capturing ==> Live(w.queue) == 0 && !w.idlePending)
    && (!w.idle ==> !w.idlePending)
    && (w.starting ==> w.capturing)
  }

  /** As long as a starting capture has stored no frame, there is no event. */
  predicate GoodStart(b: Box) {
    b.wakeups.starting ==>
      && b.frames.hand.None?
      && (b.counters.stored == 0 ==> Live(b.wakeups.queue) == 0 && !b.wakeups.idlePending)
  }

  lemma StepWakeups(b: Box, e: Step)
    requires GoodWakeups(b.wakeups) && GoodStart(b) && Enabled(b, e)
    ensures GoodWakeups(Apply(b, e).wakeups) && GoodStart(Apply(b, e))
  {
    if e.Store? {
      LivePush(b.wakeups.queue);
    } else if e.Stop? {
      LiveNone(seq(|b.wakeups.queue|, _ => false));
    }
  }

  // ----- ownership

  function At(o: Option<nat>, k: nat): (n: nat) { if o == Some(k) then 1 else 0 }

  /** In how many places frame `k` is. */
  function Places(f: Frames, k: nat): (n: nat) {
    At(f.slot, k) + At(f.made, k) + At(f.replaced, k) + At(f.hand, k) + f.freed[k]
  }

  /** Each frame made so far is in exactly one place, and freed at most once. */
  ghost predicate GoodOwners(f: Frames) {
    forall k: nat :: Places(f, k) == if k < f.next then 1 else 0
  }

  /** No step loses or copies a frame. */
  lemma StepPlaces(b: Box, e: Step, k: nat)
    requires Enabled(b, e)
    ensures Places(ApplyFrames(b.frames, e), k)
      == Places(b.frames, k) + if (e.Convert? || e.ConvertFailed?) && k == b.frames.next then 1 else 0
  {
  }

  lemma StepOwners(b: Box, e: Step)
    requires GoodOwners(b.frames) && Enabled(b, e)
    ensures GoodOwners(Apply(b, e).frames)
  {
    forall k: nat ensures Places(ApplyFrames(b.frames, e), k) == if k < ApplyFrames(b.frames, e).next then 1 else 0 {
      StepPlaces(b, e, k);
      assert Places(b.frames, k) == if k < b.frames.next then 1 else 0;
      hide Places, GoodOwners;
    }
  }

  // ----- order and counters

  predicate NonDecreasing(s: seq<nat>) {
    forall i, j :: 0 <= i < j < |s| ==> s[i] <= s[j]
  }

  /** The slot's frames never go back in order; what is put back is the last frame that was shown there. */
  predicate GoodOrder(f: Frames) {
    && NonDecreasing(f.history)
    && (f.history != [] ==> f.history[|f.history| - 1] < f.next)
    && (f.made.Some? ==> f.made.value == f.next - 1 && (f.history != [] ==> f.history[|f.history| - 1] < f.made.value))
    && (f.slot.Some? ==> f.history != [] && f.slot.value == f.history[|f.history| - 1])
    && (f.hand.Some? ==> f.history != [] && f.hand.value <= f.history[|f.history| - 1])
    && (f.hand.Some? && f.slot.None? ==> f.hand.value == f.history[|f.history| - 1])
  }

  lemma StepOrder(b: Box, e: Step)
    requires GoodOrder(b.frames) && Enabled(b, e)
    ensures GoodOrder(Apply(b, e).frames)
  {
    var f := b.frames;
    match e
    case Store => FillOrder(f.history, f.made.value);
    case PutBack(_) => if f.slot.None? { FillOrder(f.history, f.hand.value); }
    case _ =>
  }

  lemma FillOrder(history: seq<nat>, f: nat)
    requires NonDecreasing(history) && (history != [] ==> history[|history| - 1] <= f)
    ensures NonDecreasing(history + [f])
  {
  }

  predicate GoodCounters(c: Counters, slotFull: bool, handFull: bool) {
    && c.dropped <= c.stored && c.stored - c.dropped + (if slotFull then 0 else 1) <= 1 + c.takes
    && c.shown + (if handFull then 1 else 0) <= c.takes
  }

  lemma StepCounters(b: Box, e: Step)
    requires GoodCounters(b.counters, b.frames.slot.Some?, b.frames.hand.Some?) && Enabled(b, e)
    ensures var r := Apply(b, e); GoodCounters(r.counters, r.frames.slot.Some?, r.frames.hand.Some?)
  {
  }

  // ----- whole runs

  ghost predicate Good(b: Box) {
    && GoodWakeups(b.wakeups) && GoodStart(b) && GoodOwners(b.frames) && GoodOrder(b.frames)
    && GoodCounters(b.counters, b.frames.slot.Some?, b.frames.hand.Some?)
  }

  /** Over every interleaving all the promises of the mailbox hold. */
  lemma {:induction false} RunGood(bs: seq<Box>, es: seq<Step>)
    requires IsRun(bs, es) && bs[0] == Opened(bs[0].wakeups.idle)
    ensures forall k :: 0 <= k <= |es| ==> Good(bs[k])
  {
    assert Good(bs[0]);
    hide Apply, Enabled, GoodWakeups, GoodStart, GoodOwners, GoodOrder, GoodCounters;
    for n := 0 to |es|
      invariant forall k :: 0 <= k <= n ==> Good(bs[k])
    {
      assert Good(bs[n]);
      StepWakeups(bs[n], es[n]);
      StepOwners(bs[n], es[n]);
      StepOrder(bs[n], es[n]);
      StepCounters(bs[n], es[n]);
    }
  }

  /** No lost wake-up: a stored frame finds or makes an event that names the device, or the idle call. */
  lemma StoreWakes(b: Box)
    requires GoodWakeups(b.wakeups) && Enabled(b, Store) && b.wakeups.capturing
    ensures var w := Apply(b, Store).wakeups;
      && w.numev == 1 && (w.idlePending || exists i :: 0 <= i < |w.queue| && w.queue[i])
      && (!w.idle ==> Live(w.queue) == 1)
  {
    LivePush(b.wakeups.queue);
    LiveNone(Apply(b, Store).wakeups.queue);
  }

  /** After StopCapture every queued event is dead, and delivering a dead event does nothing to the device. */
  lemma StopSilences(b: Box)
    requires GoodWakeups(b.wakeups) && Enabled(b, Stop)
    ensures var r := Apply(b, Stop);
      && !r.wakeups.idlePending && (forall i :: 0 <= i < |r.wakeups.queue| ==> !r.wakeups.queue[i])
      && (r.wakeups.queue != [] ==> Apply(r, Deliver) == r.(wakeups := r.wakeups.(queue := r.wakeups.queue[1..])))
  {
  }

  /** From StopCapture to the next StartCapture, whatever the libuvc thread still does, nothing reaches the device. */
  lemma {:induction false} SilentUntilStart(bs: seq<Box>, es: seq<Step>)
    requires IsRun(bs, es) && GoodWakeups(bs[0].wakeups) && GoodStart(bs[0]) && !bs[0].wakeups.capturing
    requires forall k :: 0 <= k < |es| ==> !es[k].Start?
    ensures forall k :: 0 <= k <= |es| ==>
      var w := bs[k].wakeups;
      !w.capturing && !w.idlePending && forall i :: 0 <= i < |w.queue| ==> !w.queue[i]
  {
    for n := 0 to |es|
      invariant forall k :: 0 <= k <= n ==> GoodWakeups(bs[k].wakeups) && GoodStart(bs[k]) && !bs[k].wakeups.capturing
    {
      StepWakeups(bs[n], es[n]);
    }
    forall k | 0 <= k <= |es| ensures forall i :: 0 <= i < |bs[k].wakeups.queue| ==> !bs[k].wakeups.queue[i] {
      LiveNone(bs[k].wakeups.queue);
    }
  }

  /** Putting back never replaces a newer frame: the newer one stays, and the older one is freed. */
  lemma PutBackKeepsNewer(b: Box, done: bool)
    requires Good(b) && b.frames.hand.Some? && b.frames.slot.Some?
    ensures b.frames.hand.value < b.frames.slot.value
    ensures var r := Apply(b, PutBack(done)).frames;
      r.slot == b.frames.slot && r.freed == b.frames.freed + multiset{b.frames.hand.value}
  {
    var f := b.frames;
    assert Places(f, f.hand.value) <= 1;
  }

  /** A start begins with counters at 0 and no event, and leaves the frames alone. */
  lemma StartFresh(b: Box)
    requires GoodWakeups(b.wakeups) && Enabled(b, Start)
    ensures var r := Apply(b, Start);
      && r.frames == b.frames && r.counters == Counters(0, 0, 0, 0)
      && r.wakeups.capturing && r.wakeups.numev == Live(r.wakeups.queue) == 0
  {
  }

  /** Putting back into an empty slot restores it, and frees nothing. */
  lemma PutBackRestores(b: Box, done: bool)
    requires Enabled(b, PutBack(done)) && b.frames.slot.None?
    ensures var r := Apply(b, PutBack(done)).frames;
      r.slot == b.frames.hand && r.hand.None? && r.freed == b.frames.freed && r.made == b.frames.made && r.replaced == b.frames.replaced
  {
  }

  /** Over every run from a take to its put-back in which nothing is stored, the slot ends up as it was. */
  lemma {:induction false} TakenAndPutBack(bs: seq<Box>, es: seq<Step>)
    requires IsRun(bs, es) && |es| >= 2 && es[0] == Take && es[|es| - 1].PutBack?
    requires forall k :: 0 < k < |es| - 1 ==> !es[k].Store? && !es[k].PutBack?
    ensures bs[|es|].frames.slot == bs[0].frames.slot && bs[|es|].frames.slot.Some? && bs[|es|].frames.hand.None?
  {
    var n := |es| - 1;
    assert bs[1] == Apply(bs[0], es[0]) && Enabled(bs[0], es[0]);
    for k := 1 to n
      invariant bs[k].frames.slot.None? && bs[k].frames.hand == bs[0].frames.slot
    {
      assert Enabled(bs[k], es[k]) && bs[k + 1] == Apply(bs[k], es[k]);
    }
    assert Enabled(bs[n], es[n]) && bs[n + 1] == Apply(bs[n], es[n]);
  }

  /** A stored frame is the newest one made, it is in the slot, and the frame it replaces is taken out to be freed. */
  lemma StoreKeepsNewest(b: Box)
    requires GoodOrder(b.frames) && Enabled(b, Store)
    ensures var r := Apply(b, Store).frames;
      r.slot == Some(r.next - 1) && r.made.None? && r.replaced == b.frames.slot && r.freed == b.frames.freed
  {
  }

  /** A frame is freed only if it was replaced, if it came back to find a newer one, or if it could not be converted. */
  lemma FreedWhy(b: Box, e: Step, k: nat)
    requires Enabled(b, e) && Apply(b, e).frames.freed[k] > b.frames.freed[k]
    ensures (e.FreeReplaced? && b.frames.replaced == Some(k))
      || (e.PutBack? && b.frames.hand == Some(k) && b.frames.slot.Some?)
      || (e.ConvertFailed? && k == b.frames.next)
  {
  }

  // ----- what the counters count

  function Stored(es: seq<Step>): (n: nat) {
    if es == [] then 0 else Stored(es[..|es| - 1]) + if es[|es| - 1].Store? then 1 else 0
  }

  function Shown(es: seq<Step>): (n: nat) {
    if es == [] then 0 else Shown(es[..|es| - 1]) + if es[|es| - 1] == PutBack(true) then 1 else 0
  }

  /** How often a frame was stored while there was one already. */
  ghost function Dropped(bs: seq<Box>, es: seq<Step>): (n: nat)
    requires |bs| == |es| + 1
  {
    if es == [] then 0
    else
      var n := |es| - 1;
      Dropped(bs[..n + 1], es[..n]) + if es[n].Store? && bs[n].frames.slot.Some? then 1 else 0
  }

  /** Between two starts the counters count exactly the frames stored, shown and dropped. */
  lemma {:induction false} CountersCount(bs: seq<Box>, es: seq<Step>)
    requires IsRun(bs, es) && forall k :: 0 <= k < |es| ==> !es[k].Start?
    ensures var a, c := bs[0].counters, bs[|es|].counters;
      c.stored == a.stored + Stored(es) && c.shown == a.shown + Shown(es) && c.dropped == a.dropped + Dropped(bs, es)
  {
    if es != [] {
      var n := |es| - 1;
      CountersCount(bs[..n + 1], es[..n]);
      assert bs[n + 1] == Apply(bs[n], es[n]);
    }
  }

  // ----- the fields of the control structure

  /** An event in the Tcl queue; `named` as long as its `tuvc` pointer is set. */
  class WakeEvent {
    var named: bool

    constructor ()
      ensures named
    {
      named := true;
    }
  }

  class Device {
    const idle: bool
    var tid: bool
    var frame: Option<nat>
    var queue: seq<WakeEvent>
    var evts: set<WakeEvent>
    var idleCall: bool
    var numev: int
    var stored: nat
    var shown: nat
    var dropped: nat
    ghost var box: Box

    /** The queued events are those of `live`, and the hash table holds exactly the ones that name the device. */
    ghost predicate Queued(live: seq<bool>)
      reads `queue, `evts, queue`named
    {
      && (forall i, j :: 0 <= i < j < |queue| ==> queue[i] != queue[j])
      && |queue| == |live|
      && (forall i :: 0 <= i < |queue| ==> queue[i].named == live[i])
      && (forall i :: 0 <= i < |queue| ==> (queue[i] in evts <==> queue[i].named))
      && (forall e :: e in evts ==> e in queue)
    }

    ghost predicate Valid()
      reads this, queue
    {
      && tid == box.wakeups.capturing && frame == box.frames.slot && idle == box.wakeups.idle
      && idleCall == box.wakeups.idlePending && numev == box.wakeups.numev
      && stored == box.counters.stored && shown == box.counters.shown && dropped == box.counters.dropped
      && Queued(box.wakeups.queue)
    }

    constructor (idle: bool)
      ensures Valid() && box == Opened(idle)
    {
      this.idle := idle;
      tid, frame, queue, evts, idleCall, numev := false, None, [], {}, false, 0;
      stored, shown, dropped := 0, 0, 0;
      box := Opened(idle);
    }

    /** The locked part of FrameCallback; `oldFrame` is the frame it has to free. */
    method StoreFrame(newFrame: nat) returns (oldFrame: Option<nat>)
      requires Valid() && Enabled(box, Store) && box.frames.made == Some(newFrame)
      modifies this
      ensures Valid() && box == Apply(old(box), Store) && oldFrame == box.frames.replaced
    {
      hide Queued;
      oldFrame := frame;
      frame := Some(newFrame);
      if oldFrame.Some? {
        dropped := dropped + 1;
      }
      stored := stored + 1;
      if tid && numev == 0 {
        QueueEvent(box.wakeups.queue);
        numev := numev + 1;
      }
      box := Apply(box, Store);
    }

    method QueueEvent(ghost live: seq<bool>)
      requires Queued(live)
      modifies `queue, `evts
      ensures Queued(live + [true])
    {
      var event := new WakeEvent();
      evts := evts + {event};
      queue := queue + [event];
    }

    /** FrameReady0 for the first event in the queue. */
    method FrameReady0()
      requires Valid() && Enabled(box, Deliver)
      modifies this
      ensures Valid() && box == Apply(old(box), Deliver)
    {
      var event := queue[0];
      queue := queue[1..];
      box := Apply(box, Deliver);
      if !event.named {
        return;
      }
      evts := evts - {event};
      if tid {
        if !idle {
          numev := numev - 1;
        } else {
          idleCall := true;
        }
      } else {
        numev := 0;
      }
    }

    /** The first locked part of FrameReady, run as an idle call. */
    method FrameReady()
      requires Valid() && Enabled(box, IdleCall)
      modifies this
      ensures Valid() && box == Apply(old(box), IdleCall)
    {
      idleCall := false;
      if idle {
        numev := 0;
      }
      box := Apply(box, IdleCall);
    }

    /** GetImage and FrameReady take the frame out of the slot ... */
    method TakeFrame() returns (taken: Option<nat>)
      requires Valid() && Enabled(box, Take)
      modifies this
      ensures Valid() && box == Apply(old(box), Take) && taken == box.frames.hand
    {
      taken := frame;
      frame := None;
      box := Apply(box, Take);
    }

    /** ... and put it back, unless there is a newer one; then `free` says that theirs has to be freed. */
    method PutFrameBack(taken: nat, done: bool) returns (free: bool)
      requires Valid() && Enabled(box, PutBack(done)) && box.frames.hand == Some(taken)
      modifies this
      ensures Valid() && box == Apply(old(box), PutBack(done))
      ensures free <==> box.frames.freed == old(box).frames.freed + multiset{taken}
    {
      free := frame.Some?;
      if frame.None? {
        frame := Some(taken);
      }
      if done {
        shown := shown + 1;
      }
      box := Apply(box, PutBack(done));
    }

    /** StopCapture; a frame may still be on its way. */
    method StopCapture()
      requires Valid() && Enabled(box, Stop)
      modifies this, evts
      ensures Valid() && box == Apply(old(box), Stop)
    {
      if tid {
        tid := false;
        idleCall := false;
      }
      ghost var live := evts;
      while evts != {}
        invariant evts <= live == old(evts)
        invariant forall i :: 0 <= i < |queue| ==> (queue[i] in evts <==> queue[i].named)
        invariant queue == old(queue) && box == old(box)
        invariant unchanged(`frame) && unchanged(`numev) && unchanged(`stored) && unchanged(`shown) && unchanged(`dropped)
        invariant tid == false && idleCall == (old(idleCall) && !old(tid))
        decreases evts
      {
        var event :| event in evts;
        event.named := false;
        evts := evts - {event};
      }
      box := Apply(box, Stop);
    }

    /** StartCapture, up to the call that starts the stream; the format is set. */
    method StartCapture()
      requires Valid() && Enabled(box, Start)
      modifies this
      ensures Valid() && box == Apply(old(box), Start)
    {
      stored, shown, dropped := 0, 0, 0;
      tid := true;
      numev := 0;
      box := Apply(box, Start);
    }

    /** The rest of StartCapture; `ok` unless the stream could not be started. */
    method CaptureStarted(ok: bool)
      requires Valid() && Enabled(box, StartDone(ok))
      modifies this
      ensures Valid() && box == Apply(old(box), StartDone(ok))
    {
      if !ok {
        tid := false;
      }
      box := Apply(box, StartDone(ok));
    }
  }

  /** A start that fails leaves nothing behind: no event, no frame on its way, and counters at 0. */
  lemma FailedStartSilent(b: Box)
    requires GoodWakeups(b.wakeups) && GoodStart(b) && Enabled(b, StartDone(false))
    ensures var r := Apply(b, StartDone(false));
      && !r.wakeups.capturing && !r.wakeups.idlePending && (forall i :: 0 <= i < |r.wakeups.queue| ==> !r.wakeups.queue[i])
      && r.counters.stored == 0 && r.frames == b.frames
  {
    LiveNone(b.wakeups.queue);
  }
}
