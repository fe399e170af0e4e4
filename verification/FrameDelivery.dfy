/**
 How published frames reach the user: the callback thread of `_uvc_user_caller`, the poll of
 `uvc_stream_get_frame`, and `_uvc_populate_frame`, which copies the held buffer and repairs the
 end marker of an MJPEG image.

 Everything between locking and unlocking `cb_mutex` is one step; `Execute` runs any interleaving of
 payloads, callback turns and polls.
 */
module FrameDelivery {
  import opened Bytes
  import opened PayloadStream

  // ----- the end marker of a JPEG image (section B.1.1.3 of ITU-T T.81)

  predicate EndsWithMarker(b: seq<Byte>) {
    |b| >= 2 && b[|b| - 2] == 0xff && b[|b| - 1] == 0xd9
  }

  function Repair(b: seq<Byte>): (r: seq<Byte>) {
    if |b| < 2 || EndsWithMarker(b) then b
    else if b[|b| - 1] == 0xff then b + [0xd9]
    else if b[|b| - 1] != 0xd9 then b + [0xff, 0xd9]
    else b
  }

  /**
   The repaired image ends in FF D9 unless the held one is too short or ends in a D9 without its FF; it is the
   shortest that does, and the others are left alone.
   */
  lemma RepairMarks(b: seq<Byte>)
    ensures b <= Repair(b) && |Repair(b)| <= |b| + 2
    ensures EndsWithMarker(Repair(b)) <==> |b| >= 2 && (b[|b| - 1] == 0xd9 ==> b[|b| - 2] == 0xff)
    ensures Repair(Repair(b)) == Repair(b)
    ensures !EndsWithMarker(Repair(b)) ==> Repair(b) == b
    ensures forall r :: b <= r && EndsWithMarker(r) && EndsWithMarker(Repair(b)) ==> r == Repair(b) || |Repair(b)| < |r|
  {
    if |b| >= 2 && b[|b| - 1] != 0xd9 {
      var r := Repair(b);
      assert r[|r| - 2] == 0xff && r[|r| - 1] == 0xd9;
    }
    forall r | b <= r && EndsWithMarker(r) && EndsWithMarker(Repair(b)) ensures r == Repair(b) || |Repair(b)| < |r| {
      if |r| <= |Repair(b)| {
        assert r == b || r == b + [r[|b|]] || r == b + [r[|b|], r[|b| + 1]];
      }
    }
  }

  /** What the user gets to see of a frame. */
  function Image(mjpeg: bool, f: Frame): (b: seq<Byte>) {
    if mjpeg then Repair(Flat(f.parts)) else Flat(f.parts)
  }

  /** It shows the frame's data: as they are, or for MJPEG with the end marker completed if there are two bytes at least. */
  lemma ImageShows(mjpeg: bool, f: Frame)
    ensures Flat(f.parts) <= Image(mjpeg, f)
    ensures !mjpeg ==> Image(mjpeg, f) == Flat(f.parts)
    ensures var d := Flat(f.parts);
      mjpeg && |d| >= 2 && (d[|d| - 1] == 0xd9 ==> d[|d| - 2] == 0xff) ==>
        EndsWithMarker(Image(mjpeg, f)) && |Image(mjpeg, f)| <= |d| + 2
  {
    hide Repair, EndsWithMarker;
    RepairMarks(Flat(f.parts));
  }

  // ----- interleavings

  datatype Delivered = Delivered(number: nat, image: seq<Byte>)

  datatype System = System(mjpeg: bool, running: bool, stream: Stream, lastSeq: nat, lastPolled: nat,
                           called: seq<Delivered>, polled: seq<Delivered>)

  datatype Event = Arrives(p: Payload) | CallerTurn | Poll | StopRunning

  function Held(s: System): (d: Delivered) {
    Delivered(s.stream.held.number, Image(s.mjpeg, s.stream.held))
  }

  function Step(s: System, e: Event): (r: System) {
    match e
    case Arrives(p) => if s.running then s.(stream := Process(s.stream, p)) else s
    case CallerTurn =>
      if s.running && s.lastSeq != s.stream.held.number
      then s.(lastSeq := s.stream.held.number, called := s.called + [Held(s)])
      else s
    case Poll =>
      if s.lastPolled < s.stream.held.number
      then s.(lastPolled := s.stream.held.number, polled := s.polled + [Held(s)])
      else s
    case StopRunning => s.(running := false)
  }

  function Execute(s: System, es: seq<Event>): (r: System) {
    if es == [] then s else Step(Execute(s, es[..|es| - 1]), es[|es| - 1])
  }

  /**
   The state after `uvc_stream_start`.  On a new handle nothing is held and nothing pending; on a handle
   that is started again the held frame, its number and the pending data are those of the last session.
   */
  ghost predicate Started(s: System) {
    && s.running && s.lastSeq == 0 && s.called == [] && s.polled == []
    && s.stream.number == 0 && s.stream.fid == false && s.stream.published == []
  }

  predicate Increasing(ds: seq<Delivered>) {
    forall i, j :: 0 <= i < j < |ds| ==> ds[i].number < ds[j].number
  }

  lemma IncreasingPush(ds: seq<Delivered>, d: Delivered)
    requires Increasing(ds) && (ds != [] ==> ds[|ds| - 1].number < d.number)
    ensures Increasing(ds + [d])
  {
  }

  lemma NothingIncreases()
    ensures Increasing([])
  {
  }

  // ----- the callback

  /** Every frame in `ds` is the frame published under its number, which is not 0. */
  ghost predicate AsPublished(ds: seq<Delivered>, mjpeg: bool, published: seq<Frame>) {
    forall i :: 0 <= i < |ds| ==>
      1 <= ds[i].number < |published| && ds[i].image == Image(mjpeg, published[ds[i].number])
  }

  ghost predicate Faithful(s: System) {
    && Numbered(s.stream)
    && (s.stream.published == [] ==> s.stream.held.number == 0)
    && AsPublished(s.called, s.mjpeg, s.stream.published)
    && AsPublished(s.polled, s.mjpeg, s.stream.published)
    && Increasing(s.called) && Increasing(s.polled)
    && (s.polled != [] ==> s.lastPolled == s.polled[|s.polled| - 1].number)
    && s.lastSeq == if s.called == [] then 0 else s.called[|s.called| - 1].number
  }

  lemma StepGrows(s: System, e: Event)
    requires Numbered(s.stream)
    ensures Numbered(Step(s, e).stream) && s.stream.published <= Step(s, e).stream.published
  {
    if e.Arrives? {
      ProcessNumbered(s.stream, e.p);
    }
  }

  lemma MorePublished(ds: seq<Delivered>, mjpeg: bool, before: seq<Frame>, after: seq<Frame>)
    requires AsPublished(ds, mjpeg, before) && before <= after
    ensures AsPublished(ds, mjpeg, after)
  {
  }

  /** The held frame is the last one published; without wrap-around its number is its position. */
  lemma HeldIsPublished(s: System)
    requires Faithful(s) && |s.stream.published| <= TWO_32 && s.stream.held.number != 0
    ensures AsPublished([Held(s)], s.mjpeg, s.stream.published)
    ensures forall i :: 0 <= i < |s.called| ==> s.called[i].number <= s.stream.held.number
  {
    var n := |s.stream.published|;
    assert n > 0 && s.stream.held.number == (n - 1) % TWO_32 == n - 1;
  }

  lemma NoTurnForZero(s: System)
    requires Faithful(s) && |s.stream.published| <= TWO_32 && s.stream.held.number == 0
    ensures s.lastSeq == 0
  {
    var n := |s.stream.published|;
    assert n > 0 ==> (n - 1) % TWO_32 == n - 1;
  }

  lemma ArrivesFaithful(s: System, p: Payload)
    requires Faithful(s)
    ensures Faithful(s.(stream := Process(s.stream, p)))
  {
    ProcessNumbered(s.stream, p);
    HeldKept(s.stream, p);
    var published := Process(s.stream, p).published;
    MorePublished(s.called, s.mjpeg, s.stream.published, published);
    MorePublished(s.polled, s.mjpeg, s.stream.published, published);
    hide AsPublished, Numbered, Process, Increasing;
  }

  lemma CallerFaithful(s: System)
    requires Faithful(s) && |s.stream.published| <= TWO_32 && s.lastSeq != s.stream.held.number
    ensures Faithful(s.(lastSeq := s.stream.held.number, called := s.called + [Held(s)]))
  {
    hide Numbered, Image, Increasing;
    if s.stream.held.number == 0 {
      NoTurnForZero(s);
    }
    HeldIsPublished(s);
    assert AsPublished(s.called + [Held(s)], s.mjpeg, s.stream.published) by {
      assert AsPublished([Held(s)], s.mjpeg, s.stream.published) && [Held(s)][0] == Held(s);
    }
    assert s.called != [] ==> s.lastSeq < s.stream.held.number;
    IncreasingPush(s.called, Held(s));
  }

  lemma PollFaithful(s: System)
    requires Faithful(s) && |s.stream.published| <= TWO_32 && s.lastPolled < s.stream.held.number
    ensures Faithful(s.(lastPolled := s.stream.held.number, polled := s.polled + [Held(s)]))
  {
    HeldIsPublished(s);
    IncreasingPush(s.polled, Held(s));
    hide Numbered, Image, Increasing;
    assert [Held(s)][0] == Held(s);
  }

  lemma StepFaithful(s: System, e: Event)
    requires Faithful(s) && |Step(s, e).stream.published| <= TWO_32
    ensures Faithful(Step(s, e))
  {
    match e
    case Arrives(p) => ArrivesFaithful(s, p);
    case CallerTurn => if Step(s, e) != s { hide Faithful; CallerFaithful(s); }
    case Poll => if Step(s, e) != s { hide Faithful; PollFaithful(s); }
    case StopRunning =>
  }

  /** Only publishing changes the held frame. */
  lemma HeldKept(s: Stream, p: Payload)
    ensures |Process(s, p).published| == |s.published| ==> Process(s, p).held == s.held
  {
  }

  lemma {:induction false} ExecuteGrows(s: System, es: seq<Event>)
    requires Numbered(s.stream)
    ensures Numbered(Execute(s, es).stream)
    ensures es != [] ==> |Execute(s, es[..|es| - 1]).stream.published| <= |Execute(s, es).stream.published|
  {
    if es != [] {
      ExecuteGrows(s, es[..|es| - 1]);
      StepGrows(Execute(s, es[..|es| - 1]), es[|es| - 1]);
    }
  }

  /**
   In every interleaving of a session that starts with frame number 0 held and publishes at most 2^32
   frames, the callback sees strictly increasing numbers and, under each, exactly the bytes published.
   */
  lemma {:induction false} CallbackFaithful(s: System, es: seq<Event>)
    requires Started(s) && s.stream.held.number == 0
    requires |Execute(s, es).stream.published| <= TWO_32
    ensures Faithful(Execute(s, es))
  {
    if es != [] {
      ExecuteGrows(s, es);
      CallbackFaithful(s, es[..|es| - 1]);
      StepFaithful(Execute(s, es[..|es| - 1]), es[|es| - 1]);
    }
  }

  /**
   Delivery to the callback: in a session that starts with number 0 held, whatever has happened before, a turn
   while the stream runs leaves the newest frame as the last one called, unless that is frame number 0.
   */
  lemma NewestCalled(s: System, es: seq<Event>)
    requires Started(s) && s.stream.held.number == 0
    requires var r := Execute(s, es); r.running && 2 <= |r.stream.published| <= TWO_32
    ensures var q, n := Execute(s, es + [CallerTurn]), |Execute(s, es).stream.published|;
      q.called != [] && q.called[|q.called| - 1] == Delivered(n - 1, Image(s.mjpeg, Execute(s, es).stream.published[n - 1]))
  {
    hide *;
    CallbackFaithful(s, es);
    SameFormat(s, es);
    OneMoreEvent(s, es, CallerTurn);
    TurnCallsNewest(Execute(s, es));
  }

  lemma TurnCallsNewest(r: System)
    requires Faithful(r) && r.running && 2 <= |r.stream.published| <= TWO_32
    ensures var q, n := Step(r, CallerTurn), |r.stream.published|;
      q.called != [] && q.called[|q.called| - 1] == Delivered(n - 1, Image(r.mjpeg, r.stream.published[n - 1]))
  {
    hide Image, Increasing;
    var n := |r.stream.published|;
    assert r.stream.held.number == (n - 1) % TWO_32 == n - 1;
    if r.called != [] {
      assert r.lastSeq == r.called[|r.called| - 1].number;
    }
  }

  lemma OneMoreEvent(s: System, es: seq<Event>, e: Event)
    ensures Execute(s, es + [e]) == Step(Execute(s, es), e)
  {
    hide Step;
    assert (es + [e])[..|es|] == es;
  }

  // ----- the stream under the interleavings

  /** The payloads that arrive before the stream is stopped. */
  function Arrived(es: seq<Event>): (ps: seq<Payload>) {
    if es == [] then []
    else if es[0].StopRunning? then []
    else (if es[0].Arrives? then [es[0].p] else []) + Arrived(es[1..])
  }

  /** Whatever the listeners do, the stream processes exactly these payloads, in order. */
  lemma {:induction false} StreamRuns(s: System, es: seq<Event>)
    requires s.running
    ensures Execute(s, es).stream == Run(s.stream, Arrived(es))
    ensures Execute(s, es).running <==> StopRunning !in es
  {
    hide *;
    ExecuteUnfold(s, es);
    if es == [] {
      NoPayloads(s.stream);
      NoneArrived();
    } else {
      var front, e := es[..|es| - 1], es[|es| - 1];
      assert es == front + [e];
      StreamRuns(s, front);
      ArrivedPush(front, e);
      StepStream(Execute(s, front), e);
      if e.Arrives? && StopRunning !in front {
        RunPush(s.stream, Arrived(front), e.p);
      } else {
        assert Arrived(es) == Arrived(front);
      }
    }
  }

  lemma NoneArrived()
    ensures Arrived([]) == []
  {
  }

  lemma StepStream(s: System, e: Event)
    ensures var r := Step(s, e);
      && r.stream == (if s.running && e.Arrives? then Process(s.stream, e.p) else s.stream)
      && (r.running <==> s.running && !e.StopRunning?)
  {
    hide Process, Held;
  }

  lemma {:induction false} ArrivedPush(es: seq<Event>, e: Event)
    ensures Arrived(es + [e]) == Arrived(es) + if e.Arrives? && StopRunning !in es then [e.p] else []
  {
    if es != [] {
      ArrivedPush(es[1..], e);
      assert (es + [e])[1..] == es[1..] + [e];
    } else {
      assert ([] + [e])[1..] == [];
    }
  }

  /** After the stop no payload is processed and the callback is not called again. */
  lemma {:induction false} StoppedSilent(s: System, es: seq<Event>)
    requires !s.running
    ensures var r := Execute(s, es); !r.running && r.stream == s.stream && r.called == s.called && r.lastSeq == s.lastSeq
  {
    if es != [] {
      StoppedSilent(s, es[..|es| - 1]);
    }
  }

  /** In such a session the frame with number 0 is never handed to the callback, because `last_seq` starts at 0. */
  lemma FirstFrameNotCalled(s: System, es: seq<Event>)
    requires Started(s) && s.stream.held.number == 0
    requires |Execute(s, es).stream.published| <= TWO_32
    ensures forall i :: 0 <= i < |Execute(s, es).called| ==> Execute(s, es).called[i].number != 0
  {
    CallbackFaithful(s, es);
  }

  /** A frame that is stale from the last session is delivered first, and frame number 0 after it. */
  function StaleRun(): (es: seq<Event>) {
    [CallerTurn, Arrives(Accepted(Some(Head(false, true, None, None)), [0])), CallerTurn]
  }

  lemma StaleRunDecreases(s: System)
    requires Started(s) && s.stream.held.number != 0
    ensures |Execute(s, StaleRun()).stream.published| == 1
    ensures !Increasing(Execute(s, StaleRun()).called)
    ensures |Execute(s, StaleRun()).called| == 2 && Execute(s, StaleRun()).called[1].number == 0
  {
    var es := StaleRun();
    var p := es[1].p;
    var s1 := Step(s, CallerTurn);
    assert es[..1] == [CallerTurn] && es[..1][..0] == [];
    assert Execute(s, es[..1]) == s1;
    var s2 := Step(s1, es[1]);
    assert es[..2][..1] == es[..1];
    assert Execute(s, es[..2]) == s2;
    assert es[..3] == es;
    var s3 := Step(s2, es[2]);
    assert Execute(s, es) == s3;
    FlatPush(s1.stream.parts, Part(false, p.head, p.data));
    assert s2.stream.held.number == 0;
    assert s3.called[0].number == s.stream.held.number && s3.called[1].number == 0;
  }

  /** The callback's numbers increase in all interleavings exactly when the session starts with number 0 held. */
  lemma CallbackIncreasing(s: System)
    requires Started(s)
    ensures (forall es :: |Execute(s, es).stream.published| <= TWO_32 ==> Increasing(Execute(s, es).called))
      <==> s.stream.held.number == 0
  {
    if s.stream.held.number == 0 {
      forall es | |Execute(s, es).stream.published| <= TWO_32 ensures Increasing(Execute(s, es).called) {
        CallbackFaithful(s, es);
      }
    } else {
      StaleRunDecreases(s);
    }
  }

  /** Frame number 0 can reach the callback exactly when the session starts with another number held. */
  lemma ZeroCalledIff(s: System)
    requires Started(s)
    ensures (exists es, i :: |Execute(s, es).stream.published| <= TWO_32 && 0 <= i < |Execute(s, es).called| &&
                             Execute(s, es).called[i].number == 0)
      <==> s.stream.held.number != 0
  {
    if s.stream.held.number != 0 {
      StaleRunDecreases(s);
      assert Execute(s, StaleRun()).called[1].number == 0;
    } else {
      forall es | |Execute(s, es).stream.published| <= TWO_32
        ensures forall i :: 0 <= i < |Execute(s, es).called| ==> Execute(s, es).called[i].number != 0
      {
        FirstFrameNotCalled(s, es);
      }
    }
  }

  /** The callback gets nothing but frames of its session, under their numbers, in all interleavings exactly when number 0 is held. */
  lemma CalledAsPublishedIff(s: System)
    requires Started(s)
    ensures (forall es :: |Execute(s, es).stream.published| <= TWO_32 ==>
              AsPublished(Execute(s, es).called, s.mjpeg, Execute(s, es).stream.published))
      <==> s.stream.held.number == 0
  {
    if s.stream.held.number == 0 {
      forall es | |Execute(s, es).stream.published| <= TWO_32
        ensures AsPublished(Execute(s, es).called, s.mjpeg, Execute(s, es).stream.published)
      {
        CallbackFaithful(s, es);
        SameFormat(s, es);
      }
    } else {
      var r := Execute(s, [CallerTurn]);
      OneEvent(s, CallerTurn);
      assert |r.called| == 1 && r.stream.published == [];
      NonePublished(r.called, s.mjpeg);
    }
  }

  lemma NonePublished(ds: seq<Delivered>, mjpeg: bool)
    requires ds != []
    ensures !AsPublished(ds, mjpeg, [])
  {
    var d := ds[0];
    assert d == ds[0];
  }

  lemma OneEvent(s: System, e: Event)
    ensures Execute(s, [e]) == Step(s, e)
  {
    assert [e][..0] == [] && Execute(s, []) == s;
  }

  lemma {:induction false} SameFormat(s: System, es: seq<Event>)
    ensures Execute(s, es).mjpeg == s.mjpeg
  {
    if es != [] {
      SameFormat(s, es[..|es| - 1]);
    }
  }

  // ----- a second session on the same handle

  /** `uvc_stream_start` after a stop.  `last_polled_seq` is not reset; the histories are those of the new session. */
  function StartedAgain(s: System): (r: System)
    requires !s.running
  {
    System(s.mjpeg, true, Restarted(s.stream), 0, s.lastPolled, [], [])
  }

  /** A second session starts with number 0 held exactly when the first has published no more than one frame. */
  lemma RestartHolds(s: System, es: seq<Event>)
    requires Started(s) && s.stream.held.number == 0
    requires var r := Execute(s, es); !r.running && |r.stream.published| <= TWO_32
    ensures var r := Execute(s, es);
      && Started(StartedAgain(r)) && (StartedAgain(r).stream.held.number == 0 <==> |r.stream.published| <= 1)
  {
    hide *;
    CallbackFaithful(s, es);
    HeldZero(Execute(s, es));
    RestartKeeps(Execute(s, es));
  }

  lemma HeldZero(s: System)
    requires Faithful(s) && |s.stream.published| <= TWO_32
    ensures s.stream.held.number == 0 <==> |s.stream.published| <= 1
  {
    hide AsPublished, Increasing;
    var n := |s.stream.published|;
    if n > 0 {
      assert s.stream.held.number == (n - 1) % TWO_32 == n - 1;
    }
  }

  /** So its callback numbers increase in all interleavings exactly then. */
  lemma SecondSessionIncreasing(s: System, es: seq<Event>)
    requires Started(s) && s.stream.held.number == 0
    requires var r := Execute(s, es); !r.running && |r.stream.published| <= TWO_32
    ensures (forall ds :: |Execute(StartedAgain(Execute(s, es)), ds).stream.published| <= TWO_32 ==>
              Increasing(Execute(StartedAgain(Execute(s, es)), ds).called))
      <==> |Execute(s, es).stream.published| <= 1
  {
    RestartHolds(s, es);
    CallbackIncreasing(StartedAgain(Execute(s, es)));
  }

  /** Two frames and a stop, on a fresh handle. */
  lemma TwoFrames() returns (s: System, es: seq<Event>)
    ensures s == System(false, true, Fresh(), 0, 0, [], []) && Started(s)
    ensures var r := Execute(s, es);
      && !r.running && |r.stream.published| == 2 && r.stream.held.number == 1
      && r.called == [] && r.polled == [] && r.lastPolled == 0
  {
    s := System(false, true, Fresh(), 0, 0, [], []);
    var p := LastOfFrame0();
    es := [Arrives(p), Arrives(p), StopRunning];
    var s1 := Step(s, es[0]);
    var s2 := Step(s1, es[1]);
    var s3 := Step(s2, es[2]);
    ExecuteUnfold(s, []);
    ExecuteUnfold(s, es[..1]);
    ExecuteUnfold(s, es[..2]);
    ExecuteUnfold(s, es);
    assert es[..1][..0] == [] && es[..2][..1] == es[..1] && es[..3] == es;
    OneMoreFrame(s.stream);
    OneMoreFrame(s1.stream);
    hide Process, Numbered, Execute;
    assert Execute(s, es) == s3;
  }

  /** The next session then delivers number 1 and after it number 0. */
  lemma StaleRunReached() returns (s: System, es: seq<Event>)
    ensures s == System(false, true, Fresh(), 0, 0, [], []) && Started(s)
    ensures var r := Execute(s, es);
      && !r.running && |r.stream.published| == 2 && StartedAgain(r).stream.held.number == 1
      && !Increasing(Execute(StartedAgain(r), StaleRun()).called)
  {
    hide *;
    s, es := TwoFrames();
    RestartKeeps(Execute(s, es));
    StaleRunDecreases(StartedAgain(Execute(s, es)));
  }

  /** What a restart keeps of the session before: the held frame, the pending data, and the last number polled. */
  lemma RestartKeeps(s: System)
    requires !s.running
    ensures var r := StartedAgain(s);
      && Started(r) && r.stream.held == s.stream.held && Flat(r.stream.parts) == Flat(s.stream.parts)
      && r.lastPolled == s.lastPolled && r.mjpeg == s.mjpeg && r.stream.pts == r.stream.scr == 0
  {
  }

  lemma OneMoreFrame(s: Stream)
    requires Numbered(s) && s.parts == [] && |s.published| < 2
    ensures var r := Process(s, LastOfFrame0());
      && Numbered(r) && r.parts == [] && |r.published| == |s.published| + 1 && r.held.number == |s.published|
  {
    ProcessNumbered(s, LastOfFrame0());
    HeadBoundary(s, LastOfFrame0().head.value);
  }

  // ----- polling

  lemma StepPolled(s: System, e: Event)
    ensures var r := Step(s, e);
      || (r.polled == s.polled && r.lastPolled == s.lastPolled)
      || (r.polled == s.polled + [Held(s)] && s.lastPolled < Held(s).number == r.lastPolled)
  {
    hide Process, Image;
  }

  lemma ExecuteUnfold(s: System, es: seq<Event>)
    ensures Execute(s, es) == if es == [] then s else Step(Execute(s, es[..|es| - 1]), es[|es| - 1])
  {
  }

  /**
   Polled numbers increase in every interleaving, whatever the handle holds when it is started, and all
   are above the last number polled in an earlier session.
   */
  lemma {:induction false} PollIncreasing(s: System, es: seq<Event>)
    requires s.polled == []
    ensures var r := Execute(s, es);
      && Increasing(r.polled) && s.lastPolled <= r.lastPolled
      && (if r.polled == [] then r.lastPolled == s.lastPolled
          else s.lastPolled < r.polled[0].number && r.lastPolled == r.polled[|r.polled| - 1].number)
  {
    hide Execute, Step, Held, Increasing;
    ExecuteUnfold(s, es);
    if es == [] {
      assert Increasing([]) by { NothingIncreases(); }
    } else {
      var before := Execute(s, es[..|es| - 1]);
      PollIncreasing(s, es[..|es| - 1]);
      StepPolled(before, es[|es| - 1]);
      if Execute(s, es).polled != before.polled {
        IncreasingPush(before.polled, Held(before));
      }
    }
  }

  /** Frame number 0 is never polled, whatever the handle holds when it is started. */
  lemma ZeroNeverPolled(s: System, es: seq<Event>)
    requires s.polled == []
    ensures forall i :: 0 <= i < |Execute(s, es).polled| ==> Execute(s, es).polled[i].number != 0
  {
    PollIncreasing(s, es);
    var ds := Execute(s, es).polled;
    forall i | 0 <= i < |ds| ensures ds[i].number != 0 {
      assert i > 0 ==> ds[0].number < ds[i].number;
    }
  }

  /** What polling keeps in a session from `s`: only frames of the session are polled, and until one is published the old one is held. */
  ghost predicate PolledTrue(s: System, r: System) {
    && Numbered(r.stream) && r.mjpeg == s.mjpeg && s.lastPolled <= r.lastPolled
    && (r.stream.published == [] ==> r.stream.held == s.stream.held)
    && AsPublished(r.polled, r.mjpeg, r.stream.published)
  }

  lemma StepPolledTrue(s: System, r: System, e: Event)
    requires PolledTrue(s, r) && s.stream.held.number <= s.lastPolled && |Step(r, e).stream.published| <= TWO_32
    ensures PolledTrue(s, Step(r, e))
  {
    match e
    case Arrives(p) =>
      ProcessNumbered(r.stream, p);
      HeldKept(r.stream, p);
      MorePublished(r.polled, r.mjpeg, r.stream.published, Process(r.stream, p).published);
      hide AsPublished, Numbered, Process;
    case Poll =>
      if r.lastPolled < r.stream.held.number {
        var n := |r.stream.published|;
        assert n > 0 && r.stream.held.number == (n - 1) % TWO_32 == n - 1;
        hide Numbered, Image;
        assert (r.polled + [Held(r)])[|r.polled|] == Held(r);
      }
    case _ =>
  }

  lemma {:induction false} RunPolledTrue(s: System, es: seq<Event>)
    requires Started(s) && s.stream.held.number <= s.lastPolled && |Execute(s, es).stream.published| <= TWO_32
    ensures PolledTrue(s, Execute(s, es))
  {
    if es != [] {
      assert Numbered(s.stream);
      ExecuteGrows(s, es);
      RunPolledTrue(s, es[..|es| - 1]);
      StepPolledTrue(s, Execute(s, es[..|es| - 1]), es[|es| - 1]);
    }
  }

  /**
   The poller gets nothing but frames of its session, under their numbers, in all interleavings exactly
   when the number held at the start is not above the last one polled.
   */
  lemma PolledAsPublishedIff(s: System)
    requires Started(s)
    ensures (forall es :: |Execute(s, es).stream.published| <= TWO_32 ==>
              AsPublished(Execute(s, es).polled, s.mjpeg, Execute(s, es).stream.published))
      <==> s.stream.held.number <= s.lastPolled
  {
    if s.stream.held.number <= s.lastPolled {
      forall es | |Execute(s, es).stream.published| <= TWO_32
        ensures AsPublished(Execute(s, es).polled, s.mjpeg, Execute(s, es).stream.published)
      {
        RunPolledTrue(s, es);
      }
    } else {
      var r := Execute(s, [Poll]);
      OneEvent(s, Poll);
      assert |r.polled| == 1 && r.stream.published == [];
      NonePublished(r.polled, s.mjpeg);
    }
  }

  /**
   Delivery to the poller: when the number held at the start is not above the last one polled, a look at the
   handle leaves the newest frame as the last one polled exactly when its number is above that one.
   */
  lemma NewestPolledIff(s: System, es: seq<Event>)
    requires Started(s) && s.stream.held.number <= s.lastPolled
    requires 1 <= |Execute(s, es).stream.published| <= TWO_32
    ensures var q, n := Execute(s, es + [Poll]), |Execute(s, es).stream.published|;
      (q.polled != [] && q.polled[|q.polled| - 1] == Delivered(n - 1, Image(s.mjpeg, Execute(s, es).stream.published[n - 1])))
      <==> s.lastPolled < n - 1
  {
    hide *;
    StartedPolls(s);
    RunPolledTrue(s, es);
    PollIncreasing(s, es);
    OneMoreEvent(s, es, Poll);
    LookPollsNewest(s, Execute(s, es));
  }

  lemma StartedPolls(s: System)
    requires Started(s)
    ensures s.polled == []
  {
  }

  lemma LookPollsNewest(s: System, r: System)
    requires PolledTrue(s, r) && Increasing(r.polled) && 1 <= |r.stream.published| <= TWO_32
    requires if r.polled == [] then r.lastPolled == s.lastPolled
             else s.lastPolled < r.polled[0].number && r.lastPolled == r.polled[|r.polled| - 1].number
    ensures var q, n := Step(r, Poll), |r.stream.published|;
      (q.polled != [] && q.polled[|q.polled| - 1] == Delivered(n - 1, Image(s.mjpeg, r.stream.published[n - 1])))
      <==> s.lastPolled < n - 1
  {
    hide Image;
    var n := |r.stream.published|;
    assert r.stream.held.number == (n - 1) % TWO_32 == n - 1;
    if r.polled != [] {
      assert r.polled[0].number <= r.polled[|r.polled| - 1].number;
    }
  }

  /** Two frames that nobody polls, a stop and a restart, on a fresh handle: the poller gets frame number 1 of the old session. */
  lemma OldFramePolled() returns (s: System, es: seq<Event>)
    ensures s == System(false, true, Fresh(), 0, 0, [], []) && Started(s)
    ensures var r := Execute(s, es);
      && !r.running && r.polled == []
      && var q := Execute(StartedAgain(r), [Poll]);
         q.stream.published == [] && |q.polled| == 1 && q.polled[0].number == 1
  {
    s, es := TwoFrames();
    OneEvent(StartedAgain(Execute(s, es)), Poll);
  }

  // ----- the frame that is handed out

  /** `strmh->frame`: `data` is the allocation, of which the first `dataBytes` bytes are in use. */
  class UserFrame {
    var data: array<Byte>
    var dataBytes: nat
    var sequence: nat

    ghost predicate Valid()
      reads this
    {
      dataBytes <= data.Length
    }

    constructor ()
      ensures Valid() && fresh(data) && dataBytes == 0
    {
      data, dataBytes, sequence := new Byte[0], 0, 0;
    }

    /** realloc; a grown frame has room for `n` bytes. */
    method Reserve(n: nat)
      requires Valid()
      modifies this`data
      ensures Valid() && n <= data.Length
      ensures data == old(data) || fresh(data)
    {
      if dataBytes < n {
        var grown := new Byte[n];
        forall i | 0 <= i < dataBytes {
          grown[i] := data[i];
        }
        data := grown;
      }
    }

    /** The end of `_uvc_populate_frame`: completes the end marker in place. */
    method CompleteMarker()
      requires dataBytes + 2 <= data.Length
      modifies this`dataBytes, data
      ensures Valid() && data[..dataBytes] == Repair(old(data[..dataBytes]))
    {
      ghost var held := data[..dataBytes];
      if dataBytes >= 2 {
        var fp := dataBytes - 2;
        if data[fp] == 0xff && data[fp + 1] == 0xd9 {
        } else if data[fp + 1] == 0xff {
          data[fp + 2] := 0xd9;
          dataBytes := dataBytes + 1;
          assert data[..dataBytes] == held + [0xd9];
        } else if data[fp + 1] != 0xd9 {
          data[fp + 2] := 0xff;
          data[fp + 3] := 0xd9;
          dataBytes := dataBytes + 2;
          assert data[..dataBytes] == held + [0xff, 0xd9];
        }
      }
    }

    /** `_uvc_populate_frame`: copies the held bytes and, for MJPEG, completes the end marker. */
    method Populate(held: array<Byte>, n: nat, number: nat, mjpeg: bool)
      requires Valid() && n <= held.Length && held != data
      modifies this, data
      ensures Valid() && (data == old(data) || fresh(data)) && sequence == number
      ensures data[..dataBytes] == if mjpeg then Repair(old(held[..n])) else old(held[..n])
    {
      hide Repair;
      sequence := number;
      Reserve(if mjpeg then n + 2 else n);
      dataBytes := n;
      CopyBytes(data, 0, held, 0, n);
      assert data[..n] == data[0..n] == held[0..n] == held[..n];
      if mjpeg {
        CompleteMarker();
      }
    }
  }

  /** The handle with its listeners; each method is one step under `cb_mutex`. */
  class Receiver {
    const handle: StreamHandle
    const frame: UserFrame
    const mjpeg: bool
    var running: bool
    var lastSeq: nat
    var lastPolledSeq: nat
    ghost var system: System

    ghost predicate Valid()
      reads this, handle, handle.outbuf, handle.holdbuf, frame
    {
      && handle.Valid() && frame.Valid()
      && frame.data != handle.outbuf && frame.data != handle.holdbuf
      && system.mjpeg == mjpeg && system.running == running && system.stream == handle.model
      && system.lastSeq == lastSeq && system.lastPolled == lastPolledSeq
    }

    /** A fresh handle, started. */
    constructor (isight: bool, mjpeg: bool)
      ensures Valid() && Started(system) && system.stream.held.number == 0
    {
      handle := new StreamHandle(isight);
      frame := new UserFrame();
      this.mjpeg := mjpeg;
      running, lastSeq, lastPolledSeq := true, 0, 0;
      system := System(mjpeg, true, Fresh(), 0, 0, [], []);
    }

    /** One packet of a completed transfer. */
    method Arrive(payload: array<Byte>, off: nat, len: nat, ghost mem: seq<Byte>)
      requires Valid() && payload != handle.outbuf && payload != handle.holdbuf
      requires off <= payload.Length && mem == payload[off..] && len <= |mem|
      requires FieldsReadable(handle.isight, mem, len) && Fits(system.stream, Parse(handle.isight, mem, len))
      modifies this, handle, handle.outbuf, handle.holdbuf
      ensures Valid() && system == Step(old(system), Arrives(Parse(handle.isight, mem, len)))
    {
      if running {
        handle.ProcessPayload(payload, off, len, mem);
        system := Step(system, Arrives(Parse(handle.isight, mem, len)));
      }
    }

    /** The locked part of the loop in `_uvc_user_caller`; the callback is due when `called`. */
    method TakeTurn() returns (called: bool)
      requires Valid()
      modifies this, frame, frame.data
      ensures Valid() && system == Step(old(system), CallerTurn)
      ensures called <==> system.called != old(system.called)
      ensures called ==> system.called[|system.called| - 1] == Delivered(frame.sequence, frame.data[..frame.dataBytes])
    {
      called := running && lastSeq != handle.holdSeq;
      if called {
        lastSeq := handle.holdSeq;
        frame.Populate(handle.holdbuf, handle.holdBytes, handle.holdSeq, mjpeg);
        system := Step(system, CallerTurn);
      }
    }

    /** A look at the held frame in `uvc_stream_get_frame`, which waits and looks again at most once. */
    method TryGetFrame() returns (got: bool)
      requires Valid()
      modifies this, frame, frame.data
      ensures Valid() && system == Step(old(system), Poll)
      ensures got <==> system.polled != old(system.polled)
      ensures got ==> system.polled[|system.polled| - 1] == Delivered(frame.sequence, frame.data[..frame.dataBytes])
    {
      got := lastPolledSeq < handle.holdSeq;
      if got {
        frame.Populate(handle.holdbuf, handle.holdBytes, handle.holdSeq, mjpeg);
        lastPolledSeq := handle.holdSeq;
        system := Step(system, Poll);
      }
    }

    /** `uvc_stream_start` on a handle that has been stopped. */
    method Restart()
      requires Valid() && !running
      modifies this, handle
      ensures Valid() && system == StartedAgain(old(system)) && Started(system)
    {
      handle.Restart();
      running, lastSeq := true, 0;
      system := System(mjpeg, true, Restarted(system.stream), 0, lastPolledSeq, [], []);
    }

    method ClearRunning()
      requires Valid()
      modifies this
      ensures Valid() && system == Step(old(system), StopRunning)
    {
      running := false;
      system := system.(running := false);
    }
  }
}
