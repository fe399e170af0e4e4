/**
 How USB payloads are glued into frames: `_uvc_process_payload` and `_uvc_swap_buffers`.

 The value-level machine (`Parse`, `Process`, `Run`) carries the history of published frames; the
 class `StreamHandle` works on two real buffers and is proved to follow it.
 */
module PayloadStream {
  import opened Bytes

  // ----- payload headers (section 2.4.3.3 of the USB Device Class Definition for Video Devices 1.5)

  const ISIGHT_TAG: seq<Byte> := [0x11, 0x22, 0x33, 0x44, 0xde, 0xad, 0xbe, 0xef, 0xde, 0xad, 0xfa, 0xce]

  function Bit(b: Byte, weight: int): bool
    requires weight > 0
  {
    (b as int) / weight % 2 == 1
  }

  datatype Head = Head(fid: bool, eof: bool, pts: Option<nat>, scr: Option<nat>)

  /** What a payload says: nothing at all, or image data with or without a header. */
  datatype Payload = Skipped | Accepted(head: Option<Head>, data: seq<Byte>)

  predicate TagAt(mem: seq<Byte>, len: nat, at: nat)
    requires len <= |mem|
  {
    at + 12 <= len && mem[at..at + 12] == ISIGHT_TAG
  }

  /** An iSight packet without the iSight tag is image data throughout. */
  predicate IsHeaderless(isight: bool, mem: seq<Byte>, len: nat)
    requires len <= |mem|
  {
    isight && !TagAt(mem, len, 2) && !TagAt(mem, len, 3)
  }

  /** How many bytes a header's flags say it has, as far as they are read. */
  function HeadLength(mem: seq<Byte>): (n: nat)
  {
    if |mem| < 2 then 2 else 2 + (if Bit(mem[1], 4) then 4 else 0) + (if Bit(mem[1], 8) then 4 else 0)
  }

  function HeadOf(mem: seq<Byte>): (h: Head)
    requires HeadLength(mem) <= |mem|
  {
    var pts := if Bit(mem[1], 4) then Some(FromLe32(mem[2..6])) else None;
    var at := if pts.Some? then 6 else 2;
    var scr := if Bit(mem[1], 8) then Some(FromLe32(mem[at..at + 4])) else None;
    Head(Bit(mem[1], 1), Bit(mem[1], 2), pts, scr)
  }

  function HeaderLen(isight: bool, mem: seq<Byte>, len: nat): (n: nat)
    requires 0 < len <= |mem|
  {
    if IsHeaderless(isight, mem, len) then 0 else mem[0]
  }

  /** An iSight packet with a header has no data. */
  function DataLen(isight: bool, mem: seq<Byte>, len: nat): (n: nat)
    requires 0 < len <= |mem| && HeaderLen(isight, mem, len) <= len
    ensures HeaderLen(isight, mem, len) + n <= len
  {
    if isight && !IsHeaderless(isight, mem, len) then 0 else len - HeaderLen(isight, mem, len)
  }

  /** The header fields that the flags announce lie inside the memory behind the payload. */
  predicate FieldsReadable(isight: bool, mem: seq<Byte>, len: nat)
    requires len <= |mem|
  {
    len == 0 || (var h := HeaderLen(isight, mem, len); h < 2 || h > len || Bit(mem[1], 0x40)) || HeadLength(mem) <= |mem|
  }

  /** The payload in the first `len` bytes of `mem`. */
  function Parse(isight: bool, mem: seq<Byte>, len: nat): (p: Payload)
    requires len <= |mem| && FieldsReadable(isight, mem, len)
  {
    if len == 0 then Skipped
    else
      var h := HeaderLen(isight, mem, len);
      if h > len then Skipped
      else
        var data := mem[h..h + DataLen(isight, mem, len)];
        if h < 2 then Accepted(None, data)
        else if Bit(mem[1], 0x40) then Skipped
        else Accepted(Some(HeadOf(mem)), data)
  }

  // ----- serialised headers are parsed back

  function Num(b: bool): (n: nat)
    ensures n <= 1
  {
    if b then 1 else 0
  }

  /** Bits of a header's second byte that are not read: presentation, still image, end of header. */
  datatype Unread = Unread(reserved: bool, still: bool, eoh: bool, sof: seq<Byte>)

  /** bmHeaderInfo, from bit 0 up: FID, EOF, PTS, SCR, RES, STI, ERR, EOH. */
  function InfoByte(h: Head, u: Unread, err: bool): (b: Byte) {
    Num(h.fid) + 2 * Num(h.eof) + 4 * Num(h.pts.Some?) + 8 * Num(h.scr.Some?) +
    16 * Num(u.reserved) + 32 * Num(u.still) + 64 * Num(err) + 128 * Num(u.eoh)
  }

  /** The time stamps: four bytes of PTS, and four bytes of SCR with two of the SOF counter behind them. */
  function StampBytes(h: Head, u: Unread): (b: seq<Byte>) {
    (if h.pts.Some? then Le32(h.pts.value) else []) + (if h.scr.Some? then Le32(h.scr.value) + u.sof else [])
  }

  function HeaderBytes(h: Head, u: Unread, err: bool): (b: seq<Byte>)
    requires |u.sof| == 2
  {
    [2 + |StampBytes(h, u)|, InfoByte(h, u, err)] + StampBytes(h, u)
  }

  predicate HeadFits(h: Head) {
    (h.pts.Some? ==> h.pts.value < TWO_32) && (h.scr.Some? ==> h.scr.value < TWO_32)
  }

  lemma InfoBits(h: Head, u: Unread, err: bool)
    ensures var b := InfoByte(h, u, err);
      && Bit(b, 1) == h.fid && Bit(b, 2) == h.eof && Bit(b, 4) == h.pts.Some? && Bit(b, 8) == h.scr.Some?
      && Bit(b, 0x40) == err
  {
    hide *;
    InfoIs(h, u, err);
    SumBits(InfoByte(h, u, err), Num(h.fid), Num(h.eof), Num(h.pts.Some?), Num(h.scr.Some?),
            Num(u.reserved) + 2 * Num(u.still), Num(err), Num(u.eoh));
    NumIs(h.fid);
    NumIs(h.eof);
    NumIs(h.pts.Some?);
    NumIs(h.scr.Some?);
    NumIs(err);
  }

  lemma InfoIs(h: Head, u: Unread, err: bool)
    ensures InfoByte(h, u, err) == Num(h.fid) + 2 * Num(h.eof) + 4 * Num(h.pts.Some?) + 8 * Num(h.scr.Some?) +
      16 * (Num(u.reserved) + 2 * Num(u.still)) + 64 * Num(err) + 128 * Num(u.eoh)
  {
    hide Num;
  }

  lemma NumIs(b: bool)
    ensures Num(b) == 1 <==> b
  {
  }

  lemma SumBits(b: Byte, fid: nat, eof: nat, pts: nat, scr: nat, skipped: nat, err: nat, eoh: nat)
    requires fid <= 1 && eof <= 1 && pts <= 1 && scr <= 1 && skipped <= 3 && err <= 1 && eoh <= 1
    requires b == fid + 2 * eof + 4 * pts + 8 * scr + 16 * skipped + 64 * err + 128 * eoh
    ensures Bit(b, 1) <==> fid == 1
    ensures Bit(b, 2) <==> eof == 1
    ensures Bit(b, 4) <==> pts == 1
    ensures Bit(b, 8) <==> scr == 1
    ensures Bit(b, 0x40) <==> err == 1
  {
    hide Bit;
    BitIs(b, 0, 1, fid, eof + 2 * pts + 4 * scr + 8 * skipped + 32 * err + 64 * eoh);
    BitIs(b, fid, 2, eof, pts + 2 * scr + 4 * skipped + 16 * err + 32 * eoh);
    BitIs(b, fid + 2 * eof, 4, pts, scr + 2 * skipped + 8 * err + 16 * eoh);
    BitIs(b, fid + 2 * eof + 4 * pts, 8, scr, skipped + 4 * err + 8 * eoh);
    BitIs(b, fid + 2 * eof + 4 * pts + 8 * scr + 16 * skipped, 64, err, eoh);
  }

  /** The bit of weight `w`, between what is below it and what is above. */
  lemma BitIs(b: Byte, low: nat, w: nat, bit: nat, above: nat)
    requires (w == 1 || w == 2 || w == 4 || w == 8 || w == 64) && low < w && bit <= 1 && b == low + w * (bit + 2 * above)
    ensures Bit(b, w) <==> bit == 1
  {
    assert (b as int) / w == bit + 2 * above;
  }

  lemma HeadBack(h: Head, u: Unread, rest: seq<Byte>)
    requires HeadFits(h) && |u.sof| == 2
    ensures var mem := HeaderBytes(h, u, false) + rest;
      HeadLength(mem) <= |mem| && HeadOf(mem) == h
  {
    hide Bit, InfoByte, Num, Le32, FromLe32;
    var mem := HeaderBytes(h, u, false) + rest;
    InfoBits(h, u, false);
    var head: seq<Byte> := [2 + |StampBytes(h, u)|, InfoByte(h, u, false)];
    var pts: seq<Byte> := if h.pts.Some? then Le32(h.pts.value) else [];
    var scr: seq<Byte> := if h.scr.Some? then Le32(h.scr.value) + u.sof else [];
    assert mem == head + pts + (scr + rest);
    assert mem[1] == head[1];
    if h.pts.Some? {
      StampBack(head, h.pts.value, scr + rest, mem);
    }
    if h.scr.Some? {
      assert mem == (head + pts) + Le32(h.scr.value) + (u.sof + rest);
      StampBack(head + pts, h.scr.value, u.sof + rest, mem);
    }
  }

  lemma StampBack(front: seq<Byte>, v: nat, back: seq<Byte>, mem: seq<Byte>)
    requires v < TWO_32 && mem == front + Le32(v) + back
    ensures FromLe32(mem[|front|..|front| + 4]) == v
  {
    Le32RoundTrip(v);
    assert mem[|front|..|front| + 4] == Le32(v);
  }

  /** A payload with a header, data behind it, and anything behind the payload: header and data are read back. */
  lemma PayloadBack(h: Head, u: Unread, data: seq<Byte>, behind: seq<Byte>)
    requires HeadFits(h) && |u.sof| == 2
    ensures var b := HeaderBytes(h, u, false) + data;
      FieldsReadable(false, b + behind, |b|) && Parse(false, b + behind, |b|) == Accepted(Some(h), data)
  {
    var b := HeaderBytes(h, u, false) + data;
    var mem, n := b + behind, |HeaderBytes(h, u, false)|;
    assert mem == HeaderBytes(h, u, false) + (data + behind);
    HeadBack(h, u, data + behind);
    InfoBits(h, u, false);
    hide Bit, InfoByte, HeadOf, HeadLength;
    assert mem[0] == n && mem[1] == InfoByte(h, u, false);
    assert mem[n..|b|] == data;
  }

  /** The same payload with the error bit set says nothing. */
  lemma BadHeaderSkipped(h: Head, u: Unread, data: seq<Byte>, behind: seq<Byte>)
    requires |u.sof| == 2
    ensures var b := HeaderBytes(h, u, true) + data;
      FieldsReadable(false, b + behind, |b|) && Parse(false, b + behind, |b|) == Skipped
  {
    var b := HeaderBytes(h, u, true) + data;
    InfoBits(h, u, true);
    hide Bit, InfoByte;
    assert (b + behind)[0] == |HeaderBytes(h, u, true)| && (b + behind)[1] == InfoByte(h, u, true);
  }

  /** A length byte below 2 means no header: the rest, with a 0 byte itself, is data.  One beyond the payload means nothing at all. */
  lemma ShortAndBogusHeaders(length: Byte, data: seq<Byte>, behind: seq<Byte>)
    ensures var b := [length] + data;
      && (length == 0 ==> FieldsReadable(false, b + behind, |b|) && Parse(false, b + behind, |b|) == Accepted(None, b))
      && (length == 1 ==> FieldsReadable(false, b + behind, |b|) && Parse(false, b + behind, |b|) == Accepted(None, data))
      && (length > |b| ==> FieldsReadable(false, b + behind, |b|) && Parse(false, b + behind, |b|) == Skipped)
  {
    hide Bit, HeadOf, HeadLength;
    var b := [length] + data;
    var mem := b + behind;
    assert mem[0] == length && mem[0..|b|] == b && mem[1..|b|] == data;
  }

  /** An iSight packet with its tag at byte 2 or 3 is a header without data, whatever comes after the tag. */
  lemma ISightHeaderBack(length: Byte, h: Head, u: Unread, gap: seq<Byte>, more: seq<Byte>, behind: seq<Byte>)
    requires h.pts == h.scr == None && |gap| <= 1 && 2 <= length <= 14 + |gap| + |more|
    ensures var b := [length, InfoByte(h, u, false)] + gap + ISIGHT_TAG + more;
      FieldsReadable(true, b + behind, |b|) && Parse(true, b + behind, |b|) == Accepted(Some(h), [])
  {
    hide *;
    var b := [length, InfoByte(h, u, false)] + gap + ISIGHT_TAG + more;
    TagLength();
    InfoBits(h, u, false);
    TagIn([length, InfoByte(h, u, false)] + gap, more, behind);
    ISightParsed(b + behind, |b|, h);
  }

  lemma TagLength()
    ensures |ISIGHT_TAG| == 12
  {
  }

  lemma TagIn(front: seq<Byte>, more: seq<Byte>, behind: seq<Byte>)
    ensures var b := front + ISIGHT_TAG + more; TagAt(b + behind, |b|, |front|)
  {
    var b := front + ISIGHT_TAG + more;
    assert (b + behind)[|front|..|front| + 12] == ISIGHT_TAG;
  }

  lemma ISightParsed(mem: seq<Byte>, len: nat, h: Head)
    requires 2 <= len <= |mem| && (TagAt(mem, len, 2) || TagAt(mem, len, 3)) && 2 <= mem[0] <= len
    requires h.pts == h.scr == None && Bit(mem[1], 1) == h.fid && Bit(mem[1], 2) == h.eof
    requires !Bit(mem[1], 4) && !Bit(mem[1], 8) && !Bit(mem[1], 0x40)
    ensures FieldsReadable(true, mem, len) && Parse(true, mem, len) == Accepted(Some(h), [])
  {
    hide Bit, TagAt;
  }

  /** An iSight packet without the tag is data throughout. */
  lemma ISightDataBack(data: seq<Byte>)
    requires data != [] && !TagAt(data, |data|, 2) && !TagAt(data, |data|, 3)
    ensures FieldsReadable(true, data, |data|) && Parse(true, data, |data|) == Accepted(None, data)
  {
    hide TagAt;
    assert data[0..] == data;
  }

  // ----- the machine

  /** One payload's contribution to a frame; `bit` is the frame ID in force when it arrived. */
  datatype Part = Part(bit: bool, head: Option<Head>, data: seq<Byte>) {
    /** The payload says that the frame is complete.  Without data its end-of-frame bit is ignored. */
    predicate Ends() { data != [] && head.Some? && head.value.eof }
  }

  datatype Frame = Frame(parts: seq<Part>, number: nat, pts: nat, scr: nat)

  datatype Stream = Stream(fid: bool, number: nat, pts: nat, scr: nat, parts: seq<Part>, held: Frame, published: seq<Frame>)

  function Flat(parts: seq<Part>): (bytes: seq<Byte>)
  {
    if parts == [] then [] else Flat(parts[..|parts| - 1]) + parts[|parts| - 1].data
  }

  function FlatFrames(frames: seq<Frame>): (bytes: seq<Byte>)
  {
    if frames == [] then [] else FlatFrames(frames[..|frames| - 1]) + Flat(frames[|frames| - 1].parts)
  }

  /** Frame numbers have 32 bits. */
  function Next(number: nat): (n: nat) { (number + 1) % TWO_32 }

  /** `_uvc_swap_buffers`: the pending frame becomes the held one. */
  function Publish(s: Stream): (r: Stream) {
    var f := Frame(s.parts, s.number, s.pts, s.scr);
    s.(number := Next(s.number), pts := 0, scr := 0, parts := [], held := f, published := s.published + [f])
  }

  /** A flipped frame ID closes the frame that is pending, if it has any data. */
  function Flip(s: Stream, bit: bool): (r: Stream) {
    var s1 := if s.fid == bit then s else if Flat(s.parts) != [] then Publish(s) else s.(parts := []);
    s1.(fid := bit)
  }

  function TakeHead(s: Stream, h: Head): (r: Stream) {
    var s1 := Flip(s, h.fid);
    s1.(pts := if h.pts.Some? then h.pts.value else s1.pts,
        scr := if h.scr.Some? then h.scr.value else s1.scr)
  }

  /** The payload's data joins the pending frame; the end-of-frame bit counts only with data. */
  function TakeData(s: Stream, head: Option<Head>, data: seq<Byte>): (r: Stream) {
    var part := Part(s.fid, head, data);
    var s1 := s.(parts := s.parts + [part]);
    if part.Ends() then Publish(s1) else s1
  }

  function Process(s: Stream, p: Payload): (r: Stream) {
    match p
    case Skipped => s
    case Accepted(head, data) =>
      TakeData(if head.Some? then TakeHead(s, head.value) else s, head, data)
  }

  function Run(s: Stream, ps: seq<Payload>): (r: Stream) {
    if ps == [] then s else Process(Run(s, ps[..|ps| - 1]), ps[|ps| - 1])
  }

  /** The data of all accepted payloads, in order of arrival. */
  function DataOf(ps: seq<Payload>): (bytes: seq<Byte>) {
    if ps == [] then []
    else DataOf(ps[..|ps| - 1]) + (match ps[|ps| - 1] case Skipped => [] case Accepted(_, data) => data)
  }

  // ----- what every run keeps

  function Content(s: Stream): (bytes: seq<Byte>) { FlatFrames(s.published) + Flat(s.parts) }

  lemma FlatPush(parts: seq<Part>, p: Part)
    ensures Flat(parts + [p]) == Flat(parts) + p.data
  {
    assert (parts + [p])[..|parts|] == parts;
  }

  lemma PublishContent(s: Stream)
    ensures Content(Publish(s)) == Content(s)
  {
    var f := Frame(s.parts, s.number, s.pts, s.scr);
    assert (s.published + [f])[..|s.published|] == s.published;
  }

  lemma HeadContent(s: Stream, h: Head)
    ensures Content(TakeHead(s, h)) == Content(s)
  {
    PublishContent(s);
  }

  lemma DataContent(s: Stream, head: Option<Head>, data: seq<Byte>)
    ensures Content(TakeData(s, head, data)) == Content(s) + data
  {
    hide Publish, Flat, FlatFrames;
    var part := Part(s.fid, head, data);
    FlatPush(s.parts, part);
    var s1 := s.(parts := s.parts + [part]);
    assert Content(s1) == Content(s) + data;
    PublishContent(s1);
  }

  lemma ProcessContent(s: Stream, p: Payload)
    ensures Content(Process(s, p)) == Content(s) + DataOf([p])
  {
    hide Content, TakeHead, TakeData;
    assert [p][..0] == [];
    if p.Accepted? {
      if p.head.Some? {
        HeadContent(s, p.head.value);
      }
      DataContent(if p.head.Some? then TakeHead(s, p.head.value) else s, p.head, p.data);
    }
  }

  lemma NoPayloads(s: Stream)
    ensures Run(s, []) == s && DataOf([]) == []
  {
  }

  lemma DataPush(ps: seq<Payload>, p: Payload)
    ensures DataOf(ps + [p]) == DataOf(ps) + DataOf([p])
  {
    assert (ps + [p])[..|ps|] == ps;
    assert [p][..0] == [] && DataOf([]) == [];
  }

  lemma RunPush(s: Stream, ps: seq<Payload>, p: Payload)
    ensures Run(s, ps + [p]) == Process(Run(s, ps), p)
  {
    hide Process;
    assert (ps + [p])[..|ps|] == ps;
  }

  /** Conservation: nothing is lost, added or reordered between the payloads and the frames. */
  lemma {:induction false} RunContent(s: Stream, ps: seq<Payload>)
    ensures Content(Run(s, ps)) == Content(s) + DataOf(ps)
  {
    hide *;
    if ps == [] {
      NoPayloads(s);
    } else {
      var front, p := ps[..|ps| - 1], ps[|ps| - 1];
      assert ps == front + [p];
      RunContent(s, front);
      ProcessContent(Run(s, front), p);
      RunPush(s, front, p);
      DataPush(front, p);
    }
  }

  /** All parts carry the frame ID `bit`, those with a header in the header itself. */
  predicate OneFrameId(parts: seq<Part>, bit: bool) {
    forall i :: 0 <= i < |parts| ==> parts[i].bit == bit && (parts[i].head.Some? ==> parts[i].head.value.fid == bit)
  }

  /** A well-formed frame: it has data, its payloads agree on the frame ID, and none but the last ends it. */
  predicate GoodFrame(f: Frame) {
    && Flat(f.parts) != []
    && OneFrameId(f.parts, f.parts[|f.parts| - 1].bit)
    && forall i :: 0 <= i < |f.parts| - 1 ==> !f.parts[i].Ends()
  }

  /** Frames are numbered from 0 without gaps (up to 32 bits), and the last one published is the one held. */
  predicate Numbered(s: Stream) {
    && (forall i :: 0 <= i < |s.published| ==> s.published[i].number == i % TWO_32)
    && s.number == |s.published| % TWO_32
    && (s.published != [] ==> s.held == s.published[|s.published| - 1])
  }

  predicate GoodStream(s: Stream) {
    && Numbered(s)
    && OneFrameId(s.parts, s.fid)
    && (forall i :: 0 <= i < |s.parts| ==> !s.parts[i].Ends())
    && (forall i :: 0 <= i < |s.published| ==> GoodFrame(s.published[i]))
  }

  lemma PublishNumbered(s: Stream)
    requires Numbered(s)
    ensures Numbered(Publish(s)) && s.published <= Publish(s).published
  {
    hide Next;
    NextWraps(|s.published|);
  }

  lemma NextWraps(n: nat)
    ensures Next(n % TWO_32) == (n + 1) % TWO_32
  {
  }

  lemma ProcessNumbered(s: Stream, p: Payload)
    requires Numbered(s)
    ensures Numbered(Process(s, p)) && s.published <= Process(s, p).published
  {
    hide Publish, Next, Flat;
    if p.Accepted? {
      PublishNumbered(s);
      var s1 := if p.head.Some? then TakeHead(s, p.head.value) else s;
      var part := Part(s1.fid, p.head, p.data);
      PublishNumbered(s1.(parts := s1.parts + [part]));
    }
  }

  /** The numbering does not depend on what is pending. */
  lemma NumberedApart(a: Stream, b: Stream)
    requires Numbered(a) && b.published == a.published && b.number == a.number && b.held == a.held
    ensures Numbered(b)
  {
  }

  lemma PublishGood(s: Stream, front: Stream, part: Part)
    requires GoodStream(front) && part.bit == front.fid && (part.head.Some? ==> part.head.value.fid == front.fid)
    requires s == front.(parts := front.parts + [part]) && Flat(s.parts) != []
    ensures GoodStream(Publish(s))
  {
    hide Flat, Numbered, Next;
    NumberedApart(front, s);
    PublishNumbered(s);
  }

  lemma HeadGood(s: Stream, h: Head)
    requires GoodStream(s)
    ensures GoodStream(TakeHead(s, h)) && s.published <= TakeHead(s, h).published
  {
    if Flat(s.parts) != [] {
      var k := |s.parts| - 1;
      assert s.parts == s.parts[..k] + [s.parts[k]];
      PublishGood(s, s.(parts := s.parts[..k]), s.parts[k]);
    }
  }

  lemma DataGood(s: Stream, head: Option<Head>, data: seq<Byte>)
    requires GoodStream(s) && (head.Some? ==> s.fid == head.value.fid)
    ensures GoodStream(TakeData(s, head, data)) && s.published <= TakeData(s, head, data).published
  {
    hide Flat, Numbered, Next;
    var part := Part(s.fid, head, data);
    FlatPush(s.parts, part);
    var s1 := s.(parts := s.parts + [part]);
    NumberedApart(s, s1);
    if part.Ends() {
      PublishGood(s1, s, part);
    } else {
      hide GoodFrame;
      assert GoodStream(s1);
    }
  }

  lemma ProcessGood(s: Stream, p: Payload)
    requires GoodStream(s)
    ensures GoodStream(Process(s, p)) && s.published <= Process(s, p).published
  {
    if p.Accepted? {
      if p.head.Some? {
        HeadGood(s, p.head.value);
      }
      hide GoodStream, TakeData;
      DataGood(if p.head.Some? then TakeHead(s, p.head.value) else s, p.head, p.data);
    }
  }

  /** Every published frame has data and one frame ID, and frames are numbered without gaps. */
  lemma {:induction false} RunGood(s: Stream, ps: seq<Payload>)
    requires GoodStream(s)
    ensures GoodStream(Run(s, ps))
    ensures s.published <= Run(s, ps).published
  {
    hide GoodStream, Process;
    if ps != [] {
      RunGood(s, ps[..|ps| - 1]);
      ProcessGood(Run(s, ps[..|ps| - 1]), ps[|ps| - 1]);
    }
  }

  /** A header closes the pending frame exactly when it flips the frame ID. */
  lemma HeadBoundary(s: Stream, h: Head)
    ensures var r, flips := TakeHead(s, h), h.fid != s.fid && Flat(s.parts) != [];
      && |r.published| == |s.published| + (if flips then 1 else 0)
      && (flips ==> r.published[|s.published|] == Frame(s.parts, s.number, s.pts, s.scr))
      && Flat(r.parts) == (if flips then [] else Flat(s.parts)) && r.fid == h.fid
      && r.pts == (if h.pts.Some? then h.pts.value else if flips then 0 else s.pts)
      && r.scr == (if h.scr.Some? then h.scr.value else if flips then 0 else s.scr)
  {
  }

  /** Data closes the frame it completes exactly when its header announces the end. */
  lemma DataBoundary(s: Stream, head: Option<Head>, data: seq<Byte>)
    ensures var r, ends := TakeData(s, head, data), data != [] && head.Some? && head.value.eof;
      && |r.published| == |s.published| + (if ends then 1 else 0)
      && (ends ==> var f := r.published[|s.published|];
            Flat(f.parts) == Flat(s.parts) + data && f.number == s.number && f.pts == s.pts && f.scr == s.scr)
      && r.pts == (if ends then 0 else s.pts) && r.scr == (if ends then 0 else s.scr)
      && Flat(r.parts) == (if ends then [] else Flat(s.parts) + data) && r.fid == s.fid
  {
    FlatPush(s.parts, Part(s.fid, head, data));
  }

  // ----- a handle that is started again

  /**
   The resets of `uvc_stream_start`.  The held frame and the pending data are not reset; a pending frame
   that has no data leaves no trace.
   */
  function Restarted(s: Stream): (r: Stream) {
    s.(fid := false, number := 0, pts := 0, scr := 0, parts := if Flat(s.parts) == [] then [] else s.parts, published := [])
  }

  ghost predicate GoodFrames(s: Stream) {
    forall i :: 0 <= i < |s.published| ==> GoodFrame(s.published[i])
  }

  /** A payload with frame ID 0 that ends its frame. */
  function LastOfFrame0(): (p: Payload) { Accepted(Some(Head(false, true, None, None)), [0]) }

  /** Data that was pending under frame ID 1 and the first data of the new session become one frame. */
  lemma RestartedMixes(s: Stream)
    requires GoodStream(s) && Flat(s.parts) != [] && s.fid
    ensures var r := Process(Restarted(s), LastOfFrame0());
      && |r.published| == 1 && Flat(r.published[0].parts) == Flat(s.parts) + [0] && !GoodFrame(r.published[0])
  {
    var part := Part(false, Some(Head(false, true, None, None)), [0]);
    FlatPush(s.parts, part);
    assert s.parts[0].bit;
    assert (s.parts + [part])[0] == s.parts[0];
  }

  /** After a restart every frame is well formed, for all payloads, exactly when no data is pending under frame ID 1. */
  lemma RestartedGood(s: Stream)
    requires GoodStream(s)
    ensures (forall ps :: GoodFrames(Run(Restarted(s), ps))) <==> Flat(s.parts) == [] || !s.fid
  {
    if Flat(s.parts) == [] || !s.fid {
      assert GoodStream(Restarted(s));
      forall ps ensures GoodFrames(Run(Restarted(s), ps)) {
        RunGood(Restarted(s), ps);
        hide Run;
      }
    } else {
      var ps := [LastOfFrame0()];
      assert (forall qs :: GoodFrames(Run(Restarted(s), qs))) ==> GoodFrames(Run(Restarted(s), ps));
      RestartedMixes(s);
      assert ps[..0] == [] && Run(Restarted(s), ps) == Process(Restarted(s), LastOfFrame0());
      assert !GoodFrames(Run(Restarted(s), ps));
    }
  }

  /** Such a restart: one payload of frame ID 1 arrives on a fresh handle before it. */
  lemma RestartMixesReached()
    ensures var s := Run(Fresh(), [Accepted(Some(Head(true, false, None, None)), [1])]);
      && GoodStream(s) && Flat(s.parts) == [1] && s.fid
      && !GoodFrames(Run(Restarted(s), [LastOfFrame0()]))
  {
    var p, f := Accepted(Some(Head(true, false, None, None)), [1]), Fresh();
    assert [p][..0] == [] && Run(f, [p]) == Process(f, p);
    RunGood(f, [p]);
    DataBoundary(TakeHead(f, p.head.value), p.head, p.data);
    RestartedMixes(Run(f, [p]));
    assert [LastOfFrame0()][..0] == [];
  }

  /** The frames of the new session hold its data and nothing else, for all payloads, exactly when no data is pending at the restart. */
  lemma RestartedContent(s: Stream)
    ensures (forall ps :: Content(Run(Restarted(s), ps)) == DataOf(ps)) <==> Flat(s.parts) == []
  {
    assert Content(Restarted(s)) == Flat(s.parts) by {
      assert Flat([]) == [] && FlatFrames([]) == [];
    }
    hide Content, Restarted, Run, DataOf, Flat;
    forall ps ensures Content(Run(Restarted(s), ps)) == Flat(s.parts) + DataOf(ps) {
      RunContent(Restarted(s), ps);
    }
    NoPayloads(Restarted(s));
    assert Content(Run(Restarted(s), [])) == Flat(s.parts) + DataOf([]);
    if Flat(s.parts) == [] {
      assert forall ps :: [] + DataOf(ps) == DataOf(ps);
    }
  }

  // ----- the buffers

  /** The receiving half of `uvc_stream_handle_t`.  `model` is the machine state it stands for. */
  class StreamHandle {
    const isight: bool
    var fid: bool
    var seqno: nat
    var holdSeq: nat
    var pts: nat
    var holdPts: nat
    var lastScr: nat
    var holdLastScr: nat
    var gotBytes: nat
    var holdBytes: nat
    var outbuf: array<Byte>
    var holdbuf: array<Byte>
    ghost var model: Stream

    ghost predicate Valid()
      reads this, outbuf, holdbuf
    {
      && outbuf != holdbuf
      && outbuf.Length == holdbuf.Length == XFER_BUF_SIZE
      && gotBytes <= outbuf.Length && outbuf[..gotBytes] == Flat(model.parts)
      && holdBytes <= holdbuf.Length && holdbuf[..holdBytes] == Flat(model.held.parts)
      && fid == model.fid && seqno == model.number && pts == model.pts && lastScr == model.scr
      && holdSeq == model.held.number && holdPts == model.held.pts && holdLastScr == model.held.scr
    }

    /** `uvc_stream_open_ctrl` and the resets of `uvc_stream_start`: a fresh handle. */
    constructor (isight: bool)
      ensures Valid() && fresh(outbuf) && fresh(holdbuf)
      ensures this.isight == isight && model == Fresh()
    {
      this.isight := isight;
      fid, seqno, pts, lastScr, gotBytes := false, 0, 0, 0, 0;
      holdSeq, holdPts, holdLastScr, holdBytes := 0, 0, 0, 0;
      outbuf, holdbuf := new Byte[XFER_BUF_SIZE], new Byte[XFER_BUF_SIZE];
      model := Fresh();
    }

    /** `uvc_stream_start` on a handle that is used again. */
    method Restart()
      requires Valid()
      modifies `fid, `seqno, `pts, `lastScr, `model
      ensures Valid() && model == Restarted(old(model))
    {
      assert Flat([]) == [];
      seqno := 0;
      fid := false;
      pts := 0;
      lastScr := 0;
      model := Restarted(model);
    }

    /** The time stamps and the number move on to the held frame. */
    method StampHold()
      modifies `holdLastScr, `holdPts, `holdSeq, `seqno, `lastScr, `pts
      ensures holdLastScr == old(lastScr) && holdPts == old(pts) && holdSeq == old(seqno)
      ensures seqno == Next(old(seqno)) && lastScr == 0 && pts == 0
    {
      holdLastScr := lastScr;
      holdPts := pts;
      holdSeq := seqno;
      seqno := (seqno + 1) % TWO_32;
      lastScr := 0;
      pts := 0;
    }

    method SwapBuffers()
      requires Valid()
      modifies this
      ensures Valid() && model == Publish(old(model))
      ensures outbuf == old(holdbuf) && holdbuf == old(outbuf)
    {
      assert Flat([]) == [];
      hide Flat, Next;
      StampHold();
      var tmp := holdbuf;
      holdBytes := gotBytes;
      holdbuf := outbuf;
      outbuf := tmp;
      gotBytes := 0;
      model := Publish(model);
    }

    method FlipFrame(bit: bool)
      requires Valid()
      modifies this
      ensures Valid() && model == Flip(old(model), bit)
      ensures {outbuf, holdbuf} == old({outbuf, holdbuf})
    {
      if fid != bit {
        if gotBytes != 0 {
          SwapBuffers();
        } else {
          model := model.(parts := []);
        }
      }
      fid := bit;
      model := model.(fid := bit);
    }

    /** The header part of `_uvc_process_payload`, for a header of at least two bytes without error bit. */
    method ReadHeader(payload: array<Byte>, off: nat, ghost mem: seq<Byte>)
      requires Valid() && payload != outbuf && payload != holdbuf
      requires off <= payload.Length && mem == payload[off..] && HeadLength(mem) <= |mem|
      modifies this
      ensures Valid() && model == TakeHead(old(model), HeadOf(mem))
      ensures {outbuf, holdbuf} == old({outbuf, holdbuf})
    {
      hide Flat, Flip, FromLe32, Bit;
      var info := payload[off + 1];
      var variableOffset := off + 2;
      ArraySlices(payload, off, mem);
      FlipFrame(Bit(info, 1));
      if Bit(info, 4) {
        pts := FromLe32(payload[variableOffset..variableOffset + 4]);
        variableOffset := variableOffset + 4;
      }
      if Bit(info, 8) {
        lastScr := FromLe32(payload[variableOffset..variableOffset + 4]);
      }
      model := model.(pts := pts, scr := lastScr);
    }

    /** The data part of `_uvc_process_payload`; the data must fit behind what is already there. */
    method AppendData(payload: array<Byte>, from: nat, n: nat, eof: bool, ghost head: Option<Head>)
      requires Valid() && payload != outbuf && payload != holdbuf
      requires from + n <= payload.Length && |Flat(model.parts)| + n <= XFER_BUF_SIZE
      requires eof <==> head.Some? && head.value.eof
      modifies this, outbuf
      ensures Valid() && model == TakeData(old(model), head, old(payload[from..from + n]))
      ensures {outbuf, holdbuf} == old({outbuf, holdbuf})
    {
      hide Flat, Publish;
      ghost var part := Part(model.fid, head, payload[from..from + n]);
      FlatPush(model.parts, part);
      if n > 0 {
        CopyBytes(outbuf, gotBytes, payload, from, n);
        assert outbuf[..gotBytes + n] == outbuf[..gotBytes] + outbuf[gotBytes..gotBytes + n];
        gotBytes := gotBytes + n;
      }
      model := model.(parts := model.parts + [part]);
      if n > 0 && eof {
        SwapBuffers();
      }
    }

    /** Where the header ends and how much data follows; `ok` unless the header is longer than the payload. */
    method Extent(payload: array<Byte>, off: nat, len: nat, ghost mem: seq<Byte>)
      returns (ok: bool, headerLen: nat, dataLen: nat)
      requires off <= payload.Length && mem == payload[off..] && 0 < len <= |mem|
      ensures headerLen == HeaderLen(isight, mem, len) && (ok <==> headerLen <= len)
      ensures ok ==> dataLen == DataLen(isight, mem, len)
    {
      assert 14 <= len ==> payload[off + 2..off + 14] == mem[2..14];
      assert 15 <= len ==> payload[off + 3..off + 15] == mem[3..15];
      if isight && (len < 14 || payload[off + 2..off + 14] != ISIGHT_TAG)
                && (len < 15 || payload[off + 3..off + 15] != ISIGHT_TAG) {
        return true, 0, len;
      }
      headerLen := payload[off];
      if headerLen > len {
        return false, headerLen, 0;
      }
      return true, headerLen, if isight then 0 else len - headerLen;
    }

    /** `_uvc_process_payload`. */
    method ProcessPayload(payload: array<Byte>, off: nat, len: nat, ghost mem: seq<Byte>)
      requires Valid() && payload != outbuf && payload != holdbuf
      requires off <= payload.Length && mem == payload[off..] && len <= |mem|
      requires FieldsReadable(isight, mem, len) && Fits(model, Parse(isight, mem, len))
      modifies this, outbuf, holdbuf
      ensures Valid() && model == Process(old(model), Parse(isight, mem, len))
      ensures {outbuf, holdbuf} == old({outbuf, holdbuf})
    {
      hide Flat, TakeHead, TakeData, HeaderLen, DataLen, HeadOf, HeadLength, Valid;
      if len == 0 {
        return;
      }
      var ok, headerLen, dataLen := Extent(payload, off, len, mem);
      if !ok {
        return;
      }
      SliceShift(payload[..], off, headerLen, headerLen + dataLen);
      if headerLen < 2 {
        AppendData(payload, headerLen + off, dataLen, false, None);
        return;
      }
      var info := payload[off + 1];
      if Bit(info, 0x40) {
        return;
      }
      ReadHeader(payload, off, mem);
      HeadEof(mem);
      AppendData(payload, off + headerLen, dataLen, Bit(info, 2), Some(HeadOf(mem)));
    }
  }

  // ----- the packets of one transfer

  /** `libusb_iso_packet_descriptor`; a bulk transfer is a single packet. */
  datatype Packet = Packet(ok: bool, off: nat, len: nat)

  ghost predicate Readable(isight: bool, buffer: seq<Byte>, packets: seq<Packet>) {
    forall i :: 0 <= i < |packets| ==>
      packets[i].off + packets[i].len <= |buffer| && FieldsReadable(isight, buffer[packets[i].off..], packets[i].len)
  }

  /** The payloads of the packets that are neither bad nor empty. */
  ghost function PayloadsOf(isight: bool, buffer: seq<Byte>, packets: seq<Packet>): (ps: seq<Payload>)
    requires Readable(isight, buffer, packets)
  {
    if packets == [] then []
    else
      var n := |packets| - 1;
      PayloadsOf(isight, buffer, packets[..n]) +
      if packets[n].ok && packets[n].len > 0 then [Parse(isight, buffer[packets[n].off..], packets[n].len)] else []
  }

  /** A good packet with data contributes its payload, a bad or empty one nothing, and packets do not mix. */
  lemma {:induction false} PacketsApart(isight: bool, buffer: seq<Byte>, ps: seq<Packet>, qs: seq<Packet>, p: Packet)
    requires Readable(isight, buffer, ps) && Readable(isight, buffer, qs) && Readable(isight, buffer, [p])
    ensures Readable(isight, buffer, ps + qs)
    ensures PayloadsOf(isight, buffer, ps + qs) == PayloadsOf(isight, buffer, ps) + PayloadsOf(isight, buffer, qs)
    ensures |PayloadsOf(isight, buffer, [p])| == if p.ok && p.len > 0 then 1 else 0
    ensures p.off + p.len <= |buffer| && FieldsReadable(isight, buffer[p.off..], p.len)
    ensures p.ok && p.len > 0 ==> PayloadsOf(isight, buffer, [p])[0] == Parse(isight, buffer[p.off..], p.len)
    decreases |qs|
  {
    hide FieldsReadable, Parse;
    assert [p][0] == p && [p][..0] == [];
    if qs == [] {
      assert ps + qs == ps;
    } else {
      var n := |qs| - 1;
      PacketsApart(isight, buffer, ps, qs[..n], p);
      assert (ps + qs)[..|ps + qs| - 1] == ps + qs[..n];
    }
  }

  /** Each payload in turn fits behind what is pending when it arrives. */
  predicate AllFit(s: Stream, ps: seq<Payload>) {
    ps != [] ==> AllFit(s, ps[..|ps| - 1]) && Fits(Run(s, ps[..|ps| - 1]), ps[|ps| - 1])
  }

  lemma {:induction false} AllFitPrefix(s: Stream, ps: seq<Payload>, n: nat)
    requires AllFit(s, ps) && n <= |ps|
    ensures AllFit(s, ps[..n]) && (n < |ps| ==> Fits(Run(s, ps[..n]), ps[n]))
  {
    hide Fits, Run;
    if n == |ps| {
      assert ps[..n] == ps;
    } else if n < |ps| - 1 {
      AllFitPrefix(s, ps[..|ps| - 1], n);
      assert ps[..|ps| - 1][..n] == ps[..n];
    }
  }

  lemma {:induction false} PayloadsPrefix(isight: bool, buffer: seq<Byte>, packets: seq<Packet>, n: nat)
    requires Readable(isight, buffer, packets) && n <= |packets|
    ensures Readable(isight, buffer, packets[..n])
    ensures PayloadsOf(isight, buffer, packets[..n]) <= PayloadsOf(isight, buffer, packets)
    decreases |packets|
  {
    hide FieldsReadable, Parse;
    if n < |packets| {
      PayloadsPrefix(isight, buffer, packets[..|packets| - 1], n);
      assert packets[..|packets| - 1][..n] == packets[..n];
    } else {
      assert packets[..n] == packets;
    }
  }

  /** What the next packet adds. */
  lemma NextPacket(s: Stream, isight: bool, buffer: seq<Byte>, packets: seq<Packet>, i: nat)
    requires Readable(isight, buffer, packets) && i < |packets| && AllFit(s, PayloadsOf(isight, buffer, packets))
    ensures Readable(isight, buffer, packets[..i]) && Readable(isight, buffer, packets[..i + 1])
    ensures packets[i].off + packets[i].len <= |buffer| && FieldsReadable(isight, buffer[packets[i].off..], packets[i].len)
    ensures var r, rest := Run(s, PayloadsOf(isight, buffer, packets[..i])), Run(s, PayloadsOf(isight, buffer, packets[..i + 1]));
      if packets[i].ok && packets[i].len > 0 then
        var p := Parse(isight, buffer[packets[i].off..], packets[i].len);
        Fits(r, p) && rest == Process(r, p)
      else rest == r
  {
    hide *;
    PayloadsPrefix(isight, buffer, packets, i + 1);
    PayloadsPrefix(isight, buffer, packets, i);
    assert packets[..i + 1][..i] == packets[..i];
    PacketReadable(isight, buffer, packets, i);
    var all, now, next := PayloadsOf(isight, buffer, packets), PayloadsOf(isight, buffer, packets[..i]), PayloadsOf(isight, buffer, packets[..i + 1]);
    PayloadsUnfold(isight, buffer, packets[..i + 1]);
    if packets[i].ok && packets[i].len > 0 {
      var p := Parse(isight, buffer[packets[i].off..], packets[i].len);
      AllFitPrefix(s, all, |now|);
      assert all[..|now|] == now && all[|now|] == next[|now|] == p;
      RunPush(s, now, p);
    } else {
      assert next == now + [] == now;
    }
  }

  lemma PacketReadable(isight: bool, buffer: seq<Byte>, packets: seq<Packet>, i: nat)
    requires Readable(isight, buffer, packets) && i < |packets|
    ensures packets[i].off + packets[i].len <= |buffer| && FieldsReadable(isight, buffer[packets[i].off..], packets[i].len)
  {
  }

  lemma PayloadsUnfold(isight: bool, buffer: seq<Byte>, packets: seq<Packet>)
    requires Readable(isight, buffer, packets) && packets != []
    ensures var n := |packets| - 1;
      && Readable(isight, buffer, packets[..n])
      && packets[n].off + packets[n].len <= |buffer| && FieldsReadable(isight, buffer[packets[n].off..], packets[n].len)
      && PayloadsOf(isight, buffer, packets) == PayloadsOf(isight, buffer, packets[..n]) +
         if packets[n].ok && packets[n].len > 0 then [Parse(isight, buffer[packets[n].off..], packets[n].len)] else []
  {
    hide FieldsReadable, Parse;
  }

  /** The COMPLETED branch of `_uvc_stream_callback`: all packets of a transfer, one after another. */
  method ReceivePackets(handle: StreamHandle, buffer: array<Byte>, packets: seq<Packet>)
    requires handle.Valid() && buffer != handle.outbuf && buffer != handle.holdbuf
    requires Readable(handle.isight, buffer[..], packets)
    requires AllFit(handle.model, PayloadsOf(handle.isight, buffer[..], packets))
    modifies handle, handle.outbuf, handle.holdbuf
    ensures handle.Valid() && {handle.outbuf, handle.holdbuf} == old({handle.outbuf, handle.holdbuf})
    ensures handle.model == Run(old(handle.model), PayloadsOf(handle.isight, buffer[..], packets))
  {
    hide *;
    ghost var s, b := handle.model, buffer[..];
    NoPackets(s, handle.isight, b);
    for i := 0 to |packets|
      invariant handle.Valid() && {handle.outbuf, handle.holdbuf} == old({handle.outbuf, handle.holdbuf})
      invariant buffer[..] == b && Readable(handle.isight, b, packets[..i])
      invariant handle.model == Run(s, PayloadsOf(handle.isight, b, packets[..i]))
    {
      NextPacket(s, handle.isight, b, packets, i);
      var pkt := packets[i];
      if pkt.ok && pkt.len > 0 {
        assert buffer[pkt.off..] == b[pkt.off..];
        handle.ProcessPayload(buffer, pkt.off, pkt.len, b[pkt.off..]);
      }
    }
    assert packets[..|packets|] == packets;
  }

  lemma NoPackets(s: Stream, isight: bool, buffer: seq<Byte>)
    ensures Readable(isight, buffer, []) && Run(s, PayloadsOf(isight, buffer, [])) == s
  {
  }

  lemma ArraySlices(a: array<Byte>, off: nat, mem: seq<Byte>)
    requires off <= a.Length && mem == a[off..]
    ensures |mem| >= 6 ==> mem[2..6] == a[off + 2..off + 6]
    ensures |mem| >= 10 ==> mem[6..10] == a[off + 6..off + 10]
    ensures |mem| >= 2 ==> mem[1] == a[off + 1]
  {
  }

  lemma SliceShift(b: seq<Byte>, off: nat, i: nat, j: nat)
    requires off <= |b| && i <= j <= |b| - off
    ensures b[off..][i..j] == b[off + i..off + j]
  {
  }

  lemma HeadEof(mem: seq<Byte>)
    requires HeadLength(mem) <= |mem|
    ensures HeadOf(mem).eof == Bit(mem[1], 2)
  {
  }

  /** The payload's data fits in the buffer, behind what it is added to. */
  predicate Fits(s: Stream, p: Payload) {
    p.Skipped? ||
    |Flat((if p.head.Some? then TakeHead(s, p.head.value) else s).parts)| + |p.data| <= XFER_BUF_SIZE
  }

  const XFER_BUF_SIZE: nat := 16 * 1024 * 1024

  function Fresh(): (s: Stream)
    ensures GoodStream(s) && Content(s) == []
  {
    Stream(false, 0, 0, 0, [], Frame([], 0, 0, 0), [])
  }
}
