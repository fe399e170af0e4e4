/**
 The VideoStreaming descriptor parser of device.c: a walk over length-prefixed blocks that builds a
 two-level tree of formats and frames (section 3.9.2 of the USB Video Class definition 1.5).
 */
module Descriptors {
  import opened Bytes

  const INPUT_HEADER: int := 0x01
  const FORMAT_UNCOMPRESSED: int := 0x04
  const FRAME_UNCOMPRESSED: int := 0x05
  const FORMAT_MJPEG: int := 0x06
  const FRAME_MJPEG: int := 0x07
  const FORMAT_FRAME_BASED: int := 0x10
  const FRAME_FRAME_BASED: int := 0x11

  datatype FrameDesc = FrameDesc(
    subtype: Byte, index: Byte, capabilities: Byte, width: nat, height: nat, minBitRate: nat, maxBitRate: nat,
    maxBufferSize: nat, defaultInterval: nat, intervalType: Byte, minInterval: nat, maxInterval: nat, intervalStep: nat,
    bytesPerLine: nat, intervals: Option<seq<nat>>)

  /** `guid` and `bpp` are shared with `fourccFormat` and `bmFlags` of the C unions. */
  datatype FormatDesc = FormatDesc(
    subtype: Byte, index: Byte, numFrames: Byte, guid: seq<Byte>, bpp: Byte, defaultFrame: Byte,
    aspectX: Byte, aspectY: Byte, interlace: Byte, copyProtect: Byte, variableSize: Byte, frames: seq<FrameDesc>)

  datatype Interface = Interface(endpoint: nat, terminalLink: nat, formats: seq<FormatDesc>)

  // ----- one block

  type Block = seq<Byte>

  function Dw(b: Block, at: nat): (v: nat)
    requires at + 4 <= |b|
  {
    FromLe32(b[at..at + 4])
  }

  function Sw(b: Block, at: nat): (v: nat)
    requires at + 2 <= |b|
  {
    (b[at] as int) + 0x100 * (b[at + 1] as int)
  }

  predicate IsFormat(b: Block) {
    |b| >= 3 && (b[2] == FORMAT_UNCOMPRESSED || b[2] == FORMAT_MJPEG || b[2] == FORMAT_FRAME_BASED)
  }

  predicate IsFrame(b: Block) {
    |b| >= 3 && (b[2] == FRAME_UNCOMPRESSED || b[2] == FRAME_MJPEG || b[2] == FRAME_FRAME_BASED)
  }

  /** Where a frame block keeps the number of its intervals. */
  function TypeAt(b: Block): (at: nat)
    requires IsFrame(b)
  {
    if b[2] == FRAME_FRAME_BASED then 21 else 25
  }

  /** The block has the bytes that its subtype needs. */
  predicate LongEnough(b: Block) {
    && 3 <= |b|
    && (b[2] == INPUT_HEADER ==> 9 <= |b|)
    && (b[2] == FORMAT_UNCOMPRESSED ==> 27 <= |b|)
    && (b[2] == FORMAT_MJPEG ==> 11 <= |b|)
    && (b[2] == FORMAT_FRAME_BASED ==> 28 <= |b|)
    && (IsFrame(b) ==> 26 <= |b| && (var n: int := b[TypeAt(b)]; 26 + 4 * (if n == 0 then 3 else n) <= |b|))
  }

  const MJPG_GUID: seq<Byte> := [0x4d, 0x4a, 0x50, 0x47, 0, 0, 0, 0, 0, 0, 0, 0, 0, 0, 0, 0]

  /** The three format parsers; what a parser does not set stays 0. */
  function FormatOf(b: Block): (f: FormatDesc)
    requires IsFormat(b) && LongEnough(b)
  {
    if b[2] == FORMAT_MJPEG then
      // bmFlags is stored first, bBitsPerPixel over it
      FormatDesc(b[2], b[3], 0, MJPG_GUID, b[5], b[6], b[7], b[8], b[9], b[10], 0, []).(bpp := 0)
    else if b[2] == FORMAT_UNCOMPRESSED then
      FormatDesc(b[2], b[3], 0, b[5..21], b[21], b[22], b[23], b[24], b[25], b[26], 0, [])
    else
      FormatDesc(b[2], b[3], b[4], b[5..21], b[21], b[22], b[23], b[24], b[25], b[26], b[27], [])
  }

  /** The flags of an MJPEG format come through exactly when there are none. */
  lemma FlagsKept(b: Block)
    requires IsFormat(b) && LongEnough(b) && b[2] == FORMAT_MJPEG
    ensures FormatOf(b).bpp == b[5] <==> b[5] == 0
  {
  }

  /** An MJPEG format with the flag for fixed-size samples, and another without: the parsed formats are the same. */
  lemma FlagsLost() returns (b: Block, c: Block)
    ensures IsFormat(b) && LongEnough(b) && b[2] == FORMAT_MJPEG && b[5] == 1 && FormatOf(b).bpp == 0
    ensures c == b[5 := 0] && IsFormat(c) && LongEnough(c) && FormatOf(c) == FormatOf(b)
  {
    b := [11, 0x24, FORMAT_MJPEG, 1, 0, 1, 1, 0, 0, 0, 0];
    c := b[5 := 0];
  }

  /** `n` intervals from byte 26 on. */
  function IntervalsOf(b: Block, n: nat): (vs: seq<nat>)
    requires 26 + 4 * n <= |b|
    ensures |vs| == n
  {
    if n == 0 then [] else IntervalsOf(b, n - 1) + [Dw(b, 26 + 4 * (n - 1))]
  }

  /** The two frame parsers; the interval list is terminated by a 0. */
  function FrameOf(b: Block): (f: FrameDesc)
    requires IsFrame(b) && LongEnough(b)
  {
    var based, n := b[2] == FRAME_FRAME_BASED, b[TypeAt(b)];
    FrameDesc(b[2], b[3], b[4], Sw(b, 5), Sw(b, 7), Dw(b, 9), Dw(b, 13),
              if based then 0 else Dw(b, 17), if based then Dw(b, 17) else Dw(b, 21), n,
              if n == 0 then Dw(b, 26) else 0, if n == 0 then Dw(b, 30) else 0, if n == 0 then Dw(b, 34) else 0,
              if based then Dw(b, 22) else 0,
              if n == 0 then None else Some(IntervalsOf(b, n) + [0]))
  }

  // ----- the walk

  /** The bits of `b & 0x8f`. */
  function EndpointBits(b: Byte): (e: nat) { (b as int) / 0x80 * 0x80 + (b as int) % 0x10 }

  function AddFrame(fs: seq<FormatDesc>, frame: FrameDesc): (r: seq<FormatDesc>)
    requires fs != []
  {
    var last := fs[|fs| - 1];
    fs[..|fs| - 1] + [last.(frames := last.frames + [frame])]
  }

  /** `uvc_parse_vs`; a frame belongs to the last format. */
  function ParseBlock(i: Interface, b: Block): (r: Interface)
    requires LongEnough(b) && (IsFrame(b) ==> i.formats != [])
  {
    if b[2] == INPUT_HEADER then i.(endpoint := EndpointBits(b[6]), terminalLink := b[8])
    else if IsFormat(b) then i.(formats := i.formats + [FormatOf(b)])
    else if IsFrame(b) then i.(formats := AddFrame(i.formats, FrameOf(b)))
    else i
  }

  /** Every block has a length of at least 3 that fits; up to two bytes may be left over. */
  predicate Walkable(s: seq<Byte>)
    decreases |s|
  {
    |s| < 3 || (3 <= s[0] <= |s| && Walkable(s[s[0]..]))
  }

  function Blocks(s: seq<Byte>): (bs: seq<Block>)
    requires Walkable(s)
    decreases |s|
  {
    if |s| < 3 then [] else [s[..s[0]]] + Blocks(s[s[0]..])
  }

  /** Every block has its fields, and no frame comes before a format. */
  predicate WellFormed(bs: seq<Block>, hasFormat: bool) {
    bs == [] || (
      LongEnough(bs[0]) && (IsFrame(bs[0]) ==> hasFormat) && WellFormed(bs[1..], hasFormat || IsFormat(bs[0])))
  }

  function ParseAll(i: Interface, bs: seq<Block>): (r: Interface)
    requires WellFormed(bs, i.formats != [])
    decreases |bs|
  {
    if bs == [] then i else ParseAll(ParseBlock(i, bs[0]), bs[1..])
  }

  // ----- what the walk builds

  /** The frames up to the next format. */
  function LeadingFrames(bs: seq<Block>): (fs: seq<FrameDesc>)
    requires WellFormed(bs, true)
  {
    if bs == [] || IsFormat(bs[0]) then []
    else (if IsFrame(bs[0]) then [FrameOf(bs[0])] else []) + LeadingFrames(bs[1..])
  }

  /** Each format block makes one format, with exactly the frames between it and the next format. */
  function Formats(bs: seq<Block>): (fs: seq<FormatDesc>)
    requires WellFormed(bs, true)
  {
    if bs == [] then []
    else if IsFormat(bs[0]) then [FormatOf(bs[0]).(frames := LeadingFrames(bs[1..]))] + Formats(bs[1..])
    else Formats(bs[1..])
  }

  function MoreFrames(fs: seq<FormatDesc>, frames: seq<FrameDesc>): (r: seq<FormatDesc>)
    requires fs != []
    ensures r != []
  {
    var last := fs[|fs| - 1];
    fs[..|fs| - 1] + [last.(frames := last.frames + frames)]
  }

  lemma {:induction false} WellFormedAfter(bs: seq<Block>)
    requires WellFormed(bs, false)
    ensures WellFormed(bs, true)
  {
    if bs != [] && !IsFormat(bs[0]) {
      WellFormedAfter(bs[1..]);
    }
  }

  lemma MoreFramesAgain(fs: seq<FormatDesc>, frame: FrameDesc, frames: seq<FrameDesc>)
    requires fs != []
    ensures MoreFrames(AddFrame(fs, frame), frames) == MoreFrames(fs, [frame] + frames)
    ensures MoreFrames(fs, []) == fs
  {
    var last := fs[|fs| - 1];
    assert last.frames + [frame] + frames == last.frames + ([frame] + frames);
    assert last.frames + [] == last.frames;
  }

  lemma MoreFramesNew(fs: seq<FormatDesc>, f: FormatDesc, frames: seq<FrameDesc>)
    requires f.frames == []
    ensures MoreFrames(fs + [f], frames) == fs + [f.(frames := frames)]
  {
    assert (fs + [f])[..|fs|] == fs;
    assert [] + frames == frames;
  }

  /** The formats of an interface once the blocks `bs` are parsed, too. */
  function Built(fs: seq<FormatDesc>, bs: seq<Block>): (r: seq<FormatDesc>)
    requires WellFormed(bs, true)
  {
    (if fs == [] then [] else MoreFrames(fs, LeadingFrames(bs))) + Formats(bs)
  }

  lemma BuiltFormat(fs: seq<FormatDesc>, b: Block, rest: seq<Block>)
    requires WellFormed([b] + rest, true) && IsFormat(b)
    requires LongEnough(b) && WellFormed(rest, true)
    ensures Built(fs + [FormatOf(b)], rest) == Built(fs, [b] + rest)
  {
    hide LongEnough, FormatOf, WellFormed, AddFrame;
    var bs, f := [b] + rest, FormatOf(b).(frames := LeadingFrames(rest));
    assert bs[1..] == rest;
    FormatHasNoFrames(b);
    MoreFramesNew(fs, FormatOf(b), LeadingFrames(rest));
    if fs != [] {
      MoreFramesAgain(fs, NoFrame(), []);
    }
    hide MoreFrames, IsFormat;
    assert LeadingFrames(bs) == [] && Formats(bs) == [f] + Formats(rest);
    assert fs + [f] + Formats(rest) == fs + ([f] + Formats(rest));
  }

  lemma BuiltFrame(fs: seq<FormatDesc>, b: Block, rest: seq<Block>)
    requires WellFormed([b] + rest, true) && IsFrame(b) && fs != []
    requires LongEnough(b) && WellFormed(rest, true)
    ensures Built(AddFrame(fs, FrameOf(b)), rest) == Built(fs, [b] + rest)
  {
    var bs := [b] + rest;
    assert bs[1..] == rest;
    assert !IsFormat(b) && AddFrame(fs, FrameOf(b)) != [];
    hide LongEnough, FrameOf, WellFormed, AddFrame, IsFormat, IsFrame;
    MoreFramesAgain(fs, FrameOf(b), LeadingFrames(rest));
    hide MoreFrames;
    assert LeadingFrames(bs) == [FrameOf(b)] + LeadingFrames(rest) && Formats(bs) == Formats(rest);
  }

  lemma BuiltOther(fs: seq<FormatDesc>, b: Block, rest: seq<Block>)
    requires WellFormed([b] + rest, true) && !IsFrame(b) && !IsFormat(b)
    requires WellFormed(rest, true)
    ensures Built(fs, rest) == Built(fs, [b] + rest)
  {
    hide WellFormed, IsFormat, IsFrame, MoreFrames;
    var bs := [b] + rest;
    assert bs[1..] == rest;
    assert LeadingFrames(bs) == [] + LeadingFrames(rest) == LeadingFrames(rest);
  }

  lemma BuiltStep(i: Interface, bs: seq<Block>)
    requires bs != [] && WellFormed(bs, i.formats != []) && WellFormed(bs, true)
    ensures WellFormed(bs[1..], true) && Built(ParseBlock(i, bs[0]).formats, bs[1..]) == Built(i.formats, bs)
  {
    hide LongEnough, FormatOf, FrameOf, Built, MoreFrames, AddFrame, LeadingFrames, Formats;
    var b, rest := bs[0], bs[1..];
    assert bs == [b] + rest;
    if IsFormat(b) {
      BuiltFormat(i.formats, b, rest);
    } else if IsFrame(b) {
      BuiltFrame(i.formats, b, rest);
    } else {
      BuiltOther(i.formats, b, rest);
    }
  }

  /** The walk builds the formats in order, each with the frames that follow it. */
  lemma {:induction false} ParseBuilds(i: Interface, bs: seq<Block>)
    requires WellFormed(bs, i.formats != []) && WellFormed(bs, true)
    ensures ParseAll(i, bs).formats == Built(i.formats, bs)
    decreases |bs|
  {
    if bs != [] {
      BuiltStep(i, bs);
      ParseBuilds(ParseBlock(i, bs[0]), bs[1..]);
      hide Built;
    } else if i.formats != [] {
      MoreFramesAgain(i.formats, NoFrame(), []);
    }
  }

  function NoFrame(): (f: FrameDesc) { FrameDesc(0, 0, 0, 0, 0, 0, 0, 0, 0, 0, 0, 0, 0, 0, None) }

  lemma FormatHasNoFrames(b: Block)
    requires IsFormat(b) && LongEnough(b)
    ensures FormatOf(b).frames == []
  {
  }

  // ----- serialised trees are parsed back

  function Le16(v: nat): (b: seq<Byte>)
    requires v < 0x1_0000
    ensures |b| == 2
  {
    [v % 0x100, v / 0x100]
  }

  function DwList(vs: seq<nat>): (b: seq<Byte>)
    ensures |b| == 4 * |vs|
  {
    if vs == [] then [] else DwList(vs[..|vs| - 1]) + Le32(vs[|vs| - 1])
  }

  predicate IsDw(v: nat) { v < TWO_32 }

  predicate AllDw(vs: seq<nat>) { forall i :: 0 <= i < |vs| ==> IsDw(vs[i]) }

  /** The intervals of a frame that has a list of them, without the final 0. */
  function Listed(f: FrameDesc): (vs: seq<nat>)
  {
    if f.intervals.Some? && f.intervals.value != [] then f.intervals.value[..|f.intervals.value| - 1] else []
  }

  /** A frame that a block of at most 255 bytes can describe: either a range or a list of at most 57 intervals. */
  predicate FrameFits(f: FrameDesc) {
    && (f.subtype == FRAME_UNCOMPRESSED || f.subtype == FRAME_MJPEG || f.subtype == FRAME_FRAME_BASED)
    && f.width < 0x1_0000 && f.height < 0x1_0000
    && IsDw(f.minBitRate) && IsDw(f.maxBitRate) && IsDw(f.maxBufferSize) && IsDw(f.defaultInterval) && IsDw(f.bytesPerLine)
    && IsDw(f.minInterval) && IsDw(f.maxInterval) && IsDw(f.intervalStep)
    && (if f.subtype == FRAME_FRAME_BASED then f.maxBufferSize == 0 else f.bytesPerLine == 0)
    && (if f.intervalType == 0 then f.intervals == None
        else
          && f.minInterval == 0 && f.maxInterval == 0 && f.intervalStep == 0
          && f.intervals.Some? && f.intervals.value == Listed(f) + [0]
          && f.intervalType == |Listed(f)| <= 57 && AllDw(Listed(f)))
  }

  function IntervalBytes(f: FrameDesc): (b: seq<Byte>)
    requires FrameFits(f)
  {
    if f.intervalType == 0 then DwList([f.minInterval, f.maxInterval, f.intervalStep]) else DwList(Listed(f))
  }

  function FrameHead(f: FrameDesc): (b: seq<Byte>)
    requires FrameFits(f)
    ensures |b| == 17
  {
    [26 + |IntervalBytes(f)|, 0x24, f.subtype, f.index, f.capabilities] + Le16(f.width) + Le16(f.height) +
    Le32(f.minBitRate) + Le32(f.maxBitRate)
  }

  function FrameMiddle(f: FrameDesc): (b: seq<Byte>)
    requires FrameFits(f)
    ensures |b| == 9
  {
    if f.subtype == FRAME_FRAME_BASED then Le32(f.defaultInterval) + [f.intervalType] + Le32(f.bytesPerLine)
    else Le32(f.maxBufferSize) + Le32(f.defaultInterval) + [f.intervalType]
  }

  function FrameBlock(f: FrameDesc): (b: Block)
    requires FrameFits(f)
    ensures |b| == 26 + |IntervalBytes(f)|
  {
    FrameHead(f) + FrameMiddle(f) + IntervalBytes(f)
  }

  lemma ReadDw(front: seq<Byte>, v: nat, back: seq<Byte>, b: Block)
    requires IsDw(v) && b == front + Le32(v) + back
    ensures Dw(b, |front|) == v
  {
    assert b[|front|..|front| + 4] == Le32(v);
    Le32RoundTrip(v);
  }

  lemma {:induction false} ReadIntervals(front: seq<Byte>, vs: seq<nat>, back: seq<Byte>, b: Block)
    requires |front| == 26 && AllDw(vs) && b == front + DwList(vs) + back
    ensures IntervalsOf(b, |vs|) == vs
  {
    if vs != [] {
      var n := |vs| - 1;
      hide Le32, Dw, IsDw;
      assert b == front + DwList(vs[..n]) + (Le32(vs[n]) + back);
      ReadIntervals(front, vs[..n], Le32(vs[n]) + back, b);
      assert IsDw(vs[n]);
      assert b == front + DwList(vs[..n]) + Le32(vs[n]) + back;
      ReadDw(front + DwList(vs[..n]), vs[n], back, b);
    }
  }

  lemma ReadSw(front: seq<Byte>, v: nat, back: seq<Byte>, b: Block)
    requires v < 0x1_0000 && b == front + Le16(v) + back
    ensures Sw(b, |front|) == v
  {
    assert b[|front|] == v % 0x100 && b[|front| + 1] == v / 0x100;
  }

  lemma HeadBack(f: FrameDesc, rest: seq<Byte>, b: Block)
    requires FrameFits(f) && b == FrameHead(f) + rest
    ensures |b| >= 17 && b[0] == 26 + |IntervalBytes(f)| && b[2] == f.subtype && b[3] == f.index && b[4] == f.capabilities
    ensures Sw(b, 5) == f.width && Sw(b, 7) == f.height && Dw(b, 9) == f.minBitRate && Dw(b, 13) == f.maxBitRate
  {
    hide Sw, Dw, Le16, Le32;
    var h: seq<Byte> := [26 + |IntervalBytes(f)|, 0x24, f.subtype, f.index, f.capabilities];
    var w: seq<Byte>, i: seq<Byte>, lo: seq<Byte>, hi: seq<Byte> := Le16(f.width), Le16(f.height), Le32(f.minBitRate), Le32(f.maxBitRate);
    assert b == h + w + (i + lo + hi + rest);
    ReadSw(h, f.width, i + lo + hi + rest, b);
    assert b == h + w + i + (lo + hi + rest);
    ReadSw(h + w, f.height, lo + hi + rest, b);
    assert b == h + w + i + lo + (hi + rest);
    ReadDw(h + w + i, f.minBitRate, hi + rest, b);
    ReadDw(h + w + i + lo, f.maxBitRate, rest, b);
  }

  lemma MiddleBack(f: FrameDesc, front: seq<Byte>, rest: seq<Byte>, b: Block)
    requires FrameFits(f) && |front| == 17 && b == front + FrameMiddle(f) + rest
    ensures f.subtype == FRAME_FRAME_BASED ==> b[21] == f.intervalType && Dw(b, 17) == f.defaultInterval && Dw(b, 22) == f.bytesPerLine
    ensures f.subtype != FRAME_FRAME_BASED ==> b[25] == f.intervalType && Dw(b, 17) == f.maxBufferSize && Dw(b, 21) == f.defaultInterval
  {
    var d, t := Le32(f.defaultInterval), [f.intervalType];
    if f.subtype == FRAME_FRAME_BASED {
      var l := Le32(f.bytesPerLine);
      hide Dw, Le32;
      assert b == front + d + (t + l + rest);
      ReadDw(front, f.defaultInterval, t + l + rest, b);
      assert b == front + d + t + l + rest;
      ReadDw(front + d + t, f.bytesPerLine, rest, b);
    } else {
      var m := Le32(f.maxBufferSize);
      hide Dw, Le32;
      assert b == front + m + (d + t + rest);
      ReadDw(front, f.maxBufferSize, d + t + rest, b);
      assert b == front + m + d + (t + rest);
      ReadDw(front + m, f.defaultInterval, t + rest, b);
    }
  }

  lemma IntervalsBack(f: FrameDesc, front: seq<Byte>, b: Block)
    requires FrameFits(f) && |front| == 26 && b == front + IntervalBytes(f)
    ensures f.intervalType == 0 ==> |b| == 38 && Dw(b, 26) == f.minInterval && Dw(b, 30) == f.maxInterval && Dw(b, 34) == f.intervalStep
    ensures f.intervalType != 0 ==> |b| == 26 + 4 * (f.intervalType as int) && IntervalsOf(b, f.intervalType) == Listed(f)
  {
    if f.intervalType == 0 {
      var vs := [f.minInterval, f.maxInterval, f.intervalStep];
      ReadIntervals(front, vs, [], b);
      IntervalsAre(b, vs);
    } else {
      ReadIntervals(front, Listed(f), [], b);
    }
  }

  lemma IntervalsAre(b: Block, vs: seq<nat>)
    requires |vs| == 3 && 38 <= |b| && IntervalsOf(b, 3) == vs
    ensures Dw(b, 26) == vs[0] && Dw(b, 30) == vs[1] && Dw(b, 34) == vs[2]
  {
    hide Dw;
    assert IntervalsOf(b, 3) == IntervalsOf(b, 2) + [Dw(b, 34)];
    assert IntervalsOf(b, 2) == IntervalsOf(b, 1) + [Dw(b, 30)];
    assert IntervalsOf(b, 1) == IntervalsOf(b, 0) + [Dw(b, 26)];
  }

  lemma FrameBack(f: FrameDesc)
    requires FrameFits(f)
    ensures var b := FrameBlock(f);
      b[0] == |b| && IsFrame(b) && LongEnough(b) && FrameOf(b) == f
  {
    var b := FrameBlock(f);
    var h, m, i := FrameHead(f), FrameMiddle(f), IntervalBytes(f);
    assert b == h + (m + i);
    HeadBack(f, m + i, b);
    MiddleBack(f, h, i, b);
    IntervalsBack(f, h + m, b);
    hide Dw, Sw, IntervalsOf, FrameHead, FrameMiddle, IntervalBytes;
  }

  // ----- formats

  /** A format that its block can describe; a parser leaves the fields it does not know at 0. */
  predicate FormatFits(f: FormatDesc) {
    && |f.guid| == 16
    && (if f.subtype == FORMAT_MJPEG then f.guid == MJPG_GUID && f.bpp == 0 && f.numFrames == 0 && f.variableSize == 0
        else if f.subtype == FORMAT_UNCOMPRESSED then f.numFrames == 0 && f.variableSize == 0
        else f.subtype == FORMAT_FRAME_BASED)
    && forall i :: 0 <= i < |f.frames| ==> FrameFits(f.frames[i])
  }

  /** What a device says of a format and the parser does not keep: bNumFrameDescriptors, except for frame-based formats, and bmFlags. */
  datatype Unkept = Unkept(numFrames: Byte, flags: Byte)

  function FormatBlock(f: FormatDesc, u: Unkept): (b: Block)
    requires FormatFits(f)
  {
    if f.subtype == FORMAT_MJPEG then
      [11, 0x24, f.subtype, f.index, u.numFrames, u.flags, f.defaultFrame, f.aspectX, f.aspectY, f.interlace, f.copyProtect]
    else
      (if f.subtype == FORMAT_UNCOMPRESSED then [27, 0x24, f.subtype, f.index, u.numFrames]
       else [28, 0x24, f.subtype, f.index, f.numFrames]) + f.guid +
      [f.bpp, f.defaultFrame, f.aspectX, f.aspectY, f.interlace, f.copyProtect] +
      (if f.subtype == FORMAT_UNCOMPRESSED then [] else [f.variableSize])
  }

  lemma FormatBack(f: FormatDesc, u: Unkept)
    requires FormatFits(f)
    ensures var b := FormatBlock(f, u);
      |b| >= 3 && b[0] == |b| && IsFormat(b) && LongEnough(b) && FormatOf(b) == f.(frames := [])
  {
    var b := FormatBlock(f, u);
    if f.subtype != FORMAT_MJPEG {
      assert b[5..21] == f.guid;
    }
  }

  // ----- trees

  function FrameBlocks(fs: seq<FrameDesc>): (bs: seq<Block>)
    requires forall i :: 0 <= i < |fs| ==> FrameFits(fs[i])
  {
    if fs == [] then [] else [FrameBlock(fs[0])] + FrameBlocks(fs[1..])
  }

  predicate TreeFits(fs: seq<FormatDesc>) { forall i :: 0 <= i < |fs| ==> FormatFits(fs[i]) }

  function TreeBlocks(fs: seq<FormatDesc>, us: seq<Unkept>): (bs: seq<Block>)
    requires TreeFits(fs) && |us| == |fs|
  {
    if fs == [] then [] else [FormatBlock(fs[0], us[0])] + FrameBlocks(fs[0].frames) + TreeBlocks(fs[1..], us[1..])
  }

  function Joined(bs: seq<Block>): (s: seq<Byte>) {
    if bs == [] then [] else bs[0] + Joined(bs[1..])
  }

  predicate SelfSized(bs: seq<Block>) { forall i :: 0 <= i < |bs| ==> |bs[i]| >= 3 && bs[i][0] == |bs[i]| }

  lemma {:induction false} BlocksBack(bs: seq<Block>)
    requires SelfSized(bs)
    ensures Walkable(Joined(bs)) && Blocks(Joined(bs)) == bs
  {
    if bs != [] {
      var b, rest, s := bs[0], bs[1..], Joined(bs);
      BlocksBack(rest);
      assert |b| >= 3 && b[0] == |b|;
      assert s[0] == b[0] && s[..|b|] == b && s[|b|..] == Joined(rest);
    }
  }

  lemma FramePrepended(f: FrameDesc, bs: seq<Block>, cs: seq<Block>)
    requires FrameFits(f) && SelfSized(bs) && WellFormed(bs, true) && cs == [FrameBlock(f)] + bs
    ensures SelfSized(cs) && WellFormed(cs, true)
    ensures LeadingFrames(cs) == [f] + LeadingFrames(bs) && Formats(cs) == Formats(bs)
  {
    FrameBack(f);
    hide FrameFits, FrameBlock, LongEnough, FrameOf;
    assert cs[1..] == bs;
  }

  lemma FormatPrepended(f: FormatDesc, u: Unkept, bs: seq<Block>, cs: seq<Block>)
    requires FormatFits(f) && SelfSized(bs) && WellFormed(bs, true) && cs == [FormatBlock(f, u)] + bs
    ensures SelfSized(cs) && WellFormed(cs, true) && WellFormed(cs, false) && IsFormat(cs[0])
    ensures Formats(cs) == [f.(frames := LeadingFrames(bs))] + Formats(bs)
  {
    FormatBack(f, u);
    hide FormatFits, FormatBlock, LongEnough, FormatOf;
    assert cs[1..] == bs;
    assert !IsFrame(cs[0]);
  }

  predicate StartsWithFormat(bs: seq<Block>) { bs == [] || IsFormat(bs[0]) }

  lemma NoLeadingFrames(bs: seq<Block>)
    requires WellFormed(bs, true) && StartsWithFormat(bs)
    ensures LeadingFrames(bs) == []
  {
  }

  lemma FrameBlocksUnfold(fs: seq<FrameDesc>)
    requires forall i :: 0 <= i < |fs| ==> FrameFits(fs[i])
    ensures FrameBlocks(fs) == if fs == [] then [] else [FrameBlock(fs[0])] + FrameBlocks(fs[1..])
  {
    hide FrameFits, FrameBlock;
  }

  /** Frame blocks followed by blocks that start with a format, or by nothing. */
  lemma {:induction false} FrameBlocksBack(fs: seq<FrameDesc>, rest: seq<Block>)
    requires forall i :: 0 <= i < |fs| ==> FrameFits(fs[i])
    requires SelfSized(rest) && WellFormed(rest, true) && StartsWithFormat(rest)
    ensures var bs := FrameBlocks(fs) + rest;
      SelfSized(bs) && WellFormed(bs, true) && LeadingFrames(bs) == fs && Formats(bs) == Formats(rest)
  {
    hide *;
    FrameBlocksUnfold(fs);
    if fs == [] {
      assert FrameBlocks(fs) + rest == rest;
      NoLeadingFrames(rest);
    } else {
      FrameBlocksBack(fs[1..], rest);
      assert FrameBlocks(fs) + rest == [FrameBlock(fs[0])] + (FrameBlocks(fs[1..]) + rest);
      FramePrepended(fs[0], FrameBlocks(fs[1..]) + rest, FrameBlocks(fs) + rest);
    }
  }

  lemma {:induction false} TreeBlocksBack(fs: seq<FormatDesc>, us: seq<Unkept>)
    requires TreeFits(fs) && |us| == |fs|
    ensures var bs := TreeBlocks(fs, us);
      && SelfSized(bs) && WellFormed(bs, false) && WellFormed(bs, true) && StartsWithFormat(bs)
      && Formats(bs) == fs
  {
    if fs != [] {
      assert FormatFits(fs[0]);
      hide FormatBlock, FrameFits, SelfSized, WellFormed, LeadingFrames, Formats, IsFormat;
      var rest, frames := TreeBlocks(fs[1..], us[1..]), FrameBlocks(fs[0].frames);
      TreeBlocksBack(fs[1..], us[1..]);
      FrameBlocksBack(fs[0].frames, rest);
      assert TreeBlocks(fs, us) == [FormatBlock(fs[0], us[0])] + (frames + rest);
      FormatPrepended(fs[0], us[0], frames + rest, TreeBlocks(fs, us));
    }
  }

  function NewInterface(): (i: Interface) { Interface(0, 0, []) }

  /** Parsing a serialised tree of formats and frames gives back the tree, whatever the bytes say that are not kept. */
  lemma TreeRoundTrip(fs: seq<FormatDesc>, us: seq<Unkept>)
    requires TreeFits(fs) && |us| == |fs|
    ensures var s := Joined(TreeBlocks(fs, us));
      Walkable(s) && WellFormed(Blocks(s), false) && ParseAll(NewInterface(), Blocks(s)).formats == fs
  {
    hide TreeBlocks, Joined, Formats, WellFormed, TreeFits;
    TreeBlocksBack(fs, us);
    BlocksBack(TreeBlocks(fs, us));
    ParseBuilds(NewInterface(), TreeBlocks(fs, us));
  }

  // ----- whole interfaces

  /** What an input header says and the parser does not keep; three bits of the endpoint address are reserved. */
  datatype UnkeptHeader = UnkeptHeader(numFormats: Byte, totalLength: nat, reserved: nat, info: Byte, more: seq<Byte>)

  predicate HeaderFits(i: Interface, u: UnkeptHeader) {
    && i.endpoint < 0x100 && i.endpoint % 0x80 < 0x10 && i.terminalLink < 0x100
    && u.totalLength < 0x1_0000 && u.reserved < 8 && |u.more| <= 200
  }

  function HeaderBlock(i: Interface, u: UnkeptHeader): (b: Block)
    requires HeaderFits(i, u)
  {
    [9 + |u.more|, 0x24, INPUT_HEADER, u.numFormats] + Le16(u.totalLength) +
    [i.endpoint + 0x10 * u.reserved, u.info, i.terminalLink] + u.more
  }

  lemma HeaderBlockBack(i: Interface, u: UnkeptHeader, from: Interface)
    requires HeaderFits(i, u)
    ensures var b := HeaderBlock(i, u);
      && |b| >= 9 && b[0] == |b| && LongEnough(b) && !IsFormat(b) && !IsFrame(b)
      && ParseBlock(from, b) == from.(endpoint := i.endpoint, terminalLink := i.terminalLink)
  {
    var e := i.endpoint + 0x10 * u.reserved;
    assert e / 0x80 == i.endpoint / 0x80 && e % 0x10 == i.endpoint % 0x10;
  }

  /** Blocks without an input header leave endpoint and terminal alone. */
  lemma {:induction false} HeaderKept(i: Interface, bs: seq<Block>)
    requires WellFormed(bs, i.formats != []) && NoHeader(bs)
    ensures ParseAll(i, bs).endpoint == i.endpoint && ParseAll(i, bs).terminalLink == i.terminalLink
    decreases |bs|
  {
    hide LongEnough, FormatOf, FrameOf, AddFrame;
    if bs != [] {
      ParsedFormats(i, bs[0]);
      HeaderKept(ParseBlock(i, bs[0]), bs[1..]);
    }
  }

  predicate NoHeader(bs: seq<Block>) { forall k :: 0 <= k < |bs| ==> |bs[k]| >= 3 && bs[k][2] != INPUT_HEADER }

  lemma {:induction false} TreeHasNoHeader(fs: seq<FormatDesc>, us: seq<Unkept>)
    requires TreeFits(fs) && |us| == |fs|
    ensures NoHeader(TreeBlocks(fs, us))
  {
    if fs != [] {
      assert FormatFits(fs[0]);
      hide FormatBlock, FrameFits, FormatFits, FormatOf, LongEnough, NoHeader;
      var b, frames, rest := FormatBlock(fs[0], us[0]), FrameBlocks(fs[0].frames), TreeBlocks(fs[1..], us[1..]);
      TreeHasNoHeader(fs[1..], us[1..]);
      FramesHaveNoHeader(fs[0].frames);
      FormatBack(fs[0], us[0]);
      OneBlock(b);
      NoHeaderIn([b], frames);
      NoHeaderIn([b] + frames, rest);
    } else {
      assert NoHeader([]) by { NoneHasHeader(); }
    }
  }

  lemma NoneHasHeader()
    ensures NoHeader([])
  {
  }

  lemma OneBlock(b: Block)
    requires IsFormat(b) || IsFrame(b)
    ensures NoHeader([b])
  {
  }

  lemma NoHeaderIn(bs: seq<Block>, cs: seq<Block>)
    requires NoHeader(bs) && NoHeader(cs)
    ensures NoHeader(bs + cs)
  {
  }

  lemma {:induction false} FramesHaveNoHeader(fs: seq<FrameDesc>)
    requires forall i :: 0 <= i < |fs| ==> FrameFits(fs[i])
    ensures NoHeader(FrameBlocks(fs))
  {
    hide FrameFits, FrameBlock, FrameOf, LongEnough, NoHeader;
    if fs != [] {
      FrameBack(fs[0]);
      FramesHaveNoHeader(fs[1..]);
      OneBlock(FrameBlock(fs[0]));
      NoHeaderIn([FrameBlock(fs[0])], FrameBlocks(fs[1..]));
    } else {
      NoneHasHeader();
    }
  }

  /** Parsing a serialised interface, with its input header in front, gives back the interface. */
  lemma InterfaceRoundTrip(i: Interface, u: UnkeptHeader, us: seq<Unkept>)
    requires HeaderFits(i, u) && TreeFits(i.formats) && |us| == |i.formats|
    ensures var s := Joined([HeaderBlock(i, u)] + TreeBlocks(i.formats, us));
      Walkable(s) && WellFormed(Blocks(s), false) && ParseAll(NewInterface(), Blocks(s)) == i
  {
    hide *;
    var h, bs := HeaderBlock(i, u), TreeBlocks(i.formats, us);
    HeaderBlockBack(i, u, NewInterface());
    TreeBlocksBack(i.formats, us);
    TreeHasNoHeader(i.formats, us);
    NothingBuilt(bs);
    HeaderInFront(NewInterface(), h, bs);
    BlocksBack([h] + bs);
    var from := NewInterface().(endpoint := i.endpoint, terminalLink := i.terminalLink);
    HeaderKept(from, bs);
    ParseBuilds(from, bs);
  }

  lemma HeaderInFront(from: Interface, h: Block, bs: seq<Block>)
    requires |h| >= 3 && h[0] == |h| && LongEnough(h) && !IsFormat(h) && !IsFrame(h) && SelfSized(bs)
    requires from.formats == [] && WellFormed(bs, false) && ParseBlock(from, h).formats == []
    ensures SelfSized([h] + bs) && WellFormed([h] + bs, false)
    ensures ParseAll(from, [h] + bs) == ParseAll(ParseBlock(from, h), bs)
  {
    hide LongEnough, IsFormat, IsFrame, ParseBlock;
    assert ([h] + bs)[1..] == bs;
  }

  lemma NothingBuilt(bs: seq<Block>)
    requires WellFormed(bs, true)
    ensures Built([], bs) == Formats(bs) && NewInterface().formats == []
  {
    hide WellFormed, Formats;
  }

  // ----- the scanner

  /** `uvc_streaming_interface_t`; the format and frame lists are those of `stream_ifs`. */
  class StreamingInterface {
    var endpointAddress: nat
    var terminalLink: nat
    var formats: seq<FormatDesc>

    function View(): (i: Interface)
      reads this
    {
      Interface(endpointAddress, terminalLink, formats)
    }

    constructor ()
      ensures View() == NewInterface()
    {
      endpointAddress, terminalLink, formats := 0, 0, [];
    }

    /** The loop over the intervals of a frame. */
    method ParseIntervals(block: Block, n: nat) returns (intervals: seq<nat>)
      requires 26 + 4 * n <= |block|
      ensures intervals == IntervalsOf(block, n) + [0]
    {
      intervals := [];
      var p := 26;
      for i := 0 to n
        invariant p == 26 + 4 * i && intervals == IntervalsOf(block, i)
      {
        intervals := intervals + [Dw(block, p)];
        p := p + 4;
      }
      intervals := intervals + [0];
    }

    /** `uvc_parse_vs_frame_uncompressed` and `uvc_parse_vs_frame_frame`. */
    method ParseFrame(block: Block)
      requires IsFrame(block) && LongEnough(block) && formats != []
      modifies this`formats
      ensures View() == ParseBlock(old(View()), block)
    {
      var based := block[2] == FRAME_FRAME_BASED;
      var n := if based then block[21] else block[25];
      var frame := FrameDesc(block[2], block[3], block[4], Sw(block, 5), Sw(block, 7), Dw(block, 9), Dw(block, 13),
                             0, 0, n, 0, 0, 0, 0, None);
      if based {
        frame := frame.(defaultInterval := Dw(block, 17), bytesPerLine := Dw(block, 22));
      } else {
        frame := frame.(maxBufferSize := Dw(block, 17), defaultInterval := Dw(block, 21));
      }
      if n == 0 {
        frame := frame.(minInterval := Dw(block, 26), maxInterval := Dw(block, 30), intervalStep := Dw(block, 34));
      } else {
        var intervals := ParseIntervals(block, n);
        frame := frame.(intervals := Some(intervals));
      }
      var last := formats[|formats| - 1];
      formats := formats[..|formats| - 1] + [last.(frames := last.frames + [frame])];
    }

    /** The three format parsers; an MJPEG format's bmFlags and bBitsPerPixel are one byte. */
    method ParseFormat(block: Block)
      requires IsFormat(block) && LongEnough(block)
      modifies this`formats
      ensures View() == ParseBlock(old(View()), block)
    {
      var format := FormatDesc(block[2], block[3], 0, seq(16, _ => 0), 0, 0, 0, 0, 0, 0, 0, []);
      if block[2] == FORMAT_MJPEG {
        format := format.(guid := [0x4d, 0x4a, 0x50, 0x47] + format.guid[4..]);
        format := format.(bpp := block[5]);
        format := format.(bpp := 0);
        format := format.(defaultFrame := block[6], aspectX := block[7], aspectY := block[8],
                          interlace := block[9], copyProtect := block[10]);
      } else {
        if block[2] == FORMAT_FRAME_BASED {
          format := format.(numFrames := block[4], variableSize := block[27]);
        }
        format := format.(guid := block[5..21], bpp := block[21], defaultFrame := block[22], aspectX := block[23],
                          aspectY := block[24], interlace := block[25], copyProtect := block[26]);
      }
      assert format == FormatOf(block);
      formats := formats + [format];
    }

    /** `uvc_parse_vs`. */
    method ParseVs(block: Block)
      requires LongEnough(block) && (IsFrame(block) ==> formats != [])
      modifies this
      ensures View() == ParseBlock(old(View()), block)
    {
      var subtype: int := block[2];
      if subtype == INPUT_HEADER {
        endpointAddress := EndpointBits(block[6]);
        terminalLink := block[8];
      } else if subtype == FORMAT_UNCOMPRESSED || subtype == FORMAT_MJPEG || subtype == FORMAT_FRAME_BASED {
        ParseFormat(block);
      } else if subtype == FRAME_UNCOMPRESSED || subtype == FRAME_MJPEG || subtype == FRAME_FRAME_BASED {
        ParseFrame(block);
      }
    }

    /** The loop of `uvc_scan_streaming`. */
    method Scan(buffer: array<Byte>)
      requires Walkable(buffer[..]) && WellFormed(Blocks(buffer[..]), formats != [])
      modifies this
      ensures View() == ParseAll(old(View()), Blocks(buffer[..]))
    {
      hide LongEnough, ParseBlock;
      var at: nat, left: nat := 0, buffer.Length;
      ghost var s := buffer[..];
      while left >= 3
        invariant at + left == buffer.Length && Walkable(s[at..]) && WellFormed(Blocks(s[at..]), formats != [])
        invariant ParseAll(View(), Blocks(s[at..])) == ParseAll(old(View()), Blocks(s))
        decreases left
      {
        var blockSize := buffer[at];
        assert s[at..][..blockSize] == buffer[at..at + blockSize];
        assert s[at..][blockSize..] == s[at + blockSize..];
        ParsedFormats(View(), s[at..][..blockSize]);
        ParseVs(buffer[at..at + blockSize]);
        left := left - blockSize;
        at := at + blockSize;
      }
    }
  }

  lemma ParsedFormats(i: Interface, b: Block)
    requires LongEnough(b) && (IsFrame(b) ==> i.formats != [])
    ensures ParseBlock(i, b).formats != [] <==> i.formats != [] || IsFormat(b)
  {
  }
}
