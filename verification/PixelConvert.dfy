/**
 YUV to RGB conversion of frame.c: four fixed-point loops, unrolled for 8 pixels, over 4-byte groups
 that hold two pixels with common chroma.
 */
module PixelConvert {
  import opened Bytes

  function Sat(i: int): (b: Byte) {
    if i >= 255 then 255 else if i < 0 then 0 else i
  }

  /** An arithmetic shift right by 14 bits. */
  function Shr14(i: int): (r: int) { i / 16384 }

  // ----- the macros, one group of two pixels each

  datatype Variant = YuyvRgb | YuyvBgr | UyvyRgb | UyvyBgr

  datatype Format = Yuyv | Uyvy | Rgb | Bgr | OtherFormat

  function InputFormat(t: Variant): (f: Format) { if t.YuyvRgb? || t.YuyvBgr? then Yuyv else Uyvy }
  function OutputFormat(t: Variant): (f: Format) { if t.YuyvRgb? || t.UyvyRgb? then Rgb else Bgr }

  type Group = g: seq<Byte> | |g| == 4 witness [0, 0, 0, 0]

  function Red(v: int): (r: int) { Shr14(22987 * (v - 128)) }
  function Green(u: int, v: int): (g: int) { Shr14(-5636 * (u - 128) - 11698 * (v - 128)) }
  function Blue(u: int): (b: int) { Shr14(29049 * (u - 128)) }

  function ConvertGroup(t: Variant, g: Group): (p: seq<Byte>)
    ensures |p| == 6
  {
    match t
    case YuyvRgb =>
      var r, gr, b := Red(g[3]), Green(g[1], g[3]), Blue(g[1]);
      [Sat(g[0] + r), Sat(g[0] + gr), Sat(g[0] + b), Sat(g[2] + r), Sat(g[2] + gr), Sat(g[2] + b)]
    case YuyvBgr =>
      var r, gr, b := Red(g[3]), Green(g[1], g[3]), Blue(g[1]);
      [Sat(g[0] + b), Sat(g[0] + gr), Sat(g[0] + r), Sat(g[2] + b), Sat(g[2] + gr), Sat(g[2] + r)]
    case UyvyRgb =>
      var r, gr, b := Red(g[2]), Green(g[0], g[2]), Blue(g[0]);
      [Sat(g[1] + r), Sat(g[1] + gr), Sat(g[1] + b), Sat(g[3] + r), Sat(g[3] + gr), Sat(g[3] + b)]
    case UyvyBgr =>
      var r, gr, b := Red(g[2]), Green(g[0], g[2]), Blue(g[0]);
      [Sat(g[1] + b), Sat(g[1] + gr), Sat(g[1] + r), Sat(g[3] + b), Sat(g[3] + gr), Sat(g[3] + r)]
  }

  /** The first `n` groups of an image, one after another. */
  function Convert(t: Variant, s: seq<Byte>, n: nat): (p: seq<Byte>)
    requires 4 * n <= |s|
    ensures |p| == 6 * n
  {
    if n == 0 then [] else Convert(t, s, n - 1) + ConvertGroup(t, s[4 * n - 4..4 * n])
  }

  lemma {:induction false} ConvertAt(t: Variant, s: seq<Byte>, n: nat, k: nat)
    requires 4 * n <= |s| && k < n
    ensures Convert(t, s, n)[6 * k..6 * k + 6] == ConvertGroup(t, s[4 * k..4 * k + 4])
  {
    hide ConvertGroup;
    if k < n - 1 {
      ConvertAt(t, s, n - 1, k);
      assert Convert(t, s, n)[6 * k..6 * k + 6] == Convert(t, s, n - 1)[6 * k..6 * k + 6];
    }
  }

  // ----- the variants agree

  /** The same variant for the other order of the bytes, and for the other order of the channels. */
  function OtherPacking(t: Variant): (r: Variant) {
    match t case YuyvRgb => UyvyRgb case UyvyRgb => YuyvRgb case YuyvBgr => UyvyBgr case UyvyBgr => YuyvBgr
  }

  function OtherChannels(t: Variant): (r: Variant) {
    match t case YuyvRgb => YuyvBgr case YuyvBgr => YuyvRgb case UyvyRgb => UyvyBgr case UyvyBgr => UyvyRgb
  }

  /** `r` is `s` with the two bytes of each pair exchanged. */
  ghost predicate PairsSwapped(s: seq<Byte>, r: seq<Byte>) {
    |s| == |r| && forall i :: 0 <= i && 2 * i + 1 < |s| ==> r[2 * i] == s[2 * i + 1] && r[2 * i + 1] == s[2 * i]
  }

  lemma GroupPacking(t: Variant, g: Group, h: Group)
    requires h == [g[1], g[0], g[3], g[2]]
    ensures ConvertGroup(OtherPacking(t), h) == ConvertGroup(t, g)
  {
    hide Red, Green, Blue, Sat;
  }

  /** UYVY input is YUYV input with the bytes of each pair exchanged. */
  lemma {:induction false} PackingsAgree(t: Variant, s: seq<Byte>, r: seq<Byte>, n: nat)
    requires 4 * n <= |s| && PairsSwapped(s, r)
    ensures Convert(OtherPacking(t), r, n) == Convert(t, s, n)
  {
    hide ConvertGroup, OtherPacking;
    if n > 0 {
      PackingsAgree(t, s, r, n - 1);
      var g, h := s[4 * n - 4..4 * n], r[4 * n - 4..4 * n];
      assert r[2 * (2 * n - 2)] == s[2 * (2 * n - 2) + 1] && r[2 * (2 * n - 1)] == s[2 * (2 * n - 1) + 1];
      GroupPacking(t, g, h);
    }
  }

  /** `q` is `p` with channels 0 and 2 of every pixel exchanged. */
  ghost predicate ChannelsSwapped(p: seq<Byte>, q: seq<Byte>) {
    |p| == |q| && forall i :: 0 <= i && 3 * i + 2 < |p| ==>
      q[3 * i] == p[3 * i + 2] && q[3 * i + 1] == p[3 * i + 1] && q[3 * i + 2] == p[3 * i]
  }

  lemma GroupChannels(t: Variant, g: Group)
    ensures var p, q := ConvertGroup(t, g), ConvertGroup(OtherChannels(t), g);
      q == [p[2], p[1], p[0], p[5], p[4], p[3]]
  {
    hide Red, Green, Blue, Sat;
  }

  lemma SwappedAppend(p: seq<Byte>, q: seq<Byte>, n: nat, a: seq<Byte>, b: seq<Byte>)
    requires |p| == 6 * n && |a| == 6 && ChannelsSwapped(p, q) && b == [a[2], a[1], a[0], a[5], a[4], a[3]]
    ensures ChannelsSwapped(p + a, q + b)
  {
    forall i | 0 <= i && 3 * i + 2 < |p + a|
      ensures (q + b)[3 * i] == (p + a)[3 * i + 2] && (q + b)[3 * i + 1] == (p + a)[3 * i + 1] && (q + b)[3 * i + 2] == (p + a)[3 * i]
    {
      assert i < 2 * n || i == 2 * n || i == 2 * n + 1;
    }
  }

  lemma NoneSwapped()
    ensures ChannelsSwapped([], [])
  {
  }

  /** BGR output is RGB output with channels 0 and 2 exchanged. */
  lemma {:induction false} ChannelsAgree(t: Variant, s: seq<Byte>, n: nat)
    requires 4 * n <= |s|
    ensures ChannelsSwapped(Convert(t, s, n), Convert(OtherChannels(t), s, n))
  {
    hide *;
    NoGroups(t, s);
    NoGroups(OtherChannels(t), s);
    if n == 0 {
      NoneSwapped();
    } else {
      ChannelsAgree(t, s, n - 1);
      var g := s[4 * n - 4..4 * n];
      GroupChannels(t, g);
      NextGroup(t, s, n - 1);
      NextGroup(OtherChannels(t), s, n - 1);
      SwappedAppend(Convert(t, s, n - 1), Convert(OtherChannels(t), s, n - 1), n - 1, ConvertGroup(t, g), ConvertGroup(OtherChannels(t), g));
    }
  }

  // ----- how exact the fixed-point arithmetic is

  /** The floating-point formula of YUYV2RGB_2, over the reals. */
  function Exact(y: int, u: int, v: int, channel: nat): (r: real) {
    (y as real) +
    if channel == 0 then 1.402 * ((v - 128) as real)
    else if channel == 1 then -0.34414 * ((u - 128) as real) - 0.71414 * ((v - 128) as real)
    else 1.772 * ((u - 128) as real)
  }

  function Clamp(r: real): (c: real) {
    if r >= 255.0 then 255.0 else if r < 0.0 then 0.0 else r
  }

  function Fixed(y: int, u: int, v: int, channel: nat): (b: Byte) {
    Sat(y + if channel == 0 then Red(v) else if channel == 1 then Green(u, v) else Blue(u))
  }

  /** Rounding is downwards, so that a byte is hardly ever above the formula. */
  predicate Close(b: Byte, r: real) {
    -1.2 <= b as real - r <= 0.2
  }

  lemma FixedClose(y: Byte, u: Byte, v: Byte, channel: nat)
    requires channel < 3
    ensures Close(Fixed(y, u, v, channel), Clamp(Exact(y, u, v, channel)))
  {
    var x := if channel == 0 then 22987 * (v - 128)
             else if channel == 1 then -5636 * (u - 128) - 11698 * (v - 128) else 29049 * (u - 128);
    assert x == 16384 * Shr14(x) + x % 16384;
    var fixed := (y + Shr14(x)) as real;
    var d := fixed - Exact(y, u, v, channel);
    assert -1.2 <= d <= 0.2;
  }

  /** Where a 4-byte group keeps the brightness of its two pixels, and the colours that they share. */
  function LumaAt(t: Variant, odd: nat): (i: nat) { 2 * odd + if InputFormat(t) == Uyvy then 1 else 0 }
  function UAt(t: Variant): (i: nat) { if InputFormat(t) == Uyvy then 0 else 1 }
  function VAt(t: Variant): (i: nat) { if InputFormat(t) == Uyvy then 2 else 3 }

  /** Where a pixel keeps red (0), green (1) and blue (2). */
  function ChannelAt(t: Variant, channel: nat): (i: int) { if OutputFormat(t) == Bgr then 2 - channel else channel }

  /** Every byte of a converted image, in each variant, is within 1.2 of the clamped formula for its pixel and channel. */
  lemma ConvertClose(t: Variant, s: seq<Byte>, n: nat, k: nat, odd: nat, channel: nat)
    requires 4 * n <= |s| && k < n && odd < 2 && channel < 3
    ensures Close(Convert(t, s, n)[6 * k + 3 * odd + ChannelAt(t, channel)],
                  Clamp(Exact(s[4 * k + LumaAt(t, odd)], s[4 * k + UAt(t)], s[4 * k + VAt(t)], channel)))
  {
    hide Convert, ConvertGroup, Fixed, Close, Exact, Clamp;
    var g, i := s[4 * k..4 * k + 4], 3 * odd + ChannelAt(t, channel);
    ConvertAt(t, s, n, k);
    assert Convert(t, s, n)[6 * k..6 * k + 6][i] == Convert(t, s, n)[6 * k + i];
    GroupIsFixed(t, g, odd, channel);
    FixedClose(g[LumaAt(t, odd)], g[UAt(t)], g[VAt(t)], channel);
  }

  lemma GroupIsFixed(t: Variant, g: Group, odd: nat, channel: nat)
    requires odd < 2 && channel < 3
    ensures ConvertGroup(t, g)[3 * odd + ChannelAt(t, channel)] == Fixed(g[LumaAt(t, odd)], g[UAt(t)], g[VAt(t)], channel)
  {
    hide Red, Green, Blue, Sat;
  }

  // ----- the loops

  /** One group: reads 4 bytes at `pyuv` and writes 6 at `prgb`. */
  method ConvertTwo(t: Variant, src: array<Byte>, pyuv: nat, dst: array<Byte>, prgb: nat)
    requires src != dst && pyuv + 4 <= src.Length && prgb + 6 <= dst.Length
    modifies dst
    ensures dst[..prgb + 6] == old(dst[..prgb]) + ConvertGroup(t, src[pyuv..pyuv + 4])
    ensures dst[prgb + 6..] == old(dst[prgb + 6..])
  {
    hide Red, Green, Blue, Sat;
    ghost var p := ConvertGroup(t, src[pyuv..pyuv + 4]);
    var y0, u, y1, v := src[pyuv], src[pyuv + 1], src[pyuv + 2], src[pyuv + 3];
    if t.UyvyRgb? || t.UyvyBgr? {
      y0, u, y1, v := src[pyuv + 1], src[pyuv], src[pyuv + 3], src[pyuv + 2];
    }
    var r, g, b := Red(v), Green(u, v), Blue(u);
    if t.YuyvBgr? || t.UyvyBgr? {
      r, b := b, r;
    }
    dst[prgb] := Sat(y0 + r);
    dst[prgb + 1] := Sat(y0 + g);
    dst[prgb + 2] := Sat(y0 + b);
    dst[prgb + 3] := Sat(y1 + r);
    dst[prgb + 4] := Sat(y1 + g);
    dst[prgb + 5] := Sat(y1 + b);
    assert dst[prgb..prgb + 6] == p;
    assert dst[..prgb + 6] == dst[..prgb] + dst[prgb..prgb + 6] && dst[..prgb] == old(dst[..prgb]);
  }

  /** The unrolled body: eight pixels in four groups. */
  method ConvertEight(t: Variant, src: array<Byte>, pyuv: nat, dst: array<Byte>, prgb: nat, ghost n: nat)
    requires src != dst && pyuv == 4 * n && pyuv + 16 <= src.Length && prgb == 6 * n && prgb + 24 <= dst.Length
    requires dst[..prgb] == Convert(t, src[..], n)
    modifies dst
    ensures dst[..prgb + 24] == Convert(t, src[..], n + 4)
    ensures dst[prgb + 24..] == old(dst[prgb + 24..])
  {
    hide *;
    ghost var was := dst[..];
    NextGroup(t, src[..], n);
    ConvertTwo(t, src, pyuv, dst, prgb);
    BehindToo(dst[..], was, prgb + 6);
    NextGroup(t, src[..], n + 1);
    ConvertTwo(t, src, pyuv + 4, dst, prgb + 6);
    BehindToo(dst[..], was, prgb + 12);
    NextGroup(t, src[..], n + 2);
    ConvertTwo(t, src, pyuv + 8, dst, prgb + 12);
    BehindToo(dst[..], was, prgb + 18);
    NextGroup(t, src[..], n + 3);
    ConvertTwo(t, src, pyuv + 12, dst, prgb + 18);
  }

  lemma BehindToo(a: seq<Byte>, b: seq<Byte>, at: nat)
    requires |a| == |b| && at <= |a| && a[at..] == b[at..]
    ensures at + 6 <= |a| ==> a[at + 6..] == b[at + 6..]
  {
    if at + 6 <= |a| {
      assert a[at + 6..] == a[at..][6..] && b[at + 6..] == b[at..][6..];
    }
  }

  lemma NextGroup(t: Variant, s: seq<Byte>, n: nat)
    requires 4 * n + 4 <= |s|
    ensures Convert(t, s, n + 1) == Convert(t, s, n) + ConvertGroup(t, s[4 * n..4 * n + 4])
  {
  }

  lemma NoGroups(t: Variant, s: seq<Byte>)
    ensures Convert(t, s, 0) == []
  {
  }

  /** Where the output cursor stops that starts at `at`: it moves by eight pixels as long as it is before `end`. */
  function LoopEnd(at: nat, end: nat): (stop: nat)
    ensures at <= stop && end <= stop
    decreases end - at
  {
    if at < end then LoopEnd(at + 24, end) else at
  }

  /** How many input bytes the loop reads for an output of `end` bytes: 16 for each 24 that it writes. */
  function LoopReads(end: nat): (n: nat) { LoopEnd(0, end) / 24 * 16 }

  lemma {:induction false} LoopEndIs(at: nat, end: nat)
    ensures (LoopEnd(at, end) - at) % 24 == 0 && (at < end ==> LoopEnd(at, end) < end + 24)
    decreases end - at
  {
    if at < end {
      LoopEndIs(at + 24, end);
      assert LoopEnd(at, end) - at == (LoopEnd(at + 24, end) - (at + 24)) + 24;
    }
  }

  /**
   The last byte that the loop writes lies in an output of `end` bytes, which holds the image, and the last
   byte that it reads in an input of exactly the image, if and only if the output is not larger than the
   image and the pixels come in groups of eight.
   */
  lemma LoopStaysInside(end: nat, pixels: nat)
    requires 3 * pixels <= end
    ensures LoopEnd(0, end) <= end && LoopReads(end) <= 2 * pixels <==> end == 3 * pixels && pixels % 8 == 0
  {
    var stop, q, r := LoopEnd(0, end), pixels / 8, pixels % 8;
    LoopEndIs(0, end);
    var m := stop / 24;
    assert stop == 24 * m && pixels == 8 * q + r;
    if stop <= end && LoopReads(end) <= 2 * pixels {
      assert 16 * m <= 2 * pixels && 3 * pixels <= 24 * m;
    }
    if end == 3 * pixels && r == 0 {
      assert end == 24 * q && m == q;
    }
  }

  /** In an output of exactly the image both go wrong together. */
  lemma ImageOverrun(pixels: nat)
    ensures LoopEnd(0, 3 * pixels) <= 3 * pixels <==> pixels % 8 == 0
    ensures LoopReads(3 * pixels) <= 2 * pixels <==> pixels % 8 == 0
  {
    var stop, q, r := LoopEnd(0, 3 * pixels), pixels / 8, pixels % 8;
    LoopEndIs(0, 3 * pixels);
    var m := stop / 24;
    assert stop == 24 * m && pixels == 8 * q + r;
    assert r == 0 ==> m == q;
    assert r > 0 ==> m == q + 1;
  }

  /** A 2 x 2 image: the loop writes 24 bytes to an output of 12, and reads 16 of an input of 8. */
  lemma LoopOverruns()
    ensures LoopEnd(0, 3 * (2 * 2)) == 24 && LoopReads(3 * (2 * 2)) == 16
  {
    assert LoopEnd(24, 12) == 24;
  }

  /** An 8 x 1 image and an output of 48 bytes: the loop reads 32 bytes of an input of 16. */
  lemma LargerOutputOverruns()
    ensures LoopEnd(0, 48) == 48 && LoopReads(48) == 32
  {
    assert LoopEnd(24, 48) == LoopEnd(48, 48) == 48;
  }

  /** The loop: it goes on, eight pixels at a time, until the output cursor reaches the end or is beyond it. */
  method ConvertLoop(t: Variant, src: array<Byte>, dst: array<Byte>, end: nat)
    requires src != dst && LoopEnd(0, end) <= dst.Length && LoopReads(end) <= src.Length
    modifies dst
    ensures LoopEnd(0, end) == 6 * (LoopEnd(0, end) / 6) && LoopReads(end) == 4 * (LoopEnd(0, end) / 6)
    ensures dst[..LoopEnd(0, end)] == Convert(t, src[..], LoopEnd(0, end) / 6)
    ensures dst[LoopEnd(0, end)..] == old(dst[LoopEnd(0, end)..])
  {
    hide *;
    var prgb, pyuv := 0, 0;
    ghost var i: nat, stop := 0, LoopEnd(0, end);
    LoopEndIs(0, end);
    LoopReadsIs(end);
    NoGroups(t, src[..]);
    while prgb < end
      invariant prgb == 24 * i <= stop == LoopEnd(prgb, end) && pyuv == 16 * i
      invariant 16 * i <= src.Length && dst[..prgb] == Convert(t, src[..], 4 * i)
      invariant dst[stop..] == old(dst[stop..])
    {
      LoopGoesOn(prgb, end);
      ConvertEight(t, src, pyuv, dst, prgb, 4 * i);
      assert dst[stop..] == dst[prgb + 24..][stop - (prgb + 24)..];
      prgb := prgb + 3 * 8;
      pyuv := pyuv + 2 * 8;
      i := i + 1;
    }
    LoopGoesOn(prgb, end);
  }

  lemma LoopGoesOn(at: nat, end: nat)
    ensures LoopEnd(at, end) == if at < end then LoopEnd(at + 24, end) else at
  {
  }

  lemma LoopReadsIs(end: nat)
    ensures LoopEnd(0, end) == 24 * (LoopEnd(0, end) / 24) && LoopEnd(0, end) / 6 == 4 * (LoopEnd(0, end) / 24)
    ensures LoopReads(end) == 16 * (LoopEnd(0, end) / 24)
  {
    LoopEndIs(0, end);
  }

  // ----- frames

  datatype Error = Success | InvalidParam | NoMem

  class Frame {
    var format: Format
    var width: nat
    var height: nat
    var step: nat
    var sequence: nat
    var captureTime: int
    var data: array?<Byte>
    var dataBytes: nat
    const libraryOwnsData: bool

    ghost predicate Valid()
      reads this
    {
      if data == null then dataBytes == 0 || libraryOwnsData else dataBytes <= data.Length
    }

    constructor (libraryOwnsData: bool)
      ensures Valid() && this.libraryOwnsData == libraryOwnsData
    {
      this.libraryOwnsData := libraryOwnsData;
      format, width, height, step, sequence, captureTime := OtherFormat, 0, 0, 0, 0, 0;
      data, dataBytes := null, 0;
    }

    /** `uvc_ensure_frame_size`; `allocOk` is the answer of realloc. */
    method EnsureSize(need: nat, allocOk: bool) returns (err: Error)
      requires Valid()
      modifies this`data, this`dataBytes
      ensures Valid() && err != InvalidParam
      ensures err == Success ==> data != null && need <= dataBytes && (libraryOwnsData ==> dataBytes == need)
      ensures err == Success <==>
        if libraryOwnsData then allocOk || (old(data) != null && old(dataBytes) == need)
        else old(data) != null && need <= old(dataBytes)
      ensures data == old(data) || data == null || fresh(data)
      ensures !libraryOwnsData ==> data == old(data) && dataBytes == old(dataBytes)
    {
      if libraryOwnsData {
        if data == null || dataBytes != need {
          dataBytes := need;
          if allocOk {
            data := new Byte[need];
          } else {
            data := null;
          }
        }
        return if data == null then NoMem else Success;
      }
      return if data == null || dataBytes < need then NoMem else Success;
    }
  }

  lemma Thirds(w: nat, h: nat)
    ensures w * h * 3 == 3 * (w * h) && w * h * 2 == 2 * (w * h) && w * 3 == 3 * w && 0 <= w * h
  {
  }

  /** The input passes the checks at the start of the conversion. */
  ghost predicate Accepted(t: Variant, input: Frame)
    reads input
  {
    input.format == InputFormat(t) && 2 * (input.width * input.height) <= input.dataBytes
  }

  /** The size of the output after `uvc_ensure_frame_size`, which is where the loop ends. */
  ghost function OutputSize(input: Frame, out: Frame): (n: nat)
    reads input, out
  {
    if out.libraryOwnsData then 3 * (input.width * input.height) else out.dataBytes
  }

  /** The frames are large enough for what the loop writes and reads, if it is reached. */
  ghost predicate Roomy(t: Variant, input: Frame, out: Frame)
    reads input, out
  {
    var end := OutputSize(input, out);
    Accepted(t, input) && (out.libraryOwnsData || (out.data != null && 3 * (input.width * input.height) <= end)) ==>
      && LoopReads(end) <= (if input.data == null then 0 else input.data.Length)
      && LoopEnd(0, end) <= (if out.libraryOwnsData then end else out.data.Length)
  }

  /**
   With an input of exactly the size of its image, the conversion stays inside its buffers if and only if
   the pixels come in groups of eight and the output is not larger than the image; one that the library
   owns never is.
   */
  lemma RoomyIff(t: Variant, input: Frame, out: Frame)
    requires Accepted(t, input)
    requires input.data != null && input.data.Length == input.dataBytes == 2 * (input.width * input.height)
    requires out.libraryOwnsData ||
      (out.data != null && out.data.Length == out.dataBytes && 3 * (input.width * input.height) <= out.dataBytes)
    ensures Roomy(t, input, out) <==>
      input.width * input.height % 8 == 0 && (out.libraryOwnsData || out.dataBytes == 3 * (input.width * input.height))
  {
    hide LoopEnd, LoopReads, InputFormat;
    LoopStaysInside(OutputSize(input, out), input.width * input.height);
  }

  /** uvc_yuyv2rgb and its three siblings. */
  method ConvertFrame(t: Variant, input: Frame, out: Frame, allocOk: bool) returns (err: Error)
    requires input != out && input.Valid() && out.Valid() && (input.data != null ==> input.data != out.data)
    requires Roomy(t, input, out)
    modifies out, out.data
    ensures out.Valid()
    ensures err == InvalidParam <==> !Accepted(t, input)
    ensures err == InvalidParam ==> unchanged(out)
    ensures err == Success <==> Accepted(t, input) && old(
      var need := 3 * (input.width * input.height);
      if out.libraryOwnsData then allocOk || (out.data != null && out.dataBytes == need)
      else out.data != null && need <= out.dataBytes)
    ensures err == Success ==>
      && out.data != null && out.dataBytes == old(OutputSize(input, out)) && 3 * (input.width * input.height) <= out.dataBytes
      && LoopEnd(0, out.dataBytes) <= out.data.Length
      && (if input.data == null then LoopEnd(0, out.dataBytes) == 0
          else
            && 4 * (LoopEnd(0, out.dataBytes) / 6) <= input.data.Length
            && out.data[..LoopEnd(0, out.dataBytes)] == Convert(t, input.data[..], LoopEnd(0, out.dataBytes) / 6))
      && out.format == OutputFormat(t) && out.width == input.width && out.height == input.height
      && out.step == 3 * input.width && out.sequence == input.sequence && out.captureTime == input.captureTime
  {
    hide InputFormat, OutputFormat, Convert, LoopEnd, LoopReads;
    Thirds(input.width, input.height);
    if input.format != InputFormat(t) {
      return InvalidParam;
    }
    if input.dataBytes < input.width * input.height * 2 {
      return InvalidParam;
    }
    err := out.EnsureSize(input.width * input.height * 3, allocOk);
    if err != Success {
      return;
    }
    LoopReadsIs(out.dataBytes);
    out.width := input.width;
    out.height := input.height;
    out.format := OutputFormat(t);
    out.step := input.width * 3;
    out.sequence := input.sequence;
    out.captureTime := input.captureTime;
    if input.data != null {
      ConvertLoop(t, input.data, out.data, out.dataBytes);
    }
  }
}
