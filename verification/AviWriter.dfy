/**
 The AVI recorder of tcluvc.c: it appends frames as chunks, starts a new AVIX segment when one has
 grown beyond its limit, keeps an index of the first segment, and seeks back to patch sizes.

 The recording is error-free: every write and seek on the channel succeeds.
 */
module AviWriter {
  import opened Bytes
  import opened AviFormat

  const SEGMENT_LIMIT: int := 0x7F00_0000
  const INDEX_STEP: int := 512

  // ----- the channel

  /** Writing `d` at byte `at`: it covers what is there, and makes the file longer where it has to. */
  function Overwrite(s: seq<Byte>, at: nat, d: seq<Byte>): (r: seq<Byte>)
    requires at <= |s|
  {
    s[..at] + d + (if at + |d| <= |s| then s[at + |d|..] else [])
  }

  class Channel {
    var bytes: seq<Byte>
    var pos: nat

    ghost predicate Valid()
      reads this
    {
      pos <= |bytes|
    }

    method Write(d: seq<Byte>)
      requires Valid()
      modifies this
      ensures Valid() && bytes == Overwrite(old(bytes), old(pos), d) && pos == old(pos) + |d|
    {
      bytes := Overwrite(bytes, pos, d);
      pos := pos + |d|;
    }

    /** Write at the end of what has been recorded since byte `from`. */
    method Append(d: seq<Byte>, ghost from: nat)
      requires from <= pos <= |bytes|
      modifies this
      ensures from <= pos <= |bytes| && bytes[from..pos] == old(bytes[from..pos]) + d
      ensures bytes[..from] == old(bytes[..from]) && pos == old(pos) + |d|
    {
      hide *;
      Appended(bytes, from, pos, d);
      Write(d);
    }

    method Seek(to: nat)
      requires to <= |bytes|
      modifies this`pos
      ensures Valid() && pos == to
    {
      pos := to;
    }
  }

  /** Writing at the end of the recording appends to it. */
  lemma Appended(s: seq<Byte>, from: nat, at: nat, d: seq<Byte>)
    requires from <= at <= |s|
    ensures var r := Overwrite(s, at, d);
      at + |d| <= |r| && r[from..at + |d|] == s[from..at] + d && r[..from] == s[..from]
  {
  }

  lemma OverwriteTwice(s: seq<Byte>, at: nat, a: seq<Byte>, b: seq<Byte>)
    requires at <= |s|
    ensures at + |a| <= |Overwrite(s, at, a)|
    ensures Overwrite(Overwrite(s, at, a), at + |a|, b) == Overwrite(s, at, a + b)
  {
  }

  /** Writing over a part of the recording replaces that part and nothing else. */
  lemma Patched(s: seq<Byte>, from: nat, to: nat, front: seq<Byte>, was: seq<Byte>, back: seq<Byte>, d: seq<Byte>)
    requires from <= to <= |s| && s[from..to] == front + was + back && |d| == |was|
    ensures var r := Overwrite(s, from + |front|, d);
      |r| == |s| && r[from..to] == front + d + back && r[..from] == s[..from] && r[to..] == s[to..]
  {
    var at := from + |front|;
    var r := Overwrite(s, at, d);
    CutBack(s, from, to, front, was, back);
    assert r[at + |d|..to] == s[at + |d|..to];
    assert r[from..to] == r[from..at] + r[at..at + |d|] + r[at + |d|..to];
  }

  lemma CutBack(s: seq<Byte>, from: nat, to: nat, front: seq<Byte>, was: seq<Byte>, back: seq<Byte>)
    requires from <= to <= |s| && s[from..to] == front + was + back
    ensures s[from..from + |front|] == front && s[from + |front| + |was|..to] == back
  {
    var p := s[from..to];
    assert p[..|front|] == front && p[|front| + |was|..] == back;
    assert s[from..from + |front|] == p[..|front|];
    assert s[from + |front| + |was|..to] == p[|front| + |was|..];
  }

  // ----- the layout of an unfinished recording

  /** The closed segments: the chunks of the first, and the AVIX segments after it. */
  ghost function Finished(segs: seq<seq<FrameData>>): (b: seq<Byte>)
    requires segs != []
  {
    Chunks(segs[0]) + AvixSegments(segs[1..])
  }

  lemma FinishedPush(segs: seq<seq<FrameData>>, fs: seq<FrameData>)
    ensures segs == [] ==> Finished(segs + [fs]) == Chunks(fs)
    ensures segs != [] ==> Finished(segs + [fs]) == Finished(segs) + AvixSegment(fs)
  {
    hide Chunks, AvixSegment;
    if segs == [] {
      assert ([] + [fs])[1..] == [];
    } else {
      assert (segs + [fs])[1..] == segs[1..] + [fs];
      AvixSegmentsPush(segs[1..], fs);
    }
  }

  /** What lies between the fixed header and the chunks of the segment that is being written. */
  ghost function Before(closed: seq<seq<FrameData>>): (b: seq<Byte>) {
    if closed == [] then [] else Finished(closed) + AvixHeader(0, 0)
  }

  ghost function Layout(h: AviHeader, closed: seq<seq<FrameData>>, current: seq<FrameData>): (b: seq<Byte>) {
    Encode(h) + (Before(closed) + Chunks(current))
  }

  /** The header fields that are brought up to date whenever the header is written again. */
  function Refreshed(h: AviHeader, mjpg: bool, rate: int, idxSize: nat, segsize0: nat, nframes0: nat, nframes: nat): (r: AviHeader) {
    h.(flags := if idxSize > 0 then 0x10 else 0,
       uspf := if mjpg then rate else h.uspf, scale := if mjpg then rate else h.scale,
       riffSize := HDR_SIZE + segsize0 + idxSize, hdrlSize := HDR_SIZE - 20,
       nframes := nframes0, length := nframes0, dataSize := segsize0 + 4, odmlFrames := nframes)
  }

  /** Bringing the header up to date leaves its other fields alone; the frame time changes for MJPG only. */
  lemma RefreshedKeeps(h: AviHeader, mjpg: bool, rate: int, idxSize: nat, segsize0: nat, nframes0: nat, nframes: nat)
    ensures var r := Refreshed(h, mjpg, rate, idxSize, segsize0, nframes0, nframes);
      && r.bps == h.bps && r.width == h.width && r.height == h.height && r.handler == h.handler
      && r.bits == h.bits && r.imageSize == h.imageSize
      && r.uspf == (if mjpg then rate else h.uspf) && r.scale == (if mjpg then rate else h.scale)
  {
  }

  function FrameCount(segs: seq<seq<FrameData>>): (n: nat) {
    if segs == [] then 0 else FrameCount(segs[..|segs| - 1]) + |segs[|segs| - 1]|
  }

  /** What the counters and the header say about the segments; `closed` have their final size. */
  predicate Recorded(h: AviHeader, closed: seq<seq<FrameData>>, current: seq<FrameData>, nframes: nat, nframes0: nat, segsize0: nat) {
    && h.hdrlSize == HDR_SIZE - 20
    && nframes == FrameCount(closed) + |current|
    && (forall i :: 0 <= i < |closed| ==> Fits(closed[i]))
    && (closed != [] ==>
      nframes0 == |closed[0]| && segsize0 == |Chunks(closed[0])| && h.dataSize == segsize0 + 4)
  }

  lemma RecordedFirst(h: AviHeader, mjpg: bool, rate: int, current: seq<FrameData>, nframes: nat, nframes0: nat, segsize0: nat)
    requires Recorded(h, [], current, nframes, nframes0, segsize0) && Fits(current)
    ensures Recorded(Refreshed(h, mjpg, rate, 0, |Chunks(current)|, nframes, nframes), [] + [current], [], nframes, nframes, |Chunks(current)|)
  {
    assert [current][..0] == [];
  }

  lemma RecordedMore(h: AviHeader, closed: seq<seq<FrameData>>, current: seq<FrameData>, nframes: nat, nframes0: nat, segsize0: nat)
    requires closed != [] && Recorded(h, closed, current, nframes, nframes0, segsize0) && Fits(current)
    ensures Recorded(h, closed + [current], [], nframes, nframes0, segsize0)
  {
    assert (closed + [current])[..|closed|] == closed;
  }

  /** Writes the four parts of the fixed header at the cursor. */
  method WriteParts(chan: Channel, h: AviHeader)
    requires chan.Valid()
    modifies chan
    ensures chan.Valid() && chan.bytes == Overwrite(old(chan.bytes), old(chan.pos), Encode(h))
    ensures chan.pos == old(chan.pos) + FIXED_SIZE
  {
    ghost var s, at := chan.bytes, chan.pos;
    var hdr, hdrv := Flat(RiffWords(h)) + Flat(AvihWords(h)), Flat(VideoWords(h));
    var hdro, data := Flat(OdmlWords(h)), Flat(DataWords(h));
    assert Encode(h) == hdr + hdrv + hdro + data && |hdr| == 88 && |hdrv| == 116 && |hdro| == 24 && |data| == 12;
    hide *;
    chan.Write(hdr);
    OverwriteTwice(s, at, hdr, hdrv);
    chan.Write(hdrv);
    OverwriteTwice(s, at, hdr + hdrv, hdro);
    chan.Write(hdro);
    OverwriteTwice(s, at, hdr + hdrv + hdro, data);
    chan.Write(data);
  }

  /** Seeks back to the start of the recording, writes the fixed header again, and returns. */
  method PatchHeader(chan: Channel, pos0: nat, h: AviHeader, ghost was: AviHeader, ghost rest: seq<Byte>)
    requires pos0 <= chan.pos <= |chan.bytes| && chan.bytes[pos0..chan.pos] == Encode(was) + rest
    modifies chan
    ensures chan.pos == old(chan.pos) <= |chan.bytes| && chan.bytes[pos0..chan.pos] == Encode(h) + rest
    ensures chan.bytes[..pos0] == old(chan.bytes[..pos0])
  {
    hide *;
    var pos := chan.pos;
    assert Encode(was) + rest == [] + Encode(was) + rest;
    Patched(chan.bytes, pos0, pos, [], Encode(was), rest, Encode(h));
    chan.Seek(pos0);
    WriteParts(chan, h);
    chan.Seek(pos);
    assert [] + Encode(h) + rest == Encode(h) + rest;
  }

  /** The recording state, `tuvc->avi`; `closed` and `current` are the frames of its segments. */
  class Recorder {
    const chan: Channel
    const pos0: nat
    const mjpg: bool
    var rate: int
    var hdr: AviHeader
    var nframes: nat
    var nframes0: nat
    var totsize: nat
    var segsize: nat
    var segsize0: nat
    var segstart: nat
    var idxOff: int
    var currIdx: nat
    var numIdx: nat
    var idx: array?<IndexEntry>
    ghost var closed: seq<seq<FrameData>>
    ghost var current: seq<FrameData>
    ghost var indexed: bool  // no allocation for the index has failed

    /** Where in the channel the recording is, and that it is what it should be. */
    ghost predicate Written()
      reads `hdr, `closed, `current, chan
    {
      pos0 <= chan.pos <= |chan.bytes| && chan.bytes[pos0..chan.pos] == Layout(hdr, closed, current)
    }

    ghost predicate Sizes()
      reads `hdr, `closed, `current, `nframes, `nframes0, `segsize0, `segsize, `totsize, `segstart
    {
      && Recorded(hdr, closed, current, nframes, nframes0, segsize0)
      && segsize == |Chunks(current)| && Fits(current)
      && segsize <= totsize && (segsize < totsize <==> closed != [])
      && (closed != [] ==> segstart == pos0 + FIXED_SIZE + |Finished(closed)|)
    }

    /** The index array grows in steps of 512 entries. */
    ghost predicate Capacity()
      reads `currIdx, `numIdx, `idx, idx
    {
      currIdx <= numIdx && numIdx % INDEX_STEP == 0 && numIdx == (if idx == null then 0 else idx.Length)
    }

    /** Unless an allocation has failed, the index is that of the frames `fs`, whose chunks have `size` bytes. */
    ghost predicate Indexes(fs: seq<FrameData>, size: nat)
      requires Capacity()
      reads `currIdx, `numIdx, `idx, `idxOff, `indexed, idx
    {
      indexed ==> idxOff == 4 + size && (if fs == [] then idx == null else idx != null && idx[..currIdx] == IndexOf(fs))
    }

    ghost predicate Index()
      reads `currIdx, `numIdx, `idx, `idxOff, `indexed, `closed, `current, `segsize, idx
    {
      Capacity() && (if closed == [] then currIdx <= |current| && Indexes(current, segsize) else idx == null)
    }

    ghost predicate Valid()
      reads this, chan, idx
    {
      Written() && Sizes() && Index() && segsize <= SEGMENT_LIMIT
    }

    /** The AVI part of StartRecording. */
    constructor (chan: Channel, template: AviHeader, mjpg: bool, rate: int)
      requires chan.Valid()
      modifies chan
      ensures this.chan == chan && pos0 == old(chan.pos) <= |chan.bytes|
      ensures chan.bytes[..old(chan.pos)] == old(chan.bytes[..chan.pos])
      ensures Valid() && closed == [] && current == [] && indexed && idx == null
    {
      this.chan := chan;
      pos0 := chan.pos;
      this.mjpg := mjpg;
      this.rate := rate;
      hdr := template;
      nframes, nframes0, totsize, segsize, segstart := 0, 0, 0, 0, 0;
      segsize0 := 4;
      idxOff, currIdx, numIdx, idx := 4, 0, 0, null;
      closed, current, indexed := [], [], true;
      new;
      RefreshedFixed(template, mjpg, rate, 4);
      hide *;
      Appended(chan.bytes, pos0, pos0, Encode(template));
      WriteParts(chan, template);
      assert chan.bytes[pos0..chan.pos] == Encode(hdr) + [];
      WriteAVIHeader(false, []);
      StartedValid();
    }

    lemma StartedValid()
      requires pos0 <= chan.pos <= |chan.bytes| && chan.bytes[pos0..chan.pos] == Encode(hdr) + ([] + [])
      requires nframes == totsize == segsize == currIdx == numIdx == 0 && idx == null && idxOff == 4
      requires closed == [] && current == [] && hdr.hdrlSize == HDR_SIZE - 20
      ensures Valid()
    {
      hide Encode;
      assert Chunks(current) == [] && Before(closed) == [];
    }

    /** WriteAVIHeader: `rest` is what follows the fixed header, which is all that is patched. */
    method WriteAVIHeader(end: bool, ghost rest: seq<Byte>)
      requires pos0 <= chan.pos <= |chan.bytes| && chan.bytes[pos0..chan.pos] == Encode(hdr) + rest
      requires idx != null ==> currIdx <= idx.Length
      modifies this`hdr, this`idx, this`currIdx, this`numIdx, chan
      ensures pos0 <= chan.pos <= |chan.bytes| && chan.bytes[..pos0] == old(chan.bytes[..pos0])
      ensures var index := if end && old(idx) != null then IndexChunk(old(idx[..currIdx])) else [];
        && chan.bytes[pos0..chan.pos] == Encode(hdr) + (rest + index)
        && hdr == Refreshed(old(hdr), mjpg, rate, |index|, segsize0, nframes0, nframes)
        && chan.pos == old(chan.pos) + |index|
      ensures if end then idx == null && currIdx == numIdx == 0
                     else idx == old(idx) && currIdx == old(currIdx) && numIdx == old(numIdx)
    {
      hide *;
      ghost var index, was := [], hdr;
      var idxSize := 0;
      if end && idx != null {
        idxSize := AppendIndex(idx[..currIdx], rest);
        index := IndexChunk(idx[..currIdx]);
      } else {
        assert rest + [] == rest;
      }
      hdr := Refreshed(hdr, mjpg, rate, idxSize, segsize0, nframes0, nframes);
      PatchHeader(chan, pos0, hdr, was, rest + index);
      if end {
        currIdx, numIdx := 0, 0;
        idx := null;
      }
    }

    method AppendIndex(entries: seq<IndexEntry>, ghost rest: seq<Byte>) returns (idxSize: nat)
      requires pos0 <= chan.pos <= |chan.bytes| && chan.bytes[pos0..chan.pos] == Encode(hdr) + rest
      modifies chan
      ensures pos0 <= chan.pos <= |chan.bytes| && chan.bytes[..pos0] == old(chan.bytes[..pos0])
      ensures chan.bytes[pos0..chan.pos] == Encode(hdr) + (rest + IndexChunk(entries))
      ensures idxSize == |IndexChunk(entries)| && chan.pos == old(chan.pos) + idxSize
    {
      IndexParts(entries);
      hide *;
      var h := Tag("idx1") + Le32(16 * |entries|);
      chan.Append(h, pos0);
      chan.Append(IndexBody(entries), pos0);
      assert Encode(hdr) + rest + h + IndexBody(entries) == Encode(hdr) + (rest + (h + IndexBody(entries)));
      idxSize := 16 * |entries| + 8;
    }

    /** The first branch of CloseAVISegment: the open AVIX header gets its sizes. */
    method PatchSegment()
      requires Written() && Sizes() && closed != []
      modifies chan
      ensures chan.pos == old(chan.pos) <= |chan.bytes| && chan.bytes[..pos0] == old(chan.bytes[..pos0])
      ensures chan.bytes[pos0..chan.pos] == Encode(hdr) + (Finished(closed) + AvixSegment(current))
    {
      hide *;
      OpenSegment();
      var pos, xhdr := chan.pos, AvixHeader(segsize + 16, segsize + 4);
      ghost var front, back := Encode(hdr) + Finished(closed), Chunks(current);
      Patched(chan.bytes, pos0, pos, front, AvixHeader(0, 0), back, xhdr);
      SlotInside(front, AvixHeader(0, 0), back, pos - pos0);
      chan.Seek(segstart);
      chan.Write(xhdr);
      chan.Seek(pos);
      assert front + xhdr + back == Encode(hdr) + (Finished(closed) + (xhdr + back));
    }

    lemma OpenSegment()
      requires Written() && Sizes() && closed != []
      ensures pos0 <= chan.pos <= |chan.bytes|
      ensures chan.bytes[pos0..chan.pos] == Encode(hdr) + Finished(closed) + AvixHeader(0, 0) + Chunks(current)
      ensures segsize == |Chunks(current)| && segstart == pos0 + |Encode(hdr) + Finished(closed)|
      ensures AvixSegment(current) == AvixHeader(segsize + 16, segsize + 4) + Chunks(current)
    {
      hide Encode, Chunks, AvixHeader, Finished, Fits;
      assert Before(closed) == Finished(closed) + AvixHeader(0, 0);
    }

    lemma WhichSegment()
      requires Written() && Sizes()
      ensures totsize > segsize <==> closed != []
      ensures pos0 <= chan.pos <= |chan.bytes|
      ensures Recorded(hdr, closed, current, nframes, nframes0, segsize0) && Fits(current) && segsize == |Chunks(current)|
    {
    }

    lemma FirstSegment()
      requires Written() && Sizes() && closed == []
      ensures pos0 <= chan.pos <= |chan.bytes| && chan.bytes[pos0..chan.pos] == Encode(hdr) + Chunks(current)
    {
      hide Encode, Chunks, Fits;
      assert Before(closed) == [];
    }

    /** CloseAVISegment, up to the header of the next segment. */
    method CloseSegment()
      requires Written() && Sizes() && (idx != null ==> currIdx <= idx.Length)
      modifies chan, this`hdr, this`nframes0, this`segsize0, this`segsize, this`segstart, this`closed, this`current
      modifies this`idx, this`currIdx, this`numIdx
      ensures pos0 <= chan.pos == old(chan.pos) <= |chan.bytes| && chan.bytes[..pos0] == old(chan.bytes[..pos0])
      ensures closed == old(closed) + [old(current)] && current == []
      ensures chan.bytes[pos0..chan.pos] == Encode(hdr) + Finished(closed)
      ensures segsize == 0 && segstart == chan.pos && Recorded(hdr, closed, current, nframes, nframes0, segsize0)
      ensures idx == old(idx) && currIdx == old(currIdx) && numIdx == old(numIdx)
    {
      hide *;
      FinishedPush(closed, current);
      WhichSegment();
      var pos := chan.pos;
      if totsize > segsize {
        PatchSegment();
        RecordedMore(hdr, closed, current, nframes, nframes0, segsize0);
      } else {
        FirstSegment();
        RecordedFirst(hdr, mjpg, rate, current, nframes, nframes0, segsize0);
        nframes0 := nframes;
        segsize0 := segsize;
        WriteAVIHeader(false, Chunks(current));
        assert Chunks(current) + [] == Chunks(current);
      }
      segsize := 0;
      segstart := pos;
      closed := closed + [current];
      current := [];
    }

    /** CloseAVISegment. */
    method CloseAVISegment(end: bool)
      requires Written() && Sizes() && (idx != null ==> currIdx <= idx.Length) && (!end ==> totsize > 0)
      modifies chan, this`hdr, this`nframes0, this`segsize0, this`segsize, this`segstart, this`closed, this`current
      modifies this`idx, this`currIdx, this`numIdx
      ensures pos0 <= chan.pos <= |chan.bytes| && chan.bytes[..pos0] == old(chan.bytes[..pos0])
      ensures closed == old(closed) + [old(current)] && current == []
      ensures if end then chan.bytes[pos0..chan.pos] == Encode(hdr) + Finished(closed) &&
                          Recorded(hdr, closed, current, nframes, nframes0, segsize0)
                     else Written() && Sizes() && segsize == 0
      ensures closed != []
      ensures idx == old(idx) && currIdx == old(currIdx) && numIdx == old(numIdx)
    {
      hide *;
      CloseSegment();
      if !end {
        chan.Append(AvixHeader(0, 0), pos0);
        NextSegment();
      }
    }

    lemma NextSegment()
      requires closed != [] && current == [] && segsize == 0 < totsize
      requires pos0 <= chan.pos <= |chan.bytes|
      requires chan.bytes[pos0..chan.pos] == Encode(hdr) + Finished(closed) + AvixHeader(0, 0)
      requires segstart + 24 == chan.pos && Recorded(hdr, closed, current, nframes, nframes0, segsize0)
      ensures Written() && Sizes()
    {
      hide Encode, AvixHeader, Finished, Recorded;
      assert Chunks(current) == [];
      assert Encode(hdr) + Finished(closed) + AvixHeader(0, 0) == Encode(hdr) + (Before(closed) + []);
    }

    /** The chunk of WriteFrame: header, data, and zeros up to the next 32-bit boundary. */
    method AppendChunk(f: FrameData) returns (sizea: nat)
      requires pos0 <= chan.pos <= |chan.bytes|
      modifies chan
      ensures pos0 <= chan.pos <= |chan.bytes| && chan.bytes[..pos0] == old(chan.bytes[..pos0])
      ensures chan.bytes[pos0..chan.pos] == old(chan.bytes[pos0..chan.pos]) + Chunk(f)
      ensures sizea == Padded(|f|)
    {
      hide *;
      var size := |f|;
      sizea := Padded(size);
      ghost var was := chan.bytes[pos0..chan.pos];
      ChunkParts(f);
      chan.Append(Tag("00db") + Le32(sizea), pos0);
      chan.Append(f, pos0);
      if sizea > size {
        chan.Append(Zeros(sizea - size), pos0);
      } else {
        assert Zeros(sizea - size) == [];
      }
      assert was + (Tag("00db") + Le32(sizea)) + f + Zeros(sizea - size) == was + (Tag("00db") + Le32(sizea) + f + Zeros(sizea - size));
    }

    /** The reallocation of the index. */
    method GrowIndex(newsize: nat) returns (newidx: array<IndexEntry>)
      requires Capacity() && newsize >= numIdx
      ensures fresh(newidx) && newidx.Length == newsize
      ensures idx != null ==> newidx[..currIdx] == idx[..currIdx]
    {
      newidx := new IndexEntry[newsize];
      if idx != null {
        for i := 0 to currIdx
          invariant newidx[..i] == idx[..i]
        {
          newidx[i] := idx[i];
          assert newidx[..i + 1] == newidx[..i] + [newidx[i]];
        }
      }
    }

    /** The index part of WriteFrame; `allocOk` is the answer of the reallocation, where one is due. */
    method AddIndexEntry(sizea: nat, allocOk: bool, ghost fs: seq<FrameData>, ghost f: FrameData)
      requires Capacity() && Indexes(fs, |Chunks(fs)|) && sizea == Padded(|f|)
      modifies this`idx, this`currIdx, this`numIdx, this`idxOff, this`indexed, idx
      ensures Capacity() && Indexes(fs + [f], |Chunks(fs)| + 8 + sizea)
      ensures allocOk ==> indexed == old(indexed)
      ensures idx == old(idx) || idx == null || fresh(idx)
      ensures currIdx <= old(currIdx) + 1
    {
      IndexPush(fs, f);
      hide IndexOf, Chunks;
      if currIdx >= numIdx {
        if allocOk {
          var newidx := GrowIndex(numIdx + INDEX_STEP);
          numIdx := numIdx + INDEX_STEP;
          idx := newidx;
        } else {
          currIdx, numIdx := 0, 0;
          idx := null;
          indexed := false;
        }
      }
      if idx != null {
        idx[currIdx] := IndexEntry(idxOff, sizea);
        assert idx[..currIdx + 1] == idx[..currIdx] + [idx[currIdx]];
        currIdx := currIdx + 1;
        idxOff := idxOff + sizea + 8;
      }
    }

    /** The first half of the AVI part of WriteFrame: the chunk, and the counters. */
    method AppendFrame(f: FrameData) returns (sizea: nat)
      requires Valid()
      modifies chan, `nframes, `totsize, `segsize, `current
      ensures Written() && Sizes() && chan.bytes[..pos0] == old(chan.bytes[..pos0])
      ensures current == old(current) + [f] && sizea == Padded(|f|) && segsize == old(segsize) + sizea + 8 && totsize > 0
      ensures totsize == segsize <==> closed == []
      ensures Capacity() && (idx != null ==> currIdx <= idx.Length)
      ensures if closed == [] then currIdx <= |old(current)| && Indexes(old(current), |Chunks(old(current))|)
              else idx == null && currIdx == numIdx == 0
      ensures segsize == |Chunks(current)| == |Chunks(old(current))| + 8 + sizea
    {
      hide *;
      Unfold();
      FrameNext(hdr, closed, current, f, nframes, nframes0, segsize0);
      sizea := AppendChunk(f);
      nframes := nframes + 1;
      totsize := totsize + sizea + 8;
      segsize := segsize + sizea + 8;
      current := current + [f];
      FoldSizes();
    }

    /** The AVI part of WriteFrame. */
    method WriteFrame(f: FrameData, newRate: int, allocOk: bool)
      requires Valid()
      modifies this, chan, idx
      ensures Valid() && chan.bytes[..pos0] == old(chan.bytes[..pos0])
      ensures closed + [current] == NextSegments(old(closed), old(current), f)
      ensures allocOk ==> indexed == old(indexed)
      ensures idx == old(idx) || idx == null || fresh(idx)
    {
      hide *;
      NextIs(closed, current, f);
      ghost var fs := current;
      var sizea := AppendFrame(f);
      if segsize > SEGMENT_LIMIT {
        CloseAVISegment(false);
        currIdx, numIdx := 0, 0;
        idx := null;
        NoIndex();
      } else if totsize == segsize {
        AddIndexEntry(sizea, allocOk, fs, f);
        FirstIndex();
      } else {
        NoIndex();
      }
      rate := newRate;
      FoldValid();
    }

    /** The end of FinishRecording: the last segment is closed, and the index, if any, and the header are written. */
    method Finish() returns (ghost index: Option<seq<IndexEntry>>)
      requires Valid()
      modifies this, chan
      ensures pos0 <= chan.pos <= |chan.bytes| && chan.bytes[..pos0] == old(chan.bytes[..pos0])
      ensures closed == old(closed) + [old(current)]
      ensures chan.bytes[pos0..chan.pos] == File(hdr, closed[0], index, closed[1..])
      ensures Readable(hdr, closed[0], index, closed[1..]) && hdr.nframes == |closed[0]| && hdr.odmlFrames == FrameCount(closed)
      ensures hdr.length == hdr.nframes && hdr.flags == if index.Some? then 0x10 else 0
      // the first RIFF chunk ends 8 + riffSize bytes after its start, by its own size field; really, it is 4 bytes longer
      ensures 8 + hdr.riffSize + 4 == FIXED_SIZE + |Chunks(closed[0])| + (if index.Some? then |IndexChunk(index.value)| else 0)
      ensures if |closed| > 1 then index == None
              else old(indexed) && closed[0] != [] ==> index == Some(IndexOf(closed[0]))
    {
      hide *;
      Unfold();
      SmallIndex();
      FoldSizes();
      ghost var entries := if idx == null then [] else idx[..currIdx];
      index := if idx == null then None else Some(entries);
      CloseAVISegment(true);
      ghost var was := hdr;
      WriteAVIHeader(true, Finished(closed));
      FileIs(hdr, closed, index);
      ReadableIs(was, mjpg, rate, closed, index, nframes, nframes0, segsize0);
    }

    lemma SmallIndex()
      requires Valid()
      ensures idx != null ==> closed == [] && 16 * currIdx < TWO_32
      ensures closed == [] && indexed && current != [] ==> idx != null && idx[..currIdx] == IndexOf(current)
      ensures Fits(current)
    {
      ChunksLength(current);
    }

    lemma Unfold()
      requires Valid()
      ensures pos0 <= chan.pos <= |chan.bytes| && chan.bytes[pos0..chan.pos] == Layout(hdr, closed, current)
      ensures Recorded(hdr, closed, current, nframes, nframes0, segsize0)
      ensures segsize == |Chunks(current)| <= SEGMENT_LIMIT && segsize <= totsize && (segsize < totsize <==> closed != [])
      ensures closed != [] ==> segstart == pos0 + FIXED_SIZE + |Finished(closed)|
      ensures Capacity() && (idx != null ==> currIdx <= idx.Length)
      ensures if closed == [] then currIdx <= |current| && Indexes(current, segsize) else idx == null && currIdx == numIdx == 0
    {
    }

    lemma InFile()
      requires Valid()
      ensures pos0 <= chan.pos <= |chan.bytes|
    {
    }

    lemma FoldSizes()
      requires pos0 <= chan.pos <= |chan.bytes| && chan.bytes[pos0..chan.pos] == Layout(hdr, closed, current)
      requires Recorded(hdr, closed, current, nframes, nframes0, segsize0) && Fits(current)
      requires segsize == |Chunks(current)| && segsize <= totsize && (segsize < totsize <==> closed != [])
      requires closed != [] ==> segstart == pos0 + FIXED_SIZE + |Finished(closed)|
      ensures Written() && Sizes()
    {
    }

    lemma NoIndex()
      requires idx == null && currIdx == numIdx == 0
      requires closed != []
      ensures Index()
    {
    }

    lemma FirstIndex()
      requires closed == [] && Capacity() && currIdx <= |current| && Indexes(current, segsize)
      ensures Index()
    {
    }

    lemma FoldValid()
      requires Written() && Sizes() && Index() && (segsize <= SEGMENT_LIMIT || segsize == 0)
      ensures Valid()
    {
    }
  }

  lemma NextIs(closed: seq<seq<FrameData>>, current: seq<FrameData>, f: FrameData)
    ensures |Chunks(current + [f])| > SEGMENT_LIMIT ==> NextSegments(closed, current, f) == closed + [current + [f]] + [[]]
    ensures |Chunks(current + [f])| <= SEGMENT_LIMIT ==> NextSegments(closed, current, f) == closed + [current + [f]]
  {
  }

  /** One more frame: what is appended, and that all sizes still fit in 32 bits. */
  lemma FrameNext(h: AviHeader, closed: seq<seq<FrameData>>, current: seq<FrameData>, f: FrameData, nframes: nat, nframes0: nat, segsize0: nat)
    requires |Chunks(current)| <= SEGMENT_LIMIT && Recorded(h, closed, current, nframes, nframes0, segsize0)
    ensures Layout(h, closed, current + [f]) == Layout(h, closed, current) + Chunk(f)
    ensures |Chunks(current + [f])| == |Chunks(current)| + Padded(|f|) + 8 && Fits(current + [f])
    ensures Recorded(h, closed, current + [f], nframes + 1, nframes0, segsize0)
  {
    hide Encode, Before, Chunk, Chunks;
    ChunksPush(current, f);
  }

  /** The segments after one more frame: the last one is closed when it has grown beyond the limit. */
  ghost function NextSegments(closed: seq<seq<FrameData>>, current: seq<FrameData>, f: FrameData): (r: seq<seq<FrameData>>) {
    if |Chunks(current + [f])| > SEGMENT_LIMIT then closed + [current + [f], []] else closed + [current + [f]]
  }

  lemma IndexPush(fs: seq<FrameData>, f: FrameData)
    ensures IndexOf(fs + [f]) == IndexOf(fs) + [IndexEntry(4 + |Chunks(fs)|, Padded(|f|))]
    ensures IndexOf([]) == []
  {
    hide Chunks, Padded;
    assert (fs + [f])[..|fs|] == fs;
    forall k | 0 <= k < |fs| ensures (fs + [f])[..k] == fs[..k] {
    }
  }

  lemma ChunkParts(f: FrameData)
    ensures Chunk(f) == Tag("00db") + Le32(Padded(|f|)) + f + Zeros(Padded(|f|) - |f|)
  {
  }

  lemma SlotInside(front: seq<Byte>, slot: seq<Byte>, back: seq<Byte>, n: int)
    requires |front + slot + back| == n
    ensures |front| + |slot| <= n
  {
  }

  lemma IndexParts(es: seq<IndexEntry>)
    ensures IndexChunk(es) == Tag("idx1") + Le32(16 * |es|) + IndexBody(es)
  {
  }

  lemma RefreshedFixed(h: AviHeader, mjpg: bool, rate: int, segsize0: nat)
    ensures Refreshed(h, mjpg, rate, 0, segsize0, 0, 0).hdrlSize == HDR_SIZE - 20
  {
  }

  lemma {:induction false} ChunksLength(fs: seq<FrameData>)
    ensures 8 * |fs| <= |Chunks(fs)|
  {
    if fs != [] {
      ChunksLength(fs[1..]);
    }
  }

  lemma FileIs(h: AviHeader, segs: seq<seq<FrameData>>, index: Option<seq<IndexEntry>>)
    requires segs != [] && (index.Some? ==> |segs| == 1)
    ensures Encode(h) + (Finished(segs) + (if index.Some? then IndexChunk(index.value) else [])) == File(h, segs[0], index, segs[1..])
  {
    hide Encode, Chunks, IndexChunk;
    if index.Some? {
      assert segs[1..] == [];
    }
  }

  lemma ReadableIs(was: AviHeader, mjpg: bool, rate: int, segs: seq<seq<FrameData>>, index: Option<seq<IndexEntry>>,
                   nframes: nat, nframes0: nat, segsize0: nat)
    requires segs != [] && Recorded(was, segs, [], nframes, nframes0, segsize0) && (index.Some? ==> 16 * |index.value| < TWO_32)
    ensures var idxSize := if index.Some? then |IndexChunk(index.value)| else 0;
      var h := Refreshed(was, mjpg, rate, idxSize, segsize0, nframes0, nframes);
      && Readable(h, segs[0], index, segs[1..]) && h.nframes == |segs[0]| && h.odmlFrames == FrameCount(segs)
      && h.length == h.nframes && h.flags == (if index.Some? then 0x10 else 0)
      && h.riffSize + 12 == FIXED_SIZE + |Chunks(segs[0])| + idxSize
  {
    hide Chunks, IndexChunk, FrameCount, Fits;
    forall i | 0 <= i < |segs[1..]| ensures Fits(segs[1..][i]) {
      assert Fits(segs[i + 1]);
    }
    assert Fits(segs[0]);
  }

  // ----- whole recordings

  /** The frames of all segments, in order. */
  function AllFrames(segs: seq<seq<FrameData>>): (fs: seq<FrameData>) {
    if segs == [] then [] else segs[0] + AllFrames(segs[1..])
  }

  lemma {:induction false} AllFramesAppend(a: seq<seq<FrameData>>, b: seq<seq<FrameData>>)
    ensures AllFrames(a + b) == AllFrames(a) + AllFrames(b)
  {
    hide *;
    AllFramesUnfold(a);
    if a == [] {
      assert a + b == b;
    } else {
      AllFramesAppend(a[1..], b);
      AllFramesUnfold(a + b);
      assert (a + b)[1..] == a[1..] + b;
    }
  }

  lemma AllFramesUnfold(segs: seq<seq<FrameData>>)
    ensures AllFrames(segs) == if segs == [] then [] else segs[0] + AllFrames(segs[1..])
  {
  }

  /** However a frame falls into the segments, it comes after all frames recorded before. */
  lemma NextSegmentsFrames(closed: seq<seq<FrameData>>, current: seq<FrameData>, f: FrameData)
    ensures AllFrames(NextSegments(closed, current, f)) == AllFrames(closed + [current]) + [f]
  {
    hide AllFrames, Chunks;
    AllFramesAppend(closed, [current]);
    AllFramesAppend(closed, [current + [f]]);
    AllFramesAppend(closed, [current + [f], []]);
    FewFrames(current);
    FewFrames(current + [f]);
  }

  lemma FewFrames(fs: seq<FrameData>)
    ensures AllFrames([fs]) == AllFrames([fs, []]) == fs
  {
    assert [fs, []][1..] == [[]] && AllFrames([[]]) == [];
  }

  lemma {:induction false} StoredSegmentsFlat(segs: seq<seq<FrameData>>)
    ensures StoredSegments(segs) == StoredAll(AllFrames(segs))
  {
    if segs != [] {
      StoredSegmentsFlat(segs[1..]);
      var a, b := segs[0], AllFrames(segs[1..]);
      assert StoredAll(a + b) == StoredAll(a) + StoredAll(b);
    }
  }

  /**
   A reader finds all of `frames` in the file `b`, zero-padded and in order; the header walks through by its own
   sizes, and tells how many frames there are, how many in the first segment, and whether there is an index.
   */
  ghost predicate Complete(b: seq<Byte>, frames: seq<FrameData>, first: nat, indexed: bool) {
    ReadFile(b) == Some(StoredAll(frames)) && HeaderWalks(b) && HeaderCounts(b, first, |frames|, indexed)
  }

  /** A segment never grows beyond its limit between frames, so the offsets of its index are positive 32-bit integers. */
  lemma OffsetsFit(r: Recorder, k: nat)
    requires r.Valid() && r.closed == [] && r.indexed && k < |r.current|
    ensures r.idx != null && r.currIdx == |r.current| <= r.idx.Length
    ensures 0 <= r.idx[k].offset < 0x8000_0000 && FromLe32(Le32(r.idx[k].offset)) == r.idx[k].offset
    ensures r.idx[k].offset + 8 + r.idx[k].size <= r.idxOff == 4 + r.segsize
  {
    hide Chunks, Le32, FromLe32, Layout, Recorded, Padded;
    ChunkAt(r.current, k);
    assert r.idx[k] == r.idx[..r.currIdx][k];
    Le32RoundTrip(r.idx[k].offset);
  }

  /** Any number of frames, recorded one after another; `rates` and `allocs` are what the outside world answers. */
  method RecordFrames(r: Recorder, frames: seq<FrameData>, rates: seq<int>, allocs: seq<bool>)
    requires r.Valid() && |rates| == |allocs| == |frames| && r.idx == null
    modifies r, r.chan
    ensures r.Valid() && (r.idx == null || fresh(r.idx)) && r.chan.bytes[..r.pos0] == old(r.chan.bytes[..r.pos0])
    ensures AllFrames(r.closed + [r.current]) == AllFrames(old(r.closed + [r.current])) + frames
    ensures (forall i :: 0 <= i < |allocs| ==> allocs[i]) ==> r.indexed == old(r.indexed)
  {
    hide *;
    r.InFile();
    ghost var fs, before := AllFrames(r.closed + [r.current]), r.chan.bytes[..r.pos0];
    for n := 0 to |frames|
      invariant r.Valid() && (r.idx == null || fresh(r.idx)) && r.pos0 <= |r.chan.bytes| && r.chan.bytes[..r.pos0] == before
      invariant AllFrames(r.closed + [r.current]) == fs + frames[..n]
      invariant (forall i :: 0 <= i < n ==> allocs[i]) ==> r.indexed == old(r.indexed)
    {
      NextSegmentsFrames(r.closed, r.current, frames[n]);
      r.WriteFrame(frames[n], rates[n], allocs[n]);
      r.InFile();
      assert fs + frames[..n + 1] == fs + frames[..n] + [frames[n]];
    }
    assert frames[..|frames|] == frames;
  }

  /**
   A whole recording of any number of frames: walking the finished file by its size fields gives back
   exactly these frames, zero-padded, in order.  Its header walks through by its own sizes and tells the frame
   counts, and while it has one segment, the index in the file leads to each frame.
   */
  method Session(chan: Channel, template: AviHeader, mjpg: bool, frames: seq<FrameData>, rates: seq<int>, allocs: seq<bool>)
    returns (r: Recorder, ghost index: Option<seq<IndexEntry>>)
    requires chan.pos <= |chan.bytes| && |rates| == |allocs| == |frames|
    modifies chan
    ensures r.pos0 == old(chan.pos) <= chan.pos <= |chan.bytes|
    ensures chan.bytes[..old(chan.pos)] == old(chan.bytes[..chan.pos])
    ensures r.closed != [] && Complete(chan.bytes[r.pos0..chan.pos], frames, |r.closed[0]|, index.Some?)
    ensures |r.closed| == 1 && frames != [] && (forall i :: 0 <= i < |allocs| ==> allocs[i]) ==>
      index.Some? && IndexOnDisk(chan.bytes[r.pos0..chan.pos], frames)
  {
    assert chan.Valid();
    hide *;
    r := new Recorder(chan, template, mjpg, 0);
    NoFrames();
    RecordFrames(r, frames, rates, allocs);
    assert [] + frames == frames;
    index := r.Finish();
    SessionReads(r.hdr, r.closed, index, frames);
  }

  lemma NoFrames()
    ensures AllFrames([] + [[]]) == []
  {
  }

  lemma SessionReads(h: AviHeader, segs: seq<seq<FrameData>>, index: Option<seq<IndexEntry>>, frames: seq<FrameData>)
    requires segs != [] && AllFrames(segs) == frames && Readable(h, segs[0], index, segs[1..])
    requires h.length == h.nframes == |segs[0]| && h.odmlFrames == FrameCount(segs) && h.flags == if index.Some? then 0x10 else 0
    ensures var b := File(h, segs[0], index, segs[1..]);
      && Complete(b, frames, |segs[0]|, index.Some?)
      && (|segs| == 1 ==> segs[0] == frames)
      && (|segs| == 1 && index == Some(IndexOf(frames)) ==> IndexOnDisk(b, frames))
  {
    SplitFrames(segs);
    hide *;
    ReadFileBack(h, segs[0], index, segs[1..]);
    HeaderFirst(h, segs[0], index, segs[1..]);
    HeaderWalked(h, File(h, segs[0], index, segs[1..]));
    FrameCountAll(segs);
    FewFirst(h, segs[0], index, segs[1..]);
    CountsReadBack(h, File(h, segs[0], index, segs[1..]), index.Some?);
    CompleteIs(File(h, segs[0], index, segs[1..]), frames, |segs[0]|, index.Some?);
    if |segs| == 1 && index == Some(IndexOf(frames)) {
      assert segs[1..] == [];
      IndexReadBack(h, frames);
    }
  }

  lemma CompleteIs(b: seq<Byte>, frames: seq<FrameData>, first: nat, indexed: bool)
    requires ReadFile(b) == Some(StoredAll(frames)) && HeaderWalks(b) && HeaderCounts(b, first, |frames|, indexed)
    ensures Complete(b, frames, first, indexed)
  {
  }

  lemma HeaderFirst(h: AviHeader, first: seq<FrameData>, index: Option<seq<IndexEntry>>, more: seq<seq<FrameData>>)
    ensures Encode(h) <= File(h, first, index, more)
  {
  }

  lemma FewFirst(h: AviHeader, first: seq<FrameData>, index: Option<seq<IndexEntry>>, more: seq<seq<FrameData>>)
    requires Readable(h, first, index, more)
    ensures |first| < TWO_32
  {
    ChunksLength(first);
  }

  lemma {:induction false} FrameCountAll(segs: seq<seq<FrameData>>)
    ensures FrameCount(segs) == |AllFrames(segs)|
  {
    if segs != [] {
      var n := |segs| - 1;
      FrameCountAll(segs[..n]);
      AllFramesAppend(segs[..n], [segs[n]]);
      FewFrames(segs[n]);
      assert segs == segs[..n] + [segs[n]];
    }
  }

  lemma SplitFrames(segs: seq<seq<FrameData>>)
    requires segs != []
    ensures StoredAll(segs[0]) + StoredSegments(segs[1..]) == StoredAll(AllFrames(segs))
    ensures |segs| == 1 ==> AllFrames(segs) == segs[0]
  {
    StoredSegmentsFlat(segs);
  }
}
