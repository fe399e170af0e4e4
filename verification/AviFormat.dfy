/**
 The AVI files that tcluvc.c writes: their byte layout, and a reader that walks the RIFF structure
 by its size fields alone.  The reader gives back exactly the recorded frames.
 */
module AviFormat {
  import opened Bytes

  type Word = w: seq<Byte> | |w| == 4 witness [0, 0, 0, 0]

  /** A four-character code. */
  function Tag(s: string): (w: Word)
    requires |s| == 4 && forall i :: 0 <= i < 4 ==> s[i] as int < 256
  {
    [s[0] as int, s[1] as int, s[2] as int, s[3] as int]
  }

  function Flat(ws: seq<Word>): (b: seq<Byte>)
    ensures |b| == 4 * |ws|
  {
    if ws == [] then [] else ws[0] + Flat(ws[1..])
  }

  lemma {:induction false} FlatAt(ws: seq<Word>, k: nat)
    requires k < |ws|
    ensures Flat(ws)[4 * k..4 * k + 4] == ws[k]
  {
    if k > 0 {
      FlatAt(ws[1..], k - 1);
      assert Flat(ws)[4 * k..4 * k + 4] == Flat(ws[1..])[4 * k - 4..4 * k];
    }
  }

  // ----- chunks

  /** A recorded frame. */
  type FrameData = f: seq<Byte> | |f| <= MAX_FRAME witness []

  /** The largest size that is still an `int` when it is rounded up to a multiple of 4. */
  const MAX_FRAME: int := 0x7FFF_FFFC

  function Padded(size: nat): (n: nat)
    ensures size <= n < size + 4 && n % 4 == 0
  {
    (size + 3) / 4 * 4
  }

  function Zeros(n: nat): (z: seq<Byte>)
    ensures |z| == n
  {
    seq(n, _ => 0)
  }

  /** The frame as it is stored, zero-padded to a multiple of 4 bytes. */
  function Stored(f: FrameData): (b: seq<Byte>)
    ensures |b| == Padded(|f|) && f <= b
  {
    f + Zeros(Padded(|f|) - |f|)
  }

  function Chunk(f: FrameData): (b: seq<Byte>)
    ensures |b| == 8 + Padded(|f|)
  {
    Tag("00db") + Le32(Padded(|f|)) + Stored(f)
  }

  function Chunks(fs: seq<FrameData>): (b: seq<Byte>) {
    if fs == [] then [] else Chunk(fs[0]) + Chunks(fs[1..])
  }

  function StoredAll(fs: seq<FrameData>): (r: seq<seq<Byte>>)
    ensures |r| == |fs|
  {
    seq(|fs|, i requires 0 <= i < |fs| => Stored(fs[i]))
  }

  lemma {:induction false} ChunksPush(fs: seq<FrameData>, f: FrameData)
    ensures Chunks(fs + [f]) == Chunks(fs) + Chunk(f)
  {
    hide Chunk;
    if fs == [] {
      assert (fs + [f])[1..] == [];
    } else {
      ChunksPush(fs[1..], f);
      assert (fs + [f])[1..] == fs[1..] + [f];
    }
  }

  /** Chunk `k` lies behind the chunks before it. */
  lemma {:induction false} ChunkAt(fs: seq<FrameData>, k: nat)
    requires k < |fs|
    ensures var at := |Chunks(fs[..k])|;
      at + |Chunk(fs[k])| <= |Chunks(fs)| && Chunks(fs)[at..at + |Chunk(fs[k])|] == Chunk(fs[k])
  {
    if k > 0 {
      ChunkAt(fs[1..], k - 1);
      assert fs[..k][1..] == fs[1..][..k - 1];
    } else {
      assert fs[..0] == [];
    }
  }

  // ----- segments

  /** The header of an AVIX segment, `struct AVIX_HDR`. */
  function AvixHeader(riffSize: int, dataSize: int): (b: seq<Byte>)
    ensures |b| == 24
  {
    Flat([Tag("RIFF"), Le32(riffSize), Tag("AVIX"), Tag("LIST"), Le32(dataSize), Tag("movi")])
  }

  /** A closed AVIX segment: its RIFF and movi sizes reach exactly to its end. */
  function AvixSegment(fs: seq<FrameData>): (b: seq<Byte>)
    ensures |b| == 24 + |Chunks(fs)|
  {
    AvixHeader(|Chunks(fs)| + 16, |Chunks(fs)| + 4) + Chunks(fs)
  }

  function AvixSegments(segs: seq<seq<FrameData>>): (b: seq<Byte>) {
    if segs == [] then [] else AvixSegment(segs[0]) + AvixSegments(segs[1..])
  }

  lemma {:induction false} AvixSegmentsPush(segs: seq<seq<FrameData>>, fs: seq<FrameData>)
    ensures AvixSegments(segs + [fs]) == AvixSegments(segs) + AvixSegment(fs)
  {
    hide AvixSegment;
    if segs == [] {
      assert (segs + [fs])[1..] == [];
    } else {
      AvixSegmentsPush(segs[1..], fs);
      assert (segs + [fs])[1..] == segs[1..] + [fs];
    }
  }

  /** The frames of a segment fit, with headers, in 32-bit sizes. */
  predicate Fits(fs: seq<FrameData>) { |Chunks(fs)| + 16 < TWO_32 }

  // ----- the fixed header: AVI_HDR, AVI_HDR_VIDEO, AVI_HDR_ODML and AVI_DATA

  const HDR_SIZE: int := 228
  const FIXED_SIZE: int := 240

  datatype AviHeader = AviHeader(
    riffSize: int, hdrlSize: int, uspf: int, bps: int, flags: int, nframes: int, width: int, height: int,
    handler: Word, scale: int, length: int, bits: nat, imageSize: int, odmlFrames: int, dataSize: int)

  function RiffWords(h: AviHeader): (ws: seq<Word>)
    ensures |ws| == 6
  {
    [Tag("RIFF"), Le32(h.riffSize), Tag("AVI "), Tag("LIST"), Le32(h.hdrlSize), Tag("hdrl")]
  }

  function AvihWords(h: AviHeader): (ws: seq<Word>)
    ensures |ws| == 16
  {
    [Tag("avih"), Le32(56), Le32(h.uspf), Le32(h.bps), Le32(0), Le32(h.flags), Le32(h.nframes), Le32(0), Le32(1), Le32(0),
     Le32(h.width), Le32(h.height), Le32(0), Le32(0), Le32(0), Le32(0)]
  }

  function VideoWords(h: AviHeader): (ws: seq<Word>)
    ensures |ws| == 29
  {
    [Tag("LIST"), Le32(108), Tag("strl"), Tag("strh"), Le32(48), Tag("vids"), h.handler, Le32(0), Le32(0), Le32(0),
     Le32(h.scale), Le32(1000000), Le32(0), Le32(h.length), Le32(0), Le32(0), Le32(0),
     Tag("strf"), Le32(40), Le32(40), Le32(h.width), Le32(h.height), Le32(1 + 0x1_0000 * h.bits), h.handler, Le32(h.imageSize),
     Le32(0), Le32(0), Le32(0), Le32(0)]
  }

  function OdmlWords(h: AviHeader): (ws: seq<Word>)
    ensures |ws| == 6
  {
    [Tag("LIST"), Le32(16), Tag("odml"), Tag("dmlh"), Le32(4), Le32(h.odmlFrames)]
  }

  function DataWords(h: AviHeader): (ws: seq<Word>)
    ensures |ws| == 3
  {
    [Tag("LIST"), Le32(h.dataSize), Tag("movi")]
  }

  function Encode(h: AviHeader): (b: seq<Byte>)
    ensures |b| == FIXED_SIZE
  {
    Flat(RiffWords(h)) + Flat(AvihWords(h)) + Flat(VideoWords(h)) + Flat(OdmlWords(h)) + Flat(DataWords(h))
  }

  // ----- the index

  datatype IndexEntry = IndexEntry(offset: int, size: int)

  function EntryBytes(e: IndexEntry): (b: seq<Byte>)
    ensures |b| == 16
  {
    Flat([Tag("00db"), Le32(0), Le32(e.offset), Le32(e.size)])
  }

  function IndexBody(es: seq<IndexEntry>): (b: seq<Byte>)
    ensures |b| == 16 * |es|
  {
    if es == [] then [] else EntryBytes(es[0]) + IndexBody(es[1..])
  }

  function IndexChunk(es: seq<IndexEntry>): (b: seq<Byte>)
    ensures |b| == 8 + 16 * |es|
  {
    Tag("idx1") + Le32(16 * |es|) + IndexBody(es)
  }

  /** The index of the frames of the first segment: offsets count from the movi tag. */
  function IndexOf(fs: seq<FrameData>): (es: seq<IndexEntry>)
    ensures |es| == |fs|
  {
    seq(|fs|, k requires 0 <= k < |fs| => IndexEntry(4 + |Chunks(fs[..k])|, Padded(|fs[k]|)))
  }

  // ----- files

  /** A finished recording: the first segment, its index if it has one, and the further segments. */
  function File(h: AviHeader, first: seq<FrameData>, index: Option<seq<IndexEntry>>, more: seq<seq<FrameData>>): (b: seq<Byte>) {
    Encode(h) + Chunks(first) + (if index.Some? then IndexChunk(index.value) else []) + AvixSegments(more)
  }

  // ----- the reader

  function Read32(b: seq<Byte>, at: nat): (v: nat)
    requires at + 4 <= |b|
  {
    FromLe32(b[at..at + 4])
  }

  predicate HasTag(b: seq<Byte>, at: nat, tag: Word) {
    at + 4 <= |b| && b[at..at + 4] == tag
  }

  /** Walks the chunks of a movi list. */
  function ReadChunks(b: seq<Byte>): (r: Option<seq<seq<Byte>>>) {
    if b == [] then Some([])
    else if |b| < 8 || !HasTag(b, 0, Tag("00db")) then None
    else
      var size := Read32(b, 4);
      if |b| < 8 + size then None
      else
        var rest := ReadChunks(b[8 + size..]);
        if rest.None? then None else Some([b[8..8 + size]] + rest.value)
  }

  /** Walks the AVIX segments, each by its RIFF size, and their chunks by the movi size. */
  function ReadSegments(b: seq<Byte>): (r: Option<seq<seq<Byte>>>) {
    if b == [] then Some([])
    else if |b| < 24 || !HasTag(b, 0, Tag("RIFF")) || !HasTag(b, 8, Tag("AVIX")) then None
    else if !HasTag(b, 12, Tag("LIST")) || !HasTag(b, 20, Tag("movi")) then None
    else
      var end, moviEnd := 8 + Read32(b, 4), 20 + Read32(b, 16);
      if !(24 <= moviEnd <= end <= |b|) then None
      else
        var frames, rest := ReadChunks(b[24..moviEnd]), ReadSegments(b[end..]);
        if frames.None? || rest.None? then None else Some(frames.value + rest.value)
  }

  /** Where reading goes on after the movi list: an index is skipped by its size. */
  function AfterIndex(b: seq<Byte>, end: nat): (after: nat) {
    if HasTag(b, end, Tag("idx1")) && end + 8 <= |b| then end + 8 + Read32(b, end + 4) else end
  }

  /** Reads a whole recording: finds the movi list behind the hdrl list, and skips the index. */
  function ReadFile(b: seq<Byte>): (r: Option<seq<seq<Byte>>>) {
    if |b| < 20 || !HasTag(b, 0, Tag("RIFF")) || !HasTag(b, 8, Tag("AVI ")) || !HasTag(b, 12, Tag("LIST")) then None
    else
      var movi := 20 + Read32(b, 16);
      if |b| < movi + 12 || !HasTag(b, movi, Tag("LIST")) || !HasTag(b, movi + 8, Tag("movi")) then None
      else
        var end := movi + 8 + Read32(b, movi + 4);
        if !(movi + 12 <= end <= |b|) then None
        else
          var after := AfterIndex(b, end);
          if |b| < after then None
          else
            var frames, rest := ReadChunks(b[movi + 12..end]), ReadSegments(b[after..]);
            if frames.None? || rest.None? then None else Some(frames.value + rest.value)
  }

  // ----- the reader undoes the writer

  lemma ReadWord(b: seq<Byte>, at: nat, v: int)
    requires HasTag(b, at, Le32(v)) && 0 <= v < TWO_32
    ensures Read32(b, at) == v
  {
    Le32RoundTrip(v);
  }

  lemma TagInFront(tag: Word, rest: seq<Byte>)
    ensures HasTag(tag + rest, 0, tag)
  {
  }

  lemma TagBehind(front: seq<Byte>, tag: Word, rest: seq<Byte>)
    ensures HasTag(front + (tag + rest), |front|, tag)
  {
    assert (front + (tag + rest))[|front|..] == tag + rest;
  }

  lemma ChunkFields(f: FrameData, rest: seq<Byte>)
    ensures var b := Chunk(f) + rest;
      && HasTag(b, 0, Tag("00db")) && Read32(b, 4) == Padded(|f|)
      && b[8..8 + Padded(|f|)] == Stored(f) && b[8 + Padded(|f|)..] == rest
  {
    var b, n, id := Chunk(f) + rest, Padded(|f|), Tag("00db");
    hide Stored, Zeros, Tag, Le32, FromLe32, HasTag, Read32, Padded;
    assert b == id + (Le32(n) + Stored(f) + rest);
    TagInFront(id, Le32(n) + Stored(f) + rest);
    assert b == id + (Le32(n) + (Stored(f) + rest));
    TagBehind(id, Le32(n), Stored(f) + rest);
    ReadWord(b, 4, n);
    assert b == (id + Le32(n)) + (Stored(f) + rest);
    assert b[8..] == Stored(f) + rest;
  }

  lemma NothingRead()
    ensures ReadChunks(Chunks([])) == Some(StoredAll([]))
  {
  }

  lemma ChunksUnfold(fs: seq<FrameData>)
    requires fs != []
    ensures Chunks(fs) == Chunk(fs[0]) + Chunks(fs[1..])
    ensures StoredAll(fs) == [Stored(fs[0])] + StoredAll(fs[1..])
  {
    hide Chunk, Stored;
  }

  /** One step of the walk. */
  lemma ReadOneChunk(b: seq<Byte>, data: seq<Byte>)
    requires |b| >= 8 + |data| && HasTag(b, 0, Tag("00db")) && Read32(b, 4) == |data| && b[8..8 + |data|] == data
    requires ReadChunks(b[8 + |data|..]).Some?
    ensures ReadChunks(b) == Some([data] + ReadChunks(b[8 + |data|..]).value)
  {
    hide HasTag, Read32, Tag;
  }

  /** Walking the chunks gives back the frames. */
  lemma {:induction false} ReadChunksBack(fs: seq<FrameData>)
    ensures ReadChunks(Chunks(fs)) == Some(StoredAll(fs))
  {
    hide *;
    if fs == [] {
      NothingRead();
    } else {
      ReadChunksBack(fs[1..]);
      ChunksUnfold(fs);
      ChunkFields(fs[0], Chunks(fs[1..]));
      ReadOneChunk(Chunks(fs), Stored(fs[0]));
    }
  }

  /** Word `k` of a header can be read off at byte 4k. */
  lemma WordAt(ws: seq<Word>, b: seq<Byte>, k: nat)
    requires k < |ws| && Flat(ws) <= b
    ensures HasTag(b, 4 * k, ws[k])
  {
    hide Flat;
    FlatAt(ws, k);
    SlicePrefix(Flat(ws), b, 4 * k, 4 * k + 4);
  }

  lemma SlicePrefix(f: seq<Byte>, b: seq<Byte>, i: nat, j: nat)
    requires f <= b && i <= j <= |f|
    ensures b[i..j] == f[i..j]
  {
  }

  lemma AvixFields(riffSize: int, dataSize: int, b: seq<Byte>)
    requires 0 <= riffSize < TWO_32 && 0 <= dataSize < TWO_32 && AvixHeader(riffSize, dataSize) <= b
    ensures HasTag(b, 0, Tag("RIFF")) && Read32(b, 4) == riffSize && HasTag(b, 8, Tag("AVIX"))
    ensures HasTag(b, 12, Tag("LIST")) && Read32(b, 16) == dataSize && HasTag(b, 20, Tag("movi"))
  {
    hide Tag, Flat, HasTag, Read32, Le32;
    var ws := [Tag("RIFF"), Le32(riffSize), Tag("AVIX"), Tag("LIST"), Le32(dataSize), Tag("movi")];
    WordAt(ws, b, 0);
    WordAt(ws, b, 1);
    WordAt(ws, b, 2);
    WordAt(ws, b, 3);
    WordAt(ws, b, 4);
    WordAt(ws, b, 5);
    ReadWord(b, 4, riffSize);
    ReadWord(b, 16, dataSize);
  }

  function StoredSegments(segs: seq<seq<FrameData>>): (r: seq<seq<Byte>>) {
    if segs == [] then [] else StoredAll(segs[0]) + StoredSegments(segs[1..])
  }

  /** Walking the AVIX segments by their sizes gives back the frames. */
  lemma {:induction false} ReadSegmentsBack(segs: seq<seq<FrameData>>)
    requires forall i :: 0 <= i < |segs| ==> Fits(segs[i])
    ensures ReadSegments(AvixSegments(segs)) == Some(StoredSegments(segs))
  {
    if segs != [] {
      ReadSegmentsBack(segs[1..]);
      var b, n, rest := AvixSegments(segs), |Chunks(segs[0])|, AvixSegments(segs[1..]);
      assert Fits(segs[0]);
      hide HasTag, AvixHeader, Tag, Read32, Chunks, ReadChunks;
      assert b == AvixHeader(n + 16, n + 4) + Chunks(segs[0]) + rest;
      AvixFields(n + 16, n + 4, b);
      assert b[24..24 + n] == Chunks(segs[0]);
      assert b[24 + n..] == rest;
      ReadChunksBack(segs[0]);
    }
  }

  // ----- whole files

  predicate Readable(h: AviHeader, first: seq<FrameData>, index: Option<seq<IndexEntry>>, more: seq<seq<FrameData>>) {
    && h.hdrlSize == HDR_SIZE - 20 && h.dataSize == |Chunks(first)| + 4
    && Fits(first) && (forall i :: 0 <= i < |more| ==> Fits(more[i]))
    && (index.Some? ==> 16 * |index.value| < TWO_32)
  }

  lemma HeaderFields(h: AviHeader, b: seq<Byte>)
    requires Encode(h) <= b && h.hdrlSize == HDR_SIZE - 20 && 0 <= h.dataSize < TWO_32
    ensures HasTag(b, 0, Tag("RIFF")) && HasTag(b, 8, Tag("AVI ")) && HasTag(b, 12, Tag("LIST")) && Read32(b, 16) == HDR_SIZE - 20
    ensures HasTag(b, HDR_SIZE, Tag("LIST")) && Read32(b, HDR_SIZE + 4) == h.dataSize && HasTag(b, HDR_SIZE + 8, Tag("movi"))
  {
    hide Tag, Flat, HasTag, Read32, Le32, AvihWords, VideoWords, OdmlWords;
    var ws, ds := RiffWords(h), DataWords(h);
    assert Flat(ws) <= b;
    WordAt(ws, b, 0);
    WordAt(ws, b, 2);
    WordAt(ws, b, 3);
    WordAt(ws, b, 4);
    ReadWord(b, 16, HDR_SIZE - 20);
    var tail := b[HDR_SIZE..];
    assert Flat(ds) <= tail;
    WordAt(ds, tail, 0);
    WordAt(ds, tail, 1);
    WordAt(ds, tail, 2);
    TagShift(b, HDR_SIZE, 0, ds[0]);
    TagShift(b, HDR_SIZE, 4, ds[1]);
    TagShift(b, HDR_SIZE, 8, ds[2]);
    ReadWord(b, HDR_SIZE + 4, h.dataSize);
  }

  lemma TagShift(b: seq<Byte>, from: nat, at: nat, tag: Word)
    requires from <= |b| && HasTag(b[from..], at, tag)
    ensures HasTag(b, from + at, tag)
  {
    assert b[from..][at..at + 4] == b[from + at..from + at + 4];
  }

  /** What follows the movi list: an index, which the reader skips, or the first AVIX segment. */
  lemma IndexSkipped(b: seq<Byte>, end: nat, index: Option<seq<IndexEntry>>, more: seq<seq<FrameData>>)
    requires end <= |b| && b[end..] == (if index.Some? then IndexChunk(index.value) else []) + AvixSegments(more)
    requires index.Some? ==> 16 * |index.value| < TWO_32
    requires forall i :: 0 <= i < |more| ==> Fits(more[i])
    ensures var after := AfterIndex(b, end); after <= |b| && b[after..] == AvixSegments(more)
  {
    hide *;
    if index.Some? {
      IndexTag(b, end, index.value, AvixSegments(more));
      SkipsIndex(b, end, 16 * |index.value|);
    } else if more != [] {
      assert Fits(more[0]);
      assert b[end..] == AvixSegments(more);
      NotIndexTag(b, end, more);
      SkipsNothing(b, end);
    } else {
      NoSegments();
      NoTag(b, end);
      SkipsNothing(b, end);
    }
  }

  lemma SkipsIndex(b: seq<Byte>, end: nat, n: nat)
    requires HasTag(b, end, Tag("idx1")) && end + 8 + n <= |b| && Read32(b, end + 4) == n
    ensures AfterIndex(b, end) == end + 8 + n
  {
    hide HasTag, Read32, Tag;
  }

  lemma SkipsNothing(b: seq<Byte>, end: nat)
    requires !HasTag(b, end, Tag("idx1"))
    ensures AfterIndex(b, end) == end
  {
    hide HasTag, Tag;
  }

  lemma NoSegments()
    ensures AvixSegments([]) == []
  {
  }

  lemma NoTag(b: seq<Byte>, end: nat)
    requires end <= |b| && b[end..] == []
    ensures !HasTag(b, end, Tag("idx1"))
  {
  }

  lemma IndexTag(b: seq<Byte>, end: nat, es: seq<IndexEntry>, rest: seq<Byte>)
    requires end <= |b| && b[end..] == IndexChunk(es) + rest && 16 * |es| < TWO_32
    ensures HasTag(b, end, Tag("idx1")) && end + 8 + 16 * |es| <= |b| && Read32(b, end + 4) == 16 * |es|
    ensures b[end + 8 + 16 * |es|..] == rest
  {
    var tail, n, body := b[end..], 16 * |es|, IndexBody(es);
    var id := Tag("idx1");
    hide Tag, Le32, HasTag, Read32, IndexBody;
    assert tail == id + (Le32(n) + body + rest);
    TagInFront(id, Le32(n) + body + rest);
    assert tail == id + (Le32(n) + (body + rest));
    TagBehind(id, Le32(n), body + rest);
    TagShift(b, end, 0, id);
    TagShift(b, end, 4, Le32(n));
    ReadWord(b, end + 4, n);
    assert tail[8 + n..] == rest;
    assert b[end + 8 + n..] == tail[8 + n..];
  }

  lemma NotIndexTag(b: seq<Byte>, end: nat, more: seq<seq<FrameData>>)
    requires end <= |b| && more != [] && Fits(more[0]) && b[end..] == [] + AvixSegments(more)
    ensures !HasTag(b, end, Tag("idx1"))
  {
    hide *;
    SegmentTag(more);
    assert b[end..][0..4] == Tag("RIFF");
    OtherTag(b, end);
  }

  lemma SegmentTag(segs: seq<seq<FrameData>>)
    requires segs != []
    ensures 4 <= |AvixSegments(segs)| && AvixSegments(segs)[0..4] == Tag("RIFF")
  {
    var n := |Chunks(segs[0])|;
    hide Chunks, Tag, Le32;
    assert AvixHeader(n + 16, n + 4)[0..4] == Tag("RIFF");
  }

  lemma OtherTag(b: seq<Byte>, at: nat)
    requires at + 4 <= |b| && b[at..][0..4] == Tag("RIFF")
    ensures !HasTag(b, at, Tag("idx1"))
  {
    assert b[at..at + 4] == b[at..][0..4];
    assert Tag("RIFF")[0] != Tag("idx1")[0];
  }

  /** Reading a recording gives back every frame, padded to 4 bytes, in order. */
  lemma ReadFileBack(h: AviHeader, first: seq<FrameData>, index: Option<seq<IndexEntry>>, more: seq<seq<FrameData>>)
    requires Readable(h, first, index, more)
    ensures ReadFile(File(h, first, index, more)) == Some(StoredAll(first) + StoredSegments(more))
  {
    var b := File(h, first, index, more);
    var end := FIXED_SIZE + |Chunks(first)|;
    hide Encode, Chunks, IndexChunk, AvixSegments, HasTag, Tag, Read32, ReadChunks, ReadSegments;
    HeaderFields(h, b);
    assert b[FIXED_SIZE..end] == Chunks(first);
    assert b[end..] == (if index.Some? then IndexChunk(index.value) else []) + AvixSegments(more);
    IndexSkipped(b, end, index, more);
    ReadChunksBack(first);
    ReadSegmentsBack(more);
  }

  /** A chunk with the given size field and contents lies at byte `at`. */
  predicate ChunkLiesAt(b: seq<Byte>, at: nat, contents: seq<Byte>) {
    && at + 8 + |contents| <= |b| && HasTag(b, at, Tag("00db"))
    && Read32(b, at + 4) == |contents| && b[at + 8..at + 8 + |contents|] == contents
  }

  lemma ChunkLies(b: seq<Byte>, at: nat, f: FrameData, rest: seq<Byte>)
    requires at <= |b| && b[at..] == Chunk(f) + rest
    ensures ChunkLiesAt(b, at, Stored(f))
  {
    hide Chunk, Stored, Tag, HasTag, FromLe32, Padded;
    var n := Padded(|f|);
    ChunkFields(f, rest);
    TagShift(b, at, 0, Tag("00db"));
    SliceFrom(b, at, 4, 8);
    SliceFrom(b, at, 8, 8 + n);
  }

  lemma SliceFrom(b: seq<Byte>, at: nat, i: nat, j: nat)
    requires at <= |b| && i <= j <= |b| - at
    ensures b[at..][i..j] == b[at + i..at + j]
  {
  }

  /** Every index entry leads from the movi tag to the chunk of its frame, and tells its size. */
  lemma IndexFindsChunk(h: AviHeader, first: seq<FrameData>, index: Option<seq<IndexEntry>>, more: seq<seq<FrameData>>, k: nat)
    requires k < |first| && index == Some(IndexOf(first))
    ensures index.value[k].size == |Stored(first[k])|
    ensures ChunkLiesAt(File(h, first, index, more), HDR_SIZE + 8 + index.value[k].offset, Stored(first[k]))
  {
    hide *;
    ChunkInFile(h, first, index, more, k);
    IndexEntryAt(first, k);
  }

  lemma ChunkInFile(h: AviHeader, first: seq<FrameData>, index: Option<seq<IndexEntry>>, more: seq<seq<FrameData>>, k: nat)
    requires k < |first| && index.Some?
    ensures ChunkLiesAt(File(h, first, index, more), FIXED_SIZE + |Chunks(first[..k])|, Stored(first[k]))
  {
    hide *;
    var before, after := |Chunks(first[..k])|, IndexChunk(index.value) + AvixSegments(more);
    var chunks, c := Chunks(first), Chunk(first[k]);
    ChunkAt(first, k);
    FileParts(h, first, index, more);
    CutOut(File(h, first, index, more), Encode(h), chunks, after, before, c);
    ChunkLies(File(h, first, index, more), FIXED_SIZE + before, first[k], chunks[before + |c|..] + after);
  }

  lemma IndexEntryAt(fs: seq<FrameData>, k: nat)
    requires k < |fs|
    ensures IndexOf(fs)[k] == IndexEntry(4 + |Chunks(fs[..k])|, |Stored(fs[k])|)
    ensures HDR_SIZE + 8 + (4 + |Chunks(fs[..k])|) == FIXED_SIZE + |Chunks(fs[..k])|
  {
    hide Chunks, Stored;
  }

  lemma FileParts(h: AviHeader, first: seq<FrameData>, index: Option<seq<IndexEntry>>, more: seq<seq<FrameData>>)
    requires index.Some?
    ensures File(h, first, index, more) == Encode(h) + Chunks(first) + (IndexChunk(index.value) + AvixSegments(more))
  {
  }

  lemma CutOut(all: seq<Byte>, front: seq<Byte>, middle: seq<Byte>, back: seq<Byte>, at: nat, c: seq<Byte>)
    requires all == front + middle + back && at + |c| <= |middle| && middle[at..at + |c|] == c
    ensures |front| + at <= |all| && all[|front| + at..] == c + (middle[at + |c|..] + back)
  {
    assert middle[at..] == c + middle[at + |c|..];
    assert all[|front|..] == middle + back;
    assert all[|front| + at..] == all[|front|..][at..];
  }

  // ----- the index in the file

  /** Index entry at byte `e`: its identifier, no flags, and the way from the movi tag to the chunk of `f`, with its size. */
  predicate EntryOnDisk(b: seq<Byte>, e: nat, f: FrameData) {
    && e + 16 <= |b| && HasTag(b, e, Tag("00db")) && Read32(b, e + 4) == 0
    && ChunkLiesAt(b, HDR_SIZE + 8 + Read32(b, e + 8), Stored(f)) && Read32(b, e + 12) == |Stored(f)|
  }

  /** Behind the movi list, where its own size says, lies an index with one such entry for each frame. */
  ghost predicate IndexOnDisk(b: seq<Byte>, frames: seq<FrameData>) {
    && HDR_SIZE + 8 <= |b|
    && var at := HDR_SIZE + 8 + Read32(b, HDR_SIZE + 4);
    && at + 8 + 16 * |frames| <= |b| && HasTag(b, at, Tag("idx1")) && Read32(b, at + 4) == 16 * |frames|
    && forall k :: 0 <= k < |frames| ==> EntryOnDisk(b, at + 8 + 16 * k, frames[k])
  }

  lemma {:induction false} IndexBodyAt(es: seq<IndexEntry>, k: nat)
    requires k < |es|
    ensures IndexBody(es)[16 * k..16 * k + 16] == EntryBytes(es[k])
  {
    hide EntryBytes;
    if k > 0 {
      IndexBodyAt(es[1..], k - 1);
      assert IndexBody(es)[16 * k..16 * k + 16] == IndexBody(es[1..])[16 * (k - 1)..16 * (k - 1) + 16];
    }
  }

  lemma EntryFields(b: seq<Byte>, e: nat, entry: IndexEntry)
    requires e + 16 <= |b| && b[e..e + 16] == EntryBytes(entry) && 0 <= entry.offset < TWO_32 && 0 <= entry.size < TWO_32
    ensures HasTag(b, e, Tag("00db")) && Read32(b, e + 4) == 0
    ensures Read32(b, e + 8) == entry.offset && Read32(b, e + 12) == entry.size
  {
    hide Tag, Flat, HasTag, Read32, Le32;
    var ws := [Tag("00db"), Le32(0), Le32(entry.offset), Le32(entry.size)];
    var tail := b[e..];
    assert tail[..16] == Flat(ws);
    WordAt(ws, tail, 0);
    WordAt(ws, tail, 1);
    WordAt(ws, tail, 2);
    WordAt(ws, tail, 3);
    TagShift(b, e, 0, ws[0]);
    TagShift(b, e, 4, ws[1]);
    TagShift(b, e, 8, ws[2]);
    TagShift(b, e, 12, ws[3]);
    ReadWord(b, e + 4, 0);
    ReadWord(b, e + 8, entry.offset);
    ReadWord(b, e + 12, entry.size);
  }

  /** The index of a finished file of one segment. */
  lemma IndexReadBack(h: AviHeader, first: seq<FrameData>)
    requires Readable(h, first, Some(IndexOf(first)), [])
    ensures IndexOnDisk(File(h, first, Some(IndexOf(first)), []), first)
  {
    hide *;
    var b, es := File(h, first, Some(IndexOf(first)), []), IndexOf(first);
    var end := FIXED_SIZE + |Chunks(first)|;
    OneSegment(h, first);
    HeaderFields(h, b);
    assert b[end..] == IndexChunk(es) + [];
    IndexTag(b, end, es, []);
    forall k | 0 <= k < |first| ensures EntryOnDisk(b, end + 8 + 16 * k, first[k]) {
      EntryInFile(h, first, b, end, k);
    }
    IndexIs(h, first, b, end);
  }

  /** What a file of one segment consists of. */
  lemma OneSegment(h: AviHeader, first: seq<FrameData>)
    requires Readable(h, first, Some(IndexOf(first)), [])
    ensures var b := File(h, first, Some(IndexOf(first)), []);
      && b == Encode(h) + Chunks(first) + IndexChunk(IndexOf(first))
      && FIXED_SIZE == 240 && HDR_SIZE == 228 && Encode(h) <= b && h.hdrlSize == HDR_SIZE - 20
      && h.dataSize == |Chunks(first)| + 4 < TWO_32 && 16 * |IndexOf(first)| < TWO_32
      && |b| == FIXED_SIZE + |Chunks(first)| + 8 + 16 * |first|
  {
    hide Encode, Chunks, IndexChunk, IndexOf;
    assert AvixSegments([]) == [];
  }

  lemma IndexIs(h: AviHeader, first: seq<FrameData>, b: seq<Byte>, end: nat)
    requires HDR_SIZE + 8 <= |b| && Read32(b, HDR_SIZE + 4) == h.dataSize == |Chunks(first)| + 4
    requires end == FIXED_SIZE + |Chunks(first)| && end + 8 + 16 * |first| <= |b|
    requires HasTag(b, end, Tag("idx1")) && Read32(b, end + 4) == 16 * |first|
    requires forall k :: 0 <= k < |first| ==> EntryOnDisk(b, end + 8 + 16 * k, first[k])
    ensures IndexOnDisk(b, first)
  {
    hide Read32, HasTag, Tag, Chunks, EntryOnDisk;
    assert HDR_SIZE + 8 + Read32(b, HDR_SIZE + 4) == end;
  }

  lemma EntryInFile(h: AviHeader, first: seq<FrameData>, b: seq<Byte>, end: nat, k: nat)
    requires Readable(h, first, Some(IndexOf(first)), []) && b == File(h, first, Some(IndexOf(first)), []) && k < |first|
    requires end == FIXED_SIZE + |Chunks(first)|
    ensures EntryOnDisk(b, end + 8 + 16 * k, first[k])
  {
    hide *;
    var es, e := IndexOf(first), end + 8 + 16 * k;
    OneSegment(h, first);
    EntryPlace(h, first, b, end, k);
    ChunkAt(first, k);
    EntryRange(h, first, k);
    IndexEntryAt(first, k);
    EntryFields(b, e, es[k]);
    IndexFindsChunk(h, first, Some(es), [], k);
    EntryIs(b, e, first[k], es[k]);
  }

  lemma EntryIs(b: seq<Byte>, e: nat, f: FrameData, entry: IndexEntry)
    requires e + 16 <= |b| && HasTag(b, e, Tag("00db")) && Read32(b, e + 4) == 0
    requires 0 <= entry.offset == Read32(b, e + 8) && entry.size == Read32(b, e + 12) == |Stored(f)|
    requires ChunkLiesAt(b, HDR_SIZE + 8 + entry.offset, Stored(f))
    ensures EntryOnDisk(b, e, f)
  {
    hide HasTag, Tag, Read32, ChunkLiesAt, Stored;
  }

  lemma EntryPlace(h: AviHeader, first: seq<FrameData>, b: seq<Byte>, end: nat, k: nat)
    requires b == Encode(h) + Chunks(first) + IndexChunk(IndexOf(first)) && end == FIXED_SIZE + |Chunks(first)| && k < |first|
    ensures end + 8 + 16 * k + 16 <= |b|
    ensures b[end + 8 + 16 * k..end + 8 + 16 * k + 16] == EntryBytes(IndexOf(first)[k])
  {
    hide Encode, Chunks, IndexOf, EntryBytes, IndexBody;
    var es := IndexOf(first);
    IndexBodyAt(es, k);
    assert b[end + 8..] == IndexBody(es);
    assert b[end + 8..][16 * k..16 * k + 16] == b[end + 8 + 16 * k..end + 8 + 16 * k + 16];
  }

  lemma EntryRange(h: AviHeader, first: seq<FrameData>, k: nat)
    requires Readable(h, first, Some(IndexOf(first)), []) && k < |first|
    requires |Chunks(first[..k])| + |Chunk(first[k])| <= |Chunks(first)|
    ensures 0 <= IndexOf(first)[k].offset < TWO_32 && 0 <= IndexOf(first)[k].size < TWO_32
  {
    hide Chunks, Chunk, Padded;
  }

  // ----- the fixed header in the file

  /** The size fields of the header's own chunks lead from each to the next, and from the last to the movi list. */
  ghost predicate HeaderWalks(b: seq<Byte>) {
    && |b| >= FIXED_SIZE
    && HasTag(b, 20, Tag("hdrl")) && HasTag(b, 24, Tag("avih")) && Read32(b, 28) == 88 - 32
    && HasTag(b, 88, Tag("LIST")) && HasTag(b, 96, Tag("strl")) && Read32(b, 92) == 204 - 96
    && HasTag(b, 100, Tag("strh")) && Read32(b, 104) == 156 - 108
    && HasTag(b, 156, Tag("strf")) && Read32(b, 160) == 204 - 164
    && HasTag(b, 204, Tag("LIST")) && HasTag(b, 212, Tag("odml")) && Read32(b, 208) == HDR_SIZE - 212
    && HasTag(b, 216, Tag("dmlh")) && Read32(b, 220) == HDR_SIZE - 224
  }

  /** The frame counts of the header: those of the first segment (avih, strh) and of all segments (dmlh), and the index flag. */
  ghost predicate HeaderCounts(b: seq<Byte>, first: nat, all: nat, indexed: bool) {
    && |b| >= FIXED_SIZE
    && Read32(b, 48) == first && Read32(b, 140) == first && Read32(b, 224) == all % TWO_32
    && Read32(b, 44) == if indexed then 0x10 else 0
  }

  /** Word `k` of the words that start at byte `from`. */
  lemma HeaderWord(ws: seq<Word>, b: seq<Byte>, from: nat, k: nat)
    requires from <= |b| && Flat(ws) <= b[from..] && k < |ws|
    ensures HasTag(b, from + 4 * k, ws[k])
  {
    hide HasTag, Flat;
    WordAt(ws, b[from..], k);
    TagShift(b, from, 4 * k, ws[k]);
  }

  lemma HeaderParts(h: AviHeader, b: seq<Byte>)
    requires Encode(h) <= b
    ensures |b| >= FIXED_SIZE && Flat(RiffWords(h)) <= b[0..] && Flat(AvihWords(h)) <= b[24..]
    ensures Flat(VideoWords(h)) <= b[88..] && Flat(OdmlWords(h)) <= b[204..]
  {
    hide Flat, RiffWords, AvihWords, VideoWords, OdmlWords, DataWords;
    var r, a, v, o, d := Flat(RiffWords(h)), Flat(AvihWords(h)), Flat(VideoWords(h)), Flat(OdmlWords(h)), Flat(DataWords(h));
    var e := Encode(h);
    assert e == r + a + v + o + d;
    assert e[0..24] == r && e[24..88] == a && e[88..204] == v && e[204..228] == o;
    assert b[0..][..24] == r && b[24..][..64] == a && b[88..][..116] == v && b[204..][..24] == o;
  }

  lemma HeaderWalked(h: AviHeader, b: seq<Byte>)
    requires Encode(h) <= b
    ensures HeaderWalks(b)
  {
    hide Flat, HasTag, Read32, Encode;
    HeaderParts(h, b);
    HeaderWord(RiffWords(h), b, 0, 5);
    HeaderWord(AvihWords(h), b, 24, 0);
    HeaderWord(AvihWords(h), b, 24, 1);
    ReadWord(b, 28, 56);
    VideoWalked(h, b);
    OdmlWalked(h, b);
  }

  lemma VideoWalked(h: AviHeader, b: seq<Byte>)
    requires 88 <= |b| && Flat(VideoWords(h)) <= b[88..] && |b| >= FIXED_SIZE
    ensures HasTag(b, 88, Tag("LIST")) && HasTag(b, 96, Tag("strl")) && Read32(b, 92) == 108
    ensures HasTag(b, 100, Tag("strh")) && Read32(b, 104) == 48 && HasTag(b, 156, Tag("strf")) && Read32(b, 160) == 40
  {
    hide Flat, HasTag, Read32, Tag, Le32;
    var ws := VideoWords(h);
    HeaderWord(ws, b, 88, 0);
    HeaderWord(ws, b, 88, 1);
    HeaderWord(ws, b, 88, 2);
    HeaderWord(ws, b, 88, 3);
    HeaderWord(ws, b, 88, 4);
    HeaderWord(ws, b, 88, 17);
    HeaderWord(ws, b, 88, 18);
    ReadWord(b, 92, 108);
    ReadWord(b, 104, 48);
    ReadWord(b, 160, 40);
  }

  lemma OdmlWalked(h: AviHeader, b: seq<Byte>)
    requires 204 <= |b| && Flat(OdmlWords(h)) <= b[204..] && |b| >= FIXED_SIZE
    ensures HasTag(b, 204, Tag("LIST")) && HasTag(b, 212, Tag("odml")) && Read32(b, 208) == 16
    ensures HasTag(b, 216, Tag("dmlh")) && Read32(b, 220) == 4
  {
    hide Flat, HasTag, Read32, Tag, Le32;
    var ws := OdmlWords(h);
    HeaderWord(ws, b, 204, 0);
    HeaderWord(ws, b, 204, 1);
    HeaderWord(ws, b, 204, 2);
    HeaderWord(ws, b, 204, 3);
    HeaderWord(ws, b, 204, 4);
    ReadWord(b, 208, 16);
    ReadWord(b, 220, 4);
  }

  lemma CountsReadBack(h: AviHeader, b: seq<Byte>, indexed: bool)
    requires Encode(h) <= b && 0 <= h.nframes == h.length < TWO_32 && 0 <= h.odmlFrames
    requires h.flags == if indexed then 0x10 else 0
    ensures HeaderCounts(b, h.nframes, h.odmlFrames, indexed)
  {
    hide Flat, HasTag, Encode, Tag, Le32, FromLe32;
    HeaderParts(h, b);
    HeaderWord(AvihWords(h), b, 24, 5);
    HeaderWord(AvihWords(h), b, 24, 6);
    HeaderWord(VideoWords(h), b, 88, 13);
    HeaderWord(OdmlWords(h), b, 204, 5);
    WordIs(b, 44, h.flags);
    WordIs(b, 48, h.nframes);
    WordIs(b, 140, h.nframes);
    WordIs(b, 224, h.odmlFrames);
  }

  lemma WordIs(b: seq<Byte>, at: nat, v: nat)
    requires HasTag(b, at, Le32(v))
    ensures Read32(b, at) == v % TWO_32 && (v < TWO_32 ==> Read32(b, at) == v)
  {
    Le32RoundTrip(v);
  }
}
