/**
 Rotating and mirroring an image without copying it: GetImage and DataToPhoto hand Tk a photo block
 whose base pointer, pixel size and pitch walk the source pixels in a different order.
 */
module Geometry {

  /** The fields of a `Tk_PhotoImageBlock`; `ptr` counts bytes, and `alpha` is `offset[3]`. */
  datatype Block = Block(ptr: int, pixelSize: int, pitch: int, width: int, height: int, alpha: int)

  datatype Pos = Pos(x: int, y: int)

  /** Where Tk reads pixel (x, y) of the block. */
  function Address(b: Block, x: int, y: int): (a: int) {
    b.ptr + y * b.pitch + x * b.pixelSize
  }

  // ----- what is meant: n quarter turns counterclockwise, then flips

  function Width(w: int, h: int, n: nat): (r: int) { if n % 2 == 0 then w else h }
  function Height(w: int, h: int, n: nat): (r: int) { if n % 2 == 0 then h else w }

  /**
   The source of pixel `p` of a w x h image that is turned n times.  One quarter turn counterclockwise
   takes its pixel (x, y) from (width - 1 - y, x).
   */
  function Turned(w: int, h: int, n: nat, p: Pos): (r: Pos) {
    if n == 0 then p else Turned(w, h, n - 1, Pos(Width(w, h, n - 1) - 1 - p.y, p.x))
  }

  function Flipped(w: int, h: int, flipX: bool, flipY: bool, p: Pos): (r: Pos) {
    Pos(if flipX then w - 1 - p.x else p.x, if flipY then h - 1 - p.y else p.y)
  }

  /** The source of pixel `p` of the image that is turned n times and then flipped. */
  function Source(w: int, h: int, n: nat, flipX: bool, flipY: bool, p: Pos): (r: Pos) {
    Turned(w, h, n, Flipped(Width(w, h, n), Height(w, h, n), flipX, flipY, p))
  }

  predicate Inside(w: int, h: int, p: Pos) { 0 <= p.x < w && 0 <= p.y < h }

  /** The block shows the w x h image at `base`, turned and flipped. */
  ghost predicate Shows(b: Block, base: int, w: int, h: int, ps: int, n: nat, flipX: bool, flipY: bool) {
    && b.width == Width(w, h, n) && b.height == Height(w, h, n)
    && forall x, y :: ShowsAt(b, base, w, h, ps, n, flipX, flipY, x, y)
  }

  ghost predicate ShowsAt(b: Block, base: int, w: int, h: int, ps: int, n: nat, flipX: bool, flipY: bool, x: int, y: int) {
    var s := Source(w, h, n, flipX, flipY, Pos(x, y));
    Address(b, x, y) == base + (s.y * w + s.x) * ps
  }

  // ----- the block arithmetic

  lemma TurnedCases(w: int, h: int, p: Pos)
    ensures Turned(w, h, 0, p) == p
    ensures Turned(w, h, 1, p) == Pos(w - 1 - p.y, p.x)
    ensures Turned(w, h, 2, p) == Pos(w - 1 - p.x, h - 1 - p.y)
    ensures Turned(w, h, 3, p) == Pos(p.y, h - 1 - p.x)
  {
    assert Turned(w, h, 1, p) == Turned(w, h, 0, Pos(w - 1 - p.y, p.x));
    var q := Pos(h - 1 - p.y, p.x);
    assert Turned(w, h, 2, p) == Turned(w, h, 1, q) == Turned(w, h, 0, Pos(w - 1 - q.y, q.x));
    var r := Pos(w - 1 - p.y, p.x);
    var s := Pos(h - 1 - r.y, r.x);
    assert Turned(w, h, 3, p) == Turned(w, h, 2, r) == Turned(w, h, 1, s) == Turned(w, h, 0, Pos(w - 1 - s.y, s.x));
  }

  /** (i * w + j) * ps, multiplied out; and the same with the factors of a row the other way round. */
  lemma Index(i: int, w: int, j: int, ps: int)
    ensures (i * w + j) * ps == i * (w * ps) + j * ps
    ensures w * ps == ps * w && -(w * ps) == ps * -w
  {
    assert (i * w + j) * ps == (i * w) * ps + j * ps;
    assert (i * w) * ps == i * (w * ps);
  }

  /** (a - 1 - b) * c, multiplied out. */
  lemma Backwards(a: int, b: int, c: int)
    ensures (a - 1 - b) * c == a * c - c - b * c && (a - 1) * c == a * c - c
    ensures b * -c == -(b * c)
  {
  }

  /** The block before any rotation. */
  lemma UnturnedShows(base: int, w: int, h: int, ps: int, x: int, y: int)
    ensures ShowsAt(Block(base, ps, w * ps, w, h, 0), base, w, h, ps, 0, false, false, x, y)
  {
    Index(y, w, x, ps);
  }

  lemma QuarterShows(base: int, w: int, h: int, ps: int, x: int, y: int)
    ensures ShowsAt(Block(base + (w - 1) * ps, ps * w, -ps, h, w, 0), base, w, h, ps, 1, false, false, x, y)
  {
    TurnedCases(w, h, Pos(x, y));
    Index(x, w, w - 1 - y, ps);
    Backwards(w, y, ps);
    var row, yps := w * ps, y * ps;
    hide Turned;
  }

  lemma HalfShows(base: int, w: int, h: int, ps: int, x: int, y: int)
    ensures ShowsAt(Block(base + (w * h - 1) * ps, -ps, -(w * ps), w, h, 0), base, w, h, ps, 2, false, false, x, y)
  {
    TurnedCases(w, h, Pos(x, y));
    Index(h - 1 - y, w, w - 1 - x, ps);
    Backwards(w, x, ps);
    Backwards(h, y, w * ps);
    Index(h, w, -1, ps);
    hide Turned;
  }

  lemma ThreeQuarterShows(base: int, w: int, h: int, ps: int, x: int, y: int)
    ensures ShowsAt(Block(base + w * ps * (h - 1), ps * -w, ps, h, w, 0), base, w, h, ps, 3, false, false, x, y)
  {
    TurnedCases(w, h, Pos(x, y));
    Index(h - 1 - x, w, y, ps);
    Backwards(h, x, w * ps);
    hide Turned;
  }

  /** The block of each rotation, apart from `alpha`. */
  function RotatedBlock(base: int, w: int, h: int, ps: int, rot: int): (b: Block) {
    match rot
    case 90 => Block(base + (w - 1) * ps, ps * w, -ps, h, w, 0)
    case 180 => Block(base + (w * h - 1) * ps, -ps, -(w * ps), w, h, 0)
    case 270 => Block(base + w * ps * (h - 1), ps * -w, ps, h, w, 0)
    case _ => Block(base, ps, w * ps, w, h, 0)
  }

  lemma RotatedShows(b: Block, base: int, w: int, h: int, ps: int, rot: int)
    requires rot in {0, 90, 180, 270} && b.(alpha := 0) == RotatedBlock(base, w, h, ps, rot)
    ensures Shows(b, base, w, h, ps, rot / 90, false, false)
  {
    forall x, y ensures ShowsAt(b, base, w, h, ps, rot / 90, false, false, x, y) {
      var b0 := b.(alpha := 0);
      assert ShowsAt(b0, base, w, h, ps, rot / 90, false, false, x, y) by {
        UnturnedShows(base, w, h, ps, x, y);
        QuarterShows(base, w, h, ps, x, y);
        HalfShows(base, w, h, ps, x, y);
        ThreeQuarterShows(base, w, h, ps, x, y);
        hide ShowsAt;
      }
      hide Source;
    }
  }

  lemma IsRotated(b: Block, base: int, w: int, h: int, ps: int, rot: int)
    requires rot in {0, 90, 180, 270}
    requires rot == 0 ==> b.(alpha := 0) == Block(base, ps, w * ps, w, h, 0)
    requires rot == 90 ==> b.(alpha := 0) == Block(base + (w - 1) * ps, ps * w, -ps, h, w, 0)
    requires rot == 180 ==> b.(alpha := 0) == Block(base + (w * h - 1) * ps, -ps, -(w * ps), w, h, 0)
    requires rot == 270 ==> b.(alpha := 0) == Block(base + w * ps * (h - 1), ps * -w, ps, h, w, 0)
    ensures b.(alpha := 0) == RotatedBlock(base, w, h, ps, rot)
  {
  }

  function FlipBlockX(b: Block): (r: Block) {
    b.(ptr := b.ptr + (b.width - 1) * b.pixelSize, pixelSize := -b.pixelSize, alpha := -b.pixelSize + 1)
  }

  function FlipBlockY(b: Block): (r: Block) {
    b.(ptr := b.ptr + b.pitch * (b.height - 1), pitch := -b.pitch)
  }

  lemma FlipAddress(b: Block, x: int, y: int)
    ensures Address(FlipBlockX(b), x, y) == Address(b, b.width - 1 - x, y)
    ensures Address(FlipBlockY(b), x, y) == Address(b, x, b.height - 1 - y)
  {
    Backwards(b.width, x, b.pixelSize);
    Backwards(b.height, y, b.pitch);
  }

  lemma FlipXShows(b: Block, base: int, w: int, h: int, ps: int, n: nat)
    requires Shows(b, base, w, h, ps, n, false, false)
    ensures Shows(FlipBlockX(b), base, w, h, ps, n, true, false)
  {
    forall x, y ensures ShowsAt(FlipBlockX(b), base, w, h, ps, n, true, false, x, y) {
      FlipAddress(b, x, y);
      assert ShowsAt(b, base, w, h, ps, n, false, false, b.width - 1 - x, y);
      hide Address, Turned, Shows;
    }
  }

  lemma FlipYShows(b: Block, base: int, w: int, h: int, ps: int, n: nat)
    requires Shows(b, base, w, h, ps, n, false, false)
    ensures Shows(FlipBlockY(b), base, w, h, ps, n, false, true)
  {
    forall x, y ensures ShowsAt(FlipBlockY(b), base, w, h, ps, n, false, true, x, y) {
      FlipAddress(b, x, y);
      assert ShowsAt(b, base, w, h, ps, n, false, false, x, b.height - 1 - y);
      hide Address, Turned, Shows;
    }
  }

  /**
   Which way it turns: by 90 degrees the top left corner of the source goes to the bottom left (counterclockwise),
   by 180 to the bottom right, by 270 to the top right; and the top right corner goes to the one before it.
   */
  lemma CornersTurned(w: int, h: int)
    ensures Turned(w, h, 1, Pos(0, w - 1)) == Pos(0, 0) && Turned(w, h, 1, Pos(0, 0)) == Pos(w - 1, 0)
    ensures Turned(w, h, 2, Pos(w - 1, h - 1)) == Pos(0, 0) && Turned(w, h, 2, Pos(0, h - 1)) == Pos(w - 1, 0)
    ensures Turned(w, h, 3, Pos(h - 1, 0)) == Pos(0, 0) && Turned(w, h, 3, Pos(h - 1, w - 1)) == Pos(w - 1, 0)
  {
    TurnedCases(w, h, Pos(0, w - 1));
    TurnedCases(w, h, Pos(0, 0));
    TurnedCases(w, h, Pos(w - 1, h - 1));
    TurnedCases(w, h, Pos(0, h - 1));
    TurnedCases(w, h, Pos(h - 1, 0));
    TurnedCases(w, h, Pos(h - 1, w - 1));
  }

  /** The flips work on the turned image: along its own x and y. */
  lemma FlippedAfter(w: int, h: int, n: nat, flipX: bool, flipY: bool, p: Pos)
    ensures Source(w, h, n, true, flipY, p) == Source(w, h, n, false, flipY, Pos(Width(w, h, n) - 1 - p.x, p.y))
    ensures Source(w, h, n, flipX, true, p) == Source(w, h, n, flipX, false, Pos(p.x, Height(w, h, n) - 1 - p.y))
    ensures Source(w, h, n, false, false, p) == Turned(w, h, n, p)
  {
    hide Turned;
  }

  /** Turning by 180 degrees is flipping both axes. */
  lemma HalfTurnFlipsBoth(w: int, h: int, n: nat, p: Pos)
    requires n < 4
    ensures Source(w, h, (n + 2) % 4, false, false, p) == Source(w, h, n, true, true, p)
  {
    TurnedCases(w, h, p);
    TurnedCases(w, h, Flipped(Width(w, h, n), Height(w, h, n), true, true, p));
  }

  lemma HalfTurnShows(b: Block, base: int, w: int, h: int, ps: int, n: nat)
    requires n < 4 && Shows(b, base, w, h, ps, (n + 2) % 4, false, false)
    ensures Shows(b, base, w, h, ps, n, true, true)
  {
    hide Source, Address;
    forall x, y ensures ShowsAt(b, base, w, h, ps, n, true, true, x, y) {
      HalfTurnFlipsBoth(w, h, n, Pos(x, y));
      assert ShowsAt(b, base, w, h, ps, (n + 2) % 4, false, false, x, y);
    }
  }

  /** The block arithmetic of GetImage and DataToPhoto; `mirror` has bit 0 for mirrorx and bit 1 for mirrory. */
  method Orient(base: int, width: nat, height: nat, ps: nat, rotation: nat, mirror: nat) returns (b: Block)
    requires ps == 1 || ps == 3
    requires rotation in {0, 90, 180, 270}
    ensures Shows(b, base, width, height, ps, rotation / 90, mirror / 2 % 2 == 1, mirror % 2 == 1)
    ensures b.alpha >= b.pixelSize
  {
    hide Shows, RotatedBlock;
    var pixelSize: int, alpha, pitch := ps, if ps == 1 then 1 else 4, width * ps;
    var pixelPtr, bw, bh := base, width, height;
    var rot := rotation;
    if mirror % 4 == 3 {
      rot := (rot + 180) % 360;
    }
    if rot == 270 {
      pitch := pixelSize;
      pixelPtr := pixelPtr + width * pixelSize * (height - 1);
      pixelSize := pixelSize * -(width as int);
      alpha := pixelSize + 1;
      bw, bh := height, width;
    } else if rot == 180 {
      pitch := -pitch;
      pixelPtr := pixelPtr + (width * height - 1) * pixelSize;
      pixelSize := -pixelSize;
      alpha := pixelSize + 1;
    } else if rot == 90 {
      pitch := -pixelSize;
      pixelPtr := pixelPtr + (width - 1) * pixelSize;
      pixelSize := pixelSize * width;
      alpha := pixelSize + 1;
      bw, bh := height, width;
    }
    b := Block(pixelPtr, pixelSize, pitch, bw, bh, alpha);
    IsRotated(b, base, width, height, ps, rot);
    RotatedShows(b, base, width, height, ps, rot);
    if mirror % 4 == 2 {
      FlipXShows(b, base, width, height, ps, rot / 90);
      b := FlipBlockX(b);
    }
    if mirror % 4 == 1 {
      FlipYShows(b, base, width, height, ps, rot / 90);
      b := FlipBlockY(b);
    }
    if mirror % 4 == 3 {
      HalfTurnShows(b, base, width, height, ps, rotation / 90);
    }
  }

  /** The degrees that DataToPhoto is given, brought to a multiple of 90; `%` truncates as in C. */
  function Normalized(degrees: int): (r: int)
    ensures r in {0, 90, 180, 270}
    ensures degrees < 0 ==> r == 0
  {
    var rot := if degrees >= 0 then degrees % 360 else -(-degrees % 360);
    if rot < 45 then 0 else if rot < 135 then 90 else if rot < 225 then 180 else if rot < 315 then 270 else 0
  }

  /** Up to full turns, `r` is less than half a quarter turn from the angle. */
  ghost predicate Nearest(degrees: int, r: int) {
    exists turns :: -45 <= degrees - (turns * 360 + r) < 45
  }

  lemma NearestIs(degrees: int, r: int)
    requires r in {0, 90, 180, 270}
    ensures Nearest(degrees, r) <==> (var rot := degrees % 360; -45 <= rot - r < 45 || -45 <= rot - 360 - r < 45)
  {
    var q, rot := degrees / 360, degrees % 360;
    assert degrees == q * 360 + rot;
    if -45 <= rot - r < 45 {
      assert -45 <= degrees - (q * 360 + r) < 45;
    }
    if -45 <= rot - 360 - r < 45 {
      assert -45 <= degrees - ((q + 1) * 360 + r) < 45;
    }
    if turns :| -45 <= degrees - (turns * 360 + r) < 45 {
      assert (q - turns) * 360 + rot - r == degrees - (turns * 360 + r);
      assert turns == q || turns == q + 1;
    }
  }

  /** The angle is rounded to the nearest multiple of 90 unless it is negative and not within half a quarter turn of 0. */
  lemma NormalizedNearest(degrees: int)
    ensures Nearest(degrees, Normalized(degrees)) <==> degrees >= 0 || degrees % 360 < 45 || degrees % 360 >= 315
  {
    NearestIs(degrees, Normalized(degrees));
  }

  /** A quarter turn backwards is lost. */
  lemma QuarterBackLost()
    ensures Normalized(-90) == 0 && !Nearest(-90, Normalized(-90)) && Nearest(-90, 270)
  {
    NormalizedNearest(-90);
    NearestIs(-90, 270);
  }

  // ----- every source pixel exactly once

  function Unturned(w: int, h: int, n: nat, s: Pos): (p: Pos) {
    if n == 0 then s
    else var q := Unturned(w, h, n - 1, s); Pos(q.y, Width(w, h, n - 1) - 1 - q.x)
  }

  lemma {:induction false} TurnedInverse(w: int, h: int, n: nat, p: Pos)
    ensures Turned(w, h, n, Unturned(w, h, n, p)) == p
    ensures Unturned(w, h, n, Turned(w, h, n, p)) == p
    ensures Inside(Width(w, h, n), Height(w, h, n), p) ==> Inside(w, h, Turned(w, h, n, p))
    ensures Inside(w, h, p) ==> Inside(Width(w, h, n), Height(w, h, n), Unturned(w, h, n, p))
  {
    if n > 0 {
      TurnedInverse(w, h, n - 1, p);
      TurnedInverse(w, h, n - 1, Pos(Width(w, h, n - 1) - 1 - p.y, p.x));
    }
  }

  /** Positions are numbered row by row: different positions have different numbers, and all are less than w * h. */
  lemma PixelNumber(w: int, h: int, s: Pos, t: Pos)
    requires Inside(w, h, s) && Inside(w, h, t)
    ensures 0 <= s.y * w + s.x && s.y * w + s.x + 1 <= w * h
    ensures s.y * w + s.x == t.y * w + t.x ==> s == t
  {
    Monotone(s.y + 1, h, w);
    Monotone(0, s.y, w);
    if s.y < t.y { Monotone(s.y + 1, t.y, w); }
    if t.y < s.y { Monotone(t.y + 1, s.y, w); }
  }

  lemma Monotone(a: int, b: int, c: int)
    requires a <= b && 0 <= c
    ensures a * c <= b * c && (a - 1) * c == a * c - c && (a + 1) * c == a * c + c
  {
    assert (b - a) * c == b * c - a * c;
    assert (b - a) * c >= 0;
  }

  lemma Cancel(a: int, b: int, c: int)
    requires a * c == b * c && c > 0
    ensures a == b
  {
    if a < b { Monotone(a + 1, b, c); }
    if b < a { Monotone(b + 1, a, c); }
  }

  /** Every pixel of the block is a source pixel, and all its bytes lie in the buffer. */
  lemma SourceOf(b: Block, base: int, w: int, h: int, ps: int, n: nat, flipX: bool, flipY: bool, q: Pos)
    requires Shows(b, base, w, h, ps, n, flipX, flipY) && Inside(b.width, b.height, q) && 0 < ps
    ensures var s := Source(w, h, n, flipX, flipY, q);
      && Inside(w, h, s) && Address(b, q.x, q.y) == base + (s.y * w + s.x) * ps
    ensures base <= Address(b, q.x, q.y) && Address(b, q.x, q.y) + ps <= base + w * h * ps
  {
    TurnedInverse(w, h, n, Flipped(b.width, b.height, flipX, flipY, q));
    var s := Source(w, h, n, flipX, flipY, q);
    assert ShowsAt(b, base, w, h, ps, n, flipX, flipY, q.x, q.y);
    hide Shows, Source, Address;
    PixelNumber(w, h, s, s);
    var k := s.y * w + s.x;
    Monotone(0, k, ps);
    Monotone(k + 1, w * h, ps);
  }

  /** The block reads each of the w * h source pixels at exactly one of its own pixels. */
  lemma EveryPixelOnce(b: Block, base: int, w: int, h: int, ps: int, n: nat, flipX: bool, flipY: bool, s: Pos) returns (p: Pos)
    requires Shows(b, base, w, h, ps, n, flipX, flipY) && 0 < ps && Inside(w, h, s)
    ensures Inside(b.width, b.height, p) && Address(b, p.x, p.y) == base + (s.y * w + s.x) * ps
    ensures forall q :: Inside(b.width, b.height, q) && Address(b, q.x, q.y) == base + (s.y * w + s.x) * ps ==> q == p
  {
    p := Flipped(b.width, b.height, flipX, flipY, Unturned(w, h, n, s));
    TurnedInverse(w, h, n, s);
    assert Flipped(b.width, b.height, flipX, flipY, p) == Unturned(w, h, n, s);
    assert ShowsAt(b, base, w, h, ps, n, flipX, flipY, p.x, p.y);
    forall q | Inside(b.width, b.height, q) && Address(b, q.x, q.y) == base + (s.y * w + s.x) * ps ensures q == p {
      SameSource(b, base, w, h, ps, n, flipX, flipY, s, q);
    }
  }

  lemma SameSource(b: Block, base: int, w: int, h: int, ps: int, n: nat, flipX: bool, flipY: bool, s: Pos, q: Pos)
    requires Shows(b, base, w, h, ps, n, flipX, flipY) && 0 < ps && Inside(w, h, s) && Inside(b.width, b.height, q)
    requires Address(b, q.x, q.y) == base + (s.y * w + s.x) * ps
    ensures q == Flipped(b.width, b.height, flipX, flipY, Unturned(w, h, n, s))
  {
    SourceOf(b, base, w, h, ps, n, flipX, flipY, q);
    var t := Source(w, h, n, flipX, flipY, q);
    assert t == s by {
      hide Shows, Source, Address;
      Cancel(t.y * w + t.x, s.y * w + s.x, ps);
      PixelNumber(w, h, t, s);
    }
    hide Shows, Address;
    TurnedInverse(w, h, n, Flipped(b.width, b.height, flipX, flipY, q));
  }

  // ----- the sixteen settings

  /** A symmetry of the rectangle: exchange the axes or not, then run backwards along source x or y. */
  datatype Symmetry = Symmetry(swap: bool, backX: bool, backY: bool)

  function Image(w: int, h: int, s: Symmetry, p: Pos): (r: Pos) {
    var q := if s.swap then Pos(p.y, p.x) else p;
    Pos(if s.backX then w - 1 - q.x else q.x, if s.backY then h - 1 - q.y else q.y)
  }

  datatype Setting = Setting(turns: nat, flipX: bool, flipY: bool)

  predicate IsSetting(s: Setting) { s.turns < 4 }

  function SymmetryOf(s: Setting): (r: Symmetry)
    requires IsSetting(s)
  {
    var backX := s.turns == 1 || s.turns == 2;
    var backY := s.turns == 2 || s.turns == 3;
    if s.turns % 2 == 0 then Symmetry(false, backX != s.flipX, backY != s.flipY)
    else Symmetry(true, backX != s.flipY, backY != s.flipX)
  }

  lemma SettingIsSymmetry(w: int, h: int, s: Setting, p: Pos)
    requires IsSetting(s)
    ensures Source(w, h, s.turns, s.flipX, s.flipY, p) == Image(w, h, SymmetryOf(s), p)
  {
    TurnedCases(w, h, Flipped(Width(w, h, s.turns), Height(w, h, s.turns), s.flipX, s.flipY, p));
  }

  /** The settings cover each of the eight symmetries exactly twice. */
  lemma EachSymmetryTwice(y: Symmetry) returns (a: Setting, b: Setting)
    ensures IsSetting(a) && IsSetting(b) && a != b
    ensures forall s :: IsSetting(s) ==> (SymmetryOf(s) == y <==> s == a || s == b)
  {
    if y.swap {
      a, b := Setting(1, y.backY, !y.backX), Setting(3, !y.backY, y.backX);
    } else {
      a, b := Setting(0, y.backX, y.backY), Setting(2, !y.backX, !y.backY);
    }
  }

  /** And the symmetries are really different on any image of at least 2 x 2 pixels. */
  lemma SymmetriesDiffer(w: int, h: int, s: Symmetry, t: Symmetry)
    requires 2 <= w && 2 <= h && s != t
    ensures exists p :: Inside(2, 2, p) && Image(w, h, s, p) != Image(w, h, t, p)
  {
    var p := if s.backX != t.backX || s.backY != t.backY then Pos(0, 0) else Pos(1, 0);
    assert Inside(2, 2, p) && Image(w, h, s, p) != Image(w, h, t, p);
  }
}
