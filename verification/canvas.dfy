/**
 The flush logic of `Canvas` in `src/wilson/maze.py`: when the tracked changes
 are turned into a frame, which region the frame covers, how pixel indices map
 back to cells, and the reset of the tracker. The GIF byte encoding (LZW, the
 descriptor and control-block bytes) is not modelled; a frame records the
 descriptor's numbers, the control parameters and the cell value of each pixel.
 */
module Frames {
  import opened Wrappers
  import opened Grid

  /** The canvas parameters the flush logic reads. */
  datatype Canvas = Canvas(scale: nat, speed: int, delay: int, transIndex: int)

  /** The image descriptor of a frame, in pixels. */
  datatype Descriptor = Descriptor(left: int, top: int, width: int, height: int)

  /**
   One frame: the graphics control parameters `(delay, transparent index)`,
   absent for a static frame; the descriptor; and one grid value per pixel.
   */
  datatype Frame = Frame(control: Option<(int, int)>, descriptor: Descriptor, pixels: seq<int>)

  // ---------------------------------------------------------------------------
  // Pixel arithmetic
  // ---------------------------------------------------------------------------

  /** Division by a positive divisor is determined by any quotient/remainder split. */
  lemma DivUnique(n: int, d: int, q: int, r: int)
    requires d > 0 && 0 <= r < d && n == q * d + r
    ensures n / d == q && n % d == r
  {
    var q', r' := n / d, n % d;
    assert n == q' * d + r';
    assert (q - q') * d == r' - r;
    MulBounds(q - q', d);
  }

  /** A nonzero multiple of `d` is at least `d` in size. */
  lemma MulBounds(k: int, d: int)
    requires d > 0
    ensures k >= 1 ==> k * d >= d
    ensures k <= -1 ==> k * d <= -d
    ensures k >= 0 ==> k * d >= 0
  {
    if k >= 1 {
      assert k * d == (k - 1) * d + d;
    } else if k <= -1 {
      assert k * d == (k + 1) * d - d;
    }
  }

  /** Regrouping `(q2 * b + r2) * a + r1` around the product `a * b`. */
  lemma Regroup(q2: int, b: int, r2: int, a: int, r1: int)
    ensures (q2 * b + r2) * a + r1 == q2 * (a * b) + (r2 * a + r1)
  {
    assert (q2 * b + r2) * a == q2 * b * a + r2 * a;
    assert q2 * b * a == q2 * (a * b);
  }

  /** A digit below `b` scaled by `a`, plus a digit below `a`, stays below `a * b`. */
  lemma DigitsBelow(r2: int, b: int, a: int, r1: int)
    requires a > 0 && 0 <= r2 < b && 0 <= r1 < a
    ensures 0 <= r2 * a + r1 < a * b
  {
    MulBounds(r2, a);
    MulBounds(b - 1 - r2, a);
    assert (b - 1 - r2) * a == a * b - a - r2 * a;
  }

  /** Dividing by `a` then by `b` is dividing by `a * b`. */
  lemma DivDiv(n: nat, a: int, b: int)
    requires a > 0 && b > 0
    ensures n / a / b == n / (a * b)
  {
    var q1, r1 := n / a, n % a;
    var q2, r2 := q1 / b, q1 % b;
    Regroup(q2, b, r2, a, r1);
    DigitsBelow(r2, b, a, r1);
    MulBounds(b, a);
    DivUnique(n, a * b, q2, r2 * a + r1);
  }

  /** A value below `w * s` divided by `s` is below `w`. */
  lemma DivBelow(n: int, w: int, s: int)
    requires s > 0 && 0 <= n < w * s
    ensures 0 <= n / s < w
  {
    var q := n / s;
    assert n == q * s + n % s;
    MulBounds(q - w, s);
    assert (q - w) * s == q * s - w * s;
  }

  /**
   The cell offset shown by pixel `i` of a `w` x `h` region drawn at `s`
   pixels per cell, computed as `encode_frame` does
   (`y = i // (w*s*s)`, `x = (i % (w*s)) // s`). It lies inside the region, and
   it is the cell under pixel row `i // (w*s)`, pixel column `i % (w*s)` of the
   row-major pixel stream.
   */
  function PixelCell(w: nat, h: nat, s: nat, i: int): (c: Cell)
    requires 0 <= i < w * h * s * s
    ensures 0 <= c.0 < w && 0 <= c.1 < h
    ensures c.0 == (i % (w * s)) / s && c.1 == (i / (w * s)) / s
  {
    assert w > 0 && s > 0;
    assert w * h * s * s == h * (w * s * s);
    var y := i / (w * s * s);
    var x := (i % (w * s)) / s;
    DivBelow(i % (w * s), w, s);
    DivBelow(i, h, w * s * s);
    DivDiv(i, w * s, s);
    (x, y)
  }

  // ---------------------------------------------------------------------------
  // Frames and the tracker
  // ---------------------------------------------------------------------------

  /** The region a frame covers: the tracked box, or the whole grid when nothing is tracked. */
  function Region(m: Maze): Box
  {
    match m.frameBox
    case Some(b) => b
    case None => Box(0, 0, m.width - 1, m.height - 1)
  }

  /** The region lies inside the grid. */
  lemma RegionInGrid(m: Maze)
    requires TrackerOk(m)
    ensures var b := Region(m); 0 <= b.left && b.right < m.width && 0 <= b.top && b.bottom < m.height
    ensures var b := Region(m); m.width > 0 && m.height > 0 ==> b.left <= b.right && b.top <= b.bottom
  {
  }

  /** The maze after a frame has been taken: nothing tracked. */
  function Reset(m: Maze): (m': Maze)
    ensures m'.numChanges == 0 && m'.frameBox.None?
    ensures m'.grid == m.grid && SameLayout(m, m')
    ensures Valid(m) ==> Valid(m')
  {
    m.(numChanges := 0, frameBox := None)
  }

  /** The number of columns and rows of a region (zero when it is empty). */
  function Columns(b: Box): nat
  {
    if b.right - b.left + 1 < 0 then 0 else b.right - b.left + 1
  }

  function Rows(b: Box): nat
  {
    if b.bottom - b.top + 1 < 0 then 0 else b.bottom - b.top + 1
  }

  /** The pixels of region `b` at `s` pixels per cell, each showing the value of the cell under it. */
  function FramePixels(m: Maze, b: Box, s: nat): (px: seq<int>)
    requires Shaped(m) && 0 <= b.left && b.right < m.width && 0 <= b.top && b.bottom < m.height
    ensures |px| == Columns(b) * Rows(b) * s * s
    ensures forall i :: 0 <= i < |px| ==>
      var c := PixelCell(Columns(b), Rows(b), s, i);
      InBox(b, (b.left + c.0, b.top + c.1)) && InBounds(m, (b.left + c.0, b.top + c.1))
      && px[i] == Get(m, (b.left + c.0, b.top + c.1))
  {
    var w, h := Columns(b), Rows(b);
    var n := w * h * s * s;
    seq(n, i requires 0 <= i < n =>
      var c := PixelCell(w, h, s, i);
      Get(m, (b.left + c.0, b.top + c.1)))
  }

  /** The image descriptor of region `b`: its corner and size scaled to pixels. */
  function ScaledDescriptor(b: Box, s: nat): Descriptor
  {
    Descriptor(b.left * s, b.top * s, (b.right - b.left + 1) * s, (b.bottom - b.top + 1) * s)
  }

  /**
   `encode_frame`: the frame covering the tracked region (or the whole grid
   when the box is `None`), with each pixel showing the value of the cell
   under it; afterwards the tracker is reset.
   */
  function EncodeFrame(cv: Canvas, m: Maze, isStatic: bool): (r: (Frame, Maze))
    requires Shaped(m) && TrackerOk(m)
    ensures r.1 == Reset(m)
    ensures isStatic ==> r.0.control == None
    ensures !isStatic ==> r.0.control == Some((cv.delay, cv.transIndex))
    ensures m.frameBox.None? ==>
      r.0.descriptor == ScaledDescriptor(Box(0, 0, m.width - 1, m.height - 1), cv.scale)
    ensures m.frameBox.Some? ==> r.0.descriptor == ScaledDescriptor(m.frameBox.value, cv.scale)
    ensures r.0.pixels == FramePixels(m, Region(m), cv.scale)
  {
    var b := Region(m);
    RegionInGrid(m);
    var control := if isStatic then None else Some((cv.delay, cv.transIndex));
    (Frame(control, ScaledDescriptor(b, cv.scale), FramePixels(m, b, cv.scale)), Reset(m))
  }

  /**
   `paint_background`: the current grid, over the tracked region (the whole
   grid on a fresh maze), as a static frame with no control block; the
   tracker is reset and the grid kept.
   */
  function PaintBackground(cv: Canvas, m: Maze): (r: (Frame, Maze))
    requires Shaped(m) && TrackerOk(m)
    ensures r.0.control == None
    ensures r.0.descriptor == ScaledDescriptor(Region(m), cv.scale)
    ensures r.0.pixels == FramePixels(m, Region(m), cv.scale)
    ensures r.1 == Reset(m)
  {
    EncodeFrame(cv, m, true)
  }

  /**
   `refresh_frame`: a frame is emitted exactly when at least `speed` changes
   are pending; otherwise nothing changes.
   */
  function RefreshFrame(cv: Canvas, m: Maze): (r: (Option<Frame>, Maze))
    requires Shaped(m) && TrackerOk(m)
    ensures r.0.Some? <==> m.numChanges >= cv.speed
    ensures r.0.Some? ==> r.0.value == EncodeFrame(cv, m, false).0 && r.1 == Reset(m)
    ensures r.0.None? ==> r.1 == m
    ensures r.1.grid == m.grid && SameLayout(m, r.1) && TrackerOk(r.1)
    ensures Valid(m) ==> Valid(r.1)
  {
    if m.numChanges >= cv.speed then
      var (f, m') := EncodeFrame(cv, m, false);
      (Some(f), m')
    else (None, m)
  }

  /** `clear_remaining_changes`: a frame is emitted exactly when some change is pending. */
  function ClearRemainingChanges(cv: Canvas, m: Maze): (r: (Option<Frame>, Maze))
    requires Shaped(m) && TrackerOk(m)
    ensures r.0.Some? <==> m.numChanges > 0
    ensures r.0.Some? ==> r.0.value == EncodeFrame(cv, m, false).0 && r.1 == Reset(m)
    ensures r.0.None? ==> r.1 == m
    ensures r.1.grid == m.grid && SameLayout(m, r.1)
    ensures r.1.numChanges == 0 && r.1.frameBox.None?
    ensures Valid(m) ==> Valid(r.1)
  {
    if m.numChanges > 0 then
      var (f, m') := EncodeFrame(cv, m, false);
      (Some(f), m')
    else (None, m)
  }

  /** Flushing twice emits at most one frame: the second flush finds nothing pending. */
  lemma ClearIsIdempotent(cv: Canvas, m: Maze)
    requires Shaped(m) && TrackerOk(m)
    ensures var r := ClearRemainingChanges(cv, m);
      Shaped(r.1) && TrackerOk(r.1) && ClearRemainingChanges(cv, r.1) == (None, r.1)
  {
  }

  /** With no change pending, nothing is tracked, so a frame would cover the whole grid. */
  lemma NothingPendingMeansWholeGrid(m: Maze)
    requires TrackerOk(m) && m.numChanges == 0
    ensures Region(m) == Box(0, 0, m.width - 1, m.height - 1)
  {
  }

  /** Appends an optional frame to the emitted frames. */
  function Emit(frames: seq<Frame>, f: Option<Frame>): seq<Frame>
  {
    match f
    case Some(fr) => frames + [fr]
    case None => frames
  }
}
