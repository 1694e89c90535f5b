/**
 * The framebuffer text console (src/video.c): a cursor over a grid of 8x16
 * character cells, colour-prefix bytes, the control characters, glyph
 * painting and scrolling, plus driver registration and the flush test.
 */
module Video {
  import opened Types
  import Timer
  import Output

  const FONT_WIDTH: nat := 8
  const FONT_HEIGHT: nat := 16
  /** The font: 16 row bytes for each of the 256 character codes. */
  const FONT_BYTES: nat := 256 * 16
  /** The flush period, in milliseconds. */
  const FRAME_MS_TARGET: nat := 16

  /** The palette indices `V_Register` reads the default colours from. */
  const C_BLACK: u8 := 0
  const C_LGRAY: u8 := 14

  /** The framebuffer console `outputDevice`: named and graphical. */
  const VIDEO_DEVICE: Output.Device := Output.Device(4, true, true)

  /** The framebuffer's size in pixels and the console's size in cells. */
  datatype Geometry = Geometry(width: nat, height: nat, rows: nat, columns: nat)

  /** The grid `V_Register` derives from the framebuffer, with at least one cell. */
  predicate Fits(g: Geometry)
  {
    g.columns == g.width / FONT_WIDTH && g.rows == g.height / FONT_HEIGHT &&
    g.rows >= 1 && g.columns >= 1
  }

  /** posX, posY, nextByteIsColor and color[0..1] (foreground, background). */
  datatype Cursor = Cursor(posX: nat, posY: nat, pending: nat, fg: u32, bg: u32)

  /** The console invariant: the cursor is on the grid. */
  predicate OnGrid(g: Geometry, k: Cursor)
  {
    k.posX < g.columns && k.posY < g.rows && k.pending <= 2
  }

  /** Everything a character write needs to be in bounds. */
  predicate Ready(g: Geometry, font: seq<u8>, fb: seq<u32>, k: Cursor)
  {
    Fits(g) && |fb| == g.width * g.height && |font| == FONT_BYTES && OnGrid(g, k)
  }

  // ------------------------------------------------------------ glyph cells

  /** The colour of pixel x of a glyph row, testing bit 8 - x of the row byte. */
  function PixelOf(dat: u8, x: nat, fg: u32, bg: u32): u32
    requires x <= 8
  {
    if BitAnd(dat, Pow2(8 - x)) != 0 then fg else bg
  }

  /** The first column of a cell is always background; bit 0 of a row is never shown. */
  lemma PixelColumns(dat: u8, x: nat, fg: u32, bg: u32)
    requires x < FONT_WIDTH
    ensures PixelOf(dat, x, fg, bg) == if BitSet(dat, 8 - x) then fg else bg
    ensures x == 0 ==> PixelOf(dat, x, fg, bg) == bg
  {
    AndSingleBit(dat, 8 - x);
    Pow2Values();
    if x == 0 {
      assert dat / Pow2(8) == 0;
    }
  }

  /** Pixels 0..n-1 of one glyph row, painted from offset `off`. */
  function PaintRow(fb: seq<u32>, off: nat, dat: u8, n: nat, fg: u32, bg: u32): (r: seq<u32>)
    requires n <= FONT_WIDTH && off + n <= |fb|
    ensures |r| == |fb|
  {
    if n == 0 then fb else PaintRow(fb, off, dat, n - 1, fg, bg)[off + n - 1 := PixelOf(dat, n - 1, fg, bg)]
  }

  /** Rows 0..m-1 of a glyph painted at `base`, one framebuffer line apart. */
  function PaintGlyph(fb: seq<u32>, base: nat, width: nat, glyph: seq<u8>, m: nat, fg: u32, bg: u32): (r: seq<u32>)
    requires m <= |glyph| && (m > 0 ==> base + width * (m - 1) + FONT_WIDTH <= |fb|)
    ensures |r| == |fb|
  {
    if m == 0 then fb
    else
      assert width * (m - 1) == (if m >= 2 then width * (m - 2) + width else 0);
      PaintRow(PaintGlyph(fb, base, width, glyph, m - 1, fg, bg), base + width * (m - 1), glyph[m - 1], FONT_WIDTH, fg, bg)
  }

  /** A painted row holds the row's pixels at off..off+n-1 and nothing else changes. */
  lemma {:induction false} PaintRowAt(fb: seq<u32>, off: nat, dat: u8, n: nat, fg: u32, bg: u32, i: nat)
    requires n <= FONT_WIDTH && off + n <= |fb| && i < |fb|
    ensures PaintRow(fb, off, dat, n, fg, bg)[i] == if off <= i < off + n then PixelOf(dat, i - off, fg, bg) else fb[i]
  {
    if n > 0 {
      PaintRowAt(fb, off, dat, n - 1, fg, bg, i);
    }
  }

  /** Pixel i lies in one of the first m rows of the cell at `base`. */
  predicate InCell(base: nat, width: nat, m: nat, i: nat)
    requires width >= 1
  {
    base <= i && (i - base) / width < m && (i - base) % width < FONT_WIDTH
  }

  /** A painted glyph: line y, column x of the cell (x < 8) shows PixelOf(glyph[y], x). */
  lemma {:induction false} PaintGlyphAt(fb: seq<u32>, base: nat, width: nat, glyph: seq<u8>, m: nat, fg: u32, bg: u32, y: nat, x: nat)
    requires width >= FONT_WIDTH && m <= |glyph| && (m > 0 ==> base + width * (m - 1) + FONT_WIDTH <= |fb|)
    requires y < m && x < FONT_WIDTH
    ensures base + width * y + x < |fb|
    ensures PaintGlyph(fb, base, width, glyph, m, fg, bg)[base + width * y + x] == PixelOf(glyph[y], x, fg, bg)
  {
    var j := base + width * y + x;
    var prev := PaintGlyph(fb, base, width, glyph, m - 1, fg, bg);
    var off := base + width * (m - 1);
    MulLe(width, y, m - 1);
    assert PaintGlyph(fb, base, width, glyph, m, fg, bg) == PaintRow(prev, off, glyph[m - 1], FONT_WIDTH, fg, bg);
    PaintRowAt(prev, off, glyph[m - 1], FONT_WIDTH, fg, bg, j);
    if y < m - 1 {
      MulLe(width, y + 1, m - 1);
      assert width * (y + 1) == width * y + width;
      assert j < off;
      assert width * (m - 2) + FONT_WIDTH <= width * (m - 1);
      PaintGlyphAt(fb, base, width, glyph, m - 1, fg, bg, y, x);
    }
  }

  /** A painted glyph leaves every pixel outside its cell as it was. */
  lemma {:induction false} PaintGlyphOutside(fb: seq<u32>, base: nat, width: nat, glyph: seq<u8>, m: nat, fg: u32, bg: u32, i: nat)
    requires width >= FONT_WIDTH && m <= |glyph| && (m > 0 ==> base + width * (m - 1) + FONT_WIDTH <= |fb|)
    requires i < |fb| && !InCell(base, width, m, i)
    ensures PaintGlyph(fb, base, width, glyph, m, fg, bg)[i] == fb[i]
  {
    if m > 0 {
      var prev := PaintGlyph(fb, base, width, glyph, m - 1, fg, bg);
      var off := base + width * (m - 1);
      assert PaintGlyph(fb, base, width, glyph, m, fg, bg) == PaintRow(prev, off, glyph[m - 1], FONT_WIDTH, fg, bg);
      PaintRowAt(prev, off, glyph[m - 1], FONT_WIDTH, fg, bg, i);
      if base <= i {
        var q, x := (i - base) / width, (i - base) % width;
        CellCoordinates(base, width, m - 1, i);
        assert !(q < m && x < FONT_WIDTH);
        assert !(off <= i < off + FONT_WIDTH);
        assert !(q < m - 1 && x < FONT_WIDTH);
      }
      assert !InCell(base, width, m - 1, i);
      if m > 1 {
        assert width * (m - 1) == width * (m - 2) + width;
      }
      PaintGlyphOutside(fb, base, width, glyph, m - 1, fg, bg, i);
    }
  }

  /** Pixel i lies in row y of the cell at `base` exactly when its line and column say so. */
  lemma CellCoordinates(base: nat, width: nat, y: nat, i: nat)
    requires width >= FONT_WIDTH && base <= i
    ensures (base + width * y <= i < base + width * y + FONT_WIDTH) <==> ((i - base) / width == y && (i - base) % width < FONT_WIDTH)
  {
    var off := base + width * y;
    if off <= i < off + FONT_WIDTH {
      DivModUnique(i - base, width, y, i - off);
    }
  }

  /** The top-left pixel of the cursor's cell. */
  function CellBase(g: Geometry, k: Cursor): nat
  {
    g.width * FONT_HEIGHT * k.posY + FONT_WIDTH * k.posX
  }

  /** A cell on the grid lies inside the framebuffer. */
  lemma CellFits(g: Geometry, k: Cursor)
    requires Fits(g) && OnGrid(g, k)
    ensures CellBase(g, k) + g.width * (FONT_HEIGHT - 1) + FONT_WIDTH <= g.width * g.height
    ensures g.width >= FONT_WIDTH
  {
    var w := g.width;
    assert FONT_WIDTH * g.columns <= w;
    assert FONT_WIDTH * k.posX + FONT_WIDTH <= w;
    assert k.posY + 1 <= g.rows;
    assert FONT_HEIGHT * (k.posY + 1) <= g.height;
    MulLe(w, FONT_HEIGHT * (k.posY + 1), g.height);
    assert w * FONT_HEIGHT * k.posY + w * FONT_HEIGHT == w * (FONT_HEIGHT * (k.posY + 1));
  }

  lemma MulLe(w: nat, a: nat, b: nat)
    requires a <= b
    ensures w * a <= w * b
  {
  }

  /** The glyph of character c. */
  function GlyphOf(font: seq<u8>, c: u8): (r: seq<u8>)
    requires |font| == FONT_BYTES
    ensures |r| == FONT_HEIGHT
  {
    font[c * FONT_HEIGHT..c * FONT_HEIGHT + FONT_HEIGHT]
  }

  // --------------------------------------------------------------- scrolling

  /** The framebuffer after `maybeScroll` moves it up by k pixels and clears the last k. */
  function Scrolled(fb: seq<u32>, k: nat): (r: seq<u32>)
    requires k <= |fb|
    ensures |r| == |fb|
  {
    fb[k..] + seq(k, _ => 0)
  }

  /** A line of cells is 16 framebuffer lines, no more than the framebuffer. */
  lemma ScrollFits(g: Geometry)
    requires Fits(g)
    ensures g.width * FONT_HEIGHT <= g.width * g.height
  {
    MulLe(g.width, FONT_HEIGHT, g.height);
  }

  /** `maybeScroll`: only once the cursor has run off the last row. */
  function MaybeScroll(g: Geometry, fb: seq<u32>, k: Cursor): (r: (seq<u32>, Cursor))
    requires Fits(g) && |fb| == g.width * g.height && k.posY <= g.rows
    ensures |r.0| == |fb| && r.1.posY < g.rows
  {
    if k.posY < g.rows then (fb, k)
    else
      ScrollFits(g);
      (Scrolled(fb, g.width * FONT_HEIGHT), k.(posY := g.rows - 1))
  }

  // --------------------------------------------------------- the cursor machine

  /** An ordinary character: paint the cell, advance, wrap at the last column. */
  function Glyph(g: Geometry, font: seq<u8>, fb: seq<u32>, k: Cursor, c: u8): (r: (seq<u32>, Cursor))
    requires Ready(g, font, fb, k)
    ensures Ready(g, font, r.0, r.1) && r.1.pending == k.pending
  {
    CellFits(g, k);
    var painted := PaintGlyph(fb, CellBase(g, k), g.width, GlyphOf(font, c), FONT_HEIGHT, k.fg, k.bg);
    if k.posX + 1 >= g.columns then MaybeScroll(g, painted, k.(posX := 0, posY := k.posY + 1))
    else (painted, k.(posX := k.posX + 1))
  }

  /**
   * Writing a glyph without scrolling paints the cursor's cell: line y,
   * column x of the cell shows bit 8 - x of row y of the character's font
   * entry, and every pixel outside the cell keeps its value.
   */
  lemma GlyphAt(g: Geometry, font: seq<u8>, fb: seq<u32>, k: Cursor, c: u8, y: nat, x: nat, i: nat)
    requires Ready(g, font, fb, k) && (k.posX + 1 < g.columns || k.posY + 1 < g.rows)
    requires y < FONT_HEIGHT && x < FONT_WIDTH && i < |fb|
    ensures CellBase(g, k) + g.width * y + x < |fb|
    ensures Glyph(g, font, fb, k, c).0[CellBase(g, k) + g.width * y + x] == PixelOf(font[c * FONT_HEIGHT + y], x, k.fg, k.bg)
    ensures !InCell(CellBase(g, k), g.width, FONT_HEIGHT, i) ==> Glyph(g, font, fb, k, c).0[i] == fb[i]
  {
    CellFits(g, k);
    var base := CellBase(g, k);
    var glyph := GlyphOf(font, c);
    PaintGlyphAt(fb, base, g.width, glyph, FONT_HEIGHT, k.fg, k.bg, y, x);
    if !InCell(base, g.width, FONT_HEIGHT, i) {
      PaintGlyphOutside(fb, base, g.width, glyph, FONT_HEIGHT, k.fg, k.bg, i);
    }
  }

  /** n spaces in a row, as the tab expansion writes them. */
  function Spaces(g: Geometry, font: seq<u8>, fb: seq<u32>, k: Cursor, n: nat): (r: (seq<u32>, Cursor))
    requires Ready(g, font, fb, k)
    ensures Ready(g, font, r.0, r.1) && r.1.pending == k.pending
    decreases n
  {
    if n == 0 then (fb, k)
    else
      var (f1, k1) := Glyph(g, font, fb, k, 32);
      Spaces(g, font, f1, k1, n - 1)
  }

  /** Take a pending colour selection: the byte picks foreground or background. */
  function TakeColour(k: Cursor, palette: u8 -> u32, c: u8): Cursor
  {
    if k.pending == 1 then k.(fg := palette(c), pending := 0)
    else if k.pending == 2 then k.(bg := palette(c), pending := 0)
    else k
  }

  /** `odevWriteChar(c)`: the framebuffer and the cursor afterwards. */
  function Render(g: Geometry, font: seq<u8>, palette: u8 -> u32, fb: seq<u32>, k: Cursor, c: u8): (r: (seq<u32>, Cursor))
    requires Ready(g, font, fb, k)
    ensures Ready(g, font, r.0, r.1)
  {
    if c == 0xff then (fb, k.(pending := 1))
    else if c == 0xfe then (fb, k.(pending := 2))
    else Dispatch(g, font, fb, TakeColour(k, palette, c), c)
  }

  /** The rest of `odevWriteChar`, once any colour selection is taken: control characters or a glyph. */
  function Dispatch(g: Geometry, font: seq<u8>, fb: seq<u32>, k: Cursor, c: u8): (r: (seq<u32>, Cursor))
    requires Ready(g, font, fb, k)
    ensures Ready(g, font, r.0, r.1)
  {
    if c == 8 then Glyph(g, font, fb, k.(posX := if k.posX > 0 then k.posX - 1 else 0), 32)
    else if c == 13 then (fb, k.(posX := 0))
    else if c == 10 then MaybeScroll(g, fb, k.(posY := k.posY + 1))
    else if c == 9 then Spaces(g, font, fb, k, 8 - (k.posX + 8) % 8)
    else Glyph(g, font, fb, k, c)
  }

  /**
   * Colour prefixes draw nothing: 0xff and 0xfe only arm the next byte,
   * which then sets the foreground or background and is written as an
   * ordinary character with the new colour.
   */
  lemma ColourPrefix(g: Geometry, font: seq<u8>, palette: u8 -> u32, fb: seq<u32>, k: Cursor, sel: u8, c: u8)
    requires Ready(g, font, fb, k) && (sel == 0xff || sel == 0xfe) && c != 0xff && c != 0xfe
    ensures var (f1, k1) := Render(g, font, palette, fb, k, sel);
      f1 == fb && k1.posX == k.posX && k1.posY == k.posY &&
      var k2 := Render(g, font, palette, f1, k1, c).1;
      (sel == 0xff ==> k2.fg == palette(c)) && (sel == 0xfe ==> k2.bg == palette(c)) && k2.pending == 0
  {
    var (f1, k1) := Render(g, font, palette, fb, k, sel);
    var k2 := TakeColour(k1, palette, c);
    assert k2.pending == 0;
    SpacesKeepColours(g, font, fb, k2, 8 - (k2.posX + 8) % 8);
  }

  /** Spaces and glyphs change neither colour nor the pending selection. */
  lemma {:induction false} SpacesKeepColours(g: Geometry, font: seq<u8>, fb: seq<u32>, k: Cursor, n: nat)
    requires Ready(g, font, fb, k)
    ensures var k1 := Spaces(g, font, fb, k, n).1; k1.fg == k.fg && k1.bg == k.bg && k1.pending == k.pending
    decreases n
  {
    if n > 0 {
      var (f1, k1) := Glyph(g, font, fb, k, 32);
      SpacesKeepColours(g, font, f1, k1, n - 1);
    }
  }

  /**
   * A backspace away from the first column blanks the cell to the left
   * (a space is painted there) and leaves posX where it was.
   */
  lemma Backspace(g: Geometry, font: seq<u8>, palette: u8 -> u32, fb: seq<u32>, k: Cursor)
    requires Ready(g, font, fb, k) && k.posX > 0 && k.pending == 0
    ensures var left := k.(posX := k.posX - 1);
      Render(g, font, palette, fb, k, 8) == Glyph(g, font, fb, left, 32) &&
      Render(g, font, palette, fb, k, 8).1.posX == k.posX && Render(g, font, palette, fb, k, 8).1.posY == k.posY
  {
  }

  /**
   * A tab with the grid wide enough writes 8 - posX % 8 spaces and lands on
   * the next multiple of 8, on the same row.
   */
  lemma {:induction false} TabStop(g: Geometry, font: seq<u8>, fb: seq<u32>, k: Cursor, n: nat)
    requires Ready(g, font, fb, k) && k.posX + n < g.columns
    ensures Spaces(g, font, fb, k, n).1.posX == k.posX + n && Spaces(g, font, fb, k, n).1.posY == k.posY
    decreases n
  {
    if n > 0 {
      var (f1, k1) := Glyph(g, font, fb, k, 32);
      TabStop(g, font, f1, k1, n - 1);
    }
  }

  /** `odevWriteStr`'s effect: `Render` for each character in turn. */
  function RenderAll(g: Geometry, font: seq<u8>, palette: u8 -> u32, fb: seq<u32>, k: Cursor, t: seq<u8>): (r: (seq<u32>, Cursor))
    requires Ready(g, font, fb, k)
    ensures Ready(g, font, r.0, r.1)
  {
    if t == [] then (fb, k)
    else
      var (f1, k1) := RenderAll(g, font, palette, fb, k, t[..|t| - 1]);
      Render(g, font, palette, f1, k1, t[|t| - 1])
  }

  /** The registration record a display driver passes to `V_Register`. */
  datatype VideoInfo = VideoInfo(width: nat, height: nat, flush: nat)

  // ---------------------------------------------------------------- the console

  /** The console's static state: the framebuffer, the grid, the cursor and the active driver. */
  class VideoConsole {
    var fb: array<u32>
    var width: nat
    var height: nat
    var rows: nat
    var columns: nat
    var posX: nat
    var posY: nat
    var pending: nat
    var fg: u32
    var bg: u32
    var font: seq<u8>
    var active: Option<VideoInfo>
    /** Set to 0 at start-up; nothing ever assigns it again. */
    var lastFlush: u64

    function Geom(): Geometry
      reads this
    {
      Geometry(width, height, rows, columns)
    }

    function Cur(): Cursor
      reads this
    {
      Cursor(posX, posY, pending, fg, bg)
    }

    ghost predicate Writable()
      reads this, fb
    {
      Ready(Geom(), font, fb[..], Cur())
    }

    constructor (glyphs: seq<u8>, initial: array<u32>)
      ensures active.None? && lastFlush == 0 && posX == 0 && posY == 0 && pending == 0
      ensures font == glyphs && fb == initial
    {
      fb := initial;
      width, height, rows, columns := 0, 0, 0, 0;
      posX, posY, pending := 0, 0, 0;
      fg, bg := 0, 0;
      font := glyphs;
      active := None;
      lastFlush := 0;
    }

    /** The 16x8 pixel loop of `odevWriteChar` for one cell. */
    method PaintCell(base: nat, glyph: seq<u8>)
      requires |glyph| == FONT_HEIGHT && width >= FONT_WIDTH
      requires base + width * (FONT_HEIGHT - 1) + FONT_WIDTH <= fb.Length
      modifies fb
      ensures fb[..] == PaintGlyph(old(fb[..]), base, width, glyph, FONT_HEIGHT, fg, bg)
    {
      var y := 0;
      while y < FONT_HEIGHT
        invariant 0 <= y <= FONT_HEIGHT
        invariant fb[..] == PaintGlyph(old(fb[..]), base, width, glyph, y, fg, bg)
      {
        var dat := glyph[y];
        ghost var before := fb[..];
        var x := 0;
        MulLe(width, y, FONT_HEIGHT - 1);
        while x < FONT_WIDTH
          invariant 0 <= x <= FONT_WIDTH
          invariant fb[..] == PaintRow(before, base + width * y, dat, x, fg, bg)
        {
          var off := base + width * y + x;
          var pix := if BitAnd(dat, Pow2(8 - x)) != 0 then fg else bg;
          fb[off] := pix;
          x := x + 1;
        }
        y := y + 1;
      }
    }

    /** `maybeScroll`'s memmove and memset, in pixels. */
    method ScrollUp(k: nat)
      requires k <= fb.Length
      modifies fb
      ensures fb[..] == Scrolled(old(fb[..]), k)
    {
      var size := fb.Length - k;
      var i := 0;
      while i < size
        invariant 0 <= i <= size
        invariant forall j :: 0 <= j < i ==> fb[j] == old(fb[j + k])
        invariant forall j :: i <= j < fb.Length ==> fb[j] == old(fb[j])
      {
        fb[i] := fb[i + k];
        i := i + 1;
      }
      while i < fb.Length
        invariant size <= i <= fb.Length
        invariant forall j :: 0 <= j < size ==> fb[j] == old(fb[j + k])
        invariant forall j :: size <= j < i ==> fb[j] == 0
      {
        fb[i] := 0;
        i := i + 1;
      }
      ghost var want := Scrolled(old(fb[..]), k);
      assert forall j :: 0 <= j < fb.Length ==> fb[j] == want[j];
    }

    /** `maybeScroll`. */
    method MaybeScrollConsole()
      requires Fits(Geom()) && fb.Length == width * height && posY <= rows
      modifies this, fb
      ensures fb == old(fb) && Geom() == old(Geom()) && font == old(font) && active == old(active) && lastFlush == old(lastFlush)
      ensures (fb[..], Cur()) == MaybeScroll(Geom(), old(fb[..]), old(Cur()))
    {
      if posY < rows {
        return;
      }
      posY := rows - 1;
      ScrollFits(Geom());
      ScrollUp(width * FONT_HEIGHT);
    }

    /** Paint the cursor's cell with c, advance and wrap. */
    method DrawGlyph(c: u8)
      requires Writable()
      modifies this, fb
      ensures fb == old(fb) && Geom() == old(Geom()) && font == old(font) && active == old(active) && lastFlush == old(lastFlush)
      ensures (fb[..], Cur()) == Glyph(Geom(), font, old(fb[..]), old(Cur()), c)
    {
      CellFits(Geom(), Cur());
      PaintCell(CellBase(Geom(), Cur()), GlyphOf(font, c));
      posX := posX + 1;
      if posX >= columns {
        posX := 0;
        posY := posY + 1;
        MaybeScrollConsole();
      }
    }

    /** The tab case of `odevWriteChar`: spaces up to the next multiple of 8 columns. */
    method Tab()
      requires Writable()
      modifies this, fb
      ensures Writable()
      ensures fb == old(fb) && Geom() == old(Geom()) && font == old(font) && active == old(active) && lastFlush == old(lastFlush)
      ensures (fb[..], Cur()) == Spaces(Geom(), font, old(fb[..]), old(Cur()), 8 - (old(posX) + 8) % 8)
    {
      var spc: nat := 8 - (posX + 8) % 8;
      while spc != 0
        invariant Writable() && fb == old(fb) && Geom() == old(Geom()) && font == old(font)
        invariant active == old(active) && lastFlush == old(lastFlush)
        invariant Spaces(Geom(), font, fb[..], Cur(), spc) == Spaces(Geom(), font, old(fb[..]), old(Cur()), 8 - (old(posX) + 8) % 8)
      {
        DrawGlyph(32);
        spc := spc - 1;
      }
    }

    /** `odevWriteChar`. `palette(i)` is the colour word at index i of `colors`. */
    method WriteChar(c: u8, palette: u8 -> u32)
      requires Writable()
      modifies this, fb
      ensures Writable()
      ensures fb == old(fb) && Geom() == old(Geom()) && font == old(font) && active == old(active) && lastFlush == old(lastFlush)
      ensures (fb[..], Cur()) == Render(Geom(), font, palette, old(fb[..]), old(Cur()), c)
    {
      if c == 0xff {
        pending := 1;
        return;
      } else if c == 0xfe {
        pending := 2;
        return;
      }
      if pending != 0 {
        if pending == 1 {
          fg := palette(c);
        } else {
          bg := palette(c);
        }
        pending := 0;
      }
      DispatchChar(c);
    }

    /** The control-character switch and the glyph path of `odevWriteChar`. */
    method DispatchChar(c: u8)
      requires Writable()
      modifies this, fb
      ensures Writable()
      ensures fb == old(fb) && Geom() == old(Geom()) && font == old(font) && active == old(active) && lastFlush == old(lastFlush)
      ensures (fb[..], Cur()) == Dispatch(Geom(), font, old(fb[..]), old(Cur()), c)
    {
      ghost var g, f0, k0 := Geom(), fb[..], Cur();
      if c == 8 {
        assert Dispatch(g, font, f0, k0, c) == Glyph(g, font, f0, k0.(posX := if k0.posX > 0 then k0.posX - 1 else 0), 32);
        if posX > 0 {
          posX := posX - 1;
        }
        DrawGlyph(32);
      } else if c == 13 {
        posX := 0;
      } else if c == 10 {
        assert Dispatch(g, font, f0, k0, c) == MaybeScroll(g, f0, k0.(posY := k0.posY + 1));
        posY := posY + 1;
        MaybeScrollConsole();
      } else if c == 9 {
        assert Dispatch(g, font, f0, k0, c) == Spaces(g, font, f0, k0, 8 - (k0.posX + 8) % 8);
        Tab();
      } else {
        assert Dispatch(g, font, f0, k0, c) == Glyph(g, font, f0, k0, c);
        DrawGlyph(c);
      }
    }

    /** `odevWriteStr`: each character before the NUL, in order. */
    method WriteStr(s: seq<u8>, palette: u8 -> u32)
      requires Writable()
      modifies this, fb
      ensures Writable()
      ensures fb == old(fb) && Geom() == old(Geom()) && font == old(font) && active == old(active) && lastFlush == old(lastFlush)
      ensures (fb[..], Cur()) == RenderAll(Geom(), font, palette, old(fb[..]), old(Cur()), Output.CStr(s))
    {
      var i := 0;
      while i < |s| && s[i] != 0
        invariant 0 <= i <= |s| && 0 !in s[..i]
        invariant Writable() && fb == old(fb) && Geom() == old(Geom()) && font == old(font)
        invariant active == old(active) && lastFlush == old(lastFlush)
        invariant (fb[..], Cur()) == RenderAll(Geom(), font, palette, old(fb[..]), old(Cur()), s[..i])
      {
        assert s[..i + 1][..i] == s[..i];
        WriteChar(s[i], palette);
        i := i + 1;
      }
      Output.CStrUnique(s, i);
    }

    /**
     * `V_Register`: panics on a missing record or a second registration;
     * otherwise derives the grid, takes the framebuffer, sets the default
     * colours and adds the console as an output device.
     */
    method Register(info: Option<VideoInfo>, buffer: array<u32>, palette: u8 -> u32, out: Output.OutputTable)
      returns (panicked: bool)
      requires out.Valid()
      modifies this, out, out.devices
      ensures out.Valid() && out.devices == old(out.devices)
      ensures info.None? || old(active).Some? ==> panicked && unchanged(this) && unchanged(out, out.devices)
      ensures info.Some? && old(active).None? ==>
        active == info && fb == buffer &&
        width == info.value.width && height == info.value.height &&
        columns == info.value.width / FONT_WIDTH && rows == info.value.height / FONT_HEIGHT &&
        fg == palette(C_LGRAY) && bg == palette(C_BLACK) &&
        posX == old(posX) && posY == old(posY) && pending == old(pending) && font == old(font) &&
        lastFlush == old(lastFlush) &&
        (panicked <==> old(out.numDevices) >= Output.MAX_DEV) &&
        (!panicked ==> out.Registered() == old(out.Registered()) + [VIDEO_DEVICE])
    {
      if info.None? || active.Some? {
        return true;
      }
      columns := info.value.width / FONT_WIDTH;
      rows := info.value.height / FONT_HEIGHT;
      fb := buffer;
      width := info.value.width;
      height := info.value.height;
      active := info;
      fg := palette(C_LGRAY);
      bg := palette(C_BLACK);
      panicked := out.AddDevice(VIDEO_DEVICE);
    }

    /**
     * `V_Flush`, with `tb` the timebase it reads: nothing until 16 ms past
     * `lastFlush`, then a panic without a driver, else the driver's flush
     * hook if it has one. Returns whether the hook was called.
     */
    method Flush(console: Console, tb: u64) returns (panicked: bool, flushed: bool)
      ensures !Timer.HasElapsed(console, tb, lastFlush, FRAME_MS_TARGET * 1000) ==> !panicked && !flushed
      ensures Timer.HasElapsed(console, tb, lastFlush, FRAME_MS_TARGET * 1000) ==>
        panicked == active.None? && flushed == (active.Some? && active.value.flush != 0)
    {
      if !Timer.HasElapsed(console, tb, lastFlush, FRAME_MS_TARGET * 1000) {
        return false, false;
      }
      if active.None? {
        return true, false;
      }
      return false, active.value.flush != 0;
    }
  }

  /**
   * Because `lastFlush` stays 0, the flush test compares the timebase with
   * a fixed 16 ms worth of ticks since boot: once past it, every call flushes.
   */
  lemma FlushAfterBoot(console: Console, tb: u64)
    ensures Timer.HasElapsed(console, tb, 0, FRAME_MS_TARGET * 1000) <==> tb >= Timer.TicksPerUsec(console) * 16000
  {
    Timer.HasElapsedMeaning(console, tb, 0, FRAME_MS_TARGET * 1000);
  }
}
