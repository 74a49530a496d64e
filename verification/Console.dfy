/**
 The pixel console: characters are drawn in place into a linear framebuffer. The framebuffer is
 at every moment the rendering of a grid of character cells over what was there before.
 */
module Console {
  import opened Prelude
  import opened Arithmetic
  import opened Bits

  const WINDOW: nat := 16 * 1024 * 1024
  const LARGE_PAGE: nat := 0x20_0000

  // ---------- the video mode

  datatype ModeInfo = ModeInfo(
    attributes: u16, pitch: u16, width: u16, height: u16, depth: u8, model: u8,
    redSize: u8, redAt: u8, greenSize: u8, greenAt: u8, blueSize: u8, blueAt: u8,
    physical: u32)

  /** Byte offset of the framebuffer inside the mapped window. */
  function Offset(info: ModeInfo): nat { info.physical % LARGE_PAGE }

  predicate Bgrx(info: ModeInfo) {
    && info.depth == 32 && info.model == 6
    && info.redSize == 8 && info.redAt == 16
    && info.greenSize == 8 && info.greenAt == 8
    && info.blueSize == 8 && info.blueAt == 0
  }

  /** What `init` asserts of the mode. */
  predicate Accepted(info: ModeInfo) {
    && And(info.attributes, 0x81) == 0x81
    && Bgrx(info)
    && info.width >= 8 && info.height >= 16 && info.pitch >= info.width * 4 && info.pitch % 4 == 0
    && info.physical != 0 && Offset(info) + info.pitch * info.height <= WINDOW
  }

  /** Width, height and stride in pixels. */
  datatype Geometry = Geometry(width: nat, height: nat, stride: nat) {
    predicate Sane() { width >= 8 && height >= 16 && stride >= width }
    function Columns(): nat { width / 8 }
    function Rows(): nat { height / 16 }
    function Size(): nat { stride * height }
  }

  function GeometryOf(info: ModeInfo): Geometry {
    Geometry(info.width, info.height, info.pitch / 4)
  }

  /** Every pixel of an accepted mode lies inside the 16 MiB that the boot page table maps. */
  lemma {:induction false} PixelInWindow(info: ModeInfo, k: nat)
    requires Accepted(info) && k < GeometryOf(info).Size()
    ensures GeometryOf(info).Sane()
    ensures Offset(info) + 4 * k + 4 <= WINDOW
  {
    var stride, height := info.pitch / 4, info.height;
    assert info.pitch == 4 * stride;
    assert (4 * stride) * height == 4 * (stride * height);
  }

  lemma {:induction false} EvenMask(a: nat, b: nat)
    ensures And(a, 2 * b) == 2 * And(a / 2, b)
  {
    AndStep(a, 2 * b);
  }

  /** Bits 0 and 7: mode supported, linear framebuffer. */
  lemma {:induction false} AttributeBits(a: nat)
    ensures And(a, 0x81) == a % 2 + 0x80 * (a / 0x80 % 2)
  {
    AndStep(a, 0x81);
    EvenMask(a / 2, 0x20);
    EvenMask(a / 4, 0x10);
    EvenMask(a / 8, 8);
    EvenMask(a / 0x10, 4);
    EvenMask(a / 0x20, 2);
    EvenMask(a / 0x40, 1);
    AndStep(a / 0x80, 1);
    AndZero(a / 0x80 / 2);
    assert a / 2 / 2 == a / 4 && a / 4 / 2 == a / 8 && a / 8 / 2 == a / 0x10;
    assert a / 0x10 / 2 == a / 0x20 && a / 0x20 / 2 == a / 0x40 && a / 0x40 / 2 == a / 0x80;
  }

  /** The modes that are accepted, and the screen they make. */
  lemma {:induction false} ModeAccepted(info: ModeInfo)
    ensures Accepted(info) <==>
      && info.attributes % 2 == 1 && info.attributes / 0x80 % 2 == 1
      && info.depth == 32 && info.model == 6
      && info.redSize == 8 && info.redAt == 16 && info.greenSize == 8 && info.greenAt == 8
      && info.blueSize == 8 && info.blueAt == 0
      && info.width >= 8 && info.height >= 16 && info.pitch >= 4 * info.width && info.pitch % 4 == 0
      && info.physical != 0 && info.physical % 0x20_0000 + info.pitch * info.height <= 0x100_0000
    ensures var g := GeometryOf(info);
      Accepted(info) ==> g.width == info.width && g.height == info.height && 4 * g.stride == info.pitch
  {
    AttributeBits(info.attributes);
  }

  // ---------- the character grid

  datatype Cell = Cell(byte: u8, color: u32)
  datatype Screen = Screen(x: nat, y: nat, grid: map<(nat, nat), Cell>)

  const SPACE: u8 := 0x20

  function Newline(g: Geometry, s: Screen): Screen
    requires g.Sane()
  {
    s.(x := 0, y := (s.y + 1) % g.Rows())
  }

  function Draw(s: Screen, byte: u8, color: u32): Screen {
    s.(grid := s.grid[(s.x, s.y) := Cell(byte, color)])
  }

  /** A printable byte: draw it and move on, wrapping at the right edge. */
  function Put(g: Geometry, s: Screen, byte: u8, color: u32): Screen
    requires g.Sane()
  {
    var drawn := Draw(s, byte, color);
    var moved := drawn.(x := s.x + 1);
    if moved.x >= g.Columns() then Newline(g, moved) else moved
  }

  function Spaces(g: Geometry, s: Screen, count: nat, color: u32): Screen
    requires g.Sane()
  {
    if count == 0 then s else Put(g, Spaces(g, s, count - 1, color), SPACE, color)
  }

  function Back(g: Geometry, s: Screen): Screen
    requires g.Sane()
  {
    if s.x > 0 then s.(x := s.x - 1)
    else if s.y > 0 then s.(y := s.y - 1, x := g.Columns() - 1)
    else s
  }

  predicate Printable(byte: u8) {
    byte != 8 && byte != 9 && byte != 10 && byte != 13
  }

  function Step(g: Geometry, s: Screen, byte: u8, color: u32): Screen
    requires g.Sane()
  {
    if byte == 10 then Newline(g, s)
    else if byte == 13 then s.(x := 0)
    else if byte == 9 then Spaces(g, s, 8 - s.x % 8, color)
    else if byte == 8 then Draw(Back(g, s), SPACE, color)
    else Put(g, s, byte, color)
  }

  function Run(g: Geometry, s: Screen, text: seq<u8>, color: u32): Screen
    requires g.Sane()
    decreases |text|
  {
    if text == [] then s
    else Step(g, Run(g, s, text[..|text| - 1], color), text[|text| - 1], color)
  }

  /** Cursor and every drawn cell lie on the grid. */
  predicate Inside(g: Geometry, s: Screen) {
    && s.x < g.Columns() && s.y < g.Rows()
    && forall at :: at in s.grid ==> at.0 < g.Columns() && at.1 < g.Rows()
  }

  lemma {:induction false} SpacesInside(g: Geometry, s: Screen, count: nat, color: u32)
    requires g.Sane() && Inside(g, s)
    ensures Inside(g, Spaces(g, s, count, color))
  {
    if count > 0 {
      SpacesInside(g, s, count - 1, color);
    }
  }

  lemma {:induction false} StepInside(g: Geometry, s: Screen, byte: u8, color: u32)
    requires g.Sane() && Inside(g, s)
    ensures Inside(g, Step(g, s, byte, color))
  {
    if byte == 9 {
      SpacesInside(g, s, 8 - s.x % 8, color);
    }
  }

  /** Whatever the byte stream, the cursor and all drawing stay on the grid. */
  lemma {:induction false} RunInside(g: Geometry, s: Screen, text: seq<u8>, color: u32)
    requires g.Sane() && Inside(g, s)
    ensures Inside(g, Run(g, s, text, color))
    decreases |text|
  {
    if |text| > 0 {
      RunInside(g, s, text[..|text| - 1], color);
      StepInside(g, Run(g, s, text[..|text| - 1], color), text[|text| - 1], color);
    }
  }

  /** The cell in front of the last row's last column, where the cursor wraps to the top. */
  predicate AtEnd(g: Geometry, s: Screen) {
    s.x == g.Columns() - 1 && s.y == g.Rows() - 1
  }

  predicate SingleCell(g: Geometry) {
    g.Columns() == 1 && g.Rows() == 1
  }

  lemma {:induction false} BottomWraps(y: nat, rows: nat)
    requires y < rows
    ensures (y + 1) % rows == if y == rows - 1 then 0 else y + 1
  {
    if y == rows - 1 { DivModUnique(y + 1, rows, 1, 0); } else { DivModUnique(y + 1, rows, 0, y + 1); }
  }

  /**
   Backspace takes back a printed byte (cursor restored, its cell blank, all other cells as
   they were) exactly when the byte was not printed into the bottom right corner.
   */
  lemma {:induction false} BackspaceTakesBack(g: Geometry, s: Screen, byte: u8, color: u32)
    requires g.Sane() && Inside(g, s) && Printable(byte)
    ensures (Step(g, Step(g, s, byte, color), 8, color) == Draw(s, SPACE, color)) <==> (!AtEnd(g, s) || SingleCell(g))
  {
    var after := Step(g, Step(g, s, byte, color), 8, color);
    assert Draw(s, byte, color).grid[(s.x, s.y) := Cell(SPACE, color)] == Draw(s, SPACE, color).grid;
    if s.x + 1 >= g.Columns() {
      BottomWraps(s.y, g.Rows());
    }
  }

  /**
   An input on which it fails: two by two cells, the byte stays in the corner and the top left cell is
   blanked instead.
   */
  lemma {:induction false} BackspaceInCorner(color: u32)
    ensures var g, s, a := Geometry(16, 32, 16), Screen(1, 1, map[]), 0x41;
      && g.Sane() && Inside(g, s)
      && Step(g, Step(g, s, a, color), 8, color) ==
        Screen(0, 0, map[(1, 1) := Cell(a, color), (0, 0) := Cell(SPACE, color)])
  {
    var g, s := Geometry(16, 32, 16), Screen(1, 1, map[]);
    assert Step(g, s, 0x41, color) == Screen(0, 0, map[(1, 1) := Cell(0x41, color)]);
  }

  // ---------- reading order

  /** Cells numbered in reading order. */
  function Number(g: Geometry, x: nat, y: nat): nat { y * g.Columns() + x }

  function Total(g: Geometry): nat { g.Rows() * g.Columns() }

  lemma {:induction false} LineEnds(line: nat, height: nat, stride: nat)
    requires line < height
    ensures line * stride + stride <= stride * height
    decreases height - line
  {
    if line + 1 < height {
      LineEnds(line + 1, height, stride);
      assert (line + 1) * stride == line * stride + stride;
    } else {
      assert stride * height == line * stride + stride;
    }
  }

  lemma {:induction false} NextNumber(x: nat, y: nat, columns: nat, rows: nat)
    requires x < columns && y < rows
    ensures y * columns + x < rows * columns
    ensures (y + 1) * columns == y * columns + columns
    ensures y * columns + x + 1 == rows * columns <==> y == rows - 1 && x == columns - 1
  {
    LineEnds(y, rows, columns);
    if y + 1 < rows { LineEnds(y + 1, rows, columns); }
  }

  /** A printed byte moves the cursor to the next cell in reading order, from the last to the first. */
  lemma {:induction false} PutAdvances(g: Geometry, s: Screen, byte: u8, color: u32)
    requires g.Sane() && Inside(g, s) && Printable(byte)
    ensures Number(g, s.x, s.y) < Total(g)
    ensures var s' := Step(g, s, byte, color);
      Number(g, s'.x, s'.y) == if Number(g, s.x, s.y) + 1 == Total(g) then 0 else Number(g, s.x, s.y) + 1
  {
    BottomWraps(s.y, g.Rows());
    NextNumber(s.x, s.y, g.Columns(), g.Rows());
  }

  lemma {:induction false} NumberUnique(g: Geometry, x: nat, y: nat, x': nat, y': nat)
    requires x < g.Columns() && x' < g.Columns() && Number(g, x, y) == Number(g, x', y')
    ensures x == x' && y == y'
  {
    DivModUnique(Number(g, x, y), g.Columns(), y, x);
    DivModUnique(Number(g, x, y), g.Columns(), y', x');
  }

  // ---------- blanks ahead of the cursor

  function CellAt(s: Screen, x: nat, y: nat): Option<Cell> {
    if (x, y) in s.grid then Some(s.grid[(x, y)]) else None
  }

  /** How many steps in reading order lead from number `from` to number n, around the bottom if n lies before. */
  function Steps(g: Geometry, from: nat, n: nat): (steps: nat)
    requires from < Total(g)
  {
    if n < from then n + Total(g) - from else n - from
  }

  /** The cell is one of the `count` cells from number `from` on. */
  predicate Ahead(g: Geometry, from: nat, count: nat, x: nat, y: nat)
    requires from < Total(g)
  {
    x < g.Columns() && y < g.Rows() && Steps(g, from, Number(g, x, y)) < count
  }

  /** The `count` cells from number `from` on are blank in `after`, every other cell is as it was. */
  ghost predicate Blanked(g: Geometry, before: Screen, after: Screen, from: nat, count: nat, color: u32)
    requires from < Total(g)
  {
    forall x: nat, y: nat ::
      CellAt(after, x, y) == if Ahead(g, from, count, x, y) then Some(Cell(SPACE, color)) else CellAt(before, x, y)
  }

  lemma {:induction false} NextRemainder(a: nat, total: nat)
    requires total > 0
    ensures (a + 1) % total == if a % total + 1 == total then 0 else a % total + 1
  {
    var q, r := a / total, a % total;
    assert a == q * total + r;
    if r + 1 == total {
      assert (q + 1) * total == q * total + total;
      DivModUnique(a + 1, total, q + 1, 0);
    } else {
      DivModUnique(a + 1, total, q, r + 1);
    }
  }

  /** On a screen of more than k cells, exactly the number reached after k steps lies k steps ahead. */
  lemma {:induction false} StepsTo(g: Geometry, from: nat, k: nat)
    requires from < Total(g)
    ensures (from + k) % Total(g) < Total(g)
    ensures k < Total(g) ==> forall n: nat :: n < Total(g) ==> (Steps(g, from, n) == k <==> n == (from + k) % Total(g))
    ensures forall n: nat :: n < Total(g) ==> Steps(g, from, n) < Total(g)
  {
    if k < Total(g) {
      if from + k < Total(g) {
        DivModUnique(from + k, Total(g), 0, from + k);
      } else {
        DivModUnique(from + k, Total(g), 1, from + k - Total(g));
      }
    }
  }

  /** One more blank, at the cursor. */
  lemma {:induction false} OneMoreAhead(g: Geometry, at: Screen, from: nat, k: nat, x: nat, y: nat)
    requires g.Sane() && Inside(g, at) && from < Total(g) && Number(g, at.x, at.y) == (from + k) % Total(g)
    ensures Ahead(g, from, k + 1, x, y) <==> (x, y) == (at.x, at.y) || Ahead(g, from, k, x, y)
  {
    StepsTo(g, from, k);
    NextNumber(at.x, at.y, g.Columns(), g.Rows());
    if x < g.Columns() && y < g.Rows() {
      NextNumber(x, y, g.Columns(), g.Rows());
      if Number(g, x, y) == Number(g, at.x, at.y) { NumberUnique(g, x, y, at.x, at.y); }
    }
  }

  /** Spaces blank the cells ahead, as often around the screen as it takes. */
  lemma {:induction false} SpacesAhead(g: Geometry, s: Screen, count: nat, color: u32)
    requires g.Sane() && Inside(g, s)
    ensures Number(g, s.x, s.y) < Total(g)
    ensures var s', from := Spaces(g, s, count, color), Number(g, s.x, s.y);
      Inside(g, s') && Number(g, s'.x, s'.y) == (from + count) % Total(g) && Blanked(g, s, s', from, count, color)
  {
    var from := Number(g, s.x, s.y);
    NextNumber(s.x, s.y, g.Columns(), g.Rows());
    if count == 0 {
      DivModUnique(from, Total(g), 0, from);
    } else {
      SpacesAhead(g, s, count - 1, color);
      var mid, after := Spaces(g, s, count - 1, color), Spaces(g, s, count, color);
      PutAdvances(g, mid, SPACE, color);
      SpacesInside(g, s, count, color);
      NextRemainder(from + count - 1, Total(g));
      forall x: nat, y: nat
        ensures CellAt(after, x, y) == if Ahead(g, from, count, x, y) then Some(Cell(SPACE, color)) else CellAt(s, x, y)
      {
        OneMoreAhead(g, mid, from, count - 1, x, y);
        assert CellAt(after, x, y) == if (x, y) == (mid.x, mid.y) then Some(Cell(SPACE, color)) else CellAt(mid, x, y);
      }
    }
  }

  /**
   A tab blanks exactly the 8 - x mod 8 cells ahead of the cursor in reading order and moves on by as
   many, into the next line and around the bottom too; where the line goes on that far, it stops at the
   next multiple of eight.
   */
  lemma {:induction false} TabStops(g: Geometry, s: Screen, color: u32)
    requires g.Sane() && Inside(g, s)
    ensures Number(g, s.x, s.y) < Total(g)
    ensures var s', from, count := Step(g, s, 9, color), Number(g, s.x, s.y), 8 - s.x % 8;
      && Number(g, s'.x, s'.y) == (from + count) % Total(g) && Blanked(g, s, s', from, count, color)
      && (s.x / 8 * 8 + 8 < g.Columns() ==> s'.x == s.x / 8 * 8 + 8 && s'.y == s.y)
  {
    var s', from, count := Step(g, s, 9, color), Number(g, s.x, s.y), 8 - s.x % 8;
    SpacesAhead(g, s, count, color);
    if s.x + count < g.Columns() {
      NextNumber(s.x + count, s.y, g.Columns(), g.Rows());
      DivModUnique(from + count, Total(g), 0, from + count);
      NumberUnique(g, s'.x, s'.y, s.x + count, s.y);
    }
  }

  // ---------- texts

  predicate AllPrintable(text: seq<u8>) { forall i :: 0 <= i < |text| ==> Printable(text[i]) }

  /** The cell numbered n shows this byte. */
  ghost predicate Reads(g: Geometry, s: Screen, n: nat, cell: Cell) {
    exists x: nat, y: nat :: x < g.Columns() && Number(g, x, y) == n && (x, y) in s.grid && s.grid[(x, y)] == cell
  }

  /** A number is one cell, so at most one byte is read there. */
  lemma {:induction false} ReadsOneCell(g: Geometry, s: Screen, n: nat, a: Cell, b: Cell)
    requires Reads(g, s, n, a) && Reads(g, s, n, b)
    ensures a == b
  {
    var x: nat, y: nat :| x < g.Columns() && Number(g, x, y) == n && (x, y) in s.grid && s.grid[(x, y)] == a;
    var x': nat, y': nat :| x' < g.Columns() && Number(g, x', y') == n && (x', y') in s.grid && s.grid[(x', y')] == b;
    NumberUnique(g, x, y, x', y');
  }

  /** One turn around the screen. */
  function Around(g: Geometry, n: nat): nat { if n < Total(g) then n else n - Total(g) }

  ghost predicate TextAt(g: Geometry, s: Screen, from: nat, text: seq<u8>, color: u32) {
    forall i :: 0 <= i < |text| ==> Reads(g, s, Around(g, from + i), Cell(text[i], color))
  }

  lemma {:induction false} PutReads(g: Geometry, s: Screen, byte: u8, color: u32)
    requires g.Sane() && Inside(g, s) && Printable(byte)
    ensures Reads(g, Step(g, s, byte, color), Number(g, s.x, s.y), Cell(byte, color))
  {
    assert (s.x, s.y) in Step(g, s, byte, color).grid;
  }

  lemma {:induction false} OtherCellStays(g: Geometry, s: Screen, byte: u8, color: u32, n: nat, cell: Cell)
    requires g.Sane() && Inside(g, s) && Printable(byte)
    requires Reads(g, s, n, cell) && n != Number(g, s.x, s.y)
    ensures Reads(g, Step(g, s, byte, color), n, cell)
  {
    var x: nat, y: nat :| x < g.Columns() && Number(g, x, y) == n && (x, y) in s.grid && s.grid[(x, y)] == cell;
    assert (x, y) in Step(g, s, byte, color).grid && Step(g, s, byte, color).grid[(x, y)] == cell;
  }

  /** Printing the last byte: it stands where the cursor was, and the rest stays readable. */
  lemma {:induction false} AppendReads(g: Geometry, s: Screen, mid: Screen, text: seq<u8>, color: u32)
    requires g.Sane() && Inside(g, s) && Inside(g, mid) && AllPrintable(text) && 0 < |text| <= Total(g)
    requires Number(g, s.x, s.y) < Total(g) && Number(g, mid.x, mid.y) < Total(g)
    requires TextAt(g, mid, Number(g, s.x, s.y), text[..|text| - 1], color)
    requires Number(g, mid.x, mid.y) == Around(g, Number(g, s.x, s.y) + |text| - 1)
    ensures TextAt(g, Step(g, mid, text[|text| - 1], color), Number(g, s.x, s.y), text, color)
  {
    var before, last, from := text[..|text| - 1], text[|text| - 1], Number(g, s.x, s.y);
    forall i | 0 <= i < |text|
      ensures Reads(g, Step(g, mid, last, color), Around(g, from + i), Cell(text[i], color))
    {
      if i < |before| {
        assert before[i] == text[i];
        OtherCellStays(g, mid, last, color, Around(g, from + i), Cell(text[i], color));
      } else {
        PutReads(g, mid, last, color);
      }
    }
  }

  /** A text that fits the screen can be read back from it, cell by cell, from where the cursor stood. */
  lemma {:induction false} TextReadsBack(g: Geometry, s: Screen, text: seq<u8>, color: u32)
    requires g.Sane() && Inside(g, s) && AllPrintable(text) && |text| <= Total(g)
    ensures var s' := Run(g, s, text, color); var from := Number(g, s.x, s.y);
      TextAt(g, s', from, text, color) && Number(g, s'.x, s'.y) == Around(g, from + |text|)
    decreases |text|
  {
    if |text| > 0 {
      var before, last := text[..|text| - 1], text[|text| - 1];
      var mid, from := Run(g, s, before, color), Number(g, s.x, s.y);
      TextReadsBack(g, s, before, color);
      RunInside(g, s, before, color);
      PutAdvances(g, s, last, color);
      PutAdvances(g, mid, last, color);
      AppendReads(g, s, mid, text, color);
    } else {
      PutAdvances(g, s, SPACE, color);
    }
  }

  // ---------- lines

  /** A line feed goes to the start of the next row, from the last row to the first, and draws nothing. */
  lemma {:induction false} LineFeed(g: Geometry, s: Screen, color: u32)
    requires g.Sane() && Inside(g, s)
    ensures var s' := Step(g, s, 0x0A, color);
      s'.x == 0 && s'.y == (if s.y + 1 == g.height / 16 then 0 else s.y + 1) && s'.grid == s.grid
  {
    BottomWraps(s.y, g.Rows());
  }

  /** A carriage return goes to the start of the same row, and draws nothing. */
  lemma {:induction false} CarriageReturn(g: Geometry, s: Screen, color: u32)
    requires g.Sane() && Inside(g, s)
    ensures var s' := Step(g, s, 0x0D, color); s'.x == 0 && s'.y == s.y && s'.grid == s.grid
  {
  }

  /**
   Backspace goes one cell back in reading order, not past the first one, and blanks the cell it reaches
   and no other.
   */
  lemma {:induction false} BackspaceMoves(g: Geometry, s: Screen, color: u32)
    requires g.Sane() && Inside(g, s)
    ensures var s', n := Step(g, s, 0x08, color), Number(g, s.x, s.y);
      && Number(g, s'.x, s'.y) == (if n == 0 then 0 else n - 1)
      && s'.grid == s.grid[(s'.x, s'.y) := Cell(0x20, color)]
  {
    if s.x == 0 && s.y > 0 {
      LineEnds(s.y - 1, g.Rows(), g.Columns());
      assert (s.y - 1) * g.Columns() + g.Columns() == s.y * g.Columns();
    }
  }

  lemma {:induction false} RunSplits(g: Geometry, s: Screen, a: seq<u8>, b: seq<u8>, color: u32)
    requires g.Sane()
    ensures Run(g, s, a + b, color) == Run(g, Run(g, s, a, color), b, color)
    decreases |b|
  {
    if b == [] {
      assert a + b == a;
    } else {
      var front := b[..|b| - 1];
      RunSplits(g, s, a, front, color);
      assert (a + b)[..|a + b| - 1] == a + front;
    }
  }

  /** The text stands in row y from column x on. */
  ghost predicate InRow(s: Screen, x: nat, y: nat, text: seq<u8>, color: u32) {
    forall j :: 0 <= j < |text| ==> CellAt(s, x + j, y) == Some(Cell(text[j], color))
  }

  /** A printable text that does not reach the right edge is written into its row, and nothing else changes. */
  lemma {:induction false} RowWritten(g: Geometry, s: Screen, text: seq<u8>, color: u32)
    requires g.Sane() && Inside(g, s) && AllPrintable(text) && s.x + |text| < g.Columns()
    ensures var s' := Run(g, s, text, color);
      && s'.x == s.x + |text| && s'.y == s.y && InRow(s', s.x, s.y, text, color)
      && forall x: nat, y: nat :: !(y == s.y && s.x <= x < s.x + |text|) ==> CellAt(s', x, y) == CellAt(s, x, y)
    decreases |text|
  {
    if |text| > 0 {
      var front, last := text[..|text| - 1], text[|text| - 1];
      RowWritten(g, s, front, color);
      var mid, after := Run(g, s, front, color), Run(g, s, text, color);
      assert after == Draw(mid, last, color).(x := mid.x + 1);
      forall x: nat, y: nat
        ensures CellAt(after, x, y) == if (x, y) == (mid.x, mid.y) then Some(Cell(last, color)) else CellAt(mid, x, y)
      {
      }
      forall j | 0 <= j < |text|
        ensures CellAt(after, s.x + j, s.y) == Some(Cell(text[j], color))
      {
        if j < |front| { assert front[j] == text[j]; }
      }
    }
  }

  /** Each line followed by a line feed. */
  function Joined(lines: seq<seq<u8>>): seq<u8> {
    if lines == [] then [] else Joined(lines[..|lines| - 1]) + (lines[|lines| - 1] + [0x0A])
  }

  predicate ShortLines(g: Geometry, lines: seq<seq<u8>>) {
    forall i :: 0 <= i < |lines| ==> AllPrintable(lines[i]) && |lines[i]| < g.width / 8
  }

  /** Row n of the screen counted from row `from`, around the bottom. */
  function RowAt(g: Geometry, from: nat, n: nat): nat
    requires g.height >= 16
  {
    (from + n) % (g.height / 16)
  }

  lemma {:induction false} AroundOnce(rows: nat, from: nat, n: nat)
    requires from < rows && n < rows
    ensures (from + n) % rows == if from + n < rows then from + n else from + n - rows
  {
    if from + n < rows {
      DivModUnique(from + n, rows, 0, from + n);
    } else {
      DivModUnique(from + n, rows, 1, from + n - rows);
    }
  }

  lemma {:induction false} RowsApart(rows: nat, from: nat, i: nat, n: nat)
    requires from < rows && i < n < rows
    ensures (from + i) % rows != (from + n) % rows
  {
    AroundOnce(rows, from, i);
    AroundOnce(rows, from, n);
  }

  /** One more line. */
  lemma {:induction false} LineWritten(g: Geometry, s: Screen, line: seq<u8>, color: u32)
    requires g.Sane() && Inside(g, s) && AllPrintable(line) && |line| < g.width / 8 && s.x == 0
    ensures var s' := Run(g, s, line + [0x0A], color);
      && s'.x == 0 && s'.y == (s.y + 1) % (g.height / 16) && InRow(s', 0, s.y, line, color)
      && forall x: nat, y: nat :: y != s.y ==> CellAt(s', x, y) == CellAt(s, x, y)
  {
    RowWritten(g, s, line, color);
    assert (line + [0x0A])[..|line|] == line;
    var written := Run(g, s, line, color);
    assert Run(g, s, line + [0x0A], color) == Step(g, written, 0x0A, color) == Newline(g, written);
  }

  lemma {:induction false} EarlierRowKept(
    g: Geometry, before: Screen, after: Screen, from: nat, i: nat, n: nat, line: seq<u8>, color: u32)
    requires g.Sane() && from < g.height / 16 && i < n < g.height / 16
    requires forall x: nat, y: nat :: y != RowAt(g, from, n) ==> CellAt(after, x, y) == CellAt(before, x, y)
    requires InRow(before, 0, RowAt(g, from, i), line, color)
    ensures InRow(after, 0, RowAt(g, from, i), line, color)
  {
    RowsApart(g.height / 16, from, i, n);
    forall j | 0 <= j < |line|
      ensures CellAt(after, 0 + j, RowAt(g, from, i)) == Some(Cell(line[j], color))
    {
      assert CellAt(before, 0 + j, RowAt(g, from, i)) == Some(Cell(line[j], color));
    }
  }

  /** Line i stands in the i-th row from row `from` on. */
  ghost predicate LinesAt(g: Geometry, s: Screen, from: nat, lines: seq<seq<u8>>, color: u32)
    requires g.height >= 16
  {
    forall i :: 0 <= i < |lines| ==> InRow(s, 0, RowAt(g, from, i), lines[i], color)
  }

  lemma {:induction false} OneMoreLine(
    g: Geometry, mid: Screen, after: Screen, from: nat, front: seq<seq<u8>>, last: seq<u8>, color: u32)
    requires g.Sane() && from < g.height / 16 && |front| < g.height / 16
    requires LinesAt(g, mid, from, front, color) && InRow(after, 0, RowAt(g, from, |front|), last, color)
    requires forall x: nat, y: nat :: y != RowAt(g, from, |front|) ==> CellAt(after, x, y) == CellAt(mid, x, y)
    ensures LinesAt(g, after, from, front + [last], color)
  {
    var lines := front + [last];
    forall i | 0 <= i < |lines|
      ensures InRow(after, 0, RowAt(g, from, i), lines[i], color)
    {
      if i < |front| {
        assert front[i] == lines[i] && InRow(mid, 0, RowAt(g, from, i), front[i], color);
        EarlierRowKept(g, mid, after, from, i, |front|, front[i], color);
      }
    }
  }

  lemma {:induction false} NextRow(g: Geometry, from: nat, n: nat)
    requires g.Sane() && from < g.height / 16
    ensures RowAt(g, from, 0) == from
    ensures (RowAt(g, from, n) + 1) % (g.height / 16) == RowAt(g, from, n + 1) < g.height / 16
  {
    var rows := g.height / 16;
    DivModUnique(from, rows, 0, from);
    NextRemainder(from + n, rows);
    BottomWraps((from + n) % rows, rows);
  }

  /**
   A text of lines, from the start of a row on: line i stands in the i-th row below it, around the bottom,
   as long as there are not more lines than rows.
   */
  lemma {:induction false} LinesReadBack(g: Geometry, s: Screen, lines: seq<seq<u8>>, color: u32)
    requires g.Sane() && Inside(g, s) && s.x == 0 && ShortLines(g, lines) && |lines| <= g.height / 16
    ensures var s' := Run(g, s, Joined(lines), color);
      s'.x == 0 && s'.y == RowAt(g, s.y, |lines|) && LinesAt(g, s', s.y, lines, color)
    decreases |lines|
  {
    NextRow(g, s.y, if lines == [] then 0 else |lines| - 1);
    if lines != [] {
      var n := |lines| - 1;
      var front, last := lines[..n], lines[n];
      LinesReadBack(g, s, front, color);
      RunInside(g, s, Joined(front), color);
      RunSplits(g, s, Joined(front), last + [0x0A], color);
      var mid := Run(g, s, Joined(front), color);
      LineWritten(g, mid, last, color);
      assert lines == front + [last];
      OneMoreLine(g, mid, Run(g, s, Joined(lines), color), s.y, front, last, color);
    }
  }

  // ---------- pixels

  type Font = f: seq<seq<u8>> | |f| == 0x100 && forall b :: 0 <= b < 0x100 ==> |f[b]| == 16
    witness seq(0x100, b => seq(16, row => 0))

  /** The font's leftmost pixel is bit 7 of its row. */
  function PixelOf(font: Font, cell: Cell, row: nat, column: nat): u32
    requires row < 16 && column < 8
  {
    if Bit(font[cell.byte][row], 7 - column) then cell.color else 0
  }

  lemma {:induction false} NestedQuotient(word: nat, p: nat)
    requires p > 0
    ensures word / 2 / p == word / (2 * p)
  {
    var q, r := word / 2 / p, word / 2 % p;
    assert word / 2 == q * p + r;
    assert word == q * (2 * p) + (2 * r + word % 2);
    DivModUnique(word, 2 * p, q, 2 * r + word % 2);
  }

  lemma {:induction false} BitIsQuotient(word: nat, k: nat)
    ensures Bit(word, k) <==> word / Pow2(k) % 2 == 1
    decreases k
  {
    if k > 0 {
      BitIsQuotient(word / 2, k - 1);
      NestedQuotient(word, Pow2(k - 1));
    }
  }

  /** Column 0 is the mask 0x80, the leftmost pixel; a set bit takes the color, a clear one is black. */
  lemma {:induction false} PixelMeans(font: Font, cell: Cell, row: nat, column: nat)
    requires row < 16 && column < 8
    ensures PixelOf(font, cell, row, column) ==
      if font[cell.byte][row] / [0x80, 0x40, 0x20, 0x10, 8, 4, 2, 1][column] % 2 == 1 then cell.color else 0
  {
    BitIsQuotient(font[cell.byte][row], 7 - column);
    assert Pow2(0) == 1 && Pow2(1) == 2 && Pow2(2) == 4 && Pow2(3) == 8;
    assert Pow2(4) == 0x10 && Pow2(5) == 0x20 && Pow2(6) == 0x40 && Pow2(7) == 0x80;
  }

  function PixelAt(g: Geometry, font: Font, grid: map<(nat, nat), Cell>, background: seq<u32>, k: nat): u32
    requires g.stride > 0 && k < |background|
  {
    var row, column := k / g.stride, k % g.stride;
    if (column / 8, row / 16) in grid then PixelOf(font, grid[(column / 8, row / 16)], row % 16, column % 8)
    else background[k]
  }

  /** The pixels are the grid's characters, and outside them what was there before. */
  ghost predicate Shows(g: Geometry, font: Font, grid: map<(nat, nat), Cell>, background: seq<u32>, pixels: seq<u32>) {
    && g.stride > 0 && |pixels| == |background|
    && forall k :: 0 <= k < |pixels| ==> pixels[k] == PixelAt(g, font, grid, background, k)
  }

  /** The pixel in column `px` of line `py`: a dot of the character there, or what was there before. */
  lemma {:induction false} PixelOnScreen(
    g: Geometry, font: Font, grid: map<(nat, nat), Cell>, background: seq<u32>, pixels: seq<u32>, px: nat, py: nat)
    requires Shows(g, font, grid, background, pixels) && px < g.stride && py * g.stride + px < |pixels|
    ensures pixels[py * g.stride + px] ==
      if (px / 8, py / 16) in grid then
        var cell := grid[(px / 8, py / 16)];
        var bits := font[cell.byte][py % 16];
        (if bits / [0x80, 0x40, 0x20, 0x10, 8, 4, 2, 1][px % 8] % 2 == 1 then cell.color else 0)
      else background[py * g.stride + px]
  {
    var k := py * g.stride + px;
    DivModUnique(k, g.stride, py, px);
    assert pixels[k] == PixelAt(g, font, grid, background, k);
    if (px / 8, py / 16) in grid { PixelMeans(font, grid[(px / 8, py / 16)], py % 16, px % 8); }
  }

  /** Left edge of pixel row `row` of the cell (x, y). */
  function RowStart(g: Geometry, x: nat, y: nat, row: nat): nat {
    (y * 16 + row) * g.stride + x * 8
  }

  function PixelDrawn(before: u32, k: nat, start: nat, font: Font, cell: Cell, row: nat, count: nat): u32
    requires row < 16 && count <= 8
  {
    if start <= k < start + count then PixelOf(font, cell, row, k - start) else before
  }

  /** `pixels` with the first `count` pixels of one font row drawn from index `start`. */
  function RowDrawn(pixels: seq<u32>, start: nat, font: Font, cell: Cell, row: nat, count: nat): (drawn: seq<u32>)
    requires row < 16 && count <= 8
    ensures |drawn| == |pixels|
  {
    seq(|pixels|, k requires 0 <= k < |pixels| => PixelDrawn(pixels[k], k, start, font, cell, row, count))
  }

  /** `pixels` with the first `rows` rows of a character drawn in its cell. */
  function CellDrawn(
    g: Geometry, font: Font, pixels: seq<u32>, x: nat, y: nat, cell: Cell, rows: nat): (drawn: seq<u32>)
    requires rows <= 16
    ensures |drawn| == |pixels|
  {
    if rows == 0 then pixels
    else
      var above := CellDrawn(g, font, pixels, x, y, cell, rows - 1);
      RowDrawn(above, RowStart(g, x, y, rows - 1), font, cell, rows - 1, 8)
  }

  /** Index k lies in that pixel row of the cell exactly when its row and column say so. */
  lemma {:induction false} RowOfIndex(g: Geometry, x: nat, y: nat, row: nat, k: nat)
    requires g.Sane() && x < g.Columns() && row < 16
    ensures RowStart(g, x, y, row) <= k < RowStart(g, x, y, row) + 8 <==>
      (k / g.stride == y * 16 + row && k % g.stride / 8 == x)
    ensures RowStart(g, x, y, row) <= k < RowStart(g, x, y, row) + 8 ==> k - RowStart(g, x, y, row) == k % g.stride % 8
  {
    var start, line := RowStart(g, x, y, row), y * 16 + row;
    assert x * 8 + 8 <= g.stride;
    assert k == k / g.stride * g.stride + k % g.stride;
    if start <= k < start + 8 {
      DivModUnique(k, g.stride, line, k - line * g.stride);
    }
  }

  /** Pixel by pixel, the rows drawn so far of one character. */
  lemma {:induction false} CellDrawnAt(
    g: Geometry, font: Font, pixels: seq<u32>, x: nat, y: nat, cell: Cell, rows: nat, k: nat)
    requires g.Sane() && x < g.Columns() && rows <= 16 && k < |pixels|
    ensures var row, column := k / g.stride, k % g.stride;
      CellDrawn(g, font, pixels, x, y, cell, rows)[k]
      == if row / 16 == y && column / 8 == x && row % 16 < rows then PixelOf(font, cell, row % 16, column % 8)
         else pixels[k]
  {
    if rows > 0 {
      CellDrawnAt(g, font, pixels, x, y, cell, rows - 1, k);
      RowOfIndex(g, x, y, rows - 1, k);
    }
  }

  /** Drawing a character in place turns the rendering of a grid into the rendering of the new grid. */
  lemma {:induction false} DrawShows(
    g: Geometry, font: Font, s: Screen, background: seq<u32>, pixels: seq<u32>, byte: u8, color: u32)
    requires g.Sane() && s.x < g.Columns()
    requires Shows(g, font, s.grid, background, pixels)
    ensures Shows(g, font, Draw(s, byte, color).grid, background,
      CellDrawn(g, font, pixels, s.x, s.y, Cell(byte, color), 16))
  {
    var cell := Cell(byte, color);
    var drawn := CellDrawn(g, font, pixels, s.x, s.y, cell, 16);
    forall k | 0 <= k < |drawn|
      ensures drawn[k] == PixelAt(g, font, Draw(s, byte, color).grid, background, k)
    {
      CellDrawnAt(g, font, pixels, s.x, s.y, cell, 16, k);
      assert pixels[k] == PixelAt(g, font, s.grid, background, k);
    }
  }

  /** Pixels in the padding of a line, and below or beside the last whole cell, are never touched. */
  lemma {:induction false} OutsideUntouched(
    g: Geometry, font: Font, s: Screen, background: seq<u32>, pixels: seq<u32>, k: nat)
    requires g.Sane() && Inside(g, s) && Shows(g, font, s.grid, background, pixels) && k < |pixels|
    requires k % g.stride >= 8 * g.Columns() || k / g.stride >= 16 * g.Rows()
    ensures pixels[k] == background[k]
  {
    assert pixels[k] == PixelAt(g, font, s.grid, background, k);
    assert k % g.stride >= 8 * g.Columns() ==> k % g.stride / 8 >= g.Columns();
    assert k / g.stride >= 16 * g.Rows() ==> k / g.stride / 16 >= g.Rows();
  }

  /** Every pixel of a cell on the grid is a pixel of the framebuffer. */
  lemma {:induction false} RowInBuffer(g: Geometry, x: nat, y: nat, row: nat)
    requires g.Sane() && x < g.Columns() && y < g.Rows() && row < 16
    ensures RowStart(g, x, y, row) + 8 <= g.Size()
  {
    var line := y * 16 + row;
    assert line + 1 <= g.height;
    LineEnds(line, g.height, g.stride);
  }

  // ---------- the console object

  class Console {
    const font: Font
    var buffer: array?<u32>
    var width: nat
    var height: nat
    var stride: nat
    var x: nat
    var y: nat

    /** The cells drawn since `Init`, and the pixels found there. */
    ghost var grid: map<(nat, nat), Cell>
    ghost var background: seq<u32>

    ghost function Area(): Geometry
      reads this
    {
      Geometry(width, height, stride)
    }

    ghost function View(): Screen
      reads this
    {
      Screen(x, y, grid)
    }

    /** Before `Init` there is no framebuffer; afterwards it shows the grid. */
    ghost predicate Valid()
      reads this, buffer
    {
      buffer != null ==>
        && Area().Sane() && buffer.Length == Area().Size()
        && Inside(Area(), View())
        && Shows(Area(), font, grid, background, buffer[..])
    }

    constructor (font: Font)
      ensures Valid() && buffer == null && this.font == font
    {
      this.font, buffer, width, height, stride, x, y := font, null, 0, 0, 0, 0, 0;
      grid, background := map[], [];
    }

    /** `pixels` is the memory that the mapped window shows at the framebuffer's address. */
    method Init(info: ModeInfo, pixels: array<u32>) returns (ok: bool)
      requires Accepted(info) ==> pixels.Length == GeometryOf(info).Size()
      modifies this
      ensures ok == Accepted(info)
      ensures !ok ==> unchanged(this)
      ensures ok ==> Valid() && buffer == pixels && Area() == GeometryOf(info) && View() == Screen(0, 0, map[])
      ensures ok ==> background == pixels[..]
    {
      if And(info.attributes, 0x81) != 0x81 { return false; }
      if info.depth != 32 || info.model != 6 { return false; }
      if info.redSize != 8 || info.redAt != 16 || info.greenSize != 8 || info.greenAt != 8 { return false; }
      if info.blueSize != 8 || info.blueAt != 0 { return false; }
      if !(info.width >= 8 && info.height >= 16) { return false; }
      if !(info.pitch >= info.width * 4 && info.pitch % 4 == 0) { return false; }
      var offset := info.physical % LARGE_PAGE;
      if info.physical == 0 || offset + info.pitch * info.height > WINDOW { return false; }
      buffer, width, height, stride, x, y := pixels, info.width, info.height, info.pitch / 4, 0, 0;
      grid, background := map[], pixels[..];
      assert Shows(Area(), font, grid, background, buffer[..]);
      return true;
    }

    method NewLine()
      requires Area().Sane()
      modifies `x, `y
      ensures View() == Newline(Area(), old(View()))
    {
      x := 0;
      y := (y + 1) % (height / 16);
    }

    /** One font row, left to right. */
    method GlyphRow(bits: u8, row: nat, cell: Cell)
      requires buffer != null && Area().Sane() && Inside(Area(), View()) && buffer.Length == Area().Size()
      requires row < 16 && bits == font[cell.byte][row]
      modifies buffer
      ensures buffer[..] == RowDrawn(old(buffer[..]), RowStart(Area(), x, y, row), font, cell, row, 8)
    {
      ghost var start, was := RowStart(Area(), x, y, row), buffer[..];
      RowInBuffer(Area(), x, y, row);
      for column := 0 to 8
        invariant buffer[..] == RowDrawn(was, start, font, cell, row, column)
      {
        MaskTestsBit(bits, 7 - column);
        var pixel := if And(bits, Pow2(7 - column)) != 0 then cell.color else 0;
        var index := (y * 16 + row) * stride + x * 8 + column;
        assert index == start + column;
        buffer[index] := pixel;
      }
    }

    method Glyph(byte: u8, color: u32)
      requires Valid() && buffer != null
      modifies buffer, `grid
      ensures Valid() && View() == Draw(old(View()), byte, color)
    {
      var cell := Cell(byte, color);
      ghost var was := buffer[..];
      for row := 0 to 16
        invariant grid == old(grid) && buffer[..] == CellDrawn(Area(), font, was, x, y, cell, row)
      {
        GlyphRow(font[byte][row], row, cell);
      }
      DrawShows(Area(), font, View(), background, was, byte, color);
      grid := grid[(x, y) := cell];
    }

    method Backspace(color: u32)
      requires Valid() && buffer != null
      modifies `x, `y, `grid, buffer
      ensures Valid() && View() == Draw(Back(Area(), old(View())), SPACE, color)
    {
      if x > 0 {
        x := x - 1;
      } else if y > 0 {
        y := y - 1;
        x := width / 8 - 1;
      }
      Glyph(SPACE, color);
    }

    method PutGlyph(byte: u8, color: u32)
      requires Valid() && buffer != null
      modifies `x, `y, `grid, buffer
      ensures Valid() && View() == Put(Area(), old(View()), byte, color)
    {
      Glyph(byte, color);
      x := x + 1;
      if x >= width / 8 {
        NewLine();
      }
    }

    /** One byte of output. Without a framebuffer nothing happens. */
    method Byte(byte: u8, color: u32)
      requires Valid()
      modifies `x, `y, `grid, buffer
      ensures Valid()
      ensures View() == if buffer == null then old(View()) else Step(Area(), old(View()), byte, color)
      decreases byte == 9
    {
      if buffer == null {
        return;
      }
      if byte == 10 {
        NewLine();
      } else if byte == 13 {
        x := 0;
      } else if byte == 9 {
        var count := 8 - x % 8;
        for done := 0 to count
          invariant Valid() && View() == Spaces(Area(), old(View()), done, color)
        {
          Byte(SPACE, color);
        }
      } else if byte == 8 {
        Backspace(color);
      } else {
        PutGlyph(byte, color);
      }
    }

    method WriteStr(text: seq<u8>, color: u32)
      requires Valid()
      modifies `x, `y, `grid, buffer
      ensures Valid()
      ensures View() == if buffer == null then old(View()) else Run(Area(), old(View()), text, color)
    {
      for done := 0 to |text|
        invariant Valid()
        invariant View() == if buffer == null then old(View()) else Run(Area(), old(View()), text[..done], color)
      {
        Byte(text[done], color);
        assert text[..done + 1][..done] == text[..done];
      }
      assert text[..|text|] == text;
    }
  }
}
