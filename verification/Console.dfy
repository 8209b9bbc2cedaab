/** Inserting and deleting text lines on the console (renderer_surface,
    console_insert_lines and console_delete_lines in src/device/console/render.c), which
    move whole pixel rows with the framebuffer's copy and fill. */
module Console {
  import opened Framebuffer

  type Row = seq<int>

  // ----- moving rows of a screen

  function Blank(width: nat): (r: Row)
    ensures |r| == width
  {
    seq(width, i => 0)
  }

  function Blanks(n: nat, width: nat): (r: seq<Row>)
    ensures |r| == n
  {
    seq(n, i => Blank(width))
  }

  /** n blank rows enter at the top of the region [top, bot); the last n are lost. */
  function InsertRows(rows: seq<Row>, top: nat, bot: nat, n: nat, width: nat): (r: seq<Row>)
    requires top <= bot <= |rows| && n <= bot - top
    ensures |r| == |rows|
  {
    rows[..top] + Blanks(n, width) + rows[top..bot - n] + rows[bot..]
  }

  /** The first n rows of the region are lost; n blank rows enter at its bottom. */
  function DeleteRows(rows: seq<Row>, top: nat, bot: nat, n: nat, width: nat): (r: seq<Row>)
    requires top <= bot <= |rows| && n <= bot - top
    ensures |r| == |rows|
  {
    rows[..top] + rows[top + n..bot] + Blanks(n, width) + rows[bot..]
  }

  function Clamp(n: nat, limit: nat): nat { if n > limit then limit else n }

  lemma InsertAt(rows: seq<Row>, top: nat, bot: nat, n: nat, width: nat, y: nat)
    requires top <= bot <= |rows| && n <= bot - top && y < |rows|
    ensures InsertRows(rows, top, bot, n, width)[y] ==
              if y < top || bot <= y then rows[y] else if y < top + n then Blank(width) else rows[y - n]
  {
  }

  lemma DeleteAt(rows: seq<Row>, top: nat, bot: nat, n: nat, width: nat, y: nat)
    requires top <= bot <= |rows| && n <= bot - top && y < |rows|
    ensures DeleteRows(rows, top, bot, n, width)[y] ==
              if y < top || bot <= y then rows[y] else if y < bot - n then rows[y + n] else Blank(width)
  {
  }

  /** Two insertions are one. */
  lemma InsertTwice(rows: seq<Row>, top: nat, bot: nat, a: nat, b: nat, width: nat)
    requires top <= bot <= |rows| && a <= bot - top && b <= bot - top
    ensures InsertRows(InsertRows(rows, top, bot, a, width), top, bot, b, width)
            == InsertRows(rows, top, bot, Clamp(a + b, bot - top), width)
  {
    var once := InsertRows(rows, top, bot, a, width);
    var n := Clamp(a + b, bot - top);
    forall y: nat | y < |rows|
      ensures InsertRows(once, top, bot, b, width)[y] == InsertRows(rows, top, bot, n, width)[y]
    {
      InsertAt(once, top, bot, b, width, y);
      InsertAt(rows, top, bot, n, width, y);
      if top + b <= y < bot { InsertAt(rows, top, bot, a, width, y - b); } else { InsertAt(rows, top, bot, a, width, y); }
    }
  }

  lemma DeleteTwice(rows: seq<Row>, top: nat, bot: nat, a: nat, b: nat, width: nat)
    requires top <= bot <= |rows| && a <= bot - top && b <= bot - top
    ensures DeleteRows(DeleteRows(rows, top, bot, a, width), top, bot, b, width)
            == DeleteRows(rows, top, bot, Clamp(a + b, bot - top), width)
  {
    var once := DeleteRows(rows, top, bot, a, width);
    var n := Clamp(a + b, bot - top);
    forall y: nat | y < |rows|
      ensures DeleteRows(once, top, bot, b, width)[y] == DeleteRows(rows, top, bot, n, width)[y]
    {
      DeleteAt(once, top, bot, b, width, y);
      DeleteAt(rows, top, bot, n, width, y);
      if top <= y < bot - b { DeleteAt(rows, top, bot, a, width, y + b); } else { DeleteAt(rows, top, bot, a, width, y); }
    }
  }

  // ----- text lines

  /** A region of text lines of `fh` pixel rows each: lines row to bot of the window. */
  datatype Region = Region(row: nat, bot: nat, fh: nat) {
    predicate Fits(height: nat) { fh > 0 && row <= bot && (bot + 1) * fh <= height }
    function Count(): int { bot - row + 1 }
    function Top(): nat { row * fh }
    function Bottom(): nat { (bot + 1) * fh }
  }

  lemma RegionArith(g: Region, n: nat)
    requires g.row <= g.bot && n <= g.Count()
    ensures g.Top() + n * g.fh <= g.Bottom() && (g.row + n) * g.fh == g.Top() + n * g.fh
    ensures (g.Count() - n) * g.fh == g.Bottom() - g.Top() - n * g.fh
    ensures (g.bot - n + 1) * g.fh == g.Bottom() - n * g.fh
  {
    assert (g.row + n) * g.fh == g.row * g.fh + n * g.fh;
    var rest := g.Count() - n;
    assert g.bot + 1 == g.row + n + rest;
    assert (g.row + n + rest) * g.fh == (g.row + n) * g.fh + rest * g.fh;
  }

  /** The pixel rows the renderer passes on, as offsets in the region. */
  lemma RegionProducts(g: Region, k: nat)
    requires g.row <= g.bot && 0 < k <= g.Count() && g.fh > 0
    ensures g.row * g.fh == g.Top() && (g.row + k) * g.fh == g.Top() + k * g.fh && k * g.fh > 0
    ensures 0 <= (g.Count() - k) * g.fh == g.Bottom() - g.Top() - k * g.fh
    ensures (g.bot - k + 1) * g.fh == g.Bottom() - k * g.fh && g.Top() >= 0 && g.Bottom() == (g.bot + 1) * g.fh
  {
    hide Region.Bottom;
    RegionArith(g, k);
    TimesMonotone(1, k, g.fh);
    TimesMonotone(0, g.Count() - k, g.fh);
  }

  /** The screen after console_insert_lines. */
  function Inserted(rows: seq<Row>, g: Region, n: nat, width: nat): (r: seq<Row>)
    requires g.Fits(|rows|)
    ensures |r| == |rows|
  {
    RegionArith(g, Clamp(n, g.Count()));
    InsertRows(rows, g.Top(), g.Bottom(), Clamp(n, g.Count()) * g.fh, width)
  }

  /** The screen after console_delete_lines. */
  function Deleted(rows: seq<Row>, g: Region, n: nat, width: nat): (r: seq<Row>)
    requires g.Fits(|rows|)
    ensures |r| == |rows|
  {
    RegionArith(g, Clamp(n, g.Count()));
    DeleteRows(rows, g.Top(), g.Bottom(), Clamp(n, g.Count()) * g.fh, width)
  }

  function InsertedOneByOne(rows: seq<Row>, g: Region, n: nat, width: nat): (r: seq<Row>)
    requires g.Fits(|rows|)
    ensures |r| == |rows|
    decreases n
  {
    if n == 0 then rows else Inserted(InsertedOneByOne(rows, g, n - 1, width), g, 1, width)
  }

  function DeletedOneByOne(rows: seq<Row>, g: Region, n: nat, width: nat): (r: seq<Row>)
    requires g.Fits(|rows|)
    ensures |r| == |rows|
    decreases n
  {
    if n == 0 then rows else Deleted(DeletedOneByOne(rows, g, n - 1, width), g, 1, width)
  }

  lemma TimesMonotone(a: nat, b: nat, f: nat)
    requires a <= b
    ensures a * f <= b * f
  {
  }

  lemma ClampArith(count: nat, fh: nat, k: nat)
    requires count > 0
    ensures Clamp(Clamp(k, count) * fh + Clamp(1, count) * fh, count * fh) == Clamp(k + 1, count) * fh
  {
    var c := Clamp(k, count);
    assert (c + 1) * fh == c * fh + fh;
    if k < count {
      TimesMonotone(c + 1, count, fh);
    }
  }

  /** Inserting n lines is inserting one line n times. */
  lemma {:induction false} InsertLineByLine(rows: seq<Row>, g: Region, n: nat, width: nat)
    requires g.Fits(|rows|)
    ensures n > 0 ==> InsertedOneByOne(rows, g, n, width) == Inserted(rows, g, n, width)
    decreases n
  {
    hide InsertRows;
    if n == 1 {
      assert InsertedOneByOne(rows, g, 0, width) == rows;
    } else if n > 1 {
      InsertLineByLine(rows, g, n - 1, width);
      RegionArith(g, Clamp(n - 1, g.Count()));
      RegionArith(g, 1);
      InsertTwice(rows, g.Top(), g.Bottom(), Clamp(n - 1, g.Count()) * g.fh, Clamp(1, g.Count()) * g.fh, width);
      RegionArith(g, 0);
      ClampArith(g.Count(), g.fh, n - 1);
    }
  }

  /** Deleting n lines is deleting one line n times. */
  lemma {:induction false} DeleteLineByLine(rows: seq<Row>, g: Region, n: nat, width: nat)
    requires g.Fits(|rows|)
    ensures n > 0 ==> DeletedOneByOne(rows, g, n, width) == Deleted(rows, g, n, width)
    decreases n
  {
    hide DeleteRows;
    if n == 1 {
      assert DeletedOneByOne(rows, g, 0, width) == rows;
    } else if n > 1 {
      DeleteLineByLine(rows, g, n - 1, width);
      RegionArith(g, Clamp(n - 1, g.Count()));
      RegionArith(g, 1);
      DeleteTwice(rows, g.Top(), g.Bottom(), Clamp(n - 1, g.Count()) * g.fh, Clamp(1, g.Count()) * g.fh, width);
      RegionArith(g, 0);
      ClampArith(g.Count(), g.fh, n - 1);
    }
  }

  /** Inserting n lines and deleting them again brings back every row that survived: all but
      the last n lines of the region, which are blank.  Rows outside are never touched. */
  lemma InsertThenDelete(rows: seq<Row>, g: Region, n: nat, width: nat, y: nat)
    requires g.Fits(|rows|) && y < |rows|
    ensures Deleted(Inserted(rows, g, n, width), g, n, width)[y] ==
              if g.Bottom() - Clamp(n, g.Count()) * g.fh <= y < g.Bottom() then Blank(width) else rows[y]
  {
    hide InsertRows, DeleteRows;
    var k := Clamp(n, g.Count()) * g.fh;
    RegionArith(g, Clamp(n, g.Count()));
    var once := Inserted(rows, g, n, width);
    DeleteAt(once, g.Top(), g.Bottom(), k, width, y);
    if g.Top() <= y < g.Bottom() - k {
      InsertAt(rows, g.Top(), g.Bottom(), k, width, y + k);
    } else {
      InsertAt(rows, g.Top(), g.Bottom(), k, width, y);
    }
  }

  // ----- rows of pixels

  /** The visible part of row y. */
  ghost function Line(a: seq<int>, m: Mode, y: int): (r: Row)
    ensures |r| == m.width
  {
    seq(m.width, x => Pixel(a, m, y, x))
  }

  ghost function Screen(a: seq<int>, m: Mode): (r: seq<Row>)
    ensures |r| == m.height
  {
    seq(m.height, y => Line(a, m, y))
  }

  /** The pixels of every row beyond the visible width are the same in a and b. */
  ghost predicate MarginKept(a: seq<int>, b: seq<int>, m: Mode) {
    forall y, x :: 0 <= y < m.height && m.width <= x < m.Stride() ==> Pixel(b, m, y, x) == Pixel(a, m, y, x)
  }

  /** A full-width copy moves whole rows. */
  lemma CopyLines(a: seq<int>, b: seq<int>, m: Mode, sy: nat, dy: nat, h: nat, y: nat)
    requires |a| == |b| == m.height * m.Stride() && Usable(m) && y < m.height
    requires IsCopy(a, b, m, Rect(0, sy, m.width, h), Rect(0, dy, m.width, h))
    ensures Line(b, m, y) == if dy <= y < dy + h then Line(a, m, y - dy + sy) else Line(a, m, y)
  {
    hide Pixel;
    var src, dst := Rect(0, sy, m.width, h), Rect(0, dy, m.width, h);
    assert m.width <= m.Stride();
    forall x | 0 <= x < m.width
      ensures Line(b, m, y)[x] == if dy <= y < dy + h then Line(a, m, y - dy + sy)[x] else Line(a, m, y)[x]
    {
      assert CopiedAt(a, b, m, src, dst, y, x);
    }
  }

  lemma FillLines(a: seq<int>, b: seq<int>, m: Mode, top: nat, h: nat, y: nat)
    requires |a| == |b| == m.height * m.Stride() && Usable(m) && y < m.height
    requires IsFill(a, b, m, 0, Rect(0, top, m.width, h))
    ensures Line(b, m, y) == if top <= y < top + h then Blank(m.width) else Line(a, m, y)
  {
    hide Pixel;
    assert m.width <= m.Stride();
  }

  lemma CopyKeepsMargin(a: seq<int>, b: seq<int>, m: Mode, sy: nat, dy: nat, h: nat)
    requires |a| == |b| == m.height * m.Stride() && Usable(m)
    requires IsCopy(a, b, m, Rect(0, sy, m.width, h), Rect(0, dy, m.width, h))
    ensures MarginKept(a, b, m)
  {
    hide Pixel;
    forall y, x | 0 <= y < m.height && m.width <= x < m.Stride()
      ensures Pixel(b, m, y, x) == Pixel(a, m, y, x)
    {
      assert CopiedAt(a, b, m, Rect(0, sy, m.width, h), Rect(0, dy, m.width, h), y, x);
    }
  }

  lemma FillKeepsMargin(a: seq<int>, b: seq<int>, m: Mode, top: nat, h: nat)
    requires |a| == |b| == m.height * m.Stride() && Usable(m)
    requires IsFill(a, b, m, 0, Rect(0, top, m.width, h))
    ensures MarginKept(a, b, m)
  {
    hide Pixel;
  }

  /** Row i of the screen. */
  lemma ScreenRow(a: seq<int>, m: Mode, y: nat)
    requires y < m.height
    ensures Screen(a, m)[y] == Line(a, m, y)
  {
  }

  /** The pixel rows the copy of insert_lines moves, and the rows it then blanks, make up
      InsertRows of the region. */
  lemma InsertMoves(a: seq<int>, b: seq<int>, c: seq<int>, m: Mode, top: nat, bot: nat, n: nat)
    requires |a| == |b| == |c| == m.height * m.Stride() && Usable(m)
    requires top <= bot <= m.height && 0 < n <= bot - top
    requires var h := bot - top - n;
             if h == 0 then b == a else IsCopy(a, b, m, Rect(0, top, m.width, h), Rect(0, top + n, m.width, h))
    requires IsFill(b, c, m, 0, Rect(0, top, m.width, n))
    ensures Screen(c, m) == InsertRows(Screen(a, m), top, bot, n, m.width) && MarginKept(a, c, m)
  {
    hide IsCopy, IsFill, Line, Usable, Screen, InsertRows;
    var h := bot - top - n;
    forall y: nat | y < m.height
      ensures Screen(c, m)[y] == InsertRows(Screen(a, m), top, bot, n, m.width)[y]
    {
      InsertAt(Screen(a, m), top, bot, n, m.width, y);
      FillLines(b, c, m, top, n, y);
      if h > 0 { CopyLines(a, b, m, top, top + n, h, y); }
      ScreenRow(c, m, y);
      ScreenRow(a, m, y);
      if top + n <= y < bot { ScreenRow(a, m, y - n); }
    }
    if h > 0 { CopyKeepsMargin(a, b, m, top, top + n, h); }
    FillKeepsMargin(b, c, m, top, n);
  }

  lemma DeleteMoves(a: seq<int>, b: seq<int>, c: seq<int>, m: Mode, top: nat, bot: nat, n: nat)
    requires |a| == |b| == |c| == m.height * m.Stride() && Usable(m)
    requires top <= bot <= m.height && 0 < n <= bot - top
    requires var h := bot - top - n;
             if h == 0 then b == a else IsCopy(a, b, m, Rect(0, top + n, m.width, h), Rect(0, top, m.width, h))
    requires IsFill(b, c, m, 0, Rect(0, bot - n, m.width, n))
    ensures Screen(c, m) == DeleteRows(Screen(a, m), top, bot, n, m.width) && MarginKept(a, c, m)
  {
    hide IsCopy, IsFill, Line, Usable, Screen, DeleteRows;
    var h := bot - top - n;
    forall y: nat | y < m.height
      ensures Screen(c, m)[y] == DeleteRows(Screen(a, m), top, bot, n, m.width)[y]
    {
      DeleteAt(Screen(a, m), top, bot, n, m.width, y);
      FillLines(b, c, m, bot - n, n, y);
      if h > 0 { CopyLines(a, b, m, top + n, top, h, y); }
      ScreenRow(c, m, y);
      ScreenRow(a, m, y);
      if top <= y < bot - n { ScreenRow(a, m, y + n); }
    }
    if h > 0 { CopyKeepsMargin(a, b, m, top + n, top, h); }
    FillKeepsMargin(b, c, m, bot - n, n);
  }

  // ----- the renderer

  datatype Font = Font(width: int, height: int)

  /** renderer_surface: the font and the surface can be used. */
  predicate Renderable(f: Font, m: Mode) {
    && 0 < f.width <= 8 && f.height > 0 && Usable(m) && m.width / f.width > 0 && m.height / f.height > 0
  }

  /** The guards in front of both operations. */
  predicate Acts(f: Font, m: Mode, row: nat, bot: nat, n: nat) {
    Renderable(f, m) && row <= bot && bot < m.height / f.height && n > 0
  }

  /** A region the guards let through lies on the screen. */
  lemma ActsFits(f: Font, m: Mode, row: nat, bot: nat, n: nat)
    requires Acts(f, m, row, bot, n)
    ensures Region(row, bot, f.height).Fits(m.height)
  {
    QuotientFits(bot + 1, m.height, f.height);
  }

  class Renderer {
    const font: Font
    const surface: Surface

    constructor (font: Font, surface: Surface)
      ensures this.font == font && this.surface == surface
    {
      this.font := font;
      this.surface := surface;
    }

    /** The copy and the fill of insert_lines, on pixel rows.  With h == 0 the copy is
        refused by the rectangle check, and there is nothing to copy. */
    method Lower(top: nat, below: nat, h: nat, n: nat)
      requires surface.Valid() && Usable(surface.mode)
      requires below == top + n && below + h <= surface.mode.height && n > 0
      modifies surface.pixels, surface`damage
      ensures MarginKept(old(surface.pixels[..]), surface.pixels[..], surface.mode)
      ensures Screen(surface.pixels[..], surface.mode)
              == InsertRows(old(Screen(surface.pixels[..], surface.mode)), top, below + h, n, surface.mode.width)
    {
      hide IsCopy, IsFill, Screen, InsertRows, Accepts, MarginKept, Pixel, DamageBegin, DamageEnd;
      var m := surface.mode;
      ghost var a := surface.pixels[..];
      AcceptsIff(m, Rect(0, top, m.width, h));
      AcceptsIff(m, Rect(0, below, m.width, h));
      AcceptsIff(m, Rect(0, top, m.width, n));
      surface.CopyArea(0, top, 0, below, m.width, h);
      ghost var b := surface.pixels[..];
      surface.FillRect(0, 0, top, m.width, n);
      InsertMoves(a, b, surface.pixels[..], m, top, below + h, n);
    }

    /** The copy and the fill of delete_lines, on pixel rows. */
    method Raise(below: nat, top: nat, h: nat, last: nat, n: nat)
      requires surface.Valid() && Usable(surface.mode)
      requires below == top + n && last == top + h && below + h <= surface.mode.height && n > 0
      modifies surface.pixels, surface`damage
      ensures MarginKept(old(surface.pixels[..]), surface.pixels[..], surface.mode)
      ensures Screen(surface.pixels[..], surface.mode)
              == DeleteRows(old(Screen(surface.pixels[..], surface.mode)), top, below + h, n, surface.mode.width)
    {
      hide IsCopy, IsFill, Screen, DeleteRows, Accepts, MarginKept, Pixel, DamageBegin, DamageEnd;
      var m := surface.mode;
      ghost var a := surface.pixels[..];
      AcceptsIff(m, Rect(0, top, m.width, h));
      AcceptsIff(m, Rect(0, below, m.width, h));
      AcceptsIff(m, Rect(0, last, m.width, n));
      surface.CopyArea(0, below, 0, top, m.width, h);
      ghost var b := surface.pixels[..];
      surface.FillRect(0, 0, last, m.width, n);
      DeleteMoves(a, b, surface.pixels[..], m, top, below + h, n);
    }

    /** console_insert_lines */
    method InsertLines(row: nat, bot: nat, n: nat)
      requires surface.Valid()
      modifies surface.pixels, surface`damage
      ensures MarginKept(old(surface.pixels[..]), surface.pixels[..], surface.mode)
      ensures Screen(surface.pixels[..], surface.mode) ==
                if Acts(font, surface.mode, row, bot, n)
                then ActsFits(font, surface.mode, row, bot, n);
                     Inserted(old(Screen(surface.pixels[..], surface.mode)), Region(row, bot, font.height), n, surface.mode.width)
                else old(Screen(surface.pixels[..], surface.mode))
    {
      hide Screen, InsertRows, Usable, Region.Top, Region.Bottom;
      var m := surface.mode;
      if !Acts(font, m, row, bot, n) {
        return;
      }
      ActsFits(font, m, row, bot, n);
      var fh, count := font.height, bot - row + 1;
      var k := if n > count then count else n;
      RegionProducts(Region(row, bot, fh), k);
      Lower(row * fh, (row + k) * fh, (count - k) * fh, k * fh);
    }

    /** console_delete_lines */
    method DeleteLines(row: nat, bot: nat, n: nat)
      requires surface.Valid()
      modifies surface.pixels, surface`damage
      ensures MarginKept(old(surface.pixels[..]), surface.pixels[..], surface.mode)
      ensures Screen(surface.pixels[..], surface.mode) ==
                if Acts(font, surface.mode, row, bot, n)
                then ActsFits(font, surface.mode, row, bot, n);
                     Deleted(old(Screen(surface.pixels[..], surface.mode)), Region(row, bot, font.height), n, surface.mode.width)
                else old(Screen(surface.pixels[..], surface.mode))
    {
      hide Screen, DeleteRows, Usable, Region.Top, Region.Bottom;
      var m := surface.mode;
      if !Acts(font, m, row, bot, n) {
        return;
      }
      ActsFits(font, m, row, bot, n);
      var fh, count := font.height, bot - row + 1;
      var k := if n > count then count else n;
      RegionProducts(Region(row, bot, fh), k);
      Raise((row + k) * fh, row * fh, (count - k) * fh, (bot - k + 1) * fh, k * fh);
    }
  }
}
