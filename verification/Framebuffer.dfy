/** The framebuffer's rectangle operations in software (surface_rect,
    framebuffer_copy_area and framebuffer_fill_rect in src/device/core/framebuffer.c).

    Pixels are a flat array; row y starts at y * (pitch / 4).  A row may be longer than
    the visible width. */
module Framebuffer {

  const UINT_MAX := 0xffff_ffff

  /** A mode: visible width and height in pixels, pitch in bytes. */
  datatype Mode = Mode(width: nat, height: nat, pitch: nat) {
    function Stride(): nat { pitch / 4 }
  }

  datatype Rect = Rect(x: nat, y: nat, width: nat, height: nat) {
    predicate Contains(px: int, py: int) { x <= px < x + width && y <= py < y + height }
  }

  /** surface_rect on a surface with pixels */
  predicate Accepts(m: Mode, r: Rect) {
    && r.width > 0 && r.height > 0 && r.x < m.width && r.y < m.height
    && r.width <= m.width - r.x && r.height <= m.height - r.y
    && m.width <= UINT_MAX / 4 && m.pitch >= m.width * 4 && m.pitch % 4 == 0
    && m.pitch <= UINT_MAX / m.height
  }

  /** Modes on which no rectangle inside the surface is refused. */
  predicate Usable(m: Mode) {
    && m.width > 0 && m.height > 0 && m.width <= UINT_MAX / 4 && m.pitch >= m.width * 4 && m.pitch % 4 == 0
    && m.pitch <= UINT_MAX / m.height
  }

  /** A non-empty rectangle inside a usable surface is accepted, and nothing else is. */
  lemma AcceptsIff(m: Mode, r: Rect)
    ensures Accepts(m, r) <==>
            (Usable(m) && r.width > 0 && r.height > 0 && r.x + r.width <= m.width && r.y + r.height <= m.height)
  {
  }

  // ----- indices

  /** Index of the pixel in column x of row y. */
  function At(stride: nat, y: int, x: int): int {
    y * stride + x
  }

  lemma AtInside(stride: nat, height: nat, y: int, x: int)
    requires 0 <= y < height && 0 <= x < stride
    ensures 0 <= At(stride, y, x) < height * stride
  {
    assert y * stride <= (height - 1) * stride;
  }

  lemma AtShift(stride: nat, y: int, x: int, i: int)
    ensures At(stride, y, x) + i == At(stride, y, x + i)
  {
  }

  /** Distinct pixels have distinct indices: index k of row `row`, column `x` lies in a run of
      n pixels that starts at column `col` of that row only if the pixel does. */
  lemma AtInRun(stride: nat, y: int, x: int, row: int, col: nat, n: nat)
    requires 0 <= x < stride && col + n <= stride
    ensures At(stride, row, col) <= At(stride, y, x) < At(stride, row, col) + n <==> y == row && col <= x < col + n
  {
    if y < row {
      assert (y + 1) * stride <= row * stride;
    } else if y > row {
      assert (row + 1) * stride <= y * stride;
    }
  }

  // ----- what the operations mean

  /** b is a with the source rectangle copied, all at once, onto the destination. */
  ghost predicate IsCopy(a: seq<int>, b: seq<int>, m: Mode, src: Rect, dst: Rect)
    requires |a| == |b| == m.height * m.Stride()
  {
    forall y, x :: 0 <= y < m.height && 0 <= x < m.Stride() ==> CopiedAt(a, b, m, src, dst, y, x)
  }

  ghost predicate CopiedAt(a: seq<int>, b: seq<int>, m: Mode, src: Rect, dst: Rect, y: int, x: int)
    requires |a| == |b| == m.height * m.Stride() && 0 <= y < m.height && 0 <= x < m.Stride()
  {
    Pixel(b, m, y, x) ==
      if dst.Contains(x, y) then Pixel(a, m, y - dst.y + src.y, x - dst.x + src.x) else Pixel(a, m, y, x)
  }

  /** The pixel in row y, column x; 0 outside the array. */
  ghost function Pixel(a: seq<int>, m: Mode, y: int, x: int): int {
    if 0 <= At(m.Stride(), y, x) < |a| then a[At(m.Stride(), y, x)] else 0
  }

  ghost predicate IsFill(a: seq<int>, b: seq<int>, m: Mode, color: int, r: Rect)
    requires |a| == |b| == m.height * m.Stride()
  {
    forall y, x :: 0 <= y < m.height && 0 <= x < m.Stride() ==>
      Pixel(b, m, y, x) == if r.Contains(x, y) then color else Pixel(a, m, y, x)
  }

  /** First and last byte the damage report names. */
  function DamageBegin(m: Mode, r: Rect): int { r.y * m.pitch + r.x * 4 }
  function DamageEnd(m: Mode, r: Rect): int { (r.y + r.height - 1) * m.pitch + (r.x + r.width) * 4 }

  /** The reported range is not empty and ends inside the surface, without 32-bit overflow. */
  lemma DamageInside(m: Mode, r: Rect)
    requires Accepts(m, r)
    ensures 0 <= DamageBegin(m, r) < DamageEnd(m, r) <= m.pitch * m.height <= UINT_MAX
  {
    var p, last := m.pitch, r.y + r.height - 1;
    Product(last, m.height - 1, p);
    Product(r.y, last, p);
    LastRow(m.height, p);
    QuotientFits(p, UINT_MAX, m.height);
  }

  lemma LastRow(h: int, p: int)
    ensures (h - 1) * p + p == p * h
  {
  }

  /** The reported range covers every pixel of the rectangle. */
  lemma DamageCovers(m: Mode, r: Rect, y: int, x: int)
    requires Accepts(m, r) && r.Contains(x, y)
    ensures DamageBegin(m, r) <= 4 * At(m.Stride(), y, x) && 4 * At(m.Stride(), y, x) + 4 <= DamageEnd(m, r)
  {
    Product(r.y, y, m.pitch);
    Product(y, r.y + r.height - 1, m.pitch);
    FourTimes(y, m.Stride());
  }

  lemma FourTimes(y: int, s: int)
    ensures 4 * (y * s) == y * (4 * s)
  {
  }

  lemma Product(a: int, b: int, p: nat)
    requires a <= b
    ensures a * p <= b * p
  {
  }

  lemma QuotientFits(a: nat, n: nat, d: nat)
    requires d > 0 && a <= n / d
    ensures a * d <= n
  {
    assert n / d * d <= n;
    assert a * d <= n / d * d;
  }

  // ----- the row loops

  /** Rows [from, from + k) of a rectangle. */
  function Rows(r: Rect, from: nat, k: nat): Rect {
    Rect(r.x, r.y + from, r.width, k)
  }

  lemma EmptyCopy(a: seq<int>, m: Mode, src: Rect, dst: Rect)
    requires |a| == m.height * m.Stride() && dst.height == 0
    ensures IsCopy(a, a, m, src, dst)
  {
    forall y, x | 0 <= y < m.height && 0 <= x < m.Stride()
      ensures CopiedAt(a, a, m, src, dst, y, x)
    {
      assert !dst.Contains(x, y);
    }
  }

  /** Adding one row to the rows already copied.  The row that is read has not been written
      yet: going up when the destination is lower, down otherwise, no destination row
      written so far is the source row. */
  lemma CopyExtend(a: seq<int>, b: seq<int>, c: seq<int>, m: Mode, src: Rect, dst: Rect, from: nat, k: nat, o: nat)
    requires |a| == |b| == |c| == m.height * m.Stride()
    requires Accepts(m, src) && Accepts(m, dst) && src.width == dst.width && src.height == dst.height
    requires o < src.height && from + k <= src.height
    requires if dst.y > src.y then from == o + 1 else from + k == o
    requires IsCopy(a, b, m, Rows(src, from, k), Rows(dst, from, k))
    requires IsCopy(b, c, m, Rows(src, o, 1), Rows(dst, o, 1))
    ensures var low := if dst.y > src.y then o else from;
            IsCopy(a, c, m, Rows(src, low, k + 1), Rows(dst, low, k + 1))
  {
    hide At, Pixel;
    var low := if dst.y > src.y then o else from;
    assert m.width <= m.Stride();
    var src1, dst1 := Rows(src, low, k + 1), Rows(dst, low, k + 1);
    forall y, x | 0 <= y < m.height && 0 <= x < m.Stride()
      ensures CopiedAt(a, c, m, src1, dst1, y, x)
    {
      assert CopiedAt(b, c, m, Rows(src, o, 1), Rows(dst, o, 1), y, x);
      assert CopiedAt(a, b, m, Rows(src, from, k), Rows(dst, from, k), y, x);
      if Rows(dst, o, 1).Contains(x, y) {
        assert CopiedAt(a, b, m, Rows(src, from, k), Rows(dst, from, k), src.y + o, x - dst.x + src.x);
      }
    }
  }

  class Surface {
    const mode: Mode
    const pixels: array<int>
    ghost var damage: seq<(int, int)>     // ranges reported to the driver

    constructor (mode: Mode)
      ensures this.mode == mode && Valid() && fresh(pixels) && damage == []
      ensures forall i :: 0 <= i < pixels.Length ==> pixels[i] == 0
    {
      this.mode := mode;
      pixels := new int[mode.height * (mode.pitch / 4)](i => 0);
      damage := [];
    }

    ghost predicate Valid() { pixels.Length == mode.height * mode.Stride() }

    /** One memmove: n pixels of one row. */
    method MoveRow(src: Rect, dst: Rect)
      requires Valid() && Accepts(mode, src) && Accepts(mode, dst)
      requires src.height == dst.height == 1 && src.width == dst.width
      modifies pixels
      ensures IsCopy(old(pixels[..]), pixels[..], mode, src, dst)
    {
      hide At, IsCopy;
      var stride := mode.pitch / 4;
      assert mode.width <= stride;
      RunInside(mode, src);
      RunInside(mode, dst);
      var from, to := At(stride, src.y, src.x), At(stride, dst.y, dst.x);
      forall i | 0 <= i < src.width {
        pixels[to + i] := pixels[from + i];
      }
      RunMoved(old(pixels[..]), pixels[..], mode, src, dst, from, to);
    }

    /** framebuffer_copy_area without driver acceleration */
    method CopyArea(sx: nat, sy: nat, dx: nat, dy: nat, width: nat, height: nat)
      requires Valid()
      modifies pixels, this`damage
      ensures var src, dst := Rect(sx, sy, width, height), Rect(dx, dy, width, height);
              if Accepts(mode, src) && Accepts(mode, dst)
              then IsCopy(old(pixels[..]), pixels[..], mode, src, dst)
                   && damage == old(damage) + [(DamageBegin(mode, dst), DamageEnd(mode, dst))]
              else pixels[..] == old(pixels[..]) && damage == old(damage)
    {
      hide At, IsCopy;
      var src, dst := Rect(sx, sy, width, height), Rect(dx, dy, width, height);
      if !Accepts(mode, src) || !Accepts(mode, dst) {
        return;
      }
      var row := 0;
      EmptyCopy(pixels[..], mode, Rows(src, if dy > sy then height else 0, 0), Rows(dst, if dy > sy then height else 0, 0));
      while row < height
        invariant 0 <= row <= height
        invariant var from := if dy > sy then height - row else 0;
                  IsCopy(old(pixels[..]), pixels[..], mode, Rows(src, from, row), Rows(dst, from, row))
        invariant damage == old(damage)
      {
        var offset := if dy > sy then height - row - 1 else row;
        ghost var b := pixels[..];
        MoveRow(Rows(src, offset, 1), Rows(dst, offset, 1));
        CopyExtend(old(pixels[..]), b, pixels[..], mode, src, dst, if dy > sy then height - row else 0, row, offset);
        row := row + 1;
      }
      assert Rows(src, 0, height) == src && Rows(dst, 0, height) == dst;
      damage := damage + [(DamageBegin(mode, dst), DamageEnd(mode, dst))];
    }

    /** framebuffer_fill_rect without driver acceleration */
    method FillRect(color: int, x: nat, y: nat, width: nat, height: nat)
      requires Valid()
      modifies pixels, this`damage
      ensures var r := Rect(x, y, width, height);
              if Accepts(mode, r)
              then IsFill(old(pixels[..]), pixels[..], mode, color, r)
                   && damage == old(damage) + [(DamageBegin(mode, r), DamageEnd(mode, r))]
              else pixels[..] == old(pixels[..]) && damage == old(damage)
    {
      hide At, IsFill;
      var r := Rect(x, y, width, height);
      if !Accepts(mode, r) {
        return;
      }
      var row := 0;
      EmptyFill(pixels[..], mode, color, Rows(r, 0, 0));
      while row < height
        invariant 0 <= row <= height
        invariant IsFill(old(pixels[..]), pixels[..], mode, color, Rows(r, 0, row))
        invariant damage == old(damage)
      {
        ghost var b := pixels[..];
        FillRow(color, Rows(r, row, 1));
        FillExtend(old(pixels[..]), b, pixels[..], mode, color, r, row);
        row := row + 1;
      }
      assert Rows(r, 0, height) == r;
      damage := damage + [(DamageBegin(mode, r), DamageEnd(mode, r))];
    }

    method FillRow(color: int, r: Rect)
      requires Valid() && Accepts(mode, r) && r.height == 1
      modifies pixels
      ensures IsFill(old(pixels[..]), pixels[..], mode, color, r)
    {
      hide At, IsFill;
      var stride := mode.pitch / 4;
      RunInside(mode, r);
      var col := 0;
      var at := At(stride, r.y, r.x);
      while col < r.width
        invariant 0 <= col <= r.width
        invariant forall k :: 0 <= k < pixels.Length ==>
                    pixels[k] == if at <= k < at + col then color else old(pixels[k])
      {
        pixels[at + col] := color;
        col := col + 1;
      }
      RunFilled(old(pixels[..]), pixels[..], mode, color, r);
    }
  }

  /** A row of a rectangle is a run of indices inside the array. */
  lemma RunInside(m: Mode, r: Rect)
    requires Accepts(m, r)
    ensures 0 <= At(m.Stride(), r.y, r.x) && At(m.Stride(), r.y, r.x) + r.width <= m.height * m.Stride()
  {
    AtInside(m.Stride(), m.height, r.y, r.x);
    AtInside(m.Stride(), m.height, r.y, r.x + r.width - 1);
  }

  /** Moving a run of indices is copying a row of pixels. */
  lemma RunMoved(a: seq<int>, b: seq<int>, m: Mode, src: Rect, dst: Rect, from: int, to: int)
    requires |a| == |b| == m.height * m.Stride() && Accepts(m, src) && Accepts(m, dst)
    requires src.height == dst.height == 1 && src.width == dst.width
    requires 0 <= from == At(m.Stride(), src.y, src.x) && from + src.width <= |a| && to == At(m.Stride(), dst.y, dst.x)
    requires forall k {:trigger b[k]} :: 0 <= k < |a| ==> b[k] == if to <= k < to + src.width then a[k - to + from] else a[k]
    ensures IsCopy(a, b, m, src, dst)
  {
    hide At;
    var s := m.Stride();
    assert m.width <= s;
    forall y, x | 0 <= y < m.height && 0 <= x < s
      ensures CopiedAt(a, b, m, src, dst, y, x)
    {
      AtInside(s, m.height, y, x);
      AtInRun(s, y, x, dst.y, dst.x, dst.width);
      if dst.Contains(x, y) {
        AtShift(s, dst.y, dst.x, x - dst.x);
        AtShift(s, src.y, src.x, x - dst.x);
        AtInside(s, m.height, y - dst.y + src.y, x - dst.x + src.x);
        assert At(s, y, x) - At(s, dst.y, dst.x) + At(s, src.y, src.x) == At(s, y - dst.y + src.y, x - dst.x + src.x);
      }
    }
  }

  lemma EmptyFill(a: seq<int>, m: Mode, color: int, r: Rect)
    requires |a| == m.height * m.Stride() && r.height == 0
    ensures IsFill(a, a, m, color, r)
  {
  }

  lemma FillExtend(a: seq<int>, b: seq<int>, c: seq<int>, m: Mode, color: int, r: Rect, k: nat)
    requires |a| == |b| == |c| == m.height * m.Stride()
    requires IsFill(a, b, m, color, Rows(r, 0, k)) && IsFill(b, c, m, color, Rows(r, k, 1))
    ensures IsFill(a, c, m, color, Rows(r, 0, k + 1))
  {
    hide At, Pixel;
  }

  lemma RunFilled(a: seq<int>, b: seq<int>, m: Mode, color: int, r: Rect)
    requires |a| == |b| == m.height * m.Stride() && Accepts(m, r) && r.height == 1
    requires var at := At(m.Stride(), r.y, r.x);
             forall k :: 0 <= k < |a| ==> b[k] == if at <= k < at + r.width then color else a[k]
    ensures IsFill(a, b, m, color, r)
  {
    hide At;
    forall y, x | 0 <= y < m.height && 0 <= x < m.Stride()
      ensures Pixel(b, m, y, x) == if r.Contains(x, y) then color else Pixel(a, m, y, x)
    {
      AtInside(m.Stride(), m.height, y, x);
      AtInRun(m.Stride(), y, x, r.y, r.x, r.width);
    }
  }
}
