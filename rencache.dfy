/** The damage-tracking render cache of src/rencache.rs.  Draw calls of a frame
    are recorded in a bounded command log; at the end of the frame every
    command is hashed (32-bit FNV-1a) into the 96 x 96 pixel cells its clipped
    rectangle touches, the grid is compared with the previous frame's, dirty
    cells are merged into rectangles, and the log is replayed once per dirty
    rectangle.  The replay is given as the sequence of renderer calls it
    makes (`RenderCall`); what each call does to the pixels is the business of
    the Renderer module. */
module RenCache {
  import opened Bytes
  import opened Arith
  import opened Renderer

  // ---------------------------------------------------------------------------
  // Constants of the source

  /** FNV-1a offset basis, the value every command hash and every reset cell starts from. */
  const Seed: bv32 := 2166136261
  /** FNV-1a prime. */
  const Prime: bv32 := 16777619
  /** Side of a grid cell, in pixels. */
  const CellSize := 96
  /** Cells per grid row (the stride of `cell_idx`). */
  const GridWidth := 80
  /** Number of cells in each of the two grids. */
  const CellCount := 4000
  /** Capacity of `rect_buf`. */
  const RectCapacity := 2000
  /** Capacity of `command_buf`, in bytes (1024 * 512). */
  const CommandCapacity := 524288
  /** `size_of::<Command>()`: two c_ints, a RenRect, a RenColor, 4 bytes of
      padding and a pointer. */
  const CommandSize := 40

  // ---------------------------------------------------------------------------
  // Rectangle geometry

  /** Pixel (px, py) lies in the half-open rectangle r. */
  predicate InRect(px: int, py: int, r: RenRect)
  {
    r.x <= px < r.x + r.width && r.y <= py < r.y + r.height
  }

  /** `rects_overlap`: the closed extents meet; rectangles that only touch
      along an edge or a corner count as overlapping. */
  predicate RectsOverlap(a: RenRect, b: RenRect)
  {
    b.x + b.width >= a.x && b.x <= a.x + a.width &&
    b.y + b.height >= a.y && b.y <= a.y + a.height
  }

  lemma RectsOverlapSymmetric(a: RenRect, b: RenRect)
    ensures RectsOverlap(a, b) <==> RectsOverlap(b, a)
  {
  }

  /** Two rectangles sharing a pixel overlap; so do two that merely touch,
      and so does an empty rectangle on the edge of another. */
  lemma RectsOverlapCases(a: RenRect, b: RenRect, px: int, py: int)
    ensures InRect(px, py, a) && InRect(px, py, b) ==> RectsOverlap(a, b)
    ensures RectsOverlap(RenRect(0, 0, 1, 1), RenRect(1, 1, 1, 1))
    ensures RectsOverlap(RenRect(0, 0, 10, 10), RenRect(10, 5, 0, 0))
  {
  }

  /** `intersect_rects`: the common part of a and b; its width and height are
      clamped at 0, and its pixels are exactly those in both. */
  function IntersectRects(a: RenRect, b: RenRect): (r: RenRect)
    ensures r.width >= 0 && r.height >= 0
    ensures forall px, py :: InRect(px, py, r) <==> InRect(px, py, a) && InRect(px, py, b)
    ensures r.width > 0 && r.height > 0 ==>
      a.x <= r.x && r.x + r.width <= a.x + a.width && a.y <= r.y && r.y + r.height <= a.y + a.height &&
      b.x <= r.x && r.x + r.width <= b.x + b.width && b.y <= r.y && r.y + r.height <= b.y + b.height
  {
    var x1 := Max(a.x, b.x);
    var y1 := Max(a.y, b.y);
    var x2 := Min(a.x + a.width, b.x + b.width);
    var y2 := Min(a.y + a.height, b.y + b.height);
    RenRect(x1, y1, Max(0, x2 - x1), Max(0, y2 - y1))
  }

  /** `merge_rects`: the bounding box of a and b; it contains every pixel of
      both, and each of its edges is an edge of a or of b. */
  function MergeRects(a: RenRect, b: RenRect): (r: RenRect)
    ensures forall px, py :: InRect(px, py, a) || InRect(px, py, b) ==> InRect(px, py, r)
    ensures (r.x == a.x || r.x == b.x) && (r.y == a.y || r.y == b.y)
    ensures (r.x + r.width == a.x + a.width || r.x + r.width == b.x + b.width)
    ensures (r.y + r.height == a.y + a.height || r.y + r.height == b.y + b.height)
  {
    var x1 := Min(a.x, b.x);
    var y1 := Min(a.y, b.y);
    var x2 := Max(a.x + a.width, b.x + b.width);
    var y2 := Max(a.y + a.height, b.y + b.height);
    RenRect(x1, y1, x2 - x1, y2 - y1)
  }

  /** r lies inside the rectangle `outer` (closed extents). */
  predicate Within(r: RenRect, outer: RenRect)
  {
    outer.x <= r.x && r.x + r.width <= outer.x + outer.width &&
    outer.y <= r.y && r.y + r.height <= outer.y + outer.height
  }

  /** Merging two rectangles that lie inside a box stays inside it. */
  lemma MergeWithin(a: RenRect, b: RenRect, outer: RenRect)
    requires Within(a, outer) && Within(b, outer)
    ensures Within(MergeRects(a, b), outer)
  {
  }

  // ---------------------------------------------------------------------------
  // FNV-1a

  /** One step of `hash`: `h = (h ^ b) * 16777619`, wrapping at 2^32. */
  function FnvStep(h: bv32, b: byte): bv32
  {
    (h ^ (b as bv32)) * Prime
  }

  /** `hash` over a whole byte string, from running value h. */
  function Fnv(h: bv32, data: seq<byte>): bv32
  {
    if data == [] then h else FnvStep(Fnv(h, data[..|data| - 1]), data[|data| - 1])
  }

  /** Hashing a concatenation is hashing the second part from the first part's result. */
  lemma {:induction false} FnvAppend(h: bv32, a: seq<byte>, b: seq<byte>)
    ensures Fnv(h, a + b) == Fnv(Fnv(h, a), b)
    decreases |b|
  {
    if b == [] {
      assert a + b == a;
    } else {
      assert (a + b)[..|a + b| - 1] == a + b[..|b| - 1];
      FnvAppend(h, a, b[..|b| - 1]);
    }
  }

  /** `hash(h, data, size)`: folds the bytes into *h one at a time. */
  method Hash(h0: bv32, data: seq<byte>) returns (h: bv32)
    ensures h == Fnv(h0, data)
    ensures data == [] ==> h == h0
  {
    h := h0;
    var i := 0;
    while i < |data|
      invariant 0 <= i <= |data|
      invariant h == Fnv(h0, data[..i])
    {
      assert data[..i + 1][..i] == data[..i];
      h := FnvStep(h, data[i]);
      i := i + 1;
    }
    assert data[..|data|] == data;
  }

  // ---------------------------------------------------------------------------
  // Commands

  /** The command type tags. */
  datatype CommandKind = FreeFont | SetClip | DrawText | DrawRect

  /** The c_uint value of each tag. */
  function KindCode(k: CommandKind): (code: int)
    ensures 0 <= code < 4
  {
    match k
    case FreeFont => 0
    case SetClip => 1
    case DrawText => 2
    case DrawRect => 3
  }

  /** A recorded `Command` with the text that follows it in the buffer.
      `font` is the raw font pointer (null in commands that carry none). */
  datatype Command = Command(kind: CommandKind, size: int, rect: RenRect, color: RenColor, font: RenFont?, text: seq<char>)

  /** What `push_command` leaves in the buffer: the memset-zeroed command with
      its tag and size filled in. */
  function ZeroedCommand(kind: CommandKind, size: int): Command
  {
    Command(kind, size, RenRect(0, 0, 0, 0), RenColor(0, 0, 0, 0), null, [])
  }

  /** The pointer value of a font, as stored in the command. */
  function FontAddress(f: RenFont?): int
  {
    if f == null then 0 else f.id
  }

  /** Size in the buffer of a command of the given kind and text: the struct,
      plus for text the string's bytes and its NUL. */
  function RecordSize(kind: CommandKind, text: seq<char>): int
  {
    if kind == DrawText then CommandSize + ByteLength(text) + 1 else CommandSize
  }

  /** The `size` bytes `end_frame` hashes for a command: its fields in memory
      order (little-endian), the zeroed padding, the font pointer, and for
      text the string's bytes and NUL. */
  function Serialize(c: Command): (bs: seq<byte>)
    ensures |bs| >= CommandSize
    ensures |bs| == RecordSize(c.kind, c.text)
  {
    EncodeLength(c.text);
    Le32(KindCode(c.kind)) + Le32(c.size) +
    Le32(c.rect.x) + Le32(c.rect.y) + Le32(c.rect.width) + Le32(c.rect.height) +
    [c.color.b, c.color.g, c.color.r, c.color.a] + [0, 0, 0, 0] + Le64(FontAddress(c.font)) +
    (if c.kind == DrawText then Encode(c.text) + [0] else [])
  }

  /** The hash of one command, as `end_frame` computes it. */
  function CommandHash(c: Command): bv32
  {
    Fnv(Seed, Serialize(c))
  }

  /** A command as the recorders leave it: its size is that of its record,
      a clip rectangle is non-negative, a text carries no NUL. */
  predicate WellFormed(c: Command)
  {
    c.size == RecordSize(c.kind, c.text) &&
    (c.kind == SetClip ==> c.rect.width >= 0 && c.rect.height >= 0) &&
    '\0' !in c.text
  }

  /** Bytes occupied by a log: the sum of its commands' sizes. */
  function LogSize(log: seq<Command>): int
  {
    if log == [] then 0 else LogSize(log[..|log| - 1]) + log[|log| - 1].size
  }

  /** In a log of well-formed commands the cursor of `next_command` strictly
      increases, so it meets `command_buf_idx` exactly after the last command:
      the walk visits every command once, in recording order. */
  lemma {:induction false} WalkEndsAtCursor(log: seq<Command>, i: int)
    requires forall j :: 0 <= j < |log| ==> WellFormed(log[j])
    requires 0 <= i <= |log|
    ensures LogSize(log[..i]) + CommandSize * (|log| - i) <= LogSize(log)
    ensures LogSize(log[..i]) == LogSize(log) <==> i == |log|
    decreases |log| - i
  {
    if i < |log| {
      WalkEndsAtCursor(log, i + 1);
      assert log[..i + 1][..i] == log[..i];
      assert log[i].size >= CommandSize by { EncodeLength(log[i].text); }
    } else {
      assert log[..i] == log;
    }
  }

  // ---------------------------------------------------------------------------
  // The grid

  /** C's `/` on c_int: the quotient truncated toward zero. */
  function TruncDiv(a: int, b: int): int
    requires b > 0
  {
    if a >= 0 then a / b else -((-a) / b)
  }

  /** Column (or row) of the cell holding coordinate v. */
  function CellOf(v: int): int
  {
    TruncDiv(v, CellSize)
  }

  /** `cell_idx(x, y)`: row-major index with a fixed stride of 80 cells. */
  function CellIdx(x: int, y: int): int
  {
    x + y * GridWidth
  }

  /** The 80 x 50 cells the 4000-entry grid can hold. */
  predicate InGridCell(x: int, y: int)
  {
    0 <= x < GridWidth && 0 <= y < 50
  }

  /** Distinct grid cells have distinct indices, all below 4000. */
  lemma CellIdxInjective(x: int, y: int, x': int, y': int)
    requires InGridCell(x, y) && InGridCell(x', y')
    ensures 0 <= CellIdx(x, y) < CellCount
    ensures CellIdx(x, y) == CellIdx(x', y') ==> x == x' && y == y'
  {
  }

  /** The pixel area whose rectangles touch only grid cells: a rectangle
      inside it has its right and bottom edge cells at most 79 and 49. */
  const GridBounds := RenRect(0, 0, 7679, 4799)

  /** The screen sizes the model serves. The diff region of w/96+1 by h/96+1
      cells must fit the 80-cell stride and the 50 rows; the source does not
      check this. The model also bounds the region by the 2000-entry rect
      buffer, so that one entry per cell would fit. That is stronger than the
      source needs: `push_rect` appends a cell only when it touches no buffered
      rectangle, so the buffer never holds more than about a quarter of the
      region. Screens whose region exceeds 2000 cells are therefore excluded
      here, although the source serves them. */
  predicate GridFits(w: int, h: int)
  {
    0 <= w && 0 <= h && w / CellSize < GridWidth && h / CellSize < 50 &&
    (w / CellSize + 1) * (h / CellSize + 1) <= RectCapacity
  }

  /** Width and height of the diff region, in cells. */
  function RegionWidth(screen: RenRect): int { screen.width / CellSize + 1 }
  function RegionHeight(screen: RenRect): int { screen.height / CellSize + 1 }

  /** Cell (x, y) is in the diff region of the screen. */
  predicate InRegion(x: int, y: int, screen: RenRect)
  {
    0 <= x < RegionWidth(screen) && 0 <= y < RegionHeight(screen)
  }

  /** `update_overlapping_cells` folds into cell (x, y) when the cell lies
      between the cells of r's top-left and bottom-right corners, both included. */
  predicate TouchesCell(r: RenRect, x: int, y: int)
  {
    CellOf(r.x) <= x <= CellOf(r.x + r.width) && CellOf(r.y) <= y <= CellOf(r.y + r.height)
  }

  /** A clip rectangle as the log holds it: non-negative, and empty or inside the grid's pixel area. */
  predicate ClipOk(r: RenRect)
  {
    r.width >= 0 && r.height >= 0 && (r.width == 0 || r.height == 0 || Within(r, GridBounds))
  }

  /** The clip a command is damaged under: its own rect for a clip command. */
  function ClipFor(c: Command, cr: RenRect): RenRect
  {
    if c.kind == SetClip then c.rect else cr
  }

  /** The clip in force after the hash pass has walked `log`, starting from the screen. */
  function ClipAfter(log: seq<Command>, screen: RenRect): RenRect
  {
    if log == [] then screen else ClipFor(log[|log| - 1], ClipAfter(log[..|log| - 1], screen))
  }

  /** The damage of a command under clip cr: `intersect_rects(cmd.rect, cr)`. */
  function DamageOf(c: Command, cr: RenRect): RenRect
  {
    IntersectRects(c.rect, ClipFor(c, cr))
  }

  /** Value of cell (x, y) after the hash pass over `log`, from value v: the
      hash of every command whose non-empty damage touches the cell is folded
      in (as the four bytes of a u32), in log order. */
  function CellAfter(v: bv32, x: int, y: int, log: seq<Command>, screen: RenRect): bv32
  {
    if log == [] then v
    else
      var before := CellAfter(v, x, y, log[..|log| - 1], screen);
      var r := DamageOf(log[|log| - 1], ClipAfter(log[..|log| - 1], screen));
      if r.width != 0 && r.height != 0 && TouchesCell(r, x, y) then Fnv(before, Le32(CommandHash(log[|log| - 1]) as int))
      else before
  }

  /** A log of font releases alone changes no cell: a `FREE_FONT` command
      records an all-zero rectangle, so it never damages the screen. */
  lemma {:induction false} FreeOnlyLogKeepsCells(v: bv32, x: int, y: int, log: seq<Command>, screen: RenRect)
    requires forall k :: 0 <= k < |log| ==> log[k].kind == FreeFont && log[k].rect == RenRect(0, 0, 0, 0)
    ensures CellAfter(v, x, y, log, screen) == v
  {
    if log != [] {
      var init := log[..|log| - 1];
      assert forall k :: 0 <= k < |init| ==> init[k] == log[k];
      FreeOnlyLogKeepsCells(v, x, y, init, screen);
    }
  }

  /** A command whose damage is empty leaves every cell as it was; in
      particular a `FREE_FONT` command, whose rect is all zeros. */
  lemma {:induction false} EmptyDamageContributesNothing(v: bv32, x: int, y: int, log: seq<Command>, c: Command, screen: RenRect)
    requires (c.kind == FreeFont && c.rect == RenRect(0, 0, 0, 0)) ||
             DamageOf(c, ClipAfter(log, screen)).width == 0 || DamageOf(c, ClipAfter(log, screen)).height == 0
    ensures CellAfter(v, x, y, log + [c], screen) == CellAfter(v, x, y, log, screen)
  {
    assert (log + [c])[..|log + [c]| - 1] == log;
  }

  /** The damage of a command, once non-empty, lies in the grid's pixel area
      and touches only grid cells. */
  lemma {:induction false} DamageInGrid(c: Command, cr: RenRect, x: int, y: int)
    requires ClipOk(cr) && (c.kind == SetClip ==> ClipOk(c.rect))
    requires DamageOf(c, cr).width != 0 && DamageOf(c, cr).height != 0
    ensures Within(DamageOf(c, cr), GridBounds)
    ensures TouchesCell(DamageOf(c, cr), x, y) ==> InGridCell(x, y)
  {
  }

  // ---------------------------------------------------------------------------
  // Dirty rectangles

  /** Index of the last buffered rectangle among the first n that overlaps r, or -1. */
  function LastOverlap(rects: seq<RenRect>, r: RenRect, n: int): (i: int)
    requires 0 <= n <= |rects|
    ensures -1 <= i < n
    ensures i >= 0 ==> RectsOverlap(rects[i], r)
    ensures forall j :: i < j < n ==> !RectsOverlap(rects[j], r)
  {
    if n == 0 then -1
    else if RectsOverlap(rects[n - 1], r) then n - 1
    else LastOverlap(rects, r, n - 1)
  }

  /** The buffered rectangles after `push_rect(r)`: the last one touching r
      is replaced by its merge with r, or else r is appended. */
  function PushRectSpec(rects: seq<RenRect>, r: RenRect): (res: seq<RenRect>)
    ensures |rects| <= |res| <= |rects| + 1
    ensures forall k :: 0 <= k < |res| ==>
      res[k] == r || (k < |rects| && (res[k] == rects[k] || res[k] == MergeRects(rects[k], r)))
  {
    var i := LastOverlap(rects, r, |rects|);
    if i >= 0 then rects[i := MergeRects(rects[i], r)] else rects + [r]
  }

  /** r holds at least one pixel. */
  predicate NonEmpty(r: RenRect)
  {
    r.width > 0 && r.height > 0
  }

  /** Pixel (px, py) is in one of the rectangles. */
  ghost predicate Covered(rects: seq<RenRect>, px: int, py: int)
  {
    exists k :: 0 <= k < |rects| && InRect(px, py, rects[k])
  }

  /** `push_rect` adds at most one rectangle; afterwards the rectangles cover
      r and everything they covered before, and stay inside any box that
      holds r and all of them. */
  lemma PushRectCovers(rects: seq<RenRect>, r: RenRect, outer: RenRect)
    ensures |rects| <= |PushRectSpec(rects, r)| <= |rects| + 1
    ensures forall px, py :: InRect(px, py, r) ==> Covered(PushRectSpec(rects, r), px, py)
    ensures forall px, py :: Covered(rects, px, py) ==> Covered(PushRectSpec(rects, r), px, py)
    ensures Within(r, outer) && (forall k :: 0 <= k < |rects| ==> Within(rects[k], outer)) ==>
      forall k :: 0 <= k < |PushRectSpec(rects, r)| ==> Within(PushRectSpec(rects, r)[k], outer)
    ensures NonEmpty(r) && (forall k :: 0 <= k < |rects| ==> NonEmpty(rects[k])) ==>
      forall k :: 0 <= k < |PushRectSpec(rects, r)| ==> NonEmpty(PushRectSpec(rects, r)[k])
  {
    var res := PushRectSpec(rects, r);
    var i := LastOverlap(rects, r, |rects|);
    forall px, py | InRect(px, py, r)
      ensures Covered(res, px, py)
    {
      if i >= 0 {
        assert InRect(px, py, res[i]);
      } else {
        assert InRect(px, py, res[|rects|]);
      }
    }
    forall px, py | Covered(rects, px, py)
      ensures Covered(res, px, py)
    {
      var k :| 0 <= k < |rects| && InRect(px, py, rects[k]);
      assert InRect(px, py, res[k]);
    }
    if Within(r, outer) && (forall k :: 0 <= k < |rects| ==> Within(rects[k], outer)) && i >= 0 {
      MergeWithin(rects[i], r, outer);
    }
    if NonEmpty(r) && i >= 0 {
      assert InRect(r.x, r.y, r);
      assert InRect(r.x, r.y, res[i]);
    }
  }

  /** The 1 x 1 rectangle, in cell units, of cell (x, y). */
  function CellRect(x: int, y: int): RenRect
  {
    RenRect(x, y, 1, 1)
  }

  /** The rectangles `push_rect` has built once the diff loop has compared
      every cell of rows 0 .. y-1 of a maxX-wide region and cells 0 .. x-1 of
      row y, current grid `cur` against previous grid `prev`. */
  function Scan(cur: seq<bv32>, prev: seq<bv32>, maxX: int, y: int, x: int): seq<RenRect>
    requires |cur| == CellCount && |prev| == CellCount
    requires 0 <= maxX <= GridWidth && 0 <= x <= maxX && 0 <= y <= 50 && (y < 50 || x == 0)
    decreases y, x
  {
    if x == 0 then
      (if y == 0 then [] else Scan(cur, prev, maxX, y - 1, maxX))
    else
      var rects := Scan(cur, prev, maxX, y, x - 1);
      if cur[CellIdx(x - 1, y)] != prev[CellIdx(x - 1, y)] then PushRectSpec(rects, CellRect(x - 1, y)) else rects
  }

  /** Cell (cx, cy) comes before position (x, y) in the diff loop's scan order. */
  predicate ScannedBefore(cx: int, cy: int, maxX: int, y: int, x: int)
  {
    0 <= cx < maxX && 0 <= cy && (cy < y || (cy == y && cx < x))
  }

  /** The scan yields at most one rectangle per compared cell, every
      rectangle lies in the region, and every dirty cell compared so far is
      covered. */
  lemma {:induction false} ScanProperties(cur: seq<bv32>, prev: seq<bv32>, maxX: int, y: int, x: int)
    requires |cur| == CellCount && |prev| == CellCount
    requires 0 <= maxX <= GridWidth && 0 <= x <= maxX && 0 <= y <= 50 && (y < 50 || x == 0)
    ensures |Scan(cur, prev, maxX, y, x)| <= y * maxX + x
    ensures forall k :: 0 <= k < |Scan(cur, prev, maxX, y, x)| ==>
      Within(Scan(cur, prev, maxX, y, x)[k], RenRect(0, 0, maxX, if x == 0 then y else y + 1)) &&
      NonEmpty(Scan(cur, prev, maxX, y, x)[k])
    ensures forall cx, cy :: ScannedBefore(cx, cy, maxX, y, x) && cur[CellIdx(cx, cy)] != prev[CellIdx(cx, cy)] ==>
      Covered(Scan(cur, prev, maxX, y, x), cx, cy)
    decreases y, x
  {
    var rects := Scan(cur, prev, maxX, y, x);
    if x == 0 {
      if y > 0 {
        ScanProperties(cur, prev, maxX, y - 1, maxX);
        Distrib(y - 1, 1, maxX);
        forall k | 0 <= k < |rects|
          ensures Within(rects[k], RenRect(0, 0, maxX, y)) && NonEmpty(rects[k])
        {
          assert maxX > 0;
        }
      }
    } else {
      var before := Scan(cur, prev, maxX, y, x - 1);
      ScanProperties(cur, prev, maxX, y, x - 1);
      if cur[CellIdx(x - 1, y)] != prev[CellIdx(x - 1, y)] {
        PushRectCovers(before, CellRect(x - 1, y), RenRect(0, 0, maxX, y + 1));
        assert InRect(x - 1, y, CellRect(x - 1, y));
      }
    }
  }

  /** Where no compared cell is dirty, the scan yields no rectangle. */
  lemma {:induction false} ScanClean(cur: seq<bv32>, prev: seq<bv32>, maxX: int, y: int, x: int)
    requires |cur| == CellCount && |prev| == CellCount
    requires 0 <= maxX <= GridWidth && 0 <= x <= maxX && 0 <= y <= 50 && (y < 50 || x == 0)
    requires forall cx, cy :: ScannedBefore(cx, cy, maxX, y, x) ==> cur[CellIdx(cx, cy)] == prev[CellIdx(cx, cy)]
    ensures Scan(cur, prev, maxX, y, x) == []
    decreases y, x
  {
    if x == 0 {
      if y > 0 {
        ScanClean(cur, prev, maxX, y - 1, maxX);
      }
    } else {
      assert ScannedBefore(x - 1, y, maxX, y, x);
      ScanClean(cur, prev, maxX, y, x - 1);
    }
  }

  /** The ×96 scaling of a cell rectangle, clipped to the screen: a final dirty rectangle. */
  function Finalize(r: RenRect, screen: RenRect): RenRect
  {
    IntersectRects(RenRect(r.x * CellSize, r.y * CellSize, r.width * CellSize, r.height * CellSize), screen)
  }

  function FinalRects(rects: seq<RenRect>, screen: RenRect): (res: seq<RenRect>)
    ensures |res| == |rects|
    ensures forall k :: 0 <= k < |rects| ==> res[k] == Finalize(rects[k], screen)
  {
    seq(|rects|, k requires 0 <= k < |rects| => Finalize(rects[k], screen))
  }

  /** The pixels of cell (x, y). */
  function CellPixels(x: int, y: int): RenRect
  {
    RenRect(x * CellSize, y * CellSize, CellSize, CellSize)
  }

  /** The damage of one frame: every on-screen pixel of every dirty cell of
      the region lies in a final dirty rectangle, and every final rectangle
      lies inside the screen. */
  lemma DamageCovered(cur: seq<bv32>, prev: seq<bv32>, screen: RenRect, cx: int, cy: int, px: int, py: int)
    requires |cur| == CellCount && |prev| == CellCount
    requires screen.x == 0 && screen.y == 0 && GridFits(screen.width, screen.height)
    requires InRegion(cx, cy, screen) && cur[CellIdx(cx, cy)] != prev[CellIdx(cx, cy)]
    requires InRect(px, py, CellPixels(cx, cy)) && InRect(px, py, screen)
    ensures Covered(FinalRects(Scan(cur, prev, RegionWidth(screen), RegionHeight(screen), 0), screen), px, py)
  {
    var maxX, maxY := RegionWidth(screen), RegionHeight(screen);
    ScanProperties(cur, prev, maxX, maxY, 0);
    var rects := Scan(cur, prev, maxX, maxY, 0);
    assert ScannedBefore(cx, cy, maxX, maxY, 0);
    var k :| 0 <= k < |rects| && InRect(cx, cy, rects[k]);
    var f := FinalRects(rects, screen);
    assert InRect(px, py, f[k]);
  }

  /** A non-empty rectangle of region cells, scaled and clipped, lies inside the screen. */
  lemma FinalizeWithin(r: RenRect, screen: RenRect)
    requires screen.x == 0 && screen.y == 0 && screen.width >= 0 && screen.height >= 0
    requires Within(r, RenRect(0, 0, RegionWidth(screen), RegionHeight(screen))) && NonEmpty(r)
    ensures Within(Finalize(r, screen), screen)
  {
    assert r.x * CellSize <= screen.width;
    assert r.y * CellSize <= screen.height;
  }

  /** Every final dirty rectangle lies inside the screen. */
  lemma FinalRectsWithinScreen(cur: seq<bv32>, prev: seq<bv32>, screen: RenRect)
    requires |cur| == CellCount && |prev| == CellCount
    requires screen.x == 0 && screen.y == 0 && GridFits(screen.width, screen.height)
    ensures forall k :: 0 <= k < |Scan(cur, prev, RegionWidth(screen), RegionHeight(screen), 0)| ==>
      Within(FinalRects(Scan(cur, prev, RegionWidth(screen), RegionHeight(screen), 0), screen)[k], screen)
  {
    var maxX, maxY := RegionWidth(screen), RegionHeight(screen);
    ScanProperties(cur, prev, maxX, maxY, 0);
    var rects := Scan(cur, prev, maxX, maxY, 0);
    forall k | 0 <= k < |rects|
      ensures Within(FinalRects(rects, screen)[k], screen)
    {
      FinalizeWithin(rects[k], screen);
    }
  }

  // ---------------------------------------------------------------------------
  // The replay, as the sequence of renderer calls it makes

  /** A call `end_frame` makes into the renderer. `DebugRectCall` is the
      translucent (alpha 50) rectangle of random colour drawn over a dirty
      rectangle when debugging is on. */
  datatype RenderCall =
    | SetClipCall(rect: RenRect)
    | DrawRectCall(rect: RenRect, color: RenColor)
    | DrawTextCall(font: RenFont?, text: seq<char>, x: int, y: int, color: RenColor)
    | DebugRectCall(rect: RenRect)
    | UpdateRectsCall(rects: seq<RenRect>)
    | FreeFontCall(font: RenFont?)

  /** The calls replaying one command under dirty rectangle r makes; a
      deferred free makes none. */
  function CommandCalls(c: Command, r: RenRect): (calls: seq<RenderCall>)
    ensures |calls| <= 1
    ensures forall k :: 0 <= k < |calls| ==> !calls[k].FreeFontCall? && !calls[k].UpdateRectsCall? && !calls[k].DebugRectCall?
  {
    match c.kind
    case FreeFont => []
    case SetClip => [SetClipCall(IntersectRects(c.rect, r))]
    case DrawRect => [DrawRectCall(c.rect, c.color)]
    case DrawText => [DrawTextCall(c.font, c.text, c.rect.x, c.rect.y, c.color)]
  }

  /** The calls of replaying the whole log under r, in log order. */
  function LogCalls(log: seq<Command>, r: RenRect): seq<RenderCall>
  {
    if log == [] then [] else LogCalls(log[..|log| - 1], r) + CommandCalls(log[|log| - 1], r)
  }

  /** One pass over the log for dirty rectangle r: clip to r, replay, and
      outline r when debugging. */
  function RectPass(log: seq<Command>, r: RenRect, debug: bool): seq<RenderCall>
  {
    [SetClipCall(r)] + LogCalls(log, r) + (if debug then [DebugRectCall(r)] else [])
  }

  /** All passes, one per dirty rectangle, in buffer order. */
  function PassCalls(log: seq<Command>, rects: seq<RenRect>, debug: bool): seq<RenderCall>
  {
    if rects == [] then [] else PassCalls(log, rects[..|rects| - 1], debug) + RectPass(log, rects[|rects| - 1], debug)
  }

  /** The deferred frees of the log, in log order. */
  function FreeCalls(log: seq<Command>): seq<RenderCall>
  {
    if log == [] then []
    else FreeCalls(log[..|log| - 1]) + (if log[|log| - 1].kind == FreeFont then [FreeFontCall(log[|log| - 1].font)] else [])
  }

  /** The log holds a `FREE_FONT` command. */
  predicate HasFreeCommand(log: seq<Command>)
  {
    exists i :: 0 <= i < |log| && log[i].kind == FreeFont
  }

  /** The calls of one `end_frame`, with every deferred free carried out. */
  function FrameCalls(log: seq<Command>, rects: seq<RenRect>, debug: bool): (calls: seq<RenderCall>)
    ensures |rects| == 0 ==> calls == FreeCalls(log)
  {
    PassCalls(log, rects, debug) + (if |rects| > 0 then [UpdateRectsCall(rects)] else []) + FreeCalls(log)
  }

  /** The calls of `end_frame` as written: `has_free_commands` is only set
      while replaying, so the frees run only when some rectangle is dirty. */
  function FrameCallsAsWritten(log: seq<Command>, rects: seq<RenRect>, debug: bool): (calls: seq<RenderCall>)
    ensures |rects| == 0 ==> calls == []
  {
    PassCalls(log, rects, debug) + (if |rects| > 0 then [UpdateRectsCall(rects)] else []) +
    (if |rects| > 0 && HasFreeCommand(log) then FreeCalls(log) else [])
  }

  /** Replaying a log makes no free, update or debug call, and every clip it
      sets lies inside the dirty rectangle: a pass never draws outside it. */
  lemma {:induction false} LogCallsStayInRect(log: seq<Command>, r: RenRect)
    ensures forall k :: 0 <= k < |LogCalls(log, r)| ==>
      !LogCalls(log, r)[k].FreeFontCall? && !LogCalls(log, r)[k].UpdateRectsCall? && !LogCalls(log, r)[k].DebugRectCall?
    ensures forall k, px, py ::
      (0 <= k < |LogCalls(log, r)| && LogCalls(log, r)[k].SetClipCall? && InRect(px, py, LogCalls(log, r)[k].rect)) ==>
      InRect(px, py, r)
  {
    if log != [] {
      LogCallsStayInRect(log[..|log| - 1], r);
    }
  }

  /** The passes make no free and no update call. */
  lemma {:induction false} PassCallsFreeNothing(log: seq<Command>, rects: seq<RenRect>, debug: bool)
    ensures forall k :: 0 <= k < |PassCalls(log, rects, debug)| ==>
      !PassCalls(log, rects, debug)[k].FreeFontCall? && !PassCalls(log, rects, debug)[k].UpdateRectsCall?
  {
    if rects != [] {
      PassCallsFreeNothing(log, rects[..|rects| - 1], debug);
      LogCallsStayInRect(log, rects[|rects| - 1]);
    }
  }

  /** The free pass frees exactly the fonts of the log's `FREE_FONT`
      commands, and makes no other call. */
  lemma {:induction false} FreeCallsExact(log: seq<Command>)
    ensures forall k :: 0 <= k < |FreeCalls(log)| ==> FreeCalls(log)[k].FreeFontCall?
    ensures forall f :: FreeFontCall(f) in FreeCalls(log) <==> exists i :: 0 <= i < |log| && log[i].kind == FreeFont && log[i].font == f
    ensures FreeCalls(log) == [] <==> !HasFreeCommand(log)
  {
    if log != [] {
      var init := log[..|log| - 1];
      FreeCallsExact(init);
      forall f
        ensures FreeFontCall(f) in FreeCalls(log) <==> exists i :: 0 <= i < |log| && log[i].kind == FreeFont && log[i].font == f
      {
        if exists i :: 0 <= i < |init| && init[i].kind == FreeFont && init[i].font == f {
          var i :| 0 <= i < |init| && init[i].kind == FreeFont && init[i].font == f;
          assert log[i] == init[i];
        }
        if exists i :: 0 <= i < |log| && log[i].kind == FreeFont && log[i].font == f {
          var i :| 0 <= i < |log| && log[i].kind == FreeFont && log[i].font == f;
          if i < |init| {
            assert init[i] == log[i];
          }
        }
      }
      if HasFreeCommand(init) {
        var i :| 0 <= i < |init| && init[i].kind == FreeFont;
        assert log[i] == init[i];
      }
      if HasFreeCommand(log) {
        var i :| 0 <= i < |log| && log[i].kind == FreeFont;
        if i < |init| {
          assert init[i] == log[i];
        }
      }
    }
  }

  /** In a frame, every font whose free was recorded is freed, and only those. */
  lemma FrameFreesExactly(log: seq<Command>, rects: seq<RenRect>, debug: bool)
    ensures forall f :: FreeFontCall(f) in FrameCalls(log, rects, debug) <==>
      exists i :: 0 <= i < |log| && log[i].kind == FreeFont && log[i].font == f
  {
    PassCallsFreeNothing(log, rects, debug);
    FreeCallsExact(log);
    var head := PassCalls(log, rects, debug) + (if |rects| > 0 then [UpdateRectsCall(rects)] else []);
    assert FrameCalls(log, rects, debug) == head + FreeCalls(log);
    forall f
      ensures FreeFontCall(f) in head + FreeCalls(log) <==> FreeFontCall(f) in FreeCalls(log)
    {
      FreeAfterNoFree(head, FreeCalls(log), f);
    }
  }

  /** Behind calls that free nothing, a free occurs exactly when it occurs in the tail. */
  lemma FreeAfterNoFree(head: seq<RenderCall>, tail: seq<RenderCall>, f: RenFont?)
    requires forall k :: 0 <= k < |head| ==> !head[k].FreeFontCall?
    ensures FreeFontCall(f) in head + tail <==> FreeFontCall(f) in tail
  {
    if FreeFontCall(f) in head + tail {
      var k :| 0 <= k < |head + tail| && (head + tail)[k] == FreeFontCall(f);
      assert tail[k - |head|] == FreeFontCall(f);
    }
    if FreeFontCall(f) in tail {
      var k :| 0 <= k < |tail| && tail[k] == FreeFontCall(f);
      assert (head + tail)[|head| + k] == FreeFontCall(f);
    }
  }

  /** The frees come last: after the first free of a frame every call is a free. */
  lemma FrameFreesLast(log: seq<Command>, rects: seq<RenRect>, debug: bool)
    ensures forall j, k :: 0 <= j < k < |FrameCalls(log, rects, debug)| && FrameCalls(log, rects, debug)[j].FreeFontCall? ==>
      FrameCalls(log, rects, debug)[k].FreeFontCall?
  {
    PassCallsFreeNothing(log, rects, debug);
    FreeCallsExact(log);
    var head := PassCalls(log, rects, debug) + (if |rects| > 0 then [UpdateRectsCall(rects)] else []);
    assert FrameCalls(log, rects, debug) == head + FreeCalls(log);
    FreesAfterNoFree(head, FreeCalls(log));
  }

  /** Calls that free nothing followed by frees only: after a free, every call is a free. */
  lemma FreesAfterNoFree(head: seq<RenderCall>, tail: seq<RenderCall>)
    requires forall k :: 0 <= k < |head| ==> !head[k].FreeFontCall?
    requires forall k :: 0 <= k < |tail| ==> tail[k].FreeFontCall?
    ensures forall j, k :: 0 <= j < k < |head + tail| && (head + tail)[j].FreeFontCall? ==> (head + tail)[k].FreeFontCall?
  {
    forall j, k | 0 <= j < k < |head + tail| && (head + tail)[j].FreeFontCall?
      ensures (head + tail)[k].FreeFontCall?
    {
      assert j >= |head|;
      assert (head + tail)[k] == tail[k - |head|];
    }
  }

  /** The screen is updated once, with the dirty rectangles, right after the
      last pass, when some rectangle is dirty, and not at all otherwise. */
  lemma FrameUpdatesOnce(log: seq<Command>, rects: seq<RenRect>, debug: bool)
    ensures (exists k :: 0 <= k < |FrameCalls(log, rects, debug)| && FrameCalls(log, rects, debug)[k].UpdateRectsCall?) <==> |rects| > 0
    ensures forall k :: 0 <= k < |FrameCalls(log, rects, debug)| && FrameCalls(log, rects, debug)[k].UpdateRectsCall? ==>
      k == |PassCalls(log, rects, debug)| && FrameCalls(log, rects, debug)[k] == UpdateRectsCall(rects)
  {
    PassCallsFreeNothing(log, rects, debug);
    FreeCallsExact(log);
    var passes := PassCalls(log, rects, debug);
    var update := if |rects| > 0 then [UpdateRectsCall(rects)] else [];
    var calls := FrameCalls(log, rects, debug);
    assert calls == passes + update + FreeCalls(log);
    forall k | 0 <= k < |calls| && calls[k].UpdateRectsCall?
      ensures k == |passes| && calls[k] == UpdateRectsCall(rects)
    {
    }
    if |rects| > 0 {
      assert calls[|passes|].UpdateRectsCall?;
    }
  }

  /** The leak as written: in a frame with no dirty rectangle a recorded
      free is dropped, although the corrected frame carries it out. */
  lemma QuietFrameLeaksFont(font: RenFont, debug: bool)
    ensures var log := [ZeroedCommand(FreeFont, CommandSize).(font := font)];
      FreeFontCall(font) !in FrameCallsAsWritten(log, [], debug) &&
      FreeFontCall(font) in FrameCalls(log, [], debug)
  {
    var log := [ZeroedCommand(FreeFont, CommandSize).(font := font)];
    assert log[..0] == [];
    assert FreeCalls(log) == [FreeFontCall(font)];
  }

  /** Whenever some rectangle is dirty, the corrected frame makes exactly
      the calls of the frame as written. */
  lemma FrameCallsAgreeWhenDamaged(log: seq<Command>, rects: seq<RenRect>, debug: bool)
    requires |rects| > 0
    ensures FrameCalls(log, rects, debug) == FrameCallsAsWritten(log, rects, debug)
  {
    FreeCallsExact(log);
  }

  // ---------------------------------------------------------------------------
  // Cell updates

  /** `hash(&cells[idx], &h, 4)`: folds the four bytes of a command hash into a cell. */
  function CellMix(v: bv32, h: bv32): bv32
  {
    Fnv(v, Le32(h as int))
  }

  /** One step of the hash pass, cell by cell. */
  lemma CellAfterStep(v: bv32, x: int, y: int, log: seq<Command>, i: int, screen: RenRect)
    requires 0 <= i < |log|
    ensures ClipAfter(log[..i + 1], screen) == ClipFor(log[i], ClipAfter(log[..i], screen))
    ensures var r := DamageOf(log[i], ClipAfter(log[..i], screen));
      CellAfter(v, x, y, log[..i + 1], screen) ==
        if r.width != 0 && r.height != 0 && TouchesCell(r, x, y) then CellMix(CellAfter(v, x, y, log[..i], screen), CommandHash(log[i]))
        else CellAfter(v, x, y, log[..i], screen)
  {
    assert log[..i + 1][..i] == log[..i];
  }

  /** The hash pass's invariant survives one command: cells that held the
      values for log[..i] hold those for log[..i + 1] once command i has been
      mixed in. */
  lemma HashPassStep(before: seq<bv32>, after: seq<bv32>, orig: seq<bv32>, log: seq<Command>, i: int, screen: RenRect)
    requires |before| == CellCount && |after| == CellCount && |orig| == CellCount && 0 <= i < |log|
    requires forall x, y :: InGridCell(x, y) ==>
      before[CellIdx(x, y)] == CellAfter(orig[CellIdx(x, y)], x, y, log[..i], screen)
    requires forall x, y :: InGridCell(x, y) ==>
      after[CellIdx(x, y)] == (var r := DamageOf(log[i], ClipAfter(log[..i], screen));
        if r.width != 0 && r.height != 0 && TouchesCell(r, x, y) then CellMix(before[CellIdx(x, y)], CommandHash(log[i]))
        else before[CellIdx(x, y)])
    ensures forall x, y :: InGridCell(x, y) ==>
      after[CellIdx(x, y)] == CellAfter(orig[CellIdx(x, y)], x, y, log[..i + 1], screen)
    ensures ClipAfter(log[..i + 1], screen) == ClipFor(log[i], ClipAfter(log[..i], screen))
  {
    forall x, y | InGridCell(x, y)
      ensures after[CellIdx(x, y)] == CellAfter(orig[CellIdx(x, y)], x, y, log[..i + 1], screen)
    {
      CellAfterStep(orig[CellIdx(x, y)], x, y, log, i, screen);
    }
    CellAfterStep(Seed, 0, 0, log, i, screen);
  }

  /** The clip the hash pass tracks is always a valid clip. */
  lemma {:induction false} ClipAfterOk(log: seq<Command>, i: int, screen: RenRect)
    requires 0 <= i <= |log| && ClipOk(screen)
    requires forall j :: 0 <= j < |log| && log[j].kind == SetClip ==> ClipOk(log[j].rect)
    ensures ClipOk(ClipAfter(log[..i], screen))
  {
    if i > 0 {
      ClipAfterOk(log, i - 1, screen);
      assert log[..i][..i - 1] == log[..i - 1];
    }
  }

  /** The log up to command i + 1 holds a free iff the log up to i does or command i is one. */
  lemma HasFreeStep(log: seq<Command>, i: int)
    requires 0 <= i < |log|
    ensures HasFreeCommand(log[..i + 1]) <==> HasFreeCommand(log[..i]) || log[i].kind == FreeFont
  {
    if HasFreeCommand(log[..i + 1]) {
      var j :| 0 <= j < i + 1 && log[..i + 1][j].kind == FreeFont;
      if j < i {
        assert log[..i][j] == log[j];
      }
    }
    if HasFreeCommand(log[..i]) {
      var j :| 0 <= j < i && log[..i][j].kind == FreeFont;
      assert log[..i + 1][j] == log[j];
    }
    if log[i].kind == FreeFont {
      assert log[..i + 1][i] == log[i];
    }
  }

  /** y * maxX + x stays below the size of the region for a cell inside it. */
  lemma RegionIndexBound(x: int, y: int, maxX: int, maxY: int)
    requires 0 <= x < maxX && 0 <= y < maxY
    ensures y * maxX + x < maxX * maxY
  {
    MulLe(y + 1, maxY, maxX);
    Distrib(y, 1, maxX);
    MulComm(maxY, maxX);
  }

  /** Hashing the previous frame's log again from reset cells reproduces
      the previous grid on the region, so the scan finds nothing dirty. */
  lemma NothingRedrawn(cur0: seq<bv32>, prev0: seq<bv32>, hashed: seq<bv32>, log: seq<Command>, screen: RenRect)
    requires |cur0| == CellCount && |prev0| == CellCount && |hashed| == CellCount
    requires GridFits(screen.width, screen.height)
    requires forall x, y :: InRegion(x, y, screen) ==>
      cur0[CellIdx(x, y)] == Seed && prev0[CellIdx(x, y)] == CellAfter(Seed, x, y, log, screen)
    requires forall x, y :: InGridCell(x, y) ==> hashed[CellIdx(x, y)] == CellAfter(cur0[CellIdx(x, y)], x, y, log, screen)
    ensures Scan(hashed, prev0, RegionWidth(screen), RegionHeight(screen), 0) == []
  {
    forall cx, cy | ScannedBefore(cx, cy, RegionWidth(screen), RegionHeight(screen), 0)
      ensures hashed[CellIdx(cx, cy)] == prev0[CellIdx(cx, cy)]
    {
      assert InRegion(cx, cy, screen);
      RegionInGrid(screen, cx, cy);
    }
    ScanClean(hashed, prev0, RegionWidth(screen), RegionHeight(screen), 0);
  }

  /** Under GridFits, the region lies in the grid. */
  lemma RegionInGrid(screen: RenRect, x: int, y: int)
    requires GridFits(screen.width, screen.height) && InRegion(x, y, screen)
    ensures InGridCell(x, y)
  {
  }

  // ---------------------------------------------------------------------------
  // The cache

  /** The module-level state of src/rencache.rs: the two grids (swapped every
      frame), the dirty-rectangle buffer, the command log, the screen and the
      debug flag.  `commands` is the log `command_buf[..command_buf_idx]`
      holds, read as records; `prevLog` is the log of the previous frame. */
  class Cache {
    /** `cells`: the grid the current frame is hashed into. */
    var cells: array<bv32>
    /** `cells_prev`: the grid of the previous frame. */
    var cellsPrev: array<bv32>
    /** `rect_buf`. */
    const rectBuf: array<RenRect>
    var commands: seq<Command>
    /** `command_buf_idx`: bytes in use. */
    var commandBufIdx: int
    /** `screen_rect`. */
    var screenRect: RenRect
    /** `show_debug`. */
    var showDebug: bool
    ghost var prevLog: seq<Command>

    ghost predicate Valid()
      reads this
    {
      cells.Length == CellCount && cellsPrev.Length == CellCount && cells != cellsPrev &&
      rectBuf.Length == RectCapacity &&
      0 <= commandBufIdx == LogSize(commands) <= CommandCapacity &&
      (forall i :: 0 <= i < |commands| ==> WellFormed(commands[i]) && (commands[i].kind == SetClip ==> ClipOk(commands[i].rect))) &&
      screenRect.x == 0 && screenRect.y == 0 && GridFits(screenRect.width, screenRect.height)
    }

    /** The steady state between frames: every region cell of the current
        grid is reset, and the previous grid holds what the hash pass made
        of `prevLog`. */
    ghost predicate Settled()
      reads this, cells, cellsPrev
    {
      Valid() &&
      forall x, y :: InRegion(x, y, screenRect) ==>
        cells[CellIdx(x, y)] == Seed && cellsPrev[CellIdx(x, y)] == CellAfter(Seed, x, y, prevLog, screenRect)
    }

    /** Every region cell of the current grid is at the seed: the state a
        frame must start from for its hashes to be comparable with the next
        frame's. */
    ghost predicate Primed()
      reads this, cells
    {
      Valid() && forall x, y :: InRegion(x, y, screenRect) ==> cells[CellIdx(x, y)] == Seed
    }

    /** Only the command log changed. */
    twostate predicate LogOnlyChanged()
      reads this
    {
      cells == old(cells) && cellsPrev == old(cellsPrev) && screenRect == old(screenRect) &&
      showDebug == old(showDebug) && prevLog == old(prevLog)
    }

    /** The initial state: zeroed grids and buffers, an empty log, a 0 x 0 screen. */
    constructor ()
      ensures Valid() && commands == [] && screenRect == RenRect(0, 0, 0, 0) && !showDebug
      ensures forall i :: 0 <= i < CellCount ==> cells[i] == 0 && cellsPrev[i] == 0
      ensures fresh(cells) && fresh(cellsPrev) && fresh(rectBuf)
    {
      cells := new bv32[CellCount](_ => 0);
      cellsPrev := new bv32[CellCount](_ => 0);
      rectBuf := new RenRect[RectCapacity](_ => RenRect(0, 0, 0, 0));
      commands := [];
      commandBufIdx := 0;
      screenRect := RenRect(0, 0, 0, 0);
      showDebug := false;
      prevLog := [];
    }

    /** `push_command` followed by the caller's writes to the new record:
        the command is appended if the buffer has room for it, and otherwise
        dropped with nothing changed. */
    method PushCommand(c: Command) returns (ok: bool)
      requires Valid() && WellFormed(c) && (c.kind == SetClip ==> ClipOk(c.rect))
      modifies this
      ensures Valid() && LogOnlyChanged()
      ensures ok <==> old(commandBufIdx) + c.size <= CommandCapacity
      ensures commands == if ok then old(commands) + [c] else old(commands)
    {
      var n := commandBufIdx + c.size;
      if n > CommandCapacity {
        return false;
      }
      assert (commands + [c])[..|commands|] == commands;
      assert c.size >= CommandSize by { EncodeLength(c.text); }
      commandBufIdx := n;
      commands := commands + [c];
      return true;
    }

    /** `rencache_show_debug`. */
    method ShowDebug(enable: bool)
      requires Valid()
      modifies this
      ensures Valid()
      ensures showDebug == enable
      ensures cells == old(cells) && cellsPrev == old(cellsPrev) && commands == old(commands) &&
        commandBufIdx == old(commandBufIdx) && screenRect == old(screenRect) && prevLog == old(prevLog)
    {
      showDebug := enable;
    }

    /** `rencache_free_font`: the free is deferred to the end of the frame. */
    method RecordFreeFont(font: RenFont?)
      requires Valid()
      modifies this
      ensures Valid() && LogOnlyChanged()
      ensures commands == if old(commandBufIdx) + CommandSize <= CommandCapacity
        then old(commands) + [ZeroedCommand(FreeFont, CommandSize).(font := font)] else old(commands)
    {
      var _ := PushCommand(ZeroedCommand(FreeFont, CommandSize).(font := font));
    }

    /** `rencache_set_clip_rect`: the clip is recorded clipped to the screen. */
    method RecordSetClip(rect: RenRect)
      requires Valid()
      modifies this
      ensures Valid() && LogOnlyChanged()
      ensures commands == if old(commandBufIdx) + CommandSize <= CommandCapacity
        then old(commands) + [ZeroedCommand(SetClip, CommandSize).(rect := IntersectRects(rect, screenRect))] else old(commands)
    {
      var r := IntersectRects(rect, screenRect);
      var _ := PushCommand(ZeroedCommand(SetClip, CommandSize).(rect := r));
    }

    /** `rencache_draw_rect`: a rectangle that does not touch the screen is
        not recorded. */
    method RecordDrawRect(rect: RenRect, color: RenColor)
      requires Valid()
      modifies this
      ensures Valid() && LogOnlyChanged()
      ensures commands == if RectsOverlap(screenRect, rect) && old(commandBufIdx) + CommandSize <= CommandCapacity
        then old(commands) + [ZeroedCommand(DrawRect, CommandSize).(rect := rect, color := color)] else old(commands)
    {
      if !RectsOverlap(screenRect, rect) {
        return;
      }
      var _ := PushCommand(ZeroedCommand(DrawRect, CommandSize).(rect := rect, color := color));
    }

    /** `rencache_draw_text`: the text's extent is measured with the font
        (loading the glyph pages it needs), the text is recorded with its
        NUL if the extent touches the screen, and the x after the text is
        returned in every case. */
    method RecordDrawText(font: RenFont, text: seq<char>, x: int, y: int, color: RenColor) returns (xEnd: int)
      requires Valid() && font.Valid() && '\0' !in text
      modifies this, font
      ensures Valid() && LogOnlyChanged()
      ensures font.Valid() && Extends(old(font.sets), font.sets) && Loaded(font.sets, text)
      ensures xEnd == x + TextWidth(font.sets, text)
      ensures var rect := RenRect(x, y, TextWidth(font.sets, text), font.height);
        commands == if RectsOverlap(screenRect, rect) && old(commandBufIdx) + RecordSize(DrawText, text) <= CommandCapacity
          then old(commands) + [Command(DrawText, RecordSize(DrawText, text), rect, color, font, text)] else old(commands)
    {
      var width := font.GetFontWidth(text);
      var rect := RenRect(x, y, width, font.height);
      if RectsOverlap(screenRect, rect) {
        var size := CommandSize + ByteLength(text) + 1;
        var _ := PushCommand(ZeroedCommand(DrawText, size).(text := text, color := color, font := font, rect := rect));
      }
      xEnd := x + rect.width;
    }

    /** `rencache_invalidate`: every previous cell is set to 0xFFFFFFFF. */
    method Invalidate()
      requires Valid()
      modifies cellsPrev
      ensures Valid()
      ensures forall i :: 0 <= i < CellCount ==> cellsPrev[i] == 0xFFFF_FFFF
    {
      var i := 0;
      while i < CellCount
        invariant 0 <= i <= CellCount
        invariant forall j :: 0 <= j < i ==> cellsPrev[j] == 0xFFFF_FFFF
      {
        cellsPrev[i] := 0xFFFF_FFFF;
        i := i + 1;
      }
    }

    /** `rencache_begin_frame` as written, given the size `ren_get_size`
        reports: a new size invalidates the previous grid, an unchanged one
        changes nothing.  The current grid is left as it is. */
    method BeginFrameAsWritten(w: int, h: int)
      requires Valid() && GridFits(w, h)
      modifies this, cellsPrev
      ensures Valid() && screenRect == RenRect(0, 0, w, h)
      ensures cells == old(cells) && cellsPrev == old(cellsPrev) && commands == old(commands) &&
        commandBufIdx == old(commandBufIdx) && showDebug == old(showDebug) && prevLog == old(prevLog)
      ensures old(screenRect.width) != w || old(screenRect.height) != h ==>
        forall i :: 0 <= i < CellCount ==> cellsPrev[i] == 0xFFFF_FFFF
      ensures old(screenRect.width) == w && old(screenRect.height) == h ==>
        unchanged(cellsPrev) && Settled() == old(Settled()) && Primed() == old(Primed())
    {
      if screenRect.width != w || h != screenRect.height {
        screenRect := screenRect.(width := w, height := h);
        Invalidate();
      }
    }

    /** Sets every cell of the current grid to the seed. */
    method ResetCells()
      requires Valid()
      modifies cells
      ensures forall i :: 0 <= i < CellCount ==> cells[i] == Seed
    {
      var i := 0;
      while i < CellCount
        invariant 0 <= i <= CellCount
        invariant forall j :: 0 <= j < i ==> cells[j] == Seed
      {
        cells[i] := Seed;
        i := i + 1;
      }
    }

    /** `rencache_begin_frame`, corrected: on a new size the current grid is
        also reset to the seed, so the first frame at that size is hashed
        from the same start as every later one and a repeated frame redraws
        nothing. */
    method BeginFrame(w: int, h: int)
      requires Valid() && GridFits(w, h)
      modifies this, cells, cellsPrev
      ensures Valid() && screenRect == RenRect(0, 0, w, h)
      ensures cells == old(cells) && cellsPrev == old(cellsPrev) && commands == old(commands) &&
        commandBufIdx == old(commandBufIdx) && showDebug == old(showDebug) && prevLog == old(prevLog)
      ensures old(screenRect.width) != w || old(screenRect.height) != h ==>
        (forall i :: 0 <= i < CellCount ==> cellsPrev[i] == 0xFFFF_FFFF && cells[i] == Seed) && Primed()
      ensures old(screenRect.width) == w && old(screenRect.height) == h ==>
        unchanged(cells) && unchanged(cellsPrev) && Settled() == old(Settled()) && Primed() == old(Primed())
    {
      if screenRect.width != w || h != screenRect.height {
        screenRect := screenRect.(width := w, height := h);
        Invalidate();
        ResetCells();
        forall x, y | InRegion(x, y, screenRect)
          ensures cells[CellIdx(x, y)] == Seed
        {
          RegionInGrid(screenRect, x, y);
        }
      }
    }

    /** `hash(&cells[idx], &h, 4)` on cells x1 .. x2 of row y. */
    method HashRow(y: int, x1: int, x2: int, h: bv32)
      requires cells.Length == CellCount && 0 <= y < 50 && 0 <= x1 && x2 < GridWidth
      modifies cells
      ensures forall px, py :: InGridCell(px, py) ==>
        cells[CellIdx(px, py)] == (if py == y && x1 <= px <= x2 then CellMix(old(cells[CellIdx(px, py)]), h) else old(cells[CellIdx(px, py)]))
    {
      var x := x1;
      while x <= x2
        invariant x1 <= x <= if x1 <= x2 then x2 + 1 else x1
        invariant forall px, py :: InGridCell(px, py) ==>
          cells[CellIdx(px, py)] == (if py == y && x1 <= px < x then CellMix(old(cells[CellIdx(px, py)]), h) else old(cells[CellIdx(px, py)]))
      {
        var idx := CellIdx(x, y);
        forall px, py | InGridCell(px, py)
          ensures CellIdx(px, py) == idx ==> px == x && py == y
        {
          CellIdxInjective(px, py, x, y);
        }
        var v := Hash(cells[idx], Le32(h as int));
        cells[idx] := v;
        x := x + 1;
      }
    }

    /** `update_overlapping_cells(r, h)`: mixes h into every cell r touches. */
    method UpdateOverlappingCells(r: RenRect, h: bv32)
      requires cells.Length == CellCount && r.width >= 0 && r.height >= 0 && Within(r, GridBounds)
      modifies cells
      ensures forall x, y :: InGridCell(x, y) ==>
        cells[CellIdx(x, y)] == (if TouchesCell(r, x, y) then CellMix(old(cells[CellIdx(x, y)]), h) else old(cells[CellIdx(x, y)]))
    {
      var x1 := TruncDiv(r.x, CellSize);
      var y1 := TruncDiv(r.y, CellSize);
      var x2 := TruncDiv(r.x + r.width, CellSize);
      var y2 := TruncDiv(r.y + r.height, CellSize);
      var y := y1;
      while y <= y2
        invariant y1 <= y <= y2 + 1
        invariant forall px, py :: InGridCell(px, py) ==>
          cells[CellIdx(px, py)] == (if TouchesCell(r, px, py) && py < y then CellMix(old(cells[CellIdx(px, py)]), h) else old(cells[CellIdx(px, py)]))
      {
        HashRow(y, x1, x2, h);
        y := y + 1;
      }
    }

    /** One iteration of the first loop of `rencache_end_frame`: the damage
        of c under clip cr, when not empty, gets c's hash mixed into the cells
        it touches. */
    method HashCommand(c: Command, cr: RenRect)
      requires cells.Length == CellCount && ClipOk(cr) && (c.kind == SetClip ==> ClipOk(c.rect))
      modifies cells
      ensures forall x, y :: InGridCell(x, y) ==>
        cells[CellIdx(x, y)] == (var r := DamageOf(c, cr);
          if r.width != 0 && r.height != 0 && TouchesCell(r, x, y) then CellMix(old(cells[CellIdx(x, y)]), CommandHash(c))
          else old(cells[CellIdx(x, y)]))
    {
      var clip := if c.kind == SetClip then c.rect else cr;
      var r := IntersectRects(c.rect, clip);
      if r.width == 0 || r.height == 0 {
        return;
      }
      DamageInGrid(c, cr, 0, 0);
      var h := Hash(Seed, Serialize(c));
      UpdateOverlappingCells(r, h);
    }

    /** The first loop of `rencache_end_frame`: walks the log, tracking the
        clip, and mixes the hash of every command with non-empty damage into
        the cells that damage touches.  It also reports whether the log holds
        a deferred free. */
    method HashPass() returns (hasFree: bool)
      requires Valid()
      modifies cells
      ensures forall x, y :: InGridCell(x, y) ==>
        cells[CellIdx(x, y)] == CellAfter(old(cells[CellIdx(x, y)]), x, y, commands, screenRect)
      ensures hasFree <==> HasFreeCommand(commands)
    {
      ghost var orig := cells[..];
      var cr := screenRect;
      var i, pos := 0, 0;
      hasFree := false;
      while pos != commandBufIdx
        invariant 0 <= i <= |commands| && pos == LogSize(commands[..i])
        invariant cr == ClipAfter(commands[..i], screenRect)
        invariant hasFree <==> HasFreeCommand(commands[..i])
        invariant forall x, y :: InGridCell(x, y) ==>
          cells[CellIdx(x, y)] == CellAfter(orig[CellIdx(x, y)], x, y, commands[..i], screenRect)
        decreases |commands| - i
      {
        WalkEndsAtCursor(commands, i);
        var cmd := commands[i];
        cr := HashNext(i, cr, orig);
        HasFreeStep(commands, i);
        if cmd.kind == FreeFont {
          hasFree := true;
        }
        assert commands[..i + 1][..i] == commands[..i];
        pos := pos + cmd.size;
        i := i + 1;
      }
      WalkEndsAtCursor(commands, i);
      assert commands[..i] == commands;
    }

    /** One iteration of the hash loop: command i is hashed into the cells
        under the tracked clip cr, and the clip it leaves is returned. */
    method HashNext(i: int, cr: RenRect, ghost orig: seq<bv32>) returns (next: RenRect)
      requires Valid() && 0 <= i < |commands| && |orig| == CellCount
      requires cr == ClipAfter(commands[..i], screenRect)
      requires forall x, y :: InGridCell(x, y) ==>
        cells[CellIdx(x, y)] == CellAfter(orig[CellIdx(x, y)], x, y, commands[..i], screenRect)
      modifies cells
      ensures next == ClipAfter(commands[..i + 1], screenRect)
      ensures forall x, y :: InGridCell(x, y) ==>
        cells[CellIdx(x, y)] == CellAfter(orig[CellIdx(x, y)], x, y, commands[..i + 1], screenRect)
    {
      var cmd := commands[i];
      ghost var before := cells[..];
      ClipAfterOk(commands, i, screenRect);
      HashCommand(cmd, cr);
      HashPassStep(before, cells[..], orig, commands, i, screenRect);
      next := if cmd.kind == SetClip then cmd.rect else cr;
    }

    /** `push_rect(r, &count)`: merges r into the last buffered rectangle it
        overlaps, searching from the end, or appends it. */
    method PushRect(r: RenRect, count: int) returns (newCount: int)
      requires rectBuf.Length == RectCapacity && 0 <= count < RectCapacity
      modifies rectBuf
      ensures newCount == |PushRectSpec(old(rectBuf[..count]), r)|
      ensures rectBuf[..newCount] == PushRectSpec(old(rectBuf[..count]), r)
    {
      ghost var rects := rectBuf[..count];
      var i := count - 1;
      while i >= 0
        invariant -1 <= i < count
        invariant forall j :: i < j < count ==> !RectsOverlap(rectBuf[j], r)
        invariant rectBuf[..count] == rects
      {
        if RectsOverlap(rectBuf[i], r) {
          assert LastOverlap(rects, r, count) == i;
          rectBuf[i] := MergeRects(rectBuf[i], r);
          return count;
        }
        i := i - 1;
      }
      assert LastOverlap(rects, r, count) == -1;
      rectBuf[count] := r;
      assert rectBuf[..count + 1] == rects + [r];
      return count + 1;
    }

    /** One iteration of the second loop of `rencache_end_frame`: cell
        (x, y) is compared with its previous value, pushed as a 1 x 1
        rectangle when they differ, and its previous value is reset. */
    method DiffCell(x: int, y: int, count0: int, ghost prev: seq<bv32>) returns (count: int)
      requires Valid() && InRegion(x, y, screenRect) && |prev| == CellCount
      requires 0 <= count0 <= RectCapacity && rectBuf[..count0] == Scan(cells[..], prev, RegionWidth(screenRect), y, x)
      requires cellsPrev[CellIdx(x, y)] == prev[CellIdx(x, y)]
      modifies rectBuf, cellsPrev
      ensures 0 <= count <= RectCapacity && rectBuf[..count] == Scan(cells[..], prev, RegionWidth(screenRect), y, x + 1)
      ensures forall i :: 0 <= i < CellCount ==> cellsPrev[i] == if i == CellIdx(x, y) then Seed else old(cellsPrev[i])
    {
      var maxX, maxY := RegionWidth(screenRect), RegionHeight(screenRect);
      var idx := CellIdx(x, y);
      count := count0;
      if cells[idx] != cellsPrev[idx] {
        ScanProperties(cells[..], prev, maxX, y, x);
        RegionIndexBound(x, y, maxX, maxY);
        count := PushRect(CellRect(x, y), count);
      }
      cellsPrev[idx] := Seed;
    }

    /** One row of the second loop of `rencache_end_frame`. */
    method DiffRow(y: int, count0: int, ghost prev: seq<bv32>) returns (count: int)
      requires Valid() && 0 <= y < RegionHeight(screenRect) && |prev| == CellCount
      requires 0 <= count0 <= RectCapacity && rectBuf[..count0] == Scan(cells[..], prev, RegionWidth(screenRect), y, 0)
      requires forall x :: 0 <= x < RegionWidth(screenRect) ==> cellsPrev[CellIdx(x, y)] == prev[CellIdx(x, y)]
      modifies rectBuf, cellsPrev
      ensures 0 <= count <= RectCapacity && rectBuf[..count] == Scan(cells[..], prev, RegionWidth(screenRect), y, RegionWidth(screenRect))
      ensures forall px, py :: InGridCell(px, py) ==>
        cellsPrev[CellIdx(px, py)] == (if py == y && px < RegionWidth(screenRect) then Seed else old(cellsPrev[CellIdx(px, py)]))
    {
      var maxX := RegionWidth(screenRect);
      count := count0;
      var x := 0;
      while x < maxX
        invariant 0 <= x <= maxX && 0 <= count <= RectCapacity
        invariant rectBuf[..count] == Scan(cells[..], prev, maxX, y, x)
        invariant forall px :: x <= px < maxX ==> cellsPrev[CellIdx(px, y)] == prev[CellIdx(px, y)]
        invariant forall px, py :: InGridCell(px, py) ==>
          cellsPrev[CellIdx(px, py)] == (if py == y && px < x then Seed else old(cellsPrev[CellIdx(px, py)]))
      {
        forall px, py | InGridCell(px, py)
          ensures CellIdx(px, py) == CellIdx(x, y) ==> px == x && py == y
        {
          CellIdxInjective(px, py, x, y);
        }
        count := DiffCell(x, y, count, prev);
        x := x + 1;
      }
    }

    /** The second loop of `rencache_end_frame`: the region is scanned row by
        row; the dirty rectangles are left in `rect_buf` and the previous
        grid's region is reset. */
    method DiffPass() returns (count: int)
      requires Valid()
      modifies rectBuf, cellsPrev
      ensures 0 <= count <= RectCapacity
      ensures rectBuf[..count] == Scan(cells[..], old(cellsPrev[..]), RegionWidth(screenRect), RegionHeight(screenRect), 0)
      ensures forall x, y :: InGridCell(x, y) ==>
        cellsPrev[CellIdx(x, y)] == (if InRegion(x, y, screenRect) then Seed else old(cellsPrev[CellIdx(x, y)]))
    {
      ghost var prev := cellsPrev[..];
      var maxX := screenRect.width / CellSize + 1;
      var maxY := screenRect.height / CellSize + 1;
      count := 0;
      var y := 0;
      while y < maxY
        invariant 0 <= y <= maxY && 0 <= count <= RectCapacity
        invariant rectBuf[..count] == Scan(cells[..], prev, maxX, y, 0)
        invariant forall px, py :: InGridCell(px, py) ==>
          cellsPrev[CellIdx(px, py)] == (if py < y && px < maxX then Seed else prev[CellIdx(px, py)])
      {
        forall x | 0 <= x < maxX
          ensures cellsPrev[CellIdx(x, y)] == prev[CellIdx(x, y)]
        {
          assert InGridCell(x, y);
        }
        count := DiffRow(y, count, prev);
        y := y + 1;
      }
      ScanProperties(cells[..], prev, maxX, maxY, 0);
      MulComm(maxY, maxX);
    }

    /** The third loop of `rencache_end_frame`: cell rectangles become pixel
        rectangles clipped to the screen. */
    method ScaleRects(count: int)
      requires rectBuf.Length == RectCapacity && 0 <= count <= RectCapacity
      modifies rectBuf
      ensures rectBuf[..count] == FinalRects(old(rectBuf[..count]), screenRect)
    {
      ghost var rects := rectBuf[..count];
      var i := 0;
      while i < count
        invariant 0 <= i <= count
        invariant forall k :: 0 <= k < i ==> rectBuf[k] == Finalize(rects[k], screenRect)
        invariant forall k :: i <= k < count ==> rectBuf[k] == rects[k]
      {
        var r := rectBuf[i];
        r := RenRect(r.x * CellSize, r.y * CellSize, r.width * CellSize, r.height * CellSize);
        rectBuf[i] := IntersectRects(r, screenRect);
        i := i + 1;
      }
    }

    /** One replay of the log under dirty rectangle r (the inner loop of the
        fourth loop of `rencache_end_frame`). */
    method ReplayLog(r: RenRect) returns (calls: seq<RenderCall>)
      requires Valid()
      ensures calls == LogCalls(commands, r)
    {
      calls := [];
      var i, pos := 0, 0;
      while pos != commandBufIdx
        invariant 0 <= i <= |commands| && pos == LogSize(commands[..i])
        invariant calls == LogCalls(commands[..i], r)
        decreases |commands| - i
      {
        WalkEndsAtCursor(commands, i);
        var cmd := commands[i];
        match cmd.kind {
          case FreeFont =>
          case SetClip => calls := calls + [SetClipCall(IntersectRects(cmd.rect, r))];
          case DrawRect => calls := calls + [DrawRectCall(cmd.rect, cmd.color)];
          case DrawText => calls := calls + [DrawTextCall(cmd.font, cmd.text, cmd.rect.x, cmd.rect.y, cmd.color)];
        }
        assert commands[..i + 1][..i] == commands[..i];
        pos := pos + cmd.size;
        i := i + 1;
      }
      WalkEndsAtCursor(commands, i);
      assert commands[..i] == commands;
    }

    /** The fourth loop of `rencache_end_frame`: for each dirty rectangle,
        clip to it, replay the log, and outline it when debugging. */
    method Replay(count: int) returns (calls: seq<RenderCall>)
      requires Valid() && 0 <= count <= RectCapacity
      ensures calls == PassCalls(commands, rectBuf[..count], showDebug)
    {
      calls := [];
      var i := 0;
      while i < count
        invariant 0 <= i <= count
        invariant calls == PassCalls(commands, rectBuf[..i], showDebug)
      {
        var r := rectBuf[i];
        var logCalls := ReplayLog(r);
        var outline := if showDebug then [DebugRectCall(r)] else [];
        assert rectBuf[..i + 1][..i] == rectBuf[..i] && rectBuf[..i + 1][i] == r;
        calls := calls + ([SetClipCall(r)] + logCalls + outline);
        i := i + 1;
      }
    }

    /** The last loop of `rencache_end_frame`: the deferred frees, in log order. */
    method FreePass() returns (calls: seq<RenderCall>)
      requires Valid()
      ensures calls == FreeCalls(commands)
    {
      calls := [];
      var i, pos := 0, 0;
      while pos != commandBufIdx
        invariant 0 <= i <= |commands| && pos == LogSize(commands[..i])
        invariant calls == FreeCalls(commands[..i])
        decreases |commands| - i
      {
        WalkEndsAtCursor(commands, i);
        var cmd := commands[i];
        if cmd.kind == FreeFont {
          calls := calls + [FreeFontCall(cmd.font)];
        }
        assert commands[..i + 1][..i] == commands[..i];
        pos := pos + cmd.size;
        i := i + 1;
      }
      WalkEndsAtCursor(commands, i);
      assert commands[..i] == commands;
    }

    /** The first three loops of `rencache_end_frame`: the log is hashed
        into the grid, the region is diffed against the previous grid (whose
        region is reset), and the dirty rectangles are scaled to pixels. */
    method Damage() returns (hasFree: bool, count: int)
      requires Valid()
      modifies cells, cellsPrev, rectBuf
      ensures 0 <= count <= RectCapacity && (hasFree <==> HasFreeCommand(commands))
      ensures forall x, y :: InGridCell(x, y) ==>
        cells[CellIdx(x, y)] == CellAfter(old(cells[CellIdx(x, y)]), x, y, commands, screenRect)
      ensures forall x, y :: InGridCell(x, y) ==>
        cellsPrev[CellIdx(x, y)] == (if InRegion(x, y, screenRect) then Seed else old(cellsPrev[CellIdx(x, y)]))
      ensures rectBuf[..count] == FinalRects(Scan(cells[..], old(cellsPrev[..]), RegionWidth(screenRect), RegionHeight(screenRect), 0), screenRect)
      ensures old(Settled()) && commands == prevLog ==> count == 0
    {
      ghost var cur0 := cells[..];
      ghost var settled := Settled();
      hasFree := HashPass();
      count := DiffPass();
      if settled && commands == prevLog {
        NothingRedrawn(cur0, old(cellsPrev[..]), cells[..], commands, screenRect);
      }
      ScaleRects(count);
    }

    /** The calls of the last loops of `rencache_end_frame`: the passes, the
        screen update when something is dirty, and the deferred frees. */
    method FrameCallsOf(hasFree: bool, count: int) returns (calls: seq<RenderCall>)
      requires Valid() && 0 <= count <= RectCapacity && (hasFree <==> HasFreeCommand(commands))
      ensures calls == FrameCalls(commands, rectBuf[..count], showDebug)
    {
      calls := Replay(count);
      if count > 0 {
        calls := calls + [UpdateRectsCall(rectBuf[..count])];
      }
      FreeCallsExact(commands);
      if hasFree {
        var frees := FreePass();
        calls := calls + frees;
      }
    }

    /** `rencache_end_frame`: hashes the log into the grid, diffs it against
        the previous frame, replays the log once per dirty rectangle, updates
        the screen, carries out the deferred frees, swaps the grids and
        empties the log.  The dirty rectangles and the renderer calls are
        returned.  A frame that repeats the previous frame's log from the
        settled state redraws nothing. */
    method EndFrame() returns (rects: seq<RenRect>, calls: seq<RenderCall>)
      requires Valid()
      modifies this, cells, cellsPrev, rectBuf
      ensures Valid() && commands == [] && screenRect == old(screenRect) && showDebug == old(showDebug)
      ensures cells == old(cellsPrev) && cellsPrev == old(cells) && prevLog == old(commands)
      ensures forall x, y :: InGridCell(x, y) ==>
        cellsPrev[CellIdx(x, y)] == CellAfter(old(cells[CellIdx(x, y)]), x, y, old(commands), screenRect)
      ensures forall x, y :: InGridCell(x, y) ==>
        cells[CellIdx(x, y)] == (if InRegion(x, y, screenRect) then Seed else old(cellsPrev[CellIdx(x, y)]))
      ensures rects == FinalRects(Scan(cellsPrev[..], old(cellsPrev[..]), RegionWidth(screenRect), RegionHeight(screenRect), 0), screenRect)
      ensures |rects| <= RectCapacity
      ensures calls == FrameCalls(old(commands), rects, showDebug)
      ensures Primed() && (old(Primed()) ==> Settled())
      ensures old(Settled()) && old(commands) == old(prevLog) ==> rects == []
    {
      ghost var log := commands;
      ghost var cur0 := cells[..];
      var hasFree, count := Damage();
      rects := rectBuf[..count];
      calls := FrameCallsOf(hasFree, count);
      cells, cellsPrev := cellsPrev, cells;
      commands := [];
      commandBufIdx := 0;
      prevLog := log;
      forall x, y | InRegion(x, y, screenRect)
        ensures cells[CellIdx(x, y)] == Seed
        ensures cur0[CellIdx(x, y)] == Seed ==> cellsPrev[CellIdx(x, y)] == CellAfter(Seed, x, y, prevLog, screenRect)
      {
        RegionInGrid(screenRect, x, y);
      }
    }
  }

  /** Startup as written: two frames with the same (empty) log at 800 x 600
      in a fresh cache, and the second still redraws, because the first was
      hashed from zeroed cells and the second from seeded ones. */
  method StartupScenarioAsWritten() returns (first: seq<RenRect>, second: seq<RenRect>)
    ensures |second| > 0
  {
    var cache := new Cache();
    cache.BeginFrameAsWritten(800, 600);
    var calls;
    first, calls := cache.EndFrame();
    ghost var hashedFirst := cache.cellsPrev[..];
    cache.BeginFrameAsWritten(800, 600);
    second, calls := cache.EndFrame();
    CellIdxInjective(0, 0, 0, 0);
    assert InRegion(0, 0, cache.screenRect) && InGridCell(0, 0);
    assert hashedFirst[CellIdx(0, 0)] == 0;
    ScanProperties(cache.cellsPrev[..], hashedFirst, RegionWidth(cache.screenRect), RegionHeight(cache.screenRect), 0);
    assert ScannedBefore(0, 0, RegionWidth(cache.screenRect), RegionHeight(cache.screenRect), 0);
  }

  /** The same two frames with the corrected `begin_frame`: the second frame
      redraws nothing. */
  method StartupScenario() returns (first: seq<RenRect>, second: seq<RenRect>)
    ensures second == []
  {
    var cache := new Cache();
    cache.BeginFrame(800, 600);
    var calls;
    first, calls := cache.EndFrame();
    cache.BeginFrame(800, 600);
    second, calls := cache.EndFrame();
  }
}
