/** `MedianFilterService.ApplyMedianFilterToBitmap` (Services/MedianFilterService.cs:47-121)
    on the locked 24-bit pixel buffers: rows of `stride` bytes, three bytes (blue, green,
    red) per pixel, the same stride for the source and the result. */
module MedianFilter {
  import opened Messages
  import opened Median

  /** The size of both buffers. */
  datatype Geometry = Geometry(width: int, height: int, stride: int)

  datatype Pixel = Pixel(x: int, y: int)

  /** A row holds at least the pixels' bytes. */
  predicate WellFormed(g: Geometry)
  {
    0 <= g.width && 0 <= g.height && 3 * g.width <= g.stride
  }

  predicate InBounds(g: Geometry, p: Pixel)
  {
    0 <= p.x < g.width && 0 <= p.y < g.height
  }

  /** The index of the first byte of row `y` (`y * stride`), row by row. */
  function RowStart(g: Geometry, y: nat): int
  {
    if y == 0 then 0 else RowStart(g, y - 1) + g.stride
  }

  /** The index of byte `r` of row `y`. */
  function Index(g: Geometry, y: nat, r: int): int
  {
    RowStart(g, y) + r
  }

  /** The length of a buffer: `height * stride` bytes. */
  function BufferSize(g: Geometry): int
    requires WellFormed(g)
  {
    RowStart(g, g.height)
  }

  /** C#'s `filterSize / 2`, which truncates toward zero. */
  function HalfTowardZero(n: int): int
  {
    if n >= 0 then n / 2 else -((-n) / 2)
  }

  // ---------------------------------------------------------------- buffer layout

  lemma {:induction false} RowStartIsProduct(g: Geometry, y: nat)
    ensures RowStart(g, y) == y * g.stride
  {
    if y > 0 {
      RowStartIsProduct(g, y - 1);
    }
  }

  /** Each row starts at least a stride after every earlier one. */
  lemma {:induction false} RowStartGap(g: Geometry, a: nat, b: nat)
    requires WellFormed(g) && a < b
    decreases b
    ensures RowStart(g, a) + g.stride <= RowStart(g, b)
  {
    if a + 1 < b {
      RowStartGap(g, a, b - 1);
    }
  }

  /** A byte of a row lies inside the buffer. */
  lemma IndexInRange(g: Geometry, y: int, r: int)
    requires WellFormed(g) && 0 <= y < g.height && 0 <= r < g.stride
    ensures 0 <= Index(g, y, r) < BufferSize(g)
  {
    RowStartGap(g, y, g.height);
    if y > 0 {
      RowStartGap(g, 0, y);
    }
  }

  /** The offset `y * stride + x * 3` of pixel (x, y) is its first byte's index, and all
      three of its bytes lie inside the buffer. */
  lemma PixelOffsetInRange(g: Geometry, x: int, y: int)
    requires WellFormed(g) && 0 <= x < g.width && 0 <= y < g.height
    ensures var i := y * g.stride + x * 3;
      i == Index(g, y, x * 3) && 0 <= i && i + 2 < BufferSize(g)
  {
    RowStartIsProduct(g, y);
    IndexInRange(g, y, x * 3);
    IndexInRange(g, y, x * 3 + 2);
  }

  /** Every index of the buffer is byte `i % stride` of row `i / stride`. */
  lemma RowOfIndex(g: Geometry, i: int)
    requires WellFormed(g) && 0 <= i < BufferSize(g)
    ensures 0 < g.stride && 0 <= i / g.stride < g.height
    ensures Index(g, i / g.stride, i % g.stride) == i
  {
    RowStartIsProduct(g, g.height);
    assert 0 < g.stride;
    RowStartIsProduct(g, i / g.stride);
  }

  /** Byte `r` of row `y` is found again from its index. */
  lemma IndexOfRow(g: Geometry, y: int, r: int)
    requires WellFormed(g) && 0 <= y < g.height && 0 <= r < g.stride
    ensures var i := Index(g, y, r); 0 <= i < BufferSize(g) && i / g.stride == y && i % g.stride == r
  {
    var i := Index(g, y, r);
    IndexInRange(g, y, r);
    RowOfIndex(g, i);
    IndexInjective(g, i / g.stride, i % g.stride, y, r);
  }

  /** Distinct (row, byte) positions are distinct indices: the layout never aliases. */
  lemma IndexInjective(g: Geometry, y1: nat, r1: int, y2: nat, r2: int)
    requires WellFormed(g) && 0 <= r1 < g.stride && 0 <= r2 < g.stride
    ensures Index(g, y1, r1) == Index(g, y2, r2) <==> y1 == y2 && r1 == r2
  {
    if y1 < y2 {
      RowStartGap(g, y1, y2);
    } else if y2 < y1 {
      RowStartGap(g, y2, y1);
    }
  }

  /** Byte `r` of row `y` of a buffer. */
  function At(buf: seq<Byte>, g: Geometry, y: int, r: int): Byte
    requires WellFormed(g) && |buf| == BufferSize(g) && 0 <= y < g.height && 0 <= r < g.stride
  {
    IndexInRange(g, y, r);
    buf[Index(g, y, r)]
  }

  /** Channel `c` (0 blue, 1 green, 2 red) of pixel (x, y). */
  function PixelByte(buf: seq<Byte>, g: Geometry, x: int, y: int, c: int): Byte
    requires WellFormed(g) && |buf| == BufferSize(g) && 0 <= x < g.width && 0 <= y < g.height
    requires 0 <= c < 3
  {
    At(buf, g, y, x * 3 + c)
  }

  // ---------------------------------------------------------------- the window

  /** The in-bounds pixels (x + fx, ny) for fx from -off up to fxEnd - 1, in loop order. */
  function RowPixels(g: Geometry, x: int, ny: int, off: int, fxEnd: int): (r: seq<Pixel>)
    decreases fxEnd + off
    ensures forall i :: 0 <= i < |r| ==> InBounds(g, r[i])
  {
    if fxEnd <= -off then []
    else
      var p := Pixel(x + fxEnd - 1, ny);
      RowPixels(g, x, ny, off, fxEnd - 1) + (if InBounds(g, p) then [p] else [])
  }

  /** The in-bounds pixels of rows y + fy for fy from -off up to fyEnd - 1, each row
      scanned by `RowPixels`. */
  function WindowRows(g: Geometry, x: int, y: int, off: int, fyEnd: int): (r: seq<Pixel>)
    decreases fyEnd + off
    ensures forall i :: 0 <= i < |r| ==> InBounds(g, r[i])
  {
    if fyEnd <= -off then []
    else WindowRows(g, x, y, off, fyEnd - 1) + RowPixels(g, x, y + fyEnd - 1, off, off + 1)
  }

  /** The samples of pixel (x, y): the in-bounds pixels of the square of half-width `off`
      around it, row by row. */
  function Window(g: Geometry, x: int, y: int, off: int): (r: seq<Pixel>)
    ensures forall i :: 0 <= i < |r| ==> InBounds(g, r[i])
  {
    WindowRows(g, x, y, off, off + 1)
  }

  /** Channel `c` of the given pixels, in their order. */
  function Channel(src: seq<Byte>, g: Geometry, ps: seq<Pixel>, c: int): (r: seq<Byte>)
    requires WellFormed(g) && |src| == BufferSize(g) && 0 <= c < 3
    requires forall i :: 0 <= i < |ps| ==> InBounds(g, ps[i])
    ensures |r| == |ps|
  {
    seq(|ps|, i requires 0 <= i < |ps| && InBounds(g, ps[i]) => PixelByte(src, g, ps[i].x, ps[i].y, c))
  }

  /** The value the filter writes to channel `c` of pixel (x, y). */
  function FilteredByte(src: seq<Byte>, g: Geometry, off: int, x: int, y: int, c: int): Byte
    requires WellFormed(g) && |src| == BufferSize(g) && 0 <= c < 3
  {
    GetMedian(Channel(src, g, Window(g, x, y, off), c))
  }

  /** `res` is what the filter makes of `src`: every pixel holds the medians of its
      window, channel by channel, and the padding of every row is 0. */
  ghost predicate IsFilterOf(res: seq<Byte>, src: seq<Byte>, g: Geometry, off: int)
    requires WellFormed(g) && |res| == BufferSize(g) && |src| == BufferSize(g)
  {
    && (forall y, x, c :: 0 <= y < g.height && 0 <= x < g.width && 0 <= c < 3 ==>
          PixelByte(res, g, x, y, c) == FilteredByte(src, g, off, x, y, c))
    && (forall y, r :: 0 <= y < g.height && 3 * g.width <= r < g.stride ==> At(res, g, y, r) == 0)
  }

  /** The byte the filter leaves at index `i`: a channel median within the pixels of a
      row, 0 in the row's padding. */
  function FilteredAt(src: seq<Byte>, g: Geometry, off: int, i: int): Byte
    requires WellFormed(g) && |src| == BufferSize(g) && 0 <= i < |src|
  {
    RowOfIndex(g, i);
    var r := i % g.stride;
    if r < 3 * g.width then FilteredByte(src, g, off, r / 3, i / g.stride, r % 3) else 0
  }

  /** The whole result buffer of the filter, as a value. */
  function Filtered(src: seq<Byte>, g: Geometry, off: int): (res: seq<Byte>)
    requires WellFormed(g) && |src| == BufferSize(g)
    ensures |res| == |src| && IsFilterOf(res, src, g, off)
  {
    var res := seq(|src|, i requires 0 <= i < |src| => FilteredAt(src, g, off, i));
    forall y, x, c | 0 <= y < g.height && 0 <= x < g.width && 0 <= c < 3
      ensures PixelByte(res, g, x, y, c) == FilteredByte(src, g, off, x, y, c)
    {
      FilteredAtPixel(src, g, off, x, y, c);
    }
    forall y, r | 0 <= y < g.height && 3 * g.width <= r < g.stride
      ensures At(res, g, y, r) == 0
    {
      FilteredAtPadding(src, g, off, y, r);
    }
    res
  }

  lemma FilteredAtPixel(src: seq<Byte>, g: Geometry, off: int, x: int, y: int, c: int)
    requires WellFormed(g) && |src| == BufferSize(g)
    requires 0 <= y < g.height && 0 <= x < g.width && 0 <= c < 3
    ensures var i := Index(g, y, x * 3 + c);
      0 <= i < |src| && FilteredAt(src, g, off, i) == FilteredByte(src, g, off, x, y, c)
  {
    var r := x * 3 + c;
    IndexOfRow(g, y, r);
    assert r / 3 == x && r % 3 == c;
  }

  lemma FilteredAtPadding(src: seq<Byte>, g: Geometry, off: int, y: int, r: int)
    requires WellFormed(g) && |src| == BufferSize(g)
    requires 0 <= y < g.height && 3 * g.width <= r < g.stride
    ensures var i := Index(g, y, r); 0 <= i < |src| && FilteredAt(src, g, off, i) == 0
  {
    IndexOfRow(g, y, r);
  }

  /** The filter's result is determined by the source: a buffer `IsFilterOf` describes
      is `Filtered`. */
  lemma FilteredIsUnique(res: seq<Byte>, src: seq<Byte>, g: Geometry, off: int)
    requires WellFormed(g) && |res| == BufferSize(g) && |src| == BufferSize(g)
    requires IsFilterOf(res, src, g, off)
    ensures res == Filtered(src, g, off)
  {
    var f := Filtered(src, g, off);
    forall i | 0 <= i < |res| ensures res[i] == f[i] {
      RowOfIndex(g, i);
      var y, r := i / g.stride, i % g.stride;
      if r < 3 * g.width {
        assert r / 3 * 3 + r % 3 == r;
        assert PixelByte(res, g, r / 3, y, r % 3) == FilteredByte(src, g, off, r / 3, y, r % 3);
        FilteredAtPixel(src, g, off, r / 3, y, r % 3);
      } else {
        assert At(res, g, y, r) == 0;
        FilteredAtPadding(src, g, off, y, r);
      }
    }
  }

  /** For any non-negative filter size every window holds its own centre, so the filter
      never takes the median of an empty list. */
  lemma CentreIsSampled(g: Geometry, x: int, y: int, filterSize: int)
    requires InBounds(g, Pixel(x, y)) && 0 <= filterSize
    ensures var w := Window(g, x, y, HalfTowardZero(filterSize));
      Pixel(x, y) in w && |w| >= 1
  {
    WindowMembers(g, x, y, HalfTowardZero(filterSize), Pixel(x, y));
  }

  /** The number of integers in [lo, hi) that are also in [0, n). */
  function Overlap(lo: int, hi: int, n: int): (k: nat)
    ensures k <= n || k == 0
  {
    var a := if lo > 0 then lo else 0;
    var b := if hi < n then hi else n;
    if b > a then b - a else 0
  }

  /** A row scan holds exactly the in-bounds pixels of row `ny` between x - off and
      x + fxEnd - 1. */
  lemma {:induction false} RowPixelsMembers(g: Geometry, x: int, ny: int, off: int, fxEnd: int, p: Pixel)
    decreases fxEnd + off
    ensures p in RowPixels(g, x, ny, off, fxEnd)
        <==> InBounds(g, p) && p.y == ny && x - off <= p.x < x + fxEnd
  {
    if fxEnd > -off {
      RowPixelsMembers(g, x, ny, off, fxEnd - 1, p);
    }
  }

  /** The rows scanned so far hold exactly the in-bounds pixels of the columns x - off to
      x + off and the rows y - off to y + fyEnd - 1. */
  lemma {:induction false} WindowRowsMembers(g: Geometry, x: int, y: int, off: int, fyEnd: int, p: Pixel)
    decreases fyEnd + off
    ensures p in WindowRows(g, x, y, off, fyEnd)
        <==> InBounds(g, p) && x - off <= p.x <= x + off && y - off <= p.y < y + fyEnd
  {
    if fyEnd > -off {
      WindowRowsMembers(g, x, y, off, fyEnd - 1, p);
      RowPixelsMembers(g, x, y + fyEnd - 1, off, off + 1, p);
    }
  }

  /** A pixel is sampled for (x, y) exactly when it is in the image and within `off` of
      (x, y) on both axes: the window is clipped at the borders, never wrapped or padded. */
  lemma WindowMembers(g: Geometry, x: int, y: int, off: int, p: Pixel)
    ensures p in Window(g, x, y, off)
        <==> InBounds(g, p) && x - off <= p.x <= x + off && y - off <= p.y <= y + off
  {
    WindowRowsMembers(g, x, y, off, off + 1, p);
  }

  lemma {:induction false} RowPixelsCount(g: Geometry, x: int, ny: int, off: int, fxEnd: int)
    decreases fxEnd + off
    ensures |RowPixels(g, x, ny, off, fxEnd)|
         == if 0 <= ny < g.height then Overlap(x - off, x + fxEnd, g.width) else 0
  {
    if fxEnd > -off {
      RowPixelsCount(g, x, ny, off, fxEnd - 1);
    }
  }

  lemma {:induction false} WindowRowsCount(g: Geometry, x: int, y: int, off: int, fyEnd: int)
    decreases fyEnd + off
    ensures |WindowRows(g, x, y, off, fyEnd)|
         == Overlap(y - off, y + fyEnd, g.height) * Overlap(x - off, x + off + 1, g.width)
  {
    var w := Overlap(x - off, x + off + 1, g.width);
    if fyEnd > -off {
      WindowRowsCount(g, x, y, off, fyEnd - 1);
      RowPixelsCount(g, x, y + fyEnd - 1, off, off + 1);
      var before := Overlap(y - off, y + fyEnd - 1, g.height);
      var rows := WindowRows(g, x, y, off, fyEnd - 1);
      var row := RowPixels(g, x, y + fyEnd - 1, off, off + 1);
      assert |WindowRows(g, x, y, off, fyEnd)| == |rows| + |row|;
      if 0 <= y + fyEnd - 1 < g.height {
        assert Overlap(y - off, y + fyEnd, g.height) == before + 1;
        AddOneRow(before, w);
      } else {
        assert Overlap(y - off, y + fyEnd, g.height) == before;
      }
    } else {
      assert Overlap(y - off, y + fyEnd, g.height) == 0;
    }
  }

  lemma AddOneRow(rows: int, w: int)
    ensures (rows + 1) * w == rows * w + w
  {
  }

  /** The number of samples for (x, y): the window's width clipped to the image times its
      height clipped to the image. */
  lemma WindowCount(g: Geometry, x: int, y: int, off: int)
    ensures |Window(g, x, y, off)|
         == Overlap(y - off, y + off + 1, g.height) * Overlap(x - off, x + off + 1, g.width)
  {
    WindowRowsCount(g, x, y, off, off + 1);
  }

  /** With the default size 15 an interior pixel sees a full 15 x 15 window, and a corner
      pixel of a 3 x 3 filter sees four samples (an even count). */
  lemma WindowCountExamples(g: Geometry)
    requires g.width >= 15 && g.height >= 15
    ensures |Window(g, 7, 7, HalfTowardZero(15))| == 225
    ensures |Window(g, 0, 0, HalfTowardZero(3))| == 4
  {
    WindowCount(g, 7, 7, 7);
    WindowCount(g, 0, 0, 1);
  }

  /** Channel `c` of a list of pixels reads only channel `c` of those pixels. */
  lemma {:induction false} ChannelReadsOnlyItsPixels(a: seq<Byte>, b: seq<Byte>, g: Geometry, ps: seq<Pixel>, c: int)
    requires WellFormed(g) && |a| == BufferSize(g) && |b| == BufferSize(g) && 0 <= c < 3
    requires forall i :: 0 <= i < |ps| ==>
      InBounds(g, ps[i]) && PixelByte(a, g, ps[i].x, ps[i].y, c) == PixelByte(b, g, ps[i].x, ps[i].y, c)
    ensures Channel(a, g, ps, c) == Channel(b, g, ps, c)
  {
    forall i | 0 <= i < |ps|
      ensures Channel(a, g, ps, c)[i] == Channel(b, g, ps, c)[i]
    {
    }
  }

  /** The filter is local and works channel by channel: two sources that agree on
      channel `c` of the window of (x, y) give the same filtered value there. */
  lemma FilterIsLocal(a: seq<Byte>, b: seq<Byte>, g: Geometry, off: int, x: int, y: int, c: int)
    requires WellFormed(g) && |a| == BufferSize(g) && |b| == BufferSize(g) && 0 <= c < 3
    requires forall xx, yy :: 0 <= xx < g.width && 0 <= yy < g.height
                              && x - off <= xx <= x + off && y - off <= yy <= y + off ==>
      PixelByte(a, g, xx, yy, c) == PixelByte(b, g, xx, yy, c)
    ensures FilteredByte(a, g, off, x, y, c) == FilteredByte(b, g, off, x, y, c)
  {
    var ps := Window(g, x, y, off);
    forall i | 0 <= i < |ps|
      ensures PixelByte(a, g, ps[i].x, ps[i].y, c) == PixelByte(b, g, ps[i].x, ps[i].y, c)
    {
      WindowMembers(g, x, y, off, ps[i]);
    }
    ChannelReadsOnlyItsPixels(a, b, g, ps, c);
  }

  /** A window whose channel `c` is uniformly `v` filters to `v`: flat regions are kept. */
  lemma FlatRegionIsKept(src: seq<Byte>, g: Geometry, off: int, x: int, y: int, c: int, v: Byte)
    requires WellFormed(g) && |src| == BufferSize(g) && 0 <= c < 3
    requires 0 <= off && InBounds(g, Pixel(x, y))
    requires forall xx, yy :: 0 <= xx < g.width && 0 <= yy < g.height
                              && x - off <= xx <= x + off && y - off <= yy <= y + off ==>
      PixelByte(src, g, xx, yy, c) == v
    ensures FilteredByte(src, g, off, x, y, c) == v
  {
    var ps := Window(g, x, y, off);
    var values := Channel(src, g, ps, c);
    WindowMembers(g, x, y, off, Pixel(x, y));
    forall i | 0 <= i < |values|
      ensures values[i] == v
    {
      WindowMembers(g, x, y, off, ps[i]);
      ChannelAt(src, g, ps, c, i);
    }
    MedianBounds(values);
  }

  /** Element `i` of a channel list is channel `c` of the `i`-th pixel. */
  lemma {:induction false} ChannelAt(src: seq<Byte>, g: Geometry, ps: seq<Pixel>, c: int, i: int)
    requires WellFormed(g) && |src| == BufferSize(g) && 0 <= c < 3
    requires forall j :: 0 <= j < |ps| ==> InBounds(g, ps[j])
    requires 0 <= i < |ps|
    ensures Channel(src, g, ps, c)[i] == PixelByte(src, g, ps[i].x, ps[i].y, c)
  {

  }

  /** A filter size of 0 or 1 (half-width 0) copies every pixel. */
  lemma SizeOneCopies(src: seq<Byte>, g: Geometry, filterSize: int, x: int, y: int, c: int)
    requires WellFormed(g) && |src| == BufferSize(g) && 0 <= c < 3 && InBounds(g, Pixel(x, y))
    requires -1 <= filterSize <= 1
    ensures FilteredByte(src, g, HalfTowardZero(filterSize), x, y, c) == PixelByte(src, g, x, y, c)
  {
    assert HalfTowardZero(filterSize) == 0;
    var ps := Window(g, x, y, 0);
    WindowCount(g, x, y, 0);
    assert Overlap(y, y + 1, g.height) == 1 && Overlap(x, x + 1, g.width) == 1;
    assert |ps| == 1;
    WindowMembers(g, x, y, 0, ps[0]);
    assert ps[0] == Pixel(x, y);
    ChannelAt(src, g, ps, c, 0);
  }

  /** A filter size of -2 or less (negative half-width) samples nothing, so every pixel
      becomes 0. */
  lemma NegativeSizeBlanks(src: seq<Byte>, g: Geometry, filterSize: int, x: int, y: int, c: int)
    requires WellFormed(g) && |src| == BufferSize(g) && 0 <= c < 3
    requires filterSize <= -2
    ensures HalfTowardZero(filterSize) < 0
    ensures FilteredByte(src, g, HalfTowardZero(filterSize), x, y, c) == 0
  {
    var off := HalfTowardZero(filterSize);
    assert Window(g, x, y, off) == [];
  }

  // ---------------------------------------------------------------- the filter

  /** Lists the three channels of the window of (x, y): the two inner loops, the loop
      over window columns being `CollectRow`. */
  method CollectWindow(original: array<Byte>, g: Geometry, x: int, y: int, offset: int)
    returns (blueValues: seq<Byte>, greenValues: seq<Byte>, redValues: seq<Byte>)
    requires WellFormed(g) && original.Length == BufferSize(g)
    ensures blueValues == Channel(original[..], g, Window(g, x, y, offset), 0)
    ensures greenValues == Channel(original[..], g, Window(g, x, y, offset), 1)
    ensures redValues == Channel(original[..], g, Window(g, x, y, offset), 2)
  {
    ghost var src := original[..];
    ghost var pixels: seq<Pixel> := [];
    blueValues, greenValues, redValues := [], [], [];
    var fy := -offset;
    while fy <= offset
      invariant -offset <= fy && (fy <= offset + 1 || fy == -offset)
      invariant pixels == WindowRows(g, x, y, offset, fy)
      invariant blueValues == Channel(src, g, pixels, 0)
      invariant greenValues == Channel(src, g, pixels, 1)
      invariant redValues == Channel(src, g, pixels, 2)
      decreases offset - fy
    {
      ghost var next := WindowRows(g, x, y, offset, fy + 1);
      WindowRowsNext(g, x, y, offset, fy);
      blueValues, greenValues, redValues :=
        CollectRow(original, g, x, y + fy, offset, blueValues, greenValues, redValues, src, pixels, next);
      pixels := next;
      fy := fy + 1;
      assert pixels == WindowRows(g, x, y, offset, fy);
    }
    WindowRowsComplete(g, x, y, offset, fy);
  }

  /** One more row of the window. */
  lemma WindowRowsNext(g: Geometry, x: int, y: int, off: int, fy: int)
    requires -off <= fy
    ensures WindowRows(g, x, y, off, fy + 1) == WindowRows(g, x, y, off, fy) + RowPixels(g, x, y + fy, off, off + 1)
  {
  }

  /** Once the row loop has run past `off` (or never started), it has covered the window. */
  lemma WindowRowsComplete(g: Geometry, x: int, y: int, off: int, fyEnd: int)
    requires -off <= fyEnd && off < fyEnd && (fyEnd <= off + 1 || fyEnd == -off)
    ensures WindowRows(g, x, y, off, fyEnd) == Window(g, x, y, off)
  {
    if off < 0 {
      assert WindowRows(g, x, y, off, fyEnd) == [] == Window(g, x, y, off);
    }
  }

  /** Appends the three channels of the in-bounds pixels (x + fx, newY), fx from -offset
      to offset, to the lists collected so far for the pixels `done`. */
  method CollectRow(original: array<Byte>, g: Geometry, x: int, newY: int, offset: int,
                    blueIn: seq<Byte>, greenIn: seq<Byte>, redIn: seq<Byte>,
                    ghost src: seq<Byte>, ghost done: seq<Pixel>, ghost target: seq<Pixel>)
    returns (blueValues: seq<Byte>, greenValues: seq<Byte>, redValues: seq<Byte>)
    requires WellFormed(g) && original.Length == BufferSize(g) && src == original[..]
    requires forall i :: 0 <= i < |done| ==> InBounds(g, done[i])
    requires target == done + RowPixels(g, x, newY, offset, offset + 1)
    requires blueIn == Channel(src, g, done, 0)
    requires greenIn == Channel(src, g, done, 1)
    requires redIn == Channel(src, g, done, 2)
    ensures blueValues == Channel(src, g, target, 0)
    ensures greenValues == Channel(src, g, target, 1)
    ensures redValues == Channel(src, g, target, 2)
  {
    ghost var pixels := done;
    blueValues, greenValues, redValues := blueIn, greenIn, redIn;
    var fx := -offset;
    assert done + RowPixels(g, x, newY, offset, fx) == done;
    while fx <= offset
      invariant -offset <= fx && (fx <= offset + 1 || fx == -offset)
      invariant pixels == done + RowPixels(g, x, newY, offset, fx)
      invariant forall i :: 0 <= i < |pixels| ==> InBounds(g, pixels[i])
      invariant blueValues == Channel(src, g, pixels, 0)
      invariant greenValues == Channel(src, g, pixels, 1)
      invariant redValues == Channel(src, g, pixels, 2)
      decreases offset - fx
    {
      var newX := x + fx;
      CollectStep(src, g, x, newY, offset, fx, done);
      if newX >= 0 && newX < g.width && newY >= 0 && newY < g.height {
        var pixelOffset := newY * g.stride + newX * 3;
        RowStartIsProduct(g, newY);
        assert pixelOffset == Index(g, newY, newX * 3);
        IndexInRange(g, newY, newX * 3);
        IndexInRange(g, newY, newX * 3 + 2);
        assert original[pixelOffset] == PixelByte(src, g, newX, newY, 0);
        assert original[pixelOffset + 1] == PixelByte(src, g, newX, newY, 1);
        assert original[pixelOffset + 2] == PixelByte(src, g, newX, newY, 2);
        blueValues := blueValues + [original[pixelOffset]];
        greenValues := greenValues + [original[pixelOffset + 1]];
        redValues := redValues + [original[pixelOffset + 2]];
        pixels := pixels + [Pixel(newX, newY)];
      }
      fx := fx + 1;
    }
    RowPixelsComplete(g, x, newY, offset, fx);
  }

  /** One column of the row loop: an in-bounds pixel appends its three samples, any other
      position changes nothing. */
  lemma CollectStep(src: seq<Byte>, g: Geometry, x: int, ny: int, off: int, fx: int, done: seq<Pixel>)
    requires WellFormed(g) && |src| == BufferSize(g) && -off <= fx
    requires forall i :: 0 <= i < |done| ==> InBounds(g, done[i])
    ensures var pixels := done + RowPixels(g, x, ny, off, fx);
      var p := Pixel(x + fx, ny);
      var next := done + RowPixels(g, x, ny, off, fx + 1);
      && (forall i :: 0 <= i < |pixels| ==> InBounds(g, pixels[i]))
      && (forall i :: 0 <= i < |next| ==> InBounds(g, next[i]))
      && (!InBounds(g, p) ==> next == pixels)
      && (InBounds(g, p) ==>
            && next == pixels + [p]
            && Channel(src, g, next, 0) == Channel(src, g, pixels, 0) + [PixelByte(src, g, p.x, p.y, 0)]
            && Channel(src, g, next, 1) == Channel(src, g, pixels, 1) + [PixelByte(src, g, p.x, p.y, 1)]
            && Channel(src, g, next, 2) == Channel(src, g, pixels, 2) + [PixelByte(src, g, p.x, p.y, 2)])
  {
    var row := RowPixels(g, x, ny, off, fx);
    var p := Pixel(x + fx, ny);
    if InBounds(g, p) {
      assert RowPixels(g, x, ny, off, fx + 1) == row + [p];
      AppendAssociates(done, row, [p]);
      ChannelSnoc(src, g, done + row, p, 0);
      ChannelSnoc(src, g, done + row, p, 1);
      ChannelSnoc(src, g, done + row, p, 2);
    } else {
      assert RowPixels(g, x, ny, off, fx + 1) == row;
    }
  }

  /** Once the column loop has run past `off` (or never started), it has covered the row. */
  lemma RowPixelsComplete(g: Geometry, x: int, ny: int, off: int, fxEnd: int)
    requires -off <= fxEnd && off < fxEnd && (fxEnd <= off + 1 || fxEnd == -off)
    ensures RowPixels(g, x, ny, off, fxEnd) == RowPixels(g, x, ny, off, off + 1)
  {
    if off < 0 {
      assert RowPixels(g, x, ny, off, fxEnd) == [] == RowPixels(g, x, ny, off, off + 1);
    }
  }

  /** Appending an in-bounds pixel appends its sample. */
  lemma ChannelSnoc(src: seq<Byte>, g: Geometry, ps: seq<Pixel>, p: Pixel, c: int)
    requires WellFormed(g) && |src| == BufferSize(g) && InBounds(g, p) && 0 <= c < 3
    requires forall i :: 0 <= i < |ps| ==> InBounds(g, ps[i])
    ensures Channel(src, g, ps + [p], c) == Channel(src, g, ps, c) + [PixelByte(src, g, p.x, p.y, c)]
  {
    assert (ps + [p])[..|ps|] == ps;
  }

  /** The buffer with the three bytes of pixel (x, y) replaced. */
  function WithPixel(buf: seq<Byte>, g: Geometry, x: int, y: int, blue: Byte, green: Byte, red: Byte)
    : (after: seq<Byte>)
    requires WellFormed(g) && |buf| == BufferSize(g) && 0 <= x < g.width && 0 <= y < g.height
    ensures |after| == |buf|
  {
    var i := Index(g, y, x * 3);
    IndexInRange(g, y, x * 3);
    IndexInRange(g, y, x * 3 + 2);
    buf[i := blue][i + 1 := green][i + 2 := red]
  }

  /** Writing a pixel sets its three channels and leaves every other (row, byte)
      position of the buffer as it was. */
  lemma WritePixel(g: Geometry, buf: seq<Byte>, x: int, y: int, blue: Byte, green: Byte, red: Byte)
    requires WellFormed(g) && |buf| == BufferSize(g) && 0 <= x < g.width && 0 <= y < g.height
    ensures var after := WithPixel(buf, g, x, y, blue, green, red);
      && PixelByte(after, g, x, y, 0) == blue
      && PixelByte(after, g, x, y, 1) == green
      && PixelByte(after, g, x, y, 2) == red
      && (forall yy, r :: 0 <= yy < g.height && 0 <= r < g.stride && (yy != y || r < 3 * x || 3 * x + 3 <= r) ==>
            At(after, g, yy, r) == At(buf, g, yy, r))
  {
    var after := WithPixel(buf, g, x, y, blue, green, red);
    var i := Index(g, y, x * 3);
    IndexInRange(g, y, x * 3);
    IndexInRange(g, y, x * 3 + 2);
    assert after == buf[i := blue][i + 1 := green][i + 2 := red];
    assert Index(g, y, x * 3 + 1) == i + 1 && Index(g, y, x * 3 + 2) == i + 2;
    forall yy, r | 0 <= yy < g.height && 0 <= r < g.stride && (yy != y || r < 3 * x || 3 * x + 3 <= r)
      ensures At(after, g, yy, r) == At(buf, g, yy, r)
    {
      IndexInRange(g, yy, r);
      IndexInjective(g, yy, r, y, x * 3);
      IndexInjective(g, yy, r, y, x * 3 + 1);
      IndexInjective(g, yy, r, y, x * 3 + 2);
    }
  }

  /** The pixels before (x, y) in row-major order hold their filtered values. */
  ghost predicate FilteredBefore(res: seq<Byte>, src: seq<Byte>, g: Geometry, off: int, y: int, x: int)
    requires WellFormed(g) && |res| == BufferSize(g) && |src| == BufferSize(g)
  {
    forall yy, xx, c :: 0 <= yy <= y && 0 <= yy < g.height && 0 <= xx < g.width && 0 <= c < 3
                        && (yy < y || xx < x) ==>
      PixelByte(res, g, xx, yy, c) == FilteredByte(src, g, off, xx, yy, c)
  }

  /** The bytes from pixel (x, y) on, and the padding of every row, are still zero. */
  ghost predicate ZeroFrom(res: seq<Byte>, g: Geometry, y: int, x: int)
    requires WellFormed(g) && |res| == BufferSize(g)
  {
    forall yy, r :: 0 <= yy < g.height && 0 <= r < g.stride
                    && (y < yy || (y == yy && 3 * x <= r) || 3 * g.width <= r) ==>
      At(res, g, yy, r) == 0
  }

  /** Writing the filtered values of pixel (x, y) extends both facts by one pixel. */
  lemma FilterOnePixel(before: seq<Byte>, src: seq<Byte>, g: Geometry, off: int, x: int, y: int,
                       blue: Byte, green: Byte, red: Byte)
    requires WellFormed(g) && |before| == BufferSize(g) && |src| == BufferSize(g)
    requires 0 <= x < g.width && 0 <= y < g.height
    requires FilteredBefore(before, src, g, off, y, x) && ZeroFrom(before, g, y, x)
    requires blue == FilteredByte(src, g, off, x, y, 0)
    requires green == FilteredByte(src, g, off, x, y, 1)
    requires red == FilteredByte(src, g, off, x, y, 2)
    ensures var after := WithPixel(before, g, x, y, blue, green, red);
      FilteredBefore(after, src, g, off, y, x + 1) && ZeroFrom(after, g, y, x + 1)
  {
    WritePixel(g, before, x, y, blue, green, red);
    FilteredOnePixel(before, src, g, off, x, y, blue, green, red);
  }

  lemma FilteredOnePixel(before: seq<Byte>, src: seq<Byte>, g: Geometry, off: int, x: int, y: int,
                         blue: Byte, green: Byte, red: Byte)
    requires WellFormed(g) && |before| == BufferSize(g) && |src| == BufferSize(g)
    requires 0 <= x < g.width && 0 <= y < g.height
    requires FilteredBefore(before, src, g, off, y, x)
    requires blue == FilteredByte(src, g, off, x, y, 0)
    requires green == FilteredByte(src, g, off, x, y, 1)
    requires red == FilteredByte(src, g, off, x, y, 2)
    ensures FilteredBefore(WithPixel(before, g, x, y, blue, green, red), src, g, off, y, x + 1)
  {
    var after := WithPixel(before, g, x, y, blue, green, red);
    WritePixel(g, before, x, y, blue, green, red);
    forall yy, xx, c | 0 <= yy <= y && 0 <= yy < g.height && 0 <= xx < g.width && 0 <= c < 3
                       && (yy < y || xx < x + 1)
      ensures PixelByte(after, g, xx, yy, c) == FilteredByte(src, g, off, xx, yy, c)
    {
      if yy != y || xx != x {
        assert yy != y || xx * 3 + c < 3 * x || 3 * x + 3 <= xx * 3 + c;
        assert At(after, g, yy, xx * 3 + c) == At(before, g, yy, xx * 3 + c);
        assert PixelByte(before, g, xx, yy, c) == FilteredByte(src, g, off, xx, yy, c);
      } else if c == 0 {
        assert PixelByte(after, g, x, y, 0) == blue;
      } else if c == 1 {
        assert PixelByte(after, g, x, y, 1) == green;
      } else {
        assert PixelByte(after, g, x, y, 2) == red;
      }
    }
  }

  /** The filter: every pixel of the result is the per-channel median of its window in
      the source; the bytes past the pixels in each row are left as allocated (zero);
      the source is only read. */
  method ApplyMedianFilterToBitmap(original: array<Byte>, g: Geometry, filterSize: int)
    returns (result: array<Byte>)
    requires WellFormed(g) && original.Length == BufferSize(g)
    ensures fresh(result) && result.Length == original.Length
    ensures forall y, x, c :: 0 <= y < g.height && 0 <= x < g.width && 0 <= c < 3 ==>
      PixelByte(result[..], g, x, y, c) == FilteredByte(original[..], g, HalfTowardZero(filterSize), x, y, c)
    ensures forall y, r :: 0 <= y < g.height && 3 * g.width <= r < g.stride ==>
      At(result[..], g, y, r) == 0
    ensures result[..] == Filtered(original[..], g, HalfTowardZero(filterSize))
  {
    ghost var src := original[..];
    var offset := HalfTowardZero(filterSize);
    result := new Byte[original.Length](_ => 0);
    forall yy, r | 0 <= yy < g.height && 0 <= r < g.stride
      ensures At(result[..], g, yy, r) == 0
    {
      IndexInRange(g, yy, r);
    }
    var y := 0;
    while y < g.height
      invariant 0 <= y <= g.height && original[..] == src
      invariant FilteredBefore(result[..], src, g, offset, y, 0)
      invariant ZeroFrom(result[..], g, y, 0)
    {
      FilterRow(original, result, g, y, offset);
      NextRow(result[..], src, g, offset, y);
      y := y + 1;
    }
    FilteredIsUnique(result[..], src, g, offset);
  }

  /** The loop over the pixels of row `y`. */
  method FilterRow(original: array<Byte>, result: array<Byte>, g: Geometry, y: int, offset: int)
    requires WellFormed(g) && original.Length == BufferSize(g) && result.Length == BufferSize(g)
    requires original != result && 0 <= y < g.height
    requires FilteredBefore(result[..], original[..], g, offset, y, 0)
    requires ZeroFrom(result[..], g, y, 0)
    modifies result
    ensures FilteredBefore(result[..], original[..], g, offset, y, g.width)
    ensures ZeroFrom(result[..], g, y, g.width)
  {
    ghost var src := original[..];
    var x := 0;
    while x < g.width
      invariant 0 <= x <= g.width && original[..] == src
      invariant FilteredBefore(result[..], src, g, offset, y, x)
      invariant ZeroFrom(result[..], g, y, x)
    {
      var blueValues, greenValues, redValues := CollectWindow(original, g, x, y, offset);
      var medianBlue := GetMedian(blueValues);
      var medianGreen := GetMedian(greenValues);
      var medianRed := GetMedian(redValues);
      var resultPixelOffset := y * g.stride + x * 3;
      PixelOffsetInRange(g, x, y);
      ghost var before := result[..];
      FilterOnePixel(before, src, g, offset, x, y, medianBlue, medianGreen, medianRed);
      result[resultPixelOffset] := medianBlue;
      result[resultPixelOffset + 1] := medianGreen;
      result[resultPixelOffset + 2] := medianRed;
      assert result[..] == WithPixel(before, g, x, y, medianBlue, medianGreen, medianRed);
      x := x + 1;
    }
  }

  /** A finished row: the facts for "before pixel (width, y)" are those for "before
      pixel (0, y + 1)". */
  lemma NextRow(res: seq<Byte>, src: seq<Byte>, g: Geometry, off: int, y: int)
    requires WellFormed(g) && |res| == BufferSize(g) && |src| == BufferSize(g)
    requires FilteredBefore(res, src, g, off, y, g.width) && ZeroFrom(res, g, y, g.width)
    ensures FilteredBefore(res, src, g, off, y + 1, 0) && ZeroFrom(res, g, y + 1, 0)
  {
  }

  // ---------------------------------------------------------------- ApplyMedianFilter

  /** A decoded image as `LockBits` presents it in 24-bit format: its size and its bytes. */
  datatype Bitmap = Bitmap(g: Geometry, pixels: seq<Byte>)

  type LockedBitmap = b: Bitmap | WellFormed(b.g) && |b.pixels| == BufferSize(b.g)
    witness Bitmap(Geometry(0, 0, 0), [])

  /** `new Bitmap(stream)`: the image the bytes decode to. */
  type Decoder = seq<Byte> -> LockedBitmap

  /** `Bitmap.Save(stream, ImageFormat.Png)`: the bytes of an image. */
  type Encoder = LockedBitmap -> seq<Byte>

  /** The default window size of `ApplyMedianFilter`, the one the slave uses. */
  const DefaultFilterSize := 15

  /** What `ApplyMedianFilter` returns: the decoded image with its pixels filtered,
      encoded again. */
  function FilterImage(imageData: seq<Byte>, filterSize: int, decode: Decoder, encode: Encoder): seq<Byte>
  {
    var b := decode(imageData);
    encode(Bitmap(b.g, Filtered(b.pixels, b.g, HalfTowardZero(filterSize))))
  }

  /** `ApplyMedianFilter`: decode, run the in-place filter on the locked buffers, encode. */
  method ApplyMedianFilter(imageData: seq<Byte>, filterSize: int, decode: Decoder, encode: Encoder)
    returns (processed: seq<Byte>)
    ensures processed == FilterImage(imageData, filterSize, decode, encode)
  {
    var originalImage := decode(imageData);
    var originalData := new Byte[|originalImage.pixels|](i requires 0 <= i < |originalImage.pixels| => originalImage.pixels[i]);
    assert originalData[..] == originalImage.pixels;
    var resultData := ApplyMedianFilterToBitmap(originalData, originalImage.g, filterSize);
    processed := encode(Bitmap(originalImage.g, resultData[..]));
  }

  /** The bytes `ApplyMedianFilter` returns are the encoding of the decoded image in which
      every pixel holds its window medians, channel by channel, and the row padding is 0;
      with the default size the window has half-width 7. */
  lemma FilterImageEncodesMedians(imageData: seq<Byte>, filterSize: int, decode: Decoder, encode: Encoder,
                                  res: seq<Byte>)
    requires var b := decode(imageData);
      |res| == |b.pixels| && IsFilterOf(res, b.pixels, b.g, HalfTowardZero(filterSize))
    ensures FilterImage(imageData, filterSize, decode, encode) == encode(Bitmap(decode(imageData).g, res))
    ensures HalfTowardZero(DefaultFilterSize) == 7
  {
    var b := decode(imageData);
    FilteredIsUnique(res, b.pixels, b.g, HalfTowardZero(filterSize));
  }
}
