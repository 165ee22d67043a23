/** The indexed PNG shows what the truecolor one shows: exactly when, and that both fail on the same buffers. */
module PngRefines {
  import opened Bytes
  import opened Number
  import opened RowCodec
  import opened PngSpec
  import opened PngWriter

  // An image both writers accept, and a crop of it that starts on a byte.
  ghost predicate Sliceable(p: Pixmap, c: Crop) {
    && Shallow(p.depth) && c.x % PerByte(p.depth) == 0 && c.w > 0 && c.h > 0
    && c.x + c.w <= p.width && c.y + c.h <= p.height
  }

  lemma Position(depth: int, left: nat, x: nat, w: nat)
    requires Shallow(depth) && left % PerByte(depth) == 0 && x < w
    ensures (left + x) / PerByte(depth) == left / PerByte(depth) + x / PerByte(depth)
    ensures (left + x) % PerByte(depth) == x % PerByte(depth)
    ensures x / PerByte(depth) < Width(w, depth)
    ensures (left + w - 1) / PerByte(depth) == left / PerByte(depth) + Width(w, depth) - 1
  {
  }

  // The PNG's bit order is the pixmap's.
  lemma SampleIsIndex(depth: int, b: byte, x: nat, left: nat)
    requires Shallow(depth) && left % PerByte(depth) == 0
    ensures Sample(depth, b, x) == IndexIn(depth, b, left + x)
  {
    hide Sample, IndexIn;
    if depth == 1 {
      SampleOfOne(b, x, left);
    } else if depth == 2 {
      SampleOfTwo(b, x, left);
    } else if depth == 4 {
      SampleOfFour(b, x, left);
    } else {
      SampleOfEight(b, x, left);
    }
  }

  lemma SampleOfFour(b: byte, x: nat, left: nat)
    requires left % 2 == 0
    ensures Sample(4, b, x) == IndexIn(4, b, left + x)
  {
    assert (left + x) % 2 == x % 2;
    Powers();
  }

  lemma SampleOfEight(b: byte, x: nat, left: nat)
    ensures Sample(8, b, x) == IndexIn(8, b, left + x)
  {
    Powers();
  }

  lemma SampleOfOne(b: byte, x: nat, left: nat)
    requires left % 8 == 0
    ensures Sample(1, b, x) == IndexIn(1, b, left + x)
  {
    assert (left + x) % 8 == x % 8;
    Powers();
  }

  lemma SampleOfTwo(b: byte, x: nat, left: nat)
    requires left % 4 == 0
    ensures Sample(2, b, x) == IndexIn(2, b, left + x)
  {
    assert (left + x) % 4 == x % 4;
    Powers();
  }

  // A scanline can be sliced exactly when its pixels can be read.
  lemma WholeIsReadable(p: Pixmap, c: Crop, y: nat)
    requires Sliceable(p, c)
    ensures SliceWhole(p, c, y) <==> LineReadable(p, c, y, c.w)
  {
    hide IndexIn, Colour, Area;
    Position(p.depth, c.x, c.w - 1, c.w);
    if SliceWhole(p, c, y) {
      forall x: nat | c.x <= x < c.x + c.w
        ensures ColourAt(p, x, y).Some?
      {
        Position(p.depth, c.x, x - c.x, c.w);
        LastByte(p, c, y, x);
      }
    } else {
      LastByte(p, c, y, c.x + c.w - 1);
    }
  }

  lemma LastByte(p: Pixmap, c: Crop, y: nat, x: nat)
    requires Shallow(p.depth)
    ensures ColourAt(p, x, y).Some? <==> Area(y, p.rowBytes) + x / PerByte(p.depth) < |p.pixels|
  {
    hide IndexIn, Colour, Area;
  }

  // The per-pixel loop raises exactly when a slice comes up short.
  lemma SameFailures(slow: Result, p: Pixmap, c: Crop)
    requires Sliceable(p, c) && TruecolorOf(slow, p, c)
    ensures slow.Written? <==> AllWhole(p, c, c.h)
  {
    hide LineReadable, SliceWhole, RowsShow;
    forall y: nat
      ensures SliceWhole(p, c, y) <==> LineReadable(p, c, y, c.w)
    {
      WholeIsReadable(p, c, y);
    }
  }

  // What the truecolor image shows.
  lemma SlowShows(png: Png, p: Pixmap, c: Crop, x: nat, y: nat)
    requires (Shallow(p.depth) || Deep(p.depth)) && png.Truecolor? && png.w == c.w
    requires RowsShow(png.raw, p, c, c.h) && x < c.w && y < c.h
    ensures Shows(png, x, y) == ColourAt(p, c.x + x, c.y + y)
  {
    hide ColourAt;
    RowFits(y, c.h, Stride(c.w));
    var line := LineOf(png.raw, Stride(c.w), y);
    assert LineShows(line, p, c, c.y + y, c.w);
    assert LinePixel(line, x) == ColourAt(p, c.x + x, c.y + y);
  }

  // The scanline byte that holds pixel x is the pixmap's.
  lemma SlicedByte(p: Pixmap, c: Crop, x: nat, y: nat)
    requires Sliceable(p, c) && SliceWhole(p, c, y) && x < c.w
    ensures var at := Area(y, p.rowBytes) + (c.x + x) / PerByte(p.depth);
            && x / PerByte(p.depth) < |SliceOf(p, c, y)| == Width(c.w, p.depth) && at < |p.pixels|
            && SliceOf(p, c, y)[x / PerByte(p.depth)] == p.pixels[at]
  {
    hide Area, Width, PerByte;
    Position(p.depth, c.x, x, c.w);
  }

  // What the indexed image shows: the same index, looked up in its palette.
  lemma FastShows(png: Png, p: Pixmap, c: Crop, x: nat, y: nat)
    requires Sliceable(p, c) && IndexedOf(png, p, c) && AllWhole(p, c, c.h) && x < c.w && y < c.h
    ensures var i := IndexAt(p, c.x + x, c.y + y);
            i.Some? && Shows(png, x, y) == if i.value < |png.palette| then Some(png.palette[i.value]) else None
  {
    hide Sample, IndexIn, SliceOf, LineOf, Width, PaletteOf, Area;
    SlicedByte(p, c, x, c.y + y);
    LineBytes(png.raw, p, c, x, y);
    SampleIsIndex(p.depth, p.pixels[Area(c.y + y, p.rowBytes) + (c.x + x) / PerByte(p.depth)], x, c.x);
  }

  lemma LineBytes(raw: seq<byte>, p: Pixmap, c: Crop, x: nat, y: nat)
    requires Shallow(p.depth) && SlicesShow(raw, p, c, c.h) && y < c.h
    requires x / PerByte(p.depth) < |SliceOf(p, c, c.y + y)| == Width(c.w, p.depth)
    ensures var o := Area(y, 1 + Width(c.w, p.depth));
            && o + 1 + x / PerByte(p.depth) < |raw| && raw[o] == 0
            && raw[o + 1 + x / PerByte(p.depth)] == SliceOf(p, c, c.y + y)[x / PerByte(p.depth)]
  {
    hide Width, SliceOf, Area, PerByte;
    var stride := 1 + Width(c.w, p.depth);
    RowFits(y, c.h, stride);
    var line := LineOf(raw, stride, y);
    assert line == [0] + SliceOf(p, c, c.y + y);
    assert line[0] == raw[Area(y, stride)];
  }

  // No colour table, or one with an entry for every index in the crop.
  ghost predicate Covered(p: Pixmap, c: Crop)
    requires Shallow(p.depth)
  {
    Entries(p.clut) == 0 || forall x: nat, y: nat :: x < c.w && y < c.h ==> IndexCovered(p, c, x, y)
  }

  predicate IndexCovered(p: Pixmap, c: Crop, x: nat, y: nat)
    requires Shallow(p.depth)
  {
    var i := IndexAt(p, c.x + x, c.y + y);
    i.Some? && i.value < Entries(p.clut)
  }

  lemma PaletteColour(clut: seq<byte>, depth: int, i: nat)
    requires Shallow(depth) && i < Pow2(depth)
    ensures i < |PaletteOf(clut, depth)| <==> Entries(clut) == 0 || i < Entries(clut)
    ensures i < |PaletteOf(clut, depth)| ==> PaletteOf(clut, depth)[i] == Colour(depth, clut, i)
  {
    hide Entry, Gray, Pow2;
  }

  // One pixel of the two images.
  lemma SamePixel(slow: Png, fast: Png, p: Pixmap, c: Crop, x: nat, y: nat)
    requires Sliceable(p, c) && AllWhole(p, c, c.h) && IndexedOf(fast, p, c)
    requires slow.Truecolor? && slow.w == c.w && RowsShow(slow.raw, p, c, c.h) && x < c.w && y < c.h
    ensures Shows(fast, x, y) == Shows(slow, x, y) <==> Entries(p.clut) == 0 || IndexCovered(p, c, x, y)
  {
    hide Shows, AllWhole, RowsShow, PaletteOf, Colour, SlicesShow;
    SlowShows(slow, p, c, x, y);
    FastShows(fast, p, c, x, y);
    PaletteColour(p.clut, p.depth, IndexAt(p, c.x + x, c.y + y).value);
  }

  // The main result.  The two writers fail on the same buffers, and on the others the indexed image shows the same
  // colour at every pixel exactly when its palette covers the picture.
  lemma FastRefinesSlow(slow: Result, fast: Png, p: Pixmap, c: Crop)
    requires Sliceable(p, c) && TruecolorOf(slow, p, c) && IndexedOf(fast, p, c)
    ensures slow.Written? <==> |fast.raw| == Area(c.h, 1 + Width(c.w, p.depth))
    ensures slow.Written? ==>
              ((forall x: nat, y: nat :: x < c.w && y < c.h ==> Shows(fast, x, y) == Shows(slow.png, x, y))
               <==> Covered(p, c))
  {
    hide Shows, RowsShow, PaletteOf, Width, LineReadable, SliceWhole, IndexCovered, LineFilter, LineOf;
    SameFailures(slow, p, c);
    if slow.Written? {
      forall x: nat, y: nat | x < c.w && y < c.h
        ensures Shows(fast, x, y) == Shows(slow.png, x, y) <==> Entries(p.clut) == 0 || IndexCovered(p, c, x, y)
      {
        ReadableWhole(p, c);
        SamePixel(slow.png, fast, p, c, x, y);
      }
    }
  }

  lemma ReadableWhole(p: Pixmap, c: Crop)
    requires Sliceable(p, c)
    ensures AllWhole(p, c, c.h) <==> Readable(p, c, c.h)
  {
    hide LineReadable, SliceWhole;
    forall y: nat
      ensures SliceWhole(p, c, y) <==> LineReadable(p, c, y, c.w)
    {
      WholeIsReadable(p, c, y);
    }
  }

  // Rows as wide as the header says are enough.
  lemma WideRows(p: Pixmap, c: Crop)
    requires Sliceable(p, c) && p.rowBytes * 8 >= p.width * p.depth && |p.pixels| >= Area(p.height, p.rowBytes)
    ensures AllWhole(p, c, c.h)
  {
    forall y: nat | c.y <= y < c.y + c.h
      ensures SliceWhole(p, c, y)
    {
      RowFits(y, p.height, p.rowBytes);
      Position(p.depth, c.x, c.w - 1, c.w);
      InRow(p.depth, p.width, c.x + c.w - 1, p.rowBytes);
    }
  }

  lemma InRow(depth: int, width: int, x: nat, rowBytes: nat)
    requires Shallow(depth) && x < width && rowBytes * 8 >= width * depth
    ensures x / PerByte(depth) < rowBytes
  {
  }
}
