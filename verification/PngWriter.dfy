/** The two PNG writers: pixel by pixel in truecolor, and by whole scanlines with a palette. */
module PngWriter {
  import opened Bytes
  import opened Number
  import opened RowCodec
  import opened PngSpec

  datatype Failure = BadSize | ShortBuffer | EmptyCrop | BadDepth | OutOfRange
  datatype Result = Written(png: Png) | Refused(failure: Failure)

  // The checks both writers make first.
  function Rejected(p: Pixmap, region: Option<Region>): Option<Failure> {
    if p.width <= 0 || p.height <= 0 then Some(BadSize)
    else if |p.pixels| < Area(p.height, p.rowBytes) then Some(ShortBuffer)
    else if CropOf(region, p.width, p.height).None? then Some(EmptyCrop)
    else None
  }

  predicate Deep(depth: int) {
    depth == 16 || depth == 32
  }

  // A scanline of n pixels behind its filter byte.
  ghost predicate LineShows(line: seq<byte>, p: Pixmap, c: Crop, y: nat, n: nat)
    requires Shallow(p.depth) || Deep(p.depth)
  {
    && |line| == 1 + 3 * n && line[0] == 0
    && forall x: nat :: x < n ==> LinePixel(line, x) == ColourAt(p, c.x + x, y)
  }

  function LinePixel(line: seq<byte>, x: nat): Option<Rgb> {
    if 3 + 3 * x < |line| then Some(Rgb(line[1 + 3 * x], line[2 + 3 * x], line[3 + 3 * x])) else None
  }

  ghost predicate LineReadable(p: Pixmap, c: Crop, y: nat, n: nat)
    requires Shallow(p.depth) || Deep(p.depth)
  {
    forall x: nat :: c.x <= x < c.x + n ==> ColourAt(p, x, y).Some?
  }

  // At 32 bits a slice that runs over the end is short, and no error.
  function DeepLine(p: Pixmap, c: Crop, y: nat, n: nat): seq<byte> {
    if n == 0 then [0]
    else
      var off := Area(y, p.rowBytes) + 4 * (c.x + n - 1);
      DeepLine(p, c, y, n - 1) + Part(p.pixels, off + 1, off + 4)
  }

  function DeepRows(p: Pixmap, c: Crop, n: nat): seq<byte> {
    if n == 0 then [] else DeepRows(p, c, n - 1) + DeepLine(p, c, c.y + n - 1, c.w)
  }

  // The row of pixels that the per-pixel loop appends.
  method TruecolorLine(p: Pixmap, c: Crop, y: nat) returns (r: Option<seq<byte>>)
    requires Shallow(p.depth) || Deep(p.depth)
    ensures LineReadable(p, c, y, c.w) ==> r.Some? && LineShows(r.value, p, c, y, c.w)
    ensures r.Some? && p.depth != 32 ==> LineReadable(p, c, y, c.w)
    ensures p.depth == 32 ==> r == Some(DeepLine(p, c, y, c.w))
  {
    hide ColourAt, LineReadable, LineShows, Part;
    var line := [0];
    LineStarts(p, c, y);
    for x := 0 to c.w
      invariant LineReadable(p, c, y, x) ==> LineShows(line, p, c, y, x)
      invariant p.depth != 32 ==> LineReadable(p, c, y, x)
      invariant p.depth == 32 ==> line == DeepLine(p, c, y, x)
    {
      ghost var was := line;
      var colour := ColourAt(p, c.x + x, y);
      if colour.Some? {
        line := line + [colour.value.r, colour.value.g, colour.value.b];
        LineGrows(was, p, c, y, x);
        DeepColour(p, c.x + x, y);
      } else if p.depth != 32 {
        LineEnds(p, c, y, x);
        return None;
      } else {
        var off := Area(y, p.rowBytes) + 4 * (c.x + x);
        line := line + Part(p.pixels, off + 1, off + 4);
        LineEnds(p, c, y, x);
      }
    }
    r := Some(line);
  }

  lemma LineStarts(p: Pixmap, c: Crop, y: nat)
    requires Shallow(p.depth) || Deep(p.depth)
    ensures LineReadable(p, c, y, 0) && LineShows([0], p, c, y, 0) && DeepLine(p, c, y, 0) == [0]
  {
  }

  lemma LineEnds(p: Pixmap, c: Crop, y: nat, x: nat)
    requires (Shallow(p.depth) || Deep(p.depth)) && ColourAt(p, c.x + x, y).None?
    ensures forall n: nat :: x < n ==> !LineReadable(p, c, y, n)
  {
    hide ColourAt;
  }

  lemma DeepColour(p: Pixmap, x: nat, y: nat)
    requires (Shallow(p.depth) || Deep(p.depth)) && ColourAt(p, x, y).Some?
    ensures p.depth == 32 ==>
              var off, rgb := Area(y, p.rowBytes) + 4 * x, ColourAt(p, x, y).value;
              Part(p.pixels, off + 1, off + 4) == [rgb.r, rgb.g, rgb.b]
  {
  }

  lemma LineGrows(line: seq<byte>, p: Pixmap, c: Crop, y: nat, n: nat)
    requires Shallow(p.depth) || Deep(p.depth)
    requires ColourAt(p, c.x + n, y).Some?
    ensures LineReadable(p, c, y, n + 1) <==> LineReadable(p, c, y, n)
    ensures LineShows(line, p, c, y, n) ==>
              var rgb := ColourAt(p, c.x + n, y).value;
              LineShows(line + [rgb.r, rgb.g, rgb.b], p, c, y, n + 1)
  {
    hide ColourAt;
    var rgb := ColourAt(p, c.x + n, y).value;
    var more := line + [rgb.r, rgb.g, rgb.b];
    if LineShows(line, p, c, y, n) {
      forall x: nat | x < n + 1
        ensures LinePixel(more, x) == ColourAt(p, c.x + x, y)
      {
        assert x < n ==> LinePixel(more, x) == LinePixel(line, x);
      }
    }
  }

  // Scanline k of an image whose scanlines have stride bytes.
  function LineOf(raw: seq<byte>, stride: nat, k: nat): seq<byte> {
    Part(raw, Area(k, stride), Area(k, stride) + stride)
  }

  lemma LineAdded(raw: seq<byte>, line: seq<byte>, stride: nat, n: nat)
    requires |line| == stride && |raw| == Area(n, stride)
    ensures |raw + line| == Area(n + 1, stride) && LineOf(raw + line, stride, n) == line
    ensures forall k: nat :: k < n ==> LineOf(raw + line, stride, k) == LineOf(raw, stride, k)
  {
    forall k: nat | k < n
      ensures LineOf(raw + line, stride, k) == LineOf(raw, stride, k)
    {
      RowFits(k, n, stride);
    }
  }

  // The bytes of a truecolor scanline.
  function Stride(w: nat): nat {
    1 + 3 * w
  }

  // The first n scanlines show rows c.y, c.y + 1, ... of the crop.
  ghost predicate RowsShow(raw: seq<byte>, p: Pixmap, c: Crop, n: nat)
    requires Shallow(p.depth) || Deep(p.depth)
  {
    && |raw| == Area(n, Stride(c.w))
    && forall k: nat :: k < n ==> LineShows(LineOf(raw, Stride(c.w), k), p, c, c.y + k, c.w)
  }

  ghost predicate Readable(p: Pixmap, c: Crop, n: nat)
    requires Shallow(p.depth) || Deep(p.depth)
  {
    forall y: nat :: c.y <= y < c.y + n ==> LineReadable(p, c, y, c.w)
  }

  lemma RowsGrow(raw: seq<byte>, line: seq<byte>, p: Pixmap, c: Crop, n: nat)
    requires Shallow(p.depth) || Deep(p.depth)
    requires RowsShow(raw, p, c, n) && LineShows(line, p, c, c.y + n, c.w)
    ensures RowsShow(raw + line, p, c, n + 1)
  {
    hide LineOf, ColourAt, Area;
    LineSize(line, p, c, c.y + n);
    hide LineShows;
    LineAdded(raw, line, Stride(c.w), n);
  }

  lemma LineSize(line: seq<byte>, p: Pixmap, c: Crop, y: nat)
    requires Shallow(p.depth) || Deep(p.depth)
    requires LineShows(line, p, c, y, c.w)
    ensures |line| == 1 + 3 * c.w
  {
  }

  // What raw_to_png makes of an acceptable pixmap.
  ghost predicate TruecolorOf(r: Result, p: Pixmap, c: Crop)
    requires Shallow(p.depth) || Deep(p.depth)
  {
    && (Readable(p, c, c.h) ==> r.Written?)
    && (r.Refused? ==> r.failure == OutOfRange && p.depth != 32)
    && (p.depth == 32 ==> r.Written? && r.png.Truecolor? && r.png.raw == DeepRows(p, c, c.h))
    && (r.Written? ==>
          && r.png.Truecolor? && r.png.w == c.w && r.png.h == c.h
          && (p.depth != 32 ==> Readable(p, c, c.h))
          && (Readable(p, c, c.h) ==> RowsShow(r.png.raw, p, c, c.h)))
  }

  method RawToPng(p: Pixmap, region: Option<Region>) returns (r: Result)
    ensures var bad := Rejected(p, region);
            if bad.Some? then r == Refused(bad.value)
            else if !Shallow(p.depth) && !Deep(p.depth) then r == Refused(BadDepth)
            else TruecolorOf(r, p, CropOf(region, p.width, p.height).value)
  {
    hide LineReadable, RowsShow, LineShows, DeepLine;
    var bad := Rejected(p, region);
    if bad.Some? {
      return Refused(bad.value);
    }
    var c := CropOf(region, p.width, p.height).value;
    if !Shallow(p.depth) && !Deep(p.depth) {
      return Refused(BadDepth);
    }
    var raw := [];
    NoRows(p, c);
    for k := 0 to c.h
      invariant Readable(p, c, k) ==> RowsShow(raw, p, c, k)
      invariant p.depth != 32 ==> Readable(p, c, k)
      invariant p.depth == 32 ==> raw == DeepRows(p, c, k)
    {
      var line := TruecolorLine(p, c, c.y + k);
      if line.None? {
        return Refused(OutOfRange);
      }
      if Readable(p, c, k + 1) {
        RowsGrow(raw, line.value, p, c, k);
      }
      raw := raw + line.value;
    }
    r := Written(Truecolor(c.w, c.h, raw));
  }

  lemma NoRows(p: Pixmap, c: Crop)
    requires Shallow(p.depth) || Deep(p.depth)
    ensures RowsShow([], p, c, 0)
  {
  }

  /** The indexed writer */

  // _indexed_palette: the colour table cut to what the depth can name, or the gray ramp.
  function PaletteOf(clut: seq<byte>, depth: int): (r: seq<Rgb>)
    requires Shallow(depth)
  {
    var n := if Entries(clut) < Pow2(depth) then Entries(clut) else Pow2(depth);
    if n > 0 then seq(n, i requires 0 <= i < n => Entry(clut, i))
    else seq(Pow2(depth), i requires 0 <= i < Pow2(depth) => Gray(depth, i))
  }

  // Python's s[a:b] = t.
  function Assigned(s: seq<byte>, a: nat, b: nat, t: seq<byte>): seq<byte> {
    (if a <= |s| then s[..a] else s) + t + (if b <= |s| then s[b..] else [])
  }

  // Where scanline y of the crop starts in the pixmap.
  function SliceStart(p: Pixmap, c: Crop, y: nat): nat
    requires Shallow(p.depth)
  {
    Area(y, p.rowBytes) + c.x / PerByte(p.depth)
  }

  predicate SliceWhole(p: Pixmap, c: Crop, y: nat)
    requires Shallow(p.depth)
  {
    SliceStart(p, c, y) + Width(c.w, p.depth) <= |p.pixels|
  }

  function SliceOf(p: Pixmap, c: Crop, y: nat): seq<byte>
    requires Shallow(p.depth)
  {
    Part(p.pixels, SliceStart(p, c, y), SliceStart(p, c, y) + Width(c.w, p.depth))
  }

  function LineFilter(raw: seq<byte>, stride: nat, k: nat): int {
    var line := LineOf(raw, stride, k);
    if line == [] then -1 else line[0]
  }

  lemma LineAssigned(raw: seq<byte>, stride: nat, h: nat, k: nat, t: seq<byte>)
    requires |raw| == Area(h, stride) && k < h && 1 + |t| == stride && LineFilter(raw, stride, k) == 0
    ensures var o := Area(k, stride);
            var now := Assigned(raw, o + 1, o + stride, t);
            && |now| == |raw| && LineOf(now, stride, k) == [0] + t
            && forall j: nat :: j < h && j != k ==> LineOf(now, stride, j) == LineOf(raw, stride, j)
  {
    RowFits(k, h, stride);
    var o := Area(k, stride);
    var now := Assigned(raw, o + 1, o + stride, t);
    forall j: nat | j < h && j != k
      ensures LineOf(now, stride, j) == LineOf(raw, stride, j)
    {
      OtherLine(raw, stride, h, k, t, j);
    }
  }

  lemma OtherLine(raw: seq<byte>, stride: nat, h: nat, k: nat, t: seq<byte>, j: nat)
    requires |raw| == Area(h, stride) && k < h && 1 + |t| == stride && j < h && j != k
    ensures var o := Area(k, stride);
            LineOf(Assigned(raw, o + 1, o + stride, t), stride, j) == LineOf(raw, stride, j)
  {
    RowFits(j, h, stride);
    RowFits(k, h, stride);
    if j < k {
      RowFits(j, k, stride);
    } else {
      RowFits(k, j, stride);
    }
  }

  // The first n scanlines are slices of the pixmap; all h have filter type 0.
  ghost predicate SlicesShow(raw: seq<byte>, p: Pixmap, c: Crop, n: nat)
    requires Shallow(p.depth)
  {
    var stride := 1 + Width(c.w, p.depth);
    && |raw| == Area(c.h, stride)
    && (forall k: nat :: k < c.h ==> LineFilter(raw, stride, k) == 0)
    && forall k: nat :: k < n && k < c.h ==> LineOf(raw, stride, k) == [0] + SliceOf(p, c, c.y + k)
  }

  lemma SlicesGrow(raw: seq<byte>, p: Pixmap, c: Crop, n: nat)
    requires Shallow(p.depth) && n < c.h && SlicesShow(raw, p, c, n) && SliceWhole(p, c, c.y + n)
    ensures var stride := 1 + Width(c.w, p.depth);
            var o := Area(n, stride);
            SlicesShow(Assigned(raw, o + 1, o + stride, SliceOf(p, c, c.y + n)), p, c, n + 1)
  {
    hide LineOf, Assigned;
    var stride := 1 + Width(c.w, p.depth);
    var t := SliceOf(p, c, c.y + n);
    assert LineFilter(raw, stride, n) == 0;
    LineAssigned(raw, stride, c.h, n, t);
    var now := Assigned(raw, Area(n, stride) + 1, Area(n, stride) + stride, t);
    assert forall k: nat :: k < c.h && k != n ==> LineFilter(now, stride, k) == LineFilter(raw, stride, k);
  }

  lemma ShortAssign(raw: seq<byte>, stride: nat, h: nat, k: nat, t: seq<byte>)
    requires |raw| <= Area(h, stride) && k < h && 1 + |t| < stride
    ensures |Assigned(raw, Area(k, stride) + 1, Area(k, stride) + stride, t)| < Area(h, stride)
  {
    RowFits(k, h, stride);
  }

  function Blank(n: nat): (r: seq<byte>)
    ensures |r| == n
  {
    seq(n, i => 0)
  }

  lemma BlankLines(stride: nat, h: nat, k: nat)
    requires k < h && stride > 0
    ensures LineFilter(Blank(Area(h, stride)), stride, k) == 0
  {
    RowFits(k, h, stride);
  }

  // What raw_to_png_indexed makes of an acceptable pixmap and an aligned crop: slices when they are whole, else an
  // image too short for its own height.
  ghost predicate IndexedOf(png: Png, p: Pixmap, c: Crop)
    requires Shallow(p.depth)
  {
    && png.Indexed? && png.w == c.w && png.h == c.h && png.depth == p.depth && png.palette == PaletteOf(p.clut, p.depth)
    && if AllWhole(p, c, c.h) then SlicesShow(png.raw, p, c, c.h) else |png.raw| < Area(c.h, 1 + Width(c.w, p.depth))
  }

  ghost predicate AllWhole(p: Pixmap, c: Crop, n: nat)
    requires Shallow(p.depth)
  {
    forall y: nat :: c.y <= y < c.y + n ==> SliceWhole(p, c, y)
  }

  ghost predicate Progress(raw: seq<byte>, p: Pixmap, c: Crop, n: nat)
    requires Shallow(p.depth)
  {
    if AllWhole(p, c, n) then SlicesShow(raw, p, c, n)
    else n > 0 && |raw| < Area(c.h, 1 + Width(c.w, p.depth)) && !SliceWhole(p, c, c.y + n - 1)
  }

  lemma NextSlice(raw: seq<byte>, p: Pixmap, c: Crop, n: nat)
    requires Shallow(p.depth) && n < c.h && c.w > 0 && Progress(raw, p, c, n)
    ensures var stride := 1 + Width(c.w, p.depth);
            var o := Area(n, stride);
            Progress(Assigned(raw, o + 1, o + stride, SliceOf(p, c, c.y + n)), p, c, n + 1)
  {
    hide Assigned, LineOf;
    var stride := 1 + Width(c.w, p.depth);
    if SliceWhole(p, c, c.y + n) {
      assert AllWhole(p, c, n) ==> AllWhole(p, c, n + 1);
      SlicesGrow(raw, p, c, n);
    } else {
      SomeWidth(c.w, p.depth);
      ShortAssign(raw, stride, c.h, n, SliceOf(p, c, c.y + n));
    }
  }

  method RawToPngIndexed(p: Pixmap, region: Option<Region>) returns (r: Result)
    ensures var bad := Rejected(p, region);
            if bad.Some? then r == Refused(bad.value)
            else if !Shallow(p.depth) && !Deep(p.depth) then r == Refused(BadDepth)
            else
              var c := CropOf(region, p.width, p.height).value;
              if Shallow(p.depth) && c.x % PerByte(p.depth) == 0 then r.Written? && IndexedOf(r.png, p, c)
              else TruecolorOf(r, p, c)
  {
    if !Shallow(p.depth) {
      r := RawToPng(p, region);
      return;
    }
    var bad := Rejected(p, region);
    if bad.Some? {
      return Refused(bad.value);
    }
    var c := CropOf(region, p.width, p.height).value;
    if c.x % PerByte(p.depth) != 0 {
      r := RawToPng(p, Some(Region(c.x, c.y, c.w, c.h)));
      return;
    }
    var raw := SliceLines(p, c);
    r := Written(Indexed(c.w, c.h, p.depth, PaletteOf(p.clut, p.depth), raw));
  }

  method SliceLines(p: Pixmap, c: Crop) returns (raw: seq<byte>)
    requires Shallow(p.depth) && c.w > 0
    ensures Progress(raw, p, c, c.h)
  {
    hide SlicesShow, SliceWhole, LineOf, LineFilter, Assigned, SliceOf, Progress, Blank, Width;
    var stride := 1 + Width(c.w, p.depth);
    raw := Blank(Area(c.h, stride));
    ProgressStart(p, c);
    var o := 0;
    for k := 0 to c.h
      invariant o == Area(k, stride) && Progress(raw, p, c, k)
    {
      NextSlice(raw, p, c, k);
      AreaNext(k, stride);
      raw := Assigned(raw, o + 1, o + stride, SliceOf(p, c, c.y + k));
      o := o + stride;
    }
  }

  lemma BlankStart(p: Pixmap, c: Crop)
    requires Shallow(p.depth)
    ensures SlicesShow(Blank(Area(c.h, 1 + Width(c.w, p.depth))), p, c, 0)
  {
    hide LineFilter, Blank;
    var stride := 1 + Width(c.w, p.depth);
    var raw := Blank(Area(c.h, stride));
    forall k: nat | k < c.h
      ensures LineFilter(raw, stride, k) == 0
    {
      BlankLines(stride, c.h, k);
    }
  }

  lemma AreaNext(k: nat, stride: nat)
    ensures Area(k + 1, stride) == Area(k, stride) + stride
  {
  }

  lemma ProgressStart(p: Pixmap, c: Crop)
    requires Shallow(p.depth)
    ensures Progress(Blank(Area(c.h, 1 + Width(c.w, p.depth))), p, c, 0) && Area(0, 1 + Width(c.w, p.depth)) == 0
  {
    hide SlicesShow, Width, Blank;
    BlankStart(p, c);
  }

  lemma SomeWidth(w: nat, depth: int)
    requires Shallow(depth) && w > 0
    ensures Width(w, depth) > 0
  {
  }
}
