/** What the PNG writers' colours, crops and scanlines are, in the numbers of the pixmap's and the PNG's formats. */
module PngColours {
  import opened Bytes
  import opened Number
  import opened RowCodec
  import opened PngSpec
  import opened PngWriter

  /** Sixteen bits: five per channel, red first, the top bit unused */

  // The channel's five bits are spread over 0 to 255, never off the exact proportion by a whole step.
  lemma Expansion(v: nat, w: nat)
    requires v < w < 32
    ensures Expand5(0) == 0 && Expand5(31) == 255
    ensures Expand5(v) < Expand5(w)
    ensures -31 < 31 * Expand5(w) as int - 255 * w < 31
  {
  }

  lemma SixteenBits(p: Pixmap, x: nat, y: nat, top: nat, r: nat, g: nat, b: nat)
    requires p.depth == 16 && top < 2 && r < 32 && g < 32 && b < 32
    requires var o := y * p.rowBytes + 2 * x;
             o + 1 < |p.pixels| && 256 * p.pixels[o] as int + p.pixels[o + 1] == 32768 * top + 1024 * r + 32 * g + b
    ensures ColourAt(p, x, y) == Some(Rgb(Expand5(r), Expand5(g), Expand5(b)))
  {
    AreaProduct(y, p.rowBytes);
    Fields16(top, r, g, b);
  }

  lemma Fields16(top: nat, r: nat, g: nat, b: nat)
    requires top < 2 && r < 32 && g < 32 && b < 32
    ensures var v := 32768 * top + 1024 * r + 32 * g + b;
            v / 1024 % 32 == r && v / 32 % 32 == g && v % 32 == b
  {
    var v := 32768 * top + 1024 * r + 32 * g + b;
    assert v / 1024 == 32 * top + r;
    assert v / 32 == 1024 * top + 32 * r + g;
  }

  /** Thirty-two bits: one byte unused, then red, green and blue */

  lemma ThirtyTwoBits(p: Pixmap, x: nat, y: nat, r: byte, g: byte, b: byte)
    requires p.depth == 32
    requires var o := y * p.rowBytes + 4 * x;
             o + 3 < |p.pixels| && p.pixels[o + 1] == r && p.pixels[o + 2] == g && p.pixels[o + 3] == b
    ensures ColourAt(p, x, y) == Some(Rgb(r, g, b))
  {
    AreaProduct(y, p.rowBytes);
  }

  // A pixel can be read exactly when its last byte is there.
  lemma Readability(p: Pixmap, x: nat, y: nat)
    requires p.depth in {1, 2, 4, 8, 16, 32}
    ensures ColourAt(p, x, y).Some? <==> (if p.depth == 32 then y * p.rowBytes + 4 * x + 3
                                          else if p.depth == 16 then y * p.rowBytes + 2 * x + 1
                                          else y * p.rowBytes + x / (8 / p.depth)) < |p.pixels|
  {
    hide IndexIn, Colour;
    AreaProduct(y, p.rowBytes);
  }

  /** Up to eight bits: indices packed from the high-order end of each byte */

  lemma EightBits(p: Pixmap, x: nat, y: nat)
    requires p.depth == 8 && y * p.rowBytes + x < |p.pixels|
    ensures IndexAt(p, x, y) == Some(p.pixels[y * p.rowBytes + x])
  {
    AreaProduct(y, p.rowBytes);
  }

  lemma FourBits(p: Pixmap, x: nat, y: nat, left: nat, right: nat)
    requires p.depth == 4 && left < 16 && right < 16
    requires y * p.rowBytes + x / 2 < |p.pixels| && p.pixels[y * p.rowBytes + x / 2] == 16 * left + right
    ensures IndexAt(p, x, y) == Some(if x % 2 == 0 then left else right)
  {
    AreaProduct(y, p.rowBytes);
  }

  lemma TwoBits(p: Pixmap, x: nat, y: nat, a: nat, b: nat, c: nat, d: nat)
    requires p.depth == 2 && a < 4 && b < 4 && c < 4 && d < 4
    requires y * p.rowBytes + x / 4 < |p.pixels| && p.pixels[y * p.rowBytes + x / 4] == 64 * a + 16 * b + 4 * c + d
    ensures IndexAt(p, x, y)
         == Some(if x % 4 == 0 then a else if x % 4 == 1 then b else if x % 4 == 2 then c else d)
  {
    hide Area;
    AreaProduct(y, p.rowBytes);
    PairOf(a, b, c, d);
    TwoBitIndex(p.pixels[y * p.rowBytes + x / 4], x);
  }

  lemma PairOf(a: nat, b: nat, c: nat, d: nat)
    requires a < 4 && b < 4 && c < 4 && d < 4
    ensures var v := 64 * a + 16 * b + 4 * c + d;
            v / 64 % 4 == a && v / 16 % 4 == b && v / 4 % 4 == c && v % 4 == d
  {
    var v := 64 * a + 16 * b + 4 * c + d;
    assert v / 64 == a && v / 16 == 4 * a + b && v / 4 == 16 * a + 4 * b + c;
  }

  lemma TwoBitIndex(b: byte, x: nat)
    ensures IndexIn(2, b, x)
         == if x % 4 == 0 then b / 64 % 4 else if x % 4 == 1 then b / 16 % 4
            else if x % 4 == 2 then b / 4 % 4 else b % 4
  {
    Powers();
  }

  lemma OneBit(p: Pixmap, x: nat, y: nat, above: nat, bit: nat, below: nat)
    requires p.depth == 1 && bit < 2
    requires y * p.rowBytes + x / 8 < |p.pixels|
    requires below < Pow2(7 - x % 8)
    requires p.pixels[y * p.rowBytes + x / 8] == Pow2(7 - x % 8) * (2 * above + bit) + below
    ensures IndexAt(p, x, y) == Some(bit)
  {
    AreaProduct(y, p.rowBytes);
    Quotient(Pow2(7 - x % 8), 2 * above + bit, below);
  }

  lemma Quotient(m: nat, q: nat, r: nat)
    requires r < m
    ensures (m * q + r) / m == q
  {
    assert (m * q + r) / m == q by {
      var k := (m * q + r) / m;
      if k < q { Scaled(m, k + 1, q); } else if k > q { Scaled(m, q + 1, k); }
    }
  }

  lemma Scaled(m: nat, a: int, b: int)
    requires a <= b
    ensures m * a <= m * b
  {
  }

  // The colour of an index: its entry of the table, or a step of a gray ramp; one bit is white for 0 and black for 1.
  lemma IndexColours(depth: int, clut: seq<byte>, i: nat)
    requires depth in {1, 2, 4, 8} && i < Pow2(depth)
    ensures 3 * i + 2 < |clut| ==> Colour(depth, clut, i) == Rgb(clut[3 * i], clut[3 * i + 1], clut[3 * i + 2])
    ensures 3 * i + 2 >= |clut| ==>
              var c := Colour(depth, clut, i);
              c.r == c.g == c.b && GrayStep(depth, i, c.r)
  {
    Powers();
  }

  ghost predicate GrayStep(depth: int, i: nat, level: byte) {
    if depth == 1 then level == (if i == 0 then 255 else 0)
    else
      var last := if depth == 2 then 3 else if depth == 4 then 15 else 255;
      last * level as int <= 255 * i < last * (level as int + 1)
  }

  // The PNG's palette holds these colours, for all indices that have an entry, or for all there are.
  lemma PaletteColours(clut: seq<byte>, depth: int)
    requires depth in {1, 2, 4, 8}
    ensures var most := if depth == 1 then 2 else if depth == 2 then 4 else if depth == 4 then 16 else 256;
            && |PaletteOf(clut, depth)| == (if |clut| < 3 || |clut| / 3 > most then most else |clut| / 3)
            && forall i :: 0 <= i < |PaletteOf(clut, depth)| ==> PaletteOf(clut, depth)[i] == Colour(depth, clut, i)
  {
    hide Gray, Entry;
    Powers();
  }

  /** Crops */

  // Pixel (x, y) belongs to the crop exactly when the screen and the region have it; a region that starts left of the
  // screen or above it is moved to the edge first.
  lemma CropMeans(r: Region, width: nat, height: nat, x: nat, y: nat)
    requires width > 0 && height > 0
    ensures var left, top := if r.x < 0 then 0 else r.x, if r.y < 0 then 0 else r.y;
            var c := CropOf(Some(r), width, height);
            c.Some? && c.value.x <= x < c.value.x + c.value.w && c.value.y <= y < c.value.y + c.value.h
            <==> x < width && y < height && left <= x < left + r.w && top <= y < top + r.h
  {
  }

  lemma NoRegion(width: nat, height: nat)
    ensures CropOf(None, width, height) == Some(Crop(0, 0, width, height))
  {
  }

  // What is refused before a pixel is looked at, in this order.
  lemma RejectedMeans(p: Pixmap, region: Option<Region>)
    ensures Rejected(p, region)
         == if p.width < 1 || p.height < 1 then Some(BadSize)
            else if p.height * p.rowBytes > |p.pixels| then Some(ShortBuffer)
            else if region.Some? && (forall x: nat, y: nat :: !InBoth(region.value, p, x, y)) then Some(EmptyCrop)
            else None
  {
    if p.width >= 1 && p.height >= 1 {
      AreaProduct(p.height, p.rowBytes);
      if region.Some? {
        var c := CropOf(region, p.width, p.height);
        forall x: nat, y: nat
          ensures InBoth(region.value, p, x, y) ==> c.Some?
        {
          CropMeans(region.value, p.width, p.height, x, y);
        }
        if c.Some? {
          CropMeans(region.value, p.width, p.height, c.value.x, c.value.y);
          assert InBoth(region.value, p, c.value.x, c.value.y);
        }
      }
    }
  }

  // A pixel of the screen that lies in the region.
  ghost predicate InBoth(r: Region, p: Pixmap, x: nat, y: nat) {
    && x < p.width && y < p.height
    && (if r.x < 0 then 0 else r.x) <= x < (if r.x < 0 then 0 else r.x) + r.w
    && (if r.y < 0 then 0 else r.y) <= y < (if r.y < 0 then 0 else r.y) + r.h
  }

  /** Scanlines */

  // A truecolor scanline is a zero byte and three bytes a pixel.
  lemma TruecolorBytes(png: Png, p: Pixmap, c: Crop, x: nat, y: nat)
    requires (Shallow(p.depth) || Deep(p.depth)) && RowsShow(png.raw, p, c, c.h) && x < c.w && y < c.h
    ensures |png.raw| == c.h * (1 + 3 * c.w)
    ensures var o := y * (1 + 3 * c.w);
            && 0 <= o && o + 3 * x + 3 < |png.raw| && png.raw[o] == 0
            && ColourAt(p, c.x + x, c.y + y)
               == Some(Rgb(png.raw[o + 3 * x + 1], png.raw[o + 3 * x + 2], png.raw[o + 3 * x + 3]))
  {
    hide ColourAt;
    var stride := Stride(c.w);
    RowFits(y, c.h, stride);
    AreaProduct(y, stride);
    AreaProduct(c.h, stride);
    var line := LineOf(png.raw, stride, y);
    assert LineShows(line, p, c, c.y + y, c.w);
    assert LinePixel(line, x) == ColourAt(p, c.x + x, c.y + y);
  }

  // An indexed one is a zero byte and the pixmap's own bytes.
  lemma IndexedBytes(png: Png, p: Pixmap, c: Crop, j: nat, y: nat)
    requires Shallow(p.depth) && c.x % (8 / p.depth) == 0 && IndexedOf(png, p, c) && AllWhole(p, c, c.h) && y < c.h
    requires 8 * j < c.w * p.depth
    ensures var n := Width(c.w, p.depth);
            var o, from := y * (1 + n), (c.y + y) * p.rowBytes + c.x * p.depth / 8;
            && c.w * p.depth <= 8 * n < c.w * p.depth + 8 && |png.raw| == c.h * (1 + n)
            && 0 <= o && o + 1 + j < |png.raw| && 0 <= from && from + j < |p.pixels|
            && png.raw[o] == 0 && png.raw[o + 1 + j] == p.pixels[from + j]
  {
    var n := Width(c.w, p.depth);
    WidthBounds(c.w, p.depth, j);
    FirstByte(c.x, p.depth);
    SliceBytes(png.raw, p, c, n, j, y);
    AreaProduct(y, 1 + n);
    AreaProduct(c.h, 1 + n);
    AreaProduct(c.y + y, p.rowBytes);
  }

  lemma WidthBounds(w: nat, depth: int, j: nat)
    requires Shallow(depth)
    ensures w * depth <= 8 * Width(w, depth) < w * depth + 8
    ensures 8 * j < w * depth ==> j < Width(w, depth)
  {
  }

  lemma FirstByte(x: nat, depth: int)
    requires Shallow(depth) && x % (8 / depth) == 0
    ensures x / PerByte(depth) == x * depth / 8
  {
  }

  lemma SliceBytes(raw: seq<byte>, p: Pixmap, c: Crop, n: nat, j: nat, y: nat)
    requires Shallow(p.depth) && n == Width(c.w, p.depth) && SlicesShow(raw, p, c, c.h) && AllWhole(p, c, c.h)
    requires y < c.h && j < n
    ensures var o, from := Area(y, 1 + n), SliceStart(p, c, c.y + y);
            && |raw| == Area(c.h, 1 + n) && o + 1 + j < |raw| && from + j < |p.pixels|
            && raw[o] == 0 && raw[o + 1 + j] == p.pixels[from + j]
  {
    hide Width, SliceStart, Area;
    var stride := 1 + n;
    RowFits(y, c.h, stride);
    assert SliceWhole(p, c, c.y + y);
    var line := LineOf(raw, stride, y);
    assert line == [0] + SliceOf(p, c, c.y + y);
    assert line[0] == raw[Area(y, stride)] && line[1 + j] == raw[Area(y, stride) + 1 + j];
  }
}
