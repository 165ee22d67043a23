/** What a classic-Mac pixmap shows, and what a PNG's scanlines show (PNG specification, sections 7.2 and 11.2.3). */
module PngSpec {
  import opened Bytes
  import opened Number
  import opened RowCodec

  datatype Rgb = Rgb(r: byte, g: byte, b: byte)

  datatype Pixmap = Pixmap(width: int, height: int, depth: int, rowBytes: nat, clut: seq<byte>, pixels: seq<byte>)

  datatype Region = Region(x: int, y: int, w: int, h: int)

  datatype Crop = Crop(x: nat, y: nat, w: nat, h: nat)

  predicate Shallow(depth: int) {
    depth in {1, 2, 4, 8}
  }

  function Clamp(v: int, high: int): (r: int)
    ensures high >= 0 ==> 0 <= r <= high
  {
    var low := if v < high then v else high;
    if low < 0 then 0 else low
  }

  // None: the crop is empty.
  function CropOf(region: Option<Region>, width: nat, height: nat): (r: Option<Crop>)
    ensures r.Some? ==> r.value.x + r.value.w <= width && r.value.y + r.value.h <= height
    ensures r.Some? && width > 0 && height > 0 ==> r.value.w > 0 && r.value.h > 0
  {
    if region.None? then
      Some(Crop(0, 0, width, height))
    else
      var x, y := Clamp(region.value.x, width), Clamp(region.value.y, height);
      var w, h := Clamp(region.value.w, width - x), Clamp(region.value.h, height - y);
      if w == 0 || h == 0 then None else Some(Crop(x, y, w, h))
  }

  /** The pixmap */

  // The index of pixel x within its byte b, as the per-pixel loop takes it.
  function IndexIn(depth: int, b: byte, x: nat): nat {
    if depth == 8 then b
    else if depth == 4 then if x % 2 == 0 then b / 16 else b % 16
    else if depth == 2 then b / Pow2(6 - 2 * (x % 4)) % 4
    else b / Pow2(7 - x % 8) % 2
  }

  function PerByte(depth: int): (r: nat)
    requires Shallow(depth)
    ensures r > 0 && r * depth == 8
  {
    if depth == 8 then 1 else if depth == 4 then 2 else if depth == 2 then 4 else 8
  }

  function Entries(clut: seq<byte>): nat {
    |clut| / 3
  }

  function Entry(clut: seq<byte>, i: nat): Rgb
    requires i < Entries(clut)
  {
    Rgb(clut[3 * i], clut[3 * i + 1], clut[3 * i + 2])
  }

  function Gray(depth: int, i: nat): Rgb
    requires Shallow(depth) && i < Pow2(depth)
  {
    if depth == 1 then
      if i == 0 then Rgb(255, 255, 255) else Rgb(0, 0, 0)
    else
      GrayFits(depth, i);
      var g: byte := i * 255 / (Pow2(depth) - 1);
      Rgb(g, g, g)
  }

  lemma Powers()
    ensures Pow2(0) == 1 && Pow2(1) == 2 && Pow2(2) == 4 && Pow2(3) == 8 && Pow2(4) == 16
    ensures Pow2(5) == 32 && Pow2(6) == 64 && Pow2(7) == 128 && Pow2(8) == 256
  {
    assert Pow2(4) == 16;
    assert Pow2(8) == 256;
  }

  lemma GrayFits(depth: int, i: nat)
    requires depth in {2, 4, 8} && i < Pow2(depth)
    ensures Pow2(depth) > 1 && i * 255 / (Pow2(depth) - 1) < 256
  {
    Powers();
  }

  // The colour of an index in the per-pixel loop.
  function Colour(depth: int, clut: seq<byte>, i: nat): Rgb
    requires Shallow(depth) && i < Pow2(depth)
  {
    if i < Entries(clut) then Entry(clut, i) else Gray(depth, i)
  }

  lemma IndexFits(depth: int, b: byte, x: nat)
    requires Shallow(depth)
    ensures IndexIn(depth, b, x) < Pow2(depth)
  {
    Powers();
  }

  function Expand5(v: nat): byte
    requires v < 32
  {
    v * 8 + v / 4
  }

  // The index of pixel (x, y), when its byte exists.
  function IndexAt(p: Pixmap, x: nat, y: nat): (r: Option<nat>)
    requires Shallow(p.depth)
    ensures r.Some? ==> r.value < Pow2(p.depth)
  {
    var at := Area(y, p.rowBytes) + x / PerByte(p.depth);
    if at < |p.pixels| then IndexFits(p.depth, p.pixels[at], x); Some(IndexIn(p.depth, p.pixels[at], x)) else None
  }

  // The colour of pixel (x, y); None when a byte of it lies behind the buffer.
  function ColourAt(p: Pixmap, x: nat, y: nat): Option<Rgb>
    requires Shallow(p.depth) || p.depth == 16 || p.depth == 32
  {
    var base := Area(y, p.rowBytes);
    if p.depth == 16 then
      var off := base + 2 * x;
      if off + 1 < |p.pixels| then
        var v := p.pixels[off] as int * 256 + p.pixels[off + 1];
        Some(Rgb(Expand5(v / 1024 % 32), Expand5(v / 32 % 32), Expand5(v % 32)))
      else
        None
    else if p.depth == 32 then
      var off := base + 4 * x;
      if off + 3 < |p.pixels| then Some(Rgb(p.pixels[off + 1], p.pixels[off + 2], p.pixels[off + 3])) else None
    else
      var i := IndexAt(p, x, y);
      if i.None? then None else Some(Colour(p.depth, p.clut, i.value))
  }

  /** The PNG */

  datatype Png =
    | Truecolor(w: nat, h: nat, raw: seq<byte>)
    | Indexed(w: nat, h: nat, depth: int, palette: seq<Rgb>, raw: seq<byte>)

  // The bytes of w packed pixels.
  function Width(w: nat, depth: int): nat
    requires Shallow(depth)
  {
    (w * depth + 7) / 8
  }

  // Pixels are packed from the high-order end of each byte.
  function Sample(depth: int, b: byte, x: nat): nat
    requires Shallow(depth)
  {
    b / Pow2(8 - depth - x % PerByte(depth) * depth) % Pow2(depth)
  }

  // What pixel (x, y) shows: filter type 0 only, and a palette entry for every index.
  function Shows(png: Png, x: nat, y: nat): Option<Rgb>
    requires png.Indexed? ==> Shallow(png.depth)
  {
    match png
    case Truecolor(w, _, raw) =>
      var line, at := Area(y, 1 + 3 * w), Area(y, 1 + 3 * w) + 1 + 3 * x;
      if at + 2 < |raw| && raw[line] == 0 then Some(Rgb(raw[at], raw[at + 1], raw[at + 2])) else None
    case Indexed(w, _, depth, palette, raw) =>
      var line := Area(y, 1 + Width(w, depth));
      var at := line + 1 + x / PerByte(depth);
      if at < |raw| && raw[line] == 0 && Sample(depth, raw[at], x) < |palette|
      then Some(palette[Sample(depth, raw[at], x)]) else None
  }
}
