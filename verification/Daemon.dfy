/** The capturing side of SCREENSHOT2: the daemon, its retained frame and its generation counter. */
module Daemon {
  import opened Bytes
  import opened RowCodec
  import opened Predictor
  import opened DeltaEncoder

  const MAX_SHOT_BYTES: nat := 4 * 1024 * 1024
  const SHOT2_PACK: int := 1
  const SHOT2_DELTA: int := 2
  const SHOT2_UP: int := 4

  // The main device's pixmap.
  datatype Screen = Screen(width: nat, height: nat, depth: nat, rowBytes: nat, pixels: seq<byte>, clut: seq<byte>)

  ghost predicate GoodScreen(s: Screen) {
    && 0 < s.width < 0x8000 && 0 < s.height < 0x8000 && 0 < s.rowBytes < 0x4000
    && s.depth in {1, 2, 4, 8, 16, 32}
    && s.width * s.depth <= 8 * s.rowBytes
    && |s.pixels| == Area(s.height, s.rowBytes)
    && |s.clut| <= 3 * 256
  }

  datatype Request = Request(x: int, y: int, w: int, h: int, flags: int, baseGen: int)
  datatype Rect = Rect(x: nat, y: nat, w: nat, h: nat)
  datatype Retained = NoFrame | Retained(width: nat, height: nat, depth: nat, rowBytes: nat, pixels: seq<byte>)
  datatype State = State(prev: Retained, gen: nat)

  datatype Reply =
    | Refused
    | Image(width: nat, height: nat, depth: nat, rowBytes: nat, clut: seq<byte>, rect: Rect, enc: int, gen: nat,
            payload: seq<byte>)

  // Bytes per row of w pixels, without slack.
  function RegionRowBytes(w: nat, depth: nat): nat {
    (w * depth + 7) / 8
  }

  function HasFlag(flags: int, bit: int): bool
    requires bit > 0
  {
    (flags / bit) % 2 == 1
  }

  // The rectangle a request resolves to; None when it lies off the screen.
  datatype Resolved = Off | On(rect: Rect)

  function Resolve(s: Screen, q: Request): Resolved {
    var whole := q.w <= 0 || q.h <= 0;
    var x0, y0 := if whole then 0 else q.x, if whole then 0 else q.y;
    var w0, h0 := if whole then s.width else q.w, if whole then s.height else q.h;
    var x: nat, y: nat := if x0 < 0 then 0 else x0, if y0 < 0 then 0 else y0;
    if x >= s.width || y >= s.height then Off
    else
      var w := if x + w0 > s.width then s.width - x else w0;
      var h := if y + h0 > s.height then s.height - y else h0;
      On(if s.depth < 8 then Rect(0, y, s.width, h) else Rect(x, y, w, h))
  }

  predicate IsFull(s: Screen, r: Rect) {
    r == Rect(0, 0, s.width, s.height)
  }

  predicate Fits(s: Screen, r: Rect) {
    0 < r.w && 0 < r.h && r.x + r.w <= s.width && r.y + r.h <= s.height && (s.depth < 8 ==> r.x == 0)
  }

  lemma ResolvedFits(s: Screen, q: Request)
    requires GoodScreen(s) && Resolve(s, q).On?
    ensures Fits(s, Resolve(s, q).rect)
  {
  }

  // The bytes of rows y0 .. y0+rows, each from byte off on for n bytes.
  function Crop(pixels: seq<byte>, rb: nat, y0: nat, off: nat, n: nat, rows: nat): (c: seq<byte>)
    requires off + n <= rb && Area(y0 + rows, rb) <= |pixels|
    ensures |c| == Area(rows, n)
  {
    if rows == 0 then []
    else Crop(pixels, rb, y0, off, n, rows - 1) + Slice(Row(pixels, rb, y0 + rows - 1), off, off + n)
  }

  /** The payloads */

  lemma CropFits(s: Screen, r: Rect)
    requires GoodScreen(s) && Fits(s, r)
    ensures (r.x * s.depth) / 8 + RegionRowBytes(r.w, s.depth) <= s.rowBytes
    ensures Area(r.y + r.h, s.rowBytes) <= |s.pixels|
  {
    AreaGrows(r.y + r.h, s.height, s.rowBytes);
    var off, end := r.x * s.depth, (r.x + r.w) * s.depth;
    assert end == off + r.w * s.depth;
    assert end <= s.width * s.depth by { Scale(r.x + r.w, s.width, s.depth); }
    if s.depth < 8 {
      assert off == 0;
    } else {
      WholeBytes(r.x, s.depth);
    }
  }

  lemma Scale(a: nat, b: nat, k: nat)
    requires a <= b
    ensures a * k <= b * k
  {
  }

  lemma WholeBytes(x: nat, depth: nat)
    requires depth in {8, 16, 32}
    ensures (x * depth) % 8 == 0
  {
    if depth == 8 { } else if depth == 16 { assert x * 16 == 8 * (2 * x); } else { assert x * 32 == 8 * (4 * x); }
  }

  lemma {:induction false} AreaGrows(a: nat, b: nat, rb: nat)
    requires a <= b
    ensures Area(a, rb) <= Area(b, rb)
    decreases b
  {
    if a < b { AreaGrows(a, b - 1, rb); }
  }

  // The pixels of the rectangle, its rows packed together.
  function Pixels(s: Screen, r: Rect): (c: seq<byte>)
    requires GoodScreen(s) && Fits(s, r)
    ensures |c| == Area(r.h, RegionRowBytes(r.w, s.depth))
  {
    CropFits(s, r);
    Crop(s.pixels, s.rowBytes, r.y, (r.x * s.depth) / 8, RegionRowBytes(r.w, s.depth), r.h)
  }

  // The host's base is the retained frame, and the screen has not changed its shape since.
  predicate WantsDelta(st: State, s: Screen, q: Request, r: Rect) {
    && IsFull(s, r) && HasFlag(q.flags, SHOT2_DELTA) && st.prev.Retained? && q.baseGen == st.gen
    && st.prev.width == s.width && st.prev.height == s.height
    && st.prev.depth == s.depth && st.prev.rowBytes == s.rowBytes
  }

  ghost predicate GoodState(st: State) {
    st.prev.Retained? ==> |st.prev.pixels| == Area(st.prev.height, st.prev.rowBytes)
  }

  function Encoding(st: State, s: Screen, q: Request, r: Rect): int {
    if WantsDelta(st, s, q, r) then 2
    else if !HasFlag(q.flags, SHOT2_PACK) then 0
    else if HasFlag(q.flags, SHOT2_UP) then 3
    else 1
  }

  function Payload(st: State, s: Screen, q: Request, r: Rect, pb: seq<byte> -> seq<byte>): seq<byte>
    requires GoodScreen(s) && Fits(s, r) && GoodState(st)
  {
    var sub := RegionRowBytes(r.w, s.depth);
    match Encoding(st, s, q, r)
    case 2 => DeltaPayload(pb, s.pixels, st.prev.pixels, s.rowBytes, s.height)
    case 0 => Pixels(s, r)
    case 1 => PackedFrame(pb, Pixels(s, r), sub, r.h)
    case _ => PackedFrame(pb, Up(Pixels(s, r), sub), sub, r.h)
  }

  // The output buffer: room for the rectangle's rows, packed.
  function OutCap(s: Screen, r: Rect): nat {
    Area(r.h, RowCap(RegionRowBytes(r.w, s.depth))) + 64
  }

  // The outcome of one capture.  `memory` is false when an allocation fails.
  function Capture(st: State, s: Screen, q: Request, memory: bool, pb: seq<byte> -> seq<byte>): (State, Reply)
    requires GoodScreen(s) && GoodState(st)
  {
    if Area(s.height, s.rowBytes) > MAX_SHOT_BYTES then (st, Refused)
    else
      match Resolve(s, q)
      case Off => (st, Refused)
      case On(r) =>
        ResolvedFits(s, q);
        if !memory then (st, Refused)
        else
          var st' := if IsFull(s, r)
                     then State(Retained(s.width, s.height, s.depth, s.rowBytes, s.pixels), st.gen + 1)
                     else st;
          (st', Image(s.width, s.height, s.depth, s.rowBytes, s.clut, r, Encoding(st, s, q, r), st'.gen,
                      Payload(st, s, q, r, pb)))
  }
}
