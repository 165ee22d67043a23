/** A capture in numbers: which bytes of the screen it carries, in which encoding, and what the daemon keeps of it. */
module DaemonMeaning {
  import opened Bytes
  import opened RowCodec
  import opened DeltaEncoder
  import opened Daemon
  import opened ScreenshotHost

  // The least number of bytes that holds w pixels.
  lemma RowBytesMeans(w: nat, depth: nat)
    ensures w * depth <= 8 * RegionRowBytes(w, depth) < w * depth + 8
  {
  }

  lemma {:induction false} CropBytes(pixels: seq<byte>, rb: nat, y0: nat, off: nat, n: nat, rows: nat, k: nat, j: nat)
    requires off + n <= rb && Area(y0 + rows, rb) <= |pixels| && k < rows && j < n
    ensures Area(k, n) + j < Area(rows, n) && Area(y0 + k, rb) + off + j < |pixels|
    ensures Crop(pixels, rb, y0, off, n, rows)[Area(k, n) + j] == pixels[Area(y0 + k, rb) + off + j]
    decreases rows
  {
    hide Crop, Area;
    RowFits(k, rows, n);
    RowFits(y0 + k, y0 + rows, rb);
    CropLast(pixels, rb, y0, off, n, rows, j);
    if k < rows - 1 {
      RowFits(k, rows - 1, n);
      CropBytes(pixels, rb, y0, off, n, rows - 1, k, j);
    }
  }

  lemma CropLast(pixels: seq<byte>, rb: nat, y0: nat, off: nat, n: nat, rows: nat, j: nat)
    requires off + n <= rb && 0 < rows && Area(y0 + rows, rb) <= |pixels| && j < n
    ensures Area(y0 + rows - 1, rb) + rb == Area(y0 + rows, rb) && Area(rows - 1, n) + n == Area(rows, n)
    ensures Crop(pixels, rb, y0, off, n, rows - 1) <= Crop(pixels, rb, y0, off, n, rows)
    ensures Crop(pixels, rb, y0, off, n, rows)[Area(rows - 1, n) + j] == pixels[Area(y0 + rows - 1, rb) + off + j]
  {
    var row := Row(pixels, rb, y0 + rows - 1);
    assert Slice(row, off, off + n)[j] == row[off + j];
  }

  // Byte j of row k of a rectangle is that byte of the screen's row r.y + k, counted from the rectangle's first pixel.
  lemma PixelBytes(s: Screen, r: Rect, k: nat, j: nat)
    requires GoodScreen(s) && Fits(s, r) && k < r.h && 8 * j < r.w * s.depth
    ensures var n := RegionRowBytes(r.w, s.depth);
            var from := (r.y + k) * s.rowBytes + r.x * s.depth / 8 + j;
            && 0 <= k * n + j < |Pixels(s, r)| && 0 <= from < |s.pixels| && Pixels(s, r)[k * n + j] == s.pixels[from]
  {
    var n := RegionRowBytes(r.w, s.depth);
    CropFits(s, r);
    CropBytes(s.pixels, s.rowBytes, r.y, (r.x * s.depth) / 8, n, r.h, k, j);
    AreaProduct(k, n);
    AreaProduct(r.y + k, s.rowBytes);
  }

  // Bit i of the flags, by what is left of them below the next bit.
  ghost predicate FlagSet(flags: int, i: nat) {
    flags % Pow2(i + 1) >= Pow2(i)
  }

  lemma FlagIs(flags: int, i: nat)
    requires i < 3
    ensures FlagSet(flags, i) <==> HasFlag(flags, if i == 0 then 1 else if i == 1 then 2 else 4)
  {
    assert Pow2(0) == 1 && Pow2(1) == 2 && Pow2(2) == 4 && Pow2(3) == 8;
  }

  // Which encoding is chosen: a delta for the whole of an unchanged screen shape when bit 1 asks for it against the
  // frame that is kept; else raw rows, packed rows, or packed and predicted rows, by bits 0 and 2.
  lemma EncodingMeans(st: State, s: Screen, q: Request, r: Rect)
    ensures var delta := FlagSet(q.flags, 1) && r == Rect(0, 0, s.width, s.height) && q.baseGen == st.gen
                         && st.prev.Retained? && (st.prev.width, st.prev.height) == (s.width, s.height)
                         && (st.prev.depth, st.prev.rowBytes) == (s.depth, s.rowBytes);
            Encoding(st, s, q, r) == if delta then 2 else if !FlagSet(q.flags, 0) then 0
                                     else if FlagSet(q.flags, 2) then 3 else 1
  {
    hide FlagSet, HasFlag;
    FlagIs(q.flags, 0);
    FlagIs(q.flags, 1);
    FlagIs(q.flags, 2);
  }

  // What a capture does: it is refused when the screen has more than four megabytes, the rectangle starts off the
  // screen, or memory is short, and then it changes nothing.  Else it describes the screen, and a whole one, and only
  // that, is kept as the next generation's base.
  lemma CaptureMeans(st: State, s: Screen, q: Request, memory: bool, pb: seq<byte> -> seq<byte>)
    requires GoodScreen(s) && GoodState(st)
    ensures var off := q.w > 0 && q.h > 0 && (q.x >= s.width || q.y >= s.height);
            var (now, reply) := Capture(st, s, q, memory, pb);
            if s.height * s.rowBytes > 4194304 || off || !memory then (now, reply) == (st, Refused)
            else
              && reply.Image? && Resolve(s, q) == On(reply.rect)
              && (reply.width, reply.height, reply.depth, reply.rowBytes, reply.clut)
                 == (s.width, s.height, s.depth, s.rowBytes, s.clut)
              && reply.enc == Encoding(st, s, q, reply.rect) && reply.gen == now.gen
              && if reply.rect == Rect(0, 0, s.width, s.height)
                 then now == State(Retained(s.width, s.height, s.depth, s.rowBytes, s.pixels), st.gen + 1)
                 else now == st
  {
    hide Payload, Encoding;
    AreaProduct(s.height, s.rowBytes);
    if Resolve(s, q).On? {
      ResolvedFits(s, q);
    }
  }

  // The output buffer of a capture.
  lemma OutCapMeans(s: Screen, r: Rect)
    ensures var n := RegionRowBytes(r.w, s.depth); OutCap(s, r) == r.h * (n + n / 64 + 8) + 64
  {
    AreaProduct(r.h, RowCap(RegionRowBytes(r.w, s.depth)));
  }

  /** The host's side */

  // What is asked for: packed and predicted rows; and, for the whole screen and with a base, a delta against it.
  lemma RequestMeans(h: Host, region: ScreenshotHost.Region, delta: bool)
    ensures var v := MakeRequest(h, region, delta);
            match region
            case WholeScreen =>
              v == Verb(if delta && h.base.Base? then Request(0, 0, 0, 0, 7, h.base.gen) else Request(0, 0, 0, 0, 5, 0))
            case Region(x, y, w, ht) =>
              if w >= 1 && ht >= 1 then v == Verb(Request(x, y, w, ht, 5, 0)) else v == NoVerb
  {
  }

  // Which headers are believed, and which replies end the link: those of another kind, those that declare too much or
  // an unknown encoding, and deltas without their base.
  lemma LinkEndsIff(h: Host, a: Answer)
    requires h.connected
    ensures !Handle(h, a).0.connected
            <==> || a.OtherHeader? || a.Lost?
                 || (a.Image2? && (|a.payload| > 8388608 || |a.clut| > 768 || !(0 <= a.enc <= 3)))
                 || (a.Image2? && a.enc == 2 && !HasBase(h, a))
  {
    hide DecodePayload;
    if a.Image2? {
      assert a.enc == 2 ==> (DecodePayload(h.base, a).NoMatchingBase? <==> !HasBase(h, a)) by {
        Decodes(h.base, a);
      }
      assert a.enc != 2 ==> !DecodePayload(h.base, a).NoMatchingBase? by {
        Decodes(h.base, a);
      }
    }
  }

  // The base of a delta: the whole frame of the generation before, of the same shape.
  ghost predicate HasBase(h: Host, a: Answer)
    requires a.Image2?
  {
    && h.base.Base? && h.base.gen + 1 == a.gen && (a.ox, a.oy, a.ow, a.oh) == (0, 0, a.width, a.height)
    && (h.base.width, h.base.height, h.base.depth, h.base.rowBytes) == (a.width, a.height, a.depth, a.rowBytes)
  }

  lemma Decodes(b: Base, a: Answer)
    requires a.Image2?
    ensures DecodePayload(b, a).NoMatchingBase? <==> a.enc == 2 && !BaseMatches(b, a)
  {
  }

  // What the host has learned after an answer: the verb works when a header is believed; and the frame of a whole
  // screen with a generation is the base from then on.
  lemma HostLearns(h: Host, a: Answer)
    ensures var (now, shot) := Handle(h, a);
            && now.link == h.link && now.shotLink == h.shotLink
            && (a.Image2? && InRange(a) <==> a.Image2? && |a.payload| <= 8388608 && |a.clut| <= 768 && 0 <= a.enc <= 3)
            && (a.Image2? && InRange(a) ==> now.v2 == Yes)
            && (now.base != h.base ==> shot.Shot? && a.Image2? && a.gen > 0
                                       && (a.ox, a.oy, a.ow, a.oh) == (0, 0, a.width, a.height)
                                       && now.base == Base(a.gen, a.width, a.height, a.depth, a.rowBytes, shot.pixels))
            && (shot.Shot? && a.gen > 0 && (a.ox, a.oy, a.ow, a.oh) == (0, 0, a.width, a.height) ==>
                  now.base == Base(a.gen, a.width, a.height, a.depth, a.rowBytes, shot.pixels))
            && (shot.Shot? ==> a.Image2? && (shot.width, shot.height, shot.depth, shot.clut)
                                            == (a.ow, a.oh, a.depth, a.clut))
  {
    hide DecodePayload;
  }

  // A link that is new to the host voids what it has learned; the same link does not.
  lemma FreshMeans(h: Host)
    ensures h.shotLink == h.link ==> Fresh(h) == h
    ensures h.shotLink != h.link ==> Fresh(h) == Host(h.connected, h.link, h.link, Unknown, NoBase)
    ensures Dialled(h) == Host(true, h.link + 1, h.shotLink, h.v2, h.base)
  {
  }
}
