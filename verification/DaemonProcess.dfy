/** The daemon as it runs: retained frame and generation in fields, payload built row by row in a buffer. */
module DaemonProcess {
  import opened Bytes
  import opened Bits
  import opened RowCodec
  import opened Predictor
  import opened DeltaEncoder
  import opened Daemon

  /** Rows of a crop */

  function Piece(pixels: seq<byte>, rb: nat, y: nat, off: nat, n: nat): (p: seq<byte>)
    requires off + n <= rb && Area(y + 1, rb) <= |pixels|
    ensures |p| == n
  {
    Slice(Row(pixels, rb, y), off, off + n)
  }

  lemma {:induction false} CropRow(pixels: seq<byte>, rb: nat, y0: nat, off: nat, n: nat, rows: nat, y: nat)
    requires off + n <= rb && Area(y0 + rows, rb) <= |pixels| && y < rows
    ensures Area(y + 1, n) <= Area(rows, n) && Area(y0 + y + 1, rb) <= |pixels|
    ensures Row(Crop(pixels, rb, y0, off, n, rows), n, y) == Piece(pixels, rb, y0 + y, off, n)
    decreases rows
  {
    hide Crop, Area, Row, Piece;
    AreaGrows(y + 1, rows, n);
    AreaGrows(y0 + y + 1, y0 + rows, rb);
    RowFits(y0 + rows - 1, y0 + rows, rb);
    CropStep(pixels, rb, y0, off, n, rows - 1);
    var front, last := Crop(pixels, rb, y0, off, n, rows - 1), Piece(pixels, rb, y0 + rows - 1, off, n);
    if y < rows - 1 {
      CropRow(pixels, rb, y0, off, n, rows - 1, y);
      AreaGrows(y + 1, rows - 1, n);
      RowOfFront(front, last, n, y);
    } else {
      RowOfBack(front, last, n, y);
    }
  }

  lemma RowOfFront(a: seq<byte>, b: seq<byte>, n: nat, y: nat)
    requires Area(y + 1, n) <= |a|
    ensures Row(a + b, n, y) == Row(a, n, y)
  {
  }

  lemma RowOfBack(a: seq<byte>, b: seq<byte>, n: nat, y: nat)
    requires |a| == Area(y, n) && |b| == n
    ensures Area(y + 1, n) == |a + b| && Row(a + b, n, y) == b
  {
  }

  lemma RowIndex(f: seq<byte>, n: nat, y: nat, k: nat)
    requires Area(y + 1, n) <= |f| && k < n
    ensures Area(y + 1, n) == Area(y, n) + n && Row(f, n, y)[k] == f[Area(y, n) + k]
  {
  }

  lemma UpRowByte(f: seq<byte>, n: nat, y: nat, k: nat)
    requires k < n && Area(y + 1, n) <= |f| && (y > 0 ==> Area(y, n) <= |f|)
    ensures Row(Up(f, n), n, y)[k] == if y == 0 then Row(f, n, 0)[k] else ByteXor(Row(f, n, y)[k], Row(f, n, y - 1)[k])
  {
    hide Row, Up, Area, ByteXor;
    AreaFirst(n);
    RowIndex(f, n, y, k);
    RowIndex(Up(f, n), n, y, k);
    UpAt(f, n, Area(y, n) + k);
    if y > 0 {
      RowIndex(f, n, y - 1, k);
      RowFits(0, y, n);
    }
  }

  lemma UpRow(f: seq<byte>, n: nat, y: nat)
    requires n > 0 && Area(y + 1, n) <= |f|
    ensures y > 0 ==> Area(y, n) <= |f|
    ensures Row(Up(f, n), n, y) == if y == 0 then Row(f, n, 0) else BytesXor(Row(f, n, y), Row(f, n, y - 1))
  {
    hide Row, Up, ByteXor;
    RowFits(y, y + 1, n);
    forall k | 0 <= k < n
      ensures Row(Up(f, n), n, y)[k] ==
              if y == 0 then Row(f, n, 0)[k] else ByteXor(Row(f, n, y)[k], Row(f, n, y - 1)[k])
    {
      UpRowByte(f, n, y, k);
    }
  }

  /** The emitting loops */

  method EmitRaw(pixels: seq<byte>, rb: nat, y0: nat, off: nat, n: nat, rows: nat, out: array<byte>) returns (pos: nat)
    requires off + n <= rb && Area(y0 + rows, rb) <= |pixels| && Area(rows, n) <= out.Length
    modifies out
    ensures pos <= out.Length && out[..pos] == Crop(pixels, rb, y0, off, n, rows)
  {
    hide *;
    pos := 0;
    CropStart(pixels, rb, y0, off, n, rows);
    for y := 0 to rows
      invariant Area(y0 + y, rb) <= |pixels|
      invariant pos == Area(y, n) <= out.Length && out[..pos] == Crop(pixels, rb, y0, off, n, y)
    {
      RowFits(y, rows, n);
      RowFits(y0 + y, y0 + rows, rb);
      CropStep(pixels, rb, y0, off, n, y);
      var row := Piece(pixels, rb, y0 + y, off, n);
      ghost var before := out[..pos];
      for x := 0 to n
        invariant out[..pos] == before && out[pos..pos + x] == row[..x]
      {
        out[pos + x] := row[x];
      }
      assert out[..pos + n] == before + row;
      pos := pos + n;
    }
  }

  lemma CropStart(pixels: seq<byte>, rb: nat, y0: nat, off: nat, n: nat, rows: nat)
    requires off + n <= rb && Area(y0 + rows, rb) <= |pixels|
    ensures Area(y0, rb) <= |pixels| && Area(0, n) == 0 && Crop(pixels, rb, y0, off, n, 0) == []
  {
    AreaGrows(y0, y0 + rows, rb);
  }

  lemma CropStep(pixels: seq<byte>, rb: nat, y0: nat, off: nat, n: nat, y: nat)
    requires off + n <= rb && Area(y0 + y + 1, rb) <= |pixels|
    ensures Area(y0 + y, rb) <= |pixels|
    ensures Crop(pixels, rb, y0, off, n, y + 1) ==
            Crop(pixels, rb, y0, off, n, y) + Piece(pixels, rb, y0 + y, off, n)
  {
  }

  // Packed rows; with `up`, every row after the first is combined with the one above it before it is packed.
  method EmitPacked(pb: seq<byte> -> seq<byte>, pixels: seq<byte>, rb: nat, y0: nat, off: nat, n: nat, rows: nat,
                    up: bool, out: array<byte>) returns (pos: nat)
    requires Packer(pb) && 0 < n < 0x4000
    requires off + n <= rb && Area(y0 + rows, rb) <= |pixels| && Area(rows, RowCap(n)) <= out.Length
    modifies out
    ensures pos <= out.Length
    ensures var crop := Crop(pixels, rb, y0, off, n, rows);
            out[..pos] == PackedFrame(pb, if up then Up(crop, n) else crop, n, rows)
  {
    hide *;
    pos := 0;
    ghost var crop := Crop(pixels, rb, y0, off, n, rows);
    ghost var src := if up then Up(crop, n) else crop;
    AreaFirst(n);
    AreaFirst(RowCap(n));
    PackedFrameStep(pb, src, n, 0);
    for y := 0 to rows
      invariant pos <= Area(y, RowCap(n)) <= out.Length && Area(y, n) <= |src|
      invariant out[..pos] == PackedFrame(pb, src, n, y)
    {
      RowFits(y, rows, n);
      RowFits(y, rows, RowCap(n));
      CropRow(pixels, rb, y0, off, n, rows, y);
      UpRow(crop, n, y);
      var row := Piece(pixels, rb, y0 + y, off, n);
      if up && y > 0 {
        CropRow(pixels, rb, y0, off, n, rows, y - 1);
        row := BytesXor(row, Piece(pixels, rb, y0 + y - 1, off, n));
      }
      RowRoom(pb, row);
      PackedFrameStep(pb, src, n, y + 1);
      pos := PackRow(pb, row, out, pos);
    }
  }

  /** The process */

  class Process {
    var prev: Retained
    var gen: nat

    constructor ()
      ensures Abstract() == State(NoFrame, 0)
    {
      prev, gen := NoFrame, 0;
    }

    ghost function Abstract(): State
      reads this
    {
      State(prev, gen)
    }

    // A delta writes whole pixmap rows into a buffer sized for the rectangle's rows: it must fit.
    method Encode(s: Screen, q: Request, rect: Rect, pb: seq<byte> -> seq<byte>) returns (enc: int, payload: seq<byte>)
      requires GoodScreen(s) && Fits(s, rect) && GoodState(Abstract()) && Packer(pb)
      requires WantsDelta(Abstract(), s, q, rect) ==> |Payload(Abstract(), s, q, rect, pb)| <= OutCap(s, rect)
      ensures enc == Encoding(Abstract(), s, q, rect) && payload == Payload(Abstract(), s, q, rect, pb)
    {
      hide Area, Payload, Encoding, WantsDelta, GoodScreen, GoodState, Packer, RowCap, RegionRowBytes, Crop,
          PackedFrame,
        DeltaPayload, Up, Fits, HasFlag, IsFull;
      EncodeFacts(Abstract(), s, q, rect, pb);
      var sub := RegionRowBytes(rect.w, s.depth);
      var off := (rect.x * s.depth) / 8;
      var pack := HasFlag(q.flags, SHOT2_PACK);
      var wantDelta := IsFull(s, rect) && HasFlag(q.flags, SHOT2_DELTA) && prev.Retained? && q.baseGen == gen
        && prev.width == s.width && prev.height == s.height && prev.depth == s.depth && prev.rowBytes == s.rowBytes;
      var outCap := rect.h * (sub + sub / 64 + 8) + 64;
      AreaProduct(rect.h, RowCap(sub));
      RowCapIs(sub);
      var out := new byte[outCap](_ => 0);
      var pos;
      if wantDelta {
        pos := EmitDelta(pb, s.pixels, prev.pixels, s.rowBytes, s.height, out);
        enc := 2;
      } else if pack {
        var up := HasFlag(q.flags, SHOT2_UP);
        pos := EmitPacked(pb, s.pixels, s.rowBytes, rect.y, off, sub, rect.h, up, out);
        enc := if up then 3 else 1;
      } else {
        RawFits(rect.h, sub);
        pos := EmitRaw(s.pixels, s.rowBytes, rect.y, off, sub, rect.h, out);
        enc := 0;
      }
      payload := out[..pos];
    }

    method CaptureScreenshot2(s: Screen, q: Request, memory: bool, pb: seq<byte> -> seq<byte>) returns (r: Reply)
      requires GoodScreen(s) && GoodState(Abstract()) && Packer(pb)
      requires Resolve(s, q).On? && WantsDelta(Abstract(), s, q, Resolve(s, q).rect) ==>
                 (ResolvedFits(s, q);
                  |Payload(Abstract(), s, q, Resolve(s, q).rect, pb)| <= OutCap(s, Resolve(s, q).rect))
      modifies this
      ensures (Abstract(), r) == Capture(old(Abstract()), s, q, memory, pb)
    {
      hide Area, Payload, Encoding, Resolve, WantsDelta, GoodScreen, GoodState, Packer;
      AreaProduct(s.height, s.rowBytes);
      if s.height * s.rowBytes > MAX_SHOT_BYTES {
        return Refused;
      }
      var res := Resolve(s, q);
      if res.Off? {
        return Refused;
      }
      ResolvedFits(s, q);
      if !memory {
        return Refused;
      }
      var enc, payload := Encode(s, q, res.rect, pb);
      if IsFull(s, res.rect) {
        prev := Retained(s.width, s.height, s.depth, s.rowBytes, s.pixels);
        gen := gen + 1;
      }
      r := Image(s.width, s.height, s.depth, s.rowBytes, s.clut, res.rect, enc, gen, payload);
    }
  }

  lemma RowCapIs(n: nat)
    ensures RowCap(n) == n + n / 64 + 8
  {
  }

  // What Encode needs to know of the screen, the rectangle and the state.
  lemma EncodeFacts(st: State, s: Screen, q: Request, r: Rect, pb: seq<byte> -> seq<byte>)
    requires GoodScreen(s) && Fits(s, r) && GoodState(st)
    ensures var sub, off := RegionRowBytes(r.w, s.depth), (r.x * s.depth) / 8;
            && 0 < sub < 0x4000 && off + sub <= s.rowBytes < 0x4000 && s.height < 0x8000
            && Area(r.y + r.h, s.rowBytes) <= |s.pixels| && Area(s.height, s.rowBytes) <= |s.pixels|
            && (WantsDelta(st, s, q, r) ==> Area(s.height, s.rowBytes) <= |st.prev.pixels|)
            && Encoding(st, s, q, r) == (if WantsDelta(st, s, q, r) then 2
                                         else if !HasFlag(q.flags, SHOT2_PACK) then 0
                                         else if HasFlag(q.flags, SHOT2_UP) then 3 else 1)
            && Payload(st, s, q, r, pb) ==
               (var crop := Crop(s.pixels, s.rowBytes, r.y, off, sub, r.h);
                if WantsDelta(st, s, q, r) then DeltaPayload(pb, s.pixels, st.prev.pixels, s.rowBytes, s.height)
                else if !HasFlag(q.flags, SHOT2_PACK) then crop
                else PackedFrame(pb, if HasFlag(q.flags, SHOT2_UP) then Up(crop, sub) else crop, sub, r.h))
            && (WantsDelta(st, s, q, r) <==>
                  (IsFull(s, r) && HasFlag(q.flags, SHOT2_DELTA) && st.prev.Retained? && q.baseGen == st.gen
                   && st.prev.width == s.width && st.prev.height == s.height
                   && st.prev.depth == s.depth && st.prev.rowBytes == s.rowBytes))
  {
    CropFits(s, r);
  }

  lemma {:induction false} RawFits(rows: nat, n: nat)
    ensures Area(rows, n) <= Area(rows, RowCap(n))
  {
    if rows > 0 { RawFits(rows - 1, n); }
  }
}
