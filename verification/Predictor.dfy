/** The Up predictor and the decoding of a whole frame's rows. */
module Predictor {
  import opened Bytes
  import opened Bits
  import opened RowCodec
  import PB = PackBits

  // Every byte combined with the byte one row above it.
  function Up(f: seq<byte>, rb: nat): (u: seq<byte>)
    requires rb > 0
    ensures |u| == |f|
  {
    seq(|f|, i requires 0 <= i < |f| => if i < rb then f[i] else ByteXor(f[i], f[i - rb]))
  }

  // Byte i of the frame whose predicted form is d.
  function UndoneByte(d: seq<byte>, rb: nat, i: nat): byte
    requires i < |d|
  {
    if i < rb || rb == 0 then d[i] else ByteXor(d[i], UndoneByte(d, rb, i - rb))
  }

  function Undone(d: seq<byte>, rb: nat): (f: seq<byte>)
    ensures |f| == |d|
  {
    seq(|d|, i requires 0 <= i < |d| => UndoneByte(d, rb, i))
  }

  lemma {:induction false} UndoneUpByte(f: seq<byte>, rb: nat, i: nat)
    requires rb > 0 && i < |f|
    ensures UndoneByte(Up(f, rb), rb, i) == f[i]
  {
    if i >= rb {
      UndoneUpByte(f, rb, i - rb);
      ByteXorLaws(f[i], f[i - rb], 0);
    }
  }

  // Prediction loses nothing.
  lemma UndoneUp(f: seq<byte>, rb: nat)
    requires rb > 0
    ensures Undone(Up(f, rb), rb) == f
  {
    forall i | 0 <= i < |f| ensures Undone(Up(f, rb), rb)[i] == f[i] {
      UndoneUpByte(f, rb, i);
    }
  }

  // The encoder's loop: the first row as it is, every other one combined with the row above.
  method UpPredict(src: seq<byte>, height: nat, rb: nat, dst: array<byte>)
    requires rb > 0 && height > 0 && |src| == Area(height, rb) <= dst.Length
    modifies dst
    ensures dst[..|src|] == Up(src, rb)
  {
    hide *;
    RowFits(0, height, rb);
    AreaFirst(rb);
    for x := 0 to rb
      invariant forall i :: 0 <= i < x ==> dst[i] == Up(src, rb)[i]
    {
      UpAt(src, rb, x);
      dst[x] := src[x];
    }
    for y := 1 to height
      invariant rb <= Area(y, rb) <= |src|
      invariant forall i :: 0 <= i < Area(y, rb) ==> dst[i] == Up(src, rb)[i]
    {
      RowFits(y, height, rb);
      var row := Area(y, rb);
      for x := 0 to rb
        invariant forall i :: 0 <= i < row + x ==> dst[i] == Up(src, rb)[i]
      {
        UpAt(src, rb, row + x);
        dst[row + x] := ByteXor(src[row + x], src[row + x - rb]);
      }
    }
    assert |Up(src, rb)| == |src|;
  }

  lemma UpAt(f: seq<byte>, rb: nat, i: nat)
    requires rb > 0 && i < |f|
    ensures Up(f, rb)[i] == if i < rb then f[i] else ByteXor(f[i], f[i - rb])
  {
  }

  // undo_up: rows read as big-endian integers, combined top to bottom.
  method UndoUp(data: seq<byte>, rows: nat, rb: nat) returns (cur: seq<byte>)
    requires |data| == Area(rows, rb)
    ensures cur == Undone(data, rb)
  {
    hide *;
    cur := data;
    AreaFirst(rb);
    AreaProduct(rows, rb);
    UndoneNone(data, rb);
    if rows == 0 {
      return;
    }
    RowFits(0, rows, rb);
    if rb > 0 {
      UndoneFirst(data, rb);
    }
    for y := 1 to rows
      invariant Area(y, rb) <= |data| == |cur|
      invariant rb > 0 ==> cur == Slice(Undone(data, rb), 0, Area(y, rb)) + Slice(data, Area(y, rb), |data|)
    {
      RowFits(y, rows, rb);
      var a := Area(y, rb);
      RowFits(0, y, rb);
      var prev := FromBytes(Slice(cur, a - rb, a));
      var row := ToBytes(Xor(FromBytes(Slice(cur, a, a + rb)), prev), rb);
      IntegerXor(Slice(cur, a, a + rb), Slice(cur, a - rb, a));
      if rb > 0 {
        UndoneRow(data, rb, a, cur);
      }
      cur := Slice(cur, 0, a) + row + Slice(cur, a + rb, |cur|);
      if rb > 0 {
        Replaced(Undone(data, rb), data, a, a + rb, row, cur);
      }
    }
    if rb > 0 {
      UndoneAll(data, rb, cur);
    }
  }

  lemma UndoneNone(data: seq<byte>, rb: nat)
    ensures data == [] ==> Undone(data, rb) == data
  {
  }

  lemma UndoneFirst(data: seq<byte>, rb: nat)
    requires 0 < rb <= |data|
    ensures data == Slice(Undone(data, rb), 0, rb) + Slice(data, rb, |data|)
  {
  }

  lemma UndoneAll(data: seq<byte>, rb: nat, cur: seq<byte>)
    requires rb > 0 && cur == Slice(Undone(data, rb), 0, |data|) + Slice(data, |data|, |data|)
    ensures cur == Undone(data, rb)
  {
    hide Undone;
    var u := Undone(data, rb);
    assert Slice(u, 0, |u|) == u && Slice(data, |data|, |data|) == [];
    assert u + [] == u;
  }

  lemma UndoneRow(data: seq<byte>, rb: nat, a: nat, cur: seq<byte>)
    requires 0 < rb <= a && a + rb <= |data|
    requires cur == Slice(Undone(data, rb), 0, a) + Slice(data, a, |data|)
    ensures BytesXor(Slice(cur, a, a + rb), Slice(cur, a - rb, a)) == Slice(Undone(data, rb), a, a + rb)
    ensures Slice(cur, 0, a) == Slice(Undone(data, rb), 0, a)
    ensures Slice(cur, a + rb, |cur|) == Slice(data, a + rb, |data|)
  {
    hide *;
    Halfway(Undone(data, rb), data, rb, a, cur);
    UndoneStep(data, rb, a);
  }

  // Slices of a string that is u up to a and data from there on.
  lemma Halfway(u: seq<byte>, data: seq<byte>, rb: nat, a: nat, cur: seq<byte>)
    requires 0 < rb <= a && a + rb <= |data| == |u|
    requires cur == Slice(u, 0, a) + Slice(data, a, |data|)
    ensures Slice(cur, a, a + rb) == Slice(data, a, a + rb) && Slice(cur, a - rb, a) == Slice(u, a - rb, a)
    ensures Slice(cur, 0, a) == Slice(u, 0, a) && Slice(cur, a + rb, |cur|) == Slice(data, a + rb, |data|)
  {
    var x, y := u[..a], data[a..];
    assert cur == x + y;
    assert cur[a..a + rb] == y[..rb] == data[a..a + rb];
    assert cur[a - rb..a] == x[a - rb..] == u[a - rb..a];
    assert cur[a + rb..] == y[rb..] == data[a + rb..];
  }

  lemma UndoneStep(data: seq<byte>, rb: nat, a: nat)
    requires 0 < rb <= a && a + rb <= |data|
    ensures BytesXor(Slice(data, a, a + rb), Slice(Undone(data, rb), a - rb, a)) == Slice(Undone(data, rb), a, a + rb)
  {
    var x := BytesXor(Slice(data, a, a + rb), Slice(Undone(data, rb), a - rb, a));
    var t := Slice(Undone(data, rb), a, a + rb);
    forall k | 0 <= k < rb ensures x[k] == t[k] {
      assert t[k] == UndoneByte(data, rb, a + k);
      assert UndoneByte(data, rb, a + k - rb) == Slice(Undone(data, rb), a - rb, a)[k];
    }
  }

  lemma Replaced(u: seq<byte>, data: seq<byte>, a: nat, b: nat, row: seq<byte>, cur: seq<byte>)
    requires a <= b <= |data| == |u| && row == Slice(u, a, b)
    requires cur == Slice(u, 0, a) + row + Slice(data, b, |data|)
    ensures cur == Slice(u, 0, b) + Slice(data, b, |data|)
  {
    SliceJoin(u, 0, a, b);
  }

  /** decode_rows */

  datatype Decoded = Pixels(data: seq<byte>) | ShortRaw | Rejected(e: RowError) | Unsupported

  function Decode(enc: int, payload: seq<byte>, rows: nat, rb: nat): Decoded {
    if enc == 0 then
      if |payload| < Area(rows, rb) then ShortRaw else Pixels(Slice(payload, 0, Area(rows, rb)))
    else if enc == 1 || enc == 3 then
      match Unpacked(payload, 0, rows, rb)
      case Err(e) => Rejected(e)
      case Ok(data, end) => Pixels(if enc == 3 then Undone(data, rb) else data)
    else Unsupported
  }

  method DecodeRows(enc: int, payload: seq<byte>, rows: nat, rb: nat) returns (r: Decoded)
    ensures r == Decode(enc, payload, rows, rb)
  {
    if enc == 0 {
      var need := Area(rows, rb);
      if |payload| < need { return ShortRaw; }
      return Pixels(Slice(payload, 0, need));
    }
    if enc == 1 || enc == 3 {
      var u := UnpackRows(payload, 0, rows, rb);
      if u.Err? { return Rejected(u.error); }
      if enc == 3 {
        UnpackedLength(payload, 0, rows, rb);
        var data := UndoUp(u.data, rows, rb);
        return Pixels(data);
      }
      return Pixels(u.data);
    }
    return Unsupported;
  }

  lemma {:induction false} UnpackedLength(payload: seq<byte>, off: nat, rows: nat, rb: nat)
    requires Unpacked(payload, off, rows, rb).Ok?
    ensures |Unpacked(payload, off, rows, rb).data| == Area(rows, rb)
    decreases rows
  {
    if rows > 0 {
      hide PB.Unpack, Slice, OneRow, PB.IsPacked;
      var Ok(row, next) := OneRow(payload, off, rb);
      OneRowExact(payload, off, rb, row, next);
      UnpackedLength(payload, next, rows - 1, rb);
    }
  }

  // Packing a frame, or its predicted form, and decoding it gives the frame back.
  lemma RoundTrip(pb: seq<byte> -> seq<byte>, frame: seq<byte>, rows: nat, rb: nat)
    requires Packer(pb) && 0 < rb < 0x4000 && |frame| == Area(rows, rb)
    ensures Decode(0, frame, rows, rb) == Pixels(frame)
    ensures Decode(1, PackedFrame(pb, frame, rb, rows), rows, rb) == Pixels(frame)
    ensures Decode(3, PackedFrame(pb, Up(frame, rb), rb, rows), rows, rb) == Pixels(frame)
  {
    PackedRoundTrip(pb, frame, rb, rows);
    PackedRoundTrip(pb, Up(frame, rb), rb, rows);
    SliceAll(frame);
    SliceAll(Up(frame, rb));
    UndoneUp(frame, rb);
  }
}
