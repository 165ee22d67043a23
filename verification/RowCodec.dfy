/** Packed rows: each row PackBits'd behind a two-byte length, and the Up predictor. */
module RowCodec {
  import opened Bytes
  import PB = PackBits

  // rows * rb, by addition: the offset of row `rows` in a pixmap of rb-byte rows.
  function Area(rows: nat, rb: nat): nat {
    if rows == 0 then 0 else Area(rows - 1, rb) + rb
  }

  lemma {:induction false} AreaProduct(rows: nat, rb: nat)
    ensures Area(rows, rb) == rows * rb
  {
    if rows > 0 { AreaProduct(rows - 1, rb); }
  }

  lemma Quotient(k: nat, rb: nat)
    requires rb > 0
    ensures k * rb / rb == k
  {
    var q, r := k * rb / rb, k * rb % rb;
    assert (k - q) * rb == r;
    AtLeast(k - q, rb);
  }

  lemma AtLeast(d: int, rb: nat)
    requires rb > 0
    ensures d > 0 ==> d * rb >= rb
    ensures d < 0 ==> d * rb < 0
  {
  }

  lemma AreaFirst(rb: nat)
    ensures Area(0, rb) == 0 && Area(1, rb) == rb
  {
  }

  lemma {:induction false} RowFits(y: nat, rows: nat, rb: nat)
    requires y < rows
    ensures Area(y, rb) + rb == Area(y + 1, rb) <= Area(rows, rb)
    decreases rows
  {
    if y + 1 < rows { RowFits(y, rows - 1, rb); }
  }

  /** The reader: unpack_rows */

  datatype RowError = PrefixMissing | RowOverrun | BadRow(e: PB.Error) | TrailingBytes
  datatype Rows = Ok(data: seq<byte>, end: nat) | Err(error: RowError)

  function Word(s: seq<byte>, off: nat): nat
    requires off + 2 <= |s|
  {
    s[off] as int * 256 + s[off + 1]
  }

  function Add(front: seq<byte>, r: Rows): Rows {
    match r
    case Ok(data, end) => Ok(front + data, end)
    case Err(e) => r
  }

  // One length-prefixed row at off.
  function OneRow(payload: seq<byte>, off: nat, rb: nat): Rows {
    if off + 2 > |payload| then Err(PrefixMissing)
    else
      var len := Word(payload, off);
      if off + 2 + len > |payload| then Err(RowOverrun)
      else
        match PB.Unpack(Slice(payload, off + 2, off + 2 + len), 0, rb)
        case Err(e) => Err(BadRow(e))
        case Ok(row, end) => if end != len then Err(TrailingBytes) else Ok(row, off + 2 + len)
  }

  function Unpacked(payload: seq<byte>, off: nat, rows: nat, rb: nat): Rows
    decreases rows
  {
    if rows == 0 then Ok([], off)
    else
      match OneRow(payload, off, rb)
      case Err(e) => Err(e)
      case Ok(row, next) => Add(row, Unpacked(payload, next, rows - 1, rb))
  }

  lemma UnpackedEnd(payload: seq<byte>, off: nat, rows: nat, rb: nat)
    requires Unpacked(payload, off, rows, rb).Ok?
    ensures off <= Unpacked(payload, off, rows, rb).end
    decreases rows
  {
    if rows > 0 { UnpackedEnd(payload, OneRow(payload, off, rb).end, rows - 1, rb); }
  }

  lemma AddAdd(a: seq<byte>, b: seq<byte>, r: Rows)
    ensures Add(a, Add(b, r)) == Add(a + b, r)
  {
    if r.Ok? { Assoc(a, b, r.data); }
  }

  lemma AddNone(r: Rows)
    ensures Add([], r) == r
  {
    if r.Ok? { assert [] + r.data == r.data; }
  }

  method UnpackRows(payload: seq<byte>, off0: nat, rows: nat, rb: nat) returns (r: Rows)
    ensures r == Unpacked(payload, off0, rows, rb)
  {
    hide *;
    var out: seq<byte>, off: nat := [], off0;
    AddNone(Unpacked(payload, off0, rows, rb));
    for i := 0 to rows
      invariant Add(out, Unpacked(payload, off, rows - i, rb)) == Unpacked(payload, off0, rows, rb)
    {
      UnpackedStep(payload, off, rows - i, rb, out);
      if off + 2 > |payload| {
        return Err(PrefixMissing);
      }
      var len := Word(payload, off);
      var start := off + 2;
      if start + len > |payload| {
        return Err(RowOverrun);
      }
      var u := PB.UnpackBits(Slice(payload, start, start + len), 0, rb);
      if u.Err? {
        return Err(BadRow(u.error));
      }
      if u.end != len {
        return Err(TrailingBytes);
      }
      out := out + u.row;
      off := start + len;
    }
    UnpackedDone(payload, off, rb, out);
    return Ok(out, off);
  }

  lemma UnpackedUnfold(payload: seq<byte>, off: nat, rows: nat, rb: nat)
    requires rows > 0
    ensures Unpacked(payload, off, rows, rb) ==
            match OneRow(payload, off, rb)
            case Err(e) => Err(e)
            case Ok(row, next) => Add(row, Unpacked(payload, next, rows - 1, rb))
  {
  }

  lemma UnpackedStep(payload: seq<byte>, off: nat, rows: nat, rb: nat, out: seq<byte>)
    requires rows > 0
    ensures Add(out, Unpacked(payload, off, rows, rb)) ==
            if off + 2 > |payload| then Err(PrefixMissing)
            else
              var next := off + 2 + Word(payload, off);
              if next > |payload| then Err(RowOverrun)
              else
                match PB.Unpack(Slice(payload, off + 2, next), 0, rb)
                case Err(e) => Err(BadRow(e))
                case Ok(row, end) =>
                  if end != Word(payload, off) then Err(TrailingBytes)
                  else Add(out + row, Unpacked(payload, next, rows - 1, rb))
  {
    hide Unpacked, PB.Unpack, Slice;
    UnpackedUnfold(payload, off, rows, rb);
    match OneRow(payload, off, rb)
    case Err(e) =>
    case Ok(row, next) => AddAdd(out, row, Unpacked(payload, next, rows - 1, rb));
  }

  lemma UnpackedDone(payload: seq<byte>, off: nat, rb: nat, out: seq<byte>)
    ensures Add(out, Unpacked(payload, off, 0, rb)) == Ok(out, off)
  {
    assert out + [] == out;
  }

  /** What the reader accepts */

  function Prefix(n: nat): seq<byte>
    requires n < 65536
  {
    [n / 256, n % 256]
  }

  // payload[off..end] is the wire form of row: its packed length, then a PackBits form of it.
  ghost predicate RowAt(payload: seq<byte>, off: nat, row: seq<byte>, end: nat) {
    && off + 2 <= end <= |payload| && end - off - 2 < 65536
    && Slice(payload, off, off + 2) == Prefix(end - off - 2)
    && PB.IsPacked(Slice(payload, off + 2, end), row)
  }

  // Row i of the list occupies payload[cuts[i]..cuts[i+1]].
  ghost predicate RowsAt(payload: seq<byte>, cuts: seq<nat>, rows: seq<seq<byte>>, rb: nat) {
    && |cuts| == |rows| + 1
    && forall i :: 0 <= i < |rows| ==> |rows[i]| == rb && RowAt(payload, cuts[i], rows[i], cuts[i + 1])
  }

  lemma WordPrefix(payload: seq<byte>, off: nat, n: nat)
    requires off + 2 <= |payload| && n < 65536
    ensures Word(payload, off) == n <==> Slice(payload, off, off + 2) == Prefix(n)
  {
    var s := Slice(payload, off, off + 2);
    assert payload[off] == s[0] && payload[off + 1] == s[1];
  }

  lemma WordBound(payload: seq<byte>, off: nat)
    requires off + 2 <= |payload|
    ensures Word(payload, off) < 65536
  {
  }

  lemma SliceAll(s: seq<byte>)
    ensures Slice(s, 0, |s|) == s
  {
  }

  lemma OneRowOk(payload: seq<byte>, off: nat, rb: nat, row: seq<byte>, end: nat)
    ensures OneRow(payload, off, rb) == Ok(row, end) <==>
            off + 2 <= |payload| && end == off + 2 + Word(payload, off) <= |payload| &&
            PB.Unpack(Slice(payload, off + 2, end), 0, rb) == PB.Ok(row, Word(payload, off))
  {
  }

  lemma OneRowExact(payload: seq<byte>, off: nat, rb: nat, row: seq<byte>, end: nat)
    ensures OneRow(payload, off, rb) == Ok(row, end) <==> |row| == rb && RowAt(payload, off, row, end)
  {
    hide OneRow, Slice, PB.IsPacked, PB.Unpack, Prefix, Word;
    OneRowOk(payload, off, rb, row, end);
    if off + 2 <= end <= |payload| {
      WordBound(payload, off);
      if end - off - 2 < 65536 { WordPrefix(payload, off, end - off - 2); }
      var s := Slice(payload, off + 2, end);
      SliceAll(s);
      PB.UnpackExact(s, 0, rb, row, |s|);
    }
  }

  lemma {:induction false} UnpackedRows(payload: seq<byte>, cuts: seq<nat>, rows: seq<seq<byte>>, rb: nat)
    requires RowsAt(payload, cuts, rows, rb)
    ensures Unpacked(payload, cuts[0], |rows|, rb) == Ok(Flat(rows), cuts[|rows|])
    decreases |rows|
  {
    if rows != [] {
      OneRowExact(payload, cuts[0], rb, rows[0], cuts[1]);
      UnpackedRows(payload, cuts[1..], rows[1..], rb);
    }
  }

  lemma {:induction false} RowsOf(payload: seq<byte>, off: nat, n: nat, rb: nat)
    returns (cuts: seq<nat>, rows: seq<seq<byte>>)
    requires Unpacked(payload, off, n, rb).Ok?
    ensures RowsAt(payload, cuts, rows, rb) && |rows| == n && cuts[0] == off
    ensures Unpacked(payload, off, n, rb) == Ok(Flat(rows), cuts[n])
    decreases n
  {
    if n == 0 {
      cuts, rows := [off], [];
    } else {
      var Ok(row, next) := OneRow(payload, off, rb);
      OneRowExact(payload, off, rb, row, next);
      var cuts', rows' := RowsOf(payload, next, n - 1, rb);
      cuts, rows := [off] + cuts', [row] + rows';
      assert rows[1..] == rows';
    }
  }

  // unpack_rows succeeds on exactly the wire forms of n rows of rb bytes, leaving nothing over in any row.
  lemma UnpackedExact(payload: seq<byte>, off: nat, n: nat, rb: nat, data: seq<byte>, end: nat)
    ensures Unpacked(payload, off, n, rb) == Ok(data, end) <==>
            exists cuts, rows :: RowsAt(payload, cuts, rows, rb) && |rows| == n && cuts[0] == off &&
                                 Flat(rows) == data && cuts[n] == end
  {
    if Unpacked(payload, off, n, rb) == Ok(data, end) {
      var cuts, rows := RowsOf(payload, off, n, rb);
    }
    if exists cuts, rows :: RowsAt(payload, cuts, rows, rb) && |rows| == n && cuts[0] == off &&
                            Flat(rows) == data && cuts[n] == end {
      var cuts, rows :| RowsAt(payload, cuts, rows, rb) && |rows| == n && cuts[0] == off &&
                        Flat(rows) == data && cuts[n] == end;
      UnpackedRows(payload, cuts, rows, rb);
    }
  }

  /** The writer: one row at a time, at the end of what is written */

  lemma RowAtPrefix(p: seq<byte>, p': seq<byte>, off: nat, row: seq<byte>, end: nat)
    requires RowAt(p, off, row, end) && p <= p'
    ensures RowAt(p', off, row, end)
  {
    assert Slice(p', off, off + 2) == Slice(p, off, off + 2);
    assert Slice(p', off + 2, end) == Slice(p, off + 2, end);
  }

  lemma RowsAtMore(p: seq<byte>, p': seq<byte>, cuts: seq<nat>, rows: seq<seq<byte>>, rb: nat, row: seq<byte>, end: nat)
    requires RowsAt(p, cuts, rows, rb) && p <= p' && |row| == rb && RowAt(p', cuts[|rows|], row, end)
    ensures RowsAt(p', cuts + [end], rows + [row], rb)
  {
    var cuts', rows' := cuts + [end], rows + [row];
    forall i | 0 <= i < |rows'| ensures |rows'[i]| == rb && RowAt(p', cuts'[i], rows'[i], cuts'[i + 1]) {
      if i < |rows| { RowAtPrefix(p, p', cuts[i], rows[i], cuts[i + 1]); }
    }
  }

  lemma {:induction false} FlatMore(rows: seq<seq<byte>>, row: seq<byte>)
    ensures Flat(rows + [row]) == Flat(rows) + row
    decreases |rows|
  {
    if rows == [] {
      assert Flat([row]) == row + Flat([]) == row;
    } else {
      assert (rows + [row])[1..] == rows[1..] + [row];
      FlatMore(rows[1..], row);
      Assoc(rows[0], Flat(rows[1..]), row);
    }
  }

  // The Toolbox's PackBits: it packs a row into packets, growing it by at most one byte per 128, and one more.
  ghost predicate Packer(pb: seq<byte> -> seq<byte>) {
    forall row :: |row| < 0x4000 ==> PB.IsPacked(pb(row), row) && |pb(row)| <= |row| + |row| / 128 + 1
  }

  // There are such functions.
  lemma LiteralPacker()
    ensures Packer(PB.PackLiterals)
  {
    hide PB.Encodes, PB.PackLiterals;
    forall row: seq<byte> | |row| < 0x4000
      ensures PB.IsPacked(PB.PackLiterals(row), row) && |PB.PackLiterals(row)| <= |row| + |row| / 128 + 1
    {
      PB.LiteralsEncode(row);
      PB.LiteralsPacked(row);
    }
  }

  // One row behind its length.
  function Packed(pb: seq<byte> -> seq<byte>, row: seq<byte>): seq<byte> {
    var p := pb(row);
    [(|p| / 256) % 256, |p| % 256] + p
  }

  function Row(src: seq<byte>, rb: nat, y: nat): (row: seq<byte>)
    requires Area(y + 1, rb) <= |src|
    ensures |row| == rb
  {
    Slice(src, Area(y, rb), Area(y + 1, rb))
  }

  // The first y rows of src, packed.
  function PackedFrame(pb: seq<byte> -> seq<byte>, src: seq<byte>, rb: nat, y: nat): seq<byte>
    requires Area(y, rb) <= |src|
  {
    if y == 0 then []
    else
      PackedFrame(pb, src, rb, y - 1) + Packed(pb, Row(src, rb, y - 1))
  }

  lemma PackedSize(pb: seq<byte> -> seq<byte>, row: seq<byte>)
    requires Packer(pb) && |row| < 0x4000
    ensures |Packed(pb, row)| <= 2 + |row| + |row| / 128 + 1
  {
  }

  // Writes the packed row at out[pos].
  method PackRow(pb: seq<byte> -> seq<byte>, row: seq<byte>, out: array<byte>, pos: nat) returns (end: nat)
    requires pos + |Packed(pb, row)| <= out.Length
    modifies out
    ensures end == pos + |Packed(pb, row)| && out[..end] == old(out[..pos]) + Packed(pb, row)
  {
    var packed := pb(row);
    var len := |packed|;
    for i := 0 to len
      invariant out[..pos] == old(out[..pos]) && out[pos + 2..pos + 2 + i] == packed[..i]
    {
      out[pos + 2 + i] := packed[i];
    }
    out[pos] := (len / 256) % 256;
    out[pos + 1] := len % 256;
    end := pos + 2 + len;
    assert out[..end] == out[..pos] + [out[pos], out[pos + 1]] + out[pos + 2..end];
  }

  method PackRows(pb: seq<byte> -> seq<byte>, src: seq<byte>, rows: nat, rb: nat, dst: array<byte>) returns (total: nat)
    requires Packer(pb) && rb < 0x4000 && Area(rows, rb) <= |src|
    requires Area(rows, 2 + rb + rb / 128 + 1) <= dst.Length
    modifies dst
    ensures total <= dst.Length && dst[..total] == PackedFrame(pb, src, rb, rows)
  {
    hide *;
    total := 0;
    var most := 2 + rb + rb / 128 + 1;
    AreaFirst(rb);
    AreaFirst(most);
    PackedFrameStep(pb, src, rb, 0);
    for y := 0 to rows
      invariant total <= Area(y, most) <= dst.Length && Area(y, rb) <= |src|
      invariant dst[..total] == PackedFrame(pb, src, rb, y)
    {
      RowFits(y, rows, rb);
      RowFits(y, rows, most);
      PackedSize(pb, Row(src, rb, y));
      PackedFrameStep(pb, src, rb, y + 1);
      total := PackRow(pb, Row(src, rb, y), dst, total);
    }
  }

  lemma PackedFrameStep(pb: seq<byte> -> seq<byte>, src: seq<byte>, rb: nat, y: nat)
    requires Area(y, rb) <= |src|
    ensures y == 0 ==> PackedFrame(pb, src, rb, y) == []
    ensures y > 0 ==> Area(y - 1, rb) + rb == Area(y, rb) &&
                      PackedFrame(pb, src, rb, y) == PackedFrame(pb, src, rb, y - 1) + Packed(pb, Row(src, rb, y - 1))
  {
  }

  lemma PackedAt(pb: seq<byte> -> seq<byte>, front: seq<byte>, row: seq<byte>)
    requires Packer(pb) && |row| < 0x4000
    ensures var out := front + Packed(pb, row); RowAt(out, |front|, row, |out|)
  {
    hide *;
    PackerPacks(pb, row);
    var p := pb(row);
    PackedParts(pb, row);
    WroteRow(front, (|p| / 256) % 256, |p| % 256, p, row);
    Assoc(front, [(|p| / 256) % 256, |p| % 256], p);
  }

  lemma PackerPacks(pb: seq<byte> -> seq<byte>, row: seq<byte>)
    requires Packer(pb) && |row| < 0x4000
    ensures PB.IsPacked(pb(row), row) && |pb(row)| < 65536
  {
  }

  lemma PackedParts(pb: seq<byte> -> seq<byte>, row: seq<byte>)
    ensures Packed(pb, row) == [(|pb(row)| / 256) % 256, |pb(row)| % 256] + pb(row)
  {
  }

  lemma WroteRow(front: seq<byte>, hi: byte, lo: byte, packed: seq<byte>, row: seq<byte>)
    requires |packed| < 65536 && hi == (|packed| / 256) % 256 && lo == |packed| % 256 && PB.IsPacked(packed, row)
    ensures var out := (front + [hi, lo]) + packed; RowAt(out, |front|, row, |out|)
  {
    var out := front + [hi, lo] + packed;
    assert Slice(out, |front|, |front| + 2) == [hi, lo];
    assert Slice(out, |front| + 2, |out|) == packed;
  }

  /** What is written so far, and where each row lies in it */

  ghost predicate Written(out: seq<byte>, cuts: seq<nat>, done: seq<seq<byte>>, rb: nat, data: seq<byte>) {
    && RowsAt(out, cuts, done, rb) && cuts[0] == 0 && cuts[|done|] == |out| && Flat(done) == data
  }

  lemma WrittenNone(rb: nat)
    ensures Written([], [0], [], rb, [])
  {
  }

  lemma WrittenMore(pb: seq<byte> -> seq<byte>, out: seq<byte>, cuts: seq<nat>, done: seq<seq<byte>>, rb: nat,
                    data: seq<byte>, row: seq<byte>)
    requires Packer(pb) && rb < 0x4000 && Written(out, cuts, done, rb, data) && |row| == rb
    ensures var out' := out + Packed(pb, row); Written(out', cuts + [|out'|], done + [row], rb, data + row)
  {
    var out' := out + Packed(pb, row);
    hide PB.IsPacked, Slice, Packed, Packer, Prefix;
    PackedAt(pb, out, row);
    RowsAtMore(out, out', cuts, done, rb, row, |out'|);
    FlatMore(done, row);
  }

  lemma WrittenAll(out: seq<byte>, cuts: seq<nat>, done: seq<seq<byte>>, rb: nat, data: seq<byte>)
    requires Written(out, cuts, done, rb, data)
    ensures Unpacked(out, 0, |done|, rb) == Ok(data, |out|)
  {
    UnpackedRows(out, cuts, done, rb);
  }

  lemma {:induction false} FrameWritten(pb: seq<byte> -> seq<byte>, src: seq<byte>, rb: nat, y: nat)
      returns (cuts: seq<nat>, done: seq<seq<byte>>)
    requires Packer(pb) && rb < 0x4000 && Area(y, rb) <= |src|
    ensures Written(PackedFrame(pb, src, rb, y), cuts, done, rb, Slice(src, 0, Area(y, rb))) && |done| == y
  {
    hide *;
    PackedFrameStep(pb, src, rb, y);
    AreaFirst(rb);
    if y == 0 {
      cuts, done := [0], [];
      WrittenNone(rb);
      SliceNone(src, 0);
    } else {
      cuts, done := FrameWritten(pb, src, rb, y - 1);
      var out, row := PackedFrame(pb, src, rb, y - 1), Row(src, rb, y - 1);
      WrittenMore(pb, out, cuts, done, rb, Slice(src, 0, Area(y - 1, rb)), row);
      RowSlice(src, rb, y - 1);
      cuts, done := cuts + [|out + Packed(pb, row)|], done + [row];
    }
  }

  lemma RowSlice(src: seq<byte>, rb: nat, y: nat)
    requires Area(y + 1, rb) <= |src|
    ensures Area(y, rb) + rb == Area(y + 1, rb)
    ensures Slice(src, 0, Area(y, rb)) + Row(src, rb, y) == Slice(src, 0, Area(y + 1, rb))
  {
    SliceJoin(src, 0, Area(y, rb), Area(y + 1, rb));
  }

  // The reader gets back what the writer packed.
  lemma PackedRoundTrip(pb: seq<byte> -> seq<byte>, src: seq<byte>, rb: nat, rows: nat)
    requires Packer(pb) && rb < 0x4000 && Area(rows, rb) <= |src|
    ensures var out := PackedFrame(pb, src, rb, rows);
            Unpacked(out, 0, rows, rb) == Ok(Slice(src, 0, Area(rows, rb)), |out|)
  {
    hide *;
    var cuts, done := FrameWritten(pb, src, rb, rows);
    WrittenAll(PackedFrame(pb, src, rb, rows), cuts, done, rb, Slice(src, 0, Area(rows, rb)));
  }
}
