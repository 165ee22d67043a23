/**
 PackBits, as the Toolbox writes it and the host reads it.

 The reference is the packet list of section 9 of TIFF 6.0: literal packets, repeat packets and
 no-ops.  The reader is the host's loop, which stops as soon as it has the bytes it expects.
 */
module PackBits {
  import opened Bytes

  datatype Packet = Literal(bytes: seq<byte>) | Repeat(count: int, b: byte) | NoOp

  predicate GoodPacket(p: Packet) {
    match p
    case Literal(bytes) => 1 <= |bytes| <= 128
    case Repeat(count, b) => 2 <= count <= 128
    case NoOp => true
  }

  predicate GoodPackets(ps: seq<Packet>) {
    forall i :: 0 <= i < |ps| ==> GoodPacket(ps[i])
  }

  function PacketBytes(p: Packet): (s: seq<byte>)
    requires GoodPacket(p)
  {
    match p
    case Literal(bytes) => [|bytes| - 1] + bytes
    case Repeat(count, b) => [257 - count, b]
    case NoOp => [128]
  }

  function Times(count: nat, b: byte): (s: seq<byte>)
    ensures |s| == count && forall i :: 0 <= i < count ==> s[i] == b
  {
    seq(count, _ => b)
  }

  function Meaning(p: Packet): seq<byte>
    requires GoodPacket(p)
  {
    match p
    case Literal(bytes) => bytes
    case Repeat(count, b) => Times(count, b)
    case NoOp => []
  }

  function Pack(ps: seq<Packet>): seq<byte>
    requires GoodPackets(ps)
  {
    if ps == [] then [] else PacketBytes(ps[0]) + Pack(ps[1..])
  }

  function Expand(ps: seq<Packet>): seq<byte>
    requires GoodPackets(ps)
  {
    if ps == [] then [] else Meaning(ps[0]) + Expand(ps[1..])
  }

  // ps is a packet list of the row; it does not end in a no-op.
  ghost predicate Encodes(ps: seq<Packet>, row: seq<byte>) {
    && GoodPackets(ps) && Expand(ps) == row
    && (ps != [] ==> ps[|ps| - 1] != NoOp)
  }

  ghost predicate IsPacked(packed: seq<byte>, row: seq<byte>) {
    exists ps :: Encodes(ps, row) && Pack(ps) == packed
  }

  /** The reader */

  datatype Error = EndedEarly | LiteralOverrun | RepeatOverrun | WrongLength
  datatype Result = Ok(row: seq<byte>, end: nat) | Err(error: Error)
  datatype First = Got(p: Packet, n: nat) | Bad(e: Error)

  // The packet at src[off].
  function Read(src: seq<byte>, off: nat): (f: First)
    ensures f.Got? ==> GoodPacket(f.p) && 1 <= f.n && off + f.n <= |src|
  {
    if off >= |src| then Bad(EndedEarly)
    else
      var c: int := src[off];
      if c < 128 then
        if |src| < off + c + 2 then Bad(LiteralOverrun) else Got(Literal(Slice(src, off + 1, off + c + 2)), c + 2)
      else if c > 128 then
        if |src| < off + 2 then Bad(RepeatOverrun) else Got(Repeat(257 - c, src[off + 1]), 2)
      else Got(NoOp, 1)
  }

  // What unpack_bits makes of src from off on, when it still expects `need` bytes.
  function Unpack(src: seq<byte>, off: nat, need: int): Result
    decreases |src| - off
  {
    if need < 0 then Err(WrongLength)
    else if need == 0 then Ok([], off)
    else
      match Read(src, off)
      case Bad(e) => Err(e)
      case Got(p, n) => Add(Meaning(p), Unpack(src, off + n, need - |Meaning(p)|))
  }

  function Add(front: seq<byte>, r: Result): Result {
    match r
    case Ok(row, end) => Ok(front + row, end)
    case Err(e) => r
  }

  lemma AddAdd(a: seq<byte>, b: seq<byte>, r: Result)
    ensures Add(a, Add(b, r)) == Add(a + b, r)
  {
    if r.Ok? { Assoc(a, b, r.row); }
  }

  method UnpackBits(src: seq<byte>, off0: nat, expected: nat) returns (r: Result)
    ensures r == Unpack(src, off0, expected)
  {
    hide *;
    var out: seq<byte>, off := [], off0;
    ghost var whole := Unpack(src, off0, expected);
    AddNone(whole);
    while |out| < expected
      invariant Add(out, Unpack(src, off, expected - |out|)) == whole
      decreases |src| - off
    {
      Turn(src, off, out, expected - |out|);
      if off >= |src| {
        return Err(EndedEarly);
      }
      var c: int := src[off];
      off := off + 1;
      if c < 128 {
        var cnt := c + 1;
        if off + cnt > |src| {
          return Err(LiteralOverrun);
        }
        out := out + Slice(src, off, off + cnt);
        off := off + cnt;
      } else if c > 128 {
        if off >= |src| {
          return Err(RepeatOverrun);
        }
        out := out + Times(257 - c, src[off]);
        off := off + 1;
      }
    }
    Finished(src, off, out, expected - |out|);
    if |out| != expected {
      return Err(WrongLength);
    }
    return Ok(out, off);
  }

  lemma AddNone(r: Result)
    ensures Add([], r) == r
  {
    if r.Ok? { assert [] + r.row == r.row; }
  }

  // One turn of the loop: the packet at off, then the rest.
  lemma Turn(src: seq<byte>, off: nat, out: seq<byte>, need: nat)
    requires need > 0
    ensures Add(out, Unpack(src, off, need)) ==
            if off >= |src| then Err(EndedEarly)
            else
              var c: int := src[off];
              if c < 128 then
                if |src| < off + c + 2 then Err(LiteralOverrun)
                else Add(out + Slice(src, off + 1, off + c + 2), Unpack(src, off + c + 2, need - (c + 1)))
              else if c > 128 then
                if |src| < off + 2 then Err(RepeatOverrun)
                else Add(out + Times(257 - c, src[off + 1]), Unpack(src, off + 2, need - (257 - c)))
              else Add(out, Unpack(src, off + 1, need))
  {
    hide Unpack, Add, Slice, Times;
    UnpackStep(src, off, need);
    AddError(out, EndedEarly);
    AddError(out, LiteralOverrun);
    AddError(out, RepeatOverrun);
    var f := Read(src, off);
    if f.Got? {
      AddAdd(out, Meaning(f.p), Unpack(src, off + f.n, need - |Meaning(f.p)|));
      assert out + [] == out;
    }
  }

  lemma AddError(out: seq<byte>, e: Error)
    ensures Add(out, Err(e)) == Err(e)
  {
  }

  lemma Finished(src: seq<byte>, off: nat, out: seq<byte>, need: int)
    requires need <= 0
    ensures Add(out, Unpack(src, off, need)) == if need < 0 then Err(WrongLength) else Ok(out, off)
  {
    assert out + [] == out;
  }

  /** Reader and packet lists */

  lemma UnpackStep(src: seq<byte>, off: nat, need: nat)
    requires need > 0
    ensures Unpack(src, off, need) ==
            match Read(src, off)
            case Bad(e) => Err(e)
            case Got(p, n) => Add(Meaning(p), Unpack(src, off + n, need - |Meaning(p)|))
  {
  }

  lemma ReadBytes(src: seq<byte>, off: nat)
    requires Read(src, off).Got?
    ensures var f := Read(src, off); PacketBytes(f.p) == Slice(src, off, off + f.n)
  {
    hide Slice;
    var f := Read(src, off);
    FirstByte(src, off);
    if f.p.Literal? {
      SliceJoin(src, off, off + 1, off + f.n);
    } else if f.p.Repeat? {
      FirstByte(src, off + 1);
      SliceJoin(src, off, off + 1, off + 2);
    }
  }

  lemma FirstByte(src: seq<byte>, off: nat)
    requires off < |src|
    ensures Slice(src, off, off + 1) == [src[off]]
  {
  }

  lemma ReadPacket(src: seq<byte>, off: nat, p: Packet)
    requires GoodPacket(p) && off + |PacketBytes(p)| <= |src|
    requires Slice(src, off, off + |PacketBytes(p)|) == PacketBytes(p)
    ensures Read(src, off) == Got(p, |PacketBytes(p)|)
  {
    var s := Slice(src, off, off + |PacketBytes(p)|);
    assert src[off] == s[0];
    match p {
      case Literal(bytes) => assert src[off + 1..off + 1 + |bytes|] == s[1..];
      case Repeat(count, b) => assert src[off + 1] == s[1];
      case NoOp =>
    }
  }

  lemma PackNone()
    ensures Pack([]) == [] == Expand([])
  {
  }

  lemma PackCons(p: Packet, rest: seq<Packet>)
    requires GoodPacket(p) && GoodPackets(rest)
    ensures GoodPackets([p] + rest)
    ensures Pack([p] + rest) == PacketBytes(p) + Pack(rest) && Expand([p] + rest) == Meaning(p) + Expand(rest)
  {
    assert ([p] + rest)[1..] == rest;
  }

  // A packet list that does not end in a no-op stands for at least one byte per packet that is not one.
  lemma {:induction false} SomeBytes(ps: seq<Packet>, row: seq<byte>)
    requires Encodes(ps, row) && ps != []
    ensures row != [] && Encodes(ps[1..], Expand(ps[1..])) && GoodPacket(ps[0]) && row == Expand(ps)
    decreases |ps|
  {
    if |ps| > 1 {
      SomeBytes(ps[1..], Expand(ps[1..]));
    }
  }

  lemma {:induction false} UnpackPacked(src: seq<byte>, off: nat, ps: seq<Packet>, row: seq<byte>)
    requires Encodes(ps, row) && off + |Pack(ps)| <= |src| && Slice(src, off, off + |Pack(ps)|) == Pack(ps)
    ensures Unpack(src, off, |row|) == Ok(row, off + |Pack(ps)|)
    decreases |ps|
  {
    hide *;
    PackNone();
    if ps == [] {
      EncodesNone(row);
      Finished(src, off, [], 0);
      AddNone(Unpack(src, off, 0));
    } else {
      var p, rest := ps[0], ps[1..];
      assert ps == [p] + rest;
      SomeBytes(ps, row);
      PackCons(p, rest);
      UnpackStep(src, off, |row|);
      SliceSplit(src, off, PacketBytes(p), Pack(rest));
      ReadPacket(src, off, p);
      UnpackPacked(src, off + |PacketBytes(p)|, rest, Expand(rest));
      AddOk(Meaning(p), Expand(rest), off + |Pack(ps)|);
    }
  }

  lemma AddErr(front: seq<byte>, r: Result)
    ensures Add(front, r).Ok? <==> r.Ok?
  {
  }

  lemma EncodesNone(row: seq<byte>)
    ensures Encodes([], row) <==> row == []
  {
  }

  lemma AddOk(front: seq<byte>, row: seq<byte>, end: nat)
    ensures Add(front, Ok(row, end)) == Ok(front + row, end)
  {
  }

  lemma {:induction false} UnpackSound(src: seq<byte>, off: nat, need: nat, r: Result) returns (ps: seq<Packet>)
    requires off <= |src| && r == Unpack(src, off, need) && r.Ok?
    ensures off <= r.end <= |src| && |r.row| == need && Encodes(ps, r.row) && Pack(ps) == Slice(src, off, r.end)
    decreases |src| - off
  {
    hide *;
    PackNone();
    if need == 0 {
      Finished(src, off, [], 0);
      AddNone(r);
      EncodesNone([]);
      SliceNone(src, off);
      ps := [];
    } else {
      UnpackStep(src, off, need);
      ReadBytes(src, off);
      var Got(p, n) := Read(src, off);
      var r' := Unpack(src, off + n, need - |Meaning(p)|);
      if need < |Meaning(p)| { Finished(src, off + n, [], need - |Meaning(p)|); AddNone(r'); }
      AddErr(Meaning(p), r');
      var rest := UnpackSound(src, off + n, need - |Meaning(p)|, r');
      ps := [p] + rest;
      AddOk(Meaning(p), r'.row, r'.end);
      SliceJoin(src, off, off + n, r'.end);
      EncodesCons(p, rest, r'.row, need);
    }
  }

  lemma EncodesCons(p: Packet, rest: seq<Packet>, row: seq<byte>, need: nat)
    requires GoodPacket(p) && Encodes(rest, row) && 0 < need == |Meaning(p)| + |row|
    ensures Encodes([p] + rest, Meaning(p) + row) && Pack([p] + rest) == PacketBytes(p) + Pack(rest)
  {
    PackCons(p, rest);
  }

  // The reader accepts exactly the packed forms of rows of the expected length.
  lemma UnpackExact(src: seq<byte>, off: nat, need: nat, row: seq<byte>, end: nat)
    requires off <= |src|
    ensures Unpack(src, off, need) == Ok(row, end) <==>
            off <= end <= |src| && |row| == need && IsPacked(Slice(src, off, end), row)
  {
    hide Unpack, Encodes, Pack, Slice;
    if Unpack(src, off, need) == Ok(row, end) {
      var ps := UnpackSound(src, off, need, Ok(row, end));
    }
    if off <= end <= |src| && |row| == need && IsPacked(Slice(src, off, end), row) {
      UnpackPackedRow(src, off, row, end);
    }
  }

  lemma UnpackPackedRow(src: seq<byte>, off: nat, row: seq<byte>, end: nat)
    requires off <= end <= |src| && IsPacked(Slice(src, off, end), row)
    ensures Unpack(src, off, |row|) == Ok(row, end)
  {
    var ps :| Encodes(ps, row) && Pack(ps) == Slice(src, off, end);
    hide Unpack, Encodes, Pack;
    UnpackPacked(src, off, ps, row);
  }

  lemma UnpackSign(src: seq<byte>, off: nat, need: int)
    ensures need < 0 ==> Unpack(src, off, need) == Err(WrongLength)
    ensures need == 0 ==> Unpack(src, off, need) == Ok([], off)
  {
  }

  // Expecting more bytes than a row has means reading on where the row ends.
  lemma {:induction false} UnpackMore(src: seq<byte>, off: nat, need: nat, k: nat)
    requires Unpack(src, off, need).Ok?
    ensures var r := Unpack(src, off, need); Unpack(src, off, need + k) == Add(r.row, Unpack(src, r.end, k))
    decreases |src| - off
  {
    hide Unpack, Read, Meaning;
    UnpackSign(src, off, need);
    if need == 0 {
      AddNone(Unpack(src, off, k));
    } else {
      UnpackStep(src, off, need);
      UnpackStep(src, off, need + k);
      var Got(p, n) := Read(src, off);
      var rest := Unpack(src, off + n, need - |Meaning(p)|);
      UnpackSign(src, off + n, need - |Meaning(p)|);
      UnpackMore(src, off + n, need - |Meaning(p)|, k);
      AddAdd(Meaning(p), rest.row, Unpack(src, rest.end, k));
    }
  }

  // A packed form belongs to one row only.
  lemma PackedUnique(packed: seq<byte>, a: seq<byte>, b: seq<byte>)
    requires IsPacked(packed, a) && IsPacked(packed, b)
    ensures a == b
  {
    if |a| <= |b| {
      PackedNotLonger(packed, a, b);
    } else {
      PackedNotLonger(packed, b, a);
    }
  }

  lemma PackedNotLonger(packed: seq<byte>, a: seq<byte>, b: seq<byte>)
    requires IsPacked(packed, a) && IsPacked(packed, b) && |a| <= |b|
    ensures a == b
  {
    assert Slice(packed, 0, |packed|) == packed;
    UnpackExact(packed, 0, |a|, a, |packed|);
    UnpackExact(packed, 0, |b|, b, |packed|);
    UnpackMore(packed, 0, |a|, |b| - |a|);
  }

  /** The plainest encoding: literal packets of up to 128 bytes */

  function Literals(row: seq<byte>): (ps: seq<Packet>)
    ensures GoodPackets(ps)
  {
    if row == [] then [] else if |row| <= 128 then [Literal(row)] else [Literal(row[..128])] + Literals(row[128..])
  }

  function PackLiterals(row: seq<byte>): seq<byte> {
    Pack(Literals(row))
  }

  lemma {:induction false} LiteralsEncode(row: seq<byte>)
    ensures Encodes(Literals(row), row)
    ensures |PackLiterals(row)| == |row| + (|row| + 127) / 128
  {
    if |row| > 128 {
      LiteralsEncode(row[128..]);
      PackCons(Literal(row[..128]), Literals(row[128..]));
      assert row[..128] + row[128..] == row;
    } else if row != [] {
      PackCons(Literal(row), []);
      PackNone();
      assert [Literal(row)] + [] == [Literal(row)];
    }
  }

  lemma LiteralsPacked(row: seq<byte>)
    ensures IsPacked(PackLiterals(row), row)
  {
    hide Encodes;
    LiteralsEncode(row);
  }
}
