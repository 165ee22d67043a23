/** The daemon's delta encoder: runs of changed rows, each run's row count patched in when it ends. */
module DeltaEncoder {
  import opened Bytes
  import opened Bits
  import opened RowCodec

  // What is emitted so far: complete runs, and the open run if there is one.
  datatype Emit = Emit(closed: seq<byte>, open: bool, y0: nat, count: nat, rows: seq<byte>)

  function TwoBytes(n: nat): seq<byte> {
    [(n / 256) % 256, n % 256]
  }

  function Output(e: Emit): seq<byte> {
    if e.open then e.closed + (TwoBytes(e.y0) + TwoBytes(e.count) + e.rows) else e.closed
  }

  // Row y is emitted when it differs from the previous frame's row; an equal row ends the open run.
  function Next(pb: seq<byte> -> seq<byte>, e: Emit, y: nat, row: seq<byte>, was: seq<byte>): Emit
    requires |row| == |was|
  {
    if row != was then
      var p := Packed(pb, BytesXor(row, was));
      if e.open then e.(count := e.count + 1, rows := e.rows + p) else Emit(e.closed, true, y, 1, p)
    else Emit(Output(e), false, 0, 0, [])
  }

  // The state after y rows.
  function Emitted(pb: seq<byte> -> seq<byte>, cur: seq<byte>, prev: seq<byte>, rb: nat, y: nat): Emit
    requires Area(y, rb) <= |cur| && Area(y, rb) <= |prev|
  {
    if y == 0 then Emit([], false, 0, 0, [])
    else
      Next(pb, Emitted(pb, cur, prev, rb, y - 1), y - 1, Row(cur, rb, y - 1), Row(prev, rb, y - 1))
  }

  function DeltaPayload(pb: seq<byte> -> seq<byte>, cur: seq<byte>, prev: seq<byte>, rb: nat, height: nat): seq<byte>
    requires Area(height, rb) <= |cur| && Area(height, rb) <= |prev|
  {
    Output(Emitted(pb, cur, prev, rb, height))
  }

  /** The emitting loop */

  // Whole words first, then the bytes that are left.
  method RowsDiffer(a: seq<byte>, b: seq<byte>) returns (differ: bool)
    requires |a| == |b|
    ensures differ <==> a != b
  {
    var words := |a| / 4;
    for i := 0 to words
      invariant a[..4 * i] == b[..4 * i]
    {
      if a[4 * i..4 * i + 4] != b[4 * i..4 * i + 4] {
        return true;
      }
      assert a[..4 * (i + 1)] == a[..4 * i] + a[4 * i..4 * i + 4];
      assert b[..4 * (i + 1)] == b[..4 * i] + b[4 * i..4 * i + 4];
    }
    for i := 4 * words to |a|
      invariant a[..i] == b[..i]
    {
      if a[i] != b[i] {
        return true;
      }
    }
    return false;
  }

  // The output a row can add: its own packed form, and the header of a new run.
  function RowCap(rb: nat): nat {
    rb + rb / 64 + 8
  }

  function Patched(s: seq<byte>, runStart: nat, n: nat): seq<byte>
    requires runStart + 4 <= |s|
  {
    s[..runStart + 2] + TwoBytes(n) + s[runStart + 4..]
  }

  method PatchCount(out: array<byte>, pos: nat, runStart: nat, n: nat)
    requires runStart + 4 <= pos <= out.Length
    modifies out
    ensures out[..pos] == Patched(old(out[..pos]), runStart, n)
  {
    out[runStart + 2] := (n / 256) % 256;
    out[runStart + 3] := n % 256;
  }

  method EmitDelta(pb: seq<byte> -> seq<byte>, cur: seq<byte>, prev: seq<byte>, rb: nat, height: nat, out: array<byte>)
      returns (pos: nat)
    requires Area(height, rb) <= |cur| && Area(height, rb) <= |prev|
    requires |DeltaPayload(pb, cur, prev, rb, height)| <= out.Length
    modifies out
    ensures pos <= out.Length && out[..pos] == DeltaPayload(pb, cur, prev, rb, height)
  {
    hide *;
    pos := 0;
    var open, runStart: nat, runCount: nat := false, 0, 0;
    EmittedStart(pb, cur, prev, rb);
    AreaFirst(rb);
    for y := 0 to height
      invariant Area(y, rb) <= |cur| && Area(y, rb) <= |prev| && pos <= out.Length
      invariant Holds(out[..pos], open, runStart, runCount, Emitted(pb, cur, prev, rb, y))
    {
      ghost var e := Emitted(pb, cur, prev, rb, y);
      RowFits(y, height, rb);
      var row, was := Row(cur, rb, y), Row(prev, rb, y);
      EmittedStep(pb, cur, prev, rb, y);
      var differ := RowsDiffer(row, was);
      ghost var before := out[..pos];
      ghost var wasOpen, start0, count0 := open, runStart, runCount;
      if differ {
        var x := BytesXor(row, was);
        RoomLeft(pb, cur, prev, rb, y, height);
        NextRoom(out[..pos], open, runStart, runCount, e, pb, y, row, was);
        if !open {
          open, runStart, runCount := true, pos, 0;
          out[pos] := (y / 256) % 256;
          out[pos + 1] := y % 256;
          out[pos + 2] := 0;
          out[pos + 3] := 0;
          pos := pos + 4;
          assert out[..pos] == before + [(y / 256) % 256, y % 256, 0, 0];
        }
        pos := PackRow(pb, x, out, pos);
        runCount := runCount + 1;
        HoldsRow(before, wasOpen, start0, count0, e, pb, y, row, was);
      } else if open {
        HoldsOpen(before, runStart, runCount, e);
        PatchCount(out, pos, runStart, runCount);
        open := false;
        HoldsClosed(before, runStart, runCount, e);
        EqualRow(pb, e, y, row, was);
      } else {
        HoldsIdle(before, runStart, runCount, e);
        EqualRow(pb, e, y, row, was);
      }
    }
    ghost var e := Emitted(pb, cur, prev, rb, height);
    PayloadOf(pb, cur, prev, rb, height);
    if open {
      ghost var before := out[..pos];
      HoldsOpen(before, runStart, runCount, e);
      PatchCount(out, pos, runStart, runCount);
      HoldsClosed(before, runStart, runCount, e);
    } else {
      HoldsIdle(out[..pos], runStart, runCount, e);
    }
  }

  // The output buffer holds e, except that the count of an open run is still zero.
  ghost predicate Holds(out: seq<byte>, open: bool, runStart: nat, runCount: nat, e: Emit) {
    && open == e.open
    && if open
       then runStart == |e.closed| && runCount == e.count && out == e.closed + (TwoBytes(e.y0) + [0, 0] + e.rows)
       else out == e.closed
  }

  lemma EmittedStart(pb: seq<byte> -> seq<byte>, cur: seq<byte>, prev: seq<byte>, rb: nat)
    ensures Area(0, rb) == 0
    ensures Holds([], false, 0, 0, Emitted(pb, cur, prev, rb, 0))
  {
  }

  lemma EmittedStep(pb: seq<byte> -> seq<byte>, cur: seq<byte>, prev: seq<byte>, rb: nat, y: nat)
    requires Area(y + 1, rb) <= |cur| && Area(y + 1, rb) <= |prev|
    ensures Area(y, rb) <= Area(y + 1, rb)
    ensures Emitted(pb, cur, prev, rb, y + 1) ==
            Next(pb, Emitted(pb, cur, prev, rb, y), y, Row(cur, rb, y), Row(prev, rb, y))
  {
  }

  lemma PayloadOf(pb: seq<byte> -> seq<byte>, cur: seq<byte>, prev: seq<byte>, rb: nat, height: nat)
    requires Area(height, rb) <= |cur| && Area(height, rb) <= |prev|
    ensures DeltaPayload(pb, cur, prev, rb, height) == Output(Emitted(pb, cur, prev, rb, height))
  {
  }

  lemma OneMoreRow(pb: seq<byte> -> seq<byte>, cur: seq<byte>, prev: seq<byte>, rb: nat, y: nat)
    requires Area(y + 1, rb) <= |cur| && Area(y + 1, rb) <= |prev|
    ensures Area(y, rb) <= Area(y + 1, rb)
    ensures |Output(Emitted(pb, cur, prev, rb, y))| <= |Output(Emitted(pb, cur, prev, rb, y + 1))|
  {
    hide Emitted, Row, Area, Next, Output;
    EmittedStep(pb, cur, prev, rb, y);
    OutputGrows(pb, Emitted(pb, cur, prev, rb, y), y, Row(cur, rb, y), Row(prev, rb, y));
  }

  lemma {:induction false} RoomLeft(pb: seq<byte> -> seq<byte>, cur: seq<byte>, prev: seq<byte>, rb: nat, y: nat,
                                    height: nat)
    requires y < height && Area(height, rb) <= |cur| && Area(height, rb) <= |prev|
    ensures Area(y + 1, rb) <= Area(height, rb)
    ensures |Output(Emitted(pb, cur, prev, rb, y + 1))| <= |DeltaPayload(pb, cur, prev, rb, height)|
    decreases height
  {
    hide Emitted, Area, Output;
    RowFits(y, height, rb);
    if y + 1 < height {
      OneMoreRow(pb, cur, prev, rb, height - 1);
      RoomLeft(pb, cur, prev, rb, y, height - 1);
    }
  }

  lemma OutputGrows(pb: seq<byte> -> seq<byte>, e: Emit, y: nat, row: seq<byte>, was: seq<byte>)
    requires |row| == |was|
    ensures |Output(Next(pb, e, y, row, was))| >= |Output(e)|
  {
  }

  // What a changed row needs behind what the buffer holds.
  lemma NextRoom(out: seq<byte>, open: bool, runStart: nat, runCount: nat, e: Emit,
                 pb: seq<byte> -> seq<byte>, y: nat, row: seq<byte>, was: seq<byte>)
    requires |row| == |was| && row != was && Holds(out, open, runStart, runCount, e)
    ensures |out| + (if open then 0 else 4) + |Packed(pb, BytesXor(row, was))| == |Output(Next(pb, e, y, row, was))|
  {
    hide Packed;
  }

  lemma RowRoom(pb: seq<byte> -> seq<byte>, x: seq<byte>)
    requires Packer(pb) && |x| < 0x4000
    ensures |Packed(pb, x)| + 4 <= RowCap(|x|)
  {
    PackedSize(pb, x);
  }

  lemma HoldsRow(before: seq<byte>, open: bool, runStart: nat, runCount: nat, e: Emit,
                 pb: seq<byte> -> seq<byte>, y: nat, row: seq<byte>, was: seq<byte>)
    requires |row| == |was| && row != was && Holds(before, open, runStart, runCount, e)
    ensures var p := Packed(pb, BytesXor(row, was));
            if open then Holds(before + p, true, runStart, runCount + 1, Next(pb, e, y, row, was))
            else Holds(before + [(y / 256) % 256, y % 256, 0, 0] + p, true, |before|, 1, Next(pb, e, y, row, was))
  {
    hide Packed;
    var p := Packed(pb, BytesXor(row, was));
    if e.open {
      assert before + p == e.closed + (TwoBytes(e.y0) + [0, 0] + (e.rows + p));
    } else {
      assert before + [(y / 256) % 256, y % 256, 0, 0] + p == e.closed + (TwoBytes(y) + [0, 0] + p);
    }
  }

  lemma HoldsOpen(out: seq<byte>, runStart: nat, runCount: nat, e: Emit)
    requires Holds(out, true, runStart, runCount, e)
    ensures e.open && runCount == e.count && runStart + 4 <= |out|
  {
  }

  lemma HoldsIdle(out: seq<byte>, runStart: nat, runCount: nat, e: Emit)
    requires Holds(out, false, runStart, runCount, e)
    ensures !e.open && out == e.closed == Output(e)
  {
  }

  // Patching the count completes the run.
  lemma HoldsClosed(out: seq<byte>, runStart: nat, runCount: nat, e: Emit)
    requires Holds(out, true, runStart, runCount, e)
    ensures runStart + 4 <= |out| && Patched(out, runStart, runCount) == Output(e)
  {
    assert out[..runStart + 2] == e.closed + TwoBytes(e.y0) && out[runStart + 4..] == e.rows;
    assert Patched(out, runStart, runCount) == e.closed + (TwoBytes(e.y0) + TwoBytes(e.count) + e.rows);
  }

  lemma EqualRow(pb: seq<byte> -> seq<byte>, e: Emit, y: nat, row: seq<byte>, was: seq<byte>)
    requires |row| == |was| && row == was
    ensures forall runStart: nat, runCount: nat ::
              Holds(Output(e), false, runStart, runCount, Next(pb, e, y, row, was))
  {
  }
}
