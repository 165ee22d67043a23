/** A delta the daemon emits, read and applied by the host, turns the previous frame into the current one. */
module DeltaMeaning {
  import opened Bytes
  import opened Bits
  import opened RowCodec
  import PB = PackBits
  import opened Delta
  import opened DeltaEncoder

  /** Reading a payload that is extended by one more run */

  lemma RowAtShift(front: seq<byte>, p: seq<byte>, off: nat, row: seq<byte>, end: nat)
    requires RowAt(p, off, row, end)
    ensures RowAt(front + p, |front| + off, row, |front| + end)
  {
    hide Slice, PB.IsPacked;
    SliceBehind(front, p, off, off + 2);
    SliceBehind(front, p, off + 2, end);
  }

  lemma SliceBehind(front: seq<byte>, p: seq<byte>, a: nat, b: nat)
    requires a <= b <= |p|
    ensures Slice(front + p, |front| + a, |front| + b) == Slice(p, a, b)
  {
  }

  function Shifted(cuts: seq<nat>, k: nat): (r: seq<nat>)
    ensures |r| == |cuts| && forall i :: 0 <= i < |cuts| ==> r[i] == k + cuts[i]
  {
    seq(|cuts|, i requires 0 <= i < |cuts| => k + cuts[i])
  }

  lemma RowsAtShift(front: seq<byte>, p: seq<byte>, cuts: seq<nat>, rows: seq<seq<byte>>, rb: nat)
    requires RowsAt(p, cuts, rows, rb)
    ensures RowsAt(front + p, Shifted(cuts, |front|), rows, rb)
  {
    hide RowAt;
    var c := Shifted(cuts, |front|);
    forall i | 0 <= i < |rows| ensures |rows[i]| == rb && RowAt(front + p, c[i], rows[i], c[i + 1]) {
      RowAtShift(front, p, cuts[i], rows[i], cuts[i + 1]);
    }
  }

  lemma RowsAtPrefix(p: seq<byte>, q: seq<byte>, cuts: seq<nat>, rows: seq<seq<byte>>, rb: nat)
    requires RowsAt(p, cuts, rows, rb)
    ensures RowsAt(p + q, cuts, rows, rb)
  {
    forall i | 0 <= i < |rows| ensures |rows[i]| == rb && RowAt(p + q, cuts[i], rows[i], cuts[i + 1]) {
      RowAtPrefix(p, p + q, cuts[i], rows[i], cuts[i + 1]);
    }
  }

  // A run that is read from p is read the same when more follows.
  lemma OneRunStable(p: seq<byte>, q: seq<byte>, off: nat, rb: nat)
    requires OneRun(p, off, rb).Got?
    ensures OneRun(p + q, off, rb) == OneRun(p, off, rb) && OneRun(p, off, rb).next <= |p|
  {
    hide RowsAt, Unpacked, Flat;
    var n := Word(p, off + 2);
    var cuts, rows := RowsOf(p, off + 4, n, rb);
    CutsInside(p, cuts, rows, rb);
    RowsAtPrefix(p, q, cuts, rows, rb);
    UnpackedRows(p + q, cuts, rows, rb);
  }

  lemma CutsInside(p: seq<byte>, cuts: seq<nat>, rows: seq<seq<byte>>, rb: nat)
    requires RowsAt(p, cuts, rows, rb) && cuts[0] <= |p|
    ensures |cuts| == |rows| + 1 && cuts[|rows|] <= |p|
  {
    if rows != [] {
      assert RowAt(p, cuts[|rows| - 1], rows[|rows| - 1], cuts[|rows| - 1 + 1]);
    }
  }

  lemma {:induction false} ParseAppend(p: seq<byte>, q: seq<byte>, off: nat, rb: nat, runs: seq<Run>, run: Run)
    requires off <= |p| && Parse(p, off, rb) == Runs(runs) && q != []
    requires OneRun(p + q, |p|, rb) == Got(run, |p + q|)
    ensures Parse(p + q, off, rb) == Runs(runs + [run])
    decreases |p| - off
  {
    hide *;
    if off == |p| {
      ParseEnds(p, off, rb);
      ParseEnds(p + q, |p + q|, rb);
      ParseUnfold(p + q, off, rb, true);
      ConsRuns([run], []);
    } else {
      ParseUnfold(p, off, rb, true);
      ParseUnfold(p + q, off, rb, true);
      ParsedFirst(p, off, rb, runs);
      OneRunStable(p, q, off, rb);
      OneRunEnd(p, off, rb);
      var first := OneRun(p, off, rb);
      ParseAppend(p, q, first.next, rb, runs[1..], run);
      ConsRuns([first.run], runs[1..] + [run]);
      assert [first.run] + (runs[1..] + [run]) == runs + [run];
    }
  }

  lemma ParseEnds(p: seq<byte>, off: nat, rb: nat)
    requires off >= |p|
    ensures Parse(p, off, rb) == Runs([])
  {
  }

  lemma ConsRuns(a: seq<Run>, b: seq<Run>)
    ensures Cons(a, Runs(b)) == Runs(a + b)
  {
  }

  lemma ParsedFirst(p: seq<byte>, off: nat, rb: nat, runs: seq<Run>)
    requires off < |p| && Parse(p, off, rb) == Runs(runs)
    ensures OneRun(p, off, rb).Got? && runs != [] && runs[0] == OneRun(p, off, rb).run
    ensures Parse(p, OneRun(p, off, rb).next, rb) == Runs(runs[1..])
  {
    hide OneRun;
    ParseUnfold(p, off, rb, true);
    var first := OneRun(p, off, rb);
    if first.Got? {
      var rest := Parse(p, first.next, rb);
      if rest.Runs? { assert ([first.run] + rest.runs)[1..] == rest.runs; }
    }
  }

  // The bytes of one complete run, behind anything.
  lemma RunRead(p: seq<byte>, y0: nat, rowBytes: seq<byte>, cuts: seq<nat>, done: seq<seq<byte>>, rb: nat,
                data: seq<byte>)
    requires y0 < 65536 && |done| < 65536 && Written(rowBytes, cuts, done, rb, data)
    ensures var q := TwoBytes(y0) + TwoBytes(|done|) + rowBytes;
            OneRun(p + q, |p|, rb) == Got(Run(y0, data), |p + q|)
  {
    hide RowAt, RowsAt, Unpacked, TwoBytes, Word, Flat;
    var head := p + TwoBytes(y0) + TwoBytes(|done|);
    var q := TwoBytes(y0) + TwoBytes(|done|) + rowBytes;
    HeadWords(p, y0, |done|, rowBytes);
    CutsCount(rowBytes, cuts, done, rb);
    RowsAtShift(head, rowBytes, cuts, done, rb);
    UnpackedRows(head + rowBytes, Shifted(cuts, |head|), done, rb);
  }

  lemma CutsCount(p: seq<byte>, cuts: seq<nat>, rows: seq<seq<byte>>, rb: nat)
    requires RowsAt(p, cuts, rows, rb)
    ensures |cuts| == |rows| + 1
  {
  }

  lemma HeadWords(p: seq<byte>, y0: nat, n: nat, rowBytes: seq<byte>)
    requires y0 < 65536 && n < 65536
    ensures var q := TwoBytes(y0) + TwoBytes(n) + rowBytes; var head := p + TwoBytes(y0) + TwoBytes(n);
            |head| == |p| + 4 && p + q == head + rowBytes && Word(p + q, |p|) == y0 && Word(p + q, |p| + 2) == n
  {
    var q := TwoBytes(y0) + TwoBytes(n) + rowBytes;
    assert (p + q)[|p|] == y0 / 256 && (p + q)[|p| + 1] == y0 % 256;
    assert (p + q)[|p| + 2] == n / 256 && (p + q)[|p| + 3] == n % 256;
  }

  /** What the emitted runs cover */

  // The runs turn the first y rows of prev into those of cur, and touch nothing else.
  ghost predicate Covers(runs: seq<Run>, cur: seq<byte>, prev: seq<byte>, rb: nat, y: nat)
    requires rb > 0 && |cur| == |prev|
  {
    && (forall run :: run in runs ==> Inside(run, rb, y))
    && forall i :: 0 <= i < |cur| ==>
         Total(runs, rb, i) == if i < Area(y, rb) then ByteXor(cur[i], prev[i]) else 0
  }

  lemma CoversEqual(runs: seq<Run>, cur: seq<byte>, prev: seq<byte>, rb: nat, y: nat)
    requires rb > 0 && |cur| == |prev| && Area(y + 1, rb) <= |cur| && Covers(runs, cur, prev, rb, y)
    requires Row(cur, rb, y) == Row(prev, rb, y)
    ensures Covers(runs, cur, prev, rb, y + 1)
  {
    forall i | 0 <= i < |cur|
      ensures Total(runs, rb, i) == if i < Area(y + 1, rb) then ByteXor(cur[i], prev[i]) else 0
    {
      if Area(y, rb) <= i < Area(y + 1, rb) {
        RowByte(cur, rb, y, i);
        RowByte(prev, rb, y, i);
        ByteXorLaws(cur[i], 0, 0);
      }
    }
  }

  lemma RowByte(s: seq<byte>, rb: nat, y: nat, i: nat)
    requires Area(y + 1, rb) <= |s| && Area(y, rb) <= i < Area(y + 1, rb)
    ensures Row(s, rb, y)[i - Area(y, rb)] == s[i]
  {
  }

  // An empty run covers nothing.
  lemma CoversEmpty(runs: seq<Run>, cur: seq<byte>, prev: seq<byte>, rb: nat, y: nat)
    requires rb > 0 && |cur| == |prev| && Covers(runs, cur, prev, rb, y)
    ensures Covers(runs + [Run(y, [])], cur, prev, rb, y)
  {
    forall i | 0 <= i < |cur| ensures Total(runs + [Run(y, [])], rb, i) == Total(runs, rb, i) {
      TotalMore(runs, Run(y, []), rb, i);
      ByteXorLaws(Total(runs, rb, i), 0, 0);
    }
  }

  lemma CoversGrow(runs: seq<Run>, y0: nat, data: seq<byte>, cur: seq<byte>, prev: seq<byte>, rb: nat, y: nat)
    requires rb > 0 && |cur| == |prev| && Area(y + 1, rb) <= |cur| && y0 <= y
    requires Covers(runs + [Run(y0, data)], cur, prev, rb, y)
    requires Area(y0, rb) + |data| == Area(y, rb)
    ensures Covers(runs + [Run(y0, data + BytesXor(Row(cur, rb, y), Row(prev, rb, y)))], cur, prev, rb, y + 1)
  {
    var x := BytesXor(Row(cur, rb, y), Row(prev, rb, y));
    var before, after := runs + [Run(y0, data)], runs + [Run(y0, data + x)];
    forall run | run in after ensures Inside(run, rb, y + 1) {
      if run in runs { assert run in before; } else { GrownInside(y0, |data + x|, rb, y + 1); }
    }
    forall i | 0 <= i < |cur|
      ensures Total(after, rb, i) == if i < Area(y + 1, rb) then ByteXor(cur[i], prev[i]) else 0
    {
      hide Total, Row, Area, BytesXor, ByteXor;
      GrownTotal(runs, y0, data, x, cur, prev, rb, y, i);
    }
  }

  lemma GrownInside(y0: nat, n: nat, rb: nat, y: nat)
    requires rb > 0 && y0 <= y && Area(y0, rb) + n == Area(y, rb)
    ensures y0 + n / rb <= y
  {
    AreaProduct(y0, rb);
    AreaProduct(y, rb);
    assert n == (y - y0) * rb;
    Quotient(y - y0, rb);
  }

  lemma GrownTotal(runs: seq<Run>, y0: nat, data: seq<byte>, x: seq<byte>, cur: seq<byte>, prev: seq<byte>, rb: nat,
                   y: nat, i: nat)
    requires rb > 0 && |cur| == |prev| && Area(y + 1, rb) <= |cur| && i < |cur|
    requires x == BytesXor(Row(cur, rb, y), Row(prev, rb, y)) && Area(y0, rb) + |data| == Area(y, rb)
    requires Total(runs + [Run(y0, data)], rb, i) == if i < Area(y, rb) then ByteXor(cur[i], prev[i]) else 0
    ensures Total(runs + [Run(y0, data + x)], rb, i) == if i < Area(y + 1, rb) then ByteXor(cur[i], prev[i]) else 0
  {
    hide Total, Row, ByteXor;
    TotalMore(runs, Run(y0, data), rb, i);
    TotalMore(runs, Run(y0, data + x), rb, i);
    RowFits(y, y + 1, rb);
    if Area(y, rb) <= i < Area(y + 1, rb) {
      RowByte(cur, rb, y, i);
      RowByte(prev, rb, y, i);
      ByteXorLaws(Total(runs, rb, i), 0, 0);
      ByteXorLaws(0, x[i - Area(y, rb)], 0);
      ByteXorLaws(x[i - Area(y, rb)], 0, 0);
    }
  }

  /** The emitter's progress */

  function AllRuns(closed: seq<Run>, e: Emit, data: seq<byte>): seq<Run> {
    if e.open then closed + [Run(e.y0, data)] else closed
  }

  // The closed part parses to `closed`, the open rows carry `data`, and together they cover y rows.
  ghost predicate Sound(e: Emit, closed: seq<Run>, cuts: seq<nat>, done: seq<seq<byte>>, data: seq<byte>,
                        cur: seq<byte>, prev: seq<byte>, rb: nat, y: nat)
    requires rb > 0 && |cur| == |prev|
  {
    && Parse(e.closed, 0, rb) == Runs(closed)
    && (e.open ==> Written(e.rows, cuts, done, rb, data) && |done| == e.count && e.y0 + e.count == y &&
                   Area(e.y0, rb) + |data| == Area(y, rb))
    && Covers(AllRuns(closed, e, data), cur, prev, rb, y)
  }

  // Closing the open run.
  lemma SoundOutput(e: Emit, closed: seq<Run>, cuts: seq<nat>, done: seq<seq<byte>>, data: seq<byte>,
                    cur: seq<byte>, prev: seq<byte>, rb: nat, y: nat)
    requires rb > 0 && |cur| == |prev| && y < 65536
    requires Sound(e, closed, cuts, done, data, cur, prev, rb, y)
    ensures Parse(Output(e), 0, rb) == Runs(AllRuns(closed, e, data))
  {
    if e.open {
      hide Parse, OneRun, Covers, Written, TwoBytes;
      var q := TwoBytes(e.y0) + TwoBytes(e.count) + e.rows;
      RunRead(e.closed, e.y0, e.rows, cuts, done, rb, data);
      assert q != [] by { assert |TwoBytes(e.y0)| == 2 by { TwoBytesLength(e.y0); } }
      ParseAppend(e.closed, q, 0, rb, closed, Run(e.y0, data));
    }
  }

  lemma TwoBytesLength(n: nat)
    ensures |TwoBytes(n)| == 2
  {
  }

  /** Which rows the runs carry: exactly the changed ones, in runs that are as long as they can be */

  // The row behind the run's last one.
  function End(run: Run, rb: nat): nat
    requires rb > 0
  {
    run.y0 + |run.data| / rb
  }

  ghost predicate CarriedIn(runs: seq<Run>, rb: nat, r: nat)
    requires rb > 0
  {
    exists k :: 0 <= k < |runs| && runs[k].y0 <= r < End(runs[k], rb)
  }

  // Among the first y rows the runs hold those that differ; no run is empty, and none meets the next one; the last one
  // ends at y when it is still open, and before it otherwise.
  ghost predicate Carries(runs: seq<Run>, open: bool, cur: seq<byte>, prev: seq<byte>, rb: nat, y: nat)
    requires rb > 0 && |cur| == |prev| && Area(y, rb) <= |cur|
  {
    && (forall k :: 0 <= k < |runs| ==> runs[k].y0 < End(runs[k], rb) <= y)
    && (forall k :: 0 < k < |runs| ==> End(runs[k - 1], rb) < runs[k].y0)
    && (open ==> runs != [] && End(runs[|runs| - 1], rb) == y)
    && (!open && runs != [] ==> End(runs[|runs| - 1], rb) < y)
    && forall r: nat :: r < y ==> (CarriedIn(runs, rb, r) <==> Differs(cur, prev, rb, r))
  }

  ghost predicate Differs(cur: seq<byte>, prev: seq<byte>, rb: nat, r: nat) {
    Area(r + 1, rb) <= |cur| && Area(r + 1, rb) <= |prev| && Row(cur, rb, r) != Row(prev, rb, r)
  }

  lemma RowsUntil(y0: nat, n: nat, rb: nat, y: nat)
    requires rb > 0 && Area(y0, rb) + n == Area(y, rb)
    ensures y0 + n / rb == y
  {
    AreaProduct(y0, rb);
    AreaProduct(y, rb);
    assert n == (y - y0) * rb;
    Quotient(y - y0, rb);
  }

  lemma CarriesEqual(runs: seq<Run>, open: bool, cur: seq<byte>, prev: seq<byte>, rb: nat, y: nat)
    requires rb > 0 && |cur| == |prev| && Area(y + 1, rb) <= |cur| && Area(y, rb) <= |cur|
    requires Carries(runs, open, cur, prev, rb, y) && Row(cur, rb, y) == Row(prev, rb, y)
    ensures Carries(runs, false, cur, prev, rb, y + 1)
  {
    hide Row, Area, End;
    forall k | 0 <= k < |runs|
      ensures End(runs[k], rb) <= y
    {
    }
    assert !CarriedIn(runs, rb, y);
  }

  lemma CarriesExtend(runs: seq<Run>, y0: nat, data: seq<byte>, x: seq<byte>, cur: seq<byte>, prev: seq<byte>, rb: nat,
                      y: nat)
    requires rb > 0 && |cur| == |prev| && Area(y + 1, rb) <= |cur| && Area(y, rb) <= |cur| && |x| == rb
    requires Carries(runs + [Run(y0, data)], true, cur, prev, rb, y) && Row(cur, rb, y) != Row(prev, rb, y)
    requires Area(y0, rb) + |data| == Area(y, rb)
    ensures Carries(runs + [Run(y0, data + x)], true, cur, prev, rb, y + 1)
  {
    var was, now := runs + [Run(y0, data)], runs + [Run(y0, data + x)];
    RowFits(y, y + 1, rb);
    RowsUntil(y0, |data|, rb, y);
    RowsUntil(y0, |data + x|, rb, y + 1);
    hide Row, Area;
    assert forall k :: 0 <= k < |runs| ==> now[k] == was[k];
    CarriedGrows(runs, y0, data, data + x, rb, y);
    forall r: nat | r < y
      ensures CarriedIn(now, rb, r) <==> CarriedIn(was, rb, r)
    {
      CarriedSame(runs, y0, data, data + x, rb, y, r);
    }
  }

  lemma CarriedGrows(runs: seq<Run>, y0: nat, data: seq<byte>, more: seq<byte>, rb: nat, y: nat)
    requires rb > 0 && y0 + |more| / rb == y + 1 && y0 <= y
    ensures CarriedIn(runs + [Run(y0, more)], rb, y)
  {
    var now := runs + [Run(y0, more)];
    assert now[|runs|].y0 <= y < End(now[|runs|], rb);
  }

  lemma CarriedSame(runs: seq<Run>, y0: nat, data: seq<byte>, more: seq<byte>, rb: nat, y: nat, r: nat)
    requires rb > 0 && y0 + |data| / rb == y && y0 + |more| / rb == y + 1 && r < y
    ensures CarriedIn(runs + [Run(y0, more)], rb, r) <==> CarriedIn(runs + [Run(y0, data)], rb, r)
  {
    var was, now := runs + [Run(y0, data)], runs + [Run(y0, more)];
    if k :| 0 <= k < |now| && now[k].y0 <= r < End(now[k], rb) {
      assert was[k].y0 <= r < End(was[k], rb);
    }
    if k :| 0 <= k < |was| && was[k].y0 <= r < End(was[k], rb) {
      assert now[k].y0 <= r < End(now[k], rb);
    }
  }

  lemma CarriesOpen(runs: seq<Run>, x: seq<byte>, cur: seq<byte>, prev: seq<byte>, rb: nat, y: nat)
    requires rb > 0 && |cur| == |prev| && Area(y + 1, rb) <= |cur| && Area(y, rb) <= |cur| && |x| == rb
    requires Carries(runs, false, cur, prev, rb, y) && Row(cur, rb, y) != Row(prev, rb, y)
    ensures Carries(runs + [Run(y, x)], true, cur, prev, rb, y + 1)
  {
    var now := runs + [Run(y, x)];
    Quotient(1, rb);
    hide Row, Area, CarriedIn;
    CarriedGrows(runs, y, [], x, rb, y);
    forall r: nat | r < y
      ensures CarriedIn(now, rb, r) <==> CarriedIn(runs, rb, r)
    {
      CarriedNew(runs, y, x, rb, r);
    }
  }

  lemma CarriedNew(runs: seq<Run>, y: nat, x: seq<byte>, rb: nat, r: nat)
    requires rb > 0 && r < y
    ensures CarriedIn(runs + [Run(y, x)], rb, r) <==> CarriedIn(runs, rb, r)
  {
    var now := runs + [Run(y, x)];
    if k :| 0 <= k < |now| && now[k].y0 <= r < End(now[k], rb) {
      assert runs[k].y0 <= r < End(runs[k], rb);
    }
    if k :| 0 <= k < |runs| && runs[k].y0 <= r < End(runs[k], rb) {
      assert now[k].y0 <= r < End(now[k], rb);
    }
  }

  lemma {:induction false} Progress(pb: seq<byte> -> seq<byte>, cur: seq<byte>, prev: seq<byte>, rb: nat, y: nat)
      returns (closed: seq<Run>, cuts: seq<nat>, done: seq<seq<byte>>, data: seq<byte>)
    requires Packer(pb) && 0 < rb < 0x4000 && |cur| == |prev| && Area(y, rb) <= |cur| && y < 65536
    ensures Sound(Emitted(pb, cur, prev, rb, y), closed, cuts, done, data, cur, prev, rb, y)
    ensures var e := Emitted(pb, cur, prev, rb, y); Carries(AllRuns(closed, e, data), e.open, cur, prev, rb, y)
  {
    hide *;
    closed, cuts, done, data := [], [0], [], [];
    if y == 0 {
      SoundStart(pb, cur, prev, rb);
      CarriesStart(pb, cur, prev, rb);
    } else {
      RowFits(y - 1, y, rb);
      EmittedStep(pb, cur, prev, rb, y - 1);
      closed, cuts, done, data := Progress(pb, cur, prev, rb, y - 1);
      var e := Emitted(pb, cur, prev, rb, y - 1);
      var row, was := Row(cur, rb, y - 1), Row(prev, rb, y - 1);
      if row == was {
        SoundEqual(pb, e, closed, cuts, done, data, cur, prev, rb, y - 1);
        CarriesEqual(AllRuns(closed, e, data), e.open, cur, prev, rb, y - 1);
        closed := AllRuns(closed, e, data);
        ClosedRuns(pb, e, closed, data, y - 1, row, was);
      } else if e.open {
        var x := BytesXor(row, was);
        SoundExtend(pb, e, closed, cuts, done, data, cur, prev, rb, y - 1, x);
        OpenRuns(pb, e, closed, cuts, done, data, cur, prev, rb, y - 1, x);
        CarriesExtend(closed, e.y0, data, x, cur, prev, rb, y - 1);
        cuts, done, data := cuts + [|e.rows + Packed(pb, x)|], done + [x], data + x;
      } else {
        var x := BytesXor(row, was);
        SoundOpen(pb, e, closed, cuts, done, data, cur, prev, rb, y - 1, x);
        NewRuns(pb, e, closed, data, y - 1, row, was, x);
        CarriesOpen(closed, x, cur, prev, rb, y - 1);
        cuts, done, data := [0, |Packed(pb, x)|], [x], x;
      }
    }
  }

  lemma CarriesStart(pb: seq<byte> -> seq<byte>, cur: seq<byte>, prev: seq<byte>, rb: nat)
    requires rb > 0 && |cur| == |prev|
    ensures var e := Emitted(pb, cur, prev, rb, 0);
            Area(0, rb) == 0 && Carries(AllRuns([], e, []), e.open, cur, prev, rb, 0)
  {
  }

  // What the three steps make of the runs.
  lemma ClosedRuns(pb: seq<byte> -> seq<byte>, e: Emit, closed: seq<Run>, data: seq<byte>, y: nat, row: seq<byte>,
                   was: seq<byte>)
    requires |row| == |was| && row == was
    ensures var next := Next(pb, e, y, row, was); !next.open && AllRuns(closed, next, data) == closed
  {
  }

  lemma OpenRuns(pb: seq<byte> -> seq<byte>, e: Emit, closed: seq<Run>, cuts: seq<nat>, done: seq<seq<byte>>,
                 data: seq<byte>, cur: seq<byte>, prev: seq<byte>, rb: nat, y: nat, x: seq<byte>)
    requires 0 < rb && |cur| == |prev| && Area(y + 1, rb) <= |cur| && e.open
    requires Sound(e, closed, cuts, done, data, cur, prev, rb, y) && Row(cur, rb, y) != Row(prev, rb, y)
    ensures var next := Next(pb, e, y, Row(cur, rb, y), Row(prev, rb, y));
            && next.open && AllRuns(closed, next, data + x) == closed + [Run(e.y0, data + x)]
            && AllRuns(closed, e, data) == closed + [Run(e.y0, data)] && Area(e.y0, rb) + |data| == Area(y, rb)
  {
    hide Parse, Covers, Written, Output, Row, Area, Packed, BytesXor;
  }

  lemma NewRuns(pb: seq<byte> -> seq<byte>, e: Emit, closed: seq<Run>, data: seq<byte>, y: nat, row: seq<byte>,
                was: seq<byte>, x: seq<byte>)
    requires |row| == |was| && row != was && !e.open
    ensures var next := Next(pb, e, y, row, was);
            next.open && AllRuns(closed, next, x) == closed + [Run(y, x)] && AllRuns(closed, e, data) == closed
  {
    hide Packed, BytesXor;
  }

  lemma SoundStart(pb: seq<byte> -> seq<byte>, cur: seq<byte>, prev: seq<byte>, rb: nat)
    requires rb > 0 && |cur| == |prev|
    ensures Area(0, rb) == 0 && Sound(Emitted(pb, cur, prev, rb, 0), [], [0], [], [], cur, prev, rb, 0)
  {
  }

  lemma SoundEqual(pb: seq<byte> -> seq<byte>, e: Emit, closed: seq<Run>, cuts: seq<nat>, done: seq<seq<byte>>,
                   data: seq<byte>,
                   cur: seq<byte>, prev: seq<byte>, rb: nat, y: nat)
    requires rb > 0 && |cur| == |prev| && Area(y + 1, rb) <= |cur| && y < 65536
    requires Sound(e, closed, cuts, done, data, cur, prev, rb, y) && Row(cur, rb, y) == Row(prev, rb, y)
    ensures Sound(Next(pb, e, y, Row(cur, rb, y), Row(prev, rb, y)), AllRuns(closed, e, data), cuts, done, data, cur,
                  prev, rb, y + 1)
  {
    hide Parse, Covers, Written, Output, Row, Area;
    SoundOutput(e, closed, cuts, done, data, cur, prev, rb, y);
    CoversEqual(AllRuns(closed, e, data), cur, prev, rb, y);
  }

  lemma SoundExtend(pb: seq<byte> -> seq<byte>, e: Emit, closed: seq<Run>, cuts: seq<nat>, done: seq<seq<byte>>,
                    data: seq<byte>,
                    cur: seq<byte>, prev: seq<byte>, rb: nat, y: nat, x: seq<byte>)
    requires Packer(pb) && 0 < rb < 0x4000 && |cur| == |prev| && Area(y + 1, rb) <= |cur| && e.open
    requires Sound(e, closed, cuts, done, data, cur, prev, rb, y) && Row(cur, rb, y) != Row(prev, rb, y)
    requires x == BytesXor(Row(cur, rb, y), Row(prev, rb, y))
    ensures Sound(Next(pb, e, y, Row(cur, rb, y), Row(prev, rb, y)), closed, cuts + [|e.rows + Packed(pb, x)|],
                  done + [x],
                  data + x, cur, prev, rb, y + 1)
  {
    hide Parse, Covers, Written, Output, Row, Area, Packed, BytesXor, Packer;
    WrittenMore(pb, e.rows, cuts, done, rb, data, x);
    CoversGrow(closed, e.y0, data, cur, prev, rb, y);
    RowFits(y, y + 1, rb);
  }

  lemma SoundOpen(pb: seq<byte> -> seq<byte>, e: Emit, closed: seq<Run>, cuts: seq<nat>, done: seq<seq<byte>>,
                  data: seq<byte>,
                  cur: seq<byte>, prev: seq<byte>, rb: nat, y: nat, x: seq<byte>)
    requires Packer(pb) && 0 < rb < 0x4000 && |cur| == |prev| && Area(y + 1, rb) <= |cur| && !e.open
    requires Sound(e, closed, cuts, done, data, cur, prev, rb, y) && Row(cur, rb, y) != Row(prev, rb, y)
    requires x == BytesXor(Row(cur, rb, y), Row(prev, rb, y))
    ensures Sound(Next(pb, e, y, Row(cur, rb, y), Row(prev, rb, y)), closed, [0, |Packed(pb, x)|], [x], x, cur, prev,
                  rb, y + 1)
  {
    hide *;
    FirstWritten(pb, x, rb);
    SoundCovers(e, closed, cuts, done, data, cur, prev, rb, y);
    SoundParses(e, closed, cuts, done, data, cur, prev, rb, y);
    NewRuns(pb, e, closed, data, y, Row(cur, rb, y), Row(prev, rb, y), x);
    CoversEmpty(closed, cur, prev, rb, y);
    CoversGrow(closed, y, [], cur, prev, rb, y);
    assert [] + x == x;
    RowFits(y, y + 1, rb);
    NextOpens(pb, e, y, Row(cur, rb, y), Row(prev, rb, y));
    SoundOpened(e.closed, Packed(pb, x), closed, cur, prev, rb, y, x);
  }

  lemma SoundParses(e: Emit, closed: seq<Run>, cuts: seq<nat>, done: seq<seq<byte>>, data: seq<byte>,
                    cur: seq<byte>, prev: seq<byte>, rb: nat, y: nat)
    requires rb > 0 && |cur| == |prev| && Sound(e, closed, cuts, done, data, cur, prev, rb, y)
    ensures Parse(e.closed, 0, rb) == Runs(closed)
  {
  }

  lemma NextOpens(pb: seq<byte> -> seq<byte>, e: Emit, y: nat, row: seq<byte>, was: seq<byte>)
    requires |row| == |was| && row != was && !e.open
    ensures Next(pb, e, y, row, was) == Emit(e.closed, true, y, 1, Packed(pb, BytesXor(row, was)))
  {
  }

  lemma FirstWritten(pb: seq<byte> -> seq<byte>, x: seq<byte>, rb: nat)
    requires Packer(pb) && 0 < rb < 0x4000 && |x| == rb
    ensures Written(Packed(pb, x), [0, |Packed(pb, x)|], [x], rb, x)
  {
    hide Written, Packed, Packer;
    WrittenNone(rb);
    WrittenMore(pb, [], [0], [], rb, [], x);
    assert [] + Packed(pb, x) == Packed(pb, x) && [0] + [|Packed(pb, x)|] == [0, |Packed(pb, x)|];
    assert [] + [x] == [x] && [] + x == x;
  }

  lemma SoundOpened(front: seq<byte>, p: seq<byte>, closed: seq<Run>, cur: seq<byte>, prev: seq<byte>, rb: nat, y: nat,
                    x: seq<byte>)
    requires 0 < rb && |cur| == |prev| && Area(y, rb) + |x| == Area(y + 1, rb)
    requires Parse(front, 0, rb) == Runs(closed) && Written(p, [0, |p|], [x], rb, x)
    requires Covers(closed + [Run(y, x)], cur, prev, rb, y + 1)
    ensures Sound(Emit(front, true, y, 1, p), closed, [0, |p|], [x], x, cur, prev, rb, y + 1)
  {
    hide Parse, Covers, Written, Area;
  }

  // What the daemon sends are the changed rows and no others, in runs that do not meet.
  lemma DeltaCarriesChanges(pb: seq<byte> -> seq<byte>, cur: seq<byte>, prev: seq<byte>, rb: nat, height: nat, y: nat)
    requires Packer(pb) && 0 < rb < 0x4000 && height < 65536 && |cur| == |prev| == Area(height, rb) && y < height
    ensures var parsed := Parse(DeltaPayload(pb, cur, prev, rb, height), 0, rb);
            && parsed.Runs? && (CarriedIn(parsed.runs, rb, y) <==> Differs(cur, prev, rb, y))
            && (forall k :: 0 <= k < |parsed.runs| ==> parsed.runs[k].y0 < End(parsed.runs[k], rb) <= height)
            && forall k :: 0 < k < |parsed.runs| ==> End(parsed.runs[k - 1], rb) < parsed.runs[k].y0
  {
    hide *;
    var closed, cuts, done, data := Progress(pb, cur, prev, rb, height);
    var e := Emitted(pb, cur, prev, rb, height);
    SoundOutput(e, closed, cuts, done, data, cur, prev, rb, height);
    PayloadOf(pb, cur, prev, rb, height);
    CarriesAll(AllRuns(closed, e, data), e.open, cur, prev, rb, height, y);
  }

  lemma CarriesAll(runs: seq<Run>, open: bool, cur: seq<byte>, prev: seq<byte>, rb: nat, height: nat, y: nat)
    requires rb > 0 && |cur| == |prev| == Area(height, rb) && y < height && Carries(runs, open, cur, prev, rb, height)
    ensures CarriedIn(runs, rb, y) <==> Differs(cur, prev, rb, y)
    ensures forall k :: 0 <= k < |runs| ==> runs[k].y0 < End(runs[k], rb) <= height
    ensures forall k :: 0 < k < |runs| ==> End(runs[k - 1], rb) < runs[k].y0
  {
  }

  // The whole exchange: what the daemon emits, the host parses, and applying it gives the current frame.
  lemma DeltaRoundTrip(pb: seq<byte> -> seq<byte>, cur: seq<byte>, prev: seq<byte>, rb: nat, height: nat)
    requires Packer(pb) && 0 < rb < 0x4000 && height < 65536 && |cur| == |prev| == Area(height, rb)
    ensures var parsed := Parse(DeltaPayload(pb, cur, prev, rb, height), 0, rb);
            parsed.Runs? && Apply(prev, rb, height, parsed.runs) == Frame(cur)
  {
    hide *;
    var closed, cuts, done, data := Progress(pb, cur, prev, rb, height);
    var e := Emitted(pb, cur, prev, rb, height);
    SoundOutput(e, closed, cuts, done, data, cur, prev, rb, height);
    SoundCovers(e, closed, cuts, done, data, cur, prev, rb, height);
    PayloadOf(pb, cur, prev, rb, height);
    CoveredFrame(AllRuns(closed, e, data), cur, prev, rb, height);
  }

  lemma SoundCovers(e: Emit, closed: seq<Run>, cuts: seq<nat>, done: seq<seq<byte>>, data: seq<byte>,
                    cur: seq<byte>, prev: seq<byte>, rb: nat, y: nat)
    requires rb > 0 && |cur| == |prev| && Sound(e, closed, cuts, done, data, cur, prev, rb, y)
    ensures Covers(AllRuns(closed, e, data), cur, prev, rb, y)
  {
  }

  // Runs that cover all rows turn the previous frame into the current one.
  lemma CoveredFrame(runs: seq<Run>, cur: seq<byte>, prev: seq<byte>, rb: nat, height: nat)
    requires rb > 0 && |cur| == |prev| == Area(height, rb) && Covers(runs, cur, prev, rb, height)
    ensures Apply(prev, rb, height, runs) == Frame(cur)
  {
    hide Area, Apply, Inside, ByteXor;
    ApplyAll(prev, rb, height, runs);
    forall i | 0 <= i < |cur| ensures Combined(prev, rb, runs)[i] == cur[i] {
      ByteXorLaws(prev[i], cur[i], 0);
      ByteXorLaws(cur[i], prev[i], 0);
    }
    assert Combined(prev, rb, runs) == cur;
  }
}
