/** Row deltas: runs of rows, each combined with the same row of the previous frame. */
module Delta {
  import opened Bytes
  import opened Bits
  import opened Number
  import opened RowCodec

  datatype Run = Run(y0: nat, data: seq<byte>)

  /** parse_delta */

  datatype Error = HeaderTruncated | BadRows(e: RowError) | RawOverruns
  datatype One = Got(run: Run, next: nat) | Bad(e: Error)
  datatype Parsed = Runs(runs: seq<Run>) | Failed(e: Error)

  function OneRun(payload: seq<byte>, off: nat, rb: nat, packed: bool := true): One {
    if off + 4 > |payload| then Bad(HeaderTruncated)
    else if !packed then
      var end := off + 4 + Area(Word(payload, off + 2), rb);
      if end > |payload| then Bad(RawOverruns) else Got(Run(Word(payload, off), Slice(payload, off + 4, end)), end)
    else
      var u := Unpacked(payload, off + 4, Word(payload, off + 2), rb);
      if u.Err? then Bad(BadRows(u.error)) else Got(Run(Word(payload, off), u.data), u.end)
  }

  function Cons(front: seq<Run>, r: Parsed): Parsed {
    if r.Runs? then Runs(front + r.runs) else r
  }

  function Parse(payload: seq<byte>, off: nat, rb: nat, packed: bool := true): Parsed
    decreases |payload| - off
  {
    if off >= |payload| then Runs([])
    else
      match OneRun(payload, off, rb, packed)
      case Bad(e) => Failed(e)
      case Got(run, next) =>
        OneRunEnd(payload, off, rb, packed);
        Cons([run], Parse(payload, next, rb, packed))
  }

  lemma OneRunEnd(payload: seq<byte>, off: nat, rb: nat, packed: bool := true)
    requires OneRun(payload, off, rb, packed).Got?
    ensures off + 4 <= OneRun(payload, off, rb, packed).next
  {
    if packed {
      UnpackedEnd(payload, off + 4, Word(payload, off + 2), rb);
    }
  }

  method ParseDelta(payload: seq<byte>, rb: nat, packed: bool := true) returns (r: Parsed)
    ensures r == Parse(payload, 0, rb, packed)
  {
    hide *;
    var runs: seq<Run>, off: nat := [], 0;
    ConsNone(Parse(payload, 0, rb, packed));
    while off < |payload|
      invariant Cons(runs, Parse(payload, off, rb, packed)) == Parse(payload, 0, rb, packed)
      decreases |payload| - off
    {
      ParseStep(payload, off, rb, packed, runs);
      if off + 4 > |payload| {
        return Failed(HeaderTruncated);
      }
      var y0 := Word(payload, off);
      var cnt := Word(payload, off + 2);
      if packed {
        var u := UnpackRows(payload, off + 4, cnt, rb);
        if u.Err? {
          return Failed(BadRows(u.error));
        }
        UnpackedEnd(payload, off + 4, cnt, rb);
        runs, off := runs + [Run(y0, u.data)], u.end;
      } else {
        var end := off + 4 + Area(cnt, rb);
        if end > |payload| {
          return Failed(RawOverruns);
        }
        runs, off := runs + [Run(y0, Slice(payload, off + 4, end))], end;
      }
    }
    ParseDone(payload, off, rb, packed, runs);
    return Runs(runs);
  }

  lemma ConsNone(r: Parsed)
    ensures Cons([], r) == r
  {
    if r.Runs? { assert [] + r.runs == r.runs; }
  }

  lemma ConsCons(a: seq<Run>, b: seq<Run>, r: Parsed)
    ensures Cons(a, Cons(b, r)) == Cons(a + b, r)
  {
    if r.Runs? { Assoc(a, b, r.runs); }
  }

  lemma ParseStep(payload: seq<byte>, off: nat, rb: nat, packed: bool, runs: seq<Run>)
    requires off < |payload|
    ensures Cons(runs, Parse(payload, off, rb, packed)) ==
            if off + 4 > |payload| then Failed(HeaderTruncated)
            else if !packed then
              var end := off + 4 + Area(Word(payload, off + 2), rb);
              if end > |payload| then Failed(RawOverruns)
              else Cons(runs + [Run(Word(payload, off), Slice(payload, off + 4, end))], Parse(payload, end, rb, packed))
            else
              var u := Unpacked(payload, off + 4, Word(payload, off + 2), rb);
              if u.Err? then Failed(BadRows(u.error))
              else Cons(runs + [Run(Word(payload, off), u.data)], Parse(payload, u.end, rb, packed))
  {
    hide Unpacked, Cons, Area;
    ParseUnfold(payload, off, rb, packed);
    ConsFailed(runs, HeaderTruncated);
    match OneRun(payload, off, rb, packed)
    case Bad(e) => ConsFailed(runs, e);
    case Got(run, next) => ConsCons(runs, [run], Parse(payload, next, rb, packed));
  }

  lemma ConsFailed(runs: seq<Run>, e: Error)
    ensures Cons(runs, Failed(e)) == Failed(e)
  {
  }

  lemma ParseUnfold(payload: seq<byte>, off: nat, rb: nat, packed: bool)
    requires off < |payload|
    ensures Parse(payload, off, rb, packed) ==
            match OneRun(payload, off, rb, packed)
            case Bad(e) => Failed(e)
            case Got(run, next) => Cons([run], Parse(payload, next, rb, packed))
  {
  }

  lemma ParseDone(payload: seq<byte>, off: nat, rb: nat, packed: bool, runs: seq<Run>)
    requires off >= |payload|
    ensures Cons(runs, Parse(payload, off, rb, packed)) == Runs(runs)
  {
    assert runs + [] == runs;
  }

  /** apply_delta */

  // What a run delivers for byte i of the frame; zero where it delivers nothing.
  function Delivered(run: Run, rb: nat, i: nat): byte {
    var a := Area(run.y0, rb);
    if a <= i < a + |run.data| then run.data[i - a] else 0
  }

  // Everything delivered for byte i, combined.
  function Total(runs: seq<Run>, rb: nat, i: nat): byte {
    if runs == [] then 0 else ByteXor(Delivered(runs[0], rb, i), Total(runs[1..], rb, i))
  }

  predicate Inside(run: Run, rb: nat, height: nat)
    requires rb > 0
  {
    run.y0 + |run.data| / rb <= height
  }

  // ShortPrevious and OutsideRows are ValueError, NoWidth is ZeroDivisionError, TooWide is OverflowError.
  datatype Applied = Frame(pixels: seq<byte>) | ShortPrevious | OutsideRows | NoWidth | TooWide

  // The previous frame, every byte combined with what the runs deliver for it.
  function Combined(prev: seq<byte>, rb: nat, runs: seq<Run>): (cur: seq<byte>)
    ensures |cur| == |prev|
    ensures forall i :: 0 <= i < |prev| ==> cur[i] == ByteXor(prev[i], Total(runs, rb, i))
  {
    seq(|prev|, i requires 0 <= i < |prev| => ByteXor(prev[i], Total(runs, rb, i)))
  }

  function Apply(prev: seq<byte>, rb: nat, height: nat, runs: seq<Run>): Applied
    requires rb > 0
  {
    if |prev| < Area(height, rb) then ShortPrevious
    else if exists run :: run in runs && !Inside(run, rb, height) then OutsideRows
    else Frame(Combined(prev, rb, runs))
  }

  lemma {:induction false} TotalMore(runs: seq<Run>, run: Run, rb: nat, i: nat)
    ensures Total(runs + [run], rb, i) == ByteXor(Total(runs, rb, i), Delivered(run, rb, i))
    decreases |runs|
  {
    if runs == [] {
      assert (runs + [run])[1..] == [];
      ByteXorLaws(Delivered(run, rb, i), 0, 0);
    } else {
      assert (runs + [run])[1..] == runs[1..] + [run];
      TotalMore(runs[1..], run, rb, i);
      ByteXorLaws(Delivered(runs[0], rb, i), Total(runs[1..], rb, i), Delivered(run, rb, i));
    }
  }

  // A run of complete rows, as parse_delta makes them.
  predicate WholeRows(run: Run, rb: nat)
    requires rb > 0
  {
    |run.data| == Area(|run.data| / rb, rb)
  }

  // A run without packing: its first row, the number of its rows, and the rows.
  function RawRun(run: Run, rb: nat): (r: seq<byte>)
    requires rb > 0
    ensures |r| == 4 + |run.data|
  {
    var n := |run.data| / rb;
    [(run.y0 / 256) % 256, run.y0 % 256, (n / 256) % 256, n % 256] + run.data
  }

  function RawRuns(runs: seq<Run>, rb: nat): seq<byte>
    requires rb > 0
  {
    if runs == [] then [] else RawRun(runs[0], rb) + RawRuns(runs[1..], rb)
  }

  // Whole rows whose numbers fit the header.
  predicate Fits(run: Run, rb: nat)
    requires rb > 0
  {
    WholeRows(run, rb) && run.y0 < 65536 && |run.data| / rb < 65536
  }

  lemma RawRunRead(front: seq<byte>, run: Run, back: seq<byte>, rb: nat)
    requires rb > 0 && Fits(run, rb)
    ensures var p := front + RawRun(run, rb) + back;
            OneRun(p, |front|, rb, false) == Got(run, |front + RawRun(run, rb)|)
  {
    hide Area, Word, Slice, RawRun, Fits;
    var r := RawRun(run, rb);
    var p := front + r + back;
    RawRunParts(run, rb);
    HeaderWords(front, r, back);
    RawRunData(front, run, back, rb);
  }

  lemma RawRunParts(run: Run, rb: nat)
    requires rb > 0 && Fits(run, rb)
    ensures Word(RawRun(run, rb), 0) == run.y0 && Word(RawRun(run, rb), 2) == |run.data| / rb
    ensures |run.data| == Area(|run.data| / rb, rb)
  {
    hide Area;
  }

  lemma HeaderWords(front: seq<byte>, r: seq<byte>, back: seq<byte>)
    requires |r| >= 4
    ensures var p := front + r + back; Word(p, |front|) == Word(r, 0) && Word(p, |front| + 2) == Word(r, 2)
  {
  }

  lemma RawRunData(front: seq<byte>, run: Run, back: seq<byte>, rb: nat)
    requires rb > 0
    ensures var p, end := front + RawRun(run, rb) + back, |front| + 4 + |run.data|;
            end <= |p| && Slice(p, |front| + 4, end) == run.data
  {
  }

  // Runs written without packing parse to themselves.
  lemma {:induction false} RawRoundTrip(front: seq<byte>, runs: seq<Run>, rb: nat)
    requires rb > 0 && forall run :: run in runs ==> Fits(run, rb)
    ensures Parse(front + RawRuns(runs, rb), |front|, rb, false) == Runs(runs)
    decreases |runs|
  {
    hide OneRun, RawRun, Fits;
    var p := front + RawRuns(runs, rb);
    if runs != [] {
      var r, back := RawRun(runs[0], rb), RawRuns(runs[1..], rb);
      assert runs[0] in runs;
      RawRunRead(front, runs[0], back, rb);
      Assoc(front, r, back);
      ParseUnfold(p, |front|, rb, false);
      RawRoundTrip(front + r, runs[1..], rb);
    }
  }

  // The bytes of a run in front of its last whole rows; they must be zero for its integer to fit.
  function Odd(run: Run, rb: nat): (n: nat)
    requires rb > 0
    ensures n <= |run.data|
  {
    |run.data| % rb
  }

  predicate Narrow(run: Run, rb: nat)
    requires rb > 0
  {
    forall i :: 0 <= i < Odd(run, rb) ==> run.data[i] == 0
  }

  function Trimmed(run: Run, rb: nat): Run
    requires rb > 0
  {
    Run(run.y0, run.data[Odd(run, rb)..])
  }

  function AllTrimmed(runs: seq<Run>, rb: nat): (r: seq<Run>)
    requires rb > 0
    ensures |r| == |runs| && forall k :: 0 <= k < |runs| ==> r[k] == Trimmed(runs[k], rb)
  {
    seq(|runs|, k requires 0 <= k < |runs| => Trimmed(runs[k], rb))
  }

  // What is wrong with a run.
  function Fault(run: Run, rb: nat, height: nat): Option<Applied> {
    if rb == 0 then Some(NoWidth)
    else if !Inside(run, rb, height) then Some(OutsideRows)
    else if !Narrow(run, rb) then Some(TooWide)
    else None
  }

  function FirstFault(runs: seq<Run>, rb: nat, height: nat): Option<Applied> {
    if runs == [] then None
    else if Fault(runs[0], rb, height).Some? then Fault(runs[0], rb, height)
    else FirstFault(runs[1..], rb, height)
  }

  // What apply_delta makes of any runs: the first fault, or every run combined into its rows.
  function Outcome(prev: seq<byte>, rb: nat, height: nat, runs: seq<Run>): Applied {
    if |prev| < Area(height, rb) then ShortPrevious
    else
      var fault := FirstFault(runs, rb, height);
      if fault.Some? then fault.value
      else if rb == 0 then Frame(prev)
      else Frame(Combined(prev, rb, AllTrimmed(runs, rb)))
  }

  // On runs of whole rows, which are those that parse_delta makes, only a run outside the screen is a fault.
  lemma OutcomeOfWhole(prev: seq<byte>, rb: nat, height: nat, runs: seq<Run>)
    requires rb > 0 && forall run :: run in runs ==> WholeRows(run, rb)
    ensures Outcome(prev, rb, height, runs) == Apply(prev, rb, height, runs)
  {
    forall run | run in runs
      ensures Odd(run, rb) == 0
    {
      WholeIsEven(run, rb);
    }
    hide Inside, Odd, Area;
    FaultOfWhole(runs, rb, height);
    assert AllTrimmed(runs, rb) == runs;
  }

  lemma WholeIsEven(run: Run, rb: nat)
    requires rb > 0
    ensures WholeRows(run, rb) <==> Odd(run, rb) == 0
    ensures |run.data| == Area(|run.data| / rb, rb) + Odd(run, rb)
  {
    AreaProduct(|run.data| / rb, rb);
  }

  lemma {:induction false} FaultOfWhole(runs: seq<Run>, rb: nat, height: nat)
    requires rb > 0 && forall run :: run in runs ==> Odd(run, rb) == 0
    ensures FirstFault(runs, rb, height)
         == if exists run :: run in runs && !Inside(run, rb, height) then Some(OutsideRows) else None
  {
    hide Inside, Odd;
    if runs != [] {
      assert runs[0] in runs;
      FaultOfWhole(runs[1..], rb, height);
      assert forall run :: run in runs <==> run == runs[0] || run in runs[1..];
    }
  }

  /** One run's integer */

  lemma {:induction false} FromBytesBound(s: seq<byte>)
    ensures FromBytes(s) < Pow256(|s|)
  {
    if s != [] {
      FromBytesLast(s);
      FromBytesBound(s[..|s| - 1]);
    }
  }

  lemma {:induction false} FromBytesZero(s: seq<byte>)
    ensures FromBytes(s) == 0 <==> forall i :: 0 <= i < |s| ==> s[i] == 0
  {
    if s != [] {
      FromBytesLast(s);
      FromBytesZero(s[..|s| - 1]);
    }
  }

  // An integer fits the low bytes exactly when the bytes in front are zero, and then they say nothing.
  lemma {:induction false} FitsLow(top: seq<byte>, low: seq<byte>)
    ensures FromBytes(top + low) < Pow256(|low|) <==> FromBytes(top) == 0
    ensures FromBytes(top) == 0 ==> FromBytes(top + low) == FromBytes(low)
  {
    if low == [] {
      assert top + low == top;
    } else {
      hide FromBytes;
      FromBytesLast(top + low);
      FromBytesLast(low);
      assert (top + low)[..|top + low| - 1] == top + low[..|low| - 1];
      FitsLow(top, low[..|low| - 1]);
    }
  }

  function Zeroes(n: nat): (s: seq<byte>)
    ensures |s| == n
  {
    seq(n, i => 0)
  }

  lemma BytesXorParts(n: nat, was: seq<byte>, data: seq<byte>)
    requires |data| == n + |was|
    ensures BytesXor(Zeroes(n) + was, data) == data[..n] + BytesXor(was, data[n..])
  {
    hide ByteXor;
    var x, y := BytesXor(Zeroes(n) + was, data), data[..n] + BytesXor(was, data[n..]);
    forall i | 0 <= i < |data|
      ensures x[i] == y[i]
    {
      if i < n {
        ByteXorLaws(0, data[i], 0);
        ByteXorLaws(data[i], 0, 0);
      }
    }
  }

  lemma MixedRun(was: seq<byte>, data: seq<byte>)
    requires |was| <= |data|
    ensures var n, mixed := |data| - |was|, Xor(FromBytes(was), FromBytes(data));
            && (mixed < Pow256(|was|) <==> forall i :: 0 <= i < n ==> data[i] == 0)
            && (mixed < Pow256(|was|) ==> ToBytes(mixed, |was|) == BytesXor(was, data[n..]))
  {
    hide FromBytes, ToBytes, Xor, BytesXor;
    var n := |data| - |was|;
    var low := BytesXor(was, data[n..]);
    FromBytesZero(Zeroes(n));
    FitsLow(Zeroes(n), was);
    FromBytesXor(Zeroes(n) + was, data);
    BytesXorParts(n, was, data);
    FitsLow(data[..n], low);
    FromBytesZero(data[..n]);
    assert forall i :: 0 <= i < n ==> data[..n][i] == data[i];
    ToFromBytes(low);
  }

  // apply_delta: each run's bytes as one big-endian integer, combined with the integer in its place.
  method ApplyDelta(prev: seq<byte>, rb: nat, height: nat, runs: seq<Run>) returns (r: Applied)
    ensures r == Outcome(prev, rb, height, runs)
  {
    hide *;
    OutcomeIs(prev, rb, height, runs);
    if |prev| < Area(height, rb) {
      return ShortPrevious;
    }
    var cur := prev;
    if rb > 0 {
      CombinedNone(prev, rb);
      NoneTrimmed(runs, rb);
    }
    for k := 0 to |runs|
      invariant FirstFault(runs, rb, height) == FirstFault(runs[k..], rb, height)
      invariant if rb > 0 then cur == Combined(prev, rb, AllTrimmed(runs[..k], rb)) else cur == prev
    {
      FaultNext(runs, rb, height, k);
      if rb == 0 {
        return NoWidth;
      }
      var Run(y0, data) := runs[k];
      var rows := |data| / rb;
      if y0 + rows > height {
        return OutsideRows;
      }
      WholeIsEven(runs[k], rb);
      RunFits(y0, rows, height, rb);
      var a := Area(y0, rb);
      var b := a + Area(rows, rb);
      var before := FromBytes(Slice(cur, a, b));
      var mixed := Xor(before, FromBytes(data));
      MixedRun(Slice(cur, a, b), data);
      RunNarrow(runs[k], rb);
      if mixed >= Pow256(b - a) {
        return TooWide;
      }
      TrimmedIs(runs[k], rb);
      CombinedMore(prev, rb, AllTrimmed(runs[..k], rb), Trimmed(runs[k], rb));
      MoreTrimmed(runs, rb, k);
      cur := Slice(cur, 0, a) + ToBytes(mixed, b - a) + Slice(cur, b, |cur|);
    }
    AllFaultless(runs, rb, height);
    assert runs[..|runs|] == runs;
    return Frame(cur);
  }

  lemma OutcomeIs(prev: seq<byte>, rb: nat, height: nat, runs: seq<Run>)
    ensures Outcome(prev, rb, height, runs) ==
            if |prev| < Area(height, rb) then ShortPrevious
            else if FirstFault(runs, rb, height).Some? then FirstFault(runs, rb, height).value
            else if rb == 0 then Frame(prev)
            else Frame(Combined(prev, rb, AllTrimmed(runs, rb)))
    ensures FirstFault(runs, rb, height) == FirstFault(runs[0..], rb, height)
  {
    assert runs[0..] == runs;
  }

  lemma NoneTrimmed(runs: seq<Run>, rb: nat)
    requires rb > 0
    ensures AllTrimmed(runs[..0], rb) == []
  {
  }

  lemma MoreTrimmed(runs: seq<Run>, rb: nat, k: nat)
    requires rb > 0 && k < |runs|
    ensures AllTrimmed(runs[..k + 1], rb) == AllTrimmed(runs[..k], rb) + [Trimmed(runs[k], rb)]
  {
  }

  lemma FaultNext(runs: seq<Run>, rb: nat, height: nat, k: nat)
    requires k < |runs|
    ensures var run := runs[k];
            && FirstFault(runs[k..], rb, height) ==
               (if Fault(run, rb, height).Some? then Fault(run, rb, height) else FirstFault(runs[k + 1..], rb, height))
            && Fault(run, rb, height) ==
               (if rb == 0 then Some(NoWidth)
                else if run.y0 + |run.data| / rb > height then Some(OutsideRows)
                else if !Narrow(run, rb) then Some(TooWide) else None)
  {
    assert runs[k..][1..] == runs[k + 1..];
  }

  lemma AllFaultless(runs: seq<Run>, rb: nat, height: nat)
    ensures FirstFault(runs[|runs|..], rb, height).None?
  {
  }

  lemma RunNarrow(run: Run, rb: nat)
    requires rb > 0
    ensures Narrow(run, rb) <==> forall i :: 0 <= i < Odd(run, rb) ==> run.data[i] == 0
  {
  }

  lemma TrimmedIs(run: Run, rb: nat)
    requires rb > 0
    ensures Trimmed(run, rb) == Run(run.y0, run.data[Odd(run, rb)..])
  {
  }

  lemma ApplyAll(prev: seq<byte>, rb: nat, height: nat, runs: seq<Run>)
    requires rb > 0 && |prev| >= Area(height, rb) && forall k :: 0 <= k < |runs| ==> Inside(runs[k], rb, height)
    ensures Apply(prev, rb, height, runs) == Frame(Combined(prev, rb, runs))
  {
  }

  lemma {:induction false} RunFits(y0: nat, rows: nat, height: nat, rb: nat)
    requires y0 + rows <= height
    ensures Area(y0, rb) + Area(rows, rb) == Area(y0 + rows, rb) <= Area(height, rb)
    decreases height
  {
    if y0 + rows < height {
      RunFits(y0, rows, height - 1, rb);
    } else if rows > 0 {
      RunFits(y0, rows - 1, y0 + rows - 1, rb);
    }
  }

  lemma CombinedNone(prev: seq<byte>, rb: nat)
    ensures Combined(prev, rb, []) == prev
  {
    forall i | 0 <= i < |prev| ensures Combined(prev, rb, [])[i] == prev[i] {
      ByteXorLaws(prev[i], 0, 0);
    }
  }

  // Combining one run into the bytes it covers.
  lemma CombinedMore(prev: seq<byte>, rb: nat, runs: seq<Run>, run: Run)
    requires Area(run.y0, rb) + |run.data| <= |prev|
    ensures var cur, a := Combined(prev, rb, runs), Area(run.y0, rb); var b := a + |run.data|;
            Slice(cur, 0, a) + BytesXor(Slice(cur, a, b), run.data) + Slice(cur, b, |cur|) ==
            Combined(prev, rb, runs + [run])
  {
    hide *;
    var cur, a := Combined(prev, rb, runs), Area(run.y0, rb);
    var b := a + |run.data|;
    var mid := BytesXor(Slice(cur, a, b), run.data);
    var next := Slice(cur, 0, a) + mid + Slice(cur, b, |cur|);
    forall i | 0 <= i < |prev| ensures next[i] == Combined(prev, rb, runs + [run])[i] {
      SplicedAt(cur, a, mid, i);
      CombinedAt(prev, rb, runs, run, i);
    }
  }

  lemma CombinedAt(prev: seq<byte>, rb: nat, runs: seq<Run>, run: Run, i: nat)
    requires Area(run.y0, rb) + |run.data| <= |prev| && i < |prev|
    ensures var cur, a := Combined(prev, rb, runs), Area(run.y0, rb); var b := a + |run.data|;
            Combined(prev, rb, runs + [run])[i] ==
            if a <= i < b then BytesXor(Slice(cur, a, b), run.data)[i - a] else cur[i]
  {
    hide Area, Total, ByteXor, Slice, Combined;
    var cur, a := Combined(prev, rb, runs), Area(run.y0, rb);
    SliceAt(cur, a, a + |run.data|, i);
    TotalMore(runs, run, rb, i);
    ByteXorLaws(prev[i], Total(runs, rb, i), Delivered(run, rb, i));
    ByteXorLaws(cur[i], 0, 0);
  }

  lemma SliceAt(s: seq<byte>, a: nat, b: nat, i: nat)
    requires a <= b <= |s|
    ensures a <= i < b ==> Slice(s, a, b)[i - a] == s[i]
  {
  }

  lemma SplicedAt(s: seq<byte>, a: nat, mid: seq<byte>, i: nat)
    requires a + |mid| <= |s| && i < |s|
    ensures (Slice(s, 0, a) + mid + Slice(s, a + |mid|, |s|))[i] == if a <= i < a + |mid| then mid[i - a] else s[i]
  {
  }

  /** The algebra of deltas */

  lemma {:induction false} TotalNone(runs: seq<Run>, rb: nat, i: nat)
    requires forall k :: 0 <= k < |runs| ==> !(Area(runs[k].y0, rb) <= i < Area(runs[k].y0, rb) + |runs[k].data|)
    ensures Total(runs, rb, i) == 0
    decreases |runs|
  {
    if runs != [] {
      TotalNone(runs[1..], rb, i);
      ByteXorLaws(0, 0, 0);
    }
  }

  // Only the rows of some run change.
  lemma Untouched(prev: seq<byte>, rb: nat, runs: seq<Run>, i: nat)
    requires i < |prev|
    requires forall k :: 0 <= k < |runs| ==> !(Area(runs[k].y0, rb) <= i < Area(runs[k].y0, rb) + |runs[k].data|)
    ensures Combined(prev, rb, runs)[i] == prev[i]
  {
    hide ByteXor;
    TotalNone(runs, rb, i);
    ByteXorLaws(prev[i], 0, 0);
  }

  lemma {:induction false} TotalConcat(a: seq<Run>, b: seq<Run>, rb: nat, i: nat)
    ensures Total(a + b, rb, i) == ByteXor(Total(a, rb, i), Total(b, rb, i))
    decreases |a|
  {
    if a == [] {
      assert a + b == b;
      ByteXorLaws(Total(b, rb, i), 0, 0);
    } else {
      assert (a + b)[1..] == a[1..] + b;
      TotalConcat(a[1..], b, rb, i);
      ByteXorLaws(Delivered(a[0], rb, i), Total(a[1..], rb, i), Total(b, rb, i));
    }
  }

  // The order of the runs does not matter, even when they overlap.
  lemma {:induction false} TotalPermuted(a: seq<Run>, b: seq<Run>, rb: nat, i: nat)
    requires multiset(a) == multiset(b)
    ensures Total(a, rb, i) == Total(b, rb, i)
    decreases |a|
  {
    if a == [] {
      assert |multiset(b)| == |b|;
    } else {
      hide Total;
      var k := Occurs(a, b);
      TotalPermuted(Without(a, 0), Without(b, k), rb, i);
      TotalWithout(a, 0, rb, i);
      TotalWithout(b, k, rb, i);
    }
  }

  lemma TotalWithout(s: seq<Run>, k: nat, rb: nat, i: nat)
    requires k < |s|
    ensures Total(s, rb, i) == ByteXor(Delivered(s[k], rb, i), Total(Without(s, k), rb, i))
  {
    hide Total;
    var x, y, d := s[..k], s[k + 1..], s[k];
    TotalConcat(x, y, rb, i);
    TotalConcat(x, [d] + y, rb, i);
    assert s == x + ([d] + y) && ([d] + y)[1..] == y;
    TotalFirst([d] + y, rb, i);
    Rotate(Total(x, rb, i), Delivered(d, rb, i), Total(y, rb, i));
  }

  lemma TotalFirst(runs: seq<Run>, rb: nat, i: nat)
    requires runs != []
    ensures Total(runs, rb, i) == ByteXor(Delivered(runs[0], rb, i), Total(runs[1..], rb, i))
  {
  }

  lemma Rotate(u: byte, d: byte, v: byte)
    ensures ByteXor(u, ByteXor(d, v)) == ByteXor(d, ByteXor(u, v))
  {
    ByteXorLaws(u, d, v);
    ByteXorLaws(d, u, v);
  }

  function Without(s: seq<Run>, k: nat): seq<Run>
    requires k < |s|
  {
    s[..k] + s[k + 1..]
  }

  // The first run of a, found in b.
  lemma Occurs(a: seq<Run>, b: seq<Run>) returns (k: nat)
    requires a != [] && multiset(a) == multiset(b)
    ensures k < |b| && b[k] == a[0] && multiset(Without(a, 0)) == multiset(Without(b, k))
  {
    hide Without;
    k := FirstIn(a, b);
    TakeOut(a, 0);
    TakeOut(b, k);
    Cancel(multiset(Without(a, 0)), multiset(Without(b, k)), a[0]);
  }

  lemma FirstIn(a: seq<Run>, b: seq<Run>) returns (k: nat)
    requires a != [] && multiset(a) == multiset(b)
    ensures k < |b| && b[k] == a[0]
  {
    Members(a, b);
    assert a[0] in a && a[0] in b;
    k :| k < |b| && b[k] == a[0];
  }

  lemma Cancel(x: multiset<Run>, y: multiset<Run>, d: Run)
    requires x + multiset{d} == y + multiset{d}
    ensures x == y
  {
    assert x == (x + multiset{d}) - multiset{d};
    assert y == (y + multiset{d}) - multiset{d};
  }

  lemma TakeOut(s: seq<Run>, k: nat)
    requires k < |s|
    ensures multiset(s) == multiset(Without(s, k)) + multiset{s[k]}
  {
    assert s == s[..k] + ([s[k]] + s[k + 1..]);
  }

  lemma OrderIrrelevant(prev: seq<byte>, rb: nat, height: nat, a: seq<Run>, b: seq<Run>)
    requires rb > 0 && multiset(a) == multiset(b)
    ensures Apply(prev, rb, height, a) == Apply(prev, rb, height, b)
  {
    Members(a, b);
    forall i | 0 <= i < |prev| ensures Combined(prev, rb, a)[i] == Combined(prev, rb, b)[i] {
      TotalPermuted(a, b, rb, i);
    }
    assert Combined(prev, rb, a) == Combined(prev, rb, b);
  }

  lemma Members(a: seq<Run>, b: seq<Run>)
    requires multiset(a) == multiset(b)
    ensures forall run :: run in a <==> run in b
  {
    assert forall run :: run in a <==> run in multiset(a);
  }

  // Applying the same runs twice gives the previous frame back.
  lemma AppliedTwice(prev: seq<byte>, rb: nat, height: nat, runs: seq<Run>)
    requires rb > 0 && Apply(prev, rb, height, runs).Frame?
    ensures Apply(Apply(prev, rb, height, runs).pixels, rb, height, runs) == Frame(prev)
  {
    var cur := Combined(prev, rb, runs);
    forall i | 0 <= i < |prev| ensures Combined(cur, rb, runs)[i] == prev[i] {
      ByteXorLaws(prev[i], Total(runs, rb, i), 0);
    }
    assert Combined(cur, rb, runs) == prev;
  }
}
