/** The third reader of STATUS frames, inside the screenshot exchange: it drops one byte per line end, never a pair. */
module StatusFrame {
  import opened Bytes
  import opened Number
  import opened Protocol
  import opened FrameSpec
  import opened FrameCutting

  const MAX_LINES: nat := 8

  // Malformed is a ValueError.
  datatype Refusal = Told(text: seq<byte>) | Malformed

  function BareLine(i: Input): (r: Read<seq<byte>>)
    decreases |i.chunks|
  {
    var k := FirstEol(i.buf);
    if k < |i.buf| then Got(i.buf[..k], i.(buf := i.buf[k + 1..]))
    else if i.Stuck() then Stopped(i)
    else BareLine(i.Filled())
  }

  function ToColon(s: seq<byte>): seq<byte> {
    if s == [] || s[0] == COLON then [] else [s[0]] + ToColon(s[1..])
  }

  // int(line.split(b":")[1])
  function Length(line: seq<byte>): Option<int> {
    var behind := AfterColon(line);
    if behind.None? then None else ParseInt(ToColon(behind.value), ByteSpace)
  }

  // A counted text and the line end behind it.
  function Text(i: Input, n: int): Read<seq<byte>> {
    if n <= 0 then
      Got([], i)
    else
      var (text, j) :- Exact(i, n);
      var (_, k) :- BareLine(j);
      Got(text, k)
  }

  // Behind the error header.
  function Ending(i: Input, header: seq<byte>): Read<Refusal> {
    var n := Length(header);
    if n.None? then
      Got(Malformed, i)
    else
      var (text, j) :- Text(i, n.value);
      var (_, k) :- BareLine(j);
      Got(Told(text), k)
  }

  // Lines up to the error header, at most that many.
  function Fields(i: Input, lines: nat): Read<Refusal>
    decreases lines
  {
    if lines == 0 then
      Got(Malformed, i)
    else
      var (line, j) :- BareLine(i);
      if STDERR_TAG <= line then
        Ending(j, line)
      else if STDOUT_TAG <= line then
        var n := Length(line);
        if n.None? then
          Got(Malformed, j)
        else
          var (_, k) :- Text(j, n.value);
          Fields(k, lines - 1)
      else
        Fields(j, lines - 1)
  }

  // What is left of a frame behind its status line.
  function Swallowed(i: Input): Read<Refusal> {
    Fields(i, MAX_LINES)
  }

  /** The reader, in place */

  class ShotReader {
    var buf: seq<byte>
    var chunks: seq<seq<byte>>

    constructor (script: seq<seq<byte>>)
      ensures State() == Input([], script)
    {
      buf, chunks := [], script;
    }

    ghost function State(): Input
      reads this
    {
      Input(buf, chunks)
    }

    method Fill() returns (ok: bool)
      modifies this
      ensures ok == !old(State()).Stuck()
      ensures State() == if ok then old(State()).Filled() else old(State())
    {
      ok := chunks != [] && chunks[0] != [];
      if ok {
        buf, chunks := buf + chunks[0], chunks[1..];
      }
    }

    method ReadLine() returns (r: Option<seq<byte>>)
      modifies this
      ensures Outcome(r, BareLine(old(State())), State())
    {
      ghost var was := State();
      while true
        invariant BareLine(State()) == BareLine(was)
        decreases |chunks|
      {
        var at := FirstEol(buf);
        if at < |buf| {
          r := Some(buf[..at]);
          buf := buf[at + 1..];
          return;
        }
        var ok := Fill();
        if !ok {
          return None;
        }
      }
    }

    method ReadExact(n: nat) returns (r: Option<seq<byte>>)
      modifies this
      ensures Outcome(r, Exact(old(State()), n), State())
    {
      ghost var was := State();
      while |buf| < n
        invariant Await(State(), n) == Await(was, n)
        decreases |chunks|
      {
        var ok := Fill();
        if !ok {
          return None;
        }
      }
      r := Some(buf[..n]);
      buf := buf[n..];
    }

    method ReadText(n: int) returns (r: Option<seq<byte>>)
      modifies this
      ensures Outcome(r, Text(old(State()), n), State())
    {
      if n <= 0 {
        return Some([]);
      }
      r := ReadExact(n);
      if r.Some? {
        var end := ReadLine();
        if end.None? {
          r := None;
        }
      }
    }

    method SwallowStatusFrame() returns (r: Option<Refusal>)
      modifies this
      ensures Outcome(r, Swallowed(old(State())), State())
    {
      hide BareLine, Text, Ending, Length;
      ghost var was := State();
      for k := 0 to MAX_LINES
        invariant Fields(State(), MAX_LINES - k) == Fields(was, MAX_LINES)
      {
        var line := ReadLine();
        if line.None? {
          return None;
        }
        if STDERR_TAG <= line.value {
          r := ReadEnding(line.value);
          return;
        }
        if STDOUT_TAG <= line.value {
          var n := Length(line.value);
          if n.None? {
            return Some(Malformed);
          }
          var data := ReadText(n.value);
          if data.None? {
            return None;
          }
        }
      }
      r := Some(Malformed);
    }

    method ReadEnding(header: seq<byte>) returns (r: Option<Refusal>)
      modifies this
      ensures Outcome(r, Ending(old(State()), header), State())
    {
      var n := Length(header);
      if n.None? {
        return Some(Malformed);
      }
      var text := ReadText(n.value);
      if text.None? {
        return None;
      }
      var end := ReadLine();
      r := if end.None? then None else Some(Told(text.value));
    }
  }

  ghost predicate Outcome<T>(r: Option<T>, spec: Read<T>, now: Input) {
    && r.Some? == spec.Got?
    && (spec.Got? ==> r.value == spec.value && now == spec.rest)
    && (spec.Stopped? ==> now == spec.left)
  }

  /** Cutting makes no difference to it. */

  // Two reads end alike, and leave the same bytes.
  ghost predicate Alike<T>(a: Read<T>, b: Read<T>) {
    if a.Got? then b.Got? && a.value == b.value && Solid(a.rest) && Solid(b.rest) && Stream(a.rest) == Stream(b.rest)
    else b.Stopped? && a.left.chunks == b.left.chunks == []
  }

  // The line, in terms of the stream alone.
  lemma {:induction false} LineOfStream(i: Input)
    requires Solid(i)
    ensures var s := Stream(i);
            if FirstEol(s) < |s|
            then && BareLine(i).Got? && BareLine(i).value == s[..FirstEol(s)] && Solid(BareLine(i).rest)
                 && Stream(BareLine(i).rest) == s[FirstEol(s) + 1..]
            else BareLine(i).Stopped? && BareLine(i).left.chunks == []
    decreases |i.chunks|
  {
    hide FirstEol, BareLine, Flat;
    BareStep(i);
    FirstEolOfPrefix(i.buf, Flat(i.chunks));
    if FirstEol(i.buf) < |i.buf| {
      LineInFront(i.buf, Flat(i.chunks), FirstEol(i.buf));
    } else if i.Stuck() {
      StuckStream(i);
    } else {
      FilledStream(i);
      LineOfStream(i.Filled());
    }
  }

  lemma BareStep(i: Input)
    ensures BareLine(i) == if FirstEol(i.buf) < |i.buf|
                           then Got(i.buf[..FirstEol(i.buf)], i.(buf := i.buf[FirstEol(i.buf) + 1..]))
                           else if i.Stuck() then Stopped(i) else BareLine(i.Filled())
  {
  }

  lemma LineInFront(a: seq<byte>, b: seq<byte>, k: nat)
    requires k < |a|
    ensures (a + b)[..k] == a[..k] && (a + b)[k + 1..] == a[k + 1..] + b
  {
  }

  lemma LineAlike(i: Input, j: Input)
    requires Solid(i) && Solid(j) && Stream(i) == Stream(j)
    ensures Alike(BareLine(i), BareLine(j))
  {
    hide BareLine, Solid, Stream;
    LineOfStream(i);
    LineOfStream(j);
  }

  lemma TextAlike(i: Input, j: Input, n: int)
    requires Solid(i) && Solid(j) && Stream(i) == Stream(j)
    ensures Alike(Text(i, n), Text(j, n))
  {
    hide BareLine, Exact, Solid, Stream;
    if n > 0 {
      ExactRead(i, n);
      ExactRead(j, n);
      if n <= |Stream(i)| {
        LineAlike(Exact(i, n).rest, Exact(j, n).rest);
      }
    }
  }

  lemma EndingAlike(i: Input, j: Input, header: seq<byte>)
    requires Solid(i) && Solid(j) && Stream(i) == Stream(j)
    ensures Alike(Ending(i, header), Ending(j, header))
  {
    hide BareLine, Text, Solid, Stream;
    var n := Length(header);
    if n.Some? {
      TextAlike(i, j, n.value);
      if Text(i, n.value).Got? {
        LineAlike(Text(i, n.value).rest, Text(j, n.value).rest);
      }
    }
  }

  // However the same bytes are cut, the reader ends alike: what it takes depends on the stream alone.
  lemma {:induction false} FieldsAlike(i: Input, j: Input, lines: nat)
    requires Solid(i) && Solid(j) && Stream(i) == Stream(j)
    ensures Alike(Fields(i, lines), Fields(j, lines))
    decreases lines
  {
    hide BareLine, Text, Ending, Solid, Stream;
    if lines > 0 {
      LineAlike(i, j);
      if BareLine(i).Got? {
        var line, k, l := BareLine(i).value, BareLine(i).rest, BareLine(j).rest;
        EndingAlike(k, l, line);
        if !(STDERR_TAG <= line) {
          if STDOUT_TAG <= line {
            var n := Length(line);
            if n.Some? {
              TextAlike(k, l, n.value);
              if Text(k, n.value).Got? {
                FieldsAlike(Text(k, n.value).rest, Text(l, n.value).rest, lines - 1);
              }
            }
          } else {
            FieldsAlike(k, l, lines - 1);
          }
        }
      }
    }
  }

  lemma SwallowedAlike(i: Input, j: Input)
    requires Solid(i) && Solid(j) && Stream(i) == Stream(j)
    ensures Alike(Swallowed(i), Swallowed(j))
  {
    hide Solid, Stream, Fields;
    FieldsAlike(i, j, MAX_LINES);
  }

  /** What the daemon sends */

  lemma {:induction false} NoColon(s: seq<byte>)
    requires forall k :: 0 <= k < |s| ==> s[k] != COLON
    ensures ToColon(s) == s
  {
    if s != [] {
      NoColon(s[1..]);
    }
  }

  lemma HeaderLength(tag: seq<byte>, n: int)
    requires Tag(tag)
    ensures OneLine(tag + Decimal(n)) && Length(tag + Decimal(n)) == Some(n)
  {
    hide AfterColon, ParseInt, Strip, OneLine;
    var d := Decimal(n);
    HeaderIsLine(tag, d);
    AfterColonIs(tag[..6], d);
    assert forall k :: 0 <= k < |d| ==> d[k] in d;
    NoColon(d);
    hide Decimal;
    ParsesBack(n, ByteSpace);
  }

  lemma TakesLine(e: LineEnd, i: Input, line: seq<byte>, rest: seq<byte>)
    requires Solid(i) && OneLine(line) && Stream(i) == line + [e] + rest
    ensures var r := BareLine(i); r.Got? && r.value == line && Solid(r.rest) && Stream(r.rest) == rest
  {
    hide BareLine, FirstEol;
    LineOfStream(i);
    var s := Stream(i);
    FirstEolIs(e, s, line, rest);
    assert s[..|line|] == line && s[|line| + 1..] == rest;
  }

  lemma NoMore(i: Input)
    requires Solid(i) && Stream(i) == []
    ensures BareLine(i).Stopped?
  {
    LineOfStream(i);
  }

  lemma TakesText(e: LineEnd, i: Input, data: seq<byte>, rest: seq<byte>)
    requires Solid(i) && Stream(i) == Block(e, data) + rest
    ensures var r := Text(i, |data|); r.Got? && r.value == data && Solid(r.rest) && Stream(r.rest) == rest
  {
    hide BareLine, Exact, Solid;
    if data == [] {
      assert Block(e, data) + rest == rest;
    } else {
      ExactRead(i, |data|);
      var s := Stream(i);
      assert s[..|data|] == data && s[|data|..] == [] + [e] + rest;
      TakesLine(e, Exact(i, |data|).rest, [], rest);
    }
  }

  lemma Tags(n: int)
    ensures !(STDERR_TAG <= STDOUT_TAG + Decimal(n)) && STDOUT_TAG <= STDOUT_TAG + Decimal(n)
    ensures STDERR_TAG <= STDERR_TAG + Decimal(n) && !(STDERR_TAG <= []) && !(STDOUT_TAG <= [])
  {
    hide Decimal;
    assert (STDOUT_TAG + Decimal(n))[3] == 79;
  }

  // A result behind its status line.
  function ResultLines(e: LineEnd, payload: seq<byte>, err: seq<byte>): seq<byte> {
    STDOUT_TAG + Decimal(|payload|) + [e] + (Block(e, payload) + ErrorFrame(e, err))
  }

  // Any result is taken whole, from any cutting, whatever its texts start with.
  lemma ResultSwallowed(e: LineEnd, i: Input, payload: seq<byte>, err: seq<byte>)
    requires Solid(i) && Stream(i) == ResultLines(e, payload, err)
    ensures Swallowed(i) == Got(Told(err), EMPTY)
  {
    hide BareLine, Solid, Stream, Decimal, Block, Length, OneLine, Text;
    var header, last := STDOUT_TAG + Decimal(|payload|), STDERR_TAG + Decimal(|err|);
    HeaderLength(STDOUT_TAG, |payload|);
    HeaderLength(STDERR_TAG, |err|);
    Tags(|payload|);
    Tags(|err|);
    TakesLine(e, i, header, Block(e, payload) + ErrorFrame(e, err));
    var j := BareLine(i).rest;
    TakesText(e, j, payload, ErrorFrame(e, err));
    var k := Text(j, |payload|).rest;
    assert ErrorFrame(e, err) == last + [e] + (Block(e, err) + [e]);
    TakesLine(e, k, last, Block(e, err) + [e]);
    var l := BareLine(k).rest;
    TakesText(e, l, err, [e]);
    PlainEnd(e);
    var m := Text(l, |err|).rest;
    TakesLine(e, m, [], []);
    NothingLeft(BareLine(m).rest);
    TwoFields(i, header, last);
  }

  lemma TwoFields(i: Input, header: seq<byte>, last: seq<byte>)
    requires BareLine(i).Got? && BareLine(i).value == header && Length(header).Some?
    requires STDOUT_TAG <= header && !(STDERR_TAG <= header) && STDERR_TAG <= last
    requires var t := Text(BareLine(i).rest, Length(header).value);
             t.Got? && BareLine(t.rest).Got? && BareLine(t.rest).value == last
    ensures var t := Text(BareLine(i).rest, Length(header).value);
            Swallowed(i) == Ending(BareLine(t.rest).rest, last)
  {
    hide BareLine, Text, Length, Ending;
    var k := Text(BareLine(i).rest, Length(header).value).rest;
    assert Fields(k, MAX_LINES - 1) == Ending(BareLine(k).rest, last);
  }

  // The error text and the two line ends behind it, when the header declares some length.
  lemma EndingOf(e: LineEnd, i: Input, header: seq<byte>, declared: int, err: seq<byte>)
    requires Solid(i) && OneLine(err) && Stream(i) == err + [e, e] && Length(header) == Some(declared)
    ensures var r := Ending(i, header);
            if declared > |err| then r.Stopped?
            else && r.Got? && r.value == Told(err[..if declared < 0 then 0 else declared])
                 && Stream(r.rest) == (if declared <= 0 then [e] else []) && Solid(r.rest)
  {
    hide BareLine, Exact, Solid, Stream, OneLine, Length;
    PlainEnd(e);
    var s := Stream(i);
    if declared <= 0 {
      assert s == err + [e] + [e];
      TakesLine(e, i, err, [e]);
    } else {
      ExactRead(i, declared);
      if declared <= |s| {
        var j := Exact(i, declared).rest;
        if declared <= |err| {
          BehindText(e, declared, err);
          TakesLine(e, j, err[declared..], [e]);
          TakesLine(e, BareLine(j).rest, [], []);
        } else if declared == |err| + 1 {
          assert s[declared..] == [e];
          TakesLine(e, j, [], []);
          NoMore(BareLine(j).rest);
        } else {
          assert s[declared..] == [];
          NoMore(j);
        }
      }
    }
  }

  lemma BehindText(e: LineEnd, declared: nat, err: seq<byte>)
    requires declared <= |err| && OneLine(err)
    ensures (err + [e, e])[declared..] == err[declared..] + [e] + [e] && OneLine(err[declared..])
    ensures (err + [e, e])[..declared] == err[..declared]
  {
  }

  // A rejection (with a blank line) or a failure written out by hand, behind its status line.
  function HandWritten(e: LineEnd, blank: bool, declared: int, err: seq<byte>): (r: seq<byte>) {
    STDOUT_TAG + Decimal(0) + [e] + ((if blank then [e] else []) + ErrorLines(e, declared, err))
  }

  // Taken whole when it declares a length from 1 to that of its text.  With a longer one the reader waits for bytes
  // that nobody sends; with none it leaves a line end behind.
  lemma HandWrittenSwallowed(e: LineEnd, i: Input, blank: bool, declared: int, err: seq<byte>)
    requires Solid(i) && OneLine(err) && Stream(i) == HandWritten(e, blank, declared, err)
    ensures var r := Swallowed(i);
            if declared > |err| then r.Stopped?
            else && r.Got? && r.value == Told(err[..if declared < 0 then 0 else declared])
                 && Stream(r.rest) == (if declared <= 0 then [e] else []) && Solid(r.rest)
  {
    hide BareLine, Solid, Stream, Decimal, Length, OneLine, Ending;
    var header, last := STDOUT_TAG + Decimal(0), STDERR_TAG + Decimal(declared);
    var tail := ErrorLines(e, declared, err);
    HeaderLength(STDOUT_TAG, 0);
    HeaderLength(STDERR_TAG, declared);
    Tags(0);
    Tags(declared);
    TakesLine(e, i, header, (if blank then [e] else []) + tail);
    var j := BareLine(i).rest;
    if blank {
      PlainEnd(e);
      assert [] + [e] + tail == [e] + tail;
      TakesLine(e, j, [], tail);
    } else {
      assert [] + tail == tail;
    }
    var k := if blank then BareLine(j).rest else j;
    assert tail == last + [e] + (err + [e, e]);
    TakesLine(e, k, last, err + [e, e]);
    EndingOf(e, BareLine(k).rest, last, declared, err);
    FieldsOf(i, blank, header, last);
  }

  lemma FieldsOf(i: Input, blank: bool, header: seq<byte>, last: seq<byte>)
    requires BareLine(i).Got? && BareLine(i).value == header && Length(header) == Some(0)
    requires STDOUT_TAG <= header && !(STDERR_TAG <= header) && STDERR_TAG <= last
    requires blank ==> BareLine(BareLine(i).rest).Got? && BareLine(BareLine(i).rest).value == []
    requires var k := if blank then BareLine(BareLine(i).rest).rest else BareLine(i).rest;
             BareLine(k).Got? && BareLine(k).value == last
    ensures var k := if blank then BareLine(BareLine(i).rest).rest else BareLine(i).rest;
            Swallowed(i) == Ending(BareLine(k).rest, last)
  {
    hide BareLine, Length, Ending;
    var j := BareLine(i).rest;
    assert Swallowed(i) == Fields(j, MAX_LINES - 1);
    if blank {
      var k := BareLine(j).rest;
      assert Fields(j, MAX_LINES - 1) == Fields(k, MAX_LINES - 2);
      assert Fields(k, MAX_LINES - 2) == Ending(BareLine(k).rest, last);
    } else {
      assert Fields(j, MAX_LINES - 1) == Ending(BareLine(j).rest, last);
    }
  }

  // When this reader stops at the frame's end, and with the whole frame taken.
  lemma SwallowIff(e: LineEnd, blank: bool, declared: int, err: seq<byte>)
    requires OneLine(err)
    ensures (forall i :: Solid(i) && Stream(i) == HandWritten(e, blank, declared, err)
                    ==> Swallowed(i).Got? && Swallowed(i).rest == EMPTY)
            <==> 0 < declared <= |err|
  {
    hide Swallowed, HandWritten, OneLine, Solid, Stream;
    var s := HandWritten(e, blank, declared, err);
    if 0 < declared <= |err| {
      forall i | Solid(i) && Stream(i) == s
        ensures Swallowed(i).Got? && Swallowed(i).rest == EMPTY
      {
        HandWrittenSwallowed(e, i, blank, declared, err);
        NothingLeft(Swallowed(i).rest);
      }
    } else {
      var i := Input(s, []);
      BufStream(s);
      NoChunks(s);
      HandWrittenSwallowed(e, i, blank, declared, err);
      EmptyStream();
    }
  }

  lemma NoChunks(s: seq<byte>)
    ensures Solid(Input(s, []))
  {
  }

  /** How far it looks for the error header */

  function BlankLines(e: LineEnd, k: nat): seq<byte> {
    if k == 0 then [] else [e] + BlankLines(e, k - 1)
  }

  lemma {:induction false} FieldsBlank(e: LineEnd, i: Input, k: nat, lines: nat)
    requires Solid(i) && Stream(i) == BlankLines(e, k) + (STDERR_TAG + Decimal(0) + [e] + [e])
    ensures k < lines ==> Fields(i, lines) == Got(Told([]), EMPTY)
    ensures k >= lines ==> Fields(i, lines).Got? && Fields(i, lines).value == Malformed
    decreases k
  {
    hide BareLine, Solid, Stream, Decimal, Length, OneLine, Ending, Text;
    var last := STDERR_TAG + Decimal(0);
    if lines > 0 {
      if k == 0 {
        HeaderLength(STDERR_TAG, 0);
        Tags(0);
        PlainEnd(e);
        assert [] + (last + [e] + [e]) == last + [e] + [e];
        TakesLine(e, i, last, [e]);
        var j := BareLine(i).rest;
        TakesLine(e, j, [], []);
        NothingLeft(BareLine(j).rest);
        NoText(j, last);
      } else {
        PlainEnd(e);
        Tags(0);
        var rest := BlankLines(e, k - 1) + (last + [e] + [e]);
        assert Stream(i) == [] + [e] + rest;
        TakesLine(e, i, [], rest);
        FieldsBlank(e, BareLine(i).rest, k - 1, lines - 1);
      }
    }
  }

  lemma NoText(i: Input, header: seq<byte>)
    requires Length(header) == Some(0) && BareLine(i).Got?
    ensures Ending(i, header) == Got(Told([]), BareLine(i).rest)
  {
    hide BareLine, Length;
  }

  // The error header must be among the first eight lines.
  lemma EightLines(e: LineEnd, i: Input, k: nat)
    requires Solid(i) && Stream(i) == BlankLines(e, k) + (STDERR_TAG + Decimal(0) + [e] + [e])
    ensures Swallowed(i).Got? && (Swallowed(i).value == Malformed <==> k >= 8)
  {
    hide Solid, Stream, BlankLines, Decimal, Fields;
    FieldsBlank(e, i, k, MAX_LINES);
  }
}
