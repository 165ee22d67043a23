/** A serial line that is opened again: when its commands get their own replies, and a run on which they do not. */
module LinkReopens {
  import opened Bytes
  import opened Number
  import opened Protocol
  import opened FrameSpec
  import opened FrameCutting
  import opened Drain
  import opened LateBytes
  import opened HostLink
  import opened LinkRuns
  import opened LinkMistakes

  /** What is read starts with the first line of the stream. */

  ghost predicate SameStart(raw: seq<byte>, s: seq<byte>) {
    FirstEol(s) < |s| && FirstEol(raw) == FirstEol(s) && raw[..FirstEol(s)] == s[..FirstEol(s)]
  }

  lemma {:induction false} LineStarts(i: Input)
    requires Solid(i) && Line(i).Got?
    ensures var s := Stream(i); FirstEol(s) < |s| && Line(i).value == s[..FirstEol(s)]
    decreases |i.chunks|
  {
    LineStep(i);
    FirstEolOfPrefix(i.buf, Flat(i.chunks));
    if FirstEol(i.buf) == |i.buf| {
      FilledStream(i);
      LineStarts(i.Filled());
    }
  }

  lemma {:induction false} TerminatorStarts(i: Input)
    requires Solid(i) && ToTerminator(i).Got?
    ensures ToTerminator(i).value <= Stream(i) && Terminated(ToTerminator(i).value)
    decreases |i.chunks|
  {
    if Terminated(i.buf) {
      TerminatorHere(i);
    } else {
      TerminatorStep(i);
      FilledStream(i);
      TerminatorStarts(i.Filled());
    }
  }

  lemma PrefixStarts(raw: seq<byte>, s: seq<byte>)
    requires raw <= s && FirstEol(raw) < |raw|
    ensures SameStart(raw, s)
  {
    assert s == raw + s[|raw|..];
    FirstEolOfPrefix(raw, s[|raw|..]);
  }

  lemma FramedStarts(i: Input)
    requires Framed(i).Got? && Framed(i).value.Raw?
    ensures Line(i).Got? && Line(i).value + [CR] <= Framed(i).value.raw
  {
    hide Line, Declared, Counted, ErrorPart, ToTerminator;
  }

  lemma ResponseStarts(i: Input)
    requires Solid(i) && Response(i).Got? && Response(i).value.Raw?
    ensures SameStart(Response(i).value.raw, Stream(i))
  {
    hide Await, Framed, Line, ToTerminator, Stream, Solid, Terminated, SameStart;
    AwaitRead(i, 7);
    var j := Await(i, 7).rest;
    var raw := Response(i).value.raw;
    if j.buf[..7] == STATUS_TAG {
      FramedStarts(j);
      LineStarts(j);
      LineFirst(Line(j).value, raw, Stream(i));
    } else {
      TerminatorStarts(j);
      TerminatedPair(raw);
      PrefixStarts(raw, Stream(i));
    }
  }

  lemma FirstOf(line: seq<byte>, s: seq<byte>)
    requires OneLine(line) && line + [CR] <= s
    ensures FirstEol(s) == |line| < |s| && s[..|line|] == line
  {
    hide FirstEol;
    assert s == line + [CR] + s[|line| + 1..];
    FirstEolIs(CR, s, line, s[|line| + 1..]);
  }

  lemma LineFirst(line: seq<byte>, raw: seq<byte>, s: seq<byte>)
    requires line + [CR] <= raw && FirstEol(s) < |s| && line == s[..FirstEol(s)]
    ensures SameStart(raw, s)
  {
    hide FirstEol;
    assert forall k :: 0 <= k < |line| ==> line[k] == s[k];
    FirstOf(line, raw);
  }

  /** Bytes in front of a reply spoil it. */

  // A reply without texts, whole in one arrival.
  function Bare(code: int, at: int): Reply {
    Reply(CR, Result(code, [], []), [Arrival(at, Frame(CR, code, [], []))])
  }

  function StatusLine(code: int): seq<byte> {
    STATUS_TAG + Decimal(code)
  }

  lemma BareReply(code: int, at: int)
    ensures Bare(code, at).WellFormed() && Complete(Bare(code, at))
    ensures Solid(Input([], Chunks(Bare(code, at).arrivals)))
    ensures StatusLine(code) + [CR] <= Bare(code, at).Text() && StatusLine(code) + [CR] <= Bare(code, at).Whole()
  {
    hide Decimal;
    FrameLayout(CR, code, [], []);
    var f := Frame(CR, code, [], []);
    assert Chunks(Bare(code, at).arrivals) == [f];
    assert Flat([f]) == f + Flat([f][1..]) == f;
  }

  lemma {:induction false} FlatJoin(a: seq<seq<byte>>, b: seq<seq<byte>>)
    ensures Flat(a + b) == Flat(a) + Flat(b)
  {
    if a == [] {
      assert a + b == b;
    } else {
      assert (a + b)[1..] == a[1..] + b;
      FlatJoin(a[1..], b);
      Assoc(a[0], Flat(a[1..]), Flat(b));
    }
  }

  // With late bytes in front, a text that starts with that status line is not what is read.
  lemma OtherStart(late: seq<byte>, code: int, whole: seq<byte>, text: seq<byte>)
    requires late != [] && StatusLine(code) + [CR] <= whole && StatusLine(code) + [CR] <= text
    requires FirstEol(late) < |late| ==> late[..FirstEol(late)] != StatusLine(code)
    ensures !SameStart(text, late + whole)
  {
    hide Decimal, OneLine, FirstEol, StatusLine;
    var line, s := StatusLine(code), late + whole;
    StatusIsLine(code);
    FirstOf(line, text);
    FirstOf(line, whole);
    FirstEolOfPrefix(late, whole);
    if FirstEol(late) < |late| {
      assert s[..FirstEol(s)] == late[..FirstEol(late)];
    } else {
      LaterEol(late, whole);
    }
  }

  lemma StatusIsLine(code: int)
    ensures OneLine(StatusLine(code))
  {
    HeaderLine(STATUS_TAG, code);
  }

  lemma LaterEol(late: seq<byte>, s: seq<byte>)
    requires FirstEol(late) == |late|
    ensures FirstEol(late + s) == |late| + FirstEol(s)
  {
    hide FirstEol;
    var a, b := FirstEol(late + s), FirstEol(s);
    if b < |s| {
      assert (late + s)[|late| + b] == s[b];
    }
    assert forall k :: 0 <= k < |late| ==> (late + s)[k] == late[k];
    if a < |late + s| {
      assert (late + s)[a] == s[a - |late|];
    }
    assert forall k :: |late| <= k < |late| + b ==> (late + s)[k] == s[k - |late|];
  }

  lemma LateSpoils(late: Wire, code: int, at: int)
    requires late != [] && Solid(Input([], Chunks(late)))
    requires var l := Flat(Chunks(late)); FirstEol(l) < |l| ==> l[..FirstEol(l)] != StatusLine(code)
    ensures var r, w := Bare(code, at), late + Bare(code, at).arrivals;
            var spec := Heard(w, |w|);
            spec.Got? ==> spec.value != Raw(r.Text())
  {
    hide Decimal, Response, Flat, Frame, SameStart, StatusLine;
    var r := Bare(code, at);
    var w := late + r.arrivals;
    BareReply(code, at);
    assert w[..|w|] == w;
    assert Chunks(w) == Chunks(late) + Chunks(r.arrivals);
    FlatJoin(Chunks(late), Chunks(r.arrivals));
    SomeBytes(Chunks(late));
    OtherStart(Flat(Chunks(late)), code, r.Whole(), r.Text());
    var i := Input([], Chunks(w));
    assert Stream(i) == Flat(Chunks(w));
    if Response(i).Got? && Response(i).value.Raw? {
      ResponseStarts(i);
    }
  }

  lemma SomeBytes(chunks: seq<seq<byte>>)
    requires chunks != [] && Solid(Input([], chunks))
    ensures Flat(chunks) != []
  {
    assert chunks[0] != [];
  }

  /** A link in step */

  predicate Complete(reply: Reply) {
    Flat(Chunks(reply.arrivals)) == reply.Whole()
  }

  // A command at `from` or later whose drain ends well, whose reply comes whole, and which hears all that is under way.
  ghost predicate Asked(net: Net, from: int, lag: nat, op: Op, after: Net, out: Option<seq<byte>>) {
    && op.Command? && Fair(net, op, lag) && op.drained.start >= from && op.drained.verdict.Alive? && !op.end.InSend?
    && Complete(op.reply) && op.heard == |Wanted(net, op)| && Step(net, op, after, out)
  }

  // Every such command gets its own reply.
  ghost predicate InStep(net: Net, from: int, lag: nat) {
    forall op: Op, after: Net, out: Option<seq<byte>> :: Asked(net, from, lag, op, after, out) ==>
      out == Some(op.reply.Text()) && after.link.connected && after.link.desynced.None?
  }

  // Bytes to come, and no note of them.
  ghost predicate Unaware(net: Net, from: int) {
    && net.link.connected && net.link.desynced.None?
    && net.wire != [] && net.wire[0].at > from && Solid(Input([], Chunks(net.wire)))
  }

  // The next command can be made before they come, and then it does not get its own reply.
  lemma UnawareIsOut(net: Net, from: int, lag: nat)
    requires Unaware(net, from)
    ensures !InStep(net, from, lag)
  {
    hide Step, Heard, Flat, Frame, Decimal, Ticking, Solid;
    var l := Flat(Chunks(net.wire));
    var code := if l[..FirstEol(l)] == StatusLine(0) then 1 else 0;
    TwoCodes();
    var t := net.wire[0].at - 1;
    var r := Bare(code, t);
    var op, w := Idle(t, r, |net.wire| + 1), net.wire + r.arrivals;
    BareReply(code, t);
    StillTicks(t, lag);
    LateSpoils(net.wire, code, t);
    IdleStep(net, t, r, |w|);
    IdleWanted(net, t, r, |w|);
    assert Asked(net, from, lag, op, Answered(net, r, |w|), Handed(Heard(w, |w|)));
    AnswerMisses(net, r, |w|);
  }

  lemma IdleWanted(net: Net, t: int, reply: Reply, heard: nat)
    requires net.wire != [] ==> t < net.wire[0].at
    ensures Wanted(net, Idle(t, reply, heard)) == net.wire + reply.arrivals
  {
    IdleDrain(net.wire, t);
    assert Rest(net, Idle(t, reply, heard)) == net.wire;
  }

  lemma AnswerMisses(net: Net, reply: Reply, heard: nat)
    requires heard <= |net.wire + reply.arrivals|
    requires var spec := Heard(net.wire + reply.arrivals, heard); spec.Got? ==> spec.value != Raw(reply.Text())
    ensures var after, out := Answered(net, reply, heard).link, Handed(Heard(net.wire + reply.arrivals, heard));
            !(out == Some(reply.Text()) && after.connected && after.desynced.None?)
  {
    hide Heard;
  }

  lemma TwoCodes()
    ensures StatusLine(0) != StatusLine(1)
  {
    hide Decimal, Declared;
    HeaderLine(STATUS_TAG, 0);
    HeaderLine(STATUS_TAG, 1);
  }

  // A link that is in step, in the sense of the invariant, is in step with its commands.
  lemma AwareIsIn(net: Net, from: int, lag: nat)
    requires Inv(net) && net.link.connected
    ensures InStep(net, from, lag)
  {
    hide Step, Asks, Inv, Fair, Own, Wanted;
    forall op: Op, after: Net, out: Option<seq<byte>> | Asked(net, from, lag, op, after, out)
      ensures out == Some(op.reply.Text()) && after.link.connected && after.link.desynced.None?
    {
      AskedIsOwn(net, from, lag, op, after, out);
    }
  }

  lemma AskedIsOwn(net: Net, from: int, lag: nat, op: Op, after: Net, out: Option<seq<byte>>)
    requires Inv(net) && net.link.connected && Asked(net, from, lag, op, after, out)
    ensures out == Some(op.reply.Text()) && after.link.connected && after.link.desynced.None?
  {
    hide Fair, Inv, Heard, Wanted, Decides, Polls, Flat, Chunks, Piece, Rest;
    AliveDecides(net, op, after, out);
    DrainedWire(net, op, lag);
    AskReads(net, op, after, out, lag);
    assert op.reply.arrivals[..|op.reply.arrivals|] == op.reply.arrivals;
  }

  lemma AliveDecides(net: Net, op: Op, after: Net, out: Option<seq<byte>>)
    requires op.Command? && net.link.connected && op.drained.verdict.Alive? && Step(net, op, after, out)
    ensures Asks(net, op, after, out)
    ensures Decides(Found(net, op), net.link.desynced.Some?, op.drained.start, op.drained.pass, Alive)
  {
  }

  // A serial line reopened at `at`.
  function Reopened(net: Net, at: int): Net {
    Accepted(net, true, at)
  }

  // It is in step exactly when it still has the note of its desync, or no byte comes after the reopening.
  lemma ReopenIff(net: Net, at: int, lag: nat)
    requires InOrder(net.wire) && Solid(Input([], Chunks(net.wire)))
    ensures InStep(Reopened(net, at), at, lag)
            <==> net.link.desynced.Some? || forall i :: 0 <= i < |net.wire| ==> net.wire[i].at <= at
  {
    hide InStep, Inv, Unaware, InOrder, Solid, Chunks, Later;
    var re := Reopened(net, at);
    NothingLater(net.wire, at);
    ReopenedIs(net, at);
    if net.link.desynced.Some? || re.wire == [] {
      AwareIsIn(re, at, lag);
    } else {
      UnawareIsOut(re, at, lag);
    }
  }

  lemma ReopenedIs(net: Net, at: int)
    requires InOrder(net.wire) && Solid(Input([], Chunks(net.wire)))
    ensures var re := Reopened(net, at);
            && re.link.connected
            && (if net.link.desynced.Some? || re.wire == [] then Inv(re) else Unaware(re, at))
  {
    hide InOrder, Solid, Chunks, Later;
    var re := Reopened(net, at);
    LaterInOrder(net.wire, |net.wire| - |re.wire|);
    LaterSolid(net.wire, at);
  }

  lemma LaterSolid(wire: Wire, at: int)
    requires Solid(Input([], Chunks(wire)))
    ensures Solid(Input([], Chunks(Later(wire, at))))
  {
    hide Later, Chunks;
    var late := Later(wire, at);
    forall k | 0 <= k < |late|
      ensures Chunks(late)[k] != []
    {
      assert late[k] == wire[|wire| - |late| + k];
      assert Chunks(wire)[|wire| - |late| + k] != [];
    }
  }

  /** The run: a drain that gives up on a late reply takes the note away; the rest of it comes after the reopening. */

  // The drain that drops the link takes the arrivals up to k.
  function Refused(was: Reply, unsent: Reply, start: int, lag: nat, k: nat): Op
    requires k + 1 < |was.arrivals|
  {
    Command("", Drained(start, Missing(was.arrivals, start, lag, k + 1), k, Dropped), unsent, 0, Never)
  }

  function GivenUp(was: Reply, k: nat): Net
    requires k < |was.arrivals|
  {
    Net(Link(false, None, 1), was.arrivals[k + 1..])
  }

  lemma RefusedStep(was: Reply, unsent: Reply, start: int, lag: nat, k: nat)
    requires was.WellFormed() && Overruns(was.arrivals, start, k) && k + 1 < |was.arrivals|
    ensures Step(TimedOut(was), Refused(was, unsent, start, lag, k), GivenUp(was, k), None)
    ensures Ticking(Missing(was.arrivals, start, lag, k + 1), start, lag)
  {
    hide Polls, Decides, InOrder, Missing, Taken, Ticking, Overruns;
    OverrunDrops(was.arrivals, start, lag, k);
  }

  // The run, with `text` handed back for the last command.
  ghost predicate Astray(was: Reply, unsent: Reply, next: Reply, first: int, begin: int, start: int, lag: nat, k: nat,
                       at: int, heard: nat, text: Option<seq<byte>>)
    requires k + 1 < |was.arrivals|
  {
    var one, two, three := Idle(begin, was, 0), Refused(was, unsent, start, lag, k), Idle(at, next, heard);
    var re := Reopened(GivenUp(was, k), at);
    && heard <= |re.wire|
    && Story([UNLINKED, LINKED, TimedOut(was), GivenUp(was, k), re, Answered(re, next, heard)],
             [Accept(true, first), one, two, Accept(true, at), three], [None, None, None, None, text])
    && Proper(one, lag) && Proper(two, lag) && Proper(three, lag)
  }

  lemma FiveSteps(a: Net, b: Net, c: Net, d: Net, e: Net, f: Net, v: Op, w: Op, x: Op, y: Op, z: Op,
                  out: Option<seq<byte>>)
    requires a == UNLINKED && Step(a, v, b, None) && Step(b, w, c, None) && Step(c, x, d, None) && Step(d, y, e, None)
    requires Step(e, z, f, out)
    ensures Story([a, b, c, d, e, f], [v, w, x, y, z], [None, None, None, None, out])
  {
    hide Step;
  }

  lemma ReopenStep(net: Net, at: int)
    ensures Step(net, Accept(true, at), Reopened(net, at), None)
  {
  }

  // Whenever arrival k overruns the budget and more comes after the reopening: what the next command gets is read from
  // those bytes alone, whatever the reply to it is.
  lemma ReopenMisleads(was: Reply, unsent: Reply, next: Reply, first: int, begin: int, start: int, lag: nat, k: nat,
                       at: int, heard: nat)
    requires was.WellFormed() && unsent.WellFormed() && next.WellFormed()
    requires Overruns(was.arrivals, start, k) && k + 1 < |was.arrivals|
    requires heard <= |Later(was.arrivals[k + 1..], at)|
    ensures var late := Later(was.arrivals[k + 1..], at);
            Astray(was, unsent, next, first, begin, start, lag, k, at, heard, Handed(Heard(late, heard)))
  {
    hide Step, Missing, Ticking, InOrder, Story, Later, Heard, Overruns, Answered, Chunks, Solid, Flat, EndOf;
    var re := Reopened(GivenUp(was, k), at);
    var late := Later(was.arrivals[k + 1..], at);
    StillTicks(begin, lag);
    StillTicks(at, lag);
    FirstStep(true, first);
    FirstTimesOut(was, begin);
    RefusedStep(was, unsent, start, lag, k);
    ReopenStep(GivenUp(was, k), at);
    IdleStep(re, at, next, heard);
    HeardFirst(late, next.arrivals, heard);
    FiveSteps(UNLINKED, LINKED, TimedOut(was), GivenUp(was, k), re, Answered(re, next, heard), Accept(true, first),
              Idle(begin, was, 0), Refused(was, unsent, start, lag, k), Accept(true, at), Idle(at, next, heard),
              Handed(Heard(late, heard)));
  }

  lemma HeardFirst(a: Wire, b: Wire, heard: nat)
    requires heard <= |a|
    ensures Heard(a + b, heard) == Heard(a, heard)
  {
    assert (a + b)[..heard] == a[..heard];
  }

  // The first chunk after the reopening is handed back as the reply, when it does not look like the start of one.
  lemma ReopenChunkIsMistaken(was: Reply, unsent: Reply, next: Reply, first: int, begin: int, start: int, lag: nat,
                              k: nat, at: int)
    requires was.WellFormed() && unsent.WellFormed() && next.WellFormed()
    requires Overruns(was.arrivals, start, k) && k + 1 < |was.arrivals|
    requires var late := Later(was.arrivals[k + 1..], at); late != [] && !(STATUS_TAG <= late[0].data)
    ensures var late := Later(was.arrivals[k + 1..], at);
            Astray(was, unsent, next, first, begin, start, lag, k, at, 1, Some(late[0].data))
  {
    hide Astray, Later, Overruns, Response;
    ReopenMisleads(was, unsent, next, first, begin, start, lag, k, at, 1);
    var rest := was.arrivals[k + 1..];
    var late := Later(rest, at);
    var d := late[0].data;
    assert Chunks(late[..1]) == [d];
    assert late[0] == was.arrivals[|was.arrivals| - |late|];
    assert d == Chunks(was.arrivals)[|was.arrivals| - |late|];
    OneLateChunk(d);
  }
}
