/** How a gap in late bytes misleads the host: a run from the start on which one reply is read as the next one's. */
module LinkMistakes {
  import opened Bytes
  import opened Number
  import opened Protocol
  import opened FrameSpec
  import opened FrameCutting
  import opened Drain
  import opened LateBytes
  import opened HostLink
  import opened LinkRuns

  /** A read takes chunks and makes none. */

  ghost predicate Takes<T>(r: Read<T>, i: Input) {
    |(if r.Got? then r.rest else r.left).chunks| <= |i.chunks|
  }

  lemma {:induction false} LineTakes(i: Input)
    ensures Takes(Line(i), i)
    decreases |i.chunks|
  {
    hide FirstEol, BehindEol;
    if FirstEol(i.buf) >= |i.buf| && !i.Stuck() {
      LineTakes(i.Filled());
    }
  }

  lemma {:induction false} AwaitTakes(i: Input, n: nat)
    ensures Takes(Await(i, n), i)
    decreases |i.chunks|
  {
    if n > |i.buf| && !i.Stuck() {
      AwaitTakes(i.Filled(), n);
    }
  }

  lemma {:induction false} TerminatorTakes(i: Input)
    ensures Takes(ToTerminator(i), i)
    decreases |i.chunks|
  {
    hide Terminated;
    if !Terminated(i.buf) && !i.Stuck() {
      TerminatorTakes(i.Filled());
    }
  }

  lemma CountedTakes(i: Input, n: nat)
    ensures Takes(Counted(i, n), i)
  {
    hide Line, Await;
    AwaitTakes(i, n);
    if n > 0 && Exact(i, n).Got? {
      LineTakes(Exact(i, n).rest);
    }
  }

  lemma ErrorPartTakes(i: Input)
    ensures Takes(ErrorPart(i), i)
  {
    hide Line, Counted, ToTerminator, Declared;
    LineTakes(i);
    if Line(i).Got? {
      var j, n := Line(i).rest, Declared(Line(i).value);
      TerminatorTakes(j);
      if 0 <= n <= MAX_DECLARED {
        CountedTakes(j, n);
        if Counted(j, n).Got? {
          LineTakes(Counted(j, n).rest);
        }
      }
    }
  }

  lemma BodyTakes(i: Input, head: seq<byte>, n: nat)
    ensures Takes(Body(i, head, n), i)
  {
    hide Counted, ErrorPart;
    CountedTakes(i, n);
    if Counted(i, n).Got? {
      ErrorPartTakes(Counted(i, n).rest);
    }
  }

  lemma FramedTakes(i: Input)
    ensures Takes(Framed(i), i)
  {
    hide Line, Body, ToTerminator, Declared;
    LineTakes(i);
    if Line(i).Got? {
      var j := Line(i).rest;
      LineTakes(j);
      if Line(j).Got? {
        var k, n := Line(j).rest, Declared(Line(j).value);
        TerminatorTakes(k);
        if n >= 0 {
          BodyTakes(k, Line(i).value + [CR] + Line(j).value + [CR], n);
        }
      }
    }
  }

  lemma ResponseTakes(i: Input)
    ensures Takes(Response(i), i)
  {
    hide Await, Framed, ToTerminator;
    AwaitTakes(i, 7);
    if Await(i, 7).Got? {
      FramedTakes(Await(i, 7).rest);
      TerminatorTakes(Await(i, 7).rest);
    }
  }

  /** The run: a link, a command that times out at once, and the next command after the drain that misses the gap */

  const UNLINKED := Net(Link(false, None, 0), [])
  const LINKED := Net(Link(true, None, 1), [])

  function Still(t: int): Clock {
    Clock((i: nat) => t, (i: nat) => t)
  }

  // A command whose drain, at time t, finds nothing.
  function Idle(t: int, reply: Reply, heard: nat): Op {
    Command("", Drained(t, Still(t), 0, Alive), reply, heard, Never)
  }

  // The link after it.
  function Answered(net: Net, reply: Reply, heard: nat): Net
    requires heard <= |net.wire + reply.arrivals|
  {
    var w := net.wire + reply.arrivals;
    var spec := Heard(w, heard);
    Net(net.link.AfterSend(Alive, true, "", spec),
        w[if Unread(spec) <= heard then heard - Unread(spec) else 0..])
  }

  lemma IdleStep(net: Net, t: int, reply: Reply, heard: nat)
    requires net.link.connected && net.link.desynced.None? && (net.wire != [] ==> t < net.wire[0].at)
    requires heard <= |net.wire + reply.arrivals|
    ensures Step(net, Idle(t, reply, heard), Answered(net, reply, heard),
                 Handed(Heard(net.wire + reply.arrivals, heard)))
  {
    hide Found, Rest, Decides, Response, Chunks;
    var w := net.wire + reply.arrivals;
    IdleLooks(net, t, reply, heard);
    ResponseTakes(Input([], Chunks(w[..heard])));
  }

  lemma IdleLooks(net: Net, t: int, reply: Reply, heard: nat)
    requires net.wire != [] ==> t < net.wire[0].at
    ensures var op := Idle(t, reply, heard);
            Rest(net, op) == net.wire && Decides(Found(net, op), false, t, 0, Alive)
  {
    hide Polls, Decides, Taken, InOrder, Chunks, CutOff, Response;
    IdleDrain(net.wire, t);
    assert Rest(net, Idle(t, reply, heard)) == net.wire[0..];
  }

  function NextCommand(was: Reply, next: Reply, start: int, lag: nat, k: nat, heard: nat): Op
    requires k < |was.arrivals|
  {
    Command("", Drained(start, Missing(was.arrivals, start, lag, k), k, Alive), next, heard, Never)
  }

  function TimedOut(was: Reply): Net {
    Net(Link(true, Some(Note("")), 1), was.arrivals)
  }

  // What the host makes of the first bytes that the drain has missed.
  function Late(was: Reply, k: nat, heard: nat): Read<Answer>
    requires k + heard <= |was.arrivals|
  {
    Heard(was.arrivals[k..], heard)
  }

  function Misled(was: Reply, next: Reply, k: nat, heard: nat): Net
    requires k + heard <= |was.arrivals|
  {
    var spec, w := Late(was, k, heard), was.arrivals[k..] + next.arrivals;
    Net(TimedOut(was).link.AfterSend(Alive, true, "", spec),
        w[if Unread(spec) <= heard then heard - Unread(spec) else 0..])
  }

  lemma StillTicks(t: int, lag: nat)
    ensures Ticking(Still(t), t, lag)
  {
  }

  lemma FirstTimesOut(was: Reply, begin: int)
    ensures Step(LINKED, Idle(begin, was, 0), TimedOut(was), None)
  {
    hide Step, Heard;
    IdleStep(LINKED, begin, was, 0);
    assert [] + was.arrivals == was.arrivals;
    NothingHeard(was.arrivals);
    assert was.arrivals[0..] == was.arrivals;
  }

  lemma IdleDrain(wire: Wire, t: int)
    requires wire != [] ==> t < wire[0].at
    ensures Taken(wire, Still(t), 1) == 0
    ensures Decides(Polls(wire, Still(t)), false, t, 0, Alive)
  {
    PollStep(wire, Still(t), 0);
  }

  lemma NothingHeard(wire: Wire)
    ensures Heard(wire, 0) == Stopped(EMPTY)
  {
    assert Chunks(wire[..0]) == [];
  }

  lemma NextIsMisled(was: Reply, next: Reply, start: int, lag: nat, k: nat, heard: nat)
    requires was.WellFormed() && Gap(was.arrivals, start, lag, k) && k + heard <= |was.arrivals|
    ensures Step(TimedOut(was), NextCommand(was, next, start, lag, k, heard),
                 Misled(was, next, k, heard), Handed(Late(was, k, heard)))
  {
    hide Polls, Decides, Gap, InOrder, Missing, Response, Taken, Chunks;
    GapInside(was.arrivals, start, lag, k);
    GapMissed(was.arrivals, start, lag, k);
    AliveTakes(was.arrivals, Missing(was.arrivals, start, lag, k), true, start, k);
    var op := NextCommand(was, next, start, lag, k, heard);
    var w := was.arrivals[k..] + next.arrivals;
    assert Wanted(TimedOut(was), op) == w;
    assert w[..heard] == was.arrivals[k..][..heard];
    ResponseTakes(Input([], Chunks(w[..heard])));
  }

  // The run, with `text` handed back for the second command.
  ghost predicate Mistaken(was: Reply, next: Reply, begin: int, start: int, lag: nat, k: nat, heard: nat,
                           text: Option<seq<byte>>)
    requires k < |was.arrivals| && k + heard <= |was.arrivals|
  {
    var first, second := Idle(begin, was, 0), NextCommand(was, next, start, lag, k, heard);
    && Story([UNLINKED, LINKED, TimedOut(was), Misled(was, next, k, heard)],
             [Accept(false, 0), first, second], [None, None, text])
    && Proper(first, lag) && Proper(second, lag)
  }

  lemma ThreeSteps(a: Net, b: Net, c: Net, d: Net, x: Op, y: Op, z: Op, out: Option<seq<byte>>)
    requires a == UNLINKED && Step(a, x, b, None) && Step(b, y, c, None) && Step(c, z, d, out)
    ensures Story([a, b, c, d], [x, y, z], [None, None, out])
  {
    hide Step;
  }

  // Every gap does it.  From the start: a link; a command, begun at any time, whose reply `was` does not come before
  // the read gives up; and the next command, whose drain ends well before the gap is over.  What the host hands back
  // for it is read from the bytes of `was` alone, whatever the reply to it is.
  lemma GapsMislead(was: Reply, next: Reply, begin: int, start: int, lag: nat, k: nat, heard: nat)
    requires was.WellFormed() && next.WellFormed() && Gap(was.arrivals, start, lag, k) && k + heard <= |was.arrivals|
    ensures Mistaken(was, next, begin, start, lag, k, heard, Handed(Late(was, k, heard)))
  {
    hide Step, Gap, Missing, Ticking, InOrder, Misled, Late, Story;
    StillTicks(begin, lag);
    GapInside(was.arrivals, start, lag, k);
    GapMissed(was.arrivals, start, lag, k);
    FirstStep(false, 0);
    FirstTimesOut(was, begin);
    NextIsMisled(was, next, start, lag, k, heard);
    ThreeSteps(UNLINKED, LINKED, TimedOut(was), Misled(was, next, k, heard), Accept(false, 0),
               Idle(begin, was, 0), NextCommand(was, next, start, lag, k, heard), Handed(Late(was, k, heard)));
  }

  lemma FirstStep(serial: bool, at: int)
    ensures Step(UNLINKED, Accept(serial, at), LINKED, None)
  {
  }

  // A gap in front of the whole reply: it is handed back as the reply to the next command.
  lemma LateReplyIsMistaken(was: Reply, next: Reply, begin: int, start: int, lag: nat)
    requires was.WellFormed() && next.WellFormed() && Gap(was.arrivals, start, lag, 0)
    requires Flat(Chunks(was.arrivals)) == was.Whole()
    ensures Mistaken(was, next, begin, start, lag, 0, |was.arrivals|, Some(was.Text()))
  {
    hide Chunks, Flat, Response, Mistaken;
    GapsMislead(was, next, begin, start, lag, 0, |was.arrivals|);
    assert was.arrivals[0..] == was.arrivals == was.arrivals[..|was.arrivals|];
    HeardReply(was, |was.arrivals|);
  }

  // A gap inside it: so is the next chunk behind the gap, when it does not look like the start of a reply.
  lemma LateChunkIsMistaken(was: Reply, next: Reply, begin: int, start: int, lag: nat, k: nat)
    requires was.WellFormed() && next.WellFormed() && Gap(was.arrivals, start, lag, k)
    requires !(STATUS_TAG <= was.arrivals[k].data)
    ensures Mistaken(was, next, begin, start, lag, k, 1, Some(was.arrivals[k].data))
  {
    hide Mistaken;
    GapsMislead(was, next, begin, start, lag, k, 1);
    var d := was.arrivals[k].data;
    var some := was.arrivals[k..][..1];
    assert Chunks(some) == [d] && d == Chunks(was.arrivals)[k];
    OneLateChunk(d);
  }

  lemma OneLateChunk(d: seq<byte>)
    requires d != [] && !(STATUS_TAG <= d)
    ensures Handed(Response(Input([], [d]))) == Some(d)
  {
    var i := Input([], [d]);
    assert i.Filled() == Input(d, []);
    assert Await(i, 7) == Await(Input(d, []), 7);
    if 7 <= |d| {
      assert d[..7] != STATUS_TAG;
    }
  }
}
