/** Whole runs of the link: every reply the host hands back is the reply to the command it sent last. */
module LinkRuns {
  import opened Bytes
  import opened Number
  import opened FrameSpec
  import opened FrameCutting
  import opened Drain
  import opened LateBytes
  import opened HostLink
  import opened ClosedReads

  function Chunks(wire: Wire): (r: seq<seq<byte>>)
    ensures |r| == |wire|
    ensures forall k :: 0 <= k < |wire| ==> r[k] == wire[k].data
  {
    seq(|wire|, k requires 0 <= k < |wire| => wire[k].data)
  }

  datatype Net = Net(link: Link, wire: Wire)

  // The daemon's answer to one command: its content, and the arrivals it makes, all of it or the beginning.
  datatype Reply = Reply(end: LineEnd, message: Message, arrivals: Wire) {
    function Whole(): seq<byte> {
      message.Sent(end)
    }

    function Text(): seq<byte> {
      message.Text(end)
    }

    ghost predicate WellFormed() {
      && message.Readable(end) && InOrder(arrivals)
      && Solid(Input([], Chunks(arrivals))) && Flat(Chunks(arrivals)) <= Whole()
    }
  }

  // The drain in front of a command: its clock, the pass that decides, and how.
  datatype Drained = Drained(start: int, clock: Clock, pass: nat, verdict: Verdict)

  // Where the peer's end meets a command: nowhere; in the drain, as an event of that pass and all later ones; in
  // sendall(); or in the read, behind what is heard.
  datatype End = Never | InDrain(pass: nat, event: Event) | InSend | InRead

  // heard: how many arrivals recv() sees before it times out or finds the end.
  datatype Op =
    | Command(name: string, drained: Drained, reply: Reply, heard: nat, end: End)
    | Accept(serial: bool, at: int)
    | Lose

  // What the drain finds.
  function Found(net: Net, op: Op): Script
    requires op.Command?
  {
    var polls := Polls(net.wire, op.drained.clock);
    if op.end.InDrain? then CutOff(polls, op.end.pass, op.end.event) else polls
  }

  // What the drain leaves: the chunk that its last pass has received is gone, too.
  function Rest(net: Net, op: Op): Wire
    requires op.Command?
  {
    var d := op.drained;
    net.wire[Taken(net.wire, d.clock, if d.verdict == Dead then d.pass else d.pass + 1)..]
  }

  // After the drain: what is still under way, then the reply.
  function Wanted(net: Net, op: Op): Wire
    requires op.Command?
  {
    Rest(net, op) + op.reply.arrivals
  }

  function Heard(wire: Wire, heard: nat, closes: bool := false): Read<Answer>
    requires heard <= |wire|
  {
    var i := Input([], Chunks(wire[..heard]));
    Response(if closes then Closing(i) else i)
  }

  // How many of the chunks are not read; the peer's end is none.
  function Unread(spec: Read<Answer>, closes: bool := false): (r: nat) {
    var chunks := if spec.Got? then spec.rest.chunks else spec.left.chunks;
    if closes && chunks != [] then |chunks| - 1 else |chunks|
  }

  ghost predicate Asks(net: Net, op: Op, after: Net, out: Option<seq<byte>>)
    requires op.Command?
  {
    var d := op.drained;
    && Decides(Found(net, op), net.link.desynced.Some?, d.start, d.pass, d.verdict)
    && if !d.verdict.Alive? || op.end.InSend? then
         after == Net(net.link.AfterDrain(d.verdict).Lost(), Rest(net, op)) && out == None
       else
         var w, closes := Wanted(net, op), op.end.InRead?;
         && op.heard <= |w|
         && var spec := Heard(w, op.heard, closes);
            && after.link == net.link.AfterSend(d.verdict, true, op.name, spec)
            && Unread(spec, closes) <= op.heard
            && after.wire == w[op.heard - Unread(spec, closes)..]
            && out == Handed(spec)
  }

  // A new TCP connection brings a new stream.  A serial line is flushed when it is opened, and what comes later still
  // comes.
  ghost predicate Step(net: Net, op: Op, after: Net, out: Option<seq<byte>>) {
    match op
    case Command(_, _, _, _, _) => if net.link.connected then Asks(net, op, after, out) else after == net && out == None
    case Accept(serial, at) => after == Accepted(net, serial, at) && out == None
    case Lose => after == Net(net.link.Lost(), net.wire) && out == None
  }

  function Accepted(net: Net, serial: bool, at: int): Net {
    Net(net.link.AfterAccept(serial), if serial then Later(net.wire, at) else [])
  }

  // Well-formed replies, and clocks that do not go back.
  ghost predicate Proper(op: Op, lag: nat) {
    op.Command? ==>
      && op.reply.WellFormed() && Ticking(op.drained.clock, op.drained.start, lag)
      && (op.end.InDrain? ==> op.end.event.Closed? || op.end.event.Failed?)
  }

  // What else is asked of the world: no gap in late bytes, and none to come behind a serial reopen when the link has no
  // note of them.
  ghost predicate Fair(net: Net, op: Op, lag: nat) {
    && Proper(op, lag)
    && (op.Command? && net.link.connected && net.link.desynced.Some? ==> Steady(net.wire, op.drained.start, lag))
    && (op.Accept? && op.serial && net.link.desynced.None? ==> Later(net.wire, op.at) == [])
  }

  // A link that believes itself aligned has nothing under way.
  ghost predicate Inv(net: Net) {
    InOrder(net.wire) && (net.link.connected && net.link.desynced.None? ==> net.wire == [])
  }

  lemma FoundAlive(net: Net, op: Op)
    requires op.Command? && (op.end.InDrain? ==> op.end.event.Closed? || op.end.event.Failed?)
    requires Decides(Found(net, op), net.link.desynced.Some?, op.drained.start, op.drained.pass, Alive)
    ensures Decides(Polls(net.wire, op.drained.clock), net.link.desynced.Some?, op.drained.start, op.drained.pass,
                    Alive)
  {
    hide Polls, Decides, CutOff;
    if op.end.InDrain? {
      CutOffDecides(Polls(net.wire, op.drained.clock), op.end.pass, op.end.event, net.link.desynced.Some?,
                    op.drained.start, op.drained.pass, Alive);
    }
  }

  // An idle drain that ends well has taken nothing away from an empty wire.
  lemma DrainedWire(net: Net, op: Op, lag: nat)
    requires Inv(net) && Fair(net, op, lag) && op.Command? && net.link.connected
    requires op.drained.verdict == Alive
    requires Decides(Found(net, op), net.link.desynced.Some?, op.drained.start, op.drained.pass, Alive)
    ensures Wanted(net, op) == op.reply.arrivals
  {
    hide Polls, Decides, Ticking, Gap, InOrder, Found, Taken;
    FoundAlive(net, op);
    AliveTakes(net.wire, op.drained.clock, net.link.desynced.Some?, op.drained.start, op.drained.pass);
    if net.link.desynced.Some? {
      LeftBehindGap(net.wire, op.drained.clock, op.drained.start, lag, op.drained.pass);
    }
    assert Rest(net, op) == [];
    assert [] + op.reply.arrivals == op.reply.arrivals;
  }

  lemma {:induction false} FlatPrefix(chunks: seq<seq<byte>>, k: nat)
    requires k <= |chunks| && Solid(Input([], chunks))
    ensures Flat(chunks[..k]) <= Flat(chunks)
    ensures k < |chunks| ==> Flat(chunks[..k]) != Flat(chunks)
  {
    if k > 0 {
      FlatPrefix(chunks[1..], k - 1);
      assert chunks[..k][1..] == chunks[1..][..k - 1];
    }
  }

  // t is a stretch of s.
  ghost predicate Piece(t: seq<byte>, s: seq<byte>) {
    exists n: nat :: n <= |s| && EndOf(t, Slice(s, 0, n))
  }

  lemma PieceOfPrefix(t: seq<byte>, p: seq<byte>, s: seq<byte>)
    requires p <= s && EndOf(t, p)
    ensures Piece(t, s)
  {
    assert Slice(s, 0, |p|) == p;
  }

  // A well-formed reply alone on the wire: handed over exactly when all of it is heard.
  lemma HeardReply(reply: Reply, heard: nat, closes: bool := false)
    requires reply.WellFormed() && heard <= |reply.arrivals|
    ensures var spec := Heard(reply.arrivals, heard, closes);
            var end: seq<seq<byte>> := if closes then [[]] else [];
            if Flat(Chunks(reply.arrivals[..heard])) == reply.Whole()
            then heard == |reply.arrivals| && spec == Got(Raw(reply.Text()), Input([], end))
            else spec.Stopped? && spec.left.chunks == end && Piece(spec.left.buf, reply.Whole())
  {
    hide Frame, Rejection, Framing, RejectionText, Response, Flat, Small, Plain, OneLine;
    var all, some := Chunks(reply.arrivals), Chunks(reply.arrivals[..heard]);
    assert some == all[..heard];
    FlatPrefix(all, heard);
    var i := Input([], some);
    assert Stream(i) == Flat(some);
    MessageCutting(reply.end, i, reply.message);
    SolidPrefix(all, heard);
    ResponseFollows(i);
    if Flat(some) != reply.Whole() {
      PieceOfPrefix(Response(i).left.buf, Flat(some), reply.Whole());
    }
  }

  lemma SolidPrefix(chunks: seq<seq<byte>>, k: nat)
    requires k <= |chunks| && Solid(Input([], chunks))
    ensures Solid(Input([], chunks[..k]))
  {
  }

  // What an answer may be: the whole reply when all of it was heard, which leaves the link aligned; else at most
  // a stretch of it, and the link knows that it is out of step, or is gone.
  ghost predicate Own(reply: Reply, heard: nat, after: Link, out: Option<seq<byte>>) {
    && heard <= |reply.arrivals|
    && if Flat(Chunks(reply.arrivals[..heard])) == reply.Whole() then
         out == Some(reply.Text()) && after.connected && after.desynced.None?
       else
         (out.Some? ==> Piece(out.value, reply.Whole())) && (after.desynced.Some? || !after.connected)
  }

  lemma LaterInOrder(wire: Wire, k: nat)
    requires InOrder(wire) && k <= |wire|
    ensures InOrder(wire[k..])
  {
  }

  // A command whose drain ends well.
  lemma AskReads(net: Net, op: Op, after: Net, out: Option<seq<byte>>, lag: nat)
    requires Inv(net) && Fair(net, op, lag) && op.Command? && net.link.connected && op.drained.verdict.Alive?
    requires Asks(net, op, after, out) && !op.end.InSend?
    ensures Inv(after) && Own(op.reply, op.heard, after.link, out)
    ensures !op.end.InRead? ==> after.link.connected
  {
    hide Found, Heard, Unread, Own, Wanted, Rest, Decides, Steady, Ticking, InOrder, Solid, Flat;
    DrainedWire(net, op, lag);
    LinkHears(net.link, op.reply, op.heard, op.name, op.end.InRead?);
  }

  // What hearing some of a reply does to a link.
  lemma LinkHears(link: Link, reply: Reply, heard: nat, name: string, closes: bool)
    requires link.connected && reply.WellFormed() && heard <= |reply.arrivals|
    ensures var spec := Heard(reply.arrivals, heard, closes);
            var after := link.AfterSend(Alive, true, name, spec);
            && Own(reply, heard, after, Handed(spec)) && (!closes ==> after.connected)
            && (Unread(spec, closes) <= heard ==>
                  Inv(Net(after, reply.arrivals[heard - Unread(spec, closes)..])))
  {
    hide Heard, Flat, Chunks, Solid, Piece, InOrder;
    HeardReply(reply, heard, closes);
    var spec := Heard(reply.arrivals, heard, closes);
    if Unread(spec, closes) <= heard {
      LaterInOrder(reply.arrivals, heard - Unread(spec, closes));
    }
    NoArrivals(reply.arrivals);
  }

  lemma NoArrivals(wire: Wire)
    ensures wire[|wire|..] == []
  {
  }

  lemma StepSafe(net: Net, op: Op, after: Net, out: Option<seq<byte>>, lag: nat)
    requires Inv(net) && Fair(net, op, lag) && Step(net, op, after, out)
    ensures Inv(after)
    ensures out.Some? ==> op.Command? && Own(op.reply, op.heard, after.link, out)
  {
    hide Found, Heard, Flat, Taken, Chunks, Wanted, Decides, Solid, Own, InOrder, Steady, Ticking;
    if op.Command? && net.link.connected {
      var d := op.drained;
      LaterInOrder(net.wire, Taken(net.wire, d.clock, if d.verdict == Dead then d.pass else d.pass + 1));
      if d.verdict.Alive? && !op.end.InSend? {
        AskReads(net, op, after, out, lag);
      }
    }
    if op.Accept? {
      LaterInOrder(net.wire, |net.wire| - |Later(net.wire, op.at)|);
    }
    NothingInOrder();
  }

  // A link whose peer is gone before the first look of the drain, with a note or without: the command returns nothing,
  // and the link is down.
  lemma GoneAnswersNothing(net: Net, op: Op, after: Net, out: Option<seq<byte>>, lag: nat)
    requires Step(net, op, after, out) && Proper(op, lag) && op.Command? && net.link.connected
    requires op.end.InDrain? && op.end.pass == 0
    ensures op.drained.verdict == Dead && out == None && after == Net(net.link.(connected := false), net.wire)
  {
    hide Polls, Heard, Wanted;
    var d := op.drained;
    var script := CutOff(Polls(net.wire, d.clock), 0, op.end.event);
    CutOffDecides(Polls(net.wire, d.clock), 0, op.end.event, net.link.desynced.Some?, d.start, d.pass, d.verdict);
    PollStep(net.wire, d.clock, 0);
    assert Judge(script, net.link.desynced.Some?, d.start, 0) == Some(Dead);
  }

  lemma NothingInOrder()
    ensures InOrder([])
  {
  }

  // The whole story of a link: outs[k] is what the step from nets[k] to nets[k + 1] hands back.
  ghost predicate Story(nets: seq<Net>, ops: seq<Op>, outs: seq<Option<seq<byte>>>) {
    && |nets| == |ops| + 1 && |outs| == |ops|
    && nets[0] == Net(Link(false, None, 0), [])
    && forall k :: 0 <= k < |ops| ==> Step(nets[k], ops[k], nets[k + 1], outs[k])
  }

  ghost predicate Run(nets: seq<Net>, ops: seq<Op>, outs: seq<Option<seq<byte>>>, lag: nat) {
    Story(nets, ops, outs) && forall k :: 0 <= k < |ops| ==> Fair(nets[k], ops[k], lag)
  }

  lemma {:induction false} RunKeeps(nets: seq<Net>, ops: seq<Op>, outs: seq<Option<seq<byte>>>, lag: nat, k: nat)
    requires Run(nets, ops, outs, lag) && k < |nets|
    ensures Inv(nets[k])
  {
    hide Step, Fair;
    if k > 0 {
      RunKeeps(nets, ops, outs, lag, k - 1);
      StepSafe(nets[k - 1], ops[k - 1], nets[k], outs[k - 1], lag);
    }
  }

  function Accepts(ops: seq<Op>): nat {
    if ops == [] then 0 else Accepts(ops[..|ops| - 1]) + if ops[|ops| - 1].Accept? then 1 else 0
  }

  // On any run, fair or not, the link's generation counts the links: two links never have the same one.
  lemma {:induction false} GenerationCounts(nets: seq<Net>, ops: seq<Op>, outs: seq<Option<seq<byte>>>, k: nat)
    requires Story(nets, ops, outs) && k < |nets|
    ensures nets[k].link.generation == Accepts(ops[..k])
    decreases k
  {
    if k > 0 {
      GenerationCounts(nets, ops, outs, k - 1);
      assert ops[..k][..k - 1] == ops[..k - 1];
      GenerationStep(nets[k - 1], ops[k - 1], nets[k], outs[k - 1]);
    }
  }

  lemma GenerationStep(net: Net, op: Op, after: Net, out: Option<seq<byte>>)
    requires Step(net, op, after, out)
    ensures after.link.generation == net.link.generation + if op.Accept? then 1 else 0
  {
    hide Found, Rest, Wanted, Heard, Decides;
  }

  // Every text handed back, on any run, comes from the reply to the command just sent, and is that reply when the
  // link stays aligned.
  lemma EveryReplyIsItsOwn(nets: seq<Net>, ops: seq<Op>, outs: seq<Option<seq<byte>>>, lag: nat, k: nat)
    requires Run(nets, ops, outs, lag) && k < |ops| && outs[k].Some?
    ensures ops[k].Command? && Own(ops[k].reply, ops[k].heard, nets[k + 1].link, outs[k])
  {
    hide Step, Fair, Own;
    RunKeeps(nets, ops, outs, lag, k);
    StepSafe(nets[k], ops[k], nets[k + 1], outs[k], lag);
  }
}
