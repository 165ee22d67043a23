/** The host's side of the daemon link: accept, disconnect, drain, and one framed exchange. */
module HostLink {
  import opened Bytes
  import opened Number
  import opened Protocol
  import opened FrameSpec
  import opened Drain

  // The receive buffer of one reply.
  class FrameReader {
    var buf: seq<byte>
    var chunks: seq<seq<byte>>

    constructor (script: seq<seq<byte>>)
      ensures State() == Input([], script)
    {
      buf, chunks := [], script;
    }

    ghost function State(): Input
      reads this
    {
      Input(buf, chunks)
    }

    method Fill() returns (ok: bool)
      modifies this
      ensures ok == !old(State()).Stuck()
      ensures State() == if ok then old(State()).Filled() else old(State())
    {
      ok := chunks != [] && chunks[0] != [];
      if ok {
        buf, chunks := buf + chunks[0], chunks[1..];
      }
    }

    method ReadLine() returns (r: Option<seq<byte>>)
      modifies this
      ensures Matches(r, Line(old(State())), State())
    {
      var pos := 0;
      ghost var was := State();
      while true
        invariant pos <= |buf| && forall k :: 0 <= k < pos ==> !Eol(buf[k])
        invariant Line(State()) == Line(was)
        decreases |chunks|
      {
        while pos < |buf|
          invariant pos <= |buf| && forall k :: 0 <= k < pos ==> !Eol(buf[k])
        {
          var term := buf[pos];
          if Eol(term) {
            r := Some(buf[..pos]);
            buf := buf[pos + 1..];
            if buf != [] && ((term == 13 && buf[0] == 10) || (term == 10 && buf[0] == 13)) {
              buf := buf[1..];
            }
            return;
          }
          pos := pos + 1;
        }
        var ok := Fill();
        if !ok {
          return None;
        }
      }
    }

    method Fewer(n: nat) returns (ok: bool)
      modifies this
      ensures ok == Await(old(State()), n).Got?
      ensures State() == if ok then Await(old(State()), n).rest else Await(old(State()), n).left
    {
      ok := true;
      ghost var was := State();
      while |buf| < n
        invariant ok && Await(State(), n) == Await(was, n)
        decreases |chunks|
      {
        ok := Fill();
        if !ok {
          return;
        }
      }
    }

    method ReadExact(n: nat) returns (r: Option<seq<byte>>)
      modifies this
      ensures Matches(r, Exact(old(State()), n), State())
    {
      var ok := Fewer(n);
      if !ok {
        return None;
      }
      r := Some(buf[..n]);
      buf := buf[n..];
    }

    method ReadUntilTerminator() returns (r: Option<seq<byte>>)
      modifies this
      ensures Matches(r, ToTerminator(old(State())), State())
    {
      ghost var was := State();
      while !Terminated(buf)
        invariant ToTerminator(State()) == ToTerminator(was)
        decreases |chunks|
      {
        var ok := Fill();
        if !ok {
          return None;
        }
      }
      r := Some(buf);
      buf := [];
    }

    // One reply, read in place: the status line, the two counted blocks and their headers.
    method ReadResponse() returns (r: Option<Answer>)
      modifies this
      ensures Matches(r, Response(old(State())), State())
    {
      var ok := Fewer(7);
      if !ok {
        return None;
      }
      if buf[..7] == STATUS_TAG {
        r := ReadFrame();
      } else {
        var raw := ReadUntilTerminator();
        r := if raw.None? then None else Some(Raw(raw.value));
      }
    }

    method ReadFrame() returns (r: Option<Answer>)
      modifies this
      ensures Matches(r, Framed(old(State())), State())
    {
      var status := ReadLine();
      if status.None? {
        return None;
      }
      var header := ReadLine();
      if header.None? {
        return None;
      }
      var n := Declared(header.value);
      var raw := status.value + [CR] + header.value + [CR];
      if n > MAX_DECLARED {
        return Some(Oversized);
      }
      if n < 0 {
        var rest := ReadUntilTerminator();
        return if rest.None? then None else Some(Raw(raw + rest.value));
      }
      var data := ReadCounted(n);
      if data.None? {
        return None;
      }
      var tail := ReadErrorPart();
      r := if tail.None? then None else Some(Raw(raw + data.value + tail.value));
    }

    method ReadCounted(n: nat) returns (r: Option<seq<byte>>)
      modifies this
      ensures Matches(r, Counted(old(State()), n), State())
    {
      if n == 0 {
        return Some([]);
      }
      var data := ReadExact(n);
      if data.None? {
        return None;
      }
      var trailer := ReadLine();
      r := if trailer.None? then None else Some(data.value + trailer.value + [CR]);
    }

    method ReadErrorPart() returns (r: Option<seq<byte>>)
      modifies this
      ensures Matches(r, ErrorPart(old(State())), State())
    {
      var header := ReadLine();
      if header.None? {
        return None;
      }
      var n := Declared(header.value);
      if n < 0 || n > MAX_DECLARED {
        var text := ReadUntilTerminator();
        return if text.None? then None else Some(header.value + [CR] + text.value);
      }
      var text := ReadCounted(n);
      if text.None? {
        return None;
      }
      var end := ReadLine();
      r := if end.None? then None else Some(header.value + [CR] + text.value + end.value);
    }
  }

  ghost predicate Matches<T>(r: Option<T>, spec: Read<T>, now: Input) {
    && r.Some? == spec.Got?
    && (spec.Got? ==> r.value == spec.value && now == spec.rest)
    && (spec.Stopped? ==> now == spec.left)
  }

  // What the server remembers of its link.
  datatype Link = Link(connected: bool, desynced: Option<string>, generation: nat) {
    function Lost(): Link {
      this.(connected := false)
    }

    function AfterDrain(v: Verdict): Link {
      match v
      case Alive => this.(desynced := None)
      case Dropped => this.(connected := false, desynced := None)
      case Dead => this
    }

    // After a read: a time-out leaves a note for the next drain, a close or an absurd length ends the link.
    function AfterRead(command: string, spec: Read<Answer>): Link {
      if spec.Got? then (if spec.value.Oversized? then Lost() else this)
      else if spec.left.chunks == [] then this.(desynced := Some(Note(command)))
      else Lost()
    }

    function AfterSend(v: Verdict, sent: bool, command: string, spec: Read<Answer>): Link {
      if v.Alive? && sent then AfterDrain(v).AfterRead(command, spec) else AfterDrain(v).Lost()
    }

    function AfterAccept(serial: bool): Link {
      Link(true, if serial then desynced else None, generation + 1)
    }
  }

  function Note(command: string): string {
    if command == "" then "unlabelled read" else if |command| > 48 then command[..48] else command
  }

  // A note is never empty, so the next drain sees it; it is the command, or its first 48 characters.
  lemma NoteMeans(command: string)
    ensures Note(command) != ""
    ensures 0 < |command| <= 48 ==> Note(command) == command
    ensures |command| > 48 ==> |Note(command)| == 48 && Note(command) <= command
  {
  }

  // What a command leaves of a link: the note that its drain has answered is gone; the link is down unless the drain
  // was alive, the request went out, and the peer neither closed nor declared too much; and only a time-out makes a
  // note.
  lemma CommandMeans(l: Link, v: Verdict, sent: bool, command: string, spec: Read<Answer>)
    requires l.connected
    ensures l.AfterDrain(v) == Link(v != Dropped, if v == Dead then l.desynced else None, l.generation)
    ensures var after, asked := l.AfterSend(v, sent, command, spec), v == Alive && sent;
            var late := asked && spec.Stopped? && spec.left.chunks == [];
            && after.generation == l.generation
            && (after.connected <==> late || (asked && spec.Got? && !spec.value.Oversized?))
            && after.desynced == (if late then Some(Note(command)) else if v == Dead then l.desynced else None)
  {
  }

  // The text handed to the caller: the reply, or what was in the buffer when the read gave up.
  function Handed(spec: Read<Answer>): Option<seq<byte>> {
    if spec.Got? then (if spec.value.Oversized? then None else Some(spec.value.raw))
    else if spec.left.buf == [] then None
    else Some(spec.left.buf)
  }

  class AppleBridgeServer {
    var connected: bool
    var socket: bool
    var desynced: Option<string>
    var generation: nat

    ghost predicate Valid()
      reads this
    {
      connected == socket
    }

    ghost function State(): Link
      reads this
    {
      Link(connected, desynced, generation)
    }

    constructor ()
      ensures Valid() && State() == Link(false, None, 0)
    {
      connected, socket, desynced, generation := false, false, None, 0;
    }

    // arrives(k): whether try k gets a link.  A polling call tries once, the other one waits.  landed is what the old
    // link has received and not read, unread what of it can still be read: a serial line is flushed when it is opened.
    method AcceptMac(serial: bool, polling: bool, arrives: nat -> bool, landed: seq<seq<byte>>, ghost late: nat)
      returns (ok: bool, unread: seq<seq<byte>>)
      requires Valid() && (!polling ==> arrives(late))
      modifies this
      ensures Valid() && (ok <==> !polling || arrives(0))
      ensures State() == if ok then old(State()).AfterAccept(serial) else old(State())
      ensures unread == if ok then [] else landed
    {
      unread := landed;
      if serial {
        var k: nat := 0;
        while !arrives(k)
          invariant polling ==> k == 0
          invariant !polling ==> k <= late
          invariant State() == old(State()) && Valid()
          decreases if polling then 0 else late - k
        {
          if polling {
            return false, unread;
          }
          k := k + 1;
        }
        socket, connected := true, true;
        unread := [];
        generation := generation + 1;
        return true, unread;
      }
      if polling && !arrives(0) {
        return false, unread;
      }
      socket, connected, unread := true, true, [];
      desynced := None;
      generation := generation + 1;
      ok := true;
    }

    method MarkDisconnected()
      requires Valid()
      modifies this
      ensures Valid() && State() == old(State()).Lost()
    {
      if !connected && !socket {
        return;
      }
      connected := false;
      if socket {
        socket := false;
      }
    }

    // at is the pass that decided.
    method DrainLink(script: Script, start: int, ghost late: nat) returns (alive: bool, at: nat, ghost v: Verdict)
      requires Valid() && connected && Ends(script, desynced.Some?, start, late)
      modifies this
      ensures Valid() && at <= late && Decides(script, old(desynced).Some?, start, at, v)
      ensures alive == v.Alive? && State() == old(State()).AfterDrain(v)
    {
      var resync := desynced.Some?;
      var deadline, quietUntil := start + RESYNC_BUDGET, start + RESYNC_QUIET;
      at := 0;
      while true
        invariant at <= late && Undecided(script, resync, start, at) && State() == old(State()) && Valid()
        invariant quietUntil == QuietUntil(script, start, at) || !resync
        decreases late - at
      {
        if at == late {
          EndDecides(script, resync, start, late);
        }
        var poll := script(at);
        match poll.event {
        case Nothing =>
          if !resync || poll.now >= quietUntil {
            desynced, alive, v := None, true, Alive;
            return;
          }
          if poll.now >= deadline {
            MarkDisconnected();
            desynced, alive, v := None, false, Dropped;
            return;
          }
        case Chunk =>
          if resync {
            if poll.now >= deadline {
              MarkDisconnected();
              desynced, alive, v := None, false, Dropped;
              return;
            }
            quietUntil := poll.now + RESYNC_QUIET;
          }
        case Closed =>
          alive, v := false, Dead;
          return;
        case Failed =>
          alive, v := false, Dead;
          return;
        }
        at := at + 1;
      }
    }

    // unread is what the socket still holds.
    method ReadFramedResponse(script: seq<seq<byte>>, command: string)
      returns (r: Option<seq<byte>>, unread: seq<seq<byte>>)
      requires Valid() && connected
      modifies this
      ensures var spec := Response(Input([], script));
              && r == Handed(spec)
              && State() == old(State()).AfterRead(command, spec)
              && unread == (if spec.Got? then spec.rest.chunks else spec.left.chunks)
              && Valid()
    {
      var reader := new FrameReader(script);
      var answer := reader.ReadResponse();
      unread := reader.chunks;
      if answer.Some? {
        if answer.value.Oversized? {
          MarkDisconnected();
          return None, unread;
        }
        return Some(answer.value.raw), unread;
      }
      if reader.chunks == [] {
        desynced := Some(Note(command));
      } else {
        MarkDisconnected();
      }
      r := if reader.buf == [] then None else Some(reader.buf);
    }

    // One request and its reply; sent is whether sendall() succeeds.
    method SendCommand(command: string, script: Script, start: int, ghost late: nat, sent: bool,
                       incoming: seq<seq<byte>>)
      returns (r: Option<seq<byte>>, ghost at: nat, ghost v: Verdict)
      requires Valid() && (connected ==> Ends(script, desynced.Some?, start, late))
      modifies this
      ensures Valid()
      ensures !old(connected) ==> r == None && State() == old(State())
      ensures old(connected) ==> Decides(script, old(desynced).Some?, start, at, v)
      ensures var spec := Response(Input([], incoming));
              old(connected) ==>
                && State() == old(State()).AfterSend(v, sent, command, spec)
                && r == if v.Alive? && sent then Handed(spec) else None
    {
      if !connected {
        return None, 0, Dead;
      }
      var alive;
      alive, at, v := DrainLink(script, start, late);
      if !alive || !sent {
        MarkDisconnected();
        return None, at, v;
      }
      var unread;
      r, unread := ReadFramedResponse(incoming, command);
    }
  }
}
