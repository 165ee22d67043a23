/** Reading from a peer that closes behind its last chunk: as from one that stops sending, but the reader can tell. */
module ClosedReads {
  import opened Bytes
  import opened Number
  import opened Protocol
  import opened FrameSpec
  import opened FrameCutting

  function Closing(i: Input): Input {
    Input(i.buf, i.chunks + [[]])
  }

  // b does what a does, and where a waits in vain b sees the end.
  ghost predicate Follows<T>(a: Read<T>, b: Read<T>) {
    match a
    case Got(value, rest) => Solid(rest) && b == Got(value, Closing(rest))
    case Stopped(left) => left.chunks == [] && b == Stopped(Closing(left))
  }

  lemma ClosingFilled(i: Input)
    requires Solid(i)
    ensures i.Stuck() <==> i.chunks == []
    ensures Closing(i).Stuck() <==> i.Stuck()
    ensures !i.Stuck() ==> Solid(i.Filled()) && Closing(i).Filled() == Closing(i.Filled())
  {
    if i.chunks != [] {
      assert (i.chunks + [[]])[0] == i.chunks[0] && (i.chunks + [[]])[1..] == i.chunks[1..] + [[]];
    }
  }

  lemma {:induction false} LineFollows(i: Input)
    requires Solid(i)
    ensures Follows(Line(i), Line(Closing(i)))
    decreases |i.chunks|
  {
    hide FirstEol, BehindEol;
    ClosingFilled(i);
    if FirstEol(i.buf) >= |i.buf| && !i.Stuck() {
      LineFollows(i.Filled());
    }
  }

  lemma {:induction false} AwaitFollows(i: Input, n: nat)
    requires Solid(i)
    ensures Follows(Await(i, n), Await(Closing(i), n))
    decreases |i.chunks|
  {
    ClosingFilled(i);
    if n > |i.buf| && !i.Stuck() {
      AwaitFollows(i.Filled(), n);
    }
  }

  lemma {:induction false} TerminatorFollows(i: Input)
    requires Solid(i)
    ensures Follows(ToTerminator(i), ToTerminator(Closing(i)))
    decreases |i.chunks|
  {
    hide Terminated;
    ClosingFilled(i);
    if !Terminated(i.buf) && !i.Stuck() {
      TerminatorFollows(i.Filled());
    }
  }

  lemma CountedFollows(i: Input, n: nat)
    requires Solid(i)
    ensures Follows(Counted(i, n), Counted(Closing(i), n))
  {
    hide Line, Await;
    AwaitFollows(i, n);
    if n > 0 && Exact(i, n).Got? {
      LineFollows(Exact(i, n).rest);
    }
  }

  lemma ErrorRestFollows(i: Input, header: seq<byte>, n: nat)
    requires Solid(i)
    ensures Follows(ErrorRest(i, header, n), ErrorRest(Closing(i), header, n))
  {
    hide Line, Counted;
    CountedFollows(i, n);
    if Counted(i, n).Got? {
      LineFollows(Counted(i, n).rest);
    }
  }

  lemma ErrorPartFollows(i: Input)
    requires Solid(i)
    ensures Follows(ErrorPart(i), ErrorPart(Closing(i)))
  {
    hide Line, ErrorRest, ToTerminator, Declared;
    LineFollows(i);
    if Line(i).Got? {
      var j, n := Line(i).rest, Declared(Line(i).value);
      TerminatorFollows(j);
      if 0 <= n <= MAX_DECLARED {
        ErrorRestFollows(j, Line(i).value, n);
      }
    }
  }

  lemma BodyFollows(i: Input, head: seq<byte>, n: nat)
    requires Solid(i)
    ensures Follows(Body(i, head, n), Body(Closing(i), head, n))
  {
    hide Counted, ErrorPart;
    CountedFollows(i, n);
    if Counted(i, n).Got? {
      ErrorPartFollows(Counted(i, n).rest);
    }
  }

  lemma FramedFollows(i: Input)
    requires Solid(i)
    ensures Follows(Framed(i), Framed(Closing(i)))
  {
    hide Line, Body, ToTerminator, Declared;
    LineFollows(i);
    if Line(i).Got? {
      var j := Line(i).rest;
      LineFollows(j);
      if Line(j).Got? {
        var k, n := Line(j).rest, Declared(Line(j).value);
        TerminatorFollows(k);
        if n >= 0 {
          BodyFollows(k, Line(i).value + [CR] + Line(j).value + [CR], n);
        }
      }
    }
  }

  // One reply from a peer that closes.
  lemma ResponseFollows(i: Input)
    requires Solid(i)
    ensures Follows(Response(i), Response(Closing(i)))
  {
    hide Await, Framed, ToTerminator;
    AwaitFollows(i, 7);
    if Await(i, 7).Got? {
      FramedFollows(Await(i, 7).rest);
      TerminatorFollows(Await(i, 7).rest);
    }
  }
}
