/** Daemons that do not know the verb: the host asks once on each link, and then falls back to the old exchange. */
module ScreenshotFallback {
  import opened Bytes
  import opened RowCodec
  import opened Daemon
  import opened ScreenshotHost
  import opened ScreenshotSystem
  import FrameSpec
  import FrameCutting
  import StatusFrame

  // The texts that the daemon and the host agree on.
  lemma TextsSpell()
    ensures Spells(INVALID_COMMAND, "Invalid command") && Spells(REFUSED, "Screenshot failed") && REFUSED_LENGTH == 18
  {
  }

  // Only a status text with "Invalid command" in it counts against the verb, and no text costs the link or a base.
  lemma StatusMeans(h: Host, text: seq<byte>, rest: FrameSpec.Input)
    ensures Handle(h, StatusAnswer(FrameSpec.Got(StatusFrame.Told(text), rest)))
         == (if Occurs(text, INVALID_COMMAND)
             then h.(v2 := No) else h, NoShot)
  {
    FrameSpec.ContainsIff(text, INVALID_COMMAND);
  }

  // A status frame out of form is passed over; one that never ends costs the link.
  lemma BadStatusMeans(h: Host, rest: FrameSpec.Input)
    ensures Handle(h, StatusAnswer(FrameSpec.Got(StatusFrame.Malformed, rest))) == (h, NoShot)
    ensures Handle(h, StatusAnswer(FrameSpec.Stopped(rest))) == (h.(connected := false), NoShot)
  {
  }

  // The rejection, from any cutting.
  lemma RejectionFallsBack(h: Host, e: FrameCutting.LineEnd, i: FrameSpec.Input)
    requires FrameCutting.Solid(i)
    requires FrameCutting.Stream(i)
          == StatusFrame.HandWritten(e, true, 21, INVALID_COMMAND + [32, 102, 111, 114, 109, 97, 116])
    ensures Handle(h, StatusAnswer(StatusFrame.Swallowed(i))) == (h.(v2 := No), NoShot)
  {
    hide StatusFrame.Swallowed, StatusFrame.HandWritten, FrameCutting.Solid, FrameCutting.Stream;
    InvalidCommandIsTold(e, i);
  }

  // A reply that is lost costs the link, one that cannot be read costs nothing, and neither yields a picture; the
  // daemon has made its capture unless the request was lost.
  lemma UnreadMeans(sys: System, e: Event, pb: seq<byte> -> seq<byte>)
    requires Possible(e) && GoodState(sys.daemon) && e.Ask? && sys.host.connected && e.fate != Delivered
    requires var h := Fresh(sys.host); h.v2 != No && MakeRequest(h, e.region, e.delta).Verb?
    ensures var (after, shot) := Step(sys, e, pb);
            var h := Fresh(sys.host);
            var q := AsRead(MakeRequest(h, e.region, e.delta).q);
            && shot == NoShot && after.speaks == sys.speaks
            && after.host == (if e.fate == Garbled then h else h.(connected := false))
            && after.daemon == (if e.fate == LostBefore || !sys.speaks then sys.daemon
                                else Capture(sys.daemon, e.screen, q, e.memory, pb).0)
  {
    hide MakeRequest, Capture, GoodState, GoodScreen, AsRead;
  }

  // A host that has not been rejected on this link asks, is rejected, and falls back in the same request.
  lemma FallsBack(sys: System, e: Event, pb: seq<byte> -> seq<byte>)
    requires Inv(sys) && Possible(e) && e.Ask? && sys.host.connected && !sys.speaks && e.fate == Delivered
    requires Fresh(sys.host).v2 != No && MakeRequest(Fresh(sys.host), e.region, e.delta).Verb?
    ensures Sends(sys, e, pb) == [NewVerb(MakeRequest(Fresh(sys.host), e.region, e.delta).q), OldVerb]
    ensures Back(Step(sys, e, pb).0) && Step(sys, e, pb).0.host.connected
  {
    hide MakeRequest, Possible;
  }

  // The link that is up has been told No.
  ghost predicate Back(sys: System) {
    sys.host.connected ==> sys.host.shotLink == sys.host.link && sys.host.v2 == No
  }

  lemma StepStaysBack(sys: System, e: Event, pb: seq<byte> -> seq<byte>)
    requires Inv(sys) && Back(sys) && Possible(e) && Packer(pb) && !e.Redial?
    ensures Back(Step(sys, e, pb).0) && (Sends(sys, e, pb) == [] || Sends(sys, e, pb) == [OldVerb])
    ensures e.Ask? && sys.host.connected ==> Sends(sys, e, pb) == [OldVerb]
  {
    hide MakeRequest, Capture, Handle;
  }

  lemma {:induction false} StaysBack(sys: System, es: seq<Event>, pb: seq<byte> -> seq<byte>)
    requires Inv(sys) && Back(sys) && PossibleRun(es) && Packer(pb) && forall e :: e in es ==> !e.Redial?
    ensures Back(After(sys, es, pb))
    decreases |es|
  {
    hide Back, Step, Inv, Packer;
    InvGood(sys.daemon, sys.host, sys.speaks);
    if es != [] {
      StepSafe(sys, es[0], pb);
      StepStaysBack(sys, es[0], pb);
      StaysBack(Step(sys, es[0], pb).0, es[1..], pb);
    }
  }

  // After the rejection the verb is not sent again, whatever happens, until the daemon dials a new link.
  lemma NeverAgainOnThisLink(sys: System, e: Event, es: seq<Event>, next: Event, pb: seq<byte> -> seq<byte>)
    requires Inv(sys) && Possible(e) && e.Ask? && sys.host.connected && !sys.speaks && e.fate == Delivered
    requires Fresh(sys.host).v2 != No && MakeRequest(Fresh(sys.host), e.region, e.delta).Verb?
    requires PossibleRun(es) && Packer(pb) && (forall x :: x in es ==> !x.Redial?) && Possible(next) && !next.Redial?
    ensures Inv(Step(sys, e, pb).0)
    ensures var later := After(Step(sys, e, pb).0, es, pb);
            && GoodState(later.daemon)
            && (Sends(later, next, pb) == [] || Sends(later, next, pb) == [OldVerb])
            && (next.Ask? && later.host.connected ==> Sends(later, next, pb) == [OldVerb])
  {
    hide Back, Step, Sends, Inv, Packer, Possible, PossibleRun, Capture, MakeRequest;
    InvGood(sys.daemon, sys.host, sys.speaks);
    StepSafe(sys, e, pb);
    FallsBack(sys, e, pb);
    var after := Step(sys, e, pb).0;
    StaysBack(after, es, pb);
    RunKeepsInv(after, es, pb);
    var later := After(after, es, pb);
    StepStaysBack(later, next, pb);
    InvGood(later.daemon, later.host, later.speaks);
  }

  // A new link asks again.
  lemma NewLinkAsks(sys: System, e: Event, pb: seq<byte> -> seq<byte>)
    requires Inv(sys) && Possible(e) && e.Ask?
    requires MakeRequest(Fresh(Dialled(sys.host)), e.region, e.delta).Verb?
    ensures var dialled := Step(sys, Redial, pb).0;
            var sent := Sends(dialled, e, pb);
            sent != [] && sent[0] == NewVerb(MakeRequest(Fresh(Dialled(sys.host)), e.region, e.delta).q)
  {
    hide MakeRequest, Capture;
  }

  // On no run is a daemon that knows the verb asked with the old one.
  lemma SpeakersAreAsked(es: seq<Event>, e: Event, pb: seq<byte> -> seq<byte>)
    requires PossibleRun(es) && Possible(e) && Packer(pb)
    ensures Inv(INITIAL)
    ensures var sys := After(INITIAL, es, pb);
            GoodState(sys.daemon) && (sys.speaks ==> OldVerb !in Sends(sys, e, pb))
  {
    hide MakeRequest, Inv, Sends, Step, GoodState, PossibleRun, Packer, Possible;
    InitialInv();
    RunKeepsInv(INITIAL, es, pb);
    var sys := After(INITIAL, es, pb);
    InvGood(sys.daemon, sys.host, sys.speaks);
    StepSafe(sys, e, pb);
    if sys.speaks {
      StepAsked(sys, e, pb);
    }
  }

  lemma InitialInv()
    ensures Inv(INITIAL)
  {
  }

  lemma StepAsked(sys: System, e: Event, pb: seq<byte> -> seq<byte>)
    requires Inv(sys) && Possible(e) && GoodState(sys.daemon) && Inv(Step(sys, e, pb).0) && sys.speaks
    ensures OldVerb !in Sends(sys, e, pb)
  {
    hide MakeRequest, Capture, Handle, GoodState, GoodScreen, Agrees, Step;
    if e.Ask? && sys.host.connected {
      SameSide(sys, e, pb);
    }
  }

  lemma SameSide(sys: System, e: Event, pb: seq<byte> -> seq<byte>)
    requires Possible(e) && GoodState(sys.daemon) && e.Ask? && sys.host.connected
    ensures Step(sys, e, pb).0.speaks == sys.speaks
    ensures Step(sys, e, pb).0.host.shotLink == Step(sys, e, pb).0.host.link
  {
    hide MakeRequest, Capture;
  }
}
