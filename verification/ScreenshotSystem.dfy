/**
 Host and daemon together: any run of captures, lost or discarded replies, reconnects and daemon
 restarts.  Every shot the host returns shows the screen the daemon captured for it.
 */
module ScreenshotSystem {
  import opened Bytes
  import opened Protocol
  import opened RowCodec
  import Predictor
  import Delta
  import DeltaEncoder
  import DeltaMeaning
  import opened Daemon
  import opened ScreenshotHost
  import DaemonProcess
  import FrameSpec
  import FrameCutting
  import StatusFrame
  import Bits
  import PB = PackBits

  // How a reply fares.  Garbled stands for anything the host discards without dropping the link.
  datatype Fate = Delivered | Garbled | LostBefore | LostAfter

  datatype Event =
    | Ask(screen: Screen, region: Region, delta: bool, memory: bool, fate: Fate)
    | Redial
    | LinkLost
    | Restart(speaks: bool)   // a new daemon process, of this or an older version; the old link goes with the old one

  // speaks: the daemon knows the verb SCREENSHOT2.
  datatype System = System(daemon: State, host: Host, speaks: bool)

  const INITIAL := System(State(NoFrame, 0), Host(false, 0, 0, Unknown, NoBase), true)

  function Short(n: int): int {
    (n + 0x8000) % 0x10000 - 0x8000
  }

  // The daemon reads decimal fields into shorts.  A minus sign stops the scan: it and every later field read as 0.
  function AsRead(q: Request): Request {
    if q.x < 0 then Request(0, 0, 0, 0, 0, 0)
    else if q.y < 0 then Request(Short(q.x), 0, 0, 0, 0, 0)
    else Request(Short(q.x), Short(q.y), Short(q.w), Short(q.h), q.flags, q.baseGen)
  }

  // "Screenshot failed", with the length that the daemon declares for it.
  const REFUSED: seq<byte> := [83, 99, 114, 101, 101, 110, 115, 104, 111, 116, 32, 102, 97, 105, 108, 101, 100]
  const REFUSED_LENGTH := 18

  // Its refusal, behind the status line.
  function RefusalLines(e: FrameCutting.LineEnd): seq<byte> {
    StatusFrame.HandWritten(e, true, REFUSED_LENGTH, REFUSED)
  }

  function ToAnswer(r: Reply, fate: Fate): Answer {
    match fate
    case LostBefore => Lost
    case LostAfter => Lost
    case Garbled => BadFrame
    case Delivered =>
      match r
      case Refused => Lost    // see RefusalIsLost
      case Image(w, h, depth, rb, clut, rect, enc, gen, payload) =>
        Image2(w, h, depth, rb, clut, rect.x, rect.y, rect.w, rect.h, enc, gen, payload)
  }

  // However it is cut, the reader takes a line end for the last character of the text and then waits in vain.
  lemma RefusalIsLost(e: FrameCutting.LineEnd, i: FrameSpec.Input)
    requires FrameCutting.Solid(i) && FrameCutting.Stream(i) == RefusalLines(e)
    ensures StatusAnswer(StatusFrame.Swallowed(i)) == ToAnswer(Refused, Delivered)
  {
    hide StatusFrame.Swallowed, StatusFrame.HandWritten, FrameCutting.Solid, FrameCutting.Stream;
    StatusFrame.HandWrittenSwallowed(e, i, true, REFUSED_LENGTH, REFUSED);
  }

  // The rejection of a daemon that does not know the verb: "Invalid command format", one character too short.
  lemma InvalidCommandIsTold(e: FrameCutting.LineEnd, i: FrameSpec.Input)
    requires FrameCutting.Solid(i)
    requires FrameCutting.Stream(i)
          == StatusFrame.HandWritten(e, true, 21, INVALID_COMMAND + [32, 102, 111, 114, 109, 97, 116])
    ensures StatusAnswer(StatusFrame.Swallowed(i)) == Status(true)
    ensures StatusFrame.Swallowed(i).rest == FrameCutting.EMPTY
  {
    hide StatusFrame.Swallowed, StatusFrame.HandWritten, FrameCutting.Solid, FrameCutting.Stream;
    var text := INVALID_COMMAND + [32, 102, 111, 114, 109, 97, 116];
    StatusFrame.HandWrittenSwallowed(e, i, true, 21, text);
    assert INVALID_COMMAND <= text[..21];
    FrameCutting.NothingLeft(StatusFrame.Swallowed(i).rest);
  }

  ghost predicate Possible(e: Event) {
    e.Ask? ==> GoodScreen(e.screen)
  }

  // What a daemon without the verb makes of it.
  function Rejected(fate: Fate): Answer {
    match fate
    case LostBefore => Lost
    case LostAfter => Lost
    case Garbled => BadFrame
    case Delivered => Status(true)    // see InvalidCommandIsTold
  }

  function Step(sys: System, e: Event, pb: seq<byte> -> seq<byte>): (System, Shot)
    requires Possible(e) && GoodState(sys.daemon)
  {
    var System(d, h, speaks) := sys;
    match e
    case Redial => (System(d, Dialled(h), speaks), NoShot)
    case LinkLost => (System(d, h.(connected := false), speaks), NoShot)
    case Restart(other) => (System(State(NoFrame, 0), h.(connected := false), other), NoShot)
    case Ask(screen, region, delta, memory, fate) =>
      if !h.connected then (sys, NoShot)
      else
        var h1 := Fresh(h);
        var v := MakeRequest(h1, region, delta);
        if h1.v2 == No || v.NoVerb? then (System(d, h1, speaks), NoShot)
        else if !speaks then
          var (h2, shot) := Handle(h1, Rejected(fate));
          (System(d, h2, speaks), shot)
        else
          var (d1, reply) := Capture(d, screen, AsRead(v.q), memory, pb);
          var (h2, shot) := Handle(h1, ToAnswer(reply, fate));
          (System(if fate == LostBefore then d else d1, h2, speaks), shot)
  }

  // The screenshot requests that one event sends: the verb, or the old one, or the old one after the verb.
  datatype Asking = NewVerb(q: Request) | OldVerb

  function Sends(sys: System, e: Event, pb: seq<byte> -> seq<byte>): seq<Asking>
    requires Possible(e) && GoodState(sys.daemon)
  {
    if !e.Ask? || !sys.host.connected then []
    else
      var h := Fresh(sys.host);
      var v := MakeRequest(h, e.region, e.delta);
      if h.v2 == No then [OldVerb]
      else if v.NoVerb? then []
      else
        var (after, shot) := Step(sys, e, pb);
        [NewVerb(v.q)] + if shot.NoShot? && after.host.v2 == No && after.host.connected then [OldVerb] else []
  }

  /** The invariant */

  // A base the host would name now is the daemon's retained frame, or is older than it.
  ghost predicate Agrees(d: State, h: Host) {
    h.connected && h.shotLink == h.link && h.base.Base? ==>
      && 0 < h.base.gen <= d.gen
      && h.base.rowBytes == RegionRowBytes(h.base.width, h.base.depth)
      && (h.base.gen == d.gen ==>
          d.prev == Retained(h.base.width, h.base.height, h.base.depth, h.base.rowBytes, h.base.pixels))
  }

  ghost predicate Inv(sys: System) {
    && GoodState(sys.daemon) && (sys.daemon.prev.Retained? <==> sys.daemon.gen > 0)
    && sys.host.shotLink <= sys.host.link && Agrees(sys.daemon, sys.host) && Knows(sys.host, sys.speaks)
    && (!sys.speaks ==> sys.daemon.prev.NoFrame?)
  }

  // What the host has learned on this link is so.
  ghost predicate Knows(h: Host, speaks: bool) {
    h.connected && h.shotLink == h.link ==>
      (h.v2 == Yes ==> speaks) && (h.v2 == No ==> !speaks) && (h.base.Base? ==> speaks)
  }

  // The shot shows rectangle r of the screen.
  ghost predicate Shows(shot: Shot, s: Screen, r: Rect)
    requires GoodScreen(s) && Fits(s, r)
  {
    && shot == Shot(r.w, r.h, RegionRowBytes(r.w, s.depth), s.depth, s.clut, Pixels(s, r))
    && (IsFull(s, r) ==> shot.rowBytes == s.rowBytes && shot.pixels == s.pixels)
  }

  /** Decoding what the daemon encodes */

  lemma {:induction false} WholeCrop(pixels: seq<byte>, rb: nat, rows: nat)
    requires Area(rows, rb) <= |pixels|
    ensures Crop(pixels, rb, 0, 0, rb, rows) == Slice(pixels, 0, Area(rows, rb))
    decreases rows
  {
    if rows > 0 {
      WholeCrop(pixels, rb, rows - 1);
      RowSlice(pixels, rb, rows - 1);
      SliceAll(Row(pixels, rb, rows - 1));
    }
  }

  // Without padding the whole rectangle is the pixmap itself.
  lemma FullPixels(s: Screen, r: Rect)
    requires GoodScreen(s) && Fits(s, r) && IsFull(s, r) && RegionRowBytes(s.width, s.depth) == s.rowBytes
    ensures Pixels(s, r) == s.pixels
  {
    WholeCrop(s.pixels, s.rowBytes, s.height);
    SliceAll(s.pixels);
  }

  function DaemonImage(st: State, s: Screen, q: Request, r: Rect, pb: seq<byte> -> seq<byte>): (a: Answer)
    requires GoodScreen(s) && Fits(s, r) && GoodState(st)
    ensures a.Image2?
  {
    Image2(s.width, s.height, s.depth, s.rowBytes, s.clut, r.x, r.y, r.w, r.h, Encoding(st, s, q, r),
           if IsFull(s, r) then st.gen + 1 else st.gen, Payload(st, s, q, r, pb))
  }

  lemma SubBounds(s: Screen, r: Rect)
    requires GoodScreen(s) && Fits(s, r)
    ensures 0 < RegionRowBytes(r.w, s.depth) <= s.rowBytes < 0x4000
  {
    CropFits(s, r);
    Positive(r.w, s.depth);
  }

  // The payload of a capture that is no delta, and how the host sets about it.
  lemma PlainImage(st: State, s: Screen, q: Request, r: Rect, pb: seq<byte> -> seq<byte>, b: Base)
    requires GoodScreen(s) && Fits(s, r) && GoodState(st) && !WantsDelta(st, s, q, r)
    ensures var a, sub, f := DaemonImage(st, s, q, r, pb), RegionRowBytes(r.w, s.depth), Pixels(s, r);
            && 0 < sub <= s.rowBytes < 0x4000 && |f| == Area(r.h, sub) && 0 < r.h == a.oh
            && SubRowBytes(a) == (if IsFull(s, r) then s.rowBytes else sub)
            && a.enc in {0, 1, 3}
            && a.payload == (if a.enc == 0 then f else if a.enc == 1 then PackedFrame(pb, f, sub, r.h)
                             else PackedFrame(pb, Predictor.Up(f, sub), sub, r.h))
            && DecodePayload(b, a) == (match Predictor.Decode(a.enc, a.payload, r.h, SubRowBytes(a))
                                       case Pixels(data) => Good(data)
                                       case _ => BadPayload)
  {
    SubBounds(s, r);
  }

  // A capture that is no delta decodes to its rectangle, unless a whole screen has padded rows.
  lemma PlainDecodes(st: State, s: Screen, q: Request, r: Rect, pb: seq<byte> -> seq<byte>, b: Base)
    requires GoodScreen(s) && Fits(s, r) && GoodState(st) && Packer(pb) && !WantsDelta(st, s, q, r)
    requires IsFull(s, r) ==> RegionRowBytes(s.width, s.depth) == s.rowBytes
    ensures var a := DaemonImage(st, s, q, r, pb); DecodePayload(b, a) == Good(Pixels(s, r))
  {
    hide GoodScreen, Fits, GoodState, Packer, Pixels, Predictor.Decode, Predictor.Up, PackedFrame, Area, RegionRowBytes,
      SubRowBytes, DaemonImage, DecodePayload, Encoding, Payload, WantsDelta;
    PlainImage(st, s, q, r, pb, b);
    Predictor.RoundTrip(pb, Pixels(s, r), r.h, RegionRowBytes(r.w, s.depth));
  }

  // A delta against the daemon's retained frame decodes to the screen.
  lemma DeltaDecodes(st: State, s: Screen, q: Request, r: Rect, pb: seq<byte> -> seq<byte>, b: Base)
    requires GoodScreen(s) && Fits(s, r) && GoodState(st) && Packer(pb) && WantsDelta(st, s, q, r)
    requires b.Base? && b.gen == st.gen && st.prev == Retained(b.width, b.height, b.depth, b.rowBytes, b.pixels)
    ensures var a := DaemonImage(st, s, q, r, pb); DecodePayload(b, a) == Good(s.pixels)
  {
    hide Delta.Parse, Delta.Apply, Delta.Outcome, DeltaEncoder.DeltaPayload, Crop, PackedFrame, Predictor.Up,
        Predictor.Decode, Packer;
    DeltaMeaning.DeltaRoundTrip(pb, s.pixels, st.prev.pixels, s.rowBytes, s.height);
    var payload := DeltaEncoder.DeltaPayload(pb, s.pixels, st.prev.pixels, s.rowBytes, s.height);
    RunsWhole(payload, 0, s.rowBytes);
    Delta.OutcomeOfWhole(b.pixels, s.rowBytes, s.height, Delta.Parse(payload, 0, s.rowBytes).runs);
  }

  /** A whole screen whose rows are padded */

  lemma PaddedRows(payload: seq<byte>, cuts: seq<nat>, rows: seq<seq<byte>>, n: nat, rb: nat)
    requires RowsAt(payload, cuts, rows, n) && rows != [] && n != rb
    ensures Unpacked(payload, cuts[0], |rows|, rb).Err?
  {
    assert RowAt(payload, cuts[0], rows[0], cuts[0 + 1]);
    var one := OneRow(payload, cuts[0], rb);
    if one.Ok? {
      OneRowExact(payload, cuts[0], rb, one.data, one.end);
      SameEnd(payload, cuts[0], rows[0], cuts[1], one.data, one.end);
    }
  }

  lemma SameEnd(payload: seq<byte>, off: nat, a: seq<byte>, end: nat, b: seq<byte>, end': nat)
    requires RowAt(payload, off, a, end) && RowAt(payload, off, b, end')
    ensures a == b
  {
    hide PB.IsPacked, Slice;
    assert Prefix(end - off - 2) == Prefix(end' - off - 2);
    assert end == end';
    PB.PackedUnique(Slice(payload, off + 2, end), a, b);
  }

  lemma PackedPadded(pb: seq<byte> -> seq<byte>, f: seq<byte>, n: nat, rows: nat, rb: nat)
    requires Packer(pb) && n < 0x4000 && Area(rows, n) <= |f| && rows > 0 && n != rb
    ensures Unpacked(PackedFrame(pb, f, n, rows), 0, rows, rb).Err?
  {
    hide Packer, PackedFrame, Area, Unpacked, Flat;
    var cuts, done := FrameWritten(pb, f, n, rows);
    PaddedRows(PackedFrame(pb, f, n, rows), cuts, done, n, rb);
  }

  lemma {:induction false} AreaStrict(rows: nat, n: nat, rb: nat)
    requires rows > 0 && n < rb
    ensures Area(rows, n) < Area(rows, rb)
    decreases rows
  {
    if rows > 1 { AreaStrict(rows - 1, n, rb); }
  }

  // The daemon packs such a screen without the padding, and the host reads it as if it were there.
  lemma PaddedFails(st: State, s: Screen, q: Request, r: Rect, pb: seq<byte> -> seq<byte>, b: Base)
    requires GoodScreen(s) && Fits(s, r) && GoodState(st) && Packer(pb) && !WantsDelta(st, s, q, r)
    requires IsFull(s, r) && RegionRowBytes(s.width, s.depth) != s.rowBytes
    ensures var a := DaemonImage(st, s, q, r, pb); DecodePayload(b, a) == BadPayload
  {
    hide GoodScreen, Fits, GoodState, Packer, Pixels, Predictor.Up, PackedFrame, Area, RegionRowBytes,
      SubRowBytes, DaemonImage, DecodePayload, Encoding, Payload, WantsDelta, Unpacked;
    PlainImage(st, s, q, r, pb, b);
    var sub, f := RegionRowBytes(r.w, s.depth), Pixels(s, r);
    AreaStrict(r.h, sub, s.rowBytes);
    PackedPadded(pb, f, sub, r.h, s.rowBytes);
    PackedPadded(pb, Predictor.Up(f, sub), sub, r.h, s.rowBytes);
  }

  /** One step */

  // Only a host that holds the daemon's frame can get a delta, and then only without row padding.
  lemma DeltaMeansBase(d: State, h: Host, s: Screen, region: Region, delta: bool, r: Rect)
    requires Inv(System(d, h, true)) && h.connected && h.shotLink == h.link
    requires MakeRequest(h, region, delta).Verb? && WantsDelta(d, s, AsRead(MakeRequest(h, region, delta).q), r)
    ensures h.base.Base? && h.base.gen == d.gen
    ensures d.prev == Retained(h.base.width, h.base.height, h.base.depth, h.base.rowBytes, h.base.pixels)
    ensures RegionRowBytes(s.width, s.depth) == s.rowBytes
  {
  }

  // What the host makes of the daemon's image, and the base it keeps.
  lemma DeliveredImage(d: State, h: Host, s: Screen, region: Region, delta: bool, r: Rect, pb: seq<byte> -> seq<byte>)
    requires GoodScreen(s) && Fits(s, r) && Packer(pb) && Inv(System(d, h, true)) && h.connected && h.shotLink == h.link
    requires MakeRequest(h, region, delta).Verb?
    ensures var q := AsRead(MakeRequest(h, region, delta).q); var a := DaemonImage(d, s, q, r, pb);
            && (if IsFull(s, r) && RegionRowBytes(s.width, s.depth) != s.rowBytes
                then DecodePayload(h.base, a) == BadPayload
                else DecodePayload(h.base, a) == Good(Pixels(s, r)) && (IsFull(s, r) ==> Pixels(s, r) == s.pixels))
  {
    var q := AsRead(MakeRequest(h, region, delta).q);
    hide DaemonImage, DecodePayload, Pixels, AsRead, MakeRequest, GoodScreen, Fits, Packer, Payload, Encoding;
    if WantsDelta(d, s, q, r) {
      DeltaMeansBase(d, h, s, region, delta, r);
      DeltaDecodes(d, s, q, r, pb, h.base);
      FullPixels(s, r);
    } else if IsFull(s, r) && RegionRowBytes(s.width, s.depth) != s.rowBytes {
      PaddedFails(d, s, q, r, pb, h.base);
    } else {
      PlainDecodes(d, s, q, r, pb, h.base);
      if IsFull(s, r) { FullPixels(s, r); }
    }
  }

  lemma FreshInv(d: State, h: Host, speaks: bool)
    requires Inv(System(d, h, speaks)) && h.connected
    ensures Inv(System(d, Fresh(h), speaks)) && Fresh(h).connected && Fresh(h).shotLink == Fresh(h).link
  {
  }

  // The rectangle the daemon captures for a request of the host.
  function Captured(s: Screen, h: Host, region: Region, delta: bool): Resolved
    requires MakeRequest(h, region, delta).Verb?
  {
    Resolve(s, AsRead(MakeRequest(h, region, delta).q))
  }

  // The daemon after capturing rectangle r: a whole screen is retained under a new generation.
  function Advanced(d: State, s: Screen, r: Rect): State {
    if IsFull(s, r) then State(Retained(s.width, s.height, s.depth, s.rowBytes, s.pixels), d.gen + 1) else d
  }

  // A capture is refused and changes nothing, or yields the image of the resolved rectangle.
  lemma CaptureCases(d: State, s: Screen, q: Request, memory: bool, pb: seq<byte> -> seq<byte>)
    requires GoodScreen(s) && GoodState(d)
    ensures var (d1, reply) := Capture(d, s, q, memory, pb);
            || (d1 == d && reply == Refused)
            || (&& memory && Area(s.height, s.rowBytes) <= MAX_SHOT_BYTES && Resolve(s, q).On?
                && var r := Resolve(s, q).rect;
                   Fits(s, r) && d1 == Advanced(d, s, r) && ToAnswer(reply, Delivered) == DaemonImage(d, s, q, r, pb))
    ensures memory && Area(s.height, s.rowBytes) <= MAX_SHOT_BYTES && Resolve(s, q).On? ==>
              Capture(d, s, q, memory, pb).1.Image?
  {
    if Resolve(s, q).On? { ResolvedFits(s, q); }
  }

  lemma AdvancedInv(d: State, h: Host, s: Screen, r: Rect)
    requires Inv(System(d, h, true)) && GoodScreen(s)
    ensures Inv(System(Advanced(d, s, r), h, true))
  {
  }

  // A delivered image: the host keeps what the daemon retained, or falls behind it.
  lemma DeliveredSafe(d: State, h: Host, s: Screen, region: Region, delta: bool, r: Rect, pb: seq<byte> -> seq<byte>)
    requires GoodScreen(s) && Fits(s, r) && Packer(pb) && Inv(System(d, h, true)) && h.connected && h.shotLink == h.link
    requires MakeRequest(h, region, delta).Verb?
    ensures var a := DaemonImage(d, s, AsRead(MakeRequest(h, region, delta).q), r, pb);
            && var (h2, shot) := Handle(h, a);
               && Inv(System(Advanced(d, s, r), h2, true))
               && !shot.Raised? && (shot.Shot? ==> Shows(shot, s, r))
               && (InRange(a) ==> (shot.Shot? <==> !IsFull(s, r) || RegionRowBytes(s.width, s.depth) == s.rowBytes))
  {
    hide DecodePayload, Pixels, AsRead, MakeRequest, Payload, Encoding, Area, Packer, RegionRowBytes, InRange,
        GoodScreen, Fits,
      DaemonImage, Inv, Handle;
    var q := AsRead(MakeRequest(h, region, delta).q);
    InvGood(d, h, true);
    var a := DaemonImage(d, s, q, r, pb);
    ImageFields(d, s, q, r, pb);
    DeliveredImage(d, h, s, region, delta, r, pb);
    HandleImage(h, a);
    AdvancedInv(d, h, s, r);
    DownSafe(d, h, s, r);
    KeptInv(d, h, s, r);
  }

  lemma ImageFields(d: State, s: Screen, q: Request, r: Rect, pb: seq<byte> -> seq<byte>)
    requires GoodScreen(s) && Fits(s, r) && GoodState(d)
    ensures var a := DaemonImage(d, s, q, r, pb);
            && a.width == s.width && a.height == s.height && a.rowBytes == s.rowBytes && a.depth == s.depth
            && a.clut == s.clut
            && a.ow == r.w && a.oh == r.h && (Whole(a) <==> IsFull(s, r)) && a.gen == Advanced(d, s, r).gen
  {
  }

  lemma HandleImage(h: Host, a: Answer)
    requires a.Image2?
    ensures var d := DecodePayload(h.base, a); var h1 := h.(v2 := Yes);
            Handle(h, a) ==
            if !InRange(a) then (h.(connected := false), NoShot)
            else if d == NoMatchingBase then (h1.(connected := false), NoShot)
            else if d == BadPayload then (h1, NoShot)
            else if d == Crash then (h1, Raised)
            else if Whole(a) then
              (if a.gen > 0 then h1.(base := Base(a.gen, a.width, a.height, a.depth, a.rowBytes, d.pixels)) else h1,
               Shot(a.width, a.height, a.rowBytes, a.depth, a.clut, d.pixels))
            else (h1, Shot(a.ow, a.oh, RegionRowBytes(a.ow, a.depth), a.depth, a.clut, d.pixels))
  {
  }

  // The host may keep the frame the daemon has just retained, or learn only that the daemon speaks the verb.
  lemma KeptInv(d: State, h: Host, s: Screen, r: Rect)
    requires Inv(System(d, h, true)) && GoodScreen(s)
    ensures Inv(System(Advanced(d, s, r), h.(v2 := Yes), true))
    ensures IsFull(s, r) && RegionRowBytes(s.width, s.depth) == s.rowBytes ==>
              Inv(System(Advanced(d, s, r),
                         h.(v2 := Yes, base := Base(d.gen + 1, s.width, s.height, s.depth, s.rowBytes, s.pixels)),
                         true))
    ensures Inv(System(Advanced(d, s, r), h.(v2 := Yes, connected := false), true))
    ensures Inv(System(Advanced(d, s, r), h.(connected := false), true))
  {
  }

  // The invariant does not depend on a link that is down.
  lemma DownSafe(d: State, h: Host, s: Screen, r: Rect)
    requires Inv(System(d, h, true)) && GoodScreen(s)
    ensures Inv(System(Advanced(d, s, r), h.(connected := false), true)) && Inv(System(d, h.(connected := false), true))
  {
  }

  ghost predicate Outcome(d: State, h: Host, e: Event, d1: State, h2: Host, shot: Shot)
    requires e.Ask? && GoodScreen(e.screen) && MakeRequest(h, e.region, e.delta).Verb?
  {
    && Inv(System(d1, h2, true)) && !shot.Raised?
    && (shot.Shot? ==> Captured(e.screen, h, e.region, e.delta).On? &&
                       var r := Captured(e.screen, h, e.region, e.delta).rect;
                       Fits(e.screen, r) && Shows(shot, e.screen, r))
  }

  lemma AskSafe(d: State, h: Host, e: Event, pb: seq<byte> -> seq<byte>)
    requires e.Ask? && GoodScreen(e.screen) && Packer(pb)
    requires Inv(System(d, h, true)) && h.connected && h.shotLink == h.link
    requires MakeRequest(h, e.region, e.delta).Verb?
    ensures var q := AsRead(MakeRequest(h, e.region, e.delta).q);
            var (d1, reply) := Capture(d, e.screen, q, e.memory, pb);
            && var (h2, shot) := Handle(h, ToAnswer(reply, e.fate));
               Outcome(d, h, e, if e.fate == LostBefore then d else d1, h2, shot)
  {
    hide DecodePayload, Pixels, AsRead, MakeRequest, Payload, Encoding, Resolve, Area, Packer, RegionRowBytes,
        GoodScreen,
      Fits, Inv, Capture, DaemonImage, Shows;
    var q := AsRead(MakeRequest(h, e.region, e.delta).q);
    InvGood(d, h, true);
    CaptureCases(d, e.screen, q, e.memory, pb);
    var res := Resolve(e.screen, q);
    if res.On? {
      ResolvedFits(e.screen, q);
      AdvancedInv(d, h, e.screen, res.rect);
      DownSafe(d, h, e.screen, res.rect);
      DeliveredSafe(d, h, e.screen, e.region, e.delta, res.rect, pb);
    } else {
      DownSafe(d, h, e.screen, Rect(0, 0, 0, 0));
    }
  }

  lemma InvGood(d: State, h: Host, speaks: bool)
    requires Inv(System(d, h, speaks))
    ensures GoodState(d)
  {
  }

  // A refused capture costs the link.
  lemma RefusedDrops(sys: System, e: Event, pb: seq<byte> -> seq<byte>)
    requires Inv(sys) && sys.speaks && Possible(e) && e.Ask? && sys.host.connected && e.fate == Delivered
    requires var h := Fresh(sys.host);
             MakeRequest(h, e.region, e.delta).Verb?
             && Capture(sys.daemon, e.screen, AsRead(MakeRequest(h, e.region, e.delta).q), e.memory, pb).1 == Refused
    ensures Step(sys, e, pb).1 == NoShot && !Step(sys, e, pb).0.host.connected
  {
    hide AsRead, MakeRequest, Capture, GoodScreen;
  }

  lemma RejectedSafe(d: State, h: Host, fate: Fate)
    requires Inv(System(d, h, false)) && h.connected && h.shotLink == h.link
    ensures Inv(System(d, Handle(h, Rejected(fate)).0, false)) && Handle(h, Rejected(fate)).1.NoShot?
  {
  }

  // Every step keeps the invariant, and a shot shows the rectangle the daemon captured from the screen.
  lemma StepSafe(sys: System, e: Event, pb: seq<byte> -> seq<byte>)
    requires Inv(sys) && Possible(e) && Packer(pb)
    ensures Inv(Step(sys, e, pb).0) && !Step(sys, e, pb).1.Raised?
    ensures Step(sys, e, pb).1.Shot? ==> e.Ask? && Correct(Step(sys, e, pb).1, sys, e)
  {
    hide DecodePayload, AsRead, Payload, Resolve, Area, Packer, RegionRowBytes, GoodScreen, Capture, Shows, Handle;
    if e.Ask? && sys.host.connected {
      FreshInv(sys.daemon, sys.host, sys.speaks);
      if MakeRequest(Fresh(sys.host), e.region, e.delta).Verb? {
        if sys.speaks {
          AskSafe(sys.daemon, Fresh(sys.host), e, pb);
        } else {
          RejectedSafe(sys.daemon, Fresh(sys.host), e.fate);
        }
      }
    }
  }

  // The shot is the picture of the rectangle that the daemon made of the request, on the screen as it was captured.
  ghost predicate Correct(shot: Shot, sys: System, e: Event)
    requires e.Ask? && GoodScreen(e.screen)
  {
    var h := Fresh(sys.host);
    && MakeRequest(h, e.region, e.delta).Verb? && Captured(e.screen, h, e.region, e.delta).On?
    && var r := Captured(e.screen, h, e.region, e.delta).rect;
       Fits(e.screen, r) && Shows(shot, e.screen, r)
  }

  /** Whole runs */

  ghost predicate PossibleRun(es: seq<Event>) {
    forall i :: 0 <= i < |es| ==> Possible(es[i])
  }

  // The state after a run that starts at sys.
  function After(sys: System, es: seq<Event>, pb: seq<byte> -> seq<byte>): System
    requires Inv(sys) && PossibleRun(es) && Packer(pb)
    decreases |es|
  {
    if es == [] then sys
    else
      StepSafe(sys, es[0], pb);
      After(Step(sys, es[0], pb).0, es[1..], pb)
  }

  lemma {:induction false} RunKeepsInv(sys: System, es: seq<Event>, pb: seq<byte> -> seq<byte>)
    requires Inv(sys) && PossibleRun(es) && Packer(pb)
    ensures Inv(After(sys, es, pb))
    decreases |es|
  {
    if es != [] {
      StepSafe(sys, es[0], pb);
      RunKeepsInv(Step(sys, es[0], pb).0, es[1..], pb);
    }
  }

  // After any run whatever, the next shot the host returns shows the screen it was captured from.
  lemma EveryShotIsRight(es: seq<Event>, e: Event, pb: seq<byte> -> seq<byte>)
    requires PossibleRun(es) && Possible(e) && Packer(pb)
    ensures Inv(INITIAL)
    ensures var sys := After(INITIAL, es, pb);
            GoodState(sys.daemon) && !Step(sys, e, pb).1.Raised? &&
            (Step(sys, e, pb).1.Shot? ==> e.Ask? && Correct(Step(sys, e, pb).1, sys, e))
  {
    RunKeepsInv(INITIAL, es, pb);
    StepSafe(After(INITIAL, es, pb), e, pb);
  }

  // A request for the whole screen never yields anything but the screen, however the reply was encoded.
  lemma WholeScreenIsTheScreen(es: seq<Event>, e: Event, pb: seq<byte> -> seq<byte>)
    requires PossibleRun(es) && Possible(e) && Packer(pb) && e.Ask? && e.region == WholeScreen
    ensures Inv(INITIAL)
    ensures var sys := After(INITIAL, es, pb);
            GoodState(sys.daemon) &&
            var shot := Step(sys, e, pb).1;
            shot.Shot? ==>
                shot == Shot(e.screen.width, e.screen.height, e.screen.rowBytes, e.screen.depth, e.screen.clut,
                             e.screen.pixels)
  {
    hide Step, GoodScreen, Packer, PossibleRun, Inv, GoodState, MakeRequest;
    EveryShotIsRight(es, e, pb);
    var sys := After(INITIAL, es, pb);
    if Step(sys, e, pb).1.Shot? {
      WholeResolves(e.screen, Fresh(sys.host), e.delta);
    }
  }

  lemma WholeResolves(s: Screen, h: Host, delta: bool)
    requires GoodScreen(s)
    ensures Captured(s, h, WholeScreen, delta) == On(Rect(0, 0, s.width, s.height))
  {
  }

  // On any run the daemon is asked for a delta only when its rows carry no padding, and then the delta fits the
  // buffer that is sized for rows without padding.
  lemma DeltaBufferFits(es: seq<Event>, e: Event, pb: seq<byte> -> seq<byte>)
    requires PossibleRun(es) && Packer(pb) && e.Ask? && GoodScreen(e.screen)
    ensures Inv(INITIAL)
    ensures var sys, s := After(INITIAL, es, pb), e.screen;
            var h := Fresh(sys.host);
            GoodState(sys.daemon) &&
            (sys.host.connected && MakeRequest(h, e.region, e.delta).Verb? && Captured(s, h, e.region, e.delta).On? ==>
               var q, r := AsRead(MakeRequest(h, e.region, e.delta).q), Captured(s, h, e.region, e.delta).rect;
               Fits(s, r) &&
               (WantsDelta(sys.daemon, s, q, r) ==>
                  RegionRowBytes(s.width, s.depth) == s.rowBytes && |Payload(sys.daemon, s, q, r, pb)| <= OutCap(s, r)))
  {
    RunKeepsInv(INITIAL, es, pb);
    var sys, s := After(INITIAL, es, pb), e.screen;
    var h := Fresh(sys.host);
    InvGood(sys.daemon, sys.host, sys.speaks);
    if sys.host.connected && MakeRequest(h, e.region, e.delta).Verb? && Captured(s, h, e.region, e.delta).On? {
      FreshInv(sys.daemon, sys.host, sys.speaks);
      var q, r := AsRead(MakeRequest(h, e.region, e.delta).q), Captured(s, h, e.region, e.delta).rect;
      ResolvedFits(s, q);
      if WantsDelta(sys.daemon, s, q, r) {
        assert sys.speaks;
        DeltaMeansBase(sys.daemon, h, s, e.region, e.delta, r);
        DeltaFits(sys.daemon, s, q, r, pb);
      }
    }
  }

  lemma DeltaFits(d: State, s: Screen, q: Request, r: Rect, pb: seq<byte> -> seq<byte>)
    requires GoodScreen(s) && Fits(s, r) && GoodState(d) && Packer(pb)
    requires WantsDelta(d, s, q, r) && RegionRowBytes(s.width, s.depth) == s.rowBytes
    ensures |Payload(d, s, q, r, pb)| <= OutCap(s, r)
  {
    hide Packer, DeltaEncoder.Emitted, Area;
    EmittedSize(pb, s.pixels, d.prev.pixels, s.rowBytes, s.height);
  }

  lemma FreshSpeaks(sys: System)
    requires Inv(sys) && sys.speaks && sys.host.connected
    ensures Fresh(sys.host).v2 != No && GoodState(sys.daemon)
  {
  }

  // When a delivered reply yields a shot: exactly when the rectangle is part of the screen, or the screen's rows
  // carry no padding.
  lemma DeliveredExactly(sys: System, e: Event, pb: seq<byte> -> seq<byte>)
    requires Inv(sys) && sys.speaks && Possible(e) && Packer(pb) && e.Ask? && sys.host.connected
    requires e.memory && e.fate == Delivered && Area(e.screen.height, e.screen.rowBytes) <= MAX_SHOT_BYTES
    requires var h := Fresh(sys.host);
             MakeRequest(h, e.region, e.delta).Verb? && Captured(e.screen, h, e.region, e.delta).On?
    ensures var r := Captured(e.screen, Fresh(sys.host), e.region, e.delta).rect;
            Step(sys, e, pb).1.Shot? <==>
            !IsFull(e.screen, r) || RegionRowBytes(e.screen.width, e.screen.depth) == e.screen.rowBytes
  {
    hide DecodePayload, Pixels, AsRead, MakeRequest, Payload, Encoding, Area, Packer, RegionRowBytes, GoodScreen, Fits,
      Shows, Capture, Inv, WantsDelta, Handle;
    var d, h := sys.daemon, Fresh(sys.host);
    FreshInv(d, sys.host, sys.speaks);
    InvGood(d, h, sys.speaks);
    FreshSpeaks(sys);
    var q := AsRead(MakeRequest(h, e.region, e.delta).q);
    ResolvedFits(e.screen, q);
    var r := Resolve(e.screen, q).rect;
    if WantsDelta(d, e.screen, q, r) { DeltaMeansBase(d, h, e.screen, e.region, e.delta, r); }
    CaptureCases(d, e.screen, q, e.memory, pb);
    PayloadInRange(d, e.screen, q, r, pb);
    DeliveredSafe(d, h, e.screen, e.region, e.delta, r, pb);
  }

  /** The declared size stays below the host's cap */

  lemma PayloadInRange(d: State, s: Screen, q: Request, r: Rect, pb: seq<byte> -> seq<byte>)
    requires GoodScreen(s) && Fits(s, r) && GoodState(d) && Packer(pb) && Area(s.height, s.rowBytes) <= MAX_SHOT_BYTES
    requires WantsDelta(d, s, q, r) ==> RegionRowBytes(s.width, s.depth) == s.rowBytes
    ensures InRange(DaemonImage(d, s, q, r, pb))
  {
    SubBounds(s, r);
    var sub := RegionRowBytes(r.w, s.depth);
    CapBound(r.h, sub, s.height, s.rowBytes);
    if WantsDelta(d, s, q, r) {
      EmittedSize(pb, s.pixels, d.prev.pixels, s.rowBytes, s.height);
    } else {
      FrameSize(pb, Pixels(s, r), sub, r.h);
      FrameSize(pb, Predictor.Up(Pixels(s, r), sub), sub, r.h);
      DaemonProcess.RawFits(r.h, sub);
    }
  }

  lemma CapBound(rows: nat, n: nat, height: nat, rb: nat)
    requires rows <= height < 0x8000 && n <= rb && Area(height, rb) <= MAX_SHOT_BYTES
    ensures Area(rows, DeltaEncoder.RowCap(n)) <= Area(height, DeltaEncoder.RowCap(rb)) <= MAX_DECLARED
  {
    hide Area;
    AreaProduct(rows, DeltaEncoder.RowCap(n));
    AreaProduct(height, DeltaEncoder.RowCap(rb));
    AreaProduct(height, rb);
    Monotone(rows, DeltaEncoder.RowCap(n), height, DeltaEncoder.RowCap(rb));
    CapTotal(height, rb, rb / 64);
  }

  lemma CapTotal(height: nat, rb: nat, k: nat)
    requires 64 * k <= rb
    ensures height * (rb + k + 8) <= height * rb + height * rb / 64 + 8 * height
  {
    Monotone(height, 64 * k, height, rb);
    Distribute(height, rb, k, 8);
    Rotate64(height, k);
  }

  lemma Rotate64(h: nat, k: nat)
    ensures h * (64 * k) == 64 * (h * k)
  {
  }

  lemma Distribute(h: nat, a: nat, b: nat, c: nat)
    ensures h * (a + b + c) == h * a + h * b + h * c
  {
  }

  lemma Monotone(a: nat, b: nat, c: nat, d: nat)
    requires a <= c && b <= d
    ensures a * b <= c * d
  {
    Scale(a, c, b);
    Scale(b, d, c);
  }

  lemma {:induction false} FrameSize(pb: seq<byte> -> seq<byte>, f: seq<byte>, n: nat, rows: nat)
    requires Packer(pb) && n < 0x4000 && Area(rows, n) <= |f|
    ensures |PackedFrame(pb, f, n, rows)| <= Area(rows, DeltaEncoder.RowCap(n))
    decreases rows
  {
    hide Packer, Packed, Row;
    PackedFrameStep(pb, f, n, rows);
    if rows > 0 {
      FrameSize(pb, f, n, rows - 1);
      PackedSize(pb, Row(f, n, rows - 1));
    }
  }

  lemma {:induction false} EmittedSize(pb: seq<byte> -> seq<byte>, cur: seq<byte>, prev: seq<byte>, rb: nat, y: nat)
    requires Packer(pb) && rb < 0x4000 && Area(y, rb) <= |cur| && Area(y, rb) <= |prev|
    ensures |DeltaEncoder.Output(DeltaEncoder.Emitted(pb, cur, prev, rb, y))| <= Area(y, DeltaEncoder.RowCap(rb))
    decreases y
  {
    hide *;
    AreaFirst(DeltaEncoder.RowCap(rb));
    if y == 0 {
      EmittedNone(pb, cur, prev, rb);
    } else {
      RowFits(y - 1, y, DeltaEncoder.RowCap(rb));
      DeltaEncoder.EmittedStep(pb, cur, prev, rb, y - 1);
      EmittedSize(pb, cur, prev, rb, y - 1);
      var row, was := Row(cur, rb, y - 1), Row(prev, rb, y - 1);
      DeltaEncoder.RowRoom(pb, Bits.BytesXor(row, was));
      NextSize(pb, DeltaEncoder.Emitted(pb, cur, prev, rb, y - 1), y - 1, row, was);
    }
  }

  lemma EmittedNone(pb: seq<byte> -> seq<byte>, cur: seq<byte>, prev: seq<byte>, rb: nat)
    ensures Area(0, rb) == 0 && DeltaEncoder.Output(DeltaEncoder.Emitted(pb, cur, prev, rb, 0)) == []
  {
  }

  lemma NextSize(pb: seq<byte> -> seq<byte>, e: DeltaEncoder.Emit, y: nat, row: seq<byte>, was: seq<byte>)
    requires |row| == |was|
    ensures |DeltaEncoder.Output(DeltaEncoder.Next(pb, e, y, row, was))| <=
            |DeltaEncoder.Output(e)| + |Packed(pb, Bits.BytesXor(row, was))| + 4
  {
    hide Packed;
  }
}
