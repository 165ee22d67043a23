/** The requesting side of SCREENSHOT2: the base frame the host holds, and what it makes of a reply. */
module ScreenshotHost {
  import opened Bytes
  import opened Protocol
  import opened RowCodec
  import Predictor
  import Delta
  import FrameSpec
  import StatusFrame
  import opened Daemon

  datatype Base = NoBase | Base(gen: int, width: nat, height: nat, depth: nat, rowBytes: nat, pixels: seq<byte>)
  datatype Speaks = Unknown | Yes | No

  // `link` counts accepted links; `shotLink` is the link the other shot fields belong to (0: none yet).
  datatype Host = Host(connected: bool, link: nat, shotLink: nat, v2: Speaks, base: Base)

  datatype Region = WholeScreen | Region(x: int, y: int, w: int, h: int)

  // The decoded header and the bytes behind it, or one of the ways the exchange fails.
  datatype Answer =
    | Status(invalidCommand: bool)
    | Image2(width: nat, height: nat, depth: nat, rowBytes: nat, clut: seq<byte>,
             ox: nat, oy: nat, ow: nat, oh: nat, enc: int, gen: int, payload: seq<byte>)
    | OtherHeader
    | BadFrame      // a ValueError while reading: the link stays up
    | Lost          // time-out, closed socket, failed send

  // Raised: the request ends with an exception.
  datatype Shot =
    | NoShot
    | Raised
    | Shot(width: nat, height: nat, rowBytes: nat, depth: nat, clut: seq<byte>, pixels: seq<byte>)

  const INVALID_COMMAND: seq<byte> := [73, 110, 118, 97, 108, 105, 100, 32, 99, 111, 109, 109, 97, 110, 100]

  // What the rest of a STATUS frame comes to: a read that waits in vain drops the link.
  function StatusAnswer(r: FrameSpec.Read<StatusFrame.Refusal>): Answer {
    if r.Stopped? then Lost
    else if r.value.Malformed? then BadFrame
    else Status(FrameSpec.Contains(r.value.text, INVALID_COMMAND))
  }

  // A new link voids everything learned on the old one.
  function Fresh(h: Host): Host {
    if h.shotLink != h.link then h.(shotLink := h.link, v2 := Unknown, base := NoBase) else h
  }

  // A link that the daemon has dialled.
  function Dialled(h: Host): Host {
    h.(connected := true, link := h.link + 1)
  }

  datatype Verb = NoVerb | Verb(q: Request)

  function MakeRequest(h: Host, region: Region, delta: bool): Verb {
    if region.Region? && (region.w <= 0 || region.h <= 0) then NoVerb
    else if region.Region? then Verb(Request(region.x, region.y, region.w, region.h, 1 + 4, 0))
    else if delta && h.base.Base? then Verb(Request(0, 0, 0, 0, 1 + 4 + 2, h.base.gen))
    else Verb(Request(0, 0, 0, 0, 1 + 4, 0))
  }

  predicate InRange(a: Answer)
    requires a.Image2?
  {
    |a.payload| <= MAX_DECLARED && |a.clut| <= 3 * 256 && a.enc in {0, 1, 2, 3}
  }

  predicate Whole(a: Answer)
    requires a.Image2?
  {
    a.ox == 0 && a.oy == 0 && a.ow == a.width && a.oh == a.height
  }

  // BadPayload is a ValueError, which the host catches; Crash is an arithmetic error, which it does not.
  datatype Decoded = Good(pixels: seq<byte>) | BadPayload | NoMatchingBase | Crash

  function SubRowBytes(a: Answer): (n: nat)
    requires a.Image2?
  {
    if Whole(a) then a.rowBytes else RegionRowBytes(a.ow, a.depth)
  }

  lemma Positive(m: nat, n: nat)
    requires m > 0 && n > 0
    ensures m * n > 0
  {
  }

  predicate BaseMatches(b: Base, a: Answer)
    requires a.Image2?
  {
    && b.Base? && Whole(a) && b.gen == a.gen - 1
    && b.width == a.width && b.height == a.height && b.depth == a.depth && b.rowBytes == a.rowBytes
  }

  function DecodePayload(b: Base, a: Answer): Decoded
    requires a.Image2?
  {
    if a.enc == 2 then
      if !BaseMatches(b, a) then NoMatchingBase
      else
        var parsed := Delta.Parse(a.payload, 0, a.rowBytes);
        if parsed.Failed? then BadPayload
        else
          match Delta.Outcome(b.pixels, a.rowBytes, a.height, parsed.runs)
          case Frame(pixels) => Good(pixels)
          case ShortPrevious => BadPayload
          case OutsideRows => BadPayload
          case NoWidth => Crash
          case TooWide => Crash
    else
      var d := Predictor.Decode(a.enc, a.payload, a.oh, SubRowBytes(a));
      if d.Pixels? then Good(d.data) else BadPayload
  }

  // What one answer does to the host, and the shot it yields.
  function Handle(h: Host, a: Answer): (Host, Shot) {
    match a
    case Status(invalid) => (if invalid then h.(v2 := No) else h, NoShot)
    case OtherHeader => (h.(connected := false), NoShot)
    case BadFrame => (h, NoShot)
    case Lost => (h.(connected := false), NoShot)
    case Image2(_, _, _, _, _, _, _, _, _, _, _, _) =>
      if !InRange(a) then (h.(connected := false), NoShot)
      else
        var h1 := h.(v2 := Yes);
        var d := DecodePayload(h1.base, a);
        match d
        case NoMatchingBase => (h1.(connected := false), NoShot)
        case BadPayload => (h1, NoShot)
        case Crash => (h1, Raised)
        case Good(pixels) =>
          if Whole(a) then
            (if a.gen > 0 then h1.(base := Base(a.gen, a.width, a.height, a.depth, a.rowBytes, pixels)) else h1,
             Shot(a.width, a.height, a.rowBytes, a.depth, a.clut, pixels))
          else (h1, Shot(a.ow, a.oh, RegionRowBytes(a.ow, a.depth), a.depth, a.clut, pixels))
  }

  /** The object that keeps this state */

  class ShotState {
    var connected: bool
    var linkGeneration: nat
    var shotLink: nat
    var shotV2: Speaks
    var shotPrev: Base

    constructor ()
      ensures Abstract() == Host(false, 0, 0, Unknown, NoBase)
    {
      connected, linkGeneration, shotLink, shotV2, shotPrev := false, 0, 0, Unknown, NoBase;
    }

    ghost function Abstract(): Host
      reads this
    {
      Host(connected, linkGeneration, shotLink, shotV2, shotPrev)
    }

    method AcceptMac()
      modifies this
      ensures Abstract() == Dialled(old(Abstract()))
    {
      connected := true;
      linkGeneration := linkGeneration + 1;
    }

    method BeginShot()
      modifies this
      ensures Abstract() == Fresh(old(Abstract()))
    {
      if shotLink != linkGeneration {
        shotLink := linkGeneration;
        shotV2 := Unknown;
        shotPrev := NoBase;
      }
    }

    method HandleAnswer(a: Answer) returns (shot: Shot)
      modifies this
      ensures (Abstract(), shot) == Handle(old(Abstract()), a)
    {
      shot := NoShot;
      if a.Status? {
        if a.invalidCommand { shotV2 := No; }
        return;
      }
      if a.BadFrame? { return; }
      if !a.Image2? || !InRange(a) {
        connected := false;
        return;
      }
      shotV2 := Yes;
      var pixels;
      if a.enc == 2 {
        if !BaseMatches(shotPrev, a) {
          connected := false;
          return;
        }
        var parsed := Delta.ParseDelta(a.payload, a.rowBytes);
        if parsed.Failed? { return; }
        var applied := Delta.ApplyDelta(shotPrev.pixels, a.rowBytes, a.height, parsed.runs);
        if applied.NoWidth? || applied.TooWide? { return Raised; }
        if !applied.Frame? { return; }
        pixels := applied.pixels;
      } else {
        var d := Predictor.DecodeRows(a.enc, a.payload, a.oh, SubRowBytes(a));
        if !d.Pixels? { return; }
        pixels := d.data;
      }
      if Whole(a) {
        shot := Shot(a.width, a.height, a.rowBytes, a.depth, a.clut, pixels);
        if a.gen > 0 {
          shotPrev := Base(a.gen, a.width, a.height, a.depth, a.rowBytes, pixels);
        }
      } else {
        shot := Shot(a.ow, a.oh, RegionRowBytes(a.ow, a.depth), a.depth, a.clut, pixels);
      }
    }
  }

  // Parsed runs hold whole rows.
  lemma {:induction false} RunsWhole(payload: seq<byte>, off: nat, rb: nat)
    requires rb > 0 && Delta.Parse(payload, off, rb).Runs?
    ensures forall run :: run in Delta.Parse(payload, off, rb).runs ==> Delta.WholeRows(run, rb)
    decreases |payload| - off
  {
    if off < |payload| {
      hide Unpacked, Area, Word;
      var one := Delta.OneRun(payload, off, rb);
      Delta.OneRunEnd(payload, off, rb);
      RunsWhole(payload, one.next, rb);
      OneRunWhole(payload, off, rb);
    }
  }

  lemma OneRunWhole(payload: seq<byte>, off: nat, rb: nat)
    requires rb > 0 && Delta.OneRun(payload, off, rb).Got?
    ensures Delta.WholeRows(Delta.OneRun(payload, off, rb).run, rb)
  {
    hide Unpacked, Area;
    var n := Word(payload, off + 2);
    Predictor.UnpackedLength(payload, off + 4, n, rb);
    AreaProduct(n, rb);
    Quotient(n, rb);
  }
}
