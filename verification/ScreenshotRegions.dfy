/** Region requests: when the picture that comes back is of the rectangle that was asked for. */
module ScreenshotRegions {
  import opened Bytes
  import opened RowCodec
  import opened Daemon
  import opened ScreenshotHost
  import opened ScreenshotSystem
  import PB = PackBits

  // The part of the screen that a region covers; below eight bits per pixel the daemon sends whole rows.
  function Meant(s: Screen, r: Region): Resolved
    requires r.Region?
  {
    var left, top := if r.x < 0 then 0 else r.x, if r.y < 0 then 0 else r.y;
    var right := if r.x + r.w > s.width then s.width else r.x + r.w;
    var bottom := if r.y + r.h > s.height then s.height else r.y + r.h;
    if left >= right || top >= bottom then Off
    else if s.depth < 8 then On(Rect(0, top, s.width, bottom - top))
    else On(Rect(left, top, right - left, bottom - top))
  }

  function Floored(n: int): int {
    if n < 0 then 0 else n
  }

  // The daemon sees no size, and takes the whole screen: a minus sign ends its reading, and a size is cut to 16 bits.
  predicate SizeLost(r: Region)
    requires r.Region?
  {
    r.x < 0 || r.y < 0 || Short(r.w) <= 0 || Short(r.h) <= 0
  }

  predicate CoversScreen(s: Screen, r: Region)
    requires r.Region?
  {
    && r.y <= 0 && r.y + r.h >= s.height
    && if s.depth < 8 then r.x < s.width && r.x + r.w > 0 else r.x <= 0 && r.x + r.w >= s.width
  }

  // n units from a on reach as far on a screen of that size when n is cut to 16 bits.
  predicate SameReach(a: int, n: int, size: int) {
    n < 0x8000 || Short(n) >= size - a
  }

  // Whether the daemon captures what the region means on this screen.
  predicate Honoured(s: Screen, r: Region)
    requires r.Region?
  {
    if SizeLost(r) then CoversScreen(s, r)
    else if r.x >= s.width || r.y >= s.height then
      Floored(Short(r.x)) >= s.width || Floored(Short(r.y)) >= s.height
    else (s.depth < 8 || SameReach(r.x, r.w, s.width)) && SameReach(r.y, r.h, s.height)
  }

  lemma ShortKeeps(n: int)
    ensures 0 <= n < 0x8000 ==> Short(n) == n
    ensures Short(n) < 0x8000 && (0 <= n ==> Short(n) <= n)
  {
  }

  // The daemon's reading of a region.
  lemma CapturedRegion(s: Screen, h: Host, r: Region, delta: bool)
    requires GoodScreen(s) && r.Region? && r.w > 0 && r.h > 0
    ensures MakeRequest(h, r, delta).Verb?
    ensures Captured(s, h, r, delta) ==
            if SizeLost(r) then On(Rect(0, 0, s.width, s.height))
            else Meant(s, Region(Floored(Short(r.x)), Floored(Short(r.y)), Short(r.w), Short(r.h)))
  {
  }

  // Exactly when a request is honoured: its guard can be worked out before the request is made.
  lemma HonouredIff(s: Screen, h: Host, r: Region, delta: bool)
    requires GoodScreen(s) && r.Region? && r.w > 0 && r.h > 0
    ensures MakeRequest(h, r, delta).Verb?
    ensures Captured(s, h, r, delta) == Meant(s, r) <==> Honoured(s, r)
  {
    hide Short, Captured, GoodScreen;
    SmallScreen(s);
    CapturedRegion(s, h, r, delta);
    ShortKeeps(r.x);
    ShortKeeps(r.y);
    ShortKeeps(r.w);
    ShortKeeps(r.h);
  }

  lemma SmallScreen(s: Screen)
    requires GoodScreen(s)
    ensures 0 < s.width < 0x8000 && 0 < s.height < 0x8000
  {
  }

  // Coordinates that a screen can have are always honoured, cut off at its edges.
  lemma SmallRegionsHonoured(s: Screen, r: Region)
    requires GoodScreen(s) && r.Region?
    requires 0 <= r.x < 0x8000 && 0 <= r.y < 0x8000 && 0 < r.w < 0x8000 && 0 < r.h < 0x8000
    ensures Honoured(s, r)
  {
  }

  // On every run: the shot of an honoured request shows the rectangle that was asked for.
  lemma HonouredIsShown(es: seq<Event>, e: Event, pb: seq<byte> -> seq<byte>)
    requires PossibleRun(es) && Possible(e) && Packer(pb) && e.Ask? && e.region.Region? && Honoured(e.screen, e.region)
    ensures Inv(INITIAL)
    ensures var sys := After(INITIAL, es, pb);
            GoodState(sys.daemon) &&
            var shot, m := Step(sys, e, pb).1, Meant(e.screen, e.region);
            shot.Shot? ==> m.On? && Fits(e.screen, m.rect) && Shows(shot, e.screen, m.rect)
  {
    hide Honoured, Meant, Shows, GoodScreen, Captured, Step;
    EveryShotIsRight(es, e, pb);
    var sys := After(INITIAL, es, pb);
    if Step(sys, e, pb).1.Shot? {
      HonouredIff(e.screen, Fresh(sys.host), e.region, e.delta);
    }
  }

  // A region inside the screen.
  lemma MeantInside(s: Screen, r: Region)
    requires GoodScreen(s) && r.Region? && 0 <= r.x && 0 <= r.y && 0 < r.w && 0 < r.h
    requires r.x + r.w <= s.width && r.y + r.h <= s.height
    ensures Honoured(s, r)
    ensures Meant(s, r) == On(if s.depth < 8 then Rect(0, r.y, s.width, r.h) else Rect(r.x, r.y, r.w, r.h))
  {
    SmallRegionsHonoured(s, r);
  }

  // On every run: a region that lies on the screen yields that rectangle, or nothing.
  lemma RegionIsTheRegion(es: seq<Event>, e: Event, pb: seq<byte> -> seq<byte>)
    requires PossibleRun(es) && Possible(e) && Packer(pb) && e.Ask? && e.region.Region?
    requires 0 <= e.region.x && 0 <= e.region.y && 0 < e.region.w && 0 < e.region.h
    requires e.region.x + e.region.w <= e.screen.width && e.region.y + e.region.h <= e.screen.height
    ensures Inv(INITIAL)
    ensures var sys, s, q := After(INITIAL, es, pb), e.screen, e.region;
            GoodState(sys.daemon) &&
            var shot := Step(sys, e, pb).1;
            var rect := if s.depth < 8 then Rect(0, q.y, s.width, q.h) else Rect(q.x, q.y, q.w, q.h);
            Fits(s, rect) && (shot.Shot? ==> Shows(shot, s, rect))
  {
    hide Shows, Step, GoodScreen, Honoured, Meant, After, PossibleRun, Packer, Inv, GoodState;
    MeantInside(e.screen, e.region);
    HonouredIsShown(es, e, pb);
  }

  // On every run: a negative coordinate yields the whole screen, or nothing.
  lemma NegativeIsTheScreen(es: seq<Event>, e: Event, pb: seq<byte> -> seq<byte>)
    requires PossibleRun(es) && Possible(e) && Packer(pb) && e.Ask? && e.region.Region?
    requires (e.region.x < 0 || e.region.y < 0) && 0 < e.region.w && 0 < e.region.h
    ensures Inv(INITIAL)
    ensures var sys, s := After(INITIAL, es, pb), e.screen;
            GoodState(sys.daemon) &&
            var shot := Step(sys, e, pb).1;
            shot.Shot? ==> shot == Shot(s.width, s.height, s.rowBytes, s.depth, s.clut, s.pixels)
  {
    hide Step;
    EveryShotIsRight(es, e, pb);
    var sys := After(INITIAL, es, pb);
    CapturedRegion(e.screen, Fresh(sys.host), e.region, e.delta);
  }

  // The same for a size of which 16 bits say nothing, such as 0x8000 or 0x10000.
  lemma LostSizeIsTheScreen(es: seq<Event>, e: Event, pb: seq<byte> -> seq<byte>)
    requires PossibleRun(es) && Possible(e) && Packer(pb) && e.Ask? && e.region.Region?
    requires 0 < e.region.w && 0 < e.region.h && SizeLost(e.region)
    ensures Inv(INITIAL)
    ensures var sys, s := After(INITIAL, es, pb), e.screen;
            GoodState(sys.daemon) &&
            var shot := Step(sys, e, pb).1;
            shot.Shot? ==> shot == Shot(s.width, s.height, s.rowBytes, s.depth, s.clut, s.pixels)
  {
    hide Step;
    EveryShotIsRight(es, e, pb);
    var sys := After(INITIAL, es, pb);
    CapturedRegion(e.screen, Fresh(sys.host), e.region, e.delta);
  }

  // A screen whose rows carry padding.
  const PADDED := Screen(1, 1, 8, 2, [0, 0], [])

  lemma PaddedScreen()
    ensures GoodScreen(PADDED) && Fits(PADDED, Rect(0, 0, 1, 1)) && IsFull(PADDED, Rect(0, 0, 1, 1))
    ensures RegionRowBytes(PADDED.width, PADDED.depth) != PADDED.rowBytes
  {
    AreaFirst(2);
  }

  lemma NothingRetained(s: Screen, q: Request, r: Rect)
    ensures GoodState(State(NoFrame, 0)) && !WantsDelta(State(NoFrame, 0), s, q, r)
  {
  }

  // With some packer, a whole capture of it that is not a delta does not decode.
  lemma PaddedExample(b: Base, flags: int)
    ensures Packer(PB.PackLiterals) && GoodScreen(PADDED)
    ensures Fits(PADDED, Rect(0, 0, 1, 1)) && GoodState(State(NoFrame, 0))
    ensures var a := DaemonImage(State(NoFrame, 0), PADDED, Request(0, 0, 0, 0, flags, 0), Rect(0, 0, 1, 1),
                                 PB.PackLiterals);
            DecodePayload(b, a) == BadPayload
  {
    hide *;
    LiteralPacker();
    PaddedScreen();
    NothingRetained(PADDED, Request(0, 0, 0, 0, flags, 0), Rect(0, 0, 1, 1));
    PaddedFails(State(NoFrame, 0), PADDED, Request(0, 0, 0, 0, flags, 0), Rect(0, 0, 1, 1), PB.PackLiterals, b);
  }
}
