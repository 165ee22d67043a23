/** Which late bytes a realigning drain can miss: exactly those behind a pause of the quiet time within its budget. */
module LateBytes {
  import opened Bytes
  import opened Number
  import opened Drain

  // Bytes on their way to the host, and when they get there.
  datatype Arrival = Arrival(at: int, data: seq<byte>)

  type Wire = seq<Arrival>

  // When pass k of a drain looks into the socket, and when it then reads the clock.
  datatype Clock = Clock(recv: nat -> int, read: nat -> int)

  // Time does not go back, and no pass takes longer than lag between its two looks.
  ghost predicate Ticking(c: Clock, start: int, lag: nat) {
    start <= c.recv(0) && forall k: nat :: c.recv(k) <= c.read(k) <= c.recv(k) + lag && c.read(k) <= c.recv(k + 1)
  }

  ghost predicate InOrder(wire: Wire) {
    forall i, j :: 0 <= i <= j < |wire| ==> wire[i].at <= wire[j].at
  }

  // The arrivals that the first k passes of a drain have taken.
  function Taken(wire: Wire, c: Clock, k: nat): (r: nat)
    ensures r <= |wire|
  {
    if k == 0 then 0
    else
      var t := Taken(wire, c, k - 1);
      if t < |wire| && wire[t].at <= c.recv(k - 1) then t + 1 else t
  }

  // What arrives behind t.
  function Later(wire: Wire, t: int): (r: Wire)
    ensures |r| <= |wire| && r == wire[|wire| - |r|..]
    ensures r != [] ==> r[0].at > t
  {
    if wire != [] && wire[0].at <= t then Later(wire[1..], t) else wire
  }

  // What the drain sees of the wire.
  function Polls(wire: Wire, c: Clock): Script {
    (k: nat) =>
      var t := Taken(wire, c, k);
      Poll(if t < |wire| && wire[t].at <= c.recv(k) then Chunk else Nothing, c.read(k))
  }

  // When arrival k has been preceded by silence only since.
  function Since(wire: Wire, start: int, k: nat): int
    requires k <= |wire|
  {
    if k == 0 || wire[k - 1].at < start then start else wire[k - 1].at
  }

  // The silence that can be taken for the end.
  function Silence(lag: nat): nat {
    if lag < RESYNC_QUIET then RESYNC_QUIET - lag else 0
  }

  // Arrival k comes behind such a silence, and the one before it within the budget.
  predicate Gap(wire: Wire, start: int, lag: nat, k: nat) {
    && k < |wire| && wire[k].at > Since(wire, start, k) + Silence(lag)
    && (k > 0 ==> wire[k - 1].at < start + RESYNC_BUDGET)
  }

  ghost predicate Steady(wire: Wire, start: int, lag: nat) {
    forall k: nat :: !Gap(wire, start, lag, k)
  }

  lemma PollStep(wire: Wire, c: Clock, k: nat)
    ensures var t, p := Taken(wire, c, k), Polls(wire, c)(k);
            && p.now == c.read(k)
            && p.event == (if t < |wire| && wire[t].at <= c.recv(k) then Chunk else Nothing)
            && Taken(wire, c, k + 1) == (if p.event.Chunk? then t + 1 else t)
            && Taken(wire, c, 0) == 0
  {
  }

  lemma QuietStep(script: Script, start: int, k: nat)
    ensures QuietUntil(script, start, 0) == start + RESYNC_QUIET
    ensures QuietUntil(script, start, k + 1)
         == if script(k).event.Chunk? then script(k).now + RESYNC_QUIET else QuietUntil(script, start, k)
  {
  }

  lemma ChunkUndecided(script: Script, start: int, k: nat)
    requires Judge(script, true, start, k).None?
    ensures script(k).event.Chunk? ==> script(k).now < start + RESYNC_BUDGET
  {
  }

  // What pass k knows of the arrivals taken before it.
  ghost predicate Covered(wire: Wire, c: Clock, start: int, k: nat) {
    var t := Taken(wire, c, k);
    && QuietUntil(Polls(wire, c), start, k) >= Since(wire, start, t) + RESYNC_QUIET
    && c.recv(k) >= Since(wire, start, t)
    && (t > 0 ==> wire[t - 1].at < start + RESYNC_BUDGET)
  }

  lemma {:induction false} CoveredAlways(wire: Wire, c: Clock, start: int, lag: nat, k: nat)
    requires Ticking(c, start, lag) && Undecided(Polls(wire, c), true, start, k)
    ensures Covered(wire, c, start, k)
  {
    hide Polls, Taken, QuietUntil, Judge;
    PollStep(wire, c, if k == 0 then 0 else k - 1);
    QuietStep(Polls(wire, c), start, if k == 0 then 0 else k - 1);
    if k > 0 {
      CoveredAlways(wire, c, start, lag, k - 1);
      assert c.recv(k - 1) <= c.read(k - 1) <= c.recv(k - 1 + 1);
      assert Judge(Polls(wire, c), true, start, k - 1).None?;
      ChunkUndecided(Polls(wire, c), start, k - 1);
    }
  }

  lemma AliveMeans(script: Script, start: int, k: nat)
    requires Judge(script, true, start, k) == Some(Alive)
    ensures script(k).event.Nothing? && script(k).now >= QuietUntil(script, start, k)
  {
  }

  // The pass that ends a drain well takes nothing.
  lemma AliveTakes(wire: Wire, c: Clock, resync: bool, start: int, k: nat)
    requires Decides(Polls(wire, c), resync, start, k, Alive)
    ensures Taken(wire, c, k + 1) == Taken(wire, c, k)
  {
    hide Polls, Taken, QuietUntil;
    PollStep(wire, c, k);
  }

  // What a drain that ends well has left behind comes behind a gap.
  lemma LeftBehindGap(wire: Wire, c: Clock, start: int, lag: nat, k: nat)
    requires Ticking(c, start, lag) && Decides(Polls(wire, c), true, start, k, Alive)
    ensures Taken(wire, c, k) == |wire| || Gap(wire, start, lag, Taken(wire, c, k))
  {
    hide Polls, Taken, QuietUntil, Judge;
    CoveredAlways(wire, c, start, lag, k);
    AliveMeans(Polls(wire, c), start, k);
    PollStep(wire, c, k);
    assert c.read(k) <= c.recv(k) + lag;
  }

  // Nothing comes later exactly when everything has come.
  lemma {:induction false} NothingLater(wire: Wire, t: int)
    requires InOrder(wire)
    ensures Later(wire, t) == [] <==> forall i :: 0 <= i < |wire| ==> wire[i].at <= t
  {
    if wire != [] && wire[0].at <= t {
      NothingLater(wire[1..], t);
      assert forall i {:trigger wire[i]} :: 0 < i < |wire| ==> wire[i] == wire[1..][i - 1];
    }
  }

  /** The drain that misses what is behind a gap */

  // It takes the arrivals before k as they come, and then finds nothing for the quiet time.
  function Missing(wire: Wire, start: int, lag: nat, k: nat): Clock
    requires k < |wire|
  {
    var since := Since(wire, start, k);
    Clock((i: nat) => if i < k then Since(wire, start, i + 1)
                      else if i == k then since + Silence(lag) else since + RESYNC_QUIET,
          (i: nat) => if i < k then Since(wire, start, i + 1) else since + RESYNC_QUIET)
  }

  lemma MissingIs(wire: Wire, start: int, lag: nat, k: nat, i: nat)
    requires k < |wire|
    ensures var c, since := Missing(wire, start, lag, k), Since(wire, start, k);
            && c.recv(i) == (if i < k then Since(wire, start, i + 1)
                             else if i == k then since + Silence(lag) else since + RESYNC_QUIET)
            && c.read(i) == (if i < k then Since(wire, start, i + 1) else since + RESYNC_QUIET)
  {
  }

  lemma SinceGrows(wire: Wire, start: int, i: nat, j: nat)
    requires InOrder(wire) && i <= j <= |wire|
    ensures start <= Since(wire, start, i) <= Since(wire, start, j)
  {
  }

  lemma MissingTicks(wire: Wire, start: int, lag: nat, k: nat)
    requires InOrder(wire) && k < |wire|
    ensures Ticking(Missing(wire, start, lag, k), start, lag)
  {
    hide Missing, Since, InOrder;
    var c := Missing(wire, start, lag, k);
    MissingIs(wire, start, lag, k, 0);
    SinceGrows(wire, start, 0, k);
    if k > 0 {
      SinceGrows(wire, start, 1, k);
    }
    forall i: nat
      ensures c.recv(i) <= c.read(i) <= c.recv(i) + lag && c.read(i) <= c.recv(i + 1)
    {
      MissingIs(wire, start, lag, k, i);
      MissingIs(wire, start, lag, k, i + 1);
      if i + 1 < k {
        SinceGrows(wire, start, i + 1, i + 2);
      }
    }
  }

  lemma {:induction false} MissingTakes(wire: Wire, start: int, lag: nat, k: nat, i: nat)
    requires InOrder(wire) && i <= k < |wire| && (i > 0 ==> wire[i - 1].at < start + RESYNC_BUDGET)
    ensures Taken(wire, Missing(wire, start, lag, k), i) == i
    ensures QuietUntil(Polls(wire, Missing(wire, start, lag, k)), start, i) == Since(wire, start, i) + RESYNC_QUIET
    ensures Undecided(Polls(wire, Missing(wire, start, lag, k)), true, start, i)
    decreases i
  {
    hide Polls, Taken, QuietUntil, Missing, Since, Judge;
    var c := Missing(wire, start, lag, k);
    var s := Polls(wire, c);
    if i == 0 {
      PollStep(wire, c, 0);
      QuietStep(s, start, 0);
      SinceStart(wire, start);
    } else {
      MissingTakes(wire, start, lag, k, i - 1);
      MissingAt(wire, start, lag, k, i - 1);
      SinceEarly(wire, start, i);
      PollStep(wire, c, i - 1);
      QuietStep(s, start, i - 1);
      EarlyChunk(s, start, i - 1);
      assert Undecided(s, true, start, i - 1 + 1);
    }
  }

  lemma SinceStart(wire: Wire, start: int)
    ensures Since(wire, start, 0) == start
  {
  }

  lemma EarlyChunk(script: Script, start: int, k: nat)
    requires script(k).event.Chunk? && script(k).now < start + RESYNC_BUDGET
    ensures Judge(script, true, start, k).None?
  {
  }

  lemma MissingAt(wire: Wire, start: int, lag: nat, k: nat, i: nat)
    requires i < k < |wire|
    ensures var c := Missing(wire, start, lag, k);
            wire[i].at <= c.recv(i) && c.read(i) == Since(wire, start, i + 1)
  {
  }

  lemma SinceEarly(wire: Wire, start: int, i: nat)
    requires 0 < i <= |wire| && wire[i - 1].at < start + RESYNC_BUDGET
    ensures Since(wire, start, i) < start + RESYNC_BUDGET
  {
  }

  lemma GapMissed(wire: Wire, start: int, lag: nat, k: nat)
    requires InOrder(wire) && Gap(wire, start, lag, k)
    ensures var c := Missing(wire, start, lag, k);
            Ticking(c, start, lag) && Decides(Polls(wire, c), true, start, k, Alive) && Taken(wire, c, k) == k
  {
    var c := Missing(wire, start, lag, k);
    MissingTicks(wire, start, lag, k);
    GapInside(wire, start, lag, k);
    MissingTakes(wire, start, lag, k, k);
    MissingEnd(wire, start, lag, k);
    hide Polls, Taken, QuietUntil, Missing;
    PollStep(wire, c, k);
  }

  lemma MissingEnd(wire: Wire, start: int, lag: nat, k: nat)
    requires Gap(wire, start, lag, k)
    ensures var c := Missing(wire, start, lag, k);
            c.recv(k) < wire[k].at && c.read(k) == Since(wire, start, k) + RESYNC_QUIET
  {
  }

  /** The drain that gives up on a stream that goes on */

  // Arrival k is the first at or after the budget.
  predicate Overruns(wire: Wire, start: int, k: nat) {
    k < |wire| && wire[k].at >= start + RESYNC_BUDGET && (k > 0 ==> wire[k - 1].at < start + RESYNC_BUDGET)
  }

  // A drain that takes the arrivals as they come is given up with that one, and drops the link.
  lemma OverrunDrops(wire: Wire, start: int, lag: nat, k: nat)
    requires InOrder(wire) && Overruns(wire, start, k) && k + 1 < |wire|
    ensures var c := Missing(wire, start, lag, k + 1);
            Ticking(c, start, lag) && Decides(Polls(wire, c), true, start, k, Dropped) && Taken(wire, c, k + 1) == k + 1
  {
    hide Polls, Taken, QuietUntil, Missing;
    var c := Missing(wire, start, lag, k + 1);
    MissingTicks(wire, start, lag, k + 1);
    MissingTakes(wire, start, lag, k + 1, k);
    MissingAt(wire, start, lag, k + 1, k);
    PollStep(wire, c, k);
  }

  // Exactly when every realigning drain that ends well has emptied the wire.
  lemma DrainEmptiesIff(wire: Wire, start: int, lag: nat)
    requires InOrder(wire)
    ensures (forall c: Clock, k: nat :: Ticking(c, start, lag) && Decides(Polls(wire, c), true, start, k, Alive)
                                        ==> Taken(wire, c, k) == |wire|)
            <==> Steady(wire, start, lag)
  {
    hide Polls, Taken, Decides, Missing, Gap, Ticking;
    if Steady(wire, start, lag) {
      forall c: Clock, k: nat | Ticking(c, start, lag) && Decides(Polls(wire, c), true, start, k, Alive)
        ensures Taken(wire, c, k) == |wire|
      {
        LeftBehindGap(wire, c, start, lag, k);
      }
    } else {
      var k: nat :| Gap(wire, start, lag, k);
      GapInside(wire, start, lag, k);
      GapMissed(wire, start, lag, k);
      var c := Missing(wire, start, lag, k);
      assert Ticking(c, start, lag) && Decides(Polls(wire, c), true, start, k, Alive) && Taken(wire, c, k) != |wire|;
    }
  }

  lemma GapInside(wire: Wire, start: int, lag: nat, k: nat)
    requires Gap(wire, start, lag, k)
    ensures k < |wire|
  {
  }

  // A pass that takes no time: a pause is a gap exactly when it is longer than the quiet time of 400 milliseconds, from
  // the start on, and begins within the budget of three seconds.
  lemma GapAtOnce(wire: Wire, start: int, k: nat)
    ensures Gap(wire, start, 0, k)
            <==> k < |wire|
                 && (if k == 0 then wire[0].at > start + 400
                     else (wire[k].at > wire[k - 1].at + 400 && wire[k].at > start + 400
                           && wire[k - 1].at < start + 3000))
  {
  }
}
