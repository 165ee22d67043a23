/** Realigning a persistent link after an abandoned read: when the drain ends, and what its answer means. */
module Drain {
  import opened Number

  // Milliseconds.
  const RESYNC_QUIET: int := 400
  const RESYNC_BUDGET: int := 3000

  // What one non-blocking recv() finds.
  datatype Event = Nothing | Chunk | Closed | Failed

  // One pass of the loop: the recv() and the clock read with it.
  datatype Poll = Poll(event: Event, now: int)

  datatype Verdict = Alive | Dead | Dropped

  type Script = nat -> Poll

  // The clock value at which silence counts as the end, before pass k.
  function QuietUntil(script: Script, start: int, k: nat): int {
    if k == 0 then start + RESYNC_QUIET
    else if script(k - 1).event.Chunk? then script(k - 1).now + RESYNC_QUIET
    else QuietUntil(script, start, k - 1)
  }

  // What pass k decides, if anything.
  function Judge(script: Script, resync: bool, start: int, k: nat): Option<Verdict> {
    var p := script(k);
    match p.event
    case Nothing =>
      if !resync || p.now >= QuietUntil(script, start, k) then Some(Alive)
      else if p.now >= start + RESYNC_BUDGET then Some(Dropped)
      else None
    case Chunk => if resync && p.now >= start + RESYNC_BUDGET then Some(Dropped) else None
    case Closed => Some(Dead)
    case Failed => Some(Dead)
  }

  ghost predicate Undecided(script: Script, resync: bool, start: int, k: nat) {
    forall j: nat :: j < k ==> Judge(script, resync, start, j).None?
  }

  ghost predicate Decides(script: Script, resync: bool, start: int, k: nat, v: Verdict) {
    Undecided(script, resync, start, k) && Judge(script, resync, start, k) == Some(v)
  }

  ghost predicate Monotone(script: Script, start: int) {
    forall i: nat, j: nat :: i <= j ==> start <= script(i).now <= script(j).now
  }

  // The pass by which the loop must have ended: past the budget when realigning, else the first that finds no data.
  ghost predicate Ends(script: Script, resync: bool, start: int, late: nat) {
    if resync then script(late).now >= start + RESYNC_BUDGET else !script(late).event.Chunk?
  }

  // A script of which the peer's end cuts off the rest: from pass p on, recv() finds a close or an error.
  function CutOff(script: Script, p: nat, end: Event): Script {
    (k: nat) => if k < p then script(k) else Poll(end, script(k).now)
  }

  lemma {:induction false} CutOffSame(script: Script, p: nat, end: Event, start: int, k: nat)
    requires k <= p
    ensures QuietUntil(CutOff(script, p, end), start, k) == QuietUntil(script, start, k)
    ensures k < p ==>
              forall resync :: Judge(CutOff(script, p, end), resync, start, k) == Judge(script, resync, start, k)
  {
    if k > 0 {
      CutOffSame(script, p, end, start, k - 1);
    }
  }

  lemma CutOffDead(script: Script, p: nat, end: Event, resync: bool, start: int)
    requires end == Closed || end == Failed
    ensures Judge(CutOff(script, p, end), resync, start, p) == Some(Dead)
  {
  }

  // A drain that does not end with a close or an error has not come that far.
  lemma CutOffDecides(script: Script, p: nat, end: Event, resync: bool, start: int, k: nat, v: Verdict)
    requires (end == Closed || end == Failed) && Decides(CutOff(script, p, end), resync, start, k, v)
    ensures v != Dead ==> k < p && Decides(script, resync, start, k, v)
    ensures k <= p
  {
    CutOffDead(script, p, end, resync, start);
    if k < p {
      forall j: nat | j <= k
        ensures Judge(CutOff(script, p, end), resync, start, j) == Judge(script, resync, start, j)
      {
        CutOffSame(script, p, end, start, j);
      }
    }
  }

  lemma EndDecides(script: Script, resync: bool, start: int, late: nat)
    requires Ends(script, resync, start, late)
    ensures Judge(script, resync, start, late).Some?
  {
  }

  lemma {:induction false} QuietBound(script: Script, start: int, i: nat, k: nat)
    requires Monotone(script, start) && i < k && script(i).event.Chunk?
    ensures script(i).now + RESYNC_QUIET <= QuietUntil(script, start, k)
    decreases k
  {
    if !script(k - 1).event.Chunk? {
      QuietBound(script, start, i, k - 1);
    }
  }

  lemma {:induction false} QuietFromStart(script: Script, start: int, k: nat)
    requires Monotone(script, start)
    ensures start + RESYNC_QUIET <= QuietUntil(script, start, k)
  {
    if k > 0 {
      QuietFromStart(script, start, k - 1);
    }
  }

  // The whole meaning of an ordinary drain, with no desync noted: it takes chunks while there are any; then the link is
  // alive when nothing more is there, and dead when there is a close or an error.  It never drops the link itself.
  lemma IdleMeaning(script: Script, start: int, k: nat, v: Verdict)
    ensures Decides(script, false, start, k, v)
            <==> && (forall j: nat :: j < k ==> script(j).event == Chunk) && script(k).event != Chunk
                 && v != Dropped && (v == Alive <==> script(k).event == Nothing)
  {
    if Decides(script, false, start, k, v) {
      forall j: nat | j < k
        ensures script(j).event == Chunk
      {
        assert Judge(script, false, start, j).None?;
      }
    } else if forall j: nat :: j < k ==> script(j).event == Chunk {
      assert Undecided(script, false, start, k);
    }
  }

  // The whole meaning of one realigning drain.
  ghost predicate Meaning(script: Script, start: int, k: nat, v: Verdict) {
    var end := script(k);
    // It ends at the first pass at or after the deadline, or before.
    && (forall j: nat :: j < k ==> script(j).now < start + RESYNC_BUDGET)
       // Alive: silence of the quiet time up to now, since the start and since the last data.
    && (v.Alive? ==>
          && end.event.Nothing? && start + RESYNC_QUIET <= end.now
          && forall j: nat :: j < k && script(j).event.Chunk? ==> script(j).now + RESYNC_QUIET <= end.now)
       // Dropped: the budget is spent and the stream was not silent for that long.
    && (v.Dropped? ==>
          && end.now >= start + RESYNC_BUDGET
          && (end.event.Chunk? || end.now < QuietUntil(script, start, k)))
    && (v.Dead? <==> end.event.Closed? || end.event.Failed?)
  }

  lemma DrainMeaning(script: Script, start: int, k: nat, v: Verdict)
    requires Monotone(script, start) && Decides(script, true, start, k, v)
    ensures Meaning(script, start, k, v)
  {
    forall j: nat | j < k
      ensures script(j).now < start + RESYNC_BUDGET
    {
      assert Judge(script, true, start, j).None?;
    }
    if v.Alive? {
      QuietFromStart(script, start, k);
      forall j: nat | j < k && script(j).event.Chunk?
        ensures script(j).now + RESYNC_QUIET <= script(k).now
      {
        QuietBound(script, start, j, k);
      }
    }
  }
}
