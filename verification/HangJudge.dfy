/** Deciding when an emulator hangs for good: one observation at a time, and what a kill says about the whole run. */
module HangJudge {
  import opened Number

  type Pid = Option<int>

  // answered: Some(true) an answer, Some(false) none, None the control port refused.
  datatype Seen = Seen(pid: Pid, answered: Option<bool>, cpu: Option<int>, frame: Option<int>, now: int)

  datatype Verdict = Ok | Booting | Quiet | Silent | Kill

  datatype Limits = Limits(silent: int, cpu: int)

  datatype Mind = Mind(pid: Pid, armed: bool, since: Option<int>, frame: Option<int>)

  const BLANK := Mind(None, false, None, None)

  predicate Refused(o: Seen) {
    o.answered == None
  }

  predicate Answers(o: Seen) {
    o.answered == Some(true)
  }

  predicate Busy(l: Limits, o: Seen) {
    o.cpu.Some? && o.cpu.value >= l.cpu
  }

  predicate Moved(m: Mind, o: Seen) {
    o.frame.Some? && m.frame.Some? && o.frame != m.frame
  }

  // A silent, busy observation of an unchanged screen.
  function Stuck(m: Mind, l: Limits, o: Seen): (Mind, Verdict) {
    var frame := if o.frame.Some? then o.frame else m.frame;
    var since := if m.since.Some? then m.since.value else o.now;
    if o.now - since >= l.silent
    then (Mind(m.pid, false, None, frame), Kill)
    else (Mind(m.pid, m.armed, Some(since), frame), Silent)
  }

  function Observed(was: Mind, l: Limits, o: Seen): (Mind, Verdict) {
    var m := if o.pid != was.pid then Mind(o.pid, false, None, None) else was;
    if o.pid == None then (m, Quiet)
    else if Answers(o) then (Mind(m.pid, true, None, o.frame), Ok)
    else if !m.armed then (m, Booting)
    else if Refused(o) then (m, if m.since.Some? then Silent else Quiet)
    else if !Busy(l, o) then (m.(since := None), Quiet)
    else if Moved(m, o) then (m.(since := None, frame := o.frame), Quiet)
    else Stuck(m, l, o)
  }

  class Judge {
    const limits: Limits
    var pid: Pid
    var armed: bool
    var since: Option<int>
    var frame: Option<int>

    constructor (limits: Limits)
      ensures State() == BLANK && this.limits == limits
    {
      this.limits := limits;
      pid, armed, since, frame := None, false, None, None;
    }

    ghost function State(): Mind
      reads this
    {
      Mind(pid, armed, since, frame)
    }

    method Observe(o: Seen) returns (v: Verdict)
      modifies this
      ensures (State(), v) == Observed(old(State()), limits, o)
    {
      if o.pid != pid {
        pid, armed, since, frame := o.pid, false, None, None;
      }
      if o.pid.None? {
        return Quiet;
      }
      if Answers(o) {
        armed, since, frame := true, None, o.frame;
        return Ok;
      }
      if !armed {
        return Booting;
      }
      if o.answered.None? {
        return if since.Some? then Silent else Quiet;
      }
      if o.cpu.None? || o.cpu.value < limits.cpu {
        since := None;
        return Quiet;
      }
      if o.frame.Some? && frame.Some? && o.frame != frame {
        since, frame := None, o.frame;
        return Quiet;
      }
      if o.frame.Some? {
        frame := o.frame;
      }
      if since.None? {
        since := Some(o.now);
      }
      if o.now - since.value >= limits.silent {
        armed, since := false, None;
        return Kill;
      }
      return Silent;
    }
  }

  /** Whole runs */

  // The judge's state after the first n observations.
  function After(l: Limits, run: seq<Seen>, n: nat): Mind
    requires n <= |run|
  {
    if n == 0 then BLANK else Observed(After(l, run, n - 1), l, run[n - 1]).0
  }

  function Said(l: Limits, run: seq<Seen>, k: nat): Verdict
    requires k < |run|
  {
    Observed(After(l, run, k), l, run[k]).1
  }

  // Where the last answer was, and where the open window starts.
  function Answered(run: seq<Seen>, n: nat): int
    requires n <= |run|
  {
    if n == 0 then -1 else if Answers(run[n - 1]) && run[n - 1].pid.Some? then n - 1 else Answered(run, n - 1)
  }

  function WindowStart(l: Limits, run: seq<Seen>, n: nat): nat
    requires n <= |run|
  {
    if n == 0 then 0
    else if After(l, run, n - 1).since.Some? then WindowStart(l, run, n - 1)
    else n - 1
  }

  // The emulator uses at least as much of the processor as the limit says.
  ghost predicate Burning(l: Limits, cpu: Option<int>) {
    exists percent :: cpu == Some(percent) && l.cpu <= percent
  }

  // One process from a to n, which answered at a and neither answered nor was killed since.
  ghost predicate Waiting(l: Limits, run: seq<Seen>, a: int, n: nat)
    requires n <= |run|
  {
    && 0 <= a < n && run[a].answered == Some(true) && run[a].pid.Some?
    && (forall j :: a <= j < n ==> run[j].pid == run[a].pid)
    && forall j :: a < j < n ==> run[j].answered != Some(true) && Said(l, run, j) != Kill
  }

  // A frame that the judge compares: that of an observation the control port did not refuse.
  predicate Shows(o: Seen, f: int) {
    o.answered.Some? && o.frame == Some(f)
  }

  // From w to n: refused, or unanswered and busy; and one picture.
  ghost predicate Frozen(l: Limits, run: seq<Seen>, w: int, n: nat)
    requires 0 <= w <= n <= |run|
  {
    && (forall j :: w <= j < n ==> run[j].answered.None? || (run[j].answered != Some(true) && Burning(l, run[j].cpu)))
    && forall i, j, f, g :: w <= i < n && w <= j < n && Shows(run[i], f) && Shows(run[j], g) ==> f == g
  }

  // Every picture seen from w to n is the one remembered.
  ghost predicate Remembers(m: Mind, run: seq<Seen>, w: int, n: nat)
    requires 0 <= w <= n <= |run|
  {
    forall j, f :: w <= j < n && Shows(run[j], f) ==> m.frame == Some(f)
  }

  ghost predicate Inv(l: Limits, run: seq<Seen>, n: nat)
    requires n <= |run|
  {
    var m, a, w := After(l, run, n), Answered(run, n), WindowStart(l, run, n);
    && (n > 0 ==> m.pid == run[n - 1].pid)
    && (n == 0 ==> m == BLANK)
    && (m.since.Some? ==> m.armed)
    && (m.armed ==> m.pid.Some? && Waiting(l, run, a, n))
    && (m.since.Some? ==>
          && a < w < n && run[w].now == m.since.value && !Refused(run[w])
          && Frozen(l, run, w, n) && Remembers(m, run, w, n))
  }

  lemma Steps(l: Limits, run: seq<Seen>, n: nat)
    requires n < |run|
    ensures (After(l, run, n + 1), Said(l, run, n)) == Observed(After(l, run, n), l, run[n])
    ensures Answered(run, n + 1) == if Answers(run[n]) && run[n].pid.Some? then n else Answered(run, n)
    ensures WindowStart(l, run, n + 1) == if After(l, run, n).since.Some? then WindowStart(l, run, n) else n
  {
  }

  lemma StillWaiting(l: Limits, run: seq<Seen>, a: int, n: nat)
    requires n < |run| && Waiting(l, run, a, n) && run[n].pid == run[n - 1].pid
    requires !Answers(run[n]) && Said(l, run, n) != Kill
    ensures Waiting(l, run, a, n + 1)
  {
    hide Said;
  }

  lemma NowWaiting(l: Limits, run: seq<Seen>, n: nat)
    requires n < |run| && Answers(run[n]) && run[n].pid.Some?
    ensures Waiting(l, run, n, n + 1)
  {
    hide Said;
  }

  // The window grows by an observation that changes no picture.
  lemma StillFrozen(l: Limits, run: seq<Seen>, w: nat, n: nat, m: Mind, m': Mind)
    requires w <= n < |run| && Frozen(l, run, w, n) && Remembers(m, run, w, n)
    requires Refused(run[n]) || (!Answers(run[n]) && Busy(l, run[n]) && !Moved(m, run[n]))
    requires m'.frame == if Refused(run[n]) || run[n].frame.None? then m.frame else run[n].frame
    ensures Frozen(l, run, w, n + 1) && Remembers(m', run, w, n + 1)
  {
    assert forall j, f :: w <= j < n + 1 && Shows(run[j], f) ==> m'.frame == Some(f);
  }

  lemma NowFrozen(l: Limits, run: seq<Seen>, n: nat, m': Mind)
    requires n < |run| && !Answers(run[n]) && Busy(l, run[n])
    requires run[n].frame.Some? ==> m'.frame == run[n].frame
    ensures Frozen(l, run, n, n + 1) && Remembers(m', run, n, n + 1)
  {
  }

  // The window that a stuck observation continues or opens.
  lemma StuckWindow(l: Limits, run: seq<Seen>, n: nat)
    requires n < |run| && Inv(l, run, n)
    requires var m, o := After(l, run, n), run[n];
             m.pid == o.pid && o.pid.Some? && m.armed && !Answers(o) && !Refused(o) && Busy(l, o) && !Moved(m, o)
    ensures var m, m', w := After(l, run, n), After(l, run, n + 1), WindowStart(l, run, n + 1);
            && Answered(run, n) < w <= n && !Refused(run[w])
            && run[w].now == (if m.since.Some? then m.since.value else run[n].now)
            && Frozen(l, run, w, n + 1) && Remembers(m', run, w, n + 1)
            && (Said(l, run, n) == Kill <==> run[n].now - run[w].now >= l.silent)
  {
    hide Frozen, Remembers, Waiting, After, Said, Answered, WindowStart;
    Steps(l, run, n);
    WaitingSince(l, run, Answered(run, n), n);
    var m, m' := After(l, run, n), After(l, run, n + 1);
    if m.since.Some? {
      StillFrozen(l, run, WindowStart(l, run, n), n, m, m');
    } else {
      NowFrozen(l, run, n, m');
    }
  }

  lemma WaitingSince(l: Limits, run: seq<Seen>, a: int, n: nat)
    requires n <= |run| && Waiting(l, run, a, n)
    ensures 0 <= a < n
  {
  }

  lemma InvStep(l: Limits, run: seq<Seen>, n: nat)
    requires n < |run| && Inv(l, run, n)
    ensures Inv(l, run, n + 1)
  {
    hide Frozen, Remembers, Waiting, After, Said, Answered, WindowStart;
    Steps(l, run, n);
    var m, o := After(l, run, n), run[n];
    var m' := After(l, run, n + 1);
    if o.pid.Some? && Answers(o) {
      NowWaiting(l, run, n);
    } else if o.pid == m.pid && o.pid.Some? && m.armed {
      WaitingSince(l, run, Answered(run, n), n);
      if Said(l, run, n) != Kill {
        StillWaiting(l, run, Answered(run, n), n);
      }
      if Refused(o) {
        if m.since.Some? {
          StillFrozen(l, run, WindowStart(l, run, n), n, m, m');
        }
      } else if Busy(l, o) && !Moved(m, o) {
        StuckWindow(l, run, n);
      }
    }
  }

  lemma {:induction false} InvAlways(l: Limits, run: seq<Seen>, n: nat)
    requires n <= |run|
    ensures Inv(l, run, n)
  {
    if n > 0 {
      hide Inv;
      InvAlways(l, run, n - 1);
      InvStep(l, run, n - 1);
    } else {
      InvStart(l, run);
    }
  }

  lemma InvStart(l: Limits, run: seq<Seen>)
    ensures Inv(l, run, 0)
  {
  }

  // What a kill at k means: an answer at a, and a window from w on.
  ghost predicate Justified(l: Limits, run: seq<Seen>, k: nat, a: int, w: int)
    requires k < |run|
  {
    && 0 <= a < w <= k && run[k].now - run[w].now >= l.silent
    && Waiting(l, run, a, k) && run[k].pid == run[a].pid && run[k].answered != Some(true)
    && Frozen(l, run, w, k + 1) && run[w].answered.Some? && run[k].answered.Some?
  }

  lemma KillMeans(l: Limits, run: seq<Seen>, k: nat)
    requires k < |run| && Said(l, run, k) == Kill
    ensures Justified(l, run, k, Answered(run, k), WindowStart(l, run, k + 1))
  {
    InvAlways(l, run, k);
    KillNeeds(l, run, k);
    StuckWindow(l, run, k);
    WaitingPid(l, run, k);
  }

  lemma KillNeeds(l: Limits, run: seq<Seen>, k: nat)
    requires k < |run| && Said(l, run, k) == Kill && Inv(l, run, k)
    ensures var m, o := After(l, run, k), run[k];
            m.pid == o.pid && o.pid.Some? && m.armed && !Answers(o) && !Refused(o) && Busy(l, o) && !Moved(m, o)
  {
    hide After, Inv;
  }

  lemma WaitingPid(l: Limits, run: seq<Seen>, k: nat)
    requires k < |run| && Inv(l, run, k) && After(l, run, k).armed
    ensures Waiting(l, run, Answered(run, k), k) && After(l, run, k).pid == run[Answered(run, k)].pid
  {
    hide Frozen, Remembers, After, Said;
  }

  // Between two kills there is an answer.
  lemma AnswerBetween(l: Limits, run: seq<Seen>, j: nat, k: nat)
    requires j < k < |run| && Said(l, run, j) == Kill && Said(l, run, k) == Kill
    ensures exists a :: j < a < k && Answers(run[a])
  {
    KillMeans(l, run, j);
    KillMeans(l, run, k);
    var a := Answered(run, k);
    assert Answers(run[a]) && !Answers(run[j]);
  }

  // The other direction: a guest that stays silent, busy and frozen from w to k, after an answer at a.
  ghost predicate Hangs(l: Limits, run: seq<Seen>, a: nat, w: nat, k: nat) {
    && a < w <= k < |run| && run[a].answered == Some(true) && run[a].pid.Some?
    && (forall j :: a < j <= k ==>
          run[j].pid == run[a].pid && run[j].answered != Some(true) && run[j - 1].now <= run[j].now)
    && (forall j :: w <= j <= k ==> run[j].answered.None? || Burning(l, run[j].cpu))
    && (forall i, j, f, g :: a <= i <= k && a <= j <= k && Shows(run[i], f) && Shows(run[j], g) ==> f == g)
    && run[w].answered.Some? && run[k].answered.Some? && run[k].now - run[w].now >= l.silent
  }

  // The state of a judge that watches it, no kill yet.
  ghost predicate Watching(l: Limits, run: seq<Seen>, a: nat, w: nat, n: nat)
    requires a < w < |run| && a < n <= |run|
  {
    var m := After(l, run, n);
    && m.pid == run[a].pid && m.armed
    && (m.frame.Some? ==> exists i :: a <= i < n && Shows(run[i], m.frame.value))
    && (m.since.Some? ==> m.since.value <= run[if n <= w then n - 1 else w].now)
    && (n > w ==> m.since.Some?)
  }

  lemma WatchStart(l: Limits, run: seq<Seen>, a: nat, w: nat, k: nat)
    requires Hangs(l, run, a, w, k)
    ensures Watching(l, run, a, w, a + 1)
  {
    hide After, Busy;
    Steps(l, run, a);
    var m := After(l, run, a + 1);
    assert m.frame.Some? ==> Shows(run[a], m.frame.value);
  }

  lemma WatchStep(l: Limits, run: seq<Seen>, a: nat, w: nat, k: nat, n: nat)
    requires Hangs(l, run, a, w, k) && a < n <= k && Watching(l, run, a, w, n) && Said(l, run, n) != Kill
    ensures Watching(l, run, a, w, n + 1)
  {
    hide After, Said;
    Steps(l, run, n);
    var m, m', o := After(l, run, n), After(l, run, n + 1), run[n];
    NotMoved(l, run, a, w, k, n);
    if m'.frame.Some? && m'.frame != m.frame {
      assert Shows(run[n], m'.frame.value);
    }
    Later(l, run, a, w, k, n);
  }

  lemma NotMoved(l: Limits, run: seq<Seen>, a: nat, w: nat, k: nat, n: nat)
    requires Hangs(l, run, a, w, k) && a < n <= k && Watching(l, run, a, w, n)
    ensures !Refused(run[n]) ==> !Moved(After(l, run, n), run[n])
  {
    hide After, Busy;
    var m := After(l, run, n);
    assert !Refused(run[n]) && run[n].frame.Some? ==> Shows(run[n], run[n].frame.value);
    if m.frame.Some? {
      var i :| a <= i < n && Shows(run[i], m.frame.value);
    }
  }

  lemma Later(l: Limits, run: seq<Seen>, a: nat, w: nat, k: nat, n: nat)
    requires Hangs(l, run, a, w, k) && a < n <= k
    ensures run[n - 1].now <= run[n].now
  {
  }

  // Such a guest is killed by k, or was killed before.
  lemma {:induction false} HangIsKilled(l: Limits, run: seq<Seen>, a: nat, w: nat, k: nat, n: nat)
    requires Hangs(l, run, a, w, k) && a < n <= k && Watching(l, run, a, w, n)
    ensures exists j :: n <= j <= k && Said(l, run, j) == Kill
    decreases k - n
  {
    if Said(l, run, n) != Kill {
      hide Hangs, Watching, Said;
      if n < k {
        WatchStep(l, run, a, w, k, n);
        HangIsKilled(l, run, a, w, k, n + 1);
      } else {
        LastStraw(l, run, a, w, k);
      }
    }
  }

  lemma LastStraw(l: Limits, run: seq<Seen>, a: nat, w: nat, k: nat)
    requires Hangs(l, run, a, w, k) && Watching(l, run, a, w, k)
    ensures Said(l, run, k) == Kill
  {
    hide After;
    NotMoved(l, run, a, w, k, k);
    assert !Answers(run[k]) && Busy(l, run[k]) && run[k].pid == run[a].pid;
  }

  lemma FrozenGuestIsKilled(l: Limits, run: seq<Seen>, a: nat, w: nat, k: nat)
    requires Hangs(l, run, a, w, k)
    ensures exists j :: a < j <= k && Said(l, run, j) == Kill
  {
    hide Watching, Said;
    WatchStart(l, run, a, w, k);
    HangIsKilled(l, run, a, w, k, a + 1);
  }

  /** The other verdicts */

  // The judge is armed as long as an answer counts.
  lemma {:induction false} WaitingArms(l: Limits, run: seq<Seen>, a: int, n: nat)
    requires n <= |run| && Waiting(l, run, a, n)
    ensures After(l, run, n).armed && After(l, run, n).pid == run[a].pid
    decreases n
  {
    hide After, Said;
    if n == a + 1 {
      Steps(l, run, a);
    } else {
      WaitingArms(l, run, a, n - 1);
      Steps(l, run, n - 1);
    }
  }

  // The answer that counts at k: of the same process, and with no kill since.
  ghost predicate Counts(l: Limits, run: seq<Seen>, a: int, k: nat)
    requires k < |run|
  {
    Waiting(l, run, a, k) && run[k].pid == run[a].pid
  }

  // What the verdicts other than a kill say, in terms of the observations.
  lemma VerdictsMean(l: Limits, run: seq<Seen>, k: nat)
    requires k < |run|
    ensures Said(l, run, k) == Ok <==> run[k].pid.Some? && run[k].answered == Some(true)
    ensures Said(l, run, k) == Booting
            <==> run[k].pid.Some? && run[k].answered != Some(true) && forall a :: !Counts(l, run, a, k)
    ensures run[k].pid.None? ==> Said(l, run, k) == Quiet
    ensures Said(l, run, k) in {Silent, Kill} ==> run[k].answered.None? || Burning(l, run[k].cpu)
    ensures (exists a :: Counts(l, run, a, k)) && run[k].answered == Some(false) && !Burning(l, run[k].cpu)
            ==> Said(l, run, k) == Quiet
  {
    hide After, Inv;
    InvAlways(l, run, k);
    Armed(l, run, k);
    Steps(l, run, k);
    forall a | Counts(l, run, a, k)
      ensures After(l, run, k).armed && After(l, run, k).pid == run[k].pid
    {
      WaitingArms(l, run, a, k);
    }
    if After(l, run, k).armed && After(l, run, k).pid == run[k].pid && run[k].pid.Some? {
      WaitingPid(l, run, k);
      assert Counts(l, run, Answered(run, k), k);
    }
  }

  lemma Armed(l: Limits, run: seq<Seen>, k: nat)
    requires k < |run| && Inv(l, run, k)
    ensures After(l, run, k).armed ==> After(l, run, k).pid.Some?
  {
  }
}
