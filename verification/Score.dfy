/** The evaluator's numbers over a recorded run, and the bound that cuts a run behind its fourth compile. */
module Score {
  import opened Number
  import opened LoopMonitors

  datatype Kind = RunStart | Tool | Verify | Answer | Other | Orphan

  // One line of the protocol; arm and task are read from a run's first record.
  datatype Record = Record(kind: Kind, name: string, path: string, refused: bool, result: Option<Result>,
                           arm: Option<bool>, task: Option<string>)

  type Run = seq<Record>

  const COMPILE_BOUND: nat := 4

  predicate IsCompile(r: Record) {
    r.kind.Tool? && !r.refused && CompileTool(r.name)
  }

  function AllCompiles(run: Run): (r: Run)
    ensures |r| <= |run|
    ensures forall c :: c in r ==> c in run && IsCompile(c)
  {
    if run == [] then [] else AllCompiles(run[..|run| - 1]) + if IsCompile(run[|run| - 1]) then [run[|run| - 1]] else []
  }

  function First(s: Run, k: nat): (r: Run)
    ensures |r| <= k && r <= s
  {
    if |s| <= k then s else s[..k]
  }

  // The compiles that a bound counting right would have let through.
  function CompilesOf(run: Run): Run {
    First(AllCompiles(run), COMPILE_BOUND)
  }

  function VerdictOf(r: Record): Option<bool> {
    Verdict(r.result)
  }

  function FirstAttemptOk(run: Run): Option<bool> {
    var cs := CompilesOf(run);
    if cs == [] then None else VerdictOf(cs[0])
  }

  predicate AnyOk(cs: Run) {
    cs != [] && (VerdictOf(cs[0]) == Some(true) || AnyOk(cs[1..]))
  }

  function RepairedWithin(run: Run, k: nat): Option<bool> {
    var cs := CompilesOf(run);
    if k < 2 || |cs| < 2 || VerdictOf(cs[0]) != Some(false) then None else Some(AnyOk(First(cs, k)[1..]))
  }

  predicate PassedWithin(run: Run, k: nat) {
    AnyOk(First(CompilesOf(run), k))
  }

  function Mix(cs: Run): map<string, nat> {
    if cs == [] then map[]
    else
      var m, name := Mix(cs[..|cs| - 1]), cs[|cs| - 1].name;
      m[name := (if name in m then m[name] else 0) + 1]
  }

  function ToolMix(run: Run): map<string, nat> {
    Mix(CompilesOf(run))
  }

  function Arm(r: Record): Option<bool> {
    if r.result.Some? then r.result.value.lint else None
  }

  function ObservedArms(run: Run): set<bool> {
    set c | c in CompilesOf(run) && Arm(c).Some? :: Arm(c).value
  }

  // A tool record as the termination watch is told of it.
  function EventOf(r: Record): Event {
    Event(r.name, r.path,
          if r.refused
          then Some((if r.result.Some? then r.result.value else Result(false, None, None, None)).(refused := true))
          else r.result)
  }

  function Events(run: Run): Trace {
    if run == [] then []
    else Events(run[..|run| - 1]) + if run[|run| - 1].kind.Tool? then [EventOf(run[|run| - 1])] else []
  }

  // The run up to its fifth executed compile.
  function Cut(run: Run): (r: Run)
    ensures r <= run
  {
    if run == [] then run
    else
      var c := Cut(run[..|run| - 1]);
      if |c| < |run| - 1 || (IsCompile(run[|run| - 1]) && |AllCompiles(c)| == COMPILE_BOUND) then c else run
  }

  function EndingOf(run: Run): Outcome {
    OutcomeOf(Events(Cut(run)))
  }

  method Termination(run: Run) returns (r: Outcome)
    ensures r == EndingOf(run)
  {
    hide IsCompile, OutcomeOf;
    var watch := new TerminationWatch();
    var seen := 0;
    var i := 0;
    CutStart(run);
    while i < |run|
      invariant i <= |run| && fresh(watch) && watch.Valid()
      invariant Cut(run[..i]) == run[..i] && watch.trace == Events(run[..i])
      invariant seen == |AllCompiles(run[..i])| <= COMPILE_BOUND
      invariant i == |run| ==> Cut(run) == run
    {
      CutStep(run, i);
      if run[i].kind.Tool? {
        if IsCompile(run[i]) {
          seen := seen + 1;
          if seen > COMPILE_BOUND {
            break;
          }
        }
        watch.Note(EventOf(run[i]));
      }
      i := i + 1;
    }
    CutStop(run, i);
    r := watch.Ending();
  }

  lemma CutStart(run: Run)
    ensures Cut(run[..0]) == run[..0] && Events(run[..0]) == [] && AllCompiles(run[..0]) == []
    ensures run == [] ==> Cut(run) == run
  {
  }

  lemma CutStep(run: Run, i: nat)
    requires i < |run| && Cut(run[..i]) == run[..i]
    ensures Events(run[..i + 1]) == Events(run[..i]) + if run[i].kind.Tool? then [EventOf(run[i])] else []
    ensures AllCompiles(run[..i + 1]) == AllCompiles(run[..i]) + if IsCompile(run[i]) then [run[i]] else []
    ensures IsCompile(run[i]) ==> run[i].kind.Tool?
    ensures Cut(run[..i + 1])
            == if IsCompile(run[i]) && |AllCompiles(run[..i])| == COMPILE_BOUND then run[..i] else run[..i + 1]
    ensures run[..|run|] == run
  {
    hide EventOf;
    assert run[..i + 1][..i] == run[..i];
  }

  // Where the loop stops, the run is cut.
  lemma CutStop(run: Run, i: nat)
    requires i <= |run| && Cut(run[..i]) == run[..i]
    requires i == |run| || (IsCompile(run[i]) && |AllCompiles(run[..i])| == COMPILE_BOUND)
    ensures Cut(run) == run[..i]
  {
    if i < |run| {
      CutStep(run, i);
      CutStays(run, i + 1, i);
    } else {
      assert run[..i] == run;
    }
  }

  lemma {:induction false} CutStays(run: Run, n: nat, i: nat)
    requires i < n <= |run| && Cut(run[..n]) == run[..i]
    ensures Cut(run) == run[..i]
    decreases |run| - n
  {
    if n < |run| {
      assert run[..n + 1][..n] == run[..n];
      CutStays(run, n + 1, i);
    } else {
      assert run[..n] == run;
    }
  }

  /** What the bound means */

  lemma CutLast(run: Run)
    requires run != []
    ensures var u, r := run[..|run| - 1], run[|run| - 1];
            && Cut(run) == (if |Cut(u)| < |u| || (IsCompile(r) && |AllCompiles(Cut(u))| == COMPILE_BOUND)
                            then Cut(u) else run)
            && AllCompiles(run) == AllCompiles(u) + if IsCompile(r) then [r] else []
  {
  }

  // The cut is a prefix with at most four compiles; what is cut off starts with the fifth.
  lemma {:induction false} CutMeaning(run: Run)
    ensures |AllCompiles(Cut(run))| <= COMPILE_BOUND
    ensures |Cut(run)| < |run| ==> IsCompile(run[|Cut(run)|]) && |AllCompiles(Cut(run))| == COMPILE_BOUND
    ensures AllCompiles(Cut(run)) == CompilesOf(run)
  {
    if run == [] {
      assert Cut(run) == [] && AllCompiles(run) == [];
    } else {
      hide Cut, AllCompiles, IsCompile;
      CutMeaning(run[..|run| - 1]);
      CutLast(run);
    }
  }

  lemma {:induction false} CutShort(run: Run)
    requires |AllCompiles(run)| <= COMPILE_BOUND
    ensures Cut(run) == run
  {
    if run != [] {
      hide Cut, AllCompiles, IsCompile;
      CutLast(run);
      CutShort(run[..|run| - 1]);
    }
  }

  // Truncation is exact: every one of these numbers is the same on the run and on the run the bound would have made.
  lemma TruncationExact(run: Run)
    ensures var cut := Cut(run);
            && FirstAttemptOk(cut) == FirstAttemptOk(run)
            && (forall k: nat :: RepairedWithin(cut, k) == RepairedWithin(run, k))
            && (forall k: nat :: PassedWithin(cut, k) == PassedWithin(run, k))
            && ToolMix(cut) == ToolMix(run) && ObservedArms(cut) == ObservedArms(run)
            && EndingOf(cut) == EndingOf(run)
  {
    hide Cut, AllCompiles, IsCompile, Mix, VerdictOf, AnyOk, Events, OutcomeOf;
    CutMeaning(run);
    CutShort(Cut(run));
    assert CompilesOf(Cut(run)) == CompilesOf(run);
  }

  lemma AnyOkAt(cs: Run)
    ensures AnyOk(cs) <==> exists i :: 0 <= i < |cs| && VerdictOf(cs[i]) == Some(true)
  {
    hide VerdictOf;
    if cs != [] {
      AnyOkAt(cs[1..]);
      assert AnyOk(cs[1..]) ==> exists i :: 0 <= i < |cs[1..]| && VerdictOf(cs[1..][i]) == Some(true);
      if i :| 0 <= i < |cs| && VerdictOf(cs[i]) == Some(true) {
        assert i > 0 ==> cs[1..][i - 1] == cs[i];
      }
    }
  }

  // More attempts never lose a pass, and from four on they change nothing.
  lemma PassedMonotone(run: Run, j: nat, k: nat)
    requires j <= k
    ensures PassedWithin(run, j) ==> PassedWithin(run, k)
    ensures j >= COMPILE_BOUND ==> PassedWithin(run, j) == PassedWithin(run, k)
  {
    hide AllCompiles, VerdictOf, AnyOk;
    var cs := CompilesOf(run);
    AnyOkAt(First(cs, j));
    AnyOkAt(First(cs, k));
    if PassedWithin(run, j) {
      var i :| 0 <= i < |First(cs, j)| && VerdictOf(First(cs, j)[i]) == Some(true);
      assert First(cs, k)[i] == First(cs, j)[i];
    }
  }

  // After a failed first attempt, repairing within k attempts is passing within k attempts.
  lemma RepairedIsPassed(run: Run, k: nat)
    requires k >= 2 && FirstAttemptOk(run) == Some(false) && |CompilesOf(run)| >= 2
    ensures RepairedWithin(run, k) == Some(PassedWithin(run, k))
  {
    hide AllCompiles;
    var cs := CompilesOf(run);
    assert First(cs, k)[0] == cs[0];
  }

  lemma {:induction false} EventsAre(run: Run)
    ensures forall e :: e in Events(run) ==> exists r :: r in run && r.kind.Tool? && e == EventOf(r)
  {
    hide EventOf;
    if run != [] {
      var u, r := run[..|run| - 1], run[|run| - 1];
      EventsAre(u);
      forall e | e in Events(run)
        ensures exists r :: r in run && r.kind.Tool? && e == EventOf(r)
      {
        if e in Events(u) {
          var q :| q in u && q.kind.Tool? && e == EventOf(q);
          assert q in run;
        } else {
          assert r in run;
        }
      }
    }
  }

  lemma {:induction false} CompileListed(run: Run, r: Record)
    requires r in run && IsCompile(r)
    ensures r in AllCompiles(run)
  {
    hide IsCompile;
    if r != run[|run| - 1] {
      var i :| 0 <= i < |run| && run[i] == r;
      assert run[..|run| - 1][i] == r;
      CompileListed(run[..|run| - 1], r);
    }
  }

  // An ending that says the last change compiled is a pass within the bound.
  lemma RecompiledIsPassed(run: Run)
    requires EndingOf(run) == RecompiledOk
    ensures PassedWithin(run, COMPILE_BOUND)
  {
    hide Cut, AllCompiles, AnyOk, Events, CompileTool, WriteTool;
    var cut := Cut(run);
    var c := LastCompile(Events(cut)).value;
    var e := Events(cut)[c];
    EventsAre(cut);
    assert e in Events(cut) && Compiles(e) && Verdict(e.result) == Some(true);
    var r :| r in cut && r.kind.Tool? && e == EventOf(r);
    assert IsCompile(r) && VerdictOf(r) == Some(true);
    CompileListed(cut, r);
    CutMeaning(run);
    AnyOkAt(CompilesOf(run));
    var i :| 0 <= i < |CompilesOf(run)| && CompilesOf(run)[i] == r;
    assert VerdictOf(CompilesOf(run)[i]) == Some(true);
  }
}
