/** The evaluator's measures in terms of the records alone: which compiling call was which attempt, and what it said. */
module ScoreMeaning {
  import opened Number
  import opened LoopMonitors
  import opened Score
  import opened ScoreTables

  // A compiling call that reached its tool.
  ghost predicate Tried(r: Record) {
    r.kind == Tool && !r.refused && r.name in {"mac_compile", "mac_build"}
  }

  // How many of the first p records are.
  ghost function TriedBefore(run: Run, p: nat): (n: nat)
    requires p <= |run|
  {
    if p == 0 then 0 else TriedBefore(run, p - 1) + if Tried(run[p - 1]) then 1 else 0
  }

  // Record p is attempt i, counted from 0.
  ghost predicate Attempt(run: Run, p: nat, i: nat) {
    p < |run| && Tried(run[p]) && TriedBefore(run, p) == i
  }

  lemma TriedIs(r: Record)
    ensures Tried(r) <==> IsCompile(r)
  {
  }

  lemma {:induction false} TriedPrefix(run: Run, n: nat, p: nat)
    requires p <= n <= |run|
    ensures TriedBefore(run[..n], p) == TriedBefore(run, p)
  {
    if p > 0 {
      TriedPrefix(run, n, p - 1);
    }
  }

  // Attempt i is entry i of the list of compiles.
  lemma {:induction false} AttemptIs(run: Run, p: nat, i: nat)
    requires Attempt(run, p, i)
    ensures i < |AllCompiles(run)| && AllCompiles(run)[i] == run[p]
    decreases |run|
  {
    hide IsCompile;
    var n := |run| - 1;
    TriedIs(run[n]);
    TriedPrefix(run, n, p);
    if p < n {
      AttemptIs(run[..n], p, i);
    } else {
      CompileCounts(run[..n]);
      TriedPrefix(run, n, n);
    }
  }

  lemma {:induction false} CompileCounts(run: Run)
    ensures |AllCompiles(run)| == TriedBefore(run, |run|)
  {
    hide IsCompile;
    if run != [] {
      var n := |run| - 1;
      TriedIs(run[n]);
      CompileCounts(run[..n]);
      TriedPrefix(run, n, n);
    }
  }

  lemma {:induction false} AttemptOf(run: Run, i: nat) returns (p: nat)
    requires i < |AllCompiles(run)|
    ensures Attempt(run, p, i) && run[p] == AllCompiles(run)[i]
  {
    hide IsCompile;
    var n := |run| - 1;
    TriedIs(run[n]);
    if i < |AllCompiles(run[..n])| {
      p := AttemptOf(run[..n], i);
      TriedPrefix(run, n, p);
    } else {
      p := n;
      CompileCounts(run[..n]);
      TriedPrefix(run, n, n);
    }
  }

  ghost predicate Made(run: Run, i: nat, r: Record) {
    exists p: nat :: Attempt(run, p, i) && run[p] == r
  }

  // The scored compiles are the attempts 0 to 3.
  lemma Scored(run: Run)
    ensures |CompilesOf(run)| <= 4
    ensures forall i: nat :: i < |CompilesOf(run)| ==> Made(run, i, CompilesOf(run)[i])
    ensures forall p: nat, i: nat :: Attempt(run, p, i) && i < 4 ==>
              i < |CompilesOf(run)| && CompilesOf(run)[i] == run[p]
  {
    hide CompilesOf, Tried, TriedBefore, AllCompiles;
    ScoredList(run);
    forall i: nat | i < |CompilesOf(run)|
      ensures Made(run, i, CompilesOf(run)[i])
    {
      var p := AttemptOf(run, i);
    }
    forall p: nat, i: nat | Attempt(run, p, i) && i < 4
      ensures i < |CompilesOf(run)| && CompilesOf(run)[i] == run[p]
    {
      AttemptIs(run, p, i);
    }
  }

  lemma ScoredList(run: Run)
    ensures |CompilesOf(run)| == if |AllCompiles(run)| < 4 then |AllCompiles(run)| else 4
    ensures forall i :: 0 <= i < |CompilesOf(run)| ==> CompilesOf(run)[i] == AllCompiles(run)[i]
  {
    hide AllCompiles;
  }

  lemma VerdictSays(r: Record)
    ensures forall word :: VerdictOf(r) == Some(word) <==> Says(r.result, word)
  {
    SaysIs(r.result, true);
    SaysIs(r.result, false);
  }

  lemma {:induction false} AnyOkIff(cs: Run)
    ensures AnyOk(cs) <==> exists i :: 0 <= i < |cs| && Says(cs[i].result, true)
  {
    hide Says;
    if cs != [] {
      VerdictSays(cs[0]);
      AnyOkIff(cs[1..]);
      if AnyOk(cs[1..]) {
        var i :| 0 <= i < |cs[1..]| && Says(cs[1..][i].result, true);
        assert Says(cs[i + 1].result, true);
      }
      if i :| 0 <= i < |cs| && Says(cs[i].result, true) && i > 0 {
        assert Says(cs[1..][i - 1].result, true);
      }
    }
  }

  // An attempt from `from` on, below k and below 4, whose tool said yes.
  ghost predicate Succeeds(run: Run, from: nat, k: nat) {
    exists p: nat, i: nat :: Attempt(run, p, i) && from <= i < k && i < 4 && Says(run[p].result, true)
  }

  lemma SomeSucceeds(run: Run, from: nat, k: nat)
    requires from <= |First(CompilesOf(run), k)|
    ensures AnyOk(First(CompilesOf(run), k)[from..]) <==> Succeeds(run, from, k)
  {
    hide Says, Tried, TriedBefore, CompilesOf;
    Scored(run);
    var cs := First(CompilesOf(run), k);
    AnyOkIff(cs[from..]);
    if AnyOk(cs[from..]) {
      var i :| 0 <= i < |cs[from..]| && Says(cs[from..][i].result, true);
      assert cs[from..][i] == cs[from + i] == CompilesOf(run)[from + i];
      assert Made(run, from + i, CompilesOf(run)[from + i]);
      var p: nat :| Attempt(run, p, from + i) && run[p] == CompilesOf(run)[from + i];
      assert Says(run[p].result, true);
    }
    if Succeeds(run, from, k) {
      var p: nat, i: nat :| Attempt(run, p, i) && from <= i < k && i < 4 && Says(run[p].result, true);
      assert cs[from..][i - from] == CompilesOf(run)[i] == run[p];
      assert Says(cs[from..][i - from].result, true);
    }
  }

  // A run passes within k exactly when one of its first k attempts, and of its first four, succeeded.
  lemma PassedMeans(run: Run, k: nat)
    ensures PassedWithin(run, k) <==> Succeeds(run, 0, k)
  {
    hide AnyOk, Succeeds, CompilesOf, First;
    SomeSucceeds(run, 0, k);
    assert First(CompilesOf(run), k)[0..] == First(CompilesOf(run), k);
  }

  // The first attempt's own word, and none when there is no attempt or it has no word.
  lemma FirstMeans(run: Run, word: bool)
    ensures FirstAttemptOk(run) == Some(word) <==> exists p: nat :: Attempt(run, p, 0) && Says(run[p].result, word)
  {
    hide Says, Tried, TriedBefore, VerdictOf, CompilesOf;
    Scored(run);
    var cs := CompilesOf(run);
    if cs != [] {
      VerdictSays(cs[0]);
      assert Made(run, 0, cs[0]);
    }
  }

  // The repair rate counts runs with two attempts of which the first failed, and asks for a success among the others.
  lemma RepairMeans(run: Run, k: nat)
    ensures RepairedWithin(run, k).Some?
            <==> && k >= 2 && (exists p: nat :: Attempt(run, p, 0) && Says(run[p].result, false))
                 && exists p: nat :: Attempt(run, p, 1)
    ensures RepairedWithin(run, k).Some? ==> (RepairedWithin(run, k).value <==> Succeeds(run, 1, k))
  {
    hide Says, Tried, TriedBefore, AnyOk, Succeeds, VerdictOf, CompilesOf;
    Scored(run);
    FirstMeans(run, false);
    var cs := CompilesOf(run);
    if |cs| >= 2 {
      VerdictSays(cs[0]);
      assert cs[1] == CompilesOf(run)[1];
      assert Made(run, 1, cs[1]);
    }
    if RepairedWithin(run, k).Some? {
      SomeSucceeds(run, 1, k);
    }
  }

  // The arms seen are those that the scored attempts ran under.
  lemma ArmsMean(run: Run, lint: bool)
    ensures lint in ObservedArms(run)
            <==> exists p: nat, i: nat :: Attempt(run, p, i) && i < 4 && run[p].result.Some?
                                && run[p].result.value.lint == Some(lint)
  {
    hide Tried, TriedBefore, CompilesOf;
    Scored(run);
    var cs := CompilesOf(run);
    if lint in ObservedArms(run) {
      var c :| c in cs && Arm(c) == Some(lint);
      var i :| 0 <= i < |cs| && cs[i] == c;
      assert Made(run, i, cs[i]);
      var p: nat :| Attempt(run, p, i) && run[p] == cs[i];
    }
    if p: nat, i: nat :| Attempt(run, p, i) && i < 4 && run[p].result.Some? && run[p].result.value.lint == Some(lint) {
      assert cs[i] in cs && Arm(cs[i]) == Some(lint);
    }
  }

  // The declared arm is the run's; without one it is lint when some attempt ran under it, else nolint when one did.
  lemma RunArmMeans(run: Run)
    requires run != []
    ensures run[0].arm.Some? ==> RunArm(run) == run[0].arm
    ensures run[0].arm.None? ==>
              && (RunArm(run) == Some(true) <==> true in ObservedArms(run))
              && (RunArm(run) == Some(false) <==> false in ObservedArms(run) && true !in ObservedArms(run))
  {
    hide ObservedArms;
  }

  /** The tool mix, and what the watch is told */

  // How often the name occurs.
  function Tally(cs: Run, name: string): nat {
    if cs == [] then 0 else (if cs[0].name == name then 1 else 0) + Tally(cs[1..], name)
  }

  lemma {:induction false} TallyLast(cs: Run, r: Record, name: string)
    ensures Tally(cs + [r], name) == Tally(cs, name) + if r.name == name then 1 else 0
  {
    if cs == [] {
      assert cs + [r] == [r];
    } else {
      assert (cs + [r])[1..] == cs[1..] + [r];
      TallyLast(cs[1..], r, name);
    }
  }

  lemma {:induction false} MixTallies(cs: Run, name: string)
    ensures name in Mix(cs) <==> Tally(cs, name) > 0
    ensures name in Mix(cs) ==> Mix(cs)[name] == Tally(cs, name)
    decreases |cs|
  {
    if cs != [] {
      var u, r := cs[..|cs| - 1], cs[|cs| - 1];
      MixTallies(u, name);
      MixTallies(u, r.name);
      assert cs == u + [r];
      TallyLast(u, r, name);
    }
  }

  // The mix counts the scored attempts by name.
  lemma MixMeans(run: Run, name: string)
    ensures name in ToolMix(run) <==> exists p: nat, i: nat :: Attempt(run, p, i) && i < 4 && run[p].name == name
    ensures name in ToolMix(run) ==> ToolMix(run)[name] == Tally(CompilesOf(run), name)
  {
    hide Tried, TriedBefore, CompilesOf, Mix;
    Scored(run);
    var cs := CompilesOf(run);
    MixTallies(cs, name);
    TallyIff(cs, name);
    if Tally(cs, name) > 0 {
      var i: nat :| i < |cs| && cs[i].name == name;
      assert Made(run, i, cs[i]);
    }
    if p: nat, i: nat :| Attempt(run, p, i) && i < 4 && run[p].name == name {
      assert cs[i].name == name;
    }
  }

  lemma {:induction false} TallyIff(cs: Run, name: string)
    ensures Tally(cs, name) > 0 <==> exists i: nat :: i < |cs| && cs[i].name == name
  {
    if cs != [] {
      TallyIff(cs[1..], name);
      if Tally(cs[1..], name) > 0 {
        var i: nat :| i < |cs[1..]| && cs[1..][i].name == name;
        assert cs[i + 1].name == name;
      }
      if i: nat :| i < |cs| && cs[i].name == name && i > 0 {
        assert cs[1..][i - 1].name == name;
      }
    }
  }

  ghost function ToolsBefore(run: Run, p: nat): nat
    requires p <= |run|
  {
    if p == 0 then 0 else ToolsBefore(run, p - 1) + if run[p - 1].kind == Tool then 1 else 0
  }

  lemma {:induction false} ToolsPrefix(run: Run, n: nat, p: nat)
    requires p <= n <= |run|
    ensures ToolsBefore(run[..n], p) == ToolsBefore(run, p)
  {
    if p > 0 {
      ToolsPrefix(run, n, p - 1);
    }
  }

  // The watch is told of every tool record in turn: its name and path, and its result unless the call was refused,
  // when it is told that.
  lemma {:induction false} WatchIsTold(run: Run, p: nat)
    requires p < |run| && run[p].kind == Tool
    ensures |Events(run)| == ToolsBefore(run, |run|)
    ensures var i := ToolsBefore(run, p);
            && i < |Events(run)| && Events(run)[i].tool == run[p].name && Events(run)[i].path == run[p].path
            && (!run[p].refused ==> Events(run)[i].result == run[p].result)
            && (run[p].refused ==> Events(run)[i].result.Some? && Events(run)[i].result.value.refused)
    decreases |run|
  {
    var n := |run| - 1;
    EventCount(run);
    EventCount(run[..n]);
    ToolsPrefix(run, n, p);
    ToolsPrefix(run, n, n);
    if p < n {
      WatchIsTold(run[..n], p);
    }
  }

  lemma {:induction false} EventCount(run: Run)
    ensures |Events(run)| == ToolsBefore(run, |run|)
  {
    if run != [] {
      EventCount(run[..|run| - 1]);
      ToolsPrefix(run, |run| - 1, |run| - 1);
    }
  }
}
