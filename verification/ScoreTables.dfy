/** Splitting a protocol into runs, and the paired two-by-two table of the two arms. */
module ScoreTables {
  import opened Number
  import opened Score

  const ORPHAN_MARK := Record(Orphan, "", "", false, None, None, None)

  function Joined(runs: seq<Run>): Run {
    if runs == [] then [] else Joined(runs[..|runs| - 1]) + runs[|runs| - 1]
  }

  predicate Starts(r: Record) {
    r.kind.RunStart?
  }

  ghost predicate OneRun(run: Run) {
    run != [] && forall k :: 1 <= k < |run| ==> !Starts(run[k])
  }

  // Records before the first run_start become a group of their own behind a mark.
  function Marked(records: Run): Run {
    if records != [] && !Starts(records[0]) then [ORPHAN_MARK] + records else records
  }

  // Every run starts where a run_start is, or is the marked group in front.
  ghost predicate Split(runs: seq<Run>, records: Run) {
    && Joined(runs) == Marked(records)
    && (forall i :: 0 <= i < |runs| ==> OneRun(runs[i]))
    && forall i :: 0 <= i < |runs| ==> Starts(runs[i][0]) || (i == 0 && records != [] && !Starts(records[0]))
  }

  // current is None before the first record and otherwise a run that goes on.
  ghost predicate Splitting(runs: seq<Run>, current: Option<Run>, records: Run) {
    if current.None? then runs == [] && records == [] else Split(runs + [current.value], records)
  }

  lemma JoinedMore(runs: seq<Run>, run: Run)
    ensures Joined(runs + [run]) == Joined(runs) + run
  {
    assert (runs + [run])[..|runs|] == runs;
  }

  lemma SplitOpen(r: Record)
    ensures Split([if Starts(r) then [r] else [ORPHAN_MARK, r]], [r])
  {
    JoinedMore([], if Starts(r) then [r] else [ORPHAN_MARK, r]);
    assert [] + [if Starts(r) then [r] else [ORPHAN_MARK, r]] == [if Starts(r) then [r] else [ORPHAN_MARK, r]];
  }

  lemma SplitMore(runs: seq<Run>, run: Run, records: Run, r: Record)
    requires Split(runs + [run], records)
    ensures if Starts(r) then Split(runs + [run] + [[r]], records + [r]) else Split(runs + [run + [r]], records + [r])
  {
    JoinedMore(runs, run);
    JoinedMore(runs, run + [r]);
    JoinedMore(runs + [run], [r]);
    var all := runs + [run];
    assert all[|runs|] == run;
    MarkedMore(runs, run, records, r);
    if !Starts(r) {
      OneMore(runs, run, records, r);
    } else {
      NewRun(all, records, r);
    }
  }

  lemma MarkedMore(runs: seq<Run>, run: Run, records: Run, r: Record)
    requires Split(runs + [run], records)
    ensures records != [] && Marked(records + [r]) == Marked(records) + [r]
  {
    JoinedMore(runs, run);
    assert (runs + [run])[|runs|] == run;
    assert run != [];
  }

  lemma OneMore(runs: seq<Run>, run: Run, records: Run, r: Record)
    requires Split(runs + [run], records) && records != [] && !Starts(r)
    ensures forall i :: 0 <= i < |runs| + 1 ==> OneRun((runs + [run + [r]])[i])
    ensures forall i :: 0 <= i < |runs| + 1 ==>
                          Starts((runs + [run + [r]])[i][0]) || (i == 0 && !Starts((records + [r])[0]))
  {
    hide Joined, Marked;
    var all, now := runs + [run], runs + [run + [r]];
    assert all[|runs|] == run;
    forall i | 0 <= i < |now|
      ensures OneRun(now[i]) && (Starts(now[i][0]) || (i == 0 && !Starts((records + [r])[0])))
    {
      assert i < |runs| ==> now[i] == all[i];
      assert OneRun(all[i]);
    }
  }

  lemma NewRun(all: seq<Run>, records: Run, r: Record)
    requires Split(all, records) && records != [] && Starts(r)
    ensures forall i :: 0 <= i < |all| + 1 ==> OneRun((all + [[r]])[i])
    ensures forall i :: 0 <= i < |all| + 1 ==> Starts((all + [[r]])[i][0]) || (i == 0 && !Starts((records + [r])[0]))
  {
    hide Joined, Marked;
    var now := all + [[r]];
    forall i | 0 <= i < |now|
      ensures OneRun(now[i]) && (Starts(now[i][0]) || (i == 0 && !Starts((records + [r])[0])))
    {
      if i < |all| {
        assert now[i] == all[i];
        assert OneRun(all[i]);
      }
    }
  }

  method SplitRuns(records: Run) returns (runs: seq<Run>)
    ensures Split(runs, records)
  {
    hide Split, Joined;
    runs := [];
    var current: Option<Run> := None;
    for n := 0 to |records|
      invariant Splitting(runs, current, records[..n])
    {
      var r := records[n];
      assert records[..n + 1] == records[..n] + [r];
      if current.None? {
        SplitOpen(r);
        assert records[..n + 1] == [r];
        current := Some(if Starts(r) then [r] else [ORPHAN_MARK, r]);
        assert runs + [current.value] == [current.value];
      } else {
        SplitMore(runs, current.value, records[..n], r);
        if Starts(r) {
          runs := runs + [current.value];
          current := Some([r]);
        } else {
          current := Some(current.value + [r]);
        }
      }
    }
    assert records[..|records|] == records;
    if current.Some? {
      runs := runs + [current.value];
    } else {
      NoRuns();
    }
  }

  lemma NoRuns()
    ensures Split([], [])
  {
  }

  /** The paired table */

  // What a task's runs say in the two arms; None when no run, or an undecided one, says it.
  datatype Pair = Pair(lint: Option<bool>, nolint: Option<bool>)

  // The arm a run was made under: declared, else observed, and lint before nolint when it saw both.
  function RunArm(run: Run): Option<bool>
    requires run != []
  {
    if run[0].arm.Some? then run[0].arm
    else if true in ObservedArms(run) then Some(true)
    else if false in ObservedArms(run) then Some(false)
    else None
  }

  function Entered(m: map<string, Pair>, run: Run, key: Run -> Option<bool>): map<string, Pair>
    requires run != []
  {
    var task, arm := run[0].task, RunArm(run);
    if task.None? || arm.None? then
      m
    else
      var p := if task.value in m then m[task.value] else Pair(None, None);
      m[task.value := if arm.value then p.(lint := key(run)) else p.(nolint := key(run))]
  }

  predicate Runs(runs: seq<Run>) {
    forall i :: 0 <= i < |runs| ==> runs[i] != []
  }

  // The last run of a task in an arm.
  function LastRun(runs: seq<Run>, task: string, arm: bool): (r: Option<nat>)
    requires Runs(runs)
    ensures r.Some? ==> r.value < |runs| && runs[r.value][0].task == Some(task) && RunArm(runs[r.value]) == Some(arm)
    ensures forall i :: (if r.Some? then r.value + 1 else 0) <= i < |runs| ==>
              runs[i][0].task != Some(task) || RunArm(runs[i]) != Some(arm)
  {
    if runs == [] then None
    else if runs[|runs| - 1][0].task == Some(task) && RunArm(runs[|runs| - 1]) == Some(arm) then Some(|runs| - 1)
    else LastRun(runs[..|runs| - 1], task, arm)
  }

  function Cell(runs: seq<Run>, task: string, arm: bool, key: Run -> Option<bool>): Option<bool>
    requires Runs(runs)
  {
    var r := LastRun(runs, task, arm);
    if r.None? then None else key(runs[r.value])
  }

  // The table holds the last word of every task in every arm.
  ghost predicate Tabulates(m: map<string, Pair>, runs: seq<Run>, key: Run -> Option<bool>)
    requires Runs(runs)
  {
    forall task ::
      && (task in m <==> LastRun(runs, task, true).Some? || LastRun(runs, task, false).Some?)
      && (task in m ==> m[task] == Pair(Cell(runs, task, true, key), Cell(runs, task, false, key)))
  }

  datatype Cells = Cells(both: set<string>, onlyLint: set<string>, onlyNolint: set<string>, neither: set<string>,
                         incomplete: set<string>)

  function CellsOf(m: map<string, Pair>, tasks: set<string>): Cells
    requires tasks <= m.Keys
  {
    Cells(set t | t in tasks && Yes(m[t].lint) && Yes(m[t].nolint),
          set t | t in tasks && Yes(m[t].lint) && No(m[t].nolint),
          set t | t in tasks && No(m[t].lint) && Yes(m[t].nolint),
          set t | t in tasks && No(m[t].lint) && No(m[t].nolint),
          set t | t in tasks && (m[t].lint.None? || m[t].nolint.None?))
  }

  predicate Yes(o: Option<bool>) {
    o.Some? && o.value
  }

  predicate No(o: Option<bool>) {
    o.Some? && !o.value
  }

  datatype Table = Table(cells: Cells, pairs: int, switchers: set<string>, net: int)

  lemma EnteredRow(m: map<string, Pair>, runs: seq<Run>, run: Run, key: Run -> Option<bool>)
    requires Runs(runs) && run != [] && Tabulates(m, runs, key)
    ensures Tabulates(Entered(m, run, key), runs + [run], key)
  {
    hide RunArm;
    var all := runs + [run];
    assert all[..|runs|] == runs;
    forall task
      ensures var now := Entered(m, run, key);
              && (task in now <==> LastRun(all, task, true).Some? || LastRun(all, task, false).Some?)
              && (task in now ==> now[task] == Pair(Cell(all, task, true, key), Cell(all, task, false, key)))
    {
      CellMore(runs, run, task, true, key);
      CellMore(runs, run, task, false, key);
    }
  }

  lemma CellMore(runs: seq<Run>, run: Run, task: string, arm: bool, key: Run -> Option<bool>)
    requires Runs(runs) && run != []
    ensures var hit, all := run[0].task == Some(task) && RunArm(run) == Some(arm), runs + [run];
            && LastRun(all, task, arm) == (if hit then Some(|runs|) else LastRun(runs, task, arm))
            && Cell(all, task, arm, key) == (if hit then key(run) else Cell(runs, task, arm, key))
  {
    hide RunArm;
    assert (runs + [run])[..|runs|] == runs;
  }

  // For any verdict on runs: the first attempt, or a pass within k compiles.
  method Paired(runs: seq<Run>, key: Run -> Option<bool>) returns (r: Table, ghost m: map<string, Pair>)
    requires Runs(runs)
    ensures Tabulates(m, runs, key)
    ensures r.cells == CellsOf(m, m.Keys) && r.pairs == |m| - |r.cells.incomplete|
    ensures r.switchers == r.cells.onlyLint + r.cells.onlyNolint && r.net == |r.cells.onlyLint| - |r.cells.onlyNolint|
  {
    hide Tabulates, Entered;
    var table: map<string, Pair> := map[];
    NoRows(key);
    for i := 0 to |runs|
      invariant Tabulates(table, runs[..i], key)
    {
      assert runs[..i + 1] == runs[..i] + [runs[i]];
      EnteredRow(table, runs[..i], runs[i], key);
      table := Entered(table, runs[i], key);
    }
    assert runs[..|runs|] == runs;
    m := table;
    var cells := Sorted(table);
    r := Table(cells, |table| - |cells.incomplete|, cells.onlyLint + cells.onlyNolint,
               |cells.onlyLint| - |cells.onlyNolint|);
  }

  method Sorted(table: map<string, Pair>) returns (cells: Cells)
    ensures cells == CellsOf(table, table.Keys)
  {
    hide CellsOf, Placed;
    var todo, done: set<string> := table.Keys, {};
    cells := Cells({}, {}, {}, {}, {});
    NoCells(table);
    while todo != {}
      invariant todo + done == table.Keys && todo !! done && cells == CellsOf(table, done)
      decreases |todo|
    {
      SomeTask(todo);
      var t :| t in todo;
      CellsMore(table, done, t);
      cells := Placed(cells, t, table[t]);
      todo, done := todo - {t}, done + {t};
    }
    assert done == table.Keys;
  }

  lemma SomeTask(tasks: set<string>)
    requires tasks != {}
    ensures exists t :: t in tasks
  {
  }

  lemma NoCells(m: map<string, Pair>)
    ensures CellsOf(m, {}) == Cells({}, {}, {}, {}, {})
  {
  }

  lemma NoRows(key: Run -> Option<bool>)
    ensures Tabulates(map[], [], key)
  {
  }

  // One task put into its cell.
  function Placed(c: Cells, t: string, p: Pair): Cells {
    if p.lint.None? || p.nolint.None? then c.(incomplete := c.incomplete + {t})
    else if p.lint.value && p.nolint.value then c.(both := c.both + {t})
    else if p.lint.value then c.(onlyLint := c.onlyLint + {t})
    else if p.nolint.value then c.(onlyNolint := c.onlyNolint + {t})
    else c.(neither := c.neither + {t})
  }

  lemma CellsMore(m: map<string, Pair>, done: set<string>, t: string)
    requires done <= m.Keys && t in m && t !in done
    ensures CellsOf(m, done + {t}) == Placed(CellsOf(m, done), t, m[t])
  {
    var a, b := CellsOf(m, done + {t}), Placed(CellsOf(m, done), t, m[t]);
    assert a.both == b.both;
    assert a.onlyLint == b.onlyLint;
    assert a.onlyNolint == b.onlyNolint;
    assert a.neither == b.neither;
    assert a.incomplete == b.incomplete;
  }

  lemma OneCell(m: map<string, Pair>, t: string)
    requires t in m
    ensures var c := CellsOf(m, m.Keys);
            && (t in c.incomplete <==> m[t].lint.None? || m[t].nolint.None?)
            && (t in c.both + c.onlyLint <==> Yes(m[t].lint) && m[t].nolint.Some?)
            && (t in c.both + c.onlyNolint <==> Yes(m[t].nolint) && m[t].lint.Some?)
            && (t in c.neither <==> No(m[t].lint) && No(m[t].nolint))
            && !(t in c.both && t in c.onlyLint) && !(t in c.both && t in c.onlyNolint)
  {
  }

  lemma Disjoint(a: set<string>, b: set<string>)
    requires a !! b
    ensures |a + b| == |a| + |b|
  {
  }

  lemma CellsOfKeys(m: map<string, Pair>)
    ensures var c := CellsOf(m, m.Keys);
            && c.both <= m.Keys && c.onlyLint <= m.Keys && c.onlyNolint <= m.Keys
            && c.neither <= m.Keys && c.incomplete <= m.Keys
  {
  }

  // Every task is in one cell, and the net gain is the difference of the two arms' passes among the complete pairs.
  lemma TableMargins(m: map<string, Pair>)
    ensures var c := CellsOf(m, m.Keys);
            && |m| == |c.both| + |c.onlyLint| + |c.onlyNolint| + |c.neither| + |c.incomplete|
            && |c.onlyLint| - |c.onlyNolint|
               == |set t | t in m && Yes(m[t].lint) && m[t].nolint.Some?|
                - |set t | t in m && Yes(m[t].nolint) && m[t].lint.Some?|
  {
    hide CellsOf;
    var c := CellsOf(m, m.Keys);
    CellsOfKeys(m);
    forall t | t in m
      ensures (t in c.incomplete <==> m[t].lint.None? || m[t].nolint.None?)
      ensures (t in c.both + c.onlyLint <==> Yes(m[t].lint) && m[t].nolint.Some?)
      ensures (t in c.both + c.onlyNolint <==> Yes(m[t].nolint) && m[t].lint.Some?)
      ensures (t in c.neither <==> No(m[t].lint) && No(m[t].nolint))
      ensures !(t in c.both && t in c.onlyLint) && !(t in c.both && t in c.onlyNolint)
    {
      OneCell(m, t);
    }
    Disjoint(c.both, c.onlyLint);
    Disjoint(c.both, c.onlyNolint);
    assert (set t | t in m && Yes(m[t].lint) && m[t].nolint.Some?) == c.both + c.onlyLint;
    assert (set t | t in m && Yes(m[t].nolint) && m[t].lint.Some?) == c.both + c.onlyNolint;
    Total(m);
  }

  lemma Total(m: map<string, Pair>)
    ensures var c := CellsOf(m, m.Keys);
            |m| == |c.both| + |c.onlyLint| + |c.onlyNolint| + |c.neither| + |c.incomplete|
  {
    hide CellsOf;
    var c := CellsOf(m, m.Keys);
    CellsApart(m);
    Disjoint(c.both, c.onlyLint);
    Disjoint(c.both + c.onlyLint, c.onlyNolint);
    Disjoint(c.both + c.onlyLint + c.onlyNolint, c.neither);
    Disjoint(c.both + c.onlyLint + c.onlyNolint + c.neither, c.incomplete);
    assert |m| == |m.Keys|;
  }

  lemma CellsApart(m: map<string, Pair>)
    ensures var c := CellsOf(m, m.Keys);
            && c.both !! c.onlyLint && c.both + c.onlyLint !! c.onlyNolint
            && c.both + c.onlyLint + c.onlyNolint !! c.neither
            && c.both + c.onlyLint + c.onlyNolint + c.neither !! c.incomplete
            && c.both + c.onlyLint + c.onlyNolint + c.neither + c.incomplete == m.Keys
  {
    var c := CellsOf(m, m.Keys);
    forall t | t in m
      ensures t in c.both || t in c.onlyLint || t in c.onlyNolint || t in c.neither || t in c.incomplete
    {
    }
  }

  /** The cells in terms of the runs */

  // The last run of the task in that arm has that verdict.
  ghost predicate LastSays(runs: seq<Run>, task: string, arm: bool, key: Run -> Option<bool>, word: bool)
    requires Runs(runs)
  {
    exists i :: LastAt(runs, task, arm, i) && key(runs[i]) == Some(word)
  }

  ghost predicate LastAt(runs: seq<Run>, task: string, arm: bool, i: int)
    requires Runs(runs)
  {
    && 0 <= i < |runs| && runs[i][0].task == Some(task) && RunArm(runs[i]) == Some(arm)
    && forall j :: i < j < |runs| ==> runs[j][0].task != Some(task) || RunArm(runs[j]) != Some(arm)
  }

  lemma LastIs(runs: seq<Run>, task: string, arm: bool, key: Run -> Option<bool>, word: bool)
    requires Runs(runs)
    ensures LastSays(runs, task, arm, key, word) <==> Cell(runs, task, arm, key) == Some(word)
    ensures LastRun(runs, task, arm).Some? <==> exists i :: LastAt(runs, task, arm, i)
  {
    hide RunArm, LastRun;
    var r := LastRun(runs, task, arm);
    if r.Some? {
      assert LastAt(runs, task, arm, r.value);
    }
  }

  // Where a task stands: by the last verdicts of its two arms; in none of four cells unless both arms have one.
  lemma CellsMean(runs: seq<Run>, key: Run -> Option<bool>, m: map<string, Pair>, task: string)
    requires Runs(runs) && Tabulates(m, runs, key)
    ensures var c := CellsOf(m, m.Keys);
            && (task in c.both <==> LastSays(runs, task, true, key, true) && LastSays(runs, task, false, key, true))
            && (task in c.onlyLint
                <==> LastSays(runs, task, true, key, true) && LastSays(runs, task, false, key, false))
            && (task in c.onlyNolint
                <==> LastSays(runs, task, true, key, false) && LastSays(runs, task, false, key, true))
            && (task in c.neither
                <==> LastSays(runs, task, true, key, false) && LastSays(runs, task, false, key, false))
            && (task in c.incomplete
                <==> (exists arm, i :: LastAt(runs, task, arm, i))
                     && !(task in c.both || task in c.onlyLint || task in c.onlyNolint || task in c.neither))
  {
    hide LastSays, LastAt, RunArm, LastRun;
    LastIs(runs, task, true, key, true);
    LastIs(runs, task, true, key, false);
    LastIs(runs, task, false, key, true);
    LastIs(runs, task, false, key, false);
  }

  // What the split gives: all records in order, each run from a run_start up to the next one; and records in front of
  // the first run_start as a group of their own, behind a mark that no record bears.
  lemma SplitMeans(runs: seq<Run>, records: Run)
    requires Split(runs, records)
    ensures var orphans := records != [] && records[0].kind != RunStart;
            && (orphans ==> runs != [] && |runs[0]| > 1 && runs[0][0].kind == Orphan && Joined(runs)[1..] == records)
            && (!orphans ==> Joined(runs) == records)
            && (forall i, k :: 0 <= i < |runs| && 1 <= k < |runs[i]| ==> runs[i][k].kind != RunStart)
            && forall i :: 0 <= i < |runs| && (i > 0 || !orphans) ==> runs[i] != [] && runs[i][0].kind == RunStart
  {
    hide Joined;
    forall i | 0 <= i < |runs|
      ensures runs[i] != [] && forall k :: 1 <= k < |runs[i]| ==> runs[i][k].kind != RunStart
    {
      assert OneRun(runs[i]);
    }
    if records != [] && records[0].kind != RunStart {
      JoinedFirst(runs);
      assert Joined(runs)[0] == ORPHAN_MARK && |Joined(runs)| > 1;
      assert Joined(runs)[1..] == records;
      NotOnlyMark(runs, records);
    }
  }

  lemma {:induction false} JoinedFirst(runs: seq<Run>)
    requires forall i :: 0 <= i < |runs| ==> runs[i] != []
    ensures Joined(runs) != [] ==> runs != [] && runs[0] <= Joined(runs)
    ensures |runs| > 1 ==> |Joined(runs)| > |runs[0]| && Joined(runs)[|runs[0]|] == runs[1][0]
    decreases |runs|
  {
    if runs != [] {
      var u := runs[..|runs| - 1];
      JoinedFirst(u);
      if |runs| == 1 {
        assert Joined(u) == [];
      } else if |runs| == 2 {
        assert u[..0] == [] && Joined(u) == Joined([]) + u[0];
      }
    }
  }

  // The mark does not stand alone: the record behind it is no run_start.
  lemma NotOnlyMark(runs: seq<Run>, records: Run)
    requires Split(runs, records) && records != [] && records[0].kind != RunStart && runs != []
    ensures |runs[0]| > 1
  {
    assert forall i :: 0 <= i < |runs| ==> OneRun(runs[i]) && runs[i] != [];
    JoinedFirst(runs);
    JoinedOne(runs);
    assert Joined(runs)[1] == records[0];
  }

  lemma JoinedOne(runs: seq<Run>)
    ensures |runs| == 1 ==> Joined(runs) == runs[0]
  {
    if |runs| == 1 {
      assert runs[..0] == [] && Joined(runs) == Joined([]) + runs[0];
    }
  }
}
