/** How a write-compile loop ended, and the hint that the last write was never compiled. */
module LoopMonitors {
  import opened Number

  // A tool's result dictionary, as far as the monitors read it.
  datatype Result = Result(refused: bool, verified: Option<bool>, success: Option<bool>, lint: Option<bool>)

  // An executed call; result is None when the tool returned no dictionary.
  datatype Event = Event(tool: string, path: string, result: Option<Result>)

  type Trace = seq<Event>

  datatype Outcome = NothingWritten | RecompiledOk | RecompiledFailed | NotRecompiled | CompiledUnverified

  predicate WriteTool(tool: string) {
    tool == "mac_write_file" || tool == "mac_put_file"
  }

  predicate CompileTool(tool: string) {
    tool == "mac_compile" || tool == "mac_build"
  }

  predicate Refused(e: Event) {
    e.result.Some? && e.result.value.refused
  }

  predicate Writes(e: Event) {
    !Refused(e) && WriteTool(e.tool)
  }

  predicate Compiles(e: Event) {
    !Refused(e) && !WriteTool(e.tool) && CompileTool(e.tool)
  }

  // The tool's own verdict: None when it could not check.
  function Verdict(r: Option<Result>): Option<bool> {
    if r.None? || r.value.verified == Some(false) then None else r.value.success
  }

  /** What the monitors say, as functions of the trace */

  // The latest write.
  function LastWrite(t: Trace): (r: Option<nat>)
    ensures r.Some? ==> r.value < |t| && Writes(t[r.value]) && forall j :: r.value < j < |t| ==> !Writes(t[j])
    ensures r.None? ==> forall j :: 0 <= j < |t| ==> !Writes(t[j])
  {
    if t == [] then None
    else if Writes(t[|t| - 1]) then Some(|t| - 1)
    else LastWrite(t[..|t| - 1])
  }

  // The latest compile.
  function LastCompile(t: Trace): (r: Option<nat>)
    ensures r.Some? ==> r.value < |t| && Compiles(t[r.value]) && forall j :: r.value < j < |t| ==> !Compiles(t[j])
    ensures r.None? ==> forall j :: 0 <= j < |t| ==> !Compiles(t[j])
  {
    if t == [] then None
    else if Compiles(t[|t| - 1]) then Some(|t| - 1)
    else LastCompile(t[..|t| - 1])
  }

  function OutcomeOf(t: Trace): Outcome {
    var w, c := LastWrite(t), LastCompile(t);
    if w.None? then NothingWritten
    else if c.None? || c.value < w.value then NotRecompiled
    else
      match Verdict(t[c.value].result)
      case None => CompiledUnverified
      case Some(ok) => if ok then RecompiledOk else RecompiledFailed
  }

  function PathOf(e: Event): (r: string)
    ensures r != ""
  {
    if e.path == "" then "the source" else e.path
  }

  function HintOf(t: Trace): Option<string> {
    var w, c := LastWrite(t), LastCompile(t);
    if w.None? || (c.Some? && w.value < c.value) then None else Some(PathOf(t[w.value]))
  }

  // The two monitors agree on every trace.
  lemma HintIffNotRecompiled(t: Trace)
    ensures HintOf(t).Some? <==> OutcomeOf(t) == NotRecompiled
  {
    var w, c := LastWrite(t), LastCompile(t);
    if w.Some? && c.Some? {
      assert Writes(t[w.value]) && Compiles(t[c.value]);
    }
  }

  // A refused result says nothing.
  lemma RefusedSaysNothing(t: Trace, e: Event)
    requires Refused(e)
    ensures OutcomeOf(t + [e]) == OutcomeOf(t) && HintOf(t + [e]) == HintOf(t)
  {
    hide Verdict;
    assert (t + [e])[..|t|] == t;
  }

  /** The same in terms of the calls alone */

  // Call i reached a tool of that kind.
  ghost predicate Reached(t: Trace, i: int, tools: set<string>) {
    && 0 <= i < |t| && t[i].tool in tools
    && (t[i].result == None || !t[i].result.value.refused)
  }

  ghost predicate WroteAt(t: Trace, i: int) {
    Reached(t, i, {"mac_write_file", "mac_put_file"})
  }

  ghost predicate CompiledAt(t: Trace, i: int) {
    Reached(t, i, {"mac_compile", "mac_build"})
  }

  // c is the last call of either kind, a compile behind some write.
  ghost predicate JudgedAt(t: Trace, c: int) {
    && CompiledAt(t, c) && (exists w :: w < c && WroteAt(t, w))
    && forall i :: c < i ==> !WroteAt(t, i) && !CompiledAt(t, i)
  }

  // The tool's own word on its artefact.
  ghost predicate Says(r: Option<Result>, word: bool) {
    r.Some? && (r.value.verified.Some? ==> r.value.verified.value) && r.value.success == Some(word)
  }

  lemma Raw(t: Trace, i: int)
    ensures WroteAt(t, i) <==> 0 <= i < |t| && Writes(t[i])
    ensures CompiledAt(t, i) <==> 0 <= i < |t| && Compiles(t[i])
  {
  }

  lemma SaysIs(r: Option<Result>, word: bool)
    ensures Says(r, word) <==> Verdict(r) == Some(word)
  {
  }

  // The five outcomes, each exactly.
  lemma OutcomeMeans(t: Trace)
    ensures OutcomeOf(t) == NothingWritten <==> forall i :: !WroteAt(t, i)
    ensures OutcomeOf(t) == NotRecompiled <==> exists w :: WroteAt(t, w) && forall i :: w < i ==> !CompiledAt(t, i)
    ensures OutcomeOf(t) == RecompiledOk <==> exists c :: JudgedAt(t, c) && Says(t[c].result, true)
    ensures OutcomeOf(t) == RecompiledFailed <==> exists c :: JudgedAt(t, c) && Says(t[c].result, false)
    ensures OutcomeOf(t) == CompiledUnverified
            <==> exists c :: JudgedAt(t, c) && !Says(t[c].result, true) && !Says(t[c].result, false)
  {
    hide WroteAt, CompiledAt, JudgedAt, Verdict, Says, LastWrite, LastCompile;
    Unwritten(t);
    Unjudged(t);
    var c := LastCompile(t);
    forall i
      ensures JudgedAt(t, i) <==> LastWrite(t).Some? && c == Some(i) && LastWrite(t).value < i
    {
      Judged(t, i);
    }
    if c.Some? {
      SaysIs(t[c.value].result, true);
      SaysIs(t[c.value].result, false);
    }
  }

  lemma Unwritten(t: Trace)
    ensures LastWrite(t).None? <==> forall i :: !WroteAt(t, i)
  {
    hide WroteAt, Writes;
    forall i
      ensures WroteAt(t, i) <==> 0 <= i < |t| && Writes(t[i])
    {
      Raw(t, i);
    }
  }

  lemma Unjudged(t: Trace)
    ensures (exists w :: WroteAt(t, w) && forall i :: w < i ==> !CompiledAt(t, i))
            <==> LastWrite(t).Some? && (LastCompile(t).None? || LastCompile(t).value < LastWrite(t).value)
  {
    hide WroteAt, CompiledAt, Writes, Compiles;
    forall i
      ensures WroteAt(t, i) <==> 0 <= i < |t| && Writes(t[i])
      ensures CompiledAt(t, i) <==> 0 <= i < |t| && Compiles(t[i])
    {
      Raw(t, i);
    }
    WriteOrCompile(t);
    var w := LastWrite(t);
    if w.Some? {
      assert WroteAt(t, w.value);
    }
  }

  lemma Judged(t: Trace, i: int)
    ensures JudgedAt(t, i)
            <==> LastWrite(t).Some? && LastCompile(t) == Some(i) && LastWrite(t).value < i
  {
    hide WroteAt, CompiledAt, Writes, Compiles;
    forall i
      ensures WroteAt(t, i) <==> 0 <= i < |t| && Writes(t[i])
      ensures CompiledAt(t, i) <==> 0 <= i < |t| && Compiles(t[i])
    {
      Raw(t, i);
    }
    WriteOrCompile(t);
    var w := LastWrite(t);
    if w.Some? {
      assert WroteAt(t, w.value);
    }
  }

  lemma WriteOrCompile(t: Trace)
    ensures forall i :: 0 <= i < |t| ==> !(Writes(t[i]) && Compiles(t[i]))
  {
  }

  // The hint names the path of the last write, or the source when it had none, as long as no compile follows it.
  lemma HintMeans(t: Trace, hint: string)
    ensures HintOf(t) == Some(hint)
            <==> exists w :: WroteAt(t, w) && (forall i :: w < i ==> !CompiledAt(t, i) && !WroteAt(t, i))
                             && hint == (if |t[w].path| > 0 then t[w].path else "the source")
  {
    hide WroteAt, CompiledAt, Writes, Compiles;
    forall i
      ensures WroteAt(t, i) <==> 0 <= i < |t| && Writes(t[i])
      ensures CompiledAt(t, i) <==> 0 <= i < |t| && Compiles(t[i])
    {
      Raw(t, i);
    }
    WriteOrCompile(t);
    var w := LastWrite(t);
    if w.Some? {
      assert WroteAt(t, w.value);
    }
  }

  /** The monitors */

  class TerminationWatch {
    var writes: nat
    var compiles: nat
    var pendingWrite: bool
    var lastVerdict: Option<bool>
    ghost var trace: Trace

    ghost predicate Valid()
      reads this
    {
      && Standing(trace, writes > 0, pendingWrite, lastVerdict)
      && writes == WriteCount(trace) && compiles == CompileCount(trace)
    }

    constructor ()
      ensures Valid() && trace == []
    {
      writes, compiles, pendingWrite, lastVerdict, trace := 0, 0, false, None, [];
    }

    method Note(e: Event)
      requires Valid()
      modifies this
      ensures Valid() && trace == old(trace) + [e]
    {
      hide WriteTool, CompileTool, Verdict;
      One(trace, e, writes > 0, pendingWrite, lastVerdict);
      trace := trace + [e];
      if Refused(e) {
        return;
      }
      if WriteTool(e.tool) {
        writes := writes + 1;
        pendingWrite := true;
        lastVerdict := None;
      } else if CompileTool(e.tool) {
        compiles := compiles + 1;
        pendingWrite := false;
        lastVerdict := Verdict(e.result);
      }
    }

    method Ending() returns (r: Outcome)
      requires Valid()
      ensures r == OutcomeOf(trace)
    {
      if writes == 0 {
        return NothingWritten;
      }
      if pendingWrite {
        return NotRecompiled;
      }
      if lastVerdict.None? {
        return CompiledUnverified;
      }
      return if lastVerdict.value then RecompiledOk else RecompiledFailed;
    }
  }

  function WriteCount(t: Trace): nat {
    if t == [] then 0 else WriteCount(t[..|t| - 1]) + if Writes(t[|t| - 1]) then 1 else 0
  }

  function CompileCount(t: Trace): nat {
    if t == [] then 0 else CompileCount(t[..|t| - 1]) + if Compiles(t[|t| - 1]) then 1 else 0
  }

  // What the fields hold after a trace.
  ghost predicate Standing(t: Trace, wrote: bool, pending: bool, verdict: Option<bool>) {
    var w, c := LastWrite(t), LastCompile(t);
    && wrote == w.Some?
    && (pending <==> w.Some? && (c.None? || c.value < w.value))
    && (w.Some? && c.Some? && w.value < c.value ==> verdict == Verdict(t[c.value].result))
  }

  lemma One(t: Trace, e: Event, wrote: bool, pending: bool, verdict: Option<bool>)
    requires Standing(t, wrote, pending, verdict)
    ensures var u := t + [e];
            && (Writes(e) ==> Standing(u, true, true, None))
            && (Compiles(e) ==> Standing(u, wrote, false, Verdict(e.result)))
            && (!Writes(e) && !Compiles(e) ==> Standing(u, wrote, pending, verdict))
            && WriteCount(u) == WriteCount(t) + (if Writes(e) then 1 else 0)
            && CompileCount(u) == CompileCount(t) + (if Compiles(e) then 1 else 0)
  {
    hide Verdict, WriteTool, CompileTool;
    assert (t + [e])[..|t|] == t;
  }

  class UncompiledWrite {
    var pending: Option<string>
    ghost var trace: Trace

    ghost predicate Valid()
      reads this
    {
      pending == HintOf(trace)
    }

    constructor ()
      ensures Valid() && trace == []
    {
      pending, trace := None, [];
    }

    method Note(e: Event) returns (hint: Option<string>)
      requires Valid()
      modifies this
      ensures Valid() && trace == old(trace) + [e]
      ensures hint == if Refused(e) then None else HintOf(trace)
    {
      hide WriteTool, CompileTool, PathOf;
      OneHint(trace, e);
      trace := trace + [e];
      if Refused(e) {
        return None;
      }
      if WriteTool(e.tool) {
        pending := Some(PathOf(e));
      } else if CompileTool(e.tool) {
        pending := None;
      }
      hint := pending;
    }
  }

  lemma OneHint(t: Trace, e: Event)
    ensures HintOf(t + [e]) == if Writes(e) then Some(PathOf(e)) else if Compiles(e) then None else HintOf(t)
  {
    hide WriteTool, CompileTool, PathOf;
    assert (t + [e])[..|t|] == t;
  }
}
