/** Noticing repeated calls and short cycles in a trace of tool calls. */
module RepeatWatch {
  import opened Number

  // An argument value: None, a string, or the representation of any other value.  None and the empty string say the
  // same as an absent argument.
  datatype Value = Null | Text(text: string) | Other(repr: string)

  datatype Key = Key(tool: string, args: map<string, Value>)

  predicate Said(v: Value) {
    v != Null && v != Text("")
  }

  function KeyOf(tool: string, args: map<string, Value>): Key {
    Key(tool, map a | a in args && Said(args[a]) :: args[a])
  }

  // What a call says for argument k: nothing when it is absent, null or the empty text.
  ghost function Argument(args: map<string, Value>, k: string): Option<Value> {
    if k !in args || args[k] == Null || args[k] == Text("") then None else Some(args[k])
  }

  lemma SameCall(tool: string, a: map<string, Value>, other: string, b: map<string, Value>)
    ensures KeyOf(tool, a) == KeyOf(other, b) <==> tool == other && forall k :: Argument(a, k) == Argument(b, k)
  {
    var p, q := KeyOf(tool, a).args, KeyOf(other, b).args;
    forall k
      ensures k in p <==> Argument(a, k).Some?
      ensures k in p ==> Argument(a, k) == Some(p[k])
      ensures k in q <==> Argument(b, k).Some?
      ensures k in q ==> Argument(b, k) == Some(q[k])
    {
    }
    if forall k :: Argument(a, k) == Argument(b, k) {
      assert p == q;
    }
  }

  datatype Call = Call(key: Key, at: int)

  type Trace = seq<Call>

  /** What a report says, as a function of the trace */

  // The latest of the first n calls with this key.
  function Previous(t: Trace, key: Key, n: nat): (r: Option<nat>)
    requires n <= |t|
    ensures r.Some? ==> r.value < n && t[r.value].key == key && forall j :: r.value < j < n ==> t[j].key != key
    ensures r.None? ==> forall j :: 0 <= j < n ==> t[j].key != key
  {
    if n == 0 then None else if t[n - 1].key == key then Some(n - 1) else Previous(t, key, n - 1)
  }

  // How often call n was made before without a pause longer than the window.
  function Count(t: Trace, window: int, n: nat): (r: nat)
    requires n < |t|
    ensures r >= 1
  {
    var j := Previous(t, t[n].key, n);
    if j.Some? && t[n].at - t[j.value].at <= window then Count(t, window, j.value) + 1 else 1
  }

  // How many calls in a row right before n were the same.
  function InARow(t: Trace, window: int, n: nat): nat
    requires n < |t|
  {
    if n > 0 && t[n - 1].key == t[n].key && t[n].at - t[n - 1].at <= window then InARow(t, window, n - 1) + 1 else 0
  }

  function Last(t: Trace, history: nat): Trace {
    if |t| <= history then t else t[|t| - history..]
  }

  function Fresh(t: Trace, window: int, now: int): seq<Key> {
    if t == [] then []
    else
      var c := t[|t| - 1];
      Fresh(t[..|t| - 1], window, now) + if now - c.at <= window then [c.key] else []
  }

  predicate Cycles(s: seq<Key>, p: nat) {
    p >= 1 && 2 * p <= |s| && s[|s| - p..] == s[|s| - 2 * p..|s| - p]
  }

  ghost predicate ShortestCycle(s: seq<Key>, r: Option<nat>) {
    match r
    case Some(p) => Cycles(s, p) && forall q: nat :: q < p ==> !Cycles(s, q)
    case None => forall q: nat :: !Cycles(s, q)
  }

  datatype Report = Report(identical: Option<nat>, sincePrevious: Option<int>, consecutive: Option<nat>,
                           cycle: Option<nat>)

  // The report on call n; cycle is the shortest cycle that the recent calls end with.
  ghost predicate Reports(t: Trace, window: int, history: nat, n: nat, r: Option<Report>)
    requires n < |t|
  {
    exists cycle ::
      && ShortestCycle(Fresh(Last(t[..n + 1], history), window, t[n].at), cycle)
      && r == ReportOf(Count(t, window, n), t[n].at, Previous(t, t[n].key, n), t, InARow(t, window, n), cycle)
  }

  function ReportOf(count: nat, now: int, j: Option<nat>, t: Trace, row: nat, cycle: Option<nat>): Option<Report>
    requires j.Some? ==> j.value < |t|
  {
    if count <= 1 && cycle.None? then
      None
    else
      Some(Report(if count > 1 then Some(count) else None,
                  if count > 1 && j.Some? then Some(now - t[j.value].at) else None,
                  if row > 0 then Some(row + 1) else None,
                  cycle))
  }

  /** The watch */

  datatype Sighting = Sighting(count: nat, at: int)

  class Watch {
    const window: int
    const history: nat
    var lastKey: Option<Key>
    var consecutive: nat
    var seen: map<Key, Sighting>
    var recent: Trace
    ghost var calls: Trace

    constructor (window: int, history: nat)
      ensures Valid() && calls == [] && this.window == window && this.history == history
    {
      this.window, this.history := window, history;
      lastKey, consecutive, seen, recent, calls := None, 0, map[], [], [];
    }

    ghost predicate Valid()
      reads this
    {
      var n := |calls|;
      && Known(calls, window, seen)
      && lastKey == (if n == 0 then None else Some(calls[n - 1].key))
      && consecutive == (if n == 0 then 0 else InARow(calls, window, n - 1))
      && recent == Last(calls, history)
    }

    method CycleLength(now: int) returns (r: Option<nat>)
      ensures ShortestCycle(Fresh(recent, window, now), r)
    {
      var s := Fresh(recent, window, now);
      for p := 1 to |s| / 2 + 1
        invariant forall q: nat :: q < p ==> !Cycles(s, q)
      {
        if s[|s| - p..] == s[|s| - 2 * p..|s| - p] {
          return Some(p);
        }
      }
      r := None;
    }

    // The bookkeeping of one call: how often it was made, and when before.
    method Record(c: Call) returns (count: nat, before: Option<int>)
      requires Valid()
      modifies this
      ensures Valid() && calls == old(calls) + [c]
      ensures var j := Previous(calls, c.key, |calls| - 1);
              && count == Count(calls, window, |calls| - 1)
              && before == if j.Some? then Some(calls[j.value].at) else None
    {
      hide Count, InARow, Previous, Known, Last, Appended, Fresh;
      var k := c.key;
      before := if k in seen then Some(seen[k].at) else None;
      var again := before.Some? && c.at - before.value <= window;
      count := if again then seen[k].count + 1 else 1;
      Extended(calls, c, window, history, seen);
      RowGrows(calls, c, window, consecutive);
      LastAppended(calls, c, history);
      LastSeen(calls, k, window, seen);
      seen := seen[k := Sighting(count, c.at)];
      consecutive := if again && lastKey == Some(k) then consecutive + 1 else 0;
      lastKey := Some(k);
      recent := Appended(recent, c, history);
      calls := calls + [c];
    }

    method Note(tool: string, args: map<string, Value>, now: int) returns (r: Option<Report>)
      requires Valid()
      modifies this
      ensures Valid() && calls == old(calls) + [Call(KeyOf(tool, args), now)]
      ensures Reports(calls, window, history, |calls| - 1, r)
    {
      hide KeyOf, Fresh, Count, InARow, Previous, Known, Last, Reports, ShortestCycle, Appended;
      var c := Call(KeyOf(tool, args), now);
      var count, before := Record(c);
      var cycle := CycleLength(now);
      Reported(calls, window, history, cycle);
      if count <= 1 && cycle.None? {
        return None;
      }
      r := Some(Report(if count > 1 then Some(count) else None,
                       if count > 1 && before.Some? then Some(now - before.value) else None,
                       if consecutive > 0 then Some(consecutive + 1) else None,
                       cycle));
    }
  }

  // seen holds the latest sighting of every key of the trace.
  ghost predicate Known(t: Trace, window: int, seen: map<Key, Sighting>) {
    && (forall k :: k in seen <==> Previous(t, k, |t|).Some?)
    && (forall k :: k in seen ==> SeenAt(t, window, k, |t|, seen[k]))
  }

  lemma Reported(t: Trace, window: int, history: nat, cycle: Option<nat>)
    requires t != [] && ShortestCycle(Fresh(Last(t, history), window, t[|t| - 1].at), cycle)
    ensures var n := |t| - 1;
            Reports(t, window, history, n,
                    ReportOf(Count(t, window, n), t[n].at, Previous(t, t[n].key, n), t, InARow(t, window, n), cycle))
  {
    hide Count, InARow, Previous, Fresh, Last, ShortestCycle;
    assert t[..|t|] == t;
  }

  // The previous sighting of the last call's key is that call.
  lemma LastSeen(t: Trace, k: Key, window: int, seen: map<Key, Sighting>)
    requires Known(t, window, seen)
    ensures t != [] && t[|t| - 1].key == k ==> k in seen && seen[k].at == t[|t| - 1].at
    ensures k in seen <==> Previous(t, k, |t|).Some?
    ensures k in seen ==> seen[k].at == t[Previous(t, k, |t|).value].at
  {
    hide Count, Previous;
    PreviousTop(t, k);
  }

  lemma PreviousTop(t: Trace, k: Key)
    ensures t != [] && t[|t| - 1].key == k ==> Previous(t, k, |t|) == Some(|t| - 1)
  {
  }

  // What one more call does to the record.
  lemma Extended(t: Trace, c: Call, window: int, history: nat, seen: map<Key, Sighting>)
    requires Known(t, window, seen)
    ensures var again := c.key in seen && c.at - seen[c.key].at <= window;
            var more := seen[c.key := Sighting(if again then seen[c.key].count + 1 else 1, c.at)];
            var u := t + [c];
            && Known(u, window, more)
            && Count(u, window, |t|) == more[c.key].count
            && Previous(u, c.key, |t|) == Previous(t, c.key, |t|)
  {
    hide SeenAt, Count;
    LatestCall(t, c, window);
    NewSighting(t, c, window, seen);
    forall k | k in seen && k != c.key
      ensures SeenAt(t + [c], window, k, |t| + 1, seen[k])
    {
      SightingKept(t, c, window, k, seen[k]);
    }
  }

  lemma NewSighting(t: Trace, c: Call, window: int, seen: map<Key, Sighting>)
    requires c.key in seen <==> Previous(t, c.key, |t|).Some?
    requires c.key in seen ==> SeenAt(t, window, c.key, |t|, seen[c.key])
    ensures var again := c.key in seen && c.at - seen[c.key].at <= window;
            var s := Sighting(if again then seen[c.key].count + 1 else 1, c.at);
            SeenAt(t + [c], window, c.key, |t| + 1, s) && Count(t + [c], window, |t|) == s.count
  {
    LatestCall(t, c, window);
    var j := Previous(t, c.key, |t|);
    if j.Some? {
      CountKept(t, c, window, j.value);
    }
  }

  lemma RowGrows(t: Trace, c: Call, window: int, row: nat)
    requires row == if t == [] then 0 else InARow(t, window, |t| - 1)
    ensures var again := t != [] && t[|t| - 1].key == c.key && c.at - t[|t| - 1].at <= window;
            InARow(t + [c], window, |t|) == if again then row + 1 else 0
  {
    if t != [] {
      CountKept(t, c, window, |t| - 1);
    }
  }

  // deque(maxlen = history).append
  function Appended(t: Trace, c: Call, history: nat): Trace {
    Last(t + [c], history)
  }

  ghost predicate SeenAt(t: Trace, window: int, k: Key, n: nat, s: Sighting)
    requires n <= |t|
  {
    var j := Previous(t, k, n);
    j.Some? && s == Sighting(Count(t, window, j.value), t[j.value].at)
  }

  lemma {:induction false} PreviousKept(t: Trace, c: Call, key: Key, n: nat)
    requires n <= |t|
    ensures Previous(t + [c], key, n) == Previous(t, key, n)
  {
    if n > 0 {
      PreviousKept(t, c, key, n - 1);
    }
  }

  lemma {:induction false} CountKept(t: Trace, c: Call, window: int, n: nat)
    requires n < |t|
    ensures Count(t + [c], window, n) == Count(t, window, n)
    ensures InARow(t + [c], window, n) == InARow(t, window, n)
  {
    PreviousKept(t, c, t[n].key, n);
    var j := Previous(t, t[n].key, n);
    if j.Some? {
      CountKept(t, c, window, j.value);
    }
    if n > 0 {
      CountKept(t, c, window, n - 1);
    }
  }

  lemma LastAppended(t: Trace, c: Call, history: nat)
    ensures Appended(Last(t, history), c, history) == Last(t + [c], history)
  {
  }

  lemma SightingKept(t: Trace, c: Call, window: int, k: Key, s: Sighting)
    requires SeenAt(t, window, k, |t|, s) && c.key != k
    ensures SeenAt(t + [c], window, k, |t| + 1, s)
  {
    hide Count;
    PreviousKept(t, c, k, |t|);
    CountKept(t, c, window, Previous(t, k, |t|).value);
  }

  lemma LatestCall(t: Trace, c: Call, window: int)
    ensures var u := t + [c];
            && Previous(u, c.key, |u|) == Some(|t|)
            && Previous(u, c.key, |t|) == Previous(t, c.key, |t|)
            && (forall k :: k != c.key ==> Previous(u, k, |u|) == Previous(t, k, |t|))
  {
    PreviousKept(t, c, c.key, |t|);
    forall k | k != c.key
      ensures Previous(t + [c], k, |t| + 1) == Previous(t, k, |t|)
    {
      PreviousKept(t, c, k, |t|);
    }
  }

  /** What the three fields have to do with each other */

  ghost predicate Ticking(t: Trace) {
    forall i, j :: 0 <= i <= j < |t| ==> t[i].at <= t[j].at
  }

  // f is the keys of the last calls of t, as far back as the window reaches.
  ghost predicate FreshTail(t: Trace, f: seq<Key>, window: int, now: int) {
    && |f| <= |t|
    && (forall j :: |t| - |f| <= j < |t| ==> f[j - (|t| - |f|)] == t[j].key && now - t[j].at <= window)
    && (|f| < |t| ==> now - t[|t| - |f| - 1].at > window)
  }

  lemma FreshStep(t: Trace, window: int, now: int)
    ensures Fresh([], window, now) == []
    ensures t != [] ==>
              var c := t[|t| - 1];
              Fresh(t, window, now) == Fresh(t[..|t| - 1], window, now) + if now - c.at <= window then [c.key] else []
  {
  }

  lemma TailGrows(t: Trace, c: Call, f: seq<Key>, window: int, now: int)
    requires FreshTail(t, f, window, now) && now - c.at <= window
    ensures FreshTail(t + [c], f + [c.key], window, now)
  {
    var u, g := t + [c], f + [c.key];
    forall j | |u| - |g| <= j < |u|
      ensures g[j - (|u| - |g|)] == u[j].key && now - u[j].at <= window
    {
      assert j < |t| ==> u[j] == t[j];
    }
  }

  // With a clock that does not go back, the fresh calls are the last ones.
  lemma {:induction false} FreshSuffix(t: Trace, window: int, now: int)
    requires Ticking(t)
    ensures FreshTail(t, Fresh(t, window, now), window, now)
  {
    hide Fresh;
    FreshStep(t, window, now);
    if t != [] {
      var u, c := t[..|t| - 1], t[|t| - 1];
      assert u + [c] == t;
      if now - c.at > window {
        NoneFresh(u, window, now);
      } else {
        FreshSuffix(u, window, now);
        TailGrows(u, c, Fresh(u, window, now), window, now);
      }
    }
  }

  lemma {:induction false} NoneFresh(t: Trace, window: int, now: int)
    requires forall i :: 0 <= i < |t| ==> now - t[i].at > window
    ensures Fresh(t, window, now) == []
  {
    if t != [] {
      NoneFresh(t[..|t| - 1], window, now);
    }
  }

  lemma CycleEnd(s: seq<Key>, p: nat)
    requires Cycles(s, p)
    ensures p < |s| && s[|s| - 1] == s[|s| - 1 - p]
  {
    assert s[|s| - p..][p - 1] == s[|s| - 1];
    assert s[|s| - 2 * p..|s| - p][p - 1] == s[|s| - 1 - p];
  }

  lemma OneCycle(s: seq<Key>)
    ensures Cycles(s, 1) <==> |s| >= 2 && s[|s| - 1] == s[|s| - 2]
  {
    if |s| >= 2 {
      assert s[|s| - 1..] == [s[|s| - 1]];
      assert s[|s| - 2..|s| - 1] == [s[|s| - 2]];
    }
  }

  // The fresh calls at call n.
  function Window(t: Trace, window: int, history: nat, n: nat): seq<Key>
    requires n < |t|
  {
    Fresh(Last(t[..n + 1], history), window, t[n].at)
  }

  lemma WindowIs(t: Trace, window: int, history: nat, n: nat)
    requires n < |t| && Ticking(t)
    ensures var f := Window(t, window, history, n);
            && |f| <= n + 1 && |f| <= history
            && (forall j :: n + 1 - |f| <= j <= n ==> f[j - (n + 1 - |f|)] == t[j].key && t[n].at - t[j].at <= window)
            && (|f| < n + 1 && |f| < history ==> t[n].at - t[n - |f|].at > window)
  {
    hide Fresh, Last;
    var s := Last(t[..n + 1], history);
    LastIs(t, history, n);
    FreshSuffix(s, window, t[n].at);
    var f, d := Window(t, window, history, n), n + 1 - |s|;
    forall j | n + 1 - |f| <= j <= n
      ensures f[j - (n + 1 - |f|)] == t[j].key && t[n].at - t[j].at <= window
    {
      assert s[j - d] == t[j];
    }
    if |f| < |s| {
      assert s[|s| - |f| - 1] == t[n - |f|];
    }
  }

  lemma LastIs(t: Trace, history: nat, n: nat)
    requires n < |t| && Ticking(t)
    ensures var s := Last(t[..n + 1], history);
            && |s| <= n + 1 && |s| <= history && (|s| == n + 1 || |s| == history) && Ticking(s)
            && forall j :: n + 1 - |s| <= j <= n ==> s[j - (n + 1 - |s|)] == t[j]
  {
  }

  // A cycle contains a repeat.
  lemma CycleRepeats(t: Trace, window: int, history: nat, n: nat, p: nat)
    requires n < |t| && Ticking(t) && Cycles(Window(t, window, history, n), p)
    ensures Count(t, window, n) >= 2
  {
    hide Window, Cycles;
    var f := Window(t, window, history, n);
    CycleEnd(f, p);
    CycleSize(f, p);
    WindowIs(t, window, history, n);
    assert f[|f| - 1] == t[n].key && f[|f| - 1 - p] == t[n - p].key;
    var j := Previous(t, t[n].key, n);
    assert j.Some? && n - p <= j.value;
  }

  lemma CycleSize(s: seq<Key>, p: nat)
    requires Cycles(s, p)
    ensures 1 <= p < |s|
  {
  }

  // The row counter is the cycle of length one.
  lemma RowIsCycle(t: Trace, window: int, history: nat, n: nat)
    requires n < |t| && Ticking(t) && window >= 0 && history >= 2
    ensures InARow(t, window, n) > 0 <==> Cycles(Window(t, window, history, n), 1)
  {
    hide Window, Cycles;
    var f := Window(t, window, history, n);
    OneCycle(f);
    WindowIs(t, window, history, n);
    if |f| >= 2 {
      assert f[|f| - 1] == t[n].key && f[|f| - 2] == t[n - 1].key;
    }
  }

  // On every trace with a clock that does not go back: a report names a repeat, and it counts calls in a row exactly
  // when the cycle has length one.
  lemma ReportsAgree(t: Trace, window: int, history: nat, n: nat, r: Report)
    requires n < |t| && Ticking(t) && window >= 0 && history >= 2 && Reports(t, window, history, n, Some(r))
    ensures r.identical.Some? && r.identical.value >= 2
    ensures r.consecutive.Some? <==> r.cycle == Some(1)
  {
    hide Window, Cycles, Count, InARow, Previous, Fresh, Last;
    var cycle :| ShortestCycle(Fresh(Last(t[..n + 1], history), window, t[n].at), cycle) &&
      Some(r) == ReportOf(Count(t, window, n), t[n].at, Previous(t, t[n].key, n), t, InARow(t, window, n), cycle);
    WindowDef(t, window, history, n);
    RowIsCycle(t, window, history, n);
    NoEmptyCycle(Window(t, window, history, n));
    if cycle.Some? {
      CycleRepeats(t, window, history, n, cycle.value);
      CycleSize(Window(t, window, history, n), cycle.value);
    }
  }

  lemma WindowDef(t: Trace, window: int, history: nat, n: nat)
    requires n < |t|
    ensures Window(t, window, history, n) == Fresh(Last(t[..n + 1], history), window, t[n].at)
  {
  }

  lemma NoEmptyCycle(s: seq<Key>)
    ensures !Cycles(s, 0)
  {
  }

  /** The fields in terms of the calls alone */

  // Call a is the last one before b with that key.
  ghost predicate Before(t: Trace, key: Key, a: nat, b: nat) {
    a < b <= |t| && t[a].key == key && forall k :: a < k < b ==> t[k].key != key
  }

  // b comes after a, with no longer pause than the window.
  ghost predicate Follows(t: Trace, window: int, key: Key, a: nat, b: nat) {
    Before(t, key, a, b) && b < |t| && t[b].key == key && t[b].at - t[a].at <= window
  }

  // Calls js are all those with the key of call n from the first of them to n, no pause between two of them is longer
  // than the window, and the pause before the first one is, if there is one.
  ghost predicate Chain(t: Trace, window: int, n: nat, js: seq<nat>)
    requires n < |t|
  {
    && js != [] && js[|js| - 1] == n && js[0] <= n && t[js[0]].key == t[n].key
    && (forall i :: 0 < i < |js| ==> Follows(t, window, t[n].key, js[i - 1], js[i]))
    && forall a: nat :: Before(t, t[n].key, a, js[0]) ==> t[js[0]].at - t[a].at > window
  }

  // The count of identical calls is the length of that chain.
  lemma {:induction false} CountMeans(t: Trace, window: int, n: nat) returns (js: seq<nat>)
    requires n < |t|
    ensures Chain(t, window, n, js) && |js| == Count(t, window, n)
    decreases n
  {
    var j := Previous(t, t[n].key, n);
    if j.Some? && t[n].at - t[j.value].at <= window {
      var earlier := CountMeans(t, window, j.value);
      js := earlier + [n];
      ChainGrows(t, window, n, j.value, earlier);
    } else {
      js := [n];
    }
  }

  lemma ChainGrows(t: Trace, window: int, n: nat, j: nat, js: seq<nat>)
    requires j < n < |t| && Chain(t, window, j, js) && t[j].key == t[n].key && Follows(t, window, t[n].key, j, n)
    ensures Chain(t, window, n, js + [n])
  {
    hide Before, Follows;
    var all := js + [n];
    assert all[0] == js[0];
    forall i | 0 < i < |all|
      ensures Follows(t, window, t[n].key, all[i - 1], all[i])
    {
      assert i < |js| ==> all[i] == js[i];
      assert all[i - 1] == js[i - 1];
    }
  }

  // The last m calls up to n are the same, with no pause longer than the window.
  ghost predicate Row(t: Trace, window: int, n: nat, m: nat)
    requires n < |t|
  {
    && 1 <= m <= n + 1 && (forall j :: n + 1 - m <= j <= n ==> t[j].key == t[n].key)
    && forall j :: n + 1 - m < j <= n ==> Close(t, window, j)
  }

  ghost predicate Close(t: Trace, window: int, j: int) {
    0 < j < |t| && t[j].at - t[j - 1].at <= window
  }

  // The row counter stands for the longest such row.
  lemma {:induction false} RowMeans(t: Trace, window: int, n: nat)
    requires n < |t|
    ensures Row(t, window, n, InARow(t, window, n) + 1) && !Row(t, window, n, InARow(t, window, n) + 2)
  {
    assert n > 0 && Row(t, window, n, 2) ==> t[n - 1].key == t[n].key && Close(t, window, n);
    if n > 0 && t[n - 1].key == t[n].key && Close(t, window, n) {
      RowMeans(t, window, n - 1);
      var m := InARow(t, window, n - 1);
      assert m + 3 <= n + 1 && Row(t, window, n, m + 3) ==> Row(t, window, n - 1, m + 2);
    }
  }

  // Two equal halves of p calls each end the sequence.
  ghost predicate Halves(s: seq<Key>, p: nat) {
    1 <= p && 2 * p <= |s| && forall i :: |s| - p <= i < |s| ==> s[i] == s[i - p]
  }

  lemma HalvesIff(s: seq<Key>, p: nat)
    ensures Cycles(s, p) <==> Halves(s, p)
  {
    if 1 <= p && 2 * p <= |s| {
      var a, b := s[|s| - p..], s[|s| - 2 * p..|s| - p];
      if a == b {
        forall i | |s| - p <= i < |s|
          ensures s[i] == s[i - p]
        {
          assert a[i - (|s| - p)] == b[i - (|s| - p)];
        }
      }
      if Halves(s, p) {
        forall i | 0 <= i < p
          ensures a[i] == b[i]
        {
          assert s[|s| - p + i] == s[|s| - p + i - p];
        }
      }
    }
  }

  // The whole report on call n, with a clock that does not go back: there is one exactly when the call before it with
  // its key is in the window, and then it gives the length of its chain, the time since that call, the length of its
  // row when that is more than one, and the shortest cycle of the fresh calls.
  lemma ReportMeans(t: Trace, window: int, history: nat, n: nat, r: Option<Report>, js: seq<nat>, j: Option<nat>)
    requires n < |t| && Ticking(t) && window >= 0 && history >= 2 && Reports(t, window, history, n, r)
    requires Chain(t, window, n, js) && |js| == Count(t, window, n)
    requires match j
             case Some(i) => i < n && t[i].key == t[n].key && forall k :: i < k < n ==> t[k].key != t[n].key
             case None => forall k :: 0 <= k < n ==> t[k].key != t[n].key
    ensures r.Some? <==> j.Some? && t[n].at - t[j.value].at <= window
    ensures r.Some? ==>
              && r.value.identical == Some(|js|) && r.value.sincePrevious == Some(t[n].at - t[j.value].at)
              && (match r.value.consecutive
                  case Some(m) => m >= 2 && Row(t, window, n, m) && !Row(t, window, n, m + 1)
                  case None => !Row(t, window, n, 2))
              && (match r.value.cycle
                  case Some(p) => Halves(Window(t, window, history, n), p)
                                  && forall q: nat :: q < p ==> !Halves(Window(t, window, history, n), q)
                  case None => forall q: nat :: !Halves(Window(t, window, history, n), q))
  {
    hide Window, Cycles, Halves, InARow, Fresh, Last, Chain, Row;
    var cycle :| ShortestCycle(Fresh(Last(t[..n + 1], history), window, t[n].at), cycle) &&
      r == ReportOf(Count(t, window, n), t[n].at, Previous(t, t[n].key, n), t, InARow(t, window, n), cycle);
    WindowDef(t, window, history, n);
    RowMeans(t, window, n);
    NoEmptyCycle(Window(t, window, history, n));
    if cycle.Some? {
      CycleRepeats(t, window, history, n, cycle.value);
    }
    forall q: nat
      ensures Cycles(Window(t, window, history, n), q) <==> Halves(Window(t, window, history, n), q)
    {
      HalvesIff(Window(t, window, history, n), q);
    }
    assert Previous(t, t[n].key, n) == j;
  }
}
