/** Replacing the IP= line of a preferences file and nothing else. */
module PrefsEdit {
  import opened Bytes
  import opened Number

  const IP_KEY: seq<byte> := [73, 80, 61] // IP=

  // The bytes of the line end that s starts with: CR LF is one.
  function EndSize(s: seq<byte>): (k: nat)
    ensures k <= |s|
  {
    if s == [] || !Eol(s[0]) then 0 else if |s| >= 2 && s[0] == 13 && s[1] == 10 then 2 else 1
  }

  // A line starts at k.
  predicate LineStart(s: seq<byte>, k: nat) {
    k <= |s| && (k == 0 || Eol(s[k - 1]))
  }

  predicate KeyAt(s: seq<byte>, k: nat) {
    LineStart(s, k) && IP_KEY <= s[k..]
  }

  // The first line that starts with the key.
  ghost predicate First(s: seq<byte>, r: Option<nat>) {
    match r
    case Some(k) => KeyAt(s, k) && forall j: nat :: j < k ==> !KeyAt(s, j)
    case None => forall j: nat :: !KeyAt(s, j)
  }

  // s with the line at k replaced.
  function With(s: seq<byte>, k: nat, line: seq<byte>): seq<byte>
    requires k <= |s|
  {
    s[..k] + line + s[k + FirstEol(s[k..])..]
  }

  function EndOf(s: seq<byte>): byte {
    if 13 in s then 13 else 10
  }

  // s with the line added at the end.
  function Added(s: seq<byte>, line: seq<byte>): seq<byte> {
    var e := EndOf(s);
    s + (if s == [] || s[|s| - 1] == e then [] else [e]) + line + [e]
  }

  function Line(ip: seq<byte>): seq<byte> {
    IP_KEY + ip
  }

  // What the edit promises: the first IP= line replaced, or one added; every other byte kept.
  ghost predicate Edited(s: seq<byte>, ip: seq<byte>, r: seq<byte>) {
    exists at :: First(s, at) && r == Result(s, ip, at)
  }

  ghost function Result(s: seq<byte>, ip: seq<byte>, at: Option<nat>): seq<byte>
    requires First(s, at)
  {
    if at.Some? then With(s, at.value, Line(ip)) else Added(s, Line(ip))
  }

  // The line at pos, its end and the one behind it.
  lemma LineFacts(s: seq<byte>, pos: nat)
    requires LineStart(s, pos)
    ensures var n := FirstEol(s[pos..]);
            var end := EndSize(s[pos + n..]);
            && pos + n + end <= |s|
            && (KeyAt(s, pos) <==> IP_KEY <= Slice(s, pos, pos + n))
            && (if end == 0 then pos + n == |s| else LineStart(s, pos + n + end))
  {
    var n := FirstEol(s[pos..]);
    assert pos + n < |s| ==> Eol(s[pos + n]) && s[pos + n..][0] == s[pos + n];
    assert Slice(s, pos, pos + n) == s[pos..][..n];
    if IP_KEY <= s[pos..] {
      assert s[pos..][0] == 73 && s[pos..][1] == 80 && s[pos..][2] == 61;
      assert n >= 3;
    }
  }

  lemma InsideLine(s: seq<byte>, pos: nat, j: nat)
    requires LineStart(s, pos)
    requires var n := FirstEol(s[pos..]); pos < j && (j < pos + n + EndSize(s[pos + n..]) || EndSize(s[pos + n..]) == 0)
    ensures !KeyAt(s, j)
  {
    var n := FirstEol(s[pos..]);
    if j <= pos + n {
      assert s[j - 1] == s[pos..][j - 1 - pos];
    } else if j < |s| {
      assert s[pos + n..][1] == s[j] == 10;
    }
  }

  // What has been written when the scan stands at pos: at is where the replaced line started.
  ghost predicate Scanned(s: seq<byte>, want: seq<byte>, pos: nat, at: Option<nat>, out: seq<byte>) {
    && pos <= |s|
    && match at
       case None => out == Slice(s, 0, pos) && forall j: nat :: j < pos ==> !KeyAt(s, j)
       case Some(k) =>
         && First(s, at) && k + FirstEol(s[k..]) <= pos
         && out == Slice(s, 0, k) + want + Slice(s, k + FirstEol(s[k..]), pos)
  }

  lemma ScanOther(s: seq<byte>, want: seq<byte>, pos: nat, at: Option<nat>, out: seq<byte>)
    requires LineStart(s, pos) && Scanned(s, want, pos, at, out) && (at.Some? || !KeyAt(s, pos))
    ensures var n := FirstEol(s[pos..]);
            var end := EndSize(s[pos + n..]);
            && pos + n + end <= |s|
            && Scanned(s, want, pos + n + end, at, out + Slice(s, pos, pos + n) + Slice(s, pos + n, pos + n + end))
            && (end == 0 && at.None? ==> First(s, None))
  {
    hide FirstEol, EndSize, Slice, First, KeyAt;
    LineFacts(s, pos);
    var n := FirstEol(s[pos..]);
    var end := EndSize(s[pos + n..]);
    SliceJoin(s, pos, pos + n, pos + n + end);
    Assoc(out, Slice(s, pos, pos + n), Slice(s, pos + n, pos + n + end));
    if at.Some? {
      ScanFurther(s, want, pos, at.value, out, pos + n + end);
    } else {
      SliceJoin(s, 0, pos, pos + n + end);
      NoKeys(s, pos);
    }
  }

  lemma ScanFurther(s: seq<byte>, want: seq<byte>, pos: nat, at: nat, out: seq<byte>, to: nat)
    requires Scanned(s, want, pos, Some(at), out) && pos <= to <= |s|
    ensures Scanned(s, want, to, Some(at), out + Slice(s, pos, to))
  {
    hide FirstEol, Slice, First;
    var k := at + FirstEol(s[at..]);
    SliceJoin(s, k, pos, to);
    Assoc(Slice(s, 0, at) + want, Slice(s, k, pos), Slice(s, pos, to));
  }

  lemma NoKeys(s: seq<byte>, pos: nat)
    requires LineStart(s, pos) && !KeyAt(s, pos) && forall j: nat :: j < pos ==> !KeyAt(s, j)
    ensures var n := FirstEol(s[pos..]);
            var end := EndSize(s[pos + n..]);
            && (forall j: nat :: j < pos + n + end ==> !KeyAt(s, j))
            && (end == 0 ==> First(s, None))
  {
    hide KeyAt;
    forall j: nat | pos < j && (j < pos + FirstEol(s[pos..]) + EndSize(s[pos + FirstEol(s[pos..])..])
                                || EndSize(s[pos + FirstEol(s[pos..])..]) == 0)
      ensures !KeyAt(s, j)
    {
      InsideLine(s, pos, j);
    }
  }

  lemma ScanKey(s: seq<byte>, want: seq<byte>, pos: nat, out: seq<byte>)
    requires Scanned(s, want, pos, None, out) && KeyAt(s, pos)
    ensures var n := FirstEol(s[pos..]);
            var end := EndSize(s[pos + n..]);
            && pos + n + end <= |s|
            && Scanned(s, want, pos + n + end, Some(pos), out + want + Slice(s, pos + n, pos + n + end))
  {
    LineFacts(s, pos);
  }

  method RewriteIpLine(data: seq<byte>, ip: seq<byte>) returns (r: seq<byte>)
    ensures Edited(data, ip, r)
  {
    hide KeyAt, FirstEol, EndSize, Slice, First, Scanned, Edited;
    var want := Line(ip);
    var out, pos := [], 0;
    ghost var at: Option<nat> := None;
    var seen, more := false, true;
    ScanStart(data, want);
    while more
      invariant seen == at.Some? && Scanned(data, want, pos, at, out)
      invariant if more then LineStart(data, pos) else pos == |data| && (at.None? ==> First(data, None))
      decreases |data| + 1 - pos, more
    {
      LineFacts(data, pos);
      var n := FirstEol(data[pos..]);
      var end := EndSize(data[pos + n..]);
      var line := Slice(data, pos, pos + n);
      if IP_KEY <= line && !seen {
        ScanKey(data, want, pos, out);
        out := out + want;
        seen, at := true, Some(pos);
      } else {
        ScanOther(data, want, pos, at, out);
        out := out + line;
      }
      out := out + Slice(data, pos + n, pos + n + end);
      pos, more := pos + n + end, end > 0;
    }
    ScanEnd(data, ip, at, out);
    if !seen {
      var eol := EndOf(data);
      return out + (if out == [] || out[|out| - 1] == eol then [] else [eol]) + want + [eol];
    }
    r := out;
  }

  lemma ScanStart(s: seq<byte>, want: seq<byte>)
    ensures LineStart(s, 0) && Scanned(s, want, 0, None, [])
  {
  }

  lemma ScanEnd(s: seq<byte>, ip: seq<byte>, at: Option<nat>, out: seq<byte>)
    requires Scanned(s, Line(ip), |s|, at, out) && (at.None? ==> First(s, None))
    ensures at.Some? ==> Edited(s, ip, out)
    ensures at.None? ==> out == s && Edited(s, ip, Added(s, Line(ip)))
  {
    hide KeyAt, FirstEol;
    if at.Some? {
      assert Result(s, ip, at) == out;
    } else {
      assert Result(s, ip, None) == Added(s, Line(ip));
    }
  }

  /** What the edit keeps */

  // Whole lines without the key.
  ghost predicate KeyFree(p: seq<byte>) {
    (p == [] || Eol(p[|p| - 1])) && forall j: nat :: j < |p| ==> !KeyAt(p, j)
  }

  // Nothing, or a line end first.
  predicate Closed(tail: seq<byte>) {
    tail == [] || Eol(tail[0])
  }

  lemma FirstOnce(s: seq<byte>, a: Option<nat>, b: Option<nat>)
    requires First(s, a) && First(s, b)
    ensures a == b
  {
    hide KeyAt;
  }

  lemma KeyInFront(p: seq<byte>, x: seq<byte>, j: nat)
    requires KeyFree(p) && j < |p|
    ensures !KeyAt(p + x, j)
  {
    var s := p + x;
    assert !KeyAt(p, j);
    if IP_KEY <= s[j..] {
      assert s[j..][0] == s[j] == 73 && s[j..][1] == s[j + 1] == 80 && s[j..][2] == s[j + 2] == 61;
      assert s[|p| - 1] == p[|p| - 1];
      assert j + 3 <= |p|;
      assert p[j..][0] == 73 && p[j..][1] == 80 && p[j..][2] == 61;
    }
    assert j > 0 ==> s[j - 1] == p[j - 1];
  }

  lemma KeyBehind(p: seq<byte>, x: seq<byte>)
    requires KeyFree(p)
    ensures First(p + (IP_KEY + x), Some(|p|))
  {
    var s := p + (IP_KEY + x);
    assert s[|p|..] == IP_KEY + x;
    assert |p| > 0 ==> s[|p| - 1] == p[|p| - 1];
    hide KeyFree;
    forall j: nat | j < |p|
      ensures !KeyAt(s, j)
    {
      KeyInFront(p, IP_KEY + x, j);
    }
  }

  lemma {:induction false} FirstEolOf(a: seq<byte>, tail: seq<byte>)
    requires Closed(tail)
    ensures FirstEol(a + tail) == FirstEol(a)
    ensures FirstEol(a) == |a| <==> OneLine(a)
  {
    if a == [] {
      assert a + tail == tail;
    } else {
      assert (a + tail)[1..] == a[1..] + tail;
      FirstEolOf(a[1..], tail);
      assert forall k :: 0 <= k < |a[1..]| ==> a[1..][k] == a[k + 1];
      assert OneLine(a) <==> !Eol(a[0]) && OneLine(a[1..]);
    }
  }

  // The shape of every result: unchanged lines, the new line, and an unchanged rest.
  ghost predicate Shape(s: seq<byte>, p: seq<byte>, tail: seq<byte>) {
    KeyFree(p) && Closed(tail) && forall ip :: Edited(s, ip, p + Line(ip) + tail)
  }

  lemma ShapeFound(s: seq<byte>, k: nat)
    requires First(s, Some(k))
    ensures Shape(s, s[..k], s[k + FirstEol(s[k..])..])
  {
    var p, tail := s[..k], s[k + FirstEol(s[k..])..];
    forall j: nat | j < |p|
      ensures !KeyAt(p, j)
    {
      assert !KeyAt(s, j);
      assert IP_KEY <= p[j..] ==> IP_KEY <= s[j..] by {
        assert s[j..] == p[j..] + s[k..];
      }
    }
    hide KeyAt, FirstEol;
    forall ip
      ensures Edited(s, ip, p + Line(ip) + tail)
    {
      assert Result(s, ip, Some(k)) == p + Line(ip) + tail;
    }
  }

  lemma ShapeAdded(s: seq<byte>)
    requires First(s, None)
    ensures exists p, tail :: Shape(s, p, tail)
  {
    var e := EndOf(s);
    var p := s + if s == [] || s[|s| - 1] == e then [] else [e];
    forall j: nat | j < |p|
      ensures !KeyAt(p, j)
    {
      KeyNotAdded(s, e, j);
    }
    hide KeyAt;
    forall ip
      ensures Edited(s, ip, p + Line(ip) + [e])
    {
      assert Result(s, ip, None) == p + Line(ip) + [e];
    }
    assert Shape(s, p, [e]);
  }

  lemma KeyNotAdded(s: seq<byte>, e: byte, j: nat)
    requires Eol(e) && !KeyAt(s, j) && j < |s + [e]|
    ensures !KeyAt(s, j) && !KeyAt(s + [e], j)
  {
    var p := s + [e];
    if IP_KEY <= p[j..] {
      assert p[j..][0] == p[j] == 73 && p[j..][1] == p[j + 1] == 80 && p[j..][2] == p[j + 2] == 61;
      assert j + 3 <= |s|;
      assert IP_KEY <= s[j..];
    }
  }

  lemma FirstInside(s: seq<byte>, k: nat)
    requires First(s, Some(k))
    ensures k <= |s|
  {
  }

  lemma EditShape(s: seq<byte>, ip: seq<byte>, r: seq<byte>) returns (p: seq<byte>, tail: seq<byte>)
    requires Edited(s, ip, r)
    ensures Shape(s, p, tail) && r == p + Line(ip) + tail
  {
    hide KeyAt, FirstEol, KeyFree;
    var at: Option<nat> :| First(s, at) && r == Result(s, ip, at);
    if at.Some? {
      FirstInside(s, at.value);
      ShapeFound(s, at.value);
      p, tail := s[..at.value], s[at.value + FirstEol(s[at.value..])..];
    } else {
      ShapeAdded(s);
      p, tail :| Shape(s, p, tail);
    }
    EditedOnce(s, ip, r, p + Line(ip) + tail);
  }

  lemma EditedOnce(s: seq<byte>, ip: seq<byte>, r: seq<byte>, q: seq<byte>)
    requires Edited(s, ip, r) && Edited(s, ip, q)
    ensures r == q
  {
    hide First, Result;
    var a :| First(s, a) && r == Result(s, ip, a);
    var b :| First(s, b) && q == Result(s, ip, b);
    FirstOnce(s, a, b);
  }

  // A second edit of a result.
  lemma Again(p: seq<byte>, tail: seq<byte>, a: seq<byte>, b: seq<byte>, q: seq<byte>)
    requires KeyFree(p) && Closed(tail) && Edited(p + Line(a) + tail, b, q)
    ensures q == p + Line(b) + (Line(a) + tail)[FirstEol(Line(a))..]
  {
    hide KeyFree, FirstEol, First, Result;
    var r, x := p + Line(a) + tail, a + tail;
    assert r == p + (IP_KEY + x);
    KeyBehind(p, x);
    var at: Option<nat> :| First(r, at) && q == Result(r, b, at);
    FirstOnce(r, at, Some(|p|));
    FirstEolOf(Line(a), tail);
    assert p + (Line(a) + tail) == r == p + (IP_KEY + x);
    Replaced(p, Line(a) + tail, b);
  }

  lemma Replaced(p: seq<byte>, x: seq<byte>, b: seq<byte>)
    requires First(p + x, Some(|p|))
    ensures Result(p + x, b, Some(|p|)) == p + Line(b) + x[FirstEol(x)..]
  {
    hide KeyAt, FirstEol;
    assert (p + x)[..|p|] == p && (p + x)[|p|..] == x;
    assert (p + x)[|p| + FirstEol(x)..] == x[FirstEol(x)..];
  }

  // Put-put: the second address wins, as if the first had never been written.
  lemma PutPut(s: seq<byte>, a: seq<byte>, b: seq<byte>, r: seq<byte>, q: seq<byte>)
    requires OneLine(a) && Edited(s, a, r) && Edited(r, b, q)
    ensures Edited(s, b, q)
  {
    hide Edited, KeyFree, Closed, FirstEol;
    var p, tail := EditShape(s, a, r);
    Again(p, tail, a, b, q);
    OneKeyLine(a);
    FirstEolOf(Line(a), []);
    assert (Line(a) + tail)[|Line(a)|..] == tail;
  }

  lemma OneKeyLine(a: seq<byte>)
    ensures OneLine(Line(a)) <==> OneLine(a)
  {
    assert forall k :: 0 <= k < |a| ==> Line(a)[k + 3] == a[k];
  }

  // Writing twice is writing once exactly when the address is one line.
  lemma TwiceIffOneLine(s: seq<byte>, ip: seq<byte>, r: seq<byte>, q: seq<byte>)
    requires Edited(s, ip, r) && Edited(r, ip, q)
    ensures q == r <==> OneLine(ip)
  {
    hide Edited, KeyFree, FirstEol, OneLine, KeyAt;
    var p, tail := EditShape(s, ip, r);
    Again(p, tail, ip, ip, q);
    OneKeyLine(ip);
    FirstEolOf(Line(ip), []);
    assert (Line(ip) + tail)[|Line(ip)|..] == tail;
  }

  /** The edit in terms of the bytes alone */

  // A line that starts with IP= stands at k.
  ghost predicate IpLine(s: seq<byte>, k: nat) {
    k + 3 <= |s| && Spells(s[k..k + 3], "IP=") && (k == 0 || s[k - 1] == 13 || s[k - 1] == 10)
  }

  lemma IpLineIs(s: seq<byte>, k: nat)
    ensures IpLine(s, k) <==> KeyAt(s, k)
  {
    if k + 3 <= |s| {
      assert s[k..k + 3] == s[k..][..3];
      assert s[k..k + 3][0] == s[k] && s[k..k + 3][1] == s[k + 1] && s[k..k + 3][2] == s[k + 2];
    }
  }

  // From k to n there is no line end, and n is one, or the end of the file.
  ghost predicate LineEndsAt(s: seq<byte>, k: nat, n: nat) {
    && k <= n <= |s| && (forall j :: k <= j < n ==> s[j] != 13 && s[j] != 10)
    && (n < |s| ==> s[n] == 13 || s[n] == 10)
  }

  // The first IP= line becomes the new one, and every byte in front of it and from its end on stays.  Without one, the
  // new line comes last, behind a line end of its own if the file does not end with one; line ends are CR in a file
  // that has any, else LF.
  lemma EditMeans(s: seq<byte>, ip: seq<byte>, r: seq<byte>, line: seq<byte>)
    requires Edited(s, ip, r) && |line| == 3 + |ip| && Spells(line[..3], "IP=") && line[3..] == ip
    ensures forall k: nat, n: nat ::
              IpLine(s, k) && (forall j: nat :: j < k ==> !IpLine(s, j)) && LineEndsAt(s, k, n) ==>
                r == s[..k] + line + s[n..]
    ensures (forall k: nat :: !IpLine(s, k)) ==>
              exists e: byte ::
                && (e == 13 || e == 10) && (e == 13 <==> exists k :: 0 <= k < |s| && s[k] == 13)
                && r == (if s == [] || s[|s| - 1] == e then s else s + [e]) + line + [e]
  {
    hide Edited, EndOf, Line, Spells, IpLine;
    SameLine(line, ip);
    forall k: nat, n: nat | IpLine(s, k) && (forall j: nat :: j < k ==> !IpLine(s, j)) && LineEndsAt(s, k, n)
      ensures r == s[..k] + line + s[n..]
    {
      EditFound(s, ip, r, k, n);
    }
    if forall k: nat :: !IpLine(s, k) {
      EditAdded(s, ip, r);
      CrInside(s);
    }
  }

  lemma SameLine(line: seq<byte>, ip: seq<byte>)
    requires |line| == 3 + |ip| && Spells(line[..3], "IP=") && line[3..] == ip
    ensures line == Line(ip)
  {
    assert line == line[..3] + line[3..];
    assert line[..3] == IP_KEY;
  }

  lemma EditFound(s: seq<byte>, ip: seq<byte>, r: seq<byte>, k: nat, n: nat)
    requires Edited(s, ip, r) && IpLine(s, k) && (forall j: nat :: j < k ==> !IpLine(s, j)) && LineEndsAt(s, k, n)
    ensures r == s[..k] + Line(ip) + s[n..]
  {
    var at: Option<nat> :| First(s, at) && r == Result(s, ip, at);
    hide KeyAt, IpLine, First, FirstEol;
    forall j: nat
      ensures IpLine(s, j) <==> KeyAt(s, j)
    {
      IpLineIs(s, j);
    }
    FirstIs(s, k);
    FirstOnce(s, at, Some(k));
    EndsThere(s, k, n);
  }

  lemma EditAdded(s: seq<byte>, ip: seq<byte>, r: seq<byte>)
    requires Edited(s, ip, r) && forall k: nat :: !IpLine(s, k)
    ensures var e := EndOf(s); r == (if s == [] || s[|s| - 1] == e then s else s + [e]) + Line(ip) + [e]
  {
    var at: Option<nat> :| First(s, at) && r == Result(s, ip, at);
    hide KeyAt, IpLine, First, EndOf;
    forall j: nat
      ensures IpLine(s, j) <==> KeyAt(s, j)
    {
      IpLineIs(s, j);
    }
    NoFirst(s);
    FirstOnce(s, at, None);
  }

  lemma FirstIs(s: seq<byte>, k: nat)
    requires KeyAt(s, k) && forall j: nat :: j < k ==> !KeyAt(s, j)
    ensures First(s, Some(k))
  {
  }

  lemma NoFirst(s: seq<byte>)
    requires forall k: nat :: !KeyAt(s, k)
    ensures First(s, None)
  {
  }

  lemma EndsThere(s: seq<byte>, k: nat, n: nat)
    requires LineEndsAt(s, k, n)
    ensures k + FirstEol(s[k..]) == n
  {
    var f := FirstEol(s[k..]);
    assert forall j :: 0 <= j < |s| - k ==> s[k..][j] == s[k + j];
    assert k + f < |s| ==> s[k..][f] == s[k + f];
    assert n < |s| ==> s[k..][n - k] == s[n];
  }

  lemma CrInside(s: seq<byte>)
    ensures EndOf(s) == 13 || EndOf(s) == 10
    ensures EndOf(s) == 13 <==> exists k :: 0 <= k < |s| && s[k] == 13
  {
  }
}
