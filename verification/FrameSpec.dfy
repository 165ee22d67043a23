/** Reading one reply of the daemon's wire protocol out of a buffer that recv() refills chunk by chunk. */
module FrameSpec {
  import opened Bytes
  import opened Number
  import opened Protocol

  // What the reader holds, and the chunks recv() will hand it.  After the last chunk recv() times out;
  // an empty chunk is the peer closing the connection.
  datatype Input = Input(buf: seq<byte>, chunks: seq<seq<byte>>) {
    predicate Stuck() {
      chunks == [] || chunks[0] == []
    }

    function Filled(): Input
      requires !Stuck()
    {
      Input(buf + chunks[0], chunks[1..])
    }
  }

  // A read gets a value, or recv() raises with the buffer as it stands.
  datatype Read<T> = Got(value: T, rest: Input) | Stopped(left: Input) {
    predicate IsFailure() {
      Stopped?
    }

    function PropagateFailure<U>(): Read<U>
      requires Stopped?
    {
      Stopped(left)
    }

    function Extract(): (T, Input)
      requires Got?
    {
      (value, rest)
    }
  }

  datatype Answer = Raw(raw: seq<byte>) | Oversized

  // The buffer behind the terminator at k; the other half of a CR LF or LF CR pair goes with it when it has arrived.
  function BehindEol(s: seq<byte>, k: nat): (r: seq<byte>)
    requires k < |s|
  {
    if k + 1 < |s| && ((s[k] == 13 && s[k + 1] == 10) || (s[k] == 10 && s[k + 1] == 13)) then s[k + 2..] else s[k + 1..]
  }

  function Line(i: Input): (r: Read<seq<byte>>)
    ensures r.Got? ==> |r.rest.chunks| <= |i.chunks|
    decreases |i.chunks|
  {
    var k := FirstEol(i.buf);
    if k < |i.buf| then
      Got(i.buf[..k], i.(buf := BehindEol(i.buf, k)))
    else if i.Stuck() then
      Stopped(i)
    else
      Line(i.Filled())
  }

  function Await(i: Input, n: nat): (r: Read<()>)
    ensures r.Got? ==> n <= |r.rest.buf|
    decreases |i.chunks|
  {
    if n <= |i.buf| then Got((), i) else if i.Stuck() then Stopped(i) else Await(i.Filled(), n)
  }

  function Exact(i: Input, n: nat): Read<seq<byte>> {
    var (_, j) :- Await(i, n);
    Got(j.buf[..n], j.(buf := j.buf[n..]))
  }

  predicate Contains(s: seq<byte>, t: seq<byte>) {
    t <= s || (s != [] && Contains(s[1..], t))
  }

  predicate Terminated(s: seq<byte>) {
    Contains(s, [10, 10]) || Contains(s, [13, 13]) || Contains(s, [13, 10, 13, 10])
  }

  lemma AtLater(s: seq<byte>, t: seq<byte>, k: nat)
    requires s != []
    ensures At(s, t, k + 1) <==> At(s[1..], t, k)
  {
    if k + 1 + |t| <= |s| {
      assert s[1..][k..k + |t|] == s[k + 1..k + 1 + |t|];
    }
  }

  lemma AtStart(s: seq<byte>, t: seq<byte>)
    ensures At(s, t, 0) <==> t <= s
  {
    if |t| <= |s| {
      assert s[0..0 + |t|] == s[..|t|];
    }
  }

  lemma {:induction false} ContainsIff(s: seq<byte>, t: seq<byte>)
    ensures Contains(s, t) <==> Occurs(s, t)
  {
    hide At;
    AtStart(s, t);
    if s != [] {
      ContainsIff(s[1..], t);
      if Occurs(s[1..], t) {
        var k: nat :| At(s[1..], t, k);
        AtLater(s, t, k);
      }
      if Occurs(s, t) {
        var k: nat :| At(s, t, k);
        if k > 0 {
          AtLater(s, t, k - 1);
          assert At(s[1..], t, k - 1);
        }
      }
    } else if Occurs(s, t) {
      var k: nat :| At(s, t, k);
      NothingAt(t, k);
    }
  }

  lemma NothingAt(t: seq<byte>, k: nat)
    requires At([], t, k)
    ensures k == 0
  {
  }

  // A blank line: two LF, two CR, or two pairs of CR LF in a row.
  lemma TerminatedMeans(s: seq<byte>)
    ensures Terminated(s) <==> Occurs(s, [LF, LF]) || Occurs(s, [CR, CR]) || Occurs(s, [CR, LF, CR, LF])
  {
    ContainsIff(s, [10, 10]);
    ContainsIff(s, [13, 13]);
    ContainsIff(s, [13, 10, 13, 10]);
  }

  function ToTerminator(i: Input): Read<seq<byte>>
    decreases |i.chunks|
  {
    if Terminated(i.buf) then Got(i.buf, i.(buf := [])) else if i.Stuck() then Stopped(i) else ToTerminator(i.Filled())
  }

  // split(b":", 1)[1]: None is IndexError.
  function AfterColon(s: seq<byte>): (r: Option<seq<byte>>) {
    if s == [] then None else if s[0] == COLON then Some(s[1..]) else AfterColon(s[1..])
  }

  // The length a header line declares, -1 when it declares none.
  function Declared(header: seq<byte>): int {
    var text := AfterColon(header);
    if text.None? then
      -1
    else
      var digits := Strip(text.value, ByteSpace);
      if digits == [] then 0 else var n := ParseInt(digits, ByteSpace); if n.None? then -1 else n.value
  }

  lemma {:induction false} AfterColonMeans(s: seq<byte>)
    ensures AfterColon(s).None? <==> forall k :: 0 <= k < |s| ==> s[k] != 58
    ensures forall n: nat :: n < |s| && s[n] == 58 && (forall k :: 0 <= k < n ==> s[k] != 58) ==>
              AfterColon(s) == Some(s[n + 1..])
  {
    if s != [] {
      AfterColonMeans(s[1..]);
      forall n: nat | n < |s| && s[n] == 58 && forall k :: 0 <= k < n ==> s[k] != 58
        ensures AfterColon(s) == Some(s[n + 1..])
      {
        if n > 0 {
          assert s[1..][n - 1] == 58 && forall k :: 0 <= k < n - 1 ==> s[1..][k] == s[k + 1];
          assert s[1..][n..] == s[n + 1..];
        }
      }
    }
  }

  // A header without a colon declares nothing, a blank behind the colon is 0, and anything else is what int() makes of
  // it, or nothing.
  lemma DeclaredMeans(header: seq<byte>, n: nat)
    ensures (forall k :: 0 <= k < |header| ==> header[k] != 58) ==> Declared(header) == -1
    ensures n < |header| && header[n] == 58 && (forall k :: 0 <= k < n ==> header[k] != 58) ==>
              var text := Strip(header[n + 1..], ByteSpace);
              Declared(header) == (if |text| == 0 then 0
                                   else match ParseInt(text, ByteSpace) case Some(v) => v case None => -1)
  {
    hide Strip, ParseInt;
    AfterColonMeans(header);
  }

  // n bytes and the line end behind them; nothing at all when n is 0.
  function Counted(i: Input, n: nat): Read<seq<byte>> {
    if n == 0 then
      Got([], i)
    else
      var (data, j) :- Exact(i, n);
      var (trailer, k) :- Line(j);
      Got(data + trailer + [CR], k)
  }

  // What follows the error header: n bytes of error text and the end marker.
  function ErrorRest(i: Input, header: seq<byte>, n: nat): Read<seq<byte>> {
    var (text, k) :- Counted(i, n);
    var (end, l) :- Line(k);
    Got(header + [CR] + text + end, l)
  }

  function ErrorPart(i: Input): Read<seq<byte>> {
    var (header, j) :- Line(i);
    var n := Declared(header);
    if 0 <= n <= MAX_DECLARED then
      ErrorRest(j, header, n)
    else
      var (text, k) :- ToTerminator(j);
      Got(header + [CR] + text, k)
  }

  // What follows the two header lines: n bytes of payload and the error part.
  function Body(i: Input, head: seq<byte>, n: nat): Read<Answer> {
    var (data, j) :- Counted(i, n);
    var (tail, k) :- ErrorPart(j);
    Got(Raw(head + data + tail), k)
  }

  function Framed(i: Input): Read<Answer> {
    var (status, j) :- Line(i);
    var (header, k) :- Line(j);
    var n := Declared(header);
    var head := status + [CR] + header + [CR];
    if n > MAX_DECLARED then
      Got(Oversized, k)
    else if n >= 0 then
      Body(k, head, n)
    else
      var (tail, l) :- ToTerminator(k);
      Got(Raw(head + tail), l)
  }

  function Response(i: Input): Read<Answer> {
    var (_, j) :- Await(i, 7);
    if j.buf[..7] == STATUS_TAG then
      Framed(j)
    else
      var (raw, k) :- ToTerminator(j);
      Got(Raw(raw), k)
  }
}
