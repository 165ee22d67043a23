/** However a daemon frame is cut into chunks, the reader takes it whole, and takes nothing else. */
module FrameCutting {
  import opened Bytes
  import opened Number
  import opened Protocol
  import opened FrameSpec

  // What the daemon's C compiler makes of a line end: CR, or LF where the compiler exchanges the two.
  type LineEnd = b: byte | b == CR || b == LF witness 13

  // No chunk is empty: the peer does not close.
  ghost predicate Solid(i: Input) {
    forall k :: 0 <= k < |i.chunks| ==> i.chunks[k] != []
  }

  function Stream(i: Input): seq<byte> {
    i.buf + Flat(i.chunks)
  }

  const EMPTY := Input([], [])

  // SendCommandResult: no data block and no trailer for an empty payload or an empty error text.
  function Block(e: LineEnd, data: seq<byte>): (r: seq<byte>)
  {
    if data == [] then [] else data + [e]
  }

  function ErrorFrame(e: LineEnd, err: seq<byte>): (r: seq<byte>) {
    STDERR_TAG + Decimal(|err|) + [e] + (Block(e, err) + [e])
  }

  function Frame(e: LineEnd, code: int, payload: seq<byte>, err: seq<byte>): (r: seq<byte>) {
    STATUS_TAG + Decimal(code) + [e]
    + (STDOUT_TAG + Decimal(|payload|) + [e] + (Block(e, payload) + ErrorFrame(e, err)))
  }

  lemma FilledStream(i: Input)
    requires Solid(i) && !i.Stuck()
    ensures Solid(i.Filled()) && Stream(i.Filled()) == Stream(i)
  {
    Assoc(i.buf, i.chunks[0], Flat(i.chunks[1..]));
  }

  lemma NothingLeft(i: Input)
    requires Solid(i) && Stream(i) == []
    ensures i == EMPTY
  {
  }

  lemma StuckStream(i: Input)
    requires Solid(i) && i.Stuck()
    ensures i.chunks == [] && Stream(i) == i.buf
  {
  }

  ghost predicate Plain(e: LineEnd, s: seq<byte>) {
    s == [] || s[0] != (if e == CR then LF else CR)
  }

  lemma FirstEolIs(e: LineEnd, s: seq<byte>, line: seq<byte>, rest: seq<byte>)
    requires OneLine(line) && s == line + [e] + rest
    ensures FirstEol(s) == |line|
  {
    assert s[|line|] == e;
    assert forall k :: 0 <= k < |line| ==> s[k] == line[k];
  }

  lemma FirstEolOfPrefix(s: seq<byte>, t: seq<byte>)
    ensures FirstEol(s + t) < |s| ==> FirstEol(s) == FirstEol(s + t)
    ensures FirstEol(s) < |s| ==> FirstEol(s + t) == FirstEol(s)
  {
    var a, b := FirstEol(s), FirstEol(s + t);
    if a < |s| {
      assert (s + t)[a] == s[a];
    }
    if b < |s| {
      assert (s + t)[b] == s[b];
    }
    assert forall j :: 0 <= j < |s| ==> (s + t)[j] == s[j];
  }

  lemma LineHere(e: LineEnd, buf: seq<byte>, more: seq<byte>, line: seq<byte>, rest: seq<byte>)
    requires buf + more == line + [e] + rest && |line| < |buf|
    ensures buf[|line|] == e && buf[..|line|] == line
    ensures Plain(e, rest) ==> BehindEol(buf, |line|) + more == rest
  {
    var s := buf + more;
    assert buf == s[..|buf|];
    assert buf[|line|] == s[|line|] == e;
    assert buf[..|line|] == s[..|line|] == line;
    assert s[|line| + 1..] == rest;
    if |line| + 1 < |buf| {
      assert buf[|line| + 1] == s[|line| + 1] == rest[0];
    }
    assert Plain(e, rest) ==> BehindEol(buf, |line|) == buf[|line| + 1..];
    assert buf[|line| + 1..] + more == s[|line| + 1..];
  }

  lemma LineStep(i: Input)
    ensures FirstEol(i.buf) < |i.buf| ==>
              Line(i) == Got(i.buf[..FirstEol(i.buf)], i.(buf := BehindEol(i.buf, FirstEol(i.buf))))
    ensures FirstEol(i.buf) == |i.buf| && i.Stuck() ==> Line(i) == Stopped(i)
    ensures FirstEol(i.buf) == |i.buf| && !i.Stuck() ==> Line(i) == Line(i.Filled())
  {
  }

  lemma {:induction false} LineRead(e: LineEnd, i: Input, line: seq<byte>, rest: seq<byte>)
    requires Solid(i) && Stream(i) == line + [e] + rest && OneLine(line)
    ensures Line(i).Got? && Line(i).value == line && Solid(Line(i).rest)
    ensures Plain(e, rest) ==> Stream(Line(i).rest) == rest
    decreases |i.chunks|
  {
    LineStep(i);
    var more := Flat(i.chunks);
    FirstEolIs(e, i.buf + more, line, rest);
    FirstEolOfPrefix(i.buf, more);
    if FirstEol(i.buf) < |i.buf| {
      LineHere(e, i.buf, more, line, rest);
    } else if i.Stuck() {
      StuckStream(i);
    } else {
      FilledStream(i);
      LineRead(e, i.Filled(), line, rest);
    }
  }

  lemma {:induction false} LineShort(i: Input)
    requires Solid(i) && OneLine(Stream(i))
    ensures Line(i).Stopped? && Line(i).left == Input(Stream(i), [])
    decreases |i.chunks|
  {
    LineStep(i);
    assert forall k :: 0 <= k < |i.buf| ==> Stream(i)[k] == i.buf[k];
    if i.Stuck() {
      StuckStream(i);
    } else {
      FilledStream(i);
      LineShort(i.Filled());
    }
  }

  lemma {:induction false} AwaitRead(i: Input, n: nat)
    requires Solid(i)
    ensures n <= |Stream(i)| ==> Await(i, n).Got? && Solid(Await(i, n).rest) && Stream(Await(i, n).rest) == Stream(i)
    ensures n > |Stream(i)| ==> Await(i, n).Stopped? && Await(i, n).left == Input(Stream(i), [])
    decreases |i.chunks|
  {
    if n > |i.buf| {
      if i.Stuck() {
        StuckStream(i);
      } else {
        FilledStream(i);
        AwaitRead(i.Filled(), n);
      }
    }
  }

  lemma ExactRead(i: Input, n: nat)
    requires Solid(i)
    ensures n <= |Stream(i)| ==>
              && Exact(i, n).Got? && Exact(i, n).value == Stream(i)[..n]
              && Solid(Exact(i, n).rest) && Stream(Exact(i, n).rest) == Stream(i)[n..]
    ensures n > |Stream(i)| ==> Exact(i, n).Stopped? && Exact(i, n).left == Input(Stream(i), [])
  {
    AwaitRead(i, n);
    if n <= |Stream(i)| {
      var j := Await(i, n).rest;
      assert Stream(i) == j.buf + Flat(j.chunks);
    }
  }

  // Out of the stream s the read takes n bytes for the value v, or stops when s has fewer.
  ghost predicate Reads<T>(r: Read<T>, s: seq<byte>, n: nat, v: T) {
    if n <= |s| then r.Got? && r.value == v && Solid(r.rest) && Stream(r.rest) == s[n..]
    else r.Stopped? && r.left.chunks == [] && EndOf(r.left.buf, s)
  }

  // t is what is left of s when its beginning is gone.
  ghost predicate EndOf(t: seq<byte>, s: seq<byte>) {
    |t| <= |s| && t == s[|s| - |t|..]
  }

  lemma LineReads(e: LineEnd, i: Input, line: seq<byte>, rest: seq<byte>)
    requires Solid(i) && OneLine(line) && Plain(e, rest) && Stream(i) <= line + [e] + rest
    ensures Reads(Line(i), Stream(i), |line| + 1, line)
    ensures |line| < |Stream(i)| ==> Stream(i)[|line| + 1..] <= rest
  {
    var s := Stream(i);
    if |line| < |s| {
      assert s == line + [e] + s[|line| + 1..];
      LineRead(e, i, line, s[|line| + 1..]);
    } else {
      assert s == line[..|s|];
      LineShort(i);
    }
  }

  lemma BlockRest(e: LineEnd, s: seq<byte>, data: seq<byte>, rest: seq<byte>)
    requires data != [] && |data| <= |s| && s <= Block(e, data) + rest
    ensures s[..|data|] == data && s[|data|..] <= [] + [e] + rest
    ensures data + [] + [CR] == Block(CR, data) && |Block(e, data)| == |data| + 1
    ensures |data| < |s| ==> s[|data|..][1..] == s[|data| + 1..]
  {
  }

  lemma CountedReads(e: LineEnd, i: Input, data: seq<byte>, rest: seq<byte>)
    requires Solid(i) && Plain(e, rest) && Stream(i) <= Block(e, data) + rest
    ensures Reads(Counted(i, |data|), Stream(i), |Block(e, data)|, Block(CR, data))
    ensures |Block(e, data)| <= |Stream(i)| ==> Stream(i)[|Block(e, data)|..] <= rest
  {
    hide Stream, Solid, Line, Exact;
    var s := Stream(i);
    if data != [] {
      ExactRead(i, |data|);
      if |data| <= |s| {
        BlockRest(e, s, data, rest);
        LineReads(e, Exact(i, |data|).rest, [], rest);
      }
    }
  }

  ghost predicate Tag(tag: seq<byte>) {
    |tag| == 7 && tag[6] == COLON && forall k :: 0 <= k < 6 ==> !Eol(tag[k]) && tag[k] != COLON
  }

  lemma {:induction false} AfterColonIs(word: seq<byte>, text: seq<byte>)
    requires forall k :: 0 <= k < |word| ==> word[k] != COLON
    ensures AfterColon(word + [COLON] + text) == Some(text)
  {
    var s := word + [COLON] + text;
    if word == [] {
      assert s[1..] == text;
    } else {
      assert s[1..] == word[1..] + [COLON] + text;
      AfterColonIs(word[1..], text);
    }
  }

  lemma HeaderIsLine(tag: seq<byte>, d: seq<byte>)
    requires Tag(tag) && forall c :: c in d ==> Digit(c) || c == MINUS
    ensures OneLine(tag + d)
    ensures tag + d == tag[..6] + [COLON] + d
  {
    assert forall k :: 0 <= k < |d| ==> d[k] in d;
  }

  lemma HeaderLine(tag: seq<byte>, n: int)
    requires Tag(tag)
    ensures OneLine(tag + Decimal(n)) && |tag + Decimal(n)| > 7
    ensures Declared(tag + Decimal(n)) == n
  {
    hide Decimal, OneLine, AfterColon, ParseInt, Strip;
    HeaderIsLine(tag, Decimal(n));
    AfterColonIs(tag[..6], Decimal(n));
    ParsesBack(n, ByteSpace);
  }

  function WithoutLast(s: seq<byte>): seq<byte>
    requires s != []
  {
    s[..|s| - 1]
  }

  ghost predicate Small(s: seq<byte>) {
    |s| <= MAX_DECLARED
  }

  lemma SmallMeans(s: seq<byte>)
    ensures Small(s) <==> |s| <= 8388608
  {
  }

  lemma ErrorTail(e: LineEnd, err: seq<byte>, s: seq<byte>)
    requires s <= Block(e, err) + [e] && |Block(e, err)| <= |s|
    ensures s[|Block(e, err)|..] <= [e] && [e] == [] + [e] + []
  {
  }

  lemma ErrorRestReads(e: LineEnd, i: Input, header: seq<byte>, err: seq<byte>)
    requires Solid(i) && Plain(e, err) && Stream(i) <= Block(e, err) + [e]
    ensures Reads(ErrorRest(i, header, |err|), Stream(i), |Block(e, err)| + 1, header + [CR] + Block(CR, err))
  {
    hide Counted, Line, Block, Stream, Solid;
    var s := Stream(i);
    CountedReads(e, i, err, [e]);
    if |Block(e, err)| <= |s| {
      ErrorTail(e, err, s);
      LineReads(e, Counted(i, |err|).rest, [], []);
      assert header + [CR] + Block(CR, err) + [] == header + [CR] + Block(CR, err);
    }
  }

  lemma ErrorPartReads(e: LineEnd, i: Input, err: seq<byte>)
    requires Solid(i) && Plain(e, err) && Small(err) && Stream(i) <= ErrorFrame(e, err)
    ensures Reads(ErrorPart(i), Stream(i), |ErrorFrame(e, err)|, WithoutLast(ErrorFrame(CR, err)))
  {
    hide Counted, Line, Block, Stream, Solid, Decimal, Declared;
    var header, rest := STDERR_TAG + Decimal(|err|), Block(e, err) + [e];
    HeaderLine(STDERR_TAG, |err|);
    PlainBlock(e, err);
    LineReads(e, i, header, rest);
    if |header| < |Stream(i)| {
      ErrorRestReads(e, Line(i).rest, header, err);
    }
    assert WithoutLast(ErrorFrame(CR, err)) == header + [CR] + Block(CR, err);
  }

  lemma PlainBlock(e: LineEnd, data: seq<byte>)
    requires Plain(e, data)
    ensures Plain(e, Block(e, data) + [e])
  {
  }

  lemma BodyReads(e: LineEnd, i: Input, head: seq<byte>, payload: seq<byte>, err: seq<byte>)
    requires Solid(i) && Plain(e, payload) && Plain(e, err) && Small(err)
    requires Stream(i) <= Block(e, payload) + ErrorFrame(e, err)
    ensures Reads(Body(i, head, |payload|), Stream(i), |Block(e, payload) + ErrorFrame(e, err)|,
                  Raw(head + WithoutLast(Block(CR, payload) + ErrorFrame(CR, err))))
  {
    hide Counted, ErrorPart, Block, Stream, Solid, Small, Plain;
    var s, size := Stream(i), |Block(e, payload)|;
    PlainErrorFrame(e, err);
    CountedReads(e, i, payload, ErrorFrame(e, err));
    if size <= |s| {
      ErrorPartReads(e, Counted(i, |payload|).rest, err);
      assert head + Block(CR, payload) + WithoutLast(ErrorFrame(CR, err))
          == head + WithoutLast(Block(CR, payload) + ErrorFrame(CR, err));
      assert |ErrorFrame(e, err)| <= |s[size..]| ==>
               s[size..][|ErrorFrame(e, err)|..] == s[size + |ErrorFrame(e, err)|..];
    }
  }

  lemma PlainErrorFrame(e: LineEnd, err: seq<byte>)
    ensures Plain(e, ErrorFrame(e, err))
  {
  }

  function Headers(e: LineEnd, code: int, n: nat): (r: seq<byte>) {
    STATUS_TAG + Decimal(code) + [e] + (STDOUT_TAG + Decimal(n)) + [e]
  }

  lemma FrameLayout(e: LineEnd, code: int, payload: seq<byte>, err: seq<byte>)
    ensures var status, header := STATUS_TAG + Decimal(code), STDOUT_TAG + Decimal(|payload|);
            var rest := Block(e, payload) + ErrorFrame(e, err);
            && Frame(e, code, payload, err) == status + [e] + (header + [e] + rest)
            && Frame(e, code, payload, err) == Headers(e, code, |payload|) + rest
            && WithoutLast(Frame(e, code, payload, err)) == Headers(e, code, |payload|) + WithoutLast(rest)
            && Plain(e, header + [e] + rest) && |status| > 7 && |ErrorFrame(e, err)| > 0
            && |Frame(e, code, payload, err)| == |Frame(CR, code, payload, err)|
  {
    hide Decimal, Block;
    var status, header := STATUS_TAG + Decimal(code), STDOUT_TAG + Decimal(|payload|);
    var rest := Block(e, payload) + ErrorFrame(e, err);
    assert header[0] == 83;
    BlockSize(e, payload);
    BlockSize(e, err);
    Regroup(e, status, header, rest);
  }

  lemma BlockSize(e: LineEnd, data: seq<byte>)
    ensures |Block(e, data)| == |Block(CR, data)|
  {
  }

  lemma Regroup(e: LineEnd, a: seq<byte>, b: seq<byte>, c: seq<byte>)
    ensures a + [e] + (b + [e] + c) == a + [e] + b + [e] + c
  {
  }

  lemma FramedReads(e: LineEnd, i: Input, code: int, payload: seq<byte>, err: seq<byte>)
    requires Solid(i) && Plain(e, payload) && Plain(e, err) && Small(payload) && Small(err)
    requires Stream(i) <= Frame(e, code, payload, err)
    ensures Reads(Framed(i), Stream(i), |Frame(e, code, payload, err)|, Raw(WithoutLast(Frame(CR, code, payload, err))))
  {
    hide Decimal, Block, Stream, Solid, Plain, Line, Body, Declared, ErrorFrame, Frame, OneLine;
    var s := Stream(i);
    var status, header := STATUS_TAG + Decimal(code), STDOUT_TAG + Decimal(|payload|);
    var rest := Block(e, payload) + ErrorFrame(e, err);
    FrameLayout(e, code, payload, err);
    HeaderLine(STATUS_TAG, code);
    HeaderLine(STDOUT_TAG, |payload|);
    LineReads(e, i, status, header + [e] + rest);
    if |status| < |s| {
      var j := Line(i).rest;
      PlainRest(e, payload, err);
      LineReads(e, j, header, rest);
      if |header| < |Stream(j)| {
        var k := Line(j).rest;
        FrameLayout(CR, code, payload, err);
        BodyReads(e, k, Headers(CR, code, |payload|), payload, err);
      }
    }
  }

  lemma PlainRest(e: LineEnd, payload: seq<byte>, err: seq<byte>)
    requires Plain(e, payload)
    ensures Plain(e, Block(e, payload) + ErrorFrame(e, err))
  {
  }

  lemma StatusFirst(e: LineEnd, i: Input, code: int, payload: seq<byte>, err: seq<byte>)
    requires 7 <= |i.buf| && Stream(i) <= Frame(e, code, payload, err)
    ensures i.buf[..7] == STATUS_TAG
  {
    hide Decimal, Block, ErrorFrame;
    assert i.buf <= Frame(e, code, payload, err);
    assert Frame(e, code, payload, err)[..7] == STATUS_TAG;
  }

  // The main result: the reader gives the reply exactly when the whole frame has arrived, however it was cut.
  // It then has asked for nothing behind the frame and left none of it.
  lemma AnyCutting(e: LineEnd, i: Input, code: int, payload: seq<byte>, err: seq<byte>)
    requires Solid(i) && Plain(e, payload) && Plain(e, err) && Small(payload) && Small(err)
    requires Stream(i) <= Frame(e, code, payload, err)
    ensures if Stream(i) == Frame(e, code, payload, err)
            then Response(i) == Got(Raw(WithoutLast(Frame(CR, code, payload, err))), EMPTY)
            else Response(i).Stopped? && Response(i).left.chunks == [] && EndOf(Response(i).left.buf, Stream(i))
  {
    hide Decimal, Block, Stream, Solid, Plain, Framed, ErrorFrame, Frame, Await;
    AwaitRead(i, 7);
    FrameLayout(e, code, payload, err);
    if 7 <= |Stream(i)| {
      var j := Await(i, 7).rest;
      StatusFirst(e, j, code, payload, err);
      FramedReads(e, j, code, payload, err);
      if Stream(i) == Frame(e, code, payload, err) {
        NothingLeft(Framed(j).rest);
      }
    }
  }

  lemma LineInBuf(e: LineEnd, line: seq<byte>, rest: seq<byte>)
    requires OneLine(line)
    ensures Line(Input(line + [e] + rest, [])) == Got(line, Input(if Plain(e, rest) then rest else rest[1..], []))
  {
    var s := line + [e] + rest;
    FirstEolIs(e, s, line, rest);
    assert s[..|line|] == line && s[|line| + 1..] == rest && s[|line|] == e;
    if rest != [] {
      assert s[|line| + 1] == rest[0] && s[|line| + 2..] == rest[1..];
    }
  }

  lemma {:induction false} Shifted(s: seq<byte>, x: byte)
    requires s != [] && s[1..] + [x] == s
    ensures s[0] == x
  {
    if |s| > 1 {
      assert s[1..][1..] + [x] == s[1..] by {
        assert (s[1..] + [x])[1..] == s[1..][1..] + [x];
      }
      Shifted(s[1..], x);
      assert s[0] == (s[1..] + [x])[0];
    }
  }

  lemma SwallowedPayload(e: LineEnd, head: seq<byte>, payload: seq<byte>, rest: seq<byte>)
    requires !Plain(e, payload)
    ensures var r := Body(Input((Block(e, payload) + rest)[1..], []), head, |payload|);
            r.Got? ==> r.value.Raw? && !(head + payload <= r.value.raw)
  {
    hide ErrorPart, Line, Exact;
    var s := (Block(e, payload) + rest)[1..];
    var i := Input(s, []);
    var data := payload[1..] + [e];
    assert s == data + rest;
    ExactInBuf(data, rest);
    var r := Body(i, head, |payload|);
    if r.Got? {
      var raw := r.value.raw;
      assert raw[|head|..|head| + |payload|] == data;
      if head + payload <= raw {
        assert (head + payload)[|head|..] == payload;
        assert raw[|head|..|head| + |payload|] == payload;
        Shifted(payload, e);
        assert false;
      }
    }
  }

  lemma ExactInBuf(data: seq<byte>, rest: seq<byte>)
    ensures Exact(Input(data + rest, []), |data|) == Got(data, Input(rest, []))
  {
  }

  lemma SwallowedText(e: LineEnd, err: seq<byte>)
    requires !Plain(e, err)
    ensures Counted(Input((Block(e, err) + [e])[1..], []), |err|) == Got(err[1..] + [e] + [CR], EMPTY)
  {
    hide Exact, Line;
    var data := err[1..] + [e];
    assert (Block(e, err) + [e])[1..] == data + [e];
    ExactInBuf(data, [e]);
    assert [e] == [] + [e] + [];
    LineInBuf(e, [], []);
    assert data + [] + [CR] == data + [CR];
  }

  lemma SwallowedError(e: LineEnd, err: seq<byte>)
    requires !Plain(e, err) && Small(err)
    ensures ErrorPart(Input(ErrorFrame(e, err), [])).Stopped?
  {
    hide Decimal, Declared, Counted, Line, Block;
    var header := STDERR_TAG + Decimal(|err|);
    HeaderLine(STDERR_TAG, |err|);
    NotPlainRest(e, err, [e]);
    LineInBuf(e, header, Block(e, err) + [e]);
    SwallowedText(e, err);
    LineShort(EMPTY);
  }

  lemma OneChunk(s: seq<byte>)
    ensures Stream(Input([], [s])) == s
    ensures 7 <= |s| ==> Await(Input([], [s]), 7) == Got((), Input(s, []))
  {
    assert [] + s == s;
    assert Flat([s]) == s + Flat([s][1..]);
    if 7 <= |s| {
      var i := Input([], [s]);
      assert Await(i, 7) == Await(i.Filled(), 7);
    }
  }

  lemma SwallowedFrame(e: LineEnd, code: int, payload: seq<byte>, err: seq<byte>)
    requires Small(payload) && Small(err) && !(Plain(e, payload) && Plain(e, err))
    ensures var r := Framed(Input(Frame(e, code, payload, err), []));
            r.Got? ==> r.value.Raw? && r.value.raw != WithoutLast(Frame(CR, code, payload, err))
  {
    hide Decimal, Block, Line, Declared, ErrorFrame, Frame, OneLine, Plain, Body;
    var status, header := STATUS_TAG + Decimal(code), STDOUT_TAG + Decimal(|payload|);
    var rest := Block(e, payload) + ErrorFrame(e, err);
    FrameLayout(e, code, payload, err);
    HeaderLine(STATUS_TAG, code);
    HeaderLine(STDOUT_TAG, |payload|);
    LineInBuf(e, status, header + [e] + rest);
    LineInBuf(e, header, rest);
    var head := Headers(CR, code, |payload|);
    FrameLayout(CR, code, payload, err);
    BlockStarts(payload);
    if Plain(e, payload) {
      PlainRest(e, payload, err);
      SwallowedErrorBody(e, head, payload, err);
    } else {
      NotPlainRest(e, payload, ErrorFrame(e, err));
      SwallowedPayload(e, head, payload, ErrorFrame(e, err));
      assert head + payload <= WithoutLast(Frame(CR, code, payload, err));
    }
  }

  lemma BlockStarts(payload: seq<byte>)
    ensures payload <= Block(CR, payload)
  {
  }

  lemma NotPlainRest(e: LineEnd, payload: seq<byte>, tail: seq<byte>)
    requires !Plain(e, payload)
    ensures !Plain(e, Block(e, payload) + tail) 
  {
  }

  lemma SwallowedErrorBody(e: LineEnd, head: seq<byte>, payload: seq<byte>, err: seq<byte>)
    requires Small(err) && Plain(e, payload) && !Plain(e, err)
    ensures Body(Input(Block(e, payload) + ErrorFrame(e, err), []), head, |payload|).Stopped?
  {
    hide Counted, Block, ErrorFrame, ErrorPart, Plain, Small;
    var s := Block(e, payload) + ErrorFrame(e, err);
    var i := Input(s, []);
    assert Stream(i) == s;
    PlainErrorFrame(e, err);
    CountedReads(e, i, payload, ErrorFrame(e, err));
    var j := Counted(i, |payload|).rest;
    CountedStays(i, |payload|);
    assert j.buf == Stream(j) == ErrorFrame(e, err);
    SwallowedError(e, err);
  }

  lemma CountedStays(i: Input, n: nat)
    requires i.chunks == [] && Counted(i, n).Got?
    ensures Counted(i, n).rest.chunks == []
  {
  }

  // Which frames survive every cutting: those whose payload and error text do not start with the other half of the
  // line end.
  lemma CuttingIff(e: LineEnd, code: int, payload: seq<byte>, err: seq<byte>)
    requires Small(payload) && Small(err)
    ensures (forall i :: Solid(i) && Stream(i) == Frame(e, code, payload, err)
                    ==> Response(i) == Got(Raw(WithoutLast(Frame(CR, code, payload, err))), EMPTY))
            <==> Plain(e, payload) && Plain(e, err)
  {
    hide Decimal, Block, Framed, ErrorFrame, Frame, Plain, Await, Stream, Small;
    var f := Frame(e, code, payload, err);
    FrameLayout(e, code, payload, err);
    if Plain(e, payload) && Plain(e, err) {
      forall i | Solid(i) && Stream(i) == f
        ensures Response(i) == Got(Raw(WithoutLast(Frame(CR, code, payload, err))), EMPTY)
      {
        AnyCutting(e, i, code, payload, err);
      }
    } else {
      OneChunk(f);
      SwallowedFrame(e, code, payload, err);
      BufStream(f);
      StatusFirst(e, Input(f, []), code, payload, err);
      assert Solid(Input([], [f]));
    }
  }

  lemma BufStream(s: seq<byte>)
    ensures Stream(Input(s, [])) == s
  {
  }

  // A payload longer than the cap is never read: its header alone drops the link.
  lemma OversizedDrops(e: LineEnd, i: Input, code: int, payload: seq<byte>, err: seq<byte>)
    requires Solid(i) && Stream(i) == Frame(e, code, payload, err) && |payload| > 8388608
    ensures Response(i).Got? && Response(i).value == Oversized
  {
    hide Decimal, Block, Stream, Solid, Line, Body, Declared, ErrorFrame, Frame, OneLine, Await, Plain;
    var status, header := STATUS_TAG + Decimal(code), STDOUT_TAG + Decimal(|payload|);
    var rest := Block(e, payload) + ErrorFrame(e, err);
    FrameLayout(e, code, payload, err);
    HeaderLine(STATUS_TAG, code);
    HeaderLine(STDOUT_TAG, |payload|);
    AwaitRead(i, 7);
    var j := Await(i, 7).rest;
    StatusFirst(e, j, code, payload, err);
    LineRead(e, j, status, header + [e] + rest);
    LineRead(e, Line(j).rest, header, rest);
  }

  /** Reads up to a blank line */

  // A text that ends with its first blank line.
  ghost predicate EndsBlank(s: seq<byte>) {
    Terminated(s) && forall n :: 0 <= n < |s| ==> !Terminated(s[..n])
  }

  // From any cutting such a text is taken whole, and nothing behind it.
  lemma {:induction false} TerminatorReads(i: Input, s: seq<byte>)
    requires Solid(i) && EndsBlank(s) && Stream(i) <= s
    ensures if Stream(i) == s then ToTerminator(i) == Got(s, EMPTY)
            else ToTerminator(i) == Stopped(Input(Stream(i), []))
    decreases |i.chunks|
  {
    hide Terminated;
    assert i.buf == s[..|i.buf|];
    if Terminated(i.buf) {
      assert i.buf == s;
      assert Stream(Input([], i.chunks)) == Stream(i)[|i.buf|..];
      NothingLeft(Input([], i.chunks));
      TerminatorHere(i);
    } else if i.Stuck() {
      StuckStream(i);
      TerminatorStep(i);
    } else {
      FilledStream(i);
      TerminatorStep(i);
      TerminatorReads(i.Filled(), s);
    }
  }

  lemma TerminatorHere(i: Input)
    requires Terminated(i.buf)
    ensures ToTerminator(i) == Got(i.buf, i.(buf := []))
  {
  }

  lemma TerminatorStep(i: Input)
    requires !Terminated(i.buf)
    ensures ToTerminator(i) == if i.Stuck() then Stopped(i) else ToTerminator(i.Filled())
  {
  }

  lemma {:induction false} ContainsAt(s: seq<byte>, x: byte, y: byte, more: seq<byte>)
    requires Contains(s, [x, y] + more)
    ensures exists k :: 0 <= k < |s| - 1 && s[k] == x && s[k + 1] == y
  {
    var t := [x, y] + more;
    if t <= s {
      assert s[0] == t[0] == x && s[1] == t[1] == y;
    } else {
      ContainsAt(s[1..], x, y, more);
      var k :| 0 <= k < |s[1..]| - 1 && s[1..][k] == x && s[1..][k + 1] == y;
      assert s[k + 1] == x && s[k + 2] == y;
    }
  }

  lemma {:induction false} PairContained(s: seq<byte>, x: byte, k: nat)
    requires k + 1 < |s| && s[k] == x && s[k + 1] == x
    ensures Contains(s, [x, x])
  {
    if k == 0 {
      assert [x, x] <= s;
    } else {
      PairContained(s[1..], x, k - 1);
    }
  }

  // A blank line is two line ends in a row.
  lemma TerminatedPair(s: seq<byte>)
    requires Terminated(s)
    ensures exists k :: 0 <= k < |s| - 1 && Eol(s[k]) && Eol(s[k + 1])
  {
    hide Contains;
    assert [10, 10] + [] == [10, 10] && [13, 13] + [] == [13, 13] && [13, 10] + [13, 10] == [13, 10, 13, 10];
    if Contains(s, [10, 10]) {
      ContainsAt(s, 10, 10, []);
    } else if Contains(s, [13, 13]) {
      ContainsAt(s, 13, 13, []);
    } else {
      ContainsAt(s, 13, 10, [13, 10]);
    }
  }

  /** Replies without a payload that the daemon writes out by hand */

  // What follows the header lines: an error header, and its text behind it.
  function ErrorLines(e: LineEnd, declared: int, err: seq<byte>): (r: seq<byte>) {
    STDERR_TAG + Decimal(declared) + [e] + (err + [e, e])
  }

  function Written(e: LineEnd, code: int, tail: seq<byte>): (r: seq<byte>) {
    STATUS_TAG + Decimal(code) + [e] + (STDOUT_TAG + Decimal(0) + [e] + tail)
  }

  // A failure: laid out like a result, with whatever length it declares.
  function Failing(e: LineEnd, code: int, declared: int, err: seq<byte>): (r: seq<byte>) {
    Written(e, code, ErrorLines(e, declared, err))
  }

  // What the reader makes of it.
  function FailureText(code: int, declared: int, err: seq<byte>): (r: seq<byte>) {
    Headers(CR, code, 0) + WithoutLast(ErrorLines(CR, declared, err))
  }

  // A rejection: a blank line comes first.
  function Rejection(e: LineEnd, code: int, declared: int, err: seq<byte>): (r: seq<byte>) {
    Written(e, code, [e] + ErrorLines(e, declared, err))
  }

  // The two lines that the reader has split are joined with CR, the rest is as it came.
  function RejectionText(e: LineEnd, code: int, declared: int, err: seq<byte>): (r: seq<byte>) {
    Headers(CR, code, 0) + ([CR] + ErrorLines(e, declared, err))
  }

  // From any cutting of the tail the error part gives the value exactly when the tail is all there.
  ghost predicate ErrorReads(tail: seq<byte>, value: seq<byte>) {
    forall i: Input :: Solid(i) && Stream(i) <= tail ==> Reads(ErrorPart(i), Stream(i), |tail|, value)
  }

  lemma WrittenLayout(e: LineEnd, code: int, tail: seq<byte>)
    ensures var status, header := STATUS_TAG + Decimal(code), STDOUT_TAG + Decimal(0);
            && Written(e, code, tail) == status + [e] + (header + [e] + tail)
            && status + [CR] + header + [CR] == Headers(CR, code, 0)
            && Plain(e, header + [e] + tail) && |status| > 7 && Written(e, code, tail)[..7] == STATUS_TAG
  {
    hide Decimal;
    assert (STDOUT_TAG + Decimal(0))[0] == 83;
  }

  // Any reply without a payload has the law of its error part.
  lemma WrittenReads(i: Input, e: LineEnd, code: int, tail: seq<byte>, value: seq<byte>)
    requires Solid(i) && Plain(e, tail) && ErrorReads(tail, value) && Stream(i) <= Written(e, code, tail)
    ensures Reads(Framed(i), Stream(i), |Written(e, code, tail)|, Raw(Headers(CR, code, 0) + value))
  {
    hide Decimal, Stream, Solid, Plain, Line, ErrorPart, Declared, Written, OneLine, Headers;
    var s := Stream(i);
    var status, header := STATUS_TAG + Decimal(code), STDOUT_TAG + Decimal(0);
    WrittenLayout(e, code, tail);
    HeaderLine(STATUS_TAG, code);
    HeaderLine(STDOUT_TAG, 0);
    LineReads(e, i, status, header + [e] + tail);
    if |status| < |s| {
      var j := Line(i).rest;
      LineReads(e, j, header, tail);
      if |header| < |Stream(j)| {
        var k := Line(j).rest;
        assert Reads(ErrorPart(k), Stream(k), |tail|, value);
        assert Headers(CR, code, 0) + [] == Headers(CR, code, 0);
      }
    }
  }

  lemma WrittenCutting(e: LineEnd, i: Input, code: int, tail: seq<byte>, value: seq<byte>)
    requires Solid(i) && Plain(e, tail) && ErrorReads(tail, value) && Stream(i) <= Written(e, code, tail)
    ensures if Stream(i) == Written(e, code, tail) then Response(i) == Got(Raw(Headers(CR, code, 0) + value), EMPTY)
            else Response(i).Stopped? && Response(i).left.chunks == [] && EndOf(Response(i).left.buf, Stream(i))
  {
    hide Decimal, Stream, Solid, Framed, Written, Await, ErrorReads, Plain, Headers;
    AwaitRead(i, 7);
    WrittenLayout(e, code, tail);
    WrittenLong(e, code, tail);
    if 7 <= |Stream(i)| {
      var j := Await(i, 7).rest;
      BufStarts(j, Written(e, code, tail));
      WrittenReads(j, e, code, tail, value);
      if Stream(i) == Written(e, code, tail) {
        NothingLeft(Framed(j).rest);
      }
    }
  }

  lemma WrittenLong(e: LineEnd, code: int, tail: seq<byte>)
    ensures |Written(e, code, tail)| >= 7
  {
    hide Decimal;
  }

  lemma NoBlankLine(s: seq<byte>)
    requires forall k :: 0 <= k < |s| - 1 ==> !(Eol(s[k]) && Eol(s[k + 1]))
    ensures !Terminated(s)
  {
    hide Terminated;
    if Terminated(s) {
      TerminatedPair(s);
    }
  }

  // Two lines and a blank one: no two line ends in a row but the last two.
  lemma OnlyPair(e: LineEnd, a: seq<byte>, b: seq<byte>, k: nat)
    requires OneLine(a) && OneLine(b) && b != [] && k + 2 < |a + [e] + (b + [e, e])|
    ensures var s := a + [e] + (b + [e, e]);
            !(Eol(s[k]) && Eol(s[k + 1]))
  {
    var s := a + [e] + (b + [e, e]);
    if k < |a| {
      assert s[k] == a[k];
    } else if k == |a| {
      assert s[k + 1] == b[0];
    } else {
      assert s[k] == b[k - |a| - 1];
    }
  }

  lemma TwoLinesEndBlank(e: LineEnd, a: seq<byte>, b: seq<byte>)
    requires OneLine(a) && OneLine(b) && b != []
    ensures EndsBlank(a + [e] + (b + [e, e]))
  {
    hide Contains, OneLine;
    var s := a + [e] + (b + [e, e]);
    PairContained(s, e, |s| - 2);
    forall n | 0 <= n < |s|
      ensures !Terminated(s[..n])
    {
      forall k | 0 <= k < n - 1
        ensures !(Eol(s[..n][k]) && Eol(s[..n][k + 1]))
      {
        OnlyPair(e, a, b, k);
      }
      NoBlankLine(s[..n]);
    }
  }

  // Behind the blank line: the error header and text, which the reader takes up to the blank line at the end.
  lemma BlankReads(e: LineEnd, declared: int, err: seq<byte>)
    requires err != [] && OneLine(err)
    ensures ErrorReads([e] + ErrorLines(e, declared, err), [CR] + ErrorLines(e, declared, err))
  {
    hide *;
    var tail := ErrorLines(e, declared, err);
    forall i: Input | Solid(i) && Stream(i) <= [e] + tail
      ensures Reads(ErrorPart(i), Stream(i), |[e] + tail|, [CR] + tail)
    {
      BlankPartReads(i, e, declared, err);
    }
    ErrorReadsAll([e] + tail, [CR] + tail);
  }

  lemma ErrorReadsAll(tail: seq<byte>, value: seq<byte>)
    requires forall i: Input :: Solid(i) && Stream(i) <= tail ==> Reads(ErrorPart(i), Stream(i), |tail|, value)
    ensures ErrorReads(tail, value)
  {
  }

  lemma BlankPartReads(i: Input, e: LineEnd, declared: int, err: seq<byte>)
    requires Solid(i) && err != [] && OneLine(err) && Stream(i) <= [e] + ErrorLines(e, declared, err)
    ensures Reads(ErrorPart(i), Stream(i), |[e] + ErrorLines(e, declared, err)|, [CR] + ErrorLines(e, declared, err))
  {
    hide Decimal, Line, ToTerminator, Stream, Solid, EndsBlank, OneLine;
    var s, tail := Stream(i), ErrorLines(e, declared, err);
    HeaderLine(STDERR_TAG, declared);
    TwoLinesEndBlank(e, STDERR_TAG + Decimal(declared), err);
    PlainTail(e, declared, err);
    NoLine();
    assert [] + [e] + tail == [e] + tail;
    LineReads(e, i, [], tail);
    if 0 < |s| {
      var j := Line(i).rest;
      TerminatorReads(j, tail);
      if |s| == 1 + |tail| {
        assert Stream(j) == tail;
        EmptyStream();
        assert [] + [CR] + tail == [CR] + tail;
        assert s[1 + |tail|..] == [];
      } else {
        assert |Stream(j)| < |tail|;
      }
    }
  }

  lemma PlainTail(e: LineEnd, declared: int, err: seq<byte>)
    ensures Plain(e, ErrorLines(e, declared, err)) && Plain(e, [e] + ErrorLines(e, declared, err))
  {
  }

  lemma NoLine()
    ensures OneLine([]) && Declared([]) == -1
  {
  }

  lemma EmptyStream()
    ensures Stream(EMPTY) == [] && Solid(EMPTY)
  {
  }

  // The rejection has the same law as the frame: taken whole, in any cutting, and nothing behind it.
  lemma RejectionCutting(e: LineEnd, i: Input, code: int, declared: int, err: seq<byte>)
    requires Solid(i) && err != [] && OneLine(err) && Stream(i) <= Rejection(e, code, declared, err)
    ensures if Stream(i) == Rejection(e, code, declared, err)
            then Response(i) == Got(Raw(RejectionText(e, code, declared, err)), EMPTY)
            else Response(i).Stopped? && Response(i).left.chunks == [] && EndOf(Response(i).left.buf, Stream(i))
  {
    hide Stream, Solid, Response, Written, ErrorLines, OneLine, ErrorReads, Plain, Headers;
    BlankReads(e, declared, err);
    PlainTail(e, declared, err);
    WrittenCutting(e, i, code, [e] + ErrorLines(e, declared, err), [CR] + ErrorLines(e, declared, err));
  }

  /** A failure whose length is too short: the line read behind the counted bytes takes the rest of its line */

  ghost predicate Countable(declared: int, err: seq<byte>) {
    OneLine(err) && 0 < declared <= |err| && declared <= MAX_DECLARED
  }

  lemma ShortParts(e: LineEnd, declared: nat, err: seq<byte>, s: seq<byte>)
    requires Countable(declared, err) && s <= err + [e, e]
    ensures declared <= |s| ==> s[..declared] == err[..declared] && s[declared..] <= err[declared..] + [e] + [e]
    ensures OneLine(err[declared..]) && |err[declared..]| == |err| - declared
    ensures err[..declared] + err[declared..] + [CR] == err + [CR]
    ensures |err| < |s| ==> s[declared..][|err| - declared + 1..] == s[|err| + 1..] <= [e]
  {
    if |err| < |s| {
      assert s[|err| + 1..] <= (err + [e, e])[|err| + 1..] == [e];
    }
  }

  lemma ShortCountedReads(e: LineEnd, i: Input, declared: nat, err: seq<byte>)
    requires Solid(i) && Countable(declared, err) && Stream(i) <= err + [e, e]
    ensures Reads(Counted(i, declared), Stream(i), |err| + 1, err + [CR])
    ensures |err| < |Stream(i)| ==> Stream(i)[|err| + 1..] <= [e]
  {
    hide Stream, Solid, Line, Exact, Countable, OneLine;
    ExactRead(i, declared);
    ShortParts(e, declared, err, Stream(i));
    CountableSize(declared, err);
    PlainEnd(e);
    if declared <= |Stream(i)| {
      LineReads(e, Exact(i, declared).rest, err[declared..], [e]);
    }
  }

  lemma CountableSize(declared: int, err: seq<byte>)
    requires Countable(declared, err)
    ensures 0 < declared <= |err| && declared <= MAX_DECLARED && OneLine(err)
  {
  }

  lemma PlainEnd(e: LineEnd)
    ensures Plain(e, [e]) && Plain(e, []) && OneLine([]) && [e] == [] + [e] + []
  {
  }

  lemma FailurePartReads(i: Input, e: LineEnd, declared: int, err: seq<byte>)
    requires Solid(i) && Countable(declared, err) && Stream(i) <= ErrorLines(e, declared, err)
    ensures Reads(ErrorPart(i), Stream(i), |ErrorLines(e, declared, err)|, WithoutLast(ErrorLines(CR, declared, err)))
  {
    hide Decimal, Line, Counted, Stream, Solid, Countable, OneLine, Declared, Plain;
    var s, header := Stream(i), STDERR_TAG + Decimal(declared);
    CountableSize(declared, err);
    HeaderLine(STDERR_TAG, declared);
    PlainEnd(e);
    PlainText(e, err);
    assert WithoutLast(ErrorLines(CR, declared, err)) == header + [CR] + (err + [CR]) + [];
    LineReads(e, i, header, err + [e, e]);
    if |header| < |s| {
      var j := Line(i).rest;
      ShortCountedReads(e, j, declared, err);
      if |err| < |Stream(j)| {
        LineReads(e, Counted(j, declared).rest, [], []);
      }
    }
  }

  lemma PlainText(e: LineEnd, err: seq<byte>)
    requires OneLine(err)
    ensures Plain(e, err + [e, e])
  {
  }

  lemma FailureReads(e: LineEnd, declared: int, err: seq<byte>)
    requires Countable(declared, err)
    ensures ErrorReads(ErrorLines(e, declared, err), WithoutLast(ErrorLines(CR, declared, err)))
  {
    hide *;
    SomeTail(declared, err);
    var tail, value := ErrorLines(e, declared, err), WithoutLast(ErrorLines(CR, declared, err));
    forall i: Input | Solid(i) && Stream(i) <= tail
      ensures Reads(ErrorPart(i), Stream(i), |tail|, value)
    {
      FailurePartReads(i, e, declared, err);
    }
    ErrorReadsAll(tail, value);
  }

  lemma SomeTail(declared: int, err: seq<byte>)
    ensures ErrorLines(CR, declared, err) != []
  {
  }

  lemma FailureCutting(e: LineEnd, i: Input, code: int, declared: int, err: seq<byte>)
    requires Solid(i) && Countable(declared, err) && Stream(i) <= Failing(e, code, declared, err)
    ensures if Stream(i) == Failing(e, code, declared, err)
            then Response(i) == Got(Raw(FailureText(code, declared, err)), EMPTY)
            else Response(i).Stopped? && Response(i).left.chunks == [] && EndOf(Response(i).left.buf, Stream(i))
  {
    hide Stream, Solid, Response, Written, ErrorLines, Countable, ErrorReads, Plain, Headers, WithoutLast;
    SomeTail(declared, err);
    FailureReads(e, declared, err);
    PlainTail(e, declared, err);
    WrittenCutting(e, i, code, ErrorLines(e, declared, err), WithoutLast(ErrorLines(CR, declared, err)));
  }

  /** Any other length spoils it */

  lemma TooLong(e: LineEnd, header: seq<byte>, declared: nat, err: seq<byte>)
    requires declared > |err| && OneLine(err)
    ensures ErrorRest(Input(err + [e, e], []), header, declared).Stopped?
  {
    hide Line, Exact;
    var s := err + [e, e];
    var i := Input(s, []);
    LineShort(EMPTY);
    if declared == |err| + 1 {
      assert s == (err + [e]) + [e];
      ExactInBuf(err + [e], [e]);
      assert [e] == [] + [e] + [];
      LineInBuf(e, [], []);
    } else if declared == |err| + 2 {
      assert s == s + [];
      ExactInBuf(s, []);
    } else {
      ExactRead(i, declared);
      BufStream(s);
    }
  }

  lemma NothingCounted(e: LineEnd, header: seq<byte>, err: seq<byte>)
    requires OneLine(err)
    ensures ErrorRest(Input(err + [e, e], []), header, 0) == Got(header + [CR] + [] + err, Input([e], []))
  {
    assert err + [e, e] == err + [e] + [e];
    LineInBuf(e, err, [e]);
  }

  lemma FailureSpoilt(e: LineEnd, declared: nat, err: seq<byte>)
    requires OneLine(err) && err != [] && !Countable(declared, err)
    ensures ErrorPart(Input(ErrorLines(e, declared, err), [])) != Got(WithoutLast(ErrorLines(CR, declared, err)), EMPTY)
  {
    hide Decimal, Line, Declared, ToTerminator, OneLine, ErrorRest;
    var header, behind := STDERR_TAG + Decimal(declared), err + [e, e];
    HeaderLine(STDERR_TAG, declared);
    PlainText(e, err);
    LineInBuf(e, header, behind);
    if declared == 0 {
      NothingCounted(e, header, err);
    } else if declared <= MAX_DECLARED {
      CountableOtherwise(declared, err);
      TooLong(e, header, declared, err);
    } else {
      EndsBlankHere(e, err);
      TerminatorHere(Input(behind, []));
      assert |header + [CR] + behind| == |ErrorLines(CR, declared, err)|;
    }
  }

  lemma CountableOtherwise(declared: int, err: seq<byte>)
    requires OneLine(err) && 0 < declared <= MAX_DECLARED && !Countable(declared, err)
    ensures declared > |err|
  {
  }

  lemma EndsBlankHere(e: LineEnd, err: seq<byte>)
    ensures Terminated(err + [e, e])
  {
    hide Contains;
    PairContained(err + [e, e], e, |err|);
  }

  lemma FailureAtOnce(e: LineEnd, code: int, declared: nat, err: seq<byte>)
    requires OneLine(err) && err != [] && !Countable(declared, err)
    ensures Response(Input([], [Failing(e, code, declared, err)]))
         != Got(Raw(FailureText(code, declared, err)), EMPTY)
  {
    hide Decimal, Line, Declared, ErrorPart, ErrorLines, WithoutLast, Await, Plain, Written, Headers, OneLine,
      Countable;
    var tail, head := ErrorLines(e, declared, err), Headers(CR, code, 0);
    var status, header := STATUS_TAG + Decimal(code), STDOUT_TAG + Decimal(0);
    SomeTail(declared, err);
    PlainTail(e, declared, err);
    FailureSpoilt(e, declared, err);
    WrittenLayout(e, code, tail);
    WrittenLong(e, code, tail);
    OneChunk(Written(e, code, tail));
    HeaderLine(STATUS_TAG, code);
    HeaderLine(STDOUT_TAG, 0);
    LineInBuf(e, status, header + [e] + tail);
    LineInBuf(e, header, tail);
    var j := Input(tail, []);
    assert head + [] == head;
    if ErrorPart(j).Got? {
      SameTail(head, ErrorPart(j).value, WithoutLast(ErrorLines(CR, declared, err)));
    }
  }

  lemma SameTail(head: seq<byte>, a: seq<byte>, b: seq<byte>)
    ensures head + a == head + b ==> a == b
  {
    assert (head + a)[|head|..] == a && (head + b)[|head|..] == b;
  }

  lemma OneSolid(s: seq<byte>)
    requires s != []
    ensures Solid(Input([], [s]))
  {
  }

  lemma SomeFailure(e: LineEnd, code: int, declared: int, err: seq<byte>)
    ensures Failing(e, code, declared, err) != []
  {
    hide Decimal;
  }

  // A failure is read from every cutting exactly when it declares a length from 1 to that of its text.
  lemma FailureIff(e: LineEnd, code: int, declared: nat, err: seq<byte>)
    requires OneLine(err) && err != []
    ensures (forall i :: Solid(i) && Stream(i) == Failing(e, code, declared, err)
                    ==> Response(i) == Got(Raw(FailureText(code, declared, err)), EMPTY))
            <==> Countable(declared, err)
  {
    hide Failing, FailureText, Stream, Solid, Response, Countable, OneLine;
    var f := Failing(e, code, declared, err);
    if Countable(declared, err) {
      forall i | Solid(i) && Stream(i) == f
        ensures Response(i) == Got(Raw(FailureText(code, declared, err)), EMPTY)
      {
        FailureCutting(e, i, code, declared, err);
      }
    } else {
      FailureAtOnce(e, code, declared, err);
      OneChunk(f);
      SomeFailure(e, code, declared, err);
      OneSolid(f);
    }
  }

  lemma BufStarts(i: Input, s: seq<byte>)
    requires 7 <= |i.buf| && Stream(i) <= s
    ensures i.buf[..7] == s[..7]
  {
    assert i.buf <= Stream(i);
  }

  /** All kinds of reply */

  datatype Message =
    | Result(code: int, payload: seq<byte>, err: seq<byte>)
    | Refusal(code: int, declared: int, err: seq<byte>)
    | Failure(code: int, declared: int, err: seq<byte>)
  {
    // What the daemon sends.
    function Sent(e: LineEnd): (r: seq<byte>) {
      match this
      case Result(_, _, _) => Frame(e, code, payload, err)
      case Refusal(_, _, _) => Rejection(e, code, declared, err)
      case Failure(_, _, _) => Failing(e, code, declared, err)
    }

    // What the reader makes of it.
    function Text(e: LineEnd): (r: seq<byte>) {
      match this
      case Result(_, _, _) => Framing(code, payload, err)
      case Refusal(_, _, _) => RejectionText(e, code, declared, err)
      case Failure(_, _, _) => FailureText(code, declared, err)
    }

    // Not read back are texts that start with the other half of the line end, that are too long, or, in a failure,
    // that are shorter than the length declared for them.
    ghost predicate Readable(e: LineEnd) {
      match this
      case Result(_, _, _) => Plain(e, payload) && Plain(e, err) && Small(payload) && Small(err)
      case Refusal(_, _, _) => err != [] && OneLine(err)
      case Failure(_, _, _) => Countable(declared, err)
    }
  }

  // The frame with CR for every line end, and without the last one.
  function Framing(code: int, payload: seq<byte>, err: seq<byte>): seq<byte> {
    FrameLayout(CR, code, payload, err);
    WithoutLast(Frame(CR, code, payload, err))
  }

  // The law of all: in any cutting the reply comes exactly when all of it has arrived.
  lemma MessageCutting(e: LineEnd, i: Input, m: Message)
    requires Solid(i) && m.Readable(e) && Stream(i) <= m.Sent(e)
    ensures if Stream(i) == m.Sent(e) then Response(i) == Got(Raw(m.Text(e)), EMPTY)
            else Response(i).Stopped? && Response(i).left.chunks == [] && EndOf(Response(i).left.buf, Stream(i))
  {
    hide Frame, Rejection, RejectionText, Failing, FailureText, Countable, WithoutLast, Stream, Response, EndOf;
    match m {
      case Result(code, payload, err) =>
        FrameLayout(CR, code, payload, err);
        AnyCutting(e, i, code, payload, err);
      case Refusal(code, declared, err) =>
        RejectionCutting(e, i, code, declared, err);
      case Failure(code, declared, err) =>
        FailureCutting(e, i, code, declared, err);
    }
  }
}
