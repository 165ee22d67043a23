/** What a client reads in a daemon's reply, and in the same reply with the NOTES field in it. */
module ReplyMeaning {
  import opened Bytes
  import opened Number
  import opened Protocol
  import opened ReplySpec
  import FrameSpec
  import FrameCutting

  lemma {:induction false} SplitConcat(a: Text, b: Text)
    ensures Split(a + [LF] + b) == Split(a) + Split(b)
  {
    var s := a + [LF] + b;
    if a == [] {
      assert s[1..] == b;
    } else {
      assert s[1..] == a[1..] + [LF] + b;
      SplitConcat(a[1..], b);
    }
  }

  // The first line of a text and what is behind it.
  lemma {:induction false} SplitHead(p: Text)
    ensures var lines := Split(p);
            && (|lines| == 1 ==> lines[0] == p)
            && (|lines| > 1 ==> |lines[0]| < |p| && p == lines[0] + [LF] + p[|lines[0]| + 1..]
                                && Split(p[|lines[0]| + 1..]) == lines[1..])
  {
    if p != [] {
      SplitHead(p[1..]);
    }
  }

  // What a counted field takes of a text: all of it but a final line end.
  function Chop(p: Text): Text {
    if p != [] && p[|p| - 1] == LF then p[..|p| - 1] else p
  }

  // The lines of a counted text: none when it is empty.
  function Lines(p: Text): seq<Text> {
    if p == [] then [] else Split(p)
  }

  lemma FieldEndStep(lines: seq<Text>, i: nat, wanted: int)
    requires i <= |lines|
    ensures i < |lines| && wanted > 0 ==> FieldEnd(lines, i, wanted) == FieldEnd(lines, i + 1, wanted - |lines[i]| - 1)
    ensures i == |lines| || wanted <= 0 ==> FieldEnd(lines, i, wanted) == i
  {
  }

  lemma SplitEmpty()
    ensures Split([]) == [[]]
  {
  }

  lemma ChopTail(l: Text, p: Text)
    requires p != []
    ensures Chop(l + [LF] + p) == l + [LF] + Chop(p)
    ensures l + [LF] + p != []
  {
  }

  lemma JoinHead(lines: seq<Text>, i: nat, e: nat)
    requires i + 1 < e <= |lines|
    ensures Join(lines[i..e]) == lines[i] + [LF] + Join(lines[i + 1..e])
  {
    assert lines[i..e][1..] == lines[i + 1..e];
  }

  lemma {:induction false} FieldText(lines: seq<Text>, i: nat, p: Text)
    requires p != [] && i + |Split(p)| <= |lines| && lines[i..i + |Split(p)|] == Split(p)
    ensures var e := FieldEnd(lines, i, |p|);
            && i < e && Join(lines[i..e]) == Chop(p)
            && (e == i + |Split(p)| || (e + 1 == i + |Split(p)| && lines[e] == []))
    decreases |p|
  {
    hide Join, Split, FieldEnd;
    var head := Split(p)[0];
    SplitHead(p);
    FieldEndStep(lines, i, |p|);
    assert lines[i] == head;
    if |Split(p)| == 1 {
      FieldEndStep(lines, i + 1, -1);
      NoLineEnd(p);
      JoinOne(lines, i);
    } else {
      var rest := p[|head| + 1..];
      assert lines[i + 1..i + |Split(p)|] == Split(rest);
      if rest == [] {
        FieldEndStep(lines, i + 1, 0);
        SplitEmpty();
        JoinOne(lines, i);
        assert lines[i + 1] == Split(rest)[0];
      } else {
        FieldText(lines, i + 1, rest);
        ChopTail(head, rest);
        JoinHead(lines, i, FieldEnd(lines, i + 1, |rest|));
      }
    }
  }

  lemma JoinOne(lines: seq<Text>, i: nat)
    requires i < |lines|
    ensures Join(lines[i..i + 1]) == lines[i]
  {
  }

  lemma {:induction false} NoLineEnd(p: Text)
    requires |Split(p)| == 1
    ensures Chop(p) == p
  {
    if |p| > 1 {
      assert p[1..][|p[1..]| - 1] == p[|p| - 1];
      NoLineEnd(p[1..]);
    }
  }

  lemma LeftStripStep(s: Text)
    requires s != []
    ensures LeftStrip(s, TextSpace) == if TextSpace(s[0]) then LeftStrip(s[1..], TextSpace) else s
    ensures LeftStrip([], TextSpace) == []
  {
  }

  lemma LeftStripLineEnd()
    ensures LeftStrip([LF], TextSpace) == []
  {
    LeftStripStep([LF]);
  }

  lemma {:induction false} LeftStripMore(x: Text)
    ensures LeftStrip(x + [LF], TextSpace)
         == if LeftStrip(x, TextSpace) == [] then [] else LeftStrip(x, TextSpace) + [LF]
  {
    hide LeftStrip, TextSpace;
    var s := x + [LF];
    if x == [] {
      LeftStripLineEnd();
      LeftStripStep(s);
      assert s == [LF];
    } else {
      LeftStripStep(s);
      LeftStripStep(x);
      assert s[0] == x[0] && s[1..] == x[1..] + [LF];
      LeftStripMore(x[1..]);
    }
  }

  lemma RightStripMore(x: Text)
    ensures RightStrip(x + [LF], TextSpace) == RightStrip(x, TextSpace)
  {
    assert (x + [LF])[..|x|] == x;
  }

  lemma TrimChop(p: Text)
    ensures Trim(Chop(p)) == Trim(p)
  {
    var c := Chop(p);
    if c != p {
      assert p == c + [LF];
      hide LeftStrip, RightStrip;
      LeftStripMore(c);
      RightStripMore(LeftStrip(c, TextSpace));
    }
  }

  lemma WalkOther(lines: seq<Text>, i: nat, found: Found)
    requires i < |lines| && lines[i] == []
    ensures Walk(lines, i, found) == Walk(lines, i + 1, found)
  {
  }

  // A counted field whose count is its text's length.
  lemma CountedField(lines: seq<Text>, i: nat, p: Text, found: Found)
    requires i + |Lines(p)| < |lines| && lines[i + 1..i + 1 + |Lines(p)|] == Lines(p)
    requires FieldOf(lines[i]) !in {Status, Other} && Argument(lines[i]) == Some(|p|)
    ensures Walk(lines, i, found) == Walk(lines, i + 1 + |Lines(p)|, found.With(FieldOf(lines[i]), Chop(p)))
  {
    hide Walk, FieldOf, Argument, Split, FieldEnd, Join, Chop;
    WalkStep(lines, i, found);
    if p == [] {
      FieldEndStep(lines, i + 1, 0);
      EmptyField(lines, i + 1);
    } else {
      FieldText(lines, i + 1, p);
      var e := FieldEnd(lines, i + 1, |p|);
      if lines[e..] != [] && e < i + 1 + |Lines(p)| {
        WalkOther(lines, e, found.With(FieldOf(lines[i]), Chop(p)));
      }
    }
  }

  lemma EmptyField(lines: seq<Text>, i: nat)
    requires i <= |lines|
    ensures Join(lines[i..i]) == [] && Chop([]) == []
  {
  }

  // The MacRoman table: ASCII is itself, and no other byte becomes ASCII.
  ghost predicate MacRoman(table: byte -> int) {
    forall b: byte :: if b < 128 then table(b) == b else table(b) >= 128
  }

  function Decoded(table: byte -> int, s: seq<byte>): (r: Text)
    ensures |r| == |s| && forall k :: 0 <= k < |s| ==> r[k] == table(s[k])
  {
    seq(|s|, k requires 0 <= k < |s| => table(s[k]))
  }

  ghost predicate Ascii(s: seq<byte>) {
    forall k :: 0 <= k < |s| ==> s[k] < 128
  }

  lemma DecodedAscii(table: byte -> int, s: seq<byte>)
    requires MacRoman(table) && Ascii(s)
    ensures Decoded(table, s) == s
  {
  }

  lemma DecodedConcat(table: byte -> int, a: seq<byte>, b: seq<byte>)
    ensures Decoded(table, a + b) == Decoded(table, a) + Decoded(table, b)
  {
  }

  lemma NewlinesConcat(a: Text, b: Text)
    ensures Newlines(a + b) == Newlines(a) + Newlines(b)
  {
  }

  // A daemon's reply as text, every line end written as end.
  function Block(p: Text, end: int): Text {
    if p == [] then [] else p + [end]
  }

  function ErrorText(err: Text, end: int): Text {
    STDERR_TAG + Decimal(|err|) + [end] + Block(err, end)
  }

  function BodyText(payload: Text, err: Text, end: int): Text {
    Block(payload, end) + ErrorText(err, end)
  }

  function ReplyText(code: int, payload: Text, err: Text, end: int): Text {
    STATUS_TAG + Decimal(code) + [end] + (STDOUT_TAG + Decimal(|payload|) + [end] + BodyText(payload, err, end))
  }

  lemma HeaderAscii(tag: seq<byte>, n: int)
    requires Ascii(tag) && forall k :: 0 <= k < |tag| ==> tag[k] != 13
    ensures Ascii(tag + Decimal(n)) && Newlines(tag + Decimal(n)) == tag + Decimal(n)
  {
    var d := Decimal(n);
    assert forall k :: 0 <= k < |d| ==> d[k] in d;
  }

  lemma DecodedBlock(table: byte -> int, p: seq<byte>)
    requires MacRoman(table)
    ensures Decoded(table, FrameCutting.Block(CR, p)) == Block(Decoded(table, p), CR)
  {
  }

  lemma DecodedLine(table: byte -> int, tag: seq<byte>, n: int, rest: seq<byte>)
    requires MacRoman(table) && Ascii(tag) && forall k :: 0 <= k < |tag| ==> tag[k] != 13
    ensures Decoded(table, tag + Decimal(n) + [13] + rest) == tag + Decimal(n) + [13] + Decoded(table, rest)
  {
    hide Decimal;
    var h := tag + Decimal(n);
    HeaderAscii(tag, n);
    assert Ascii(h + [13]);
    DecodedConcat(table, h + [13], rest);
    DecodedAscii(table, h + [13]);
  }

  lemma DecodedReply(table: byte -> int, code: int, payload: seq<byte>, err: seq<byte>)
    requires MacRoman(table)
    ensures var f := FrameCutting.Frame(CR, code, payload, err);
            f != [] && Decoded(table, FrameCutting.WithoutLast(f))
                       == ReplyText(code, Decoded(table, payload), Decoded(table, err), CR)
  {
    hide Decimal, Decoded, Block, FrameCutting.Block;
    var block, last := FrameCutting.Block(CR, payload), FrameCutting.Block(CR, err);
    var header := STDERR_TAG + Decimal(|err|) + [CR] + last;
    FrameWithoutLast(code, payload, err);
    DecodedLine(table, STATUS_TAG, code, STDOUT_TAG + Decimal(|payload|) + [CR] + (block + header));
    DecodedLine(table, STDOUT_TAG, |payload|, block + header);
    DecodedConcat(table, block, header);
    DecodedLine(table, STDERR_TAG, |err|, last);
    DecodedBlock(table, payload);
    DecodedBlock(table, err);
  }

  lemma FrameWithoutLast(code: int, payload: seq<byte>, err: seq<byte>)
    ensures var block, last := FrameCutting.Block(CR, payload), FrameCutting.Block(CR, err);
            var f := FrameCutting.Frame(CR, code, payload, err);
            f != [] && FrameCutting.WithoutLast(f)
                    == STATUS_TAG + Decimal(code) + [CR]
                       + (STDOUT_TAG + Decimal(|payload|) + [CR]
                          + (block + (STDERR_TAG + Decimal(|err|) + [CR] + last)))
  {
    hide Decimal, FrameCutting.Block;
  }

  lemma NewlinesLine(tag: seq<byte>, n: int, rest: Text)
    requires Ascii(tag) && forall k :: 0 <= k < |tag| ==> tag[k] != 13
    ensures Newlines(tag + Decimal(n) + [CR] + rest) == tag + Decimal(n) + [LF] + Newlines(rest)
  {
    hide Decimal, Ascii, Newlines;
    var h := tag + Decimal(n);
    HeaderAscii(tag, n);
    NewlinesConcat(h + [CR], rest);
    NewlinesConcat(h, [CR]);
    NewlineOne();
  }

  lemma NewlineOne()
    ensures Newlines([CR]) == [LF]
  {
  }

  lemma NewlinesBlock(p: Text)
    ensures Newlines(Block(p, CR)) == Block(Newlines(p), LF)
  {
  }

  lemma NewlinesReply(code: int, payload: Text, err: Text)
    ensures Newlines(ReplyText(code, payload, err, CR)) == ReplyText(code, Newlines(payload), Newlines(err), LF)
  {
    hide Decimal, Newlines, Block;
    NewlinesLine(STATUS_TAG, code, STDOUT_TAG + Decimal(|payload|) + [CR] + BodyText(payload, err, CR));
    NewlinesLine(STDOUT_TAG, |payload|, BodyText(payload, err, CR));
    NewlinesConcat(Block(payload, CR), ErrorText(err, CR));
    NewlinesLine(STDERR_TAG, |err|, Block(err, CR));
    NewlinesBlock(payload);
    NewlinesBlock(err);
    NewlinesSize(payload);
    NewlinesSize(err);
  }

  lemma NewlinesSize(p: Text)
    ensures |Newlines(p)| == |p|
  {
  }

  lemma {:induction false} SplitLine(h: Text)
    requires forall k :: 0 <= k < |h| ==> h[k] != LF
    ensures Split(h) == [h]
  {
    if h != [] {
      SplitLine(h[1..]);
      assert [h[0]] + h[1..] == h;
    }
  }

  lemma HeaderSplit(tag: seq<byte>, n: int, rest: Text)
    requires Ascii(tag) && forall k :: 0 <= k < |tag| ==> tag[k] != 10
    ensures Split(tag + Decimal(n) + [LF] + rest) == [tag + Decimal(n)] + Split(rest)
  {
    var d := Decimal(n);
    assert forall k :: 0 <= k < |d| ==> d[k] in d;
    SplitLine(tag + d);
    SplitConcat(tag + d, rest);
  }

  lemma BlockSplit(p: Text, rest: Text)
    ensures Split(Block(p, LF) + rest) == Lines(p) + Split(rest)
  {
    if p == [] {
      assert Block(p, LF) + rest == rest;
    } else {
      SplitConcat(p, rest);
    }
  }

  // The lines of a daemon's reply.
  function ReplyLines(code: int, payload: Text, err: Text): seq<Text> {
    [STATUS_TAG + Decimal(code)]
    + ([STDOUT_TAG + Decimal(|payload|)] + (Lines(payload) + ([STDERR_TAG + Decimal(|err|)] + (Lines(err) + [[]]))))
  }

  lemma ReplySplit(code: int, payload: Text, err: Text)
    ensures Split(ReplyText(code, payload, err, LF)) == ReplyLines(code, payload, err)
  {
    hide Decimal, Split, Block, Lines;
    HeaderSplit(STATUS_TAG, code, STDOUT_TAG + Decimal(|payload|) + [LF] + BodyText(payload, err, LF));
    HeaderSplit(STDOUT_TAG, |payload|, BodyText(payload, err, LF));
    BlockSplit(payload, ErrorText(err, LF));
    HeaderSplit(STDERR_TAG, |err|, Block(err, LF));
    BlockSplit(err, []);
    SplitEmpty();
    assert Block(err, LF) + [] == Block(err, LF);
  }

  // The three tags of the frame, as the parser tells them apart.
  lemma HeaderField(tag: Text, n: int)
    requires tag in {STATUS_TAG, STDOUT_TAG, STDERR_TAG}
    ensures var line := tag + Decimal(n);
            && FieldOf(line) == (if tag == STATUS_TAG then Status else if tag == STDOUT_TAG then Stdout else Stderr)
            && Argument(line) == Some(n)
  {
    hide Decimal, ParseInt;
    var line := tag + Decimal(n);
    assert line[..7] == tag && line[7..] == Decimal(n);
    ParsesBack(n, TextSpace);
    assert tag[3] == line[3] && tag[4] == line[4];
  }

  lemma WalkStatus(lines: seq<Text>, i: nat, found: Found)
    requires i < |lines| && FieldOf(lines[i]) == Status && Argument(lines[i]).Some?
    ensures Walk(lines, i, found) == Walk(lines, i + 1, found.(status := Argument(lines[i])))
  {
  }

  lemma ReplyWalk(code: int, payload: Text, err: Text, found: Found)
    ensures Walk(ReplyLines(code, payload, err), 0, found)
         == found.(status := Some(code), stdout := Chop(payload), stderr := Chop(err))
  {
    hide Walk, FieldOf, Argument, Decimal, Lines, Chop;
    var lines := ReplyLines(code, payload, err);
    var p, q := |Lines(payload)|, |Lines(err)|;
    HeaderField(STATUS_TAG, code);
    HeaderField(STDOUT_TAG, |payload|);
    HeaderField(STDERR_TAG, |err|);
    WalkStatus(lines, 0, found);
    var f := found.(status := Some(code));
    assert lines[1] == STDOUT_TAG + Decimal(|payload|);
    assert lines[2..2 + p] == Lines(payload);
    CountedField(lines, 1, payload, f);
    assert lines[2 + p] == STDERR_TAG + Decimal(|err|);
    assert lines[3 + p..3 + p + q] == Lines(err);
    CountedField(lines, 2 + p, err, f.(stdout := Chop(payload)));
    assert lines[3 + p + q] == [] && |lines| == 4 + p + q;
    var g := f.(stdout := Chop(payload), stderr := Chop(err));
    WalkOther(lines, 3 + p + q, g);
    WalkEnd(lines, g);
  }

  lemma StartsWithStatus(text: Text)
    requires STATUS_TAG <= text
    ensures !Bare(text)
  {
    LeftStripKeeps(text);
    var s := Trim(text);
    var left := LeftStrip(text, TextSpace);
    assert !TextSpace(left[0]);
    RightStripKeeps(left);
    assert s[0] == 83;
  }

  lemma LeftStripKeeps(text: Text)
    requires text != [] && !TextSpace(text[0])
    ensures LeftStrip(text, TextSpace) == text
  {
  }

  lemma {:induction false} RightStripKeeps(text: Text)
    requires text != [] && !TextSpace(text[0])
    ensures var r := RightStrip(text, TextSpace);
            r != [] && r[0] == text[0]
  {
    if TextSpace(text[|text| - 1]) {
      RightStripKeeps(text[..|text| - 1]);
    }
  }

  // The reply as the client sees it: status, payload and error text, line ends as LF and the ends stripped, whatever
  // lines the two texts contain.
  lemma ReplyMeans(table: byte -> int, code: int, payload: seq<byte>, err: seq<byte>)
    requires MacRoman(table)
    ensures var f := FrameCutting.Frame(CR, code, payload, err);
            && f != []
            && Parse(Decoded(table, FrameCutting.WithoutLast(f)))
               == Reply(code, Trim(Newlines(Decoded(table, payload))), Trim(Newlines(Decoded(table, err))))
  {
    hide Decoded, Newlines, Split, Walk, Decimal, Bare, Trim, Chop, FrameCutting.Frame, FrameCutting.WithoutLast,
        ReplyLines, BodyText;
    DecodedReply(table, code, payload, err);
    var p, e := Decoded(table, payload), Decoded(table, err);
    var text := ReplyText(code, p, e, CR);
    assert STATUS_TAG <= text;
    StartsWithStatus(text);
    NewlinesReply(code, p, e);
    ReplySplit(code, Newlines(p), Newlines(e));
    ReplyWalk(code, Newlines(p), Newlines(e), Start(None, None));
    TrimChop(Newlines(p));
    TrimChop(Newlines(e));
  }

  // From the wire to the caller: a whole frame in any cutting.
  lemma WireToCaller(table: byte -> int, e: FrameCutting.LineEnd, i: FrameSpec.Input, code: int, payload: seq<byte>,
                     err: seq<byte>)
    requires MacRoman(table)
    requires FrameCutting.Solid(i) && FrameCutting.Stream(i) == FrameCutting.Frame(e, code, payload, err)
    requires FrameCutting.Plain(e, payload) && FrameCutting.Plain(e, err)
    requires FrameCutting.Small(payload) && FrameCutting.Small(err)
    ensures var r := FrameSpec.Response(i);
            && r.Got? && r.value.Raw? && r.rest == FrameCutting.EMPTY
            && Parse(Decoded(table, r.value.raw))
               == Reply(code, Trim(Newlines(Decoded(table, payload))), Trim(Newlines(Decoded(table, err))))
  {
    hide Decoded, Newlines, Parse, Trim, MacRoman;
    FrameCutting.AnyCutting(e, i, code, payload, err);
    ReplyMeans(table, code, payload, err);
  }

  /** The rejections that the daemon writes out by hand */

  // As text, with end for the line ends that the reader leaves alone.
  function RefusalText(code: int, declared: int, err: Text, join: int, end: int): Text {
    STATUS_TAG + Decimal(code) + [join]
    + (STDOUT_TAG + Decimal(0) + [join] + ([join] + (STDERR_TAG + Decimal(declared) + [end] + (err + [end, end]))))
  }

  lemma LayoutOfRefusal(e: FrameCutting.LineEnd, code: int, declared: int, err: seq<byte>)
    ensures FrameCutting.RejectionText(e, code, declared, err) == RefusalText(code, declared, err, CR, e)
  {
    hide Decimal;
  }

  // Headers as text: one line of ASCII.
  lemma DecodedHeader(table: byte -> int, tag: seq<byte>, n: int, end: byte, rest: seq<byte>)
    requires MacRoman(table) && Ascii(tag) && end < 128
    requires forall k :: 0 <= k < |tag| ==> tag[k] != 13
    ensures Decoded(table, tag + Decimal(n) + [end] + rest) == tag + Decimal(n) + [end] + Decoded(table, rest)
  {
    hide Decimal;
    var h := tag + Decimal(n);
    HeaderAscii(tag, n);
    assert Ascii(h + [end]);
    DecodedConcat(table, h + [end], rest);
    DecodedAscii(table, h + [end]);
  }

  lemma DecodedRefusal(table: byte -> int, e: FrameCutting.LineEnd, code: int, declared: int, err: seq<byte>)
    requires MacRoman(table)
    ensures Decoded(table, FrameCutting.RejectionText(e, code, declared, err))
         == RefusalText(code, declared, Decoded(table, err), CR, e)
  {
    hide Decimal, Decoded;
    LayoutOfRefusal(e, code, declared, err);
    var last := err + [e, e];
    var tail := STDERR_TAG + Decimal(declared) + [e] + last;
    DecodedHeader(table, STATUS_TAG, code, CR, STDOUT_TAG + Decimal(0) + [CR] + ([CR] + tail));
    DecodedHeader(table, STDOUT_TAG, 0, CR, [CR] + tail);
    DecodedConcat(table, [CR], tail);
    DecodedAscii(table, [CR]);
    DecodedHeader(table, STDERR_TAG, declared, e, last);
    DecodedConcat(table, err, [e, e]);
    DecodedAscii(table, [e, e]);
  }

  // A text without line ends.
  ghost predicate OneTextLine(s: Text) {
    forall k :: 0 <= k < |s| ==> s[k] != LF && s[k] != CR
  }

  lemma HeaderNewlines(tag: seq<byte>, n: int, end: int, rest: Text)
    requires Ascii(tag) && (end == CR || end == LF) && forall k :: 0 <= k < |tag| ==> tag[k] != 13
    ensures Newlines(tag + Decimal(n) + [end] + rest) == tag + Decimal(n) + [LF] + Newlines(rest)
  {
    hide Decimal, Ascii, Newlines;
    var h := tag + Decimal(n);
    HeaderAscii(tag, n);
    NewlinesConcat(h + [end], rest);
    NewlinesConcat(h, [end]);
    EndNewlines(end);
  }

  lemma EndNewlines(end: int)
    requires end == CR || end == LF
    ensures Newlines([end]) == [LF] && Newlines([end, end]) == [LF, LF]
  {
  }

  lemma RefusalNewlines(code: int, declared: int, err: Text, end: int)
    requires (end == CR || end == LF) && OneTextLine(err)
    ensures Newlines(RefusalText(code, declared, err, CR, end)) == RefusalText(code, declared, err, LF, LF)
  {
    hide Decimal, Newlines;
    var last := err + [end, end];
    var tail := STDERR_TAG + Decimal(declared) + [end] + last;
    HeaderNewlines(STATUS_TAG, code, CR, STDOUT_TAG + Decimal(0) + [CR] + ([CR] + tail));
    HeaderNewlines(STDOUT_TAG, 0, CR, [CR] + tail);
    NewlinesConcat([CR], tail);
    EndNewlines(CR);
    EndNewlines(end);
    HeaderNewlines(STDERR_TAG, declared, end, last);
    NewlinesConcat(err, [end, end]);
    OneLineNewlines(err);
  }

  lemma OneLineNewlines(s: Text)
    requires OneTextLine(s)
    ensures Newlines(s) == s
  {
  }

  function RefusalLines(code: int, declared: int, err: Text): seq<Text> {
    [STATUS_TAG + Decimal(code), STDOUT_TAG + Decimal(0), [], STDERR_TAG + Decimal(declared), err, [], []]
  }

  lemma RefusalSplit(code: int, declared: int, err: Text)
    requires OneTextLine(err)
    ensures Split(RefusalText(code, declared, err, LF, LF)) == RefusalLines(code, declared, err)
  {
    hide Decimal, Split;
    var last := err + [LF, LF];
    var tail := STDERR_TAG + Decimal(declared) + [LF] + last;
    HeaderSplit(STATUS_TAG, code, STDOUT_TAG + Decimal(0) + [LF] + ([LF] + tail));
    HeaderSplit(STDOUT_TAG, 0, [LF] + tail);
    assert [LF] + tail == [] + [LF] + tail;
    SplitConcat([], tail);
    HeaderSplit(STDERR_TAG, declared, last);
    assert last == err + [LF] + ([] + [LF] + []);
    SplitConcat(err, [] + [LF] + []);
    SplitConcat([], []);
    SplitLine(err);
    SplitEmpty();
  }

  lemma RefusalWalk(code: int, declared: int, err: Text, found: Found)
    requires 0 < declared <= |err| + 1
    ensures Walk(RefusalLines(code, declared, err), 0, found)
         == found.(status := Some(code), stdout := [], stderr := err)
  {
    hide Walk, FieldOf, Argument, Decimal, FieldEnd, Join;
    var lines := RefusalLines(code, declared, err);
    HeaderField(STATUS_TAG, code);
    HeaderField(STDOUT_TAG, 0);
    HeaderField(STDERR_TAG, declared);
    WalkStatus(lines, 0, found);
    var f := found.(status := Some(code));
    WalkStep(lines, 1, f);
    FieldEndStep(lines, 2, 0);
    EmptyField(lines, 2);
    var g := f.(stdout := []);
    WalkOther(lines, 2, g);
    WalkStep(lines, 3, g);
    FieldEndStep(lines, 4, declared);
    FieldEndStep(lines, 5, declared - |err| - 1);
    JoinOne(lines, 4);
    var h := g.(stderr := err);
    WalkOther(lines, 5, h);
    WalkOther(lines, 6, h);
    WalkEnd(lines, h);
  }

  lemma DecodedOneLine(table: byte -> int, s: seq<byte>)
    requires MacRoman(table) && OneLine(s)
    ensures OneTextLine(Decoded(table, s))
  {
  }

  // A rejection as the client sees it, also when the length that it declares is a little short.
  lemma RefusalMeans(table: byte -> int, e: FrameCutting.LineEnd, code: int, declared: int, err: seq<byte>)
    requires MacRoman(table) && OneLine(err) && 0 < declared <= |err| + 1
    ensures Parse(Decoded(table, FrameCutting.RejectionText(e, code, declared, err)))
         == Reply(code, [], Trim(Decoded(table, err)))
  {
    hide Decoded, Newlines, Split, Walk, Decimal, Bare, FrameCutting.RejectionText, RefusalLines, OneTextLine;
    DecodedRefusal(table, e, code, declared, err);
    var t := Decoded(table, err);
    var text := RefusalText(code, declared, t, CR, e);
    assert STATUS_TAG <= text;
    StartsWithStatus(text);
    DecodedOneLine(table, err);
    DecodedSize(table, err);
    RefusalNewlines(code, declared, t, e);
    RefusalSplit(code, declared, t);
    RefusalWalk(code, declared, t, Start(None, None));
    NothingToTrim();
  }

  /** The failures that it writes out by hand */

  function FailureText(code: int, declared: int, err: Text, end: int): Text {
    STATUS_TAG + Decimal(code) + [end]
    + (STDOUT_TAG + Decimal(0) + [end] + (STDERR_TAG + Decimal(declared) + [end] + (err + [end])))
  }

  lemma LayoutOfFailure(code: int, declared: int, err: seq<byte>)
    ensures FrameCutting.FailureText(code, declared, err) == FailureText(code, declared, err, CR)
  {
    hide Decimal;
    assert FrameCutting.WithoutLast(FrameCutting.ErrorLines(CR, declared, err))
        == STDERR_TAG + Decimal(declared) + [CR] + (err + [CR]);
  }

  lemma DecodedFailure(table: byte -> int, code: int, declared: int, err: seq<byte>)
    requires MacRoman(table)
    ensures Decoded(table, FrameCutting.FailureText(code, declared, err))
         == FailureText(code, declared, Decoded(table, err), CR)
  {
    hide Decimal, Decoded;
    LayoutOfFailure(code, declared, err);
    var tail := STDERR_TAG + Decimal(declared) + [CR] + (err + [CR]);
    DecodedHeader(table, STATUS_TAG, code, CR, STDOUT_TAG + Decimal(0) + [CR] + tail);
    DecodedHeader(table, STDOUT_TAG, 0, CR, tail);
    DecodedHeader(table, STDERR_TAG, declared, CR, err + [CR]);
    DecodedConcat(table, err, [CR]);
    DecodedAscii(table, [CR]);
  }

  lemma FailureNewlines(code: int, declared: int, err: Text)
    requires OneTextLine(err)
    ensures Newlines(FailureText(code, declared, err, CR)) == FailureText(code, declared, err, LF)
  {
    hide Decimal, Newlines;
    var tail := STDERR_TAG + Decimal(declared) + [CR] + (err + [CR]);
    HeaderNewlines(STATUS_TAG, code, CR, STDOUT_TAG + Decimal(0) + [CR] + tail);
    HeaderNewlines(STDOUT_TAG, 0, CR, tail);
    HeaderNewlines(STDERR_TAG, declared, CR, err + [CR]);
    NewlinesConcat(err, [CR]);
    EndNewlines(CR);
    OneLineNewlines(err);
  }

  function FailureLines(code: int, declared: int, err: Text): seq<Text> {
    [STATUS_TAG + Decimal(code), STDOUT_TAG + Decimal(0), STDERR_TAG + Decimal(declared), err, []]
  }

  lemma FailureSplit(code: int, declared: int, err: Text)
    requires OneTextLine(err)
    ensures Split(FailureText(code, declared, err, LF)) == FailureLines(code, declared, err)
  {
    hide Decimal, Split;
    var tail := STDERR_TAG + Decimal(declared) + [LF] + (err + [LF]);
    HeaderSplit(STATUS_TAG, code, STDOUT_TAG + Decimal(0) + [LF] + tail);
    HeaderSplit(STDOUT_TAG, 0, tail);
    HeaderSplit(STDERR_TAG, declared, err + [LF]);
    assert err + [LF] == err + [LF] + [];
    SplitConcat(err, []);
    SplitLine(err);
    SplitEmpty();
  }

  lemma FailureWalk(code: int, declared: int, err: Text, found: Found)
    requires 0 < declared <= |err|
    ensures Walk(FailureLines(code, declared, err), 0, found)
         == found.(status := Some(code), stdout := [], stderr := err)
  {
    hide Walk, FieldOf, Argument, Decimal, FieldEnd, Join;
    var lines := FailureLines(code, declared, err);
    HeaderField(STATUS_TAG, code);
    HeaderField(STDOUT_TAG, 0);
    HeaderField(STDERR_TAG, declared);
    WalkStatus(lines, 0, found);
    var f := found.(status := Some(code));
    WalkStep(lines, 1, f);
    FieldEndStep(lines, 2, 0);
    EmptyField(lines, 2);
    var g := f.(stdout := []);
    WalkStep(lines, 2, g);
    FieldEndStep(lines, 3, declared);
    FieldEndStep(lines, 4, declared - |err| - 1);
    JoinOne(lines, 3);
    var h := g.(stderr := err);
    WalkOther(lines, 4, h);
    WalkEnd(lines, h);
  }

  // A failure as the client sees it: the whole text, also when the length that it declares is too short.
  lemma FailureMeans(table: byte -> int, code: int, declared: int, err: seq<byte>)
    requires MacRoman(table) && OneLine(err) && 0 < declared <= |err|
    ensures Parse(Decoded(table, FrameCutting.FailureText(code, declared, err)))
         == Reply(code, [], Trim(Decoded(table, err)))
  {
    hide Decoded, Newlines, Split, Walk, Decimal, Bare, FrameCutting.FailureText, FailureLines, OneTextLine;
    DecodedFailure(table, code, declared, err);
    var t := Decoded(table, err);
    var text := FailureText(code, declared, t, CR);
    assert STATUS_TAG <= text;
    StartsWithStatus(text);
    DecodedOneLine(table, err);
    DecodedSize(table, err);
    FailureNewlines(code, declared, t);
    FailureSplit(code, declared, t);
    FailureWalk(code, declared, t, Start(None, None));
    NothingToTrim();
  }

  lemma DecodedSize(table: byte -> int, s: seq<byte>)
    ensures |Decoded(table, s)| == |s|
  {
  }

  lemma NothingToTrim()
    ensures Trim([]) == []
  {
  }
}
