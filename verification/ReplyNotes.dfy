/** The NOTES field: where it is spliced in, and that it changes nothing else. */
module ReplyNotes {
  import opened Number
  import opened Protocol
  import opened ReplySpec
  import opened ReplyMeaning

  // The lines from i on hold as many characters as are wanted.
  predicate Enough(lines: seq<Text>, i: nat, wanted: int)
    requires i <= |lines|
    decreases |lines| - i
  {
    wanted <= 0 || (i < |lines| && Enough(lines, i + 1, wanted - |lines[i]| - 1))
  }

  // Every count is covered by the lines that follow it.
  predicate Fits(lines: seq<Text>, i: nat)
    requires i <= |lines|
    decreases |lines| - i
  {
    i == |lines| || (
      && (FieldOf(lines[i]) in {Status, Other} || Argument(lines[i]).None?
          || Enough(lines, i + 1, Argument(lines[i]).value))
      && Fits(lines, Next(lines, i)))
  }

  lemma {:induction false} EnoughMore(lines: seq<Text>, more: seq<Text>, i: nat, wanted: int)
    requires i <= |lines| && Enough(lines, i, wanted)
    ensures FieldEnd(lines + more, i, wanted) == FieldEnd(lines, i, wanted)
    decreases |lines| - i
  {
    FieldEndStep(lines, i, wanted);
    FieldEndStep(lines + more, i, wanted);
    if wanted > 0 {
      EnoughMore(lines, more, i + 1, wanted - |lines[i]| - 1);
    }
  }

  lemma StepMore(lines: seq<Text>, more: seq<Text>, i: nat, found: Found)
    requires i < |lines| && Fits(lines, i)
    ensures Next(lines + more, i) == Next(lines, i) && Noted(lines + more, i, found) == Noted(lines, i, found)
  {
    hide FieldOf, Argument, FieldEnd, Join, Enough;
    var all, f, n := lines + more, FieldOf(lines[i]), Argument(lines[i]);
    assert all[i] == lines[i];
    if f !in {Status, Other} && n.Some? {
      EnoughMore(lines, more, i + 1, n.value);
      assert all[i + 1..Next(lines, i)] == lines[i + 1..Next(lines, i)];
    }
  }

  // Lines added behind complete fields are read on their own.
  lemma {:induction false} WalkMore(lines: seq<Text>, more: seq<Text>, i: nat, found: Found)
    requires i <= |lines| && Fits(lines, i)
    ensures Walk(lines + more, i, found) == Walk(lines + more, |lines|, Walk(lines, i, found))
    decreases |lines| - i
  {
    hide Walk, FieldOf, Argument, Next, Noted;
    if i == |lines| {
      WalkEnd(lines, found);
    } else {
      StepMore(lines, more, i, found);
      WalkStep(lines, i, found);
      WalkStep(lines + more, i, found);
      WalkMore(lines, more, Next(lines, i), Noted(lines, i, found));
    }
  }

  // A one-line announcement.
  ghost predicate Announcement(notes: Text) {
    notes != [] && forall k :: 0 <= k < |notes| ==> notes[k] != LF && notes[k] != CR
  }

  lemma NotesField(rest: Text)
    ensures FieldOf(NOTES_TAG + rest) == Notes
  {
    var line := NOTES_TAG + rest;
    assert line[0] == 78;
    assert NOTES_TAG <= line;
  }

  lemma NotesHeader(n: int)
    ensures FieldOf(NOTES_TAG + Decimal(n)) == Notes && Argument(NOTES_TAG + Decimal(n)) == Some(n)
  {
    hide Decimal, ParseInt, FieldOf;
    NotesField(Decimal(n));
    assert (NOTES_TAG + Decimal(n))[6..] == Decimal(n);
    ParsesBack(n, TextSpace);
  }

  lemma ReadNotes(lines: seq<Text>, notes: Text, found: Found)
    requires Announcement(notes)
    ensures Walk(lines + [NOTES_TAG + Decimal(|notes|), notes, [], []], |lines|, found) == found.(notes := Kept(notes))
  {
    hide Walk, FieldOf, Argument, Decimal, Split, Kept;
    var all, at := lines + [NOTES_TAG + Decimal(|notes|), notes, [], []], |lines|;
    NotesHeader(|notes|);
    SplitLine(notes);
    assert all[at + 1..at + 2] == [notes];
    NoLineEnd(notes);
    CountedField(all, at, notes, found);
    var g := found.(notes := Kept(notes));
    WalkOther(all, at + 2, g);
    WalkOther(all, at + 3, g);
    WalkEnd(all, g);
  }

  lemma ReadNothing(lines: seq<Text>, found: Found)
    ensures Walk(lines + [[], []], |lines|, found) == found
  {
    hide Walk;
    var all := lines + [[], []];
    WalkOther(all, |lines|, found);
    WalkOther(all, |lines| + 1, found);
    WalkEnd(all, found);
  }

  lemma LineBreak(a: Text, b: Text)
    ensures Split(Newlines(a + [CR] + b)) == Split(Newlines(a)) + Split(Newlines(b))
  {
    hide Split, Newlines;
    NewlinesConcat(a + [CR], b);
    NewlinesConcat(a, [CR]);
    NewlineOne();
    SplitConcat(Newlines(a), Newlines(b));
  }

  lemma TextLine(h: Text)
    requires forall k :: 0 <= k < |h| ==> h[k] != LF && h[k] != CR
    ensures Split(Newlines(h)) == [h]
  {
    assert Newlines(h) == h;
    SplitLine(h);
  }

  lemma FrameLines(u: Text)
    ensures Split(Newlines(u + [CR, CR])) == Split(Newlines(u)) + [[], []]
  {
    hide Split, Newlines;
    assert u + [CR, CR] == u + [CR] + ([] + [CR] + []);
    LineBreak(u, [] + [CR] + []);
    LineBreak([], []);
    TextLine([]);
  }

  lemma NotesLines(u: Text, notes: Text)
    requires Announcement(notes)
    ensures WithNotes(u + [CR, CR], notes) == u + [CR] + (NOTES_TAG + Decimal(|notes|) + [CR] + (notes + [CR, CR]))
    ensures Split(Newlines(WithNotes(u + [CR, CR], notes)))
         == Split(Newlines(u)) + [NOTES_TAG + Decimal(|notes|), notes, [], []]
  {
    hide Split, Newlines, Decimal;
    var t, h := u + [CR, CR], NOTES_TAG + Decimal(|notes|);
    assert t[..|t| - 1] == u + [CR] && t[|t| - 2..] == [CR, CR];
    LineBreak(u, h + [CR] + (notes + [CR, CR]));
    LineBreak(h, notes + [CR, CR]);
    FrameLines(notes);
    TextLine(notes);
    NotesHeaderLine(|notes|);
    TextLine(h);
  }

  lemma NotesHeaderLine(n: int)
    ensures forall k :: 0 <= k < |NOTES_TAG + Decimal(n)| ==> (NOTES_TAG + Decimal(n))[k] !in [LF, CR]
  {
    var d := Decimal(n);
    assert forall k :: 0 <= k < |d| ==> d[k] in d;
  }

  // The field is off the tuple: a complete framed reply means the same with it, and the client gets the announcement.
  lemma NotesChangeNothing(u: Text, notes: Text, before: Found)
    requires Announcement(notes) && STATUS_TAG <= u && Fits(Split(Newlines(u)), 0)
    ensures var t := u + [CR, CR];
            && (Parse(t).Reply? ==> Parse(WithNotes(t, notes)) == Parse(t))
            && Scanned(WithNotes(t, notes), before).notes == Kept(notes)
  {
    hide Walk, Split, Newlines, Decimal, Fits, WithNotes, Bare, Trim, Kept;
    var t, lines := u + [CR, CR], Split(Newlines(u));
    var more := [NOTES_TAG + Decimal(|notes|), notes, [], []];
    FrameLines(u);
    NotesLines(u, notes);
    assert STATUS_TAG <= t && STATUS_TAG <= WithNotes(t, notes);
    StartsWithStatus(t);
    StartsWithStatus(WithNotes(t, notes));
    ReadBoth(lines, notes, before);
    ReadBoth(lines, notes, Start(None, None));
  }

  lemma ReadBoth(lines: seq<Text>, notes: Text, found: Found)
    requires Announcement(notes) && Fits(lines, 0)
    ensures Walk(lines + [[], []], 0, found) == Walk(lines, 0, found)
    ensures Walk(lines + [NOTES_TAG + Decimal(|notes|), notes, [], []], 0, found)
            == Walk(lines, 0, found).(notes := Kept(notes))
  {
    hide Walk, Decimal, Fits, Kept;
    WalkMore(lines, [[], []], 0, found);
    WalkMore(lines, [NOTES_TAG + Decimal(|notes|), notes, [], []], 0, found);
    ReadNothing(lines, Walk(lines, 0, found));
    ReadNotes(lines, notes, Walk(lines, 0, found));
  }

  // A relayed daemon reply lacks the frame's last CR, so it gets the field only when its error text ends with CR.
  lemma RelayedNotes(code: int, payload: Text, err: Text, notes: Text)
    requires notes != []
    ensures WithNotes(ReplyText(code, payload, err, CR), notes) != ReplyText(code, payload, err, CR)
            <==> err != [] && err[|err| - 1] == CR
  {
    hide Block;
    var t := ReplyText(code, payload, err, CR);
    ReplyEnd(code, payload, err);
    assert |t| >= 2;
    assert t[|t| - 2..] == [t[|t| - 2], t[|t| - 1]];
  }

  lemma ReplyEnd(code: int, payload: Text, err: Text)
    ensures var t := ReplyText(code, payload, err, CR);
            |t| >= 2 && t[|t| - 1] == CR && (t[|t| - 2] == CR <==> err != [] && err[|err| - 1] == CR)
  {
    hide Decimal;
    var d := Decimal(|err|);
    assert d[|d| - 1] in d;
    var last := d + [CR] + Block(err, CR);
    assert last[|last| - 1] == CR && (last[|last| - 2] == CR <==> err != [] && err[|err| - 1] == CR);
    ErrorLast(code, payload, err);
  }

  lemma ErrorLast(code: int, payload: Text, err: Text)
    ensures var t, last := ReplyText(code, payload, err, CR), Decimal(|err|) + [CR] + Block(err, CR);
            |last| <= |t| && t[|t| - |last|..] == last
  {
    hide Decimal, Block;
  }

  // A rejection still has both its last line ends, so it gets the field when they are CR.
  lemma RefusalNotes(code: int, declared: int, err: Text, end: int, notes: Text)
    requires notes != [] && (end == CR || end == LF)
    ensures WithNotes(RefusalText(code, declared, err, CR, end), notes) != RefusalText(code, declared, err, CR, end)
            <==> end == CR
  {
    hide Decimal;
    var t := RefusalText(code, declared, err, CR, end);
    RefusalEnd(code, declared, err, end);
    assert t[|t| - 2..] == [t[|t| - 2], t[|t| - 1]];
  }

  lemma RefusalEnd(code: int, declared: int, err: Text, end: int)
    ensures var t := RefusalText(code, declared, err, CR, end);
            |t| >= 2 && t[|t| - 2] == end && t[|t| - 1] == end
  {
    hide Decimal;
  }

  /** The control server's own screenshot reply, with SHOTINFO behind the error text */

  lemma ShotHeader(n: int)
    ensures FieldOf(SHOTINFO_TAG + Decimal(n)) == Shot && Argument(SHOTINFO_TAG + Decimal(n)) == Some(n)
  {
    hide Decimal, ParseInt;
    var line := SHOTINFO_TAG + Decimal(n);
    assert line[0] == 83 && line[1] == 72;
    assert line[..9] == SHOTINFO_TAG && line[9..] == Decimal(n);
    ParsesBack(n, TextSpace);
  }

  // SHOTINFO as NOTES: a complete field goes to its place, and nothing else changes.
  lemma ReadShot(lines: seq<Text>, info: Text, found: Found)
    requires Announcement(info)
    ensures Walk(lines + [SHOTINFO_TAG + Decimal(|info|), info, [], []], |lines|, found) == found.(shot := Kept(info))
  {
    hide Walk, FieldOf, Argument, Decimal, Split, Kept;
    var all, at := lines + [SHOTINFO_TAG + Decimal(|info|), info, [], []], |lines|;
    ShotHeader(|info|);
    SplitLine(info);
    assert all[at + 1..at + 2] == [info];
    NoLineEnd(info);
    CountedField(all, at, info, found);
    var g := found.(shot := Kept(info));
    WalkOther(all, at + 2, g);
    WalkOther(all, at + 3, g);
    WalkEnd(all, g);
  }

  function ShotReply(png: Text, info: Text): Text {
    STATUS_TAG + Decimal(0) + [CR] + (STDOUT_TAG + Decimal(|png|) + [CR] + (png + [CR] + (STDERR_TAG + Decimal(0) + [CR]
    + (SHOTINFO_TAG + Decimal(|info|) + [CR] + (info + [CR, CR])))))
  }

  lemma ShotHeaderLine(n: int)
    ensures forall k :: 0 <= k < |SHOTINFO_TAG + Decimal(n)| ==> (SHOTINFO_TAG + Decimal(n))[k] !in [LF, CR]
  {
    var d := Decimal(n);
    assert forall k :: 0 <= k < |d| ==> d[k] in d;
  }

  lemma FrameHeaderLine(tag: Text, n: int)
    requires tag in {STATUS_TAG, STDOUT_TAG, STDERR_TAG}
    ensures forall k :: 0 <= k < |tag + Decimal(n)| ==> (tag + Decimal(n))[k] !in [LF, CR]
  {
    var d := Decimal(n);
    assert forall k :: 0 <= k < |d| ==> d[k] in d;
  }

  function ShotLines(png: Text, info: Text): seq<Text> {
    [STATUS_TAG + Decimal(0), STDOUT_TAG + Decimal(|png|), png, STDERR_TAG + Decimal(0)]
    + [SHOTINFO_TAG + Decimal(|info|), info, [], []]
  }

  lemma ShotSplit(png: Text, info: Text)
    requires Announcement(png) && Announcement(info)
    ensures Split(Newlines(ShotReply(png, info))) == ShotLines(png, info)
  {
    hide Split, Newlines, Decimal;
    var last := info + [CR, CR];
    var shot := SHOTINFO_TAG + Decimal(|info|) + [CR] + last;
    var err := STDERR_TAG + Decimal(0) + [CR] + shot;
    var out := png + [CR] + err;
    FrameHeaderLine(STATUS_TAG, 0);
    FrameHeaderLine(STDOUT_TAG, |png|);
    FrameHeaderLine(STDERR_TAG, 0);
    ShotHeaderLine(|info|);
    TextLine(STATUS_TAG + Decimal(0));
    TextLine(STDOUT_TAG + Decimal(|png|));
    TextLine(png);
    TextLine(STDERR_TAG + Decimal(0));
    TextLine(SHOTINFO_TAG + Decimal(|info|));
    TextLine(info);
    LineBreak(STATUS_TAG + Decimal(0), STDOUT_TAG + Decimal(|png|) + [CR] + out);
    LineBreak(STDOUT_TAG + Decimal(|png|), out);
    LineBreak(png, err);
    LineBreak(STDERR_TAG + Decimal(0), shot);
    LineBreak(SHOTINFO_TAG + Decimal(|info|), last);
    FrameLines(info);
  }

  // Parsed: status 0, the picture, no error, and the cost of it kept aside.
  lemma ShotReplyMeans(png: Text, info: Text, before: Found)
    requires Announcement(png) && Announcement(info)
    ensures Parse(ShotReply(png, info)) == Reply(0, Trim(png), [])
    ensures Scanned(ShotReply(png, info), before).shot == Kept(info)
    ensures Scanned(ShotReply(png, info), before).notes == before.notes
  {
    hide Walk, Split, Newlines, Decimal, Bare, Trim, Kept, ShotLines;
    var text := ShotReply(png, info);
    assert STATUS_TAG <= text;
    StartsWithStatus(text);
    ShotSplit(png, info);
    ShotWalk(png, info, before);
    ShotWalk(png, info, Start(None, None));
    NothingToTrim();
  }

  lemma ShotWalk(png: Text, info: Text, found: Found)
    requires Announcement(png) && Announcement(info)
    ensures Walk(ShotLines(png, info), 0, found)
         == found.(status := Some(0), stdout := png, stderr := [], shot := Kept(info))
  {
    hide Walk, FieldOf, Argument, Decimal, Split, Kept, Announcement, Chop;
    var lines := ShotLines(png, info);
    HeaderField(STATUS_TAG, 0);
    HeaderField(STDOUT_TAG, |png|);
    HeaderField(STDERR_TAG, 0);
    WalkStatus(lines, 0, found);
    var f := found.(status := Some(0));
    OneTextLine(png);
    assert lines[2..3] == [png];
    CountedField(lines, 1, png, f);
    var g := f.(stdout := png);
    CountedField(lines, 3, [], g);
    ChopNothing();
    var h := g.(stderr := []);
    assert lines == lines[..4] + [SHOTINFO_TAG + Decimal(|info|), info, [], []];
    ReadShot(lines[..4], info, h);
  }

  lemma OneTextLine(p: Text)
    requires Announcement(p)
    ensures Split(p) == [p] && Chop(p) == p && p != []
  {
    SplitLine(p);
    NoLineEnd(p);
  }

  lemma ChopNothing()
    ensures Chop([]) == []
  {
  }
}
