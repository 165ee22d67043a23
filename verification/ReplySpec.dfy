/** The client's reading of a control reply: lines, tagged fields, and counted fields that take whole lines. */
module ReplySpec {
  import opened Number
  import opened Protocol

  // Text as Unicode code points.
  type Text = seq<int>

  const SHOTINFO_TAG: Text := [83, 72, 79, 84, 73, 78, 70, 79, 58]     // SHOTINFO:
  const NOTES_TAG: Text := [78, 79, 84, 69, 83, 58]                // NOTES:
  const ERROR_TAG: Text := [69, 82, 82, 79, 82, 58]                // ERROR:
  const NO_RESPONSE: Text := [78, 111, 32, 114, 101, 115, 112, 111, 110, 115, 101] // No response

  function Trim(s: Text): Text {
    Strip(s, TextSpace)
  }

  // text.replace('\r', '\n')
  function Newlines(s: Text): (r: Text)
    ensures |r| == |s| && forall k :: 0 <= k < |s| ==> r[k] == (if s[k] == CR then LF else s[k])
  {
    seq(|s|, k requires 0 <= k < |s| => if s[k] == CR then LF else s[k])
  }

  // text.split('\n')
  function Split(s: Text): (r: seq<Text>)
    ensures |r| > 0
  {
    if s == [] then
      [[]]
    else
      var rest := Split(s[1..]);
      if s[0] == LF then [[]] + rest else [[s[0]] + rest[0]] + rest[1..]
  }

  // '\n'.join(lines)
  function Join(lines: seq<Text>): Text {
    if lines == [] then [] else if |lines| == 1 then lines[0] else lines[0] + [LF] + Join(lines[1..])
  }

  datatype Field = Status | Stdout | Stderr | Shot | Notes | Other

  function FieldOf(line: Text): Field {
    if STATUS_TAG <= line then Status
    else if STDOUT_TAG <= line then Stdout
    else if STDERR_TAG <= line then Stderr
    else if SHOTINFO_TAG <= line then Shot
    else if NOTES_TAG <= line then Notes
    else Other
  }

  function TagSize(f: Field): nat {
    match f
    case Status => 7
    case Stdout => 7
    case Stderr => 7
    case Shot => 9
    case Notes => 6
    case Other => 0
  }

  // The number behind the tag, when int() accepts it.
  function Argument(line: Text): Option<int> {
    var n := TagSize(FieldOf(line));
    if n <= |line| then ParseInt(line[n..], TextSpace) else None
  }

  // What the parser has found so far.
  datatype Found = Found(status: Option<int>, stdout: Text, stderr: Text, shot: Option<Text>, notes: Option<Text>) {
    function With(f: Field, text: Text): Found {
      match f
      case Stdout => this.(stdout := text)
      case Stderr => this.(stderr := text)
      case Shot => this.(shot := Kept(text))
      case Notes => this.(notes := Kept(text))
      case Status => this
      case Other => this
    }
  }

  // strip() or None
  function Kept(text: Text): Option<Text> {
    if Trim(text) == [] then None else Some(Trim(text))
  }

  // The line behind a counted field that starts at line i and wants that many more characters.
  function FieldEnd(lines: seq<Text>, i: nat, wanted: int): (r: nat)
    requires i <= |lines|
    ensures i <= r <= |lines|
    decreases |lines| - i
  {
    if i < |lines| && wanted > 0 then FieldEnd(lines, i + 1, wanted - |lines[i]| - 1) else i
  }

  // The line after line i's field.
  function Next(lines: seq<Text>, i: nat): (r: nat)
    requires i < |lines|
    ensures i < r <= |lines|
  {
    var f, n := FieldOf(lines[i]), Argument(lines[i]);
    if f.Status? || f.Other? || n.None? then i + 1 else FieldEnd(lines, i + 1, n.value)
  }

  function Noted(lines: seq<Text>, i: nat, found: Found): Found
    requires i < |lines|
  {
    var f, n := FieldOf(lines[i]), Argument(lines[i]);
    if f.Other? || n.None? then found
    else if f.Status? then found.(status := n)
    else found.With(f, Join(lines[i + 1..Next(lines, i)]))
  }

  function Walk(lines: seq<Text>, i: nat, found: Found): Found
    requires i <= |lines|
    decreases |lines| - i
  {
    if i == |lines| then found else Walk(lines, Next(lines, i), Noted(lines, i, found))
  }

  datatype Verdict =
    | Reply(status: int, stdout: Text, stderr: Text)
    | Sentinel(text: Text)
    | Malformed(stdout: Text, detail: Text)

  // An unframed answer: nothing at all, or a control-server sentinel.
  predicate Bare(text: Text) {
    var s := Trim(text);
    s == [] || s == NO_RESPONSE || ERROR_TAG <= s
  }

  function Start(notes: Option<Text>, shot: Option<Text>): Found {
    Found(None, [], [], shot, notes)
  }

  function Judged(found: Found): Verdict {
    if found.status.Some? then Reply(found.status.value, Trim(found.stdout), Trim(found.stderr))
    else Malformed(Trim(found.stdout), Trim(found.stderr))
  }

  function Scanned(text: Text, before: Found): Found {
    if Bare(text) then before else Walk(Split(Newlines(text)), 0, before)
  }

  function Parse(text: Text): Verdict {
    if Bare(text) then Sentinel(Trim(text)) else Judged(Scanned(text, Start(None, None)))
  }

  // with_notes: the NOTES field goes in before the second of two final CRs.
  function WithNotes(frame: Text, notes: Text): Text {
    if notes == [] || !([CR, CR] <= frame[if |frame| < 2 then 0 else |frame| - 2..]) then frame
    else frame[..|frame| - 1] + (NOTES_TAG + Decimal(|notes|) + [CR] + (notes + [CR, CR]))
  }

  // The status a caller sees; a read that timed out never reports success.
  function StatusOf(v: Verdict, timedOut: bool): (status: int)
    ensures status == 0 <==> !timedOut && v.Reply? && v.status == 0
  {
    if !v.Reply? then -1 else if timedOut && v.status == 0 then -2 else v.status
  }

  // Fields off the tuple do not decide it.
  lemma {:induction false} WalkKeeps(lines: seq<Text>, i: nat, a: Found, b: Found)
    requires i <= |lines| && a.status == b.status && a.stdout == b.stdout && a.stderr == b.stderr
    ensures Judged(Walk(lines, i, a)) == Judged(Walk(lines, i, b))
    decreases |lines| - i
  {
    if i < |lines| {
      WalkKeeps(lines, Next(lines, i), Noted(lines, i, a), Noted(lines, i, b));
    }
  }

  lemma WalkStep(lines: seq<Text>, i: nat, found: Found)
    requires i < |lines|
    ensures Walk(lines, i, found) == Walk(lines, Next(lines, i), Noted(lines, i, found))
  {
  }

  lemma WalkEnd(lines: seq<Text>, found: Found)
    ensures Walk(lines, |lines|, found) == found
  {
  }

  lemma FieldStep(lines: seq<Text>, i: nat, wanted: int)
    requires i <= |lines|
    ensures FieldEnd(lines, i, wanted)
         == if i < |lines| && wanted > 0 then FieldEnd(lines, i + 1, wanted - |lines[i]| - 1) else i
  {
  }

  class MacConnection {
    var notes: Option<Text>
    var shot: Option<Text>

    constructor ()
      ensures notes == None && shot == None
    {
      notes, shot := None, None;
    }

    ghost function State(): Found
      reads this
    {
      Start(notes, shot)
    }

    // The lines of a counted field, from line i on.
    method Collect(lines: seq<Text>, i: nat, length: int) returns (body: seq<Text>, next: nat)
      requires i <= |lines|
      ensures next == FieldEnd(lines, i, length) && body == lines[i..next]
    {
      hide FieldEnd;
      var read := 0;
      body, next := [], i;
      while next < |lines| && read < length
        invariant i <= next <= |lines| && body == lines[i..next]
        invariant FieldEnd(lines, next, length - read) == FieldEnd(lines, i, length)
      {
        FieldStep(lines, next, length - read);
        body := body + [lines[next]];
        read := read + |lines[next]| + 1;
        next := next + 1;
      }
      FieldStep(lines, next, length - read);
    }

    method ParseResponse(text: Text) returns (r: Verdict)
      modifies this
      ensures r == Parse(text)
      ensures notes == Scanned(text, old(State())).notes && shot == Scanned(text, old(State())).shot
    {
      hide FieldOf, Argument, Split, Newlines, Trim, FieldEnd, Join, Kept, Walk;
      var stripped := Trim(text);
      if stripped == [] || stripped == NO_RESPONSE || ERROR_TAG <= stripped {
        return Sentinel(stripped);
      }
      var status: Option<int>, stdout, stderr := None, [], [];
      var lines := Split(Newlines(text));
      var i := 0;
      ghost var was := State();
      while i < |lines|
        invariant i <= |lines|
        invariant Walk(lines, i, Found(status, stdout, stderr, shot, notes)) == Walk(lines, 0, was)
      {
        var field, n := FieldOf(lines[i]), Argument(lines[i]);
        WalkStep(lines, i, Found(status, stdout, stderr, shot, notes));
        if n.None? || field.Other? {
          i := i + 1;
        } else if field.Status? {
          status, i := n, i + 1;
        } else {
          var body;
          body, i := Collect(lines, i + 1, n.value);
          if field.Stdout? {
            stdout := Join(body);
          } else if field.Stderr? {
            stderr := Join(body);
          } else if field.Shot? {
            shot := Kept(Join(body));
          } else {
            notes := Kept(Join(body));
          }
        }
      }
      WalkEnd(lines, Found(status, stdout, stderr, shot, notes));
      WalkKeeps(lines, 0, was, Start(None, None));
      r := if status.None? then Malformed(Trim(stdout), Trim(stderr))
           else Reply(status.value, Trim(stdout), Trim(stderr));
    }
  }

  /** The parts of the parser in terms of the text alone */

  lemma TagsSpell()
    ensures Reads(SHOTINFO_TAG, "SHOTINFO:") && Reads(NOTES_TAG, "NOTES:")
    ensures Reads(ERROR_TAG, "ERROR:") && Reads(NO_RESPONSE, "No response")
  {
  }

  ghost predicate Reads(s: Text, text: string) {
    |s| == |text| && forall k :: 0 <= k < |s| ==> s[k] == text[k] as int
  }

  ghost predicate StartsWith(s: Text, text: string) {
    |s| >= |text| && Reads(s[..|text|], text)
  }

  // A line is a field's exactly when it starts with its tag.
  lemma FieldMeans(line: Text)
    ensures FieldOf(line) == Status <==> StartsWith(line, "STATUS:")
    ensures FieldOf(line) == Stdout <==> StartsWith(line, "STDOUT:")
    ensures FieldOf(line) == Stderr <==> StartsWith(line, "STDERR:")
    ensures FieldOf(line) == Shot <==> StartsWith(line, "SHOTINFO:")
    ensures FieldOf(line) == Notes <==> StartsWith(line, "NOTES:")
  {
    Protocol.TagsSpell();
    TagsSpell();
    TagIff(line, STATUS_TAG, "STATUS:");
    TagIff(line, STDOUT_TAG, "STDOUT:");
    TagIff(line, STDERR_TAG, "STDERR:");
    TagIff(line, SHOTINFO_TAG, "SHOTINFO:");
    TagIff(line, NOTES_TAG, "NOTES:");
    OneTag(line);
  }

  lemma TagIff(line: Text, tag: Text, text: string)
    requires Reads(tag, text)
    ensures tag <= line <==> StartsWith(line, text)
  {
    if |line| >= |tag| {
      var front := line[..|tag|];
      if Reads(front, text) {
        assert front == tag;
      }
    }
  }

  lemma OneTag(line: Text)
    ensures STATUS_TAG <= line ==> line[1] == 84 && line[2] == 65
    ensures STDOUT_TAG <= line ==> line[2] == 68 && line[3] == 79
    ensures STDERR_TAG <= line ==> line[2] == 68 && line[3] == 69
    ensures SHOTINFO_TAG <= line ==> line[1] == 72
    ensures NOTES_TAG <= line ==> line[0] == 78
  {
  }

  // Its argument is the number behind the tag's colon.
  lemma ArgumentMeans(line: Text, n: nat)
    requires FieldOf(line) != Other && n < |line| && line[n] == ':' as int
    requires forall k :: 0 <= k < n ==> line[k] != ':' as int
    ensures Argument(line) == ParseInt(line[n + 1..], TextSpace)
  {
    hide ParseInt;
    FieldMeans(line);
    Colon(line);
  }

  lemma Colon(line: Text)
    requires FieldOf(line) != Other
    ensures var n := TagSize(FieldOf(line));
            0 < n <= |line| && line[n - 1] == 58 && forall k :: 0 <= k < n - 1 ==> line[k] != 58
  {
    var tag := if STATUS_TAG <= line then STATUS_TAG else if STDOUT_TAG <= line then STDOUT_TAG
               else if STDERR_TAG <= line then STDERR_TAG else if SHOTINFO_TAG <= line then SHOTINFO_TAG else NOTES_TAG;
    assert forall k :: 0 <= k < |tag| ==> line[k] == tag[k];
    assert tag[|tag| - 1] == 58;
  }

  // The characters of the lines from i to j, with one for each line end.
  ghost function Length(lines: seq<Text>, i: nat, j: nat): nat
    requires i <= j <= |lines|
    decreases j - i
  {
    if i == j then 0 else |lines[i]| + 1 + Length(lines, i + 1, j)
  }

  // A counted field takes lines until it has what it wants: no line earlier, and fewer only where there are no more.
  lemma {:induction false} FieldEndMeans(lines: seq<Text>, i: nat, wanted: int)
    requires i <= |lines|
    ensures var r := FieldEnd(lines, i, wanted);
            && (r < |lines| ==> Length(lines, i, r) >= wanted)
            && forall j :: i <= j < r ==> Length(lines, i, j) < wanted
    decreases |lines| - i
  {
    if i < |lines| && wanted > 0 {
      FieldEndMeans(lines, i + 1, wanted - |lines[i]| - 1);
      var r := FieldEnd(lines, i, wanted);
      forall j | i <= j < r
        ensures Length(lines, i, j) < wanted
      {
        assert j > i ==> Length(lines, i + 1, j) < wanted - |lines[i]| - 1;
      }
    }
  }

  // A tagged line whose argument is no number is passed over like any other.
  lemma BadCountIsIgnored(lines: seq<Text>, i: nat, found: Found)
    requires i < |lines| && (Argument(lines[i]).None? || FieldOf(lines[i]).Other?)
    ensures Walk(lines, i, found) == Walk(lines, i + 1, found)
  {
  }

  // What one line does: a status is set; a field takes the lines that it counts, joined again; SHOTINFO and NOTES are
  // kept without the white space around them, and not at all when nothing else is there.
  lemma LineMeans(lines: seq<Text>, i: nat, found: Found, n: int)
    requires i < |lines| && Argument(lines[i]) == Some(n) && !FieldOf(lines[i]).Other?
    ensures var end := FieldEnd(lines, i + 1, n);
            var text := Join(lines[i + 1..end]);
            var kept := if Strip(text, TextSpace) == [] then None else Some(Strip(text, TextSpace));
            match FieldOf(lines[i])
            case Status => Walk(lines, i, found) == Walk(lines, i + 1, found.(status := Some(n)))
            case Stdout => Walk(lines, i, found) == Walk(lines, end, found.(stdout := text))
            case Stderr => Walk(lines, i, found) == Walk(lines, end, found.(stderr := text))
            case Shot => Walk(lines, i, found) == Walk(lines, end, found.(shot := kept))
            case Notes => Walk(lines, i, found) == Walk(lines, end, found.(notes := kept))
            case Other => true
  {
    hide FieldOf, Argument, Join, Strip;
  }

  // The sentinels, and what a walk comes to: a status makes it a reply, none a malformed one.
  lemma ParseMeans(text: Text)
    ensures var s := Strip(text, TextSpace);
            if s == [] || Reads(s, "No response") || StartsWith(s, "ERROR:") then Parse(text) == Sentinel(s)
            else
              var found := Walk(Split(Newlines(text)), 0, Found(None, [], [], None, None));
              var out, err := Strip(found.stdout, TextSpace), Strip(found.stderr, TextSpace);
              Parse(text) == match found.status
                             case Some(n) => Reply(n, out, err)
                             case None => Malformed(out, err)
  {
    hide Strip, Walk, Split, Newlines;
    var s := Strip(text, TextSpace);
    if |s| >= 6 { assert forall k :: 0 <= k < 6 ==> s[..6][k] == s[k]; }
    if Reads(s, "No response") { assert s == NO_RESPONSE; }
  }

  // The status that a caller gets.
  lemma StatusMeans(v: Verdict, timedOut: bool)
    ensures !v.Reply? ==> StatusOf(v, timedOut) == -1
    ensures v.Reply? && v.status != 0 ==> StatusOf(v, timedOut) == v.status
    ensures v.Reply? && v.status == 0 ==> StatusOf(v, timedOut) == if timedOut then -2 else 0
  {
  }

  // Lines are what is between the line feeds, and joining them gives the text back.
  lemma {:induction false} SplitMeans(s: Text)
    ensures Join(Split(s)) == s && forall k :: 0 <= k < |Split(s)| ==> LF !in Split(s)[k]
  {
    if s != [] {
      SplitMeans(s[1..]);
      var rest := Split(s[1..]);
      if s[0] == LF {
        assert Split(s)[1..] == rest;
        assert [] + [LF] + s[1..] == s;
      } else {
        var lines := Split(s);
        assert lines[0] == [s[0]] + rest[0] && lines[1..] == rest[1..];
        if |rest| > 1 {
          assert [s[0]] + rest[0] + [LF] + Join(rest[1..]) == [s[0]] + (rest[0] + [LF] + Join(rest[1..]));
        }
      }
    }
  }
}
