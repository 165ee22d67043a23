/** Decimal numbers as the daemon prints them and as Python's int() reads them. */
module Number {
  import opened Bytes

  datatype Option<T> = None | Some(value: T)

  const MINUS: int := 45
  const PLUS: int := 43
  const UNDERSCORE: int := 95

  predicate Digit(c: int) {
    48 <= c < 58
  }

  function Digits(n: nat): (r: seq<byte>)
    ensures |r| > 0 && Digit(r[0]) && Digit(r[|r| - 1])
    ensures forall c :: c in r ==> Digit(c)
  {
    if n < 10 then [48 + n] else Digits(n / 10) + [48 + n % 10]
  }

  // NumToString.
  function Decimal(n: int): (r: seq<byte>)
    ensures |r| > 0
    ensures forall c :: c in r ==> Digit(c) || c == MINUS
  {
    if n < 0 then [45] + Digits(-n) else Digits(n)
  }

  // The white space of bytes.strip().
  predicate ByteSpace(c: int) {
    c == 32 || 9 <= c <= 13
  }

  // The white space of str.strip().
  predicate TextSpace(c: int) {
    ByteSpace(c) || 28 <= c <= 31 || c == 0x85 || c == 0xA0 || c == 0x1680 || 0x2000 <= c <= 0x200A
    || c == 0x2028 || c == 0x2029 || c == 0x202F || c == 0x205F || c == 0x3000
  }

  function LeftStrip(s: seq<int>, space: int -> bool): (r: seq<int>)
    ensures |r| > 0 ==> !space(r[0])
  {
    if |s| > 0 && space(s[0]) then LeftStrip(s[1..], space) else s
  }

  function RightStrip(s: seq<int>, space: int -> bool): (r: seq<int>)
    ensures |r| > 0 ==> !space(r[|r| - 1])
  {
    if |s| > 0 && space(s[|s| - 1]) then RightStrip(s[..|s| - 1], space) else s
  }

  function Strip(s: seq<int>, space: int -> bool): (r: seq<int>) {
    RightStrip(LeftStrip(s, space), space)
  }

  // Digits, a single underscore allowed between two of them.
  function Magnitude(s: seq<int>): (r: Option<nat>) {
    if s == [] || !Digit(s[|s| - 1]) then
      None
    else
      var d := s[|s| - 1] - 48;
      if |s| == 1 then
        Some(d)
      else
        var head := if s[|s| - 2] == UNDERSCORE then s[..|s| - 2] else s[..|s| - 1];
        var high := Magnitude(head);
        if high.None? then None else Some(high.value * 10 + d)
  }

  // int(s): None is ValueError.
  function ParseInt(s: seq<int>, space: int -> bool): (r: Option<int>) {
    var t := Strip(s, space);
    var signed := t != [] && (t[0] == MINUS || t[0] == PLUS);
    var m := Magnitude(if signed then t[1..] else t);
    if m.None? then
      None
    else
      var n: int := m.value;
      Some(if signed && t[0] == MINUS then -n else n)
  }

  // A white space test that no printed number meets.
  ghost predicate Sane(space: int -> bool) {
    forall c :: Digit(c) || c == MINUS ==> !space(c)
  }

  lemma {:induction false} MagnitudeOfDigits(n: nat)
    ensures Magnitude(Digits(n)) == Some(n)
  {
    if n >= 10 {
      MagnitudeOfDigits(n / 10);
      var s := Digits(n);
      assert s[..|s| - 1] == Digits(n / 10);
      assert s[|s| - 2] == Digits(n / 10)[|s| - 2];
    }
  }

  lemma StripNothing(s: seq<int>, space: int -> bool)
    requires |s| > 0 && !space(s[0]) && !space(s[|s| - 1])
    ensures Strip(s, space) == s
  {
  }

  lemma ParsesBack(n: int, space: int -> bool)
    requires Sane(space)
    ensures Strip(Decimal(n), space) == Decimal(n)
    ensures ParseInt(Decimal(n), space) == Some(n)
  {
    var s := Decimal(n);
    StripNothing(s, space);
    if n < 0 {
      MagnitudeOfDigits(-n);
      assert s[1..] == Digits(-n);
    } else {
      MagnitudeOfDigits(n);
    }
  }

  /** What the conversions mean */

  // A numeral: digits, with single underscores between digits.
  ghost predicate Numeral(s: seq<int>) {
    && s != [] && s[0] != 95 && s[|s| - 1] != 95
    && (forall k :: 0 <= k < |s| ==> '0' as int <= s[k] <= '9' as int || s[k] == '_' as int)
    && forall k :: 0 < k < |s| ==> s[k] != 95 || s[k - 1] != 95
  }

  // The value of its digits, read from the left.
  function Value(s: seq<int>, high: int): int
    decreases |s|
  {
    if s == [] then high
    else Value(s[1..], if s[0] == 95 then high else 10 * high + s[0] - 48)
  }

  lemma {:induction false} ValueLast(s: seq<int>, c: int, high: int)
    ensures Value(s + [c], high) == if c == 95 then Value(s, high) else 10 * Value(s, high) + c - 48
    decreases |s|
  {
    if s == [] {
      assert [c][1..] == [];
    } else {
      assert (s + [c])[1..] == s[1..] + [c];
      ValueLast(s[1..], c, if s[0] == 95 then high else 10 * high + s[0] - 48);
    }
  }

  lemma MagnitudeStep(s: seq<int>)
    ensures s == [] || !Digit(s[|s| - 1]) ==> Magnitude(s).None?
    ensures |s| == 1 && Digit(s[0]) ==> Magnitude(s) == Some(s[0] - 48)
    ensures |s| > 1 && Digit(s[|s| - 1]) ==>
              var high := Magnitude(if s[|s| - 2] == 95 then s[..|s| - 2] else s[..|s| - 1]);
              Magnitude(s) == if high.None? then None else Some(10 * high.value + (s[|s| - 1] - 48))
  {
  }

  // A numeral ends with a digit, and in front of that is a numeral, or one with an underscore behind it, or nothing.
  lemma NumeralLast(s: seq<int>)
    ensures |s| == 1 ==> (Numeral(s) <==> Digit(s[0]))
    ensures |s| > 1 && Digit(s[|s| - 1]) ==>
              (Numeral(s) <==> Numeral(if s[|s| - 2] == 95 then s[..|s| - 2] else s[..|s| - 1]))
    ensures Numeral(s) ==> s != [] && Digit(s[|s| - 1])
  {
    if |s| > 1 {
      var head := if s[|s| - 2] == 95 then s[..|s| - 2] else s[..|s| - 1];
      assert forall k :: 0 <= k < |head| ==> s[k] == head[k];
    }
  }

  lemma {:induction false} MagnitudeMeans(s: seq<int>)
    ensures Magnitude(s).Some? <==> Numeral(s)
    ensures Magnitude(s).Some? ==> Magnitude(s).value == Value(s, 0)
    decreases |s|
  {
    hide Magnitude, Value, Numeral;
    MagnitudeStep(s);
    NumeralLast(s);
    if |s| > 1 && Digit(s[|s| - 1]) {
      var front := s[..|s| - 1];
      assert s == front + [s[|s| - 1]];
      ValueLast(front, s[|s| - 1], 0);
      if s[|s| - 2] == 95 {
        MagnitudeMeans(s[..|s| - 2]);
        assert front == s[..|s| - 2] + [95];
        ValueLast(s[..|s| - 2], 95, 0);
      } else {
        MagnitudeMeans(front);
      }
    } else if |s| == 1 {
      ValueLast([], s[0], 0);
      assert [] + [s[0]] == s;
      ValueNone();
    }
  }

  lemma ValueNone()
    ensures Value([], 0) == 0
  {
  }

  // What is left when the white space at both ends is gone: s[i..j].
  ghost predicate Stripped(s: seq<int>, space: int -> bool, i: nat, j: nat) {
    && i <= j <= |s| && (forall k :: 0 <= k < i || j <= k < |s| ==> space(s[k]))
    && (i < j ==> !space(s[i]) && !space(s[j - 1]))
  }

  lemma {:induction false} LeftStripMeans(s: seq<int>, space: int -> bool) returns (i: nat)
    ensures i <= |s| && LeftStrip(s, space) == s[i..] && forall k :: 0 <= k < i ==> space(s[k])
    decreases |s|
  {
    i := 0;
    if |s| > 0 && space(s[0]) {
      i := LeftStripMeans(s[1..], space);
      assert forall k :: 1 <= k < i + 1 ==> s[k] == s[1..][k - 1];
      assert s[1..][i..] == s[i + 1..];
      i := i + 1;
    }
  }

  lemma {:induction false} RightStripMeans(s: seq<int>, space: int -> bool) returns (j: nat)
    ensures j <= |s| && RightStrip(s, space) == s[..j] && forall k :: j <= k < |s| ==> space(s[k])
    decreases |s|
  {
    j := |s|;
    if |s| > 0 && space(s[|s| - 1]) {
      j := RightStripMeans(s[..|s| - 1], space);
      assert forall k :: j <= k < |s| - 1 ==> s[k] == s[..|s| - 1][k];
      assert s[..|s| - 1][..j] == s[..j];
    }
  }

  lemma StripMeans(s: seq<int>, space: int -> bool) returns (i: nat, j: nat)
    ensures Stripped(s, space, i, j) && Strip(s, space) == s[i..j]
  {
    i := LeftStripMeans(s, space);
    var left := s[i..];
    j := RightStripMeans(left, space);
    assert forall k :: j <= k < |left| ==> left[k] == s[i + k];
    assert left[..j] == s[i..i + j];
    j := i + j;
  }

  // int(): white space at the ends, one sign in front, and a numeral.
  lemma ParseIntMeans(s: seq<int>, space: int -> bool, i: nat, j: nat)
    requires Stripped(s, space, i, j) && Strip(s, space) == s[i..j]
    ensures var t := s[i..j];
            var digits := if t != [] && (t[0] == 43 || t[0] == 45) then t[1..] else t;
            && (ParseInt(s, space).Some? <==> Numeral(digits))
            && (Numeral(digits) ==>
                  ParseInt(s, space).value == if t != [] && t[0] == 45 then -Value(digits, 0) else Value(digits, 0))
  {
    var t := s[i..j];
    MagnitudeMeans(if t != [] && (t[0] == 43 || t[0] == 45) then t[1..] else t);
  }

  // The white space of the two kinds of text.
  lemma Spaces(c: int)
    ensures ByteSpace(c) <==> c in {9, 10, 11, 12, 13, 32}
    ensures TextSpace(c)
            <==> c in {9, 10, 11, 12, 13, 28, 29, 30, 31, 32, 0x85, 0xA0, 0x1680, 0x2000, 0x2001, 0x2002, 0x2003,
                       0x2004, 0x2005, 0x2006, 0x2007, 0x2008, 0x2009, 0x200A, 0x2028, 0x2029, 0x202F, 0x205F, 0x3000}
  {
  }

  // A printed number is its digits in base ten, without zeroes in front, behind a minus when it is negative.
  lemma DecimalMeans(n: int)
    ensures var s := Decimal(n);
            var digits := if n < 0 then s[1..] else s;
            && (n < 0 ==> s[0] == 45) && Numeral(digits) && Value(digits, 0) == (if n < 0 then -n else n)
            && (|digits| > 1 ==> digits[0] != 48) && forall k :: 0 <= k < |digits| ==> Digit(digits[k])
  {
    var m: nat := if n < 0 then -n else n;
    MagnitudeOfDigits(m);
    MagnitudeMeans(Digits(m));
    NoLeadingZero(m);
    var s := Digits(m);
    assert forall k :: 0 <= k < |s| ==> s[k] in s;
    if n < 0 {
      assert Decimal(n)[1..] == s;
    }
  }

  lemma {:induction false} NoLeadingZero(n: nat)
    ensures n > 0 ==> Digits(n)[0] != 48
  {
    if n >= 10 {
      NoLeadingZero(n / 10);
    }
  }
}
