/** The text of the SCREENSHOT2 verb: the host prints six numbers, and the daemon scans them digit by digit. */
module VerbText {
  import opened Bytes
  import opened Number
  import opened Protocol
  import opened Daemon
  import opened ScreenshotSystem

  // What follows the verb's name.
  function Printed(q: Request): seq<byte> {
    Decimal(q.x) + [COLON] + (Decimal(q.y) + [COLON] + (Decimal(q.w) + [COLON] + (Decimal(q.h) + [COLON]
    + (Decimal(q.flags) + [COLON] + Decimal(q.baseGen)))))
  }

  // Digits from the front on: the number, and what is left.
  function Digits(s: seq<byte>, high: nat): (nat, seq<byte>) {
    if s != [] && 48 <= s[0] <= 57 then Digits(s[1..], high * 10 + (s[0] as int - 48)) else (high, s)
  }

  // One field: digits, and the colon behind them if there is one.
  function Field(s: seq<byte>): (nat, seq<byte>) {
    var (v, rest) := Digits(s, 0);
    (v, if rest != [] && rest[0] == COLON then rest[1..] else rest)
  }

  // k fields in turn; where the scan has stopped, the rest of them are 0.
  function Fields(s: seq<byte>, k: nat): (r: seq<nat>)
    ensures |r| == k
    decreases k
  {
    if k == 0 then [] else var (v, rest) := Field(s); [v] + Fields(rest, k - 1)
  }

  method Scan(s: seq<byte>) returns (v: seq<nat>)
    ensures v == Fields(s, 6)
  {
    v := [];
    var rest := s;
    assert Fields(s, 6) == v + Fields(rest, 6);
    for k := 0 to 6
      invariant |v| == k && Fields(s, 6) == v + Fields(rest, 6 - k)
    {
      var n: nat := 0;
      ghost var field := rest;
      while rest != [] && 48 <= rest[0] <= 57
        invariant Digits(field, 0) == Digits(rest, n)
        decreases |rest|
      {
        n := n * 10 + (rest[0] as int - 48);
        rest := rest[1..];
      }
      if rest != [] && rest[0] == COLON {
        rest := rest[1..];
      }
      Assoc(v, [n], Fields(rest, 6 - k - 1));
      v := v + [n];
    }
  }

  /** What the scan makes of what the host prints */

  // No digit comes first.
  ghost predicate Stops(s: seq<byte>) {
    s == [] || !(48 <= s[0] <= 57)
  }

  lemma {:induction false} DigitsOver(d: seq<byte>, rest: seq<byte>, high: nat)
    requires Stops(rest) && forall k :: 0 <= k < |d| ==> 48 <= d[k] <= 57
    ensures Value(d, high) >= 0 && Digits(d + rest, high) == (Value(d, high), rest)
    decreases |d|
  {
    if d == [] {
      assert d + rest == rest;
    } else {
      assert (d + rest)[1..] == d[1..] + rest;
      DigitsOver(d[1..], rest, high * 10 + (d[0] as int - 48));
    }
  }

  lemma FieldOver(n: nat, rest: seq<byte>)
    ensures Field(Decimal(n) + [COLON] + rest) == (n, rest)
    ensures Field(Decimal(n)) == (n, [])
  {
    hide Decimal, Value, Numeral;
    var d := Decimal(n);
    DecimalMeans(n);
    DigitsOver(d, [COLON] + rest, 0);
    assert d + ([COLON] + rest) == d + [COLON] + rest;
    assert ([COLON] + rest)[1..] == rest;
    DigitsOver(d, [], 0);
    assert d + [] == d;
  }

  // A minus sign stops the scan for good.
  lemma {:induction false} MinusStops(s: seq<byte>, k: nat)
    requires s != [] && s[0] == 45
    ensures Fields(s, k) == seq(k, _ => 0)
    decreases k
  {
    if k > 0 {
      MinusStops(s, k - 1);
    }
  }

  lemma NegativePrinted(n: int, rest: seq<byte>)
    requires n < 0
    ensures (Decimal(n) + rest)[0] == 45
  {
  }

  lemma FieldsStep(n: nat, rest: seq<byte>, k: nat)
    ensures Fields(Decimal(n) + [COLON] + rest, k + 1) == [n] + Fields(rest, k)
    ensures Fields(Decimal(n), 1) == [n]
  {
    hide Decimal, Field;
    FieldOver(n, rest);
    assert Fields([], 0) == [];
  }

  // The daemon casts the first five to short.
  function Cast(v: seq<nat>): Request
    requires |v| == 6
  {
    Request(Short(v[0]), Short(v[1]), Short(v[2]), Short(v[3]), Short(v[4]), v[5])
  }

  // The daemon's request is the host's, cut to 16 bits, up to the first minus sign.
  lemma ReadsBack(q: Request)
    requires q.w >= 0 && q.h >= 0 && 0 <= q.flags < 0x8000 && q.baseGen >= 0
    ensures Cast(Fields(Printed(q), 6)) == AsRead(q)
  {
    hide Decimal, Fields;
    var gen := Decimal(q.baseGen);
    var flags := Decimal(q.flags) + [COLON] + gen;
    var h := Decimal(q.h) + [COLON] + flags;
    var w := Decimal(q.w) + [COLON] + h;
    var y := Decimal(q.y) + [COLON] + w;
    assert Printed(q) == Decimal(q.x) + [COLON] + y;
    if q.x < 0 {
      NegativePrinted(q.x, [COLON] + y);
      assert Decimal(q.x) + [COLON] + y == Decimal(q.x) + ([COLON] + y);
      MinusStops(Printed(q), 6);
    } else {
      FieldsStep(q.x, y, 5);
      if q.y < 0 {
        NegativePrinted(q.y, [COLON] + w);
        assert y == Decimal(q.y) + ([COLON] + w);
        MinusStops(y, 5);
      } else {
        FieldsStep(q.y, w, 4);
        FieldsStep(q.w, h, 3);
        FieldsStep(q.h, flags, 2);
        FieldsStep(q.flags, gen, 1);
        FieldsStep(q.baseGen, [], 0);
      }
    }
  }
}
