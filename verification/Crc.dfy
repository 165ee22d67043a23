/** CRC-16/XMODEM, the MacBinary II header check: it is linear, and no change within two adjacent bytes escapes it. */
module Crc {
  import opened Bytes
  import opened Bits

  type word = x: int | 0 <= x < 65536

  // One turn of the register.
  function Shift(c: word): word {
    if c / 32768 == 1 then Xor(2 * c, 0x1021) % 65536 else 2 * c % 65536
  }

  function Turns(c: word, n: nat): word {
    if n == 0 then c else Shift(Turns(c, n - 1))
  }

  // crc ^= byte << 8, and eight turns.
  function Fed(c: word, b: byte): word {
    Turns(Word(Xor(c, 256 * b)), 8)
  }

  function Word(n: nat): word {
    n % 65536
  }

  function CrcFrom(c: word, s: seq<byte>): word
    decreases |s|
  {
    if s == [] then c else Fed(CrcFrom(c, s[..|s| - 1]), s[|s| - 1])
  }

  function Crc16(s: seq<byte>): word {
    CrcFrom(0, s)
  }

  lemma WordXor(a: word, b: word)
    ensures Xor(a, b) < 65536 && Word(Xor(a, b)) == Xor(a, b)
  {
    hide Xor;
    assert Pow2(8) == 256 && Pow2(16) == 65536;
    XorBound(a, b, 16);
  }

  lemma XorSplit8(a: nat, x: nat, b: nat, y: nat)
    requires x < 8 && y < 8
    ensures Xor(8 * a + x, 8 * b + y) == 8 * Xor(a, b) + Xor(x, y)
  {
    hide Xor;
    XorSplit4(2 * a + x / 4, x % 4, 2 * b + y / 4, y % 4);
    XorSplit2(a, x / 4, b, y / 4);
    XorSplit4(x / 4, x % 4, y / 4, y % 4);
  }

  lemma XorSplit128(a: nat, x: nat, b: nat, y: nat)
    requires x < 128 && y < 128
    ensures Xor(128 * a + x, 128 * b + y) == 128 * Xor(a, b) + Xor(x, y)
  {
    hide Xor;
    XorSplit16(8 * a + x / 16, x % 16, 8 * b + y / 16, y % 16);
    XorSplit8(a, x / 16, b, y / 16);
    XorSplit16(x / 16, x % 16, y / 16, y % 16);
  }

  lemma XorSplit32768(a: nat, x: nat, b: nat, y: nat)
    requires x < 32768 && y < 32768
    ensures Xor(32768 * a + x, 32768 * b + y) == 32768 * Xor(a, b) + Xor(x, y)
  {
    hide Xor;
    XorSplit256(128 * a + x / 256, x % 256, 128 * b + y / 256, y % 256);
    XorSplit128(a, x / 256, b, y / 256);
    XorSplit256(x / 256, x % 256, y / 256, y % 256);
  }

  // The turn, on the two parts of the register.
  lemma ShiftParts(h: nat, x: nat)
    requires h < 2 && x < 32768
    ensures Shift(32768 * h + x) == if h == 1 then Word(Xor(2 * x, 0x1021)) else 2 * x
    ensures Xor(2 * x, 0x1021) < 65536
  {
    hide Xor;
    WordXor(2 * x, 0x1021);
    if h == 1 {
      XorSplit32768(2, 2 * x % 32768, 0, 0x1021);
      Carry(2 * x);
    }
  }

  // A bit above the register does not matter.
  lemma Carry(x: nat)
    requires x < 65536
    ensures Xor(65536 + x, 0x1021) % 65536 == Word(Xor(x, 0x1021))
  {
    hide Xor;
    XorSplit256(256 + x / 256, x % 256, 16, 0x21);
    XorSplit256(1, x / 256, 0, 16);
    XorSplit256(x / 256, x % 256, 16, 0x21);
    XorSplit256(0, x / 256, 0, 16);
    WordXor(x, 0x1021);
    XorZero(1);
    WordXor(x / 256, 16);
  }

  lemma XorZero(a: nat)
    ensures Xor(a, 0) == a && Xor(0, a) == a
  {
  }

  lemma XorDouble(a: nat, b: nat)
    ensures Xor(2 * a, 2 * b) == 2 * Xor(a, b)
  {
    hide Xor;
    XorSplit2(a, 0, b, 0);
    XorZero(0);
  }

  // Two exclusive ors with one number on either side.
  lemma XorBoth(a: nat, b: nat, g: nat)
    ensures Xor(Xor(a, g), Xor(b, g)) == Xor(a, b) && Xor(Xor(a, g), b) == Xor(Xor(a, b), g) == Xor(a, Xor(b, g))
  {
    hide Xor;
    XorAssoc(a, g, Xor(b, g));
    XorComm(g, Xor(b, g));
    XorCancel(b, g);
    XorAssoc(a, g, b);
    XorComm(g, b);
    XorAssoc(a, b, g);
  }

  // The turn is linear.
  lemma ShiftXor(a: word, b: word)
    ensures Shift(Word(Xor(a, b))) == Word(Xor(Shift(a), Shift(b)))
  {
    hide Xor, Shift;
    var h, x, k, y := a / 32768, a % 32768, b / 32768, b % 32768;
    WordXor(a, b);
    XorSplit32768(h, x, k, y);
    Top(h, k);
    HalfXor(x, y);
    ShiftParts(h, x);
    ShiftParts(k, y);
    ShiftParts(Xor(h, k), Xor(x, y));
    XorDouble(x, y);
    WordXor(Shift(a), Shift(b));
    XorBoth(2 * x, 2 * y, 0x1021);
  }

  lemma Top(h: nat, k: nat)
    requires h < 2 && k < 2
    ensures Xor(h, k) < 2 && Xor(h, k) == if h == k then 0 else 1
  {
    XorSelf(h);
  }

  lemma HalfXor(x: nat, y: nat)
    requires x < 32768 && y < 32768
    ensures Xor(x, y) < 32768
  {
    hide Xor;
    assert Pow2(8) == 256 && Pow2(15) == 32768;
    XorBound(x, y, 15);
  }

  // The turn loses nothing.
  lemma ShiftKeeps(c: word)
    requires Shift(c) == 0
    ensures c == 0
  {
    hide Xor, Shift;
    var h, x := c / 32768, c % 32768;
    ShiftParts(h, x);
    XorHalf(2 * x, 0x1021);
  }

  lemma {:induction false} TurnsXor(a: word, b: word, n: nat)
    ensures Turns(Word(Xor(a, b)), n) == Word(Xor(Turns(a, n), Turns(b, n)))
  {
    hide Xor, Shift;
    if n > 0 {
      TurnsXor(a, b, n - 1);
      ShiftXor(Turns(a, n - 1), Turns(b, n - 1));
    }
  }

  lemma {:induction false} TurnsKeep(c: word, n: nat)
    requires Turns(c, n) == 0
    ensures c == 0
  {
    hide Shift;
    if n > 0 {
      ShiftKeeps(Turns(c, n - 1));
      TurnsKeep(c, n - 1);
    }
  }

  lemma XorScale(a: nat, b: nat)
    ensures Xor(256 * a, 256 * b) == 256 * Xor(a, b)
  {
    hide Xor;
    XorSplit256(a, 0, b, 0);
    XorZero(0);
  }

  lemma XorMix(a: nat, b: nat, c: nat, d: nat)
    ensures Xor(Xor(a, b), Xor(c, d)) == Xor(Xor(a, c), Xor(b, d))
  {
    hide Xor;
    XorAssoc(a, b, Xor(c, d));
    XorAssoc(b, c, d);
    XorComm(b, c);
    XorAssoc(c, b, d);
    XorAssoc(a, c, Xor(b, d));
  }

  lemma XorZeroIff(a: nat, b: nat)
    ensures Xor(a, b) == 0 <==> a == b
  {
    hide Xor;
    XorCancel(a, b);
    XorZero(b);
    XorSelf(b);
  }

  lemma FedXor(c: word, d: word, a: byte, b: byte)
    ensures Fed(Word(Xor(c, d)), ByteXor(a, b)) == Word(Xor(Fed(c, a), Fed(d, b)))
  {
    hide Xor, Turns;
    WordXor(c, d);
    XorScale(a, b);
    XorMix(c, d, 256 * a, 256 * b);
    WordXor(c, 256 * a);
    WordXor(d, 256 * b);
    TurnsXor(Xor(c, 256 * a), Xor(d, 256 * b), 8);
  }

  // The check is linear in the data.
  lemma {:induction false} CrcXor(a: seq<byte>, b: seq<byte>)
    requires |a| == |b|
    ensures Crc16(BytesXor(a, b)) == Word(Xor(Crc16(a), Crc16(b)))
  {
    hide Xor, Fed;
    if a == [] {
      XorZero(0);
    } else {
      var n := |a| - 1;
      CrcXor(a[..n], b[..n]);
      assert BytesXor(a, b)[..n] == BytesXor(a[..n], b[..n]);
      FedXor(Crc16(a[..n]), Crc16(b[..n]), a[n], b[n]);
    }
  }

  lemma ShiftLow(c: word)
    requires c < 32768
    ensures Shift(c) == 2 * c
  {
  }

  lemma TurnsNext(c: word, n: nat)
    ensures Turns(c, 0) == c && Turns(c, n + 1) == Shift(Turns(c, n))
  {
  }

  // A byte below the register's middle turns up into its top half.
  lemma {:induction false} LowByte(x: nat, n: nat)
    requires x < 256 && n <= 8
    ensures x * Pow2(n) < 65536 && Turns(x, n) == x * Pow2(n)
  {
    hide Shift, Turns;
    if n == 0 {
      TurnsNext(x, 0);
    } else {
      LowByte(x, n - 1);
      LowBound(x, n - 1);
      TurnsNext(x, n - 1);
      ShiftLow(Turns(x, n - 1));
    }
  }

  lemma LowBound(x: nat, n: nat)
    requires x < 256 && n < 8
    ensures x * Pow2(n) < 32768 && x * Pow2(n + 1) == 2 * (x * Pow2(n))
  {
    assert Pow2(7) == 128;
    Pow2Mono(n, 7);
    Times(x, Pow2(n));
  }

  lemma Times(x: nat, p: nat)
    requires x < 256 && p <= 128
    ensures x * p <= 255 * 128
  {
  }

  lemma {:induction false} TurnsAdd(c: word, m: nat, n: nat)
    ensures Turns(Turns(c, m), n) == Turns(c, m + n)
  {
    hide Shift;
    if n > 0 {
      TurnsAdd(c, m, n - 1);
    }
  }

  lemma {:induction false} TurnsZero(n: nat)
    ensures Turns(0, n) == 0
  {
    if n > 0 {
      TurnsZero(n - 1);
    }
  }

  // Two bytes are fed as one 16-bit word.
  lemma FedTwice(c: word, x: byte, y: byte)
    ensures Fed(Fed(c, x), y) == 0 <==> c == 256 * x + y
  {
    hide Xor, Turns, Shift;
    var d: word := Word(Xor(c, 256 * x));
    WordXor(c, 256 * x);
    assert Pow2(8) == 256 by {
      assert Pow2(4) == 16;
    }
    LowByte(y, 8);
    TurnsXor(d, y, 8);
    WordXor(d, y);
    XorAssoc(c, 256 * x, y);
    XorSplit256(x, 0, 0, y);
    XorZero(y);
    XorZero(x);
    var both: word := Word(Xor(c, 256 * x + y));
    assert Fed(Fed(c, x), y) == Turns(Turns(both, 8), 8);
    if both == 0 {
      TurnsZero(8);
    }
    if Turns(Turns(both, 8), 8) == 0 {
      TurnsKeep(Turns(both, 8), 8);
      TurnsKeep(both, 8);
    }
    WordXor(c, 256 * x + y);
    XorZeroIff(c, 256 * x + y);
  }

  lemma CrcTwo(s: seq<byte>)
    requires |s| >= 2
    ensures Crc16(s) == Fed(Fed(Crc16(s[..|s| - 2]), s[|s| - 2]), s[|s| - 1])
  {
    hide Fed;
    var t := s[..|s| - 1];
    assert t[..|t| - 1] == s[..|s| - 2];
    assert CrcFrom(0, s) == Fed(CrcFrom(0, t), s[|s| - 1]);
    assert CrcFrom(0, t) == Fed(CrcFrom(0, t[..|t| - 1]), t[|t| - 1]);
  }

  // A text and its check, one behind the other, check out to zero, and nothing else does.
  lemma Residue(s: seq<byte>)
    requires |s| >= 2
    ensures Crc16(s) == 0 <==> Crc16(s[..|s| - 2]) == 256 * s[|s| - 2] as int + s[|s| - 1]
  {
    hide Fed, CrcFrom;
    CrcTwo(s);
    FedTwice(Crc16(s[..|s| - 2]), s[|s| - 2], s[|s| - 1]);
  }

  ghost predicate Zeros(s: seq<byte>) {
    forall k :: 0 <= k < |s| ==> s[k] == 0
  }

  lemma FedNothing(c: word)
    ensures Fed(c, 0) == 0 <==> c == 0
  {
    hide Xor, Turns;
    XorZero(c);
    TurnsZero(8);
    if Fed(c, 0) == 0 {
      TurnsKeep(c, 8);
    }
  }

  lemma {:induction false} CrcZeros(s: seq<byte>)
    requires Zeros(s)
    ensures Crc16(s) == 0
  {
    hide Fed;
    if s != [] {
      CrcZeros(s[..|s| - 1]);
      FedNothing(0);
    }
  }

  // A pattern that is zero but for two adjacent bytes.
  ghost predicate Burst(e: seq<byte>, k: nat) {
    k + 1 < |e| && forall j :: 0 <= j < |e| && j != k && j != k + 1 ==> e[j] == 0
  }

  lemma {:induction false} BurstSeen(e: seq<byte>, k: nat)
    requires Burst(e, k)
    ensures Crc16(e) == 0 <==> e[k] == 0 && e[k + 1] == 0
  {
    hide Fed, Crc16;
    if k + 2 == |e| {
      Residue(e);
      CrcZeros(e[..k]);
    } else {
      BurstSeen(e[..|e| - 1], k);
      CrcLast(e);
      FedNothing(Crc16(e[..|e| - 1]));
    }
  }

  lemma CrcLast(e: seq<byte>)
    requires e != []
    ensures Crc16(e) == Fed(Crc16(e[..|e| - 1]), e[|e| - 1])
  {
  }

  // Two texts that differ in one place, within two adjacent bytes, have different checks.
  lemma DifferenceSeen(a: seq<byte>, b: seq<byte>, k: nat)
    requires |a| == |b| && k + 1 < |a| && a != b
    requires forall j :: 0 <= j < |a| && j != k && j != k + 1 ==> a[j] == b[j]
    ensures Crc16(a) != Crc16(b)
  {
    hide Crc16, Xor;
    var e := BytesXor(a, b);
    forall j | 0 <= j < |a|
      ensures e[j] == 0 <==> a[j] == b[j]
    {
      XorZeroIff(a[j], b[j]);
    }
    CrcXor(a, b);
    BurstSeen(e, k);
    WordXor(Crc16(a), Crc16(b));
    XorZeroIff(Crc16(a), Crc16(b));
  }

  // The register of _crc16_ccitt, over a whole text.
  method Crc16Ccitt(data: seq<byte>) returns (crc: word)
    ensures crc == Crc16(data)
  {
    hide Xor, Shift;
    crc := 0;
    for i := 0 to |data|
      invariant crc == Crc16(data[..i])
    {
      ghost var was := crc;
      var b: int := data[i];
      WordXor(crc, 256 * b);
      crc := Word(Xor(crc, 256 * b));
      for k := 0 to 8
        invariant crc == Turns(Word(Xor(was, 256 * b)), k)
      {
        crc := Shift(crc);
      }
      CrcLast(data[..i + 1]);
      assert data[..i + 1][..i] == data[..i];
    }
    assert data[..|data|] == data;
  }
}
