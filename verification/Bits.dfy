/** Exclusive or on natural numbers, and big-endian conversion: Python's int operations on byte strings. */
module Bits {
  import opened Bytes

  function Xor(a: nat, b: nat): (c: nat)
    ensures a == 0 ==> c == b
    ensures b == 0 ==> c == a
  {
    if a == 0 then b else if b == 0 then a
    else Bit(a, b) + 2 * Xor(a / 2, b / 2)
  }

  // The last bit of an exclusive or.
  function Bit(a: nat, b: nat): nat {
    if a % 2 == b % 2 then 0 else 1
  }

  lemma XorSelf(a: nat)
    ensures Xor(a, a) == 0
  {
    if a > 0 { XorSelf(a / 2); }
  }

  lemma XorComm(a: nat, b: nat)
    ensures Xor(a, b) == Xor(b, a)
  {
    if a > 0 && b > 0 { XorComm(a / 2, b / 2); }
  }

  lemma {:induction false} XorHalf(a: nat, b: nat)
    ensures Xor(a, b) % 2 == Bit(a, b) && Xor(a, b) / 2 == Xor(a / 2, b / 2)
  {
  }

  lemma {:induction false} XorAssoc(a: nat, b: nat, c: nat)
    ensures Xor(Xor(a, b), c) == Xor(a, Xor(b, c))
    decreases a + b + c
  {
    if a > 0 && b > 0 && c > 0 {
      hide Xor;
      XorHalf(a, b);
      XorHalf(b, c);
      XorHalf(Xor(a, b), c);
      XorHalf(a, Xor(b, c));
      XorAssoc(a / 2, b / 2, c / 2);
      SameHalves(Xor(Xor(a, b), c), Xor(a, Xor(b, c)));
    }
  }

  lemma SameHalves(a: nat, b: nat)
    requires a % 2 == b % 2 && a / 2 == b / 2
    ensures a == b
  {
  }

  // Undoing an exclusive or.
  lemma XorCancel(a: nat, b: nat)
    ensures Xor(Xor(a, b), b) == a
  {
    XorAssoc(a, b, b);
    XorSelf(b);
  }

  lemma {:induction false} XorBound(a: nat, b: nat, k: nat)
    requires a < Pow2(k) && b < Pow2(k)
    ensures Xor(a, b) < Pow2(k)
    decreases k
  {
    if k > 0 && a > 0 && b > 0 {
      XorBound(a / 2, b / 2, k - 1);
    }
  }

  // Numbers made of a high part and a few low bits are combined part by part.
  lemma XorSplit2(a: nat, x: nat, b: nat, y: nat)
    requires x < 2 && y < 2
    ensures Xor(2 * a + x, 2 * b + y) == 2 * Xor(a, b) + Xor(x, y)
  {
    XorHalf(2 * a + x, 2 * b + y);
    XorSelf(x);
    hide Xor;
    assert (2 * a + x) / 2 == a && (2 * b + y) / 2 == b;
    assert Bit(2 * a + x, 2 * b + y) == Xor(x, y);
  }

  lemma XorSplit4(a: nat, x: nat, b: nat, y: nat)
    requires x < 4 && y < 4
    ensures Xor(4 * a + x, 4 * b + y) == 4 * Xor(a, b) + Xor(x, y)
  {
    hide Xor;
    XorSplit2(2 * a + x / 2, x % 2, 2 * b + y / 2, y % 2);
    XorSplit2(a, x / 2, b, y / 2);
    XorSplit2(x / 2, x % 2, y / 2, y % 2);
  }

  lemma XorSplit16(a: nat, x: nat, b: nat, y: nat)
    requires x < 16 && y < 16
    ensures Xor(16 * a + x, 16 * b + y) == 16 * Xor(a, b) + Xor(x, y)
  {
    hide Xor;
    XorSplit4(4 * a + x / 4, x % 4, 4 * b + y / 4, y % 4);
    XorSplit4(a, x / 4, b, y / 4);
    XorSplit4(x / 4, x % 4, y / 4, y % 4);
  }

  lemma XorSplit256(a: nat, x: nat, b: nat, y: nat)
    requires x < 256 && y < 256
    ensures Xor(256 * a + x, 256 * b + y) == 256 * Xor(a, b) + Xor(x, y)
  {
    hide Xor;
    XorSplit16(16 * a + x / 16, x % 16, 16 * b + y / 16, y % 16);
    XorSplit16(a, x / 16, b, y / 16);
    XorSplit16(x / 16, x % 16, y / 16, y % 16);
  }

  /** Bytes */

  function ByteXor(a: byte, b: byte): byte {
    assert Pow2(4) == 16 && Pow2(8) == 256;
    XorBound(a, b, 8);
    Xor(a, b)
  }

  lemma ByteXorLaws(a: byte, b: byte, c: byte)
    ensures ByteXor(a, b) == ByteXor(b, a) && ByteXor(a, 0) == a && ByteXor(a, a) == 0
    ensures ByteXor(ByteXor(a, b), b) == a && ByteXor(a, ByteXor(a, b)) == b
    ensures ByteXor(ByteXor(a, b), c) == ByteXor(a, ByteXor(b, c))
  {
    XorComm(a, b);
    XorSelf(a);
    XorCancel(a, b);
    XorAssoc(a, a, b);
    XorAssoc(a, b, c);
  }

  function BytesXor(a: seq<byte>, b: seq<byte>): (c: seq<byte>)
    requires |a| == |b|
    ensures |c| == |a|
    ensures forall i :: 0 <= i < |a| ==> c[i] == ByteXor(a[i], b[i])
  {
    seq(|a|, i requires 0 <= i < |a| => ByteXor(a[i], b[i]))
  }

  // int.from_bytes(s, "big")
  function FromBytes(s: seq<byte>): nat {
    if s == [] then 0 else 256 * FromBytes(s[..|s| - 1]) + s[|s| - 1]
  }

  // n.to_bytes(len, "big"), for an n that fits.
  function ToBytes(n: nat, len: nat): (s: seq<byte>)
    ensures |s| == len
  {
    if len == 0 then [] else ToBytes(n / 256, len - 1) + [n % 256]
  }

  lemma {:induction false} ToFromBytes(s: seq<byte>)
    ensures ToBytes(FromBytes(s), |s|) == s
  {
    if s != [] {
      ToFromBytes(s[..|s| - 1]);
    }
  }

  lemma FromBytesLast(s: seq<byte>)
    ensures FromBytes(s) == if s == [] then 0 else 256 * FromBytes(s[..|s| - 1]) + s[|s| - 1]
  {
  }

  lemma BytesXorInit(a: seq<byte>, b: seq<byte>)
    requires |a| == |b| > 0
    ensures BytesXor(a, b)[..|a| - 1] == BytesXor(a[..|a| - 1], b[..|a| - 1])
    ensures BytesXor(a, b)[|a| - 1] == Xor(a[|a| - 1], b[|a| - 1])
  {
  }

  // Exclusive or of two byte strings read as integers is exclusive or byte by byte.
  lemma {:induction false} FromBytesXor(a: seq<byte>, b: seq<byte>)
    requires |a| == |b|
    ensures Xor(FromBytes(a), FromBytes(b)) == FromBytes(BytesXor(a, b))
  {
    hide Xor, FromBytes, BytesXor;
    FromBytesLast(a);
    FromBytesLast(b);
    FromBytesLast(BytesXor(a, b));
    if a == [] {
      XorSelf(0);
    } else {
      var n := |a| - 1;
      FromBytesXor(a[..n], b[..n]);
      XorSplit256(FromBytes(a[..n]), a[n], FromBytes(b[..n]), b[n]);
      BytesXorInit(a, b);
    }
  }

  lemma IntegerXor(a: seq<byte>, b: seq<byte>)
    requires |a| == |b|
    ensures ToBytes(Xor(FromBytes(a), FromBytes(b)), |a|) == BytesXor(a, b)
  {
    FromBytesXor(a, b);
    ToFromBytes(BytesXor(a, b));
  }
}
