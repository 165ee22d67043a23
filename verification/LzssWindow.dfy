/**
 The sliding window of the LZSS encoder, in absolute positions.

 The coded text is N-F spaces followed by the source.  When e source bytes are coded, ring position
 a % N holds text byte a for every a from e up to the end of what was read.
 */
module LzssWindow {
  import opened Bytes
  import opened LzssTree
  import opened LzssFormat

  function Text(src: seq<byte>, a: int): byte
    requires 0 <= a < N - F + |src|
  {
    if a < N - F then 32 else src[a - (N - F)]
  }

  // Text bytes e up to N-F+inPos are in the buffer, and those after the first N also in its mirrored tail.
  ghost predicate Window(buf: seq<int>, src: seq<byte>, e: nat, inPos: nat) {
    && |buf| == N + F - 1 && inPos <= |src|
    && forall a :: e <= a < N - F + inPos ==>
         buf[a % N] == Text(src, a) && (N <= a && a % N < F - 1 ==> buf[a % N + N] == Text(src, a))
  }

  lemma WindowRoom(buf: seq<int>, src: seq<byte>, e: nat, inPos: nat)
    requires Window(buf, src, e, inPos)
    ensures inPos <= |src|
  {
  }

  lemma WindowLater(buf: seq<int>, src: seq<byte>, e: nat, inPos: nat)
    requires Window(buf, src, e, inPos)
    ensures Window(buf, src, e + 1, inPos)
  {
  }

  // A run of up to F bytes read without wrapping, as the comparison loop reads it.
  lemma WindowRun(buf: seq<int>, src: seq<byte>, e: nat, inPos: nat, a: int, i: int)
    requires Window(buf, src, e, inPos) && e <= a && 0 <= i < F && a + i < N - F + inPos
    ensures buf[a % N + i] == Text(src, a + i)
  {
    if a % N + i < N {
      assert (a + i) % N == a % N + i;
    } else {
      assert (a + i) % N == a % N + i - N;
    }
  }

  lemma Apart(a: int, b: int)
    requires a < b < a + N
    ensures a % N != b % N
  {
  }

  lemma NextPosition(a: int)
    ensures (a % N + 1) % N == (a + 1) % N
  {
  }

  // Reading one more byte into the place of the oldest one.
  lemma WindowShift(buf: seq<int>, src: seq<byte>, e: nat, buf': seq<int>)
    requires e + F < |src| && Window(buf, src, e, e + F)
    requires var s, c := e % N, src[e + F];
             buf' == if s < F - 1 then buf[s := c][s + N := c] else buf[s := c]
    ensures Window(buf', src, e + 1, e + F + 1)
  {
    forall a | e + 1 <= a < N + e + 1
      ensures buf'[a % N] == Text(src, a) && (N <= a && a % N < F - 1 ==> buf'[a % N + N] == Text(src, a))
    {
      if a < N + e {
        Apart(e, a);
        assert Text(src, a) == buf[a % N];
      }
    }
  }

  /** Positions in the trees, by their distance from the oldest byte */

  function Offset(q: int, e: int): int {
    (q - e) % N
  }

  lemma OffsetPosition(q: int, e: int)
    requires 0 <= q < N
    ensures 0 <= Offset(q, e) < N && (e + Offset(q, e)) % N == q
  {
  }

  lemma OffsetOf(a: int, e: int)
    requires e <= a < e + N
    ensures Offset(a % N, e) == a - e
  {
  }

  lemma OffsetStep(q: int, e: int)
    requires 0 <= q < N && q != e % N
    ensures Offset(q, e + 1) == Offset(q, e) - 1
  {
  }

  /** The decoder's ring */

  ghost predicate RingHolds(g: Ring, src: seq<byte>, e: nat) {
    && e <= |src| && g.r == (N - F + e) % N
    && forall a :: e <= a < N - F + e ==> g.buf[a % N] == Text(src, a)
  }

  lemma PutNext(g: Ring, src: seq<byte>, e: nat)
    requires GoodRing(g) && RingHolds(g, src, e) && e < |src|
    ensures RingHolds(Put(g, src[e]), src, e + 1)
  {
    var h := Put(g, src[e]);
    forall a | e + 1 <= a < N - F + e + 1 ensures h.buf[a % N] == Text(src, a) {
      if a < N - F + e {
        Apart(a, N - F + e);
        assert Text(src, a) == g.buf[a % N];
      }
    }
  }

  // The text at a repeats for n bytes at a + gap.
  ghost predicate Repeats(src: seq<byte>, a: int, gap: int, n: int) {
    && 0 <= a && 0 < gap && a + gap + n <= N - F + |src|
    && forall j :: a <= j < a + n ==> Text(src, j) == Text(src, j + gap)
  }

  lemma RepeatsFirst(src: seq<byte>, a: int, gap: int, n: int)
    requires Repeats(src, a, gap, n) && 0 < n && N - F <= a + gap
    ensures Text(src, a) == src[a + gap - (N - F)] && Repeats(src, a + 1, gap, n - 1)
  {
    assert Text(src, a) == Text(src, a + gap);
  }

  // A match copies the next n source bytes, also when it overlaps the bytes it produces.
  lemma {:induction false} CopyNext(g: Ring, src: seq<byte>, e: nat, a: int, n: nat)
    requires GoodRing(g) && RingHolds(g, src, e) && e <= a < N - F + e
    requires Repeats(src, a, N - F + e - a, n)
    ensures Copy(g, a % N, n).1 == src[e..e + n]
    ensures RingHolds(Copy(g, a % N, n).0, src, e + n)
    decreases n
  {
    if n > 0 {
      var b := g.buf[a % N];
      RepeatsFirst(src, a, N - F + e - a, n);
      assert b == Text(src, a);
      PutNext(g, src, e);
      CopyNext(Put(g, b), src, e + 1, a + 1, n - 1);
      NextPosition(a);
      assert src[e..e + n] == [src[e]] + src[e + 1..e + n];
    }
  }

  /** What the tokens emitted so far decode to */

  // A decoder before its first byte: N-F spaces, and anything at all in the rest of its ring.
  ghost predicate Start(g: Ring) {
    GoodRing(g) && RingHolds(g, [], 0)
  }

  // From any start, the tokens decode to the first d source bytes.
  ghost predicate Coded(src: seq<byte>, ts: seq<Token>, d: nat) {
    && GoodTokens(ts) && d <= |src|
    && forall g :: Start(g) ==> Run(g, ts).1 == src[..d] && RingHolds(Run(g, ts).0, src, d)
  }

  // Token t stands for the n source bytes from d on.
  ghost predicate Stands(src: seq<byte>, t: Token, d: nat, n: nat) {
    && GoodToken(t) && 1 <= n && d + n <= |src|
    && match t
       case Literal(b) => n == 1 && b == src[d]
       case Match(pos, len) =>
         n == len && Offset(pos, d) < N - F && Repeats(src, d + Offset(pos, d), N - F - Offset(pos, d), n)
  }

  lemma CodedNone(src: seq<byte>)
    ensures Coded(src, [], 0)
  {
    forall g | Start(g) ensures RingHolds(g, src, 0) {
      forall a | 0 <= a < N - F ensures g.buf[a % N] == Text(src, a) {
        assert Text([], a) == Text(src, a);
      }
    }
  }

  lemma ApplyNext(g: Ring, src: seq<byte>, t: Token, d: nat, n: nat)
    requires GoodRing(g) && RingHolds(g, src, d) && Stands(src, t, d, n)
    ensures Apply(g, t).1 == src[d..d + n] && RingHolds(Apply(g, t).0, src, d + n)
  {
    match t {
      case Literal(b) => PutNext(g, src, d);
      case Match(pos, len) =>
        OffsetPosition(pos, d);
        CopyNext(g, src, d, d + Offset(pos, d), n);
    }
  }

  lemma RunOne(g: Ring, t: Token)
    requires GoodRing(g) && GoodToken(t)
    ensures Run(g, [t]) == Apply(g, t)
  {
    assert Apply(g, t).1 + [] == Apply(g, t).1;
  }

  lemma CodedNext(src: seq<byte>, ts: seq<Token>, d: nat, t: Token, n: nat)
    requires Coded(src, ts, d) && Stands(src, t, d, n)
    ensures Coded(src, ts + [t], d + n)
  {
    forall g | Start(g)
      ensures Run(g, ts + [t]).1 == src[..d + n] && RingHolds(Run(g, ts + [t]).0, src, d + n)
    {
      var h := Run(g, ts).0;
      RunConcat(g, ts, [t]);
      RunOne(h, t);
      ApplyNext(h, src, t, d, n);
      assert src[..d] + src[d..d + n] == src[..d + n];
    }
  }

  lemma CodedLength(src: seq<byte>, ts: seq<Token>, d: nat)
    requires Coded(src, ts, d)
    ensures |Serialize(ts)| <= d + (d + 7) / 8
  {
    var g := Ring(seq(N, _ => 32), N - F);
    assert Start(g);
    SerializeLength(g, ts);
  }

  lemma CodedAll(src: seq<byte>, ts: seq<Token>)
    requires Coded(src, ts, |src|)
    ensures forall g :: Start(g) ==> Decode(g, Serialize(ts)) == src
  {
    forall g | Start(g) ensures Decode(g, Serialize(ts)) == src {
      DecodeSerialize(g, ts);
    }
  }
}
