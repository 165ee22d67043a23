/**
 The LZSS byte format, given by a reference decoder: a 4096-byte ring, matches of 3 to 18 bytes,
 one flag byte before every eight items, a set bit for a literal.
 */
module LzssFormat {
  import opened Bytes
  import opened LzssTree

  datatype Token = Literal(b: byte) | Match(pos: int, len: int)

  predicate GoodToken(t: Token) {
    t.Match? ==> 0 <= t.pos < N && THRESHOLD < t.len <= F
  }

  predicate GoodTokens(ts: seq<Token>) {
    forall i :: 0 <= i < |ts| ==> GoodToken(ts[i])
  }

  /** The decoder */

  type RingText = s: seq<byte> | |s| == N witness seq(N, _ => 0)
  datatype Ring = Ring(buf: RingText, r: int)

  predicate GoodRing(g: Ring) {
    0 <= g.r < N
  }

  function Put(g: Ring, b: byte): (h: Ring)
    requires GoodRing(g)
    ensures GoodRing(h)
  {
    Ring(g.buf[g.r := b], (g.r + 1) % N)
  }

  // n bytes copied one by one from ring position pos; the copy may run into its own output.
  function Copy(g: Ring, pos: int, n: nat): (res: (Ring, seq<byte>))
    requires GoodRing(g) && 0 <= pos < N
    ensures GoodRing(res.0) && |res.1| == n
    decreases n
  {
    if n == 0 then (g, [])
    else
      var b := g.buf[pos];
      var (h, rest) := Copy(Put(g, b), (pos + 1) % N, n - 1);
      (h, [b] + rest)
  }

  function Apply(g: Ring, t: Token): (res: (Ring, seq<byte>))
    requires GoodRing(g) && GoodToken(t)
    ensures GoodRing(res.0) && |res.1| >= 1
  {
    match t
    case Literal(b) => (Put(g, b), [b])
    case Match(pos, len) => Copy(g, pos, len)
  }

  // Position and length, from the two bytes of a match.
  function MatchOf(i: int, j: int): (int, int) {
    (i + (j / 16) * 256, j % 16 + (THRESHOLD + 1))
  }

  function Decode(g: Ring, input: seq<byte>): seq<byte>
    requires GoodRing(g)
    decreases |input|, 0
  {
    if input == [] then [] else DecodeItems(g, input[0], 8, input[1..])
  }

  // The items under one flag byte; `left` of its bits are still to be used.
  function DecodeItems(g: Ring, flags: int, left: nat, input: seq<byte>): seq<byte>
    requires GoodRing(g) && flags >= 0
    decreases |input|, left + 1
  {
    if left == 0 then Decode(g, input)
    else if input == [] then []
    else if flags % 2 == 1 then
      [input[0]] + DecodeItems(Put(g, input[0]), flags / 2, left - 1, input[1..])
    else if |input| == 1 then []
    else
      var (pos, len) := MatchOf(input[0], input[1]);
      var (h, out) := Copy(g, pos, len);
      out + DecodeItems(h, flags / 2, left - 1, input[2..])
  }

  /** Token lists and their bytes */

  function Run(g: Ring, ts: seq<Token>): (res: (Ring, seq<byte>))
    requires GoodRing(g) && GoodTokens(ts)
    ensures GoodRing(res.0) && |ts| <= |res.1|
    decreases |ts|
  {
    if ts == [] then (g, [])
    else
      var (h, out) := Apply(g, ts[0]);
      var (k, rest) := Run(h, ts[1..]);
      (k, out + rest)
  }

  function Item(t: Token): (s: seq<byte>)
    requires GoodToken(t)
  {
    match t
    case Literal(b) => [b]
    case Match(pos, len) => [pos % 256, (pos / 256) * 16 + (len - (THRESHOLD + 1))]
  }

  function Items(ts: seq<Token>): seq<byte>
    requires GoodTokens(ts)
  {
    if ts == [] then [] else Item(ts[0]) + Items(ts[1..])
  }

  function Flags(ts: seq<Token>): (f: nat)
    ensures f < Pow2(|ts|)
  {
    if ts == [] then 0 else FlagBit(ts[0]) + 2 * Flags(ts[1..])
  }

  lemma {:induction false} SmallFlags(ts: seq<Token>)
    requires |ts| <= 8
    ensures Flags(ts) < 256
  {
    assert Pow2(4) == 16 && Pow2(8) == 256;
    Pow2Mono(|ts|, 8);
  }

  // A mask bit above fewer than eight flags fits the byte.
  lemma Pow2Step(n: nat)
    requires n < 8
    ensures 1 <= Pow2(n) <= 128
  {
    assert Pow2(4) == 16 && Pow2(7) == 128;
    Pow2Mono(0, n);
    Pow2Mono(n, 7);
  }

  function Group(ts: seq<Token>): seq<byte>
    requires GoodTokens(ts) && |ts| <= 8
  {
    SmallFlags(ts);
    [Flags(ts)] + Items(ts)
  }

  function Serialize(ts: seq<Token>): seq<byte>
    requires GoodTokens(ts)
  {
    if ts == [] then []
    else if |ts| <= 8 then Group(ts)
    else Group(ts[..8]) + Serialize(ts[8..])
  }

  /** The decoder inverts the serialization */

  lemma DecodeLiteral(g: Ring, b: byte, flags: nat, left: nat, rest: seq<byte>)
    requires GoodRing(g) && left > 0
    ensures DecodeItems(g, 1 + 2 * flags, left, [b] + rest) == [b] + DecodeItems(Put(g, b), flags, left - 1, rest)
  {
    assert ([b] + rest)[1..] == rest;
    assert (1 + 2 * flags) % 2 == 1 && (1 + 2 * flags) / 2 == flags;
  }

  lemma DecodeMatch(g: Ring, pos: int, len: int, flags: nat, left: nat, rest: seq<byte>)
    requires GoodRing(g) && GoodToken(Match(pos, len)) && left > 0
    ensures var (h, out) := Copy(g, pos, len);
            DecodeItems(g, 2 * flags, left, Item(Match(pos, len)) + rest) == out + DecodeItems(h, flags, left - 1, rest)
  {
    var input := Item(Match(pos, len)) + rest;
    assert input[2..] == rest;
    assert (2 * flags) % 2 == 0 && (2 * flags) / 2 == flags;
    assert MatchOf(input[0], input[1]) == (pos, len);
  }

  function FlagBit(t: Token): nat {
    if t.Literal? then 1 else 0
  }

  lemma DecodeToken(g: Ring, t: Token, flags: nat, left: nat, rest: seq<byte>)
    requires GoodRing(g) && GoodToken(t) && left > 0
    ensures DecodeItems(g, FlagBit(t) + 2 * flags, left, Item(t) + rest) ==
            Apply(g, t).1 + DecodeItems(Apply(g, t).0, flags, left - 1, rest)
  {
    match t {
      case Literal(b) => DecodeLiteral(g, b, flags, left, rest);
      case Match(pos, len) => DecodeMatch(g, pos, len, flags, left, rest);
    }
  }

  lemma DecodeFirst(g: Ring, ts: seq<Token>, left: nat, rest: seq<byte>)
    requires GoodRing(g) && GoodTokens(ts) && ts != [] && left > 0
    ensures var (h, out) := Apply(g, ts[0]);
            DecodeItems(g, Flags(ts), left, Items(ts) + rest) ==
            out + DecodeItems(h, Flags(ts[1..]), left - 1, Items(ts[1..]) + rest)
  {
    assert Items(ts) + rest == Item(ts[0]) + (Items(ts[1..]) + rest);
    DecodeToken(g, ts[0], Flags(ts[1..]), left, Items(ts[1..]) + rest);
  }

  lemma {:induction false} DecodeOneGroup(g: Ring, ts: seq<Token>, left: nat, rest: seq<byte>)
    requires GoodRing(g) && GoodTokens(ts) && |ts| <= left
    requires |ts| == left || rest == []
    ensures DecodeItems(g, Flags(ts), left, Items(ts) + rest) == Run(g, ts).1 + After(g, ts, left, rest)
    decreases |ts|
  {
    hide *;
    if ts == [] {
      DecodeNone(g, left, rest);
    } else {
      TokensRest(ts);
      DecodeFirst(g, ts, left, rest);
      DecodeOneGroup(Apply(g, ts[0]).0, ts[1..], left - 1, rest);
      AfterFirst(g, ts, left, rest);
    }
  }

  lemma DecodeNone(g: Ring, left: nat, rest: seq<byte>)
    requires GoodRing(g) && (left == 0 || rest == [])
    ensures GoodTokens([])
    ensures DecodeItems(g, Flags([]), left, Items([]) + rest) == Run(g, []).1 + After(g, [], left, rest)
  {
    assert Items([]) + rest == rest;
    assert Run(g, []).1 + After(g, [], left, rest) == After(g, [], left, rest);
  }

  lemma TokensRest(ts: seq<Token>)
    requires GoodTokens(ts) && ts != []
    ensures GoodToken(ts[0]) && GoodTokens(ts[1..])
  {
  }

  lemma AfterFirst(g: Ring, ts: seq<Token>, left: nat, rest: seq<byte>)
    requires GoodRing(g) && GoodTokens(ts) && ts != [] && left > 0
    ensures var (h, out) := Apply(g, ts[0]);
            Run(g, ts).1 + After(g, ts, left, rest) == out + (Run(h, ts[1..]).1 + After(h, ts[1..], left - 1, rest))
  {
    var (h, out) := Apply(g, ts[0]);
    Assoc(out, Run(h, ts[1..]).1, After(g, ts, left, rest));
    assert Run(g, ts).0 == Run(h, ts[1..]).0;
    assert After(g, ts, left, rest) == After(h, ts[1..], left - 1, rest);
  }

  // What is decoded after a group: the remaining input, or nothing when the last group is short.
  function After(g: Ring, ts: seq<Token>, left: nat, rest: seq<byte>): seq<byte>
    requires GoodRing(g) && GoodTokens(ts)
  {
    if |ts| == left then Decode(Run(g, ts).0, rest) else []
  }

  lemma DecodeGroup(g: Ring, ts: seq<Token>, rest: seq<byte>)
    requires GoodRing(g) && GoodTokens(ts) && |ts| <= 8 && (|ts| == 8 || rest == [])
    ensures Decode(g, Group(ts) + rest) == Run(g, ts).1 + Decode(Run(g, ts).0, rest)
  {
    var input := Group(ts) + rest;
    assert input[1..] == Items(ts) + rest;
    DecodeOneGroup(g, ts, 8, rest);
  }

  lemma {:induction false} RunConcat(g: Ring, a: seq<Token>, b: seq<Token>)
    requires GoodRing(g) && GoodTokens(a) && GoodTokens(b)
    ensures var (h, out) := Run(g, a);
            Run(g, a + b) == (Run(h, b).0, out + Run(h, b).1)
    decreases |a|
  {
    if a == [] {
      assert a + b == b && [] + Run(g, b).1 == Run(g, b).1;
    } else {
      var (h, out) := Apply(g, a[0]);
      assert (a + b)[0] == a[0] && (a + b)[1..] == a[1..] + b;
      RunConcat(h, a[1..], b);
      var (k, more) := Run(h, a[1..]);
      assert (out + more) + Run(k, b).1 == out + (more + Run(k, b).1);
    }
  }

  lemma {:induction false} DecodeSerialize(g: Ring, ts: seq<Token>)
    requires GoodRing(g) && GoodTokens(ts)
    ensures Decode(g, Serialize(ts)) == Run(g, ts).1
    decreases |ts|
  {
    if ts == [] {
    } else if |ts| <= 8 {
      DecodeGroup(g, ts, []);
      assert Group(ts) + [] == Group(ts);
    } else {
      DecodeGroup(g, ts[..8], Serialize(ts[8..]));
      var h := Run(g, ts[..8]).0;
      DecodeSerialize(h, ts[8..]);
      RunConcat(g, ts[..8], ts[8..]);
      assert ts[..8] + ts[8..] == ts;
    }
  }

  /** How token lists grow at their end */

  lemma {:induction false} ItemsAppend(ts: seq<Token>, t: Token)
    requires GoodTokens(ts) && GoodToken(t)
    ensures Items(ts + [t]) == Items(ts) + Item(t)
  {
    if ts == [] {
      assert ts + [t] == [t];
    } else {
      assert (ts + [t])[1..] == ts[1..] + [t];
      ItemsAppend(ts[1..], t);
    }
  }

  lemma {:induction false} FlagsAppend(ts: seq<Token>, t: Token)
    ensures Flags(ts + [t]) == Flags(ts) + if t.Literal? then Pow2(|ts|) else 0
  {
    if ts == [] {
      assert ts + [t] == [t];
    } else {
      assert (ts + [t])[1..] == ts[1..] + [t];
      FlagsAppend(ts[1..], t);
    }
  }

  lemma {:induction false} SerializeConcat(a: seq<Token>, b: seq<Token>)
    requires GoodTokens(a) && GoodTokens(b) && |a| % 8 == 0
    ensures Serialize(a + b) == Serialize(a) + Serialize(b)
    decreases |a|
  {
    if a == [] {
      assert a + b == b;
    } else if b == [] {
      assert a + b == a;
    } else {
      SerializeStep(a + b);
      SerializeStep(a);
      hide *;
      assert (a + b)[..8] == a[..8];
      assert (a + b)[8..] == a[8..] + b;
      SerializeConcat(a[8..], b);
      Assoc(Group(a[..8]), Serialize(a[8..]), Serialize(b));
    }
  }

  lemma SerializeStep(ts: seq<Token>)
    requires GoodTokens(ts) && |ts| >= 8
    ensures Serialize(ts) == Group(ts[..8]) + Serialize(ts[8..])
  {
    if |ts| == 8 {
      assert ts[..8] == ts && Group(ts) + [] == Group(ts);
    }
  }

  // The output buffer is large enough: one byte per source byte and one more per eight.
  lemma {:induction false} SerializeLength(g: Ring, ts: seq<Token>)
    requires GoodRing(g) && GoodTokens(ts)
    ensures |Serialize(ts)| <= |Run(g, ts).1| + (|ts| + 7) / 8
    decreases |ts|
  {
    if |ts| <= 8 {
      ItemsLength(g, ts);
    } else {
      ItemsLength(g, ts[..8]);
      var h := Run(g, ts[..8]).0;
      SerializeLength(h, ts[8..]);
      RunConcat(g, ts[..8], ts[8..]);
      assert ts[..8] + ts[8..] == ts;
    }
  }

  lemma {:induction false} ItemsLength(g: Ring, ts: seq<Token>)
    requires GoodRing(g) && GoodTokens(ts)
    ensures |Items(ts)| <= |Run(g, ts).1|
    decreases |ts|
  {
    if ts != [] {
      ItemsLength(Apply(g, ts[0]).0, ts[1..]);
    }
  }

  lemma {:induction false} ItemsBound(ts: seq<Token>)
    requires GoodTokens(ts)
    ensures |Items(ts)| <= 2 * |ts|
  {
    if ts != [] {
      ItemsBound(ts[1..]);
    }
  }
}
