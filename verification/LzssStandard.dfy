/**
 The decoder that reads LZSS data elsewhere, in numbers of its own: a ring of 4096 bytes whose first 4078 are spaces and
 where writing starts behind them, flags from the low bit on, and pairs of 12 bits for a place and 4 for a length
 from 3 on.
 */
module LzssStandard {
  import opened Bytes
  import LzssTree
  import LzssFormat
  import LzssWindow

  type RingBytes = s: seq<byte> | |s| == 4096 witness seq(4096, _ => 0)
  type Place = p: int | 0 <= p < 4096

  function Next(p: Place): Place {
    if p == 4095 then 0 else p + 1
  }

  function Copied(ring: RingBytes, r: Place, from: Place, n: nat): (RingBytes, Place, seq<byte>)
    decreases n
  {
    if n == 0 then (ring, r, [])
    else
      var (ring', r', out) := Copied(ring[r := ring[from]], Next(r), Next(from), n - 1);
      (ring', r', [ring[from]] + out)
  }

  function Groups(ring: RingBytes, r: Place, input: seq<byte>): seq<byte>
    decreases |input|, 0
  {
    if input == [] then [] else Items(ring, r, input[0], 8, input[1..])
  }

  // The items under the flags, of which `left` are still to be used.
  function Items(ring: RingBytes, r: Place, flags: byte, left: nat, input: seq<byte>): seq<byte>
    decreases |input|, left + 1
  {
    if left == 0 then Groups(ring, r, input)
    else if input == [] then []
    else if flags % 2 == 1 then
      [input[0]] + Items(ring[r := input[0]], Next(r), flags / 2, left - 1, input[1..])
    else if |input| == 1 then []
    else
      var (ring', r', out) := Copied(ring, r, input[0] as int + 256 * (input[1] as int / 16), input[1] as int % 16 + 3);
      out + Items(ring', r', flags / 2, left - 1, input[2..])
  }

  // What the bytes stand for; tail is what the ring happens to hold behind the spaces.
  function Decoded(tail: seq<byte>, input: seq<byte>): seq<byte>
    requires |tail| == 18
  {
    Groups(seq(4078, _ => 32) + tail, 4078, input)
  }

  /** The encoder's format is this one. */

  lemma {:induction false} SameCopy(ring: RingBytes, r: Place, from: Place, n: nat)
    ensures LzssFormat.GoodRing(LzssFormat.Ring(ring, r)) && 0 <= from < LzssTree.N
    ensures var (h, out) := LzssFormat.Copy(LzssFormat.Ring(ring, r), from, n);
            Copied(ring, r, from, n) == (h.buf, h.r, out)
    decreases n
  {
    if n > 0 {
      SameCopy(ring[r := ring[from]], Next(r), Next(from), n - 1);
    }
  }

  lemma {:induction false} SameGroups(ring: RingBytes, r: Place, input: seq<byte>)
    ensures LzssFormat.GoodRing(LzssFormat.Ring(ring, r))
    ensures Groups(ring, r, input) == LzssFormat.Decode(LzssFormat.Ring(ring, r), input)
    decreases |input|, 0
  {
    if input != [] {
      SameItems(ring, r, input[0], 8, input[1..]);
    }
  }

  lemma {:induction false} SameItems(ring: RingBytes, r: Place, flags: byte, left: nat, input: seq<byte>)
    ensures LzssFormat.GoodRing(LzssFormat.Ring(ring, r))
    ensures Items(ring, r, flags, left, input)
         == LzssFormat.DecodeItems(LzssFormat.Ring(ring, r), flags, left, input)
    decreases |input|, left + 1
  {
    hide Copied, LzssFormat.Copy;
    if left == 0 {
      SameGroups(ring, r, input);
    } else if input == [] {
    } else if flags % 2 == 1 {
      SameItems(ring[r := input[0]], Next(r), flags / 2, left - 1, input[1..]);
    } else if |input| > 1 {
      var from, n := input[0] as int + 256 * (input[1] as int / 16), input[1] as int % 16 + 3;
      SameCopy(ring, r, from, n);
      var (ring', r', out) := Copied(ring, r, from, n);
      SameItems(ring', r', flags / 2, left - 1, input[2..]);
      SamePair(input);
    }
  }

  lemma SamePair(input: seq<byte>)
    requires |input| > 1
    ensures LzssFormat.MatchOf(input[0], input[1])
         == (input[0] as int + 256 * (input[1] as int / 16), input[1] as int % 16 + 3)
  {
  }

  // What every start of the encoder's decoder gives, this decoder gives.
  lemma StandardReads(tail: seq<byte>, input: seq<byte>, src: seq<byte>)
    requires |tail| == 18
    requires forall g :: LzssWindow.Start(g) ==> LzssFormat.Decode(g, input) == src
    ensures Decoded(tail, input) == src
  {
    var ring: RingBytes := seq(4078, _ => 32) + tail;
    var g := LzssFormat.Ring(ring, 4078);
    SameGroups(ring, 4078, input);
    assert LzssWindow.Start(g) by {
      hide LzssFormat.Decode;
    }
  }

  lemma ReadsAll(input: seq<byte>, src: seq<byte>)
    requires forall g :: LzssWindow.Start(g) ==> LzssFormat.Decode(g, input) == src
    ensures forall tail: seq<byte> :: |tail| == 18 ==> Decoded(tail, input) == src
  {
    forall tail: seq<byte> | |tail| == 18
      ensures Decoded(tail, input) == src
    {
      StandardReads(tail, input, src);
    }
  }
}
