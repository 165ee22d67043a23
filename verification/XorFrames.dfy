/** A whole frame combined with the one before it, four bytes at a time. */
module XorFrames {
  import opened Bytes
  import opened Bits

  lemma XorPart(a: seq<byte>, b: seq<byte>, i: nat, j: nat)
    requires |a| == |b| && i <= j <= |a|
    ensures Slice(BytesXor(a, b), i, j) == BytesXor(Slice(a, i, j), Slice(b, i, j))
  {
  }

  // The words of the frame; a rest of fewer than four bytes stays as it was.
  method XorPrev(src: seq<byte>, prev: seq<byte>, dst: array<byte>)
    requires |src| == |prev| <= dst.Length
    modifies dst
    ensures var n := |src| / 4 * 4;
            Slice(dst[..], 0, n) == Slice(BytesXor(src, prev), 0, n) && dst[n..] == old(dst[n..])
  {
    hide *;
    Nothing(dst[..], BytesXor(src, prev));
    var n := |src| / 4;
    for i := 0 to n
      invariant 4 * i <= dst.Length
      invariant Slice(dst[..], 0, 4 * i) == Slice(BytesXor(src, prev), 0, 4 * i)
      invariant dst[4 * i..] == old(dst[4 * i..])
    {
      var a, b := Slice(src, 4 * i, 4 * i + 4), Slice(prev, 4 * i, 4 * i + 4);
      var word := ToBytes(Xor(FromBytes(a), FromBytes(b)), 4);
      IntegerXor(a, b);
      XorPart(src, prev, 4 * i, 4 * i + 4);
      ghost var before := dst[..];
      dst[4 * i], dst[4 * i + 1], dst[4 * i + 2], dst[4 * i + 3] := word[0], word[1], word[2], word[3];
      WordWritten(before, dst[..], 4 * i, word);
      SliceJoin(dst[..], 0, 4 * i, 4 * i + 4);
      SliceJoin(BytesXor(src, prev), 0, 4 * i, 4 * i + 4);
      assert dst[4 * i + 4..] == old(dst[4 * i + 4..]);
    }
  }

  lemma Nothing(a: seq<byte>, b: seq<byte>)
    ensures Slice(a, 0, 0) == Slice(b, 0, 0)
  {
  }

  lemma WordWritten(before: seq<byte>, now: seq<byte>, at: nat, word: seq<byte>)
    requires |before| == |now| && at + 4 <= |now| && |word| == 4
    requires now == before[at := word[0]][at + 1 := word[1]][at + 2 := word[2]][at + 3 := word[3]]
    ensures Slice(now, at, at + 4) == word && Slice(now, 0, at) == Slice(before, 0, at)
  {
  }

  // The difference gives the frame back.
  lemma XorUndone(cur: seq<byte>, prev: seq<byte>)
    requires |cur| == |prev|
    ensures BytesXor(BytesXor(cur, prev), prev) == cur
  {
    hide ByteXor;
    forall i | 0 <= i < |cur|
      ensures ByteXor(ByteXor(cur[i], prev[i]), prev[i]) == cur[i]
    {
      ByteXorLaws(cur[i], prev[i], 0);
    }
  }
}
