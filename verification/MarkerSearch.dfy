/** Searching a file for a marker in chunks, keeping a tail of the chunk before. */
module MarkerSearch {
  import opened Bytes

  // BASILISK_FB_DUMP
  const MARKER: seq<byte> := [66, 65, 83, 73, 76, 73, 83, 75, 95, 70, 66, 95, 68, 85, 77, 80]

  const KEEP: nat := 15

  lemma MarkerSpells()
    ensures Spells(MARKER, "BASILISK_FB_DUMP") && |MARKER| == KEEP + 1
  {
  }

  // m in s
  method Search(s: seq<byte>, m: seq<byte>) returns (found: bool)
    ensures found <==> Occurs(s, m)
  {
    var k := 0;
    while k + |m| <= |s|
      invariant forall j: nat :: j < k ==> !At(s, m, j)
    {
      if s[k..k + |m|] == m {
        assert At(s, m, k);
        return true;
      }
      k := k + 1;
    }
    found := false;
  }

  // chunk[-keep:] and chunk[:keep]
  function Tail(s: seq<byte>, n: nat): seq<byte> {
    if |s| <= n then s else s[|s| - n..]
  }

  function Head(s: seq<byte>, n: nat): seq<byte> {
    if |s| <= n then s else s[..n]
  }

  lemma AtConcat(a: seq<byte>, b: seq<byte>, m: seq<byte>, k: nat)
    ensures k + |m| <= |a| ==> (At(a + b, m, k) <==> At(a, m, k))
    ensures k >= |a| ==> (At(a + b, m, k) <==> At(b, m, k - |a|))
  {
    if k + |m| <= |a| {
      assert (a + b)[k..k + |m|] == a[k..k + |m|];
    } else if k >= |a| && k + |m| <= |a + b| {
      assert (a + b)[k..k + |m|] == b[k - |a|..k - |a| + |m|];
    }
  }

  lemma Placed(a: seq<byte>, b: seq<byte>, m: seq<byte>, n: nat, k: nat)
    requires |m| <= n + 1 && k < |a| < k + |m|
    ensures At(a + b, m, k) <==> k + |Tail(a, n)| >= |a| && At(Tail(a, n) + Head(b, n), m, k + |Tail(a, n)| - |a|)
  {
    var s, t, d := a + b, Tail(a, n) + Head(b, n), |a| - |Tail(a, n)|;
    if k + |m| <= |s| {
      assert s[k..k + |m|] == t[k - d..k - d + |m|];
    }
  }

  // A text of at most n + 1 bytes lies in a, in b, or across the seam within n bytes of it.
  lemma AcrossSeam(a: seq<byte>, b: seq<byte>, m: seq<byte>, n: nat)
    requires 0 < |m| <= n + 1
    ensures Occurs(a + b, m) <==> Occurs(a, m) || Occurs(b, m) || Occurs(Tail(a, n) + Head(b, n), m)
  {
    hide At;
    var t, h := Tail(a, n), Head(b, n);
    if k: nat :| At(a + b, m, k) {
      AtConcat(a, b, m, k);
      if k < |a| < k + |m| {
        Placed(a, b, m, n, k);
      }
    }
    if k: nat :| At(a, m, k) {
      AtFits(a, m, k);
      AtConcat(a, b, m, k);
    }
    if k: nat :| At(b, m, k) {
      AtConcat(a, b, m, k + |a|);
    }
    if k: nat :| At(t + h, m, k) {
      FromSeam(a, b, m, n, k);
    }
  }

  lemma AtFits(s: seq<byte>, m: seq<byte>, k: nat)
    requires At(s, m, k)
    ensures k + |m| <= |s|
  {
  }

  lemma FromSeam(a: seq<byte>, b: seq<byte>, m: seq<byte>, n: nat, k: nat)
    requires At(Tail(a, n) + Head(b, n), m, k)
    ensures At(a + b, m, k + |a| - |Tail(a, n)|)
  {
    var s, t, d := a + b, Tail(a, n) + Head(b, n), |a| - |Tail(a, n)|;
    assert t == s[d..d + |t|];
    assert s[k + d..k + d + |m|] == t[k..k + |m|];
  }

  /** The chunks of a file */

  function Before(chunks: seq<seq<byte>>, j: nat): seq<byte>
    requires j < |chunks|
  {
    if j == 0 then [] else chunks[j - 1]
  }

  // Some marker touches at most two chunks, next to each other.
  ghost predicate SeenAt(chunks: seq<seq<byte>>, j: nat) {
    j < |chunks| && Occurs(Before(chunks, j) + chunks[j], MARKER)
  }

  ghost predicate Seen(chunks: seq<seq<byte>>) {
    exists j: nat :: SeenAt(chunks, j)
  }

  method BinaryHasExport(chunks: seq<seq<byte>>) returns (found: bool)
    ensures found <==> Seen(chunks)
  {
    hide Occurs, Head, Tail;
    var tail := [];
    NoTail();
    for j := 0 to |chunks|
      invariant j < |chunks| ==> tail == Tail(Before(chunks, j), KEEP)
      invariant forall i: nat :: i < j ==> !SeenAt(chunks, i)
    {
      var seam := Search(tail + Head(chunks[j], KEEP), MARKER);
      var inside := Search(chunks[j], MARKER);
      AcrossSeam(Before(chunks, j), chunks[j], MARKER, KEEP);
      if Occurs(Before(chunks, j), MARKER) {
        EarlierMarker(chunks, j);
      }
      if seam || inside {
        assert SeenAt(chunks, j);
        return true;
      }
      tail := Tail(chunks[j], KEEP);
    }
    found := false;
  }

  lemma NoTail()
    ensures Tail([], KEEP) == []
  {
  }

  // A marker in the chunk before was seen there.
  lemma EarlierMarker(chunks: seq<seq<byte>>, j: nat)
    requires j < |chunks| && Occurs(Before(chunks, j), MARKER)
    ensures j > 0 && SeenAt(chunks, j - 1)
  {
    if j == 0 {
      EmptyHasNone();
    } else {
      AcrossSeam(Before(chunks, j - 1), chunks[j - 1], MARKER, KEEP);
    }
  }

  lemma EmptyHasNone()
    ensures !Occurs([], MARKER)
  {
  }

  // A reader of full chunks: all between the first and the last have at least the kept length.
  ghost predicate FullChunks(chunks: seq<seq<byte>>) {
    forall j :: 0 < j < |chunks| - 1 ==> |chunks[j]| >= KEEP
  }

  // What is reported is in the file.
  lemma {:induction false} SeenIsThere(chunks: seq<seq<byte>>)
    requires Seen(chunks)
    ensures Occurs(Flat(chunks), MARKER)
  {
    hide Occurs;
    var j: nat :| SeenAt(chunks, j);
    var rest := chunks[1..];
    AcrossSeam(chunks[0], Flat(rest), MARKER, KEEP);
    AcrossSeam(Before(chunks, j), chunks[j], MARKER, KEEP);
    if j == 0 {
      EmptySeam(chunks[0]);
    } else if j == 1 {
      FlatFirst(rest);
      FrontOccurs(chunks[0] + chunks[1], Flat(rest[1..]));
      Assoc(chunks[0], rest[0], Flat(rest[1..]));
    } else {
      assert SeenAt(rest, j - 1);
      SeenIsThere(rest);
    }
  }

  lemma EmptySeam(c: seq<byte>)
    ensures [] + c == c
  {
  }

  lemma FlatFirst(chunks: seq<seq<byte>>)
    requires chunks != []
    ensures Flat(chunks) == chunks[0] + Flat(chunks[1..])
  {
  }

  lemma FrontOccurs(a: seq<byte>, b: seq<byte>)
    requires Occurs(a, MARKER)
    ensures Occurs(a + b, MARKER)
  {
    AcrossSeam(a, b, MARKER, KEEP);
  }

  lemma SeenLater(chunks: seq<seq<byte>>)
    requires chunks != [] && Seen(chunks[1..])
    ensures Seen(chunks)
  {
    hide Occurs;
    var rest := chunks[1..];
    var j: nat :| SeenAt(rest, j);
    if j == 0 {
      EmptySeam(rest[0]);
      AcrossSeam(chunks[0], chunks[1], MARKER, KEEP);
    }
    assert SeenAt(chunks, j + 1);
  }

  lemma HeadOfFlat(chunks: seq<seq<byte>>)
    requires chunks != [] && (|chunks| == 1 || |chunks[0]| >= KEEP)
    ensures Head(Flat(chunks), KEEP) == Head(chunks[0], KEEP)
  {
    FlatFirst(chunks);
    if |chunks| == 1 {
      assert Flat(chunks[1..]) == [];
      assert chunks[0] + [] == chunks[0];
    } else {
      assert (chunks[0] + Flat(chunks[1..]))[..KEEP] == chunks[0][..KEEP];
    }
  }

  // With full chunks, what is in the file is reported.
  lemma {:induction false} ThereIsSeen(chunks: seq<seq<byte>>)
    requires FullChunks(chunks) && Occurs(Flat(chunks), MARKER)
    ensures Seen(chunks)
  {
    hide Occurs, Head, Tail;
    if chunks == [] {
      EmptyHasNone();
    } else {
      var rest := chunks[1..];
      FlatFirst(chunks);
      AcrossSeam(chunks[0], Flat(rest), MARKER, KEEP);
      if Occurs(chunks[0], MARKER) {
        EmptySeam(chunks[0]);
        assert SeenAt(chunks, 0);
      } else if Occurs(Flat(rest), MARKER) {
        RestFull(chunks);
        ThereIsSeen(rest);
        SeenLater(chunks);
      } else {
        SeamSeen(chunks);
      }
    }
  }

  lemma RestFull(chunks: seq<seq<byte>>)
    requires chunks != [] && FullChunks(chunks)
    ensures FullChunks(chunks[1..])
  {
  }

  lemma SeamSeen(chunks: seq<seq<byte>>)
    requires chunks != [] && FullChunks(chunks) && !Occurs(chunks[0], MARKER)
    requires Occurs(Tail(chunks[0], KEEP) + Head(Flat(chunks[1..]), KEEP), MARKER)
    ensures Seen(chunks)
  {
    hide Occurs;
    if |chunks| == 1 {
      NoSeam(chunks[0]);
    } else {
      hide Head, Tail;
      HeadOfFlat(chunks[1..]);
      AcrossSeam(chunks[0], chunks[1], MARKER, KEEP);
      assert SeenAt(chunks, 1);
    }
  }

  lemma NoSeam(c: seq<byte>)
    ensures !Occurs(Tail(c, KEEP) + Head([], KEEP), MARKER)
  {
  }

  lemma SearchIsExact(chunks: seq<seq<byte>>)
    requires FullChunks(chunks)
    ensures Seen(chunks) <==> Occurs(Flat(chunks), MARKER)
  {
    hide Occurs, Seen;
    if Seen(chunks) {
      SeenIsThere(chunks);
    }
    if Occurs(Flat(chunks), MARKER) {
      ThereIsSeen(chunks);
    }
  }

  // A short chunk in the middle can hide a marker.
  lemma ShortChunkHides()
    ensures exists chunks :: Occurs(Flat(chunks), MARKER) && !Seen(chunks)
  {
    var chunks := [Slice(MARKER, 0, 1), Slice(MARKER, 1, 15), Slice(MARKER, 15, 16)];
    assert Flat(chunks[2..]) == Slice(MARKER, 15, 16) + [] == Slice(MARKER, 15, 16);
    assert chunks[1..][1..] == chunks[2..];
    assert Flat(chunks[1..]) == Slice(MARKER, 1, 15) + Slice(MARKER, 15, 16);
    assert Flat(chunks) == MARKER;
    assert MARKER[0..0 + |MARKER|] == MARKER;
    assert At(Flat(chunks), MARKER, 0);
    forall j: nat
      ensures !SeenAt(chunks, j)
    {
      TooShort(chunks, j);
    }
  }

  lemma TooShort(chunks: seq<seq<byte>>, j: nat)
    requires j < |chunks| ==> |Before(chunks, j) + chunks[j]| < |MARKER|
    ensures !SeenAt(chunks, j)
  {
  }
}
