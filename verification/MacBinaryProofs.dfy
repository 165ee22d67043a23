/** The image round trip, which prefixes of an image are accepted, and which header changes are seen. */
module MacBinaryProofs {
  import opened Bytes
  import opened Bits
  import opened Number
  import opened Crc
  import opened MacBinary

  lemma {:induction false} FromTo(n: nat, len: nat)
    requires n < Pow256(len)
    ensures FromBytes(ToBytes(n, len)) == n
  {
    if len > 0 {
      FromTo(n / 256, len - 1);
      var s := ToBytes(n, len);
      assert s[..|s| - 1] == ToBytes(n / 256, len - 1);
    }
  }

  lemma LongBack(n: nat)
    requires n < FORK_LIMIT
    ensures FromBytes(ToBytes(n, 4)) == n
  {
    assert Pow256(2) == 65536;
    assert Pow256(4) == FORK_LIMIT;
    FromTo(n, 4);
  }

  // Every image starts with its header.
  lemma ImageHeader(f: File, blob: seq<byte>)
    requires 128 <= |blob| && blob <= Image(f)
    ensures Slice(blob, 0, 128) == Header(f)
    ensures forall k :: 0 <= k < 128 ==> blob[k] == Header(f)[k]
  {
    hide Header, Fork;
    var i := Image(f);
    assert i[..128] == Header(f);
    assert blob[..128] == i[..128];
  }

  lemma HeaderParts(f: File)
    ensures Slice(Header(f), 0, 124) == Covered(f)
    ensures Slice(Header(f), 2, 2 + |NameOf(f.name)|) == NameOf(f.name)
    ensures Slice(Header(f), 65, 69) == OsType(f.kind) && Slice(Header(f), 69, 73) == OsType(f.creator)
    ensures Slice(Header(f), 83, 87) == ToBytes(|f.data|, 4) && Slice(Header(f), 87, 91) == ToBytes(|f.rsrc|, 4)
  {
    hide Crc16, NameOf, OsType, ToBytes;
  }

  lemma HeaderBytes(f: File)
    ensures var h := Header(f);
            && h[0] == 0 && h[74] == 0 && h[82] == 0 && h[1] == |NameOf(f.name)|
            && h[73] == f.flags / 256 % 256 && h[101] == f.flags % 256 && h[122] == 129
            && 256 * h[124] as int + h[125] == Crc16(Covered(f))
  {
    hide Crc16, NameOf, OsType;
    Two(Crc16(Covered(f)));
  }

  lemma Two(c: word)
    ensures var s := ToBytes(c, 2);
            256 * s[0] as int + s[1] == c
  {
    assert ToBytes(c, 2) == ToBytes(c / 256, 1) + [c % 256];
    assert ToBytes(c / 256, 1) == [] + [c / 256 % 256];
  }

  lemma SameSlice(a: seq<byte>, b: seq<byte>, i: nat, j: nat)
    requires i <= j <= 128 <= |a| && 128 <= |b| && forall k :: 0 <= k < 128 ==> a[k] == b[k]
    ensures Slice(a, i, j) == Slice(b, i, j)
  {
  }

  // What the reader finds in the header of an image, or of a piece of one that holds the header.
  lemma Fields(f: File, blob: seq<byte>)
    requires Encodable(f) && 128 <= |blob| && blob <= Image(f)
    ensures Long(blob, 83) == |f.data| && Long(blob, 87) == |f.rsrc|
    ensures Slice(blob, 0, 124) == Covered(f)
    ensures blob[1] == |NameOf(f.name)| && Slice(blob, 2, 2 + blob[1]) == NameOf(f.name)
    ensures Slice(blob, 65, 69) == OsType(f.kind) && Slice(blob, 69, 73) == OsType(f.creator)
    ensures blob[0] == 0 && blob[74] == 0 && blob[82] == 0 && blob[122] == 129
    ensures 256 * blob[73] as int + blob[101] == f.flags % 65536
    ensures 256 * blob[124] as int + blob[125] == Crc16(Covered(f))
  {
    hide Header, Image, Crc16, FromBytes, ToBytes, Slice, Covered, OsType, NameOf;
    ImageHeader(f, blob);
    HeaderParts(f);
    HeaderBytes(f);
    Same(blob, Header(f));
    SameSlice(blob, Header(f), 2, 2 + |NameOf(f.name)|);
    LongBack(|f.data|);
    LongBack(|f.rsrc|);
  }

  lemma Same(a: seq<byte>, b: seq<byte>)
    requires 128 <= |a| && 128 <= |b| && forall k :: 0 <= k < 128 ==> a[k] == b[k]
    ensures Slice(a, 0, 124) == Slice(b, 0, 124)
    ensures Slice(a, 65, 69) == Slice(b, 65, 69) && Slice(a, 69, 73) == Slice(b, 69, 73)
    ensures Slice(a, 83, 87) == Slice(b, 83, 87) && Slice(a, 87, 91) == Slice(b, 87, 91)
  {
    SameSlice(a, b, 0, 124);
    SameSlice(a, b, 65, 69);
    SameSlice(a, b, 69, 73);
    SameSlice(a, b, 83, 87);
    SameSlice(a, b, 87, 91);
  }

  // The bytes a prefix must have: up to the last byte of the last fork that is not empty.
  function Needed(f: File): nat {
    if f.rsrc != [] then 128 + Padded(|f.data|) + |f.rsrc| else 128 + |f.data|
  }

  lemma PadFacts(n: nat)
    ensures n <= Padded(n) < n + 128 && Padded(0) == 0
  {
  }

  lemma PrefixLooks(f: File, l: nat)
    requires Encodable(f) && l <= |Image(f)|
    ensures Needed(f) <= l ==> LooksLikeMacBinary(Image(f)[..l])
  {
    hide Header, Image, Crc16, FromBytes, Slice, Long, Covered, Padded;
    PadFacts(|f.data|);
    PadFacts(|f.rsrc|);
    if Needed(f) <= l {
      Fields(f, Image(f)[..l]);
    }
  }

  lemma ForkData(f: File, blob: seq<byte>)
    requires blob <= Image(f) && 128 + |f.data| <= |blob|
    ensures Part(blob, 128, 128 + |f.data|) == f.data
  {
    hide Header;
    var i := Image(f);
    assert Slice(i, 128, 128 + |f.data|) == f.data;
    assert Slice(blob, 128, 128 + |f.data|) == Slice(i, 128, 128 + |f.data|);
  }

  lemma ForkRsrc(f: File, blob: seq<byte>)
    requires blob <= Image(f) && (f.rsrc == [] || 128 + Padded(|f.data|) + |f.rsrc| <= |blob|)
    ensures Part(blob, 128 + Padded(|f.data|), 128 + Padded(|f.data|) + |f.rsrc|) == f.rsrc
  {
    hide Header, Padded;
    var i, at := Image(f), 128 + Padded(|f.data|);
    if f.rsrc != [] {
      PadFacts(|f.rsrc|);
      assert Slice(i, at, at + |f.rsrc|) == f.rsrc;
      assert Slice(blob, at, at + |f.rsrc|) == Slice(i, at, at + |f.rsrc|);
    }
  }

  // Exactly the prefixes that hold every fork byte are accepted, and they give back the file.
  lemma PrefixIff(f: File, l: nat)
    requires Encodable(f) && l <= |Image(f)|
    ensures Decode(Image(f)[..l]) == if Needed(f) <= l then Some(Normal(f)) else None
  {
    hide Header, Image, Crc16, FromBytes, Slice, Long, Covered, Padded, LooksLikeMacBinary, OsType, NameOf, Part;
    var blob := Image(f)[..l];
    PrefixLooks(f, l);
    PadFacts(|f.data|);
    PadFacts(|f.rsrc|);
    if l < 128 {
      Short(blob);
    } else {
      Fields(f, blob);
      if Needed(f) <= l {
        ForkData(f, blob);
        ForkRsrc(f, blob);
      } else {
        PartSize(blob, 128, |f.data|);
        PartSize(blob, 128 + Padded(|f.data|), |f.rsrc|);
      }
    }
  }

  lemma PartSize(s: seq<byte>, a: nat, n: nat)
    ensures |Part(s, a, a + n)| == n <==> n == 0 || a + n <= |s|
  {
  }

  lemma Short(blob: seq<byte>)
    requires |blob| < 128
    ensures !LooksLikeMacBinary(blob)
  {
  }

  // The round trip.
  lemma RoundTrip(f: File)
    requires Encodable(f)
    ensures Decode(Image(f)) == Some(Normal(f))
  {
    hide Image, Decode;
    PadFacts(|f.data|);
    PadFacts(|f.rsrc|);
    assert Image(f)[..|Image(f)|] == Image(f);
    PrefixIff(f, |Image(f)|);
  }

  /** The header check */

  // The covered bytes and their check.
  lemma ChecksOut(blob: seq<byte>)
    requires |blob| >= 128
    ensures Crc16(Slice(blob, 0, 126)) == 0 <==> Crc16(Slice(blob, 0, 124)) == 256 * blob[124] as int + blob[125]
  {
    hide Crc16;
    var s := Slice(blob, 0, 126);
    Residue(s);
    assert s[..124] == Slice(blob, 0, 124);
  }

  // No change within two adjacent bytes of the first 126 passes, unless the version says that there is no check.
  lemma BurstRejected(f: File, blob: seq<byte>, k: nat)
    requires Encodable(f) && |blob| == |Image(f)| && k < 125
    requires forall j :: 0 <= j < |blob| && j != k && j != k + 1 ==> blob[j] == Image(f)[j]
    requires blob != Image(f) && blob[122] >= 129
    ensures !LooksLikeMacBinary(blob)
  {
    hide Header, Image, Crc16, FromBytes, Long, Covered, Padded, OsType, NameOf;
    var i := Image(f);
    Fields(f, i);
    ChecksOut(i);
    ChecksOut(blob);
    var a, b := Slice(i, 0, 126), Slice(blob, 0, 126);
    assert forall j :: 0 <= j < 126 ==> a[j] == i[j] && b[j] == blob[j];
    DifferenceSeen(a, b, k);
  }

  // One header byte: which changes are accepted.
  lemma ByteChange(f: File, k: nat, v: byte)
    requires Encodable(f) && k < 128 && Image(f)[k] != v
    ensures LooksLikeMacBinary(Image(f)[k := v]) <==> k >= 126 || (k == 122 && v < 129)
  {
    hide Header, Image, Crc16, FromBytes, Long, Covered, Padded, OsType, NameOf, LooksLikeMacBinary;
    var blob := Image(f)[k := v];
    if k >= 126 || (k == 122 && v < 129) {
      Unchecked(f, k, v);
    } else {
      Fields(f, Image(f));
      BurstRejected(f, blob, if k == 125 then 124 else k);
    }
  }

  lemma Unchecked(f: File, k: nat, v: byte)
    requires Encodable(f) && k < 128 && (k >= 126 || (k == 122 && v < 129))
    ensures LooksLikeMacBinary(Image(f)[k := v])
  {
    hide Header, Image, Crc16, FromBytes, Covered, OsType, NameOf, Padded;
    var i, blob := Image(f), Image(f)[k := v];
    Fields(f, i);
    PadFacts(|f.data|);
    PadFacts(|f.rsrc|);
    assert Slice(blob, 83, 87) == Slice(i, 83, 87) && Slice(blob, 87, 91) == Slice(i, 87, 91);
    if k >= 126 {
      assert Slice(blob, 0, 124) == Slice(i, 0, 124);
    }
  }
}
