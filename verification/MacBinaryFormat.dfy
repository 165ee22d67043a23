/** MacBinary II in the numbers of its format: where everything stands, and what is kept of a file's name and type. */
module MacBinaryFormat {
  import opened Bytes
  import opened Bits
  import opened Number
  import opened Crc
  import opened MacBinary
  import opened MacBinaryProofs

  /** The check is CRC-16/XMODEM: no start value, and a one that leaves the register comes back as 0x1021. */

  lemma CheckOfOne()
    ensures Crc16([]) == 0 && Crc16([1]) == 0x1021
  {
    hide Shift, Turns;
    assert [1][..0] == [];
    TurnsNext(256, 0);
    TurnsNext(256, 1);
    TurnsNext(256, 2);
    TurnsNext(256, 3);
    TurnsNext(256, 4);
    TurnsNext(256, 5);
    TurnsNext(256, 6);
    TurnsNext(256, 7);
    Doubled(256);
    Doubled(512);
    Doubled(1024);
    Doubled(2048);
    Doubled(4096);
    Doubled(8192);
    Doubled(16384);
    TopBit();
  }

  lemma Doubled(c: word)
    requires c < 32768
    ensures Shift(c) == 2 * c
  {
  }

  lemma TopBit()
    ensures Shift(32768) == 0x1021
  {
    hide Xor;
    Carry(0);
    XorZero(0x1021);
  }

  /** What is kept of name, type and creator */

  lemma NameMeans(name: seq<byte>)
    ensures 1 <= |name| <= 63 ==> NameOf(name) == name
    ensures |name| > 63 ==> NameOf(name) == name[..63]
    ensures name == [] ==> NameOf(name) == [70, 105, 108, 101]
  {
  }

  lemma TypeMeans(kind: seq<byte>)
    ensures |OsType(kind)| == 4
    ensures |kind| >= 4 ==> OsType(kind) == kind[..4]
    ensures |kind| < 4 ==> OsType(kind)[..|kind|] == kind && forall k :: |kind| <= k < 4 ==> OsType(kind)[k] == 32
  {
  }

  // The round trip in terms of the file: the name as given when it has 1 to 63 bytes, its first 63 when it has more,
  // and "File" when it has none; type and creator as given, cut to four bytes or filled up with spaces; the low 16 bits
  // of the flags; and both forks.
  lemma RoundTripMeans(f: File)
    requires Encodable(f)
    ensures Decode(Image(f)).Some?
    ensures var g := Decode(Image(f)).value;
            && g.data == f.data && g.rsrc == f.rsrc && g.flags == f.flags % 0x1_0000
            && (1 <= |f.name| <= 63 ==> g.name == f.name) && (|f.name| > 63 ==> g.name == f.name[..63])
            && (f.name == [] ==> g.name == [70, 105, 108, 101])
            && KeepsType(f.kind, g.kind) && KeepsType(f.creator, g.creator)
  {
    hide Image, Decode, NameOf, OsType;
    RoundTrip(f);
    NameMeans(f.name);
    TypeMeans(f.kind);
    TypeMeans(f.creator);
  }

  ghost predicate KeepsType(given: seq<byte>, kept: seq<byte>) {
    && |kept| == 4
    && (if |given| >= 4 then kept == given[..4]
        else kept[..|given|] == given && forall k :: |given| <= k < 4 ==> kept[k] == 32)
  }

  /** The layout */

  function LongAt(s: seq<byte>, at: nat): nat
    requires at + 4 <= |s|
  {
    0x100_0000 * s[at] as int + 0x1_0000 * s[at + 1] as int + 0x100 * s[at + 2] as int + s[at + 3]
  }

  // A file whose forks' lengths fit four bytes.
  lemma EncodableMeans(f: File)
    ensures Encodable(f) <==> |f.data| <= 0xFFFF_FFFF && |f.rsrc| <= 0xFFFF_FFFF
  {
  }

  // The end of a fork of n bytes that starts at `at`: it is filled up to whole blocks of 128 bytes.
  ghost predicate BlockEnd(at: nat, n: nat, end: nat) {
    at + n <= end < at + n + 128 && (end - at) % 128 == 0
  }

  lemma LongOf(n: nat)
    requires n < 0x1_0000_0000
    ensures LongAt(ToBytes(n, 4), 0) == n
  {
    LongBack(n);
    var s := ToBytes(n, 4);
    FourBytes(s);
  }

  lemma FourBytes(s: seq<byte>)
    requires |s| == 4
    ensures FromBytes(s) == LongAt(s, 0)
  {
    assert s[..3][..2] == s[..2] && s[..3][..2][..1] == s[..1] && s[..1][..0] == [];
    assert FromBytes(s) == 256 * FromBytes(s[..3]) + s[3];
    assert FromBytes(s[..3]) == 256 * FromBytes(s[..2]) + s[2];
    assert FromBytes(s[..2]) == 256 * FromBytes(s[..1]) + s[1];
    assert FromBytes(s[..1]) == 256 * FromBytes([]) + s[0];
  }

  // Where the header's fields stand.
  lemma HeaderLayout(f: File)
    requires Encodable(f)
    ensures var i, name := Image(f), NameOf(f.name);
            && |i| >= 128 && i[1] == |name| <= 63 && i[2..2 + |name|] == name
            && i[65..69] == OsType(f.kind) && i[69..73] == OsType(f.creator)
            && 256 * i[73] as int + i[101] == f.flags % 0x1_0000
            && LongAt(i, 83) == |f.data| && LongAt(i, 87) == |f.rsrc| && i[122] == 129 && i[123] == 129
            && 256 * i[124] as int + i[125] == Crc16(i[..124]) && i[126] == 0 && i[127] == 0
            && forall k :: 0 <= k < 122 && (k == 0 || 2 + |name| <= k < 65 || 74 <= k < 83 || 91 <= k < 101 || 101 < k)
                 ==> i[k] == 0
  {
    hide Image, Crc16, OsType, NameOf, ToBytes, Header;
    var i := Image(f);
    ImageHeader(f, i);
    HeaderParts(f);
    HeaderBytes(f);
    HeaderRest(f);
    LongOf(|f.data|);
    LongOf(|f.rsrc|);
    HeaderSlices(i, Header(f), |NameOf(f.name)|);
    assert Slice(Header(f), 83, 87)[..] == Header(f)[83..87];
    assert Slice(Header(f), 87, 91)[..] == Header(f)[87..91];
  }

  lemma HeaderRest(f: File)
    ensures var h, name := Header(f), NameOf(f.name);
            && h[123] == 129 && h[126] == 0 && h[127] == 0
            && forall k :: 0 <= k < 122 && (k == 0 || 2 + |name| <= k < 65 || 74 <= k < 83 || 91 <= k < 101 || 101 < k)
                 ==> h[k] == 0
  {
    hide Crc16, OsType, NameOf, ToBytes;
  }

  lemma HeaderSlices(i: seq<byte>, h: seq<byte>, n: nat)
    requires |i| >= 128 && |h| == 128 && n <= 63 && forall k :: 0 <= k < 128 ==> i[k] == h[k]
    ensures i[..124] == Slice(h, 0, 124) && i[2..2 + n] == Slice(h, 2, 2 + n)
    ensures i[65..69] == Slice(h, 65, 69) && i[69..73] == Slice(h, 69, 73)
    ensures LongAt(i, 83) == LongAt(Slice(h, 83, 87), 0) && LongAt(i, 87) == LongAt(Slice(h, 87, 91), 0)
  {
  }

  // The forks behind it.
  lemma ForkLayout(f: File, middle: nat, end: nat)
    requires BlockEnd(128, |f.data|, middle) && BlockEnd(middle, |f.rsrc|, end)
    ensures var i := Image(f);
            && |i| == end && i[128..128 + |f.data|] == f.data && i[middle..middle + |f.rsrc|] == f.rsrc
            && (forall k :: 128 + |f.data| <= k < middle ==> i[k] == 0)
            && forall k :: middle + |f.rsrc| <= k < end ==> i[k] == 0
  {
    hide Header;
    Blocks(128, |f.data|, middle);
    Blocks(middle, |f.rsrc|, end);
  }

  lemma Blocks(at: nat, n: nat, end: nat)
    requires BlockEnd(at, n, end)
    ensures end == at + Padded(n)
  {
    PadFacts(n);
    assert Padded(n) % 128 == 0;
  }

  // What is taken for an image, and when the check is asked for.
  lemma LooksMeans(blob: seq<byte>, middle: nat, end: nat)
    requires |blob| >= 128 ==> BlockEnd(128, LongAt(blob, 83), middle) && BlockEnd(middle, LongAt(blob, 87), end)
    ensures LooksLikeMacBinary(blob)
            <==> && |blob| >= 128 && blob[0] == 0 && blob[74] == 0 && blob[82] == 0 && 1 <= blob[1] <= 63
                 && end <= |blob| + 128
                 && (blob[122] < 129 || Crc16(blob[..124]) == 256 * blob[124] as int + blob[125])
  {
    hide Crc16, FromBytes;
    if |blob| >= 128 {
      Blocks(128, LongAt(blob, 83), middle);
      Blocks(middle, LongAt(blob, 87), end);
      FourBytes(Slice(blob, 83, 87));
      FourBytes(Slice(blob, 87, 91));
    }
  }
}
