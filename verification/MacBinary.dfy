/** MacBinary II images: building, recognising and taking apart. */
module MacBinary {
  import opened Bytes
  import opened Bits
  import opened Number
  import opened Crc

  // A classic-Mac file: name, type and creator as MacRoman bytes, Finder flags, and the two forks.
  datatype File = File(name: seq<byte>, kind: seq<byte>, creator: seq<byte>, flags: int, data: seq<byte>,
                       rsrc: seq<byte>)

  const FORK_LIMIT: nat := 0x1_0000_0000

  function Padded(n: nat): nat {
    (n + 127) / 128 * 128
  }

  function Zeroes(n: nat): (r: seq<byte>)
    ensures |r| == n
  {
    seq(n, i => 0)
  }

  // _as_ostype: four bytes, padded with spaces.
  function OsType(s: seq<byte>): (r: seq<byte>)
    ensures |r| == 4
  {
    (s + [32, 32, 32, 32])[..4]
  }

  function NameOf(s: seq<byte>): (r: seq<byte>)
    ensures 1 <= |r| <= 63
  {
    if s == [] then [70, 105, 108, 101] else if |s| > 63 then s[..63] else s
  }

  // Byte k of the part of the header that the check covers.
  function HeaderByte(f: File, k: nat): byte {
    var n := NameOf(f.name);
    if k == 1 then |n|
    else if 2 <= k < 2 + |n| then n[k - 2]
    else if 65 <= k < 69 then OsType(f.kind)[k - 65]
    else if 69 <= k < 73 then OsType(f.creator)[k - 69]
    else if k == 73 then f.flags / 256 % 256
    else if 83 <= k < 87 then ToBytes(|f.data|, 4)[k - 83]
    else if 87 <= k < 91 then ToBytes(|f.rsrc|, 4)[k - 87]
    else if k == 101 then f.flags % 256
    else if k == 122 || k == 123 then 129
    else 0
  }

  function Covered(f: File): (r: seq<byte>)
    ensures |r| == 124
    ensures forall k :: 0 <= k < 124 ==> r[k] == HeaderByte(f, k)
  {
    seq(124, k requires 0 <= k < 124 => HeaderByte(f, k))
  }

  function Header(f: File): (r: seq<byte>)
    ensures |r| == 128
  {
    Covered(f) + ToBytes(Crc16(Covered(f)), 2) + [0, 0]
  }

  function Fork(s: seq<byte>): (r: seq<byte>)
    ensures |r| == Padded(|s|)
  {
    s + Zeroes(Padded(|s|) - |s|)
  }

  function Image(f: File): (r: seq<byte>)
    ensures |r| == 128 + Padded(|f.data|) + Padded(|f.rsrc|)
  {
    Header(f) + Fork(f.data) + Fork(f.rsrc)
  }

  // bytearray[off:off + len(s)] = s
  method WriteAt(a: array<byte>, off: nat, s: seq<byte>)
    requires off + |s| <= a.Length
    modifies a
    ensures forall k :: 0 <= k < a.Length ==> a[k] == if off <= k < off + |s| then s[k - off] else old(a[k])
  {
    for i := 0 to |s|
      invariant forall k :: 0 <= k < a.Length ==> a[k] == if off <= k < off + i then s[k - off] else old(a[k])
    {
      a[off + i] := s[i];
    }
  }

  // None is struct.error: a fork length that does not fit 32 bits.
  method Encode(f: File) returns (r: Option<seq<byte>>)
    ensures r == if |f.data| < FORK_LIMIT && |f.rsrc| < FORK_LIMIT then Some(Image(f)) else None
  {
    hide Crc16, ToBytes, OsType, NameOf, Image, Fork;
    if |f.data| >= FORK_LIMIT || |f.rsrc| >= FORK_LIMIT {
      return None;
    }
    var name := NameOf(f.name);
    var header := new byte[128](k => 0);
    WriteAt(header, 1, [|name|]);
    WriteAt(header, 2, name);
    WriteAt(header, 65, OsType(f.kind));
    WriteAt(header, 69, OsType(f.creator));
    WriteAt(header, 73, [f.flags / 256 % 256]);
    WriteAt(header, 83, ToBytes(|f.data|, 4));
    WriteAt(header, 87, ToBytes(|f.rsrc|, 4));
    WriteAt(header, 101, [f.flags % 256]);
    WriteAt(header, 122, [129, 129]);
    assert header[..124] == Covered(f);
    var crc := Crc16Ccitt(header[..124]);
    WriteAt(header, 124, ToBytes(crc, 2));
    assert header[..] == Header(f);
    var image := header[..];
    image := image + f.data;
    image := image + Zeroes(Padded(|f.data|) - |f.data|);
    image := image + f.rsrc;
    image := image + Zeroes(Padded(|f.rsrc|) - |f.rsrc|);
    Pieces(f);
    r := Some(image);
  }

  lemma Pieces(f: File)
    ensures Image(f)
            == Header(f) + f.data + Zeroes(Padded(|f.data|) - |f.data|) + f.rsrc + Zeroes(Padded(|f.rsrc|) - |f.rsrc|)
  {
  }

  function Long(s: seq<byte>, at: nat): nat
    requires at + 4 <= |s|
  {
    FromBytes(Slice(s, at, at + 4))
  }

  predicate LooksLikeMacBinary(blob: seq<byte>) {
    && |blob| >= 128
    && blob[0] == 0 && blob[74] == 0 && blob[82] == 0
    && 1 <= blob[1] <= 63
    && 128 + Padded(Long(blob, 83)) + Padded(Long(blob, 87)) <= |blob| + 128
    && (blob[122] >= 129 ==> Crc16(Slice(blob, 0, 124)) == 256 * blob[124] as int + blob[125])
  }

  // None is ValueError.
  function Decode(blob: seq<byte>): Option<File> {
    if !LooksLikeMacBinary(blob) then
      None
    else
      var n, m := Long(blob, 83), Long(blob, 87);
      var data, rsrc := Part(blob, 128, 128 + n), Part(blob, 128 + Padded(n), 128 + Padded(n) + m);
      if |data| != n || |rsrc| != m then None
      else Some(File(Slice(blob, 2, 2 + blob[1]), Slice(blob, 65, 69), Slice(blob, 69, 73),
                     256 * blob[73] as int + blob[101], data, rsrc))
  }

  // What survives the trip: the name cut to 63 bytes, four-byte type and creator, 16 bits of flags.
  function Normal(f: File): File {
    File(NameOf(f.name), OsType(f.kind), OsType(f.creator), f.flags % 65536, f.data, f.rsrc)
  }

  predicate Encodable(f: File) {
    |f.data| < FORK_LIMIT && |f.rsrc| < FORK_LIMIT
  }
}
