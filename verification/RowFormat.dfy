/** The row codecs' formats in numbers: PackBits control bytes, length prefixes, run headers and exclusive or. */
module RowFormat {
  import opened Bytes
  import opened Bits
  import opened RowCodec
  import Predictor
  import Delta
  import DeltaEncoder
  import PB = PackBits

  /** Exclusive or, bit by bit */

  function BitAt(n: nat, k: nat): nat {
    n / Pow2(k) % 2
  }

  lemma BitNext(n: nat, k: nat)
    ensures BitAt(n, 0) == n % 2 && BitAt(n, k + 1) == BitAt(n / 2, k)
  {
    Halves(n, Pow2(k));
  }

  lemma Halves(n: nat, p: nat)
    requires p > 0
    ensures n / (2 * p) == n / 2 / p
  {
    var q := n / 2 / p;
    assert n / 2 == q * p + n / 2 % p;
    assert n == 2 * (n / 2) + n % 2;
    var r := 2 * (n / 2 % p) + n % 2;
    assert n == q * (2 * p) + r;
    Unique(n, 2 * p, q, r);
  }

  lemma Unique(n: nat, d: nat, q: nat, r: nat)
    requires d > 0 && n == q * d + r && r < d
    ensures n / d == q
  {
    var k := n / d;
    if k < q {
      Scaled(k + 1, q, d);
    } else if k > q {
      Scaled(q + 1, k, d);
    }
  }

  lemma Scaled(a: nat, b: nat, d: nat)
    requires a <= b
    ensures a * d <= b * d
  {
  }

  // A bit of the result is set exactly when it is set in one of the two.
  lemma {:induction false} XorBits(a: nat, b: nat, k: nat)
    ensures BitAt(Xor(a, b), k) == (BitAt(a, k) + BitAt(b, k)) % 2
    decreases k
  {
    hide Xor;
    XorHalf(a, b);
    if k == 0 {
      BitNext(a, 0);
      BitNext(b, 0);
      BitNext(Xor(a, b), 0);
    } else {
      BitNext(a, k - 1);
      BitNext(b, k - 1);
      BitNext(Xor(a, b), k - 1);
      XorBits(a / 2, b / 2, k - 1);
    }
  }

  // So it is for bytes, and for the rows of a frame and their prediction.
  lemma ByteXorBits(a: byte, b: byte, k: nat)
    ensures BitAt(ByteXor(a, b), k) == (BitAt(a, k) + BitAt(b, k)) % 2
  {
    XorBits(a, b, k);
  }

  lemma UpBits(f: seq<byte>, rb: nat, i: nat, k: nat)
    requires rb > 0 && i < |f|
    ensures i < rb ==> Predictor.Up(f, rb)[i] == f[i]
    ensures i >= rb ==> BitAt(Predictor.Up(f, rb)[i], k) == (BitAt(f[i], k) + BitAt(f[i - rb], k)) % 2
  {
    if i >= rb {
      ByteXorBits(f[i], f[i - rb], k);
    }
  }

  // A delta's byte: the old one with every bit turned that an odd number of runs has set.
  lemma DeltaBits(prev: seq<byte>, rb: nat, run: Delta.Run, i: nat, k: nat)
    requires i < |prev|
    ensures var now, at := Delta.Combined(prev, rb, [run]), run.y0 * rb;
            && (i < at || i >= at + |run.data| ==> now[i] == prev[i])
            && (at <= i < at + |run.data| ==>
                  BitAt(now[i], k) == (BitAt(prev[i], k) + BitAt(run.data[i - at], k)) % 2)
  {
    AreaProduct(run.y0, rb);
    assert [run][1..] == [];
    var d := Delta.Delivered(run, rb, i);
    ByteXorLaws(prev[i], 0, 0);
    ByteXorLaws(d, 0, 0);
    assert Delta.Total([run], rb, i) == d;
    ByteXorBits(prev[i], d, k);
  }

  /** PackBits control bytes */

  lemma Unpack(src: seq<byte>, off: nat, need: int)
    requires need > 0
    ensures off >= |src| ==> PB.Unpack(src, off, need) == PB.Err(PB.EndedEarly)
    ensures off < |src| && src[off] <= 127 ==>
              var n := src[off] + 1;
              PB.Unpack(src, off, need)
              == (if off + 1 + n > |src| then PB.Err(PB.LiteralOverrun)
                  else PB.Add(src[off + 1..off + 1 + n], PB.Unpack(src, off + 1 + n, need - n)))
    ensures off < |src| && src[off] == 128 ==> PB.Unpack(src, off, need) == PB.Unpack(src, off + 1, need)
    ensures off < |src| && src[off] >= 129 ==>
              var n := 257 - src[off] as int;
              PB.Unpack(src, off, need) == (if off + 1 >= |src| then PB.Err(PB.RepeatOverrun)
                                            else PB.Add(seq(n, _ => src[off + 1]), PB.Unpack(src, off + 2, need - n)))
  {
    NoBytes(PB.Unpack(src, off + 1, need));
    if off + 1 < |src| && src[off] >= 129 {
      assert PB.Times(257 - src[off] as int, src[off + 1]) == seq(257 - src[off] as int, _ => src[off + 1]);
    }
  }

  lemma NoBytes(r: PB.Result)
    ensures PB.Add([], r) == r
  {
    if r.Ok? {
      assert [] + r.row == r.row;
    }
  }

  // The row that is wanted is complete when nothing more is needed, and too long when less than nothing is.
  lemma UnpackEnds(src: seq<byte>, off: nat)
    ensures PB.Unpack(src, off, 0) == PB.Ok([], off)
    ensures forall need: int :: need < 0 ==> PB.Unpack(src, off, need) == PB.Err(PB.WrongLength)
  {
  }

  /** Numbers of two bytes, the high one first */

  lemma Prefixes(pb: seq<byte> -> seq<byte>, row: seq<byte>)
    requires Packer(pb) && |row| < 0x4000
    ensures var p := Packed(pb, row);
            |p| == 2 + |pb(row)| && 256 * p[0] as int + p[1] == |pb(row)| && p[2..] == pb(row)
  {
    hide Packer, PB.IsPacked;
    PackerPacks(pb, row);
  }

  // One row is read behind such a prefix, and must take all of what it says.
  lemma OneRowMeans(payload: seq<byte>, off: nat, rb: nat)
    ensures OneRow(payload, off, rb)
         == if off + 2 > |payload| then Err(PrefixMissing)
            else
              var n := 256 * payload[off] as int + payload[off + 1];
              if off + 2 + n > |payload| then Err(RowOverrun)
              else
                var u := PB.Unpack(payload[off + 2..off + 2 + n], 0, rb);
                match u
                case Err(e) => Err(BadRow(e))
                case Ok(row, end) => if end < n || end > n then Err(TrailingBytes) else Ok(row, off + 2 + n)
  {
  }

  // A run is read behind two of them: its first row and the number of its rows.
  lemma RunHeader(payload: seq<byte>, off: nat, rb: nat)
    ensures Delta.OneRun(payload, off, rb)
         == if off + 4 > |payload| then Delta.Bad(Delta.HeaderTruncated)
            else
              var y0 := 256 * payload[off] as int + payload[off + 1];
              var n := 256 * payload[off + 2] as int + payload[off + 3];
              match Unpacked(payload, off + 4, n, rb)
              case Err(e) => Delta.Bad(Delta.BadRows(e))
              case Ok(data, end) => Delta.Got(Delta.Run(y0, data), end)
  {
    hide Unpacked;
  }

  lemma RunNumbers(n: nat)
    requires n < 65536
    ensures var s := DeltaEncoder.TwoBytes(n); |s| == 2 && 256 * s[0] as int + s[1] == n
  {
  }

  // Raw rows are the payload's first bytes.
  lemma RawMeans(payload: seq<byte>, rows: nat, rb: nat)
    ensures Predictor.Decode(0, payload, rows, rb)
         == if |payload| < rows * rb then Predictor.ShortRaw else Predictor.Pixels(payload[..rows * rb])
    ensures forall enc: int :: enc < 0 || enc == 2 || enc > 3 ==>
              Predictor.Decode(enc, payload, rows, rb) == Predictor.Unsupported
  {
    AreaProduct(rows, rb);
  }
}
