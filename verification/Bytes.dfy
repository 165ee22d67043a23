/** Bytes as bounded integers, and a few sequence facts. */
module Bytes {
  type byte = x: int | 0 <= x < 256

  lemma Assoc<T>(a: seq<T>, b: seq<T>, c: seq<T>)
    ensures (a + b) + c == a + (b + c)
  {
  }

  // s[a..b], as a call: proofs that only pass slices around can hide it.
  function Slice<T>(s: seq<T>, a: nat, b: nat): (r: seq<T>)
    requires a <= b <= |s|
    ensures |r| == b - a
  {
    s[a..b]
  }

  lemma SliceJoin<T>(s: seq<T>, a: nat, b: nat, c: nat)
    requires a <= b <= c <= |s|
    ensures Slice(s, a, b) + Slice(s, b, c) == Slice(s, a, c)
  {
  }

  // Cutting a known slice in two.
  lemma SliceSplit<T>(s: seq<T>, a: nat, x: seq<T>, y: seq<T>)
    requires a + |x| + |y| <= |s| && Slice(s, a, a + |x| + |y|) == x + y
    ensures Slice(s, a, a + |x|) == x && Slice(s, a + |x|, a + |x| + |y|) == y
  {
    assert s[a..a + |x|] == s[a..a + |x| + |y|][..|x|];
    assert s[a + |x|..a + |x| + |y|] == s[a..a + |x| + |y|][|x|..];
  }

  lemma SliceNone<T>(s: seq<T>, a: nat)
    requires a <= |s|
    ensures Slice(s, a, a) == []
  {
  }

  // Python's s[a:b].
  function Part(s: seq<byte>, a: nat, b: nat): (r: seq<byte>)
    requires a <= b
    ensures b <= |s| ==> r == Slice(s, a, b)
    ensures |r| <= b - a && (|r| == b - a <==> a == b || b <= |s|)
  {
    if b <= |s| then Slice(s, a, b) else if a <= |s| then s[a..] else []
  }

  // All pieces, one behind the other.
  function Flat(pieces: seq<seq<byte>>): (r: seq<byte>) {
    if pieces == [] then [] else pieces[0] + Flat(pieces[1..])
  }

  // m stands at k in s.
  ghost predicate At(s: seq<byte>, m: seq<byte>, k: nat) {
    k + |m| <= |s| && s[k..k + |m|] == m
  }

  ghost predicate Occurs(s: seq<byte>, m: seq<byte>) {
    exists k: nat :: At(s, m, k)
  }

  // The bytes of an ASCII text.
  ghost predicate Spells(s: seq<byte>, text: string) {
    |s| == |text| && forall k :: 0 <= k < |s| ==> s[k] == text[k] as int < 128
  }

  /** Lines */

  predicate Eol(c: int) {
    c == 13 || c == 10
  }

  function FirstEol(s: seq<byte>): (k: nat)
    ensures k <= |s| && (k < |s| ==> Eol(s[k]))
    ensures forall j :: 0 <= j < k ==> !Eol(s[j])
  {
    if s == [] || Eol(s[0]) then 0 else 1 + FirstEol(s[1..])
  }

  // A text without CR or LF.
  ghost predicate OneLine(s: seq<byte>) {
    forall k :: 0 <= k < |s| ==> !Eol(s[k])
  }

  /** Powers */

  function Pow2(k: nat): (p: nat)
    ensures p >= 1
  {
    if k == 0 then 1 else 2 * Pow2(k - 1)
  }

  function Pow256(k: nat): nat {
    if k == 0 then 1 else 256 * Pow256(k - 1)
  }

  lemma {:induction false} Pow2Mono(m: nat, n: nat)
    requires m <= n
    ensures Pow2(m) <= Pow2(n)
  {
    if m < n {
      Pow2Mono(m, n - 1);
    }
  }
}
