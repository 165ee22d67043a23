/** Every item the encoder chooses is the longest that the source bytes in its window offer. */
module LzssGreedy {
  import opened Bytes
  import opened LzssTree
  import opened LzssKeys
  import opened LzssOrder
  import opened LzssSearch
  import opened LzssFormat
  import opened LzssWindow

  // The ring position of the next byte to code.
  function Head(e: nat): int {
    (N - F + e) % N
  }

  // Every node lies at most `far` positions after the oldest byte.
  ghost predicate Near(f: Forest, e: nat, far: int)
    requires |f.dad| == N + 1
  {
    forall q :: InTree(f, q) ==> Offset(q, e) <= far
  }

  // A node with the text of source position a that will not leave the window before a does.
  ghost predicate Held(f: Forest, k: seq<int>, e: nat, a: int)
    requires |f.dad| == N + 1 && |k| == N
  {
    exists q :: InTree(f, q) && Offset(q, e) >= a - e && k[q] == k[a % N]
  }

  // Every source position up to e + far has one; the spaces in front of the source need not.
  ghost predicate Holds(f: Forest, k: seq<int>, e: nat, far: int)
    requires |f.dad| == N + 1 && |k| == N
  {
    forall a :: e <= a <= e + far && N - F <= a ==> Held(f, k, e, a)
  }

  ghost predicate Within(f: Forest, k: seq<int>, e: nat, far: int) {
    |f.dad| == N + 1 && |k| == N && Near(f, e, far) && Holds(f, k, e, far)
  }

  lemma WithinStart(f: Forest, k: seq<int>)
    requires |f.dad| == N + 1 && |k| == N && forall q :: InTree(f, q) ==> q < N - F
    ensures Within(f, k, 0, N - F - 1)
  {
  }

  lemma Retired(f: Forest, g: Forest, k: seq<int>, e: nat)
    requires Within(f, k, e, N - F) && |g.dad| == N + 1
    requires forall q :: InTree(g, q) <==> q != e % N && InTree(f, q)
    ensures Within(g, k, e + 1, N - F - 1)
  {
    forall q | InTree(g, q)
      ensures Offset(q, e + 1) <= N - F - 1
    {
      OffsetStep(q, e);
    }
    var next := e + 1;
    forall a | e + 1 <= a <= e + N - F && N - F <= a
      ensures Held(g, k, next, a)
    {
      assert Held(f, k, e, a);
      var q :| InTree(f, q) && Offset(q, e) >= a - e && k[q] == k[a % N];
      OffsetOf(e, e);
      OffsetStep(q, e);
      assert InTree(g, q);
    }
  }

  lemma Entered(f: Forest, g: Forest, k: seq<int>, e: nat, replaced: int)
    requires Within(f, k, e, N - F - 1) && |g.dad| == N + 1
    requires forall q :: InTree(g, q) <==> q == Head(e) || (InTree(f, q) && q != replaced)
    requires 0 <= replaced < N ==> k[replaced] == k[Head(e)]
    ensures Within(g, k, e, N - F)
  {
    OffsetOf(N - F + e, e);
    assert InTree(g, Head(e));
    forall a | e <= a <= e + N - F && N - F <= a
      ensures Held(g, k, e, a)
    {
      if a < e + N - F {
        assert Held(f, k, e, a);
        var q :| InTree(f, q) && Offset(q, e) >= a - e && k[q] == k[a % N];
        assert q == replaced || InTree(g, q);
      }
    }
  }

  // Text written at the place that has just left the window is no node's text.
  lemma KeyStays(text: seq<byte>, next: seq<byte>, e: nat, p: int)
    requires |text| == N + F - 1 == |next| && 0 <= p < N && Offset(p, e + 1) <= N - F - 1
    requires forall j :: 0 <= j < |text| && j != e % N && j != e % N + N ==> next[j] == text[j]
    ensures Keys(next)[p] == Keys(text)[p] && next[p] == text[p]
  {
    OffsetPosition(p, e + 1);
    Away(p, e);
    ValSame(text, next, p, F);
  }

  lemma Away(p: int, e: nat)
    requires 0 <= p < N && Offset(p, e + 1) <= N - F - 1
    ensures !(p <= e % N < p + F) && !(p <= e % N + N < p + F)
  {
  }

  // The trees and what they hold, after text is written there.
  lemma Stored(f: Forest, text: seq<byte>, next: seq<byte>, b: Bounds, e: nat)
    requires |text| == N + F - 1 == |next| && Ordered(f, text, Keys(text), b) && |f.dad| == N + 1
    requires Within(f, Keys(text), e + 1, N - F - 1)
    requires forall j :: 0 <= j < |text| && j != e % N && j != e % N + N ==> next[j] == text[j]
    ensures Ordered(f, next, Keys(next), b) && Within(f, Keys(next), e + 1, N - F - 1)
  {
    hide Keys;
    forall q | InTree(f, q)
      ensures Keys(next)[q] == Keys(text)[q] && next[q] == text[q]
    {
      KeyStays(text, next, e, q);
    }
    forall a | e + 1 <= a <= e + N - F
      ensures Keys(next)[a % N] == Keys(text)[a % N]
    {
      OffsetOf(a, e + 1);
      KeyStays(text, next, e, a % N);
    }
    OrderedMoved(f, text, next, Keys(text), Keys(next), b);
    HoldsMoved(f, Keys(text), Keys(next), e + 1);
  }

  lemma OrderedMoved(f: Forest, text: seq<int>, next: seq<int>, k: seq<int>, m: seq<int>, b: Bounds)
    requires Ordered(f, text, k, b) && |m| == N && |next| >= N
    requires forall q :: InTree(f, q) ==> m[q] == k[q] && next[q] == text[q]
    ensures Ordered(f, next, m, b)
  {
    TextWrite(f, text, next);
    forall x | InTree(f, x)
      ensures Exact(f, m, b, x)
    {
      assert Exact(f, k, b, x) && Node(f, text, x);
    }
  }

  lemma HoldsMoved(f: Forest, k: seq<int>, m: seq<int>, e: nat)
    requires Within(f, k, e, N - F - 1) && |m| == N
    requires forall q :: InTree(f, q) ==> m[q] == k[q]
    requires forall a :: e <= a <= e + N - F - 1 ==> m[a % N] == k[a % N]
    ensures Within(f, m, e, N - F - 1)
  {
    forall a | e <= a <= e + N - F - 1 && N - F <= a
      ensures Held(f, m, e, a)
    {
      assert Held(f, k, e, a);
      var q :| InTree(f, q) && Offset(q, e) >= a - e && k[q] == k[a % N];
      assert m[q] == k[q] && m[a % N] == k[a % N];
    }
  }

  // No source position in the window agrees with the head for more than n bytes.
  ghost predicate Longest(text: seq<int>, e: nat, n: int) {
    n < F ==> forall a :: e <= a < N - F + e && N - F <= a ==> !Agree(text, a % N, Head(e), n + 1)
  }

  lemma LongestFound(f: Forest, text: seq<byte>, e: nat, n: nat)
    requires |text| == N + F - 1 && |f.dad| == N + 1 && n <= F
    requires Within(f, Keys(text), e, N - F - 1) && (n < F ==> AtMost(f, text, Head(e), n))
    ensures Longest(text, e, n)
  {
    hide Keys, Agree;
    forall a | n < F && e <= a < N - F + e && N - F <= a
      ensures !Agree(text, a % N, Head(e), n + 1)
    {
      assert Held(f, Keys(text), e, a);
      var q :| InTree(f, q) && Offset(q, e) >= a - e && Keys(text)[q] == Keys(text)[a % N];
      KeyEqual(text, q, a % N);
      SameAgreement(text, q, a % N, Head(e), n + 1);
    }
  }

  lemma SameAgreement(text: seq<byte>, q: int, p: int, r: int, n: int)
    requires Agree(text, q, p, F) && !Agree(text, q, r, n) && n <= F && 0 <= r < N
    ensures !Agree(text, p, r, n)
  {
    if n >= 0 {
      hide Agree, Val;
      AgreeLess(text, q, p, n, F);
      AgreeIn(text, q, p, F);
      ValAgree(text, q, p, n);
      ValAgree(text, q, r, n);
      ValAgree(text, p, r, n);
    }
  }

  lemma AgreeIn(text: seq<int>, p: int, r: int, n: int)
    requires Agree(text, p, r, n)
    ensures |text| == N + F - 1 && 0 <= p < N && 0 <= r < N
  {
  }

  /** The items */

  // What an item says about the longest match: at most two bytes for a literal.
  function MatchSize(t: Token): nat
    requires GoodToken(t)
  {
    if t.Literal? then THRESHOLD else t.len
  }

  function Size(t: Token): nat
    requires GoodToken(t)
  {
    if t.Literal? then 1 else t.len
  }

  // Source position a in the window before d starts a match of n bytes.
  ghost predicate Offers(src: seq<byte>, d: nat, a: int, n: int) {
    d <= a < N - F + d && N - F <= a && n <= F && Repeats(src, a, N - F + d - a, n)
  }

  // No source byte in the window before d starts a longer match, up to the F bytes that an item can name.
  ghost predicate Best(src: seq<byte>, t: Token, d: nat) {
    && GoodToken(t)
    && forall a, n :: Offers(src, d, a, n) ==> n <= MatchSize(t)
  }

  // The items cover d source bytes, each chosen as the longest where it stands.
  ghost predicate Parsed(src: seq<byte>, ts: seq<Token>, d: nat)
    decreases |ts|
  {
    if ts == [] then d == 0
    else
      var t := ts[|ts| - 1];
      GoodToken(t) && Size(t) <= d && Best(src, t, d - Size(t)) && Parsed(src, ts[..|ts| - 1], d - Size(t))
  }

  lemma ParsedNone(src: seq<byte>)
    ensures Parsed(src, [], 0)
  {
  }

  lemma ParsedNext(src: seq<byte>, ts: seq<Token>, t: Token, d: nat)
    requires Parsed(src, ts, d) && Best(src, t, d)
    ensures Parsed(src, ts + [t], d + Size(t))
  {
    hide Best;
    assert (ts + [t])[..|ts|] == ts;
    GoodBest(src, t, d);
  }

  lemma GoodBest(src: seq<byte>, t: Token, d: nat)
    requires Best(src, t, d)
    ensures GoodToken(t)
  {
  }

  // A repetition in the source is an agreement in the ring.
  lemma RepeatAgrees(src: seq<byte>, text: seq<byte>, e: nat, len: nat, a: int, n: nat)
    requires Window(text, src, e, e + len) && len <= F && n <= len && e <= a < N - F + e
    requires Repeats(src, a, N - F + e - a, n)
    ensures Agree(text, a % N, Head(e), n)
  {
    var p, r := a % N, Head(e);
    forall j | p <= j < p + n
      ensures text[j] == text[j - p + r]
    {
      var i := j - p;
      WindowRun(text, src, e, e + len, a, i);
      WindowRun(text, src, e, e + len, N - F + e, i);
      assert Text(src, a + i) == Text(src, a + i + (N - F + e - a));
    }
  }

  // A match of ml bytes, cut to the len bytes that are left, is the longest.
  lemma ChosenBest(src: seq<byte>, text: seq<byte>, e: nat, len: nat, found: nat, t: Token)
    requires Window(text, src, e, e + len) && 1 <= len <= F && e + len <= |src| && (e + len < |src| ==> len == F)
    requires Longest(text, e, found) && GoodToken(t)
    requires var ml := if found > len then len else found;
             if ml <= THRESHOLD then t.Literal? else t.Match? && t.len == ml
    ensures Best(src, t, e)
  {
    hide Agree, Window;
    forall a, n | Offers(src, e, a, n)
      ensures n <= MatchSize(t)
    {
      if n > 0 {
        RepeatsRoom(src, a, N - F + e - a, n);
        RepeatAgrees(src, text, e, len, a, n);
        if n > found {
          AgreeLess(text, a % N, Head(e), found + 1, n);
        }
      }
    }
  }

  lemma RepeatsRoom(src: seq<byte>, a: int, gap: int, n: int)
    requires Repeats(src, a, gap, n)
    ensures a + gap + n <= N - F + |src|
  {
  }

  // The code is that of items which cover the source, each the longest where it stands.
  ghost predicate Greedy(src: seq<byte>, code: seq<byte>) {
    exists ts :: GoodTokens(ts) && code == Serialize(ts) && Parsed(src, ts, |src|)
  }

  lemma GreedyCode(src: seq<byte>, ts: seq<Token>, code: seq<byte>)
    requires Parsed(src, ts, |src|) && Coded(src, ts, |src|) && code == Serialize(ts)
    ensures Greedy(src, code)
  {
    hide Parsed, Serialize;
  }
}
