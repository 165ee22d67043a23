/** The F bytes at a text position as one number: comparing positions is comparing numbers. */
module LzssKeys {
  import opened Bytes
  import opened LzssTree

  // The text at p and the text at r agree for n bytes.
  ghost predicate Agree(text: seq<int>, p: int, r: int, n: int) {
    && 0 <= p < N && 0 <= r < N && n <= F && |text| == N + F - 1
    && forall j :: p <= j < p + n ==> text[j] == text[j - p + r]
  }

  // The first n bytes at p.
  function Val(text: seq<byte>, p: nat, n: nat): (v: nat)
    requires p + n <= |text|
  {
    if n == 0 then 0 else 256 * Val(text, p, n - 1) + text[p + n - 1]
  }

  const TOP: nat := Pow256(F)

  function Keys(text: seq<byte>): (k: seq<int>)
    requires |text| == N + F - 1
    ensures |k| == N
  {
    seq(N, p requires 0 <= p < N => Val(text, p, F))
  }

  lemma {:induction false} ValBound(text: seq<byte>, p: nat, n: nat)
    requires p + n <= |text|
    ensures Val(text, p, n) < Pow256(n)
  {
    if n > 0 {
      ValBound(text, p, n - 1);
    }
  }

  lemma ValStep(text: seq<byte>, p: nat, n: nat)
    requires p + n + 1 <= |text|
    ensures Val(text, p, n + 1) == 256 * Val(text, p, n) + text[p + n]
    ensures Val(text, p, 0) == 0
  {
  }

  lemma {:induction false} ValAgree(text: seq<byte>, p: nat, r: nat, n: nat)
    requires |text| == N + F - 1 && p < N && r < N && n <= F
    ensures Val(text, p, n) == Val(text, r, n) <==> Agree(text, p, r, n)
  {
    if n > 0 {
      hide Val;
      ValStep(text, p, n - 1);
      ValStep(text, r, n - 1);
      ValAgree(text, p, r, n - 1);
      assert Agree(text, p, r, n) <==> Agree(text, p, r, n - 1) && text[p + n - 1] == text[r + n - 1];
    } else {
      assert Val(text, p, 0) == 0 == Val(text, r, 0);
    }
  }

  // A larger number has no smaller beginning.
  lemma {:induction false} ValMono(text: seq<byte>, p: nat, r: nat, m: nat, n: nat)
    requires p + n <= |text| && r + n <= |text| && m <= n && Val(text, p, n) <= Val(text, r, n)
    ensures Val(text, p, m) <= Val(text, r, m)
    decreases n
  {
    if m < n {
      hide Val;
      ValStep(text, p, n - 1);
      ValStep(text, r, n - 1);
      ValMono(text, p, r, m, n - 1);
    }
  }

  // The first differing byte decides.
  lemma KeyLess(text: seq<byte>, p: nat, r: nat, n: nat)
    requires |text| == N + F - 1 && p < N && r < N && n < F
    requires Agree(text, p, r, n) && text[p + n] < text[r + n]
    ensures Keys(text)[p] < Keys(text)[r]
  {
    hide Val, Agree;
    ValAgree(text, p, r, n);
    ValStep(text, p, n);
    ValStep(text, r, n);
    if Val(text, p, F) >= Val(text, r, F) {
      ValMono(text, r, p, n + 1, F);
    }
  }

  lemma KeyEqual(text: seq<byte>, p: nat, r: nat)
    requires |text| == N + F - 1 && p < N && r < N
    ensures Keys(text)[p] == Keys(text)[r] <==> Agree(text, p, r, F)
  {
    ValAgree(text, p, r, F);
  }

  lemma KeyBound(text: seq<byte>, p: nat)
    requires |text| == N + F - 1 && p < N
    ensures 0 <= Keys(text)[p] < TOP
  {
    ValBound(text, p, F);
  }

  ghost predicate Between(a: int, b: int, c: int) {
    a < b < c || c < b < a
  }

  // What lies behind p agrees with r no longer than p does.
  lemma Sandwich(text: seq<byte>, r: nat, p: nat, x: nat, n: nat)
    requires |text| == N + F - 1 && p < N && r < N && x < N && n < F
    requires Between(Keys(text)[r], Keys(text)[p], Keys(text)[x]) && Agree(text, x, r, n + 1)
    ensures Agree(text, p, r, n + 1)
  {
    hide Val, Agree;
    ValAgree(text, x, r, n + 1);
    ValAgree(text, p, r, n + 1);
    if Keys(text)[r] < Keys(text)[p] {
      ValMono(text, r, p, n + 1, F);
      ValMono(text, p, x, n + 1, F);
    } else {
      ValMono(text, p, r, n + 1, F);
      ValMono(text, x, p, n + 1, F);
    }
  }

  // Keys depend on F bytes only.
  lemma {:induction false} ValSame(a: seq<byte>, b: seq<byte>, p: nat, n: nat)
    requires |a| == |b| && p + n <= |a| && forall j :: p <= j < p + n ==> a[j] == b[j]
    ensures Val(a, p, n) == Val(b, p, n)
  {
    if n > 0 {
      ValSame(a, b, p, n - 1);
    }
  }
}
