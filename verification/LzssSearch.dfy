/** What a search through an ordered tree has seen when it ends, and where the greatest node of a subtree is. */
module LzssSearch {
  import opened Bytes
  import opened LzssTree
  import opened LzssKeys
  import opened LzssOrder

  ghost function Shallower(f: Forest, x: int): set<int>
    requires |f.rank| == N && 0 <= x < N
  {
    set q | 0 <= q < N && f.rank[q] < f.rank[x]
  }

  lemma Climb(f: Forest, text: seq<int>, x: int)
    requires Valid(f, text) && InTree(f, x) && !IsRoot(f.dad[x])
    ensures InTree(f, f.dad[x]) && Shallower(f, f.dad[x]) < Shallower(f, x)
    ensures text[f.dad[x]] == text[x] && (f.lson[f.dad[x]] == x || f.rson[f.dad[x]] == x)
  {
    assert Node(f, text, x);
    assert f.dad[x] in Shallower(f, x);
  }

  lemma ValidSizes(f: Forest, text: seq<int>)
    requires Valid(f, text)
    ensures Sized(f, text)
  {
  }

  lemma OrderedSizes(f: Forest, text: seq<int>, k: seq<int>, b: Bounds)
    requires Ordered(f, text, k, b)
    ensures Valid(f, text) && Sized(f, text) && Measured(k, b)
  {
  }

  // x is p or below it.
  ghost predicate Sub(f: Forest, text: seq<int>, x: int, p: int)
    requires Valid(f, text) && InTree(f, x)
    decreases Shallower(f, x)
  {
    x == p || (!IsRoot(f.dad[x]) && (Climb(f, text, x); Sub(f, text, f.dad[x], p)))
  }

  lemma SubStep(f: Forest, text: seq<int>, x: int, p: int)
    requires Valid(f, text) && InTree(f, x) && !IsRoot(f.dad[x]) && InTree(f, f.dad[x])
    ensures Sub(f, text, f.dad[x], p) ==> Sub(f, text, x, p)
    ensures Sub(f, text, x, p) && x != p ==> Sub(f, text, f.dad[x], p)
    ensures Sub(f, text, x, x)
  {
  }

  lemma SubRoot(f: Forest, text: seq<int>, x: int, p: int)
    requires Valid(f, text) && InTree(f, x) && IsRoot(f.dad[x])
    ensures Sub(f, text, x, p) <==> x == p
  {
  }

  // Below p is below one of its children.
  lemma {:induction false} SubChild(f: Forest, text: seq<int>, x: int, p: int)
    requires Valid(f, text) && InTree(f, x) && InTree(f, p) && Sub(f, text, x, p) && x != p
    ensures (f.lson[p] != NIL && Sub(f, text, x, f.lson[p])) || (f.rson[p] != NIL && Sub(f, text, x, f.rson[p]))
    decreases Shallower(f, x)
  {
    hide Sub, Valid;
    ValidSizes(f, text);
    if IsRoot(f.dad[x]) {
      SubRoot(f, text, x, p);
    } else {
      Climb(f, text, x);
      var d := f.dad[x];
      SubStep(f, text, x, p);
      if d == p {
        SubSelf(f, text, x);
      } else {
        SubChild(f, text, d, p);
        SubStep(f, text, x, f.lson[p]);
        SubStep(f, text, x, f.rson[p]);
      }
    }
  }

  lemma SubSelf(f: Forest, text: seq<int>, x: int)
    requires Valid(f, text) && InTree(f, x)
    ensures Sub(f, text, x, x)
  {
  }

  // Intervals nest.
  lemma {:induction false} SubBounds(f: Forest, text: seq<int>, k: seq<int>, b: Bounds, x: int, p: int)
    requires Ordered(f, text, k, b) && InTree(f, x) && InTree(f, p) && Sub(f, text, x, p)
    ensures b.lo[p] <= b.lo[x] < k[x] < b.hi[x] <= b.hi[p]
    decreases Shallower(f, x)
  {
    hide Sub, Valid, Distinct;
    ValidSizes(f, text);
    assert Exact(f, k, b, x);
    if x != p {
      if IsRoot(f.dad[x]) {
        SubRoot(f, text, x, p);
      } else {
        Climb(f, text, x);
        SubStep(f, text, x, p);
        SubBounds(f, text, k, b, f.dad[x], p);
      }
    }
  }

  // Every node is below the root of its first byte.
  lemma {:induction false} SubTop(f: Forest, text: seq<int>, x: int)
    requires Valid(f, text) && InTree(f, x) && 0 <= text[x] < 256
    ensures f.rson[N + 1 + text[x]] != NIL && Sub(f, text, x, f.rson[N + 1 + text[x]])
    decreases Shallower(f, x)
  {
    assert Node(f, text, x);
    hide Sub, Valid;
    if IsRoot(f.dad[x]) {
      SubSelf(f, text, x);
    } else {
      Climb(f, text, x);
      SubTop(f, text, f.dad[x]);
      SubStep(f, text, x, f.rson[N + 1 + text[x]]);
    }
  }

  /** A search for the text at r */

  // Nodes that the search can still meet at p, or that agree with r for at most n bytes.
  ghost predicate Seen(f: Forest, text: seq<byte>, r: int, n: int, p: int)
    requires Valid(f, text)
  {
    forall x :: InTree(f, x) && Agree(text, x, r, n + 1) ==> IsRoot(p) || Sub(f, text, x, p)
  }

  // No node agrees with r for more than n bytes.
  ghost predicate AtMost(f: Forest, text: seq<int>, r: int, n: int)
    requires |f.dad| == N + 1
  {
    forall x :: InTree(f, x) ==> !Agree(text, x, r, n + 1)
  }

  lemma AgreeFirst(text: seq<int>, x: int, r: int, n: int)
    requires n >= 0 && Agree(text, x, r, n + 1)
    ensures text[x] == text[r]
  {
  }

  lemma AgreeLess(text: seq<int>, x: int, r: int, m: int, n: int)
    requires m <= n && Agree(text, x, r, n)
    ensures Agree(text, x, r, m)
  {
  }

  lemma SeenAtRoot(f: Forest, text: seq<byte>, r: int, p: int)
    requires Valid(f, text) && IsRoot(p)
    ensures Seen(f, text, r, 0, p)
  {
  }

  // The first step: below the root of r's first byte are all that can agree.
  lemma SeenBelowRoot(f: Forest, text: seq<byte>, r: int, p: int)
    requires Valid(f, text) && |text| == N + F - 1 && 0 <= r < N && IsRoot(p) && text[r] == p - (N + 1)
    ensures if f.rson[p] == NIL then AtMost(f, text, r, 0) else Seen(f, text, r, 0, f.rson[p])
  {
    hide Sub, Valid;
    ValidSizes(f, text);
    forall x | InTree(f, x) && Agree(text, x, r, 1)
      ensures f.rson[p] != NIL && Sub(f, text, x, f.rson[p])
    {
      AgreeFirst(text, x, r, 0);
      SubTop(f, text, x);
    }
  }

  // One node that a step from p leaves behind.
  lemma LeftBehind(f: Forest, text: seq<byte>, b: Bounds, r: int, n: int, p: int, x: int)
    requires |text| == N + F - 1 && Ordered(f, text, Keys(text), b) && 0 <= r < N && 0 <= n < F
    requires InTree(f, p) && Keys(text)[p] != Keys(text)[r] && !Agree(text, p, r, n + 1)
    requires InTree(f, x) && Sub(f, text, x, p) && Agree(text, x, r, n + 1)
    ensures var child := if Keys(text)[r] > Keys(text)[p] then f.rson[p] else f.lson[p];
            child != NIL && Sub(f, text, x, child)
  {
    hide Sub, Valid, Agree, Keys, Distinct;
    ValidSizes(f, text);
    var k := Keys(text);
    assert x != p;
    SubChild(f, text, x, p);
    ChildSides(f, text, k, b, x, p);
    if Between(k[r], k[p], k[x]) {
      Sandwich(text, r, p, x, n);
    }
  }

  // A node below a child of p lies on that side of p.
  lemma ChildSides(f: Forest, text: seq<int>, k: seq<int>, b: Bounds, x: int, p: int)
    requires Ordered(f, text, k, b) && InTree(f, x) && InTree(f, p)
    ensures f.lson[p] != NIL && Sub(f, text, x, f.lson[p]) ==> k[x] < k[p]
    ensures f.rson[p] != NIL && Sub(f, text, x, f.rson[p]) ==> k[p] < k[x]
  {
    ValidSizes(f, text);
    assert Node(f, text, p);
    hide Sub, Valid, Distinct;
    if f.lson[p] != NIL && Sub(f, text, x, f.lson[p]) {
      SubBounds(f, text, k, b, x, f.lson[p]);
      assert Exact(f, k, b, f.lson[p]);
    }
    if f.rson[p] != NIL && Sub(f, text, x, f.rson[p]) {
      SubBounds(f, text, k, b, x, f.rson[p]);
      assert Exact(f, k, b, f.rson[p]);
    }
  }

  // The step from a node that has been compared.
  lemma SeenBelow(f: Forest, text: seq<byte>, b: Bounds, r: int, n: int, p: int)
    requires |text| == N + F - 1 && Ordered(f, text, Keys(text), b) && 0 <= r < N && 0 <= n < F
    requires InTree(f, p) && Keys(text)[p] != Keys(text)[r] && !Agree(text, p, r, n + 1) && Seen(f, text, r, n, p)
    ensures var child := if Keys(text)[r] > Keys(text)[p] then f.rson[p] else f.lson[p];
            if child == NIL then AtMost(f, text, r, n) else Seen(f, text, r, n, child)
  {
    hide Sub, Valid, Agree, Keys, Ordered;
    OrderedSizes(f, text, Keys(text), b);
    forall x | InTree(f, x) && Agree(text, x, r, n + 1)
      ensures var child := if Keys(text)[r] > Keys(text)[p] then f.rson[p] else f.lson[p];
              child != NIL && Sub(f, text, x, child)
    {
      LeftBehind(f, text, b, r, n, p, x);
    }
  }

  // Where a search stands: at a root, or at a node whose text has been compared with r's.
  ghost predicate Standing(f: Forest, text: seq<byte>, b: Bounds, r: int, n: int, p: int, right: bool) {
    && |text| == N + F - 1 && 0 <= r < N && 0 <= n < F
    && Ordered(f, text, Keys(text), b) && Seen(f, text, r, n, p)
    && if IsRoot(p) then right && text[r] == p - (N + 1) && n == 0
       else
         && InTree(f, p) && text[p] == text[r]
         && Keys(text)[p] != Keys(text)[r] && (right <==> Keys(text)[r] > Keys(text)[p])
         && b.lo[p] < Keys(text)[r] < b.hi[p] && !Agree(text, p, r, n + 1)
  }

  // The next node of the search, or the place where it ends.
  lemma Descend(f: Forest, text: seq<byte>, b: Bounds, r: int, n: int, p: int, right: bool)
    requires Standing(f, text, b, r, n, p, right)
    ensures Valid(f, text) && Measured(Keys(text), b) && (IsRoot(p) ==> right)
    ensures var child, k := if right then f.rson[p] else f.lson[p], Keys(text);
            && Low(k, b, p, right) < k[r] < High(k, b, p, right)
            && if child == NIL then AtMost(f, text, r, n)
               else InTree(f, child) && text[child] == text[r] && Seen(f, text, r, n, child)
                    && b.lo[child] < k[r] < b.hi[child]
  {
    hide Seen, Agree, Sub, Distinct, Keys;
    OrderedSizes(f, text, Keys(text), b);
    KeyBound(text, r);
    if IsRoot(p) {
      SeenBelowRoot(f, text, r, p);
    } else {
      SeenBelow(f, text, b, r, n, p);
    }
    ChildInterval(f, text, Keys(text), b, p, right);
  }

  lemma ChildInterval(f: Forest, text: seq<int>, k: seq<int>, b: Bounds, p: int, right: bool)
    requires Ordered(f, text, k, b) && (if IsRoot(p) then right else InTree(f, p))
    ensures var child := if right then f.rson[p] else f.lson[p];
            child != NIL ==>
              InTree(f, child) && text[child] == (if IsRoot(p) then p - (N + 1) else text[p])
              && b.lo[child] == Low(k, b, p, right) && b.hi[child] == High(k, b, p, right)
  {
    var child := if right then f.rson[p] else f.lson[p];
    if IsRoot(p) {
      assert Points(f, p, f.rson[p]);
    } else {
      assert Node(f, text, p);
    }
    if child != NIL {
      assert InTree(f, child) && Node(f, text, child);
      hide Valid, Distinct;
      assert Exact(f, k, b, child);
    }
  }

  // After the comparison at node p, which agrees with r for i bytes.
  lemma Stand(f: Forest, text: seq<byte>, b: Bounds, r: int, n: int, p: int, i: int, cmp: int)
    requires |text| == N + F - 1 && 0 <= r < N && 0 <= n < F
    requires Ordered(f, text, Keys(text), b) && Seen(f, text, r, n, p)
    requires InTree(f, p) && text[p] == text[r] && b.lo[p] < Keys(text)[r] < b.hi[p]
    requires 1 <= i < F && Agree(text, p, r, i) && cmp != 0 && cmp == text[r + i] as int - text[p + i] as int
    ensures Standing(f, text, b, r, if i > n then i else n, p, cmp >= 0)
  {
    hide Seen, Sub, Keys, Ordered;
    OrderedSizes(f, text, Keys(text), b);
    var m := if i > n then i else n;
    SeenMore(f, text, r, n, m, p);
    Differ(text, p, r, m + 1, i);
    if cmp > 0 {
      KeyLess(text, p, r, i);
    } else {
      assert Agree(text, r, p, i) by {
        Turned(text, p, r, i);
      }
      KeyLess(text, r, p, i);
    }
  }

  lemma Differ(text: seq<int>, p: int, r: int, n: int, i: int)
    requires |text| == N + F - 1 && 0 <= p < N && 0 <= r < N && 0 <= i < n <= F && text[p + i] != text[r + i]
    ensures !Agree(text, p, r, n)
  {
  }

  lemma Turned(text: seq<int>, p: int, r: int, n: int)
    requires Agree(text, p, r, n)
    ensures Agree(text, r, p, n)
  {
    forall j | r <= j < r + n
      ensures text[j] == text[j - r + p]
    {
      assert text[j - r + p] == text[j - r + p - p + r];
    }
  }

  // Whatever agrees for fewer than F bytes has another key.
  lemma AtMostDistinct(f: Forest, text: seq<byte>, r: int, n: int)
    requires |text| == N + F - 1 && 0 <= r < N && 0 <= n < F && |f.dad| == N + 1 && AtMost(f, text, r, n)
    ensures forall x :: InTree(f, x) ==> Keys(text)[x] != Keys(text)[r]
  {
    hide Keys, Agree;
    forall x | InTree(f, x)
      ensures Keys(text)[x] != Keys(text)[r]
    {
      KeyEqual(text, x, r);
      if Agree(text, x, r, F) {
        AgreeLess(text, x, r, n + 1, F);
      }
    }
  }

  lemma StandAtRoot(f: Forest, text: seq<byte>, b: Bounds, r: int, p: int)
    requires |text| == N + F - 1 && 0 <= r < N && Ordered(f, text, Keys(text), b) && IsRoot(p) && text[r] == p - (N + 1)
    ensures Standing(f, text, b, r, 0, p, true)
  {
    hide Sub, Keys;
    SeenAtRoot(f, text, r, p);
  }

  lemma SeenMore(f: Forest, text: seq<byte>, r: int, m: int, n: int, p: int)
    requires Valid(f, text) && Seen(f, text, r, m, p) && m <= n
    ensures Seen(f, text, r, n, p)
  {
    hide Sub, Valid;
    ValidSizes(f, text);
    forall x | InTree(f, x) && Agree(text, x, r, n + 1)
      ensures IsRoot(p) || Sub(f, text, x, p)
    {
      AgreeLess(text, x, r, m + 1, n + 1);
    }
  }

  /** The right spine of a left subtree */

  ghost predicate Spine(f: Forest, k: seq<int>, b: Bounds, p: int, spine: seq<int>)
    requires |f.lson| == N + 1 && |f.rson| == N + 257 && |f.dad| == N + 1 && Measured(k, b) && 0 <= p < N
  {
    && spine != [] && spine[0] == f.lson[p] && InTree(f, spine[|spine| - 1])
    && (forall i :: 0 <= i < |spine| ==> InTree(f, spine[i]) && k[spine[i]] <= k[spine[|spine| - 1]])
    && (forall i :: 0 <= i < |spine| - 1 ==> f.rson[spine[i]] == spine[i + 1])
    && b.lo[p] < k[spine[|spine| - 1]] && b.hi[spine[|spine| - 1]] == k[p]
  }

  lemma SpineStart(f: Forest, text: seq<int>, k: seq<int>, b: Bounds, p: int)
    requires Ordered(f, text, k, b) && InTree(f, p) && f.lson[p] != NIL
    ensures InTree(f, f.lson[p]) && Spine(f, k, b, p, [f.lson[p]])
  {
    assert Node(f, text, p);
    hide Valid, Distinct;
    assert Exact(f, k, b, f.lson[p]);
  }

  lemma SpineMore(f: Forest, text: seq<int>, k: seq<int>, b: Bounds, p: int, spine: seq<int>)
    requires Ordered(f, text, k, b) && InTree(f, p) && Spine(f, k, b, p, spine) && f.rson[spine[|spine| - 1]] != NIL
    ensures var next := f.rson[spine[|spine| - 1]];
            0 <= next < N && Spine(f, k, b, p, spine + [next])
  {
    var last := spine[|spine| - 1];
    assert Node(f, text, last);
    hide Valid, Distinct;
    var next := f.rson[last];
    assert InTree(f, next) && f.dad[next] == last && f.lson[last] != next;
    assert Exact(f, k, b, next);
    var more := spine + [next];
    forall i | 0 <= i < |more|
      ensures InTree(f, more[i]) && k[more[i]] <= k[next]
    {
      assert i < |spine| ==> more[i] == spine[i];
    }
    forall i | 0 <= i < |more| - 1
      ensures f.rson[more[i]] == more[i + 1]
    {
      assert more[i] == spine[i];
    }
  }

  // Whatever p bounds from above is on the spine.
  lemma {:induction false} OnSpine(f: Forest, text: seq<int>, k: seq<int>, b: Bounds, p: int, spine: seq<int>, x: int)
    requires Ordered(f, text, k, b) && InTree(f, p) && k[p] < TOP && Spine(f, k, b, p, spine)
    requires f.rson[spine[|spine| - 1]] == NIL
    requires InTree(f, x) && b.hi[x] == k[p]
    ensures x in spine
    decreases Shallower(f, x)
  {
    hide Valid;
    ValidSizes(f, text);
    assert Exact(f, k, b, x);
    if !IsRoot(f.dad[x]) {
      Climb(f, text, x);
      var d := f.dad[x];
      if f.lson[d] == x {
        assert d == p;
      } else {
        OnSpine(f, text, k, b, p, spine, d);
        var i :| 0 <= i < |spine| && spine[i] == d;
        assert i < |spine| - 1 ==> spine[i + 1] == x;
      }
    } else {
      RootDad(f, text, x);
    }
  }

  lemma RootDad(f: Forest, text: seq<int>, x: int)
    requires Valid(f, text) && InTree(f, x) && IsRoot(f.dad[x])
    ensures !(0 <= f.dad[x] < N)
  {
  }

  lemma SpineGreatest(f: Forest, text: seq<int>, k: seq<int>, b: Bounds, p: int, spine: seq<int>)
    requires Ordered(f, text, k, b) && InTree(f, p) && k[p] < TOP && Spine(f, k, b, p, spine)
    requires f.rson[spine[|spine| - 1]] == NIL
    ensures Greatest(f, k, b, p, spine[|spine| - 1])
  {
    hide Valid, Distinct;
    ValidSizes(f, text);
    var q := spine[|spine| - 1];
    assert InTree(f, q) && Exact(f, k, b, q);
    forall x | InTree(f, x) && b.hi[x] == k[p]
      ensures x == q || k[x] < k[q]
    {
      OnSpine(f, text, k, b, p, spine, x);
      DifferentKeys(f, text, k, b, x, q);
    }
  }

  lemma DifferentKeys(f: Forest, text: seq<int>, k: seq<int>, b: Bounds, x: int, q: int)
    requires Ordered(f, text, k, b) && InTree(f, x) && InTree(f, q)
    ensures x == q || k[x] != k[q]
  {
  }
}
