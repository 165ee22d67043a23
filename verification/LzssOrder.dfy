/**
 The order of the search trees: every node has the interval of keys that a search must bring to reach it.

 The interval of a root's child is everything; a left child's ends at its parent's key and a right child's starts
 there.  As before, every condition is local to a node and its parent.
 */
module LzssOrder {
  import opened LzssTree
  import opened LzssKeys

  datatype Bounds = Bounds(lo: seq<int>, hi: seq<int>)

  ghost predicate Measured(k: seq<int>, b: Bounds) {
    |k| == N && |b.lo| == N && |b.hi| == N
  }

  // The interval of node x, from its parent's.
  ghost predicate Exact(f: Forest, k: seq<int>, b: Bounds, x: int)
    requires |f.lson| == N + 1 && |f.dad| == N + 1 && Measured(k, b) && 0 <= x < N
  {
    var d := f.dad[x];
    && b.lo[x] < k[x] < b.hi[x]
    && if !(0 <= d < N) then b.lo[x] == -1 && b.hi[x] == TOP
       else if f.lson[d] == x then b.lo[x] == b.lo[d] && b.hi[x] == k[d]
       else b.lo[x] == k[d] && b.hi[x] == b.hi[d]
  }

  ghost predicate Distinct(f: Forest, k: seq<int>)
    requires |f.dad| == N + 1 && |k| == N
  {
    forall x, y :: InTree(f, x) && InTree(f, y) && k[x] == k[y] ==> x == y
  }

  ghost predicate Ordered(f: Forest, text: seq<int>, k: seq<int>, b: Bounds) {
    && Valid(f, text) && Measured(k, b) && Distinct(f, k)
    && forall x :: InTree(f, x) ==> Exact(f, k, b, x)
  }

  /** Insertion */

  // The interval of a child of p.
  function Low(k: seq<int>, b: Bounds, p: int, right: bool): int
    requires Measured(k, b) && (IsRoot(p) || 0 <= p < N)
  {
    if IsRoot(p) then -1 else if right then k[p] else b.lo[p]
  }

  function High(k: seq<int>, b: Bounds, p: int, right: bool): int
    requires Measured(k, b) && (IsRoot(p) || 0 <= p < N)
  {
    if IsRoot(p) then TOP else if right then b.hi[p] else k[p]
  }

  lemma AttachedOrder(f: Forest, text: seq<int>, k: seq<int>, b: Bounds, p: int, r: int, right: bool, g: Forest,
                      c: Bounds)
    requires Ordered(f, text, k, b) && Valid(g, text) && 0 <= r < N && !InTree(f, r)
    requires if IsRoot(p) then right else InTree(f, p)
    requires (if right then f.rson[p] else f.lson[p]) == NIL
    requires Attached(f, p, r, right, g)
    requires forall x :: InTree(f, x) ==> k[x] != k[r]
    requires Low(k, b, p, right) < k[r] < High(k, b, p, right)
    requires c == Bounds(b.lo[r := Low(k, b, p, right)], b.hi[r := High(k, b, p, right)])
    ensures Ordered(g, text, k, c)
  {
    forall x | InTree(g, x)
      ensures Exact(g, k, c, x)
    {
      if x == r {
        assert Exact(g, k, c, r);
      } else {
        assert InTree(f, x) && Node(f, text, x);
        AttachedExact(f, text, k, b, p, r, right, g, c, x);
      }
    }
  }

  lemma AttachedExact(f: Forest, text: seq<int>, k: seq<int>, b: Bounds, p: int, r: int, right: bool, g: Forest,
                      c: Bounds, x: int)
    requires Sized(f, text) && Sized(g, text) && Measured(k, b) && Measured(k, c)
    requires 0 <= r < N && !InTree(f, r) && x != r && Node(f, text, x) && Exact(f, k, b, x)
    requires if IsRoot(p) then right else InTree(f, p)
    requires (if right then f.rson[p] else f.lson[p]) == NIL
    requires Attached(f, p, r, right, g)
    requires forall y :: 0 <= y < N && y != r ==> c.lo[y] == b.lo[y] && c.hi[y] == b.hi[y]
    ensures Exact(g, k, c, x)
  {
  }

  lemma ReplacedOrder(f: Forest, text: seq<int>, k: seq<int>, b: Bounds, p: int, r: int, g: Forest, c: Bounds)
    requires Ordered(f, text, k, b) && Valid(g, text) && InTree(f, p) && 0 <= r < N && !InTree(f, r) && k[r] == k[p]
    requires 0 <= f.dad[p] < N + 257 && Replaced(f, p, r, g)
    requires forall q :: InTree(g, q) <==> q != p && (q == r || InTree(f, q))
    requires c == Bounds(b.lo[r := b.lo[p]], b.hi[r := b.hi[p]])
    ensures Ordered(g, text, k, c)
  {
    assert Node(f, text, p);
    assert IsRoot(f.dad[p]) || Node(f, text, f.dad[p]);
    forall x | InTree(g, x)
      ensures Exact(g, k, c, x)
    {
      if x != r {
        assert InTree(f, x) && Node(f, text, x);
      }
      ReplacedExact(f, text, k, b, p, r, g, c, x);
    }
  }

  lemma ReplacedExact(f: Forest, text: seq<int>, k: seq<int>, b: Bounds, p: int, r: int, g: Forest, c: Bounds, x: int)
    requires Sized(f, text) && Sized(g, text) && Measured(k, b) && Measured(k, c) && 0 <= p < N && 0 <= x < N
    requires 0 <= r < N && !InTree(f, r) && k[r] == k[p] && x != p
    requires Node(f, text, p) && Exact(f, k, b, p) && (x == r || (Node(f, text, x) && Exact(f, k, b, x)))
    requires IsRoot(f.dad[p]) || Node(f, text, f.dad[p])
    requires 0 <= f.dad[p] < N + 257 && Replaced(f, p, r, g)
    requires forall y :: 0 <= y < N ==>
               c.lo[y] == b.lo[if y == r then p else y] && c.hi[y] == b.hi[if y == r then p else y]
    ensures Exact(g, k, c, x)
  {
    if x == r {
      assert g.dad[r] == f.dad[p];
    } else if f.dad[x] == p {
      assert g.dad[x] == r;
    } else {
      assert g.dad[x] == f.dad[x];
    }
  }

  /** Deletion */

  // v with one value for another.
  function Moved(v: int, from: int, to: int): int {
    if v == from then to else v
  }

  // p has no right child (or no left one): what was bounded by p is bounded as p was.
  ghost predicate Widened(b: Bounds, kp: int, lo: int, hi: int, c: Bounds) {
    && |b.lo| == N == |c.lo| && |b.hi| == N == |c.hi|
    && forall y :: 0 <= y < N ==> c.lo[y] == Moved(b.lo[y], kp, lo) && c.hi[y] == Moved(b.hi[y], kp, hi)
  }

  ghost function WidenedBounds(b: Bounds, kp: int, lo: int, hi: int): (c: Bounds)
    requires |b.lo| == N == |b.hi|
    ensures Widened(b, kp, lo, hi, c)
  {
    Bounds(seq(N, y requires 0 <= y < N => Moved(b.lo[y], kp, lo)),
           seq(N, y requires 0 <= y < N => Moved(b.hi[y], kp, hi)))
  }

  lemma SplicedOrder(f: Forest, text: seq<int>, k: seq<int>, b: Bounds, p: int, q: int, g: Forest, c: Bounds)
    requires Ordered(f, text, k, b) && Valid(g, text) && InTree(f, p)
    requires (f.rson[p] == NIL && q == f.lson[p]) || (f.lson[p] == NIL && q == f.rson[p])
    requires 0 <= f.dad[p] < N + 257 && Spliced(f, p, q, g)
    requires forall x :: InTree(g, x) <==> x != p && InTree(f, x)
    requires 0 <= k[p] < TOP && Widened(b, k[p], b.lo[p], b.hi[p], c)
    ensures Ordered(g, text, k, c)
  {
    assert Node(f, text, p);
    assert IsRoot(f.dad[p]) || (Node(f, text, f.dad[p]) && k[f.dad[p]] != k[p]);
    forall x | InTree(g, x)
      ensures Exact(g, k, c, x)
    {
      assert InTree(f, x) && Node(f, text, x);
      if !IsRoot(f.dad[x]) {
        assert InTree(f, f.dad[x]) && k[f.dad[x]] == k[p] ==> f.dad[x] == p;
      }
      SplicedExact(f, text, k, b, p, q, g, c, x);
    }
  }

  lemma SplicedExact(f: Forest, text: seq<int>, k: seq<int>, b: Bounds, p: int, q: int, g: Forest, c: Bounds, x: int)
    requires Sized(f, text) && Sized(g, text) && Measured(k, b) && Measured(k, c)
    requires x != p && Node(f, text, p) && Exact(f, k, b, p) && Node(f, text, x) && Exact(f, k, b, x)
    requires (f.rson[p] == NIL && q == f.lson[p]) || (f.lson[p] == NIL && q == f.rson[p])
    requires 0 <= f.dad[p] < N + 257 && Spliced(f, p, q, g)
    requires !IsRoot(f.dad[x]) && k[f.dad[x]] == k[p] ==> f.dad[x] == p
    requires IsRoot(f.dad[p]) || (Node(f, text, f.dad[p]) && k[f.dad[p]] != k[p])
    requires 0 <= k[p] < TOP && Widened(b, k[p], b.lo[p], b.hi[p], c)
    ensures Exact(g, k, c, x)
  {
    if x == q {
      assert g.dad[q] == f.dad[p];
    } else {
      assert g.dad[x] == f.dad[x];
    }
  }

  // q is the greatest node of p's left subtree.
  ghost predicate Greatest(f: Forest, k: seq<int>, b: Bounds, p: int, q: int)
    requires |f.dad| == N + 1 && Measured(k, b) && 0 <= p < N && 0 <= q < N
  {
    && b.hi[q] == k[p] && b.lo[p] < k[q] < k[p]
    && forall x :: InTree(f, x) && b.hi[x] == k[p] ==> x == q || k[x] < k[q]
  }

  // q has p's interval; what was bounded by p is bounded by q.
  ghost predicate Inherited(k: seq<int>, b: Bounds, p: int, q: int, c: Bounds)
    requires |k| == N && 0 <= p < N && 0 <= q < N
  {
    && |b.lo| == N == |c.lo| && |b.hi| == N == |c.hi|
    && c.lo[q] == b.lo[p] && c.hi[q] == b.hi[p]
    && forall y :: 0 <= y < N && y != q ==>
         c.lo[y] == Moved(b.lo[y], k[p], k[q]) && c.hi[y] == Moved(b.hi[y], k[p], k[q])
  }

  ghost function InheritedBounds(k: seq<int>, b: Bounds, p: int, q: int): (c: Bounds)
    requires Measured(k, b) && 0 <= p < N && 0 <= q < N
    ensures Inherited(k, b, p, q, c)
  {
    Bounds(seq(N, y requires 0 <= y < N => if y == q then b.lo[p] else Moved(b.lo[y], k[p], k[q])),
           seq(N, y requires 0 <= y < N => if y == q then b.hi[p] else Moved(b.hi[y], k[p], k[q])))
  }

  // What the cases know of p, q, their neighbours, and node x.
  ghost predicate Setting(f: Forest, text: seq<int>, k: seq<int>, b: Bounds, p: int, q: int, g: Forest, c: Bounds,
                          x: int) {
    && Promotion(f, text, p, q, g) && Measured(k, b) && Measured(k, c) && Inherited(k, b, p, q, c)
    && Exact(f, k, b, p) && Exact(f, k, b, q) && 0 <= k[p] < TOP && 0 <= k[q]
    && b.hi[q] == k[p] && b.lo[p] < k[q] < k[p]
    && (IsRoot(f.dad[p]) || (Exact(f, k, b, f.dad[p]) && k[f.dad[p]] != k[p]))
    && (q != f.lson[p] ==> Exact(f, k, b, f.dad[q]) && k[f.dad[q]] != k[p])
    && x != p && Node(f, text, x) && Exact(f, k, b, x) && (b.hi[x] == k[p] ==> x == q || k[x] < k[q])
    && (IsRoot(f.dad[x]) || f.dad[x] == p || k[f.dad[x]] != k[p])
  }

  lemma PromotedExactSelf(f: Forest, text: seq<int>, k: seq<int>, b: Bounds, p: int, q: int, g: Forest, c: Bounds)
    requires Setting(f, text, k, b, p, q, g, c, q)
    ensures Exact(g, k, c, q)
  {
    assert g.dad[q] == f.dad[p];
  }

  lemma PromotedExactChild(f: Forest, text: seq<int>, k: seq<int>, b: Bounds, p: int, q: int, g: Forest, c: Bounds,
                           x: int)
    requires Setting(f, text, k, b, p, q, g, c, x) && x != q && f.dad[x] == p
    ensures Exact(g, k, c, x)
  {
    assert g.dad[x] == q;
  }

  lemma PromotedExactOrphan(f: Forest, text: seq<int>, k: seq<int>, b: Bounds, p: int, q: int, g: Forest, c: Bounds,
                            x: int)
    requires Setting(f, text, k, b, p, q, g, c, x) && x != q && f.dad[x] == q
    ensures Exact(g, k, c, x)
  {
    assert x == f.lson[q];
    if q == f.lson[p] {
      assert g.dad[x] == q;
    } else {
      assert g.dad[x] == f.dad[q];
    }
  }

  lemma PromotedExactOther(f: Forest, text: seq<int>, k: seq<int>, b: Bounds, p: int, q: int, g: Forest, c: Bounds,
                           x: int)
    requires Setting(f, text, k, b, p, q, g, c, x) && x != q && f.dad[x] != p && f.dad[x] != q
    ensures Exact(g, k, c, x)
  {
    assert g.dad[x] == f.dad[x];
  }

  lemma PromotedOrder(f: Forest, text: seq<int>, k: seq<int>, b: Bounds, p: int, q: int, g: Forest, c: Bounds)
    requires Ordered(f, text, k, b) && Valid(g, text) && InTree(f, p)
    requires f.lson[p] != NIL && f.rson[p] != NIL && Predecessor(f, text, p, q) && f.rson[q] == NIL
    requires 0 <= f.dad[p] < N + 257 && Promoted(f, p, q, g)
    requires forall x :: InTree(g, x) <==> x != p && InTree(f, x)
    requires 0 <= k[p] < TOP && 0 <= k[q] && Greatest(f, k, b, p, q) && Inherited(k, b, p, q, c)
    ensures Ordered(g, text, k, c)
  {
    forall x | InTree(g, x)
      ensures Exact(g, k, c, x)
    {
      SettingAll(f, text, k, b, p, q, g, c, x);
      if x == q {
        PromotedExactSelf(f, text, k, b, p, q, g, c);
      } else if f.dad[x] == p {
        PromotedExactChild(f, text, k, b, p, q, g, c, x);
      } else if f.dad[x] == q {
        PromotedExactOrphan(f, text, k, b, p, q, g, c, x);
      } else {
        PromotedExactOther(f, text, k, b, p, q, g, c, x);
      }
    }
  }

  lemma SettingAll(f: Forest, text: seq<int>, k: seq<int>, b: Bounds, p: int, q: int, g: Forest, c: Bounds, x: int)
    requires Ordered(f, text, k, b) && Sized(g, text) && InTree(f, p)
    requires f.lson[p] != NIL && f.rson[p] != NIL && Predecessor(f, text, p, q) && f.rson[q] == NIL
    requires 0 <= f.dad[p] < N + 257 && Promoted(f, p, q, g)
    requires x != p && InTree(f, x)
    requires 0 <= k[p] < TOP && 0 <= k[q] && Greatest(f, k, b, p, q) && Inherited(k, b, p, q, c)
    ensures Setting(f, text, k, b, p, q, g, c, x)
  {
    assert Node(f, text, p) && Node(f, text, q) && Node(f, text, x);
    assert Node(f, text, f.lson[p]) && Node(f, text, f.rson[p]);
    assert IsRoot(f.dad[p]) || Node(f, text, f.dad[p]);
  }
}
