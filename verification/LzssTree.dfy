/**
 The binary search trees of the LZSS encoder, seen as sequences.

 Text position p is a node when dad[p] is not NIL.  Entry N+1+c of rson is the root of the
 tree of the positions whose text starts with byte c.  Every condition is local to a node and
 its neighbours, so a change of links disturbs only a few of them.
 */
module LzssTree {
  const N: int := 4096
  const F: int := 18
  const THRESHOLD: int := 2
  const NIL: int := N

  // The link arrays, with a ghost rank that grows from every parent to its children.
  datatype Forest = Forest(lson: seq<int>, rson: seq<int>, dad: seq<int>, rank: seq<int>)

  ghost predicate Sized(f: Forest, text: seq<int>) {
    && |f.lson| == N + 1 && |f.rson| == N + 257 && |f.dad| == N + 1 && |f.rank| == N
    && |text| >= N
  }

  ghost predicate InTree(f: Forest, p: int)
    requires |f.dad| == N + 1
  {
    0 <= p < N && f.dad[p] != NIL
  }

  predicate IsRoot(p: int) {
    N + 1 <= p < N + 257
  }

  // The parent of node p is a root of p's first byte, or a node of smaller rank with that first byte.
  ghost predicate Hangs(f: Forest, text: seq<int>, p: int)
    requires Sized(f, text) && InTree(f, p)
  {
    var d := f.dad[p];
    if IsRoot(d) then f.rson[d] == p && text[p] == d - (N + 1)
    else
      && InTree(f, d)
      && (f.lson[d] == p || f.rson[d] == p)
      && text[p] == text[d] && f.rank[d] < f.rank[p]
  }

  // A child link of p is NIL or names a node whose parent is p.
  ghost predicate Points(f: Forest, p: int, child: int)
    requires |f.dad| == N + 1
  {
    child == NIL || (0 <= child < N && f.dad[child] == p)
  }

  ghost predicate Node(f: Forest, text: seq<int>, p: int)
    requires Sized(f, text)
  {
    && InTree(f, p) && Hangs(f, text, p)
    && Points(f, p, f.lson[p]) && Points(f, p, f.rson[p])
    && (f.lson[p] == f.rson[p] ==> f.lson[p] == NIL)
  }

  ghost predicate Valid(f: Forest, text: seq<int>) {
    && Sized(f, text)
    && (forall p :: InTree(f, p) ==> Node(f, text, p))
    && (forall c :: IsRoot(c) ==> Points(f, c, f.rson[c]))
  }

  // Only the first byte of each node matters, so text may be written anywhere else.
  lemma TextWrite(f: Forest, text: seq<int>, text': seq<int>)
    requires Valid(f, text) && |text'| >= N
    requires forall p :: InTree(f, p) ==> text'[p] == text[p]
    ensures Valid(f, text')
  {
    forall p | InTree(f, p) ensures Node(f, text', p) {
      assert Node(f, text, p);
    }
  }

  ghost predicate SameSize(f: Forest, g: Forest) {
    && |f.lson| == N + 1 == |g.lson| && |f.rson| == N + 257 == |g.rson|
    && |f.dad| == N + 1 == |g.dad| && |f.rank| == N == |g.rank|
  }

  // Entry i of rson and of lson once the link of d to p is redirected to q.
  function RightLink(f: Forest, p: int, d: int, q: int, i: int): int
    requires |f.rson| == N + 257 && 0 <= d < N + 257 && 0 <= i < N + 257
  {
    if i == d && f.rson[d] == p then q else f.rson[i]
  }

  function LeftLink(f: Forest, p: int, d: int, q: int, i: int): int
    requires |f.lson| == N + 1 && |f.rson| == N + 257 && 0 <= d < N + 257 && 0 <= i < N
  {
    if i == d && f.rson[d] != p then q else f.lson[i]
  }

  /** A new leaf r below p. */

  ghost predicate Attached(f: Forest, p: int, r: int, right: bool, g: Forest)
    requires SameSize(f, g)
  {
    && (forall i :: 0 <= i < N ==> g.dad[i] == if i == r then p else f.dad[i])
    && (forall i :: 0 <= i < N ==> g.lson[i] == if i == p && !right then r else f.lson[i])
    && (forall i :: 0 <= i < N + 257 ==> g.rson[i] == if i == p && right then r else f.rson[i])
    && (forall i :: 0 <= i < N ==> g.rank[i] == if i != r then f.rank[i] else if 0 <= p < N then f.rank[p] + 1 else 0)
  }

  lemma AttachedValid(f: Forest, text: seq<int>, p: int, r: int, right: bool, g: Forest)
    requires Valid(f, text) && Sized(g, text) && 0 <= r < N && !InTree(f, r)
    requires f.lson[r] == NIL && f.rson[r] == NIL
    requires if IsRoot(p) then right && text[r] == p - (N + 1) else InTree(f, p) && text[r] == text[p]
    requires (if right then f.rson[p] else f.lson[p]) == NIL
    requires Attached(f, p, r, right, g)
    ensures Valid(g, text)
  {
    forall q | InTree(g, q) ensures Node(g, text, q) {
      if q != r { assert InTree(f, q) && Node(f, text, q); }
      if !IsRoot(p) { assert Node(f, text, p); }
    }
    forall c | IsRoot(c) ensures Points(g, c, g.rson[c]) {
      assert Points(f, c, f.rson[c]);
    }
  }

  /** Node r in the place of node p: the tail of InsertNode, after a match of F bytes. */

  function ReplacedDad(f: Forest, p: int, r: int, i: int): int
    requires |f.lson| == N + 1 && |f.rson| == N + 257 && |f.dad| == N + 1 && 0 <= p < N && 0 <= i < N
  {
    if i == p then NIL
    else if i == r then f.dad[p]
    else if i == f.lson[p] || i == f.rson[p] then r
    else f.dad[i]
  }

  ghost predicate Replaced(f: Forest, p: int, r: int, g: Forest)
    requires SameSize(f, g) && 0 <= p < N && 0 <= f.dad[p] < N + 257
  {
    var d := f.dad[p];
    && (forall i :: 0 <= i < N ==> g.dad[i] == ReplacedDad(f, p, r, i))
    && (forall i :: 0 <= i < N ==> g.lson[i] == if i == r then f.lson[p] else LeftLink(f, p, d, r, i))
    && (forall i :: 0 <= i < N + 257 ==> g.rson[i] == if i == r then f.rson[p] else RightLink(f, p, d, r, i))
    && (forall i :: 0 <= i < N ==> g.rank[i] == if i == r then f.rank[p] else f.rank[i])
  }

  lemma ReplacedNode(f: Forest, text: seq<int>, p: int, r: int, g: Forest, x: int)
    requires Sized(f, text) && Sized(g, text)
    requires Node(f, text, p) && (IsRoot(f.dad[p]) || Node(f, text, f.dad[p]))
    requires 0 <= r < N && !InTree(f, r) && text[r] == text[p]
    requires Replaced(f, p, r, g)
    requires x != p && (x == r || Node(f, text, x))
    ensures Node(g, text, x)
  {
    if x == r {
    } else if x == f.dad[p] {
    } else {
    }
  }

  lemma ReplacedValid(f: Forest, text: seq<int>, p: int, r: int, g: Forest)
    requires Valid(f, text) && Sized(g, text) && InTree(f, p) && 0 <= r < N && !InTree(f, r)
    requires text[r] == text[p]
    requires 0 <= f.dad[p] < N + 257
    requires Replaced(f, p, r, g)
    ensures Valid(g, text)
    ensures forall q :: InTree(g, q) <==> q != p && (q == r || InTree(f, q))
  {
    assert Node(f, text, p);
    forall q | InTree(g, q) ensures Node(g, text, q) {
      assert q == r || InTree(f, q);
      ReplacedNode(f, text, p, r, g, q);
    }
    forall c | IsRoot(c) ensures Points(g, c, g.rson[c]) {
      assert Points(f, c, f.rson[c]);
    }
  }

  /** Node p removed, and q in its place: NIL or the only child of p. */

  ghost predicate Spliced(f: Forest, p: int, q: int, g: Forest)
    requires SameSize(f, g) && 0 <= p < N && 0 <= f.dad[p] < N + 257
  {
    var d := f.dad[p];
    && (forall i :: 0 <= i < N ==> g.dad[i] == if i == p then NIL else if i == q then d else f.dad[i])
    && (forall i :: 0 <= i < N ==> g.lson[i] == LeftLink(f, p, d, q, i))
    && (forall i :: 0 <= i < N + 257 ==> g.rson[i] == RightLink(f, p, d, q, i))
    && g.rank == f.rank
  }

  lemma SplicedNode(f: Forest, text: seq<int>, p: int, q: int, g: Forest, x: int)
    requires Sized(f, text) && Sized(g, text)
    requires Node(f, text, p) && (IsRoot(f.dad[p]) || Node(f, text, f.dad[p]))
    requires (f.rson[p] == NIL && q == f.lson[p]) || (f.lson[p] == NIL && q == f.rson[p])
    requires Spliced(f, p, q, g)
    requires x != p && Node(f, text, x)
    ensures Node(g, text, x)
  {
  }

  lemma SplicedValid(f: Forest, text: seq<int>, p: int, q: int, g: Forest)
    requires Valid(f, text) && Sized(g, text) && InTree(f, p)
    requires (f.rson[p] == NIL && q == f.lson[p]) || (f.lson[p] == NIL && q == f.rson[p])
    requires 0 <= f.dad[p] < N + 257
    requires Spliced(f, p, q, g)
    ensures Valid(g, text)
    ensures forall x :: InTree(g, x) <==> x != p && InTree(f, x)
  {
    assert Node(f, text, p);
    forall x | InTree(g, x) ensures Node(g, text, x) {
      assert InTree(f, x);
      SplicedNode(f, text, p, q, g, x);
    }
    forall c | IsRoot(c) ensures Points(g, c, g.rson[c]) {
      assert Points(f, c, f.rson[c]);
    }
  }

  /**
   Node p removed when it has two children.  Its in-order predecessor q, the end of the right
   spine of its left subtree, takes its place; q's own left child takes q's place, unless q is
   the left child of p and simply keeps it.
   */

  function PromotedDad(f: Forest, p: int, q: int, i: int): int
    requires |f.lson| == N + 1 && |f.rson| == N + 257 && |f.dad| == N + 1
    requires 0 <= p < N && 0 <= q < N && 0 <= i < N
  {
    if i == p then NIL
    else if i == q then f.dad[p]
    else if i == f.rson[p] || i == f.lson[p] then q
    else if i == f.lson[q] && q != f.lson[p] then f.dad[q]
    else f.dad[i]
  }

  ghost predicate Promoted(f: Forest, p: int, q: int, g: Forest)
    requires SameSize(f, g) && 0 <= p < N && 0 <= f.dad[p] < N + 257 && 0 <= q < N
  {
    var d := f.dad[p];
    && (forall i :: 0 <= i < N ==> g.dad[i] == PromotedDad(f, p, q, i))
    && (forall i :: 0 <= i < N && i != p ==>
          g.lson[i] == (if i == q && q != f.lson[p] then f.lson[p] else LeftLink(f, p, d, q, i)))
    && (forall i :: 0 <= i < N + 257 && i != p ==>
          g.rson[i] == (if i == q then f.rson[p]
                        else if i == f.dad[q] && q != f.lson[p] then f.lson[q]
                        else RightLink(f, p, d, q, i)))
    && (forall i :: 0 <= i < N ==> g.rank[i] == if i == q then f.rank[p] else f.rank[i])
  }

  // q is the end of the right spine of p's left subtree.
  ghost predicate Predecessor(f: Forest, text: seq<int>, p: int, q: int)
    requires Sized(f, text) && InTree(f, p)
  {
    && InTree(f, q) && q != p && f.rank[p] < f.rank[q] && text[q] == text[p]
    && if q == f.lson[p] then true
       else q != f.rson[p] && InTree(f, f.dad[q]) && f.rank[p] < f.rank[f.dad[q]] && f.rson[f.dad[q]] == q
  }

  // What PromotedNode and its parts know: p, its parent, its children, q and q's parent.
  ghost predicate Promotion(f: Forest, text: seq<int>, p: int, q: int, g: Forest) {
    && Sized(f, text) && Sized(g, text)
    && Node(f, text, p) && (IsRoot(f.dad[p]) || Node(f, text, f.dad[p]))
    && Node(f, text, q) && Node(f, text, f.dad[q])
    && f.lson[p] != NIL && Node(f, text, f.lson[p]) && f.rson[p] != NIL && Node(f, text, f.rson[p])
    && Predecessor(f, text, p, q) && f.rson[q] == NIL
    && Promoted(f, p, q, g)
  }

  lemma PromotedSelf(f: Forest, text: seq<int>, p: int, q: int, g: Forest)
    requires Promotion(f, text, p, q, g)
    ensures Node(g, text, q)
  {
    assert Points(g, q, g.lson[q]);
  }

  lemma PromotedHangs(f: Forest, text: seq<int>, p: int, q: int, g: Forest, x: int)
    requires Promotion(f, text, p, q, g)
    requires x != p && x != q && Node(f, text, x)
    ensures InTree(g, x) && Hangs(g, text, x)
  {
    if q == f.lson[p] {
    } else if x == f.lson[q] {
    } else {
    }
  }

  lemma PromotedPoints(f: Forest, text: seq<int>, p: int, q: int, g: Forest, x: int)
    requires Promotion(f, text, p, q, g)
    requires x != p && x != q && Node(f, text, x)
    ensures Points(g, x, g.lson[x]) && Points(g, x, g.rson[x])
    ensures g.lson[x] == g.rson[x] ==> g.lson[x] == NIL
  {
    if q == f.lson[p] {
    } else if x == f.dad[q] {
    } else {
    }
  }

  lemma PromotedValid(f: Forest, text: seq<int>, p: int, q: int, g: Forest)
    requires Valid(f, text) && Sized(g, text) && InTree(f, p)
    requires f.lson[p] != NIL && f.rson[p] != NIL
    requires Predecessor(f, text, p, q) && f.rson[q] == NIL
    requires 0 <= f.dad[p] < N + 257
    requires Promoted(f, p, q, g)
    ensures Valid(g, text)
    ensures forall x :: InTree(g, x) <==> x != p && InTree(f, x)
  {
    assert Node(f, text, p) && Node(f, text, q);
    assert Node(f, text, f.lson[p]) && Node(f, text, f.rson[p]);
    forall x | InTree(g, x) ensures Node(g, text, x) {
      assert InTree(f, x);
      if x == q {
        PromotedSelf(f, text, p, q, g);
      } else {
        PromotedHangs(f, text, p, q, g, x);
        PromotedPoints(f, text, p, q, g, x);
      }
    }
    forall c | IsRoot(c) ensures Points(g, c, g.rson[c]) {
      assert Points(f, c, f.rson[c]);
    }
  }
}
