/** The LZSS encoder of the benchmark program: the search trees in arrays, and the encoding loop. */
module LzssEncoder {
  import opened Bytes
  import opened LzssTree
  import opened LzssKeys
  import opened LzssOrder
  import opened LzssSearch
  import opened LzssFormat
  import opened LzssWindow
  import LzssStandard
  import opened LzssGreedy

  class Encoder {
    const textBuf: array<byte>
    const lson: array<int>
    const rson: array<int>
    const dad: array<int>
    var matchPosition: int
    var matchLength: int
    ghost var rank: seq<int>
    ghost var bounds: Bounds

    ghost predicate Shape()
      reads this
    {
      && textBuf.Length == N + F - 1
      && lson.Length == N + 1 && rson.Length == N + 257 && dad.Length == N + 1
      && lson != rson && lson != dad && rson != dad
      && |rank| == N && |bounds.lo| == N && |bounds.hi| == N
    }

    ghost function Trees(): (f: Forest)
      reads this, lson, rson, dad
    {
      Forest(lson[..], rson[..], dad[..], rank)
    }

    ghost predicate Valid()
      reads this, textBuf, lson, rson, dad
    {
      Shape() && Ordered(Trees(), textBuf[..], Keys(textBuf[..]), bounds)
    }

    constructor ()
      ensures Shape() && fresh(textBuf) && fresh(lson) && fresh(rson) && fresh(dad)
    {
      textBuf := new byte[N + F - 1](_ => 0);
      lson := new int[N + 1](_ => NIL);
      rson := new int[N + 257](_ => NIL);
      dad := new int[N + 1](_ => NIL);
      matchPosition, matchLength := 0, 0;
      rank, bounds := seq(N, _ => 0), Bounds(seq(N, _ => 0), seq(N, _ => 0));
      new;
    }

    method InitTree()
      requires Shape()
      modifies rson, dad
      ensures Valid() && forall p :: !InTree(Trees(), p)
    {
      for i := N + 1 to N + 257
        invariant forall c :: N + 1 <= c < i ==> rson[c] == NIL
      {
        rson[i] := NIL;
      }
      for i := 0 to N
        invariant forall p :: 0 <= p < i ==> dad[p] == NIL
        invariant forall c :: N + 1 <= c < N + 257 ==> rson[c] == NIL
      {
        dad[i] := NIL;
      }
      assert forall p :: 0 <= p < N ==> Trees().dad[p] == dad[p];
      forall c | IsRoot(c) ensures Points(Trees(), c, Trees().rson[c]) {
        assert Trees().rson[c] == rson[c] == NIL;
      }
    }

    // The comparison of the key at r with the text at p, from index 1.
    method Compare(p: int, r: int, cmp: int) returns (i: int, cmp': int)
      requires Shape() && 0 <= p < N && 0 <= r < N && textBuf[p] == textBuf[r]
      ensures 1 <= i <= F && Agree(textBuf[..], p, r, i)
      ensures i < F ==> cmp' != 0 && cmp' == textBuf[r + i] as int - textBuf[p + i] as int
    {
      i, cmp' := 1, cmp;
      while i < F
        invariant 1 <= i <= F && Agree(textBuf[..], p, r, i)
      {
        cmp' := textBuf[r + i] as int - textBuf[p + i] as int;
        if cmp' != 0 { break; }
        i := i + 1;
      }
    }

    // The leaf case of InsertNode.
    method Attach(p: int, r: int, right: bool)
      requires Valid() && 0 <= r < N && !InTree(Trees(), r)
      requires lson[r] == NIL && rson[r] == NIL
      requires if IsRoot(p) then right && textBuf[r] == p - (N + 1)
               else InTree(Trees(), p) && textBuf[r] == textBuf[p]
      requires (if right then rson[p] else lson[p]) == NIL
      requires forall x :: InTree(Trees(), x) ==> Keys(textBuf[..])[x] != Keys(textBuf[..])[r]
      requires Low(Keys(textBuf[..]), bounds, p, right) < Keys(textBuf[..])[r]
      requires Keys(textBuf[..])[r] < High(Keys(textBuf[..]), bounds, p, right)
      modifies this`rank, this`bounds, lson, rson, dad
      ensures Valid()
      ensures forall q :: InTree(Trees(), q) <==> q == r || InTree(old(Trees()), q)
    {
      hide Keys, LzssTree.Valid, Ordered, Low, High;
      ghost var f, text, b := Trees(), textBuf[..], bounds;
      OrderedSizes(f, text, Keys(text), b);
      if right {
        rson[p] := r;
      } else {
        lson[p] := r;
      }
      dad[r] := p;
      rank := rank[r := if p < N then rank[p] + 1 else 0];
      bounds := Bounds(b.lo[r := Low(Keys(text), b, p, right)], b.hi[r := High(Keys(text), b, p, right)]);
      AttachedValid(f, text, p, r, right, Trees());
      AttachedOrder(f, text, Keys(text), b, p, r, right, Trees(), bounds);
    }

    // The link updates of the exact-match case: r takes the place of p.
    method Relink(p: int, r: int)
      requires Shape() && 0 <= p < N && 0 <= r < N && p != r
      requires 0 <= lson[p] <= N && 0 <= rson[p] <= N && (0 <= dad[p] < N || IsRoot(dad[p]))
      requires lson[p] != r && rson[p] != r && dad[p] != r && dad[p] != p && lson[p] != p && rson[p] != p
      requires IsRoot(dad[p]) ==> rson[dad[p]] == p
      modifies this`rank, lson, rson, dad
      ensures |rank| == N && Replaced(old(Trees()), p, r, Trees())
    {
      ghost var f := Trees();
      dad[r] := dad[p];
      lson[r] := lson[p];
      rson[r] := rson[p];
      dad[lson[p]] := r;
      dad[rson[p]] := r;
      assert forall i :: 0 <= i < N && i != p ==> dad[i] == ReplacedDad(f, p, r, i);
      if rson[dad[p]] == p { rson[dad[p]] := r; } else { lson[dad[p]] := r; }
      dad[p] := NIL;
      rank := rank[r := rank[p]];
    }

    method Replace(p: int, r: int)
      requires Valid() && InTree(Trees(), p) && 0 <= r < N && !InTree(Trees(), r)
      requires Agree(textBuf[..], p, r, F)
      modifies this`rank, this`bounds, lson, rson, dad
      ensures Valid()
      ensures forall q :: InTree(Trees(), q) <==> q != p && (q == r || InTree(old(Trees()), q))
    {
      hide Keys, LzssTree.Valid, Ordered;
      ghost var f, text, b := Trees(), textBuf[..], bounds;
      OrderedSizes(f, text, Keys(text), b);
      Around(f, text, p);
      AgreeFirst(text, p, r, F - 1);
      KeyEqual(text, p, r);
      Relink(p, r);
      bounds := Bounds(b.lo[r := b.lo[p]], b.hi[r := b.hi[p]]);
      ReplacedValid(f, text, p, r, Trees());
      ReplacedOrder(f, text, Keys(text), b, p, r, Trees(), bounds);
    }

    method InsertNode(r: int)
      requires Valid() && 0 <= r < N && !InTree(Trees(), r)
      modifies this`matchPosition, this`matchLength, this`rank, this`bounds, lson, rson, dad
      ensures Valid()
      ensures 0 <= matchLength <= F
      ensures matchLength > 0 ==>
                InTree(old(Trees()), matchPosition) && Agree(textBuf[..], matchPosition, r, matchLength)
      ensures matchLength < F ==> AtMost(old(Trees()), textBuf[..], r, matchLength)
      ensures forall q :: InTree(Trees(), q) <==>
                q == r || (InTree(old(Trees()), q) && !(matchLength == F && q == matchPosition))
    {
      hide Keys, LzssTree.Valid, Ordered, Standing, Seen, AtMost, Low, High, Agree;
      var cmp, p := 1, N + 1 + textBuf[r];
      rson[r], lson[r] := NIL, NIL;
      matchLength := 0;
      ghost var f, text, b := Trees(), textBuf[..], bounds;
      DetachedOrder(old(Trees()), f, text, Keys(text), b, r);
      StandAtRoot(f, text, b, r, p);
      while true
        invariant Trees() == f && bounds == b && (IsRoot(p) || InTree(f, p))
        invariant Standing(f, text, b, r, matchLength, p, cmp >= 0)
        invariant 0 <= matchLength < F
        invariant matchLength > 0 ==> InTree(f, matchPosition) && Agree(text, matchPosition, r, matchLength)
        decreases IsRoot(p), if IsRoot(p) then {} else Deeper(f, p)
      {
        Descend(f, text, b, r, matchLength, p, cmp >= 0);
        ghost var above := p;
        var child := if cmp >= 0 then rson[p] else lson[p];
        if child == NIL {
          AtMostOld(old(Trees()), f, text, r, matchLength);
          EndOfSearch(f, text, b, r, matchLength, p, cmp >= 0);
          Attach(p, r, cmp >= 0);
          return;
        }
        Deepens(f, text, p, child);
        p := child;
        var i;
        i, cmp := Compare(p, r, cmp);
        if i < F {
          Stand(f, text, b, r, matchLength, p, i, cmp);
        }
        if i > matchLength {
          matchPosition := p;
          matchLength := i;
          if matchLength >= F { break; }
        }
      }
      Replace(matchPosition, r);
    }

    // The end of DeleteNode: q, which may be NIL, takes the place of p under p's parent.
    method Splice(p: int, q: int)
      requires Shape() && 0 <= p < N && 0 <= q <= N && p != q
      requires (0 <= dad[p] < N || IsRoot(dad[p])) && dad[p] != p && dad[p] != q
      requires IsRoot(dad[p]) ==> rson[dad[p]] == p
      modifies lson, rson, dad
      ensures Spliced(old(Trees()), p, q, Trees())
    {
      dad[q] := dad[p];
      if rson[dad[p]] == p { rson[dad[p]] := q; } else { lson[dad[p]] := q; }
      dad[p] := NIL;
    }

    // The two-child case before the splice: q leaves its place and takes over p's children.
    method TakeChildren(p: int, q: int)
      requires Shape() && Kinship(Trees(), p, q)
      modifies this`rank, lson, rson, dad
      ensures Shape() && TookChildren(old(Trees()), p, q, Trees())
    {
      if q != lson[p] {
        rson[dad[q]] := lson[q];
        dad[lson[q]] := dad[q];
        lson[q] := lson[p];
        dad[lson[p]] := q;
      }
      rson[q] := rson[p];
      dad[rson[p]] := q;
      rank := rank[q := rank[p]];
    }

    // The in-order predecessor of p: the end of the right spine of its left subtree.
    method FindPredecessor(p: int) returns (q: int)
      requires Valid() && InTree(Trees(), p) && lson[p] != NIL && rson[p] != NIL
      ensures Predecessor(Trees(), textBuf[..], p, q) && rson[q] == NIL
      ensures Greatest(Trees(), Keys(textBuf[..]), bounds, p, q)
    {
      hide Keys, LzssTree.Valid, Ordered, Spine, Greatest;
      ghost var f, text, b := Trees(), textBuf[..], bounds;
      ghost var k := Keys(text);
      OrderedSizes(f, text, k, b);
      q := lson[p];
      FirstDown(f, text, p);
      SpineStart(f, text, k, b, p);
      ghost var spine := [q];
      while rson[q] != NIL
        invariant Predecessor(f, text, p, q) && spine != [] && spine[|spine| - 1] == q && Spine(f, k, b, p, spine)
        decreases Deeper(f, q)
      {
        SpineMore(f, text, k, b, p, spine);
        NextDown(f, text, p, q);
        q := rson[q];
        spine := spine + [q];
      }
      KeyBound(text, p);
      SpineGreatest(f, text, k, b, p, spine);
    }

    method DeleteInner(p: int, q: int)
      requires Valid() && InTree(Trees(), p) && lson[p] != NIL && rson[p] != NIL
      requires Predecessor(Trees(), textBuf[..], p, q) && rson[q] == NIL
      requires Greatest(Trees(), Keys(textBuf[..]), bounds, p, q)
      modifies this`rank, this`bounds, lson, rson, dad
      ensures Valid()
      ensures forall x :: InTree(Trees(), x) <==> x != p && InTree(old(Trees()), x)
    {
      hide Keys, LzssTree.Valid, Ordered, Greatest, Inherited, Predecessor, TookChildren, Spliced, Promoted, Kinship;
      ghost var f, text, b := Trees(), textBuf[..], bounds;
      OrderedSizes(f, text, Keys(text), b);
      Around(f, text, p);
      Kin(f, text, p, q);
      DeletedLinks(p, q);
      bounds := InheritedBounds(Keys(text), b, p, q);
      PromotedValid(f, text, p, q, Trees());
      KeyBound(text, p);
      KeyBound(text, q);
      PromotedOrder(f, text, Keys(text), b, p, q, Trees(), bounds);
    }

    // The link updates of the two-child case.
    method DeletedLinks(p: int, q: int)
      requires Shape() && Kinship(Trees(), p, q) && (0 <= dad[p] < N || IsRoot(dad[p]))
      modifies this`rank, lson, rson, dad
      ensures Shape() && SameSize(old(Trees()), Trees()) && Promoted(old(Trees()), p, q, Trees())
    {
      ghost var f := Trees();
      TakeChildren(p, q);
      ghost var h := Trees();
      StillPlaced(f, p, q, h);
      Splice(p, q);
      Promotes(f, p, q, h, Trees());
    }

    method DeleteNode(p: int)
      requires Valid() && 0 <= p < N
      modifies this`rank, this`bounds, lson, rson, dad
      ensures Valid()
      ensures forall x :: InTree(Trees(), x) <==> x != p && InTree(old(Trees()), x)
    {
      hide Keys, LzssTree.Valid, Ordered, Greatest, Widened, Predecessor, Spliced;
      if dad[p] == NIL { return; }
      ghost var f, text, b := Trees(), textBuf[..], bounds;
      OrderedSizes(f, text, Keys(text), b);
      Around(f, text, p);
      var q;
      if rson[p] == NIL {
        q := lson[p];
      } else if lson[p] == NIL {
        q := rson[p];
      } else {
        q := FindPredecessor(p);
        DeleteInner(p, q);
        return;
      }
      Splice(p, q);
      bounds := WidenedBounds(b, Keys(text)[p], b.lo[p], b.hi[p]);
      SplicedValid(f, text, p, q, Trees());
      KeyBound(text, p);
      SplicedOrder(f, text, Keys(text), b, p, q, Trees(), bounds);
    }

    /** The encoding loop.  e counts the source bytes coded so far; s == Tail(e) and r == (N-F+e) % N. */

    // The nodes lie in the window, and stand for its source positions.
    ghost predicate Within(e: nat, far: int)
      reads this, textBuf, lson, rson, dad
      requires Shape()
    {
      LzssGreedy.Within(Trees(), Keys(textBuf[..]), e, far)
    }

    // What the last insertion, of r, says about the text from r on.
    ghost predicate MatchFound(e: nat)
      reads this, textBuf
      requires Shape()
    {
      0 <= matchLength <= F &&
      (matchLength > 0 ==>
        0 <= matchPosition < N && Offset(matchPosition, e) < N - F &&
        Agree(textBuf[..], matchPosition, LzssGreedy.Head(e), matchLength))
    }

    ghost predicate Ready(e: nat)
      reads this, textBuf
      requires Shape()
    {
      MatchFound(e) && Longest(textBuf[..], e, matchLength)
    }

    method Retire(s: int, ghost e: nat)
      requires Valid() && s == Tail(e) && Within(e, N - F)
      modifies this`rank, this`bounds, lson, rson, dad
      ensures Valid() && Within(e + 1, N - F - 1) && !InTree(Trees(), s)
    {
      hide Keys, LzssTree.Valid, Ordered, Near, Holds;
      ghost var f := Trees();
      DeleteNode(s);
      Retired(f, Trees(), Keys(textBuf[..]), e);
    }

    method Enter(r: int, ghost e: nat)
      requires Valid() && r == Head(e) && Within(e, N - F - 1)
      modifies this`matchPosition, this`matchLength, this`rank, this`bounds, lson, rson, dad
      ensures Valid() && Within(e, N - F) && Ready(e)
    {
      hide Keys, LzssTree.Valid, Ordered, Holds, AtMost, Longest, Agree;
      ghost var f, text := Trees(), textBuf[..];
      OffsetOf(N - F + e, e);
      InsertNode(r);
      if matchLength == F {
        KeyEqual(text, matchPosition, r);
      }
      Entered(f, Trees(), Keys(text), e, if matchLength == F then matchPosition else -1);
      LongestFound(f, text, e, matchLength);
    }

    method Store(s: int, c: byte, ghost src: seq<byte>, ghost e: nat)
      requires Valid() && s == Tail(e) && Within(e + 1, N - F - 1)
      requires e + F < |src| && c == src[e + F] && Window(textBuf[..], src, e, e + F)
      modifies textBuf
      ensures Valid() && Within(e + 1, N - F - 1) && Window(textBuf[..], src, e + 1, e + F + 1)
    {
      hide Keys, LzssTree.Valid, Ordered, Near, Holds, Window;
      ghost var was := textBuf[..];
      ghost var text: seq<int> := was;
      textBuf[s] := c;
      if s < F - 1 { textBuf[s + N] := c; }
      assert textBuf[..] == if s < F - 1 then text[s := c][s + N := c] else text[s := c];
      WindowShift(text, src, e, textBuf[..]);
      Stored(Trees(), was, textBuf[..], bounds, e);
    }

    // Spaces up to N-F, then as many source bytes as fit.
    method FillText(src: seq<byte>) returns (len: nat)
      requires Shape()
      modifies textBuf
      ensures len == (if |src| < F then |src| else F)
      ensures Window(textBuf[..], src, 0, len)
    {
      var r := N - F;
      for i := 0 to r
        invariant forall k :: 0 <= k < i ==> textBuf[k] == 32
      {
        textBuf[i] := 32;
      }
      len := 0;
      while len < F && len < |src|
        invariant 0 <= len <= F && len <= |src|
        invariant forall k :: 0 <= k < r ==> textBuf[k] == 32
        invariant forall k :: r <= k < r + len ==> textBuf[k] == src[k - r]
      {
        textBuf[r + len] := src[len];
        len := len + 1;
      }
      Filled(textBuf[..], src, len);
    }

    // Everything before the loop: clear the trees, fill the ring, read ahead, insert the first strings.
    method Load(src: seq<byte>) returns (len: nat)
      requires Shape()
      modifies this`matchPosition, this`matchLength, this`rank, this`bounds, textBuf, lson, rson, dad
      ensures Shape() && len == (if |src| < F then |src| else F)
      ensures Window(textBuf[..], src, 0, len)
      ensures len > 0 ==> Valid() && Within(0, N - F) && Ready(0)
    {
      hide Keys, LzssTree.Valid, Ordered, Window;
      InitTree();
      ghost var text := textBuf[..];
      len := FillText(src);
      OrderedMoved(Trees(), text, textBuf[..], Keys(text), Keys(textBuf[..]), bounds);
      if len == 0 { return; }
      InsertFirst(N - F);
    }

    // The F strings before r, then r itself.
    method InsertFirst(r: int)
      requires Valid() && r == N - F && forall p :: !InTree(Trees(), p)
      modifies this`matchPosition, this`matchLength, this`rank, this`bounds, lson, rson, dad
      ensures Valid() && Within(0, N - F) && Ready(0)
    {
      hide Keys, LzssTree.Valid, Ordered, AtMost, Agree;
      for i := 1 to F + 1
        invariant Valid() && forall q :: InTree(Trees(), q) ==> r - i < q < r
      {
        InsertNode(r - i);
      }
      WithinStart(Trees(), Keys(textBuf[..]));
      Enter(r, 0);
    }

    // One item into the group: its flag bit (not set before) and its one or two bytes.
    method AddItem(codeBuf: array<byte>, ptr: nat, mask: int, r: int, ghost ts: seq<Token>)
        returns (ptr': nat, ghost t: Token)
      requires Shape() && 0 <= r < N && codeBuf != textBuf
      requires Grouped(codeBuf[..], ptr, ts) && |ts| < 8 && mask == Pow2(|ts|)
      requires 0 <= matchLength <= F && (matchLength > THRESHOLD ==> 0 <= matchPosition < N)
      modifies this`matchLength, codeBuf
      ensures t == (if old(matchLength) <= THRESHOLD then Literal(textBuf[r]) else Match(matchPosition, matchLength))
      ensures matchLength == (if old(matchLength) <= THRESHOLD then 1 else old(matchLength))
      ensures Grouped(codeBuf[..], ptr', ts + [t])
    {
      ghost var code := codeBuf[..];
      ItemsBound(ts);
      SmallFlags(ts);
      Pow2Step(|ts|);
      if matchLength <= THRESHOLD {
        matchLength := 1;
        codeBuf[0] := codeBuf[0] + mask;
        codeBuf[ptr] := textBuf[r];
        ptr' := ptr + 1;
        t := Literal(textBuf[r]);
      } else {
        codeBuf[ptr] := matchPosition % 256;
        codeBuf[ptr + 1] := (matchPosition / 256) * 16 + (matchLength - (THRESHOLD + 1));
        ptr' := ptr + 2;
        t := Match(matchPosition, matchLength);
      }
      ItemsAppend(ts, t);
      FlagsAppend(ts, t);
      assert codeBuf[1..ptr'] == code[1..ptr] + Item(t);
    }

    method Flush(codeBuf: array<byte>, ptr: nat, dst: array<byte>, outPos: nat) returns (outPos': nat)
      requires codeBuf != dst && ptr <= codeBuf.Length && outPos + ptr <= dst.Length
      modifies dst
      ensures outPos' == outPos + ptr && dst[..outPos'] == old(dst[..outPos]) + codeBuf[..ptr]
    {
      outPos' := outPos;
      for i := 0 to ptr
        invariant outPos' == outPos + i
        invariant dst[..outPos'] == old(dst[..outPos]) + codeBuf[..i]
      {
        dst[outPos'] := codeBuf[i];
        outPos' := outPos' + 1;
      }
    }

    // One turn of the reading loop.
    method Step(s: int, r: int, c: byte, ghost src: seq<byte>, ghost e: nat) returns (s': int, r': int)
      requires Valid() && s == Tail(e) && r == Head(e) && Within(e, N - F)
      requires e + F < |src| && c == src[e + F] && Window(textBuf[..], src, e, e + F)
      modifies this`matchPosition, this`matchLength, this`rank, this`bounds, textBuf, lson, rson, dad
      ensures Valid() && s' == Tail(e + 1) && r' == Head(e + 1) && Within(e + 1, N - F)
      ensures Window(textBuf[..], src, e + 1, e + F + 1) && Ready(e + 1)
    {
      Retire(s, e);
      Store(s, c, src, e);
      s', r' := (s + 1) % N, (r + 1) % N;
      NextPosition(e);
      NextPosition(N - F + e);
      Enter(r', e + 1);
    }

    // One turn of the loop that runs once the source is used up.
    method TailStep(s: int, r: int, more: bool, ghost e: nat) returns (s': int, r': int)
      requires Valid() && s == Tail(e) && r == Head(e) && Within(e, N - F)
      modifies this`matchPosition, this`matchLength, this`rank, this`bounds, lson, rson, dad
      ensures Valid() && s' == Tail(e + 1) && r' == Head(e + 1)
      ensures more ==> Within(e + 1, N - F) && Ready(e + 1)
    {
      Retire(s, e);
      s', r' := (s + 1) % N, (r + 1) % N;
      NextPosition(e);
      NextPosition(N - F + e);
      if more { Enter(r', e + 1); }
    }

    // The two inner loops: slide over the item just coded, reading while the source lasts.
    // Returns the state for the next item at d == e + n.
    method Slide(src: seq<byte>, inPos0: nat, s0: int, r0: int, len0: nat, n: nat, ghost e0: nat)
        returns (inPos: nat, s: int, r: int, len: nat)
      requires Valid() && Within(e0, N - F) && Window(textBuf[..], src, e0, inPos0)
      requires s0 == Tail(e0) && r0 == Head(e0)
      requires inPos0 == e0 + len0 && 1 <= n <= len0 <= F && (inPos0 < |src| ==> len0 == F)
      modifies this`matchPosition, this`matchLength, this`rank, this`bounds, textBuf, lson, rson, dad
      ensures Valid() && Window(textBuf[..], src, e0 + n, inPos)
      ensures s == Tail(e0 + n) && r == Head(e0 + n)
      ensures inPos == e0 + n + len && len <= F && (inPos < |src| ==> len == F)
      ensures len > 0 ==> Within(e0 + n, N - F) && Ready(e0 + n)
    {
      hide Keys, Ordered, LzssGreedy.Within, Longest, Agree, Window, Tail, Head, Offset;
      WindowRoom(textBuf[..], src, e0, inPos0);
      inPos, s, r, len := inPos0, s0, r0, len0;
      var i := 0;
      ghost var e := e0;
      while i < n && inPos < |src|
        invariant 0 <= i <= n && e == e0 + i && Valid() && Within(e, N - F)
        invariant s == Tail(e) && r == Head(e)
        invariant inPos == e + len <= |src| && len == len0
        invariant Window(textBuf[..], src, e, inPos)
        invariant i > 0 ==> Ready(e)
      {
        var c := src[inPos];
        inPos := inPos + 1;
        s, r := Step(s, r, c, src, e);
        i, e := i + 1, e + 1;
      }
      while i < n
        invariant 0 <= i <= n && e == e0 + i && Valid() && n - i <= len
        invariant s == Tail(e) && r == Head(e)
        invariant inPos == e + len && (inPos < |src| ==> i == n && len == F)
        invariant Window(textBuf[..], src, e, inPos)
        invariant len > 0 ==> Within(e, N - F) && (i > 0 ==> Ready(e))
      {
        len := len - 1;
        WindowLater(textBuf[..], src, e, inPos);
        s, r := TailStep(s, r, len > 0, e);
        i, e := i + 1, e + 1;
      }
    }

    // Chooses the item at r and puts it into the group.
    method PutItem(src: seq<byte>, codeBuf: array<byte>, ptr: nat, mask: int, r: int,
                   ghost len: nat, ghost found: nat, ghost e: nat, ghost done: seq<Token>, ghost group: seq<Token>)
        returns (ptr': nat, ghost t: Token)
      requires Shape() && codeBuf != textBuf
      requires 1 <= len <= F && r == Head(e) && e + len <= |src| && (e + len < |src| ==> len == F)
      requires Window(textBuf[..], src, e, e + len) && MatchFound(e)
      requires Longest(textBuf[..], e, found) && matchLength == (if found > len then len else found)
      requires Parsed(src, done + group, e) && Coded(src, done + group, e)
      requires Grouped(codeBuf[..], ptr, group) && |group| < 8 && mask == Pow2(|group|)
      modifies this`matchLength, codeBuf
      ensures 1 <= matchLength <= len && Grouped(codeBuf[..], ptr', group + [t])
      ensures Parsed(src, done + (group + [t]), e + matchLength) && Coded(src, done + (group + [t]), e + matchLength)
    {
      hide Coded, Window, Stands, Parsed, Best, Longest, Agree, Run, Serialize, Text, Grouped, Head;
      HeadIn(e);
      ItemStands(src, textBuf[..], e, len, matchPosition, matchLength);
      ptr', t := AddItem(codeBuf, ptr, mask, r, group);
      ChosenBest(src, textBuf[..], e, len, found, t);
      ParsedNext(src, done + group, t, e);
      CodedNext(src, done + group, e, t, matchLength);
      Assoc(done, group, [t]);
    }

    // Puts the item at r into the group, and flushes the group when it is full.
    method EncodeItem(src: seq<byte>, codeBuf: array<byte>, ptr: nat, mask: int, r: int, dst: array<byte>, outPos: nat,
                      ghost len: nat, ghost found: nat, ghost e: nat, ghost done: seq<Token>, ghost group: seq<Token>)
        returns (ptr': nat, mask': int, outPos': nat, ghost done': seq<Token>, ghost group': seq<Token>)
      requires Shape() && codeBuf != textBuf && dst != textBuf && codeBuf != dst
      requires dst.Length >= |src| + (|src| + 7) / 8
      requires 1 <= len <= F && r == Head(e) && e + len <= |src| && (e + len < |src| ==> len == F)
      requires Window(textBuf[..], src, e, e + len) && MatchFound(e)
      requires Longest(textBuf[..], e, found) && matchLength == (if found > len then len else found)
      requires Parsed(src, done + group, e) && Coded(src, done + group, e)
      requires Output(codeBuf[..], ptr, mask, done, group)
      requires outPos <= dst.Length && dst[..outPos] == Serialize(done)
      modifies this`matchLength, codeBuf, dst
      ensures 1 <= matchLength <= len
      ensures Parsed(src, done' + group', e + matchLength)
      ensures Coded(src, done' + group', e + matchLength) && Output(codeBuf[..], ptr', mask', done', group')
      ensures outPos' <= dst.Length && dst[..outPos'] == Serialize(done')
    {
      hide Coded, Window, Stands, Parsed, Best, Longest, Agree, Run, Serialize, Text, Grouped, Head, Items, Flags, Item;
      outPos', done' := outPos, done;
      ghost var t;
      ptr', t := PutItem(src, codeBuf, ptr, mask, r, len, found, e, done, group);
      group' := group + [t];
      mask' := (mask * 2) % 256;
      MaskWraps(|group|);
      GroupedGood(codeBuf[..], ptr', group');
      if mask' == 0 {
        GroupFits(src, done, group', e + matchLength, codeBuf[..], ptr');
        outPos' := Flush(codeBuf, ptr', dst, outPos);
        done', group' := done + group', [];
        assert done' + group' == done';
        codeBuf[0] := 0;
        ptr', mask' := 1, 1;
        NoGroup(codeBuf[..]);
      }
    }

    // No match is longer than what is left.
    method Clip(len: nat, ghost e: nat)
      requires Shape() && Ready(e)
      modifies this`matchLength
      ensures MatchFound(e) && matchLength == if old(matchLength) > len then len else old(matchLength)
    {
      hide Longest, Agree, Offset;
      if matchLength > len {
        AgreeLess(textBuf[..], matchPosition, Head(e), len, matchLength);
        matchLength := len;
      }
    }

    // Where the main loop stands: s and r are the ring positions at e, and len bytes are read ahead.
    ghost predicate Reading(src: seq<byte>, inPos: nat, s: int, r: int, len: nat, e: nat)
      reads this, textBuf, lson, rson, dad
      requires Shape()
    {
      && e + len == inPos <= |src| && len <= F && (inPos < |src| ==> len == F)
      && s == Tail(e) && r == Head(e) && Window(textBuf[..], src, e, inPos)
      && (len > 0 ==> Valid() && Within(e, N - F) && Ready(e))
    }

    // One turn of the main loop.
    method CodeItem(src: seq<byte>, codeBuf: array<byte>, ptr0: nat, mask0: int, dst: array<byte>, outPos0: nat,
                    inPos0: nat, s0: int, r0: int, len0: nat,
                    ghost e0: nat, ghost done0: seq<Token>, ghost group0: seq<Token>)
        returns (ptr: nat, mask: int, outPos: nat, inPos: nat, s: int, r: int, len: nat,
                 ghost e: nat, ghost done: seq<Token>, ghost group: seq<Token>)
      requires Shape() && codeBuf != textBuf && dst != textBuf && codeBuf != dst
      requires dst.Length >= |src| + (|src| + 7) / 8 && outPos0 <= dst.Length
      requires Reading(src, inPos0, s0, r0, len0, e0) && len0 > 0
      requires Coding(src, codeBuf[..], dst[..outPos0], ptr0, mask0, e0, done0, group0)
      modifies this`matchPosition, this`matchLength, this`rank, this`bounds, textBuf, lson, rson, dad, codeBuf, dst
      ensures Shape() && e0 < e && outPos <= dst.Length
      ensures Reading(src, inPos, s, r, len, e)
      ensures Coding(src, codeBuf[..], dst[..outPos], ptr, mask, e, done, group)
    {
      hide Tail, Head, Keys, Ordered, LzssGreedy.Within, Longest, Parsed, Agree, Window, Coded, Output, Serialize,
          Offset;
      ghost var found := matchLength;
      Clip(len0, e0);
      ptr, mask, outPos, done, group :=
        EncodeItem(src, codeBuf, ptr0, mask0, r0, dst, outPos0, len0, found, e0, done0, group0);
      var lastMatchLength := matchLength;
      e := e0 + lastMatchLength;
      inPos, s, r, len := Slide(src, inPos0, s0, r0, len0, lastMatchLength, e0);
      WindowRoom(textBuf[..], src, e, inPos);
      OutputGood(codeBuf[..], ptr, mask, done, group);
    }

    // The source is coded into dst; outPos is the number of bytes written.
    // Nothing is assumed about what earlier calls left in the buffers.
    method Lzss(src: seq<byte>, dst: array<byte>) returns (outPos: nat)
      requires Shape() && dst != textBuf && dst.Length >= |src| + (|src| + 7) / 8
      modifies this`matchPosition, this`matchLength, this`rank, this`bounds, textBuf, lson, rson, dad, dst
      ensures Shape() && outPos <= dst.Length
      ensures forall g :: Start(g) ==> Decode(g, dst[..outPos]) == src
      ensures forall tail: seq<byte> :: |tail| == 18 ==> LzssStandard.Decoded(tail, dst[..outPos]) == src
      ensures Greedy(src, dst[..outPos])
    {
      hide Tail, Head, Keys, Ordered, LzssTree.Valid, LzssGreedy.Within, Longest, Parsed, Agree, Window, Coded, Output,
        Serialize, Text, Run, Decode, Start, Greedy, LzssStandard.Decoded;
      outPos := 0;
      var codeBuf := new byte[17](_ => 0);
      var ptr, mask := 1, 1;
      var s, r := 0, N - F;
      var len: nat := Load(src);
      var inPos := len;
      ghost var done: seq<Token>, group: seq<Token>, e := [], [], 0;
      Begun(src, codeBuf[..], dst[..0]);
      while len > 0
        invariant Shape() && outPos <= dst.Length && Reading(src, inPos, s, r, len, e)
        invariant Coding(src, codeBuf[..], dst[..outPos], ptr, mask, e, done, group)
        decreases |src| - e
      {
        ptr, mask, outPos, inPos, s, r, len, e, done, group :=
          CodeItem(src, codeBuf, ptr, mask, dst, outPos, inPos, s, r, len, e, done, group);
      }
      LastGroup(src, done, group, e, codeBuf[..], ptr, mask);
      CodedGood(src, done + group, e);
      if ptr > 1 {
        outPos := Flush(codeBuf, ptr, dst, outPos);
      }
      CodedAll(src, done + group);
      LzssStandard.ReadsAll(dst[..outPos], src);
      GreedyCode(src, done + group, dst[..outPos]);
    }
  }

  lemma HeadIn(e: nat)
    ensures 0 <= Head(e) < N
  {
  }

  lemma GroupedGood(code: seq<byte>, ptr: nat, ts: seq<Token>)
    requires Grouped(code, ptr, ts)
    ensures GoodTokens(ts) && |ts| <= 8 && ptr <= 17 == |code|
  {
  }

  lemma CodedGood(src: seq<byte>, ts: seq<Token>, d: nat)
    requires Coded(src, ts, d)
    ensures GoodTokens(ts)
  {
  }

  lemma OutputGood(code: seq<byte>, ptr: nat, mask: int, done: seq<Token>, group: seq<Token>)
    requires Output(code, ptr, mask, done, group)
    ensures GoodTokens(done)
  {
  }

  // What has been coded up to e: the full groups are out, and the last one is in the code buffer.
  ghost predicate Coding(src: seq<byte>, code: seq<byte>, out: seq<byte>, ptr: nat, mask: int, e: nat,
                         done: seq<Token>, group: seq<Token>) {
    && Parsed(src, done + group, e) && Coded(src, done + group, e) && Output(code, ptr, mask, done, group)
    && GoodTokens(done) && out == Serialize(done)
  }

  // Before the first item.
  lemma Begun(src: seq<byte>, code: seq<byte>, out: seq<byte>)
    requires |code| == 17 && code[0] == 0 && out == []
    ensures Tail(0) == 0 && Head(0) == N - F
    ensures GoodTokens([]) && Serialize([]) == out && Output(code, 1, 1, [], [])
    ensures var none: seq<Token> := []; none + none == none && Coded(src, none, 0) && Parsed(src, none, 0)
  {
    CodedNone(src);
    ParsedNone(src);
    NoGroup(code);
  }

  lemma NoGroup(code: seq<byte>)
    requires |code| == 17 && code[0] == 0
    ensures Grouped(code, 1, []) && Pow2(0) == 1
  {
  }

  // The bits of a full group have all passed through the mask.
  lemma MaskWraps(n: nat)
    requires n < 8
    ensures n < 7 ==> (Pow2(n) * 2) % 256 == Pow2(n + 1) != 0
    ensures n == 7 ==> (Pow2(n) * 2) % 256 == 0
  {
    Pow2Step(n);
    if n < 7 { Pow2Step(n + 1); }
    assert Pow2(4) == 16 && Pow2(7) == 128;
  }

  // The ring position of the oldest byte.
  function Tail(e: nat): int {
    e % N
  }

  lemma SameText(src: seq<byte>, text: seq<byte>, e: nat, len: nat, pos: int, a: int, ml: nat, k: nat)
    requires Window(text, src, e, e + len) && k < ml <= len && ml <= F
    requires e <= a < N - F + e && a % N == pos && Agree(text, pos, Head(e), ml)
    ensures Text(src, a + k) == Text(src, N - F + e + k)
  {
    WindowRun(text, src, e, e + len, a, k);
    WindowRun(text, src, e, e + len, N - F + e, k);
    assert text[pos + k] == text[pos + k - pos + Head(e)];
  }

  lemma HeadText(src: seq<byte>, e: nat)
    requires e < |src|
    ensures Text(src, N - F + e) == src[e]
  {
  }

  // The item chosen at e stands for the source text there.
  lemma ItemStands(src: seq<byte>, text: seq<byte>, e: nat, len: nat, pos: int, ml: nat)
    requires Window(text, src, e, e + len) && 1 <= len && ml <= len && ml <= F
    requires ml > 0 ==> 0 <= pos < N && Offset(pos, e) < N - F && Agree(text, pos, Head(e), ml)
    ensures var r := Head(e);
            if ml <= THRESHOLD then Stands(src, Literal(text[r]), e, 1) else Stands(src, Match(pos, ml), e, ml)
  {
    hide Window, Agree, Text;
    WindowRun(text, src, e, e + len, N - F + e, 0);
    WindowRoom(text, src, e, e + len);
    HeadText(src, e);
    if ml > THRESHOLD {
      OffsetPosition(pos, e);
      var a, gap := e + Offset(pos, e), N - F - Offset(pos, e);
      forall j | a <= j < a + ml ensures Text(src, j) == Text(src, j + gap) {
        SameText(src, text, e, len, pos, a, ml, j - a);
      }
    }
  }

  lemma LastGroup(src: seq<byte>, done: seq<Token>, group: seq<Token>, d: nat, code: seq<byte>, ptr: nat, mask: int)
    requires Coded(src, done + group, d) && Output(code, ptr, mask, done, group)
    ensures ptr <= |code| && |Serialize(done)| + (if ptr > 1 then ptr else 0) <= |src| + (|src| + 7) / 8
    ensures Serialize(done + group) == if ptr > 1 then Serialize(done) + code[..ptr] else Serialize(done)
  {
    if group == [] {
      assert done + group == done;
      CodedLength(src, done + group, d);
    } else {
      GroupFits(src, done, group, d, code, ptr);
    }
  }

  // The encoder's pending output: full groups `done`, then the group under construction.
  ghost predicate Output(code: seq<byte>, ptr: nat, mask: int, done: seq<Token>, group: seq<Token>) {
    && GoodTokens(done) && |done| % 8 == 0 && |group| < 8
    && Grouped(code, ptr, group) && mask == Pow2(|group|)
  }

  // Flushing the group extends the serialization and stays within the output buffer.
  lemma GroupFits(src: seq<byte>, done: seq<Token>, group: seq<Token>, d: nat, code: seq<byte>, ptr: nat)
    requires Coded(src, done + group, d) && |done| % 8 == 0 && group != [] && Grouped(code, ptr, group)
    requires GoodTokens(done)
    ensures Serialize(done + group) == Serialize(done) + code[..ptr]
    ensures |Serialize(done)| + ptr <= |src| + (|src| + 7) / 8
  {
    SerializeConcat(done, group);
    assert code[..ptr] == [code[0]] + code[1..ptr];
    CodedLength(src, done + group, d);
  }

  // The group buffer holds the flag byte and the items of ts.
  ghost predicate Grouped(code: seq<byte>, ptr: nat, ts: seq<Token>) {
    && GoodTokens(ts) && |ts| <= 8 && |code| == 17
    && ptr == 1 + |Items(ts)| <= 17 && code[0] == Flags(ts) && code[1..ptr] == Items(ts)
  }

  ghost function Deeper(f: Forest, p: int): set<int>
    requires |f.rank| == N && 0 <= p < N
  {
    set q | 0 <= q < N && f.rank[q] > f.rank[p]
  }

  // What surrounds a node.
  lemma Around(f: Forest, text: seq<int>, p: int)
    requires LzssTree.Valid(f, text) && InTree(f, p)
    ensures (f.lson[p] == NIL || InTree(f, f.lson[p])) && (f.rson[p] == NIL || InTree(f, f.rson[p]))
    ensures f.lson[p] != p && f.rson[p] != p && (f.lson[p] == f.rson[p] ==> f.lson[p] == NIL)
    ensures (InTree(f, f.dad[p]) && f.dad[p] != p) || (IsRoot(f.dad[p]) && f.rson[f.dad[p]] == p)
    ensures f.dad[p] != f.lson[p] && f.dad[p] != f.rson[p]
  {
    assert Node(f, text, p);
    if f.lson[p] != NIL { assert Node(f, text, f.lson[p]); }
    if f.rson[p] != NIL { assert Node(f, text, f.rson[p]); }
  }

  // How p, with two children, and its predecessor q lie to each other.
  ghost predicate Kinship(f: Forest, p: int, q: int) {
    && |f.lson| == N + 1 && |f.rson| == N + 257 && |f.dad| == N + 1 && 0 <= p < N && 0 <= q < N && p != q
    && 0 <= f.lson[p] < N && 0 <= f.rson[p] < N && f.lson[p] != f.rson[p]
    && 0 <= f.lson[q] <= N && 0 <= f.dad[q] < N
    && (0 <= f.dad[p] < N || (IsRoot(f.dad[p]) && f.rson[f.dad[p]] == p))
    && f.dad[p] != p && f.dad[p] != q
    && f.lson[p] != p && f.rson[p] != p && f.rson[p] != q && f.lson[q] != q && f.lson[q] != p
    && f.dad[q] != f.dad[p] && f.dad[q] != q
    && (q != f.lson[p] ==> f.lson[q] != f.lson[p] && f.lson[q] != f.rson[p] && f.dad[q] != p)
  }

  lemma Kin(f: Forest, text: seq<int>, p: int, q: int)
    requires LzssTree.Valid(f, text) && InTree(f, p)
    requires f.lson[p] != NIL && f.rson[p] != NIL
    requires Predecessor(f, text, p, q)
    ensures Kinship(f, p, q)
  {
    assert Node(f, text, p);
    assert Node(f, text, q);
    assert Node(f, text, f.lson[p]);
    assert Node(f, text, f.rson[p]);
  }

  lemma Promotes(f: Forest, p: int, q: int, h: Forest, g: Forest)
    requires SameSize(f, h) && SameSize(h, g) && Kinship(f, p, q)
    requires TookChildren(f, p, q, h) && 0 <= h.dad[p] < N + 257 && Spliced(h, p, q, g)
    ensures Promoted(f, p, q, g)
  {
  }

  // Entries after TakeChildren.
  ghost predicate TookChildren(f: Forest, p: int, q: int, g: Forest)
    requires SameSize(f, g) && 0 <= p < N && 0 <= q < N
  {
    var spine := q != f.lson[p];
    && (forall i :: 0 <= i < N ==> g.dad[i] == TakenDad(f, p, q, i))
    && (forall i :: 0 <= i < N ==> g.lson[i] == if i == q && spine then f.lson[p] else f.lson[i])
    && (forall i :: 0 <= i < N + 257 ==> g.rson[i] == TakenRson(f, p, q, i))
    && (forall i :: 0 <= i < N ==> g.rank[i] == if i == q then f.rank[p] else f.rank[i])
  }

  function TakenDad(f: Forest, p: int, q: int, i: int): int
    requires |f.lson| == N + 1 && |f.rson| == N + 257 && |f.dad| == N + 1
    requires 0 <= p < N && 0 <= q < N && 0 <= i < N
  {
    if i == f.rson[p] || (i == f.lson[p] && i != q) then q
    else if i == f.lson[q] && q != f.lson[p] then f.dad[q]
    else f.dad[i]
  }

  function TakenRson(f: Forest, p: int, q: int, i: int): int
    requires |f.lson| == N + 1 && |f.rson| == N + 257 && |f.dad| == N + 1
    requires 0 <= p < N && 0 <= q < N && 0 <= i < N + 257
  {
    if i == q then f.rson[p]
    else if i == f.dad[q] && q != f.lson[p] then f.lson[q]
    else f.rson[i]
  }

  // The children of a root or of a node are nodes with the same first byte, deeper than it.
  lemma Child(f: Forest, text: seq<int>, p: int)
    requires LzssTree.Valid(f, text) && (IsRoot(p) || InTree(f, p))
    ensures f.rson[p] != NIL ==> InTree(f, f.rson[p]) && Below(f, text, p, f.rson[p])
    ensures InTree(f, p) && f.lson[p] != NIL ==> InTree(f, f.lson[p]) && Below(f, text, p, f.lson[p])
  {
    if IsRoot(p) {
      assert Points(f, p, f.rson[p]);
    } else {
      assert Node(f, text, p);
      if f.lson[p] != NIL { assert Node(f, text, f.lson[p]); }
    }
    if f.rson[p] != NIL { assert Node(f, text, f.rson[p]); }
  }

  ghost predicate Below(f: Forest, text: seq<int>, p: int, child: int)
    requires Sized(f, text) && 0 <= child < N
  {
    if IsRoot(p) then text[child] == p - (N + 1)
    else 0 <= p < N && text[child] == text[p] && f.rank[child] > f.rank[p]
  }

  lemma Filled(text: seq<int>, src: seq<byte>, len: nat)
    requires |text| == N + F - 1 && len <= |src| && len <= F
    requires forall k :: 0 <= k < N - F ==> text[k] == 32
    requires forall k :: N - F <= k < N - F + len ==> text[k] == src[k - (N - F)]
    ensures Window(text, src, 0, len)
  {
  }

  // The first step towards the predecessor, and the next ones.
  lemma FirstDown(f: Forest, text: seq<int>, p: int)
    requires LzssTree.Valid(f, text) && InTree(f, p) && f.lson[p] != NIL && f.rson[p] != NIL
    ensures Predecessor(f, text, p, f.lson[p])
  {
    assert Node(f, text, p);
    Child(f, text, p);
  }

  lemma NextDown(f: Forest, text: seq<int>, p: int, q: int)
    requires LzssTree.Valid(f, text) && InTree(f, p) && f.lson[p] != NIL
    requires Predecessor(f, text, p, q) && f.rson[q] != NIL
    ensures Predecessor(f, text, p, f.rson[q]) && Deeper(f, f.rson[q]) < Deeper(f, q)
  {
    Child(f, text, p);
    Child(f, text, q);
    assert Node(f, text, p) && Node(f, text, q) && Node(f, text, f.rson[q]);
    assert f.rson[q] in Deeper(f, q);
  }

  // After q has taken the children of p, p still hangs where it did.
  lemma StillPlaced(f: Forest, p: int, q: int, h: Forest)
    requires SameSize(f, h) && Kinship(f, p, q) && TookChildren(f, p, q, h)
    ensures h.dad[p] == f.dad[p] && h.dad[p] != q && (IsRoot(h.dad[p]) ==> h.rson[h.dad[p]] == p)
  {
  }

  // A step of the search goes down.
  lemma Deepens(f: Forest, text: seq<int>, p: int, child: int)
    requires LzssTree.Valid(f, text) && (IsRoot(p) || InTree(f, p)) && child != NIL
    requires child == f.rson[p] || (InTree(f, p) && child == f.lson[p])
    ensures InTree(f, child) && !IsRoot(child) && (!IsRoot(p) ==> Deeper(f, child) < Deeper(f, p))
  {
    Child(f, text, p);
    assert !IsRoot(p) ==> child in Deeper(f, p);
  }

  // Where the search ends, there is room for r.
  lemma EndOfSearch(f: Forest, text: seq<byte>, b: Bounds, r: int, n: int, p: int, right: bool)
    requires Standing(f, text, b, r, n, p, right) && |f.dad| == N + 1 && AtMost(f, text, r, n)
    ensures if IsRoot(p) then right && text[r] == p - (N + 1) else InTree(f, p) && text[r] == text[p]
    ensures forall x :: InTree(f, x) ==> Keys(text)[x] != Keys(text)[r]
  {
    hide Keys, AtMost, Seen, Ordered;
    AtMostDistinct(f, text, r, n);
  }

  lemma AtMostOld(f: Forest, g: Forest, text: seq<int>, r: int, n: int)
    requires |f.dad| == N + 1 && g.dad == f.dad && AtMost(g, text, r, n)
    ensures AtMost(f, text, r, n)
  {
    hide Agree;
    forall x | InTree(f, x)
      ensures !Agree(text, x, r, n + 1)
    {
      assert InTree(g, x);
    }
  }

  lemma DetachedOrder(f: Forest, g: Forest, text: seq<int>, k: seq<int>, b: Bounds, r: int)
    requires Ordered(f, text, k, b) && 0 <= r < N && !InTree(f, r)
    requires g == Forest(f.lson[r := NIL], f.rson[r := NIL], f.dad, f.rank)
    ensures Ordered(g, text, k, b)
  {
    Detached(f, g, text, r);
    forall x | InTree(g, x)
      ensures Exact(g, k, b, x)
    {
      assert Exact(f, k, b, x) && Node(f, text, x);
    }
  }

  // Clearing the children of a position that is not a node.
  lemma Detached(f: Forest, g: Forest, text: seq<int>, r: int)
    requires LzssTree.Valid(f, text) && 0 <= r < N && !InTree(f, r)
    requires g == Forest(f.lson[r := NIL], f.rson[r := NIL], f.dad, f.rank)
    ensures LzssTree.Valid(g, text)
  {
    forall p | InTree(g, p) ensures Node(g, text, p) {
      assert Node(f, text, p);
    }
    forall c | IsRoot(c) ensures Points(g, c, g.rson[c]) {
      assert Points(f, c, f.rson[c]);
    }
  }
}
