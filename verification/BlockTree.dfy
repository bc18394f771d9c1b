/// The block-pointer tree of an ext2 file, as a value.
///
/// A pointer of level 0 names a data block; a pointer of level l > 0 names an indirect block holding
/// n pointers of level l - 1.  A logical block below a pointer of level l is addressed by the l offsets
/// of the pointers that lead to it.  `Abs` reads such a tree out of the contents of the device; `Trunc`
/// and `Grow` say what truncation and allocation make of it, and the lemmas say what that means for the
/// mapping from logical to physical blocks and for the blocks the file holds.
module BlockTree {

  datatype Tree = Hole | Data(b: int) | Ind(b: int, kids: seq<Tree>)

  /** Contents of the pointer blocks on the device. */
  type Heap = map<int, seq<int>>

  function PtrAt(h: Heap, b: int, i: nat): int {
    if b in h && i < |h[b]| then h[b][i] else 0
  }

  function Abs(n: nat, h: Heap, bn: int, l: nat): Tree
    decreases l
  {
    if bn == 0 then Hole
    else if l == 0 then Data(bn)
    else Ind(bn, Kids(n, h, bn, l))
  }

  function Kids(n: nat, h: Heap, bn: int, l: nat): (kids: seq<Tree>)
    requires l > 0
    ensures |kids| == n
    decreases l, 0
  {
    seq(n, i requires 0 <= i < n => Abs(n, h, PtrAt(h, bn, i), l - 1))
  }

  /** The shape every tree read from a device has. */
  ghost predicate Shape(n: nat, t: Tree, l: nat)
    decreases l
  {
    match t
    case Hole => true
    case Data(_) => l == 0
    case Ind(_, kids) => l > 0 && |kids| == n && forall i :: 0 <= i < n ==> Shape(n, kids[i], l - 1)
  }

  /** A path of offsets, each of which fits a block of n pointers. */
  predicate InRange(n: nat, p: seq<nat>) {
    forall k :: 0 <= k < |p| ==> p[k] < n
  }

  /** The order of logical blocks: lexicographic order of their paths. */
  predicate LexLe(p: seq<nat>, q: seq<nat>)
    requires |p| == |q|
  {
    p == [] || p[0] < q[0] || (p[0] == q[0] && LexLe(p[1..], q[1..]))
  }

  function Blocks(t: Tree): multiset<int>
    decreases t, 1
  {
    match t
    case Hole => multiset{}
    case Data(b) => multiset{b}
    case Ind(b, kids) => multiset{b} + AllBlocks(kids)
  }

  function AllBlocks(ts: seq<Tree>): multiset<int>
    decreases ts, 0
  {
    if ts == [] then multiset{} else Blocks(ts[0]) + AllBlocks(ts[1..])
  }

  /** No block is held twice. */
  ghost predicate Simple(m: multiset<int>) {
    forall b :: m[b] <= 1
  }

  /** The physical block at path p; 0 is a hole. */
  function Lookup(n: nat, t: Tree, p: seq<nat>): int
    requires Shape(n, t, |p|) && InRange(n, p)
    decreases |p|
  {
    match t
    case Hole => 0
    case Data(b) => b
    case Ind(_, kids) => Lookup(n, kids[p[0]], p[1..])
  }

  /** Keep the logical blocks up to and including p, drop everything else. */
  function Trunc(n: nat, t: Tree, p: seq<nat>): Tree
    requires Shape(n, t, |p|) && InRange(n, p)
    decreases |p|
  {
    match t
    case Hole => Hole
    case Data(_) => t
    case Ind(b, kids) => Ind(b, kids[..p[0]] + [Trunc(n, kids[p[0]], p[1..])] + Holes(n - p[0] - 1))
  }

  /** Fill the path p from the top with the blocks bs, as far as they reach. */
  function Grow(n: nat, t: Tree, p: seq<nat>, bs: seq<int>): Tree
    requires Shape(n, t, |p|) && InRange(n, p)
    decreases |p|
  {
    if bs == [] then t
    else if p == [] then (if t.Hole? then Data(bs[0]) else t)
    else
      match t
      case Hole => Ind(bs[0], Holes(n)[p[0] := Grow(n, Hole, p[1..], bs[1..])])
      case Ind(b, kids) => Ind(b, kids[p[0] := Grow(n, kids[p[0]], p[1..], bs)])
  }

  function Holes(n: nat): (ts: seq<Tree>)
    ensures |ts| == n && forall i :: 0 <= i < n ==> ts[i] == Hole
  {
    seq(n, _ => Hole)
  }

  /** How many blocks the path p still lacks. */
  function Missing(n: nat, t: Tree, p: seq<nat>): nat
    requires Shape(n, t, |p|) && InRange(n, p)
    decreases |p|
  {
    match t
    case Hole => |p| + 1
    case Data(_) => 0
    case Ind(_, kids) => Missing(n, kids[p[0]], p[1..])
  }

  // ---------------------------------------------------------------- reading a tree from the device

  lemma {:induction false} AbsShape(n: nat, h: Heap, bn: int, l: nat)
    ensures Shape(n, Abs(n, h, bn, l), l)
    decreases l
  {
    if bn != 0 && l > 0 {
      forall i | 0 <= i < n
        ensures Shape(n, Kids(n, h, bn, l)[i], l - 1)
      {
        AbsShape(n, h, PtrAt(h, bn, i), l - 1);
      }
    }
  }

  /** A tree depends only on the contents of its own blocks. */
  lemma {:induction false} AbsFrame(n: nat, h: Heap, h': Heap, bn: int, l: nat)
    requires forall b :: b in Blocks(Abs(n, h, bn, l)) ==> SameAt(h, h', b)
    ensures Abs(n, h', bn, l) == Abs(n, h, bn, l)
    decreases l
  {
    if bn != 0 && l > 0 {
      var kids := Kids(n, h, bn, l);
      assert bn in Blocks(Abs(n, h, bn, l));
      assert SameAt(h, h', bn);
      forall i | 0 <= i < n
        ensures Kids(n, h', bn, l)[i] == kids[i]
      {
        KidWithin(kids, i);
        AbsFrame(n, h, h', PtrAt(h, bn, i), l - 1);
      }
      assert Kids(n, h', bn, l) == kids;
    }
  }

  ghost predicate SameAt(h: Heap, h': Heap, b: int) {
    (b in h <==> b in h') && (b in h ==> h[b] == h'[b])
  }

  // ---------------------------------------------------------------- blocks of a list of trees

  lemma {:induction false} AllBlocksAppend(a: seq<Tree>, b: seq<Tree>)
    ensures AllBlocks(a + b) == AllBlocks(a) + AllBlocks(b)
  {
    if a == [] {
      assert a + b == b;
    } else {
      assert (a + b)[0] == a[0] && (a + b)[1..] == a[1..] + b;
      AllBlocksAppend(a[1..], b);
    }
  }

  lemma InitAndLast(ts: seq<Tree>, init: seq<Tree>, t: Tree)
    requires ts != [] && init == ts[..|ts| - 1] && t == ts[|ts| - 1]
    ensures AllBlocks(ts) == AllBlocks(init) + Blocks(t)
  {
    AllBlocksAppend(init, [t]);
    assert [t][1..] == [];
    assert ts == init + [t];
  }

  lemma AllBlocksSplit(ts: seq<Tree>, i: nat)
    requires i < |ts|
    ensures AllBlocks(ts) == AllBlocks(ts[..i]) + Blocks(ts[i]) + AllBlocks(ts[i + 1..])
  {
    assert ts == ts[..i] + ts[i..];
    AllBlocksAppend(ts[..i], ts[i..]);
    assert ts[i..][0] == ts[i] && ts[i..][1..] == ts[i + 1..];
  }

  function Others(ts: seq<Tree>, i: nat): multiset<int>
    requires i < |ts|
  {
    AllBlocks(ts[..i]) + AllBlocks(ts[i + 1..])
  }

  lemma AllBlocksUpdate(ts: seq<Tree>, i: nat, t: Tree)
    requires i < |ts|
    ensures AllBlocks(ts) == Others(ts, i) + Blocks(ts[i])
    ensures AllBlocks(ts[i := t]) == Others(ts, i) + Blocks(t)
  {
    AllBlocksSplit(ts, i);
    AllBlocksSplit(ts[i := t], i);
    assert ts[i := t][..i] == ts[..i] && ts[i := t][i + 1..] == ts[i + 1..];
  }

  lemma KidWithin(ts: seq<Tree>, i: nat)
    requires i < |ts|
    ensures Blocks(ts[i]) <= AllBlocks(ts)
  {
    AllBlocksSplit(ts, i);
  }

  lemma {:induction false} HolesEmpty(ts: seq<Tree>)
    requires forall i :: 0 <= i < |ts| ==> ts[i] == Hole
    ensures AllBlocks(ts) == multiset{}
  {
    if ts != [] {
      HolesEmpty(ts[1..]);
    }
  }

  lemma {:induction false} CountWithin(ts: seq<Tree>, i: nat, b: int)
    requires i < |ts|
    ensures Blocks(ts[i])[b] <= AllBlocks(ts)[b]
  {
    if i > 0 {
      CountWithin(ts[1..], i - 1, b);
    }
  }

  lemma FirstAndRest(ts: seq<Tree>, rest: seq<Tree>, b: int)
    requires ts != [] && rest == ts[1..]
    ensures AllBlocks(ts)[b] == Blocks(ts[0])[b] + AllBlocks(rest)[b]
  {
  }

  lemma {:induction false} CountTwice(ts: seq<Tree>, i: nat, j: nat, b: int)
    requires i < j < |ts|
    ensures Blocks(ts[i])[b] + Blocks(ts[j])[b] <= AllBlocks(ts)[b]
  {
    var rest := ts[1..];
    FirstAndRest(ts, rest, b);
    assert rest[j - 1] == ts[j] && (i > 0 ==> rest[i - 1] == ts[i]);
    if i == 0 {
      CountWithin(rest, j - 1, b);
    } else {
      CountTwice(rest, i - 1, j - 1, b);
    }
  }

  /** Two different trees of a simple list have no block in common. */
  lemma Disjoint(ts: seq<Tree>, i: nat, j: nat, b: int)
    requires i < |ts| && j < |ts| && i != j
    requires Simple(AllBlocks(ts)) && b in Blocks(ts[i])
    ensures b !in Blocks(ts[j])
  {
    if i < j {
      CountTwice(ts, i, j, b);
    } else {
      CountTwice(ts, j, i, b);
    }
  }

  lemma SubSimple(a: multiset<int>, b: multiset<int>)
    requires a <= b && Simple(b)
    ensures Simple(a)
  {
    forall x
      ensures a[x] <= 1
    {
      assert a[x] <= b[x];
    }
  }

  // ---------------------------------------------------------------- truncation

  lemma {:induction false} TruncShape(n: nat, t: Tree, p: seq<nat>)
    requires Shape(n, t, |p|) && InRange(n, p)
    ensures Shape(n, Trunc(n, t, p), |p|)
    decreases |p|
  {
    if t.Ind? {
      TruncShape(n, t.kids[p[0]], p[1..]);
    }
  }

  /** Truncation keeps every mapping up to p and makes every later one a hole. */
  lemma {:induction false} TruncLookup(n: nat, t: Tree, p: seq<nat>, q: seq<nat>)
    requires Shape(n, t, |p|) && InRange(n, p) && |q| == |p| && InRange(n, q)
    ensures Shape(n, Trunc(n, t, p), |p|)
    ensures Lookup(n, Trunc(n, t, p), q) == if LexLe(q, p) then Lookup(n, t, q) else 0
    decreases |p|
  {
    TruncShape(n, t, p);
    if t.Ind? && p[0] == q[0] {
      TruncLookup(n, t.kids[p[0]], p[1..], q[1..]);
    }
  }

  /** Truncation only gives blocks up. */
  lemma {:induction false} TruncBlocks(n: nat, t: Tree, p: seq<nat>)
    requires Shape(n, t, |p|) && InRange(n, p)
    ensures Blocks(Trunc(n, t, p)) <= Blocks(t)
    decreases |p|
  {
    if t.Ind? {
      var k := p[0];
      var t' := Trunc(n, t, p);
      TruncBlocks(n, t.kids[k], p[1..]);
      AllBlocksSplit(t.kids, k);
      AllBlocksSplit(t'.kids, k);
      assert t'.kids[..k] == t.kids[..k];
      HolesEmpty(t'.kids[k + 1..]);
    }
  }

  // ---------------------------------------------------------------- allocation along a path

  lemma {:induction false} GrowShape(n: nat, t: Tree, p: seq<nat>, bs: seq<int>)
    requires Shape(n, t, |p|) && InRange(n, p)
    ensures Shape(n, Grow(n, t, p, bs), |p|)
    decreases |p|
  {
    if bs != [] && p != [] {
      match t
      case Hole => GrowShape(n, Hole, p[1..], bs[1..]);
      case Ind(_, kids) => GrowShape(n, kids[p[0]], p[1..], bs);
    }
  }

  /** No other logical block moves; the wanted one appears exactly when the path is complete. */
  lemma {:induction false} GrowLookup(n: nat, t: Tree, p: seq<nat>, bs: seq<int>, q: seq<nat>)
    requires Shape(n, t, |p|) && InRange(n, p) && |q| == |p| && InRange(n, q)
    requires |bs| <= Missing(n, t, p)
    ensures Shape(n, Grow(n, t, p, bs), |p|)
    ensures Lookup(n, Grow(n, t, p, bs), q) ==
            if q == p && |bs| == Missing(n, t, p) && bs != [] then bs[|bs| - 1] else Lookup(n, t, q)
    decreases |p|
  {
    GrowShape(n, t, p, bs);
    if bs != [] && p != [] {
      assert q == p <==> q[0] == p[0] && q[1..] == p[1..] by {
        assert p == [p[0]] + p[1..] && q == [q[0]] + q[1..];
      }
      match t
      case Hole =>
        if q[0] == p[0] { GrowLookup(n, Hole, p[1..], bs[1..], q[1..]); }
      case Ind(_, kids) =>
        if q[0] == p[0] { GrowLookup(n, kids[p[0]], p[1..], bs, q[1..]); }
    }
  }

  lemma OnlyKidBlocks(n: nat, k: nat, t: Tree)
    requires k < n
    ensures AllBlocks(Holes(n)[k := t]) == Blocks(t)
  {
    AllBlocksUpdate(Holes(n), k, t);
    HolesEmpty(Holes(n)[..k]);
    HolesEmpty(Holes(n)[k + 1..]);
  }

  lemma HeadTail(bs: seq<int>)
    requires bs != []
    ensures multiset(bs) == multiset{bs[0]} + multiset(bs[1..])
  {
    assert bs == [bs[0]] + bs[1..];
  }

  /** The blocks added are exactly the ones handed in. */
  lemma {:induction false} GrowBlocks(n: nat, t: Tree, p: seq<nat>, bs: seq<int>)
    requires Shape(n, t, |p|) && InRange(n, p)
    requires |bs| <= Missing(n, t, p)
    ensures Blocks(Grow(n, t, p, bs)) == Blocks(t) + multiset(bs)
    decreases |p|
  {
    if bs == [] {
    } else if p == [] {
      assert bs == [bs[0]];
    } else {
      match t
      case Hole =>
        GrowBlocks(n, Hole, p[1..], bs[1..]);
        OnlyKidBlocks(n, p[0], Grow(n, Hole, p[1..], bs[1..]));
        HeadTail(bs);
      case Ind(_, kids) =>
        GrowBlocks(n, kids[p[0]], p[1..], bs);
        AllBlocksUpdate(kids, p[0], Grow(n, kids[p[0]], p[1..], bs));
    }
  }

  /** Allocating one more block extends the same path. */
  lemma {:induction false} GrowSnoc(n: nat, t: Tree, p: seq<nat>, bs: seq<int>, b: int)
    requires Shape(n, t, |p|) && InRange(n, p)
    requires |bs| < Missing(n, t, p)
    ensures Shape(n, Grow(n, t, p, bs), |p|)
    ensures Grow(n, Grow(n, t, p, bs), p, [b]) == Grow(n, t, p, bs + [b])
    ensures Missing(n, Grow(n, t, p, bs), p) == Missing(n, t, p) - |bs|
    decreases |p|
  {
    GrowShape(n, t, p, bs);
    if bs == [] {
      assert bs + [b] == [b];
    } else if p != [] {
      match t
      case Hole =>
        assert (bs + [b])[1..] == bs[1..] + [b];
        GrowSnoc(n, Hole, p[1..], bs[1..], b);
      case Ind(_, kids) =>
        GrowSnoc(n, kids[p[0]], p[1..], bs, b);
    }
  }
}
