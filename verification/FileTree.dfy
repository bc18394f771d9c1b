/// The trees of one file together: fifteen pointers in the inode, twelve to data blocks and one each to
/// a single, double and triple indirect block.
module FileTree {
  import opened Arith
  import opened BlockTree
  import opened BlockPath

  const NPTRS := NDADDR + NIADDR

  function RootLevel(k: nat): nat {
    if k < NDADDR then 0 else k - NDADDR + 1
  }

  function Roots(n: nat, h: Heap, p: seq<int>): (ts: seq<Tree>)
    requires |p| == NPTRS
    ensures |ts| == NPTRS
  {
    seq(NPTRS, k requires 0 <= k < NPTRS => Abs(n, h, p[k], RootLevel(k)))
  }

  /** Every block the pointers p hold, with multiplicity. */
  function Held(n: nat, h: Heap, p: seq<int>): multiset<int>
    requires |p| == NPTRS
  {
    AllBlocks(Roots(n, h, p))
  }

  /** No block is held twice, and every block held is marked in use. */
  ghost predicate Sound(n: nat, used: set<int>, h: Heap, p: seq<int>) {
    && |p| == NPTRS
    && Simple(Held(n, h, p))
    && forall b :: b in Held(n, h, p) ==> b in used
  }

  /** The first k pointers, all of them direct, are in use and the others are not. */
  ghost predicate DirectOnly(p: seq<int>, k: nat) {
    |p| == NPTRS && k <= NDADDR && forall i :: 0 <= i < NPTRS ==> (p[i] != 0 <==> i < k)
  }

  /** Such a file holds what these pointers name. */
  lemma DirectHeld(n: nat, h: Heap, p: seq<int>, k: nat)
    requires DirectOnly(p, k)
    ensures Held(n, h, p) == multiset(p[..k])
  {
    forall i | 0 <= i < NPTRS
      ensures Blocks(Roots(n, h, p)[i]) == if i < k then multiset{p[..k][i]} else multiset{}
    {
    }
    OneEach(Roots(n, h, p), p[..k]);
  }

  lemma {:induction false} OneEach(ts: seq<Tree>, bs: seq<int>)
    requires |bs| <= |ts| && forall i :: 0 <= i < |ts| ==> Blocks(ts[i]) == if i < |bs| then multiset{bs[i]} else multiset{}
    ensures AllBlocks(ts) == multiset(bs)
  {
    if bs != [] {
      OneEach(ts[1..], bs[1..]);
      assert bs == [bs[0]] + bs[1..];
    } else if ts != [] {
      OneEach(ts[1..], bs);
    }
  }

  ghost predicate SameOutside(h: Heap, h': Heap, m: multiset<int>) {
    forall b :: b !in m ==> SameAt(h, h', b)
  }

  /** The tree at (bn, l) is one place in the file: whatever is rewritten inside it, the file holds `rest`
      and the blocks of that tree. */
  ghost predicate Hangs(n: nat, h: Heap, p: seq<int>, bn: int, l: nat, rest: multiset<int>)
    requires |p| == NPTRS
  {
    forall h' :: SameOutside(h, h', Blocks(Abs(n, h, bn, l))) ==>
                   Held(n, h', p) == rest + Blocks(Abs(n, h', bn, l))
  }

  lemma HangsNow(n: nat, h: Heap, p: seq<int>, bn: int, l: nat, rest: multiset<int>)
    requires |p| == NPTRS && Hangs(n, h, p, bn, l, rest)
    ensures Held(n, h, p) == rest + Blocks(Abs(n, h, bn, l))
  {
    assert SameOutside(h, h, Blocks(Abs(n, h, bn, l)));
  }

  lemma HeldFrame(n: nat, h: Heap, h': Heap, p: seq<int>)
    requires |p| == NPTRS
    requires forall b :: b in Held(n, h, p) ==> SameAt(h, h', b)
    ensures Roots(n, h', p) == Roots(n, h, p)
  {
    forall k | 0 <= k < NPTRS
      ensures Roots(n, h', p)[k] == Roots(n, h, p)[k]
    {
      KidWithin(Roots(n, h, p), k);
      AbsFrame(n, h, h', p[k], RootLevel(k));
    }
  }

  /** Rewriting inside one tree of a simple list leaves the others alone. */
  lemma OtherKid(n: nat, h: Heap, h': Heap, ts: seq<Tree>, i: nat, j: nat, bn: int, l: nat)
    requires i < |ts| && j < |ts| && i != j && Simple(AllBlocks(ts))
    requires ts[j] == Abs(n, h, bn, l) && SameOutside(h, h', Blocks(ts[i]))
    ensures Abs(n, h', bn, l) == ts[j]
  {
    forall b | b in Blocks(ts[j])
      ensures SameAt(h, h', b)
    {
      Disjoint(ts, j, i, b);
    }
    AbsFrame(n, h, h', bn, l);
  }

  lemma OneRoot(n: nat, h: Heap, h': Heap, p: seq<int>, k: nat)
    requires |p| == NPTRS && k < NPTRS && Simple(Held(n, h, p))
    requires SameOutside(h, h', Blocks(Roots(n, h, p)[k]))
    ensures Roots(n, h', p) == Roots(n, h, p)[k := Abs(n, h', p[k], RootLevel(k))]
  {
    var ts := Roots(n, h, p);
    forall j | 0 <= j < NPTRS && j != k
      ensures Roots(n, h', p)[j] == ts[j]
    {
      OtherKid(n, h, h', ts, k, j, p[j], RootLevel(j));
    }
  }

  lemma RootHangs(n: nat, h: Heap, p: seq<int>, k: nat)
    requires |p| == NPTRS && k < NPTRS && Simple(Held(n, h, p))
    ensures Hangs(n, h, p, p[k], RootLevel(k), Others(Roots(n, h, p), k))
  {
    forall h' | SameOutside(h, h', Blocks(Abs(n, h, p[k], RootLevel(k))))
      ensures Held(n, h', p) == Others(Roots(n, h, p), k) + Blocks(Abs(n, h', p[k], RootLevel(k)))
    {
      OneRoot(n, h, h', p, k);
      AllBlocksUpdate(Roots(n, h, p), k, Abs(n, h', p[k], RootLevel(k)));
    }
  }

  lemma OneKid(n: nat, h: Heap, h': Heap, bn: int, l: nat, i: nat)
    requires bn != 0 && l > 0 && i < n && Simple(Blocks(Abs(n, h, bn, l)))
    requires SameOutside(h, h', Blocks(Kids(n, h, bn, l)[i]))
    ensures SameAt(h, h', bn)
    ensures Kids(n, h', bn, l) == Kids(n, h, bn, l)[i := Abs(n, h', PtrAt(h, bn, i), l - 1)]
  {
    var ts := Kids(n, h, bn, l);
    NodeApart(n, h, bn, l, i);
    SubSimple(AllBlocks(ts), Blocks(Abs(n, h, bn, l)));
    forall j | 0 <= j < n && j != i
      ensures Kids(n, h', bn, l)[j] == ts[j]
    {
      OtherKid(n, h, h', ts, i, j, PtrAt(h, bn, j), l - 1);
    }
  }

  /** In a simple tree a node is not a block of one of its subtrees. */
  lemma NodeApart(n: nat, h: Heap, bn: int, l: nat, i: nat)
    requires bn != 0 && l > 0 && i < n && Simple(Blocks(Abs(n, h, bn, l)))
    ensures bn !in Blocks(Kids(n, h, bn, l)[i])
  {
    KidWithin(Kids(n, h, bn, l), i);
    assert Blocks(Abs(n, h, bn, l))[bn] == 1 + AllBlocks(Kids(n, h, bn, l))[bn];
  }

  /** Rewriting inside one subtree of a node changes the blocks of that subtree only. */
  lemma KidRewrite(n: nat, h: Heap, h': Heap, bn: int, l: nat, i: nat)
    requires bn != 0 && l > 0 && i < n && Simple(Blocks(Abs(n, h, bn, l)))
    requires SameOutside(h, h', Blocks(Abs(n, h, PtrAt(h, bn, i), l - 1)))
    ensures SameOutside(h, h', Blocks(Abs(n, h, bn, l)))
    ensures Blocks(Abs(n, h', bn, l)) ==
            multiset{bn} + (Others(Kids(n, h, bn, l), i) + Blocks(Abs(n, h', PtrAt(h, bn, i), l - 1)))
  {
    var ts := Kids(n, h, bn, l);
    KidWithin(ts, i);
    OneKid(n, h, h', bn, l, i);
    AllBlocksUpdate(ts, i, Abs(n, h', PtrAt(h, bn, i), l - 1));
  }

  lemma KidHangs(n: nat, h: Heap, p: seq<int>, bn: int, l: nat, rest: multiset<int>, i: nat)
    requires |p| == NPTRS && bn != 0 && l > 0 && i < n
    requires Simple(Blocks(Abs(n, h, bn, l))) && Hangs(n, h, p, bn, l, rest)
    ensures Hangs(n, h, p, PtrAt(h, bn, i), l - 1, rest + multiset{bn} + Others(Kids(n, h, bn, l), i))
  {
    var o := Others(Kids(n, h, bn, l), i);
    forall h' | SameOutside(h, h', Blocks(Abs(n, h, PtrAt(h, bn, i), l - 1)))
      ensures Held(n, h', p) == rest + multiset{bn} + o + Blocks(Abs(n, h', PtrAt(h, bn, i), l - 1))
    {
      KidRewrite(n, h, h', bn, l, i);
      Regroup4(rest, multiset{bn}, o, Blocks(Abs(n, h', PtrAt(h, bn, i), l - 1)));
    }
  }

  lemma Regroup4(a: multiset<int>, b: multiset<int>, c: multiset<int>, d: multiset<int>)
    ensures a + (b + (c + d)) == a + b + c + d
  {
  }

  lemma HangsAfter(n: nat, h: Heap, h1: Heap, p: seq<int>, bn: int, l: nat, rest: multiset<int>)
    requires |p| == NPTRS && Hangs(n, h, p, bn, l, rest)
    requires SameOutside(h, h1, Blocks(Abs(n, h, bn, l)))
    requires forall b :: b in Blocks(Abs(n, h1, bn, l)) ==> b in Blocks(Abs(n, h, bn, l))
    ensures Hangs(n, h1, p, bn, l, rest)
  {
    forall h' | SameOutside(h1, h', Blocks(Abs(n, h1, bn, l)))
      ensures Held(n, h', p) == rest + Blocks(Abs(n, h', bn, l))
    {
      SameTrans(h, h1, h', Blocks(Abs(n, h, bn, l)), Blocks(Abs(n, h1, bn, l)));
    }
  }

  lemma SameTrans(h: Heap, h1: Heap, h2: Heap, m: multiset<int>, m1: multiset<int>)
    requires SameOutside(h, h1, m) && SameOutside(h1, h2, m1)
    requires forall b :: b in m1 ==> b in m
    ensures SameOutside(h, h2, m)
  {
    forall b | b !in m
      ensures SameAt(h, h2, b)
    {
      assert SameAt(h, h1, b) && SameAt(h1, h2, b);
    }
  }

  // ---------------------------------------------------------------- cutting the tail of one pointer block

  function Zeros(k: nat): (z: seq<int>)
    ensures |z| == k && forall i :: 0 <= i < k ==> z[i] == 0
  {
    seq(k, _ => 0)
  }

  function Pointers(n: nat, h: Heap, bn: int): (c: seq<int>)
    ensures |c| == n && forall i :: 0 <= i < n ==> c[i] == PtrAt(h, bn, i)
  {
    seq(n, i requires 0 <= i < n => PtrAt(h, bn, i))
  }

  /** The contents of a pointer block with everything from `keep` on zeroed. */
  function CutPointers(n: nat, h: Heap, bn: int, keep: nat): (c: seq<int>)
    requires keep <= n
    ensures |c| == n
  {
    Pointers(n, h, bn)[..keep] + Zeros(n - keep)
  }

  /** Rewriting a node leaves the trees behind its old pointers alone. */
  lemma KidsKept(n: nat, h: Heap, bn: int, l: nat, c: seq<int>)
    requires bn != 0 && l > 0 && Simple(Blocks(Abs(n, h, bn, l)))
    ensures forall i :: 0 <= i < n ==> Abs(n, h[bn := c], Pointers(n, h, bn)[i], l - 1) == Kids(n, h, bn, l)[i]
  {
    forall i | 0 <= i < n
      ensures Abs(n, h[bn := c], Pointers(n, h, bn)[i], l - 1) == Kids(n, h, bn, l)[i]
    {
      NodeApart(n, h, bn, l, i);
      AbsFrame(n, h, h[bn := c], PtrAt(h, bn, i), l - 1);
    }
  }

  lemma WriteCutKids(n: nat, h: Heap, bn: int, l: nat, keep: nat)
    requires bn != 0 && l > 0 && keep <= n && Simple(Blocks(Abs(n, h, bn, l)))
    ensures var h1 := h[bn := CutPointers(n, h, bn, keep)];
            && (forall i :: 0 <= i < n ==> Abs(n, h1, Pointers(n, h, bn)[i], l - 1) == Kids(n, h, bn, l)[i])
            && Kids(n, h1, bn, l) == Kids(n, h, bn, l)[..keep] + Holes(n - keep)
  {
    KidsKept(n, h, bn, l, CutPointers(n, h, bn, keep));
  }

  lemma WriteCutBlocks(n: nat, h: Heap, bn: int, l: nat, keep: nat)
    requires bn != 0 && l > 0 && keep <= n && Simple(Blocks(Abs(n, h, bn, l)))
    ensures var h1 := h[bn := CutPointers(n, h, bn, keep)];
            && Blocks(Abs(n, h1, bn, l)) == multiset{bn} + AllBlocks(Kids(n, h, bn, l)[..keep])
            && Blocks(Abs(n, h1, bn, l)) + AllBlocks(Kids(n, h, bn, l)[keep..]) == Blocks(Abs(n, h, bn, l))
  {
    var ts := Kids(n, h, bn, l);
    WriteCutKids(n, h, bn, l, keep);
    CutList(ts, keep);
    assert Blocks(Abs(n, h, bn, l)) == multiset{bn} + (AllBlocks(ts[..keep]) + AllBlocks(ts[keep..]));
  }

  lemma CutList(ts: seq<Tree>, keep: nat)
    requires keep <= |ts|
    ensures AllBlocks(ts[..keep] + Holes(|ts| - keep)) == AllBlocks(ts[..keep])
    ensures AllBlocks(ts) == AllBlocks(ts[..keep]) + AllBlocks(ts[keep..])
  {
    AppendHoles(ts[..keep], Holes(|ts| - keep));
    Halves(ts, keep);
  }

  lemma AppendHoles(ts: seq<Tree>, z: seq<Tree>)
    requires forall i :: 0 <= i < |z| ==> z[i] == Hole
    ensures AllBlocks(ts + z) == AllBlocks(ts)
  {
    AllBlocksAppend(ts, z);
    HolesEmpty(z);
  }

  lemma Halves(ts: seq<Tree>, keep: nat)
    requires keep <= |ts|
    ensures AllBlocks(ts) == AllBlocks(ts[..keep]) + AllBlocks(ts[keep..])
  {
    AllBlocksOf(ts, ts[..keep], ts[keep..]);
  }

  lemma AllBlocksOf(ts: seq<Tree>, a: seq<Tree>, b: seq<Tree>)
    requires ts == a + b
    ensures AllBlocks(ts) == AllBlocks(a) + AllBlocks(b)
  {
    AllBlocksAppend(a, b);
  }
}
