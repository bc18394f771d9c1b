/// States of the device while a file is truncated or extended, and what its steps do to them.
module DiskStates {
  import opened Arith
  import opened BlockTree
  import opened BlockPath
  import opened FileTree

  datatype Device = Device(n: nat, used: set<int>, heap: Heap, dino: seq<int>)

  ghost predicate SafeState(d: Device) {
    Sound(d.n, d.used, d.heap, d.dino)
  }

  /** A device and the blocks freed so far. */
  datatype State = State(d: Device, freed: multiset<int>)

  ghost predicate Apart(a: multiset<int>, b: multiset<int>) {
    forall x :: x in a ==> x !in b
  }

  ghost predicate Within(a: multiset<int>, s: set<int>) {
    forall x :: x in a ==> x in s
  }

  function Minus(s: set<int>, m: multiset<int>): set<int> {
    set x | x in s && x !in m
  }

  /** Exactly the blocks `gone` were freed, each once, and only pointer blocks in `touched` rewritten. */
  ghost predicate Freed(s: State, s': State, gone: multiset<int>, touched: multiset<int>) {
    var same := s'.d.n == s.d.n && s'.d.dino == s.d.dino;
    var released := s'.freed == s.freed + gone && s'.d.used == Minus(s.d.used, gone);
    same && released && SameOutside(s.d.heap, s'.d.heap, touched)
  }

  lemma FreedNothing(s: State)
    ensures Freed(s, s, multiset{}, multiset{})
  {
  }

  lemma FreedThen(s: State, s1: State, s2: State, g1: multiset<int>, g2: multiset<int>,
                  t1: multiset<int>, t2: multiset<int>, t: multiset<int>)
    requires Freed(s, s1, g1, t1) && Freed(s1, s2, g2, t2)
    requires forall b :: b in t1 || b in t2 ==> b in t
    ensures Freed(s, s2, g1 + g2, t)
  {
    forall b | b !in t
      ensures SameAt(s.d.heap, s2.d.heap, b)
    {
      assert SameAt(s.d.heap, s1.d.heap, b) && SameAt(s1.d.heap, s2.d.heap, b);
    }
  }

  /** k blocks in disk sectors. */
  function Sectors(nsec: nat, k: nat): nat {
    if k == 0 then 0 else nsec + Sectors(nsec, k - 1)
  }

  lemma {:induction false} SectorsAdd(nsec: nat, a: nat, b: nat)
    ensures Sectors(nsec, a + b) == Sectors(nsec, a) + Sectors(nsec, b)
  {
    if a > 0 {
      SectorsAdd(nsec, a - 1, b);
    }
  }

  lemma SectorsOf(nsec: nat, a: multiset<int>, b: multiset<int>)
    ensures Sectors(nsec, |a + b|) == Sectors(nsec, |a|) + Sectors(nsec, |b|)
  {
    SectorsAdd(nsec, |a|, |b|);
  }

  lemma {:induction false} SectorsProduct(nsec: nat, k: nat)
    ensures Sectors(nsec, k) == nsec * k
  {
    if k > 0 {
      SectorsProduct(nsec, k - 1);
    }
  }

  /** After the tail of a pointer block is zeroed the disk is still sound, and reaches nothing of it: when
      the block was reachable ... */
  lemma CutSoundLinked(d: Device, bn: int, l: nat, keep: nat, rest: multiset<int>)
    requires SafeState(d) && bn != 0 && l > 0 && keep <= d.n && Simple(Blocks(Abs(d.n, d.heap, bn, l)))
    requires Hangs(d.n, d.heap, d.dino, bn, l, rest)
    ensures var h1 := d.heap[bn := CutPointers(d.n, d.heap, bn, keep)];
            && Sound(d.n, d.used, h1, d.dino)
            && Apart(AllBlocks(Kids(d.n, d.heap, bn, l)[keep..]), Held(d.n, h1, d.dino))
  {
    var h1 := d.heap[bn := CutPointers(d.n, d.heap, bn, keep)];
    LinkedCut(d.n, d.heap, d.dino, bn, l, keep, rest);
    LessSound(Held(d.n, d.heap, d.dino), Held(d.n, h1, d.dino), AllBlocks(Kids(d.n, d.heap, bn, l)[keep..]));
  }

  /** ... and when it was not. */
  lemma CutSoundLoose(d: Device, bn: int, l: nat, keep: nat)
    requires SafeState(d) && bn != 0 && l > 0 && keep <= d.n
    requires Apart(Blocks(Abs(d.n, d.heap, bn, l)), Held(d.n, d.heap, d.dino))
    ensures var h1 := d.heap[bn := CutPointers(d.n, d.heap, bn, keep)];
            && Held(d.n, h1, d.dino) == Held(d.n, d.heap, d.dino)
            && Apart(AllBlocks(Kids(d.n, d.heap, bn, l)[keep..]), Held(d.n, h1, d.dino))
  {
    var h1 := d.heap[bn := CutPointers(d.n, d.heap, bn, keep)];
    assert bn in Blocks(Abs(d.n, d.heap, bn, l));
    HeldFrame(d.n, d.heap, h1, d.dino);
    CutList(Kids(d.n, d.heap, bn, l), keep);
  }

  lemma LinkedCut(n: nat, h: Heap, p: seq<int>, bn: int, l: nat, keep: nat, rest: multiset<int>)
    requires |p| == NPTRS && bn != 0 && l > 0 && keep <= n && Simple(Blocks(Abs(n, h, bn, l)))
    requires Hangs(n, h, p, bn, l, rest)
    ensures Held(n, h, p) ==
            Held(n, h[bn := CutPointers(n, h, bn, keep)], p) + AllBlocks(Kids(n, h, bn, l)[keep..])
  {
    var h1 := h[bn := CutPointers(n, h, bn, keep)];
    WriteCutBlocks(n, h, bn, l, keep);
    HangsNow(n, h, p, bn, l, rest);
    assert SameOutside(h, h1, Blocks(Abs(n, h, bn, l)));
  }

  lemma LessSound(whole: multiset<int>, part: multiset<int>, tail: multiset<int>)
    requires Simple(whole) && whole == part + tail
    ensures Simple(part) && (forall b :: b in part ==> b in whole) && Apart(tail, part)
  {
    SubSimple(part, whole);
    forall b | b in tail
      ensures b !in part
    {
      assert whole[b] == part[b] + tail[b];
    }
  }

  /** The pointers p of level l lead to the trees ts. */
  ghost predicate TreesAt(n: nat, h: Heap, p: seq<int>, l: nat, ts: seq<Tree>)
    decreases |p|
  {
    && |p| == |ts|
    && (p != [] ==> Abs(n, h, p[0], l) == ts[0] && TreesAt(n, h, p[1..], l, ts[1..]))
  }

  lemma {:induction false} TreesAtIndex(n: nat, h: Heap, p: seq<int>, l: nat, ts: seq<Tree>, i: nat)
    requires TreesAt(n, h, p, l, ts) && i < |p|
    ensures Abs(n, h, p[i], l) == ts[i]
  {
    if i > 0 {
      TreesAtIndex(n, h, p[1..], l, ts[1..], i - 1);
    }
  }

  lemma {:induction false} TreesAtAll(n: nat, h: Heap, p: seq<int>, l: nat, ts: seq<Tree>)
    requires |p| == |ts| && forall i :: 0 <= i < |p| ==> Abs(n, h, p[i], l) == ts[i]
    ensures TreesAt(n, h, p, l, ts)
  {
    if p != [] {
      forall i | 0 <= i < |p| - 1
        ensures Abs(n, h, p[1..][i], l) == ts[1..][i]
      {
        assert p[1..][i] == p[i + 1] && ts[1..][i] == ts[i + 1];
      }
      TreesAtAll(n, h, p[1..], l, ts[1..]);
    }
  }

  lemma CutFacts(n: nat, h: Heap, bn: int, l: nat, keep: nat)
    requires bn != 0 && l > 0 && keep <= n && Simple(Blocks(Abs(n, h, bn, l)))
    ensures var h1 := h[bn := CutPointers(n, h, bn, keep)];
            var ts := Kids(n, h, bn, l);
            && Simple(AllBlocks(ts))
            && TreesAt(n, h1, Pointers(n, h, bn), l - 1, ts)
            && Kids(n, h1, bn, l) == ts[..keep] + Holes(n - keep)
            && (forall i :: 0 <= i < keep ==> PtrAt(h1, bn, i) == PtrAt(h, bn, i))
  {
    WriteCutKids(n, h, bn, l, keep);
    TreesAtAll(n, h[bn := CutPointers(n, h, bn, keep)], Pointers(n, h, bn), l - 1, Kids(n, h, bn, l));
    SubSimple(AllBlocks(Kids(n, h, bn, l)), Blocks(Abs(n, h, bn, l)));
  }

  /** Nothing the trees behind `last` are made of is reachable, and all of it is still allocated. */
  ghost predicate TailApart(s: State, ts: seq<Tree>, last: int)
    requires -1 <= last < |ts| && |s.d.dino| == NPTRS
  {
    var tail := AllBlocks(ts[last + 1..]);
    Simple(AllBlocks(ts)) && Within(tail, s.d.used) && Apart(tail, Held(s.d.n, s.d.heap, s.d.dino))
  }

  ghost predicate TailLoose(s: State, bap: seq<int>, l: nat, last: int, ts: seq<Tree>) {
    && l > 0 && -1 <= last < |ts| == |bap| == s.d.n && |s.d.dino| == NPTRS
    && TreesAt(s.d.n, s.d.heap, bap, l - 1, ts) && TailApart(s, ts, last)
  }

  /** State s with the pointers of block bn zeroed from `keep` on. */
  function ZeroedFrom(s: State, bn: int, keep: nat): State
    requires keep <= s.d.n
  {
    s.(d := s.d.(heap := s.d.heap[bn := CutPointers(s.d.n, s.d.heap, bn, keep)]))
  }

  lemma LooseTail(s: State, bn: int, l: nat, last: int)
    requires bn != 0 && l > 0 && -1 <= last < s.d.n && |s.d.dino| == NPTRS && Owned(s, bn, l)
    requires Apart(AllBlocks(Kids(s.d.n, s.d.heap, bn, l)[last + 1..]),
                   Held(s.d.n, ZeroedFrom(s, bn, last + 1).d.heap, s.d.dino))
    ensures TailLoose(ZeroedFrom(s, bn, last + 1), Pointers(s.d.n, s.d.heap, bn), l, last, Kids(s.d.n, s.d.heap, bn, l))
  {
    CutFacts(s.d.n, s.d.heap, bn, l, last + 1);
    CutList(Kids(s.d.n, s.d.heap, bn, l), last + 1);
  }

  lemma NextOfTail(s: State, s1: State, ts: seq<Tree>, last: int, i: nat, nb: int, l: nat, gone: multiset<int>)
    requires -1 <= last < i < |ts| && |s.d.dino| == NPTRS
    requires Abs(s.d.n, s.d.heap, nb, l) == ts[i]
    requires TailApart(s, ts, last) && TailGone(s, s1, ts, i, gone)
    ensures Abs(s1.d.n, s1.d.heap, nb, l) == ts[i]
    ensures AllBlocks(ts[i..]) == gone + Blocks(ts[i])
    ensures Owned(s1, nb, l) && Placed(s1, nb, l, multiset{}, false)
  {
    ApartFromTail(s.d.n, s.d.heap, s1.d.heap, ts, i, nb, l);
    KidWithin(ts[last + 1..], i - last - 1);
    assert ts[last + 1..][i - last - 1] == ts[i];
  }

  /** Since state s the trees behind i, and nothing else, have been freed. */
  ghost predicate TailGone(s: State, s': State, ts: seq<Tree>, i: int, gone: multiset<int>)
    requires -1 <= i < |ts|
  {
    && gone == AllBlocks(ts[i + 1..]) && Freed(s, s', gone, gone) && |s.d.dino| == NPTRS
    && Held(s'.d.n, s'.d.heap, s'.d.dino) == Held(s.d.n, s.d.heap, s.d.dino)
  }

  /** The tree of block bn of level l with the pointers behind `last` gone. */
  function CutNode(s: State, bn: int, l: nat, last: int): (t: Tree)
    requires l > 0 && -1 <= last < s.d.n
    ensures t.Ind?
  {
    Ind(bn, Kids(s.d.n, s.d.heap, bn, l)[..last + 1] + Holes(s.d.n - last - 1))
  }

  lemma AfterCutTail(s: State, s2: State, bn: int, l: nat, last: int, gone: multiset<int>)
    requires bn != 0 && l > 0 && -1 <= last < s.d.n && Owned(s, bn, l)
    requires TailGone(ZeroedFrom(s, bn, last + 1), s2, Kids(s.d.n, s.d.heap, bn, l), last, gone)
    ensures CutTo(s, s2, bn, l, CutNode(s, bn, l, last), gone)
    ensures last >= 0 ==> PtrAt(s2.d.heap, bn, last) == PtrAt(s.d.heap, bn, last)
  {
    AfterTail(s, ZeroedFrom(s, bn, last + 1), s2, bn, l, last + 1);
  }

  /** What zeroing the tail of a pointer block and freeing it amounts to. */
  lemma AfterTail(s: State, s1: State, s2: State, bn: int, l: nat, keep: nat)
    requires bn != 0 && l > 0 && keep <= s.d.n && Simple(Blocks(Abs(s.d.n, s.d.heap, bn, l)))
    requires s1 == ZeroedFrom(s, bn, keep)
    requires var tail := AllBlocks(Kids(s.d.n, s.d.heap, bn, l)[keep..]); Freed(s1, s2, tail, tail)
    ensures var ts := Kids(s.d.n, s.d.heap, bn, l);
            CutTo(s, s2, bn, l, Ind(bn, ts[..keep] + Holes(s.d.n - keep)), AllBlocks(ts[keep..]))
    ensures forall i :: 0 <= i < keep ==> PtrAt(s2.d.heap, bn, i) == PtrAt(s.d.heap, bn, i)
  {
    var n, h, h1 := s.d.n, s.d.heap, s1.d.heap;
    var ts, b0 := Kids(n, h, bn, l), Blocks(Abs(n, h, bn, l));
    var tail := AllBlocks(ts[keep..]);
    WriteCutBlocks(n, h, bn, l, keep);
    WriteCutKids(n, h, bn, l, keep);
    LessSound(b0, Blocks(Abs(n, h1, bn, l)), tail);
    AbsFrame(n, h1, s2.d.heap, bn, l);
    assert bn in Blocks(Abs(n, h1, bn, l));
    assert SameAt(h1, s2.d.heap, bn);
    assert bn in b0;
    forall b | b !in b0
      ensures SameAt(h, s2.d.heap, b)
    {
      assert SameAt(h1, s2.d.heap, b);
    }
  }

  /** What truncating inside one subtree of a node amounts to. */
  lemma AfterLast(s: State, s2: State, bn: int, l: nat, i: nat, t': Tree, gone: multiset<int>)
    requires bn != 0 && l > 0 && i < s.d.n && Simple(Blocks(Abs(s.d.n, s.d.heap, bn, l)))
    requires CutTo(s, s2, PtrAt(s.d.heap, bn, i), l - 1, t', gone)
    ensures CutTo(s, s2, bn, l, Ind(bn, Kids(s.d.n, s.d.heap, bn, l)[i := t']), gone)
  {
    var n, h, h2, nb := s.d.n, s.d.heap, s2.d.heap, PtrAt(s.d.heap, bn, i);
    OneKid(n, h, h2, bn, l, i);
    KidRewrite(n, h, h2, bn, l, i);
    AllBlocksUpdate(Kids(n, h, bn, l), i, Hole);
    Regroup(multiset{bn}, Others(Kids(n, h, bn, l), i), gone, Blocks(t'));
  }

  lemma Regroup(a: multiset<int>, b: multiset<int>, c: multiset<int>, d: multiset<int>)
    ensures a + (b + (c + d)) == c + (a + (b + d))
  {
  }

  /** The blocks of the tree at (bn, l) are all different and all in use. */
  ghost predicate Owned(s: State, bn: int, l: nat) {
    var b := Blocks(Abs(s.d.n, s.d.heap, bn, l));
    Simple(b) && Within(b, s.d.used)
  }

  /** The tree at (bn, l) is either one place in the file on disk, or unreachable from it. */
  ghost predicate Placed(s: State, bn: int, l: nat, rest: multiset<int>, linked: bool) {
    && |s.d.dino| == NPTRS
    && (linked ==> Hangs(s.d.n, s.d.heap, s.d.dino, bn, l, rest))
    && (!linked ==> Apart(Blocks(Abs(s.d.n, s.d.heap, bn, l)), Held(s.d.n, s.d.heap, s.d.dino)))
  }

  /** The tree at (bn, l) became t', and exactly the blocks it lost were freed. */
  ghost predicate CutTo(s: State, s': State, bn: int, l: nat, t': Tree, gone: multiset<int>) {
    var b := Blocks(Abs(s.d.n, s.d.heap, bn, l));
    Freed(s, s', gone, b) && Abs(s'.d.n, s'.d.heap, bn, l) == t' && b == gone + Blocks(t')
  }

  lemma CutTwice(s: State, s1: State, s2: State, bn: int, l: nat, t1: Tree, t2: Tree,
                 g1: multiset<int>, g2: multiset<int>)
    requires CutTo(s, s1, bn, l, t1, g1) && CutTo(s1, s2, bn, l, t2, g2)
    ensures CutTo(s, s2, bn, l, t2, g1 + g2)
  {
    var b, b1 := Blocks(Abs(s.d.n, s.d.heap, bn, l)), Blocks(t1);
    PartsWithin(b, g1, b1);
    FreedThen(s, s1, s2, g1, g2, b, b1, b);
    Regroup3(g1, g2, Blocks(t2));
  }

  lemma PartsWithin(whole: multiset<int>, a: multiset<int>, b: multiset<int>)
    requires whole == a + b
    ensures forall x :: x in a || x in b ==> x in whole
  {
  }

  lemma Regroup3(a: multiset<int>, b: multiset<int>, c: multiset<int>)
    ensures a + (b + c) == (a + b) + c
  {
  }

  /** What ext2_indirtrunc makes of the tree of an indirect block: with lastbn == -1 the block itself stays
      for the caller to free. */
  function TruncTree(n: nat, t: Tree, l: nat, lastbn: int): Tree
    requires n > 0 && t.Ind? && Shape(n, t, l) && -1 <= lastbn < Pow(n, l)
  {
    if lastbn < 0 then Ind(t.b, Holes(n)) else Trunc(n, t, Offs(n, l, lastbn))
  }

  /** Truncation of a node, as a cut behind `last` and a truncation inside the last pointer kept. */
  lemma TruncNode(n: nat, bn: int, ts: seq<Tree>, l: nat, lastbn: nat, last: nat)
    requires n > 0 && l > 0 && |ts| == n && Shape(n, Ind(bn, ts), l) && lastbn < Pow(n, l)
    requires last == lastbn / Pow(n, l - 1)
    ensures last < n && lastbn % Pow(n, l - 1) < Pow(n, l - 1)
    ensures var ks := ts[..last + 1] + Holes(n - last - 1);
            && ks[last] == ts[last]
            && Trunc(n, Ind(bn, ts), Offs(n, l, lastbn)) ==
               Ind(bn, ks[last := Trunc(n, ks[last], Offs(n, l - 1, lastbn % Pow(n, l - 1)))])
  {
    OffsSplit(n, l, lastbn);
    var ks := ts[..last + 1] + Holes(n - last - 1);
    var t := Trunc(n, ts[last], Offs(n, l, lastbn)[1..]);
    assert ts[..last] + [t] + Holes(n - last - 1) == ks[last := t];
  }

  /** What ext2_indirtrunc does in two parts: a cut behind `last`, and a truncation inside the last pointer
      kept. */
  lemma TruncSplit(s: State, bn: int, l: nat, lastbn: int, last: int, f: nat, r: nat)
    requires s.d.n > 0 && bn != 0 && l > 0 && -1 <= lastbn < Pow(s.d.n, l) && f == Pow(s.d.n, l - 1)
    requires last >= -1 && (lastbn < 0 ==> last == lastbn)
    requires lastbn >= 0 ==> f > 0 && last == lastbn / f && r == lastbn % f
    requires Shape(s.d.n, Abs(s.d.n, s.d.heap, bn, l), l)
    ensures last < s.d.n && (lastbn >= 0 ==> last >= 0)
    ensures SplitsInto(s.d.n, TruncTree(s.d.n, Abs(s.d.n, s.d.heap, bn, l), l, lastbn), CutNode(s, bn, l, last), l, last, r)
  {
    SplitKids(s.d.n, bn, Kids(s.d.n, s.d.heap, bn, l), l, lastbn, last, f, r);
  }

  lemma SplitKids(n: nat, bn: int, ts: seq<Tree>, l: nat, lastbn: int, last: int, f: nat, r: nat)
    requires n > 0 && l > 0 && |ts| == n && -1 <= lastbn < Pow(n, l) && f == Pow(n, l - 1)
    requires last >= -1 && (lastbn < 0 ==> last == lastbn)
    requires lastbn >= 0 ==> f > 0 && last == lastbn / f && r == lastbn % f
    requires Shape(n, Ind(bn, ts), l)
    ensures last < n && (lastbn >= 0 ==> last >= 0)
    ensures SplitsInto(n, TruncTree(n, Ind(bn, ts), l, lastbn), Ind(bn, ts[..last + 1] + Holes(n - last - 1)), l, last, r)
  {
    if lastbn >= 0 {
      TruncNode(n, bn, ts, l, lastbn, last);
    } else {
      assert ts[..0] + Holes(n) == Holes(n);
    }
  }

  /** t is the node t1, truncated inside its subtree `last`; or t1 itself when nothing is kept. */
  ghost predicate SplitsInto(n: nat, t: Tree, t1: Tree, l: nat, last: int, r: nat) {
    && n > 0 && l > 0 && t1.Ind?
    && (last < 0 ==> t == t1)
    && (last >= 0 ==>
          && |t1.kids| == n && last < n && r < Pow(n, l - 1) && Shape(n, t1.kids[last], l - 1)
          && t == Ind(t1.b, t1.kids[last := Trunc(n, t1.kids[last], Offs(n, l - 1, r))]))
  }

  lemma LastKid(s: State, bn: int, l: nat, i: nat, ks: seq<Tree>, rest: multiset<int>)
    requires bn != 0 && l > 0 && i < s.d.n && Abs(s.d.n, s.d.heap, bn, l) == Ind(bn, ks)
    requires Owned(s, bn, l) && Placed(s, bn, l, rest, true)
    ensures ks == Kids(s.d.n, s.d.heap, bn, l)
    ensures var nb := PtrAt(s.d.heap, bn, i);
            && |ks| == s.d.n && Abs(s.d.n, s.d.heap, nb, l - 1) == ks[i] && Shape(s.d.n, ks[i], l - 1)
            && Owned(s, nb, l - 1) && Placed(s, nb, l - 1, rest + multiset{bn} + Others(ks, i), true)
  {
    AbsShape(s.d.n, s.d.heap, PtrAt(s.d.heap, bn, i), l - 1);
    KidOwned(s, bn, l, i);
    KidHangs(s.d.n, s.d.heap, s.d.dino, bn, l, rest, i);
  }

  lemma KidOwned(s: State, bn: int, l: nat, i: nat)
    requires bn != 0 && l > 0 && i < s.d.n && Owned(s, bn, l)
    ensures Owned(s, PtrAt(s.d.heap, bn, i), l - 1)
  {
    var ks := Kids(s.d.n, s.d.heap, bn, l);
    KidWithin(ks, i);
    SubSimple(Blocks(ks[i]), Blocks(Ind(bn, ks)));
  }

  lemma PlacedAfterCut(s: State, s1: State, bn: int, l: nat, rest: multiset<int>, t1: Tree, gone: multiset<int>)
    requires Placed(s, bn, l, rest, true) && Owned(s, bn, l) && CutTo(s, s1, bn, l, t1, gone)
    ensures Placed(s1, bn, l, rest, true) && Owned(s1, bn, l)
  {
    LessSound(Blocks(Abs(s.d.n, s.d.heap, bn, l)), Blocks(t1), gone);
    HangsAfter(s.d.n, s.d.heap, s1.d.heap, s.d.dino, bn, l, rest);
  }

  /** Freeing the trees behind i leaves tree i as it was. */
  lemma ApartFromTail(n: nat, h1: Heap, h: Heap, ts: seq<Tree>, i: nat, nb: int, l: nat)
    requires i < |ts| && Simple(AllBlocks(ts)) && SameOutside(h1, h, AllBlocks(ts[i + 1..]))
    requires Abs(n, h1, nb, l) == ts[i]
    ensures Abs(n, h, nb, l) == ts[i]
    ensures Simple(Blocks(ts[i]))
    ensures AllBlocks(ts[i..]) == Blocks(ts[i]) + AllBlocks(ts[i + 1..])
    ensures Apart(Blocks(ts[i]), AllBlocks(ts[i + 1..]))
  {
    assert ts[i..][0] == ts[i] && ts[i..][1..] == ts[i + 1..];
    assert ts == ts[..i] + ts[i..];
    AllBlocksAppend(ts[..i], ts[i..]);
    SubSimple(AllBlocks(ts[i..]), AllBlocks(ts));
    LessSound(AllBlocks(ts[i..]), AllBlocks(ts[i + 1..]), Blocks(ts[i]));
    SubSimple(Blocks(ts[i]), AllBlocks(ts[i..]));
    AbsFrame(n, h1, h, nb, l);
  }
}
