/// The file as a whole: what truncation and allocation do to the fifteen trees of the inode.
module FileRoots {
  import opened Arith
  import opened BlockTree
  import opened BlockPath
  import opened FileTree
  import opened DiskStates

  /** How many of the inode's pointers survive truncation to last block `last`. */
  function Kept(n: nat, last: int): (k: nat)
    requires last >= -1
    ensures k <= NPTRS
  {
    if last < NDADDR then last + 1
    else if last < Base(n, 2) then NDADDR + 1
    else if last < Base(n, 3) then NDADDR + 2
    else NPTRS
  }

  ghost predicate RootShapes(n: nat, ts: seq<Tree>) {
    |ts| == NPTRS && forall k :: 0 <= k < NPTRS ==> Shape(n, ts[k], RootLevel(k))
  }

  lemma RootsShaped(n: nat, h: Heap, p: seq<int>)
    requires |p| == NPTRS
    ensures RootShapes(n, Roots(n, h, p))
  {
    forall k | 0 <= k < NPTRS
      ensures Shape(n, Roots(n, h, p)[k], RootLevel(k))
    {
      AbsShape(n, h, p[k], RootLevel(k));
    }
  }

  /** Which pointer of the inode leads to logical block bn ... */
  function RootIndex(n: nat, bn: nat): (k: nat)
    requires Level(n, bn) <= NIADDR
    ensures k < NPTRS && RootLevel(k) == Level(n, bn)
  {
    if bn < NDADDR then bn else NDADDR + Level(n, bn) - 1
  }

  /** ... and by which offsets. */
  function RootPath(n: nat, bn: nat): (p: seq<nat>)
    requires n > 0 && Level(n, bn) <= NIADDR
    ensures |p| == Level(n, bn) && InRange(n, p)
  {
    if bn < NDADDR then []
    else
      LevelBase(n, bn);
      Offs(n, Level(n, bn), bn - Base(n, Level(n, bn)))
  }

  /** The physical block of logical block bn of a file; 0 is a hole. */
  function FileLookup(n: nat, ts: seq<Tree>, bn: nat): int
    requires n > 0 && RootShapes(n, ts) && Level(n, bn) <= NIADDR
  {
    Lookup(n, ts[RootIndex(n, bn)], RootPath(n, bn))
  }

  /** The trees of a file truncated to last block `last`. */
  function TruncRoots(n: nat, ts: seq<Tree>, last: int): (r: seq<Tree>)
    requires n > 0 && RootShapes(n, ts) && last >= -1 && (last >= 0 ==> Level(n, last) <= NIADDR)
    ensures |r| == NPTRS
  {
    if last < NDADDR then ts[..last + 1] + Holes(NPTRS - last - 1)
    else
      KeptLevel(n, last);
      CutAt(n, ts, Level(n, last), last - Base(n, Level(n, last)))
  }

  /** Cut inside the indirect tree of level l, r blocks behind its first one. */
  function CutAt(n: nat, ts: seq<Tree>, l: nat, r: nat): (t: seq<Tree>)
    requires n > 0 && |ts| == NPTRS && 1 <= l <= NIADDR && Shape(n, ts[NDADDR + l - 1], l)
    ensures |t| == NPTRS
  {
    ts[..NDADDR + l - 1] + [Trunc(n, ts[NDADDR + l - 1], Offs(n, l, r))] + Holes(NIADDR - l)
  }

  lemma KeptLevel(n: nat, last: nat)
    requires n > 0 && last >= NDADDR && Level(n, last) <= NIADDR
    ensures Kept(n, last) == NDADDR + Level(n, last)
    ensures var l := Level(n, last); 1 <= l && Base(n, l) <= last < Base(n, l) + Pow(n, l)
  {
    LevelBase(n, last);
  }

  lemma CutAtShaped(n: nat, ts: seq<Tree>, l: nat, r: nat)
    requires n > 0 && RootShapes(n, ts) && 1 <= l <= NIADDR
    ensures RootShapes(n, CutAt(n, ts, l, r))
  {
    TruncShape(n, ts[NDADDR + l - 1], Offs(n, l, r));
  }

  /** Truncation keeps every mapping up to the last block kept, and makes every later one a hole. */
  lemma TruncRootsLookup(n: nat, ts: seq<Tree>, last: int, bn: nat)
    requires n > 0 && RootShapes(n, ts) && last >= -1 && (last >= 0 ==> Level(n, last) <= NIADDR)
    requires Level(n, bn) <= NIADDR
    ensures RootShapes(n, TruncRoots(n, ts, last))
    ensures FileLookup(n, TruncRoots(n, ts, last), bn) == if bn <= last then FileLookup(n, ts, bn) else 0
  {
    if last >= NDADDR {
      TruncIndirectLookup(n, ts, last, bn);
    }
  }

  lemma TruncIndirectLookup(n: nat, ts: seq<Tree>, last: nat, bn: nat)
    requires n > 0 && RootShapes(n, ts) && last >= NDADDR && Level(n, last) <= NIADDR
    requires Level(n, bn) <= NIADDR
    ensures RootShapes(n, TruncRoots(n, ts, last))
    ensures FileLookup(n, TruncRoots(n, ts, last), bn) == if bn <= last then FileLookup(n, ts, bn) else 0
  {
    var ll := Level(n, last);
    KeptLevel(n, last);
    var rl := last - Base(n, ll);
    CutAtShaped(n, ts, ll, rl);
    if bn >= NDADDR {
      var l := Level(n, bn);
      KeptLevel(n, bn);
      LevelOrder(n, bn, last);
      LevelOrder(n, last, bn);
      CutAtLookup(n, ts, ll, rl, l, bn - Base(n, l));
    }
  }

  lemma CutAtLookup(n: nat, ts: seq<Tree>, ll: nat, rl: nat, l: nat, r: nat)
    requires n > 0 && RootShapes(n, ts) && 1 <= l <= NIADDR && r < Pow(n, l)
    requires 1 <= ll <= NIADDR && rl < Pow(n, ll)
    ensures var t := CutAt(n, ts, ll, rl)[NDADDR + l - 1];
            && Shape(n, t, l)
            && Lookup(n, t, Offs(n, l, r)) ==
               (if l < ll || (l == ll && r <= rl) then Lookup(n, ts[NDADDR + l - 1], Offs(n, l, r)) else 0)
  {
    if l == ll {
      TruncLookup(n, ts[NDADDR + l - 1], Offs(n, l, rl), Offs(n, l, r));
      LexOffs(n, l, r, rl);
    }
  }

  lemma LevelOrder(n: nat, i: nat, j: nat)
    requires n > 0
    ensures Level(n, i) < Level(n, j) ==> i < j
  {
    BaseSteps(n);
  }

  /** Zeroing all but the first k pointers of the inode drops the other trees. */
  lemma CutRoots(n: nat, h: Heap, p: seq<int>, k: nat)
    requires |p| == NPTRS && k <= NPTRS
    ensures Held(n, h, p) == Held(n, h, p[..k] + Zeros(NPTRS - k)) + AllBlocks(Roots(n, h, p)[k..])
  {
    CutRootList(n, h, p, k);
    CutList(Roots(n, h, p), k);
  }

  lemma CutRootList(n: nat, h: Heap, p: seq<int>, k: nat)
    requires |p| == NPTRS && k <= NPTRS
    ensures Roots(n, h, p[..k] + Zeros(NPTRS - k)) == Roots(n, h, p)[..k] + Holes(NPTRS - k)
  {
  }

  /** After the cut inode is on disk, the trees of the zeroed pointers are unreachable. */
  lemma RootTailApart(s: State, p: seq<int>, k: nat)
    requires Sound(s.d.n, s.d.used, s.d.heap, p) && k <= NPTRS && s.d.dino == p[..k] + Zeros(NPTRS - k)
    ensures SafeState(s.d)
    ensures TailApart(s, Roots(s.d.n, s.d.heap, p), k - 1)
  {
    CutRoots(s.d.n, s.d.heap, p, k);
    var ts := Roots(s.d.n, s.d.heap, p);
    LessSound(Held(s.d.n, s.d.heap, p), Held(s.d.n, s.d.heap, s.d.dino), AllBlocks(ts[k..]));
  }

  /** The tree at root k of the file on disk is one place in it. */
  lemma RootPlaced(s: State, k: nat)
    requires SafeState(s.d) && k < NPTRS
    ensures Placed(s, s.d.dino[k], RootLevel(k), Others(Roots(s.d.n, s.d.heap, s.d.dino), k), true)
    ensures Owned(s, s.d.dino[k], RootLevel(k))
  {
    var ts := Roots(s.d.n, s.d.heap, s.d.dino);
    RootHangs(s.d.n, s.d.heap, s.d.dino, k);
    KidWithin(ts, k);
    SubSimple(Blocks(ts[k]), AllBlocks(ts));
  }

  /** Once the trees of the zeroed pointers are freed, the file on disk is still the part kept. */
  lemma RootsAfterTail(s: State, s2: State, p: seq<int>, k: nat, gone: multiset<int>)
    requires |p| == NPTRS && k <= NPTRS && s.d.dino == p[..k] + Zeros(NPTRS - k)
    requires TailApart(s, Roots(s.d.n, s.d.heap, p), k - 1)
    requires gone == AllBlocks(Roots(s.d.n, s.d.heap, p)[k..]) && Freed(s, s2, gone, gone)
    ensures Roots(s2.d.n, s2.d.heap, s2.d.dino) == Roots(s.d.n, s.d.heap, p)[..k] + Holes(NPTRS - k)
    ensures Held(s.d.n, s.d.heap, p) == gone + Held(s2.d.n, s2.d.heap, s2.d.dino)
  {
    CutRoots(s.d.n, s.d.heap, p, k);
    CutRootList(s.d.n, s.d.heap, p, k);
    HeldFrame(s.d.n, s.d.heap, s2.d.heap, s.d.dino);
  }

  /** Truncating inside root k changes that root only. */
  lemma RootsAfterLast(s: State, s2: State, k: nat, t': Tree, gone: multiset<int>)
    requires SafeState(s.d) && k < NPTRS && CutTo(s, s2, s.d.dino[k], RootLevel(k), t', gone)
    ensures Roots(s2.d.n, s2.d.heap, s2.d.dino) == Roots(s.d.n, s.d.heap, s.d.dino)[k := t']
    ensures Held(s.d.n, s.d.heap, s.d.dino) == gone + Held(s2.d.n, s2.d.heap, s2.d.dino)
  {
    var ts := Roots(s.d.n, s.d.heap, s.d.dino);
    OneRoot(s.d.n, s.d.heap, s2.d.heap, s.d.dino, k);
    AllBlocksUpdate(ts, k, t');
    Swap3(Others(ts, k), gone, Blocks(t'));
  }

  lemma Swap3(a: multiset<int>, b: multiset<int>, c: multiset<int>)
    ensures a + (b + c) == b + (a + c)
  {
  }

  /** The file with pointers p became the trees ts', giving up exactly the blocks `gone`. */
  ghost predicate FileCut(s: State, s': State, p: seq<int>, ts': seq<Tree>, gone: multiset<int>)
    requires |p| == NPTRS && |s'.d.dino| == NPTRS
  {
    var account := s'.freed == s.freed + gone && s'.d.used == Minus(s.d.used, gone);
    && account && s'.d.n == s.d.n && Roots(s'.d.n, s'.d.heap, s'.d.dino) == ts'
    && Held(s.d.n, s.d.heap, p) == gone + AllBlocks(ts')
  }

  lemma CutDirectOnly(s: State, s2: State, p: seq<int>, last: int, gone: multiset<int>)
    requires |p| == NPTRS && -1 <= last < NDADDR
    requires s.d.dino == p[..last + 1] + Zeros(NPTRS - last - 1)
    requires TailApart(s, Roots(s.d.n, s.d.heap, p), last)
    requires gone == AllBlocks(Roots(s.d.n, s.d.heap, p)[last + 1..]) && Freed(s, s2, gone, gone)
    ensures FileCut(s, s2, p, Roots(s.d.n, s.d.heap, p)[..last + 1] + Holes(NPTRS - last - 1), gone)
  {
    RootsAfterTail(s, s2, p, last + 1, gone);
  }

  lemma CutInsideRoot(s: State, s2: State, s3: State, p: seq<int>, l: nat, r: nat,
                      g1: multiset<int>, g2: multiset<int>)
    requires |p| == NPTRS && s.d.n > 0 && 1 <= l <= NIADDR
    requires s.d.dino == p[..NDADDR + l] + Zeros(NIADDR - l)
    requires TailApart(s, Roots(s.d.n, s.d.heap, p), NDADDR + l - 1)
    requires g1 == AllBlocks(Roots(s.d.n, s.d.heap, p)[NDADDR + l..]) && Freed(s, s2, g1, g1)
    requires Shape(s.d.n, Roots(s.d.n, s.d.heap, p)[NDADDR + l - 1], l) && SafeState(s2.d)
    requires CutTo(s2, s3, s2.d.dino[NDADDR + l - 1], l,
                   Trunc(s.d.n, Roots(s.d.n, s.d.heap, p)[NDADDR + l - 1], Offs(s.d.n, l, r)), g2)
    ensures FileCut(s, s3, p, CutAt(s.d.n, Roots(s.d.n, s.d.heap, p), l, r), g1 + g2)
  {
    var k, ts := NDADDR + l, Roots(s.d.n, s.d.heap, p);
    var t' := Trunc(s.d.n, ts[k - 1], Offs(s.d.n, l, r));
    RootsAfterTail(s, s2, p, k, g1);
    RootsAfterLast(s2, s3, k - 1, t', g2);
    assert (ts[..k] + Holes(NPTRS - k))[k - 1 := t'] == CutAt(s.d.n, ts, l, r);
    Regroup3(g1, g2, Held(s3.d.n, s3.d.heap, s3.d.dino));
    Accounts(s, s2, s3, g1, g2, g1, Blocks(Abs(s2.d.n, s2.d.heap, s2.d.dino[k - 1], l)));
  }

  /** Before the tree kept in part is truncated inside: it is still the one the inode led to. */
  lemma InsideReady(s: State, s2: State, p: seq<int>, ts: seq<Tree>, l: nat, g1: multiset<int>)
    requires |p| == NPTRS && 1 <= l <= NIADDR && s.d.dino == p[..NDADDR + l] + Zeros(NIADDR - l)
    requires ts == Roots(s.d.n, s.d.heap, p) && TailApart(s, ts, NDADDR + l - 1)
    requires TailGone(s, s2, ts, NDADDR + l - 1, g1)
    ensures |s2.d.dino| == NPTRS && s2.d.dino[NDADDR + l - 1] == p[NDADDR + l - 1]
    ensures Abs(s2.d.n, s2.d.heap, p[NDADDR + l - 1], l) == ts[NDADDR + l - 1]
  {
    RootsAfterTail(s, s2, p, NDADDR + l, g1);
    assert Roots(s2.d.n, s2.d.heap, s2.d.dino)[NDADDR + l - 1] == ts[NDADDR + l - 1];
  }

  lemma InsideDone(s: State, s2: State, s3: State, p: seq<int>, ts: seq<Tree>, l: nat, r: nat,
                   g1: multiset<int>, g2: multiset<int>)
    requires |p| == NPTRS && s.d.n > 0 && 1 <= l <= NIADDR && s.d.dino == p[..NDADDR + l] + Zeros(NIADDR - l)
    requires ts == Roots(s.d.n, s.d.heap, p) && TailApart(s, ts, NDADDR + l - 1)
    requires TailGone(s, s2, ts, NDADDR + l - 1, g1) && SafeState(s2.d)
    requires Shape(s.d.n, ts[NDADDR + l - 1], l)
    requires CutTo(s2, s3, p[NDADDR + l - 1], l, Trunc(s.d.n, ts[NDADDR + l - 1], Offs(s.d.n, l, r)), g2)
    ensures |s3.d.dino| == NPTRS && FileCut(s, s3, p, CutAt(s.d.n, ts, l, r), g1 + g2)
    ensures s3.d.dino == s.d.dino
  {
    InsideReady(s, s2, p, ts, l, g1);
    CutInsideRoot(s, s2, s3, p, l, r, g1, g2);
  }

  /** Pointers a to c of the single, double and triple indirect trees lead to those of ts. */
  ghost predicate IndirectTrees(s: State, ib: seq<int>, ts: seq<Tree>)
    requires |ib| == NIADDR && |ts| == NPTRS
  {
    && Abs(s.d.n, s.d.heap, ib[0], 1) == ts[NDADDR] && Abs(s.d.n, s.d.heap, ib[1], 2) == ts[NDADDR + 1]
    && Abs(s.d.n, s.d.heap, ib[2], 3) == ts[NDADDR + 2]
  }

  lemma RootIndirect(s: State, p: seq<int>)
    requires |p| == NPTRS
    ensures IndirectTrees(s, p[NDADDR..], Roots(s.d.n, s.d.heap, p))
  {
  }

  lemma IndirectTree(s: State, ib: seq<int>, ts: seq<Tree>, j: nat)
    requires |ib| == NIADDR && |ts| == NPTRS && j < NIADDR && IndirectTrees(s, ib, ts)
    ensures Abs(s.d.n, s.d.heap, ib[j], j + 1) == ts[NDADDR + j]
  {
  }

  lemma Accounts(s: State, s1: State, s2: State, g1: multiset<int>, g2: multiset<int>, t1: multiset<int>, t2: multiset<int>)
    requires Freed(s, s1, g1, t1) && Freed(s1, s2, g2, t2)
    ensures s2.freed == s.freed + (g1 + g2) && s2.d.used == Minus(s.d.used, g1 + g2)
    ensures s2.d.n == s.d.n && s2.d.dino == s.d.dino
  {
  }
}
