/// What ext2_balloc does to the trees of a file, one block at a time.
module FileGrowth {
  import opened Arith
  import opened BlockTree
  import opened BlockPath
  import opened FileTree
  import opened DiskStates
  import opened FileRoots

  /** The trees of a file that gained the blocks bs on the way to logical block lbn. */
  function GrowRoots(n: nat, ts: seq<Tree>, lbn: nat, bs: seq<int>): (r: seq<Tree>)
    requires n > 0 && RootShapes(n, ts) && Level(n, lbn) <= NIADDR
    ensures |r| == NPTRS
  {
    var k := RootIndex(n, lbn);
    ts[k := Grow(n, ts[k], RootPath(n, lbn), bs)]
  }

  /** How many blocks lack on the way to logical block lbn. */
  function Lacking(n: nat, ts: seq<Tree>, lbn: nat): nat
    requires n > 0 && RootShapes(n, ts) && Level(n, lbn) <= NIADDR
  {
    Missing(n, ts[RootIndex(n, lbn)], RootPath(n, lbn))
  }

  lemma GrowRootsShaped(n: nat, ts: seq<Tree>, lbn: nat, bs: seq<int>)
    requires n > 0 && RootShapes(n, ts) && Level(n, lbn) <= NIADDR
    ensures RootShapes(n, GrowRoots(n, ts, lbn, bs))
  {
    GrowShape(n, ts[RootIndex(n, lbn)], RootPath(n, lbn), bs);
  }

  lemma RootPathUnique(n: nat, i: nat, j: nat)
    requires n > 0 && Level(n, i) <= NIADDR && Level(n, j) <= NIADDR
    requires RootIndex(n, i) == RootIndex(n, j) && RootPath(n, i) == RootPath(n, j)
    ensures i == j
  {
    LevelBase(n, i);
    LevelBase(n, j);
    var l := Level(n, i);
    if l > 0 {
      LexOffs(n, l, i - Base(n, l), j - Base(n, l));
    }
  }

  /** Growth changes the mapping of lbn at most, and that one exactly when the path is complete. */
  lemma GrowRootsLookup(n: nat, ts: seq<Tree>, lbn: nat, bs: seq<int>, q: nat)
    requires n > 0 && RootShapes(n, ts) && Level(n, lbn) <= NIADDR && Level(n, q) <= NIADDR
    requires |bs| <= Lacking(n, ts, lbn)
    ensures RootShapes(n, GrowRoots(n, ts, lbn, bs))
    ensures FileLookup(n, GrowRoots(n, ts, lbn, bs), q) ==
            if q == lbn && |bs| == Lacking(n, ts, lbn) && bs != [] then bs[|bs| - 1] else FileLookup(n, ts, q)
  {
    GrowRootsShaped(n, ts, lbn, bs);
    if RootIndex(n, q) == RootIndex(n, lbn) {
      GrowLookup(n, ts[RootIndex(n, lbn)], RootPath(n, lbn), bs, RootPath(n, q));
      if RootPath(n, q) == RootPath(n, lbn) {
        RootPathUnique(n, q, lbn);
      }
    }
  }

  /** Growing towards block lbn and then cutting behind block `last`: every mapping up to there stays, except
      that lbn may have appeared, and every later one is a hole. */
  lemma GrowThenCutLookup(n: nat, ts: seq<Tree>, lbn: nat, bs: seq<int>, last: int, q: nat)
    requires n > 0 && RootShapes(n, ts) && Level(n, lbn) <= NIADDR && Level(n, q) <= NIADDR
    requires |bs| == Lacking(n, ts, lbn) && last >= -1 && (last >= 0 ==> Level(n, last) <= NIADDR)
    ensures RootShapes(n, GrowRoots(n, ts, lbn, bs))
    ensures RootShapes(n, TruncRoots(n, GrowRoots(n, ts, lbn, bs), last))
    ensures FileLookup(n, TruncRoots(n, GrowRoots(n, ts, lbn, bs), last), q) ==
            if q > last then 0 else if q == lbn && bs != [] then bs[|bs| - 1] else FileLookup(n, ts, q)
  {
    GrowRootsLookup(n, ts, lbn, bs, q);
    TruncRootsLookup(n, GrowRoots(n, ts, lbn, bs), last, q);
  }

  /** The file holds exactly the blocks it gained in addition. */
  lemma GrowRootsBlocks(n: nat, ts: seq<Tree>, lbn: nat, bs: seq<int>)
    requires n > 0 && RootShapes(n, ts) && Level(n, lbn) <= NIADDR && |bs| <= Lacking(n, ts, lbn)
    ensures AllBlocks(GrowRoots(n, ts, lbn, bs)) == AllBlocks(ts) + multiset(bs)
  {
    var k := RootIndex(n, lbn);
    GrowBlocks(n, ts[k], RootPath(n, lbn), bs);
    AllBlocksUpdate(ts, k, Grow(n, ts[k], RootPath(n, lbn), bs));
    Regroup3(Others(ts, k), Blocks(ts[k]), multiset(bs));
  }

  lemma GrowRootsSnoc(n: nat, ts: seq<Tree>, lbn: nat, bs: seq<int>, b: int)
    requires n > 0 && RootShapes(n, ts) && Level(n, lbn) <= NIADDR && |bs| < Lacking(n, ts, lbn)
    ensures RootShapes(n, GrowRoots(n, ts, lbn, bs))
    ensures GrowRoots(n, GrowRoots(n, ts, lbn, bs), lbn, [b]) == GrowRoots(n, ts, lbn, bs + [b])
    ensures Lacking(n, GrowRoots(n, ts, lbn, bs), lbn) == Lacking(n, ts, lbn) - |bs|
  {
    GrowRootsShaped(n, ts, lbn, bs);
    GrowSnoc(n, ts[RootIndex(n, lbn)], RootPath(n, lbn), bs, b);
  }

  // ---------------------------------------------------------------- the in-core inode and the device

  /** The on-disk inode may lag behind the pointers p by pointers not yet written. */
  ghost predicate Behind(q: seq<int>, p: seq<int>) {
    |q| == |p| == NPTRS && forall k :: 0 <= k < NPTRS ==> q[k] == 0 || q[k] == p[k]
  }

  ghost predicate InCore(d: Device, p: seq<int>) {
    Sound(d.n, d.used, d.heap, p) && Behind(d.dino, p)
  }

  lemma {:induction false} FewerTrees(us: seq<Tree>, ts: seq<Tree>)
    requires |us| == |ts| && forall k :: 0 <= k < |ts| ==> us[k] == Hole || us[k] == ts[k]
    ensures AllBlocks(us) <= AllBlocks(ts)
  {
    if us != [] {
      FewerTrees(us[1..], ts[1..]);
    }
  }

  /** An inode that only lacks pointers reaches less. */
  lemma BehindSafe(d: Device, p: seq<int>)
    requires InCore(d, p)
    ensures SafeState(d)
  {
    FewerTrees(Roots(d.n, d.heap, d.dino), Roots(d.n, d.heap, p));
    SubSimple(Held(d.n, d.heap, d.dino), Held(d.n, d.heap, p));
  }

  // ---------------------------------------------------------------- one block at a time

  function FreshTree(n: nat, b: int, l: nat): Tree {
    if l == 0 then Data(b) else Ind(b, Holes(n))
  }

  /** b is allocated, nothing points to it yet, and as an indirect block it is all holes. */
  ghost predicate Ready(d: Device, p: seq<int>, b: int, l: nat)
    requires |p| == NPTRS
  {
    b != 0 && b in d.used && b !in Held(d.n, d.heap, p) && Abs(d.n, d.heap, b, l) == FreshTree(d.n, b, l)
  }

  /** A block just allocated, and zeroed on the disk if it is to hold pointers, is ready. */
  lemma AllocReady(d: Device, p: seq<int>, b: int, l: nat, d': Device)
    requires InCore(d, p) && b != 0 && b !in d.used
    requires d'.n == d.n && d'.used == d.used + {b} && d'.dino == d.dino
    requires d'.heap == if l == 0 then d.heap else d.heap[b := Zeros(d.n)]
    ensures InCore(d', p) && Ready(d', p, b, l) && Roots(d'.n, d'.heap, p) == Roots(d.n, d.heap, p)
  {
    HeldFrame(d.n, d.heap, d'.heap, p);
    assert b !in Held(d.n, d.heap, p);
    if l > 0 {
      assert Kids(d.n, d'.heap, b, l) == Holes(d.n);
    }
  }

  /** A sound file stays sound when it gains one block that is ready. */
  lemma OneMoreSound(m: multiset<int>, used: set<int>, b: int)
    requires Simple(m) && (forall x :: x in m ==> x in used) && b in used && b !in m
    ensures Simple(m + multiset{b}) && forall x :: x in m + multiset{b} ==> x in used
  {
  }

  /** Hanging a ready block on an empty pointer of the inode. */
  lemma RootGrown(d: Device, p: seq<int>, lbn: nat, b: int)
    requires d.n > 0 && InCore(d, p) && Level(d.n, lbn) <= NIADDR
    requires p[RootIndex(d.n, lbn)] == 0 && Ready(d, p, b, Level(d.n, lbn))
    ensures RootShapes(d.n, Roots(d.n, d.heap, p))
    ensures var p' := p[RootIndex(d.n, lbn) := b];
            && Roots(d.n, d.heap, p') == GrowRoots(d.n, Roots(d.n, d.heap, p), lbn, [b])
            && InCore(d, p')
  {
    var n, k, ts := d.n, RootIndex(d.n, lbn), Roots(d.n, d.heap, p);
    var p' := p[k := b];
    RootsShaped(n, d.heap, p);
    assert Holes(n) == if Level(n, lbn) == 0 then Holes(n) else Holes(n)[RootPath(n, lbn)[0] := Hole];
    assert Grow(n, Hole, RootPath(n, lbn), [b]) == FreshTree(n, b, Level(n, lbn));
    assert Roots(n, d.heap, p') == GrowRoots(n, ts, lbn, [b]);
    GrowRootsBlocks(n, ts, lbn, [b]);
    OneMoreSound(Held(n, d.heap, p), d.used, b);
  }

  /** nb is the node of level m on path p, which starts at node bn of level l. */
  ghost predicate On(h: Heap, bn: int, l: nat, p: seq<nat>, nb: int, m: nat)
    requires |p| == l
    decreases l
  {
    && bn != 0 && m <= l
    && (if m == l then nb == bn else On(h, PtrAt(h, bn, p[0]), l - 1, p[1..], nb, m))
  }

  lemma {:induction false} OnBlock(n: nat, h: Heap, bn: int, l: nat, p: seq<nat>, nb: int, m: nat)
    requires |p| == l && InRange(n, p) && On(h, bn, l, p, nb, m)
    ensures nb != 0 && Blocks(Abs(n, h, nb, m)) <= Blocks(Abs(n, h, bn, l))
    decreases l
  {
    if m < l {
      OnBlock(n, h, PtrAt(h, bn, p[0]), l - 1, p[1..], nb, m);
      KidWithin(Kids(n, h, bn, l), p[0]);
    }
  }

  /** One level further down. */
  lemma {:induction false} OnNext(h: Heap, bn: int, l: nat, p: seq<nat>, nb: int, m: nat)
    requires |p| == l && 0 < m && On(h, bn, l, p, nb, m) && PtrAt(h, nb, p[l - m]) != 0
    ensures On(h, bn, l, p, PtrAt(h, nb, p[l - m]), m - 1)
    decreases l
  {
    if m < l {
      OnNext(h, PtrAt(h, bn, p[0]), l - 1, p[1..], nb, m);
    }
  }

  /** What lacks on the whole path lacks below the node reached. */
  lemma {:induction false} OnMissing(n: nat, h: Heap, bn: int, l: nat, p: seq<nat>, nb: int, m: nat)
    requires |p| == l && InRange(n, p) && On(h, bn, l, p, nb, m)
    ensures Shape(n, Abs(n, h, bn, l), l) && Shape(n, Abs(n, h, nb, m), m)
    ensures Missing(n, Abs(n, h, bn, l), p) == Missing(n, Abs(n, h, nb, m), p[l - m..])
    ensures Lookup(n, Abs(n, h, bn, l), p) == Lookup(n, Abs(n, h, nb, m), p[l - m..])
    decreases l
  {
    AbsShape(n, h, bn, l);
    AbsShape(n, h, nb, m);
    if m < l {
      OnMissing(n, h, PtrAt(h, bn, p[0]), l - 1, p[1..], nb, m);
      assert p[1..][l - 1 - m..] == p[l - m..];
    } else {
      assert p[0..] == p;
    }
  }

  /** Growing the subtree at a node of the path grows the whole tree. */
  lemma {:induction false} GrowOn(n: nat, h: Heap, h': Heap, bn: int, l: nat, p: seq<nat>, nb: int, m: nat, b: int)
    requires |p| == l && InRange(n, p) && On(h, bn, l, p, nb, m) && Simple(Blocks(Abs(n, h, bn, l)))
    requires SameOutside(h, h', Blocks(Abs(n, h, nb, m))) && Shape(n, Abs(n, h, nb, m), m)
    requires Abs(n, h', nb, m) == Grow(n, Abs(n, h, nb, m), p[l - m..], [b])
    ensures Shape(n, Abs(n, h, bn, l), l)
    ensures Abs(n, h', bn, l) == Grow(n, Abs(n, h, bn, l), p, [b]) && On(h', bn, l, p, nb, m)
    decreases l
  {
    AbsShape(n, h, bn, l);
    if m < l {
      var kb := PtrAt(h, bn, p[0]);
      OnBlock(n, h, kb, l - 1, p[1..], nb, m);
      KidWithin(Kids(n, h, bn, l), p[0]);
      SubSimple(Blocks(Kids(n, h, bn, l)[p[0]]), Blocks(Abs(n, h, bn, l)));
      assert p[1..][l - 1 - m..] == p[l - m..];
      GrowOn(n, h, h', kb, l - 1, p[1..], nb, m, b);
      OneKid(n, h, h', bn, l, p[0]);
    } else {
      assert p[0..] == p;
    }
  }

  function LinkedHeap(n: nat, h: Heap, nb: int, off: nat, b: int): Heap
    requires off < n
  {
    h[nb := Pointers(n, h, nb)[off := b]]
  }

  /** Filling an empty pointer of one node with a fresh tree. */
  lemma LinkNode(n: nat, h: Heap, nb: int, m: nat, p: seq<nat>, b: int)
    requires |p| == m > 0 && InRange(n, p) && nb != 0 && Simple(Blocks(Abs(n, h, nb, m)))
    requires PtrAt(h, nb, p[0]) == 0 && b != 0 && b != nb && Abs(n, h, b, m - 1) == FreshTree(n, b, m - 1)
    ensures Shape(n, Abs(n, h, nb, m), m)
    ensures Abs(n, LinkedHeap(n, h, nb, p[0], b), nb, m) == Grow(n, Abs(n, h, nb, m), p, [b])
  {
    AbsShape(n, h, nb, m);
    LinkKids(n, h, nb, m, p[0], b);
    FreshGrow(n, p[1..], b);
    assert Abs(n, h, nb, m) == Ind(nb, Kids(n, h, nb, m)) && Kids(n, h, nb, m)[p[0]] == Hole;
  }

  lemma LinkKids(n: nat, h: Heap, nb: int, m: nat, i: nat, b: int)
    requires m > 0 && i < n && nb != 0 && Simple(Blocks(Abs(n, h, nb, m)))
    requires b != 0 && b != nb && Abs(n, h, b, m - 1) == FreshTree(n, b, m - 1)
    ensures Kids(n, LinkedHeap(n, h, nb, i, b), nb, m) == Kids(n, h, nb, m)[i := FreshTree(n, b, m - 1)]
  {
    var c := Pointers(n, h, nb)[i := b];
    HolesEmpty(Holes(n));
    AbsFrame(n, h, h[nb := c], b, m - 1);
    KidsKept(n, h, nb, m, c);
  }

  lemma FreshGrow(n: nat, p: seq<nat>, b: int)
    requires InRange(n, p)
    ensures Grow(n, Hole, p, [b]) == FreshTree(n, b, |p|)
  {
    if p != [] {
      assert Holes(n)[p[0] := Hole] == Holes(n);
    }
  }

  /** Hanging a ready block on an empty pointer of an indirect block on the path. */
  lemma LinkGrown(d: Device, p: seq<int>, lbn: nat, nb: int, m: nat, b: int)
    requires d.n > 0 && InCore(d, p) && Level(d.n, lbn) <= NIADDR && 0 < m <= Level(d.n, lbn)
    requires On(d.heap, p[RootIndex(d.n, lbn)], Level(d.n, lbn), RootPath(d.n, lbn), nb, m)
    requires PtrAt(d.heap, nb, RootPath(d.n, lbn)[Level(d.n, lbn) - m]) == 0 && Ready(d, p, b, m - 1)
    ensures RootShapes(d.n, Roots(d.n, d.heap, p))
    ensures var d' := d.(heap := LinkedHeap(d.n, d.heap, nb, RootPath(d.n, lbn)[Level(d.n, lbn) - m], b));
            && Roots(d.n, d'.heap, p) == GrowRoots(d.n, Roots(d.n, d.heap, p), lbn, [b])
            && InCore(d', p)
            && On(d'.heap, p[RootIndex(d.n, lbn)], Level(d.n, lbn), RootPath(d.n, lbn), b, m - 1)
  {
    var n, h, k, ts := d.n, d.heap, RootIndex(d.n, lbn), Roots(d.n, d.heap, p);
    var l, q := Level(n, lbn), RootPath(n, lbn);
    var h' := LinkedHeap(n, h, nb, q[l - m], b);
    RootsShaped(n, h, p);
    KidWithin(ts, k);
    SubSimple(Blocks(ts[k]), AllBlocks(ts));
    LinkOn(n, h, p[k], l, q, nb, m, b);
    OneRoot(n, h, h', p, k);
    Lacks(n, d.heap, p, lbn, nb, m);
    GrowRootsBlocks(n, ts, lbn, [b]);
    OneMoreSound(Held(n, h, p), d.used, b);
  }

  lemma LinkOn(n: nat, h: Heap, bn: int, l: nat, q: seq<nat>, nb: int, m: nat, b: int)
    requires |q| == l && InRange(n, q) && 0 < m <= l && On(h, bn, l, q, nb, m) && Simple(Blocks(Abs(n, h, bn, l)))
    requires PtrAt(h, nb, q[l - m]) == 0 && b != 0 && b !in Blocks(Abs(n, h, bn, l))
    requires Abs(n, h, b, m - 1) == FreshTree(n, b, m - 1)
    ensures Shape(n, Abs(n, h, bn, l), l)
    ensures var h' := LinkedHeap(n, h, nb, q[l - m], b);
            && SameOutside(h, h', Blocks(Abs(n, h, bn, l)))
            && Abs(n, h', bn, l) == Grow(n, Abs(n, h, bn, l), q, [b])
            && On(h', bn, l, q, b, m - 1)
  {
    var h' := LinkedHeap(n, h, nb, q[l - m], b);
    OnBlock(n, h, bn, l, q, nb, m);
    assert nb in Blocks(Abs(n, h, nb, m));
    SubSimple(Blocks(Abs(n, h, nb, m)), Blocks(Abs(n, h, bn, l)));
    LinkNode(n, h, nb, m, q[l - m..], b);
    GrowOn(n, h, h', bn, l, q, nb, m, b);
    OnNext(h', bn, l, q, nb, m);
  }

  /** Below a node with an empty pointer on the path, something lacks. */
  lemma Lacks(n: nat, h: Heap, p: seq<int>, lbn: nat, nb: int, m: nat)
    requires |p| == NPTRS && n > 0 && Level(n, lbn) <= NIADDR && 0 < m <= Level(n, lbn)
    requires On(h, p[RootIndex(n, lbn)], Level(n, lbn), RootPath(n, lbn), nb, m)
    ensures RootShapes(n, Roots(n, h, p))
    ensures PtrAt(h, nb, RootPath(n, lbn)[Level(n, lbn) - m]) == 0 ==> Lacking(n, Roots(n, h, p), lbn) == m
    ensures m == 1 ==> FileLookup(n, Roots(n, h, p), lbn) == PtrAt(h, nb, RootPath(n, lbn)[Level(n, lbn) - 1])
    ensures m == 1 && PtrAt(h, nb, RootPath(n, lbn)[Level(n, lbn) - 1]) != 0 ==> Lacking(n, Roots(n, h, p), lbn) == 0
  {
    RootsShaped(n, h, p);
    OnMissing(n, h, p[RootIndex(n, lbn)], Level(n, lbn), RootPath(n, lbn), nb, m);
  }

  // ---------------------------------------------------------------- steps of ext2_balloc

  function SetOf(bs: seq<int>): set<int> {
    set b | b in bs
  }

  /** The file with pointers p gained the fresh blocks bs, in this order, on the way to lbn. */
  ghost predicate FileGrown(s: State, p: seq<int>, s': State, p': seq<int>, lbn: nat, bs: seq<int>)
    requires |p| == |p'| == NPTRS
  {
    && s'.d.n == s.d.n > 0 && Level(s.d.n, lbn) <= NIADDR && RootShapes(s.d.n, Roots(s.d.n, s.d.heap, p))
    && |bs| <= Lacking(s.d.n, Roots(s.d.n, s.d.heap, p), lbn)
    && s'.freed == s.freed && s'.d.dino == s.d.dino
    && s'.d.used == s.d.used + SetOf(bs) && (forall b :: b in bs ==> b !in s.d.used)
    && Roots(s'.d.n, s'.d.heap, p') == GrowRoots(s.d.n, Roots(s.d.n, s.d.heap, p), lbn, bs)
  }

  lemma GrownNothing(s: State, p: seq<int>, lbn: nat)
    requires |p| == NPTRS && s.d.n > 0 && Level(s.d.n, lbn) <= NIADDR
    ensures FileGrown(s, p, s, p, lbn, [])
  {
    RootsShaped(s.d.n, s.d.heap, p);
    assert Roots(s.d.n, s.d.heap, p) == GrowRoots(s.d.n, Roots(s.d.n, s.d.heap, p), lbn, []);
  }

  lemma GrownThen(s: State, p: seq<int>, s1: State, p1: seq<int>, s2: State, p2: seq<int>,
                  lbn: nat, bs: seq<int>, b: int)
    requires |p| == |p1| == |p2| == NPTRS
    requires FileGrown(s, p, s1, p1, lbn, bs) && FileGrown(s1, p1, s2, p2, lbn, [b])
    requires |bs| < Lacking(s.d.n, Roots(s.d.n, s.d.heap, p), lbn)
    ensures FileGrown(s, p, s2, p2, lbn, bs + [b])
  {
    GrowRootsSnoc(s.d.n, Roots(s.d.n, s.d.heap, p), lbn, bs, b);
    assert SetOf(bs + [b]) == SetOf(bs) + SetOf([b]);
    assert forall x :: x in bs + [b] ==> x in bs || x == b;
    assert b in [b];
  }

  /** What lacks after growing. */
  lemma GrownLacks(s: State, p: seq<int>, s1: State, p1: seq<int>, lbn: nat, bs: seq<int>)
    requires |p| == |p1| == NPTRS && FileGrown(s, p, s1, p1, lbn, bs)
    ensures RootShapes(s1.d.n, Roots(s1.d.n, s1.d.heap, p1))
    ensures Lacking(s1.d.n, Roots(s1.d.n, s1.d.heap, p1), lbn) ==
            Lacking(s.d.n, Roots(s.d.n, s.d.heap, p), lbn) - |bs|
  {
    var n, ts := s.d.n, Roots(s.d.n, s.d.heap, p);
    GrowRootsShaped(n, ts, lbn, bs);
    if |bs| < Lacking(n, ts, lbn) {
      GrowRootsSnoc(n, ts, lbn, bs, 0);
    } else {
      GrowFull(n, ts[RootIndex(n, lbn)], RootPath(n, lbn), bs);
    }
  }

  lemma {:induction false} GrowFull(n: nat, t: Tree, p: seq<nat>, bs: seq<int>)
    requires Shape(n, t, |p|) && InRange(n, p) && |bs| == Missing(n, t, p)
    ensures Shape(n, Grow(n, t, p, bs), |p|) && Missing(n, Grow(n, t, p, bs), p) == 0
    decreases |p|
  {
    GrowShape(n, t, p, bs);
    if bs != [] && p != [] {
      match t
      case Hole => GrowFull(n, Hole, p[1..], bs[1..]);
      case Ind(_, kids) => GrowFull(n, kids[p[0]], p[1..], bs);
    }
  }

  /** A path lacks nothing exactly when its data block is there. */
  lemma {:induction false} NothingMissing(n: nat, t: Tree, p: seq<nat>)
    requires Shape(n, t, |p|) && InRange(n, p) && 0 !in Blocks(t)
    ensures Missing(n, t, p) == 0 <==> Lookup(n, t, p) != 0
    decreases |p|
  {
    if t.Ind? {
      KidWithin(t.kids, p[0]);
      NothingMissing(n, t.kids[p[0]], p[1..]);
    }
  }

  /** One block taken from the free ones, not linked to anything yet. */
  ghost predicate Taken(s: State, s': State, p: seq<int>, b: int, l: nat)
    requires |p| == NPTRS
  {
    && b !in s.d.used && s'.d.used == s.d.used + {b} && s'.freed == s.freed
    && s'.d.n == s.d.n && s'.d.dino == s.d.dino
    && Ready(s'.d, p, b, l) && InCore(s'.d, p) && Roots(s'.d.n, s'.d.heap, p) == Roots(s.d.n, s.d.heap, p)
    && Contained(s.d.heap, s'.d.heap, b)
  }

  /** Only block b was rewritten. */
  ghost predicate Contained(h: Heap, h': Heap, b: int) {
    SameOutside(h, h', multiset{b})
  }

  lemma TakenRoot(s: State, s1: State, s2: State, p: seq<int>, lbn: nat, b: int)
    requires |p| == NPTRS && s.d.n > 0 && Level(s.d.n, lbn) <= NIADDR && p[RootIndex(s.d.n, lbn)] == 0
    requires Taken(s, s1, p, b, Level(s.d.n, lbn)) && s2 == s1
    ensures FileGrown(s, p, s2, p[RootIndex(s.d.n, lbn) := b], lbn, [b])
    ensures InCore(s2.d, p[RootIndex(s.d.n, lbn) := b])
  {
    RootGrown(s1.d, p, lbn, b);
    assert SetOf([b]) == {b};
  }

  lemma TakenLink(s: State, s1: State, s2: State, p: seq<int>, lbn: nat, nb: int, m: nat, b: int)
    requires |p| == NPTRS && s.d.n > 0 && Level(s.d.n, lbn) <= NIADDR && 0 < m <= Level(s.d.n, lbn) && InCore(s.d, p)
    requires On(s.d.heap, p[RootIndex(s.d.n, lbn)], Level(s.d.n, lbn), RootPath(s.d.n, lbn), nb, m)
    requires PtrAt(s.d.heap, nb, RootPath(s.d.n, lbn)[Level(s.d.n, lbn) - m]) == 0
    requires Taken(s, s1, p, b, m - 1)
    requires s2 == s1.(d := s1.d.(heap := LinkedHeap(s.d.n, s1.d.heap, nb, RootPath(s.d.n, lbn)[Level(s.d.n, lbn) - m], b)))
    ensures FileGrown(s, p, s2, p, lbn, [b]) && InCore(s2.d, p)
    ensures On(s2.d.heap, p[RootIndex(s.d.n, lbn)], Level(s.d.n, lbn), RootPath(s.d.n, lbn), b, m - 1)
  {
    var n, l, q, bn := s.d.n, Level(s.d.n, lbn), RootPath(s.d.n, lbn), p[RootIndex(s.d.n, lbn)];
    Lacks(n, s.d.heap, p, lbn, nb, m);
    OnBlock(n, s.d.heap, bn, l, q, nb, m);
    KidWithin(Roots(n, s.d.heap, p), RootIndex(n, lbn));
    assert nb in Blocks(Abs(n, s.d.heap, nb, m));
    assert SameAt(s.d.heap, s1.d.heap, nb);
    OnFrame(n, s.d.heap, s1.d.heap, bn, l, q, nb, m);
    LinkGrown(s1.d, p, lbn, nb, m, b);
    assert SetOf([b]) == {b};
  }

  lemma {:induction false} OnFrame(n: nat, h: Heap, h': Heap, bn: int, l: nat, p: seq<nat>, nb: int, m: nat)
    requires |p| == l && InRange(n, p) && On(h, bn, l, p, nb, m)
    requires forall b :: b in Blocks(Abs(n, h, bn, l)) ==> SameAt(h, h', b)
    ensures On(h', bn, l, p, nb, m)
    decreases l
  {
    if m < l {
      assert bn in Blocks(Abs(n, h, bn, l));
      assert SameAt(h, h', bn);
      KidWithin(Kids(n, h, bn, l), p[0]);
      OnFrame(n, h, h', PtrAt(h, bn, p[0]), l - 1, p[1..], nb, m);
    }
  }

  /** One more block on the file is one more block on its account. */
  lemma GrownAccount(s: State, p: seq<int>, s': State, p': seq<int>, lbn: nat, b: int, nsec: nat)
    requires |p| == |p'| == NPTRS && FileGrown(s, p, s', p', lbn, [b])
    ensures Sectors(nsec, |Held(s'.d.n, s'.d.heap, p')|) == nsec + Sectors(nsec, |Held(s.d.n, s.d.heap, p)|)
  {
    GrowRootsBlocks(s.d.n, Roots(s.d.n, s.d.heap, p), lbn, [b]);
    assert |multiset([b])| == 1;
  }

  /** Where a call of ext2_balloc stands: the file of s gained bs, and nb is the node of level m on the
      path. */
  ghost predicate Reached(s: State, p: seq<int>, s': State, p': seq<int>, lbn: nat, bs: seq<int>, nb: int, m: nat)
    requires |p| == |p'| == NPTRS
  {
    && FileGrown(s, p, s', p', lbn, bs)
    && On(s'.d.heap, p'[RootIndex(s.d.n, lbn)], Level(s.d.n, lbn), RootPath(s.d.n, lbn), nb, m)
  }

  lemma ReachedStart(s: State, p: seq<int>, lbn: nat)
    requires |p| == NPTRS && s.d.n > 0 && Level(s.d.n, lbn) <= NIADDR && p[RootIndex(s.d.n, lbn)] != 0
    ensures Reached(s, p, s, p, lbn, [], p[RootIndex(s.d.n, lbn)], Level(s.d.n, lbn))
  {
    GrownNothing(s, p, lbn);
  }

  lemma ReachedNext(s: State, p: seq<int>, s': State, p': seq<int>, lbn: nat, bs: seq<int>, nb: int, m: nat)
    requires |p| == |p'| == NPTRS && Reached(s, p, s', p', lbn, bs, nb, m) && 0 < m <= Level(s.d.n, lbn)
    ensures var b := PtrAt(s'.d.heap, nb, RootPath(s.d.n, lbn)[Level(s.d.n, lbn) - m]);
            && (b != 0 ==> Reached(s, p, s', p', lbn, bs, b, m - 1))
            && (b == 0 ==> Lacking(s.d.n, Roots(s.d.n, s.d.heap, p), lbn) == |bs| + m)
  {
    var b := PtrAt(s'.d.heap, nb, RootPath(s.d.n, lbn)[Level(s.d.n, lbn) - m]);
    GrownLacks(s, p, s', p', lbn, bs);
    Lacks(s.d.n, s'.d.heap, p', lbn, nb, m);
    if b != 0 {
      OnNext(s'.d.heap, p'[RootIndex(s.d.n, lbn)], Level(s.d.n, lbn), RootPath(s.d.n, lbn), nb, m);
    }
  }

  /** At the end of the path the data block is there, and everything that lacked was added. */
  lemma ReachedEnd(s: State, p: seq<int>, s': State, p': seq<int>, lbn: nat, bs: seq<int>, nb: int)
    requires |p| == |p'| == NPTRS && Reached(s, p, s', p', lbn, bs, nb, 0)
    ensures RootShapes(s.d.n, Roots(s.d.n, s'.d.heap, p'))
    ensures nb != 0 && FileLookup(s.d.n, Roots(s.d.n, s'.d.heap, p'), lbn) == nb
    ensures |bs| == Lacking(s.d.n, Roots(s.d.n, s.d.heap, p), lbn)
  {
    var n := s.d.n;
    GrownLacks(s, p, s', p', lbn, bs);
    var bn := p'[RootIndex(n, lbn)];
    OnBlock(n, s'.d.heap, bn, Level(n, lbn), RootPath(n, lbn), nb, 0);
    OnMissing(n, s'.d.heap, bn, Level(n, lbn), RootPath(n, lbn), nb, 0);
  }
}
