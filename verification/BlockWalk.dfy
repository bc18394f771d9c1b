/// The walk of fsck over the blocks of an inode (ckinode and iblock), and the files it covers completely.
module BlockWalk {
  import opened Arith
  import opened BlockTree
  import opened BlockPath
  import opened FileTree
  import opened FileRoots

  /** How many pointers of an indirect block the walk looks at, when isize bytes of the file lie below it and
      sizepb bytes below each of its pointers. */
  function Limit(n: nat, isize: int, sizepb: nat): (nif: nat)
    requires sizepb > 0
    ensures nif <= n
  {
    if isize > sizepb * n then n
    else if isize <= 0 then 0
    else
      CeilBelow(isize, sizepb, n);
      (isize + sizepb - 1) / sizepb
  }

  lemma CeilBelow(isize: nat, sizepb: nat, n: nat)
    requires sizepb > 0 && isize <= sizepb * n
    ensures 0 <= (isize + sizepb - 1) / sizepb <= n
  {
    var c := (isize + sizepb - 1) / sizepb;
    DivMod(isize + sizepb - 1, sizepb);
    assert sizepb * (n + 1) == sizepb * n + sizepb;
    if c > n {
      MulMono(sizepb, n + 1, c);
    }
  }

  /** Pointer i is looked at exactly when the file goes on beyond what lies below the pointers before it. */
  lemma LimitIs(n: nat, isize: int, sizepb: nat, i: nat)
    requires sizepb > 0 && i < n
    ensures i < Limit(n, isize, sizepb) <==> sizepb * i < isize
  {
    MulMono(sizepb, i, n);
    if 0 < isize <= sizepb * n {
      var c := (isize + sizepb - 1) / sizepb;
      DivMod(isize + sizepb - 1, sizepb);
      if i < c {
        MulMono(sizepb, i + 1, c);
        assert sizepb * (i + 1) == sizepb * i + sizepb;
      } else {
        MulMono(sizepb, c, i);
      }
    }
  }

  // ---------------------------------------------------------------- what is visited

  /** The blocks visited from a pointer of level l on, in order. */
  function Refs(n: nat, bsize: nat, t: Tree, l: nat, isize: int): seq<int>
    requires n > 0 && bsize > 0
    decreases t, 1, 0
  {
    match t
    case Hole => []
    case Data(b) => [b]
    case Ind(b, kids) =>
      if l == 0 then [b] else [b] + KidRefs(n, bsize, kids, l - 1, isize, Limit(n, isize, Below(n, bsize, l - 1)))
  }

  /** ... and from the first k pointers of an indirect block. */
  function KidRefs(n: nat, bsize: nat, ts: seq<Tree>, l: nat, isize: int, k: nat): seq<int>
    requires n > 0 && bsize > 0
    decreases ts, 0, k
  {
    if ts == [] || k == 0 then []
    else Refs(n, bsize, ts[0], l, isize) + KidRefs(n, bsize, ts[1..], l, isize - Below(n, bsize, l), k - 1)
  }

  /** Bytes below a pointer of level l. */
  function Below(n: nat, bsize: nat, l: nat): (s: nat)
    ensures n > 0 && bsize > 0 ==> s > 0
  {
    if l == 0 then bsize else n * Below(n, bsize, l - 1)
  }

  /** Nothing hangs behind the pointers that are looked at. */
  ghost predicate Fits(n: nat, bsize: nat, t: Tree, l: nat, isize: int)
    requires n > 0 && bsize > 0
    decreases t, 1, 0
  {
    t.Ind? ==> l > 0 && KidsFit(n, bsize, t.kids, l - 1, isize, Limit(n, isize, Below(n, bsize, l - 1)))
  }

  ghost predicate KidsFit(n: nat, bsize: nat, ts: seq<Tree>, l: nat, isize: int, k: nat)
    requires n > 0 && bsize > 0
    decreases ts, 0, k
  {
    ts == [] || (if k == 0 then forall i :: 0 <= i < |ts| ==> ts[i] == Hole
                 else Fits(n, bsize, ts[0], l, isize)
                      && KidsFit(n, bsize, ts[1..], l, isize - Below(n, bsize, l), k - 1))
  }

  /** The walk meets every block of the tree, each as often as it occurs, exactly when the tree fits the size
      of the file. */
  lemma {:induction false} WalkComplete(n: nat, bsize: nat, t: Tree, l: nat, isize: int)
    requires n > 0 && bsize > 0 && Shape(n, t, l)
    ensures multiset(Refs(n, bsize, t, l, isize)) <= Blocks(t)
    ensures Whole(Refs(n, bsize, t, l, isize), Blocks(t)) <==> Fits(n, bsize, t, l, isize)
    decreases t, 1
  {
    if t.Ind? {
      var k := Limit(n, isize, Below(n, bsize, l - 1));
      KidsComplete(n, bsize, t.kids, l - 1, isize, k);
      var r := KidRefs(n, bsize, t.kids, l - 1, isize, k);
      assert multiset([t.b] + r) == multiset{t.b} + multiset(r);
      SameRest(multiset{t.b}, multiset(r), AllBlocks(t.kids));
    }
  }

  lemma SameRest(a: multiset<int>, b: multiset<int>, c: multiset<int>)
    requires b <= c
    ensures a + b <= a + c && (a + b == a + c <==> b == c)
  {
    if a + b == a + c {
      assert forall x :: b[x] == (a + b)[x] - a[x];
      assert forall x :: c[x] == (a + c)[x] - a[x];
    }
  }

  lemma {:induction false} KidsComplete(n: nat, bsize: nat, ts: seq<Tree>, l: nat, isize: int, k: nat)
    requires n > 0 && bsize > 0 && forall i :: 0 <= i < |ts| ==> Shape(n, ts[i], l)
    ensures multiset(KidRefs(n, bsize, ts, l, isize, k)) <= AllBlocks(ts)
    ensures Whole(KidRefs(n, bsize, ts, l, isize, k), AllBlocks(ts)) <==> KidsFit(n, bsize, ts, l, isize, k)
    decreases ts, 0
  {
    if ts == [] {
    } else if k == 0 {
      NoBlocks(ts);
    } else {
      var rest, k' := isize - Below(n, bsize, l), k - 1;
      WalkComplete(n, bsize, ts[0], l, isize);
      KidsComplete(n, bsize, ts[1..], l, rest, k');
      FirstTree(ts, Refs(n, bsize, ts[0], l, isize), KidRefs(n, bsize, ts[1..], l, rest, k'));
      FirstKid(n, bsize, ts, l, isize, k, rest, k');
    }
  }

  lemma FirstKid(n: nat, bsize: nat, ts: seq<Tree>, l: nat, isize: int, k: nat, rest: int, k': nat)
    requires n > 0 && bsize > 0 && ts != [] && k > 0 && rest == isize - Below(n, bsize, l) && k' == k - 1
    ensures KidRefs(n, bsize, ts, l, isize, k) == Refs(n, bsize, ts[0], l, isize) + KidRefs(n, bsize, ts[1..], l, rest, k')
    ensures KidsFit(n, bsize, ts, l, isize, k) <==> Fits(n, bsize, ts[0], l, isize) && KidsFit(n, bsize, ts[1..], l, rest, k')
  {
  }

  /** The list holds all of m. */
  ghost predicate Whole(a: seq<int>, m: multiset<int>) {
    multiset(a) == m
  }

  lemma FirstTree(ts: seq<Tree>, a: seq<int>, b: seq<int>)
    requires ts != [] && multiset(a) <= Blocks(ts[0]) && multiset(b) <= AllBlocks(ts[1..])
    ensures multiset(a + b) <= AllBlocks(ts)
    ensures Whole(a + b, AllBlocks(ts)) <==> Whole(a, Blocks(ts[0])) && Whole(b, AllBlocks(ts[1..]))
  {
    assert multiset(a + b) == multiset(a) + multiset(b);
    BothSame(multiset(a), Blocks(ts[0]), multiset(b), AllBlocks(ts[1..]));
  }

  lemma BothSame(a: multiset<int>, a': multiset<int>, b: multiset<int>, b': multiset<int>)
    requires a <= a' && b <= b'
    ensures a + b <= a' + b' && (a + b == a' + b' <==> a == a' && b == b')
  {
    if a + b == a' + b' {
      forall x
        ensures a[x] == a'[x] && b[x] == b'[x]
      {
        assert (a + b)[x] == (a' + b')[x];
      }
    }
  }

  lemma {:induction false} NoBlocks(ts: seq<Tree>)
    ensures AllBlocks(ts) == multiset{} <==> forall i :: 0 <= i < |ts| ==> ts[i] == Hole
  {
    if ts != [] {
      NoBlocks(ts[1..]);
      assert ts[0] == Hole <==> Blocks(ts[0]) == multiset{} by {
        match ts[0]
        case Hole =>
        case Data(b) => assert b in Blocks(ts[0]);
        case Ind(b, _) => assert b in Blocks(ts[0]);
      }
      if AllBlocks(ts) == multiset{} {
        assert Blocks(ts[0]) <= AllBlocks(ts);
        assert AllBlocks(ts[1..]) <= AllBlocks(ts);
      }
    }
  }

  // ---------------------------------------------------------------- iblock

  lemma KidAt(n: nat, bsize: nat, ts: seq<Tree>, i: nat, l: nat, isize: int, nif: nat)
    requires n > 0 && bsize > 0 && i < nif <= |ts|
    ensures KidRefs(n, bsize, ts[i..], l, isize, nif - i)
            == Refs(n, bsize, ts[i], l, isize) + KidRefs(n, bsize, ts[i + 1..], l, isize - Below(n, bsize, l), nif - (i + 1))
  {
    assert ts[i..][0] == ts[i] && ts[i..][1..] == ts[i + 1..] && nif - i - 1 == nif - (i + 1);
  }

  /** iblock, with every block in range: the blocks handed to the function of the pass. */
  method IBlock(n: nat, bsize: nat, h: Heap, bn: int, ilevel: nat, isize: int) returns (refs: seq<int>)
    requires n > 0 && bsize > 0 && bn != 0 && ilevel > 0
    ensures refs == Refs(n, bsize, Abs(n, h, bn, ilevel), ilevel, isize)
    decreases ilevel, 0
  {
    refs := [bn];
    var level := ilevel - 1;
    var sizepb := Below(n, bsize, level);
    var nif := Limit(n, isize, sizepb);
    ghost var ts := Kids(n, h, bn, ilevel);
    var i, rest := 0, isize;
    while i < nif
      invariant 0 <= i <= nif
      invariant refs + KidRefs(n, bsize, ts[i..], level, rest, nif - i) == [bn] + KidRefs(n, bsize, ts, level, isize, nif)
    {
      ghost var before, tail := refs, KidRefs(n, bsize, ts[i + 1..], level, rest - sizepb, nif - (i + 1));
      KidAt(n, bsize, ts, i, level, rest, nif);
      var r := IPointer(n, bsize, h, PtrAt(h, bn, i), level, rest);
      refs := refs + r;
      assert before + (r + tail) == refs + tail;
      rest := rest - sizepb;
      i := i + 1;
    }
    assert refs + [] == refs;
  }

  /** One pointer of an indirect block: a hole, a data block, or an indirect block of the next level. */
  method IPointer(n: nat, bsize: nat, h: Heap, b: int, level: nat, isize: int) returns (refs: seq<int>)
    requires n > 0 && bsize > 0
    ensures refs == Refs(n, bsize, Abs(n, h, b, level), level, isize)
    decreases level, 1
  {
    if b == 0 {
      refs := [];
    } else if level == 0 {
      refs := [b];
    } else {
      refs := IBlock(n, bsize, h, b, level, isize);
    }
  }

  // ---------------------------------------------------------------- files that truncation left

  lemma {:induction false} BelowPow(n: nat, bsize: nat, l: nat)
    ensures Below(n, bsize, l) == bsize * Pow(n, l)
  {
    if l > 0 {
      BelowPow(n, bsize, l - 1);
      assert n * (bsize * Pow(n, l - 1)) == bsize * (n * Pow(n, l - 1));
    }
  }

  /** With all bytes below a pointer in the file, everything below it is walked. */
  lemma {:induction false} FullFits(n: nat, bsize: nat, t: Tree, l: nat, isize: int)
    requires n > 0 && bsize > 0 && Shape(n, t, l) && isize >= Below(n, bsize, l)
    ensures Fits(n, bsize, t, l, isize)
    decreases t, 1
  {
    if t.Ind? {
      var s := Below(n, bsize, l - 1);
      LimitIs(n, isize, s, n - 1);
      assert s * (n - 1) + s == n * s;
      assert Limit(n, isize, s) == n;
      FullKidsFit(n, bsize, t.kids, l - 1, isize, n);
    }
  }

  lemma {:induction false} FullKidsFit(n: nat, bsize: nat, ts: seq<Tree>, l: nat, isize: int, k: nat)
    requires n > 0 && bsize > 0 && |ts| <= k && (forall i :: 0 <= i < |ts| ==> Shape(n, ts[i], l))
    requires isize >= Below(n, bsize, l) * k
    ensures KidsFit(n, bsize, ts, l, isize, k)
    decreases ts, 0
  {
    if ts != [] {
      var s := Below(n, bsize, l);
      assert s * k == s * (k - 1) + s;
      FullFits(n, bsize, ts[0], l, isize);
      FullKidsFit(n, bsize, ts[1..], l, isize - s, k - 1);
    }
  }

  /** What truncation behind block r leaves below a pointer is walked completely, if block r is in the file. */
  lemma {:induction false} TruncFits(n: nat, bsize: nat, t: Tree, l: nat, r: nat, isize: int)
    requires n > 0 && bsize > 0 && Shape(n, t, l) && r < Pow(n, l) && bsize * r < isize
    ensures Fits(n, bsize, Trunc(n, t, Offs(n, l, r)), l, isize)
    decreases l
  {
    if t.Ind? {
      OffsSplit(n, l, r);
      var f := Pow(n, l - 1);
      var k, r', part := BytesBelow(n, bsize, l - 1, r, isize);
      LimitIs(n, isize, Below(n, bsize, l - 1), k);
      TruncFits(n, bsize, t.kids[k], l - 1, r', part);
      CutKidsFit(n, bsize, Trunc(n, t, Offs(n, l, r)).kids, l - 1, isize, Limit(n, isize, Below(n, bsize, l - 1)), k);
    }
  }

  /** The pointer of level l that block r lies below, and what remains of the file there. */
  lemma BytesBelow(n: nat, bsize: nat, l: nat, r: nat, isize: int) returns (k: nat, r': nat, part: int)
    requires n > 0 && bsize * r < isize
    ensures k == r / Pow(n, l) && r' == r % Pow(n, l) < Pow(n, l) && part == isize - Below(n, bsize, l) * k
    ensures bsize * r' < part && Below(n, bsize, l) * k < isize
  {
    var f := Pow(n, l);
    BelowPow(n, bsize, l);
    DivMod(r, f);
    k, r' := r / f, r % f;
    part := isize - Below(n, bsize, l) * k;
    SplitBytes(bsize, f, k, r');
    MulMono(bsize, 0, r');
  }

  lemma SplitBytes(bsize: nat, f: nat, k: nat, r: nat)
    ensures bsize * (f * k + r) == (bsize * f) * k + bsize * r
  {
    assert bsize * (f * k + r) == bsize * (f * k) + bsize * r;
    assert bsize * (f * k) == (bsize * f) * k;
  }

  /** Full trees, one that fits, and holes. */
  lemma {:induction false} CutKidsFit(n: nat, bsize: nat, ts: seq<Tree>, l: nat, isize: int, lim: nat, k: nat)
    requires n > 0 && bsize > 0 && k < |ts| && k < lim
    requires forall i :: 0 <= i < k ==> Shape(n, ts[i], l)
    requires forall i :: k < i < |ts| ==> ts[i] == Hole
    requires isize > Below(n, bsize, l) * k && Fits(n, bsize, ts[k], l, isize - Below(n, bsize, l) * k)
    ensures KidsFit(n, bsize, ts, l, isize, lim)
    decreases |ts|
  {
    var s := Below(n, bsize, l);
    if k == 0 {
      HolesFit(n, bsize, ts[1..], l, isize - s, lim - 1);
    } else {
      assert s * k == s * (k - 1) + s;
      MulMono(s, 0, k - 1);
      FullFits(n, bsize, ts[0], l, isize);
      CutKidsFit(n, bsize, ts[1..], l, isize - s, lim - 1, k - 1);
    }
  }

  lemma {:induction false} HolesFit(n: nat, bsize: nat, ts: seq<Tree>, l: nat, isize: int, lim: nat)
    requires n > 0 && bsize > 0 && forall i :: 0 <= i < |ts| ==> ts[i] == Hole
    ensures KidsFit(n, bsize, ts, l, isize, lim)
    decreases |ts|
  {
    if ts != [] && lim > 0 {
      HolesFit(n, bsize, ts[1..], l, isize - Below(n, bsize, l), lim - 1);
    }
  }

  // ---------------------------------------------------------------- ckinode

  const TWO64 := 0x1_0000_0000_0000_0000

  /** How many bytes of the file lie below the k-th pointer of the inode and behind it, as fsck
      computes it: in unsigned 64-bit arithmetic. */
  function Remaining(n: nat, bsize: nat, size: nat, k: nat): int {
    if k < NDADDR then 0 else (size - bsize * Base(n, RootLevel(k))) % TWO64
  }

  function Remainders(n: nat, bsize: nat, size: nat): (rems: seq<int>)
    ensures |rems| == NPTRS && forall k :: 0 <= k < NPTRS ==> rems[k] == Remaining(n, bsize, size, k)
  {
    seq(NPTRS, k requires 0 <= k < NPTRS => Remaining(n, bsize, size, k))
  }

  /** The blocks behind the pointers of an inode, in the order of the walk, when rems[k] bytes remain for
      pointer k. */
  function FileRefs(n: nat, bsize: nat, ts: seq<Tree>, rems: seq<int>): seq<int>
    requires n > 0 && bsize > 0 && |ts| == |rems|
    decreases |ts|
  {
    if ts == [] then []
    else
      var k := |ts| - 1;
      FileRefs(n, bsize, ts[..k], rems[..k]) + Refs(n, bsize, ts[k], RootLevel(k), rems[k])
  }

  lemma NextRefs(n: nat, bsize: nat, ts: seq<Tree>, rems: seq<int>, k: nat)
    requires n > 0 && bsize > 0 && k < |ts| == |rems|
    ensures FileRefs(n, bsize, ts[..k + 1], rems[..k + 1]) ==
            FileRefs(n, bsize, ts[..k], rems[..k]) + Refs(n, bsize, ts[k], RootLevel(k), rems[k])
  {
    assert ts[..k + 1][..k] == ts[..k] && rems[..k + 1][..k] == rems[..k];
  }

  /** ckinode: the direct blocks, then the trees of the three indirect pointers. */
  method CkInode(n: nat, bsize: nat, h: Heap, p: seq<int>, size: nat) returns (refs: seq<int>)
    requires n > 0 && bsize > 0 && |p| == NPTRS
    ensures refs == FileRefs(n, bsize, Roots(n, h, p), Remainders(n, bsize, size))
  {
    ghost var ts, rems := Roots(n, h, p), Remainders(n, bsize, size);
    refs := [];
    var k := 0;
    while k < NDADDR
      invariant 0 <= k <= NDADDR && refs == FileRefs(n, bsize, ts[..k], rems[..k])
    {
      NextRefs(n, bsize, ts, rems, k);
      if p[k] != 0 {
        refs := refs + [p[k]];
      }
      k := k + 1;
    }
    refs := CkIndirect(n, bsize, h, p, size, refs);
  }

  method CkIndirect(n: nat, bsize: nat, h: Heap, p: seq<int>, size: nat, direct: seq<int>) returns (refs: seq<int>)
    requires n > 0 && bsize > 0 && |p| == NPTRS
    requires direct == FileRefs(n, bsize, Roots(n, h, p)[..NDADDR], Remainders(n, bsize, size)[..NDADDR])
    ensures refs == FileRefs(n, bsize, Roots(n, h, p), Remainders(n, bsize, size))
  {
    ghost var ts, rems := Roots(n, h, p), Remainders(n, bsize, size);
    refs := direct;
    var k := NDADDR;
    var remsize, sizepb := (size - bsize * NDADDR) % TWO64, bsize;
    while k < NPTRS
      invariant NDADDR <= k <= NPTRS && refs == FileRefs(n, bsize, ts[..k], rems[..k])
      invariant k < NPTRS ==> remsize == Remaining(n, bsize, size, k) && sizepb == bsize * Pow(n, RootLevel(k) - 1)
    {
      NextRefs(n, bsize, ts, rems, k);
      var r := IPointer(n, bsize, h, p[k], RootLevel(k), remsize);
      refs := refs + r;
      remsize, sizepb := BehindLevel(n, bsize, size, k, remsize, sizepb);
      k := k + 1;
    }
    assert ts[..NPTRS] == ts && rems[..NPTRS] == rems;
  }

  /** What remains behind the next pointer, and the bytes below each pointer of its block. */
  method BehindLevel(n: nat, ghost bsize: nat, ghost size: nat, ghost k: nat, remsize: int, sizepb: nat)
    returns (remsize': int, sizepb': nat)
    requires NDADDR <= k && remsize == Remaining(n, bsize, size, k) && sizepb == bsize * Pow(n, RootLevel(k) - 1)
    ensures remsize' == Remaining(n, bsize, size, k + 1) && sizepb' == bsize * Pow(n, RootLevel(k + 1) - 1)
  {
    RemainingNext(n, bsize, size, k, remsize, sizepb);
    sizepb' := sizepb * n;
    remsize' := (remsize - sizepb') % TWO64;
  }

  lemma RemainingNext(n: nat, bsize: nat, size: nat, k: nat, remsize: int, sizepb: nat)
    requires NDADDR <= k && remsize == Remaining(n, bsize, size, k) && sizepb == bsize * Pow(n, RootLevel(k) - 1)
    ensures sizepb * n == bsize * Pow(n, RootLevel(k))
    ensures (remsize - sizepb * n) % TWO64 == Remaining(n, bsize, size, k + 1)
  {
    var l := RootLevel(k);
    var base, span := Base(n, l), Pow(n, l - 1);
    assert Base(n, l + 1) == base + n * span;
    NextSize(bsize, n, span, base);
    WrapTwice(size - bsize * base, bsize * (n * span));
  }

  lemma NextSize(bsize: nat, n: nat, span: nat, base: nat)
    ensures bsize * span * n == bsize * (n * span)
    ensures bsize * (base + n * span) == bsize * base + bsize * (n * span)
  {
  }

  lemma WrapTwice(a: int, b: int)
    ensures (a % TWO64 - b) % TWO64 == (a - b) % TWO64
  {
    var q := a / TWO64;
    assert a - b == TWO64 * q + (a % TWO64 - b);
    assert (TWO64 * q + (a % TWO64 - b)) % TWO64 == (a % TWO64 - b) % TWO64;
  }

  /** Each tree of the inode fits what remains of the file. */
  ghost predicate FileFits(n: nat, bsize: nat, ts: seq<Tree>, rems: seq<int>)
    requires n > 0 && bsize > 0 && |ts| == |rems|
  {
    forall k :: 0 <= k < |ts| ==> Fits(n, bsize, ts[k], RootLevel(k), rems[k])
  }

  /** fsck meets every block a file holds, each as often as the file holds it, exactly when all trees
      fit. */
  lemma {:induction false} FileComplete(n: nat, bsize: nat, ts: seq<Tree>, rems: seq<int>)
    requires n > 0 && bsize > 0 && |ts| == |rems| && forall k :: 0 <= k < |ts| ==> Shape(n, ts[k], RootLevel(k))
    ensures multiset(FileRefs(n, bsize, ts, rems)) <= AllBlocks(ts)
    ensures Whole(FileRefs(n, bsize, ts, rems), AllBlocks(ts)) <==> FileFits(n, bsize, ts, rems)
    decreases |ts|
  {
    if ts != [] {
      var k := |ts| - 1;
      FileComplete(n, bsize, ts[..k], rems[..k]);
      WalkComplete(n, bsize, ts[k], RootLevel(k), rems[k]);
      var a, b := FileRefs(n, bsize, ts[..k], rems[..k]), Refs(n, bsize, ts[k], RootLevel(k), rems[k]);
      assert FileRefs(n, bsize, ts, rems) == a + b;
      LastTree(ts, ts[..k], ts[k], a, b);
      LastFits(n, bsize, ts, rems);
    } else {
      assert FileRefs(n, bsize, ts, rems) == [] && AllBlocks(ts) == multiset{};
    }
  }

  lemma LastFits(n: nat, bsize: nat, ts: seq<Tree>, rems: seq<int>)
    requires n > 0 && bsize > 0 && |ts| == |rems| > 0
    ensures var k := |ts| - 1;
            FileFits(n, bsize, ts, rems) <==>
            FileFits(n, bsize, ts[..k], rems[..k]) && Fits(n, bsize, ts[k], RootLevel(k), rems[k])
  {
    var k := |ts| - 1;
    assert forall j :: 0 <= j < k ==> ts[..k][j] == ts[j] && rems[..k][j] == rems[j];
  }

  lemma LastTree(ts: seq<Tree>, init: seq<Tree>, t: Tree, a: seq<int>, b: seq<int>)
    requires ts != [] && init == ts[..|ts| - 1] && t == ts[|ts| - 1]
    requires multiset(a) <= AllBlocks(init) && multiset(b) <= Blocks(t)
    ensures multiset(a + b) <= AllBlocks(ts)
    ensures Whole(a + b, AllBlocks(ts)) <==> Whole(a, AllBlocks(init)) && Whole(b, Blocks(t))
  {
    InitAndLast(ts, init, t);
    assert multiset(a + b) == multiset(a) + multiset(b);
    BothSame(multiset(a), AllBlocks(init), multiset(b), Blocks(t));
  }

  // ---------------------------------------------------------------- what is met, in terms of the size

  /** The walk goes through a tree in the order of the file: an indirect block comes before what lies below it, and what
      lies below one pointer before what lies below the next. */
  lemma {:induction false} RefsInOrder(n: nat, bsize: nat, ts: seq<Tree>, l: nat, isize: int, k: nat, i: nat)
    returns (before: seq<int>, behind: seq<int>)
    requires n > 0 && bsize > 0 && i < k && i < |ts|
    ensures KidRefs(n, bsize, ts, l, isize, k) == before + Refs(n, bsize, ts[i], l, isize - Below(n, bsize, l) * i) + behind
    ensures before == KidRefs(n, bsize, ts, l, isize, i)
    decreases i
  {
    var s := Below(n, bsize, l);
    if i == 0 {
      before, behind := [], KidRefs(n, bsize, ts[1..], l, isize - s, k - 1);
    } else {
      before, behind := RefsInOrder(n, bsize, ts[1..], l, isize - s, k - 1, i - 1);
      assert s * i == s * (i - 1) + s;
      before := Refs(n, bsize, ts[0], l, isize) + before;
      assert ts[1..][i - 1] == ts[i];
    }
  }

  /** A block below pointer i alone is met exactly when that pointer is looked at and the block is met from there. */
  lemma {:induction false} KidMeets(n: nat, bsize: nat, ts: seq<Tree>, l: nat, isize: int, k: nat, i: nat, b: int)
    requires n > 0 && bsize > 0 && i < |ts| && Simple(AllBlocks(ts)) && b in Blocks(ts[i])
    requires forall j :: 0 <= j < |ts| ==> Shape(n, ts[j], l)
    ensures b in KidRefs(n, bsize, ts, l, isize, k) <==> i < k && b in Refs(n, bsize, ts[i], l, isize - Below(n, bsize, l) * i)
    decreases |ts|
  {
    if k > 0 {
      var s, rest := Below(n, bsize, l), ts[1..];
      FirstKid(n, bsize, ts, l, isize, k, isize - s, k - 1);
      if i == 0 {
        NotInRest(ts, rest, b);
        NotByRest(n, bsize, rest, l, isize - s, k - 1, b);
      } else {
        NotByFirst(n, bsize, ts, l, isize, i, b);
        RestSimple(ts, rest);
        assert rest[i - 1] == ts[i];
        KidMeets(n, bsize, rest, l, isize - s, k - 1, i - 1, b);
        OneStep(isize, s, i);
      }
    }
  }

  lemma NotByRest(n: nat, bsize: nat, ts: seq<Tree>, l: nat, isize: int, k: nat, b: int)
    requires n > 0 && bsize > 0 && b !in AllBlocks(ts) && forall j :: 0 <= j < |ts| ==> Shape(n, ts[j], l)
    ensures b !in KidRefs(n, bsize, ts, l, isize, k)
  {
    KidsComplete(n, bsize, ts, l, isize, k);
    NotMet(KidRefs(n, bsize, ts, l, isize, k), AllBlocks(ts), b);
  }

  lemma NotByFirst(n: nat, bsize: nat, ts: seq<Tree>, l: nat, isize: int, i: nat, b: int)
    requires n > 0 && bsize > 0 && 0 < i < |ts| && Simple(AllBlocks(ts)) && b in Blocks(ts[i]) && Shape(n, ts[0], l)
    ensures b !in Refs(n, bsize, ts[0], l, isize)
  {
    Disjoint(ts, i, 0, b);
    WalkComplete(n, bsize, ts[0], l, isize);
    NotMet(Refs(n, bsize, ts[0], l, isize), Blocks(ts[0]), b);
  }

  lemma OneStep(isize: int, s: nat, i: nat)
    requires i > 0
    ensures isize - s - s * (i - 1) == isize - s * i
  {
    assert s * i == s * (i - 1) + s;
  }

  lemma NotMet(a: seq<int>, m: multiset<int>, b: int)
    requires multiset(a) <= m && b !in m
    ensures b !in a
  {
    assert multiset(a)[b] <= m[b];
  }

  lemma NotInRest(ts: seq<Tree>, rest: seq<Tree>, b: int)
    requires ts != [] && rest == ts[1..] && Simple(AllBlocks(ts)) && b in Blocks(ts[0])
    ensures b !in AllBlocks(rest)
  {
    FirstAndRest(ts, rest, b);
  }

  lemma RestSimple(ts: seq<Tree>, rest: seq<Tree>)
    requires ts != [] && rest == ts[1..] && Simple(AllBlocks(ts))
    ensures Simple(AllBlocks(rest))
  {
    SubSimple(AllBlocks(rest), AllBlocks(ts));
  }

  /** A block of a tree in which no block occurs twice is met exactly when the bytes before it do not fill up what is left
      of the file. */
  lemma {:induction false} TreeMeets(n: nat, bsize: nat, t: Tree, l: nat, isize: int, p: seq<nat>)
    requires n > 0 && bsize > 0 && Shape(n, t, l) && |p| == l && InRange(n, p) && Simple(Blocks(t))
    requires Lookup(n, t, p) != 0
    ensures Lookup(n, t, p) in Blocks(t)
    ensures Lookup(n, t, p) in Refs(n, bsize, t, l, isize) <==> l == 0 || bsize * Compose(n, p) < isize
    decreases l
  {
    if t.Ind? {
      var b, i, s := Lookup(n, t, p), p[0], Below(n, bsize, l - 1);
      KidSimple(t, i);
      TreeMeets(n, bsize, t.kids[i], l - 1, isize - s * i, p[1..]);
      KidWithin(t.kids, i);
      NodeDiffers(t, b);
      KidMeets(n, bsize, t.kids, l - 1, isize, Limit(n, isize, s), i, b);
      LimitIs(n, isize, s, i);
      BytesBefore(n, bsize, l, p);
      MulMono(bsize, 0, Compose(n, p[1..]));
      if l == 1 {
        assert Compose(n, p[1..]) == 0;
      }
    }
  }

  lemma KidSimple(t: Tree, i: nat)
    requires t.Ind? && i < |t.kids| && Simple(Blocks(t))
    ensures Simple(AllBlocks(t.kids)) && Simple(Blocks(t.kids[i]))
  {
    SubSimple(AllBlocks(t.kids), Blocks(t));
    KidWithin(t.kids, i);
    SubSimple(Blocks(t.kids[i]), AllBlocks(t.kids));
  }

  lemma NodeDiffers(t: Tree, b: int)
    requires t.Ind? && Simple(Blocks(t)) && b in AllBlocks(t.kids)
    ensures b != t.b
  {
    assert Blocks(t)[t.b] == 1 + AllBlocks(t.kids)[t.b];
  }

  lemma BytesBefore(n: nat, bsize: nat, l: nat, p: seq<nat>)
    requires n > 0 && l > 0 && |p| == l
    ensures bsize * Compose(n, p) == Below(n, bsize, l - 1) * p[0] + bsize * Compose(n, p[1..])
  {
    BelowPow(n, bsize, l - 1);
    var f := Pow(n, l - 1);
    assert bsize * (f * p[0] + Compose(n, p[1..])) == bsize * (f * p[0]) + bsize * Compose(n, p[1..]);
    assert bsize * (f * p[0]) == (bsize * f) * p[0];
  }

  /** The same for the trees of a file. */
  lemma {:induction false} RootMeets(n: nat, bsize: nat, ts: seq<Tree>, rems: seq<int>, k: nat, b: int)
    requires n > 0 && bsize > 0 && |ts| == |rems| && k < |ts| && Simple(AllBlocks(ts)) && b in Blocks(ts[k])
    requires forall j :: 0 <= j < |ts| ==> Shape(n, ts[j], RootLevel(j))
    ensures b in FileRefs(n, bsize, ts, rems) <==> b in Refs(n, bsize, ts[k], RootLevel(k), rems[k])
    decreases |ts|
  {
    var last := |ts| - 1;
    var init, r := ts[..last], rems[..last];
    LastApart(ts, init, ts[last], b);
    if k < last {
      assert init[k] == ts[k] && r[k] == rems[k];
      KidWithin(init, k);
      NotByTree(n, bsize, ts[last], RootLevel(last), rems[last], b);
      RootMeets(n, bsize, init, r, k, b);
    } else {
      NotByRoots(n, bsize, init, r, b);
    }
  }

  lemma LastApart(ts: seq<Tree>, init: seq<Tree>, t: Tree, b: int)
    requires ts != [] && init == ts[..|ts| - 1] && t == ts[|ts| - 1] && Simple(AllBlocks(ts))
    ensures Simple(AllBlocks(init)) && !(b in AllBlocks(init) && b in Blocks(t))
  {
    InitAndLast(ts, init, t);
    SubSimple(AllBlocks(init), AllBlocks(ts));
    assert AllBlocks(ts)[b] == AllBlocks(init)[b] + Blocks(t)[b];
  }

  lemma NotByTree(n: nat, bsize: nat, t: Tree, l: nat, isize: int, b: int)
    requires n > 0 && bsize > 0 && Shape(n, t, l) && b !in Blocks(t)
    ensures b !in Refs(n, bsize, t, l, isize)
  {
    WalkComplete(n, bsize, t, l, isize);
    NotMet(Refs(n, bsize, t, l, isize), Blocks(t), b);
  }

  lemma NotByRoots(n: nat, bsize: nat, ts: seq<Tree>, rems: seq<int>, b: int)
    requires n > 0 && bsize > 0 && |ts| == |rems| && b !in AllBlocks(ts)
    requires forall j :: 0 <= j < |ts| ==> Shape(n, ts[j], RootLevel(j))
    ensures b !in FileRefs(n, bsize, ts, rems)
  {
    FileComplete(n, bsize, ts, rems);
    NotMet(FileRefs(n, bsize, ts, rems), AllBlocks(ts), b);
  }

  /** The walk meets the block at logical place bn exactly when it is a direct one or begins inside the file; below an
      indirect pointer that leads to blocks behind the end only, the remaining size wraps and all blocks are met. */
  lemma MetExactly(n: nat, bsize: nat, ts: seq<Tree>, size: nat, bn: nat)
    requires n > 0 && bsize > 0 && RootShapes(n, ts) && Simple(AllBlocks(ts)) && Level(n, bn) <= NIADDR
    requires FileLookup(n, ts, bn) != 0 && size < TWO64 && bsize * bn < TWO64
    ensures FileLookup(n, ts, bn) in FileRefs(n, bsize, ts, Remainders(n, bsize, size)) <==>
            bn < NDADDR || bsize * bn < size || size < bsize * Base(n, Level(n, bn))
  {
    var k, l, p := RootIndex(n, bn), Level(n, bn), RootPath(n, bn);
    KidWithin(ts, k);
    SubSimple(Blocks(ts[k]), AllBlocks(ts));
    TreeMeets(n, bsize, ts[k], l, Remaining(n, bsize, size, k), p);
    RootMeets(n, bsize, ts, Remainders(n, bsize, size), k, FileLookup(n, ts, bn));
    if l > 0 {
      LevelBase(n, bn);
      var r := bn - Base(n, l);
      ComposeOffs(n, l, r);
      SmallMod(r, Pow(n, l));
      RemainingIs(bsize, size, bn, Base(n, l), r);
    }
  }

  lemma RemainingIs(bsize: nat, size: nat, bn: nat, base: nat, r: nat)
    requires bsize > 0 && bn == base + r && size < TWO64 && bsize * bn < TWO64
    ensures bsize * r < (size - bsize * base) % TWO64 <==> bsize * bn < size || size < bsize * base
  {
    assert bsize * bn == bsize * base + bsize * r;
    MulMono(bsize, base, bn);
    if size >= bsize * base {
      SmallMod(size - bsize * base, TWO64);
    } else {
      var x := TWO64 + (size - bsize * base);
      SmallMod(x, TWO64);
      assert (size - bsize * base) % TWO64 == x % TWO64;
    }
  }

  /** Every pointer inside the tree whose first block is `first` leads to a block that begins inside the file. */
  ghost predicate Inside(n: nat, bsize: nat, t: Tree, l: nat, first: nat, size: nat)
    decreases t
  {
    t.Ind? ==> l > 0 && forall i: nat :: i < |t.kids| && t.kids[i] != Hole ==>
      bsize * First(n, l, first, i) < size && Inside(n, bsize, t.kids[i], l - 1, First(n, l, first, i), size)
  }

  /** The first block below pointer i of a block of level l. */
  function First(n: nat, l: nat, first: nat, i: nat): nat
    requires l > 0
  {
    first + Pow(n, l - 1) * i
  }

  lemma {:induction false} KidsFitIs(n: nat, bsize: nat, ts: seq<Tree>, l: nat, isize: int, k: nat)
    requires n > 0 && bsize > 0
    ensures KidsFit(n, bsize, ts, l, isize, k) <==>
            forall i: nat :: i < |ts| ==> KidFits(n, bsize, ts, l, isize, k, i)
    decreases |ts|
  {
    if ts != [] && k > 0 {
      var s, rest := Below(n, bsize, l), ts[1..];
      KidsFitIs(n, bsize, rest, l, isize - s, k - 1);
      HolesFitAnyway(n, bsize, ts[0], l, isize);
      FirstKid(n, bsize, ts, l, isize, k, isize - s, k - 1);
      forall i: nat | i < |ts|
        ensures KidFits(n, bsize, ts, l, isize, k, i) <==>
                if i == 0 then Fits(n, bsize, ts[0], l, isize) else KidFits(n, bsize, rest, l, isize - s, k - 1, i - 1)
      {
        if i > 0 {
          OneStep(isize, s, i);
          assert rest[i - 1] == ts[i];
        }
      }
      AllButFirst(n, bsize, ts, rest, l, isize, isize - s, k, k - 1);
    } else if ts != [] {
      assert forall i: nat :: i < |ts| ==> (KidFits(n, bsize, ts, l, isize, k, i) <==> ts[i] == Hole);
    }
  }

  lemma AllButFirst(n: nat, bsize: nat, ts: seq<Tree>, rest: seq<Tree>, l: nat, isize: int, isize': int, k: nat, k': nat)
    requires n > 0 && bsize > 0 && ts != [] && rest == ts[1..]
    requires forall i: nat :: i < |ts| ==>
               (KidFits(n, bsize, ts, l, isize, k, i) <==>
                if i == 0 then Fits(n, bsize, ts[0], l, isize) else KidFits(n, bsize, rest, l, isize', k', i - 1))
    ensures (forall i: nat :: i < |ts| ==> KidFits(n, bsize, ts, l, isize, k, i)) <==>
            Fits(n, bsize, ts[0], l, isize) && forall j: nat :: j < |rest| ==> KidFits(n, bsize, rest, l, isize', k', j)
  {
    if forall i: nat :: i < |ts| ==> KidFits(n, bsize, ts, l, isize, k, i) {
      assert KidFits(n, bsize, ts, l, isize, k, 0);
      forall j: nat | j < |rest|
        ensures KidFits(n, bsize, rest, l, isize', k', j)
      {
        assert KidFits(n, bsize, ts, l, isize, k, j + 1);
      }
    }
  }

  lemma HolesFitAnyway(n: nat, bsize: nat, t: Tree, l: nat, isize: int)
    requires n > 0 && bsize > 0
    ensures t == Hole ==> Fits(n, bsize, t, l, isize)
  {
  }

  ghost predicate KidFits(n: nat, bsize: nat, ts: seq<Tree>, l: nat, isize: int, k: nat, i: nat)
    requires n > 0 && bsize > 0 && i < |ts|
  {
    ts[i] == Hole || (i < k && Fits(n, bsize, ts[i], l, isize - Below(n, bsize, l) * i))
  }

  /** A tree fits what is left of the file exactly when all its pointers lead inside. */
  lemma {:induction false} FitsInside(n: nat, bsize: nat, t: Tree, l: nat, first: nat, size: nat)
    requires n > 0 && bsize > 0 && Shape(n, t, l)
    ensures Fits(n, bsize, t, l, size - bsize * first) <==> Inside(n, bsize, t, l, first, size)
    decreases l
  {
    if t.Ind? {
      var isize, s := size - bsize * first, Below(n, bsize, l - 1);
      KidsFitIs(n, bsize, t.kids, l - 1, isize, Limit(n, isize, s));
      forall i: nat | i < |t.kids|
        ensures KidFits(n, bsize, t.kids, l - 1, isize, Limit(n, isize, s), i) <==> KidInside(n, bsize, t.kids[i], l, first, size, i)
      {
        OneKidInside(n, bsize, t, l, first, size, i);
      }
    }
  }

  ghost predicate KidInside(n: nat, bsize: nat, t: Tree, l: nat, first: nat, size: nat, i: nat)
    requires l > 0
  {
    t != Hole ==> bsize * First(n, l, first, i) < size && Inside(n, bsize, t, l - 1, First(n, l, first, i), size)
  }

  lemma {:induction false} OneKidInside(n: nat, bsize: nat, t: Tree, l: nat, first: nat, size: nat, i: nat)
    requires n > 0 && bsize > 0 && l > 0 && Shape(n, t, l) && t.Ind? && i < |t.kids|
    ensures var isize, s := size - bsize * first, Below(n, bsize, l - 1);
            KidFits(n, bsize, t.kids, l - 1, isize, Limit(n, isize, s), i) <==> KidInside(n, bsize, t.kids[i], l, first, size, i)
    decreases l, 0
  {
    var isize, s := size - bsize * first, Below(n, bsize, l - 1);
    LimitIs(n, isize, s, i);
    BytesTo(n, bsize, l, first, i);
    FitsInside(n, bsize, t.kids[i], l - 1, First(n, l, first, i), size);
  }

  lemma BytesTo(n: nat, bsize: nat, l: nat, first: nat, i: nat)
    requires l > 0
    ensures bsize * First(n, l, first, i) == bsize * first + Below(n, bsize, l - 1) * i
  {
    BelowPow(n, bsize, l - 1);
    var f := Pow(n, l - 1);
    assert bsize * (first + f * i) == bsize * first + bsize * (f * i);
    assert bsize * (f * i) == (bsize * f) * i;
  }

  /** fsck accounts for all of a file exactly when below each indirect pointer nothing hangs behind the end; a pointer
      that leads to blocks behind the end only does not matter. */
  lemma FitsExactly(n: nat, bsize: nat, ts: seq<Tree>, size: nat)
    requires n > 0 && bsize > 0 && RootShapes(n, ts) && size < TWO64
    requires forall l: nat :: 1 <= l <= NIADDR ==> bsize * (Base(n, l) + Pow(n, l)) < TWO64
    ensures FileFits(n, bsize, ts, Remainders(n, bsize, size)) <==>
            RootInside(n, bsize, ts, size, 1) && RootInside(n, bsize, ts, size, 2) && RootInside(n, bsize, ts, size, 3)
  {
    OneRootFits(n, bsize, ts[NDADDR], 1, size);
    OneRootFits(n, bsize, ts[NDADDR + 1], 2, size);
    OneRootFits(n, bsize, ts[NDADDR + 2], 3, size);
    forall k | 0 <= k < NDADDR
      ensures Fits(n, bsize, ts[k], RootLevel(k), Remaining(n, bsize, size, k))
    {
      assert Shape(n, ts[k], RootLevel(k));
    }
  }

  /** Below the indirect pointer of level l nothing hangs behind the end, or all of it does. */
  ghost predicate RootInside(n: nat, bsize: nat, ts: seq<Tree>, size: nat, l: nat)
    requires |ts| == NPTRS && 1 <= l <= NIADDR
  {
    size < bsize * Base(n, l) || Inside(n, bsize, ts[NDADDR + l - 1], l, Base(n, l), size)
  }

  lemma OneRootFits(n: nat, bsize: nat, t: Tree, l: nat, size: nat)
    requires n > 0 && bsize > 0 && 1 <= l <= NIADDR && Shape(n, t, l) && size < TWO64
    requires bsize * (Base(n, l) + Pow(n, l)) < TWO64
    ensures Fits(n, bsize, t, l, (size - bsize * Base(n, l)) % TWO64) <==>
            size < bsize * Base(n, l) || Inside(n, bsize, t, l, Base(n, l), size)
  {
    var base, f := Base(n, l), Pow(n, l);
    assert bsize * (base + f) == bsize * base + bsize * f;
    if size >= bsize * base {
      SmallMod(size - bsize * base, TWO64);
      FitsInside(n, bsize, t, l, base, size);
    } else {
      var x := TWO64 + (size - bsize * base);
      SmallMod(x, TWO64);
      assert (size - bsize * base) % TWO64 == x;
      BelowPow(n, bsize, l);
      FullFits(n, bsize, t, l, x);
    }
  }

  /** Whatever the kernel truncated to its last block fits. */
  lemma TruncatedFits(n: nat, bsize: nat, ts: seq<Tree>, last: int, size: nat)
    requires n > 0 && bsize > 0 && RootShapes(n, ts) && last >= -1 && (last >= 0 ==> Level(n, last) <= NIADDR)
    requires size < TWO64 && (last >= 0 ==> bsize * last < size)
    ensures RootShapes(n, TruncRoots(n, ts, last)) && FileFits(n, bsize, TruncRoots(n, ts, last), Remainders(n, bsize, size))
  {
    TruncRootsLookup(n, ts, last, 0);
    var r, rems := TruncRoots(n, ts, last), Remainders(n, bsize, size);
    forall k | 0 <= k < NPTRS
      ensures Fits(n, bsize, r[k], RootLevel(k), rems[k])
    {
      if k >= NDADDR && last >= NDADDR {
        RootFits(n, bsize, ts, last, size, k);
      } else if k < NDADDR {
        assert Shape(n, r[k], RootLevel(k));
      }
    }
  }

  /** After a truncation fsck meets exactly the blocks the file still holds, each as often as it holds it. */
  lemma TruncatedCounted(n: nat, bsize: nat, ts: seq<Tree>, last: int, size: nat)
    requires n > 0 && bsize > 0 && RootShapes(n, ts) && last >= -1 && (last >= 0 ==> Level(n, last) <= NIADDR)
    requires size < TWO64 && (last >= 0 ==> bsize * last < size)
    ensures var kept := TruncRoots(n, ts, last);
            Whole(FileRefs(n, bsize, kept, Remainders(n, bsize, size)), AllBlocks(kept))
  {
    TruncatedFits(n, bsize, ts, last, size);
    FileComplete(n, bsize, TruncRoots(n, ts, last), Remainders(n, bsize, size));
  }

  lemma RootFits(n: nat, bsize: nat, ts: seq<Tree>, last: nat, size: nat, k: nat)
    requires n > 0 && bsize > 0 && RootShapes(n, ts) && last >= NDADDR && Level(n, last) <= NIADDR
    requires size < TWO64 && bsize * last < size && NDADDR <= k < NPTRS
    ensures Fits(n, bsize, TruncRoots(n, ts, last)[k], RootLevel(k), Remaining(n, bsize, size, k))
  {
    var l, lv := RootLevel(k), Level(n, last);
    KeptLevel(n, last);
    if l <= lv {
      BaseOrder(n, l, lv);
      InFile(n, bsize, size, last, k, Base(n, l), Pow(n, l));
      var rem := Remaining(n, bsize, size, k);
      if l == lv {
        TruncFits(n, bsize, ts[k], l, last - Base(n, l), rem);
      } else {
        BelowPow(n, bsize, l);
        FullFits(n, bsize, ts[k], l, rem);
      }
    }
  }

  /** What remains of a file that goes on beyond block `last` is more than the bytes up to that block. */
  lemma InFile(n: nat, bsize: nat, size: nat, last: nat, k: nat, base: nat, span: nat)
    requires NDADDR <= k && base == Base(n, RootLevel(k)) <= last && size < TWO64 && bsize * last < size
    ensures bsize * (last - base) < Remaining(n, bsize, size, k)
    ensures base + span <= last ==> bsize * span <= Remaining(n, bsize, size, k)
  {
    MulMono(bsize, base, last);
    assert bsize * last == bsize * base + bsize * (last - base);
    assert Remaining(n, bsize, size, k) == size - bsize * base;
    if base + span <= last {
      MulMono(bsize, span, last - base);
    }
  }

  lemma BaseOrder(n: nat, l: nat, m: nat)
    requires 1 <= l <= m <= NIADDR
    ensures Base(n, l) <= Base(n, m)
    ensures l < m ==> Base(n, l) + Pow(n, l) <= Base(n, m)
  {
    NextBase(n, 1);
    NextBase(n, 2);
  }

  lemma NextBase(n: nat, l: nat)
    requires l > 0
    ensures Base(n, l + 1) == Base(n, l) + Pow(n, l)
  {
  }
}
