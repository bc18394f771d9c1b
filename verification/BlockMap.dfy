/// Reading the block map: ext2_bmaparray with its run, and the byte ranges of ext2_blockmap.
module BlockMap {
  import opened Arith
  import opened BlockTree
  import opened BlockPath
  import opened FileTree
  import opened FileRoots
  import opened FileGrowth

  datatype BmapResult = Found(b: int, run: nat) | NoBlock | TooLarge

  /** The file that pointers p lead to. */
  ghost predicate File(n: nat, h: Heap, p: seq<int>) {
    n > 1 && |p| == NPTRS && RootShapes(n, Roots(n, h, p))
  }

  ghost predicate MapsTo(n: nat, h: Heap, p: seq<int>, bn: nat, b: int)
    requires File(n, h, p)
  {
    Level(n, bn) <= NIADDR && FileLookup(n, Roots(n, h, p), bn) == b
  }

  ghost predicate MapsAhead(n: nat, h: Heap, p: seq<int>, bn: nat, k: nat, b: int)
    requires File(n, h, p)
  {
    MapsTo(n, h, p, bn + k, b)
  }

  /** The pointers c from index i on map the blocks from bn on. */
  ghost predicate MapsArray(n: nat, h: Heap, p: seq<int>, bn: nat, c: seq<int>, i: nat)
    requires File(n, h, p) && Level(n, bn) <= NIADDR && i + Following(n, bn) + 1 == |c|
  {
    forall k: nat :: k <= Following(n, bn) ==> PtrMaps(n, h, p, bn, c, i, k)
  }

  ghost predicate PtrMaps(n: nat, h: Heap, p: seq<int>, bn: nat, c: seq<int>, i: nat, k: nat)
    requires File(n, h, p) && i + k < |c|
  {
    MapsTo(n, h, p, bn + k, c[i + k])
  }

  /** Logical blocks bn to bn + run lie seqinc apart, starting at b. */
  ghost predicate Run(n: nat, h: Heap, p: seq<int>, bn: nat, b: int, seqinc: nat, run: nat)
    requires File(n, h, p)
  {
    forall k: nat :: k <= run ==> MapsAhead(n, h, p, bn, k, Nth(b, seqinc, k))
  }

  /** b, k steps of seqinc further. */
  function Nth(b: int, seqinc: nat, k: nat): int {
    if k == 0 then b else Nth(b, seqinc, k - 1) + seqinc
  }

  lemma {:induction false} NthByOne(b: int, k: nat)
    ensures Nth(b, 1, k) == b + k
  {
    if k > 0 {
      NthByOne(b, k - 1);
    }
  }

  /** What a lookup of block bn reports: the run stops short only at the limit, at the end of the pointer
      array, or where the steps end. */
  ghost predicate BmapOk(n: nat, h: Heap, p: seq<int>, bn: nat, seqinc: nat, maxrun: nat, r: BmapResult)
    requires File(n, h, p)
  {
    && (r.TooLarge? <==> Level(n, bn) > NIADDR)
    && (r.NoBlock? <==> MapsTo(n, h, p, bn, 0))
    && (r.Found? ==>
          && MapsTo(n, h, p, bn, r.b) && r.b != 0
          && r.run <= maxrun && r.run <= Following(n, bn) && Run(n, h, p, bn, r.b, seqinc, r.run)
          && Stops(n, h, p, bn, r.b, seqinc, maxrun, r.run))
  }

  ghost predicate Stops(n: nat, h: Heap, p: seq<int>, bn: nat, b: int, seqinc: nat, maxrun: nat, run: nat)
    requires File(n, h, p) && Level(n, bn) <= NIADDR
  {
    run == maxrun || run == Following(n, bn) || !MapsAhead(n, h, p, bn, run + 1, Nth(b, seqinc, run + 1))
  }

  /** How many pointers follow that of block bn in its pointer array. */
  function Following(n: nat, bn: nat): (k: nat)
    requires n > 0 && Level(n, bn) <= NIADDR
    ensures k < n || k < NDADDR
  {
    if bn < NDADDR then NDADDR - 1 - bn else n - 1 - RootPath(n, bn)[Level(n, bn) - 1]
  }

  lemma {:induction false} LastOffset(n: nat, l: nat, r: nat)
    requires n > 0 && l > 0
    ensures Offs(n, l, r)[l - 1] == r % n
  {
    if l > 1 {
      LastOffset(n, l - 1, r);
    } else {
      assert Pow(n, 0) == 1;
    }
  }

  /** With these the pointer array ends: the inode's twelve, or a multiple of n blocks behind the first one of the level. */
  lemma ArrayEnds(n: nat, bn: nat)
    requires n > 0 && Level(n, bn) <= NIADDR
    ensures var end := bn + Following(n, bn) + 1;
            if bn < NDADDR then end == NDADDR
            else Following(n, bn) < n && Base(n, Level(n, bn)) <= bn && (bn - Base(n, Level(n, bn)) + Following(n, bn) + 1) % n == 0
  {
    if bn >= NDADDR {
      var l := Level(n, bn);
      LevelBase(n, bn);
      var r := bn - Base(n, l);
      LastOffset(n, l, r);
      NextMultiple(n, r, n - 1 - r % n);
    }
  }

  lemma NextMultiple(n: nat, r: nat, k: int)
    requires n > 0 && k == n - 1 - r % n
    ensures 0 <= k < n && (r + k + 1) % n == 0
  {
    DivMod(r, n);
    assert n * (r / n + 1) == n * (r / n) + n;
    DivModUnique(r + k + 1, n, r / n + 1, 0);
  }

  // ---------------------------------------------------------------- neighbours in one pointer block

  lemma {:induction false} ComposeNext(n: nat, p: seq<nat>, k: nat)
    requires n > 0 && p != []
    ensures Compose(n, p[|p| - 1 := p[|p| - 1] + k]) == Compose(n, p) + k
  {
    var q := p[|p| - 1 := p[|p| - 1] + k];
    if |p| == 1 {
      assert p[1..] == q[1..] == [] && Pow(n, 0) == 1;
    } else {
      ComposeNext(n, p[1..], k);
      assert q[1..] == p[1..][|p| - 2 := p[|p| - 1] + k];
    }
  }

  /** Going on k blocks within a pointer block changes the last offset only. */
  lemma OffsNext(n: nat, l: nat, r: nat, k: nat)
    requires n > 0 && l > 0 && r < Pow(n, l) && Offs(n, l, r)[l - 1] + k < n
    ensures r + k < Pow(n, l)
    ensures Offs(n, l, r + k) == Offs(n, l, r)[l - 1 := Offs(n, l, r)[l - 1] + k]
  {
    var p := Offs(n, l, r);
    var q := p[l - 1 := p[l - 1] + k];
    ComposeOffs(n, l, r);
    SmallMod(r, Pow(n, l));
    ComposeNext(n, p, k);
    ComposeBound(n, q);
    SmallMod(r + k, Pow(n, l));
    OffsCompose(n, q, r + k);
  }

  lemma PathNext(n: nat, bn: nat, k: nat)
    requires n > 0 && NDADDR <= bn && Level(n, bn) <= NIADDR && k <= Following(n, bn)
    ensures var l, p := Level(n, bn), RootPath(n, bn);
            && Level(n, bn + k) == l && RootIndex(n, bn + k) == RootIndex(n, bn)
            && RootPath(n, bn + k) == p[l - 1 := p[l - 1] + k]
  {
    var l := Level(n, bn);
    LevelBase(n, bn);
    OffsNext(n, l, bn - Base(n, l), k);
    LevelUnique(n, l, bn + k);
  }

  /** A node of a path depends only on the offsets above it. */
  lemma {:induction false} OnPrefix(h: Heap, bn: int, l: nat, p: seq<nat>, q: seq<nat>, nb: int, m: nat)
    requires |p| == |q| == l && m <= l && p[..l - m] == q[..l - m] && On(h, bn, l, p, nb, m)
    ensures On(h, bn, l, q, nb, m)
    decreases l
  {
    if m < l {
      assert p[0] == p[..l - m][0] && q[0] == q[..l - m][0];
      assert p[1..][..l - 1 - m] == p[..l - m][1..] && q[1..][..l - 1 - m] == q[..l - m][1..];
      OnPrefix(h, PtrAt(h, bn, p[0]), l - 1, p[1..], q[1..], nb, m);
    }
  }

  /** The pointers of the last indirect block map consecutive logical blocks. */
  lemma LastNode(n: nat, h: Heap, p: seq<int>, bn: nat, nb: int, k: nat)
    requires File(n, h, p) && NDADDR <= bn && Level(n, bn) <= NIADDR && k <= Following(n, bn)
    requires On(h, p[RootIndex(n, bn)], Level(n, bn), RootPath(n, bn), nb, 1)
    ensures MapsTo(n, h, p, bn + k, PtrAt(h, nb, RootPath(n, bn)[Level(n, bn) - 1] + k))
  {
    var l := Level(n, bn);
    PathNext(n, bn, k);
    OnPrefix(h, p[RootIndex(n, bn)], l, RootPath(n, bn), RootPath(n, bn + k), nb, 1);
    Lacks(n, h, p, bn + k, nb, 1);
  }

  lemma DirectNode(n: nat, h: Heap, p: seq<int>, bn: nat)
    requires File(n, h, p) && bn < NDADDR
    ensures MapsTo(n, h, p, bn, p[bn])
  {
  }

  /** Below a missing block there is nothing. */
  lemma MissingNode(n: nat, h: Heap, p: seq<int>, bn: nat, nb: int, m: nat)
    requires File(n, h, p) && Level(n, bn) <= NIADDR && 0 < m <= Level(n, bn)
    requires On(h, p[RootIndex(n, bn)], Level(n, bn), RootPath(n, bn), nb, m)
    requires PtrAt(h, nb, RootPath(n, bn)[Level(n, bn) - m]) == 0
    ensures MapsTo(n, h, p, bn, 0)
  {
    OnMissing(n, h, p[RootIndex(n, bn)], Level(n, bn), RootPath(n, bn), nb, m);
  }

  // ---------------------------------------------------------------- ext2_bmaparray

  ghost predicate RunIn(c: seq<int>, i: nat, seqinc: nat, run: nat)
    requires i + run < |c|
  {
    forall k :: 0 <= k <= run ==> c[i + k] == Nth(c[i], seqinc, k)
  }

  /** How far the pointers from c[i] on go up in steps of seqinc, but no further than maxrun. */
  method CountRun(c: seq<int>, i: nat, seqinc: nat, maxrun: nat) returns (run: nat)
    requires i < |c|
    ensures run <= maxrun && i + run < |c| && RunIn(c, i, seqinc, run)
    ensures run == maxrun || i + run + 1 == |c| || c[i + run + 1] != Nth(c[i], seqinc, run + 1)
  {
    var bn := i + 1;
    run := 0;
    while bn < |c| && run < maxrun && c[bn] == c[bn - 1] + seqinc
      invariant bn == i + run + 1 && bn <= |c| && run <= maxrun && RunIn(c, i, seqinc, run)
    {
      assert c[i + run] == Nth(c[i], seqinc, run);
      bn, run := bn + 1, run + 1;
    }
    assert c[i + run] == Nth(c[i], seqinc, run);
  }

  /** The run counted in the pointer array of block bn is a run of the file. */
  lemma RunMaps(n: nat, h: Heap, p: seq<int>, bn: nat, c: seq<int>, i: nat, seqinc: nat, maxrun: nat, run: nat)
    requires File(n, h, p) && Level(n, bn) <= NIADDR && i + Following(n, bn) + 1 == |c| && c[i] != 0
    requires MapsArray(n, h, p, bn, c, i)
    requires run <= maxrun && i + run < |c| && RunIn(c, i, seqinc, run)
    requires run == maxrun || i + run + 1 == |c| || c[i + run + 1] != Nth(c[i], seqinc, run + 1)
    ensures BmapOk(n, h, p, bn, seqinc, maxrun, Found(c[i], run))
  {
    EndsHere(n, h, p, bn, c, i, 0, c[i]);
    RunAhead(n, h, p, bn, c, i, seqinc, run);
    RunStops(n, h, p, bn, c, i, seqinc, maxrun, run);
  }

  lemma RunStops(n: nat, h: Heap, p: seq<int>, bn: nat, c: seq<int>, i: nat, seqinc: nat, maxrun: nat, run: nat)
    requires File(n, h, p) && Level(n, bn) <= NIADDR && i + Following(n, bn) + 1 == |c|
    requires MapsArray(n, h, p, bn, c, i) && run <= maxrun && i + run < |c|
    requires run == maxrun || i + run + 1 == |c| || c[i + run + 1] != Nth(c[i], seqinc, run + 1)
    ensures Stops(n, h, p, bn, c[i], seqinc, maxrun, run)
  {
    if run < maxrun && run < Following(n, bn) {
      NotLonger(n, h, p, bn, c, i, seqinc, run + 1);
    }
  }

  lemma NotLonger(n: nat, h: Heap, p: seq<int>, bn: nat, c: seq<int>, i: nat, seqinc: nat, k: nat)
    requires File(n, h, p) && Level(n, bn) <= NIADDR && i + Following(n, bn) + 1 == |c| && k <= Following(n, bn)
    requires MapsArray(n, h, p, bn, c, i) && c[i + k] != Nth(c[i], seqinc, k)
    ensures !MapsAhead(n, h, p, bn, k, Nth(c[i], seqinc, k))
  {
    EndsHere(n, h, p, bn, c, i, k, Nth(c[i], seqinc, k));
  }

  lemma EndsHere(n: nat, h: Heap, p: seq<int>, bn: nat, c: seq<int>, i: nat, k: nat, b: int)
    requires File(n, h, p) && Level(n, bn) <= NIADDR && i + Following(n, bn) + 1 == |c| && k <= Following(n, bn)
    requires MapsArray(n, h, p, bn, c, i)
    ensures MapsAhead(n, h, p, bn, k, b) <==> c[i + k] == b
  {
    assert PtrMaps(n, h, p, bn, c, i, k);
  }

  lemma RunAhead(n: nat, h: Heap, p: seq<int>, bn: nat, c: seq<int>, i: nat, seqinc: nat, run: nat)
    requires File(n, h, p) && Level(n, bn) <= NIADDR && i + Following(n, bn) + 1 == |c|
    requires MapsArray(n, h, p, bn, c, i) && i + run < |c| && RunIn(c, i, seqinc, run)
    ensures Run(n, h, p, bn, c[i], seqinc, run)
  {
    forall k: nat | k <= run
      ensures MapsAhead(n, h, p, bn, k, Nth(c[i], seqinc, k))
    {
      assert PtrMaps(n, h, p, bn, c, i, k);
    }
  }

  /** The block behind logical block bn, and how many blocks follow it in steps of seqinc. */
  method BmapArray(n: nat, h: Heap, p: seq<int>, bn: nat, seqinc: nat, maxrun: nat) returns (r: BmapResult)
    requires File(n, h, p)
    ensures BmapOk(n, h, p, bn, seqinc, maxrun, r)
  {
    var a := GetLbns(n, bn);
    DataPath(n, bn);
    if a.EFBIG? {
      return TooLarge;
    }
    if |a.steps| == 0 {
      r := BmapDirect(n, h, p, bn, seqinc, maxrun);
      return;
    }
    ghost var l := Level(n, bn);
    var num := |a.steps|;
    var daddr, i := p[NDADDR + a.steps[0].off], 1;
    while i + 1 < num && daddr != 0
      invariant 1 <= i <= l
      invariant daddr != 0 ==> On(h, p[RootIndex(n, bn)], l, RootPath(n, bn), daddr, l - i + 1)
      invariant daddr == 0 ==> MapsTo(n, h, p, bn, 0)
      decreases num - i
    {
      daddr := NextBlock(n, h, p, bn, daddr, a.steps[i].off, l - i + 1);
      i := i + 1;
    }
    if daddr == 0 {
      return NoBlock;
    }
    r := BmapLast(n, h, p, bn, daddr, a.steps[i].off, seqinc, maxrun);
  }

  method NextBlock(n: nat, h: Heap, ghost p: seq<int>, ghost bn: nat, nb: int, off: nat, ghost m: nat) returns (daddr: int)
    requires File(n, h, p) && Level(n, bn) <= NIADDR && 0 < m <= Level(n, bn)
    requires On(h, p[RootIndex(n, bn)], Level(n, bn), RootPath(n, bn), nb, m)
    requires off == RootPath(n, bn)[Level(n, bn) - m]
    ensures daddr != 0 ==> On(h, p[RootIndex(n, bn)], Level(n, bn), RootPath(n, bn), daddr, m - 1)
    ensures daddr == 0 ==> MapsTo(n, h, p, bn, 0)
  {
    daddr := PtrAt(h, nb, off);
    if daddr != 0 {
      OnNext(h, p[RootIndex(n, bn)], Level(n, bn), RootPath(n, bn), nb, m);
    } else {
      MissingNode(n, h, p, bn, nb, m);
    }
  }

  /** The last indirect block: the block itself and its run. */
  method BmapLast(n: nat, h: Heap, ghost p: seq<int>, ghost bn: nat, nb: int, off: nat, seqinc: nat, maxrun: nat)
    returns (r: BmapResult)
    requires File(n, h, p) && NDADDR <= bn && Level(n, bn) <= NIADDR
    requires On(h, p[RootIndex(n, bn)], Level(n, bn), RootPath(n, bn), nb, 1)
    requires off == RootPath(n, bn)[Level(n, bn) - 1]
    ensures BmapOk(n, h, p, bn, seqinc, maxrun, r)
  {
    var bap := Pointers(n, h, nb);
    LastNodes(n, h, p, bn, nb, bap, off);
    if bap[off] == 0 {
      assert PtrMaps(n, h, p, bn, bap, off, 0);
      return NoBlock;
    }
    var run := CountRun(bap, off, seqinc, maxrun);
    RunMaps(n, h, p, bn, bap, off, seqinc, maxrun, run);
    return Found(bap[off], run);
  }

  lemma LastNodes(n: nat, h: Heap, p: seq<int>, bn: nat, nb: int, bap: seq<int>, off: nat)
    requires File(n, h, p) && NDADDR <= bn && Level(n, bn) <= NIADDR
    requires On(h, p[RootIndex(n, bn)], Level(n, bn), RootPath(n, bn), nb, 1)
    requires off == RootPath(n, bn)[Level(n, bn) - 1] && bap == Pointers(n, h, nb)
    ensures off + Following(n, bn) + 1 == |bap|
    ensures MapsArray(n, h, p, bn, bap, off)
  {
    forall k: nat | k <= Following(n, bn)
      ensures PtrMaps(n, h, p, bn, bap, off, k)
    {
      LastNode(n, h, p, bn, nb, k);
    }
  }

  method BmapDirect(n: nat, h: Heap, p: seq<int>, bn: nat, seqinc: nat, maxrun: nat) returns (r: BmapResult)
    requires File(n, h, p) && bn < NDADDR
    ensures BmapOk(n, h, p, bn, seqinc, maxrun, r)
  {
    var db := p[..NDADDR];
    DirectNode(n, h, p, bn);
    if db[bn] == 0 {
      return NoBlock;
    }
    var run := CountRun(db, bn, seqinc, maxrun);
    forall k: nat | k <= Following(n, bn)
      ensures PtrMaps(n, h, p, bn, db, bn, k)
    {
      DirectNode(n, h, p, bn + k);
    }
    RunMaps(n, h, p, bn, db, bn, seqinc, maxrun, run);
    return Found(db[bn], run);
  }

  // ---------------------------------------------------------------- ext2_blockmap

  const DEV_BSIZE := 512

  datatype RangeResult = Range(bpn: int, run: nat) | Hole | Error

  /** Byte foffset + i of the file lies at byte at + i of the device, asking the block map for its block
      alone. */
  ghost predicate ByteAt(n: nat, h: Heap, p: seq<int>, bsize: nat, foffset: nat, i: nat, at: int)
    requires File(n, h, p) && bsize > 0
  {
    exists b: int ::
      b != 0 && MapsTo(n, h, p, (foffset + i) / bsize, b) && at + i == b * bsize + (foffset + i) % bsize
  }

  /** Bytes 0 to run - 1 behind byte foffset lie on the device without a gap, from byte `at` on. */
  ghost predicate Contiguous(n: nat, h: Heap, p: seq<int>, bsize: nat, foffset: nat, at: int, run: nat)
    requires File(n, h, p) && bsize > 0
  {
    forall i: nat :: i < run ==> ByteAt(n, h, p, bsize, foffset, i, at)
  }

  /** A range that starts in logical block lbn and ends at byte `end` does so before block lbn + k, and for one of three
      reasons: no more blocks were asked for, the pointer array ends, or block lbn + k is not where it would
      have to be on the device. */
  ghost predicate EndsAt(n: nat, h: Heap, p: seq<int>, bsize: nat, lbn: nat, end: nat, maxrun: nat, k: nat)
    requires File(n, h, p) && Level(n, lbn) <= NIADDR
  {
    && end == (lbn + k) * bsize
    && (k == maxrun + 1 || k == Following(n, lbn) + 1
        || forall b: int :: MapsTo(n, h, p, lbn, b) ==> !MapsTo(n, h, p, lbn + k, b + k))
  }

  ghost predicate EndsForReason(n: nat, h: Heap, p: seq<int>, bsize: nat, lbn: nat, end: nat, maxrun: nat)
    requires File(n, h, p) && Level(n, lbn) <= NIADDR
  {
    exists k: nat :: k > 0 && EndsAt(n, h, p, bsize, lbn, end, maxrun, k)
  }

  /** The device sector of byte `foffset` and how many bytes follow it there without a gap.  Every byte of the range
      is where the block map, asked for its block alone, puts it.  The range ends with the request or with the
      file, or else at a block boundary for one of the three reasons. */
  method BlockMapRange(n: nat, h: Heap, p: seq<int>, bsize: nat, size: nat, foffset: nat, asize: nat, maxrun: nat)
    returns (r: RangeResult)
    requires File(n, h, p) && bsize > 0 && bsize % DEV_BSIZE == 0
    requires forall bn: nat, b: int :: MapsTo(n, h, p, bn, b) ==> b >= 0   // block numbers fit their type
    ensures r.Error? <==> Level(n, foffset / bsize) > NIADDR
    ensures r.Hole? <==> MapsTo(n, h, p, foffset / bsize, 0)
    ensures r.Range? ==> ByteAt(n, h, p, bsize, foffset, 0, r.bpn * DEV_BSIZE + foffset % DEV_BSIZE)
    ensures r.Range? ==> Contiguous(n, h, p, bsize, foffset, r.bpn * DEV_BSIZE + foffset % DEV_BSIZE, r.run)
    ensures r.Range? ==> r.run <= asize && (r.run > 0 ==> foffset + r.run <= size)
    ensures r.Range? && asize > 0 && foffset < size ==> r.run > 0
    ensures r.Range? && r.run < asize && foffset + r.run < size ==>
              EndsForReason(n, h, p, bsize, foffset / bsize, foffset + r.run, maxrun)
  {
    var lbn, blkoffset := foffset / bsize, foffset % bsize;
    var m := BmapArray(n, h, p, lbn, 1, maxrun);
    if m.TooLarge? {
      return Error;
    }
    if m.NoBlock? {
      return RangeResult.Hole;
    }
    var bn := m.b * (bsize / DEV_BSIZE);
    var bpn := bn + blkoffset / DEV_BSIZE;
    var span := (m.run + 1) * bsize;
    var contig := Capped(span - blkoffset, asize, foffset, size);
    WholeBlocks(m.run, bsize, blkoffset);
    SectorOf(bsize, foffset, m.b);
    RunBytes(n, h, p, bsize, foffset, m.b, m.run, span, contig);
    if contig < asize && foffset + contig < size {
      EndOfSpan(bsize, foffset, m.run + 1, span);
      RunEnds(n, h, p, bsize, lbn, foffset + contig, maxrun, m.b, m.run);
    }
    return Range(bpn, contig);
  }

  method Capped(span: int, asize: nat, foffset: nat, size: nat) returns (contig: nat)
    ensures contig == if span > asize then (if foffset + asize > size then (if size > foffset then size - foffset else 0) else asize)
                      else if foffset + span > size then (if size > foffset then size - foffset else 0)
                      else if span < 0 then 0 else span
  {
    var c: int := span;
    if c > asize {
      c := asize;
    }
    if foffset + c > size {
      c := size - foffset;
    }
    if c < 0 {
      c := 0;
    }
    contig := c;
  }

  lemma RunBytes(n: nat, h: Heap, p: seq<int>, bsize: nat, foffset: nat, b: int, run: nat, span: nat, contig: nat)
    requires File(n, h, p) && bsize > 0 && b > 0 && Run(n, h, p, foffset / bsize, b, 1, run)
    requires span == (run + 1) * bsize && contig <= span - foffset % bsize && span - foffset % bsize > 0
    ensures ByteAt(n, h, p, bsize, foffset, 0, b * bsize + foffset % bsize)
    ensures Contiguous(n, h, p, bsize, foffset, b * bsize + foffset % bsize, contig)
  {
    var at := b * bsize + foffset % bsize;
    ByteInRun(n, h, p, bsize, foffset, foffset / bsize, b, run, span, 0);
    forall i: nat | i < contig
      ensures ByteAt(n, h, p, bsize, foffset, i, at)
    {
      ByteInRun(n, h, p, bsize, foffset, foffset / bsize, b, run, span, i);
    }
  }

  /** A range that is not cut short goes as far as the run. */
  lemma RunEnds(n: nat, h: Heap, p: seq<int>, bsize: nat, lbn: nat, end: nat, maxrun: nat, b: int, run: nat)
    requires File(n, h, p) && MapsTo(n, h, p, lbn, b) && Stops(n, h, p, lbn, b, 1, maxrun, run)
    requires end == (lbn + (run + 1)) * bsize
    ensures EndsForReason(n, h, p, bsize, lbn, end, maxrun)
  {
    NthByOne(b, run + 1);
    assert EndsAt(n, h, p, bsize, lbn, end, maxrun, run + 1);
  }

  lemma EndOfSpan(bsize: nat, foffset: nat, k: nat, span: nat)
    requires bsize > 0 && span == k * bsize
    ensures foffset + (span - foffset % bsize) == (foffset / bsize + k) * bsize
  {
    DivMod(foffset, bsize);
    assert (foffset / bsize + k) * bsize == bsize * (foffset / bsize) + k * bsize;
  }

  lemma WholeBlocks(run: nat, bsize: nat, blkoffset: nat)
    requires blkoffset < bsize
    ensures (run + 1) * bsize - blkoffset > 0
  {
    MulMono(bsize, 1, run + 1);
  }

  /** Sector arithmetic: the sector of a byte, and its place in it. */
  lemma SectorOf(bsize: nat, foffset: nat, b: int)
    requires bsize > 0 && bsize % DEV_BSIZE == 0
    ensures (b * (bsize / DEV_BSIZE) + foffset % bsize / DEV_BSIZE) * DEV_BSIZE + foffset % DEV_BSIZE ==
            b * bsize + foffset % bsize
  {
    var q := bsize / DEV_BSIZE;
    assert bsize == DEV_BSIZE * q;
    ModProduct(foffset, q, DEV_BSIZE);
    var a := (foffset / DEV_BSIZE) % q;
    assert q * DEV_BSIZE == bsize;
    assert foffset % bsize == DEV_BSIZE * a + foffset % DEV_BSIZE;
    DivModUnique(foffset % bsize, DEV_BSIZE, a, foffset % DEV_BSIZE);
    assert (b * q + a) * DEV_BSIZE == b * (q * DEV_BSIZE) + a * DEV_BSIZE;
  }

  lemma ByteInRun(n: nat, h: Heap, p: seq<int>, bsize: nat, foffset: nat, lbn: nat, b: int, run: nat, span: nat, i: nat)
    requires File(n, h, p) && bsize > 0 && lbn == foffset / bsize && b > 0 && Run(n, h, p, lbn, b, 1, run)
    requires span == (run + 1) * bsize && i < span - foffset % bsize
    ensures ByteAt(n, h, p, bsize, foffset, i, b * bsize + foffset % bsize)
  {
    var k, at := ByteArith(bsize, foffset, b, run, span, i);
    NthByOne(b, k);
    assert MapsAhead(n, h, p, lbn, k, Nth(b, 1, k));
    assert MapsTo(n, h, p, lbn + k, b + k);
  }

  /** Which block of the run byte i behind foffset is in. */
  lemma ByteArith(bsize: nat, foffset: nat, b: int, run: nat, span: nat, i: nat) returns (k: nat, at: nat)
    requires bsize > 0 && span == (run + 1) * bsize && i < span - foffset % bsize
    ensures k <= run && (foffset + i) / bsize == foffset / bsize + k && at == (foffset + i) % bsize
    ensures b * bsize + foffset % bsize + i == (b + k) * bsize + at
  {
    var x, lbn := foffset % bsize + i, foffset / bsize;
    k, at := x / bsize, x % bsize;
    DivMod(x, bsize);
    DivMod(foffset, bsize);
    if k > run {
      MulMono(bsize, run + 1, k);
    }
    assert bsize * (lbn + k) == bsize * lbn + bsize * k;
    DivModUnique(foffset + i, bsize, lbn + k, at);
    assert (b + k) * bsize == b * bsize + bsize * k;
  }
}
