/// Writing to a regular file: ext2_write, which allocates every block of the range before any data moves.
module FileWrites {
  import opened Arith
  import opened BlockTree
  import opened BlockPath
  import opened FileTree
  import opened DiskStates
  import opened FileRoots
  import opened FileGrowth
  import opened FileBlocks

  datatype WriteResult = Written | EINVAL | EFBIG | ENOSPC | EIO | Panic

  /** The blocks from `from` up to `to` are all there, each the one there was if there was one; no other mapping
      changed. */
  ghost predicate Filled(n: nat, ts: seq<Tree>, ts': seq<Tree>, from: nat, to: nat) {
    && n > 0 && RootShapes(n, ts) && RootShapes(n, ts')
    && forall q: nat :: Level(n, q) <= NIADDR ==> FilledAt(n, ts, ts', from, to, q)
  }

  ghost predicate FilledAt(n: nat, ts: seq<Tree>, ts': seq<Tree>, from: nat, to: nat, q: nat)
    requires n > 0 && RootShapes(n, ts) && RootShapes(n, ts') && Level(n, q) <= NIADDR
  {
    if from <= q < to && FileLookup(n, ts, q) == 0 then FileLookup(n, ts', q) != 0
    else FileLookup(n, ts', q) == FileLookup(n, ts, q)
  }

  /** One more block; or some of the blocks on the way to it, which change no mapping. */
  lemma FilledOneMore(n: nat, ts: seq<Tree>, ts1: seq<Tree>, from: nat, lbn: nat, bs: seq<int>)
    requires Filled(n, ts, ts1, from, lbn) && from <= lbn && Level(n, lbn) <= NIADDR && |bs| <= Lacking(n, ts1, lbn)
    ensures RootShapes(n, GrowRoots(n, ts1, lbn, bs))
    ensures |bs| < Lacking(n, ts1, lbn) ==> Filled(n, ts, GrowRoots(n, ts1, lbn, bs), from, lbn)
    ensures |bs| == Lacking(n, ts1, lbn) && FileLookup(n, GrowRoots(n, ts1, lbn, bs), lbn) != 0 ==>
              Filled(n, ts, GrowRoots(n, ts1, lbn, bs), from, lbn + 1)
  {
    var ts2 := GrowRoots(n, ts1, lbn, bs);
    GrowRootsShaped(n, ts1, lbn, bs);
    LackingMeansHole(n, ts1, lbn);
    forall q: nat | Level(n, q) <= NIADDR
      ensures |bs| < Lacking(n, ts1, lbn) ==> FilledAt(n, ts, ts2, from, lbn, q)
      ensures |bs| == Lacking(n, ts1, lbn) && FileLookup(n, ts2, lbn) != 0 ==> FilledAt(n, ts, ts2, from, lbn + 1, q)
    {
      GrowRootsLookup(n, ts1, lbn, bs, q);
      assert FilledAt(n, ts, ts1, from, lbn, q);
    }
  }

  lemma LackingMeansHole(n: nat, ts: seq<Tree>, lbn: nat)
    requires n > 0 && RootShapes(n, ts) && Level(n, lbn) <= NIADDR
    ensures Lacking(n, ts, lbn) > 0 ==> FileLookup(n, ts, lbn) == 0
  {
    MissingMeansHole(n, ts[RootIndex(n, lbn)], RootPath(n, lbn));
  }

  lemma {:induction false} MissingMeansHole(n: nat, t: Tree, p: seq<nat>)
    requires Shape(n, t, |p|) && InRange(n, p)
    ensures Missing(n, t, p) > 0 ==> Lookup(n, t, p) == 0
    decreases |p|
  {
    if t.Ind? {
      MissingMeansHole(n, t.kids[p[0]], p[1..]);
    }
  }

  /** The direct pointers up to block `to` may have been filled in, the others are as they were. */
  ghost predicate DirectSince(was: seq<int>, db: seq<int>, to: nat) {
    |db| == |was| == NDADDR && forall j :: 0 <= j < NDADDR && (j >= to || was[j] != 0) ==> db[j] == was[j]
  }

  /** What a write to blocks first to last did to a file of `size` bytes: all of them up to lbn are there.  Unless it
      was stopped, lbn is behind the last one; it panicked when block lbn was stuck. */
  ghost predicate WentTo(n: nat, bsize: nat, size: nat, was: seq<int>, db: seq<int>, ts: seq<Tree>, ts': seq<Tree>,
                         first: nat, last: nat, lbn: nat, stopped: bool, panic: bool) {
    && bsize > 0 && first <= lbn && DirectSince(was, db, lbn) && Filled(n, ts, ts', first, lbn)
    && (if stopped then lbn <= last else lbn == last + 1)
    && (forall j: nat :: first <= j < lbn ==> !StuckAt(was, bsize, size, j))
    && (panic <==> lbn <= last && StuckAt(was, bsize, size, lbn))
  }

  /** Some block lacks on the way to block lbn. */
  ghost predicate LacksBlock(n: nat, s: State, p: seq<int>, lbn: nat) {
    && |p| == NPTRS && n > 0 && Level(n, lbn) <= NIADDR && RootShapes(n, Roots(n, s.d.heap, p))
    && Lacking(n, Roots(n, s.d.heap, p), lbn) > 0
  }

  /** The numbers of the first and the last block of a range. */
  function First(bsize: nat, offset: nat): nat
    requires bsize > 0
  {
    offset / bsize
  }

  function Last(bsize: nat, offset: nat, len: nat): nat
    requires bsize > 0 && len > 0
  {
    (offset + len - 1) / bsize
  }

  /** They are the blocks of the bytes of the range. */
  lemma RangeBlocks(bsize: nat, offset: nat, len: nat, lbn: nat)
    requires bsize > 0 && len > 0
    ensures First(bsize, offset) <= lbn <= Last(bsize, offset, len) <==>
            exists x: nat :: InBlock(bsize, offset, len, lbn, x)
  {
    if x: nat :| InBlock(bsize, offset, len, lbn, x) {
      DivMono(offset, x, bsize);
      DivMono(x, offset + len - 1, bsize);
    }
    if First(bsize, offset) <= lbn <= Last(bsize, offset, len) {
      var x := ByteOf(bsize, offset, offset + len - 1, lbn);
      assert InBlock(bsize, offset, len, lbn, x);
    }
  }

  lemma ByteOf(bsize: nat, from: nat, to: nat, lbn: nat) returns (x: nat)
    requires bsize > 0 && from <= to && from / bsize <= lbn <= to / bsize
    ensures from <= x <= to && x / bsize == lbn
  {
    x := from;
    if lbn > from / bsize {
      x := bsize * lbn;
      DivModUnique(x, bsize, lbn, 0);
      DivMod(from, bsize);
      DivMod(to, bsize);
      MulMono(bsize, lbn, to / bsize);
      MulBound(bsize, from / bsize, lbn, from % bsize);
    }
  }

  ghost predicate InBlock(bsize: nat, offset: nat, len: nat, lbn: nat, x: nat)
    requires bsize > 0
  {
    offset <= x < offset + len && x / bsize == lbn
  }

  /** ext2_extend_alloc: every block of the range [offset, offset + len) becomes part of the file.  It stops at
      the first one there is no space for, or at the first one that is stuck. */
  method ExtendAlloc(f: File, offset: nat, len: nat) returns (r: BallocResult, lbn: nat)
    requires f.Valid() && len > 0 && offset + len <= f.maxsize
    modifies f`st, f`alwaysSafe, f`blocks, f`db, f`ib
    ensures f.Valid() && !r.TooFar?
    ensures WentTo(f.n, f.bsize, f.size, old(f.db), f.db, Roots(f.n, old(f.st.d.heap), old(f.db + f.ib)),
                   Roots(f.n, f.st.d.heap, f.db + f.ib), First(f.bsize, offset), Last(f.bsize, offset, len), lbn,
                   !r.Mapped?, r.Panicked?)
    ensures r.NoSpace? ==> f.Full(f.st) && |f.db| == NDADDR && LacksBlock(f.n, f.st, f.db + f.ib, lbn)
    ensures |f.st.d.used| <= |old(f.st).d.used| || |f.st.d.used| <= f.capacity
  {
    DivMono(offset, offset + len - 1, f.bsize);
    r, lbn := ExtendBlocks(f, offset + len, First(f.bsize, offset), Last(f.bsize, offset, len));
  }

  method ExtendBlocks(f: File, ghost end: nat, first: nat, endlbn: nat) returns (r: BallocResult, lbn: nat)
    requires f.Valid() && 0 < end <= f.maxsize && first <= endlbn == (end - 1) / f.bsize
    modifies f`st, f`alwaysSafe, f`blocks, f`db, f`ib
    ensures f.Valid() && !r.TooFar?
    ensures WentTo(f.n, f.bsize, f.size, old(f.db), f.db, Roots(f.n, old(f.st.d.heap), old(f.db + f.ib)),
                   Roots(f.n, f.st.d.heap, f.db + f.ib), first, endlbn, lbn, !r.Mapped?, r.Panicked?)
    ensures r.NoSpace? ==> f.Full(f.st) && |f.db| == NDADDR && LacksBlock(f.n, f.st, f.db + f.ib, lbn)
    ensures |f.st.d.used| <= |old(f.st).d.used| || |f.st.d.used| <= f.capacity
  {
    ghost var ts := Roots(f.n, f.st.d.heap, f.db + f.ib);
    RootsShaped(f.n, f.st.d.heap, f.db + f.ib);
    lbn, r := first, Mapped(0);
    while lbn <= endlbn
      invariant f.Valid() && first <= lbn <= endlbn + 1 && r.Mapped? && DirectSince(old(f.db), f.db, lbn)
      invariant Filled(f.n, ts, Roots(f.n, f.st.d.heap, f.db + f.ib), first, lbn)
      invariant forall j: nat :: first <= j < lbn ==> !StuckAt(old(f.db), f.bsize, f.size, j)
      invariant |f.st.d.used| <= |old(f.st).d.used| || |f.st.d.used| <= f.capacity
    {
      r := ExtendOne(f, end, ts, first, lbn);
      if !r.Mapped? {
        return;
      }
      lbn := lbn + 1;
    }
  }

  /** One block of it; blksize is that of a whole block. */
  method ExtendOne(f: File, ghost end: nat, ghost ts: seq<Tree>, ghost first: nat, lbn: nat) returns (r: BallocResult)
    requires f.Valid() && 0 < end <= f.maxsize && first <= lbn <= (end - 1) / f.bsize
    requires Filled(f.n, ts, Roots(f.n, f.st.d.heap, f.db + f.ib), first, lbn)
    modifies f`st, f`alwaysSafe, f`blocks, f`db, f`ib
    ensures f.Valid() && !r.TooFar? && (r.Panicked? <==> old(f.Stuck(lbn)))
    ensures DirectSince(old(f.db), f.db, lbn + 1) && (!r.Mapped? ==> f.db == old(f.db))
    ensures Filled(f.n, ts, Roots(f.n, f.st.d.heap, f.db + f.ib), first, if r.Mapped? then lbn + 1 else lbn)
    ensures r.NoSpace? ==> f.Full(f.st) && |f.db| == NDADDR && LacksBlock(f.n, f.st, f.db + f.ib, lbn)
    ensures |f.st.d.used| <= |old(f.st).d.used| || |f.st.d.used| <= f.capacity
  {
    ghost var s, p := f.st, f.db + f.ib;
    ghost var ts1 := Roots(f.n, s.d.heap, p);
    BlockLevel(f.n, f.bsize, lbn, end, f.maxsize);
    ghost var bs;
    r, bs := f.Balloc(lbn, f.bsize);
    if r.Mapped? || r.NoSpace? {
      FilledOneMore(f.n, ts, ts1, first, lbn, bs);
    }
    if r.NoSpace? {
      StillLacks(f.n, s, p, f.st, f.db + f.ib, lbn, bs);
    }
  }

  lemma StillLacks(n: nat, s: State, p: seq<int>, s': State, p': seq<int>, lbn: nat, bs: seq<int>)
    requires |p| == |p'| == NPTRS && s.d.n == n && FileGrown(s, p, s', p', lbn, bs) && |bs| < Lacking(n, Roots(n, s.d.heap, p), lbn)
    ensures LacksBlock(n, s', p', lbn)
  {
    GrownLacks(s, p, s', p', lbn, bs);
  }

  lemma BlockLevel(n: nat, bsize: nat, lbn: nat, end: nat, maxsize: nat)
    requires n > 0 && bsize > 0 && 0 < end <= maxsize && lbn <= (end - 1) / bsize
    requires Level(n, LastBlock(bsize, maxsize)) <= NIADDR
    ensures Level(n, lbn) <= NIADDR
  {
    LastBlockLevel(n, bsize, end, maxsize);
    LevelMono(n, lbn, (end - 1) / bsize);
  }

  /** ext2_write of `resid` bytes at `offset`; `moved` is whether the cluster layer could write the data, `sync`
      whether the caller waits for the inode.  When the write fails the blocks stay and the size does not
      change; it panics exactly when it comes to a block that is stuck. */
  method Write(f: File, offset: int, resid: nat, moved: bool, sync: bool)
    returns (r: WriteResult, ghost lbn: nat)
    requires f.Valid()
    modifies f`st, f`alwaysSafe, f`blocks, f`db, f`ib, f`size
    ensures f.Valid()
    ensures r.EINVAL? <==> offset < 0
    ensures r.EFBIG? <==> offset >= 0 && resid > 0 && offset + resid > f.maxsize
    ensures if moved then !r.EIO? else r.Written? ==> resid == 0
    ensures f.size == if r.Written? && resid > 0 && offset + resid > old(f.size) then offset + resid else old(f.size)
    ensures r.ENOSPC? ==> f.Full(f.st) && |f.db| == NDADDR && LacksBlock(f.n, f.st, f.db + f.ib, lbn)
    ensures |f.st.d.used| <= |old(f.st).d.used| || |f.st.d.used| <= f.capacity
    ensures r.Written? && resid > 0 && sync ==> f.st.d.dino == f.db + f.ib
    ensures r.EINVAL? || r.EFBIG? || resid == 0 ==>
              f.st == old(f.st) && f.db == old(f.db) && f.ib == old(f.ib) && f.blocks == old(f.blocks)
    ensures resid > 0 && !r.EINVAL? && !r.EFBIG? ==>
              WentTo(f.n, f.bsize, old(f.size), old(f.db), f.db, Roots(f.n, old(f.st.d.heap), old(f.db + f.ib)),
                     Roots(f.n, f.st.d.heap, f.db + f.ib), First(f.bsize, offset), Last(f.bsize, offset, resid), lbn,
                     r.ENOSPC? || r.Panic?, r.Panic?)
  {
    lbn := 0;
    if offset < 0 {
      return WriteResult.EINVAL, 0;
    }
    if resid == 0 {
      return Written, 0;
    }
    if offset + resid > f.maxsize {
      return WriteResult.EFBIG, 0;
    }
    var oldEOF := f.size;
    var newEOF := if oldEOF > offset + resid then oldEOF else offset + resid;
    var b, upto := ExtendAlloc(f, offset, resid);
    lbn := upto;
    if b.NoSpace? || b.Panicked? {
      r := if b.NoSpace? then WriteResult.ENOSPC else WriteResult.Panic;
      return;
    }
    if newEOF > oldEOF {
      f.size := newEOF;
    }
    if !moved {
      if newEOF > oldEOF {
        f.size := oldEOF;
      }
      return EIO, upto;
    }
    if sync {
      CoreWritten(f.st.d, f.db + f.ib);
      f.WriteInode();
    }
    r := Written;
  }

  /** How a file gets stuck: two blocks are written to an empty file, and the space runs out.  If it did so after
      the first block, that block stays, and the next write to it panics. */
  method FailedWriteSticks(f: File) returns (first: WriteResult, ghost lbn: nat, again: WriteResult)
    requires f.Valid() && f.size == 0 && 2 * f.bsize <= f.maxsize && f.db == Zeros(NDADDR) && f.ib == Zeros(NIADDR)
    modifies f`st, f`alwaysSafe, f`blocks, f`db, f`ib, f`size
    ensures f.Valid() && (first.Written? || (first.ENOSPC? && lbn <= 1))
    ensures first.ENOSPC? ==> (f.db[0] != 0 <==> lbn == 1)
    ensures first.ENOSPC? && lbn == 1 ==> f.Stuck(0) && again.Panic?
  {
    ghost var h, p := f.st.d.heap, f.db + f.ib;
    LastOfTwo(f.bsize);
    first, lbn := Write(f, 0, 2 * f.bsize, true, false);
    again := first;
    if first.ENOSPC? {
      FirstBlock(f.n, h, p, f.st.d.heap, f.db + f.ib, lbn);
      assert (f.db + f.ib)[0] == f.db[0];
      if f.db[0] != 0 {
        again := StaysStuck(f);
      }
    }
  }

  lemma FirstBlock(n: nat, h: Heap, p: seq<int>, h': Heap, p': seq<int>, lbn: nat)
    requires |p| == |p'| == NPTRS && p[0] == 0 && Filled(n, Roots(n, h, p), Roots(n, h', p'), 0, lbn)
    ensures p'[0] != 0 <==> lbn > 0
  {
    assert FilledAt(n, Roots(n, h, p), Roots(n, h', p'), 0, lbn, 0);
  }

  lemma LastOfTwo(bsize: nat)
    requires bsize > 0
    ensures First(bsize, 0) == 0 && Last(bsize, 0, 2 * bsize) == 1
  {
    SmallMod(0, bsize);
    DivModUnique(2 * bsize - 1, bsize, 1, bsize - 1);
  }

  /** Such files exist: blocks of 1024 bytes, the only block in use is the first one of a file of size 0. */
  method StuckFile() returns (f: File)
    ensures fresh(f) && f.Valid() && f.Stuck(0) && f.size == 0
  {
    var p := [7] + Zeros(NPTRS - 1);
    DirectHeld(256, map[], p, 1);
    assert p[..1] == [7];
    LevelOfFirst(256);
    f := new File(Device(256, {7}, map[], p), 2, 1024, 1024, 1, 0, 2);
    assert (f.db + f.ib)[0] == 7;
    EmptyStuck(f.db, 1024);
  }

  lemma LevelOfFirst(n: nat)
    ensures Level(n, LastBlock(1024, 1024)) == 0 && Sectors(2, 1) == 2
  {
    assert Sectors(2, 0) == 0;
  }

  /** Truncating such a file to nothing, which its size is already, does not help; writing to it panics. */
  method StaysStuck(f: File) returns (again: WriteResult)
    requires f.Valid() && f.size == 0 && 0 < f.maxsize && f.db[0] != 0
    modifies f`st, f`alwaysSafe, f`blocks, f`db, f`ib, f`size
    ensures f.Valid() && f.Stuck(0) && again.Panic?
  {
    EmptyStuck(f.db, f.bsize);
    SameLength(f);
    ghost var lbn;
    assert 0 / f.bsize == 0;
    again, lbn := Write(f, 0, 1, true, false);
  }

  method SameLength(f: File)
    requires f.Valid()
    modifies f`st, f`alwaysSafe, f`blocks, f`db, f`ib, f`size
    ensures f.Valid() && f.db == old(f.db) && f.size == old(f.size)
  {
    ghost var db, ib := f.db, f.ib;
    var t := f.Truncate(f.size);
    assert f.db == (f.db + f.ib)[..NDADDR];
    assert db == (db + ib)[..NDADDR];
  }

  lemma EmptyStuck(db: seq<int>, bsize: nat)
    requires bsize > 0 && |db| == NDADDR && db[0] != 0
    ensures StuckAt(db, bsize, 0, 0)
  {
    SmallMod(bsize - 1, bsize);
    SmallMod(0, bsize);
  }
}
