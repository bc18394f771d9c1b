/// Blocks of a file on a device: ext2_balloc and the shortening path of ext2_truncate.
///
/// Writes are synchronous.  Every change of the device (the on-disk inode, a pointer block, a bit of the
/// block bitmap) goes through one of four primitives, and each of them has the monitor `alwaysSafe` look
/// at the device it leaves behind: the monitor stays true as long as, in every single state the disk has
/// passed through, the pointers reachable from the on-disk inode name blocks whose bit is set, none of
/// them twice.
module FileBlocks {
  import opened Arith
  import opened BlockTree
  import opened BlockPath
  import opened FileTree
  import opened DiskStates
  import opened FileRoots
  import opened FileGrowth

  datatype BallocResult = Mapped(b: int) | TooFar | NoSpace | Panicked

  datatype TruncateResult = Truncated | EINVAL | EFBIG | ENOSPC | Panic

  class File {
    const n: nat        // pointers per block
    const nsec: nat     // disk sectors per block
    const bsize: nat    // bytes per block
    const maxsize: nat  // the largest file
    const capacity: nat // how many blocks may be in use before ext2_alloc refuses this user

    var st: State          // the device, and the blocks given back to it so far

    var db: seq<int>       // direct pointers of the in-core inode
    var ib: seq<int>       // indirect pointers of the in-core inode
    var size: nat
    var blocks: nat

    ghost var alwaysSafe: bool   // no state of the device so far was unsafe

    /** An inode is read from a device on which it is sound and counted. */
    constructor (d: Device, nsec: nat, bsize: nat, maxsize: nat, capacity: nat, size: nat, blocks: nat)
      requires d.n > 1 && bsize > 0 && size <= maxsize && SafeState(d)
      requires maxsize > 0 ==> Level(d.n, LastBlock(bsize, maxsize)) <= NIADDR
      requires blocks == Sectors(nsec, |Held(d.n, d.heap, d.dino)|)
      ensures Valid() && n == d.n && st == State(d, multiset{}) && db + ib == d.dino
      ensures this.nsec == nsec && this.bsize == bsize && this.maxsize == maxsize && this.capacity == capacity
      ensures this.size == size && this.blocks == blocks
    {
      n, this.nsec, this.bsize, this.maxsize, this.capacity := d.n, nsec, bsize, maxsize, capacity;
      st, alwaysSafe := State(d, multiset{}), true;
      db, ib := d.dino[..NDADDR], d.dino[NDADDR..];
      this.size, this.blocks := size, blocks;
      new;
      assert db + ib == d.dino;
    }

    /** The device is safe now and has been all along. */
    ghost predicate Safe()
      reads this
    {
      alwaysSafe && SafeState(st.d) && st.d.n == n
    }

    // -------------------------------------------------------------- primitives

    method WritePointers(b: int, c: seq<int>)
      modifies this`st, this`alwaysSafe
      ensures st == old(st).(d := old(st).d.(heap := old(st).d.heap[b := c]))
      ensures alwaysSafe == (old(alwaysSafe) && SafeState(st.d))
    {
      st := st.(d := st.d.(heap := st.d.heap[b := c]));
      alwaysSafe := alwaysSafe && SafeState(st.d);
    }

    method WriteInode()
      modifies this`st, this`alwaysSafe
      ensures st == old(st).(d := old(st).d.(dino := db + ib))
      ensures alwaysSafe == (old(alwaysSafe) && SafeState(st.d))
    {
      st := st.(d := st.d.(dino := db + ib));
      alwaysSafe := alwaysSafe && SafeState(st.d);
    }

    /** ext2_blkfree; freeing a free block is a panic. */
    method BlkFree(b: int)
      requires b in st.d.used
      modifies this`st, this`alwaysSafe
      ensures Freed(old(st), st, multiset{b}, multiset{}) && st.d.heap == old(st).d.heap
      ensures alwaysSafe == (old(alwaysSafe) && SafeState(st.d))
    {
      st := State(st.d.(used := st.d.used - {b}), st.freed + multiset{b});
      alwaysSafe := alwaysSafe && SafeState(st.d);
    }

    // -------------------------------------------------------------- truncation

    /** Free what hangs off pointer nb of level l, which nothing on the disk reaches any more. */
    method FreePointer(nb: int, l: nat) returns (count: nat)
      requires Safe() && n > 0 && Owned(st, nb, l) && Placed(st, nb, l, multiset{}, false)
      modifies this`st, this`alwaysSafe
      ensures Safe() && Held(n, st.d.heap, st.d.dino) == Held(n, old(st).d.heap, st.d.dino)
      ensures var gone := Blocks(Abs(n, old(st).d.heap, nb, l));
              Freed(old(st), st, gone, gone) && count == Sectors(nsec, |gone|)
      decreases l, 2
    {
      ghost var s, b := st, Blocks(Abs(n, st.d.heap, nb, l));
      if nb == 0 {
        FreedNothing(s);
        return 0;
      }
      assert nb in b;
      count := 0;
      ghost var gone := multiset{};
      if l > 0 {
        count, gone := IndirTrunc(nb, -1, l, multiset{});
        HolesEmpty(Holes(n));
        assert b == gone + multiset{nb};
        NotTwice(b, gone, nb);
      } else {
        FreedNothing(s);
      }
      ghost var s1 := st;
      BlkFree(nb);
      FreedThen(s, s1, st, gone, multiset{nb}, b, multiset{}, b);
      count := count + nsec;
      SectorsOf(nsec, gone, multiset{nb});
    }

    method IndirTrunc(bn: int, lastbn: int, l: nat, ghost rest: multiset<int>)
      returns (count: nat, ghost gone: multiset<int>)
      requires Safe() && bn != 0 && l > 0 && n > 0 && -1 <= lastbn < Pow(n, l)
      requires Owned(st, bn, l) && Placed(st, bn, l, rest, lastbn >= 0)
      modifies this`st, this`alwaysSafe
      ensures Safe() && count == Sectors(nsec, |gone|)
      ensures lastbn < 0 ==> Held(n, st.d.heap, st.d.dino) == Held(n, old(st).d.heap, st.d.dino)
      ensures Shape(n, Abs(n, old(st).d.heap, bn, l), l)
      ensures CutTo(old(st), st, bn, l, TruncTree(n, Abs(n, old(st).d.heap, bn, l), l, lastbn), gone)
      decreases l, 1
    {
      ghost var s := st;
      AbsShape(n, st.d.heap, bn, l);
      var last, rem := KeptPart(bn, lastbn, l);
      ghost var t, t1 := TruncTree(n, Abs(n, s.d.heap, bn, l), l, lastbn), CutNode(s, bn, l, last);
      var bap;
      bap, count, gone := CutTail(bn, l, last, rest, lastbn >= 0);
      if lastbn < 0 {
        return;
      }
      ghost var s1, gone1 := st, gone;
      PlacedAfterCut(s, s1, bn, l, rest, t1, gone);
      var blkcount;
      blkcount, gone := TruncLast(bn, bap[last], last, rem, l, rest, t1.kids);
      CutTwice(s, s1, st, bn, l, t1, t, gone1, gone);
      SectorsOf(nsec, gone1, gone);
      count, gone := count + blkcount, gone1 + gone;
    }

    /** The last pointer kept in a block, -1 for none, and what is kept behind it. */
    method KeptPart(ghost bn: int, lastbn: int, l: nat) returns (last: int, rem: nat)
      requires st.d.n == n > 0 && bn != 0 && l > 0 && -1 <= lastbn < Pow(n, l) && Shape(n, Abs(n, st.d.heap, bn, l), l)
      ensures -1 <= last < n && (lastbn < 0 <==> last < 0) && rem < Pow(n, l - 1)
      ensures SplitsInto(n, TruncTree(n, Abs(n, st.d.heap, bn, l), l, lastbn), CutNode(st, bn, l, last), l, last, rem)
    {
      var factor := Pow(n, l - 1);
      SmallMod(0, factor);
      last := if lastbn > 0 then lastbn / factor else lastbn;
      rem := if lastbn > 0 then lastbn % factor else 0;
      TruncSplit(st, bn, l, lastbn, last, factor, rem);
    }

    /** The second part of ext2_indirtrunc: truncate inside the last block kept. */
    method TruncLast(ghost bn: int, nb: int, ghost last: nat, lastbn: nat, l: nat, ghost rest: multiset<int>,
                     ghost ks: seq<Tree>)
      returns (count: nat, ghost gone: multiset<int>)
      requires Safe() && bn != 0 && l > 0 && last < n && lastbn < Pow(n, l - 1) && nb == PtrAt(st.d.heap, bn, last)
      requires Abs(n, st.d.heap, bn, l) == Ind(bn, ks)
      requires Owned(st, bn, l) && Placed(st, bn, l, rest, true)
      modifies this`st, this`alwaysSafe
      ensures Safe() && count == Sectors(nsec, |gone|)
      ensures |ks| == n && Shape(n, ks[last], l - 1)
      ensures CutTo(old(st), st, bn, l, Ind(bn, ks[last := Trunc(n, ks[last], Offs(n, l - 1, lastbn))]), gone)
      decreases l - 1, 2
    {
      ghost var s := st;
      count, gone := 0, multiset{};
      LastKid(s, bn, l, last, ks, rest);
      if l > 1 && nb != 0 {
        count, gone := IndirTrunc(nb, lastbn, l - 1, rest + multiset{bn} + Others(ks, last));
      } else {
        FreedNothing(s);
      }
      AfterLast(s, st, bn, l, last, Trunc(n, ks[last], Offs(n, l - 1, lastbn)), gone);
    }

    /** The first part of ext2_indirtrunc: cut the block behind `last` and free what the cut pointers led to. */
    method CutTail(bn: int, l: nat, last: int, ghost rest: multiset<int>, ghost linked: bool)
      returns (bap: seq<int>, count: nat, ghost gone: multiset<int>)
      requires Safe() && bn != 0 && l > 0 && -1 <= last < n
      requires Owned(st, bn, l) && Placed(st, bn, l, rest, linked)
      modifies this`st, this`alwaysSafe
      ensures Safe() && bap == Pointers(n, old(st).d.heap, bn) && count == Sectors(nsec, |gone|)
      ensures CutTo(old(st), st, bn, l, CutNode(old(st), bn, l, last), gone)
      ensures last >= 0 ==> PtrAt(st.d.heap, bn, last) == PtrAt(old(st).d.heap, bn, last)
      ensures !linked ==> Held(n, st.d.heap, st.d.dino) == Held(n, old(st).d.heap, st.d.dino)
      decreases l, 0
    {
      ghost var s, ts := st, Kids(n, st.d.heap, bn, l);
      bap := ZeroTail(bn, l, last, rest, linked);
      count, gone := FreeTail(bap, l, last, ts);
      AfterCutTail(s, st, bn, l, last, gone);
    }

    /** Copy the pointers of a block and zero everything behind `last` on the disk. */
    method ZeroTail(bn: int, l: nat, last: int, ghost rest: multiset<int>, ghost linked: bool) returns (bap: seq<int>)
      requires Safe() && bn != 0 && l > 0 && -1 <= last < n
      requires Owned(st, bn, l) && Placed(st, bn, l, rest, linked)
      modifies this`st, this`alwaysSafe
      ensures Safe()
      ensures bap == Pointers(n, old(st).d.heap, bn) && st == ZeroedFrom(old(st), bn, last + 1)
      ensures !linked ==> Held(n, st.d.heap, st.d.dino) == Held(n, old(st).d.heap, st.d.dino)
      ensures TailLoose(st, bap, l, last, Kids(n, old(st).d.heap, bn, l))
    {
      bap := Pointers(n, st.d.heap, bn);
      if linked {
        CutSoundLinked(st.d, bn, l, last + 1, rest);
      } else {
        CutSoundLoose(st.d, bn, l, last + 1);
      }
      LooseTail(st, bn, l, last);
      WritePointers(bn, bap[..last + 1] + Zeros(n - last - 1));
    }

    /** Since state s the trees behind i, and nothing else, have been freed. */
    ghost predicate TailFreed(s: State, ts: seq<Tree>, i: int, gone: multiset<int>, count: nat)
      requires -1 <= i < |ts|
      reads this
    {
      Safe() && TailGone(s, st, ts, i, gone) && count == Sectors(nsec, |gone|)
    }

    lemma TailStart(ts: seq<Tree>)
      requires Safe()
      ensures TailFreed(st, ts, |ts| - 1, multiset{}, 0)
    {
      FreedNothing(st);
      assert ts[|ts|..] == [];
    }

    /** Free what the pointers behind `last` led to, last one first. */
    method FreeTail(bap: seq<int>, l: nat, last: int, ghost ts: seq<Tree>) returns (count: nat, ghost gone: multiset<int>)
      requires Safe() && TailLoose(st, bap, l, last, ts)
      modifies this`st, this`alwaysSafe
      ensures TailFreed(old(st), ts, last, gone, count)
      decreases l - 1, 5
    {
      count, gone := 0, multiset{};
      var i := n - 1;
      TailStart(ts);
      while i > last
        invariant last <= i < n && TailFreed(old(st), ts, i, gone, count)
      {
        count, gone := FreeStep(bap, l, last, ts, i, old(st), gone, count);
        i := i - 1;
      }
    }

    /** The body of that loop. */
    method FreeStep(bap: seq<int>, l: nat, ghost last: int, ghost ts: seq<Tree>, i: nat,
                    ghost s: State, ghost gone: multiset<int>, count: nat)
      returns (count': nat, ghost gone': multiset<int>)
      requires TailLoose(s, bap, l, last, ts) && last < i < |ts| && TailFreed(s, ts, i, gone, count)
      modifies this`st, this`alwaysSafe
      ensures TailFreed(s, ts, i - 1, gone', count')
      decreases l - 1, 4
    {
      TreesAtIndex(n, s.d.heap, bap, l - 1, ts, i);
      NextOfTail(s, st, ts, last, i, bap[i], l - 1, gone);
      var blkcount;
      blkcount, gone' := FreeNext(bap[i], l - 1, ts[i], s, gone);
      count' := count + blkcount;
    }

    /** One more pointer of the tail: what has been freed since state s grows by its tree. */
    method FreeNext(nb: int, l: nat, ghost t: Tree, ghost s: State, ghost gone: multiset<int>)
      returns (blkcount: nat, ghost gone': multiset<int>)
      requires Safe() && n > 0 && Abs(n, st.d.heap, nb, l) == t
      requires Freed(s, st, gone, gone)
      requires Owned(st, nb, l) && Placed(st, nb, l, multiset{}, false)
      modifies this`st, this`alwaysSafe
      ensures Safe()
      ensures Held(n, st.d.heap, st.d.dino) == Held(n, old(st).d.heap, st.d.dino)
      ensures gone' == gone + Blocks(t) && Freed(s, st, gone', gone')
      ensures Sectors(nsec, |gone'|) == Sectors(nsec, |gone|) + blkcount
      decreases l, 3
    {
      gone' := gone + Blocks(t);
      ghost var s1, b := st, Blocks(t);
      blkcount := FreePointer(nb, l);
      FreedThen(s, s1, st, gone, b, gone, b, gone');
      SectorsOf(nsec, gone, b);
    }

    // -------------------------------------------------------------- ext2_truncate, shortening

    /** Zero the indirect pointers that do not survive; what remains to be kept behind each of them. */
    method CutIndirect(lastblock: int) returns (lastiblock: seq<int>)
      requires |ib| == NIADDR
      modifies this`ib
      ensures |ib| == NIADDR && |lastiblock| == NIADDR
      ensures forall j :: 0 <= j < NIADDR ==> ib[j] == if lastblock < Base(n, j + 1) then 0 else old(ib)[j]
      ensures forall j :: 0 <= j < NIADDR ==>
                lastiblock[j] == if lastblock < Base(n, j + 1) then -1 else lastblock - Base(n, j + 1)
    {
      BaseValues(n);
      var single := lastblock - NDADDR;
      var double := single - n;
      var triple := double - n * n;
      lastiblock := [single, double, triple];
      var level := NIADDR - 1;
      while level >= 0
        invariant -1 <= level < NIADDR && |lastiblock| == NIADDR && |ib| == NIADDR
        invariant forall j :: 0 <= j < NIADDR ==>
                    lastiblock[j] == if j > level && lastblock < Base(n, j + 1) then -1 else lastblock - Base(n, j + 1)
        invariant forall j :: 0 <= j < NIADDR ==>
                    ib[j] == if j > level && lastblock < Base(n, j + 1) then 0 else old(ib)[j]
      {
        if lastiblock[level] < 0 {
          ib := ib[level := 0];
          lastiblock := lastiblock[level := -1];
        }
        level := level - 1;
      }
    }

    method CutDirect(lastblock: int)
      requires |db| == NDADDR
      modifies this`db
      ensures |db| == NDADDR && forall j :: 0 <= j < NDADDR ==> db[j] == if j > lastblock then 0 else old(db)[j]
    {
      var i := 0;
      while i < NDADDR
        invariant 0 <= i <= NDADDR && |db| == NDADDR
        invariant forall j :: 0 <= j < NDADDR ==> db[j] == if j < i && j > lastblock then 0 else old(db)[j]
      {
        if i > lastblock {
          db := db[i := 0];
        }
        i := i + 1;
      }
    }

    /** The on-disk inode has lost the pointers p that do not survive; the trees ts behind them are still
        allocated. */
    ghost predicate ReadyToRelease(lastblock: int, p: seq<int>, ts: seq<Tree>)
      reads this
    {
      && |p| == NPTRS == |ts| && n > 1 && Safe()
      && lastblock >= -1 && (lastblock >= 0 ==> Level(n, lastblock) <= NIADDR)
      && var k := Kept(n, lastblock);
         st.d.dino == p[..k] + Zeros(NPTRS - k) && ts == Roots(n, st.d.heap, p) && TailApart(st, ts, k - 1)
    }

    /** Write the inode without the pointers that do not survive, before anything is freed, and put the
        old pointers back in core to process them. */
    method CutInode(lastblock: int, ghost ts: seq<Tree>) returns (lastiblock: seq<int>)
      requires |db| == NDADDR && |ib| == NIADDR && n > 1
      requires lastblock >= -1 && (lastblock >= 0 ==> Level(n, lastblock) <= NIADDR)
      requires Safe() && Sound(n, st.d.used, st.d.heap, db + ib) && ts == Roots(n, st.d.heap, db + ib)
      modifies this`db, this`ib, this`st, this`alwaysSafe
      ensures db == old(db) && ib == old(ib) && |lastiblock| == NIADDR
      ensures LastBehind(n, lastblock, lastiblock)
      ensures st == old(st).(d := old(st).d.(dino := st.d.dino))
      ensures ReadyToRelease(lastblock, db + ib, ts)
    {
      var oldb, oldi := db, ib;
      lastiblock := CutIndirect(lastblock);
      CutDirect(lastblock);
      LastBehindBases(n, lastblock, lastiblock);
      CutShape(n, oldb, oldi, db, ib, lastblock);
      WriteInode();
      RootTailApart(st, oldb + oldi, Kept(n, lastblock));
      db, ib := oldb, oldi;
    }

    /** Free what root pointer k led to. */
    method FreeRoot(nb: int, ghost k: nat, l: nat, ghost last: int, ghost s: State, ghost ts: seq<Tree>,
                    ghost gone: multiset<int>, count: nat)
      returns (count': nat, ghost gone': multiset<int>)
      requires |ts| == NPTRS && -1 <= last < k < NPTRS && Abs(n, s.d.heap, nb, l) == ts[k] && n > 0
      requires |s.d.dino| == NPTRS && s.d.n == n && TailApart(s, ts, last)
      requires TailFreed(s, ts, k, gone, count)
      modifies this`st, this`alwaysSafe
      ensures TailFreed(s, ts, k - 1, gone', count')
    {
      NextOfTail(s, st, ts, last, k, nb, l, gone);
      var blkcount;
      blkcount, gone' := FreeNext(nb, l, ts[k], s, gone);
      count' := count + blkcount;
    }

    /** Free the indirect trees none of which is kept, triple indirect first; stop at one that is. */
    method FreeIndirect(ghost k: nat, lastiblock: seq<int>, ghost s: State, ghost ts: seq<Tree>)
      returns (level: int, count: nat, ghost gone: multiset<int>)
      requires |ib| == NIADDR && |ts| == NPTRS && k <= NPTRS && IndirectTrees(s, ib, ts)
      requires n > 0 && s.d.n == n && |s.d.dino| == NPTRS && TailApart(s, ts, k - 1) && Safe() && st == s
      requires |lastiblock| == NIADDR
      requires forall j :: 0 <= j < NIADDR ==> (lastiblock[j] < 0 <==> NDADDR + j >= k)
      modifies this`st, this`alwaysSafe, this`ib
      ensures level == if k > NDADDR then k - NDADDR - 1 else -1
      ensures |ib| == NIADDR
      ensures forall j :: 0 <= j < NIADDR ==> ib[j] == if NDADDR + j >= k then 0 else old(ib)[j]
      ensures TailFreed(s, ts, (if k > NDADDR then k else NDADDR) - 1, gone, count)
    {
      level, count, gone := NIADDR - 1, 0, multiset{};
      ghost var i := NPTRS - 1;
      TailStart(ts);
      while level >= 0 && lastiblock[level] < 0
        invariant -1 <= level < NIADDR && i == NDADDR + level && k <= i + 1 && ZeroBehind(ib, old(ib), level)
        invariant TailFreed(s, ts, i, gone, count)
      {
        IndirectTree(s, old(ib), ts, level);
        count, gone := FreeTree(level, i, k, s, ts, gone, count);
        level, i := level - 1, i - 1;
      }
    }

    /** One of them. */
    method FreeTree(level: nat, ghost i: nat, ghost k: nat, ghost s: State, ghost ts: seq<Tree>, ghost gone: multiset<int>,
                    count: nat)
      returns (count': nat, ghost gone': multiset<int>)
      requires |ib| == NIADDR && level < NIADDR && |ts| == NPTRS && k <= i == NDADDR + level && n > 0
      requires Abs(n, s.d.heap, ib[level], level + 1) == ts[i] && s.d.n == n && |s.d.dino| == NPTRS
      requires TailApart(s, ts, k - 1) && TailFreed(s, ts, i, gone, count)
      modifies this`st, this`alwaysSafe, this`ib
      ensures ib == old(ib)[level := 0] && TailFreed(s, ts, i - 1, gone', count')
    {
      count', gone' := FreeRoot(ib[level], i, level + 1, k - 1, s, ts, gone, count);
      ib := ib[level := 0];
    }

    /** Free the direct blocks behind the last one kept. */
    method FreeDirect(lastblock: int, ghost s: State, ghost ts: seq<Tree>, count0: nat, ghost gone0: multiset<int>)
      returns (count: nat, ghost gone: multiset<int>)
      requires |db| == NDADDR && -1 <= lastblock < NDADDR && n > 0
      requires |ts| == NPTRS && forall i :: 0 <= i < NDADDR ==> ts[i] == Abs(n, s.d.heap, db[i], 0)
      requires |s.d.dino| == NPTRS && s.d.n == n && TailApart(s, ts, lastblock)
      requires TailFreed(s, ts, NDADDR - 1, gone0, count0)
      modifies this`st, this`alwaysSafe, this`db
      ensures |db| == NDADDR && forall j :: 0 <= j < NDADDR ==> db[j] == if j > lastblock then 0 else old(db)[j]
      ensures TailFreed(s, ts, lastblock, gone, count)
    {
      count, gone := count0, gone0;
      var i := NDADDR - 1;
      while i > lastblock
        invariant lastblock <= i < NDADDR && |db| == NDADDR
        invariant forall j :: 0 <= j < NDADDR ==> db[j] == if j > i then 0 else old(db)[j]
        invariant TailFreed(s, ts, i, gone, count)
      {
        count, gone := FreeRoot(db[i], i, 0, lastblock, s, ts, gone, count);
        db := db[i := 0];
        i := i - 1;
      }
    }

    /** Truncate inside the one indirect tree that is kept in part. */
    method TruncRoot(bn: int, lastbn: nat, l: nat, ghost k: nat) returns (count: nat, ghost gone: multiset<int>)
      requires Safe() && n > 0 && k < NPTRS && st.d.dino[k] == bn && l == RootLevel(k) > 0 && lastbn < Pow(n, l)
      modifies this`st, this`alwaysSafe
      ensures Safe() && count == Sectors(nsec, |gone|)
      ensures Shape(n, Abs(n, old(st).d.heap, bn, l), l)
      ensures CutTo(old(st), st, bn, l, Trunc(n, Abs(n, old(st).d.heap, bn, l), Offs(n, l, lastbn)), gone)
    {
      AbsShape(n, st.d.heap, bn, l);
      RootPlaced(st, k);
      count, gone := 0, multiset{};
      if bn != 0 {
        count, gone := IndirTrunc(bn, lastbn, l, Others(Roots(n, st.d.heap, st.d.dino), k));
      } else {
        FreedNothing(st);
      }
    }

    /** Everything after the inode has been cut: free the blocks that are no longer reachable. */
    method Release(lastblock: int, lastiblock: seq<int>, ghost ts: seq<Tree>)
      returns (released: nat, ghost gone: multiset<int>)
      requires |db| == NDADDR && |ib| == NIADDR && ReadyToRelease(lastblock, db + ib, ts)
      requires |lastiblock| == NIADDR && LastBehind(n, lastblock, lastiblock)
      modifies this`st, this`alwaysSafe, this`db, this`ib
      ensures Safe() && released == Sectors(nsec, |gone|) && RootShapes(n, ts)
      ensures FileCut(old(st), st, old(db + ib), TruncRoots(n, ts, lastblock), gone)
      ensures |db| == NDADDR && |ib| == NIADDR && db + ib == st.d.dino
    {
      ghost var p := db + ib;
      ghost var k := Kept(n, lastblock);
      RootsShaped(n, st.d.heap, p);
      RootIndirect(st, p);
      assert p[NDADDR..] == ib;
      var level;
      level, released, gone := FreeIndirect(k, lastiblock, st, ts);
      released, gone := Finish(lastblock, lastiblock, level, k, old(st), p, ts, released, gone);
    }

    /** The indirect trees none of which is kept are free. */
    method Finish(lastblock: int, lastiblock: seq<int>, level: int, ghost k: nat, ghost s: State, ghost p: seq<int>,
                  ghost ts: seq<Tree>, count0: nat, ghost gone0: multiset<int>)
      returns (count: nat, ghost gone: multiset<int>)
      requires |p| == NPTRS && n > 1 && |lastiblock| == NIADDR && lastblock >= -1 && LastBehind(n, lastblock, lastiblock)
      requires (lastblock >= 0 ==> Level(n, lastblock) <= NIADDR) && s.d.n == n && k == Kept(n, lastblock)
      requires s.d.dino == p[..k] + Zeros(NPTRS - k)
      requires ts == Roots(n, s.d.heap, p) && RootShapes(n, ts) && TailApart(s, ts, k - 1)
      requires level == if k > NDADDR then k - NDADDR - 1 else -1
      requires db == p[..NDADDR] && |ib| == NIADDR
      requires forall j :: 0 <= j < NIADDR ==> ib[j] == if NDADDR + j >= k then 0 else p[NDADDR + j]
      requires TailFreed(s, ts, (if k > NDADDR then k else NDADDR) - 1, gone0, count0)
      modifies this`st, this`alwaysSafe, this`db
      ensures Safe() && count == Sectors(nsec, |gone|) && |db| == NDADDR && db + ib == st.d.dino
      ensures FileCut(s, st, p, TruncRoots(n, ts, lastblock), gone)
    {
      if level >= 0 {
        count, gone := FinishKept(lastblock, lastiblock, level, k, s, p, ts, count0, gone0);
      } else {
        count, gone := FinishDirect(lastblock, k, s, p, ts, count0, gone0);
      }
    }

    /** The indirect tree the last block is in is kept in part. */
    method FinishKept(ghost lastblock: nat, lastiblock: seq<int>, level: nat, ghost k: nat, ghost s: State,
                      ghost p: seq<int>, ghost ts: seq<Tree>, count0: nat, ghost gone0: multiset<int>)
      returns (count: nat, ghost gone: multiset<int>)
      requires |p| == NPTRS && n > 1 && |lastiblock| == NIADDR && LastBehind(n, lastblock, lastiblock)
      requires lastblock >= NDADDR && Level(n, lastblock) <= NIADDR && k == Kept(n, lastblock)
      requires level == k - NDADDR - 1 < NIADDR && s.d.n == n && s.d.dino == p[..k] + Zeros(NPTRS - k)
      requires ts == Roots(n, s.d.heap, p) && RootShapes(n, ts) && TailApart(s, ts, k - 1)
      requires db == p[..NDADDR] && |ib| == NIADDR && TailFreed(s, ts, k - 1, gone0, count0)
      requires forall j :: 0 <= j < NIADDR ==> ib[j] == if NDADDR + j >= k then 0 else p[NDADDR + j]
      modifies this`st, this`alwaysSafe
      ensures Safe() && count == Sectors(nsec, |gone|) && db + ib == st.d.dino
      ensures FileCut(s, st, p, TruncRoots(n, ts, lastblock), gone)
    {
      TruncInside(n, ts, lastblock, lastiblock);
      CutPointersAre(p, db, ib, k);
      assert lastiblock[k - NDADDR - 1] == lastiblock[level] && NDADDR + level == k - 1;
      count, gone := FinishInside(lastiblock[level], level + 1, k, s, p, ts, count0, gone0);
    }

    /** No indirect tree is kept and all of them are free. */
    method FinishDirect(lastblock: int, ghost k: nat, ghost s: State, ghost p: seq<int>, ghost ts: seq<Tree>,
                        count0: nat, ghost gone0: multiset<int>)
      returns (count: nat, ghost gone: multiset<int>)
      requires |p| == NPTRS && n > 1 && -1 <= lastblock < NDADDR && k == lastblock + 1 && s.d.n == n && db == p[..NDADDR]
      requires ib == Zeros(NIADDR) && s.d.dino == p[..k] + Zeros(NPTRS - k)
      requires ts == Roots(n, s.d.heap, p) && RootShapes(n, ts) && TailApart(s, ts, lastblock)
      requires TailFreed(s, ts, NDADDR - 1, gone0, count0) && (lastblock >= 0 ==> Level(n, lastblock) <= NIADDR)
      modifies this`st, this`alwaysSafe, this`db
      ensures Safe() && count == Sectors(nsec, |gone|) && |db| == NDADDR && db + ib == st.d.dino
      ensures FileCut(s, st, p, TruncRoots(n, ts, lastblock), gone)
    {
      DirectTrees(n, s.d.heap, p, db);
      count, gone := FreeDirect(lastblock, s, ts, count0, gone0);
      DirectDone(s, st, p, ts, lastblock, k, gone);
      CutPointersAre(p, db, ib, k);
    }

    /** The indirect tree of level l is kept in part; everything behind it is already free. */
    method FinishInside(lastbn: nat, l: nat, ghost k: nat, ghost s: State, ghost p: seq<int>, ghost ts: seq<Tree>,
                        count0: nat, ghost gone0: multiset<int>)
      returns (count: nat, ghost gone: multiset<int>)
      requires |p| == NPTRS && n > 1 && 1 <= l <= NIADDR && k == NDADDR + l && lastbn < Pow(n, l) && s.d.n == n
      requires |ib| == NIADDR && ib[l - 1] == p[k - 1]
      requires s.d.dino == p[..k] + Zeros(NPTRS - k) && ts == Roots(n, s.d.heap, p)
      requires Shape(n, ts[k - 1], l) && TailApart(s, ts, k - 1) && TailFreed(s, ts, k - 1, gone0, count0)
      modifies this`st, this`alwaysSafe
      ensures Safe() && count == Sectors(nsec, |gone|) && st.d.dino == s.d.dino
      ensures FileCut(s, st, p, CutAt(n, ts, l, lastbn), gone)
    {
      ghost var s2 := st;
      assert NPTRS - k == NIADDR - l && k - 1 == NDADDR + l - 1;
      InsideReady(s, s2, p, ts, l, gone0);
      count, gone := TruncRoot(ib[l - 1], lastbn, l, NDADDR + l - 1);
      InsideDone(s, s2, st, p, ts, l, lastbn, gone0, gone);
      SectorsOf(nsec, gone0, gone);
      count, gone := count0 + count, gone0 + gone;
    }

    // -------------------------------------------------------------- ext2_balloc

    /** The in-core inode is sound, and the on-disk inode at most lags behind it. */
    ghost predicate Core()
      reads this
    {
      && n > 1 && |db| == NDADDR && |ib| == NIADDR && st.d.n == n
      && alwaysSafe && InCore(st.d, db + ib)
    }

    /** i_blocks counts the sectors of every block the file holds. */
    ghost predicate Counted()
      reads this
      requires |db| == NDADDR && |ib| == NIADDR
    {
      blocks == Sectors(nsec, |Held(n, st.d.heap, db + ib)|)
    }

    /** ext2_alloc refuses to allocate. */
    ghost predicate Full(s: State) {
      |s.d.used| >= capacity
    }

    /** There is no room for all the blocks that lack on the way to lbn. */
    ghost predicate Short(s: State, p: seq<int>, lbn: int) {
      && |p| == NPTRS && n > 0 && lbn >= 0 && Level(n, lbn) <= NIADDR && RootShapes(n, Roots(n, s.d.heap, p))
      && var lacking := Lacking(n, Roots(n, s.d.heap, p), lbn);
         lacking > 0 && |s.d.used| + lacking > capacity
    }

    /** Since state s the blocks bs were taken, as long as there was room. */
    ghost predicate TookFrom(s: State, bs: seq<int>)
      reads this
    {
      |st.d.used| == |s.d.used| + |bs| && (bs == [] || |st.d.used| <= capacity)
    }

    /** ext2_alloc as its callers see it: no space (0), or some free block, now in use. */
    method Alloc() returns (b: int)
      requires Core()
      modifies this`st, this`alwaysSafe, this`blocks
      ensures Core()
      ensures b == 0 <==> Full(old(st))
      ensures b == 0 ==> st == old(st) && blocks == old(blocks)
      ensures b != 0 ==> b !in old(st).d.used && st == old(st).(d := old(st).d.(used := old(st).d.used + {b}))
      ensures b != 0 ==> blocks == old(blocks) + nsec
    {
      b := 0;
      if |st.d.used| < capacity {
        ghost var free := UpperBound(st.d.used);
        assert free != 0 && free !in st.d.used;
        b :| b != 0 && b !in st.d.used;
        st := st.(d := st.d.(used := st.d.used + {b}));
        BehindSafe(st.d, db + ib);
        alwaysSafe := alwaysSafe && SafeState(st.d);
        blocks := blocks + nsec;
      }
    }

    /** Allocate a block for level l; a pointer block is zeroed on the disk before anything names it. */
    method Take(ghost l: nat, isData: bool) returns (b: int)
      requires Core() && (isData <==> l == 0)
      modifies this`st, this`alwaysSafe, this`blocks
      ensures Core()
      ensures b == 0 <==> Full(old(st))
      ensures b == 0 ==> st == old(st) && blocks == old(blocks)
      ensures b != 0 ==> Taken(old(st), st, db + ib, b, l) && blocks == old(blocks) + nsec
    {
      ghost var s := st;
      b := Alloc();
      if b != 0 {
        ghost var d' := st.d.(heap := if isData then s.d.heap else s.d.heap[b := Zeros(n)]);
        AllocReady(s.d, db + ib, b, l, d');
        BehindSafe(d', db + ib);
        if !isData {
          WritePointers(b, Zeros(n));
        }
      }
    }

    /** Allocate the block an empty pointer of the inode should lead to. */
    method GrowRoot(lbn: nat) returns (b: int)
      requires Core() && Counted() && Level(n, lbn) <= NIADDR && (db + ib)[RootIndex(n, lbn)] == 0
      modifies this`st, this`alwaysSafe, this`blocks, this`db, this`ib
      ensures Core() && Counted()
      ensures b == 0 <==> Full(old(st))
      ensures b == 0 ==> st == old(st) && db == old(db) && ib == old(ib)
      ensures b != 0 ==> FileGrown(old(st), old(db + ib), st, db + ib, lbn, [b]) && |st.d.used| == |old(st).d.used| + 1
      ensures b != 0 ==> db + ib == old(db + ib)[RootIndex(n, lbn) := b]
      ensures db == if lbn < NDADDR then old(db)[lbn := b] else old(db)
    {
      ghost var s, p, k := st, db + ib, RootIndex(n, lbn);
      b := Take(Level(n, lbn), lbn < NDADDR);
      if b != 0 {
        TakenRoot(s, st, st, p, lbn, b);
        GrownAccount(s, p, st, p[k := b], lbn, b, nsec);
        if lbn < NDADDR {
          db := db[lbn := b];
        } else {
          ib := ib[Level(n, lbn) - 1 := b];
        }
        assert db + ib == p[k := b];
      }
    }

    /** Allocate the block an empty pointer of indirect block nb should lead to, and link it. */
    method GrowLink(ghost lbn: nat, nb: int, off: nat, ghost m: nat, isData: bool) returns (b: int)
      requires Core() && Counted() && Level(n, lbn) <= NIADDR && 0 < m <= Level(n, lbn) && (isData <==> m == 1)
      requires On(st.d.heap, (db + ib)[RootIndex(n, lbn)], Level(n, lbn), RootPath(n, lbn), nb, m)
      requires off == RootPath(n, lbn)[Level(n, lbn) - m] && PtrAt(st.d.heap, nb, off) == 0
      modifies this`st, this`alwaysSafe, this`blocks
      ensures Core() && Counted()
      ensures b == 0 <==> Full(old(st))
      ensures b == 0 ==> st == old(st)
      ensures b != 0 ==> FileGrown(old(st), db + ib, st, db + ib, lbn, [b]) && |st.d.used| == |old(st).d.used| + 1
      ensures b != 0 ==>
                On(st.d.heap, (db + ib)[RootIndex(n, lbn)], Level(n, lbn), RootPath(n, lbn), b, m - 1)
    {
      ghost var s, p := st, db + ib;
      b := Take(m - 1, isData);
      if b != 0 {
        ghost var s1 := st;
        ghost var s2 := s1.(d := s1.d.(heap := LinkedHeap(n, s1.d.heap, nb, off, b)));
        TakenLink(s, s1, s2, p, lbn, nb, m, b);
        GrownAccount(s, p, s2, p, lbn, b, nsec);
        BehindSafe(s2.d, p);
        WritePointers(nb, Pointers(n, st.d.heap, nb)[off := b]);
      }
    }

    ghost predicate Growing(s: State, p: seq<int>, lbn: nat, bs: seq<int>, nb: int, m: nat)
      reads this
    {
      && Core() && Counted() && |p| == NPTRS && s.d.n == n && TookFrom(s, bs)
      && Reached(s, p, st, db + ib, lbn, bs, nb, m)
    }

    /** A call stopped for want of space: the pointer blocks it added stay, the data block is missing. */
    ghost predicate Stopped(s: State, p: seq<int>, lbn: nat, bs: seq<int>)
      reads this
    {
      && Core() && Counted() && |p| == NPTRS && s.d.n == n && TookFrom(s, bs) && Full(st)
      && FileGrown(s, p, st, db + ib, lbn, bs) && |bs| < Lacking(n, Roots(n, s.d.heap, p), lbn)
    }

    /** Block nb is the next one on the way, or there was none to be had. */
    ghost predicate Fetched(s: State, p: seq<int>, lbn: nat, bs: seq<int>, nb: int, m: nat)
      reads this
    {
      if nb != 0 then Growing(s, p, lbn, bs, nb, m) else Stopped(s, p, lbn, bs)
    }

    /** Fetch the block the inode's pointer leads to, allocating it if necessary. */
    method FetchRoot(lbn: nat, nb0: int) returns (nb: int, ghost bs: seq<int>)
      requires Core() && Counted() && Level(n, lbn) <= NIADDR && nb0 == (db + ib)[RootIndex(n, lbn)]
      modifies this`st, this`alwaysSafe, this`blocks, this`db, this`ib
      ensures Fetched(old(st), old(db + ib), lbn, bs, nb, Level(n, lbn))
      ensures db == if lbn < NDADDR then old(db)[lbn := nb] else old(db)
    {
      ghost var s, p := st, db + ib;
      nb, bs := nb0, [];
      if nb == 0 {
        GrownNothing(s, p, lbn);
        nb := GrowRoot(lbn);
        if nb != 0 {
          bs := [nb];
        } else {
          RootsShaped(n, s.d.heap, p);
        }
      } else {
        ReachedStart(s, p, lbn);
      }
    }

    /** Fetch the block behind offset `off` of an indirect block on the path, allocating it if necessary. */
    method FetchNext(ghost lbn: nat, indirb: int, off: nat, ghost m: nat, isData: bool,
                     ghost s: State, ghost p: seq<int>, ghost bs: seq<int>)
      returns (nb: int, ghost bs': seq<int>)
      requires Growing(s, p, lbn, bs, indirb, m) && 0 < m <= Level(n, lbn) && (isData <==> m == 1)
      requires off == RootPath(n, lbn)[Level(n, lbn) - m]
      modifies this`st, this`alwaysSafe, this`blocks
      ensures Fetched(s, p, lbn, bs', nb, m - 1)
    {
      nb, bs' := PtrAt(st.d.heap, indirb, off), bs;
      ReachedNext(s, p, st, db + ib, lbn, bs, indirb, m);
      if nb == 0 {
        ghost var s1 := st;
        nb := GrowLink(lbn, indirb, off, m, isData);
        if nb != 0 {
          GrownThen(s, p, s1, db + ib, st, db + ib, lbn, bs, nb);
          bs' := bs + [nb];
        }
      }
    }

    method BallocIndirect(lbn: nat) returns (r: BallocResult, ghost bs: seq<int>)
      requires Core() && Counted() && lbn >= NDADDR
      modifies this`st, this`alwaysSafe, this`blocks, this`db, this`ib
      ensures Balloced(old(st), old(db + ib), lbn, r, bs) && !r.Panicked?
      ensures r.TooFar? ==> st == old(st) && db == old(db) && ib == old(ib) && blocks == old(blocks) && alwaysSafe
      ensures |db| == NDADDR && db == old(db)
    {
      ghost var s, p := st, db + ib;
      bs := [];
      var indirs := GetLbns(n, lbn);
      DataPath(n, lbn);
      if indirs.EFBIG? {
        return TooFar, [];
      }
      ghost var l := Level(n, lbn);
      var num := |indirs.steps| - 1;
      var nb;
      nb, bs := FetchRoot(lbn, ib[indirs.steps[0].off]);
      var i := 1;
      ghost var m := l;
      while nb != 0 && i <= num
        invariant 1 <= i <= num + 1 && m == l - i + 1 && db == old(db)
        invariant Fetched(s, p, lbn, bs, nb, m)
        decreases num + 1 - i
      {
        nb, bs := FetchNext(lbn, nb, indirs.steps[i].off, m, i == num, s, p, bs);
        i, m := i + 1, m - 1;
      }
      if nb == 0 {
        return NoSpace, bs;
      }
      ReachedEnd(s, p, st, db + ib, lbn, bs, nb);
      return Mapped(nb), bs;
    }

    /** What one call of ext2_balloc did to the file that had pointers p on the device of s. */
    ghost predicate Balloced(s: State, p: seq<int>, lbn: int, r: BallocResult, bs: seq<int>)
      reads this
    {
      && |p| == NPTRS && |db| == NDADDR && |ib| == NIADDR && s.d.n == n > 1
      && Core() && Counted()
      && (r.TooFar? <==> lbn < 0 || Level(n, lbn) > NIADDR)
      && (!r.TooFar? ==>
            && FileGrown(s, p, st, db + ib, lbn, bs)
            && (r.Panicked? ==> bs == [])
            && TookFrom(s, bs) && (r.NoSpace? ==> Full(st)) && (r.NoSpace? <==> Short(s, p, lbn))
            && (r.NoSpace? ==> |bs| < Lacking(n, Roots(n, s.d.heap, p), lbn))
            && (r.Mapped? ==>
                  && |bs| == Lacking(n, Roots(n, s.d.heap, p), lbn)
                  && RootShapes(n, Roots(n, st.d.heap, db + ib))
                  && r.b == FileLookup(n, Roots(n, st.d.heap, db + ib), lbn) && r.b != 0))
    }

    /** Asking for block lbn panics: it is a direct block that is there although it lies behind the end of the
        file, and the file ends on a block boundary. */
    ghost predicate Stuck(lbn: int)
      reads this
    {
      bsize > 0 && StuckAt(db, bsize, size, lbn)
    }

    /** Logical block lbn of a file, `sz` bytes of it wanted. */
    method BallocDirect(lbn: nat, sz: nat) returns (r: BallocResult, ghost bs: seq<int>)
      requires Core() && Counted() && lbn < NDADDR && 0 < sz <= bsize
      modifies this`st, this`alwaysSafe, this`blocks, this`db, this`ib
      ensures Balloced(old(st), old(db + ib), lbn, r, bs)
      ensures r.Panicked? <==> old(Stuck(lbn))
      ensures r.Panicked? ==> st == old(st) && db == old(db) && ib == old(ib) && blocks == old(blocks)
      ensures |db| == NDADDR && db == old(db)[lbn := db[lbn]] && (r.NoSpace? ==> db == old(db))
    {
      ghost var s, p := st, db + ib;
      var nb := db[lbn];
      if nb != 0 {
        ReachedStart(s, p, lbn);
        ReachedEnd(s, p, st, db + ib, lbn, [], nb);
        if size < (lbn + 1) * bsize {
          var osize, nsize := FragRoundUp(bsize, size % bsize), FragRoundUp(bsize, sz);
          FragmentGrows(bsize, size, lbn, sz);
          if nsize > osize {
            return Panicked, [];
          }
        }
        FragmentGrows(bsize, size, lbn, sz);
        return Mapped(nb), [];
      }
      nb, bs := FetchRoot(lbn, nb);
      if nb == 0 {
        return NoSpace, bs;
      }
      ReachedEnd(s, p, st, db + ib, lbn, bs, nb);
      r := Mapped(nb);
    }

    /** ext2_balloc: logical block lbn becomes part of the file, if it is not yet. */
    method Balloc(lbn: int, sz: nat) returns (r: BallocResult, ghost bs: seq<int>)
      requires Core() && Counted() && 0 < sz <= bsize
      modifies this`st, this`alwaysSafe, this`blocks, this`db, this`ib
      ensures Balloced(old(st), old(db + ib), lbn, r, bs)
      ensures r.Panicked? <==> old(Stuck(lbn))
      ensures r.TooFar? || r.Panicked? ==> st == old(st) && db == old(db) && ib == old(ib) && blocks == old(blocks)
      ensures |db| == NDADDR && (r.NoSpace? ==> db == old(db))
      ensures if 0 <= lbn < NDADDR then db == old(db)[lbn := db[lbn]] else db == old(db)
    {
      if lbn < 0 {
        return TooFar, [];
      }
      if lbn < NDADDR {
        r, bs := BallocDirect(lbn, sz);
      } else {
        r, bs := BallocIndirect(lbn);
      }
    }

    // -------------------------------------------------------------- ext2_truncate

    /** What holds between calls: the file is sound and counted, and ends before its largest size. */
    ghost predicate Valid()
      reads this
    {
      && Core() && Counted() && bsize > 0 && size <= maxsize
      && (maxsize > 0 ==> Level(n, LastBlock(bsize, maxsize)) <= NIADDR)
    }

    /** Since state s the file with pointers p gained the blocks bs on the way to lbn, all that lacked if
        `all` holds; the inode may have been written. */
    ghost predicate GrownBy(s: State, p: seq<int>, lbn: nat, all: bool, bs: seq<int>)
      reads this
    {
      && |p| == NPTRS && |db| == NDADDR && |ib| == NIADDR && s.d.n == n > 1
      && FileGrown(s, p, st.(d := st.d.(dino := s.d.dino)), db + ib, lbn, bs)
      && (all <==> |bs| == Lacking(n, Roots(n, s.d.heap, p), lbn))
    }

    /** Lengthen the file, allocating its last block; the panic is reached exactly when that one is stuck. */
    method Lengthen(length: nat) returns (r: BallocResult, ghost bs: seq<int>)
      requires Valid() && length > size
      modifies this`st, this`alwaysSafe, this`blocks, this`db, this`ib, this`size
      ensures Valid() && (r.TooFar? <==> length > maxsize)
      ensures r.Panicked? <==> length <= maxsize && old(Stuck(LastBlock(bsize, length)))
      ensures r.TooFar? || r.Panicked? ==> st == old(st) && db == old(db) && ib == old(ib) && blocks == old(blocks)
      ensures r.Mapped? || r.NoSpace? ==> GrownBy(old(st), old(db + ib), LastBlock(bsize, length), r.Mapped?, bs)
      ensures r.NoSpace? <==> length <= maxsize && old(Short(st, db + ib, LastBlock(bsize, length)))
      ensures size == if r.Mapped? then length else old(size)
      ensures r.Mapped? ==> st.d.dino == db + ib
    {
      if length > maxsize {
        return TooFar, [];
      }
      LastBlockLevel(n, bsize, length, maxsize);
      r, bs := Balloc((length - 1) / bsize, (length - 1) % bsize + 1);
      if r.Mapped? {
        size := length;
        CoreWritten(st.d, db + ib);
        WriteInode();
      }
    }

    /** What shortening did to the file that had pointers p on the device of s: first it gained the blocks
        bs, then everything behind the last block was freed. */
    ghost predicate ShortenedTo(s: State, p: seq<int>, length: nat, bs: seq<int>, gone: multiset<int>)
      reads this
    {
      && |p| == NPTRS && |db| == NDADDR && |ib| == NIADDR && s.d.n == n > 1 && bsize > 0
      && exists mid: State, q: seq<int> ::
           && |q| == NPTRS && mid.d.n == n
           && (if length % bsize == 0 then mid == s && q == p && bs == []
               else FileGrown(s, p, mid, q, length / bsize, bs)
                    && |bs| == Lacking(n, Roots(n, s.d.heap, p), length / bsize))
           && CutFrom(mid, q, LastBlock(bsize, length), gone)
    }

    ghost predicate CutFrom(mid: State, q: seq<int>, last: int, gone: multiset<int>)
      reads this
    {
      && |q| == NPTRS == |st.d.dino| && n > 1 && last >= -1 && (last >= 0 ==> Level(n, last) <= NIADDR)
      && var ts := Roots(n, mid.d.heap, q);
         RootShapes(n, ts) && FileCut(mid, st, q, TruncRoots(n, ts, last), gone)
    }

    /** Shorten the file; its partial last block is allocated first when it is a hole. */
    method Shorten(length: nat) returns (r: BallocResult, ghost bs: seq<int>, ghost gone: multiset<int>)
      requires Valid() && length < size
      modifies this`st, this`alwaysSafe, this`db, this`ib, this`blocks, this`size
      ensures Valid() && (r.Mapped? || r.NoSpace?)
      ensures r.NoSpace? <==> length % bsize != 0 && old(Short(st, db + ib, length / bsize))
      ensures r.Mapped? ==> NoneBehind(db, bsize, length)
      ensures r.NoSpace? ==> size == old(size) && GrownBy(old(st), old(db + ib), length / bsize, false, bs)
      ensures r.Mapped? ==> size == length && st.d.dino == db + ib
      ensures r.Mapped? ==> ShortenedTo(old(st), old(db + ib), length, bs, gone)
    {
      LastBlockLess(n, bsize, length, size, maxsize);
      r, bs, gone := Mapped(0), [], multiset{};
      if length % bsize != 0 {
        r, bs := Balloc(length / bsize, length % bsize);
        if !r.Mapped? {
          return;
        }
      }
      gone := CutBehind(length);
    }

    /** What changing the length of the file, `was` before, did to it: it gained the blocks on the way to its
        new end, or lost those behind it; without success (`done` false) it gained some of the blocks on the
        way to its partial last block. */
    ghost predicate Resized(s: State, p: seq<int>, was: nat, length: nat, done: bool)
      requires bsize > 0
      reads this
    {
      if length > was then exists bs: seq<int> :: GrownBy(s, p, LastBlock(bsize, length), done, bs)
      else if length < was then
        if done then exists bs: seq<int>, gone: multiset<int> :: ShortenedTo(s, p, length, bs, gone)
        else exists bs: seq<int> :: GrownBy(s, p, length / bsize, false, bs)
      else done && st == s.(d := s.d.(dino := p)) && db + ib == p
    }

    /** ext2_truncate, for a regular file of blocks. */
    method Truncate(length: int) returns (r: TruncateResult)
      requires Valid()
      modifies this`st, this`alwaysSafe, this`db, this`ib, this`blocks, this`size
      ensures Valid()
      ensures r.EINVAL? <==> length < 0
      ensures r.EFBIG? <==> length > old(size) && length > maxsize
      ensures r.Panic? <==> old(size) < length <= maxsize && old(Stuck(LastBlock(bsize, length)))
      ensures r.ENOSPC? <==> if length > old(size) then length <= maxsize && old(Short(st, db + ib, LastBlock(bsize, length)))
                             else 0 <= length < old(size) && length % bsize != 0 && old(Short(st, db + ib, length / bsize))
      ensures size == if r.Truncated? then length else old(size)
      ensures r.EINVAL? || r.EFBIG? || r.Panic? ==> st == old(st) && db == old(db) && ib == old(ib) && blocks == old(blocks)
      ensures r.Truncated? || r.ENOSPC? ==> Resized(old(st), old(db + ib), old(size), length, r.Truncated?)
      ensures r.Truncated? ==> st.d.dino == db + ib
      ensures r.Truncated? && length < old(size) ==> NoneBehind(db, bsize, length)
    {
      if length < 0 {
        return EINVAL;
      }
      if size == length {
        CoreWritten(st.d, db + ib);
        WriteInode();
        return Truncated;
      }
      var b;
      if size < length {
        ghost var bs;
        b, bs := Lengthen(length);
      } else {
        ghost var bs, gone;
        b, bs, gone := Shorten(length);
      }
      r := match b case Mapped(_) => Truncated case TooFar => TruncateResult.EFBIG case NoSpace => ENOSPC case Panicked => Panic;
    }

    /** Shorten, once the partial last block is there. */
    method CutBehind(length: nat) returns (ghost gone: multiset<int>)
      requires Core() && Counted() && bsize > 0 && length <= maxsize
      requires LastBlock(bsize, length) >= 0 ==> Level(n, LastBlock(bsize, length)) <= NIADDR
      modifies this`st, this`alwaysSafe, this`db, this`ib, this`blocks, this`size
      ensures Core() && Counted() && size == length && st.d.dino == db + ib
      ensures NoneBehind(db, bsize, length)
      ensures CutFrom(old(st), old(db + ib), LastBlock(bsize, length), gone)
    {
      ghost var s, p, ts := st, db + ib, Roots(n, st.d.heap, db + ib);
      BehindSafe(st.d, p);
      var lastblock := LastBlock(bsize, length);
      var lastiblock := CutInode(lastblock, ts);
      ghost var s1 := st;
      var released;
      released, gone := Release(lastblock, lastiblock, ts);
      CutAccount(s, s1, st, p, TruncRoots(n, ts, lastblock), gone, nsec);
      CutsDirect(n, st.d.heap, db, ib, ts, lastblock);
      size := length;
      if blocks >= released {
        blocks := blocks - released;
      } else {
        assert false;   // the source sets blocks to 0 here, to be safe
      }
    }
  }

  /** What is left to keep behind each indirect pointer; negative where the pointer does not survive. */
  ghost predicate LastBehind(n: nat, lastblock: int, lastiblock: seq<int>)
    requires lastblock >= -1 && |lastiblock| == NIADDR
  {
    && (forall j :: 0 <= j < NIADDR ==> (lastiblock[j] < 0 <==> NDADDR + j >= Kept(n, lastblock)))
    && (lastblock >= NDADDR && 1 <= Level(n, lastblock) <= NIADDR ==>
          lastiblock[Level(n, lastblock) - 1] == lastblock - Base(n, Level(n, lastblock)))
  }

  lemma LastBehindBases(n: nat, lastblock: int, lastiblock: seq<int>)
    requires lastblock >= -1 && |lastiblock| == NIADDR && n > 0
    requires forall j :: 0 <= j < NIADDR ==>
               lastiblock[j] == if lastblock < Base(n, j + 1) then -1 else lastblock - Base(n, j + 1)
    ensures LastBehind(n, lastblock, lastiblock)
  {
    KeptIndirect(n, lastblock);
    if lastblock >= NDADDR {
      LevelBase(n, lastblock);
    }
  }

  /** Which tree is cut inside, and where. */
  lemma TruncInside(n: nat, ts: seq<Tree>, lastblock: int, lastiblock: seq<int>)
    requires n > 0 && lastblock >= NDADDR && Level(n, lastblock) <= NIADDR && |lastiblock| == NIADDR
    requires RootShapes(n, ts) && LastBehind(n, lastblock, lastiblock)
    ensures var l := Kept(n, lastblock) - NDADDR;
            && 1 <= l <= NIADDR && 0 <= lastiblock[l - 1] < Pow(n, l) && Shape(n, ts[NDADDR + l - 1], l)
            && TruncRoots(n, ts, lastblock) == CutAt(n, ts, l, lastiblock[l - 1])
  {
    KeptLevel(n, lastblock);
  }

  lemma DirectTrees(n: nat, h: Heap, p: seq<int>, db: seq<int>)
    requires |p| == NPTRS && db == p[..NDADDR]
    ensures forall i :: 0 <= i < NDADDR ==> Roots(n, h, p)[i] == Abs(n, h, db[i], 0)
  {
  }

  lemma DirectDone(s: State, s2: State, p: seq<int>, ts: seq<Tree>, last: int, k: nat, gone: multiset<int>)
    requires |p| == NPTRS && -1 <= last < NDADDR && s.d.n > 0 && ts == Roots(s.d.n, s.d.heap, p)
    requires k == last + 1 && s.d.dino == p[..k] + Zeros(NPTRS - k)
    requires TailApart(s, ts, last) && TailGone(s, s2, ts, last, gone) && RootShapes(s.d.n, ts)
    requires last >= 0 ==> Level(s.d.n, last) <= NIADDR
    ensures |s2.d.dino| == NPTRS && FileCut(s, s2, p, TruncRoots(s.d.n, ts, last), gone)
    ensures s2.d.dino == s.d.dino
  {
    CutDirectOnly(s, s2, p, last, gone);
  }

  /** The in-core pointers are those of the inode already written. */
  lemma CutPointersAre(p: seq<int>, db: seq<int>, ib: seq<int>, k: nat)
    requires |p| == NPTRS && |db| == NDADDR && |ib| == NIADDR && k <= NPTRS
    requires forall j :: 0 <= j < NDADDR ==> db[j] == if j >= k then 0 else p[j]
    requires forall j :: 0 <= j < NIADDR ==> ib[j] == if NDADDR + j >= k then 0 else p[NDADDR + j]
    ensures db + ib == p[..k] + Zeros(NPTRS - k)
  {
  }

  lemma KeptIndirect(n: nat, last: int)
    requires last >= -1
    ensures last < Base(n, 1) <==> NDADDR > Kept(n, last) - 1
    ensures last < Base(n, 2) <==> NDADDR + 1 > Kept(n, last) - 1
    ensures last < Base(n, 3) <==> NDADDR + 2 > Kept(n, last) - 1
  {
    BaseSteps(n);
  }

  lemma CutShape(n: nat, db: seq<int>, ib: seq<int>, db': seq<int>, ib': seq<int>, last: int)
    requires |db| == |db'| == NDADDR && |ib| == |ib'| == NIADDR && last >= -1
    requires forall j :: 0 <= j < NIADDR ==> ib'[j] == if last < Base(n, j + 1) then 0 else ib[j]
    requires forall j :: 0 <= j < NDADDR ==> db'[j] == if j > last then 0 else db[j]
    ensures var k := Kept(n, last); db' + ib' == (db + ib)[..k] + Zeros(NPTRS - k)
  {
    var k := Kept(n, last);
    BaseSteps(n);
    forall j | 0 <= j < NPTRS
      ensures (db' + ib')[j] == if j < k then (db + ib)[j] else 0
    {
    }
    assert (db' + ib') == (db + ib)[..k] + Zeros(NPTRS - k);
  }

  /** What is left of a simple bag does not contain what was taken. */
  /** The pointers behind that of level l are zero now, the others as they were. */
  ghost predicate ZeroBehind(ib: seq<int>, was: seq<int>, l: int) {
    |ib| == |was| == NIADDR && forall j :: 0 <= j < NIADDR ==> ib[j] == if j > l then 0 else was[j]
  }

  /** There are more numbers than blocks in use. */
  lemma {:induction false} UpperBound(used: set<int>) returns (b: int)
    ensures b > 0 && forall x :: x in used ==> x < b
    decreases used
  {
    b := 1;
    if x :| x in used {
      b := UpperBound(used - {x});
      assert forall y :: y in used ==> y == x || y in used - {x};
      b := if x >= b then x + 1 else b;
    }
  }

  lemma NotTwice(b: multiset<int>, gone: multiset<int>, x: int)
    requires Simple(b) && b == gone + multiset{x}
    ensures x !in gone
  {
    assert b[x] == gone[x] + 1;
  }

  /** The number of the last block of a file of `size` bytes; -1 when it is empty. */
  function LastBlock(bsize: nat, size: nat): (l: int)
    requires bsize > 0
    ensures l >= -1
  {
    (size + bsize - 1) / bsize - 1
  }

  function FragRoundUp(bsize: nat, x: nat): nat
    requires bsize > 0
  {
    (x + bsize - 1) / bsize * bsize
  }

  /** Direct block lbn is there, behind the end of a file that ends on a block boundary. */
  predicate StuckAt(db: seq<int>, bsize: nat, size: nat, lbn: int)
    requires bsize > 0
  {
    0 <= lbn < NDADDR && lbn < |db| && db[lbn] != 0 && size % bsize == 0 && lbn > LastBlock(bsize, size)
  }

  /** No direct block lies behind the end of the file. */
  predicate NoneBehind(db: seq<int>, bsize: nat, size: nat) {
    bsize > 0 && forall j :: 0 <= j < NDADDR && j < |db| && db[j] != 0 ==> j <= LastBlock(bsize, size)
  }

  /** A block that is there seems too small for the request exactly when it lies behind an end on a block
      boundary: a partial last block counts as a whole one, an empty part as none. */
  lemma FragmentGrows(bsize: nat, size: nat, lbn: nat, sz: nat)
    requires 0 < sz <= bsize
    ensures size < (lbn + 1) * bsize && FragRoundUp(bsize, sz) > FragRoundUp(bsize, size % bsize)
            <==> size % bsize == 0 && lbn > LastBlock(bsize, size)
  {
    DivMod(size, bsize);
    DivModUnique(sz + bsize - 1, bsize, 1, sz - 1);
    if size % bsize == 0 {
      DivModUnique(size + bsize - 1, bsize, size / bsize, bsize - 1);
      SmallMod(bsize - 1, bsize);
      if lbn + 1 <= size / bsize {
        MulMono(bsize, lbn + 1, size / bsize);
      } else {
        MulBound(bsize, size / bsize, lbn + 1, 0);
      }
    } else {
      DivModUnique(size % bsize + bsize - 1, bsize, 1, size % bsize - 1);
    }
  }

  lemma CoreWritten(d: Device, p: seq<int>)
    requires InCore(d, p)
    ensures InCore(d.(dino := p), p) && SafeState(d.(dino := p))
  {
  }

  lemma LastBlockMono(bsize: nat, a: nat, b: nat)
    requires bsize > 0 && a <= b
    ensures LastBlock(bsize, a) <= LastBlock(bsize, b)
  {
    DivMono(a + bsize - 1, b + bsize - 1, bsize);
  }

  lemma DivMono(x: nat, y: nat, d: nat)
    requires d > 0 && x <= y
    ensures x / d <= y / d
  {
    if x / d > y / d {
      MulBound(d, y / d, x / d, y % d);
    }
  }

  lemma LevelMono(n: nat, i: nat, j: nat)
    requires n > 0 && i <= j && Level(n, j) <= NIADDR
    ensures Level(n, i) <= NIADDR
  {
    LevelBase(n, i);
    LevelBase(n, j);
  }

  lemma LastBlockLevel(n: nat, bsize: nat, length: nat, maxsize: nat)
    requires n > 0 && bsize > 0 && 0 < length <= maxsize
    ensures LastBlock(bsize, length) == (length - 1) / bsize >= 0 && LastBlock(bsize, maxsize) >= 0
    ensures (length - 1) % bsize < bsize
    ensures Level(n, LastBlock(bsize, maxsize)) <= NIADDR ==> Level(n, LastBlock(bsize, length)) <= NIADDR
  {
    LastBlockIs(bsize, length);
    LastBlockIs(bsize, maxsize);
    LastBlockMono(bsize, length, maxsize);
    if Level(n, LastBlock(bsize, maxsize)) <= NIADDR {
      LevelMono(n, LastBlock(bsize, length), LastBlock(bsize, maxsize));
    }
  }

  /** The last block begins inside the file, and the file does not go on behind it. */
  lemma LastBlockMeans(bsize: nat, size: nat)
    requires bsize > 0
    ensures var last := LastBlock(bsize, size); (last >= 0 ==> bsize * last < size) && size <= bsize * (last + 1)
  {
    HowManyIs(size, bsize);
    assert LastBlock(bsize, size) + 1 == HowMany(size, bsize);
  }

  lemma LastBlockIs(bsize: nat, length: nat)
    requires bsize > 0 && length > 0
    ensures LastBlock(bsize, length) == (length - 1) / bsize >= 0
  {
    DivMod(length - 1, bsize);
    DivModUnique(length - 1 + bsize, bsize, (length - 1) / bsize + 1, (length - 1) % bsize);
  }

  lemma LastBlockLess(n: nat, bsize: nat, length: nat, size: nat, maxsize: nat)
    requires n > 0 && bsize > 0 && length < size <= maxsize && Level(n, LastBlock(bsize, maxsize)) <= NIADDR
    ensures length / bsize <= LastBlock(bsize, size) && Level(n, length / bsize) <= NIADDR
    ensures LastBlock(bsize, length) <= length / bsize
    ensures LastBlock(bsize, length) >= 0 ==> Level(n, LastBlock(bsize, length)) <= NIADDR
  {
    LastBlockLevel(n, bsize, length + 1, maxsize);
    LastBlockMono(bsize, length, length + 1);
    LastBlockMono(bsize, length + 1, size);
    if LastBlock(bsize, length) >= 0 {
      LevelMono(n, LastBlock(bsize, length), LastBlock(bsize, length + 1));
    }
  }

  /** What remains after a cut is sound, and the count of sectors follows. */
  lemma CutAccount(s: State, s1: State, s2: State, p: seq<int>, ts': seq<Tree>, gone: multiset<int>, nsec: nat)
    requires |p| == NPTRS == |s2.d.dino| && SafeState(s2.d)
    requires s1 == s.(d := s.d.(dino := s1.d.dino)) && FileCut(s1, s2, p, ts', gone)
    ensures FileCut(s, s2, p, ts', gone) && InCore(s2.d, s2.d.dino)
    ensures Sectors(nsec, |Held(s.d.n, s.d.heap, p)|) ==
            Sectors(nsec, |gone|) + Sectors(nsec, |Held(s2.d.n, s2.d.heap, s2.d.dino)|)
  {
    SectorsOf(nsec, gone, AllBlocks(ts'));
  }

  /** No direct pointer survives behind the last block. */
  lemma CutsDirect(n: nat, h: Heap, db: seq<int>, ib: seq<int>, ts: seq<Tree>, last: int)
    requires |db| == NDADDR && |ib| == NIADDR
    requires n > 0 && RootShapes(n, ts) && last >= -1 && (last >= 0 ==> Level(n, last) <= NIADDR)
    requires Roots(n, h, db + ib) == TruncRoots(n, ts, last)
    ensures forall j :: 0 <= j < NDADDR && db[j] != 0 ==> j <= last
  {
    forall j | 0 <= j < NDADDR && j > last
      ensures db[j] == 0
    {
      assert TruncRoots(n, ts, last)[j] == Hole;
      assert Roots(n, h, db + ib)[j] == Hole;
    }
  }
}
