/// How the parts fit together: what newfs or fsck leaves behind is where the allocating and freeing
/// threads of the kernel start from.
module Lifecycle {
  import opened Arith
  import opened Bitmap
  import opened Options
  import opened GroupAllocator
  import opened BlockTree
  import opened BlockPath
  import opened FileTree
  import opened FileRoots
  import opened BlockWalk
  import opened FsckInodes
  import Inodes = InodeAllocator
  import Newfs
  import Pass5
  import FsckBlocks
  import AllocProtocol

  /** The clear bits of a bitmap, as a set. */
  function ClearSet(s: seq<bool>, k: nat): (c: set<nat>)
    requires k <= |s|
    ensures forall i: nat :: i in c <==> i < k && !s[i]
  {
    set i: nat | i < k && !s[i]
  }

  lemma {:induction false} ClearSetSize(s: seq<bool>, k: nat)
    requires k <= |s|
    ensures |ClearSet(s, k)| == Clear(s, k)
  {
    if k > 0 {
      ClearSetSize(s, k - 1);
      if s[k - 1] {
        assert ClearSet(s, k) == ClearSet(s, k - 1);
      } else {
        assert ClearSet(s, k) == ClearSet(s, k - 1) + {k - 1};
      }
    }
  }

  function ClearSets(maps: seq<Bytes>): (c: seq<set<nat>>)
    ensures |c| == |maps| && forall g :: 0 <= g < |maps| ==> c[g] == ClearSet(Bits(maps[g]), 8 * |maps[g]|)
  {
    seq(|maps|, g requires 0 <= g < |maps| => ClearSet(Bits(maps[g]), 8 * |maps[g]|))
  }

  /** The kernel's state after mounting such a volume: as many threads as there are sets of blocks, none of them at
      work; thread t is going to work on files that hold the blocks owned[t]. */
  function Mounted(s: Counts, owned: seq<set<AllocProtocol.Block>>): AllocProtocol.State {
    AllocProtocol.State(ClearSets(s.maps), seq(|s.nbfree|, i requires 0 <= i < |s.nbfree| => s.nbfree[i]), s.fbcount,
                        None, seq(|s.nbfree|, _ => None),
                        seq(|owned|, _ => AllocProtocol.Idle), owned)
  }

  /** Block x, as a group and a place in it, is in use. */
  predicate InUse(s: Counts, x: AllocProtocol.Block) {
    x.0 < |s.maps| && x.1 < 8 * |s.maps[x.0]| && Bits(s.maps[x.0])[x.1]
  }

  /** Whatever the threads are going to work on is in use, and nothing is in two hands. */
  ghost predicate HandsOk(s: Counts, owned: seq<set<AllocProtocol.Block>>) {
    && (forall t, x :: 0 <= t < |owned| && x in owned[t] ==> InUse(s, x))
    && (forall t, u, x :: 0 <= t < |owned| && 0 <= u < |owned| && x in owned[t] && x in owned[u] ==> t == u)
  }

  /** A volume that satisfies the allocator's invariant is a starting state of the concurrent allocator, whoever
      works on which of its files. */
  lemma MountedStarts(q: Geometry, s: Counts, owned: seq<set<AllocProtocol.Block>>)
    requires Ok(q, s) && HandsOk(s, owned)
    ensures AllocProtocol.Init(Mounted(s, owned))
  {
    var m := Mounted(s, owned);
    assert m.nbfree == s.nbfree;
    forall g | 0 <= g < |m.buf|
      ensures m.nbfree[g] == |m.clear[g]|
    {
      assert GroupOk(q, g, s.maps[g], s.nbfree[g]);
      ClearSetSize(Bits(s.maps[g]), 8 * |s.maps[g]|);
    }
    forall t, x | 0 <= t < |owned| && x in owned[t]
      ensures x.0 < |m.clear| && x.1 !in m.clear[x.0]
    {
      assert InUse(s, x);
    }
  }

  /** On such a volume, whatever threads do and however they interleave: no block is in two hands, and none in
      hand is free. */
  lemma MountedIsSafe(q: Geometry, s: Counts, owned: seq<set<AllocProtocol.Block>>, sched: AllocProtocol.Schedule,
                      s': AllocProtocol.State, t: nat, u: nat, x: AllocProtocol.Block)
    requires Ok(q, s) && HandsOk(s, owned) && AllocProtocol.Run(Mounted(s, owned), sched, s')
    requires t < |s'.owned| && u < |s'.owned| && x in s'.owned[t]
    ensures x in s'.owned[u] ==> t == u
    ensures x.0 < |s'.clear| && x.1 !in s'.clear[x.0]
  {
    MountedStarts(q, s, owned);
    AllocProtocol.NeverHandedOutTwice(Mounted(s, owned), sched, s', t, u, x);
  }

  /** The counts, of each group and of the volume, are those of the bitmaps wherever nobody is in the middle of
      changing them. */
  lemma MountedCounts(q: Geometry, s: Counts, owned: seq<set<AllocProtocol.Block>>, sched: AllocProtocol.Schedule,
                      s': AllocProtocol.State, g: nat)
    requires Ok(q, s) && HandsOk(s, owned) && AllocProtocol.Run(Mounted(s, owned), sched, s') && g < |s'.buf|
    ensures g < |s'.nbfree| && g < |s'.clear| && (s'.buf[g].None? ==> s'.nbfree[g] == |s'.clear[g]|)
    ensures s'.lock.None? ==> s'.fbcount == Sum(s'.nbfree)
  {
    MountedStarts(q, s, owned);
    AllocProtocol.CountsMatch(Mounted(s, owned), sched, s', g);
  }

  // ---------------------------------------------------------------- bitmaps and the blocks in use

  /** The blocks of the volume that are not free. */
  ghost function UsedBlocks(q: Geometry, s: Counts): set<int> {
    set b: nat | b < q.bcount && !Free(q, s, b) :: b as int
  }

  /** Seen as a set of blocks in use, as the file code does, taking a block adds just that one, which was not in
      it, and giving one back takes just that one out. */
  lemma TakingIsAdding(q: Geometry, s: Counts, s': Counts, b: nat)
    requires Ok(q, s) && b < q.bcount
    ensures Took(q, s, s', b) ==> b != 0 && b !in UsedBlocks(q, s) && UsedBlocks(q, s') == UsedBlocks(q, s) + {b}
    ensures Gave(q, s, s', b) && 0 < b ==> b in UsedBlocks(q, s) && UsedBlocks(q, s') == UsedBlocks(q, s) - {b}
  {
    if Took(q, s, s', b) {
      TookOne(q, s, s', b);
    }
    if Gave(q, s, s', b) && 0 < b {
      GaveOne(q, s, s', b);
    }
  }

  // ---------------------------------------------------------------- after newfs

  /** The pointers of a directory whose blocks are bs. */
  function DirPointers(bs: seq<int>): (p: seq<int>)
    requires |bs| <= NDADDR
    ensures |p| == NPTRS && forall i :: 0 <= i < NPTRS ==> p[i] == if i < |bs| then bs[i] else 0
  {
    seq(NPTRS, i requires 0 <= i < NPTRS => if i < |bs| then bs[i] else 0)
  }

  /** A file of some of the blocks that were taken is sound. */
  lemma TakenSound(q: Geometry, s: Counts, s': Counts, bs: seq<nat>, i: nat, j: nat, part: seq<int>, n: nat, h: Heap)
    requires Ok(q, s) && Newfs.TookAll(q, s, s', bs) && i <= j <= |bs| && j - i <= NDADDR && part == bs[i..j]
    ensures Sound(n, UsedBlocks(q, s'), h, DirPointers(part)) && Held(n, h, DirPointers(part)) == multiset(part)
  {
    var p := DirPointers(part);
    forall x | x in bs
      ensures 0 < x < q.bcount
    {
      FreeInVolume(q, s, x);
    }
    forall m | 0 <= m < |part|
      ensures p[m] == part[m] > 0
    {
      assert part[m] == bs[i + m] && bs[i + m] in bs;
    }
    DirectHeld(n, h, p, |part|);
    assert p[..|part|] == part;
    OnceEach(part);
    forall b | b in part
      ensures b in UsedBlocks(q, s')
    {
      assert b in bs;
    }
  }

  lemma FreeInVolume(q: Geometry, s: Counts, b: nat)
    requires Free(q, s, b)
    ensures 0 < b < q.bcount
  {
    BlockRoundTrip(q.bpg, q.first, b);
    var g := DtoG(q.bpg, q.first, b);
    assert GroupOk(q, g, s.maps[g], s.nbfree[g]);
  }

  lemma {:induction false} OnceEach(l: seq<int>)
    requires forall i, j :: 0 <= i < j < |l| ==> l[i] != l[j]
    ensures Simple(multiset(l))
  {
    if l != [] {
      var k := |l| - 1;
      OnceEach(l[..k]);
      assert l == l[..k] + [l[k]];
      assert l[k] !in l[..k];
    }
  }

  /** newfs, without the resize inode: both allocators' invariants hold, and the two directories are sound on the
      bitmaps and hold different blocks. */
  method NewVolume(l: Newfs.Layout, ghost n: nat, ghost h: Heap)
    returns (ok: bool, s: Counts, inodes: Inodes.Counts, lostfound: seq<int>, root: seq<int>)
    requires Newfs.LayoutOk(l)
    ensures Ok(l.q, s) && (ok ==> Inodes.Ok(l.ipg, inodes, Newfs.FirstDirs(l.q.gcount)))
    ensures ok ==> Sound(n, UsedBlocks(l.q, s), h, lostfound) && Sound(n, UsedBlocks(l.q, s), h, root)
    ensures ok ==> Held(n, h, lostfound) !! Held(n, h, root)
    ensures ok ==> |Held(n, h, lostfound)| == Newfs.LostFoundBlocks(l.q.bpg / 8) && |Held(n, h, root)| == 1
  {
    var s0, inodes0 := Newfs.MakeGroups(l);
    var bs;
    ok, s, inodes, bs := Newfs.FsInit(l, s0, inodes0);
    lostfound, root := [], [];
    if ok {
      var k := |bs| - 1;
      TakenSound(l.q, s0, s, bs, 0, k, bs[0..k], n, h);
      TakenSound(l.q, s0, s, bs, k, k + 1, bs[k..k + 1], n, h);
      lostfound, root := DirPointers(bs[0..k]), DirPointers(bs[k..k + 1]);
    }
  }

  // ---------------------------------------------------------------- after fsck

  /** The blocks of the file system itself. */
  function Meta(reserved: seq<nat>): set<int> {
    set b | b in reserved :: b as int
  }

  /** Inode i is in use after the passes. */
  predicate Stays(fate: seq<FsckBlocks.Fate>, clear: seq<bool>, i: nat) {
    i < |fate| && i < |clear| && !fate[i].Unused? && !clear[i]
  }

  ghost predicate BitIs(q: Geometry, s: Counts, g: nat, i: nat, on: bool) {
    g < |s.maps| && i < q.bpg == 8 * |s.maps[g]| && Bits(s.maps[g])[i] == on
  }

  /** A bit is set for the blocks behind the end of the volume and for those in m. */
  ghost predicate BitsAre(q: Geometry, s: Counts, m: multiset<int>) {
    forall g: nat, i: nat :: g < q.gcount && i < q.bpg ==>
      BitIs(q, s, g, i, BitWanted(q, m, GroupBlock(q.bpg, q.first, g, i)))
  }

  predicate BitWanted(q: Geometry, m: multiset<int>, b: nat) {
    b >= q.bcount || b in m
  }

  /** A bit is set exactly when its block is not available: behind the end, part of the file system, or used by an
      inode that stays. */
  ghost predicate BitsTaken(q: Geometry, s: Counts, reserved: seq<nat>, refs: seq<seq<nat>>, fate: seq<FsckBlocks.Fate>, clear: seq<bool>)
    requires |refs| == |fate| == |clear|
  {
    forall g: nat, i: nat :: g < q.gcount && i < q.bpg ==>
      BitIs(q, s, g, i, Taken(q.bcount, reserved, refs, fate, clear, GroupBlock(q.bpg, q.first, g, i)))
  }

  ghost predicate Taken(bcount: nat, reserved: seq<nat>, refs: seq<seq<nat>>, fate: seq<FsckBlocks.Fate>, clear: seq<bool>, b: nat)
    requires |refs| == |fate| == |clear|
  {
    b >= bcount || b in reserved || exists i: nat :: Stays(fate, clear, i) && b in refs[i]
  }

  /** What is recorded in the end, when `rec` is what pass 1 recorded of each inode's references. */
  function Final(reserved: seq<nat>, rec: seq<seq<nat>>, refs: seq<seq<nat>>, fate: seq<FsckBlocks.Fate>, clear: seq<bool>, bcount: nat): multiset<int>
    requires |refs| == |rec| == |fate| == |clear| && forall i :: 0 <= i < |refs| ==> rec[i] <= refs[i]
  {
    FsckBlocks.Accounts(Meta(reserved), rec, FsckBlocks.Rests(rec, refs), fate, clear, bcount)
  }

  /** Of every inode in use pass 1 recorded all references. */
  ghost predicate AllRecorded(rec: seq<seq<nat>>, refs: seq<seq<nat>>, fate: seq<FsckBlocks.Fate>) {
    |rec| == |refs| == |fate| && forall i :: 0 <= i < |refs| && !fate[i].Unused? ==> rec[i] == refs[i]
  }

  /** Then the bits are those of the blocks that are not available. */
  lemma TakenWhenRecorded(q: Geometry, s: Counts, reserved: seq<nat>, rec: seq<seq<nat>>, refs: seq<seq<nat>>,
                          fate: seq<FsckBlocks.Fate>, clear: seq<bool>)
    requires FsckBlocks.Parts(rec, refs, fate) && |fate| == |clear| && AllRecorded(rec, refs, fate)
    requires BitsAre(q, s, Final(reserved, rec, refs, fate, clear, q.bcount))
    ensures BitsTaken(q, s, reserved, refs, fate, clear)
  {
    forall b: nat | b < q.bcount
      ensures b in Final(reserved, rec, refs, fate, clear, q.bcount) <==> Taken(q.bcount, reserved, refs, fate, clear, b)
    {
      OneTaken(reserved, rec, refs, fate, clear, q.bcount, b);
    }
    forall g: nat, i: nat | g < q.gcount && i < q.bpg
      ensures BitIs(q, s, g, i, Taken(q.bcount, reserved, refs, fate, clear, GroupBlock(q.bpg, q.first, g, i)))
    {
      var b := GroupBlock(q.bpg, q.first, g, i);
      assert BitIs(q, s, g, i, BitWanted(q, Final(reserved, rec, refs, fate, clear, q.bcount), b));
    }
  }

  lemma OneTaken(reserved: seq<nat>, rec: seq<seq<nat>>, refs: seq<seq<nat>>, fate: seq<FsckBlocks.Fate>, clear: seq<bool>, bcount: nat, b: nat)
    requires FsckBlocks.Parts(rec, refs, fate) && |fate| == |clear| && AllRecorded(rec, refs, fate) && b < bcount
    ensures b in Final(reserved, rec, refs, fate, clear, bcount) <==> Taken(bcount, reserved, refs, fate, clear, b)
  {
    FsckBlocks.RightIfRecorded(Meta(reserved), rec, refs, fate, clear, bcount, b);
    if i: nat :| Stays(fate, clear, i) && b in refs[i] {
      assert FsckBlocks.Uses(refs, fate, clear, i, b);
    }
    if i: nat :| FsckBlocks.Uses(refs, fate, clear, i, b) {
      assert Stays(fate, clear, i) && b in refs[i];
    }
  }

  /** fsck accounts for the whole of file f, and all of it is on the volume. */
  ghost predicate Covered(n: nat, bsize: nat, bcount: nat, h: Heap, f: Inode) {
    && n > 0 && bsize > 0 && |f.p| == NPTRS && HoldsBlocks(f)
    && FileFits(n, bsize, Roots(n, h, f.p), Remainders(n, bsize, f.size))
    && forall b :: b in Walked(n, bsize, h, f) ==> b < bcount
  }

  /** The inodes pass 1 walked to the end that stay. */
  ghost predicate WalkedStays(rec: seq<seq<nat>>, refs: seq<seq<nat>>, fate: seq<FsckBlocks.Fate>, clear: seq<bool>, i: nat) {
    i < |rec| && i < |refs| && Stays(fate, clear, i) && fate[i].Charged? && rec[i] == refs[i]
  }

  /** Each file of `keep` that fsck accounts for is sound on the volume's bitmaps, and no two of them hold the
      same block. */
  ghost predicate FilesSound(n: nat, bsize: nat, bcount: nat, used: set<int>, h: Heap, files: seq<Inode>, keep: set<nat>) {
    && (forall i :: i in keep && i < |files| && Covered(n, bsize, bcount, h, files[i]) ==> Sound(n, used, h, files[i].p))
    && (forall i, j :: i in keep && j in keep && i != j && i < |files| && j < |files|
                       && Covered(n, bsize, bcount, h, files[i]) && Covered(n, bsize, bcount, h, files[j]) ==>
          Held(n, h, files[i].p) !! Held(n, h, files[j].p))
  }

  /** What a covered file holds is what was charged for it. */
  lemma HeldIsCharge(n: nat, bsize: nat, bcount: nat, h: Heap, f: Inode, refs: seq<nat>)
    requires Covered(n, bsize, bcount, h, f) && refs == Walked(n, bsize, h, f)
    ensures Held(n, h, f.p) == FsckBlocks.Charge(refs, bcount)
  {
    RootsShaped(n, h, f.p);
    FileComplete(n, bsize, Roots(n, h, f.p), Remainders(n, bsize, f.size));
    assert forall k :: 0 <= k < |refs| ==> refs[k] in refs;
    FsckBlocks.ChargeWhole(refs, bcount);
  }

  /** No inode was cleared of which not all references were recorded. */
  ghost predicate NoStray(rec: seq<seq<nat>>, refs: seq<seq<nat>>, fate: seq<FsckBlocks.Fate>, clear: seq<bool>) {
    && |rec| == |refs| == |fate| == |clear|
    && forall i :: 0 <= i < |refs| && !fate[i].Unused? && clear[i] ==> rec[i] == refs[i]
  }

  /** The files that stay and were walked to the end. */
  ghost function Keepers(rec: seq<seq<nat>>, refs: seq<seq<nat>>, fate: seq<FsckBlocks.Fate>, clear: seq<bool>): set<nat> {
    set i: nat | i < |refs| && WalkedStays(rec, refs, fate, clear, i)
  }

  /** What the passes have recorded: the bitmap, and no duplicate, stand for the references of the file system and
      of the inodes i with stay[i]. */
  ghost predicate Accounted(bcount: nat, marked: seq<bool>, rec: seq<seq<nat>>, stay: seq<bool>, meta: set<int>, all: multiset<int>)
    requires |stay| == |rec|
  {
    && |marked| == bcount && all == multiset(meta) + FsckBlocks.ChargeSome(rec, stay, bcount)
    && forall b :: all[b] == FsckBlocks.Recorded(marked, [], b)
  }

  lemma OneSound(n: nat, bsize: nat, bcount: nat, h: Heap, f: Inode, rec: seq<seq<nat>>, stay: seq<bool>, marked: seq<bool>,
                 all: multiset<int>, meta: set<int>, i: nat)
    requires |stay| == |rec| && Accounted(bcount, marked, rec, stay, meta, all) && i < |rec| && stay[i]
    requires Covered(n, bsize, bcount, h, f) && rec[i] == Walked(n, bsize, h, f)
    ensures Sound(n, FsckBlocks.Marked(marked), h, f.p)
  {
    HeldIsCharge(n, bsize, bcount, h, f, rec[i]);
    FsckBlocks.NoneTwice(marked, all, meta, rec, stay, bcount, i);
  }

  lemma TwoApart(n: nat, bsize: nat, bcount: nat, h: Heap, f: Inode, g: Inode, rec: seq<seq<nat>>, stay: seq<bool>,
                 marked: seq<bool>, all: multiset<int>, meta: set<int>, i: nat, j: nat)
    requires |stay| == |rec| && Accounted(bcount, marked, rec, stay, meta, all)
    requires i < |rec| && j < |rec| && i != j && stay[i] && stay[j]
    requires Covered(n, bsize, bcount, h, f) && rec[i] == Walked(n, bsize, h, f)
    requires Covered(n, bsize, bcount, h, g) && rec[j] == Walked(n, bsize, h, g)
    ensures Held(n, h, f.p) !! Held(n, h, g.p)
  {
    HeldIsCharge(n, bsize, bcount, h, f, rec[i]);
    HeldIsCharge(n, bsize, bcount, h, g, rec[j]);
    FsckBlocks.NoneShared(marked, all, meta, rec, stay, bcount, i, j);
  }

  lemma SoundWithoutDuplicates(n: nat, bsize: nat, bcount: nat, h: Heap, files: seq<Inode>, fate: seq<FsckBlocks.Fate>,
                               clear: seq<bool>, rec: seq<seq<nat>>, refs: seq<seq<nat>>, marked: seq<bool>,
                               all: multiset<int>, meta: set<int>)
    requires |clear| == |fate| == |files| == |refs| == |rec| && WalkedAll(n, bsize, h, files, refs, |files|)
    requires Accounted(bcount, marked, rec, FsckBlocks.Those(fate, clear, FsckBlocks.Charged, false), meta, all)
    ensures FilesSound(n, bsize, bcount, FsckBlocks.Marked(marked), h, files, Keepers(rec, refs, fate, clear))
  {
    var keep, stay := Keepers(rec, refs, fate, clear), FsckBlocks.Those(fate, clear, FsckBlocks.Charged, false);
    forall i | i in keep && Covered(n, bsize, bcount, h, files[i])
      ensures Sound(n, FsckBlocks.Marked(marked), h, files[i].p)
    {
      OneSound(n, bsize, bcount, h, files[i], rec, stay, marked, all, meta, i);
    }
    forall i, j | i in keep && j in keep && i != j && Covered(n, bsize, bcount, h, files[i]) && Covered(n, bsize, bcount, h, files[j])
      ensures Held(n, h, files[i].p) !! Held(n, h, files[j].p)
    {
      TwoApart(n, bsize, bcount, h, files[i], files[j], rec, stay, marked, all, meta, i, j);
    }
  }

  lemma NothingStray(rec: seq<seq<nat>>, refs: seq<seq<nat>>, fate: seq<FsckBlocks.Fate>, clear: seq<bool>, n: nat)
    requires FsckBlocks.Parts(rec, refs, fate) && NoStray(rec, refs, fate, clear)
    ensures FsckBlocks.Stray(FsckBlocks.Rests(rec, refs), fate, clear, n) == multiset{}
  {
    FsckBlocks.NothingCharged(FsckBlocks.Rests(rec, refs), FsckBlocks.AllCleared(fate, clear), n);
  }

  /** Passes 1, 1b and 4: the inodes pass 1 accepts are walked and their references recorded, then those of the
      inodes that are cleared are taken back. */
  method RecordFiles(bcount: nat, reserved: seq<nat>, n: nat, bsize: nat, h: Heap, files: seq<Inode>,
                     fate: seq<FsckBlocks.Fate>, clear: seq<bool>, numbers: nat)
    returns (used: seq<bool>, dups: seq<int>, limited: bool, reported: set<nat>, ghost rec: seq<seq<nat>>, ghost refs: seq<seq<nat>>)
    requires forall i :: 0 <= i < |reserved| ==> reserved[i] < bcount
    requires n > 0 && bsize > 0 && OnVolume(bcount, h, files) && |fate| == |clear| == |files|
    ensures WalkedAll(n, bsize, h, files, refs, |files|) && |used| == bcount
    ensures FsckBlocks.Parts(rec, refs, fate) && (!limited ==> rec == FsckBlocks.Whole(refs, fate))
    ensures forall b: nat :: b < bcount ==> (used[b] <==> b in Final(reserved, rec, refs, fate, clear, bcount))
    ensures forall k: nat :: k in reported <==>
              FsckBlocks.FirstReference(FsckBlocks.WalkOf(refs, fate, if numbers < |files| then numbers else |files|),
                                        FsckBlocks.Recording(Meta(reserved), rec, fate, bcount), k)
    ensures 0 in reserved ==> used[0]
    ensures dups == [] && NoStray(rec, refs, fate, clear) ==>
              FilesSound(n, bsize, bcount, FsckBlocks.Marked(used), h, files, Keepers(rec, refs, fate, clear))
  {
    var walks := WalkAll(n, bsize, bcount, h, files);
    refs := walks;
    var c;
    c, reported, limited, rec := FsckBlocks.CheckVolume(bcount, reserved, walks, fate, clear,
                                                        if numbers < |walks| then numbers else |walks|);
    used, dups := c.used, c.dups;
    if 0 in reserved {
      FsckBlocks.MetaKept(c.meta, rec, refs, fate, clear, bcount, 0);
    }
    if dups == [] && NoStray(rec, refs, fate, clear) {
      NothingStray(rec, refs, fate, clear, bcount);
      SoundWithoutDuplicates(n, bsize, bcount, h, files, fate, clear, rec, refs, used, c.refs, c.meta);
    }
  }

  /** An inode's bit is set exactly when its number is reserved or lies behind the last inode, or it stays. */
  ghost predicate InodeBitsRight(ipg: nat, gcount: nat, icount: nat, inodes: Inodes.Counts, fate: seq<FsckBlocks.Fate>, clear: seq<bool>) {
    |inodes.maps| == gcount && forall g: nat, i: nat :: g < gcount && i < ipg ==>
      i < 8 * |inodes.maps[g]| && (Bits(inodes.maps[g])[i] <==> InodeTaken(icount, fate, clear, Pass5.FirstIno(ipg, g) + i))
  }

  predicate InodeTaken(icount: nat, fate: seq<FsckBlocks.Fate>, clear: seq<bool>, j: nat) {
    Reserved(j) || j > icount || Stays(fate, clear, j)
  }

  lemma StatesMeanBits(files: seq<Inode>, fate: seq<FsckBlocks.Fate>, clear: seq<bool>, state: seq<Pass5.InodeState>,
                       icount: nat, ipg: nat, gcount: nat, inodes: Inodes.Counts)
    requires StatesOf(files, fate, state) && |files| == icount + 1 == |clear|
    requires Pass5.InodesDone(AfterPass4(state, clear), icount, ipg, inodes, gcount)
    ensures InodeBitsRight(ipg, gcount, icount, inodes, fate, clear)
  {
    var final := AfterPass4(state, clear);
    forall g: nat, i: nat | g < gcount && i < ipg
      ensures i < 8 * |inodes.maps[g]|
      ensures Bits(inodes.maps[g])[i] <==> InodeTaken(icount, fate, clear, Pass5.FirstIno(ipg, g) + i)
    {
      RebuiltBit(final, icount, ipg, g, inodes.maps[g], inodes.nifree[g], inodes.ndirs[g], i);
      StateMeansBit(files, fate, clear, state, icount, Pass5.FirstIno(ipg, g) + i);
    }
  }

  lemma RebuiltBit(state: seq<Pass5.InodeState>, icount: nat, ipg: nat, g: nat, m: Bytes, free: nat, ndirs: nat, i: nat)
    requires |state| == icount + 1 && Pass5.InodesRebuilt(state, icount, ipg, g, m, free, ndirs) && i < ipg
    ensures i < 8 * |m| && Bits(m)[i] == Pass5.InUse(state, icount, Pass5.FirstIno(ipg, g) + i)
  {
    assert Bits(m)[i] == Pass5.InodeBits(state, icount, Pass5.FirstIno(ipg, g), ipg)[i];
  }

  lemma StateMeansBit(files: seq<Inode>, fate: seq<FsckBlocks.Fate>, clear: seq<bool>, state: seq<Pass5.InodeState>,
                      icount: nat, j: nat)
    requires StatesOf(files, fate, state) && |files| == icount + 1 == |clear|
    ensures Pass5.InUse(AfterPass4(state, clear), icount, j) <==> InodeTaken(icount, fate, clear, j)
  {
  }

  /** Passes 1, 1b, 4 and 5 of fsck, every correction of pass 5 accepted; `hold` are the answers in pass 1 about
      unknown inodes, `es` is what happens to the states between the passes, `clear` are the inodes pass 4 clears.
      The counts of blocks are those of the bitmaps, and so are those of inodes unless a group has surplus inode
      numbers.  The block bits are the references recorded in the end, which are those of the inodes that stay if
      all references of the inodes in use were recorded; the inode bits are those of the inodes that stay.  When no
      duplicate is left, and no inode was cleared without all of its references having been recorded, the files
      that stay are sound. */
  method CheckedVolume(q: Geometry, reserved: seq<nat>, n: nat, bsize: nat, h: Heap, files: seq<Inode>, hold: seq<bool>,
                       es: seq<Event>, clear: seq<bool>, ipg: nat)
    returns (s: Counts, inodes: Inodes.Counts, dups: seq<int>, limited: bool, ghost rec: seq<seq<nat>>,
             ghost refs: seq<seq<nat>>, ghost fate: seq<FsckBlocks.Fate>, ghost state: seq<Pass5.InodeState>)
    requires GeometryOk(q) && forall i :: 0 <= i < |reserved| ==> reserved[i] < q.bcount
    requires q.first == 0 && q.bcount > 0 ==> 0 in reserved
    requires n > 1 && 0 < bsize < TWO32 && OnVolume(q.bcount, h, files) && |hold| == |clear| == |files| > 0
    requires ipg % 8 == 0 && 0 < ipg <= q.bpg
    ensures WalkedAll(n, bsize, h, files, refs, |files|) && FatesOf(n, bsize, files, hold, fate, |files|)
    ensures FsckBlocks.Parts(rec, refs, fate) && (!limited ==> rec == FsckBlocks.Whole(refs, fate))
    ensures Ok(q, s) && BitsAre(q, s, Final(reserved, rec, refs, fate, clear, q.bcount))
    ensures AllRecorded(rec, refs, fate) ==> BitsTaken(q, s, reserved, refs, fate, clear)
    ensures InodeBitsRight(ipg, q.gcount, |files| - 1, inodes, fate, clear) && StatesOf(files, fate, state)
    ensures Inodes.Ok(ipg, inodes, Pass5.DirsOfGroups(AfterPass4(state, clear), |files| - 1, ipg, q.gcount))
            <==> Pass5.NoneSurplus(|files| - 1, ipg, q.gcount)
    ensures dups == [] && NoStray(rec, refs, fate, clear) ==>
              FilesSound(n, bsize, q.bcount, UsedBlocks(q, s), h, files, Keepers(rec, refs, fate, clear))
  {
    var fates, states := CheckInodes(n, bsize, q.bcount, h, files, hold);
    EventsKeep(files, fates, states, es);
    states := AfterAll(files, states, es);
    fate, state := fates, states;
    var used;
    var reported;
    used, dups, limited, reported, rec, refs := RecordFiles(q.bcount, reserved, n, bsize, h, files, fates, clear, ipg * q.gcount);
    s, inodes := Pass5.CheckCounts(q, used, AfterPass4(states, clear), |files| - 1, ipg);
    StatesMeanBits(files, fate, clear, states, |files| - 1, ipg, q.gcount, inodes);
    Pass5Keeps(q, used, s, Final(reserved, rec, refs, fate, clear, q.bcount));
    if AllRecorded(rec, refs, fate) {
      TakenWhenRecorded(q, s, reserved, rec, refs, fate, clear);
    }
  }

  lemma Pass5Keeps(q: Geometry, used: seq<bool>, s: Counts, m: multiset<int>)
    requires GeometryOk(q) && |used| == q.bcount && Ok(q, s) && Pass5.BlocksDone(q, used, s, q.gcount)
    requires forall b: nat :: b < q.bcount ==> (used[b] <==> b in m)
    ensures BitsAre(q, s, m) && FsckBlocks.Marked(used) <= UsedBlocks(q, s)
  {
    BitsOfUsed(q, used, s);
    MarkedAreUsed(q, used, s);
  }

  /** The bits are those of the block map of fsck. */
  lemma BitsOfUsed(q: Geometry, used: seq<bool>, s: Counts)
    requires GeometryOk(q) && |used| == q.bcount && Ok(q, s) && Pass5.BlocksDone(q, used, s, q.gcount)
    ensures forall g: nat, i: nat :: g < q.gcount && i < q.bpg ==>
              8 * |s.maps[g]| == q.bpg
              && var b := GroupBlock(q.bpg, q.first, g, i); (Bits(s.maps[g])[i] <==> b >= q.bcount || used[b])
  {
    forall g: nat, i: nat | g < q.gcount && i < q.bpg
      ensures 8 * |s.maps[g]| == q.bpg
      ensures var b := GroupBlock(q.bpg, q.first, g, i); (Bits(s.maps[g])[i] <==> b >= q.bcount || used[b])
    {
      assert GroupOk(q, g, s.maps[g], s.nbfree[g]);
      assert Pass5.GroupRebuilt(q, used, s, g);
      assert GroupBlock(q.bpg, q.first, g, 0) + i == GroupBlock(q.bpg, q.first, g, i);
    }
  }

  lemma MarkedAreUsed(q: Geometry, used: seq<bool>, s: Counts)
    requires GeometryOk(q) && |used| == q.bcount && Ok(q, s) && Pass5.BlocksDone(q, used, s, q.gcount)
    ensures FsckBlocks.Marked(used) <= UsedBlocks(q, s)
  {
    BitsOfUsed(q, used, s);
    forall b: nat | b < q.bcount && used[b]
      ensures !Free(q, s, b)
    {
      if q.first <= b {
        BlockRoundTrip(q.bpg, q.first, b);
      }
    }
  }

  // ---------------------------------------------------------------- from fsck to the kernel

  /** Blocks as groups and places in them. */
  function Places(q: Geometry, m: multiset<int>): set<AllocProtocol.Block>
    requires q.bpg > 0
  {
    set b: nat | b in m && q.first <= b :: (DtoG(q.bpg, q.first, b), DtoGd(q.bpg, q.first, b))
  }

  lemma PlaceOf(q: Geometry, m: multiset<int>, x: AllocProtocol.Block) returns (b: nat)
    requires q.bpg > 0 && x in Places(q, m)
    ensures b in m && q.first <= b && x == (DtoG(q.bpg, q.first, b), DtoGd(q.bpg, q.first, b))
    ensures b == GroupBlock(q.bpg, q.first, x.0, x.1)
  {
    b :| b in m && q.first <= b && x == (DtoG(q.bpg, q.first, b), DtoGd(q.bpg, q.first, b));
    BlockRoundTrip(q.bpg, q.first, b);
  }

  /** After fsck the files that stay can be worked on by different threads: what they hold is in use, and no two of
      them hold the same block. */
  lemma FilesInHands(q: Geometry, s: Counts, n: nat, bsize: nat, h: Heap, files: seq<Inode>, keep: set<nat>,
                     owned: seq<set<AllocProtocol.Block>>)
    requires Ok(q, s) && q.bcount <= GroupBlock(q.bpg, q.first, q.gcount, 0)
    requires FilesSound(n, bsize, q.bcount, UsedBlocks(q, s), h, files, keep) && |owned| == |files|
    requires forall i: nat :: i < |files| ==>
               |files[i].p| == NPTRS
               && owned[i] == if Sane(n, bsize, q.bcount, h, files, keep, i) then Places(q, Held(n, h, files[i].p)) else {}
    ensures HandsOk(s, owned) && AllocProtocol.Init(Mounted(s, owned))
  {
    forall t, x | 0 <= t < |owned| && x in owned[t]
      ensures InUse(s, x)
    {
      assert Sane(n, bsize, q.bcount, h, files, keep, t);
      var b := PlaceOf(q, Held(n, h, files[t].p), x);
      GroupOfBlock(q, b);
      assert GroupOk(q, x.0, s.maps[x.0], s.nbfree[x.0]);
    }
    forall t, u, x | 0 <= t < |owned| && 0 <= u < |owned| && x in owned[t] && x in owned[u]
      ensures t == u
    {
      assert Sane(n, bsize, q.bcount, h, files, keep, t) && Sane(n, bsize, q.bcount, h, files, keep, u);
      var b := PlaceOf(q, Held(n, h, files[t].p), x);
      var c := PlaceOf(q, Held(n, h, files[u].p), x);
    }
    MountedStarts(q, s, owned);
  }

  /** File i is one of those that stay, and fsck accounts for all of it. */
  ghost predicate Sane(n: nat, bsize: nat, bcount: nat, h: Heap, files: seq<Inode>, keep: set<nat>, i: nat) {
    i in keep && i < |files| && Covered(n, bsize, bcount, h, files[i])
  }

  lemma GroupOfBlock(q: Geometry, b: nat)
    requires q.bpg > 0 && q.first <= b < GroupBlock(q.bpg, q.first, q.gcount, 0)
    ensures DtoG(q.bpg, q.first, b) < q.gcount
  {
    DivMod(b - q.first, q.bpg);
    if DtoG(q.bpg, q.first, b) >= q.gcount {
      MulMono(q.bpg, q.gcount, DtoG(q.bpg, q.first, b));
    }
  }
}
