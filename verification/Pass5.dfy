/// Rebuilding the bitmaps and the free counts (pass5): what fsck writes when its corrections are
/// accepted is what the allocator relies on.
module Pass5 {
  import opened Arith
  import opened Bitmap
  import opened GroupAllocator
  import Inodes = InodeAllocator

  const ROOTINO := 2
  const FIRSTINO := 11

  datatype InodeState = USTATE | FSTATE | FCLEAR | DSTATE | DCLEAR | DFOUND

  function Zeros(n: nat): (m: Bytes)
    ensures |m| == n && forall i :: 0 <= i < 8 * n ==> !Bits(m)[i]
  {
    var m := seq(n, _ => 0);
    ZeroMap(m);
    m
  }

  /** Of the first i bits exactly those with f are set, the others are all clear. */
  ghost predicate SetUpTo(m: Bytes, i: nat, f: seq<bool>) {
    && i <= |f| <= 8 * |m|
    && (forall k :: 0 <= k < i ==> Bits(m)[k] == f[k])
    && (forall k :: i <= k < 8 * |m| ==> !Bits(m)[k])
  }

  lemma SetOne(m: Bytes, i: nat, f: seq<bool>)
    requires SetUpTo(m, i, f) && i < |f|
    ensures SetUpTo(if f[i] then SetBit(m, i) else m, i + 1, f)
    ensures Clear(Bits(if f[i] then SetBit(m, i) else m), i + 1) == Clear(Bits(m), i) + if f[i] then 0 else 1
  {
    if f[i] {
      ClearUpdate(Bits(m), i, i, true);
    }
  }

  // ---------------------------------------------------------------- blocks of one group

  /** Which bits of the bitmap of the group that starts at block dbase should be set: blocks in use, and
      what lies behind the end. */
  function BlockBits(q: Geometry, used: seq<bool>, dbase: nat): (f: seq<bool>)
    requires |used| == q.bcount
    ensures |f| == q.bpg && forall i :: 0 <= i < q.bpg ==> f[i] == (dbase + i >= q.bcount || used[dbase + i])
  {
    seq(q.bpg, i requires 0 <= i < q.bpg => dbase + i >= q.bcount || used[dbase + i])
  }

  /** The block bitmap of that group, and how many of its blocks are free. */
  method BlocksOfGroup(q: Geometry, used: seq<bool>, dbase: nat) returns (bbmap: Bytes, nbfree: nat)
    requires GeometryOk(q) && |used| == q.bcount
    ensures 8 * |bbmap| == q.bpg && Bits(bbmap) == BlockBits(q, used, dbase) && nbfree == NumClear(bbmap)
  {
    bbmap, nbfree := MarkBlocks(q.bcount, used, dbase, q.bpg / 8, BlockBits(q, used, dbase));
  }

  method MarkBlocks(bcount: nat, used: seq<bool>, dbase: nat, bytes: nat, ghost f: seq<bool>)
    returns (bbmap: Bytes, nbfree: nat)
    requires |used| == bcount && |f| == 8 * bytes
    requires forall i :: 0 <= i < |f| ==> f[i] == (dbase + i >= bcount || used[dbase + i])
    ensures |bbmap| == bytes && Bits(bbmap) == f && nbfree == NumClear(bbmap)
  {
    bbmap, nbfree := Zeros(bytes), 0;
    var i, d := 0, dbase;
    while d < dbase + 8 * bytes
      invariant 0 <= i <= |f| && d == dbase + i && |bbmap| == bytes && Rebuilding(bbmap, i, f, nbfree)
    {
      bbmap, nbfree := OneBlock(bbmap, i, d >= bcount || used[d], nbfree, f);
      d, i := d + 1, i + 1;
    }
    AllBits(bbmap, f);
  }

  /** The first i blocks are counted. */
  ghost predicate Rebuilding(m: Bytes, i: nat, f: seq<bool>, nbfree: nat) {
    SetUpTo(m, i, f) && nbfree == Clear(Bits(m), i)
  }

  method OneBlock(m: Bytes, i: nat, inUse: bool, nbfree: nat, ghost f: seq<bool>) returns (m': Bytes, nbfree': nat)
    requires Rebuilding(m, i, f, nbfree) && i < |f| && f[i] == inUse
    ensures |m'| == |m| && Rebuilding(m', i + 1, f, nbfree')
  {
    SetOne(m, i, f);
    m', nbfree' := m, nbfree;
    if inUse {
      m' := SetBit(m, i);
    } else {
      nbfree' := nbfree + 1;
    }
  }

  lemma AllBits(m: Bytes, f: seq<bool>)
    requires SetUpTo(m, |f|, f) && 8 * |m| == |f|
    ensures Bits(m) == f && NumClear(m) == Clear(Bits(m), |f|)
  {
  }

  // ---------------------------------------------------------------- inodes of one group

  /** Inode j counts as in use: reserved, behind the last one, or not in state USTATE. */
  predicate InUse(state: seq<InodeState>, icount: nat, j: nat)
    requires |state| == icount + 1
  {
    (j < FIRSTINO && j != ROOTINO) || j > icount || state[j] != USTATE
  }

  function InodeBits(state: seq<InodeState>, icount: nat, from: nat, n: nat): (f: seq<bool>)
    requires |state| == icount + 1
    ensures |f| == n && forall i :: 0 <= i < n ==> f[i] == InUse(state, icount, from + i)
  {
    seq(n, i requires 0 <= i < n => InUse(state, icount, from + i))
  }

  /** The bits set in an inode bitmap are those of inodes in use, and all behind the last one of the group. */
  ghost predicate InodeMap(state: seq<InodeState>, icount: nat, from: nat, ipg: nat, m: Bytes)
    requires |state| == icount + 1
  {
    forall i :: 0 <= i < 8 * |m| ==> Bits(m)[i] == (i >= ipg || InodeBits(state, icount, from, ipg)[i])
  }

  /** An inode number of the group that lies behind the last inode and is not a reserved one: its bit is set,
      but it is not taken off the count. */
  predicate Surplus(icount: nat, j: nat) {
    j > icount && !(j < FIRSTINO && j != ROOTINO)
  }

  function Surpluses(icount: nat, from: nat, n: nat): nat {
    if n == 0 then 0 else Surpluses(icount, from, n - 1) + if Surplus(icount, from + n - 1) then 1 else 0
  }

  /** Inode j is a directory that is not reserved. */
  predicate IsDir(state: seq<InodeState>, icount: nat, j: nat)
    requires |state| == icount + 1
  {
    !(j < FIRSTINO && j != ROOTINO) && j <= icount && (state[j] == DSTATE || state[j] == DCLEAR || state[j] == DFOUND)
  }

  predicate DirAt(state: seq<InodeState>, icount: nat, from: nat, i: nat)
    requires |state| == icount + 1
  {
    IsDir(state, icount, from + i)
  }

  /** The places of the directories among the n inodes from number `from` on. */
  function DirPlaces(state: seq<InodeState>, icount: nat, from: nat, n: nat): (d: set<nat>)
    requires |state| == icount + 1
    ensures forall i: nat :: i in d <==> i < n && DirAt(state, icount, from, i)
  {
    set i: nat | i < n && DirAt(state, icount, from, i)
  }

  lemma OneMoreDir(state: seq<InodeState>, icount: nat, from: nat, n: nat)
    requires |state| == icount + 1
    ensures |DirPlaces(state, icount, from, n + 1)|
            == |DirPlaces(state, icount, from, n)| + if DirAt(state, icount, from, n) then 1 else 0
  {
    var d, d' := DirPlaces(state, icount, from, n), DirPlaces(state, icount, from, n + 1);
    if DirAt(state, icount, from, n) {
      assert d' == d + {n};
    } else {
      assert d' == d;
    }
  }

  /** The inode bitmap of the group whose first inode has number `from`, its free inodes and its
      directories; what is behind the ipg inodes of the group is filled with ones. */
  method InodesOfGroup(state: seq<InodeState>, icount: nat, ipg: nat, bsize: nat, from: nat)
    returns (ibmap: Bytes, nifree: nat, ndirs: nat)
    requires |state| == icount + 1 && ipg % 8 == 0 && ipg <= 8 * bsize
    ensures |ibmap| == bsize && InodeMap(state, icount, from, ipg, ibmap)
    ensures nifree == NumClear(ibmap) + Surpluses(icount, from, ipg)
    ensures ndirs == |DirPlaces(state, icount, from, ipg)|
  {
    ghost var f := InodeBits(state, icount, from, ipg);
    var free: int;
    ibmap, free, ndirs := MarkInodes(state, icount, bsize, from, ipg, f);
    ibmap := FillOnes(ibmap, ipg, f);
    nifree := free;
  }

  method MarkInodes(state: seq<InodeState>, icount: nat, bsize: nat, from: nat, ipg: nat, ghost f: seq<bool>)
    returns (ibmap: Bytes, nifree: int, ndirs: nat)
    requires |state| == icount + 1 && |f| == ipg <= 8 * bsize
    requires forall i :: 0 <= i < ipg ==> f[i] == InUse(state, icount, from + i)
    ensures |ibmap| == bsize && Progress(state, icount, from, f, ipg, ibmap, nifree, ndirs)
  {
    ibmap, nifree, ndirs := Zeros(bsize), ipg, 0;
    var i := 0;
    while i < ipg
      invariant 0 <= i <= ipg && |ibmap| == bsize && Progress(state, icount, from, f, i, ibmap, nifree, ndirs)
    {
      ibmap, nifree, ndirs := OneInode(state, icount, from, i, ibmap, nifree, ndirs, f);
      i := i + 1;
    }
  }

  /** The first i inodes are counted. */
  ghost predicate Progress(state: seq<InodeState>, icount: nat, from: nat, f: seq<bool>, i: nat, m: Bytes, nifree: int, ndirs: nat)
    requires |state| == icount + 1
  {
    && SetUpTo(m, i, f)
    && nifree == |f| - i + Clear(Bits(m), i) + Surpluses(icount, from, i) && ndirs == |DirPlaces(state, icount, from, i)|
  }

  /** What becomes of the counts with inode number from + i. */
  lemma OneMoreInode(state: seq<InodeState>, icount: nat, from: nat, f: seq<bool>, i: nat, m: Bytes, nifree: int, ndirs: nat)
    requires |state| == icount + 1 && i < |f| && Progress(state, icount, from, f, i, m, nifree, ndirs)
    ensures var j := from + i;
            Progress(state, icount, from, f, i + 1, if f[i] then SetBit(m, i) else m,
                     nifree - (if f[i] && !Surplus(icount, j) then 1 else 0) + (if !f[i] && Surplus(icount, j) then 1 else 0),
                     ndirs + if IsDir(state, icount, j) then 1 else 0)
  {
    SetOne(m, i, f);
    OneMoreDir(state, icount, from, i);
  }

  /** The body of that loop, for inode number from + i. */
  method OneInode(state: seq<InodeState>, icount: nat, from: nat, i: nat, m: Bytes, nifree: int, ndirs: nat, ghost f: seq<bool>)
    returns (m': Bytes, nifree': int, ndirs': nat)
    requires |state| == icount + 1 && i < |f| && f[i] == InUse(state, icount, from + i)
    requires Progress(state, icount, from, f, i, m, nifree, ndirs)
    ensures |m'| == |m| && Progress(state, icount, from, f, i + 1, m', nifree', ndirs')
  {
    OneMoreInode(state, icount, from, f, i, m, nifree, ndirs);
    var j := from + i;
    m', nifree', ndirs' := m, nifree, ndirs;
    if j < FIRSTINO && j != ROOTINO {
      m' := SetBit(m, i);
      nifree' := nifree - 1;
    } else if j > icount {
      m' := SetBit(m, i);
    } else {
      match state[j] {
        case USTATE =>
        case DSTATE | DCLEAR | DFOUND =>
          ndirs' := ndirs + 1;
          nifree' := nifree - 1;
          m' := SetBit(m, i);
        case FSTATE | FCLEAR =>
          nifree' := nifree - 1;
          m' := SetBit(m, i);
      }
    }
  }

  /** Set every byte from that of bit ipg on. */
  method FillOnes(m: Bytes, ipg: nat, ghost f: seq<bool>) returns (r: Bytes)
    requires ipg % 8 == 0 && ipg <= 8 * |m| && |f| == ipg && SetUpTo(m, ipg, f)
    ensures |r| == |m| && NumClear(r) == Clear(Bits(m), ipg)
    ensures forall i :: 0 <= i < 8 * |m| ==> Bits(r)[i] == (i >= ipg || f[i])
  {
    r := m;
    var i := ipg / 8;
    while i < |m|
      invariant ipg / 8 <= i <= |m| && |r| == |m|
      invariant forall k :: 0 <= k < ipg / 8 ==> r[k] == m[k]
      invariant forall k :: ipg / 8 <= k < i ==> r[k] == 0xff
    {
      r := r[i := 0xff];
      i := i + 1;
    }
    ghost var s, t := Bits(r), Bits(m);
    forall k | 0 <= k < 8 * |m|
      ensures s[k] == (k >= ipg || f[k])
    {
      BitAt(r, k);
      BitAt(m, k);
      if k >= ipg {
        ByteFull(0xff);
        assert r[k / 8] == 0xff && 0 <= k % 8 < 8;
      } else {
        assert r[k / 8] == m[k / 8];
      }
    }
    SameClear(t, s, ipg);
    AllSetBehind(s, ipg, 8 * |m|);
  }

  lemma {:induction false} SameClear(s: seq<bool>, t: seq<bool>, k: nat)
    requires k <= |s| && k <= |t| && forall i :: 0 <= i < k ==> s[i] == t[i]
    ensures Clear(s, k) == Clear(t, k)
  {
    if k > 0 {
      SameClear(s, t, k - 1);
    }
  }

  lemma {:induction false} AllSetBehind(s: seq<bool>, lo: nat, k: nat)
    requires lo <= k <= |s| && forall i :: lo <= i < k ==> s[i]
    ensures Clear(s, k) == Clear(s, lo)
  {
    if k > lo {
      AllSetBehind(s, lo, k - 1);
    }
  }

  /** The count of free inodes is that of the bitmap exactly when the group has no surplus inode numbers; it
      has none when every group is full of inodes. */
  lemma {:induction false} SurplusCount(icount: nat, from: nat, n: nat)
    ensures Surpluses(icount, from, n) == 0 <==> forall j :: from <= j < from + n ==> !Surplus(icount, j)
  {
    if n > 0 {
      SurplusCount(icount, from, n - 1);
    }
  }

  lemma NoSurplus(icount: nat, ipg: nat, gcount: nat, c: nat)
    requires c < gcount && icount == ipg * gcount
    ensures Surpluses(icount, FirstIno(ipg, c), ipg) == 0
  {
    FirstInoIs(ipg, c);
    SurplusCount(icount, ipg * c + 1, ipg);
    MulMono(ipg, c + 1, gcount);
    assert ipg * (c + 1) == ipg * c + ipg;
  }

  /** With fewer inodes than that the counts can disagree: one group of 16 inode numbers, 12 of them inodes. */
  lemma SurplusExample()
    ensures Surpluses(12, 1, 16) == 4
  {
    assert Surpluses(12, 1, 12) == 0 by {
      SurplusCount(12, 1, 12);
    }
    assert Surpluses(12, 1, 13) == 1;
    assert Surpluses(12, 1, 14) == 2;
    assert Surpluses(12, 1, 15) == 3;
  }

  // ---------------------------------------------------------------- the whole volume

  /** The number of the first inode of group g. */
  function FirstIno(ipg: nat, g: nat): nat {
    if g == 0 then 1 else FirstIno(ipg, g - 1) + ipg
  }

  lemma {:induction false} FirstInoIs(ipg: nat, g: nat)
    ensures FirstIno(ipg, g) == ipg * g + 1
  {
    if g > 0 {
      FirstInoIs(ipg, g - 1);
      assert ipg * g == ipg * (g - 1) + ipg;
    }
  }

  /** pass5, all corrections accepted: the block side is the allocator's invariant.  So is the inode side, with the
      directories there are, exactly when no group has surplus inode numbers. */
  method CheckCounts(q: Geometry, used: seq<bool>, state: seq<InodeState>, icount: nat, ipg: nat)
    returns (blocks: Counts, inodes: Inodes.Counts)
    requires GeometryOk(q) && |used| == q.bcount && (q.first == 0 && q.bcount > 0 ==> used[0])
    requires |state| == icount + 1 && 0 < ipg <= q.bpg && ipg % 8 == 0
    ensures Ok(q, blocks) && BlocksDone(q, used, blocks, q.gcount)
    ensures InodesDone(state, icount, ipg, inodes, q.gcount)
    ensures Inodes.Ok(ipg, inodes, DirsOfGroups(state, icount, ipg, q.gcount)) <==> NoneSurplus(icount, ipg, q.gcount)
  {
    blocks, inodes := Counts([], [], 0), Inodes.Counts([], [], [], 0, 0);
    var c := 0;
    while c < q.gcount
      invariant 0 <= c <= q.gcount && BlocksDone(q, used, blocks, c) && InodesDone(state, icount, ipg, inodes, c)
    {
      var bbmap, nbfree := RebuildBlocks(q, used, c);
      var ibmap, nifree, ndirs := RebuildInodes(state, icount, ipg, q.bpg / 8, c);
      OneMoreGroup(q, used, blocks, c, bbmap, nbfree);
      blocks := Counts(blocks.maps + [bbmap], blocks.nbfree + [nbfree], blocks.fbcount + nbfree);
      inodes := AddInodes(state, icount, ipg, inodes, c, ibmap, nifree, ndirs);
      c := c + 1;
    }
    DoneOk(q, used, blocks);
    InodesOkWhen(state, icount, ipg, inodes, q.gcount);
  }

  method RebuildBlocks(q: Geometry, used: seq<bool>, c: nat) returns (bbmap: Bytes, nbfree: nat)
    requires GeometryOk(q) && c < q.gcount && |used| == q.bcount && (q.first == 0 && q.bcount > 0 ==> used[0])
    ensures GroupOk(q, c, bbmap, nbfree) && Bits(bbmap) == BlockBits(q, used, GroupBlock(q.bpg, q.first, c, 0))
  {
    bbmap, nbfree := BlocksOfGroup(q, used, GroupBlock(q.bpg, q.first, c, 0));
    RebuiltOk(q, used, c, bbmap, nbfree);
  }

  method RebuildInodes(state: seq<InodeState>, icount: nat, ipg: nat, bsize: nat, c: nat)
    returns (ibmap: Bytes, nifree: nat, ndirs: nat)
    requires |state| == icount + 1 && ipg % 8 == 0 && ipg <= 8 * bsize
    ensures |ibmap| == bsize && InodesRebuilt(state, icount, ipg, c, ibmap, nifree, ndirs)
  {
    FirstInoIs(ipg, c);
    ibmap, nifree, ndirs := InodesOfGroup(state, icount, ipg, bsize, ipg * c + 1);
  }

  /** The counts of group c join those of the groups before it. */
  method AddInodes(ghost state: seq<InodeState>, ghost icount: nat, ghost ipg: nat, s: Inodes.Counts, ghost c: nat,
                   m: Bytes, free: nat, ndirs: nat)
    returns (s': Inodes.Counts)
    requires |state| == icount + 1 && InodesDone(state, icount, ipg, s, c)
    requires InodesRebuilt(state, icount, ipg, c, m, free, ndirs)
    ensures InodesDone(state, icount, ipg, s', c + 1)
  {
    s' := Inodes.Counts(s.maps + [m], s.nifree + [free], s.ndirs + [ndirs], s.ficount + free, s.totalDir + ndirs);
    assert s'.nifree[..c] == s.nifree && s'.ndirs[..c] == s.ndirs;
  }

  lemma DoneOk(q: Geometry, used: seq<bool>, s: Counts)
    requires GeometryOk(q) && |used| == q.bcount && BlocksDone(q, used, s, q.gcount)
    ensures Ok(q, s)
  {
    forall g | 0 <= g < q.gcount
      ensures GroupOk(q, g, s.maps[g], s.nbfree[g])
    {
      assert GroupRebuilt(q, used, s, g);
    }
  }

  /** The first c groups are rebuilt. */
  ghost predicate BlocksDone(q: Geometry, used: seq<bool>, s: Counts, c: nat)
    requires GeometryOk(q) && |used| == q.bcount
  {
    && |s.maps| == |s.nbfree| == c && s.fbcount == Sum(s.nbfree)
    && forall g :: 0 <= g < c ==> GroupRebuilt(q, used, s, g)
  }

  /** The bits set in group g's bitmap are those of the blocks in use and those behind the end; its count is
      that of the bitmap. */
  ghost predicate GroupRebuilt(q: Geometry, used: seq<bool>, s: Counts, g: nat)
    requires GeometryOk(q) && |used| == q.bcount && g < |s.maps| && g < |s.nbfree|
  {
    && GroupOk(q, g, s.maps[g], s.nbfree[g])
    && Bits(s.maps[g]) == BlockBits(q, used, GroupBlock(q.bpg, q.first, g, 0))
  }

  /** The inode bitmap of group g is that of the inodes in use; its free count is that of the bitmap up to the
      surplus, and its directories are counted. */
  ghost predicate InodesRebuilt(state: seq<InodeState>, icount: nat, ipg: nat, g: nat, m: Bytes, free: nat, ndirs: nat)
    requires |state| == icount + 1
  {
    && ipg <= 8 * |m| && InodeMap(state, icount, FirstIno(ipg, g), ipg, m)
    && free == NumClear(m) + Surpluses(icount, FirstIno(ipg, g), ipg)
    && ndirs == |DirPlaces(state, icount, FirstIno(ipg, g), ipg)|
  }

  /** The first c groups are rebuilt, and the totals are their sums. */
  ghost predicate InodesDone(state: seq<InodeState>, icount: nat, ipg: nat, s: Inodes.Counts, c: nat)
    requires |state| == icount + 1
  {
    && |s.maps| == |s.nifree| == |s.ndirs| == c && s.ficount == Sum(s.nifree) && s.totalDir == Sum(s.ndirs)
    && forall g: nat :: g < c ==> InodesRebuilt(state, icount, ipg, g, s.maps[g], s.nifree[g], s.ndirs[g])
  }

  /** The directories of each group, as places in it. */
  function DirsOfGroups(state: seq<InodeState>, icount: nat, ipg: nat, gcount: nat): (d: seq<set<nat>>)
    requires |state| == icount + 1
    ensures |d| == gcount && forall g :: 0 <= g < gcount ==> d[g] == DirPlaces(state, icount, FirstIno(ipg, g), ipg)
  {
    seq(gcount, g requires 0 <= g < gcount => DirPlaces(state, icount, FirstIno(ipg, g), ipg))
  }

  /** No group has surplus inode numbers. */
  ghost predicate NoneSurplus(icount: nat, ipg: nat, gcount: nat) {
    forall c: nat :: c < gcount ==> Surpluses(icount, FirstIno(ipg, c), ipg) == 0
  }

  lemma FullGroups(icount: nat, ipg: nat, gcount: nat)
    requires icount == ipg * gcount
    ensures NoneSurplus(icount, ipg, gcount)
  {
    forall c: nat | c < gcount
      ensures Surpluses(icount, FirstIno(ipg, c), ipg) == 0
    {
      NoSurplus(icount, ipg, gcount, c);
    }
  }

  /** The rebuilt counts are those of the bitmaps exactly when no group has a surplus. */
  lemma InodesOkWhen(state: seq<InodeState>, icount: nat, ipg: nat, s: Inodes.Counts, gcount: nat)
    requires |state| == icount + 1 && ipg > 0 && InodesDone(state, icount, ipg, s, gcount)
    ensures Inodes.Ok(ipg, s, DirsOfGroups(state, icount, ipg, gcount)) <==> NoneSurplus(icount, ipg, gcount)
  {
    var dirs := DirsOfGroups(state, icount, ipg, gcount);
    assert Inodes.Ok(ipg, s, dirs) <==> Inodes.GroupsOk(ipg, s, dirs);
    forall c: nat | c < gcount
      ensures Inodes.GroupOk(ipg, s.maps[c], s.nifree[c], dirs[c], s.ndirs[c]) <==> Surpluses(icount, FirstIno(ipg, c), ipg) == 0
    {
      GroupOkWhen(state, icount, ipg, c, s.maps[c], s.nifree[c], s.ndirs[c]);
    }
  }

  lemma GroupOkWhen(state: seq<InodeState>, icount: nat, ipg: nat, g: nat, m: Bytes, free: nat, ndirs: nat)
    requires |state| == icount + 1 && InodesRebuilt(state, icount, ipg, g, m, free, ndirs)
    ensures Inodes.GroupOk(ipg, m, free, DirPlaces(state, icount, FirstIno(ipg, g), ipg), ndirs)
            <==> Surpluses(icount, FirstIno(ipg, g), ipg) == 0
  {
    var f := InodeBits(state, icount, FirstIno(ipg, g), ipg);
    forall j | j in DirPlaces(state, icount, FirstIno(ipg, g), ipg)
      ensures j < ipg && Bits(m)[j]
    {
      assert f[j];
    }
  }

  lemma OneMoreGroup(q: Geometry, used: seq<bool>, s: Counts, c: nat, m: Bytes, free: nat)
    requires GeometryOk(q) && |used| == q.bcount && BlocksDone(q, used, s, c)
    requires GroupOk(q, c, m, free) && Bits(m) == BlockBits(q, used, GroupBlock(q.bpg, q.first, c, 0))
    ensures BlocksDone(q, used, Counts(s.maps + [m], s.nbfree + [free], s.fbcount + free), c + 1)
  {
    assert (s.nbfree + [free])[..c] == s.nbfree;
    var s' := Counts(s.maps + [m], s.nbfree + [free], s.fbcount + free);
    forall g | 0 <= g < c + 1
      ensures GroupRebuilt(q, used, s', g)
    {
      assert g < c ==> GroupRebuilt(q, used, s, g);
    }
  }

  lemma RebuiltOk(q: Geometry, used: seq<bool>, c: nat, bbmap: Bytes, nbfree: nat)
    requires GeometryOk(q) && |used| == q.bcount && (q.first == 0 && q.bcount > 0 ==> used[0])
    requires 8 * |bbmap| == q.bpg && Bits(bbmap) == BlockBits(q, used, GroupBlock(q.bpg, q.first, c, 0)) && nbfree == NumClear(bbmap)
    ensures GroupOk(q, c, bbmap, nbfree)
  {
    forall j | 0 <= j < q.bpg && !Bits(bbmap)[j]
      ensures InVolume(q, c, j)
    {
      assert GroupBlock(q.bpg, q.first, c, j) == 0 ==> q.first == 0;
    }
  }
}
