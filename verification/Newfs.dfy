/// The block groups newfs_ext2fs lays out: overhead, bitmaps and counts, and how fsck's own marking
/// of metadata compares with them.
module Newfs {
  import opened Arith
  import opened Bitmap
  import opened GroupAllocator
  import Inodes = InodeAllocator

  const RESERVED_INODES := 10
  const ROOTINO := 2
  const LOSTFOUNDINO := 11
  const LOSTFOUNDSIZE := 16384

  /** `everySb` when every group has a copy of the superblock; `reserved` is 0 without the resize feature. */
  datatype Layout = Layout(q: Geometry, itpg: nat, ipg: nat, gdbcount: nat, reserved: nat, everySb: bool)

  // ---------------------------------------------------------------- which groups have a superblock

  ghost predicate IsPower(b: nat, i: nat) {
    exists k: nat :: k >= 1 && Pow(b, k) == i
  }

  /** Sparse superblocks: groups 0 and 1, and the powers of 3, 5 and 7. */
  ghost predicate Sparse(i: nat) {
    i <= 1 || IsPower(3, i) || IsPower(5, i) || IsPower(7, i)
  }

  lemma {:induction false} PowAbove(b: nat, k: nat)
    requires b > 1
    ensures Pow(b, k) > k
  {
    if k > 0 {
      PowAbove(b, k - 1);
      Doubles(b, Pow(b, k - 1));
    }
  }

  lemma Doubles(b: nat, p: nat)
    requires b > 1
    ensures b * p >= 2 * p
  {
  }

  /** None of the powers before the k-th is i. */
  ghost predicate NotBefore(b: nat, k: nat, i: nat) {
    forall j: nat :: 1 <= j < k ==> Pow(b, j) != i
  }

  lemma NotAfter(b: nat, k: nat, i: nat)
    requires b > 1 && NotBefore(b, k, i) && Pow(b, k) > i
    ensures !IsPower(b, i)
  {
    forall j: nat | j >= k
      ensures Pow(b, j) != i
    {
      PowOrder(b, k, j);
    }
  }

  method CgHasSb(i: nat) returns (r: bool)
    ensures r <==> Sparse(i)
  {
    if i == 0 || i == 1 {
      return true;
    }
    var a3, a5, a7 := 3, 5, 7;
    ghost var k: nat := 1;
    assert Pow(3, 1) == 3 && Pow(5, 1) == 5 && Pow(7, 1) == 7;
    while a3 <= i || a5 <= i || a7 <= i
      invariant k >= 1 && a3 == Pow(3, k) && a5 == Pow(5, k) && a7 == Pow(7, k)
      invariant NotBefore(3, k, i) && NotBefore(5, k, i) && NotBefore(7, k, i)
      decreases i + 1 - k
    {
      PowAbove(3, k);
      PowAbove(5, k);
      PowAbove(7, k);
      if i == a3 || i == a5 || i == a7 {
        return true;
      }
      a3, a5, a7, k := a3 * 3, a5 * 5, a7 * 7, k + 1;
    }
    NotAfter(3, k, i);
    NotAfter(5, k, i);
    NotAfter(7, k, i);
    return false;
  }

  ghost predicate HasSb(l: Layout, c: nat) {
    l.everySb || Sparse(c)
  }

  // ---------------------------------------------------------------- overhead and counts of a group

  ghost function Overhead(l: Layout, c: nat): nat {
    2 + l.itpg + if HasSb(l, c) then 1 + l.gdbcount + l.reserved else 0
  }

  method CgOverhead(l: Layout, c: nat) returns (overh: nat)
    ensures overh == Overhead(l, c)
  {
    overh := 2 + l.itpg;
    var sb := CgHasSb(c);
    if l.everySb || sb {
      overh := overh + 1 + l.gdbcount;
      overh := overh + l.reserved;
    }
  }

  function CgBase(q: Geometry, c: nat): nat {
    GroupBlock(q.bpg, q.first, c, 0)
  }

  /** How many blocks of the volume group c has. */
  function BlocksIn(q: Geometry, c: nat): int {
    if c + 1 == q.gcount then q.bcount - CgBase(q, c) else q.bpg
  }

  /** The volume ends in the last group, and no group is smaller than its overhead. */
  ghost predicate LayoutOk(l: Layout) {
    && GeometryOk(l.q) && l.ipg % 8 == 0 && RESERVED_INODES <= l.ipg <= l.q.bpg
    && (forall c: nat :: c < l.q.gcount ==> Overhead(l, c) <= BlocksIn(l.q, c) <= l.q.bpg)
  }

  /** What a new bitmap looks like: the overhead and what is behind the end of the group is in use. */
  ghost predicate NewMap(m: Bytes, overhead: nat, blocks: int) {
    forall i :: 0 <= i < 8 * |m| ==> Bits(m)[i] == (i < overhead || i >= blocks)
  }

  /** Bits from a up to b are set in addition. */
  ghost predicate Added(m: Bytes, r: Bytes, a: int, b: int) {
    |r| == |m| && forall i :: 0 <= i < 8 * |m| ==> Bits(r)[i] == (Bits(m)[i] || a <= i < b)
  }

  /** setbit for each of the bits from a up to b. */
  method SetRange(m: Bytes, a: nat, b: nat) returns (r: Bytes)
    requires a <= b <= 8 * |m|
    ensures Added(m, r, a, b)
  {
    r := m;
    var i := a;
    while i < b
      invariant a <= i <= b && Added(m, r, a, i)
    {
      r := SetBit(r, i);
      i := i + 1;
    }
  }

  /** memset to ones of the bytes from x up to y. */
  method FillRange(m: Bytes, x: nat, y: nat) returns (r: Bytes)
    requires x <= y <= |m|
    ensures Added(m, r, 8 * x, 8 * y)
  {
    r := m;
    var i := x;
    while i < y
      invariant x <= i <= y && Added(m, r, 8 * x, 8 * i)
    {
      FillByte(m, r, x, i);
      r := r[i := 0xff];
      i := i + 1;
    }
  }

  lemma FillByte(m: Bytes, r: Bytes, x: nat, i: nat)
    requires x <= i < |m| && Added(m, r, 8 * x, 8 * i)
    ensures Added(m, r[i := 0xff], 8 * x, 8 * (i + 1))
  {
    var r' := r[i := 0xff];
    forall k | 0 <= k < 8 * |m|
      ensures Bits(r')[k] == (Bits(m)[k] || 8 * x <= k < 8 * (i + 1))
    {
      BitAt(r, k);
      BitAt(r', k);
      if k / 8 == i {
        ByteFull(0xff);
        assert 0 <= k % 8 < 8;
      } else {
        assert r'[k / 8] == r[k / 8];
        assert Bits(r')[k] == Bits(r)[k];
      }
    }
  }

  /** initcg, the block bitmap of group c. */
  method InitBlockMap(l: Layout, c: nat) returns (buf: Bytes)
    requires GeometryOk(l.q) && c < l.q.gcount && 0 <= BlocksIn(l.q, c) <= l.q.bpg && Overhead(l, c) <= l.q.bpg
    ensures 8 * |buf| == l.q.bpg && NewMap(buf, Overhead(l, c), BlocksIn(l.q, c))
  {
    buf := seq(l.q.bpg / 8, _ => 0);
    ZeroMap(buf);
    var nblcg := l.q.bpg;
    if c == l.q.gcount - 1 {
      nblcg := l.q.bcount - CgBase(l.q, l.q.gcount - 1);
      buf := MarkEnd(buf, nblcg);
    }
    var overh := CgOverhead(l, c);
    buf := MarkStart(buf, overh, nblcg);
  }

  /** What is behind the last block of the volume is in use. */
  method MarkEnd(m: Bytes, nblcg: nat) returns (buf: Bytes)
    requires nblcg <= 8 * |m| && forall i :: 0 <= i < 8 * |m| ==> !Bits(m)[i]
    ensures |buf| == |m| && NewMap(buf, 0, nblcg)
  {
    buf := SetRange(m, nblcg, (nblcg + 7) / 8 * 8);
    buf := FillRange(buf, (nblcg + 7) / 8, |buf|);
  }

  /** The overhead of the group is in use. */
  method MarkStart(m: Bytes, overh: nat, nblcg: nat) returns (buf: Bytes)
    requires overh <= 8 * |m| && NewMap(m, 0, nblcg)
    ensures |buf| == |m| && NewMap(buf, overh, nblcg)
  {
    buf := FillRange(m, 0, overh / 8);
    buf := SetRange(buf, overh / 8 * 8, overh);
  }

  /** The clear bits of a new bitmap are the blocks of the group less its overhead, exactly when the overhead
      fits. */
  lemma NewMapCount(m: Bytes, overhead: nat, blocks: int)
    requires NewMap(m, overhead, blocks) && 0 <= blocks <= 8 * |m|
    ensures NumClear(m) == blocks - overhead <==> overhead <= blocks
  {
    ClearBetween(Bits(m), overhead, blocks, 8 * |m|);
  }

  lemma {:induction false} ClearBetween(s: seq<bool>, lo: nat, hi: int, k: nat)
    requires k <= |s| && forall i :: 0 <= i < |s| ==> s[i] == (i < lo || i >= hi)
    ensures Clear(s, k) == if (if k < hi then k else hi) > lo then (if k < hi then k else hi) - lo else 0
  {
    if k > 0 {
      ClearBetween(s, lo, hi, k - 1);
    }
  }

  /** What is free in a new group lies in the volume, behind the overhead. */
  lemma NewGroupOk(l: Layout, c: nat, m: Bytes)
    requires LayoutOk(l) && c < l.q.gcount && 8 * |m| == l.q.bpg && NewMap(m, Overhead(l, c), BlocksIn(l.q, c))
    ensures GroupOk(l.q, c, m, BlocksIn(l.q, c) - Overhead(l, c))
  {
    NewMapCount(m, Overhead(l, c), BlocksIn(l.q, c));
    assert Overhead(l, l.q.gcount - 1) <= BlocksIn(l.q, l.q.gcount - 1);
    assert Overhead(l, c) <= BlocksIn(l.q, c) <= l.q.bpg;
    forall j | 0 <= j < l.q.bpg && !Bits(m)[j]
      ensures InVolume(l.q, c, j)
    {
      InGroup(l.q, c, j);
    }
  }

  lemma InGroup(q: Geometry, c: nat, j: nat)
    requires c < q.gcount && 0 < j < q.bpg && j < BlocksIn(q, c) && CgBase(q, q.gcount - 1) <= q.bcount
    ensures InVolume(q, c, j)
  {
    if c + 1 < q.gcount {
      MulMono(q.bpg, c + 1, q.gcount - 1);
      assert q.bpg * (c + 1) == q.bpg * c + q.bpg;
    }
  }

  // ---------------------------------------------------------------- inode bitmaps

  /** initcg, the inode bitmap of group c; in the first group the reserved inodes are in use. */
  method InitInodeMap(ipg: nat, bsize: nat, c: nat) returns (buf: Bytes, nifree: nat)
    requires ipg % 8 == 0 && RESERVED_INODES <= ipg <= 8 * bsize
    ensures |buf| == bsize && nifree == NumClear(buf)
    ensures forall i :: 0 <= i < 8 * bsize ==> Bits(buf)[i] == (i >= ipg || (c == 0 && i < RESERVED_INODES))
  {
    buf := seq(bsize, _ => 0);
    ZeroMap(buf);
    buf := FillRange(buf, ipg / 8, bsize);
    nifree := ipg;
    if c == 0 {
      nifree := nifree - RESERVED_INODES;
      buf := SetRange(buf, 0, RESERVED_INODES);
    }
    ClearBetween(Bits(buf), if c == 0 then RESERVED_INODES else 0, ipg, 8 * bsize);
  }

  // ---------------------------------------------------------------- all groups

  /** What a new inode bitmap looks like. */
  ghost predicate NewInodeMap(l: Layout, c: nat, m: Bytes) {
    l.ipg <= 8 * |m|
    && forall i :: 0 <= i < 8 * |m| ==> Bits(m)[i] == (i >= l.ipg || (c == 0 && i < RESERVED_INODES))
  }

  /** mke2fs and initcg: the counts in the descriptors and the superblock, and the bitmaps, satisfy the
      invariants of both allocators. */
  method MakeGroups(l: Layout) returns (s: Counts, inodes: Inodes.Counts)
    requires LayoutOk(l)
    ensures Ok(l.q, s) && Made(l, s, l.q.gcount)
    ensures Inodes.Ok(l.ipg, inodes, NoDirs(l.q.gcount)) && InodesMade(l, inodes, l.q.gcount)
  {
    s, inodes := Counts([], [], 0), Inodes.Counts([], [], [], 0, 0);
    var c := 0;
    while c < l.q.gcount
      invariant 0 <= c <= l.q.gcount && Made(l, s, c) && InodesMade(l, inodes, c)
    {
      s := MakeBlocks(l, s, c);
      inodes := MakeInodes(l, inodes, c);
      c := c + 1;
    }
  }

  /** The blocks of one group more. */
  method MakeBlocks(l: Layout, s: Counts, c: nat) returns (s': Counts)
    requires LayoutOk(l) && c < l.q.gcount && Made(l, s, c)
    ensures Made(l, s', c + 1)
  {
    assert Overhead(l, c) <= BlocksIn(l.q, c) <= l.q.bpg;
    var overh := CgOverhead(l, c);
    var nbfree := BlocksIn(l.q, c) - overh;
    var m := InitBlockMap(l, c);
    NewGroupOk(l, c, m);
    OneMoreMade(l, s, c, m, nbfree);
    s' := Counts(s.maps + [m], s.nbfree + [nbfree], s.fbcount + nbfree);
  }

  /** The inodes of one group more; it has no directories yet. */
  method MakeInodes(l: Layout, s: Inodes.Counts, c: nat) returns (s': Inodes.Counts)
    requires LayoutOk(l) && InodesMade(l, s, c)
    ensures InodesMade(l, s', c + 1)
  {
    var m, nifree := InitInodeMap(l.ipg, l.q.bpg / 8, c);
    s' := Inodes.Counts(s.maps + [m], s.nifree + [nifree], s.ndirs + [0], s.ficount + nifree, s.totalDir);
    assert s'.nifree[..c] == s.nifree && s'.ndirs[..c] == s.ndirs;
  }

  /** The first c groups are made. */
  ghost predicate Made(l: Layout, s: Counts, c: nat)
    requires GeometryOk(l.q)
  {
    && |s.maps| == |s.nbfree| == c && s.fbcount == Sum(s.nbfree)
    && (forall g :: 0 <= g < c ==> GroupOk(l.q, g, s.maps[g], s.nbfree[g]))
    && (forall g :: 0 <= g < c ==> NewMap(s.maps[g], Overhead(l, g), BlocksIn(l.q, g)))
  }

  lemma OneMoreMade(l: Layout, s: Counts, c: nat, m: Bytes, free: nat)
    requires GeometryOk(l.q) && Made(l, s, c) && GroupOk(l.q, c, m, free)
    requires NewMap(m, Overhead(l, c), BlocksIn(l.q, c))
    ensures Made(l, Counts(s.maps + [m], s.nbfree + [free], s.fbcount + free), c + 1)
  {
    assert (s.nbfree + [free])[..c] == s.nbfree;
  }

  ghost predicate InodesMade(l: Layout, s: Inodes.Counts, c: nat) {
    && |s.maps| == |s.nifree| == |s.ndirs| == c && s.ficount == Sum(s.nifree) && s.totalDir == Sum(s.ndirs)
    && (forall g :: 0 <= g < c ==> NewInodeMap(l, g, s.maps[g]) && s.nifree[g] == NumClear(s.maps[g]) && s.ndirs[g] == 0)
  }

  function NoDirs(gcount: nat): (d: seq<set<nat>>)
    ensures |d| == gcount && forall g :: 0 <= g < gcount ==> d[g] == {}
  {
    seq(gcount, _ => {})
  }

  // ---------------------------------------------------------------- alloc

  /** alloc: the first free block of group 0; 0 when there is none. */
  method AllocFirst(q: Geometry, s: Counts) returns (b: nat, s': Counts)
    requires Ok(q, s)
    ensures Ok(q, s')
    ensures b == 0 <==> s.nbfree[0] == 0
    ensures b == 0 ==> s' == s
    ensures b != 0 ==> Took(q, s, s', b) && q.first <= b < q.first + q.bpg && s'.nbfree[0] == s.nbfree[0] - 1
    ensures b != 0 ==> forall i :: 0 <= i < b - q.first ==> Bits(s.maps[0])[i]
  {
    if s.nbfree[0] == 0 {
      return 0, s;
    }
    assert GroupOk(q, 0, s.maps[0], s.nbfree[0]);
    var bno := FirstFree(s.maps[0]);
    FirstTaken(q, s, bno);
    s' := Counts(s.maps[0 := SetBit(s.maps[0], bno)], s.nbfree[0 := s.nbfree[0] - 1], s.fbcount - 1);
    b := q.first + bno;
  }

  lemma FirstTaken(q: Geometry, s: Counts, bno: nat)
    requires Ok(q, s) && bno < q.bpg && bno < 8 * |s.maps[0]| && !Bits(s.maps[0])[bno]
    ensures s.nbfree[0] > 0 && s.fbcount > 0 && q.first + bno > 0
    ensures var s' := Counts(s.maps[0 := SetBit(s.maps[0], bno)], s.nbfree[0 := s.nbfree[0] - 1], s.fbcount - 1);
            Ok(q, s') && Took(q, s, s', q.first + bno)
  {
    assert GroupBlock(q.bpg, q.first, 0, bno) == q.first + bno;
    TakeOk(q, s, 0, bno);
  }

  /** The first clear bit: skip the bytes that are all ones, then the ones of the next byte. */
  method FirstFree(bbp: Bytes) returns (bno: nat)
    requires NumClear(bbp) > 0
    ensures bno < 8 * |bbp| && !Bits(bbp)[bno] && forall k :: 0 <= k < bno ==> Bits(bbp)[k]
  {
    var loc := Memcchr(bbp, 0, |bbp|);
    if loc == -1 {
      FullMap(bbp);
      assert false;
    }
    LowestClear(bbp[loc]);
    var i := 0;
    while bbp[loc] & Mask(i) != 0
      invariant 0 <= i < 8 && forall k :: 0 <= k < i ==> ByteBit(bbp[loc], k)
      decreases 8 - i
    {
      i := i + 1;
    }
    bno := loc * 8 + i;
    FirstClear(bbp, loc, i);
  }

  lemma FirstClear(m: Bytes, loc: nat, i: nat)
    requires loc < |m| && i < 8 && !ByteBit(m[loc], i)
    requires forall k :: 0 <= k < loc ==> m[k] == 0xff
    requires forall k :: 0 <= k < i ==> ByteBit(m[loc], k)
    ensures !Bits(m)[loc * 8 + i] && forall k :: 0 <= k < loc * 8 + i ==> Bits(m)[k]
  {
    BitIn(m, loc, i);
    var s := Bits(m);
    forall k | 0 <= k < loc * 8 + i
      ensures s[k]
    {
      ByteFull(0xff);
      BitAt(m, k);
      assert 0 <= k % 8 < 8 && k / 8 <= loc;
    }
  }

  // ---------------------------------------------------------------- the first two directories

  /** Blocks bs, all of them free before and none of them twice, are in use now, and no other block is. */
  ghost predicate TookAll(q: Geometry, s: Counts, s': Counts, bs: seq<nat>) {
    && s'.fbcount == s.fbcount - |bs| && (forall i, j :: 0 <= i < j < |bs| ==> bs[i] != bs[j])
    && (forall x :: x in bs ==> Free(q, s, x))
    && (forall x: nat :: Free(q, s', x) <==> Free(q, s, x) && x !in bs)
  }

  lemma TookOneMore(q: Geometry, s: Counts, s1: Counts, s2: Counts, bs: seq<nat>, b: nat)
    requires Ok(q, s1) && TookAll(q, s, s1, bs) && Took(q, s1, s2, b)
    ensures TookAll(q, s, s2, bs + [b])
  {
    TookOne(q, s1, s2, b);
    assert Free(q, s1, b);
  }

  /** alloc, up to k times: it stops when group 0 is full. */
  method AllocMany(q: Geometry, s: Counts, k: nat) returns (s': Counts, bs: seq<nat>)
    requires Ok(q, s)
    ensures Ok(q, s') && TookAll(q, s, s', bs)
    ensures |bs| == if s.nbfree[0] < k then s.nbfree[0] else k
    ensures s'.nbfree[0] == s.nbfree[0] - |bs|
  {
    s', bs := s, [];
    while |bs| < k
      invariant |bs| <= k && Ok(q, s') && TookAll(q, s, s', bs) && s'.nbfree[0] == s.nbfree[0] - |bs|
    {
      var b, s1 := AllocFirst(q, s');
      if b == 0 {
        return;
      }
      TookOneMore(q, s, s', s1, bs, b);
      s', bs := s1, bs + [b];
    }
  }

  /** How many blocks lost+found gets: all direct ones, and one at least. */
  function LostFoundBlocks(bsize: nat): (k: nat)
    requires bsize > 0
    ensures 1 <= k <= 12 && (k == 1 || k * bsize <= LOSTFOUNDSIZE) && (k == 12 || LOSTFOUNDSIZE < (k + 1) * bsize)
  {
    var nblks := LOSTFOUNDSIZE / bsize;
    DivMod(LOSTFOUNDSIZE, bsize);
    MulMono(bsize, if nblks > 12 then 12 else nblks, nblks);
    if nblks > 12 then 12 else if nblks < 1 then 1 else nblks
  }

  /** iput: an inode that is not reserved is marked in the bitmap of group 0 and counted in its own group; newfs
      gives up when the group has none, or the bit is set. */
  method IPut(ipg: nat, s: Inodes.Counts, ino: nat) returns (ok: bool, s': Inodes.Counts)
    requires ipg > 0 && 0 < ino && |s.maps| > 0 && |s.nifree| > Inodes.InoToCg(ipg, ino)
    requires ino > RESERVED_INODES ==>
               Inodes.InoPlace(ipg, ino) < 8 * |s.maps[0]| && s.ficount >= s.nifree[Inodes.InoToCg(ipg, ino)]
    ensures ok <==> ino <= RESERVED_INODES || (s.nifree[Inodes.InoToCg(ipg, ino)] > 0
                                               && !Bits(s.maps[0])[Inodes.InoPlace(ipg, ino)])
    ensures !ok || ino <= RESERVED_INODES ==> s' == s
    ensures ok && ino > RESERVED_INODES ==>
              var c := Inodes.InoToCg(ipg, ino);
              && |s'.maps| == |s.maps| && Bits(s'.maps[0]) == Bits(s.maps[0])[Inodes.InoPlace(ipg, ino) := true] && s'.maps[1..] == s.maps[1..]
              && s'.nifree == s.nifree[c := s.nifree[c] - 1] && s'.ficount == s.ficount - 1
              && s'.ndirs == s.ndirs && s'.totalDir == s.totalDir
    ensures ok && ino > RESERVED_INODES && Inodes.InoToCg(ipg, ino) == 0 && |s.ndirs| > 0 ==>
              Inodes.Took(s, s', 0, Inodes.InoPlace(ipg, ino), false)
  {
    if ino <= RESERVED_INODES {
      return true, s;
    }
    var c, i := Inodes.InoToCg(ipg, ino), Inodes.InoPlace(ipg, ino);
    if s.nifree[c] == 0 || IsSet(s.maps[0], i) {
      return false, s;
    }
    ok := true;
    s' := s.(maps := s.maps[0 := SetBit(s.maps[0], i)], nifree := s.nifree[c := s.nifree[c] - 1], ficount := s.ficount - 1);
  }

  /** The directories newfs makes: in group 0 the root and lost+found, at their places. */
  function FirstDirs(gcount: nat): (d: seq<set<nat>>)
    requires gcount > 0
  {
    NoDirs(gcount)[0 := {ROOTINO - 1, LOSTFOUNDINO - 1}]
  }

  /** alloc of a block for a directory counts the directory. */
  function CountDir(s: Inodes.Counts): Inodes.Counts
    requires |s.ndirs| > 0
  {
    s.(ndirs := s.ndirs[0 := s.ndirs[0] + 1], totalDir := s.totalDir + 1)
  }

  /** fsinit without the resize inode: lost+found, then the root.  It fails exactly when group 0 has too few free
      blocks; otherwise both allocators' invariants hold, with these two directories. */
  method FsInit(l: Layout, s: Counts, inodes: Inodes.Counts)
    returns (ok: bool, s': Counts, inodes': Inodes.Counts, bs: seq<nat>)
    requires LayoutOk(l) && Ok(l.q, s) && InodesMade(l, inodes, l.q.gcount)
    ensures Ok(l.q, s') && TookAll(l.q, s, s', bs)
    ensures ok <==> s.nbfree[0] > LostFoundBlocks(l.q.bpg / 8)
    ensures ok ==> |bs| == LostFoundBlocks(l.q.bpg / 8) + 1
    ensures ok ==> Inodes.Ok(l.ipg, inodes', FirstDirs(l.q.gcount))
  {
    var k := LostFoundBlocks(l.q.bpg / 8);
    inodes' := inodes;
    s', bs := AllocMany(l.q, s, k);
    ok := |bs| == k;
    if !ok {
      return;
    }
    inodes' := PutDirs(l, inodes);
    ok, s', bs := AllocOneMore(l.q, s, s', bs);
  }

  method AllocOneMore(q: Geometry, ghost s: Counts, s1: Counts, bs1: seq<nat>) returns (ok: bool, s': Counts, bs: seq<nat>)
    requires Ok(q, s1) && TookAll(q, s, s1, bs1)
    ensures Ok(q, s') && TookAll(q, s, s', bs) && (ok <==> s1.nbfree[0] > 0) && |bs| == |bs1| + if ok then 1 else 0
  {
    var b;
    b, s' := AllocFirst(q, s1);
    ok, bs := b != 0, bs1;
    if ok {
      TookOneMore(q, s, s1, s', bs1, b);
      bs := bs1 + [b];
    }
  }

  lemma NewInodesOk(l: Layout, s: Inodes.Counts)
    requires LayoutOk(l) && InodesMade(l, s, l.q.gcount)
    ensures Inodes.Ok(l.ipg, s, NoDirs(l.q.gcount))
    ensures LOSTFOUNDINO < l.ipg && !Bits(s.maps[0])[LOSTFOUNDINO - 1] && Bits(s.maps[0])[ROOTINO - 1]
  {
    assert NewInodeMap(l, 0, s.maps[0]);
    forall g | 0 <= g < l.q.gcount
      ensures Inodes.GroupOk(l.ipg, s.maps[g], s.nifree[g], {}, 0)
    {
      assert NewInodeMap(l, g, s.maps[g]);
    }
  }

  /** The root is one directory more; its bit has been set all along. */
  lemma RootCounted(ipg: nat, gcount: nat, s: Inodes.Counts)
    requires gcount > 0 && Inodes.Ok(ipg, s, NoDirs(gcount)[0 := {LOSTFOUNDINO - 1}])
    requires ROOTINO <= ipg <= 8 * |s.maps[0]| && Bits(s.maps[0])[ROOTINO - 1]
    ensures Inodes.Ok(ipg, CountDir(s), FirstDirs(gcount))
  {
    SumUpdate(s.ndirs, 0, s.ndirs[0] + 1);
    var ds := {ROOTINO - 1, LOSTFOUNDINO - 1};
    assert Inodes.GroupOk(ipg, s.maps[0], s.nifree[0], {LOSTFOUNDINO - 1}, s.ndirs[0]);
    assert ds == {LOSTFOUNDINO - 1} + {ROOTINO - 1};
    assert Inodes.GroupOk(ipg, s.maps[0], s.nifree[0], ds, s.ndirs[0] + 1);
  }

  /** The inodes and the counts of the two directories. */
  method PutDirs(l: Layout, s: Inodes.Counts) returns (s': Inodes.Counts)
    requires LayoutOk(l) && InodesMade(l, s, l.q.gcount)
    ensures Inodes.Ok(l.ipg, s', FirstDirs(l.q.gcount))
  {
    NewInodesOk(l, s);
    s' := PutBoth(l.ipg, l.q.gcount, s);
  }

  method PutBoth(ipg: nat, ghost gcount: nat, s: Inodes.Counts) returns (s': Inodes.Counts)
    requires gcount > 0 && Inodes.Ok(ipg, s, NoDirs(gcount)) && LOSTFOUNDINO < ipg <= 8 * |s.maps[0]|
    requires !Bits(s.maps[0])[LOSTFOUNDINO - 1] && Bits(s.maps[0])[ROOTINO - 1]
    ensures Inodes.Ok(ipg, s', FirstDirs(gcount))
  {
    Inodes.InoRoundTrip(ipg, 0, ROOTINO - 1);
    s' := PutLostFound(ipg, gcount, s);
    RootCounted(ipg, gcount, s');
    var done;
    done, s' := IPut(ipg, CountDir(s'), ROOTINO);
  }

  method PutLostFound(ipg: nat, ghost gcount: nat, s: Inodes.Counts) returns (s': Inodes.Counts)
    requires gcount > 0 && Inodes.Ok(ipg, s, NoDirs(gcount)) && LOSTFOUNDINO < ipg <= 8 * |s.maps[0]|
    requires !Bits(s.maps[0])[LOSTFOUNDINO - 1]
    ensures Inodes.Ok(ipg, s', NoDirs(gcount)[0 := {LOSTFOUNDINO - 1}])
    ensures s'.maps == s.maps[0 := SetBit(s.maps[0], LOSTFOUNDINO - 1)]
  {
    Inodes.InoRoundTrip(ipg, 0, LOSTFOUNDINO - 1);
    Inodes.TakeOk(ipg, s, NoDirs(gcount), 0, LOSTFOUNDINO - 1, true);
    SumAtLeast(s.nifree, 0);
    var done;
    done, s' := IPut(ipg, CountDir(s), LOSTFOUNDINO);
    assert s' == Inodes.Taken(s, 0, LOSTFOUNDINO - 1, true);
  }

  // ---------------------------------------------------------------- fsck's marking of metadata

  /** Where newfs puts the block bitmap of group c. */
  ghost function BitmapAt(l: Layout, c: nat): nat {
    CgBase(l.q, c) + if HasSb(l, c) then 1 + l.gdbcount + l.reserved else 0
  }

  /** Pass 1 of fsck marks the i-th block of group c: one of the bitmaps, the inode table, or a copy of
      the superblock and its descriptors. */
  ghost predicate MarkedByPass1(l: Layout, c: nat, i: nat) {
    var b, bitmap, itable := CgBase(l.q, c) + i, BitmapAt(l, c), BitmapAt(l, c) + 2;
    || b == bitmap || b == bitmap + 1 || itable <= b < itable + l.itpg
    || (HasSb(l, c) && CgBase(l.q, c) <= b <= CgBase(l.q, c) + l.gdbcount)
  }

  /** The marked blocks are exactly those that a new bitmap sets as overhead, if and only if no descriptor
      blocks are reserved in the group: fsck does not know of those. */
  lemma MarksAreOverhead(l: Layout, c: nat)
    ensures (forall i: nat :: MarkedByPass1(l, c, i) <==> i < Overhead(l, c))
            <==> !HasSb(l, c) || l.reserved == 0
    ensures CgBase(l.q, c) + Overhead(l, c) == BitmapAt(l, c) + 2 + l.itpg
  {
    if HasSb(l, c) && l.reserved > 0 {
      assert !MarkedByPass1(l, c, 1 + l.gdbcount);
    }
  }
}
