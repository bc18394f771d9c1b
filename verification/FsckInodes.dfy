/// How pass 1 of fsck looks at an inode (checkinode): which inodes it walks, which it rejects as unknown, and
/// what becomes of their states up to pass 4.
module FsckInodes {
  import opened Arith
  import opened BlockTree
  import opened BlockPath
  import opened FileTree
  import opened FileRoots
  import opened BlockWalk
  import opened Pass5
  import FileBlocks
  import FsckBlocks

  /** The file type in the mode; NoType is a mode without one, BadType one that is none of the seven. */
  datatype Kind = NoType | IFREG | IFDIR | IFLNK | IFCHR | IFBLK | IFIFO | IFSOCK | BadType

  datatype Inode = Inode(kind: Kind, dtime: nat, nlink: nat, size: nat, p: seq<int>)

  const MAXSYMLINKLEN := 60
  const TWO31 := 0x8000_0000
  const TWO32 := 0x1_0000_0000

  /** Conversion to a signed 32-bit number. */
  function ToInt(x: nat): int {
    if x % TWO32 < TWO31 then x % TWO32 else x % TWO32 - TWO32
  }

  /** An inode that is not in use. */
  predicate NotInUse(f: Inode) {
    f.kind.NoType? || (f.dtime != 0 && f.nlink == 0)
  }

  /** Its pointers hold the text of a symbolic link. */
  predicate ShortLink(f: Inode) {
    f.kind.IFLNK? && f.size < MAXSYMLINKLEN
  }

  // ---------------------------------------------------------------- the gate

  /** How many blocks checkinode takes the inode to have: one more for a device, and for a short link as many as
      its text would fill if each of its words were a block or the indirect pointer to the last one. */
  function BlockCount(n: nat, bsize: nat, f: Inode): int
    requires bsize > 0
  {
    if ShortLink(f) then LinkCount(n, HowMany(f.size, 4))
    else ToInt(HowMany(f.size, bsize)) + if f.kind.IFBLK? || f.kind.IFCHR? then 1 else 0
  }

  function LinkCount(n: nat, words: nat): nat {
    if words > NDADDR then Pow(n, words - NDADDR - 1) + NDADDR else words
  }

  /** Pointer k of the inode may be used when there are `ndb` blocks. */
  predicate Allowed(n: nat, ndb: int, k: nat) {
    if k < NDADDR then k < ndb else ndb - NDADDR >= Pow(n, k - NDADDR)
  }

  /** A short link of `words` words may use just as many pointers. */
  lemma LinkAllowed(n: nat, words: nat, k: nat)
    requires n > 1 && words <= NPTRS && k < NPTRS
    ensures Allowed(n, LinkCount(n, words), k) <==> k < words
  {
    assert Pow(n, 0) == 1 && Pow(n, 1) == n && Pow(n, 2) == n * n;
    MulMono(n, 2, n);
  }

  /** A device of size 0 may use its first pointer, where its number is, and no other. */
  lemma DeviceAllowed(n: nat, bsize: nat, f: Inode, k: nat)
    requires n > 0 && bsize > 0 && (f.kind.IFBLK? || f.kind.IFCHR?) && f.size == 0 && k < NPTRS
    ensures Allowed(n, BlockCount(n, bsize, f), k) <==> k == 0
  {
    SmallMod(bsize - 1, bsize);
    ToIntIs(0);
  }

  ghost predicate PointersOk(n: nat, ndb: int, p: seq<int>)
    requires |p| == NPTRS
  {
    forall k :: 0 <= k < NPTRS && p[k] != 0 ==> Allowed(n, ndb, k)
  }

  /** The size does not wrap when it is rounded up, and the number of blocks fits its type. */
  predicate SizeOk(bsize: nat, f: Inode)
    requires bsize > 0
  {
    f.size + bsize - 1 < TWO64 && ToInt(HowMany(f.size, bsize)) >= 0
  }

  /** An inode in use that pass 1 walks; it rejects the others as unknown. */
  ghost predicate Accepted(n: nat, bsize: nat, f: Inode)
    requires bsize > 0 && |f.p| == NPTRS
  {
    SizeOk(bsize, f) && !f.kind.BadType? && (f.kind.IFIFO? || PointersOk(n, BlockCount(n, bsize, f), f.p))
  }

  /** The test in checkinode. */
  method Accepts(n: nat, bsize: nat, f: Inode) returns (ok: bool)
    requires n > 1 && 0 < bsize < TWO32 && |f.p| == NPTRS && f.size < TWO64 && !NotInUse(f)
    ensures ok <==> Accepted(n, bsize, f)
  {
    Wraps(f.size, bsize);
    if (f.size + bsize - 1) % TWO64 < f.size {
      return false;
    }
    var ndb := ToInt(HowMany(f.size, bsize));
    if ndb < 0 {
      return false;
    }
    if f.kind.IFBLK? || f.kind.IFCHR? {
      ndb := ndb + 1;
    }
    if f.kind.IFLNK? {
      if f.size < MAXSYMLINKLEN {
        ndb := LinkBlocks(n, HowMany(f.size, 4));
      }
    }
    if !f.kind.IFIFO? {
      ok := PointersAllowed(n, ndb, f.p);
      if !ok {
        return false;
      }
    }
    ok := !f.kind.BadType?;
  }

  lemma Wraps(size: nat, bsize: nat)
    requires size < TWO64 && 0 < bsize < TWO32
    ensures (size + bsize - 1) % TWO64 < size <==> size + bsize - 1 >= TWO64
  {
    if size + bsize - 1 >= TWO64 {
      DivModUnique(size + bsize - 1, TWO64, 1, size + bsize - 1 - TWO64);
    } else {
      SmallMod(size + bsize - 1, TWO64);
    }
  }

  /** The number of blocks faked for a short link. */
  method LinkBlocks(n: nat, words: nat) returns (ndb: nat)
    requires n > 0
    ensures ndb == LinkCount(n, words)
  {
    ndb := words;
    if ndb > NDADDR {
      var j := ndb - NDADDR;
      ndb := 1;
      while j > 1
        invariant 1 <= j <= words - NDADDR && ndb == Pow(n, words - NDADDR - j)
      {
        ndb := n * ndb;
        j := j - 1;
      }
      ndb := ndb + NDADDR;
    }
  }

  method PointersAllowed(n: nat, ndb: nat, p: seq<int>) returns (ok: bool)
    requires n > 1 && |p| == NPTRS
    ensures ok <==> PointersOk(n, ndb, p)
  {
    var j := ndb;
    while j < NDADDR
      invariant ndb <= j && (j <= NDADDR || j == ndb)
      invariant forall i :: ndb <= i < j && i < NDADDR ==> p[i] == 0
    {
      if p[j] != 0 {
        assert !Allowed(n, ndb, j);
        return false;
      }
      j := j + 1;
    }
    var l := Levels(n, ndb - NDADDR);
    j := l;
    while j < NIADDR
      invariant l <= j && (j <= NIADDR || j == l)
      invariant forall k :: l + NDADDR <= k < j + NDADDR && k < NPTRS ==> p[k] == 0
    {
      if p[j + NDADDR] != 0 {
        assert !Allowed(n, ndb, j + NDADDR);
        return false;
      }
      j := j + 1;
    }
    return true;
  }

  /** How often d can be divided by n until nothing is left: the levels i below that are those with n^i <= d. */
  method Levels(n: nat, d: int) returns (l: nat)
    requires n > 1
    ensures forall i: nat :: i < l <==> Pow(n, i) <= d
  {
    l := 0;
    var rest := d;
    while rest > 0
      invariant forall i: nat :: i < l ==> Pow(n, i) <= d
      invariant rest <= 0 ==> Pow(n, l) > d
      invariant rest > 0 ==> rest == d / Pow(n, l) && d > 0
      decreases rest
    {
      OneLevel(n, d, l);
      rest := rest / n;
      l := l + 1;
    }
    forall i: nat | i >= l
      ensures Pow(n, i) > d
    {
      PowOrder(n, l, i);
    }
  }

  lemma OneLevel(n: nat, d: nat, l: nat)
    requires n > 1 && d / Pow(n, l) > 0
    ensures Pow(n, l) <= d && d / Pow(n, l) / n == d / Pow(n, l + 1) < d / Pow(n, l)
    ensures d / Pow(n, l + 1) == 0 ==> Pow(n, l + 1) > d
  {
    var f := Pow(n, l);
    DivMod(d, f);
    MulMono(f, 1, d / f);
    ModProduct(d, n, f);
    assert n * f == Pow(n, l + 1);
    DivMod(d, n * f);
    var q := d / f;
    DivMod(q, n);
    MulMono(q / n, 2, n);
  }

  // ---------------------------------------------------------------- files the kernel leaves

  lemma ToIntBelow(x: nat)
    requires ToInt(x) >= 0
    ensures ToInt(x) <= x
  {
    DivMod(x, TWO32);
  }

  lemma ToIntIs(x: nat)
    requires x < TWO31
    ensures ToInt(x) == x
  {
    SmallMod(x, TWO32);
  }

  /** No accepted file has a direct block behind its end, so pass 1 rejects every file in which a block is stuck. */
  lemma StuckRejected(n: nat, bsize: nat, f: Inode)
    requires bsize > 0 && |f.p| == NPTRS && f.kind.IFREG?
    ensures Accepted(n, bsize, f) ==> FileBlocks.NoneBehind(f.p[..NDADDR], bsize, f.size)
    ensures forall lbn :: FileBlocks.StuckAt(f.p[..NDADDR], bsize, f.size, lbn) ==> !Accepted(n, bsize, f)
  {
    if Accepted(n, bsize, f) {
      var ndb := HowMany(f.size, bsize);
      ToIntBelow(ndb);
      assert FileBlocks.LastBlock(bsize, f.size) + 1 == ndb;
      forall j | 0 <= j < NDADDR && f.p[..NDADDR][j] != 0
        ensures j <= FileBlocks.LastBlock(bsize, f.size)
      {
        assert f.p[j] != 0 && Allowed(n, ToInt(ndb), j);
      }
    }
  }

  /** So is it with the files of the kernel extension that a failed write leaves behind. */
  lemma StuckFileRejected(f: FileBlocks.File, i: Inode, lbn: int)
    requires f.Valid() && f.Stuck(lbn) && i.kind.IFREG? && i.p == f.db + f.ib && i.size == f.size
    ensures |i.p| == NPTRS && !Accepted(f.n, f.bsize, i)
  {
    assert i.p[..NDADDR] == f.db;
    StuckRejected(f.n, f.bsize, i);
  }

  /** A pointer that truncation keeps is allowed; and it lets through a pointer that truncation drops in two cases
      only, where the last block comes just before the first one it leads to, or not far before. */
  lemma AllowedBeyond(n: nat, ndb: nat, k: nat)
    requires n > 1 && k < NPTRS
    ensures k < Kept(n, ndb - 1) ==> Allowed(n, ndb, k)
    ensures Allowed(n, ndb, k) && k >= Kept(n, ndb - 1) <==>
            (k == NDADDR + 1 && ndb == Base(n, 2)) || (k == NDADDR + 2 && NDADDR + n * n <= ndb <= Base(n, 3))
  {
    assert Pow(n, 0) == 1 && Pow(n, 1) == n && Pow(n, 2) == n * n;
    assert Base(n, 2) == NDADDR + n && Base(n, 3) == NDADDR + n + n * n;
    MulMono(n, 1, n);
  }

  /** What truncation leaves is accepted and walked completely, whatever the file was like before. */
  lemma TruncatedAccepted(n: nat, bsize: nat, h: Heap, ts: seq<Tree>, f: Inode)
    requires n > 1 && 0 < bsize && |f.p| == NPTRS && (f.kind.IFREG? || f.kind.IFDIR?) && RootShapes(n, ts)
    requires f.size + bsize - 1 < TWO64 && HowMany(f.size, bsize) < TWO31
    requires var last := FileBlocks.LastBlock(bsize, f.size);
             (last >= 0 ==> Level(n, last) <= NIADDR) && Roots(n, h, f.p) == TruncRoots(n, ts, last)
    ensures Accepted(n, bsize, f) && FileFits(n, bsize, Roots(n, h, f.p), Remainders(n, bsize, f.size))
  {
    FileBlocks.LastBlockMeans(bsize, f.size);
    TruncatedFits(n, bsize, ts, FileBlocks.LastBlock(bsize, f.size), f.size);
    var ndb, last: int := HowMany(f.size, bsize), HowMany(f.size, bsize) - 1;
    ToIntIs(ndb);
    forall k | 0 <= k < NPTRS && f.p[k] != 0
      ensures Allowed(n, ndb, k)
    {
      assert Roots(n, h, f.p)[k] != Hole;
      DroppedIsHole(n, ts, last, k);
      AllowedBeyond(n, ndb, k);
    }
  }

  lemma DroppedIsHole(n: nat, ts: seq<Tree>, last: int, k: nat)
    requires n > 0 && RootShapes(n, ts) && last >= -1 && (last >= 0 ==> Level(n, last) <= NIADDR) && k < NPTRS
    ensures k >= Kept(n, last) ==> TruncRoots(n, ts, last)[k] == Hole
  {
    if last >= NDADDR {
      KeptLevel(n, last);
    }
  }

  // ---------------------------------------------------------------- the references of an inode

  /** No pointer is negative, and there are pointer blocks only where the volume has blocks. */
  ghost predicate OnVolume(bcount: nat, h: Heap, files: seq<Inode>) {
    && (forall b, i :: b in h && 0 <= i < |h[b]| ==> h[b][i] >= 0) && (forall b :: b in h ==> 0 <= b < bcount)
    && (forall f, k :: f in files && 0 <= k < |f.p| ==> f.p[k] >= 0)
    && (forall f :: f in files ==> |f.p| == NPTRS && f.size < TWO64)
  }

  /** Its pointers are block numbers. */
  predicate HoldsBlocks(f: Inode) {
    !f.kind.IFBLK? && !f.kind.IFCHR? && !f.kind.IFIFO? && !ShortLink(f)
  }

  /** What the block walk of file f meets. */
  function Walked(n: nat, bsize: nat, h: Heap, f: Inode): seq<int>
    requires n > 0 && bsize > 0 && |f.p| == NPTRS
  {
    if HoldsBlocks(f) then FileRefs(n, bsize, Roots(n, h, f.p), Remainders(n, bsize, f.size)) else []
  }

  lemma {:induction false} AllPositive(n: nat, h: Heap, bn: int, l: nat)
    requires bn >= 0 && forall b, i :: b in h && 0 <= i < |h[b]| ==> h[b][i] >= 0
    ensures forall b :: b in Blocks(Abs(n, h, bn, l)) ==> b > 0
    decreases l
  {
    if bn != 0 && l > 0 {
      var kids := Kids(n, h, bn, l);
      forall i | 0 <= i < n
        ensures forall b :: b in Blocks(kids[i]) ==> b > 0
      {
        AllPositive(n, h, PtrAt(h, bn, i), l - 1);
      }
      TreesPositive(kids);
    }
  }

  lemma {:induction false} TreesPositive(ts: seq<Tree>)
    requires forall i, b :: 0 <= i < |ts| && b in Blocks(ts[i]) ==> b > 0
    ensures forall b :: b in AllBlocks(ts) ==> b > 0
  {
    if ts != [] {
      TreesPositive(ts[1..]);
    }
  }

  lemma WalkedNumbers(n: nat, bsize: nat, bcount: nat, h: Heap, files: seq<Inode>, f: Inode)
    requires n > 0 && bsize > 0 && OnVolume(bcount, h, files) && f in files
    ensures forall i :: 0 <= i < |Walked(n, bsize, h, f)| ==> Walked(n, bsize, h, f)[i] > 0
  {
    if !HoldsBlocks(f) {
      return;
    }
    var ts, rems := Roots(n, h, f.p), Remainders(n, bsize, f.size);
    RootsShaped(n, h, f.p);
    FileComplete(n, bsize, ts, rems);
    forall k, b | 0 <= k < NPTRS && b in Blocks(ts[k])
      ensures b > 0
    {
      AllPositive(n, h, f.p[k], RootLevel(k));
    }
    TreesPositive(ts);
    var refs := FileRefs(n, bsize, ts, rems);
    forall i | 0 <= i < |refs|
      ensures refs[i] > 0
    {
      assert refs[i] in multiset(refs);
    }
  }

  /** The same numbers, known not to be negative. */
  function Naturals(s: seq<int>): (r: seq<nat>)
    requires forall i :: 0 <= i < |s| ==> s[i] >= 0
    ensures r == s
  {
    if s == [] then []
    else
      var b: nat := s[0];
      [b] + Naturals(s[1..])
  }

  method Walk(n: nat, bsize: nat, ghost bcount: nat, h: Heap, ghost files: seq<Inode>, f: Inode) returns (refs: seq<nat>)
    requires n > 0 && bsize > 0 && OnVolume(bcount, h, files) && f in files
    ensures refs == Walked(n, bsize, h, f) && 0 !in refs
  {
    if !HoldsBlocks(f) {
      return [];
    }
    var r := CkInode(n, bsize, h, f.p, f.size);
    WalkedNumbers(n, bsize, bcount, h, files, f);
    assert r == Walked(n, bsize, h, f);
    refs := Naturals(r);
  }

  /** refs[i] is what the walk of files[i] meets. */
  ghost predicate WalkedAll(n: nat, bsize: nat, h: Heap, files: seq<Inode>, refs: seq<seq<nat>>, k: nat) {
    && n > 0 && bsize > 0 && |refs| == k <= |files|
    && forall i :: 0 <= i < k ==> |files[i].p| == NPTRS && refs[i] == Walked(n, bsize, h, files[i])
  }

  /** The walk of every inode. */
  method WalkAll(n: nat, bsize: nat, ghost bcount: nat, h: Heap, files: seq<Inode>) returns (refs: seq<seq<nat>>)
    requires n > 0 && bsize > 0 && OnVolume(bcount, h, files)
    ensures WalkedAll(n, bsize, h, files, refs, |files|) && forall i :: 0 <= i < |refs| ==> 0 !in refs[i]
  {
    refs := [];
    var i := 0;
    while i < |files|
      invariant 0 <= i <= |files| && WalkedAll(n, bsize, h, files, refs, i)
      invariant forall j :: 0 <= j < |refs| ==> 0 !in refs[j]
    {
      var r := Walk(n, bsize, bcount, h, files, files[i]);
      refs := refs + [r];
      i := i + 1;
    }
  }

  // ---------------------------------------------------------------- states

  /** Inode numbers that no pass looks at. */
  predicate Reserved(j: nat) {
    j < FIRSTINO && j != ROOTINO
  }

  /** What pass 1 makes of inode j; `clear` is the answer when it asks whether to clear an unknown one. */
  ghost function FateOf(n: nat, bsize: nat, f: Inode, j: nat, clear: bool): FsckBlocks.Fate
    requires bsize > 0 && |f.p| == NPTRS
  {
    if Reserved(j) || NotInUse(f) then FsckBlocks.Unused
    else if Accepted(n, bsize, f) then FsckBlocks.Charged
    else if clear then FsckBlocks.Unused
    else FsckBlocks.Unknown
  }

  predicate DirState(s: InodeState) {
    s.DSTATE? || s.DCLEAR? || s.DFOUND?
  }

  /** The states go with what pass 1 made of the inodes: those in use stay so, and a walked inode is in the state of
      a directory exactly when it is one. */
  ghost predicate StatesOf(files: seq<Inode>, fate: seq<FsckBlocks.Fate>, state: seq<InodeState>) {
    && |files| == |fate| == |state|
    && forall j :: 0 <= j < |state| ==>
         (state[j].USTATE? <==> fate[j].Unused?) && (fate[j].Charged? ==> (DirState(state[j]) <==> files[j].kind.IFDIR?))
  }

  /** Pass 1, as far as the states go. */
  method CheckInode(n: nat, bsize: nat, f: Inode, j: nat, clear: bool) returns (fate: FsckBlocks.Fate, state: InodeState)
    requires n > 1 && 0 < bsize < TWO32 && |f.p| == NPTRS && f.size < TWO64
    ensures fate == FateOf(n, bsize, f, j, clear)
    ensures state == match fate {
                       case Unused => USTATE
                       case Unknown => FCLEAR
                       case Charged => if !f.kind.IFDIR? then FSTATE else if f.size == 0 then DCLEAR else DSTATE
                     }
  {
    if Reserved(j) || NotInUse(f) {
      return FsckBlocks.Unused, USTATE;
    }
    var ok := Accepts(n, bsize, f);
    if !ok {
      if clear {
        return FsckBlocks.Unused, USTATE;
      }
      return FsckBlocks.Unknown, FCLEAR;
    }
    fate := FsckBlocks.Charged;
    if f.kind.IFDIR? {
      state := if f.size == 0 then DCLEAR else DSTATE;
    } else {
      state := FSTATE;
    }
  }

  /** The fates of the first k inodes. */
  ghost predicate FatesOf(n: nat, bsize: nat, files: seq<Inode>, clear: seq<bool>, fate: seq<FsckBlocks.Fate>, k: nat) {
    && bsize > 0 && |fate| == k <= |files| == |clear|
    && forall j: nat :: j < k ==> |files[j].p| == NPTRS && fate[j] == FateOf(n, bsize, files[j], j, clear[j])
  }

  method CheckInodes(n: nat, bsize: nat, ghost bcount: nat, ghost h: Heap, files: seq<Inode>, clear: seq<bool>)
    returns (fate: seq<FsckBlocks.Fate>, state: seq<InodeState>)
    requires n > 1 && 0 < bsize < TWO32 && OnVolume(bcount, h, files) && |clear| == |files|
    ensures FatesOf(n, bsize, files, clear, fate, |files|) && StatesOf(files, fate, state)
  {
    fate, state := [], [];
    var j := 0;
    while j < |files|
      invariant 0 <= j <= |files| && FatesOf(n, bsize, files, clear, fate, j) && StatesOf(files[..j], fate, state)
    {
      assert files[j] in files;
      var f, s := CheckInode(n, bsize, files[j], j, clear[j]);
      fate, state := fate + [f], state + [s];
      j := j + 1;
    }
    assert files[..j] == files;
  }

  /** The only block of the inode is its first one, block 7. */
  ghost predicate OnlySeven(p: seq<int>) {
    |p| == NPTRS && p[0] == 7 && forall i :: 0 < i < NPTRS ==> p[i] == 0
  }

  /** How a rejected inode takes a block from a file: both refer to block 7, the second one behind its end.  Pass 1
      walks the first alone; the user keeps the second one in pass 1 and clears it in pass 4. */
  lemma RejectedExample(h: Heap, p: seq<int>)
    requires OnlySeven(p)
    ensures var a, b := Inode(IFREG, 0, 1, 1024, p), Inode(IFREG, 0, 1, 0, p);
            && FateOf(256, 1024, a, 12, false) == FsckBlocks.Charged && Walked(256, 1024, h, a) == [7]
            && FateOf(256, 1024, b, 13, false) == FsckBlocks.Unknown && Walked(256, 1024, h, b) == [7]
    ensures var ns, fate, clear := [[7], [7]], [FsckBlocks.Charged, FsckBlocks.Unknown], [false, true];
            FsckBlocks.Uses(ns, fate, clear, 0, 7) && LostIn(ns, fate, clear, 100, 7)
  {
    SevenGate(p);
    SevenWalked(h, p, 1024);
    SevenWalked(h, p, 0);
    SevenLost();
  }

  lemma SevenWalked(h: Heap, p: seq<int>, size: nat)
    requires OnlySeven(p)
    ensures Walked(256, 1024, h, Inode(IFREG, 0, 1, size, p)) == [7]
  {
    OneBlock(h, p, Remainders(256, 1024, size), NPTRS);
  }

  lemma SevenGate(p: seq<int>)
    requires OnlySeven(p)
    ensures Accepted(256, 1024, Inode(IFREG, 0, 1, 1024, p)) && !Accepted(256, 1024, Inode(IFREG, 0, 1, 0, p))
  {
    ToIntIs(1);
    ToIntIs(0);
    assert HowMany(1024, 1024) == 1 && HowMany(0, 1024) == 0;
    assert !Allowed(256, 0, 0) && Allowed(256, 1, 0);
  }

  lemma SevenLost()
    ensures LostIn([[7], [7]], [FsckBlocks.Charged, FsckBlocks.Unknown], [false, true], 100, 7)
  {
    var ns: seq<seq<nat>>, fate, clear := [[7], [7]], [FsckBlocks.Charged, FsckBlocks.Unknown], [false, true];
    var rec := FsckBlocks.Whole(ns, fate);
    FsckBlocks.OneOfTwo(rec, FsckBlocks.Those(fate, clear, FsckBlocks.Charged, false), 100);
    FsckBlocks.OnlyRecordLost({}, rec, ns, fate, clear, 100, 7, 1);
  }

  /** No limit is hit, and block b has no bit in the end. */
  ghost predicate LostIn(ns: seq<seq<nat>>, fate: seq<FsckBlocks.Fate>, clear: seq<bool>, n: nat, b: nat)
    requires |ns| == |fate| == |clear|
  {
    var rec := FsckBlocks.Whole(ns, fate);
    b !in FsckBlocks.Accounts({}, rec, FsckBlocks.Rests(rec, ns), fate, clear, n)
  }

  lemma {:induction false} OneBlock(h: Heap, p: seq<int>, rems: seq<int>, k: nat)
    requires OnlySeven(p) && |rems| == NPTRS && 0 < k <= NPTRS
    ensures FileRefs(256, 1024, Roots(256, h, p)[..k], rems[..k]) == [7]
    ensures Roots(256, h, p)[..NPTRS] == Roots(256, h, p) && rems[..NPTRS] == rems
  {
    NextRefs(256, 1024, Roots(256, h, p), rems, k - 1);
    if k > 1 {
      OneBlock(h, p, rems, k - 1);
    } else {
      assert FileRefs(256, 1024, Roots(256, h, p)[..0], rems[..0]) == [];
    }
  }

  /** What happens to a state between the passes: a complaint about one of the blocks (blkerror), an entry of a bad
      inode that is not removed (pass 2), a directory found (propagate and pass 3). */
  datatype Event = BlkError(ino: nat) | Spared(ino: nat) | Found(ino: nat)

  function After(f: Inode, s: InodeState, e: Event): InodeState {
    match e
    case BlkError(_) => if s.FSTATE? then FCLEAR else if s.DSTATE? then DCLEAR else s
    case Spared(_) => if !s.FCLEAR? && !s.DCLEAR? then s else if f.kind.IFDIR? then DSTATE else FSTATE
    case Found(_) => if s.DSTATE? then DFOUND else s
  }

  function AfterAll(files: seq<Inode>, state: seq<InodeState>, es: seq<Event>): (r: seq<InodeState>)
    requires |files| == |state|
    ensures |r| == |state|
    decreases |es|
  {
    if es == [] then state
    else
      var j := es[0].ino;
      AfterAll(files, if j < |state| then state[j := After(files[j], state[j], es[0])] else state, es[1..])
  }

  /** Whatever happens between the passes, no inode comes into use or goes out of it, and the directories stay
      directories. */
  lemma {:induction false} EventsKeep(files: seq<Inode>, fate: seq<FsckBlocks.Fate>, state: seq<InodeState>, es: seq<Event>)
    requires StatesOf(files, fate, state)
    ensures StatesOf(files, fate, AfterAll(files, state, es))
    decreases |es|
  {
    if es != [] {
      var j := es[0].ino;
      EventsKeep(files, fate, if j < |state| then state[j := After(files[j], state[j], es[0])] else state, es[1..]);
    }
  }

  /** Pass 4 leaves the inodes that are cleared unused. */
  function AfterPass4(state: seq<InodeState>, clear: seq<bool>): (r: seq<InodeState>)
    requires |state| == |clear|
    ensures |r| == |state| && forall j :: 0 <= j < |r| ==> r[j] == if clear[j] then USTATE else state[j]
  {
    seq(|state|, j requires 0 <= j < |state| => if clear[j] then USTATE else state[j])
  }
}
