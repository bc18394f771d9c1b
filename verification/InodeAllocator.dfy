/// The inode allocator of the kernel extension, one call at a time.
module InodeAllocator {
  import opened Arith
  import opened Bitmap
  import Blocks = GroupAllocator

  datatype AllocResult = Inode(ino: nat) | GroupFull | MapCorrupted
  datatype FreeResult = Freed | Panic

  // ---------------------------------------------------------------- searching one bitmap

  /** How many bytes the first search, from the byte of bit p on, looks at. */
  function SearchLen(ipg: nat, p: nat): nat
    requires p < ipg
  {
    (ipg - p + 7) / 8
  }

  /** The search of ext2_nodealloccg from bit p on: the first clear bit, beginning with the byte of p and
      going round; -1 when every byte it looks at is full. */
  method Search(m: Bytes, ipg: nat, p: nat) returns (bit: int)
    requires p < ipg <= 8 * |m|
    ensures bit == -1 <==> SeesNothing(m, ipg, p)
    ensures bit != -1 ==> NextFree(m, 8 * (p / 8), 8 * (p / 8) + 8 * SearchLen(ipg, p), bit)
  {
    var start, len := p / 8, SearchLen(ipg, p);
    var loc := Blocks.Memcchr(m, start, len);
    FullBytes(m, start, start + len);
    FullBytes(m, 0, start + 1);
    var lo := start;
    if loc == -1 {
      loc := Blocks.Memcchr(m, 0, start + 1);
      if loc == -1 {
        return -1;
      }
      lo := 0;
    }
    bit := Blocks.FirstClear(m, lo, loc);
  }

  /** Every byte the search looks at is full. */
  ghost predicate SeesNothing(m: Bytes, ipg: nat, p: nat)
    requires p < ipg
  {
    AllSet(m, 8 * (p / 8), 8 * (p / 8) + 8 * SearchLen(ipg, p)) && AllSet(m, 0, 8 * (p / 8) + 8)
  }

  /** Some bit is clear and yet the search sees none: exactly when the group does not end with a byte, the
      place in the byte of p is not below that of the end of the group, and the clear bits are all in the
      last byte. */
  lemma SeesNothingWhen(m: Bytes, ipg: nat, p: nat)
    requires p < ipg <= 8 * |m| && AllSet(m, ipg, 8 * |m|) && NumClear(m) > 0
    ensures SeesNothing(m, ipg, p) <==> ipg % 8 != 0 && ipg % 8 <= p % 8 && AllSet(m, 0, ipg - ipg % 8)
  {
    SomeClear(m);
    var i :| 0 <= i < 8 * |m| && !Bits(m)[i];
    assert i < ipg;
    SearchEnd(ipg, p);
  }

  /** The search reaches the end of the group, or it stops before its last byte. */
  lemma SearchEnd(ipg: nat, p: nat)
    requires p < ipg
    ensures var e := 8 * (p / 8) + 8 * SearchLen(ipg, p);
            if ipg % 8 != 0 && ipg % 8 <= p % 8 then e == ipg - ipg % 8 else ipg <= e
  {
  }

  /** Two bytes for twelve inodes, of which the last four are free: the search from inode 8 on misses them. */
  lemma MissedInodes()
    ensures var m: Bytes := [0xff, 0xf0];
            NumClear(m) > 0 && AllSet(m, 12, 8 * |m|) && SeesNothing(m, 12, 7)
  {
    var m: Bytes := [0xff, 0xf0];
    ByteFull(0xff);
    assert ByteBit(0xf0, 4) && ByteBit(0xf0, 5) && ByteBit(0xf0, 6) && ByteBit(0xf0, 7);
    forall i | 0 <= i < 8 || 12 <= i < 16
      ensures Bits(m)[i]
    {
      BitIn(m, if i < 8 then 0 else 1, if i < 8 then i else i - 8);
    }
    BitIn(m, 1, 0);
    assert !ByteBit(0xf0, 0) && !Bits(m)[8];
    SomeClear(m);
  }

  // ---------------------------------------------------------------- the counts of all groups

  /** Bitmaps, free counts and directory counts of the groups, and the totals of the volume. */
  datatype Counts = Counts(maps: seq<Bytes>, nifree: seq<nat>, ndirs: seq<nat>, ficount: nat, totalDir: nat)

  /** The bits behind the last inode of a group are set, the free count is that of the bitmap, and the
      directories counted are in use. */
  ghost predicate GroupOk(ipg: nat, m: Bytes, free: nat, dirs: set<nat>, ndirs: nat) {
    && ipg <= 8 * |m| && AllSet(m, ipg, 8 * |m|)
    && free == NumClear(m) && ndirs == |dirs| && (forall j :: j in dirs ==> j < ipg && Bits(m)[j])
  }

  /** What newfs establishes and every call keeps; `dirs` are the inodes allocated as directories. */
  ghost predicate Ok(ipg: nat, s: Counts, dirs: seq<set<nat>>) {
    && ipg > 0 && |s.maps| == |s.nifree| == |s.ndirs| == |dirs|
    && s.ficount == Sum(s.nifree) && s.totalDir == Sum(s.ndirs) && GroupsOk(ipg, s, dirs)
  }

  ghost predicate GroupsOk(ipg: nat, s: Counts, dirs: seq<set<nat>>)
    requires |s.maps| == |s.nifree| == |s.ndirs| == |dirs|
  {
    forall g :: 0 <= g < |dirs| ==> GroupOk(ipg, s.maps[g], s.nifree[g], dirs[g], s.ndirs[g])
  }

  /** Group g's bitmap becomes m, its inode counts change by d and its directory counts by e. */
  ghost predicate Becomes(s: Counts, s': Counts, g: nat, m: Bytes, d: int, e: int) {
    && g < |s.maps| && g < |s.nifree| && g < |s.ndirs| && s.nifree[g] + d >= 0 && s.ndirs[g] + e >= 0
    && s'.maps == s.maps[g := m] && s'.nifree == s.nifree[g := s.nifree[g] + d]
    && s'.ndirs == s.ndirs[g := s.ndirs[g] + e] && s'.ficount == s.ficount + d && s'.totalDir == s.totalDir + e
  }

  lemma BecomesOk(ipg: nat, s: Counts, dirs: seq<set<nat>>, s': Counts, g: nat, m: Bytes, d: int, e: int, ds: set<nat>)
    requires Ok(ipg, s, dirs) && Becomes(s, s', g, m, d, e)
    requires GroupOk(ipg, m, s.nifree[g] + d, ds, s.ndirs[g] + e)
    ensures Ok(ipg, s', dirs[g := ds])
  {
    SumUpdate(s.nifree, g, s.nifree[g] + d);
    SumUpdate(s.ndirs, g, s.ndirs[g] + e);
  }

  function One(dir: bool): int {
    if dir then 1 else 0
  }

  /** Inode `bit` of group g was free, and is in use now. */
  ghost predicate Took(s: Counts, s': Counts, g: nat, bit: nat, dir: bool) {
    && g < |s.maps| && bit < 8 * |s.maps[g]| && !Bits(s.maps[g])[bit]
    && Becomes(s, s', g, SetBit(s.maps[g], bit), -1, One(dir))
  }

  /** Inode `bit` of group g was in use, and is free now. */
  ghost predicate Gave(s: Counts, s': Counts, g: nat, bit: nat, dir: bool) {
    && g < |s.maps| && bit < 8 * |s.maps[g]| && Bits(s.maps[g])[bit]
    && Becomes(s, s', g, ClearBit(s.maps[g], bit), 1, -One(dir))
  }

  /** Freeing an inode just allocated undoes that, and the other way round. */
  lemma GiveUndoesTake(s: Counts, s1: Counts, s2: Counts, g: nat, bit: nat, dir: bool)
    ensures Took(s, s1, g, bit, dir) && Gave(s1, s2, g, bit, dir) ==> s2 == s
    ensures Gave(s, s1, g, bit, dir) && Took(s1, s2, g, bit, dir) ==> s2 == s
  {
    if g < |s.maps| && bit < 8 * |s.maps[g]| {
      SetThenClear(s.maps[g], bit);
    }
  }

  /** The counts with one inode less, or more. */
  function Taken(s: Counts, g: nat, bit: nat, dir: bool): Counts
    requires g < |s.maps| && g < |s.nifree| && g < |s.ndirs| && bit < 8 * |s.maps[g]|
    requires s.nifree[g] > 0 && s.ficount > 0
  {
    Counts(s.maps[g := SetBit(s.maps[g], bit)], s.nifree[g := s.nifree[g] - 1], s.ndirs[g := s.ndirs[g] + One(dir)],
           s.ficount - 1, s.totalDir + One(dir))
  }

  function Given(s: Counts, g: nat, bit: nat, dir: bool): Counts
    requires g < |s.maps| && g < |s.nifree| && g < |s.ndirs| && bit < 8 * |s.maps[g]|
    requires s.ndirs[g] >= One(dir) && s.totalDir >= One(dir)
  {
    Counts(s.maps[g := ClearBit(s.maps[g], bit)], s.nifree[g := s.nifree[g] + 1], s.ndirs[g := s.ndirs[g] - One(dir)],
           s.ficount + 1, s.totalDir - One(dir))
  }

  function Joined(ds: set<nat>, bit: nat, dir: bool): set<nat> {
    if dir then ds + {bit} else ds
  }

  /** Taking a free inode: neither count can underflow, and the invariant stays. */
  lemma TakeOk(ipg: nat, s: Counts, dirs: seq<set<nat>>, g: nat, bit: nat, dir: bool)
    requires Ok(ipg, s, dirs) && g < |dirs| && bit < 8 * |s.maps[g]| && !Bits(s.maps[g])[bit]
    ensures bit < ipg && s.nifree[g] > 0 && s.ficount > 0
    ensures Took(s, Taken(s, g, bit, dir), g, bit, dir)
    ensures Ok(ipg, Taken(s, g, bit, dir), dirs[g := Joined(dirs[g], bit, dir)])
  {
    var m := s.maps[g];
    assert GroupOk(ipg, m, s.nifree[g], dirs[g], s.ndirs[g]);
    SetCounts(m, bit);
    SumAtLeast(s.nifree, g);
    BecomesOk(ipg, s, dirs, Taken(s, g, bit, dir), g, SetBit(m, bit), -1, One(dir), Joined(dirs[g], bit, dir));
  }

  /** Freeing an inode in use: the group ... */
  lemma GiveGroupOk(ipg: nat, m: Bytes, free: nat, ds: set<nat>, nd: nat, bit: nat, dir: bool)
    requires GroupOk(ipg, m, free, ds, nd) && bit < ipg && Bits(m)[bit] && (dir <==> bit in ds)
    ensures nd >= One(dir) && GroupOk(ipg, ClearBit(m, bit), free + 1, ds - {bit}, nd - One(dir))
  {
    ClearCounts(m, bit);
    assert |ds - {bit}| == |ds| - One(dir);
  }

  lemma GivenGave(s: Counts, g: nat, bit: nat, dir: bool)
    requires g < |s.maps| && g < |s.nifree| && g < |s.ndirs| && bit < 8 * |s.maps[g]| && Bits(s.maps[g])[bit]
    requires s.ndirs[g] >= One(dir) && s.totalDir >= One(dir)
    ensures Gave(s, Given(s, g, bit, dir), g, bit, dir)
  {
  }

  /** ... and the volume; no directory count can underflow. */
  lemma GiveOk(ipg: nat, s: Counts, dirs: seq<set<nat>>, g: nat, bit: nat, dir: bool)
    requires Ok(ipg, s, dirs) && g < |dirs| && bit < ipg && bit < 8 * |s.maps[g]| && Bits(s.maps[g])[bit]
    requires dir <==> bit in dirs[g]
    ensures s.ndirs[g] >= One(dir) && s.totalDir >= One(dir)
    ensures Gave(s, Given(s, g, bit, dir), g, bit, dir)
    ensures Ok(ipg, Given(s, g, bit, dir), dirs[g := dirs[g] - {bit}])
  {
    GiveGroupOk(ipg, s.maps[g], s.nifree[g], dirs[g], s.ndirs[g], bit, dir);
    SumAtLeast(s.ndirs, g);
    GivenGave(s, g, bit, dir);
    BecomesOk(ipg, s, dirs, Given(s, g, bit, dir), g, ClearBit(s.maps[g], bit), 1, -One(dir), dirs[g] - {bit});
  }

  // ---------------------------------------------------------------- inode numbers

  /** Group of inode ino, and place in the group; inodes count from 1. */
  function InoToCg(ipg: nat, ino: nat): nat
    requires ipg > 0 && ino > 0
  {
    (ino - 1) / ipg
  }

  function InoPlace(ipg: nat, ino: nat): (i: nat)
    requires ipg > 0 && ino > 0
    ensures i < ipg
  {
    (ino - 1) % ipg
  }

  lemma InoRoundTrip(ipg: nat, cg: nat, bit: nat)
    requires bit < ipg
    ensures InoToCg(ipg, cg * ipg + bit + 1) == cg && InoPlace(ipg, cg * ipg + bit + 1) == bit
  {
    DivModUnique(cg * ipg + bit, ipg, cg, bit);
  }

  lemma GroupOfIno(ipg: nat, gcount: nat, ino: nat)
    requires ipg > 0 && 0 < ino <= ipg * gcount
    ensures InoToCg(ipg, ino) < gcount
    ensures InoToCg(ipg, ino) * ipg + InoPlace(ipg, ino) + 1 == ino
  {
    DivMod(ino - 1, ipg);
    if InoToCg(ipg, ino) >= gcount {
      MulMono(ipg, gcount, InoToCg(ipg, ino));
    }
  }

  /** Inode number ino of group cg was free, and is in use now, among the directories if it is one. */
  ghost predicate TookIno(ipg: nat, s: Counts, s': Counts, dirs: seq<set<nat>>, dirs': seq<set<nat>>, cg: nat, ino: nat,
                          dir: bool) {
    && ipg > 0 && ino > 0 && cg < |dirs|
    && var bit := InoPlace(ipg, ino);
       InoToCg(ipg, ino) == cg && Took(s, s', cg, bit, dir) && dirs' == dirs[cg := Joined(dirs[cg], bit, dir)]
  }

  // ---------------------------------------------------------------- the calls

  class Allocator {
    const ipg: nat
    const gcount: nat

    var maps: seq<Bytes>       // inode bitmaps
    var nifree: seq<nat>       // free inodes of each group
    var ndirs: seq<nat>        // directories of each group
    var ficount: nat           // free inodes of the volume
    var totalDir: nat          // directories of the volume
    var locked: bool           // the mount lock is held
    ghost var dirs: seq<set<nat>>

    ghost function Now(): Counts
      reads this
    {
      Counts(maps, nifree, ndirs, ficount, totalDir)
    }

    ghost predicate Valid()
      reads this
    {
      Ok(ipg, Now(), dirs) && |dirs| == gcount
    }

    /** What mounting takes over from the volume; the total of directories is not on the disk, but summed up. */
    constructor (ipg: nat, s: Counts, ghost dirs: seq<set<nat>>)
      requires Ok(ipg, s, dirs)
      ensures Valid() && this.ipg == ipg && Now() == s && this.dirs == dirs && !locked
    {
      this.ipg, gcount, maps, nifree, ndirs := ipg, |s.maps|, s.maps, s.nifree, s.ndirs;
      ficount, totalDir, locked, this.dirs := s.ficount, 0, false, dirs;
      new;
      totalDir := TotalDirs(ndirs);
    }

    static method TotalDirs(ndirs: seq<nat>) returns (total: nat)
      ensures total == Sum(ndirs)
    {
      total := 0;
      var i := 0;
      while i < |ndirs|
        invariant 0 <= i <= |ndirs| && total == Sum(ndirs[..i])
      {
        assert ndirs[..i + 1][..i] == ndirs[..i];
        total := total + ndirs[i];
        i := i + 1;
      }
      assert ndirs[..i] == ndirs;
    }

    /** The place of the preferred inode; without a preference, or with one for the first inode, 0. */
    function Place(ipref: nat): (p: nat)
      requires ipg > 0
      ensures p < ipg
    {
      if ipref <= 1 then 0 else (ipref - 1) % ipg
    }

    /** The preferred inode of group cg is free. */
    ghost predicate Wanted(cg: nat, ipref: nat)
      requires Valid() && cg < gcount
      reads this
    {
      ipref > 1 && !Bits(maps[cg])[Place(ipref)]
    }

    /** The search looks past every free inode of group cg. */
    ghost predicate Misses(cg: nat, ipref: nat)
      requires Valid() && cg < gcount
      reads this
    {
      && !Wanted(cg, ipref)
      && ipg % 8 != 0 && ipg % 8 <= Place(ipref) % 8 && AllSet(maps[cg], 0, ipg - ipg % 8)
    }

    /** That never happens with the preferences ext2_valloc and ext2_hashalloc give, which are the first inode
        of the group and none, nor where groups end with a byte. */
    lemma NeverMisses(cg: nat, ipref: nat)
      requires Valid() && cg < gcount && (ipref == 0 || ipref == cg * ipg + 1 || ipg % 8 == 0)
      ensures !Misses(cg, ipref)
    {
      if ipref > 1 && ipg % 8 != 0 {
        DivModUnique(ipref - 1, ipg, cg, 0);
      }
    }

    /** The bit taken of bitmap m: that of the preferred inode if it is free, else the next clear one from its byte
        on, going round. */
    ghost predicate BitChosen(m: Bytes, ipref: nat, bit: int)
      requires 0 < ipg <= 8 * |m|
    {
      var p := Place(ipref);
      && 0 <= bit < 8 * |m| && !Bits(m)[bit]
      && if ipref > 1 && !Bits(m)[p] then bit == p
         else NextFree(m, 8 * (p / 8), 8 * (p / 8) + 8 * SearchLen(ipg, p), bit)
    }

    /** Which inode of group cg to take: the preferred one, else the next free one from its byte on. */
    method FindBit(cg: nat, ipref: nat) returns (bit: int)
      requires Valid() && cg < gcount && nifree[cg] > 0
      ensures bit == -1 <==> Misses(cg, ipref)
      ensures bit != -1 ==> BitChosen(maps[cg], ipref, bit)
    {
      assert GroupOk(ipg, maps[cg], nifree[cg], dirs[cg], ndirs[cg]);
      var p := Place(ipref);
      if ipref > 1 && !IsSet(maps[cg], p) {
        return p;
      }
      bit := Search(maps[cg], ipg, p);
      SeesNothingWhen(maps[cg], ipg, p);
    }

    /** ext2_nodealloccg: called with the lock held; when the group is full it is held again afterwards.  The
        panic over a corrupted map is reached exactly when the search misses the free inodes there are. */
    method NodeAllocCg(cg: nat, ipref: nat, dir: bool) returns (r: AllocResult)
      requires Valid() && locked && cg < gcount
      modifies this
      ensures Valid() && locked == r.GroupFull?
      ensures r.GroupFull? <==> old(nifree)[cg] == 0
      ensures r.MapCorrupted? <==> old(nifree)[cg] > 0 && old(Misses(cg, ipref))
      ensures !r.Inode? ==> Now() == old(Now()) && dirs == old(dirs)
      ensures r.Inode? ==> TookIno(ipg, old(Now()), Now(), old(dirs), dirs, cg, r.ino, dir)
      ensures r.Inode? ==> BitChosen(old(maps)[cg], ipref, InoPlace(ipg, r.ino))
    {
      if nifree[cg] == 0 {
        return GroupFull;
      }
      locked := false;
      var bit := FindBit(cg, ipref);
      if bit == -1 {
        return MapCorrupted;
      }
      TakeOk(ipg, Now(), dirs, cg, bit, dir);
      TakeBit(cg, bit, dir);
      var ino := Number(cg, bit);
      r := Inode(ino);
    }

    method Number(cg: nat, bit: nat) returns (ino: nat)
      requires bit < ipg
      ensures ino > 0 && InoToCg(ipg, ino) == cg && InoPlace(ipg, ino) == bit
    {
      InoRoundTrip(ipg, cg, bit);
      ino := cg * ipg + bit + 1;
    }

    /** The end of ext2_nodealloccg. */
    method TakeBit(cg: nat, bit: nat, dir: bool)
      requires cg < |maps| && cg < |nifree| && cg < |ndirs| && cg < |dirs| && bit < 8 * |maps[cg]|
      requires nifree[cg] > 0 && ficount > 0
      modifies this
      ensures Now() == Taken(old(Now()), cg, bit, dir) && !locked
      ensures dirs == old(dirs)[cg := Joined(old(dirs)[cg], bit, dir)]
    {
      maps := maps[cg := SetBit(maps[cg], bit)];
      locked := true;
      nifree := nifree[cg := nifree[cg] - 1];
      ficount := ficount - 1;
      dirs := dirs[cg := Joined(dirs[cg], bit, dir)];
      if dir {
        ndirs := ndirs[cg := ndirs[cg] + 1];
        totalDir := totalDir + 1;
      }
      locked := false;
    }

    /** ext2_vfree, on a file system mounted for writing; an inode is freed as what it was allocated. */
    method VFree(ino: nat, dir: bool) returns (r: FreeResult)
      requires Valid() && !locked && ino > 0
      requires ino <= ipg * gcount && InoToCg(ipg, ino) < gcount && Bits(maps[InoToCg(ipg, ino)])[InoPlace(ipg, ino)]
               ==> (dir <==> InoPlace(ipg, ino) in dirs[InoToCg(ipg, ino)])
      modifies this
      ensures Valid() && !locked
      ensures r.Freed? <==> ino <= ipg * gcount && InoToCg(ipg, ino) < gcount
                            && old(Bits(maps[InoToCg(ipg, ino)])[InoPlace(ipg, ino)])
      ensures r.Panic? ==> Now() == old(Now()) && dirs == old(dirs)
      ensures r.Freed? ==> Gave(old(Now()), Now(), InoToCg(ipg, ino), InoPlace(ipg, ino), dir)
    {
      if ino > ipg * gcount {
        return Panic;
      }
      GroupOfIno(ipg, gcount, ino);
      var cg, bit := InoToCg(ipg, ino), InoPlace(ipg, ino);
      assert GroupOk(ipg, maps[cg], nifree[cg], dirs[cg], ndirs[cg]);
      if !IsSet(maps[cg], bit) {
        return Panic;
      }
      GiveOk(ipg, Now(), dirs, cg, bit, dir);
      GiveBit(cg, bit, dir);
      r := Freed;
    }

    /** The end of ext2_vfree. */
    method GiveBit(cg: nat, bit: nat, dir: bool)
      requires cg < |maps| && cg < |nifree| && cg < |ndirs| && cg < |dirs| && bit < 8 * |maps[cg]|
      requires ndirs[cg] >= One(dir) && totalDir >= One(dir)
      modifies this
      ensures Now() == Given(old(Now()), cg, bit, dir) && !locked
      ensures dirs == old(dirs)[cg := old(dirs)[cg] - {bit}]
    {
      maps := maps[cg := ClearBit(maps[cg], bit)];
      locked := true;
      ficount := ficount + 1;
      nifree := nifree[cg := nifree[cg] + 1];
      dirs := dirs[cg := dirs[cg] - {bit}];
      if dir {
        ndirs := ndirs[cg := ndirs[cg] - 1];
        totalDir := totalDir - 1;
      }
      locked := false;
    }
  }
}
