/// How newfs_ext2fs chooses the number of groups, of inodes and of reserved descriptor blocks, and when what it
/// chooses can be laid out.
module NewfsSizes {
  import opened Arith
  import opened Options
  import opened GroupAllocator
  import opened Newfs

  const TWO32 := 0x1_0000_0000
  const MAXUINT16 := 0xffff
  const DESCRIPTOR := 32   // bytes of a group descriptor

  datatype SizesResult = Laid(l: Layout) | TooSmall | DivisionByZero

  /** Unsigned 32-bit arithmetic. */
  function Wrap(x: int): nat {
    x % TWO32
  }

  function FirstBlock(bsize: nat): nat {
    if bsize > 1024 then 0 else 1
  }

  /** Block sizes and inode sizes newfs accepts. */
  predicate SizesAllowed(bsize: nat, inodesize: nat) {
    (bsize == 1024 || bsize == 2048 || bsize == 4096) && (inodesize == 128 || inodesize == 256)
  }

  // ---------------------------------------------------------------- groups and inodes

  /** How the volume is divided: `last` blocks in the last of the ncg groups, gd descriptor blocks, and ipg inodes
      per group before they are rounded up. */
  datatype Division = Division(bcount: nat, ncg: nat, gd: nat, ipg: nat, last: nat)

  function DescriptorBlocks(bsize: nat, ncg: nat): nat
    requires bsize > 0
  {
    HowMany(DESCRIPTOR * ncg, bsize)
  }

  /** The number of inodes asked for, within its limits. */
  function InodesWanted(ncg: nat, ninodes: nat): (w: nat)
    ensures w < TWO32
  {
    var some := if ninodes < RESERVED_INODES + 1 then RESERVED_INODES + 1 else ninodes;
    if some > Wrap(MAXUINT16 * ncg) then Wrap(MAXUINT16 * ncg) else some
  }

  function InodesEach(ninodes: nat, ncg: nat): (k: nat)
    requires ncg > 0
    ensures k <= ninodes
  {
    DivMod(ninodes, ncg);
    MulMono(ninodes / ncg, 1, ncg);
    ninodes / ncg
  }

  function BlocksPerGroup(bsize: nat): (bpg: nat)
    ensures bsize > 0 ==> bpg > 0
  {
    8 * bsize
  }

  function Groups(blocks: nat, bpg: nat): (ncg: nat)
    requires bpg > 0 && blocks > 0
    ensures ncg > 0
  {
    HowManyIs(blocks, bpg);
    HowMany(blocks, bpg)
  }

  /** How many blocks the last group has. */
  function LastGroup(blocks: nat, bpg: nat): (last: nat)
    requires bpg > 0 && blocks > 0
    ensures 0 < last <= bpg && last <= blocks == bpg * (Groups(blocks, bpg) - 1) + last
  {
    HowManyIs(blocks, bpg);
    var before := bpg * (Groups(blocks, bpg) - 1);
    assert bpg * Groups(blocks, bpg) == before + bpg;
    MulMono(bpg, 0, Groups(blocks, bpg) - 1);
    blocks - before
  }

  /** The first attempt. */
  function Divide(bsize: nat, bcount: nat, ninodes: nat): (d: Division)
    requires bsize > 0 && bcount > FirstBlock(bsize)
    ensures d.ncg > 0 && d.bcount == bcount && 0 < d.last <= bcount - FirstBlock(bsize)
  {
    var blocks, bpg := bcount - FirstBlock(bsize), BlocksPerGroup(bsize);
    var ncg := Groups(blocks, bpg);
    Division(bcount, ncg, DescriptorBlocks(bsize, ncg), InodesEach(InodesWanted(ncg, ninodes), ncg), LastGroup(blocks, bpg))
  }

  /** The fewest blocks the last group must have. */
  ghost function Least(bsize: nat, inodesize: nat, d: Division, rev1: bool): nat
    requires bsize > 0 && d.ncg > 0
  {
    3 + HowMany(inodesize * d.ipg, bsize) + if !rev1 || Sparse(d.ncg - 1) then 1 + d.gd else 0
  }

  /** Without the last group; the inodes are divided among the others. */
  function DropLast(bsize: nat, d: Division, ninodes: nat): Division
    requires bsize > 0 && d.ncg > 1 && d.last <= d.bcount
  {
    var ncg := d.ncg - 1;
    Division(d.bcount - d.last, ncg, DescriptorBlocks(bsize, ncg), InodesEach(InodesWanted(d.ncg, ninodes), ncg), BlocksPerGroup(bsize))
  }

  // ---------------------------------------------------------------- reserved descriptor blocks

  /** How many descriptor blocks a volume 1024 times as large would need, as far as one pointer block can hold
      them. */
  function TargetBlocks(bsize: nat, blocks: nat): nat
    requires bsize > 0
  {
    var target := if blocks * 1024 > TWO32 - 1 then TWO32 - 1 else blocks * 1024;
    var ngdb := DescriptorBlocks(bsize, HowMany(target, BlocksPerGroup(bsize)));
    if ngdb > bsize / 4 then bsize / 4 else ngdb
  }

  /** How many of them are reserved, when the last group has `last` blocks and this overhead. */
  function Reserve(target: nat, gd: nat, last: nat, overhead: nat): nat {
    if Wrap(target - gd) >= Wrap(last - overhead) then Wrap(last - overhead) else Wrap(target - gd)
  }

  /** The layout that comes of a division. */
  ghost function LayoutOf(bsize: nat, inodesize: nat, d: Division, rev1: bool): Layout
    requires 0 < inodesize <= bsize && d.ncg > 0 && d.bcount >= FirstBlock(bsize)
  {
    var l := Unreserved(bsize, inodesize, d, rev1);
    if !rev1 then l
    else l.(reserved := Reserve(TargetBlocks(bsize, d.bcount - FirstBlock(bsize)), d.gd, d.last, Overhead(l, d.ncg - 1)))
  }

  function Unreserved(bsize: nat, inodesize: nat, d: Division, rev1: bool): Layout
    requires 0 < inodesize <= bsize
  {
    PerBlock(bsize, inodesize);
    var ipb := bsize / inodesize;
    Layout(Geometry(BlocksPerGroup(bsize), FirstBlock(bsize), d.bcount, d.ncg), HowMany(d.ipg, ipb), HowMany(d.ipg, ipb) * ipb, d.gd, 0, !rev1)
  }

  lemma PerBlock(bsize: nat, inodesize: nat)
    requires 0 < inodesize <= bsize
    ensures bsize / inodesize > 0
  {
    DivMod(bsize, inodesize);
  }

  /** The division newfs settles for: a last group that is too small is dropped.  None when it was the only one. */
  ghost function Chosen(bsize: nat, inodesize: nat, bcount: nat, ninodes: nat, rev1: bool): (c: Option<Division>)
    requires bsize > 0 && bcount > FirstBlock(bsize)
    ensures c.Some? ==> c.value.ncg > 0 && c.value.bcount >= FirstBlock(bsize)
  {
    var d := Divide(bsize, bcount, ninodes);
    if d.last >= Least(bsize, inodesize, d, rev1) then Some(d)
    else if d.ncg == 1 then None
    else Some(DropLast(bsize, d, ninodes))
  }

  /** What newfs chooses. */
  ghost function Sizes(bsize: nat, inodesize: nat, bcount: nat, ninodes: nat, rev1: bool): SizesResult
    requires SizesAllowed(bsize, inodesize)
  {
    if bcount < FirstBlock(bsize) + 7 then TooSmall
    else match Chosen(bsize, inodesize, bcount, ninodes, rev1)
      case None => DivisionByZero
      case Some(d) => Laid(LayoutOf(bsize, inodesize, d, rev1))
  }

  /** The computation in mke2fs; the number of blocks wraps nowhere. */
  method ChooseSizes(bsize: nat, inodesize: nat, bcount: nat, ninodes: nat, rev1: bool) returns (r: SizesResult)
    requires SizesAllowed(bsize, inodesize)
    ensures r == Sizes(bsize, inodesize, bcount, ninodes, rev1)
  {
    if bcount < FirstBlock(bsize) + 7 {
      return TooSmall;
    }
    var d := Choose(bsize, inodesize, bcount, ninodes, rev1);
    if d.None? {
      return DivisionByZero;
    }
    var l := LayOut(bsize, inodesize, d.value, rev1);
    r := Laid(l);
  }

  method Choose(bsize: nat, inodesize: nat, bcount: nat, ninodes: nat, rev1: bool) returns (c: Option<Division>)
    requires bsize > 0 && bcount > FirstBlock(bsize)
    ensures c == Chosen(bsize, inodesize, bcount, ninodes, rev1)
  {
    var d := Divide(bsize, bcount, ninodes);
    var sb := CgHasSb(d.ncg - 1);
    var least := 3 + HowMany(inodesize * d.ipg, bsize);
    if !rev1 || sb {
      least := least + 1 + d.gd;
    }
    if d.last >= least {
      return Some(d);
    }
    if d.ncg == 1 {
      return None;
    }
    c := Some(DropLast(bsize, d, ninodes));
  }

  method LayOut(bsize: nat, inodesize: nat, d: Division, rev1: bool) returns (l: Layout)
    requires 0 < inodesize <= bsize && d.ncg > 0 && d.bcount >= FirstBlock(bsize)
    ensures l == LayoutOf(bsize, inodesize, d, rev1)
  {
    l := Unreserved(bsize, inodesize, d, rev1);
    if rev1 {
      var overh := CgOverhead(l, d.ncg - 1);
      l := l.(reserved := Reserve(TargetBlocks(bsize, d.bcount - FirstBlock(bsize)), d.gd, d.last, overh));
    }
  }

  // ---------------------------------------------------------------- when the layout fits

  /** The inodes of a group fill whole bytes of its bitmap, include the reserved ones and fit in one block. */
  predicate InodesFit(l: Layout) {
    l.ipg % 8 == 0 && RESERVED_INODES <= l.ipg <= l.q.bpg
  }

  /** How many blocks the groups before the last one have. */
  function BlocksBefore(bsize: nat, ncg: nat): nat
    requires ncg > 0
  {
    var bpg, before := BlocksPerGroup(bsize), ncg - 1;
    MulMono(bpg, 0, before);
    bpg * before
  }

  /** A division of the whole volume, whose last group is full or has the least it must have. */
  ghost predicate Settled(bsize: nat, inodesize: nat, d: Division, rev1: bool) {
    && bsize > 0 && d.ncg > 0 && d.gd == DescriptorBlocks(bsize, d.ncg)
    && d.bcount == FirstBlock(bsize) + BlocksBefore(bsize, d.ncg) + d.last
    && 0 < d.last <= BlocksPerGroup(bsize)
    && (d.last == BlocksPerGroup(bsize) || d.last >= Least(bsize, inodesize, d, rev1))
  }

  lemma ChosenSettled(bsize: nat, inodesize: nat, bcount: nat, ninodes: nat, rev1: bool)
    requires bsize > 0 && bcount > FirstBlock(bsize) && Chosen(bsize, inodesize, bcount, ninodes, rev1).Some?
    ensures var d := Chosen(bsize, inodesize, bcount, ninodes, rev1).value;
            Settled(bsize, inodesize, d, rev1) && d.bcount <= bcount && d.ipg < TWO32
  {
    var d := Divide(bsize, bcount, ninodes);
    if d.last < Least(bsize, inodesize, d, rev1) {
      OneGroupLess(bsize, d.ncg);
    }
  }

  lemma OneGroupLess(bsize: nat, ncg: nat)
    requires ncg > 1
    ensures BlocksBefore(bsize, ncg) == BlocksBefore(bsize, ncg - 1) + BlocksPerGroup(bsize)
  {
    var bpg := BlocksPerGroup(bsize);
    assert bpg * (ncg - 1) == bpg * (ncg - 2) + bpg;
  }

  /** The groups before the last one are full. */
  lemma GroupSizes(bsize: nat, inodesize: nat, d: Division, rev1: bool, l: Layout, c: nat)
    requires 0 < inodesize <= bsize && Settled(bsize, inodesize, d, rev1) && l.q == Geometry(BlocksPerGroup(bsize), FirstBlock(bsize), d.bcount, d.ncg)
    requires c < d.ncg
    ensures BlocksIn(l.q, c) == if c + 1 == d.ncg then d.last else BlocksPerGroup(bsize)
  {
    assert c * l.q.bpg == l.q.bpg * c;
  }

  /** No group has more overhead than group 0. */
  lemma MostInFirst(l: Layout, c: nat)
    ensures Overhead(l, c) <= Overhead(l, 0)
  {
  }

  /** Inode tables take the same room whether inodes are rounded up to blocks or bytes are. */
  lemma TablesSame(bsize: nat, inodesize: nat, ipg: nat)
    requires SizesAllowed(bsize, inodesize)
    ensures HowMany(ipg, bsize / inodesize) == HowMany(inodesize * ipg, bsize)
  {
    var ipb := bsize / inodesize;
    var k := HowMany(ipg, ipb);
    HowManyIs(ipg, ipb);
    ScaledUp(inodesize, ipb, k, ipg);
    assert inodesize * ipb == bsize;
    HowManyLeast(inodesize * ipg, bsize, k);
  }

  lemma ScaledUp(s: nat, a: nat, k: nat, x: nat)
    requires s > 0
    ensures a * k >= x ==> s * a * k >= s * x
    ensures k > 0 && a * (k - 1) < x ==> s * a * (k - 1) < s * x
  {
    assert s * a * k == s * (a * k);
    if a * k >= x {
      MulMono(s, x, a * k);
    }
    if k > 0 && a * (k - 1) < x {
      assert s * a * (k - 1) == s * (a * (k - 1));
      MulBound(s, a * (k - 1), x, 0);
    }
  }

  /** A last group that was not dropped has room for its overhead, reserved blocks included. */
  lemma LastFits(bsize: nat, inodesize: nat, d: Division, rev1: bool)
    requires SizesAllowed(bsize, inodesize) && d.ncg > 0 && d.bcount >= FirstBlock(bsize) && d.last < TWO32
    requires d.last >= Least(bsize, inodesize, d, rev1)
    ensures Overhead(LayoutOf(bsize, inodesize, d, rev1), d.ncg - 1) <= d.last
  {
    var u := Unreserved(bsize, inodesize, d, rev1);
    BareFits(bsize, inodesize, d, rev1, u);
    if rev1 {
      RoomKept(TargetBlocks(bsize, d.bcount - FirstBlock(bsize)), d.gd, d.last, Overhead(u, d.ncg - 1));
    }
  }

  lemma BareFits(bsize: nat, inodesize: nat, d: Division, rev1: bool, u: Layout)
    requires SizesAllowed(bsize, inodesize) && d.ncg > 0 && u == Unreserved(bsize, inodesize, d, rev1)
    requires d.last >= Least(bsize, inodesize, d, rev1)
    ensures Overhead(u, d.ncg - 1) < d.last
  {
    TablesSame(bsize, inodesize, d.ipg);
  }

  /** What is reserved fits the last group. */
  lemma RoomKept(target: nat, gd: nat, last: nat, overhead: nat)
    requires overhead < last < TWO32
    ensures overhead + Reserve(target, gd, last, overhead) <= last
  {
    SmallMod(last - overhead, TWO32);
  }

  /** Of all that newfs leaves unchecked two things decide whether the layout is possible: the number of inodes of
      a group, and whether group 0 has room for its overhead. */
  lemma GroupZeroDecides(bsize: nat, inodesize: nat, bcount: nat, ninodes: nat, rev1: bool)
    requires SizesAllowed(bsize, inodesize) && Sizes(bsize, inodesize, bcount, ninodes, rev1).Laid?
    ensures var l := Sizes(bsize, inodesize, bcount, ninodes, rev1).l;
            LayoutOk(l) <==> InodesFit(l) && Overhead(l, 0) <= BlocksIn(l.q, 0)
  {
    var d := Chosen(bsize, inodesize, bcount, ninodes, rev1).value;
    ChosenSettled(bsize, inodesize, bcount, ninodes, rev1);
    var l := LayoutOf(bsize, inodesize, d, rev1);
    GroupSizes(bsize, inodesize, d, rev1, l, 0);
    if Overhead(l, 0) <= BlocksIn(l.q, 0) {
      forall c: nat | c < l.q.gcount
        ensures Overhead(l, c) <= BlocksIn(l.q, c) <= l.q.bpg
      {
        EachFits(bsize, inodesize, d, rev1, l, c);
      }
    }
    LayoutIs(bsize, inodesize, d, rev1, l);
  }

  lemma LayoutIs(bsize: nat, inodesize: nat, d: Division, rev1: bool, l: Layout)
    requires SizesAllowed(bsize, inodesize) && Settled(bsize, inodesize, d, rev1) && l == LayoutOf(bsize, inodesize, d, rev1)
    ensures GeometryOk(l.q) && l.q.gcount == d.ncg > 0
  {
  }

  lemma EachFits(bsize: nat, inodesize: nat, d: Division, rev1: bool, l: Layout, c: nat)
    requires SizesAllowed(bsize, inodesize) && Settled(bsize, inodesize, d, rev1) && l == LayoutOf(bsize, inodesize, d, rev1)
    requires Overhead(l, 0) <= BlocksIn(l.q, 0) && c < l.q.gcount
    ensures Overhead(l, c) <= BlocksIn(l.q, c) <= l.q.bpg
  {
    MostInFirst(l, c);
    GroupSizes(bsize, inodesize, d, rev1, l, 0);
    GroupSizes(bsize, inodesize, d, rev1, l, c);
    if c + 1 == d.ncg && d.last < BlocksPerGroup(bsize) {
      LastFits(bsize, inodesize, d, rev1);
    }
  }

  /** The descriptor blocks there are and those reserved fit one block of pointers, if the former do. */
  lemma ReservedFit(bsize: nat, inodesize: nat, d: Division)
    requires SizesAllowed(bsize, inodesize) && d.ncg > 0 && d.gd == DescriptorBlocks(bsize, d.ncg) <= bsize / 4
    requires FirstBlock(bsize) + BlocksBefore(bsize, d.ncg) < d.bcount < TWO32
    ensures d.gd + LayoutOf(bsize, inodesize, d, true).reserved <= bsize / 4
  {
    var blocks := d.bcount - FirstBlock(bsize);
    TargetEnough(bsize, blocks, d.ncg);
    var u := Unreserved(bsize, inodesize, d, true);
    AtMostTarget(TargetBlocks(bsize, blocks), d.gd, d.last, Overhead(u, d.ncg - 1));
  }

  lemma AtMostTarget(target: nat, gd: nat, last: nat, overhead: nat)
    requires gd <= target < TWO32
    ensures gd + Reserve(target, gd, last, overhead) <= target
  {
    SmallMod(target - gd, TWO32);
  }

  lemma TargetEnough(bsize: nat, blocks: nat, ncg: nat)
    requires bsize > 0 && ncg > 0 && BlocksBefore(bsize, ncg) < blocks < TWO32
    requires DescriptorBlocks(bsize, ncg) <= bsize / 4
    ensures DescriptorBlocks(bsize, ncg) <= TargetBlocks(bsize, blocks) <= bsize / 4
  {
    var target := if blocks * 1024 > TWO32 - 1 then TWO32 - 1 else blocks * 1024;
    HowManyLeast(target, BlocksPerGroup(bsize), ncg);
    HowManyMono(DESCRIPTOR * ncg, DESCRIPTOR * HowMany(target, BlocksPerGroup(bsize)), bsize);
  }

  /** On volumes whose descriptors fit one block of pointers only the inodes decide. */
  lemma InodesDecide(bsize: nat, inodesize: nat, bcount: nat, ninodes: nat)
    requires SizesAllowed(bsize, inodesize) && bcount < TWO32 && Sizes(bsize, inodesize, bcount, ninodes, true).Laid?
    requires Sizes(bsize, inodesize, bcount, ninodes, true).l.gdbcount <= bsize / 4
    ensures var l := Sizes(bsize, inodesize, bcount, ninodes, true).l; LayoutOk(l) <==> InodesFit(l)
  {
    GroupZeroDecides(bsize, inodesize, bcount, ninodes, true);
    ChosenSettled(bsize, inodesize, bcount, ninodes, true);
    var d := Chosen(bsize, inodesize, bcount, ninodes, true).value;
    var l := LayoutOf(bsize, inodesize, d, true);
    GroupSizes(bsize, inodesize, d, true, l, 0);
    if InodesFit(l) {
      if d.ncg == 1 && d.last < BlocksPerGroup(bsize) {
        LastFits(bsize, inodesize, d, true);
      } else {
        ReservedFit(bsize, inodesize, d);
        TableBlocks(bsize, inodesize, l.itpg);
      }
    }
  }

  lemma TableBlocks(bsize: nat, inodesize: nat, itpg: nat)
    requires SizesAllowed(bsize, inodesize) && itpg * (bsize / inodesize) <= BlocksPerGroup(bsize)
    ensures 3 + itpg + bsize / 4 <= BlocksPerGroup(bsize)
  {
    MulMono(itpg, 4, bsize / inodesize);
  }

  // ---------------------------------------------------------------- what the layout is

  /** Each group has the blocks one bitmap block has bits for, and the descriptor blocks are as few as hold the
      descriptors. */
  ghost predicate GroupsMeasured(bsize: nat, l: Layout) {
    && bsize > 0 && l.q.bpg == 8 * bsize && l.q.first == (if bsize == 1024 then 1 else 0) && l.q.gcount > 0
    && l.gdbcount * bsize >= DESCRIPTOR * l.q.gcount > (l.gdbcount - 1) * bsize
  }

  /** The volume is used to its end, and the last group has at least one block beyond its overhead, reserved blocks
      not counted; ... */
  ghost predicate AllUsed(bcount: nat, l: Layout) {
    l.q.gcount > 0 && l.q.bcount == bcount > CgBase(l.q, l.q.gcount - 1) && RoomInLast(l) > 0 && BlocksIn(l.q, l.q.gcount - 1) <= l.q.bpg
  }

  /** ... or what is left behind the last group is too small for that, if it had its share of the inodes. */
  ghost predicate RestDropped(bsize: nat, inodesize: nat, bcount: nat, ninodes: nat, l: Layout)
    requires bsize > 0
  {
    && l.q.bcount == CgBase(l.q, l.q.gcount) < bcount
    && bcount - l.q.bcount <= 2 + HowMany(inodesize * (ninodes / (l.q.gcount + 1)), bsize)
                              + if HasSb(l, l.q.gcount) then 1 + HowMany(DESCRIPTOR * (l.q.gcount + 1), bsize) else 0
  }

  /** The number of inodes is within its limits. */
  predicate InodesAllowed(l: Layout, ninodes: nat) {
    RESERVED_INODES < ninodes <= MAXUINT16 * l.q.gcount && MAXUINT16 * (l.q.gcount + 1) < TWO32
  }

  /** Every group has its share of the inodes, rounded up so that the tables are full. */
  ghost predicate InodesShared(bsize: nat, inodesize: nat, ninodes: nat, l: Layout)
    requires l.q.gcount > 0 && inodesize > 0
  {
    && l.ipg * inodesize == l.itpg * bsize
    && ninodes / l.q.gcount <= l.ipg < ninodes / l.q.gcount + bsize / inodesize
  }

  lemma LayoutMeans(bsize: nat, inodesize: nat, bcount: nat, ninodes: nat, rev1: bool)
    requires SizesAllowed(bsize, inodesize) && Sizes(bsize, inodesize, bcount, ninodes, rev1).Laid?
    ensures var l := Sizes(bsize, inodesize, bcount, ninodes, rev1).l;
            && GroupsMeasured(bsize, l) && l.everySb == !rev1
            && (InodesAllowed(l, ninodes) ==>
                  InodesShared(bsize, inodesize, ninodes, l)
                  && (AllUsed(bcount, l) || RestDropped(bsize, inodesize, bcount, ninodes, l)))
  {
    var d := Chosen(bsize, inodesize, bcount, ninodes, rev1).value;
    ChosenSettled(bsize, inodesize, bcount, ninodes, rev1);
    var l := LayoutOf(bsize, inodesize, d, rev1);
    Measured(bsize, inodesize, d, rev1);
    if InodesAllowed(l, ninodes) {
      Shared(bsize, inodesize, d, rev1, ninodes, bcount);
      if Divide(bsize, bcount, ninodes) == d {
        AllOfIt(bsize, inodesize, d, rev1);
      } else {
        TheRest(bsize, inodesize, bcount, ninodes, rev1, d);
      }
    }
  }

  lemma Measured(bsize: nat, inodesize: nat, d: Division, rev1: bool)
    requires SizesAllowed(bsize, inodesize) && Settled(bsize, inodesize, d, rev1)
    ensures GroupsMeasured(bsize, LayoutOf(bsize, inodesize, d, rev1))
  {
    HowManyIs(DESCRIPTOR * d.ncg, bsize);
    assert d.gd * bsize == bsize * d.gd && (d.gd - 1) * bsize == bsize * (d.gd - 1);
  }

  lemma Shared(bsize: nat, inodesize: nat, d: Division, rev1: bool, ninodes: nat, bcount: nat)
    requires SizesAllowed(bsize, inodesize) && bcount > FirstBlock(bsize)
    requires Chosen(bsize, inodesize, bcount, ninodes, rev1) == Some(d)
    requires RESERVED_INODES < ninodes <= MAXUINT16 * d.ncg && MAXUINT16 * (d.ncg + 1) < TWO32
    ensures d.ncg > 0 && d.ipg == ninodes / d.ncg
    ensures InodesShared(bsize, inodesize, ninodes, LayoutOf(bsize, inodesize, d, rev1))
  {
    SmallMod(MAXUINT16 * d.ncg, TWO32);
    SmallMod(MAXUINT16 * (d.ncg + 1), TWO32);
    assert d.ncg > 0 && d.ipg == ninodes / d.ncg;
    RoundedUp(bsize, inodesize, d, rev1);
  }

  lemma RoundedUp(bsize: nat, inodesize: nat, d: Division, rev1: bool)
    requires SizesAllowed(bsize, inodesize) && d.ncg > 0 && d.bcount >= FirstBlock(bsize)
    ensures var l := LayoutOf(bsize, inodesize, d, rev1);
            l.ipg * inodesize == l.itpg * bsize && d.ipg <= l.ipg < d.ipg + bsize / inodesize && l.q.gcount == d.ncg
  {
    var ipb, k := bsize / inodesize, HowMany(d.ipg, bsize / inodesize);
    RoundUp(d.ipg, ipb);
    Product(k, ipb, inodesize);
    assert ipb * inodesize == bsize;
  }

  lemma Product(k: nat, a: nat, b: nat)
    ensures k * a * b == k * (a * b)
  {
  }

  lemma RoundUp(x: nat, y: nat)
    requires y > 0
    ensures x <= HowMany(x, y) * y < x + y
  {
    HowManyIs(x, y);
    assert HowMany(x, y) * y == y * HowMany(x, y);
    if HowMany(x, y) > 0 {
      assert y * HowMany(x, y) == y * (HowMany(x, y) - 1) + y;
    }
  }

  lemma AllOfIt(bsize: nat, inodesize: nat, d: Division, rev1: bool)
    requires SizesAllowed(bsize, inodesize) && Settled(bsize, inodesize, d, rev1)
    requires d.last >= Least(bsize, inodesize, d, rev1)
    ensures AllUsed(d.bcount, LayoutOf(bsize, inodesize, d, rev1))
  {
    var l, u := LayoutOf(bsize, inodesize, d, rev1), Unreserved(bsize, inodesize, d, rev1);
    GroupSizes(bsize, inodesize, d, rev1, l, d.ncg - 1);
    BareFits(bsize, inodesize, d, rev1, u);
    assert l.(reserved := 0) == u;
  }

  lemma TheRest(bsize: nat, inodesize: nat, bcount: nat, ninodes: nat, rev1: bool, d: Division)
    requires SizesAllowed(bsize, inodesize) && bcount > FirstBlock(bsize)
    requires Chosen(bsize, inodesize, bcount, ninodes, rev1) == Some(d) && Divide(bsize, bcount, ninodes) != d
    requires RESERVED_INODES < ninodes <= MAXUINT16 * d.ncg && MAXUINT16 * (d.ncg + 1) < TWO32
    ensures RestDropped(bsize, inodesize, bcount, ninodes, LayoutOf(bsize, inodesize, d, rev1))
  {
    var d0, bpg := Divide(bsize, bcount, ninodes), BlocksPerGroup(bsize);
    SmallMod(MAXUINT16 * (d.ncg + 1), TWO32);
    assert d0.ncg == d.ncg + 1 && d0.ipg == ninodes / (d.ncg + 1);
    assert d.ncg * bpg == bpg * d.ncg;
  }

  /** k blocks hold the descriptors of a volume of that many blocks. */
  predicate HoldDescriptors(bsize: nat, k: nat, blocks: nat)
    requires bsize > 0
  {
    k * bsize >= DESCRIPTOR * HowMany(blocks, 8 * bsize)
  }

  lemma HoldsWhen(bsize: nat, k: nat, blocks: nat)
    requires bsize > 0
    ensures HoldDescriptors(bsize, k, blocks) <==> DescriptorBlocks(bsize, HowMany(blocks, BlocksPerGroup(bsize))) <= k
  {
    var bytes := DESCRIPTOR * HowMany(blocks, BlocksPerGroup(bsize));
    HowManyIs(bytes, bsize);
    HowManyLeast(bytes, bsize, k);
    assert k * bsize == bsize * k;
    if HowMany(bytes, bsize) <= k {
      MulMono(bsize, HowMany(bytes, bsize), k);
    }
  }

  /** How many blocks a volume may grow to: 1024 times as many as it has, as far as their number fits its type. */
  function Grown(blocks: nat): nat {
    if 1024 * blocks < TWO32 then 1024 * blocks else TWO32 - 1
  }

  function GrownBlocks(l: Layout): nat
    requires l.q.bcount >= l.q.first
  {
    Grown(l.q.bcount - l.q.first)
  }

  /** The blocks the last group has beyond its overhead, reserved blocks not counted. */
  ghost function RoomInLast(l: Layout): int
    requires l.q.gcount > 0
  {
    BlocksIn(l.q, l.q.gcount - 1) - Overhead(l.(reserved := 0), l.q.gcount - 1)
  }

  /** With the reserved blocks the volume can grow as far as that, unless a pointer block names no more or the last
      group has no more room; and it would not do with one block less. */
  ghost predicate ReservesEnough(bsize: nat, l: Layout)
    requires bsize > 0
  {
    && l.q.gcount > 0 && l.q.bcount >= l.q.first
    && (HoldDescriptors(bsize, l.gdbcount + l.reserved, GrownBlocks(l))
        || l.gdbcount + l.reserved == bsize / 4 || l.reserved == RoomInLast(l))
    && (l.reserved > 0 ==> l.gdbcount + l.reserved <= bsize / 4
                           && !HoldDescriptors(bsize, l.gdbcount + l.reserved - 1, GrownBlocks(l)))
  }

  lemma ReservedToGrow(bsize: nat, inodesize: nat, bcount: nat, ninodes: nat)
    requires SizesAllowed(bsize, inodesize) && bcount < TWO32 && Sizes(bsize, inodesize, bcount, ninodes, true).Laid?
    requires Sizes(bsize, inodesize, bcount, ninodes, true).l.gdbcount <= bsize / 4
    ensures ReservesEnough(bsize, Sizes(bsize, inodesize, bcount, ninodes, true).l)
  {
    var d := Chosen(bsize, inodesize, bcount, ninodes, true).value;
    ChosenSettled(bsize, inodesize, bcount, ninodes, true);
    OverheadBound(bsize, inodesize, d, d.ncg - 1);
    DivisionReserves(bsize, inodesize, d);
  }

  lemma DivisionReserves(bsize: nat, inodesize: nat, d: Division)
    requires SizesAllowed(bsize, inodesize) && Settled(bsize, inodesize, d, true) && d.bcount < TWO32 && d.gd <= bsize / 4
    requires Overhead(Unreserved(bsize, inodesize, d, true), d.ncg - 1) <= TWO32 / 2
    ensures ReservesEnough(bsize, LayoutOf(bsize, inodesize, d, true))
  {
    var blocks, overhead := d.bcount - FirstBlock(bsize), Overhead(Unreserved(bsize, inodesize, d, true), d.ncg - 1);
    TargetEnough(bsize, blocks, d.ncg);
    RoomIs(bsize, inodesize, d);
    GrowsTo(bsize, blocks, d.gd, d.last, overhead, LayoutOf(bsize, inodesize, d, true).reserved);
  }

  lemma RoomIs(bsize: nat, inodesize: nat, d: Division)
    requires SizesAllowed(bsize, inodesize) && Settled(bsize, inodesize, d, true)
    ensures var l := LayoutOf(bsize, inodesize, d, true);
            RoomInLast(l) == d.last - Overhead(Unreserved(bsize, inodesize, d, true), d.ncg - 1)
  {
    var l := LayoutOf(bsize, inodesize, d, true);
    GroupSizes(bsize, inodesize, d, true, l, d.ncg - 1);
    assert l.(reserved := 0) == Unreserved(bsize, inodesize, d, true);
  }

  lemma GrowsTo(bsize: nat, blocks: nat, gd: nat, last: nat, overhead: nat, r: nat)
    requires bsize > 0 && gd <= TargetBlocks(bsize, blocks) <= bsize / 4 <= TWO32 / 2 && last <= TWO32 / 2
    requires overhead <= TWO32 / 2 && r == Reserve(TargetBlocks(bsize, blocks), gd, last, overhead)
    ensures HoldDescriptors(bsize, gd + r, Grown(blocks)) || gd + r == bsize / 4 || r == last - overhead
    ensures r > 0 ==> gd + r <= bsize / 4 && !HoldDescriptors(bsize, gd + r - 1, Grown(blocks))
  {
    ReserveIs(TargetBlocks(bsize, blocks), gd, last, overhead);
    TargetHolds(bsize, blocks, gd + r);
    if r > 0 {
      TargetHolds(bsize, blocks, gd + r - 1);
    }
  }

  lemma TargetHolds(bsize: nat, blocks: nat, k: nat)
    requires bsize > 0
    ensures k == TargetBlocks(bsize, blocks) ==> HoldDescriptors(bsize, k, Grown(blocks)) || k == bsize / 4
    ensures k < TargetBlocks(bsize, blocks) ==> !HoldDescriptors(bsize, k, Grown(blocks))
  {
    HoldsWhen(bsize, k, Grown(blocks));
  }

  /** What is reserved, when nothing wraps: all that the target asks for, or all the room there is. */
  lemma ReserveIs(target: nat, gd: nat, last: nat, overhead: nat)
    requires gd <= target <= TWO32 / 2 && last <= TWO32 / 2 && overhead <= TWO32 / 2
    ensures var r := Reserve(target, gd, last, overhead);
            (gd + r == target || (overhead <= last && r == last - overhead)) && (r > 0 ==> gd + r <= target)
  {
    SmallMod(target - gd, TWO32);
    if overhead <= last {
      SmallMod(last - overhead, TWO32);
    } else {
      SmallMod(TWO32 - (overhead - last), TWO32);
    }
  }

  /** Nor does it in the overhead of a group. */
  lemma OverheadBound(bsize: nat, inodesize: nat, d: Division, c: nat)
    requires SizesAllowed(bsize, inodesize) && d.gd <= bsize / 4 && d.ipg < TWO32
    ensures Overhead(Unreserved(bsize, inodesize, d, true), c) <= TWO32 / 2
  {
    var ipb := bsize / inodesize;
    assert ipb >= 4;
    TableBound(d.ipg, ipb);
    assert Unreserved(bsize, inodesize, d, true).itpg == HowMany(d.ipg, ipb);
  }

  lemma TableBound(ipg: nat, ipb: nat)
    requires ipg < TWO32 && ipb >= 4
    ensures HowMany(ipg, ipb) <= TWO32 / 4
  {
    MulMono(TWO32 / 4, 4, ipb);
    HowManyLeast(ipg, ipb, TWO32 / 4);
  }

  /** A last group too small for its inode table is dropped, and the other group gets all the inodes: its table is
      twice the size of the group. */
  lemma TableTooLarge()
    ensures var r := Sizes(1024, 128, 8293, 131070, true);
            r.Laid? && r.l.itpg == 16384 && r.l.q.bpg == 8192 && r.l.q.gcount == 1 && !LayoutOk(r.l)
  {
    var d := Divide(1024, 8293, 131070);
    assert d == Division(8293, 2, 1, 65535, 100);
    assert d.last < Least(1024, 128, d, true);
    assert DropLast(1024, d, 131070) == Division(8193, 1, 1, 131070, 8192);
    GroupZeroDecides(1024, 128, 8293, 131070, true);
  }

  /** A single group too small for its inode table is dropped as well, and the inodes are divided by 0. */
  lemma NoGroupLeft()
    ensures Sizes(1024, 128, 101, 1000, true) == DivisionByZero
  {
    var d := Divide(1024, 101, 1000);
    assert d == Division(101, 1, 1, 1000, 100);
  }
}
