/// The block allocator of the kernel extension, one call at a time: the search of one group's bitmap, the
/// probe over the groups, and freeing.  Interleavings of several callers are the subject of AllocProtocol.
module GroupAllocator {
  import opened Arith
  import opened Bitmap

  datatype AllocResult = Block(b: nat) | ENOSPC

  // ---------------------------------------------------------------- block numbers

  /** Group number and place in the group of block d; `first` is the first data block. */
  function DtoG(bpg: nat, first: nat, d: nat): nat
    requires bpg > 0 && first <= d
  {
    (d - first) / bpg
  }

  function DtoGd(bpg: nat, first: nat, d: nat): (i: nat)
    requires bpg > 0 && first <= d
    ensures i < bpg
  {
    (d - first) % bpg
  }

  function GroupBlock(bpg: nat, first: nat, cg: nat, bno: nat): nat {
    cg * bpg + first + bno
  }

  /** The number handed out names the same group and bit again, and every block number is of that form. */
  lemma GroupRoundTrip(bpg: nat, first: nat, cg: nat, bno: nat)
    requires bno < bpg
    ensures first <= GroupBlock(bpg, first, cg, bno)
    ensures DtoG(bpg, first, GroupBlock(bpg, first, cg, bno)) == cg
    ensures DtoGd(bpg, first, GroupBlock(bpg, first, cg, bno)) == bno
  {
    DivModUnique(GroupBlock(bpg, first, cg, bno) - first, bpg, cg, bno);
  }

  lemma BlockRoundTrip(bpg: nat, first: nat, d: nat)
    requires bpg > 0 && first <= d
    ensures GroupBlock(bpg, first, DtoG(bpg, first, d), DtoGd(bpg, first, d)) == d
  {
    DivMod(d - first, bpg);
  }

  // ---------------------------------------------------------------- searching one bitmap

  /** The first byte in [from, from + len) that is not all ones; -1 if there is none. */
  method Memcchr(m: Bytes, from: nat, len: nat) returns (loc: int)
    requires from + len <= |m|
    ensures loc == -1 ==> forall i :: from <= i < from + len ==> m[i] == 0xff
    ensures loc != -1 ==> from <= loc < from + len && m[loc] != 0xff
    ensures loc != -1 ==> forall i :: from <= i < loc ==> m[i] == 0xff
  {
    loc := from;
    while loc < from + len
      invariant from <= loc <= from + len
      invariant forall i :: from <= i < loc ==> m[i] == 0xff
    {
      if m[loc] != 0xff {
        return;
      }
      loc := loc + 1;
    }
    loc := -1;
  }

  /** The first clear bit, when byte loc is the first one from byte lo on that is not full. */
  method FirstClear(m: Bytes, lo: nat, loc: nat) returns (bit: nat)
    requires lo <= loc < |m| && m[loc] != 0xff && forall i :: lo <= i < loc ==> m[i] == 0xff
    ensures 8 * loc <= bit < 8 * loc + 8 && !Bits(m)[bit] && AllSet(m, 8 * lo, bit)
  {
    LowestClear(m[loc]);
    FullBytes(m, lo, loc);
    bit := loc * 8 + Ffs(!m[loc]) - 1;
    BitIn(m, loc, bit - 8 * loc);
    forall j | 8 * lo <= j < bit
      ensures Bits(m)[j]
    {
      if j >= 8 * loc {
        BitIn(m, loc, j - 8 * loc);
      }
    }
  }

  /** ext2_mapsearch from byte `start` on: the first clear bit, going round, whenever there is one, so the
      corrupted-map panic is not reached. */
  method MapSearch(m: Bytes, start: nat) returns (bno: nat)
    requires start < |m| && NumClear(m) > 0
    ensures NextFree(m, 8 * start, 8 * |m|, bno)
  {
    var loc := Memcchr(m, start, |m| - start);
    FullBytes(m, start, |m|);
    var lo := start;
    if loc == -1 {
      loc := Memcchr(m, 0, start + 1);
      if loc == -1 {
        FullMap(m);
        assert false;
      }
      lo := 0;
    }
    bno := FirstClear(m, lo, loc);
  }

  lemma FullMap(m: Bytes)
    requires forall i :: 0 <= i < |m| ==> m[i] == 0xff
    ensures NumClear(m) == 0
  {
    SomeClear(m);
    forall i | 0 <= i < 8 * |m|
      ensures Bits(m)[i]
    {
      BitAt(m, i);
      ByteFull(m[i / 8]);
      assert 0 <= i % 8 < 8;
    }
  }

  /** There are no eight clear bits in a row between bits lo and hi. */
  ghost predicate NoRun(m: Bytes, lo: int, hi: int) {
    forall p :: lo <= p && p + 8 <= hi ==> !RunAt(m, p)
  }

  ghost predicate RunAt(m: Bytes, p: int) {
    ClearRun(m, p, p + 8)
  }

  /** The clear bits counted so far are the last runlen before byte loc, and cannot be extended backward;
      nothing before them is long enough. */
  ghost predicate Scanning(m: Bytes, from: nat, loc: nat, runlen: int, runstart: int) {
    && from <= loc <= |m| && 0 <= runlen < 8 && 8 * from <= 8 * loc - runlen
    && (runlen > 0 ==> runstart == 8 * loc - runlen)
    && ClearRun(m, 8 * loc - runlen, 8 * loc)
    && (8 * loc - runlen > 8 * from ==> Bits(m)[8 * loc - runlen - 1])
    && NoRun(m, 8 * from, 8 * loc)
  }

  /** Bit p is the first one from bit lo on with eight clear bits in a row, ... */
  ghost predicate FirstRun(m: Bytes, lo: int, p: int) {
    lo <= p && RunAt(m, p) && NoRun(m, lo, p + 7)
  }

  /** One pass of the search for eight clear bits in a row, over bytes [from, to): the first such run starts
      where it says, or there is none. */
  method RunPass(m: Bytes, from: nat, to: int) returns (bno: int)
    requires from <= |m| && to <= |m|
    ensures bno == -1 ==> NoRun(m, 8 * from, 8 * to)
    ensures bno != -1 ==> bno + 8 <= 8 * to && FirstRun(m, 8 * from, bno)
  {
    var loc, runlen, runstart := from, 0, 0;
    while loc < to
      invariant Scanning(m, from, loc, runlen, runstart) && (loc <= to || loc == from)
    {
      var found;
      found, runlen, runstart := ScanByte(m, from, loc, runlen, runstart);
      if found {
        return runstart;
      }
      loc := loc + 1;
    }
    return -1;
  }

  /** One byte of the search: the run goes on, ends in time, or a new one starts. */
  method ScanByte(m: Bytes, ghost from: nat, loc: nat, runlen0: nat, runstart0: int)
    returns (found: bool, runlen: nat, runstart: int)
    requires loc < |m| && Scanning(m, from, loc, runlen0, runstart0)
    ensures found ==> runstart + 8 <= 8 * loc + 8 && FirstRun(m, 8 * from, runstart)
    ensures !found ==> Scanning(m, from, loc + 1, runlen, runstart)
  {
    runlen, runstart := runlen0, runstart0;
    NoneEarlier(m, from, loc, runlen0, runstart0);
    if m[loc] == 0xff {
      FullByte(m, loc);
      NoRunLonger(m, from, loc, runlen0, 0);
      return false, 0, runstart;
    }
    if runlen == 0 {
      var bit := Fls(m[loc]);
      runlen, runstart := 8 - bit, loc * 8 + bit;
      if m[loc] != 0 {
        NewRun(m, from, loc, 0, runstart0);
      } else {
        LowClear(m, loc, 8 * loc, 0, 8);
      }
    } else if m[loc] == 0 {
      LowClear(m, loc, runstart, runlen, 8);
      runlen := runlen + 8;
    } else {
      var bit := Ffs(m[loc]) - 1;
      LowClear(m, loc, runstart, runlen, bit);
      runlen := runlen + bit;
      if runlen >= 8 {
        return true, runlen, runstart;
      }
      NewRun(m, from, loc, runlen0, runstart0);
      bit := Fls(m[loc]);
      runlen, runstart := 8 - bit, loc * 8 + bit;
    }
    found := runlen >= 8;
  }

  /** A run that starts before the clear bits counted so far would reach into the set bit before them. */
  lemma NoneEarlier(m: Bytes, from: nat, loc: nat, runlen: nat, runstart: int)
    requires Scanning(m, from, loc, runlen, runstart)
    ensures NoRun(m, 8 * from, 8 * loc - runlen + 7)
  {
    var w := 8 * loc - runlen - 1;
    forall p | 8 * from <= p && p + 8 <= 8 * loc - runlen + 7
      ensures !RunAt(m, p)
    {
      assert p + 8 > 8 * loc ==> p <= w < p + 8 && Bits(m)[w];
    }
  }

  /** A byte that is neither empty nor the end of a long enough run: the run starts again at its high clear
      bits. */
  lemma NewRun(m: Bytes, from: nat, loc: nat, runlen: nat, runstart: int)
    requires loc < |m| && Scanning(m, from, loc, runlen, runstart) && m[loc] != 0
    requires runlen + Ffs(m[loc]) - 1 < 8
    ensures 0 <= 8 - Fls(m[loc]) < 8
    ensures Scanning(m, from, loc + 1, 8 - Fls(m[loc]), loc * 8 + Fls(m[loc]))
  {
    HighClear(m, loc);
    LowBits(m, loc);
    NoRunLonger(m, from, loc, runlen, Ffs(m[loc]) - 1);
  }

  lemma FullByte(m: Bytes, loc: nat)
    requires loc < |m| && m[loc] == 0xff
    ensures Bits(m)[8 * loc] && Bits(m)[8 * loc + 7]
  {
    ByteFull(0xff);
    BitIn(m, loc, 0);
    BitIn(m, loc, 7);
  }

  /** The lowest bit set of a byte is set in the map. */
  lemma LowBits(m: Bytes, loc: nat)
    requires loc < |m| && m[loc] != 0
    ensures 0 <= Ffs(m[loc]) - 1 < 8 && Bits(m)[8 * loc + Ffs(m[loc]) - 1]
  {
    BitIn(m, loc, Ffs(m[loc]) - 1);
  }

  /** With a set bit `low` bits into the byte, and fewer than eight clear bits up to there, no run ends in it. */
  lemma NoRunLonger(m: Bytes, from: nat, loc: nat, runlen: nat, low: nat)
    requires from <= loc < |m| && NoRun(m, 8 * from, 8 * loc) && runlen + low < 8
    requires 8 * loc - runlen > 8 * from ==> Bits(m)[8 * loc - runlen - 1]
    requires low < 8 && Bits(m)[8 * loc + low]
    ensures NoRun(m, 8 * from, 8 * loc + 8)
  {
    forall p | 8 * from <= p && p + 8 <= 8 * loc + 8
      ensures !RunAt(m, p)
    {
      var w := if 8 * loc + low < p + 8 then 8 * loc + low else 8 * loc - runlen - 1;
      assert p + 8 > 8 * loc ==> p <= w < p + 8 && Bits(m)[w];
    }
  }

  /** The bits of a byte above the highest one set are clear. */
  lemma HighClear(m: Bytes, loc: nat)
    requires loc < |m|
    ensures ClearRun(m, loc * 8 + Fls(m[loc]), loc * 8 + 8)
    ensures Fls(m[loc]) > 0 ==> Bits(m)[loc * 8 + Fls(m[loc]) - 1]
  {
    var s, k := Bits(m), Fls(m[loc]);
    forall i | loc * 8 + k <= i < loc * 8 + 8
      ensures !s[i]
    {
      BitIn(m, loc, i - 8 * loc);
    }
    if k > 0 {
      BitIn(m, loc, k - 1);
    }
  }

  /** A run of clear bits goes on through the low clear bits of the next byte. */
  lemma LowClear(m: Bytes, loc: nat, runstart: int, runlen: int, bit: nat)
    requires loc < |m| && runstart + runlen == 8 * loc && bit <= 8
    requires ClearRun(m, runstart, runstart + runlen)
    requires forall k :: 0 <= k < bit ==> !ByteBit(m[loc], k)
    ensures ClearRun(m, runstart, runstart + runlen + bit)
  {
    var s := Bits(m);
    forall i | runstart <= i < runstart + runlen + bit
      ensures !s[i]
    {
      if i >= 8 * loc {
        BitIn(m, loc, i - 8 * loc);
      }
    }
  }

  /** No run of eight lies in the parts of the map the search looks at: from byte `start` on, up to as many bytes
      before the end, and before that byte. */
  ghost predicate NoneSeen(m: Bytes, start: nat) {
    NoRun(m, 8 * start, 8 * (|m| - start)) && NoRun(m, 0, 8 * start)
  }

  /** Bit p starts the first run from byte `start` on, or the first of all when there is none in that part. */
  ghost predicate RunChosen(m: Bytes, start: nat, p: int) {
    FirstRun(m, 8 * start, p) || (NoRun(m, 8 * start, 8 * (|m| - start)) && FirstRun(m, 0, p))
  }

  /** The search for eight clear bits: first from byte `start`, then from the start of the map.  It finds such
      a run exactly when there is one in the two parts it looks at; the bound of its first pass leaves out
      the last `start` bytes. */
  method RunSearch(m: Bytes, start: nat) returns (bno: int)
    requires start < |m|
    ensures bno == -1 <==> NoneSeen(m, start)
    ensures bno != -1 ==> RunChosen(m, start, bno)
  {
    bno := RunPass(m, start, |m| - start);
    if bno == -1 && start != 0 {
      bno := RunPass(m, 0, start);
    }
    assert bno != -1 ==> RunAt(m, bno);
  }

  /** It misses runs: four bytes, the first three full and the last one empty, searched from byte 1. */
  lemma MissedRun()
    ensures var m: Bytes := [0xff, 0xff, 0xff, 0];
            ClearRun(m, 24, 32) && NoRun(m, 8 * 1, 8 * (|m| - 1)) && NoRun(m, 0, 8 * 1)
  {
    var m: Bytes := [0xff, 0xff, 0xff, 0];
    ByteZero();
    ByteFull(0xff);
    var s := Bits(m);
    forall i | 0 <= i < 32
      ensures s[i] == (i < 24)
    {
      BitAt(m, i);
      assert m[i / 8] == (if i < 24 then 0xff else 0) && 0 <= i % 8 < 8;
    }
    forall p | 0 <= p && p + 8 <= 24
      ensures !RunAt(m, p)
    {
      assert Bits(m)[p];
    }
  }

  // ---------------------------------------------------------------- the counts of all groups

  datatype Geometry = Geometry(
    bpg: nat,      // blocks per group
    first: nat,    // first data block: 1 with blocks of 1K, else 0
    bcount: nat,   // blocks on the volume
    gcount: nat)   // groups

  /** The bitmaps, the free count of each group and the free count of the volume. */
  datatype Counts = Counts(maps: seq<Bytes>, nbfree: seq<nat>, fbcount: nat)

  ghost predicate GeometryOk(q: Geometry) {
    0 < q.bpg && q.bpg % 8 == 0 && q.first <= 1 && 0 < q.gcount
  }

  ghost predicate InVolume(q: Geometry, g: nat, j: nat) {
    0 < GroupBlock(q.bpg, q.first, g, j) < q.bcount
  }

  /** The count of group g is that of its bitmap; bits past the end of the volume are set, and so is the
      bit of block 0. */
  ghost predicate GroupOk(q: Geometry, g: nat, m: Bytes, free: nat)
    requires GeometryOk(q)
  {
    && 8 * |m| == q.bpg
    && free == NumClear(m) && (forall j :: 0 <= j < q.bpg && !Bits(m)[j] ==> InVolume(q, g, j))
  }

  /** What newfs establishes and every call keeps. */
  ghost predicate Ok(q: Geometry, s: Counts) {
    GeometryOk(q) && |s.maps| == |s.nbfree| == q.gcount && s.fbcount == Sum(s.nbfree) && GroupsOk(q, s)
  }

  ghost predicate GroupsOk(q: Geometry, s: Counts)
    requires GeometryOk(q) && |s.maps| == |s.nbfree| == q.gcount
  {
    forall g :: 0 <= g < q.gcount ==> GroupOk(q, g, s.maps[g], s.nbfree[g])
  }

  /** Block b is free. */
  ghost predicate Free(q: Geometry, s: Counts, b: nat) {
    && Ok(q, s) && q.first <= b && DtoG(q.bpg, q.first, b) < q.gcount
    && !Bits(s.maps[DtoG(q.bpg, q.first, b)])[DtoGd(q.bpg, q.first, b)]
  }

  /** Block b is asked for, lies in group cg and is free. */
  ghost predicate Wanted(q: Geometry, s: Counts, cg: nat, b: nat) {
    b != 0 && Free(q, s, b) && DtoG(q.bpg, q.first, b) == cg
  }

  lemma FreeIsCounted(q: Geometry, s: Counts, cg: nat, b: nat)
    ensures Wanted(q, s, cg, b) ==> s.nbfree[cg] > 0
  {
    if Wanted(q, s, cg, b) {
      assert GroupOk(q, cg, s.maps[cg], s.nbfree[cg]);
      SomeClear(s.maps[cg]);
      assert 0 <= DtoGd(q.bpg, q.first, b) < q.bpg;
    }
  }

  /** Group g's bitmap becomes m and both counts change by d; nothing else does. */
  ghost predicate Becomes(s: Counts, s': Counts, g: nat, m: Bytes, d: int) {
    && g < |s.maps| && g < |s.nbfree| && s.nbfree[g] + d >= 0
    && s'.maps == s.maps[g := m] && s'.nbfree == s.nbfree[g := s.nbfree[g] + d] && s'.fbcount == s.fbcount + d
  }

  /** Block b, free before, is taken: its bit is set, both counts are one less, and all else is as it was. */
  ghost predicate Took(q: Geometry, s: Counts, s': Counts, b: nat) {
    && Free(q, s, b) && 0 < b < q.bcount
    && Becomes(s, s', DtoG(q.bpg, q.first, b),
               SetBit(s.maps[DtoG(q.bpg, q.first, b)], DtoGd(q.bpg, q.first, b)), -1)
  }

  /** Block b, in use before, is free again. */
  ghost predicate Gave(q: Geometry, s: Counts, s': Counts, b: nat) {
    && Ok(q, s) && q.first <= b && DtoG(q.bpg, q.first, b) < q.gcount && !Free(q, s, b)
    && Becomes(s, s', DtoG(q.bpg, q.first, b),
               ClearBit(s.maps[DtoG(q.bpg, q.first, b)], DtoGd(q.bpg, q.first, b)), 1)
  }

  /** Freeing a block just allocated undoes that, and the other way round. */
  lemma GiveUndoesTake(q: Geometry, s: Counts, s1: Counts, s2: Counts, b: nat)
    ensures Took(q, s, s1, b) && Gave(q, s1, s2, b) ==> s2 == s
    ensures Gave(q, s, s1, b) && Took(q, s1, s2, b) ==> s2 == s
  {
    if Ok(q, s) && q.first <= b && DtoG(q.bpg, q.first, b) < q.gcount {
      var g := DtoG(q.bpg, q.first, b);
      assert GroupOk(q, g, s.maps[g], s.nbfree[g]);
      SetThenClear(s.maps[g], DtoGd(q.bpg, q.first, b));
    }
  }

  /** One group changes: the others stay as they were. */
  lemma BecomesOk(q: Geometry, s: Counts, s': Counts, g: nat, m: Bytes, d: int)
    requires Ok(q, s) && g < q.gcount && Becomes(s, s', g, m, d) && GroupOk(q, g, m, s.nbfree[g] + d)
    ensures Ok(q, s')
  {
    SumUpdate(s.nbfree, g, s.nbfree[g] + d);
  }

  lemma TakeOk(q: Geometry, s: Counts, g: nat, j: nat)
    requires Ok(q, s) && g < q.gcount && j < q.bpg && !Bits(s.maps[g])[j]
    ensures s.nbfree[g] > 0 && s.fbcount > 0
    ensures var s' := Counts(s.maps[g := SetBit(s.maps[g], j)], s.nbfree[g := s.nbfree[g] - 1], s.fbcount - 1);
            Ok(q, s') && Took(q, s, s', GroupBlock(q.bpg, q.first, g, j))
    ensures DtoG(q.bpg, q.first, GroupBlock(q.bpg, q.first, g, j)) == g && GroupBlock(q.bpg, q.first, g, j) > 0
  {
    assert GroupOk(q, g, s.maps[g], s.nbfree[g]);
    assert InVolume(q, g, j);
    GroupRoundTrip(q.bpg, q.first, g, j);
    SetCounts(s.maps[g], j);
    SumAtLeast(s.nbfree, g);
    BecomesOk(q, s, Counts(s.maps[g := SetBit(s.maps[g], j)], s.nbfree[g := s.nbfree[g] - 1], s.fbcount - 1),
              g, SetBit(s.maps[g], j), -1);
  }

  lemma GiveOk(q: Geometry, s: Counts, b: nat)
    requires Ok(q, s) && q.first <= b && DtoG(q.bpg, q.first, b) < q.gcount && 0 < b < q.bcount && !Free(q, s, b)
    ensures var g, j := DtoG(q.bpg, q.first, b), DtoGd(q.bpg, q.first, b);
            var s' := Counts(s.maps[g := ClearBit(s.maps[g], j)], s.nbfree[g := s.nbfree[g] + 1], s.fbcount + 1);
            Ok(q, s') && Gave(q, s, s', b)
  {
    var g, j := DtoG(q.bpg, q.first, b), DtoGd(q.bpg, q.first, b);
    assert GroupOk(q, g, s.maps[g], s.nbfree[g]);
    BlockRoundTrip(q.bpg, q.first, b);
    assert InVolume(q, g, j);
    ClearCounts(s.maps[g], j);
    BecomesOk(q, s, Counts(s.maps[g := ClearBit(s.maps[g], j)], s.nbfree[g := s.nbfree[g] + 1], s.fbcount + 1),
              g, ClearBit(s.maps[g], j), 1);
  }

  /** After a block is taken just that one is no longer free. */
  lemma TookOne(q: Geometry, s: Counts, s': Counts, b: nat)
    requires Ok(q, s) && Took(q, s, s', b)
    ensures Ok(q, s') && s'.fbcount == s.fbcount - 1 && !Free(q, s', b)
    ensures forall x: nat :: x != b ==> (Free(q, s', x) <==> Free(q, s, x))
  {
    var g, j := DtoG(q.bpg, q.first, b), DtoGd(q.bpg, q.first, b);
    BlockRoundTrip(q.bpg, q.first, b);
    assert GroupOk(q, g, s.maps[g], s.nbfree[g]);
    TakeOk(q, s, g, j);
    forall x: nat | x != b && q.first <= x && DtoG(q.bpg, q.first, x) < q.gcount
      ensures Bits(s'.maps[DtoG(q.bpg, q.first, x)])[DtoGd(q.bpg, q.first, x)]
              == Bits(s.maps[DtoG(q.bpg, q.first, x)])[DtoGd(q.bpg, q.first, x)]
    {
      BlockRoundTrip(q.bpg, q.first, x);
      var h := DtoG(q.bpg, q.first, x);
      assert GroupOk(q, h, s.maps[h], s.nbfree[h]);
    }
  }

  /** After a block is given back just that one is free in addition. */
  lemma GaveOne(q: Geometry, s: Counts, s': Counts, b: nat)
    requires Ok(q, s) && Gave(q, s, s', b) && 0 < b < q.bcount
    ensures Ok(q, s') && s'.fbcount == s.fbcount + 1 && Free(q, s', b)
    ensures forall x: nat :: x != b ==> (Free(q, s', x) <==> Free(q, s, x))
  {
    var g := DtoG(q.bpg, q.first, b);
    BlockRoundTrip(q.bpg, q.first, b);
    assert GroupOk(q, g, s.maps[g], s.nbfree[g]);
    GiveOk(q, s, b);
    forall x: nat | x != b && q.first <= x && DtoG(q.bpg, q.first, x) < q.gcount
      ensures Bits(s'.maps[DtoG(q.bpg, q.first, x)])[DtoGd(q.bpg, q.first, x)]
              == Bits(s.maps[DtoG(q.bpg, q.first, x)])[DtoGd(q.bpg, q.first, x)]
    {
      BlockRoundTrip(q.bpg, q.first, x);
      var h := DtoG(q.bpg, q.first, x);
      assert GroupOk(q, h, s.maps[h], s.nbfree[h]);
    }
  }

  ghost predicate AllFull(s: Counts) {
    forall g :: 0 <= g < |s.nbfree| ==> s.nbfree[g] == 0
  }

  // ---------------------------------------------------------------- which block is taken

  /** The byte the search starts from: that of the preferred block, which is turned into a place in the group twice,
      so that it may come out one place too low. */
  function StartByte(q: Geometry, cg: nat, bpref: nat): (s: nat)
    requires q.bpg > 0 && q.first <= 1 && (bpref == 0 || q.first <= bpref)
    ensures var j := if bpref == 0 || DtoG(q.bpg, q.first, bpref) != cg then 0 else DtoGd(q.bpg, q.first, bpref);
            if j == 0 then s == 0 else 8 * s <= j - q.first < 8 * s + 8
  {
    if bpref == 0 || DtoG(q.bpg, q.first, bpref) != cg || DtoGd(q.bpg, q.first, bpref) == 0 then 0
    else
      SmallMod(DtoGd(q.bpg, q.first, bpref) - q.first, q.bpg);
      DtoGd(q.bpg, q.first, DtoGd(q.bpg, q.first, bpref)) / 8
  }

  /** The bit taken of bitmap m of group cg: that of the preferred block if it is in the group and free; else the
      start of a run of eight if the search sees one; else the next clear bit. */
  ghost predicate BitChosen(q: Geometry, m: Bytes, cg: nat, bpref: nat, bno: nat)
    requires GeometryOk(q) && 8 * |m| == q.bpg && (bpref == 0 || q.first <= bpref)
  {
    if bpref != 0 && DtoG(q.bpg, q.first, bpref) == cg && !Bits(m)[DtoGd(q.bpg, q.first, bpref)] then
      bno == DtoGd(q.bpg, q.first, bpref)
    else if !NoneSeen(m, StartByte(q, cg, bpref)) then RunChosen(m, StartByte(q, cg, bpref), bno)
    else NextFree(m, 8 * StartByte(q, cg, bpref), q.bpg, bno)
  }

  /** Block b is the one chosen in its group; the preference matters in the first group only. */
  ghost predicate BlockChosen(q: Geometry, maps: seq<Bytes>, icg: nat, pref: nat, b: nat) {
    && GeometryOk(q) && q.first <= b && (pref == 0 || q.first <= pref)
    && var g := DtoG(q.bpg, q.first, b);
       g < |maps| && 8 * |maps[g]| == q.bpg
       && BitChosen(q, maps[g], g, if g == icg then pref else 0, DtoGd(q.bpg, q.first, b))
  }

  /** The group the doubling probe comes to after j steps, of 1, 2, 4 and so on. */
  function Jump(gcount: nat, icg: nat, j: nat): (g: nat)
    requires gcount > 0
    ensures g < gcount
  {
    (icg + Pow(2, j) - 1) % gcount
  }

  /** The probe takes the j-th step. */
  predicate Jumps(gcount: nat, j: nat) {
    j == 0 || Pow(2, j - 1) < gcount
  }

  /** The k-th group after icg, going round. */
  function Turn(gcount: nat, icg: nat, k: nat): (g: nat)
    requires icg < gcount && k <= gcount
    ensures g < gcount
  {
    if icg + k >= gcount then icg + k - gcount else icg + k
  }

  /** What the probe met before its j-th step was full. */
  ghost predicate FullBefore(nbfree: seq<nat>, icg: nat, j: nat)
    requires |nbfree| > 0
  {
    forall i: nat :: i < j ==> nbfree[Jump(|nbfree|, icg, i)] == 0
  }

  ghost predicate JumpsFull(nbfree: seq<nat>, icg: nat)
    requires |nbfree| > 0
  {
    forall i: nat :: Jumps(|nbfree|, i) ==> nbfree[Jump(|nbfree|, icg, i)] == 0
  }

  /** The groups from the second to the one before the k-th after icg are full. */
  ghost predicate TurnsFull(nbfree: seq<nat>, icg: nat, k: nat)
    requires icg < |nbfree|
  {
    forall i: nat :: 2 <= i < k && i < |nbfree| ==> nbfree[Turn(|nbfree|, icg, i)] == 0
  }

  /** Group g is the first one with free blocks that the probe from icg comes to: in a step of the doubling probe,
      or else in turn. */
  ghost predicate GroupChosen(nbfree: seq<nat>, icg: nat, g: nat) {
    && icg < |nbfree| && g < |nbfree| && nbfree[g] > 0
    && ((exists j: nat :: Jumps(|nbfree|, j) && g == Jump(|nbfree|, icg, j) && FullBefore(nbfree, icg, j))
        || (JumpsFull(nbfree, icg)
            && exists k: nat :: 2 <= k < |nbfree| && g == Turn(|nbfree|, icg, k) && TurnsFull(nbfree, icg, k)))
  }

  /** The doubling probe is at group cg after j steps, and the next one is by i. */
  ghost predicate Jumped(nbfree: seq<nat>, icg: nat, j: nat, cg: nat, i: nat) {
    icg < |nbfree| && i == Pow(2, j) && cg == Jump(|nbfree|, icg, j) && FullBefore(nbfree, icg, j + 1)
  }

  lemma JumpedMore(nbfree: seq<nat>, icg: nat, j: nat, cg: nat, i: nat, next: nat)
    requires Jumped(nbfree, icg, j, cg, i) && next == Jump(|nbfree|, icg, j + 1) && nbfree[next] == 0
    ensures Jumped(nbfree, icg, j + 1, next, i * 2)
  {
  }

  lemma ChosenByJump(nbfree: seq<nat>, icg: nat, j: nat, cg: nat, i: nat, g: nat)
    requires Jumped(nbfree, icg, j, cg, i) && i < |nbfree| && g == Jump(|nbfree|, icg, j + 1) && nbfree[g] > 0
    ensures GroupChosen(nbfree, icg, g)
  {
    assert Jumps(|nbfree|, j + 1);
  }

  /** The probe does not leave its first group when that has free blocks. */
  lemma RoomMeansHere(nbfree: seq<nat>, icg: nat, g: nat)
    requires GroupChosen(nbfree, icg, g)
    ensures nbfree[icg] > 0 ==> g == icg
  {
    JumpNone(|nbfree|, icg);
    assert Jumps(|nbfree|, 0);
  }

  /** A preferred block that is free is taken. */
  lemma PreferredTaken(q: Geometry, s: Counts, pref: nat, b: nat)
    requires Ok(q, s) && q.first <= pref && pref != 0 && q.first <= b
    requires GroupChosen(s.nbfree, DtoG(q.bpg, q.first, pref), DtoG(q.bpg, q.first, b))
    requires BlockChosen(q, s.maps, DtoG(q.bpg, q.first, pref), pref, b)
    ensures Free(q, s, pref) ==> b == pref
  {
    if Free(q, s, pref) {
      var g := DtoG(q.bpg, q.first, pref);
      FreeIsCounted(q, s, g, pref);
      RoomMeansHere(s.nbfree, g, DtoG(q.bpg, q.first, b));
      BlockRoundTrip(q.bpg, q.first, pref);
      BlockRoundTrip(q.bpg, q.first, b);
    }
  }

  lemma JumpNone(gcount: nat, icg: nat)
    requires icg < gcount
    ensures Jump(gcount, icg, 0) == icg
  {
    SmallMod(icg, gcount);
  }

  /** One step more. */
  lemma JumpNext(gcount: nat, icg: nat, j: nat)
    requires icg < gcount && Pow(2, j) < gcount
    ensures var cg := Jump(gcount, icg, j) + Pow(2, j);
            Jump(gcount, icg, j + 1) == if cg >= gcount then cg - gcount else cg
  {
    assert Pow(2, j + 1) == 2 * Pow(2, j);
    WrapOnce(icg + Pow(2, j) - 1, Pow(2, j), gcount);
  }

  lemma WrapOnce(x: nat, step: nat, gcount: nat)
    requires step < gcount
    ensures (x + step) % gcount == if x % gcount + step >= gcount then x % gcount + step - gcount else x % gcount + step
  {
    DivMod(x, gcount);
    var cg := x % gcount + step;
    if cg >= gcount {
      assert gcount * (x / gcount + 1) == gcount * (x / gcount) + gcount;
      DivModUnique(x + step, gcount, x / gcount + 1, cg - gcount);
    } else {
      DivModUnique(x + step, gcount, x / gcount, cg);
    }
  }

  lemma NoMoreJumps(nbfree: seq<nat>, icg: nat, j: nat, cg: nat, i: nat)
    requires Jumped(nbfree, icg, j, cg, i) && i >= |nbfree|
    ensures JumpsFull(nbfree, icg)
  {
    forall k: nat | Jumps(|nbfree|, k)
      ensures nbfree[Jump(|nbfree|, icg, k)] == 0
    {
      if k > j {
        PowOrder(2, j, k - 1);
      }
    }
  }

  /** Both probes together come to every group. */
  lemma AllProbed(s: Counts, icg: nat, k: nat)
    requires icg < |s.nbfree| <= k && JumpsFull(s.nbfree, icg) && TurnsFull(s.nbfree, icg, k)
    ensures AllFull(s)
  {
    var n := |s.nbfree|;
    JumpNone(n, icg);
    if n > 1 {
      assert Pow(2, 0) == 1;
      JumpNext(n, icg, 0);
    }
    forall g | 0 <= g < n
      ensures s.nbfree[g] == 0
    {
      var i := if g >= icg then g - icg else g + n - icg;
      assert Turn(n, icg, i) == g;
      assert i == 0 ==> Jumps(n, 0);
      assert i == 1 ==> Jumps(n, 1) && Jump(n, icg, 1) == g;
    }
  }

  class Allocator {
    const q: Geometry

    var maps: seq<Bytes>    // block bitmaps
    var nbfree: seq<nat>    // free blocks of each group
    var fbcount: nat        // free blocks of the volume
    var rbcount: nat        // blocks reserved for the superuser
    var locked: bool        // the mount lock is held

    ghost function Now(): Counts
      reads this
    {
      Counts(maps, nbfree, fbcount)
    }

    ghost predicate Valid()
      reads this
    {
      Ok(q, Now())
    }

    /** What mounting takes over from the volume. */
    constructor (q: Geometry, s: Counts, rbcount: nat)
      requires Ok(q, s)
      ensures Valid() && this.q == q && Now() == s && this.rbcount == rbcount && !locked
    {
      this.q, maps, nbfree, fbcount, this.rbcount, locked := q, s.maps, s.nbfree, s.fbcount, rbcount, false;
    }

    /** Which bit of group cg to take: the preferred one, else the start of eight free ones if the search comes
        across any, else any free one. */
    method FindBit(cg: nat, bpref: nat) returns (bno: nat)
      requires Valid() && cg < q.gcount && nbfree[cg] > 0 && (bpref == 0 || q.first <= bpref)
      ensures bno < q.bpg && !Bits(maps[cg])[bno] && BitChosen(q, maps[cg], cg, bpref, bno)
    {
      var bbp, pref := maps[cg], 0;
      assert GroupOk(q, cg, maps[cg], nbfree[cg]);
      if bpref != 0 && DtoG(q.bpg, q.first, bpref) == cg {
        pref := DtoGd(q.bpg, q.first, bpref);
        if !IsSet(bbp, pref) {
          return pref;
        }
      }
      var start := if pref != 0 then DtoGd(q.bpg, q.first, pref) / 8 else 0;
      assert start == StartByte(q, cg, bpref);
      var run := RunSearch(bbp, start);
      if run != -1 {
        assert !Bits(bbp)[run];
        return run;
      }
      bno := MapSearch(bbp, start);
    }

    /** ext2_alloccg: called with the lock held; 0 when the group is full, with the lock held again. */
    method AllocCg(cg: nat, bpref: nat) returns (b: nat)
      requires Valid() && locked && cg < q.gcount && (bpref == 0 || q.first <= bpref)
      modifies this
      ensures Valid() && locked == (b == 0) && rbcount == old(rbcount)
      ensures b == 0 ==> Now() == old(Now()) && nbfree[cg] == 0
      ensures b != 0 ==> Took(q, old(Now()), Now(), b) && DtoG(q.bpg, q.first, b) == cg
      ensures b == 0 <==> old(nbfree)[cg] == 0
      ensures b != 0 ==> BitChosen(q, old(maps)[cg], cg, bpref, DtoGd(q.bpg, q.first, b))
    {
      if nbfree[cg] == 0 {
        return 0;
      }
      locked := false;
      var bno := FindBit(cg, bpref);
      b := HandOut(cg, bno);
      GroupRoundTrip(q.bpg, q.first, cg, bno);
    }

    /** The bit found is taken, and the number of its block is the answer. */
    method HandOut(cg: nat, bno: nat) returns (b: nat)
      requires Valid() && cg < q.gcount && bno < q.bpg && !Bits(maps[cg])[bno]
      modifies this
      ensures Valid() && !locked && rbcount == old(rbcount)
      ensures b > 0 && b == GroupBlock(q.bpg, q.first, cg, bno)
      ensures DtoG(q.bpg, q.first, b) == cg && DtoGd(q.bpg, q.first, b) == bno
      ensures Took(q, old(Now()), Now(), b)
    {
      TakeOk(q, Now(), cg, bno);
      GroupRoundTrip(q.bpg, q.first, cg, bno);
      TakeBit(cg, bno);
      b := GroupBlock(q.bpg, q.first, cg, bno);
    }

    /** The end of ext2_alloccg: the bit, then both counts under the lock. */
    method TakeBit(cg: nat, bno: nat)
      requires cg < |maps| && cg < |nbfree| && bno < 8 * |maps[cg]| && nbfree[cg] > 0 && fbcount > 0
      modifies this
      ensures Now() == Counts(old(maps)[cg := SetBit(old(maps)[cg], bno)], old(nbfree)[cg := old(nbfree)[cg] - 1],
                              old(fbcount) - 1)
      ensures !locked && rbcount == old(rbcount)
    {
      maps := maps[cg := SetBit(maps[cg], bno)];
      locked := true;
      fbcount := fbcount - 1;
      nbfree := nbfree[cg := nbfree[cg] - 1];
      locked := false;
    }

    /** The end of ext2_blkfree. */
    method GiveBit(cg: nat, bno: nat)
      requires cg < |maps| && cg < |nbfree| && bno < 8 * |maps[cg]|
      modifies this
      ensures Now() == Counts(old(maps)[cg := ClearBit(old(maps)[cg], bno)], old(nbfree)[cg := old(nbfree)[cg] + 1],
                              old(fbcount) + 1)
      ensures !locked && rbcount == old(rbcount)
    {
      maps := maps[cg := ClearBit(maps[cg], bno)];
      locked := true;
      fbcount := fbcount + 1;
      nbfree := nbfree[cg := nbfree[cg] + 1];
      locked := false;
    }

    /** ext2_hashalloc: the preferred group, then a doubling probe, then every group in turn.  It gives up only when
        every group is full; else it takes a block of the first group it comes to that has any. */
    method HashAlloc(icg: nat, pref: nat) returns (b: nat)
      requires Valid() && locked && icg < q.gcount && (pref == 0 || q.first <= pref)
      modifies this
      ensures Valid() && locked == (b == 0) && rbcount == old(rbcount)
      ensures b == 0 ==> Now() == old(Now()) && AllFull(Now())
      ensures b != 0 ==> Took(q, old(Now()), Now(), b) && GroupChosen(old(nbfree), icg, DtoG(q.bpg, q.first, b))
      ensures b != 0 ==> BlockChosen(q, old(maps), icg, pref, b)
    {
      b := AllocCg(icg, pref);
      JumpNone(q.gcount, icg);
      if b != 0 {
        return;
      }
      b := DoublingProbe(icg);
      if b == 0 {
        b := BruteForce(icg);
      }
    }

    /** Groups 1, 3, 7, ... after icg. */
    method DoublingProbe(icg: nat) returns (b: nat)
      requires Valid() && locked && icg < q.gcount && nbfree[icg] == 0
      modifies this
      ensures Valid() && locked == (b == 0) && rbcount == old(rbcount)
      ensures b == 0 ==> Now() == old(Now()) && JumpsFull(nbfree, icg)
      ensures b != 0 ==> Took(q, old(Now()), Now(), b) && GroupChosen(old(nbfree), icg, DtoG(q.bpg, q.first, b))
      ensures b != 0 ==> BlockChosen(q, old(maps), icg, 0, b)
    {
      var cg: nat, i: nat := icg, 1;
      ghost var j: nat := 0;
      JumpNone(q.gcount, icg);
      while i < q.gcount
        invariant i > 0 && Jumped(nbfree, icg, j, cg, i)
        invariant Valid() && locked && Now() == old(Now()) && rbcount == old(rbcount)
        decreases q.gcount - i
      {
        var next := NextGroup(cg, i, icg, j);
        b := AllocCg(next, 0);
        if b != 0 {
          ChosenByJump(old(nbfree), icg, j, cg, i, next);
          return;
        }
        JumpedMore(nbfree, icg, j, cg, i, next);
        cg, i, j := next, i * 2, j + 1;
      }
      NoMoreJumps(nbfree, icg, j, cg, i);
      b := 0;
    }

    method NextGroup(cg0: nat, i: nat, ghost icg: nat, ghost j: nat) returns (cg: nat)
      requires icg < q.gcount && i == Pow(2, j) < q.gcount && cg0 == Jump(q.gcount, icg, j)
      ensures cg == Jump(q.gcount, icg, j + 1)
    {
      JumpNext(q.gcount, icg, j);
      cg := cg0 + i;
      if cg >= q.gcount {
        cg := cg - q.gcount;
      }
    }

    /** The last resort: every group from the second after icg on. */
    method BruteForce(icg: nat) returns (b: nat)
      requires Valid() && locked && icg < q.gcount && JumpsFull(nbfree, icg)
      modifies this
      ensures Valid() && locked == (b == 0) && rbcount == old(rbcount)
      ensures b == 0 ==> Now() == old(Now()) && AllFull(Now())
      ensures b != 0 ==> Took(q, old(Now()), Now(), b) && GroupChosen(old(nbfree), icg, DtoG(q.bpg, q.first, b))
      ensures b != 0 ==> BlockChosen(q, old(maps), icg, 0, b)
    {
      var cg: nat, i: nat := (icg + 2) % q.gcount, 2;
      SecondAfter(icg, q.gcount);
      while i < q.gcount
        invariant 2 <= i && Valid() && locked && Now() == old(Now()) && rbcount == old(rbcount)
        invariant i < q.gcount ==> cg == Turn(q.gcount, icg, i)
        invariant TurnsFull(nbfree, icg, i)
      {
        b := AllocCg(cg, 0);
        if b != 0 {
          return;
        }
        cg := cg + 1;
        if cg == q.gcount {
          cg := 0;
        }
        i := i + 1;
      }
      AllProbed(Now(), icg, i);
      b := 0;
    }

    /** ext2_alloc, apart from the bookkeeping of the inode: the lock, held on entry, is released whatever
        happens; the superuser is refused only when every group is full.  The block is in the group of the preferred
        one, even if that is in use, or in that of the inode when there is no preference on the volume, as long as
        that group has free blocks; else in the first one with free blocks the probe comes to. */
    method Alloc(inoGroup: nat, bpref: nat, superuser: bool) returns (r: AllocResult)
      requires Valid() && locked && inoGroup < q.gcount && (bpref == 0 || q.first <= bpref)
      requires 0 < bpref < q.bcount ==> DtoG(q.bpg, q.first, bpref) < q.gcount
      modifies this
      ensures Valid() && !locked && rbcount == old(rbcount)
      ensures r.Block? ==> Took(q, old(Now()), Now(), r.b)
      ensures r.Block? && 0 < bpref < q.bcount && Free(q, old(Now()), bpref) ==> r.b == bpref
      ensures var g := if 0 < bpref < q.bcount then DtoG(q.bpg, q.first, bpref) else inoGroup;
              r.Block? ==> GroupChosen(old(nbfree), g, DtoG(q.bpg, q.first, r.b))
                           && (old(nbfree)[g] > 0 ==> DtoG(q.bpg, q.first, r.b) == g)
                           && BlockChosen(q, old(maps), g, if bpref < q.bcount then bpref else 0, r.b)
      ensures r.ENOSPC? ==> Now() == old(Now())
      ensures superuser ==> (r.ENOSPC? <==> old(AllFull(Now())))
      ensures !superuser ==> (r.ENOSPC? <==> old(AllFull(Now())) || old(fbcount) < rbcount)
    {
      AllFullSum(Now());
      if fbcount == 0 || (!superuser && fbcount < rbcount) {
        locked := false;
        return ENOSPC;
      }
      var pref := if bpref >= q.bcount then 0 else bpref;
      var cg := if pref == 0 then inoGroup else DtoG(q.bpg, q.first, pref);
      var bno := HashAlloc(cg, pref);
      if bno == 0 {
        assert false;   // only concurrent callers can empty every group between the count and the probe
      }
      r := Block(bno);
      RoomMeansHere(old(nbfree), cg, DtoG(q.bpg, q.first, bno));
      if pref != 0 {
        PreferredTaken(q, old(Now()), pref, bno);
      }
    }

    /** ext2_blkfree; freeing a free block is a panic, and a block past the end is only complained about. */
    method BlkFree(b: nat)
      requires Valid() && !locked && q.first <= b && 0 < b
      requires b < q.bcount ==> DtoG(q.bpg, q.first, b) < q.gcount && !Free(q, Now(), b)
      modifies this
      ensures Valid() && !locked && rbcount == old(rbcount)
      ensures if b >= q.bcount then Now() == old(Now()) else Gave(q, old(Now()), Now(), b)
    {
      if b >= q.bcount {
        return;
      }
      var cg, bno := DtoG(q.bpg, q.first, b), DtoGd(q.bpg, q.first, b);
      GiveOk(q, Now(), b);
      GiveBit(cg, bno);
    }
  }

  lemma AllFullSum(s: Counts)
    ensures AllFull(s) <==> Sum(s.nbfree) == 0
  {
    if AllFull(s) {
      SumZero(s.nbfree);
    } else {
      var g :| 0 <= g < |s.nbfree| && s.nbfree[g] != 0;
      SumAtLeast(s.nbfree, g);
    }
  }

  lemma SecondAfter(icg: nat, gcount: nat)
    requires icg < gcount
    ensures gcount > 2 ==> (icg + 2) % gcount == if icg + 2 >= gcount then icg + 2 - gcount else icg + 2
    ensures (icg + 2) % gcount < gcount
  {
    if gcount > 2 {
      DivModUnique(icg + 2, gcount, if icg + 2 >= gcount then 1 else 0,
                   if icg + 2 >= gcount then icg + 2 - gcount else icg + 2);
    }
  }
}
