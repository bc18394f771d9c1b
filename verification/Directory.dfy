/// Whole directories: the search of ext2_lookup, for a name and for a place to put one, and what entering
/// and removing names does to the directory as a map from names to inodes.
///
/// A position in a directory is a block number and an offset in that block.
module Directory {
  import opened DirBlock
  import opened Options

  // ---------------------------------------------------------------- lists of entries as maps

  function Find(es: seq<Entry>, name: Bytes): Option<Entry> {
    if es == [] then None else if es[0].name == name then Some(es[0]) else Find(es[1..], name)
  }

  function Count(es: seq<Entry>, name: Bytes): nat {
    if es == [] then 0 else (if es[0].name == name then 1 else 0) + Count(es[1..], name)
  }

  /** No two entries have the same name. */
  ghost predicate Unique(es: seq<Entry>) {
    forall name :: Count(es, name) <= 1
  }

  lemma {:induction false} Append(a: seq<Entry>, b: seq<Entry>, name: Bytes)
    ensures Count(a + b, name) == Count(a, name) + Count(b, name)
    ensures Find(a + b, name) == if Find(a, name).Some? then Find(a, name) else Find(b, name)
  {
    if a == [] {
      assert a + b == b;
    } else {
      Append(a[1..], b, name);
      assert (a + b)[0] == a[0] && (a + b)[1..] == a[1..] + b;
    }
  }

  lemma {:induction false} FindCount(es: seq<Entry>, name: Bytes)
    ensures Find(es, name).None? <==> Count(es, name) == 0
    ensures Find(es, name).Some? ==> Find(es, name).value.name == name
  {
    if es != [] {
      FindCount(es[1..], name);
    }
  }

  /** Entry e joins the list somewhere in the middle. */
  lemma Joined(a: seq<Entry>, e: Entry, b: seq<Entry>, name: Bytes)
    ensures Count(a + [e] + b, name) == Count(a + b, name) + if name == e.name then 1 else 0
    ensures Find(a + b, e.name).None? ==>
              Find(a + [e] + b, name) == if name == e.name then Some(e) else Find(a + b, name)
    ensures Count(a + [e] + b, e.name) <= 1 ==> Find(a + [e] + b, e.name) == Some(e)
    ensures Count(a + [e] + b, e.name) <= 1 ==>
              Find(a + b, name) == if name == e.name then None else Find(a + [e] + b, name)
  {
    Append(a + [e], b, name);
    Append(a, [e], name);
    Append(a, b, name);
    Append(a + [e], b, e.name);
    Append(a, [e], e.name);
    Append(a, b, e.name);
    FindCount(a, name);
    FindCount(a, e.name);
    FindCount(b, name);
    FindCount(b, e.name);
    assert [e][1..] == [];
    assert Find([e], name) == if e.name == name then Some(e) else None;
    assert Count([e], name) == if e.name == name then 1 else 0;
  }

  // ---------------------------------------------------------------- blocks of a directory

  ghost predicate BlockOk(n: nat, b: Bytes) {
    |b| == n < 0x1_0000 && Tiled(b, 0, n)
  }

  ghost predicate BlocksOk(n: nat, blks: seq<Bytes>) {
    forall k :: 0 <= k < |blks| ==> BlockOk(n, blks[k])
  }

  /** All entries in use, in order. */
  ghost function All(n: nat, blks: seq<Bytes>): seq<Entry>
    requires BlocksOk(n, blks)
  {
    if blks == [] then [] else Live(blks[0], 0, n) + All(n, blks[1..])
  }

  lemma AllFirst(n: nat, blks: seq<Bytes>, b: Bytes, rest: seq<Bytes>)
    requires blks != [] && blks[0] == b && blks[1..] == rest && BlockOk(n, b) && BlocksOk(n, rest)
    ensures BlocksOk(n, blks) && All(n, blks) == Live(b, 0, n) + All(n, rest)
  {
  }

  lemma {:induction false} AllAppend(n: nat, a: seq<Bytes>, b: seq<Bytes>)
    requires BlocksOk(n, a) && BlocksOk(n, b)
    ensures BlocksOk(n, a + b) && All(n, a + b) == All(n, a) + All(n, b)
  {
    if a == [] {
      assert a + b == b;
    } else {
      AllAppend(n, a[1..], b);
      assert (a + b)[1..] == a[1..] + b;
      AllFirst(n, a + b, a[0], a[1..] + b);
      Associate(Live(a[0], 0, n), All(n, a[1..]), All(n, b));
    }
  }

  /** The entries before, in and behind block k. */
  lemma AllSplit(n: nat, blks: seq<Bytes>, k: nat)
    requires BlocksOk(n, blks) && k < |blks|
    ensures BlocksOk(n, blks[..k]) && BlocksOk(n, blks[k + 1..])
    ensures All(n, blks) == All(n, blks[..k]) + Live(blks[k], 0, n) + All(n, blks[k + 1..])
  {
    AllAppend(n, blks[..k], blks[k..]);
    assert blks == blks[..k] + blks[k..];
    assert blks[k..][0] == blks[k] && blks[k..][1..] == blks[k + 1..];
    Associate(All(n, blks[..k]), Live(blks[k], 0, n), All(n, blks[k + 1..]));
  }

  lemma AllReplace(n: nat, blks: seq<Bytes>, k: nat, b: Bytes)
    requires BlocksOk(n, blks) && k < |blks| && BlockOk(n, b)
    ensures BlocksOk(n, blks[..k]) && BlocksOk(n, blks[k + 1..]) && BlocksOk(n, blks[k := b])
    ensures All(n, blks[k := b]) == All(n, blks[..k]) + Live(b, 0, n) + All(n, blks[k + 1..])
  {
    AllSplit(n, blks[k := b], k);
    assert blks[k := b][..k] == blks[..k] && blks[k := b][k + 1..] == blks[k + 1..];
  }

  /** In block k, from lo to hi, `new` is in use instead of `old`. */
  lemma Changed(n: nat, blks: seq<Bytes>, k: nat, b: Bytes, lo: nat, hi: nat)
    requires BlocksOk(n, blks) && k < |blks| && SameAround(blks[k], b, lo, hi)
    requires Tiled(blks[k], 0, lo) && Tiled(blks[k], lo, hi) && Tiled(blks[k], hi, n) && Tiled(b, lo, hi)
    ensures BlocksOk(n, blks[..k]) && BlocksOk(n, blks[k + 1..])
    ensures BlockOk(n, b) && BlocksOk(n, blks[k := b])
    ensures var before := All(n, blks[..k]) + Live(blks[k], 0, lo);
            var behind := Live(blks[k], hi, n) + All(n, blks[k + 1..]);
            && All(n, blks) == before + Live(blks[k], lo, hi) + behind
            && All(n, blks[k := b]) == before + Live(b, lo, hi) + behind
  {
    var o := blks[k];
    assert o[0..lo] == o[..lo] == b[..lo] == b[0..lo];
    assert o[hi..n] == o[hi..] == b[hi..] == b[hi..n];
    SameRange(o, b, 0, lo);
    SameRange(o, b, hi, n);
    Whole(o, lo, hi, n);
    Whole(b, lo, hi, n);
    AllSplit(n, blks, k);
    AllReplace(n, blks, k, b);
    Five(All(n, blks[..k]), Live(o, 0, lo), Live(o, lo, hi), Live(o, hi, n), All(n, blks[k + 1..]));
    Five(All(n, blks[..k]), Live(o, 0, lo), Live(b, lo, hi), Live(o, hi, n), All(n, blks[k + 1..]));
  }

  lemma Whole(s: Bytes, lo: nat, hi: nat, n: nat)
    requires Tiled(s, 0, lo) && Tiled(s, lo, hi) && Tiled(s, hi, n)
    ensures Tiled(s, 0, n)
    ensures Live(s, 0, n) == Live(s, 0, lo) + Live(s, lo, hi) + Live(s, hi, n)
    ensures Space(s, 0, n) == Space(s, 0, lo) + Space(s, lo, hi) + Space(s, hi, n)
  {
    JoinRanges(s, 0, lo, hi);
    JoinRanges(s, 0, hi, n);
  }

  lemma Five(a: seq<Entry>, b: seq<Entry>, c: seq<Entry>, d: seq<Entry>, e: seq<Entry>)
    ensures a + (b + c + d) + e == (a + b) + c + (d + e)
  {
  }

  // ---------------------------------------------------------------- a slot for a new entry

  datatype Status = NONE | COMPACT | FOUND

  /** slotstatus; the free space seen in this block and where it starts; the slot, once there is one. */
  datatype Slot = Slot(status: Status, start: int, free: nat, blk: nat, off: nat, size: nat)

  /** At the start of a block the count of free space starts again, unless there is a slot already. */
  function AtBlock(st: Slot): Slot {
    if st.status.NONE? then st.(start := -1, free := 0) else st
  }

  /** The record at off of block blk is taken into account. */
  function Note(st: Slot, need: nat, b: Bytes, blk: nat, off: nat): Slot
    requires Good(b, off, |b|) && (st.status.NONE? ==> st.start <= off)
  {
    var size := Room(b, off);
    if st.status.FOUND? || size <= 0 then st
    else if size >= need then Slot(FOUND, st.start, st.free, blk, off, Reclen(b, off))
    else if st.status.NONE? then
      var start := if st.start == -1 then off else st.start;
      if st.free + size >= need && start >= 0
      then Slot(COMPACT, start, st.free + size, blk, start, Next(b, off) - start)
      else st.(start := start, free := st.free + size)
    else st
  }

  /** The slot is a range of records in one block that can give up `need` bytes together. */
  ghost predicate SlotOk(n: nat, blks: seq<Bytes>, blk: nat, off: nat, size: nat, need: nat) {
    blk < |blks| && SlotIn(n, blks[blk], off, size, need)
  }

  ghost predicate SlotIn(n: nat, b: Bytes, off: nat, size: nat, need: nat) {
    && size > 0 && Tiled(b, 0, off) && Tiled(b, off, off + size) && Tiled(b, off + size, n)
    && Space(b, off, off + size) >= need
  }

  /** The free space counted in block b up to off starts at `start`. */
  ghost predicate FreeSince(b: Bytes, start: int, free: nat, off: nat) {
    && Tiled(b, 0, off) && free == Space(b, 0, off)
    && if start < 0 then start == -1 && free == 0 else Counted(b, start, free, off)
  }

  /** No block before blk has `need` bytes of free space in all. */
  ghost predicate FullBefore(n: nat, blks: seq<Bytes>, blk: nat, need: nat)
    requires BlocksOk(n, blks) && blk <= |blks|
  {
    forall k :: 0 <= k < blk ==> Space(blks[k], 0, n) < need
  }

  /** None of the records from off to end can give up `need` bytes alone. */
  ghost predicate Cramped(b: Bytes, off: nat, end: nat, need: nat)
    requires Tiled(b, off, end)
    decreases end - off
  {
    off == end || (Room(b, off) < need && Cramped(b, Next(b, off), end, need))
  }

  lemma {:induction false} CrampedMore(b: Bytes, off: nat, mid: nat, end: nat, need: nat)
    requires Tiled(b, off, mid) && Tiled(b, mid, end) && Tiled(b, off, end)
    requires Cramped(b, off, mid, need) && Cramped(b, mid, end, need)
    ensures Cramped(b, off, end, need)
    decreases mid - off
  {
    if off < mid {
      JoinRanges(b, Next(b, off), mid, end);
      CrampedMore(b, Next(b, off), mid, end, need);
    }
  }

  /** Nor can any record before off in block blk, or in a block before. */
  ghost predicate NoneRoomy(n: nat, blks: seq<Bytes>, blk: nat, off: nat, need: nat) {
    && BlocksOk(n, blks) && blk <= |blks|
    && (forall k :: 0 <= k < blk ==> Cramped(blks[k], 0, n, need))
    && (off > 0 ==> blk < |blks| && Tiled(blks[blk], 0, off) && Cramped(blks[blk], 0, off, need))
  }

  /** The slot is the first record of all that can give up `need` bytes alone. */
  ghost predicate FirstRoomy(n: nat, blks: seq<Bytes>, need: nat, k: nat, off: nat, hi: nat) {
    && NoneRoomy(n, blks, k, off, need) && k < |blks| && Good(blks[k], off, n)
    && Room(blks[k], off) >= need && hi == Next(blks[k], off)
  }

  /** The slot is in the first block with `need` bytes of free space in all; it begins where the free space does, and
      ends with the record that makes it enough. */
  ghost predicate FirstEnough(n: nat, blks: seq<Bytes>, need: nat, k: nat, off: nat, hi: nat) {
    && BlocksOk(n, blks) && k < |blks| && FullBefore(n, blks, k, need)
    && Tiled(blks[k], 0, off) && Space(blks[k], 0, off) == 0
    && EndsWithLast(n, blks[k], off, hi, need)
  }

  ghost predicate EndsWithLast(n: nat, b: Bytes, off: nat, end: nat, need: nat) {
    exists last: nat :: LastNeeded(n, b, off, last, end, need)
  }

  ghost predicate LastNeeded(n: nat, b: Bytes, off: nat, last: nat, end: nat, need: nat) {
    Tiled(b, off, last) && Good(b, last, n) && Next(b, last) == end && Space(b, off, last) < need
  }

  /** Where ext2_lookup says an entry can go: the first record with enough room, or if there is none the first block
      with enough room in all. */
  ghost predicate SlotChosen(n: nat, blks: seq<Bytes>, need: nat, k: nat, off: nat, hi: nat) {
    || FirstRoomy(n, blks, need, k, off, hi)
    || (NoneRoomy(n, blks, |blks|, 0, need) && FirstEnough(n, blks, need, k, off, hi))
  }

  /** What the search knows about slots when it is at off in block blk. */
  ghost predicate SlotInv(n: nat, blks: seq<Bytes>, st: Slot, blk: nat, off: nat, need: nat) {
    && BlocksOk(n, blks) && blk <= |blks|
    && (st.status.NONE? ==>
          && FullBefore(n, blks, blk, need)
          && (off > 0 ==> blk < |blks| && st.free < need && FreeSince(blks[blk], st.start, st.free, off)))
    && (!st.status.NONE? ==> SlotOk(n, blks, st.blk, st.off, st.size, need))
    && SlotPlace(n, blks, st, blk, off, need)
  }

  /** Which slot it is. */
  ghost predicate SlotPlace(n: nat, blks: seq<Bytes>, st: Slot, blk: nat, off: nat, need: nat) {
    && (st.status.FOUND? ==> FirstRoomy(n, blks, need, st.blk, st.off, st.off + st.size))
    && (!st.status.FOUND? ==> NoneRoomy(n, blks, blk, off, need))
    && (st.status.COMPACT? ==> FirstEnough(n, blks, need, st.blk, st.off, st.off + st.size))
  }

  /** The search goes on to the next record of the block ... */
  lemma NoteKeeps(n: nat, blks: seq<Bytes>, st: Slot, blk: nat, off: nat, need: nat)
    requires SlotInv(n, blks, st, blk, off, need) && need > 0 && blk < |blks|
    requires Tiled(blks[blk], 0, off) && off < n && Tiled(blks[blk], off, n)
    ensures var st1 := if off == 0 then AtBlock(st) else st;
            && (st1.status.NONE? ==> st1.start <= off)
            && SlotInv(n, blks, Note(st1, need, blks[blk], blk, off), blk, Next(blks[blk], off), need)
  {
    var b, next := blks[blk], Next(blks[blk], off);
    var st1 := if off == 0 then AtBlock(st) else st;
    assert BlockOk(n, b);
    assert Good(b, off, n);
    assert Tiled(b, 0, 0);
    NoteSlot(n, b, st1, need, blk, off, next);
    NotePlace(n, blks, st1, need, blk, off, next);
  }

  lemma NotePlace(n: nat, blks: seq<Bytes>, st: Slot, need: nat, blk: nat, off: nat, next: nat)
    requires BlocksOk(n, blks) && blk < |blks| && need > 0 && Tiled(blks[blk], 0, off) && Good(blks[blk], off, n)
    requires next == Next(blks[blk], off) && SlotPlace(n, blks, st, blk, off, need)
    requires st.status.NONE? ==> FullBefore(n, blks, blk, need) && st.free < need && FreeSince(blks[blk], st.start, st.free, off)
    ensures st.status.NONE? ==> st.start <= off
    ensures SlotPlace(n, blks, Note(st, need, blks[blk], blk, off), blk, next, need)
  {
    if !st.status.FOUND? && Room(blks[blk], off) < need {
      OneMoreCramped(blks[blk], off, next, n, need);
      if st.status.NONE? {
        PlaceSmall(n, blks, st, need, blk, off, next);
      }
    }
  }

  /** A record that is not enough alone: together with the ones before it may be. */
  lemma PlaceSmall(n: nat, blks: seq<Bytes>, st: Slot, need: nat, blk: nat, off: nat, next: nat)
    requires BlocksOk(n, blks) && blk < |blks| && Good(blks[blk], off, n) && next == Next(blks[blk], off)
    requires st.status.NONE? && FullBefore(n, blks, blk, need) && st.free < need && FreeSince(blks[blk], st.start, st.free, off)
    requires Room(blks[blk], off) < need
    ensures st.start <= off
    ensures var r := Note(st, need, blks[blk], blk, off);
            !r.status.FOUND? && (r.status.COMPACT? ==> FirstEnough(n, blks, need, r.blk, r.off, r.off + r.size))
  {
    var start: nat := if st.start == -1 then off else st.start;
    NeededHere(n, blks[blk], st, start, off, next, need);
    assert start + (next - start) == next;
  }

  lemma OneMoreCramped(b: Bytes, off: nat, next: nat, n: nat, need: nat)
    requires Tiled(b, 0, off) && Good(b, off, n) && next == Next(b, off) && Room(b, off) < need
    requires off > 0 ==> Cramped(b, 0, off, need)
    ensures Tiled(b, 0, next) && Cramped(b, 0, next, need)
  {
    OneRecord(b, off, n);
    JoinRanges(b, 0, off, next);
    assert Cramped(b, off, next, need);
    CrampedMore(b, 0, off, next, need);
  }

  lemma NeededHere(n: nat, b: Bytes, st: Slot, start: nat, off: nat, next: nat, need: nat)
    requires Good(b, off, n) && next == Next(b, off) && st.free < need && FreeSince(b, st.start, st.free, off)
    requires start == if st.start == -1 then off else st.start
    ensures Tiled(b, 0, start) && Space(b, 0, start) == 0 && EndsWithLast(n, b, start, next, need)
  {
    assert Tiled(b, off, off) && Space(b, off, off) == 0;
    assert LastNeeded(n, b, start, off, next, need);
  }

  lemma NoteSlot(n: nat, b: Bytes, st: Slot, need: nat, blk: nat, off: nat, next: nat)
    requires BlockOk(n, b) && need > 0 && Tiled(b, 0, off) && Good(b, off, n) && Tiled(b, off, n)
    requires next == Next(b, off)
    requires st.status.NONE? ==> st.free < need && FreeSince(b, st.start, st.free, off)
    ensures st.status.NONE? ==> st.start <= off
    ensures var r := Note(st, need, b, blk, off);
            && (r.status.NONE? ==> st.status.NONE? && r.free < need && FreeSince(b, r.start, r.free, next))
            && (!r.status.NONE? ==> (!st.status.NONE? && r.blk == st.blk && r.off == st.off && r.size == st.size)
                                    || (r.blk == blk && SlotIn(n, b, r.off, r.size, need)))
  {
    if Room(b, off) >= need {
      OneIsEnough(n, b, off, need);
    } else if st.status.NONE? {
      NoteSmall(n, b, st, need, blk, off, next);
    }
  }

  /** A record that is not enough alone, when there is no slot yet. */
  lemma NoteSmall(n: nat, b: Bytes, st: Slot, need: nat, blk: nat, off: nat, next: nat)
    requires BlockOk(n, b) && need > 0 && Tiled(b, 0, off) && Good(b, off, n) && Tiled(b, off, n)
    requires next == Next(b, off) && st.status.NONE? && st.free < need && FreeSince(b, st.start, st.free, off)
    requires Room(b, off) < need
    ensures st.start <= off
    ensures var r := Note(st, need, b, blk, off);
            && (r.status.NONE? ==> r.free < need && FreeSince(b, r.start, r.free, next))
            && (!r.status.NONE? ==> r.blk == blk && SlotIn(n, b, r.off, r.size, need))
  {
    var size := Room(b, off);
    NoteFree(b, st.start, st.free, off, next, n);
    if size <= 0 {
      StillNone(b, st.start, st.free, off, next);
    } else if st.free + size >= need {
      SumIsEnough(n, b, if st.start == -1 then off else st.start, next, need, st.free + size);
    }
  }

  lemma OneIsEnough(n: nat, b: Bytes, off: nat, need: nat)
    requires BlockOk(n, b) && Tiled(b, 0, off) && Good(b, off, n) && Tiled(b, off, n) && Room(b, off) >= need
    ensures SlotIn(n, b, off, Reclen(b, off), need)
  {
    OneRecord(b, off, n);
  }

  lemma SumIsEnough(n: nat, b: Bytes, start: nat, next: nat, need: nat, total: nat)
    requires Counted(b, start, total, next) && Tiled(b, next, n) && total >= need
    ensures SlotIn(n, b, start, next - start, need)
  {
    assert start + (next - start) == next;
  }

  lemma StillNone(b: Bytes, start: int, free: nat, off: nat, next: nat)
    requires FreeSince(b, start, free, off) && off < next
    requires Counted(b, if start == -1 then off else start, free, next)
    ensures FreeSince(b, start, free, next)
  {
  }

  lemma NoteFree(b: Bytes, start: int, free: nat, off: nat, next: nat, n: nat)
    requires FreeSince(b, start, free, off) && Good(b, off, n) && Tiled(b, off, n) && next == Next(b, off)
    ensures Room(b, off) >= 0 && Tiled(b, 0, next) && Tiled(b, next, n)
    ensures Counted(b, if start == -1 then off else start, free + Room(b, off), next)
  {
    OneRecord(b, off, n);
    JoinRanges(b, 0, off, next);
    if start != -1 {
      CountMore(b, start, free, off, next);
    }
  }

  lemma CountMore(b: Bytes, start: nat, free: nat, off: nat, next: nat)
    requires Counted(b, start, free, off) && Tiled(b, off, next) && Tiled(b, 0, next)
    requires Space(b, 0, next) == free + Space(b, off, next) && off < next
    ensures Counted(b, start, free + Space(b, off, next), next)
  {
    JoinRanges(b, start, off, next);
  }

  /** All the free space before `next` lies in the records from s on. */
  ghost predicate Counted(b: Bytes, s: int, total: nat, next: nat) {
    && 0 <= s < next && Tiled(b, 0, s) && Tiled(b, s, next) && Tiled(b, 0, next)
    && Space(b, 0, s) == 0 && Space(b, s, next) == total && Space(b, 0, next) == total
  }

  /** ... and from the end of a block to the next one. */
  lemma BlockKeeps(n: nat, blks: seq<Bytes>, st: Slot, blk: nat, need: nat)
    requires SlotInv(n, blks, st, blk, n, need) && blk < |blks| && n > 0
    ensures SlotInv(n, blks, st, blk + 1, 0, need)
  {
  }

  lemma SlotIsChosen(n: nat, blks: seq<Bytes>, st: Slot, hi: nat, need: nat)
    requires SlotInv(n, blks, st, |blks|, 0, need) && !st.status.NONE? && hi == st.off + st.size
    ensures SlotChosen(n, blks, need, st.blk, st.off, hi)
  {
  }

  /** There is no slot exactly when no block has enough free space in all. */
  lemma NoneMeansFull(n: nat, blks: seq<Bytes>, st: Slot, need: nat)
    requires SlotInv(n, blks, st, |blks|, 0, need)
    ensures st.status.NONE? <==> forall k :: 0 <= k < |blks| ==> Space(blks[k], 0, n) < need
  {
    if !st.status.NONE? {
      Whole(blks[st.blk], st.off, st.off + st.size, n);
    }
  }

  // ---------------------------------------------------------------- looking for a name

  /** Name has not been met in blocks from to blk - 1, nor before off in block blk. */
  ghost predicate NotYet(n: nat, blks: seq<Bytes>, name: Bytes, from: nat, blk: nat, off: nat) {
    && BlocksOk(n, blks) && from <= blk <= |blks|
    && Count(All(n, blks[from..blk]), name) == 0
    && (off > 0 ==> blk < |blks| && Tiled(blks[blk], 0, off) && Count(Live(blks[blk], 0, off), name) == 0)
  }

  /** Behind the first `useful` blocks, and before off in block blk, nothing is in use. */
  ghost predicate DeadSince(n: nat, blks: seq<Bytes>, useful: nat, blk: nat, off: nat) {
    && BlocksOk(n, blks) && blk <= |blks|
    && (forall k :: useful <= k < blk ==> Live(blks[k], 0, n) == [])
    && (off > 0 && useful <= blk ==> blk < |blks| && Tiled(blks[blk], 0, off) && Live(blks[blk], 0, off) == [])
  }

  /** `useful` is no more than that: the last of these blocks has something in use before this place. */
  ghost predicate UsefulEnd(n: nat, blks: seq<Bytes>, useful: nat, blk: nat, off: nat) {
    && BlocksOk(n, blks) && blk <= |blks|
    && (useful == 0
        || (useful <= blk && Live(blks[useful - 1], 0, n) != [])
        || (useful == blk + 1 && off > 0 && blk < |blks| && Tiled(blks[blk], 0, off) && Live(blks[blk], 0, off) != []))
  }

  lemma AdvanceUseful(n: nat, blks: seq<Bytes>, at: At, next: nat, useful: nat)
    requires at.blk < |blks| && UsefulEnd(n, blks, at.useful, at.blk, at.off) && Tiled(blks[at.blk], 0, at.off) && n > 0
    requires Good(blks[at.blk], at.off, n) && next == Next(blks[at.blk], at.off)
    requires useful == if Ino(blks[at.blk], at.off) != 0 then at.blk + 1 else at.useful
    ensures next == n ==> UsefulEnd(n, blks, useful, at.blk + 1, 0)
    ensures next != n ==> UsefulEnd(n, blks, useful, at.blk, next)
  {
    assert BlockOk(n, blks[at.blk]);
    LiveSoFar(blks[at.blk], at.off, next, n);
  }

  lemma LiveSoFar(b: Bytes, off: nat, next: nat, n: nat)
    requires Tiled(b, 0, off) && Good(b, off, n) && next == Next(b, off)
    ensures Tiled(b, 0, next) && (Live(b, 0, next) != [] <==> Live(b, 0, off) != [] || Ino(b, off) != 0)
    ensures off == 0 ==> Live(b, 0, off) == []
  {
    OneRecord(b, off, n);
    JoinRanges(b, 0, off, next);
  }

  /** One more record without the name. */
  lemma PassRecord(n: nat, blks: seq<Bytes>, name: Bytes, from: nat, blk: nat, off: nat)
    requires NotYet(n, blks, name, from, blk, off) && blk < |blks| && Tiled(blks[blk], 0, off)
    requires Good(blks[blk], off, n)
    requires Ino(blks[blk], off) != 0 ==> EntryAt(blks[blk], off).name != name
    ensures NotYet(n, blks, name, from, blk, Next(blks[blk], off))
    ensures Tiled(blks[blk], 0, Next(blks[blk], off))
  {
    var b, next := blks[blk], Next(blks[blk], off);
    assert BlockOk(n, b);
    OneRecord(b, off, n);
    JoinRanges(b, 0, off, next);
    Append(Live(b, 0, off), Live(b, off, next), name);
    assert Tiled(b, 0, 0) && Live(b, 0, 0) == [];
    if Ino(b, off) != 0 {
      assert [EntryAt(b, off)][1..] == [];
    }
  }

  lemma PassDead(n: nat, blks: seq<Bytes>, useful: nat, blk: nat, off: nat)
    requires DeadSince(n, blks, useful, blk, off) && blk < |blks| && Tiled(blks[blk], 0, off) && Good(blks[blk], off, n)
    ensures DeadSince(n, blks, if Ino(blks[blk], off) != 0 then blk + 1 else useful, blk, Next(blks[blk], off))
  {
    var b, next := blks[blk], Next(blks[blk], off);
    assert Tiled(b, 0, 0) && Live(b, 0, 0) == [];
    if Ino(b, off) == 0 {
      FreeAppends(b, off, n);
    }
  }

  lemma FreeAppends(b: Bytes, off: nat, n: nat)
    requires Tiled(b, 0, off) && Good(b, off, n) && Ino(b, off) == 0
    ensures Tiled(b, 0, Next(b, off)) && Live(b, 0, Next(b, off)) == Live(b, 0, off)
  {
    OneRecord(b, off, n);
    JoinRanges(b, 0, off, Next(b, off));
  }

  lemma PassBlock(n: nat, blks: seq<Bytes>, name: Bytes, from: nat, blk: nat)
    requires NotYet(n, blks, name, from, blk, n) && blk < |blks| && n > 0
    ensures NotYet(n, blks, name, from, blk + 1, 0)
  {
    var one, before := [blks[blk]], blks[from..blk];
    assert blks[from..blk + 1] == before + one;
    assert one[1..] == [];
    assert BlocksOk(n, one) && Live(blks[blk], 0, n) + [] == Live(blks[blk], 0, n);
    assert All(n, one) == Live(blks[blk], 0, n);
    AllAppend(n, before, one);
    Append(All(n, before), All(n, one), name);
  }

  lemma PassDeadBlock(n: nat, blks: seq<Bytes>, useful: nat, blk: nat)
    requires DeadSince(n, blks, useful, blk, n) && blk < |blks| && n > 0
    ensures DeadSince(n, blks, useful, blk + 1, 0)
  {
  }

  /** The record at off of block blk is in use and has this name; the one before it in the block is at prev. */
  ghost predicate Hit(n: nat, blks: seq<Bytes>, name: Bytes, blk: nat, off: nat, prev: nat) {
    && blk < |blks| && BlockOk(n, blks[blk]) && Tiled(blks[blk], 0, off) && Good(blks[blk], off, n)
    && Tiled(blks[blk], off, n)
    && Ino(blks[blk], off) != 0 && EntryAt(blks[blk], off).name == name
    && (off > 0 ==> Tiled(blks[blk], 0, prev) && Good(blks[blk], prev, n) && Next(blks[blk], prev) == off)
  }

  /** Where the search is: block and offset, the offset of the record before, what it knows of slots, and
      how many blocks there are up to the last one with something in use. */
  datatype At = At(blk: nat, off: nat, prev: nat, st: Slot, useful: nat)

  /** The record the search is at lies in a block that is tiled up to there, and from there on. */
  ghost predicate Positioned(n: nat, blks: seq<Bytes>, from: nat, last: nat, at: At) {
    && n > 0 && BlocksOk(n, blks) && from <= at.blk <= last <= |blks|
    && (at.blk == last ==> at.off == 0)
    && (at.blk < last ==> at.off < n && Tiled(blks[at.blk], 0, at.off) && Tiled(blks[at.blk], at.off, n))
    && (at.off > 0 && at.blk < last ==>
          Tiled(blks[at.blk], 0, at.prev) && Good(blks[at.blk], at.prev, n)
          && Next(blks[at.blk], at.prev) == at.off)
  }

  ghost predicate SearchInv(n: nat, blks: seq<Bytes>, name: Bytes, from: nat, last: nat, need: nat, at: At) {
    && Positioned(n, blks, from, last, at) && NotYet(n, blks, name, from, at.blk, at.off)
    && (need > 0 ==> SlotInv(n, blks, at.st, at.blk, at.off, need))
    && (from == 0 ==> EndKnown(n, blks, at))
  }

  /** The blocks up to the last one with something in use before this place are the useful ones. */
  ghost predicate EndKnown(n: nat, blks: seq<Bytes>, at: At) {
    && DeadSince(n, blks, at.useful, at.blk, at.off) && UsefulEnd(n, blks, at.useful, at.blk, at.off)
    && at.useful <= at.blk + 1 && (at.off == 0 ==> at.useful <= at.blk)
  }

  /** The record is not the one looked for: on to the next one. */
  function Advance(n: nat, b: Bytes, need: nat, at: At): At
    requires |b| == n && Good(b, at.off, n)
    requires need > 0 && at.off > 0 && at.st.status.NONE? ==> at.st.start <= at.off
  {
    var st := if need == 0 then at.st else Note(if at.off == 0 then AtBlock(at.st) else at.st, need, b, at.blk, at.off);
    var useful := if Ino(b, at.off) != 0 then at.blk + 1 else at.useful;
    var next := Next(b, at.off);
    if next == n then At(at.blk + 1, 0, at.off, st, useful) else At(at.blk, next, at.off, st, useful)
  }

  lemma Steps(n: nat, blks: seq<Bytes>, name: Bytes, from: nat, last: nat, need: nat, at: At)
    requires SearchInv(n, blks, name, from, last, need, at) && at.blk < last
    ensures BlockOk(n, blks[at.blk]) && Good(blks[at.blk], at.off, n)
    ensures need > 0 && at.off > 0 && at.st.status.NONE? ==> at.st.start <= at.off
  {
    assert BlockOk(n, blks[at.blk]);
  }

  lemma AdvancePosition(n: nat, blks: seq<Bytes>, from: nat, last: nat, need: nat, at: At)
    requires Positioned(n, blks, from, last, at) && at.blk < last
    requires need > 0 && at.off > 0 && at.st.status.NONE? ==> at.st.start <= at.off
    ensures BlockOk(n, blks[at.blk]) && Good(blks[at.blk], at.off, n)
    ensures Positioned(n, blks, from, last, Advance(n, blks[at.blk], need, at))
  {
    var b := blks[at.blk];
    assert BlockOk(n, b);
    OneRecord(b, at.off, n);
    JoinRanges(b, 0, at.off, Next(b, at.off));
    if at.blk + 1 < last {
      assert BlockOk(n, blks[at.blk + 1]);
      assert Tiled(blks[at.blk + 1], 0, 0);
    }
  }

  lemma AdvanceSlot(n: nat, blks: seq<Bytes>, need: nat, at: At, at': At)
    requires at.blk < |blks| && BlocksOk(n, blks) && BlockOk(n, blks[at.blk]) && Good(blks[at.blk], at.off, n)
    requires Tiled(blks[at.blk], 0, at.off) && Tiled(blks[at.blk], at.off, n) && need > 0
    requires SlotInv(n, blks, at.st, at.blk, at.off, need)
    requires need > 0 && at.off > 0 && at.st.status.NONE? ==> at.st.start <= at.off
    requires at' == Advance(n, blks[at.blk], need, at)
    ensures SlotInv(n, blks, at'.st, at'.blk, at'.off, need)
  {
    NoteKeeps(n, blks, at.st, at.blk, at.off, need);
    if at'.off == 0 {
      BlockKeeps(n, blks, at'.st, at.blk, need);
    }
  }

  lemma AdvanceNames(n: nat, blks: seq<Bytes>, name: Bytes, from: nat, at: At, next: nat)
    requires at.blk < |blks| && NotYet(n, blks, name, from, at.blk, at.off) && Tiled(blks[at.blk], 0, at.off)
    requires Good(blks[at.blk], at.off, n) && next == Next(blks[at.blk], at.off)
    requires Ino(blks[at.blk], at.off) != 0 ==> EntryAt(blks[at.blk], at.off).name != name
    ensures next == n ==> NotYet(n, blks, name, from, at.blk + 1, 0)
    ensures next != n ==> NotYet(n, blks, name, from, at.blk, next)
  {
    PassRecord(n, blks, name, from, at.blk, at.off);
    if next == n {
      PassBlock(n, blks, name, from, at.blk);
    }
  }

  lemma AdvanceDead(n: nat, blks: seq<Bytes>, at: At, next: nat, useful: nat)
    requires at.blk < |blks| && DeadSince(n, blks, at.useful, at.blk, at.off) && Tiled(blks[at.blk], 0, at.off)
    requires Good(blks[at.blk], at.off, n) && next == Next(blks[at.blk], at.off)
    requires useful == if Ino(blks[at.blk], at.off) != 0 then at.blk + 1 else at.useful
    ensures next == n ==> DeadSince(n, blks, useful, at.blk + 1, 0)
    ensures next != n ==> DeadSince(n, blks, useful, at.blk, next)
  {
    PassDead(n, blks, at.useful, at.blk, at.off);
    if next == n {
      PassDeadBlock(n, blks, useful, at.blk);
    }
  }

  lemma AdvanceKeeps(n: nat, blks: seq<Bytes>, name: Bytes, from: nat, last: nat, need: nat, at: At, at': At)
    requires SearchInv(n, blks, name, from, last, need, at) && at.blk < last
    requires BlockOk(n, blks[at.blk]) && Good(blks[at.blk], at.off, n)
    requires need > 0 && at.off > 0 && at.st.status.NONE? ==> at.st.start <= at.off
    requires Ino(blks[at.blk], at.off) != 0 ==> EntryAt(blks[at.blk], at.off).name != name
    requires at' == Advance(n, blks[at.blk], need, at)
    ensures SearchInv(n, blks, name, from, last, need, at')
  {
    AdvancePosition(n, blks, from, last, need, at);
    if need > 0 {
      AdvanceSlot(n, blks, need, at, at');
    }
    AdvanceFound(n, blks, name, from, need, at, at');
    if from == 0 {
      AdvanceUseful(n, blks, at, Next(blks[at.blk], at.off), at'.useful);
    }
  }

  lemma AdvanceFound(n: nat, blks: seq<Bytes>, name: Bytes, from: nat, need: nat, at: At, at': At)
    requires at.blk < |blks| && NotYet(n, blks, name, from, at.blk, at.off) && Tiled(blks[at.blk], 0, at.off)
    requires BlockOk(n, blks[at.blk]) && Good(blks[at.blk], at.off, n)
    requires need > 0 && at.off > 0 && at.st.status.NONE? ==> at.st.start <= at.off
    requires Ino(blks[at.blk], at.off) != 0 ==> EntryAt(blks[at.blk], at.off).name != name
    requires at' == Advance(n, blks[at.blk], need, at)
    ensures NotYet(n, blks, name, from, at'.blk, at'.off)
    ensures DeadSince(n, blks, at.useful, at.blk, at.off) ==> DeadSince(n, blks, at'.useful, at'.blk, at'.off)
  {
    var next := Next(blks[at.blk], at.off);
    AdvanceNames(n, blks, name, from, at, next);
    if DeadSince(n, blks, at.useful, at.blk, at.off) {
      AdvanceDead(n, blks, at, next, at'.useful);
    }
  }

  /** The loop of ext2_lookup over the blocks from `from` up to `last`.  When it creates (need > 0) it also
      looks for a slot, and for the end of what is in use. */
  method Search(n: nat, blks: seq<Bytes>, name: Bytes, from: nat, last: nat, need: nat)
    returns (hit: bool, at: At)
    requires n > 0 && BlocksOk(n, blks) && from <= last <= |blks| && (need > 0 ==> from == 0)
    ensures hit ==> from <= at.blk < last && Hit(n, blks, name, at.blk, at.off, at.prev)
    ensures !hit ==> SearchInv(n, blks, name, from, last, need, at) && at.blk == last
  {
    at := At(from, 0, 0, Slot(if need > 0 then NONE else FOUND, -1, 0, from, 0, 0), 0);
    SearchStart(n, blks, name, from, last, need, at);
    while at.blk < last
      invariant SearchInv(n, blks, name, from, last, need, at)
      decreases last - at.blk, n - at.off
    {
      hit, at := SearchRecord(n, blks, name, from, last, need, at);
      if hit {
        return;
      }
    }
    hit := false;
  }

  /** The body of that loop: one record. */
  method SearchRecord(n: nat, blks: seq<Bytes>, name: Bytes, ghost from: nat, last: nat, need: nat, at: At)
    returns (hit: bool, at': At)
    requires SearchInv(n, blks, name, from, last, need, at) && at.blk < last
    ensures hit ==> at' == at && from <= at.blk && Hit(n, blks, name, at.blk, at.off, at.prev)
    ensures !hit ==> SearchInv(n, blks, name, from, last, need, at')
    ensures !hit ==> at'.blk == at.blk + 1 || (at'.blk == at.blk && at.off < at'.off <= n)
  {
    var b := blks[at.blk];
    Steps(n, blks, name, from, last, need, at);
    at' := at;
    hit := Matches(b, at.off, name);
    if !hit {
      at' := Advance(n, b, need, at);
      AdvanceKeeps(n, blks, name, from, last, need, at, at');
    }
  }

  method Matches(b: Bytes, off: nat, name: Bytes) returns (r: bool)
    requires Good(b, off, |b|)
    ensures r <==> Ino(b, off) != 0 && EntryAt(b, off).name == name
  {
    r := Ino(b, off) != 0 && Namlen(b, off) == |name| && b[off + HEADER..off + HEADER + Namlen(b, off)] == name;
  }

  lemma SearchStart(n: nat, blks: seq<Bytes>, name: Bytes, from: nat, last: nat, need: nat, at: At)
    requires n > 0 && BlocksOk(n, blks) && from <= last <= |blks|
    requires at == At(from, 0, 0, Slot(if need > 0 then NONE else FOUND, -1, 0, from, 0, 0), 0)
    requires need == 0 || from == 0
    ensures SearchInv(n, blks, name, from, last, need, at)
  {
    assert blks[from..from] == [];
    if from < last {
      assert BlockOk(n, blks[from]);
      assert Tiled(blks[from], 0, 0);
    }
  }

  // ---------------------------------------------------------------- what the search found

  /** The entry found is the one entry of that name. */
  lemma HitFinds(n: nat, blks: seq<Bytes>, name: Bytes, blk: nat, off: nat, prev: nat)
    requires BlocksOk(n, blks) && Unique(All(n, blks)) && Hit(n, blks, name, blk, off, prev)
    ensures Find(All(n, blks), name) == Some(EntryAt(blks[blk], off))
  {
    var b, next := blks[blk], Next(blks[blk], off);
    OneRecord(b, off, n);
    Changed(n, blks, blk, b, off, next);
    var a, c := All(n, blks[..blk]) + Live(b, 0, off), Live(b, next, n) + All(n, blks[blk + 1..]);
    Joined(a, EntryAt(b, off), c, name);
    assert Count(All(n, blks), name) <= 1;
  }

  lemma HitLive(n: nat, blks: seq<Bytes>, name: Bytes, blk: nat, off: nat, prev: nat)
    requires Hit(n, blks, name, blk, off, prev)
    ensures EntryAt(blks[blk], off) in Live(blks[blk], 0, n)
  {
    OneRecord(blks[blk], off, n);
    JoinRanges(blks[blk], 0, off, n);
  }

  lemma SplitAt(blks: seq<Bytes>, d: nat)
    requires d <= |blks|
    ensures blks[0..d] + blks[d..|blks|] == blks
  {
  }

  /** A name not met in any block is not in the directory; two passes, the first from block d on and the
      second up to there, meet all of them. */
  lemma MissFinds(n: nat, blks: seq<Bytes>, name: Bytes, d: nat)
    requires d <= |blks| && NotYet(n, blks, name, d, |blks|, 0) && NotYet(n, blks, name, 0, d, 0)
    ensures Find(All(n, blks), name).None? && Count(All(n, blks), name) == 0
  {
    SplitAt(blks, d);
    AllAppend(n, blks[0..d], blks[d..|blks|]);
    Append(All(n, blks[0..d]), All(n, blks[d..|blks|]), name);
    FindCount(All(n, blks), name);
  }

  /** Blocks with nothing in use can be cut off. */
  lemma {:induction false} NothingBehind(n: nat, blks: seq<Bytes>, keep: nat)
    requires keep <= |blks| && DeadSince(n, blks, keep, |blks|, 0)
    ensures BlocksOk(n, blks[..keep]) && All(n, blks[..keep]) == All(n, blks)
    decreases |blks| - keep
  {
    if keep == |blks| {
      assert blks[..keep] == blks;
    } else {
      NothingBehind(n, blks, keep + 1);
      DeadLast(n, blks[..keep], blks[keep], blks[..keep + 1]);
    }
  }

  /** A last block without live entries adds none. */
  lemma DeadLast(n: nat, a: seq<Bytes>, b: Bytes, all: seq<Bytes>)
    requires all == a + [b] && BlocksOk(n, a) && BlockOk(n, b) && Live(b, 0, n) == []
    ensures All(n, a) == All(n, all)
  {
    var none: seq<Bytes> := [];
    AllFirst(n, [b], b, none);
    AllAppend(n, a, [b]);
  }

  // ---------------------------------------------------------------- the directory as a map

  /** The directory es' is es with the entry e of a new name. */
  ghost predicate Added(es: seq<Entry>, es': seq<Entry>, e: Entry) {
    && Unique(es')
    && forall name :: Find(es', name) == if name == e.name then Some(e) else Find(es, name)
  }

  /** The directory es' is es without the entry of this name. */
  ghost predicate Dropped(es: seq<Entry>, es': seq<Entry>, gone: Bytes) {
    && Unique(es')
    && forall name :: Find(es', name) == if name == gone then None else Find(es, name)
  }

  lemma JoinedAdds(a: seq<Entry>, e: Entry, b: seq<Entry>)
    requires Unique(a + b) && Find(a + b, e.name).None?
    ensures Added(a + b, a + [e] + b, e)
  {
    FindCount(a + b, e.name);
    forall name
      ensures Count(a + [e] + b, name) <= 1
      ensures Find(a + [e] + b, name) == if name == e.name then Some(e) else Find(a + b, name)
    {
      Joined(a, e, b, name);
    }
  }

  lemma JoinedDrops(a: seq<Entry>, e: Entry, b: seq<Entry>)
    requires Unique(a + [e] + b)
    ensures Dropped(a + [e] + b, a + b, e.name)
  {
    forall name
      ensures Count(a + b, name) <= 1
      ensures Find(a + b, name) == if name == e.name then None else Find(a + [e] + b, name)
    {
      Joined(a, e, b, name);
      assert Count(a + [e] + b, name) <= 1 && Count(a + [e] + b, e.name) <= 1;
    }
  }

  /** In the block o, now b, the records from lo to hi made room for e behind them. */
  ghost predicate SlotFilled(n: nat, o: Bytes, b: Bytes, lo: nat, hi: nat, e: Entry) {
    && SameAround(o, b, lo, hi) && Tiled(o, 0, lo) && Tiled(o, lo, hi) && Tiled(o, hi, n) && Tiled(b, lo, hi)
    && Live(b, lo, hi) == Live(o, lo, hi) + [e]
  }

  /** Entering e into the slot adds it to the directory. */
  lemma SlotAdds(n: nat, blks: seq<Bytes>, k: nat, b: Bytes, lo: nat, hi: nat, e: Entry)
    requires BlocksOk(n, blks) && k < |blks| && SlotFilled(n, blks[k], b, lo, hi, e)
    requires Unique(All(n, blks)) && Find(All(n, blks), e.name).None?
    ensures BlocksOk(n, blks[k := b]) && Added(All(n, blks), All(n, blks[k := b]), e)
  {
    Changed(n, blks, k, b, lo, hi);
    var before := All(n, blks[..k]) + Live(blks[k], 0, lo) + Live(blks[k], lo, hi);
    var behind := Live(blks[k], hi, n) + All(n, blks[k + 1..]);
    assert All(n, blks[k := b]) == before + [e] + behind by {
      Associate(All(n, blks[..k]) + Live(blks[k], 0, lo), Live(blks[k], lo, hi), [e]);
    }
    JoinedAdds(before, e, behind);
  }

  /** A new block that holds nothing but e. */
  lemma BlockAdds(n: nat, blks: seq<Bytes>, b: Bytes, e: Entry)
    requires BlocksOk(n, blks) && BlockOk(n, b) && Live(b, 0, n) == [e]
    requires Unique(All(n, blks)) && Find(All(n, blks), e.name).None?
    ensures BlocksOk(n, blks + [b]) && Added(All(n, blks), All(n, blks + [b]), e)
  {
    var one := [b];
    assert one[1..] == [];
    AllAppend(n, blks, one);
    assert All(n, one) == [e];
    assert All(n, blks) + [] == All(n, blks) && All(n, blks) + [e] + [] == All(n, blks) + [e];
    JoinedAdds(All(n, blks), e, []);
  }

  /** A block whose one record is e. */
  lemma FreshBlock(n: nat, stale: Bytes, e: Entry, pad: Bytes)
    requires |stale| == n < 0x1_0000 && Aligned(n) && CanEnter(e, pad) && RecLen(|e.name|) <= n
    ensures var b := Put(stale, 0, NewRecord(e, n, pad)); BlockOk(n, b) && Live(b, 0, n) == [e]
  {
    assert SameAround(stale, stale, 0, n);
    assert Tiled(stale, 0, 0) && Live(stale, 0, 0) == [];
    Entered(stale, stale, 0, n, 0, e, pad, n);
  }

  /** In the block o, now b, the record between off and next is no longer in use; lo is off or the record
      before it. */
  ghost predicate Removed(n: nat, o: Bytes, b: Bytes, lo: nat, off: nat, next: nat) {
    && |o| == n && lo <= off && SameAround(o, b, lo, n)
    && Tiled(o, 0, lo) && Tiled(o, lo, off) && Good(o, off, n) && next == Next(o, off) && Tiled(o, next, n)
    && Tiled(b, lo, n)
    && Live(b, lo, n) == Live(o, lo, off) + Live(o, next, n)
  }

  /** Removing the entry at off of block k drops it from the directory. */
  lemma RemovalDrops(n: nat, blks: seq<Bytes>, k: nat, b: Bytes, lo: nat, off: nat, next: nat, e: Entry)
    requires BlocksOk(n, blks) && Unique(All(n, blks)) && k < |blks|
    requires Removed(n, blks[k], b, lo, off, next) && Ino(blks[k], off) != 0 && e == EntryAt(blks[k], off)
    ensures BlocksOk(n, blks[k := b]) && Dropped(All(n, blks), All(n, blks[k := b]), e.name)
  {
    var o := blks[k];
    RemovedRange(n, o, b, lo, off, next);
    assert Tiled(o, n, n) && Live(o, n, n) == [];
    Changed(n, blks, k, b, lo, n);
    var a, c, d, z := All(n, blks[..k]) + Live(o, 0, lo), Live(o, lo, off), Live(o, next, n), All(n, blks[k + 1..]);
    Rearranged(a, c, e, d, z);
    JoinedDrops(a + c, e, d + z);
  }

  lemma RemovedRange(n: nat, o: Bytes, b: Bytes, lo: nat, off: nat, next: nat)
    requires Removed(n, o, b, lo, off, next) && Ino(o, off) != 0
    ensures Tiled(o, lo, n) && Live(o, lo, n) == Live(o, lo, off) + ([EntryAt(o, off)] + Live(o, next, n))
  {
    OneRecord(o, off, n);
    JoinRanges(o, off, next, n);
    JoinRanges(o, lo, off, n);
  }

  lemma Rearranged(a: seq<Entry>, b: seq<Entry>, e: Entry, c: seq<Entry>, d: seq<Entry>)
    ensures a + (b + ([e] + c)) + ([] + d) == a + b + [e] + (c + d)
    ensures a + (b + c) + ([] + d) == a + b + (c + d)
  {
  }

  /** The blocks are lists of records, and no two entries have the same name. */
  ghost predicate DirOk(n: nat, blks: seq<Bytes>) {
    1024 <= n < 0x1_0000 && Aligned(n) && BlocksOk(n, blks) && Unique(All(n, blks))
  }

  /** Block k has e in the slot from off to hi now; the blocks before it, and those behind it up to the last one, are as
      they were. */
  ghost predicate InSlot(n: nat, o: seq<Bytes>, blks: seq<Bytes>, e: Entry, k: nat, off: nat, hi: nat) {
    && k < |blks| <= |o| && SlotFilled(n, o[k], blks[k], off, hi, e)
    && forall j :: 0 <= j < |blks| && j != k ==> blks[j] == o[j]
  }

  /** Behind the first `useful` blocks nothing is in use, but in the last one of these something is. */
  ghost predicate Behind(n: nat, blks: seq<Bytes>, useful: nat) {
    && useful <= |blks| && DeadSince(n, blks, useful, |blks|, 0)
    && (useful > 0 ==> LastInUse(n, blks[..useful]))
  }

  /** The last block of the directory has something in use. */
  ghost predicate LastInUse(n: nat, blks: seq<Bytes>) {
    blks != [] && BlockOk(n, blks[|blks| - 1]) && Live(blks[|blks| - 1], 0, n) != []
  }

  /** A new last block holds nothing but e. */
  ghost predicate InNewBlock(n: nat, o: seq<Bytes>, blks: seq<Bytes>, e: Entry) {
    blks != [] && blks[..|blks| - 1] == o && BlockOk(n, blks[|blks| - 1]) && Live(blks[|blks| - 1], 0, n) == [e]
  }

  lemma EndIsBehind(n: nat, blks: seq<Bytes>, at: At)
    requires EndKnown(n, blks, at) && at.blk == |blks| && at.off == 0
    ensures Behind(n, blks, at.useful)
  {
    if at.useful > 0 {
      assert BlockOk(n, blks[at.useful - 1]) && blks[..at.useful][at.useful - 1] == blks[at.useful - 1];
    }
  }

  lemma StaysDead(n: nat, blks: seq<Bytes>, useful: nat, end: nat)
    requires DeadSince(n, blks, useful, |blks|, 0) && useful <= end <= |blks|
    ensures DeadSince(n, blks, end, |blks|, 0)
  {
  }

  lemma SlotEntered(n: nat, o: seq<Bytes>, b: Bytes, e: Entry, k: nat, off: nat, hi: nat, blks: seq<Bytes>, end: nat)
    requires DirOk(n, o) && Find(All(n, o), e.name).None? && k < end <= |o| && blks == o[k := b]
    requires SlotFilled(n, o[k], b, off, hi, e)
    requires DeadSince(n, o, end, |o|, 0)
    ensures DirOk(n, blks) && Added(All(n, o), All(n, blks), e) && DeadSince(n, blks, end, |blks|, 0)
  {
    SlotAdds(n, o, k, b, off, hi, e);
    StillDead(n, o, blks, end, k);
  }

  lemma SlotUsed(n: nat, o: seq<Bytes>, b: Bytes, e: Entry, k: nat, off: nat, hi: nat, useful: nat, blks: seq<Bytes>)
    requires BlocksOk(n, o) && Behind(n, o, useful) && k < |o| && SlotFilled(n, o[k], b, off, hi, e)
    requires |blks| == (if useful < k + 1 then k + 1 else useful) && blks == o[k := b][..|blks|]
    ensures InSlot(n, o, blks, e, k, off, hi) && LastInUse(n, blks)
  {
    HasEntry(n, o[k], b, off, hi, e);
    LastOfCut(n, o, b, k, useful, blks);
  }

  lemma LastOfCut(n: nat, o: seq<Bytes>, b: Bytes, k: nat, useful: nat, blks: seq<Bytes>)
    requires BlocksOk(n, o) && k < |o| && useful <= |o| && (useful > 0 ==> LastInUse(n, o[..useful]))
    requires |blks| == (if useful < k + 1 then k + 1 else useful) && blks == o[k := b][..|blks|]
    requires BlockOk(n, b) && Live(b, 0, n) != []
    ensures LastInUse(n, blks)
  {
    var last := |blks| - 1;
    assert blks[last] == if last == k then b else o[..useful][last];
  }

  lemma HasEntry(n: nat, o: Bytes, b: Bytes, lo: nat, hi: nat, e: Entry)
    requires BlockOk(n, o) && SlotFilled(n, o, b, lo, hi, e)
    ensures BlockOk(n, b) && Live(b, 0, n) != []
  {
    assert o[0..lo] == o[..lo] == b[..lo] == b[0..lo];
    assert o[hi..n] == o[hi..] == b[hi..] == b[hi..n];
    SameRange(o, b, 0, lo);
    SameRange(o, b, hi, n);
    Whole(b, lo, hi, n);
  }

  class Directory {
    const n: nat            // DIRBLKSIZ: the size of a block
    var blks: seq<Bytes>
    var diroff: nat         // i_diroff: the block where the last lookup ended
    var endoff: nat         // i_endoff, in blocks: what is behind may be cut off

    ghost predicate Valid()
      reads this
    {
      DirOk(n, blks)
    }

    /** The entry of a name. */
    ghost function Get(name: Bytes): Option<Entry>
      reads this
      requires Valid()
    {
      Find(All(n, blks), name)
    }

    /** A lookup that only looks: two passes when there is a cached place to start from.  It finds the name
        exactly when the directory has it, whatever is cached. */
    method Lookup(name: Bytes) returns (r: Option<Entry>)
      requires Valid()
      modifies this`diroff
      ensures Valid() && r == Get(name)
      ensures if r.Some? then diroff < |blks| && BlockOk(n, blks[diroff]) && r.value in Live(blks[diroff], 0, n)
              else diroff == old(diroff)
    {
      var start := if diroff > |blks| then 0 else diroff;
      var hit, at := Search(n, blks, name, start, |blks|, 0);
      if !hit && start > 0 {
        hit, at := Search(n, blks, name, 0, start, 0);
      }
      if hit {
        HitFinds(n, blks, name, at.blk, at.off, at.prev);
        HitLive(n, blks, name, at.blk, at.off, at.prev);
        diroff := at.blk;
        return Some(EntryAt(blks[at.blk], at.off));
      }
      if start == 0 {
        assert blks[0..0] == [];
      }
      MissFinds(n, blks, name, start);
      return None;
    }

    /** ext2_lookup for creation: whether the name is taken; if not, the slot, and how many blocks there are up to the
        last one with something in use. */
    method FindSlot(name: Bytes, need: nat) returns (hit: bool, st: Slot, ghost hi: nat, useful: nat)
      requires Valid() && need > 0
      ensures hit <==> Get(name).Some?
      ensures !hit ==> Count(All(n, blks), name) == 0 && Behind(n, blks, useful) && hi == st.off + st.size
      ensures !hit ==> (st.status.NONE? <==> forall k :: 0 <= k < |blks| ==> Space(blks[k], 0, n) < need)
      ensures !hit && !st.status.NONE? ==>
                SlotOk(n, blks, st.blk, st.off, st.size, need) && SlotChosen(n, blks, need, st.blk, st.off, hi)
    {
      var at;
      hit, at := Search(n, blks, name, 0, |blks|, need);
      st, useful, hi := at.st, at.useful, at.st.off + at.st.size;
      if hit {
        HitFinds(n, blks, name, at.blk, at.off, at.prev);
        return;
      }
      assert blks[0..0] == [];
      MissFinds(n, blks, name, |blks|);
      EndIsBehind(n, blks, at);
      NoneMeansFull(n, blks, at.st, need);
      if !st.status.NONE? {
        SlotIsChosen(n, blks, st, hi, need);
      }
    }

    /** ext2_lookup for creation, and ext2_direnter: the entry joins the directory unless its name is taken.  `pad` and
        `stale` are bytes that do not matter.  It goes to the slot chosen in block k, or to a new block when there is
        none.  Afterwards the directory ends with its last block in use. */
    method Create(e: Entry, pad: Bytes, stale: Bytes) returns (ok: bool, ghost k: nat, ghost off: nat, ghost hi: nat)
      requires Valid() && CanEnter(e, pad) && |stale| == n
      modifies this`blks, this`endoff
      ensures Valid() && (ok <==> old(Get(e.name)).None?)
      ensures !ok ==> blks == old(blks)
      ensures ok ==> Added(old(All(n, blks)), All(n, blks), e)
      ensures ok ==> LastInUse(n, blks)
      ensures ok ==> InNewBlock(n, old(blks), blks, e)
                     || (InSlot(n, old(blks), blks, e, k, off, hi) && Compacted(blks[k], off, hi, e)
                         && SlotChosen(n, old(blks), RecLen(|e.name|), k, off, hi))
      ensures ok ==> (|blks| == |old(blks)| + 1 <==>
                        forall k :: 0 <= k < |old(blks)| ==> Space(old(blks)[k], 0, n) < RecLen(|e.name|))
    {
      var need := RecLen(|e.name|);
      var hit, st, useful;
      hit, st, hi, useful := FindSlot(e.name, need);
      k, off := st.blk, st.off;
      ok := !hit;
      if ok {
        if st.status.NONE? {
          AppendBlock(e, pad, stale);
        } else {
          UseSlot(st, hi, useful, e, pad, need);
        }
      }
    }

    /** ext2_direnter when there is no slot. */
    method AppendBlock(e: Entry, pad: Bytes, stale: Bytes)
      requires Valid() && CanEnter(e, pad) && |stale| == n && Get(e.name).None?
      modifies this`blks, this`endoff
      ensures Valid() && Added(old(All(n, blks)), All(n, blks), e)
      ensures InNewBlock(n, old(blks), blks, e)
    {
      FreshBlock(n, stale, e, pad);
      var b := Put(stale, 0, NewRecord(e, n, pad));
      BlockAdds(n, blks, b, e);
      endoff := |blks|;
      blks := blks + [b];
      assert blks[..|blks| - 1] == old(blks);
    }

    /** With a slot found: i_endoff, and ext2_direnter. */
    method UseSlot(st: Slot, ghost hi: nat, useful: nat, e: Entry, pad: Bytes, need: nat)
      requires Valid() && CanEnter(e, pad) && need == RecLen(|e.name|) && Get(e.name).None?
      requires SlotOk(n, blks, st.blk, st.off, st.size, need) && hi == st.off + st.size
      requires Behind(n, blks, useful)
      modifies this`blks, this`endoff
      ensures Valid() && Added(old(All(n, blks)), All(n, blks), e) && |blks| <= |old(blks)|
      ensures InSlot(n, old(blks), blks, e, st.blk, st.off, hi) && LastInUse(n, blks)
      ensures Compacted(blks[st.blk], st.off, hi, e)
    {
      var k := st.blk;
      endoff := if useful < k + 1 then k + 1 else useful;
      ghost var o := blks;
      StaysDead(n, o, useful, endoff);
      EnterSlot(k, st.off, st.size, hi, e, pad, need);
      SlotUsed(n, o, blks[k], e, k, st.off, hi, useful, blks);
    }

    /** ext2_direnter into a slot, and the cut behind the last block in use. */
    method EnterSlot(k: nat, off: nat, size: nat, ghost hi: nat, e: Entry, pad: Bytes, need: nat)
      requires Valid() && CanEnter(e, pad) && need == RecLen(|e.name|) && Get(e.name).None?
      requires SlotOk(n, blks, k, off, size, need) && hi == off + size && k < endoff && endoff <= |blks|
      requires DeadSince(n, blks, endoff, |blks|, 0)
      modifies this`blks
      ensures Valid() && Added(old(All(n, blks)), All(n, blks), e)
      ensures k < |blks| == endoff && blks == old(blks)[k := blks[k]][..endoff]
      ensures SlotFilled(n, old(blks)[k], blks[k], off, hi, e) && Compacted(blks[k], off, hi, e)
    {
      var b := EnterAt(blks[k], off, size, hi, e, pad);
      SlotEntered(n, blks, b, e, k, off, hi, blks[k := b], endoff);
      blks := blks[k := b];
      CutBehind();
    }

    /** The truncation at the end of ext2_direnter drops nothing that is in use. */
    method CutBehind()
      requires Valid() && endoff <= |blks| && DeadSince(n, blks, endoff, |blks|, 0)
      modifies this`blks
      ensures Valid() && All(n, blks) == All(n, old(blks))
      ensures blks == old(blks)[..endoff]
    {
      if endoff < |blks| {
        NothingBehind(n, blks, endoff);
        blks := blks[..endoff];
      }
    }

    /** ext2_direnter in the buffer of a block. */
    method EnterAt(o: Bytes, off: nat, size: nat, ghost hi: nat, e: Entry, pad: Bytes) returns (b: Bytes)
      requires |o| == n < 0x1_0000 && CanEnter(e, pad) && SlotIn(n, o, off, size, RecLen(|e.name|)) && hi == off + size
      ensures SlotFilled(n, o, b, off, hi, e) && Compacted(b, off, hi, e)
    {
      var bp := Buffer(o);
      Enter(bp, off, size, hi, e, pad);
      b := bp[..];
    }

    /** Read a block into a buffer. */
    method Buffer(b: Bytes) returns (bp: array<byte>)
      ensures fresh(bp) && bp[..] == b
    {
      bp := new byte[|b|](i requires 0 <= i < |b| => b[i]);
    }

    /** ext2_lookup for removal, and ext2_dirremove. */
    method Remove(name: Bytes) returns (ok: bool, ghost k: nat)
      requires Valid()
      modifies this`blks
      ensures Valid() && (ok <==> old(Get(name)).Some?)
      ensures !ok ==> blks == old(blks)
      ensures ok ==> Dropped(old(All(n, blks)), All(n, blks), name)
      ensures ok ==> k < |blks| == |old(blks)| && blks == old(blks)[k := blks[k]]
    {
      var hit, at := Search(n, blks, name, 0, |blks|, 0);
      if !hit {
        assert blks[0..0] == [];
        MissFinds(n, blks, name, |blks|);
        return false, 0;
      }
      HitFinds(n, blks, name, at.blk, at.off, at.prev);
      var b := RemoveAt(blks[at.blk], at.off, at.prev);
      RemovalDrops(n, blks, at.blk, b, if at.off == 0 then 0 else at.prev, at.off,
                   Next(blks[at.blk], at.off), EntryAt(blks[at.blk], at.off));
      blks := blks[at.blk := b];
      ok, k := true, at.blk;
    }

    /** ext2_dirremove in the buffer of a block. */
    method RemoveAt(o: Bytes, off: nat, prev: nat) returns (b: Bytes)
      requires BlockOk(n, o) && Good(o, off, n) && Tiled(o, off, n) && Tiled(o, 0, off)
      requires off > 0 ==> Tiled(o, 0, prev) && Good(o, prev, n) && Next(o, prev) == off
      ensures Removed(n, o, b, if off == 0 then 0 else prev, off, Next(o, off))
    {
      if off == 0 {
        b := RemoveFirstAt(o);
      } else {
        b := RemoveLaterAt(o, prev, off, Next(o, off));
      }
    }

    method RemoveFirstAt(o: Bytes) returns (b: Bytes)
      requires BlockOk(n, o) && Good(o, 0, n)
      ensures Removed(n, o, b, 0, 0, Reclen(o, 0))
    {
      var bp := Buffer(o);
      RemoveFirst(bp, 0, n);
      RemovedFirst(n, o, bp[..], Reclen(o, 0));
      b := bp[..];
    }

    method RemoveLaterAt(o: Bytes, prev: nat, ghost off: nat, ghost next: nat) returns (b: Bytes)
      requires BlockOk(n, o) && Tiled(o, 0, prev) && Good(o, prev, n) && Next(o, prev) == off
      requires Good(o, off, n) && next == Next(o, off) && Tiled(o, next, n)
      ensures Removed(n, o, b, prev, off, next)
    {
      var bp := Buffer(o);
      RemoveLater(bp, prev, n, next);
      RemovedLater(n, o, bp[..], prev, off, next);
      b := bp[..];
    }
  }

  lemma RemovedFirst(n: nat, o: Bytes, b: Bytes, next: nat)
    requires BlockOk(n, o) && Good(o, 0, n) && next == Reclen(o, 0) && Tiled(o, next, n)
    requires SameAround(o, b, 0, n) && Tiled(b, 0, n) && Live(b, 0, n) == Live(o, next, n)
    ensures Removed(n, o, b, 0, 0, next)
  {
    assert Tiled(o, 0, 0) && Live(o, 0, 0) == [];
  }

  lemma RemovedLater(n: nat, o: Bytes, b: Bytes, prev: nat, off: nat, next: nat)
    requires BlockOk(n, o) && Tiled(o, 0, prev) && Good(o, prev, n) && Next(o, prev) == off
    requires Good(o, off, n) && next == Next(o, off) && Tiled(o, next, n)
    requires SameAround(o, b, prev, n) && Tiled(b, prev, n) && Live(b, prev, n) == Used(o, prev) + Live(o, next, n)
    ensures Removed(n, o, b, prev, off, next)
  {
    OneRecord(o, prev, n);
  }

  /** The blocks behind `useful` stay unused when an earlier one changes. */
  lemma StillDead(n: nat, blks: seq<Bytes>, blks': seq<Bytes>, useful: nat, k: nat)
    requires DeadSince(n, blks, useful, |blks|, 0) && k < useful && k < |blks|
    requires BlocksOk(n, blks') && |blks'| == |blks| && forall j :: 0 <= j < |blks| && j != k ==> blks'[j] == blks[j]
    ensures DeadSince(n, blks', useful, |blks'|, 0)
  {
  }
}
