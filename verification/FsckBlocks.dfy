/// Reference counting in fsck: a bitmap, a list of duplicates, and the passes that use them.
///
/// Every reference to a block beyond the first is one node of a linked list.  The first part of the list,
/// up to the node `muldup`, holds each duplicate block once; the nodes behind it repeat blocks of the first
/// part.  The list is modelled as a sequence, with `mul` the number of nodes up to and including muldup.
module FsckBlocks {
  import opened Arith

  const MAXDUP := 10
  const MAXBAD := 10

  datatype Result = KEEPON | SKIP | STOP

  // ---------------------------------------------------------------- chkrange

  const TWO32 := 0x1_0000_0000

  /** chkrange for one block, in unsigned 32-bit arithmetic; overh is the overhead of the block's group. */
  function ChkRange(blk: nat, maxfsblock: nat, bpg: nat, first: nat, overh: nat): bool
    requires bpg > 0
  {
    var next := (blk + 1) % TWO32;
    var c := ((blk - first) % TWO32) / bpg;
    var cgdmin, cgdmax := DataFrom(bpg, c, first, overh), DataFrom(bpg, c + 1, first, overh);
    next > maxfsblock || (if blk < cgdmin then next > cgdmin else next > cgdmax)
  }

  /** Where the data of group c begin. */
  function DataFrom(bpg: nat, c: nat, first: nat, overh: nat): nat {
    (bpg * c + overh + first) % TWO32
  }

  lemma DataFromIs(bpg: nat, c: nat, first: nat, overh: nat)
    requires bpg * (c + 1) + overh + first < TWO32
    ensures DataFrom(bpg, c, first, overh) == bpg * c + overh + first
    ensures DataFrom(bpg, c + 1, first, overh) == bpg * c + bpg + overh + first
  {
    assert bpg * (c + 1) == bpg * c + bpg;
    SmallMod(bpg * c + overh + first, TWO32);
    SmallMod(bpg * (c + 1) + overh + first, TWO32);
  }

  /** It rejects the blocks behind the end of the volume, except the very last 32-bit number. */
  lemma ChkRangeRejects(blk: nat, maxfsblock: nat, bpg: nat, first: nat, overh: nat)
    requires 0 < bpg && overh <= bpg && first <= 1 && blk < TWO32 && maxfsblock + 2 * bpg + 1 < TWO32
    requires first <= blk
    ensures blk != TWO32 - 1 ==> (ChkRange(blk, maxfsblock, bpg, first, overh) <==> blk >= maxfsblock)
  {
    if blk < maxfsblock {
      var d := blk - first;
      DivMod(d, bpg);
      SmallMod(d, TWO32);
      SmallMod(blk + 1, TWO32);
      assert bpg * (d / bpg + 1) == bpg * (d / bpg) + bpg;
      DataFromIs(bpg, d / bpg, first, overh);
    }
  }

  /** Block 0xffffffff wraps to 0 and gets through. */
  lemma LastNumberGetsThrough()
    ensures !ChkRange(TWO32 - 1, 1024, 8192, 1, 10)
  {
  }

  // ---------------------------------------------------------------- lists with repetitions

  function Occurs(l: seq<int>, b: int): nat {
    if l == [] then 0 else (if l[0] == b then 1 else 0) + Occurs(l[1..], b)
  }

  lemma {:induction false} OccursAppend(a: seq<int>, c: seq<int>, b: int)
    ensures Occurs(a + c, b) == Occurs(a, b) + Occurs(c, b)
  {
    if a == [] {
      assert a + c == c;
    } else {
      OccursAppend(a[1..], c, b);
      assert (a + c)[0] == a[0] && (a + c)[1..] == a[1..] + c;
    }
  }

  lemma {:induction false} OccursIn(l: seq<int>, b: int)
    ensures Occurs(l, b) > 0 <==> b in l
  {
    if l != [] {
      OccursIn(l[1..], b);
      assert b in l <==> b == l[0] || b in l[1..];
    }
  }

  lemma OccursOne(b: int, x: int)
    ensures Occurs([b], x) == if x == b then 1 else 0
  {
    assert [b][1..] == [];
  }

  lemma OccursInsert(l: seq<int>, i: nat, b: int, x: int)
    requires i <= |l|
    ensures Occurs(l[..i] + [b] + l[i..], x) == Occurs(l, x) + if x == b then 1 else 0
  {
    assert l == l[..i] + l[i..];
    OccursAppend(l[..i] + [b], l[i..], x);
    OccursAppend(l[..i], [b], x);
    OccursAppend(l[..i], l[i..], x);
    OccursOne(b, x);
  }

  lemma OccursSplit(l: seq<int>, i: nat, x: int)
    requires i < |l|
    ensures Occurs(l, x) == Occurs(l[..i], x) + (if x == l[i] then 1 else 0) + Occurs(l[i + 1..], x)
  {
    assert l == l[..i] + [l[i]] + l[i + 1..];
    OccursAppend(l[..i] + [l[i]], l[i + 1..], x);
    OccursAppend(l[..i], [l[i]], x);
    OccursOne(l[i], x);
  }

  lemma OccursUpdate(l: seq<int>, i: nat, v: int, x: int)
    requires i < |l|
    ensures Occurs(l[i := v], x) == Occurs(l, x) - (if x == l[i] then 1 else 0) + (if x == v then 1 else 0)
  {
    OccursSplit(l, i, x);
    OccursSplit(l[i := v], i, x);
    assert l[i := v][..i] == l[..i] && l[i := v][i + 1..] == l[i + 1..];
  }

  /** Removing node i by moving the head's block into it and dropping the head. */
  lemma OccursDrop(l: seq<int>, i: nat, x: int)
    requires i < |l|
    ensures Occurs(l[i := l[0]][1..], x) == Occurs(l, x) - if x == l[i] then 1 else 0
  {
    OccursUpdate(l, i, l[0], x);
    var m := l[i := l[0]];
    assert m[0] == l[0];
  }

  /** The first k nodes hold different blocks. */
  ghost predicate Distinct(l: seq<int>, k: nat) {
    k <= |l| && forall i, j :: 0 <= i < j < k ==> l[i] != l[j]
  }

  /** The list as pass 1 keeps it: its first part holds each duplicate once, the rest repeats them. */
  ghost predicate ListOk(l: seq<int>, mul: nat) {
    && Distinct(l, mul) && (l == [] <==> mul == 0)
    && forall x :: x in l ==> x in l[..mul]
  }

  // ---------------------------------------------------------------- the recorded references

  function Marked(used: seq<bool>): set<int> {
    set b | 0 <= b < |used| && used[b]
  }

  /** How often block b is referenced, as recorded: its bit, and its nodes in the list. */
  function Recorded(used: seq<bool>, dups: seq<int>, b: int): nat {
    (if 0 <= b < |used| && used[b] then 1 else 0) + Occurs(dups, b)
  }

  /** Only blocks with their bit set are in the list. */
  ghost predicate Backed(used: seq<bool>, dups: seq<int>) {
    forall x :: x in dups ==> 0 <= x < |used| && used[x]
  }

  /** The first parts hold the same blocks, each once, and the rest is the same. */
  ghost predicate SameFirstPart(l: seq<int>, l': seq<int>, mul: nat) {
    && mul <= |l| == |l'| && l'[mul..] == l[mul..] && Distinct(l', mul)
    && forall x :: x in l'[..mul] <==> x in l[..mul]
  }

  /** Node m's block moves to node h, and the other way round. */
  function Swapped(l: seq<int>, h: nat, m: nat): seq<int>
    requires h <= m < |l|
  {
    l[m := l[h]][h := l[m]]
  }

  lemma SwapKeeps(l: seq<int>, h: nat, m: nat, mul: nat)
    requires ListOk(l, mul) && h <= m < mul
    ensures ListOk(Swapped(l, h, m), mul) && SameFirstPart(l, Swapped(l, h, m), mul)
    ensures Swapped(l, h, m)[..h + 1] == l[..h] + [l[m]]
  {
    var l' := Swapped(l, h, m);
    assert l'[..h + 1] == l[..h] + [l[m]];
    forall x
      ensures x in l'[..mul] <==> x in l[..mul]
    {
      if x in l[..mul] {
        var i :| 0 <= i < mul && l[i] == x;
        assert l'[if i == h then m else if i == m then h else i] == x;
      }
      if x in l'[..mul] {
        var i :| 0 <= i < mul && l'[i] == x;
        assert l[if i == h then m else if i == m then h else i] == x;
      }
    }
    assert l'[mul..] == l[mul..];
    forall x | x in l'
      ensures x in l'[..mul]
    {
      assert l' == l'[..mul] + l[mul..] && l == l[..mul] + l[mul..];
    }
  }

  /** A second match in one scan is impossible: the blocks of the first part are different. */
  lemma SwappedFacts(l: seq<int>, h: nat, i: nat, mul: nat, reported: bool, l': seq<int>, b: int)
    requires ListOk(l, mul) && h <= i < mul && i < |l'| && l'[i] == b
    requires reported ==> exists m :: h <= m < i && l[m] == b && l' == Swapped(l, h, m)
    ensures !reported
  {
  }

  /** A duplicate not met yet lies behind the head. */
  lemma Unmet(l: seq<int>, head: nat, mul: nat, b: int)
    requires ListOk(l, mul) && head <= mul
    ensures b in l[head..mul] <==> b in l[..mul] && b !in l[..head]
  {
    assert l[..mul] == l[..head] + l[head..mul];
    if b in l[head..mul] {
      var i :| head <= i < mul && l[i] == b;
      assert forall j :: 0 <= j < head ==> l[j] != l[i];
    }
  }

  /** Position k of the walk is the first reference to a block of the list d. */
  ghost predicate FirstMet(walk: seq<nat>, d: seq<int>, k: nat) {
    k < |walk| && walk[k] in d && forall j :: 0 <= j < k ==> walk[j] != walk[k]
  }

  /** Of the blocks of d, those the walk has come to before position k are in `met`; their first references are
      reported. */
  ghost predicate Met(walk: seq<nat>, k: nat, d: seq<int>, met: seq<int>, reported: set<nat>) {
    && k <= |walk| && (forall x :: x in met <==> x in d && x in walk[..k])
    && (forall j: nat :: j in reported <==> j < k && FirstMet(walk, d, j))
  }

  lemma MetOneMore(walk: seq<nat>, k: nat, d: seq<int>, met: seq<int>, met': seq<int>, reported: set<nat>, more: bool)
    requires k < |walk| && Met(walk, k, d, met, reported) && (more <==> walk[k] in d && walk[k] !in met)
    requires forall x :: x in met' <==> x in met || (more && x == walk[k])
    ensures Met(walk, k + 1, d, met', if more then reported + {k} else reported)
  {
    assert walk[..k + 1] == walk[..k] + [walk[k]];
    assert walk[k] in walk[..k] <==> exists j :: 0 <= j < k && walk[j] == walk[k];
  }

  /** Position k of the walk is the first reference to a block that is recorded more than once. */
  ghost predicate FirstReference(walk: seq<nat>, recorded: multiset<int>, k: nat) {
    k < |walk| && recorded[walk[k]] >= 2 && forall j :: 0 <= j < k ==> walk[j] != walk[k]
  }

  lemma InListTwice(used: seq<bool>, l: seq<int>, mul: nat, refs: multiset<int>, b: int)
    requires ListOk(l, mul) && Backed(used, l) && refs[b] == Recorded(used, l, b)
    ensures b in l[..mul] <==> refs[b] >= 2
  {
    OccursIn(l, b);
    assert l == l[..mul] + l[mul..];
  }

  /** A list of different blocks has each of them once. */
  lemma {:induction false} OccursOnce(l: seq<int>, b: int)
    requires Distinct(l, |l|)
    ensures Occurs(l, b) == if b in l then 1 else 0
  {
    if l != [] {
      var t := l[1..];
      forall i, j | 0 <= i < j < |t|
        ensures t[i] != t[j]
      {
        assert l[i + 1] != l[j + 1];
      }
      OccursOnce(t, b);
      assert b in l <==> b == l[0] || b in t;
    }
  }

  lemma SameOccurs(l: seq<int>, l': seq<int>, mul: nat, b: int)
    requires ListOk(l, mul) && SameFirstPart(l, l', mul)
    ensures Occurs(l', b) == Occurs(l, b)
  {
    assert l == l[..mul] + l[mul..] && l' == l'[..mul] + l[mul..];
    OccursAppend(l[..mul], l[mul..], b);
    OccursAppend(l'[..mul], l[mul..], b);
    OccursOnce(l[..mul], b);
    OccursOnce(l'[..mul], b);
  }

  /** Permuting the first part changes nothing that is recorded. */
  lemma StaysCounted(used: seq<bool>, l: seq<int>, l': seq<int>, mul: nat)
    requires ListOk(l, mul) && SameFirstPart(l, l', mul) && Backed(used, l)
    ensures Backed(used, l') && forall b :: Recorded(used, l', b) == Recorded(used, l, b)
  {
    forall b
      ensures Recorded(used, l', b) == Recorded(used, l, b)
    {
      SameOccurs(l, l', mul, b);
    }
    forall x | x in l'
      ensures 0 <= x < |used| && used[x]
    {
      OccursIn(l', x);
      SameOccurs(l, l', mul, x);
      OccursIn(l, x);
    }
  }

  /** What one scan behind the head leaves: the block reported, if there is one, joins those met before. */
  lemma ScanEnds(was: seq<int>, h: nat, mul: nat, now: seq<int>, head: nat, reported: bool, b: int)
    requires ListOk(was, mul) && h <= mul && (mul > 0 ==> h < mul)
    requires reported ==> head == h + 1 && exists m :: h <= m < mul && was[m] == b && now == Swapped(was, h, m)
    requires !reported ==> now == was && head == h && forall i :: h <= i < mul ==> was[i] != b
    ensures ListOk(now, mul) && SameFirstPart(was, now, mul) && head <= mul
    ensures reported <==> b in was[h..mul]
    ensures forall x :: x in now[..head] <==> x in was[..h] || (reported && x == b)
  {
    if reported {
      var m :| h <= m < mul && was[m] == b && now == Swapped(was, h, m);
      SwapKeeps(was, h, m, mul);
      assert was[h..mul][m - h] == b;
      assert now[..head] == was[..h] + [b];
    } else {
      assert forall i :: h <= i < mul ==> was[h..mul][i - h] == was[i];
    }
  }

  class Checker {
    var used: seq<bool>     // blockmap
    var dups: seq<int>      // duplist
    var mul: nat            // how many nodes up to muldup
    var nblks: int          // n_blks
    var badblk: nat
    var dupblk: nat
    var head: nat           // duphead: how many duplicates pass 1b has met
    ghost var refs: multiset<int>   // all references recorded so far
    ghost var meta: set<int>        // blocks marked as metadata before any inode was looked at

    /** What is recorded is what the references were; n_blks counts the blocks marked since the start. */
    ghost predicate Counted()
      reads this
    {
      (forall b :: refs[b] == Recorded(used, dups, b)) && Backed(used, dups) && nblks == |Marked(used)| - |meta|
    }

    ghost predicate Valid()
      reads this
    {
      Counted() && ListOk(dups, mul)
    }

    // -------------------------------------------------------------- pass 1

    /** The start of pass 1: the blocks of the file system itself are marked, some of them perhaps more
        than once. */
    constructor (maxfsblock: nat, reserved: seq<nat>)
      requires forall i :: 0 <= i < |reserved| ==> reserved[i] < maxfsblock
      ensures Valid() && |used| == maxfsblock && nblks == 0 && meta == (set b | b in reserved :: b as int)
      ensures forall b :: refs[b] == if b in meta then 1 else 0
      ensures badblk == dupblk == 0
    {
      used := seq(maxfsblock, _ => false);
      dups, mul, nblks, badblk, dupblk := [], 0, 0, 0, 0;
      new;
      var i := 0;
      while i < |reserved|
        invariant 0 <= i <= |reserved| && |used| == maxfsblock
        invariant dups == [] && mul == 0 && nblks == 0 && badblk == dupblk == 0
        invariant forall b :: 0 <= b < maxfsblock ==> (used[b] <==> b in reserved[..i])
      {
        used := used[reserved[i] := true];
        i := i + 1;
      }
      assert reserved[..i] == reserved;
      meta := Marked(used);
      refs := multiset(meta);
    }

    /** pass1check, for one reference.  Unless a limit is hit the reference is recorded: in the bitmap if it
        is the first one, else in the list. */
    method Pass1Check(blkno: nat) returns (r: Result)
      requires Valid()
      modifies this
      ensures Valid() && |used| == |old(used)| && meta == old(meta)
      ensures r.STOP? <==> (blkno >= |used| && old(badblk) >= MAXBAD)
                           || (blkno < |used| && old(used)[blkno] && old(dupblk) >= MAXDUP)
      ensures r.SKIP? ==> blkno >= |used|
      ensures r.STOP? ==> refs == old(refs) && used == old(used)
      ensures badblk == old(badblk) + (if blkno >= |used| then 1 else 0)
      ensures dupblk == old(dupblk) + (if blkno < |used| && old(used)[blkno] then 1 else 0)
      ensures |dups| == |old(dups)| + (if blkno < |used| && old(used)[blkno] && !r.STOP? then 1 else 0)
      ensures !r.STOP? ==> refs == old(refs) + One(blkno, |used|)
    {
      if blkno >= |used| {
        badblk := badblk + 1;
        return if badblk > MAXBAD then STOP else SKIP;
      }
      if !used[blkno] {
        MarkBlock(blkno);
        refs := refs + multiset{blkno};
        return KEEPON;
      }
      dupblk := dupblk + 1;
      if dupblk > MAXDUP {
        return STOP;
      }
      AddDup(blkno);
      return KEEPON;
    }

    /** A block referenced for the first time. */
    method MarkBlock(blkno: nat)
      requires blkno < |used| && !used[blkno] && Backed(used, dups) && nblks == |Marked(used)| - |meta|
      modifies this`used, this`nblks
      ensures used == old(used)[blkno := true] && nblks == old(nblks) + 1
      ensures Backed(used, dups) && nblks == |Marked(used)| - |meta|
      ensures forall b :: Recorded(used, dups, b) == Recorded(old(used), dups, b) + if b == blkno then 1 else 0
    {
      assert Marked(used[blkno := true]) == Marked(used) + {blkno} && blkno !in Marked(used);
      nblks := nblks + 1;
      used := used[blkno := true];
    }

    /** A block referenced once more: a new node behind muldup, which becomes muldup if the block is new to
        the list. */
    method AddDup(blkno: nat)
      requires Valid() && blkno < |used| && used[blkno]
      modifies this`dups, this`mul, this`refs
      ensures Valid() && refs == old(refs) + multiset{blkno} && |dups| == |old(dups)| + 1
    {
      ghost var was, k := dups, mul;
      if mul == 0 {
        dups, mul := [blkno], 1;
      } else {
        dups := dups[..mul] + [blkno] + dups[mul..];
        var dlp := 0;
        while dlp != mul - 1
          invariant 0 <= dlp <= mul - 1 && forall i :: 0 <= i < dlp ==> dups[i] != blkno
        {
          if dups[dlp] == blkno {
            break;
          }
          dlp := dlp + 1;
        }
        assert forall i :: 0 <= i < k ==> dups[i] == was[i] == was[..k][i];
        if dlp == mul - 1 && dups[dlp] != blkno {
          assert blkno !in was[..k];
          mul := mul + 1;
        } else {
          assert was[..k][dlp] == blkno;
        }
      }
      forall x
        ensures Occurs(dups, x) == Occurs(was, x) + if x == blkno then 1 else 0
      {
        OccursInsert(was, k, blkno, x);
        assert was == [] ==> was[..k] + [blkno] + was[k..] == [blkno];
      }
      StaysBacked(used, was, dups, blkno);
      Inserted(was, k, blkno, dups, mul);
      refs := refs + multiset{blkno};
    }

    /** The references of one inode, in the order of the block walk, up to where a limit ends it: k of them are
        dealt with. */
    method Pass1Inode(bs: seq<nat>) returns (k: nat)
      requires Valid()
      modifies this
      ensures Valid() && |used| == |old(used)| && meta == old(meta)
      ensures k <= |bs| && Dealt(old(refs), |old(dups)|, bs, k)
      ensures k < |bs| ==> LimitHit(|old(dups)|, bs, k)
    {
      badblk, dupblk := 0, 0;
      k := 0;
      while k < |bs|
        invariant 0 <= k <= |bs| && Valid() && |used| == |old(used)| && meta == old(meta)
        invariant Dealt(old(refs), |old(dups)|, bs, k) && badblk == Outside(bs[..k], |used|) && |dups| == |old(dups)| + dupblk
      {
        var stopped := Pass1Ref(bs, k, old(refs), |old(dups)|);
        if stopped {
          return;
        }
        k := k + 1;
      }
    }

    /** The first k references are recorded on top of `was`, and neither limit is exceeded. */
    ghost predicate Dealt(was: multiset<int>, d: nat, bs: seq<nat>, k: nat)
      requires k <= |bs|
      reads this
    {
      && refs == was + Charge(bs[..k], |used|)
      && Outside(bs[..k], |used|) <= MAXBAD && d <= |dups| <= d + MAXDUP
    }

    /** Reference k is one too many: it is to no block of the volume, or to a block referred to before. */
    ghost predicate LimitHit(d: nat, bs: seq<nat>, k: nat)
      requires k < |bs|
      reads this
    {
      if bs[k] >= |used| then Outside(bs[..k], |used|) == MAXBAD else used[bs[k]] && |dups| == d + MAXDUP
    }

    /** One of them. */
    method Pass1Ref(bs: seq<nat>, k: nat, ghost was: multiset<int>, ghost d: nat) returns (stopped: bool)
      requires Valid() && k < |bs| && Dealt(was, d, bs, k) && badblk == Outside(bs[..k], |used|) && |dups| == d + dupblk
      modifies this
      ensures Valid() && |used| == |old(used)| && meta == old(meta)
      ensures stopped ==> Dealt(was, d, bs, k) && LimitHit(d, bs, k)
      ensures !stopped ==> Dealt(was, d, bs, k + 1) && badblk == Outside(bs[..k + 1], |used|) && |dups| == d + dupblk
    {
      ChargeSnoc(bs, k, |used|);
      OutsideSnoc(bs, k, |used|);
      Associate(was, Charge(bs[..k], |used|), One(bs[k], |used|));
      var r := Pass1Check(bs[k]);
      stopped := r.STOP?;
    }

    // -------------------------------------------------------------- pass 1b

    /** pass1bcheck, for one reference: a duplicate met for the first time is reported and moved to the
        front of those met; STOP when there is none left. */
    method Pass1bCheck(blkno: nat) returns (r: Result, reported: bool)
      requires Valid() && head <= mul && (mul > 0 ==> head < mul)
      modifies this`dups, this`head
      ensures Valid() && SameFirstPart(old(dups), dups, mul)
      ensures reported <==> blkno in old(dups)[old(head)..mul]
      ensures head == old(head) + (if reported then 1 else 0) <= mul
      ensures forall x :: x in dups[..head] <==> x in old(dups)[..old(head)] || (reported && x == blkno)
      ensures r.STOP? <==> head == mul
      ensures r.SKIP? ==> blkno >= |used|
    {
      ghost var was, h := dups, head;
      r := if blkno >= |used| then SKIP else KEEPON;
      reported := false;
      var dlp := head;
      while dlp < |dups|
        invariant h <= dlp <= mul && (mul > 0 ==> dlp < mul)
        invariant !reported ==> dups == was && head == h && forall i :: h <= i < dlp ==> was[i] != blkno
        invariant reported ==> head == h + 1 && exists m :: h <= m < dlp && was[m] == blkno && dups == Swapped(was, h, m)
        decreases |dups| - dlp
      {
        if dups[dlp] == blkno {
          SwappedFacts(was, h, dlp, mul, reported, dups, blkno);
          dups := dups[dlp := dups[head]][head := blkno];
          head := head + 1;
          reported := true;
        }
        if dlp == mul - 1 {
          break;
        }
        dlp := dlp + 1;
      }
      ScanEnds(was, h, mul, dups, head, reported, blkno);
      StaysCounted(used, was, dups, mul);
      if mul == 0 || head == mul {
        r := STOP;
      }
    }

    /** pass1b, over the references in the order of its walk: those reported are exactly those that are the
        first to a block recorded more than once, although the walk stops as soon as all duplicates were met. */
    method Pass1b(walk: seq<nat>) returns (reported: set<nat>)
      requires Valid()
      modifies this`dups, this`head
      ensures Valid() && SameFirstPart(old(dups), dups, mul)
      ensures forall k: nat :: k in reported <==> FirstReference(walk, refs, k)
    {
      reported := MeetAll(walk);
      forall k: nat
        ensures k in reported <==> FirstReference(walk, refs, k)
      {
        if k < |walk| {
          InListTwice(used, old(dups), mul, refs, walk[k]);
        }
      }
    }

    method MeetAll(walk: seq<nat>) returns (reported: set<nat>)
      requires Valid()
      modifies this`dups, this`head
      ensures Valid() && SameFirstPart(old(dups), dups, mul)
      ensures forall k: nat :: k in reported <==> FirstMet(walk, old(dups)[..mul], k)
    {
      ghost var was := dups;
      head := 0;
      reported := {};
      var k := 0;
      assert dups[..head] == [];
      while k < |walk|
        invariant 0 <= k <= |walk| && Valid() && SameFirstPart(was, dups, mul)
        invariant head <= mul && (mul > 0 ==> head < mul)
        invariant Met(walk, k, was[..mul], dups[..head], reported)
      {
        ghost var h, l, known := head, dups, reported;
        Unmet(dups, head, mul, walk[k]);
        var r, rep := Pass1bCheck(walk[k]);
        if rep {
          reported := reported + {k};
        }
        MetOneMore(walk, k, was[..mul], l[..h], dups[..head], known, rep);
        k := k + 1;
        if r.STOP? {
          assert dups[..mul] == dups[..head];
          return;
        }
      }
    }

    // -------------------------------------------------------------- pass 4

    /** An inode is cleared: every reference it makes is taken back, as far as any is recorded. */
    method ClearInode(bs: seq<nat>)
      requires Counted()
      modifies this`used, this`dups, this`nblks, this`refs
      ensures Counted() && |used| == |old(used)| && meta == old(meta)
      ensures refs == old(refs) - Charge(bs, |used|)
    {
      ghost var was, n := refs, |used|;
      var i := 0;
      while i < |bs|
        invariant 0 <= i <= |bs| && Counted() && |used| == n && meta == old(meta)
        invariant refs == was - Charge(bs[..i], n)
      {
        ChargeSnoc(bs, i, n);
        TakenBoth(was, Charge(bs[..i], n), One(bs[i], n));
        var r := Pass4Check(bs[i]);
        i := i + 1;
      }
      assert bs[..i] == bs;
    }

    /** pass4check, for one reference: a reference to a block in the list takes a node away, a last one
        clears the bit.  A reference to a block whose bit is clear changes nothing. */
    method Pass4Check(blkno: nat) returns (r: Result)
      requires Counted()
      modifies this`used, this`dups, this`nblks, this`refs
      ensures Counted() && |used| == |old(used)| && meta == old(meta)
      ensures r.SKIP? <==> blkno >= |used|
      ensures !r.STOP? && refs == old(refs) - One(blkno, |used|)
    {
      if blkno >= |used| {
        return SKIP;
      }
      r := KEEPON;
      assert refs[blkno] == Recorded(used, dups, blkno);
      OccursIn(dups, blkno);
      if used[blkno] {
        var dlp := 0;
        while dlp < |dups| && dups[dlp] != blkno
          invariant 0 <= dlp <= |dups| && forall i :: 0 <= i < dlp ==> dups[i] != blkno
        {
          dlp := dlp + 1;
        }
        if dlp < |dups| {
          DropDup(blkno, dlp);
        } else {
          ClearBlock(blkno);
        }
      }
      refs := refs - multiset{blkno};
    }

    method DropDup(blkno: nat, dlp: nat)
      requires dlp < |dups| && dups[dlp] == blkno && Backed(used, dups) && blkno < |used| && used[blkno]
      modifies this`dups
      ensures Backed(used, dups)
      ensures forall b :: Recorded(used, dups, b) == Recorded(used, old(dups), b) - if b == blkno then 1 else 0
    {
      forall x
        ensures Occurs(dups[dlp := dups[0]][1..], x) == Occurs(dups, x) - if x == blkno then 1 else 0
      {
        OccursDrop(dups, dlp, x);
      }
      StaysBacked(used, dups, dups[dlp := dups[0]][1..], blkno);
      dups := dups[dlp := dups[0]][1..];
    }

    method ClearBlock(blkno: nat)
      requires blkno < |used| && used[blkno] && blkno !in dups && Backed(used, dups)
      requires nblks == |Marked(used)| - |meta|
      modifies this`used, this`nblks
      ensures |used| == |old(used)|
      ensures Backed(used, dups) && nblks == |Marked(used)| - |meta|
      ensures forall b :: Recorded(used, dups, b) == Recorded(old(used), dups, b) - if b == blkno then 1 else 0
    {
      assert Marked(used[blkno := false]) == Marked(used) - {blkno} && blkno in Marked(used);
      used := used[blkno := false];
      nblks := nblks - 1;
    }

    /** allocblk: the first block whose bit is clear, but never the last one of the volume; 0 if there is
        none. */
    method AllocBlk() returns (b: nat)
      requires Counted()
      modifies this`used, this`nblks, this`refs
      ensures Counted() && |used| == |old(used)| && meta == old(meta)
      ensures (forall i :: 0 <= i < |used| - 1 ==> old(used)[i]) ==> b == 0 && refs == old(refs) && used == old(used)
      ensures (exists i :: 0 <= i < |used| - 1 && !old(used)[i]) ==>
                (b < |used| - 1 && !old(used)[b] && (forall i :: 0 <= i < b ==> old(used)[i])
                 && refs == old(refs) + multiset{b})
    {
      var i := 0;
      while i < |used| - 1
        invariant 0 <= i && (i < |used| || i == 0) && used == old(used) && forall j :: 0 <= j < i ==> used[j]
      {
        if !used[i] {
          MarkBlock(i);
          refs := refs + multiset{i};
          return i;
        }
        i := i + 1;
      }
      return 0;
    }

    /** freeblk undoes one reference to a block. */
    method FreeBlk(blkno: nat)
      requires Counted()
      modifies this`used, this`dups, this`nblks, this`refs
      ensures Counted() && refs == old(refs) - One(blkno, |used|) && |used| == |old(used)| && meta == old(meta)
    {
      var r := Pass4Check(blkno);
    }
  }

  lemma StaysBacked(used: seq<bool>, was: seq<int>, l: seq<int>, b: nat)
    requires Backed(used, was) && b < |used| && used[b]
    requires forall x :: Occurs(l, x) <= Occurs(was, x) || x == b
    ensures Backed(used, l)
  {
    forall x | x in l
      ensures 0 <= x < |used| && used[x]
    {
      OccursIn(l, x);
      OccursIn(was, x);
    }
  }

  /** A node inserted behind the first part keeps the list in order. */
  lemma Inserted(was: seq<int>, k: nat, b: int, l: seq<int>, mul: nat)
    requires ListOk(was, k) && l == was[..k] + [b] + was[k..]
    requires mul == if b in was[..k] then k else k + 1
    ensures ListOk(l, mul)
  {
    assert l[..k] == was[..k] && l[..k + 1] == was[..k] + [b];
  }

  /** How many references are to no block of the volume. */
  function Outside(bs: seq<nat>, n: nat): nat {
    if bs == [] then 0 else Outside(bs[..|bs| - 1], n) + if bs[|bs| - 1] >= n then 1 else 0
  }

  lemma OutsideSnoc(bs: seq<nat>, i: nat, n: nat)
    requires i < |bs|
    ensures Outside(bs[..i + 1], n) == Outside(bs[..i], n) + if bs[i] >= n then 1 else 0
  {
    assert bs[..i + 1][..i] == bs[..i];
  }

  /** One reference counts if it is to a block of the volume. */
  function One(b: int, n: nat): multiset<int> {
    if b < n then multiset{b} else multiset{}
  }

  /** The references of an inode that count. */
  function Charge(bs: seq<nat>, n: nat): multiset<int> {
    if bs == [] then multiset{} else Charge(bs[..|bs| - 1], n) + One(bs[|bs| - 1], n)
  }

  lemma ChargeSnoc(bs: seq<nat>, i: nat, n: nat)
    requires i < |bs|
    ensures Charge(bs[..i + 1], n) == Charge(bs[..i], n) + One(bs[i], n)
  {
    assert bs[..i + 1][..i] == bs[..i];
  }

  lemma TakenBoth(a: multiset<int>, b: multiset<int>, c: multiset<int>)
    ensures a - (b + c) == (a - b) - c
  {
  }

  lemma Associate(a: multiset<int>, b: multiset<int>, c: multiset<int>)
    ensures a + (b + c) == a + b + c
  {
  }

  /** The references of those inodes i with p[i], together. */
  function ChargeSome(ns: seq<seq<nat>>, p: seq<bool>, n: nat): multiset<int>
    requires |ns| == |p|
  {
    if ns == [] then multiset{}
    else
      var k := |ns| - 1;
      ChargeSome(ns[..k], p[..k], n) + if p[k] then Charge(ns[k], n) else multiset{}
  }

  lemma SomeSnoc(ns: seq<seq<nat>>, p: seq<bool>, n: nat, i: nat)
    requires |ns| == |p| && i < |ns|
    ensures ChargeSome(ns[..i + 1], p[..i + 1], n) ==
            ChargeSome(ns[..i], p[..i], n) + if p[i] then Charge(ns[i], n) else multiset{}
  {
    assert ns[..i + 1][..i] == ns[..i] && p[..i + 1][..i] == p[..i];
  }

  lemma {:induction false} ChargeIn(bs: seq<nat>, n: nat, b: nat)
    ensures b in Charge(bs, n) <==> b < n && b in bs
  {
    if bs != [] {
      ChargeIn(bs[..|bs| - 1], n, b);
      assert bs == bs[..|bs| - 1] + [bs[|bs| - 1]];
    }
  }

  /** Inode i is one of those with p[i], and it refers to block b. */
  ghost predicate Refers(ns: seq<seq<nat>>, p: seq<bool>, i: nat, b: nat)
    requires |ns| == |p|
  {
    i < |ns| && p[i] && b in ns[i]
  }

  lemma {:induction false} SomeIn(ns: seq<seq<nat>>, p: seq<bool>, n: nat, b: nat)
    requires |ns| == |p|
    ensures b in ChargeSome(ns, p, n) <==> b < n && exists i: nat :: Refers(ns, p, i, b)
  {
    if ns != [] {
      var k := |ns| - 1;
      ChargeIn(ns[k], n, b);
      SomeIn(ns[..k], p[..k], n, b);
      if i: nat :| Refers(ns, p, i, b) {
        assert i < k ==> Refers(ns[..k], p[..k], i, b);
      }
      if i: nat :| Refers(ns[..k], p[..k], i, b) {
        assert Refers(ns, p, i, b);
      }
      assert b < n && p[k] && b in ns[k] ==> Refers(ns, p, k, b);
    }
  }

  /** The references of the inodes with r are those of the inodes with p and those with q. */
  lemma {:induction false} SomeParts(ns: seq<seq<nat>>, p: seq<bool>, q: seq<bool>, r: seq<bool>, n: nat)
    requires |ns| == |p| == |q| == |r| && forall i :: 0 <= i < |p| ==> r[i] == (p[i] || q[i]) && !(p[i] && q[i])
    ensures ChargeSome(ns, r, n) == ChargeSome(ns, p, n) + ChargeSome(ns, q, n)
  {
    if ns != [] {
      var k := |ns| - 1;
      SomeParts(ns[..k], p[..k], q[..k], r[..k], n);
      Exchange(ChargeSome(ns[..k], p[..k], n), ChargeSome(ns[..k], q[..k], n), Charge(ns[k], n));
    }
  }

  lemma Exchange(a: multiset<int>, b: multiset<int>, c: multiset<int>)
    ensures a + b + c == (a + c) + b && a + b + c == a + (b + c)
  {
  }

  lemma {:induction false} ChargeWhole(bs: seq<nat>, n: nat)
    requires forall i :: 0 <= i < |bs| ==> bs[i] < n
    ensures Charge(bs, n) == multiset(bs)
  {
    if bs != [] {
      var k := |bs| - 1;
      assert bs == bs[..k] + [bs[k]];
      ChargeWhole(bs[..k], n);
    }
  }

  /** The references of inode i are among those of all inodes with p; so are those of i and j together. */
  lemma {:induction false} ChargeAmong(ns: seq<seq<nat>>, p: seq<bool>, n: nat, i: nat)
    requires |ns| == |p| && i < |ns| && p[i]
    ensures Charge(ns[i], n) <= ChargeSome(ns, p, n)
  {
    var k := |ns| - 1;
    if i < k {
      ChargeAmong(ns[..k], p[..k], n, i);
    }
  }

  lemma {:induction false} ChargeBoth(ns: seq<seq<nat>>, p: seq<bool>, n: nat, i: nat, j: nat)
    requires |ns| == |p| && i < j < |ns| && p[i] && p[j]
    ensures Charge(ns[i], n) + Charge(ns[j], n) <= ChargeSome(ns, p, n)
  {
    var k := |ns| - 1;
    if j < k {
      ChargeBoth(ns[..k], p[..k], n, i, j);
    } else {
      ChargeAmong(ns[..k], p[..k], n, i);
    }
  }

  /** With no duplicate left in the list, no inode that stays refers to a block twice, or to a block of the file
      system itself, ... */
  lemma NoneTwice(used: seq<bool>, refs: multiset<int>, meta: set<int>, ns: seq<seq<nat>>, p: seq<bool>, n: nat, i: nat)
    requires |ns| == |p| && i < |ns| && p[i] && refs == multiset(meta) + ChargeSome(ns, p, n)
    requires forall b :: refs[b] == Recorded(used, [], b)
    ensures forall b :: Charge(ns[i], n)[b] <= 1 && (b in Charge(ns[i], n) ==> b !in meta && b in Marked(used))
  {
    ChargeAmong(ns, p, n, i);
    forall b
      ensures Charge(ns[i], n)[b] <= 1 && (b in Charge(ns[i], n) ==> b !in meta && b in Marked(used))
    {
      assert Charge(ns[i], n)[b] + multiset(meta)[b] <= refs[b] == Recorded(used, [], b);
    }
  }

  /** ... or to one that another inode that stays refers to. */
  lemma NoneShared(used: seq<bool>, refs: multiset<int>, meta: set<int>, ns: seq<seq<nat>>, p: seq<bool>, n: nat, i: nat, j: nat)
    requires |ns| == |p| && i < |ns| && j < |ns| && i != j && p[i] && p[j]
    requires refs == multiset(meta) + ChargeSome(ns, p, n) && forall b :: refs[b] == Recorded(used, [], b)
    ensures Charge(ns[i], n) !! Charge(ns[j], n)
  {
    var a, c, all := Charge(ns[i], n), Charge(ns[j], n), ChargeSome(ns, p, n);
    if i < j {
      ChargeBoth(ns, p, n, i, j);
    } else {
      ChargeBoth(ns, p, n, j, i);
      assert c + a == a + c;
    }
    forall b | b in a
      ensures b !in c
    {
      assert a[b] + c[b] == (a + c)[b] <= all[b] <= refs[b] == Recorded(used, [], b) <= 1;
    }
  }

  // ---------------------------------------------------------------- what pass 1 makes of the inodes

  /** An inode pass 1 does not count as in use; one it walked, recording references; and one of unknown type it
      neither walked nor cleared. */
  datatype Fate = Unused | Charged | Unknown

  /** The inodes of fate f that are cleared later, or those that are not. */
  function Those(fate: seq<Fate>, clear: seq<bool>, f: Fate, c: bool): (p: seq<bool>)
    requires |fate| == |clear|
    ensures |p| == |fate| && forall i :: 0 <= i < |p| ==> p[i] == (fate[i] == f && clear[i] == c)
  {
    seq(|fate|, i requires 0 <= i < |fate| => fate[i] == f && clear[i] == c)
  }

  function AllCharged(fate: seq<Fate>): (p: seq<bool>)
    ensures |p| == |fate| && forall i :: 0 <= i < |p| ==> p[i] == fate[i].Charged?
  {
    seq(|fate|, i requires 0 <= i < |fate| => fate[i].Charged?)
  }

  function AllCleared(fate: seq<Fate>, clear: seq<bool>): (p: seq<bool>)
    requires |fate| == |clear|
    ensures |p| == |fate| && forall i :: 0 <= i < |p| ==> p[i] == (!fate[i].Unused? && clear[i])
  {
    seq(|fate|, i requires 0 <= i < |fate| => !fate[i].Unused? && clear[i])
  }

  /** What was recorded of each inode: some first part of its references, and nothing if it was not walked. */
  ghost predicate Parts(rec: seq<seq<nat>>, ns: seq<seq<nat>>, fate: seq<Fate>) {
    && |rec| == |ns| == |fate|
    && forall i :: 0 <= i < |ns| ==> rec[i] <= ns[i] && (!fate[i].Charged? ==> rec[i] == [])
  }

  /** All references of the inodes that are walked, when no limit ends a walk. */
  function Whole(ns: seq<seq<nat>>, fate: seq<Fate>): (rec: seq<seq<nat>>)
    requires |ns| == |fate|
    ensures Parts(rec, ns, fate) && forall i :: 0 <= i < |ns| && fate[i].Charged? ==> rec[i] == ns[i]
  {
    seq(|ns|, i requires 0 <= i < |ns| => if fate[i].Charged? then ns[i] else [])
  }

  /** The references of each inode that were not recorded. */
  function Rests(rec: seq<seq<nat>>, ns: seq<seq<nat>>): (rest: seq<seq<nat>>)
    requires |rec| == |ns| && forall i :: 0 <= i < |ns| ==> rec[i] <= ns[i]
    ensures |rest| == |ns| && forall i :: 0 <= i < |ns| ==> rest[i] == ns[i][|rec[i]|..]
  {
    seq(|ns|, i requires 0 <= i < |ns| => ns[i][|rec[i]|..])
  }

  /** The recorded references of the file system itself and of the inodes that stay. */
  function Staying(meta: set<int>, rec: seq<seq<nat>>, fate: seq<Fate>, clear: seq<bool>, n: nat): multiset<int>
    requires |rec| == |fate| == |clear|
  {
    multiset(meta) + ChargeSome(rec, Those(fate, clear, Charged, false), n)
  }

  /** The references taken back although they were never recorded. */
  function Stray(rest: seq<seq<nat>>, fate: seq<Fate>, clear: seq<bool>, n: nat): multiset<int>
    requires |rest| == |fate| == |clear|
  {
    ChargeSome(rest, AllCleared(fate, clear), n)
  }

  /** What is recorded in the end. */
  function Accounts(meta: set<int>, rec: seq<seq<nat>>, rest: seq<seq<nat>>, fate: seq<Fate>, clear: seq<bool>, n: nat): multiset<int>
    requires |rec| == |rest| == |fate| == |clear|
  {
    Staying(meta, rec, fate, clear, n) - Stray(rest, fate, clear, n)
  }

  lemma ChargeLast(bs: seq<nat>, init: seq<nat>, b: nat, n: nat)
    requires bs == init + [b]
    ensures Charge(bs, n) == Charge(init, n) + One(b, n)
  {
    assert bs[..|bs| - 1] == init;
  }

  lemma {:induction false} ChargeJoin(a: seq<nat>, b: seq<nat>, n: nat)
    ensures Charge(a + b, n) == Charge(a, n) + Charge(b, n)
  {
    if b == [] {
      assert a + b == a;
    } else {
      var k := |b| - 1;
      var init, x := b[..k], b[k];
      assert a + b == a + init + [x] && b == init + [x];
      ChargeJoin(a, init, n);
      ChargeLast(a + b, a + init, x, n);
      ChargeLast(b, init, x, n);
      Associate(Charge(a, n), Charge(init, n), One(x, n));
    }
  }

  /** The references of the inodes with p are those recorded of them and the rest. */
  lemma {:induction false} SomeJoin(rec: seq<seq<nat>>, rest: seq<seq<nat>>, ns: seq<seq<nat>>, p: seq<bool>, n: nat)
    requires |rec| == |rest| == |ns| == |p| && forall i :: 0 <= i < |ns| ==> ns[i] == rec[i] + rest[i]
    ensures ChargeSome(ns, p, n) == ChargeSome(rec, p, n) + ChargeSome(rest, p, n)
  {
    if ns != [] {
      var k := |ns| - 1;
      SomeJoin(rec[..k], rest[..k], ns[..k], p[..k], n);
      ChargeJoin(rec[k], rest[k], n);
      FourParts(ChargeSome(rec[..k], p[..k], n), ChargeSome(rest[..k], p[..k], n), Charge(rec[k], n), Charge(rest[k], n));
    }
  }

  lemma FourParts(a: multiset<int>, b: multiset<int>, c: multiset<int>, d: multiset<int>)
    ensures a + b + (c + d) == (a + c) + (b + d)
  {
  }

  lemma {:induction false} NothingCharged(ns: seq<seq<nat>>, p: seq<bool>, n: nat)
    requires |ns| == |p| && forall i :: 0 <= i < |p| ==> !p[i] || ns[i] == []
    ensures ChargeSome(ns, p, n) == multiset{}
  {
    if ns != [] {
      NothingCharged(ns[..|ns| - 1], p[..|ns| - 1], n);
    }
  }

  /** Recording and taking back add up to that, in whatever order references to one block come. */
  lemma AddsUp(meta: set<int>, rec: seq<seq<nat>>, ns: seq<seq<nat>>, fate: seq<Fate>, clear: seq<bool>, n: nat)
    requires Parts(rec, ns, fate) && |fate| == |clear|
    ensures multiset(meta) + ChargeSome(rec, AllCharged(fate), n) - ChargeSome(ns, AllCleared(fate, clear), n)
            == Accounts(meta, rec, Rests(rec, ns), fate, clear, n)
  {
    var stay, go, unknown := Those(fate, clear, Charged, false), Those(fate, clear, Charged, true), Those(fate, clear, Unknown, true);
    var rest := Rests(rec, ns);
    SomeParts(rec, stay, go, AllCharged(fate), n);
    SomeParts(rec, go, unknown, AllCleared(fate, clear), n);
    NothingCharged(rec, unknown, n);
    SomeJoin(rec, rest, ns, AllCleared(fate, clear), n);
    Cancels(multiset(meta), ChargeSome(rec, stay, n), ChargeSome(rec, go, n), ChargeSome(rest, AllCleared(fate, clear), n));
  }

  lemma Cancels(a: multiset<int>, b: multiset<int>, c: multiset<int>, d: multiset<int>)
    ensures a + (b + c) - (c + d) == a + b - d
  {
  }

  // ---------------------------------------------------------------- when the bits are right

  /** Somebody who stays uses block b: the file system itself, or an inode. */
  ghost predicate UsedBy(meta: set<int>, ns: seq<seq<nat>>, fate: seq<Fate>, clear: seq<bool>, b: nat)
    requires |ns| == |fate| == |clear|
  {
    b in meta || exists i: nat :: Uses(ns, fate, clear, i, b)
  }

  ghost predicate Uses(ns: seq<seq<nat>>, fate: seq<Fate>, clear: seq<bool>, i: nat, b: nat)
    requires |ns| == |fate| == |clear|
  {
    i < |ns| && !fate[i].Unused? && !clear[i] && b in ns[i]
  }

  /** Block b is recorded in the end exactly when somebody who stays uses it. */
  ghost predicate BitRight(meta: set<int>, rec: seq<seq<nat>>, ns: seq<seq<nat>>, fate: seq<Fate>, clear: seq<bool>, n: nat, b: nat)
    requires Parts(rec, ns, fate) && |fate| == |clear|
  {
    b in Accounts(meta, rec, Rests(rec, ns), fate, clear, n) <==> UsedBy(meta, ns, fate, clear, b)
  }

  /** That is so exactly when, for a block in use, more references are recorded than are taken back without
      having been recorded. */
  lemma BitRightWhen(meta: set<int>, rec: seq<seq<nat>>, ns: seq<seq<nat>>, fate: seq<Fate>, clear: seq<bool>, n: nat, b: nat)
    requires Parts(rec, ns, fate) && |fate| == |clear|
    ensures BitRight(meta, rec, ns, fate, clear, n, b) <==>
            (UsedBy(meta, ns, fate, clear, b) ==>
               Staying(meta, rec, fate, clear, n)[b] > Stray(Rests(rec, ns), fate, clear, n)[b])
  {
    if b in Staying(meta, rec, fate, clear, n) && b !in meta {
      var i := SomeUser(rec, Those(fate, clear, Charged, false), n, b);
      assert Uses(ns, fate, clear, i, b);
    }
  }

  lemma SomeUser(ns: seq<seq<nat>>, p: seq<bool>, n: nat, b: nat) returns (i: nat)
    requires |ns| == |p| && b in ChargeSome(ns, p, n)
    ensures Refers(ns, p, i, b)
  {
    SomeIn(ns, p, n, b);
    i :| Refers(ns, p, i, b);
  }

  /** Every reference to block b of an inode in use was recorded. */
  ghost predicate RefsRecorded(rest: seq<seq<nat>>, fate: seq<Fate>, b: nat)
    requires |rest| == |fate|
  {
    forall i :: 0 <= i < |rest| && !fate[i].Unused? ==> b !in rest[i]
  }

  lemma RightIfRecorded(meta: set<int>, rec: seq<seq<nat>>, ns: seq<seq<nat>>, fate: seq<Fate>, clear: seq<bool>, n: nat, b: nat)
    requires Parts(rec, ns, fate) && |fate| == |clear| && b < n && RefsRecorded(Rests(rec, ns), fate, b)
    ensures BitRight(meta, rec, ns, fate, clear, n, b)
  {
    var rest, stay := Rests(rec, ns), Those(fate, clear, Charged, false);
    if b in Stray(rest, fate, clear, n) {
      var i := SomeUser(rest, AllCleared(fate, clear), n, b);
      assert false;
    }
    if i: nat :| Uses(ns, fate, clear, i, b) {
      assert ns[i] == rec[i] + rest[i];
      assert Refers(rec, stay, i, b);
      SomeIn(rec, stay, n, b);
    }
    BitRightWhen(meta, rec, ns, fate, clear, n, b);
  }

  /** Block b is recorded once among those who stay, and an inode that is cleared refers to it without that having
      been recorded: then the bit ends up clear although the block is in use. */
  lemma OnlyRecordLost(meta: set<int>, rec: seq<seq<nat>>, ns: seq<seq<nat>>, fate: seq<Fate>, clear: seq<bool>, n: nat, b: nat, i: nat)
    requires Parts(rec, ns, fate) && |fate| == |clear| && b < n
    requires i < |ns| && !fate[i].Unused? && clear[i] && b in Rests(rec, ns)[i]
    requires Staying(meta, rec, fate, clear, n)[b] == 1
    ensures b !in Accounts(meta, rec, Rests(rec, ns), fate, clear, n) && UsedBy(meta, ns, fate, clear, b)
  {
    var rest := Rests(rec, ns);
    assert Refers(rest, AllCleared(fate, clear), i, b);
    SomeIn(rest, AllCleared(fate, clear), n, b);
    if b !in meta {
      var j := SomeUser(rec, Those(fate, clear, Charged, false), n, b);
      assert Uses(ns, fate, clear, j, b);
    }
  }

  /** An inode that stays refers to a block of which no reference is recorded: its bit is clear too. */
  lemma NeverRecorded(meta: set<int>, rec: seq<seq<nat>>, ns: seq<seq<nat>>, fate: seq<Fate>, clear: seq<bool>, n: nat, b: nat, i: nat)
    requires Parts(rec, ns, fate) && |fate| == |clear|
    requires i < |ns| && !fate[i].Unused? && !clear[i] && b in ns[i] && b !in Staying(meta, rec, fate, clear, n)
    ensures b !in Accounts(meta, rec, Rests(rec, ns), fate, clear, n) && UsedBy(meta, ns, fate, clear, b)
  {
    assert Uses(ns, fate, clear, i, b);
  }

  /** A block of the file system itself that no inode refers to keeps its bit. */
  lemma MetaKept(meta: set<int>, rec: seq<seq<nat>>, ns: seq<seq<nat>>, fate: seq<Fate>, clear: seq<bool>, n: nat, b: nat)
    requires Parts(rec, ns, fate) && |fate| == |clear| && b in meta && forall i :: 0 <= i < |ns| ==> b !in ns[i]
    ensures b in Accounts(meta, rec, Rests(rec, ns), fate, clear, n)
  {
    SomeIn(Rests(rec, ns), AllCleared(fate, clear), n, b);
  }

  /** No unknown inode was left that refers to block b. */
  ghost predicate NoneUnknown(ns: seq<seq<nat>>, fate: seq<Fate>, b: nat)
    requires |ns| == |fate|
  {
    forall i :: 0 <= i < |ns| && fate[i].Unknown? ==> b !in ns[i]
  }

  /** When no limit is hit all bits are right, whichever inodes are cleared afterwards, exactly when pass 1 left no
      unknown inode that refers to a block of the volume. */
  lemma AlwaysRight(meta: set<int>, ns: seq<seq<nat>>, fate: seq<Fate>, n: nat)
    requires |ns| == |fate|
    ensures (forall clear: seq<bool>, b: nat :: |clear| == |ns| && b < n ==>
               BitRight(meta, Whole(ns, fate), ns, fate, clear, n, b))
            <==> forall b: nat :: b < n ==> NoneUnknown(ns, fate, b)
  {
    if forall b: nat :: b < n ==> NoneUnknown(ns, fate, b) {
      forall clear: seq<bool>, b: nat | |clear| == |ns| && b < n
        ensures BitRight(meta, Whole(ns, fate), ns, fate, clear, n, b)
      {
        KnownIsRecorded(ns, fate, b);
        RightIfRecorded(meta, Whole(ns, fate), ns, fate, clear, n, b);
      }
    } else {
      var b: nat :| b < n && !NoneUnknown(ns, fate, b);
      var clear := GoesWrong(meta, ns, fate, n, b);
      assert |clear| == |ns| && !BitRight(meta, Whole(ns, fate), ns, fate, clear, n, b);
    }
  }

  lemma KnownIsRecorded(ns: seq<seq<nat>>, fate: seq<Fate>, b: nat)
    requires |ns| == |fate| && NoneUnknown(ns, fate, b)
    ensures RefsRecorded(Rests(Whole(ns, fate), ns), fate, b)
  {
  }

  /** The answers that lead there: every other inode is cleared, and the unknown one is if the block belongs to
      the file system itself. */
  lemma GoesWrong(meta: set<int>, ns: seq<seq<nat>>, fate: seq<Fate>, n: nat, b: nat) returns (clear: seq<bool>)
    requires |ns| == |fate| && b < n && !NoneUnknown(ns, fate, b)
    ensures |clear| == |ns| && !BitRight(meta, Whole(ns, fate), ns, fate, clear, n, b)
  {
    var i: nat :| i < |ns| && fate[i].Unknown? && b in ns[i];
    var rec := Whole(ns, fate);
    clear := seq(|ns|, j => j != i || b in meta);
    NothingCharged(rec, Those(fate, clear, Charged, false), n);
    if b in meta {
      OnlyRecordLost(meta, rec, ns, fate, clear, n, b, i);
    } else {
      NeverRecorded(meta, rec, ns, fate, clear, n, b, i);
    }
  }

  // ---------------------------------------------------------------- the passes together

  /** The references pass 1b comes to among the first k inodes: those of every inode in use, walked by pass 1
      or not. */
  function WalkOf(ns: seq<seq<nat>>, fate: seq<Fate>, k: nat): seq<nat>
    requires k <= |ns| == |fate|
  {
    if k == 0 then [] else WalkOf(ns, fate, k - 1) + if fate[k - 1].Unused? then [] else ns[k - 1]
  }

  /** It comes to the references of the inodes in use and to no other, those of an earlier inode before those of a later
      one. */
  lemma {:induction false} WalkOfMeets(ns: seq<seq<nat>>, fate: seq<Fate>, k: nat, i: nat) returns (before: seq<nat>, behind: seq<nat>)
    requires i < k <= |ns| == |fate|
    ensures WalkOf(ns, fate, k) == before + (if fate[i].Unused? then [] else ns[i]) + behind
    ensures before == WalkOf(ns, fate, i)
  {
    if i == k - 1 {
      before, behind := WalkOf(ns, fate, i), [];
    } else {
      before, behind := WalkOfMeets(ns, fate, k - 1, i);
      behind := behind + if fate[k - 1].Unused? then [] else ns[k - 1];
    }
  }

  /** All that pass 1 records. */
  function Recording(meta: set<int>, rec: seq<seq<nat>>, fate: seq<Fate>, n: nat): multiset<int>
    requires |rec| == |fate|
  {
    multiset(meta) + ChargeSome(rec, AllCharged(fate), n)
  }

  /** Passes 1, 1b and 4 together.  Pass 1 records references of the inodes it walks, all of them unless a limit is
      hit; pass 1b, which visits the first `visited` inodes, reports exactly the first reference of its walk to
      each block recorded more than once; and pass 4 takes back the references of the inodes that are cleared. */
  method CheckVolume(maxfsblock: nat, reserved: seq<nat>, inodes: seq<seq<nat>>, fate: seq<Fate>, clear: seq<bool>, visited: nat)
    returns (c: Checker, reported: set<nat>, limited: bool, ghost rec: seq<seq<nat>>)
    requires forall i :: 0 <= i < |reserved| ==> reserved[i] < maxfsblock
    requires |fate| == |clear| == |inodes| && visited <= |inodes|
    ensures fresh(c) && |c.used| == maxfsblock && c.meta == set b | b in reserved :: b as int
    ensures Parts(rec, inodes, fate) && (!limited ==> rec == Whole(inodes, fate))
    ensures forall k: nat :: k in reported <==>
              FirstReference(WalkOf(inodes, fate, visited), Recording(c.meta, rec, fate, maxfsblock), k)
    ensures c.Counted() && c.refs == Accounts(c.meta, rec, Rests(rec, inodes), fate, clear, maxfsblock)
    ensures forall b: nat :: b < maxfsblock ==> (c.used[b] <==> b in c.refs)
    ensures c.nblks == |Marked(c.used)| - |c.meta|
  {
    c := new Checker(maxfsblock, reserved);
    MetaOnce(c.refs, c.meta);
    limited, rec := RecordAll(c, inodes, fate);
    reported := ReportAll(c, WalkOf(inodes, fate, visited));
    AddsUp(c.meta, rec, inodes, fate, clear, maxfsblock);
    ClearAll(c, inodes, fate, clear);
    forall b: nat | b < maxfsblock
      ensures c.used[b] <==> b in c.refs
    {
      SetIffReferenced(c.used, c.dups, c.refs, b);
    }
  }

  lemma MetaOnce(refs: multiset<int>, meta: set<int>)
    requires forall b :: refs[b] == if b in meta then 1 else 0
    ensures refs == multiset(meta)
  {
    assert forall b :: refs[b] == multiset(meta)[b];
  }

  /** Pass 1 over all inodes. */
  method RecordAll(c: Checker, ns: seq<seq<nat>>, fate: seq<Fate>) returns (limited: bool, ghost rec: seq<seq<nat>>)
    requires c.Valid() && |fate| == |ns|
    modifies c
    ensures c.Valid() && |c.used| == |old(c.used)| && c.meta == old(c.meta)
    ensures Parts(rec, ns, fate) && (!limited ==> rec == Whole(ns, fate))
    ensures c.refs == old(c.refs) + ChargeSome(rec, AllCharged(fate), |c.used|)
  {
    ghost var p := AllCharged(fate);
    limited, rec := false, [];
    var i := 0;
    while i < |ns|
      invariant 0 <= i <= |ns| && c.Valid() && |c.used| == |old(c.used)| && c.meta == old(c.meta)
      invariant |rec| == i && Parts(rec, ns[..i], fate[..i]) && (!limited ==> rec == Whole(ns, fate)[..i])
      invariant c.refs == old(c.refs) + ChargeSome(rec, p[..i], |c.used|)
    {
      var k := 0;
      if fate[i].Charged? {
        k := c.Pass1Inode(ns[i]);
        limited := limited || k < |ns[i]|;
      }
      OnePartMore(rec, ns, fate, i, ns[i][..k], |c.used|);
      Associate(old(c.refs), ChargeSome(rec, p[..i], |c.used|), Charge(ns[i][..k], |c.used|));
      rec := rec + [ns[i][..k]];
      i := i + 1;
    }
    assert ns[..i] == ns && fate[..i] == fate && p[..i] == p;
  }

  lemma OnePartMore(rec: seq<seq<nat>>, ns: seq<seq<nat>>, fate: seq<Fate>, i: nat, part: seq<nat>, n: nat)
    requires i < |ns| == |fate| && Parts(rec, ns[..i], fate[..i]) && part <= ns[i] && (!fate[i].Charged? ==> part == [])
    ensures Parts(rec + [part], ns[..i + 1], fate[..i + 1])
    ensures rec == Whole(ns, fate)[..i] && (fate[i].Charged? ==> part == ns[i]) ==> rec + [part] == Whole(ns, fate)[..i + 1]
    ensures ChargeSome(rec + [part], AllCharged(fate)[..i + 1], n)
            == ChargeSome(rec, AllCharged(fate)[..i], n) + if fate[i].Charged? then Charge(part, n) else multiset{}
  {
    var p, more := AllCharged(fate), rec + [part];
    assert more[..i] == rec && p[..i + 1][..i] == p[..i];
  }

  /** Pass 1b, which is left out when there are no duplicates. */
  method ReportAll(c: Checker, walk: seq<nat>) returns (reported: set<nat>)
    requires c.Valid()
    modifies c`dups, c`head
    ensures c.Valid() && forall k: nat :: k in reported <==> FirstReference(walk, c.refs, k)
  {
    if c.dups == [] {
      assert forall b :: c.refs[b] == Recorded(c.used, c.dups, b) <= 1;
      reported := {};
    } else {
      reported := c.Pass1b(walk);
    }
  }

  /** Pass 4 over all inodes. */
  method ClearAll(c: Checker, ns: seq<seq<nat>>, fate: seq<Fate>, clear: seq<bool>)
    requires c.Counted() && |clear| == |ns| == |fate|
    modifies c`used, c`dups, c`nblks, c`refs
    ensures c.Counted() && |c.used| == |old(c.used)| && c.meta == old(c.meta)
    ensures c.refs == old(c.refs) - ChargeSome(ns, AllCleared(fate, clear), |c.used|)
  {
    ghost var n, p := |c.used|, AllCleared(fate, clear);
    var i := 0;
    while i < |ns|
      invariant 0 <= i <= |ns| && c.Counted() && |c.used| == n && c.meta == old(c.meta)
      invariant c.refs == old(c.refs) - ChargeSome(ns[..i], p[..i], n)
    {
      SomeSnoc(ns, p, n, i);
      TakenBoth(old(c.refs), ChargeSome(ns[..i], p[..i], n), Charge(ns[i], n));
      if !fate[i].Unused? && clear[i] {
        c.ClearInode(ns[i]);
      }
      i := i + 1;
    }
    assert ns[..i] == ns && p[..i] == p;
  }

  lemma OneOfTwo(ns: seq<seq<nat>>, p: seq<bool>, n: nat)
    requires |ns| == 2 && p == [true, false] && ns[0] == [7] && n > 7
    ensures ChargeSome(ns, p, n) == multiset{7}
  {
    assert ns[..1][..0] == [] && ns[..1][0] == [7] && p[..1] == [true] && p[..1][..0] == [];
    assert ns[0][..0] == [] && Charge(ns[0], n) == multiset{7};
    assert ChargeSome(ns[..1], p[..1], n) == multiset{7};
  }

  /** In the end a bit is set exactly when somebody still refers to the block. */
  lemma SetIffReferenced(used: seq<bool>, dups: seq<int>, refs: multiset<int>, b: nat)
    requires Backed(used, dups) && b < |used| && refs[b] == Recorded(used, dups, b)
    ensures used[b] <==> b in refs
  {
    OccursIn(dups, b);
  }
}
