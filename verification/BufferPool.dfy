/// The fsck cache of disk blocks: a list of buffers in the order of their last use.
module BufferPool {

  class Buffer<T> {
    var bno: int       // the block in the buffer; -1 when there is none yet
    var data: T
    var dirty: bool
    var inuse: bool

    constructor (zero: T)
      ensures bno == -1 && !dirty && !inuse
    {
      bno, data, dirty, inuse := -1, zero, false, false;
    }
  }

  class Pool<T(==)> {
    var list: seq<Buffer<T>>   // the most recently used first
    var disk: seq<T>
    ghost var store: seq<T>    // what a disk without a cache would hold

    /** Every buffer is in the list once, and no two hold the same block. */
    ghost predicate Apart()
      reads this, list
    {
      Once(list) && forall x, y :: x in list && y in list && x != y && x.bno == y.bno ==> x.bno == -1
    }

    /** A buffer holds what the plain store does, and either so does the disk or the buffer is dirty. */
    ghost predicate Current(bp: Buffer<T>)
      requires |store| == |disk|
      reads this, bp
    {
      && -1 <= bp.bno < |disk|
      && (bp.bno >= 0 ==> bp.data == store[bp.bno] && (bp.dirty || disk[bp.bno] == store[bp.bno]))
      && (bp.bno < 0 ==> !bp.dirty)
    }

    /** Block b is in a buffer that still has to be written. */
    ghost predicate Waiting(b: nat)
      reads this, list
    {
      exists x :: x in list && x.bno == b && x.dirty
    }

    ghost predicate Valid()
      reads this, list
    {
      && Apart() && |store| == |disk|
      && (forall x :: x in list ==> Current(x))
      && (forall b :: 0 <= b < |disk| ==> disk[b] == store[b] || Waiting(b))
    }

    /** bufinit. */
    constructor (disk: seq<T>, bufcnt: nat, zero: T)
      ensures Valid() && this.disk == disk == store && |list| == bufcnt
      ensures forall i :: 0 <= i < |list| ==> fresh(list[i]) && list[i].bno == -1 && !list[i].inuse
    {
      this.disk, store, list := disk, disk, [];
      new;
      var i := 0;
      while i < bufcnt
        invariant 0 <= i <= bufcnt && |list| == i && this.disk == disk == store && Valid()
        invariant forall j :: 0 <= j < |list| ==> fresh(list[j]) && list[j].bno == -1 && !list[j].inuse
      {
        var bp := new Buffer(zero);
        list := [bp] + list;
        i := i + 1;
      }
    }

    /** flush: the buffer and the disk agree afterwards. */
    method Flush(bp: Buffer<T>)
      requires Valid() && bp in list
      modifies this`disk, bp`dirty
      ensures Valid() && list == old(list) && store == old(store) && |disk| == |old(disk)| && !bp.dirty
      ensures bp.bno >= 0 ==> disk[bp.bno] == store[bp.bno]
      ensures forall b :: 0 <= b < |disk| && b != bp.bno ==> disk[b] == old(disk)[b]
    {
      if !bp.dirty {
        return;
      }
      bp.dirty := false;
      disk := disk[bp.bno := bp.data];
      forall b | 0 <= b < |disk| && disk[b] != store[b]
        ensures Waiting(b)
      {
        assert old(Waiting(b));
        var x :| x in list && x.bno == b && old(x.dirty);
        assert x != bp;
      }
    }

    /** The buffer that holds block blkno, or -1. */
    method Search(blkno: nat) returns (k: int)
      ensures -1 <= k < |list|
      ensures k >= 0 ==> list[k].bno == blkno
      ensures k < 0 ==> forall x :: x in list ==> x.bno != blkno
    {
      k := 0;
      while k < |list|
        invariant 0 <= k <= |list| && forall i :: 0 <= i < k ==> list[i].bno != blkno
      {
        if list[k].bno == blkno {
          return;
        }
        k := k + 1;
      }
      k := -1;
    }

    /** The buffer not in use that was used least recently, or -1. */
    method Victim() returns (k: int)
      ensures -1 <= k < |list|
      ensures k >= 0 ==> !list[k].inuse && forall i :: k < i < |list| ==> list[i].inuse
      ensures k < 0 ==> forall x :: x in list ==> x.inuse
    {
      k := |list| - 1;
      while k >= 0
        invariant -1 <= k < |list| && forall i :: k < i < |list| ==> list[i].inuse
      {
        if !list[k].inuse {
          return;
        }
        k := k - 1;
      }
    }

    /** getblk: put block blkno, which no other buffer holds, into the buffer bp. */
    method GetBlk(bp: Buffer<T>, blkno: nat)
      requires Valid() && bp in list && blkno < |disk| && forall x :: x in list && x != bp ==> x.bno != blkno
      modifies this`disk, bp`dirty, bp`data, bp`bno
      ensures Valid() && list == old(list) && store == old(store) && |disk| == |old(disk)|
      ensures bp.bno == blkno && bp.data == store[blkno]
      ensures old(bp.bno) == blkno ==> disk == old(disk) && bp.data == old(bp.data) && bp.dirty == old(bp.dirty)
      ensures old(bp.bno) != blkno ==> disk == if old(bp.dirty) then old(disk)[old(bp.bno) := old(bp.data)] else old(disk)
    {
      if bp.bno == blkno {
        return;
      }
      ghost var was := bp.bno;
      Flush(bp);
      assert disk[blkno] == store[blkno] by {
        assert !Waiting(blkno);
      }
      bp.data := disk[blkno];
      bp.bno := blkno;
      forall b | 0 <= b < |disk| && disk[b] != store[b]
        ensures Waiting(b)
      {
        var x :| x in list && old(x.bno) == b && old(x.dirty) && x != bp;
        assert x.bno == b && x.dirty;
      }
    }

    /** getdatablk: a buffer with the current contents of block blkno, most recently used from now on, and
        not to be evicted until it is released; null when the pool is deadlocked, with every buffer in use.
        Only an unused buffer ever loses its block, and of those the one used least recently. */
    method GetDataBlk(blkno: nat) returns (bp: Buffer?<T>)
      requires Valid() && blkno < |disk|
      modifies this`list, this`disk, list
      ensures Valid() && store == old(store) && |disk| == |old(disk)|
      ensures bp == null <==> forall x :: x in old(list) ==> old(x.inuse) && old(x.bno) != blkno
      ensures bp == null ==> list == old(list) && disk == old(disk)
      ensures bp != null ==> bp.bno == blkno && bp.data == store[blkno] && bp.inuse
      ensures bp != null ==> bp in old(list) && (old(bp.inuse) ==> old(bp.bno) == blkno)
      ensures bp != null ==> exists k: nat :: MovedToFront(old(list), list, k) && old(list)[k] == bp
      ensures bp != null && old(bp.bno) != blkno ==>
                forall i, j :: 0 <= i < j < |old(list)| && old(list)[i] == bp ==> old(list[j].inuse)
      ensures forall x :: x in list && x != bp ==> x.bno == old(x.bno) && x.data == old(x.data) && x.inuse == old(x.inuse)
    {
      var k := Search(blkno);
      if k >= 0 {
        assert list[k] in list && list[k].bno == blkno;
      } else {
        k := Victim();
        if k < 0 {
          return null;   // deadlocked buffer pool
        }
        assert list[k] in list && !list[k].inuse;
        GetBlk(list[k], blkno);
      }
      ghost var l := list;
      bp := list[k];
      Use(k, bp);
      assert MovedToFront(l, list, k);
    }

    /** The buffer at k is in use, and the first in the list. */
    method Use(k: nat, bp: Buffer<T>)
      requires Valid() && k < |list| && list[k] == bp
      modifies this`list, bp`inuse
      ensures Valid() && MovedToFront(old(list), list, k) && bp.inuse
      ensures forall x :: x in list <==> x in old(list)
    {
      bp.inuse := true;
      ghost var l := list;
      list := [list[k]] + list[..k] + list[k + 1..];
      FrontSame(l, k, list);
      forall b | 0 <= b < |disk| && disk[b] != store[b]
        ensures Waiting(b)
      {
        var x :| x in l && x.bno == b && x.dirty;
        assert x in list;
      }
    }

    /** A caller changes a buffer it holds, and marks it with dirty(). */
    method Change(bp: Buffer<T>, d: T)
      requires Valid() && bp in list && bp.inuse && bp.bno >= 0
      modifies this`store, bp`data, bp`dirty
      ensures Valid() && list == old(list) && disk == old(disk)
      ensures store == old(store)[bp.bno := d]
    {
      bp.data := d;
      bp.dirty := true;
      store := store[bp.bno := d];
      forall b | 0 <= b < |disk| && disk[b] != store[b]
        ensures Waiting(b)
      {
        if b == bp.bno {
          assert bp.bno == b && bp.dirty;
        } else {
          assert old(Waiting(b));
          var x :| x in list && x.bno == b && old(x.dirty);
          assert x.dirty;
        }
      }
    }

    method Release(bp: Buffer<T>)
      requires Valid() && bp in list
      modifies bp`inuse
      ensures Valid() && !bp.inuse && list == old(list) && store == old(store) && disk == old(disk)
    {
      bp.inuse := false;
      forall b | 0 <= b < |disk| && disk[b] != store[b]
        ensures Waiting(b)
      {
        assert old(Waiting(b));
      }
    }

    /** The loop of ckfini: every buffer is flushed, the least recently used first.  Afterwards the disk is
        what it would have been without a cache. */
    method CkFini()
      requires Valid()
      modifies this`disk, list
      ensures disk == store == old(store)
    {
      var i := |list|;
      while i > 0
        invariant 0 <= i <= |list| && Valid() && list == old(list) && store == old(store)
        invariant forall j :: i <= j < |list| ==> !list[j].dirty
      {
        i := i - 1;
        Flush(list[i]);
      }
      assert forall b :: 0 <= b < |disk| ==> !Waiting(b);
    }
  }

  /** No element is in the list twice. */
  ghost predicate Once<X>(l: seq<X>) {
    forall i, j :: 0 <= i < j < |l| ==> l[i] != l[j]
  }

  /** Element k of the list moved to the front. */
  ghost predicate MovedToFront<X>(l: seq<X>, l': seq<X>, k: nat) {
    k < |l| && l' == [l[k]] + l[..k] + l[k + 1..]
  }

  lemma FrontSame<X>(l: seq<X>, k: nat, l': seq<X>)
    requires MovedToFront(l, l', k) && Once(l)
    ensures Once(l') && |l'| == |l|
    ensures forall x :: x in l' <==> x in l
  {
    forall x
      ensures x in l' <==> x in l
    {
      if x in l {
        var i :| 0 <= i < |l| && l[i] == x;
        assert l'[if i == k then 0 else if i < k then i + 1 else i] == x;
      }
    }
  }
}
