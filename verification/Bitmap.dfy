/// Allocation bitmaps: bytes, least significant bit first; a set bit is a block or inode in use.
module Bitmap {

  type Bytes = seq<bv8>

  function Mask(k: nat): bv8 {
    if k == 0 then 1 else if k == 1 then 2 else if k == 2 then 4 else if k == 3 then 8
    else if k == 4 then 16 else if k == 5 then 32 else if k == 6 then 64 else 128
  }

  predicate ByteBit(b: bv8, k: nat) {
    b & Mask(k) != 0
  }

  /** Bit i of a map. */
  function BitOf(s: Bytes, i: nat): bool
    requires i < 8 * |s|
  {
    if i < 8 then ByteBit(s[0], i) else BitOf(s[1..], i - 8)
  }

  lemma {:induction false} BitIn(s: Bytes, q: nat, k: nat)
    requires q < |s| && k < 8
    ensures BitOf(s, 8 * q + k) == ByteBit(s[q], k)
  {
    if q > 0 {
      BitIn(s[1..], q - 1, k);
    }
  }

  lemma BitAt(s: Bytes, i: nat)
    requires i < 8 * |s|
    ensures BitOf(s, i) == ByteBit(s[i / 8], i % 8)
  {
    BitIn(s, i / 8, i % 8);
  }

  /** The bits of a map, one by one. */
  function Bits(s: Bytes): (r: seq<bool>)
    ensures |r| == 8 * |s|
    ensures forall i :: 0 <= i < |r| ==> r[i] == BitOf(s, i)
  {
    seq(8 * |s|, i requires 0 <= i < 8 * |s| => BitOf(s, i))
  }

  /** All of them, by byte and place in it. */
  lemma BitsAt(s: Bytes)
    ensures forall i :: 0 <= i < 8 * |s| ==> Bits(s)[i] == ByteBit(s[i / 8], i % 8)
  {
    forall i | 0 <= i < 8 * |s|
      ensures Bits(s)[i] == ByteBit(s[i / 8], i % 8)
    {
      BitAt(s, i);
    }
  }

  function IsSet(s: Bytes, i: nat): (r: bool)
    requires i < 8 * |s|
    ensures r == Bits(s)[i]
  {
    BitAt(s, i);
    s[i / 8] & Mask(i % 8) != 0
  }

  function SetBit(s: Bytes, i: nat): (r: Bytes)
    requires i < 8 * |s|
    ensures |r| == |s| && Bits(r) == Bits(s)[i := true]
  {
    var r := s[i / 8 := s[i / 8] | Mask(i % 8)];
    SetBitBits(s, i, r);
    r
  }

  function ClearBit(s: Bytes, i: nat): (r: Bytes)
    requires i < 8 * |s|
    ensures |r| == |s| && Bits(r) == Bits(s)[i := false]
  {
    var r := s[i / 8 := s[i / 8] & !Mask(i % 8)];
    ClearBitBits(s, i, r);
    r
  }

  lemma ByteSet(b: bv8, k: nat, j: nat)
    requires k < 8 && j < 8
    ensures ByteBit(b | Mask(k), j) == (j == k || ByteBit(b, j))
  {
    assert k == 0 || k == 1 || k == 2 || k == 3 || k == 4 || k == 5 || k == 6 || k == 7;
    assert j == 0 || j == 1 || j == 2 || j == 3 || j == 4 || j == 5 || j == 6 || j == 7;
  }

  lemma ByteClear(b: bv8, k: nat, j: nat)
    requires k < 8 && j < 8
    ensures ByteBit(b & !Mask(k), j) == (j != k && ByteBit(b, j))
  {
    assert k == 0 || k == 1 || k == 2 || k == 3 || k == 4 || k == 5 || k == 6 || k == 7;
    assert j == 0 || j == 1 || j == 2 || j == 3 || j == 4 || j == 5 || j == 6 || j == 7;
  }

  /** Changing one bit of one byte changes one bit of the map. */
  lemma OneByte(s: Bytes, q: nat, k: nat, c: bv8, v: bool)
    requires q < |s| && k < 8
    requires forall j :: 0 <= j < 8 ==> ByteBit(c, j) == if j == k then v else ByteBit(s[q], j)
    ensures Bits(s[q := c]) == Bits(s)[8 * q + k := v]
  {
    var t, u := Bits(s[q := c]), Bits(s)[8 * q + k := v];
    BitsAt(s);
    BitsAt(s[q := c]);
    forall j | 0 <= j < 8 * |s|
      ensures t[j] == u[j]
    {
      if j / 8 == q {
        assert 0 <= j % 8 < 8 && j == 8 * q + j % 8;
      }
    }
  }

  lemma SetBitBits(s: Bytes, i: nat, r: Bytes)
    requires i < 8 * |s| && r == s[i / 8 := s[i / 8] | Mask(i % 8)]
    ensures Bits(r) == Bits(s)[i := true]
  {
    forall j | 0 <= j < 8
      ensures ByteBit(r[i / 8], j) == if j == i % 8 then true else ByteBit(s[i / 8], j)
    {
      ByteSet(s[i / 8], i % 8, j);
    }
    OneByte(s, i / 8, i % 8, r[i / 8], true);
  }

  lemma ClearBitBits(s: Bytes, i: nat, r: Bytes)
    requires i < 8 * |s| && r == s[i / 8 := s[i / 8] & !Mask(i % 8)]
    ensures Bits(r) == Bits(s)[i := false]
  {
    forall j | 0 <= j < 8
      ensures ByteBit(r[i / 8], j) == if j == i % 8 then false else ByteBit(s[i / 8], j)
    {
      ByteClear(s[i / 8], i % 8, j);
    }
    OneByte(s, i / 8, i % 8, r[i / 8], false);
  }

  /** Clearing a bit just set gives the map back, and the other way round. */
  lemma SetThenClear(s: Bytes, i: nat)
    requires i < 8 * |s|
    ensures !Bits(s)[i] ==> ClearBit(SetBit(s, i), i) == s
    ensures Bits(s)[i] ==> SetBit(ClearBit(s, i), i) == s
  {
    if Bits(s)[i] {
      SameBits(SetBit(ClearBit(s, i), i), s);
    } else {
      SameBits(ClearBit(SetBit(s, i), i), s);
    }
  }

  /** Maps with the same bits are the same. */
  lemma SameBits(s: Bytes, t: Bytes)
    requires Bits(s) == Bits(t)
    ensures s == t
  {
    forall q | 0 <= q < |s|
      ensures s[q] == t[q]
    {
      forall k | 0 <= k < 8
        ensures ByteBit(s[q], k) == ByteBit(t[q], k)
      {
        BitIn(s, q, k);
        BitIn(t, q, k);
        assert Bits(s)[8 * q + k] == Bits(t)[8 * q + k];
      }
      SameByte(s[q], t[q]);
    }
  }

  lemma SameByte(b: bv8, c: bv8)
    requires forall k :: 0 <= k < 8 ==> ByteBit(b, k) == ByteBit(c, k)
    ensures b == c
  {
    assert ByteBit(b, 0) == ByteBit(c, 0) && ByteBit(b, 1) == ByteBit(c, 1) && ByteBit(b, 2) == ByteBit(c, 2);
    assert ByteBit(b, 3) == ByteBit(c, 3) && ByteBit(b, 4) == ByteBit(c, 4) && ByteBit(b, 5) == ByteBit(c, 5);
    assert ByteBit(b, 6) == ByteBit(c, 6) && ByteBit(b, 7) == ByteBit(c, 7);
  }

  /** All bits of [from, to) are clear. */
  ghost predicate ClearRun(s: Bytes, from: int, to: int) {
    0 <= from && to <= 8 * |s| && forall i :: from <= i < to ==> !Bits(s)[i]
  }

  // ---------------------------------------------------------------- bits of one byte

  lemma ByteZero()
    ensures forall k :: 0 <= k < 8 ==> !ByteBit(0, k)
  {
  }

  /** Bytes that are all zero have no bit set. */
  lemma ZeroMap(m: Bytes)
    requires forall i :: 0 <= i < |m| ==> m[i] == 0
    ensures forall i :: 0 <= i < 8 * |m| ==> !Bits(m)[i]
  {
    forall i | 0 <= i < 8 * |m|
      ensures !Bits(m)[i]
    {
      ByteZero();
      BitAt(m, i);
      assert m[i / 8] == 0 && 0 <= i % 8 < 8;
    }
  }

  lemma ByteFull(b: bv8)
    ensures b == 0xff <==> forall k :: 0 <= k < 8 ==> ByteBit(b, k)
  {
    if forall k :: 0 <= k < 8 ==> ByteBit(b, k) {
      assert ByteBit(b, 0) && ByteBit(b, 1) && ByteBit(b, 2) && ByteBit(b, 3);
      assert ByteBit(b, 4) && ByteBit(b, 5) && ByteBit(b, 6) && ByteBit(b, 7);
    }
  }

  /** The bits of whole bytes are all set when the bytes are. */
  lemma FullBytes(m: Bytes, lo: nat, hi: nat)
    requires lo <= hi <= |m|
    ensures (forall i :: lo <= i < hi ==> m[i] == 0xff) <==> (forall j :: 8 * lo <= j < 8 * hi ==> Bits(m)[j])
  {
    if forall i :: lo <= i < hi ==> m[i] == 0xff {
      forall j | 8 * lo <= j < 8 * hi
        ensures Bits(m)[j]
      {
        assert m[j / 8] == 0xff && 0 <= j % 8 < 8;
        BitAt(m, j);
        ByteFull(m[j / 8]);
      }
    } else {
      var i :| lo <= i < hi && m[i] != 0xff;
      ByteFull(m[i]);
      var k :| 0 <= k < 8 && !ByteBit(m[i], k);
      BitIn(m, i, k);
      assert !Bits(m)[8 * i + k];
    }
  }

  /** All bits of [lo, hi) are set. */
  ghost predicate AllSet(m: Bytes, lo: int, hi: int) {
    0 <= lo && hi <= 8 * |m| && forall j :: lo <= j < hi ==> Bits(m)[j]
  }

  /** Bit i is the first clear one from bit lo on; it comes before lo only if all from there up to hi are set. */
  ghost predicate NextFree(m: Bytes, lo: int, hi: int, i: int) {
    && 0 <= i < 8 * |m| && !Bits(m)[i]
    && if i >= lo then AllSet(m, lo, i) else AllSet(m, lo, hi) && AllSet(m, 0, i)
  }

  /** ffs: one more than the number of the lowest bit set; 0 if there is none. */
  function Ffs(b: bv8): (r: nat)
    ensures r <= 8 && (r == 0 <==> b == 0)
    ensures r > 0 ==> ByteBit(b, r - 1)
    ensures forall k :: 0 <= k < r - 1 ==> !ByteBit(b, k)
  {
    if b & 1 != 0 then 1 else if b & 2 != 0 then 2 else if b & 4 != 0 then 3 else if b & 8 != 0 then 4
    else if b & 16 != 0 then 5 else if b & 32 != 0 then 6 else if b & 64 != 0 then 7
    else if b & 128 != 0 then 8 else 0
  }

  /** ext2_fls: one more than the number of the highest bit set; 0 if there is none. */
  function Fls(b: bv8): (r: nat)
    ensures r <= 8 && (r == 0 <==> b == 0)
    ensures r > 0 ==> ByteBit(b, r - 1)
    ensures forall k :: r <= k < 8 ==> !ByteBit(b, k)
  {
    if b & 128 != 0 then 8 else if b & 64 != 0 then 7 else if b & 32 != 0 then 6 else if b & 16 != 0 then 5
    else if b & 8 != 0 then 4 else if b & 4 != 0 then 3 else if b & 2 != 0 then 2
    else if b & 1 != 0 then 1 else 0
  }

  /** ffs(~b) - 1 is the lowest clear bit. */
  lemma LowestClear(b: bv8)
    requires b != 0xff
    ensures 1 <= Ffs(!b) <= 8 && !ByteBit(b, Ffs(!b) - 1)
    ensures forall k :: 0 <= k < Ffs(!b) - 1 ==> ByteBit(b, k)
  {
  }

  // ---------------------------------------------------------------- counting

  /** How many of the first k bits are clear. */
  function Clear(s: seq<bool>, k: nat): (c: nat)
    requires k <= |s|
    ensures c <= k
  {
    if k == 0 then 0 else Clear(s, k - 1) + if s[k - 1] then 0 else 1
  }

  function NumClear(s: Bytes): nat {
    Clear(Bits(s), 8 * |s|)
  }

  lemma {:induction false} ClearUpdate(s: seq<bool>, k: nat, i: nat, v: bool)
    requires i < |s| && k <= |s|
    ensures Clear(s[i := v], k) ==
            Clear(s, k) + if i < k then (if v then 0 else 1) - (if s[i] then 0 else 1) else 0
  {
    if k > 0 {
      ClearUpdate(s, k - 1, i, v);
    }
  }

  lemma {:induction false} ClearPositive(s: seq<bool>, k: nat)
    requires k <= |s|
    ensures Clear(s, k) > 0 <==> exists i :: 0 <= i < k && !s[i]
  {
    if k > 0 {
      ClearPositive(s, k - 1);
      if i :| 0 <= i < k && !s[i] {
        assert i == k - 1 || i < k - 1;
      }
    }
  }

  /** Taking a free bit takes one from the count ... */
  lemma SetCounts(s: Bytes, i: nat)
    requires i < 8 * |s| && !IsSet(s, i)
    ensures NumClear(SetBit(s, i)) == NumClear(s) - 1
  {
    ClearUpdate(Bits(s), 8 * |s|, i, true);
  }

  /** ... and giving one back adds one. */
  lemma ClearCounts(s: Bytes, i: nat)
    requires i < 8 * |s| && IsSet(s, i)
    ensures NumClear(ClearBit(s, i)) == NumClear(s) + 1
  {
    ClearUpdate(Bits(s), 8 * |s|, i, false);
  }

  lemma SomeClear(s: Bytes)
    ensures NumClear(s) > 0 <==> exists i :: 0 <= i < 8 * |s| && !Bits(s)[i]
  {
    ClearPositive(Bits(s), 8 * |s|);
  }
}
