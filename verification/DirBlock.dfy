/// Directory blocks: records of variable length that tile a block, as bytes.
///
/// A record is a 4-byte inode number, a 2-byte record length, a byte each for the length of the name and the
/// type of the file, and the name; a record with inode number 0 is free.
module DirBlock {

  newtype byte = x: int | 0 <= x < 256

  type Bytes = seq<byte>

  datatype Entry = Entry(ino: nat, typ: byte, name: Bytes)

  const HEADER := 8

  /** EXT2_DIR_REC_LEN: the bytes a record needs for a name of n bytes. */
  function RecLen(n: nat): (r: nat)
    ensures n + 8 <= r <= n + 11 && Aligned(r)
    ensures n > 0 ==> r >= 12
  {
    AlignedIs((n + 11) / 4 * 4);
    (n + 11) / 4 * 4
  }

  /** A multiple of 4. */
  predicate Aligned(n: nat) {
    n == 0 || (n >= 4 && Aligned(n - 4))
  }

  lemma {:induction false} AlignedIs(n: nat)
    ensures Aligned(n) <==> n % 4 == 0
  {
    if n >= 4 {
      AlignedIs(n - 4);
    }
  }

  lemma AlignedSum(a: nat, b: nat)
    requires Aligned(a)
    ensures Aligned(a + b) <==> Aligned(b)
  {
    AlignedIs(a);
    AlignedIs(b);
    AlignedIs(a + b);
  }

  // ---------------------------------------------------------------- equal parts of two byte strings

  lemma SameSlice(s: Bytes, s': Bytes, lo: nat, hi: nat, a: nat, b: nat)
    requires lo <= a <= b <= hi <= |s| && hi <= |s'| && s'[lo..hi] == s[lo..hi]
    ensures s'[a..b] == s[a..b]
  {
    forall i | a <= i < b
      ensures s'[i] == s[i]
    {
      assert s'[lo..hi][i - lo] == s[lo..hi][i - lo];
    }
  }

  lemma SameHead(s: Bytes, s': Bytes, hi: nat, a: nat, b: nat)
    requires a <= b <= hi <= |s| && hi <= |s'| && s'[..hi] == s[..hi]
    ensures s'[a..b] == s[a..b]
  {
    assert s'[0..hi] == s'[..hi] && s[0..hi] == s[..hi];
    SameSlice(s, s', 0, hi, a, b);
  }

  lemma SameTail(s: Bytes, s': Bytes, lo: nat, a: nat, b: nat)
    requires lo <= a <= b <= |s| == |s'| && s'[lo..] == s[lo..]
    ensures s'[a..b] == s[a..b]
  {
    assert s'[lo..|s|] == s'[lo..] && s[lo..|s|] == s[lo..];
    SameSlice(s, s', lo, |s|, a, b);
  }

  lemma Shorter(s: Bytes, s': Bytes, hi: nat, a: nat)
    requires a <= hi <= |s| && hi <= |s'| && s'[..hi] == s[..hi]
    ensures s'[..a] == s[..a]
  {
    SameHead(s, s', hi, 0, a);
    assert s'[0..a] == s'[..a] && s[0..a] == s[..a];
  }

  lemma Later(s: Bytes, s': Bytes, lo: nat, a: nat)
    requires lo <= a <= |s| == |s'| && s'[lo..] == s[lo..]
    ensures s'[a..] == s[a..]
  {
    SameTail(s, s', lo, a, |s|);
    assert s'[a..|s|] == s'[a..] && s[a..|s|] == s[a..];
  }

  // ---------------------------------------------------------------- fields of the record at an offset

  /** The bytes from lo up to hi as a number, least significant byte first. */
  function Number(s: Bytes, lo: nat, hi: nat): nat
    requires lo <= hi <= |s|
    decreases hi - lo
  {
    if lo == hi then 0 else s[lo] as nat + 0x100 * Number(s, lo + 1, hi)
  }

  lemma {:induction false} SameNumber(s: Bytes, lo: nat, hi: nat, s': Bytes, lo': nat)
    requires lo <= hi <= |s| && lo' + (hi - lo) <= |s'| && s'[lo'..lo' + (hi - lo)] == s[lo..hi]
    ensures Number(s', lo', lo' + (hi - lo)) == Number(s, lo, hi)
    decreases hi - lo
  {
    if lo < hi {
      assert s'[lo'] == s'[lo'..lo' + (hi - lo)][0] && s[lo] == s[lo..hi][0];
      assert s'[lo' + 1..lo' + (hi - lo)] == s'[lo'..lo' + (hi - lo)][1..] && s[lo + 1..hi] == s[lo..hi][1..];
      SameNumber(s, lo + 1, hi, s', lo' + 1);
    }
  }

  lemma NumberOfTwo(s: Bytes, lo: nat)
    requires lo + 2 <= |s|
    ensures Number(s, lo, lo + 2) == s[lo] as nat + 0x100 * s[lo + 1] as nat
  {
    assert Number(s, lo + 1, lo + 2) == s[lo + 1] as nat + 0x100 * Number(s, lo + 2, lo + 2);
  }

  lemma NumberOfFour(s: Bytes, lo: nat)
    requires lo + 4 <= |s|
    ensures Number(s, lo, lo + 4) == s[lo] as nat + 0x100 * s[lo + 1] as nat
                                     + 0x1_0000 * s[lo + 2] as nat + 0x100_0000 * s[lo + 3] as nat
  {
    assert Number(s, lo + 3, lo + 4) == s[lo + 3] as nat + 0x100 * Number(s, lo + 4, lo + 4);
    assert Number(s, lo + 2, lo + 4) == s[lo + 2] as nat + 0x100 * Number(s, lo + 3, lo + 4);
    assert Number(s, lo + 1, lo + 4) == s[lo + 1] as nat + 0x100 * Number(s, lo + 2, lo + 4);
  }

  predicate Has(s: Bytes, off: nat) {
    off + HEADER <= |s|
  }

  function Ino(s: Bytes, off: nat): nat
    requires Has(s, off)
  {
    Number(s, off, off + 4)
  }

  function Reclen(s: Bytes, off: nat): nat
    requires Has(s, off)
  {
    Number(s, off + 4, off + 6)
  }

  /** Where the next record begins. */
  function Next(s: Bytes, off: nat): nat
    requires Has(s, off)
  {
    off + Reclen(s, off)
  }

  function Namlen(s: Bytes, off: nat): nat
    requires Has(s, off)
  {
    s[off + 6] as nat
  }

  function EntryAt(s: Bytes, off: nat): Entry
    requires Has(s, off) && off + HEADER + Namlen(s, off) <= |s|
  {
    Entry(Ino(s, off), s[off + 7], s[off + HEADER..off + HEADER + Namlen(s, off)])
  }

  /** The same bytes say the same, wherever they are. */
  lemma SameFields(s: Bytes, off: nat, s': Bytes, off': nat, n: nat)
    requires HEADER <= n && off + n <= |s| && off' + n <= |s'| && s[off..off + n] == s'[off'..off' + n]
    ensures Ino(s', off') == Ino(s, off) && Reclen(s', off') == Reclen(s, off) && Namlen(s', off') == Namlen(s, off)
    ensures HEADER + Namlen(s, off) <= n ==> EntryAt(s', off') == EntryAt(s, off)
  {
    var t := s[off..off + n];
    SubSlices(s, off, n, t);
    SubSlices(s', off', n, t);
    SameNumber(s, off, off + 4, s', off');
    SameNumber(s, off + 4, off + 6, s', off' + 4);
    if HEADER + Namlen(s, off) <= n {
      PartSlice(s, off, n, t, HEADER, HEADER + Namlen(s, off));
      PartSlice(s', off', n, t, HEADER, HEADER + Namlen(s, off));
    }
  }

  lemma SubSlices(s: Bytes, off: nat, n: nat, t: Bytes)
    requires HEADER <= n && off + n <= |s| && t == s[off..off + n]
    ensures s[off..off + 4] == t[0..4] && s[off + 4..off + 6] == t[4..6] && s[off + 6] == t[6] && s[off + 7] == t[7]
  {
    PartSlice(s, off, n, t, 0, 4);
    PartSlice(s, off, n, t, 4, 6);
  }

  lemma PartSlice(s: Bytes, off: nat, n: nat, t: Bytes, a: nat, b: nat)
    requires a <= b <= n && off + n <= |s| && t == s[off..off + n]
    ensures s[off + a..off + b] == t[a..b]
  {
    var u, v := s[off + a..off + b], t[a..b];
    forall i | 0 <= i < b - a
      ensures u[i] == v[i]
    {
      assert t[a + i] == s[off + (a + i)];
    }
  }

  // ---------------------------------------------------------------- well-formed ranges

  /** The record at off is one that ext2_dirbadentry accepts, and if it is in use it has a name. */
  predicate Good(s: Bytes, off: nat, end: nat) {
    && end <= |s| && off + HEADER <= end
    && var r := Reclen(s, off);
       12 <= r && Aligned(r) && RecLen(Namlen(s, off)) <= r && off + r <= end && (Ino(s, off) != 0 ==> Namlen(s, off) > 0)
  }

  /** Records tile the range from off to end. */
  predicate Tiled(s: Bytes, off: nat, end: nat)
    decreases end - off
  {
    && off <= end <= |s|
    && (off < end ==> Good(s, off, end) && Tiled(s, Next(s, off), end))
  }

  /** The entry of one record, if it is in use. */
  function Used(s: Bytes, off: nat): seq<Entry>
    requires Has(s, off) && off + HEADER + Namlen(s, off) <= |s|
  {
    if Ino(s, off) != 0 then [EntryAt(s, off)] else []
  }

  /** The entries in use, in order. */
  function Live(s: Bytes, off: nat, end: nat): seq<Entry>
    requires Tiled(s, off, end)
    decreases end - off
  {
    if off == end then [] else Used(s, off) + Live(s, Next(s, off), end)
  }

  /** What the record at off could give up. */
  function Room(s: Bytes, off: nat): int
    requires Has(s, off)
  {
    if Ino(s, off) == 0 then Reclen(s, off) else Reclen(s, off) - RecLen(Namlen(s, off))
  }

  /** What all records of a range could give up together. */
  function Space(s: Bytes, off: nat, end: nat): (n: nat)
    requires Tiled(s, off, end)
    ensures n <= end - off
    decreases end - off
  {
    if off == end then 0 else Room(s, off) + Space(s, Next(s, off), end)
  }

  /** A range depends on its own bytes only. */
  lemma {:induction false} SameRange(s: Bytes, s': Bytes, off: nat, end: nat)
    requires Tiled(s, off, end) && end <= |s'| && s'[off..end] == s[off..end]
    ensures Tiled(s', off, end) && Live(s', off, end) == Live(s, off, end) && Space(s', off, end) == Space(s, off, end)
    decreases end - off
  {
    if off < end {
      var next := Next(s, off);
      SameGood(s, s', off, end);
      SameSlice(s, s', off, end, next, end);
      SameRange(s, s', next, end);
    }
  }

  lemma SameGood(s: Bytes, s': Bytes, off: nat, end: nat)
    requires Good(s, off, end) && end <= |s'| && s'[off..end] == s[off..end]
    ensures Good(s', off, end) && Next(s', off) == Next(s, off) && Used(s', off) == Used(s, off) && Room(s', off) == Room(s, off)
  {
    assert off + (end - off) == end;
    SameFields(s, off, s', off, end - off);
  }

  /** Two ranges side by side are one. */
  lemma {:induction false} JoinRanges(s: Bytes, off: nat, mid: nat, end: nat)
    requires Tiled(s, off, mid) && Tiled(s, mid, end)
    ensures Tiled(s, off, end)
    ensures Live(s, off, end) == Live(s, off, mid) + Live(s, mid, end)
    ensures Space(s, off, end) == Space(s, off, mid) + Space(s, mid, end)
    decreases mid - off
  {
    if off < mid {
      var next := Next(s, off);
      JoinRanges(s, next, mid, end);
      Associate(Used(s, off), Live(s, next, mid), Live(s, mid, end));
    }
  }

  lemma Associate(a: seq<Entry>, b: seq<Entry>, c: seq<Entry>)
    ensures a + (b + c) == (a + b) + c
  {
  }

  /** One record is a range. */
  lemma OneRecord(s: Bytes, off: nat, end: nat)
    requires Good(s, off, end)
    ensures var next := Next(s, off);
            Tiled(s, off, next) && Live(s, off, next) == Used(s, off) && Space(s, off, next) == Room(s, off)
  {
    var next := Next(s, off);
    assert Tiled(s, next, next);
  }

  // ---------------------------------------------------------------- writing

  /** s with t written at offset off. */
  function Put(s: Bytes, off: nat, t: Bytes): (r: Bytes)
    requires off + |t| <= |s|
    ensures |r| == |s| && r[..off] == s[..off] && r[off..off + |t|] == t && r[off + |t|..] == s[off + |t|..]
  {
    s[..off] + t + s[off + |t|..]
  }

  lemma PutIs(s: Bytes, off: nat, t: Bytes, r: Bytes)
    requires off + |t| <= |s| == |r|
    requires forall j :: off <= j < off + |t| ==> r[j] == t[j - off]
    requires forall j :: 0 <= j < |s| && !(off <= j < off + |t|) ==> r[j] == s[j]
    ensures r == Put(s, off, t)
  {
    assert r[..off] == s[..off];
    assert r[off..off + |t|] == t;
    assert r[off + |t|..] == s[off + |t|..];
    assert r == r[..off] + r[off..off + |t|] + r[off + |t|..];
  }

  function TwoBytes(v: nat): (t: Bytes)
    requires v < 0x1_0000
    ensures |t| == 2 && Number(t, 0, 2) == v
  {
    var t := [(v % 0x100) as byte, (v / 0x100) as byte];
    NumberOfTwo(t, 0);
    t
  }

  function FourBytes(v: nat): (t: Bytes)
    requires v < 0x1_0000_0000
    ensures |t| == 4 && Number(t, 0, 4) == v
  {
    var lo, hi := TwoBytes(v % 0x1_0000), TwoBytes(v / 0x1_0000);
    NumberOfTwo(lo, 0);
    NumberOfTwo(hi, 0);
    NumberOfFour(lo + hi, 0);
    lo + hi
  }

  function PutReclen(s: Bytes, off: nat, v: nat): (r: Bytes)
    requires Has(s, off) && v < 0x1_0000
    ensures |r| == |s| && Reclen(r, off) == v && Ino(r, off) == Ino(s, off) && Namlen(r, off) == Namlen(s, off)
    ensures r[..off] == s[..off] && r[off + 6..] == s[off + 6..]
  {
    var r := Put(s, off + 4, TwoBytes(v));
    PutFields(s, off, TwoBytes(v), r);
    r
  }

  lemma PutFields(s: Bytes, off: nat, t: Bytes, r: Bytes)
    requires Has(s, off) && |t| == 2 && r == Put(s, off + 4, t)
    ensures Reclen(r, off) == Number(t, 0, 2) && Ino(r, off) == Ino(s, off) && Namlen(r, off) == Namlen(s, off)
    ensures r[..off] == s[..off] && r[off + 6..] == s[off + 6..]
  {
    SameHead(s, r, off + 4, off, off + 4);
    SameNumber(s, off, off + 4, r, off);
    assert t[0..2] == t && r[off + 4..off + 6] == t;
    SameNumber(t, 0, 2, r, off + 4);
    assert r[off + 6] == r[off + 6..][0] && s[off + 6] == s[off + 6..][0];
    Shorter(s, r, off + 4, off);
  }

  lemma LengthOnly(s: Bytes, off: nat, v: nat)
    requires Has(s, off) && v < 0x1_0000 && off + HEADER + Namlen(s, off) <= |s|
    ensures EntryAt(PutReclen(s, off, v), off) == EntryAt(s, off)
    ensures Used(PutReclen(s, off, v), off) == Used(s, off)
  {
    var r := PutReclen(s, off, v);
    var m := Namlen(s, off);
    assert r[off + 7] == r[off + 6..][1] && s[off + 7] == s[off + 6..][1];
    SameTail(s, r, off + 6, off + HEADER, off + HEADER + m);
  }

  /** Copy n bytes towards the beginning; the ranges may overlap. */
  method Bcopy(b: array<byte>, src: nat, dst: nat, n: nat)
    requires dst <= src && src + n <= b.Length
    modifies b
    ensures b[..] == Put(old(b[..]), dst, old(b[..])[src..src + n])
  {
    var i := 0;
    ghost var s := b[..];
    while i < n
      invariant 0 <= i <= n
      invariant forall j :: dst <= j < dst + i ==> b[j] == s[j + (src - dst)]
      invariant forall j :: 0 <= j < b.Length && !(dst <= j < dst + i) ==> b[j] == s[j]
    {
      b[dst + i] := b[src + i];
      i := i + 1;
    }
    PutIs(s, dst, s[src..src + n], b[..]);
  }

  method BcopyIn(b: array<byte>, t: Bytes, dst: nat)
    requires dst + |t| <= b.Length
    modifies b
    ensures b[..] == Put(old(b[..]), dst, t)
  {
    var i := 0;
    ghost var s := b[..];
    while i < |t|
      invariant 0 <= i <= |t|
      invariant forall j :: dst <= j < dst + i ==> b[j] == t[j - dst]
      invariant forall j :: 0 <= j < b.Length && !(dst <= j < dst + i) ==> b[j] == s[j]
    {
      b[dst + i] := t[i];
      i := i + 1;
    }
    PutIs(s, dst, t, b[..]);
  }

  method SetReclen(b: array<byte>, off: nat, v: nat)
    requires Has(b[..], off) && v < 0x1_0000
    modifies b
    ensures b[..] == PutReclen(old(b[..]), off, v)
  {
    BcopyIn(b, TwoBytes(v), off + 4);
  }

  // ---------------------------------------------------------------- ext2_direnter: compaction

  /** Outside [base, end) the two are the same. */
  ghost predicate SameAround(o: Bytes, s: Bytes, base: nat, end: nat) {
    |s| == |o| && base <= end <= |o| && s[..base] == o[..base] && s[end..] == o[end..]
  }

  /** Compacting o from `base` has reached `loc`: what was in use before loc is packed together before ep,
      except the last record, which lies at ep and has not got its length yet; spacefree bytes follow its
      dsize. */
  ghost predicate Compacting(o: Bytes, s: Bytes, base: nat, end: nat, ep: nat, loc: nat, dsize: nat, spacefree: int) {
    && SameAround(o, s, base, loc) && |o| < 0x1_0000 && base <= ep && loc <= end <= |o|
    && spacefree >= 0 && ep + dsize + spacefree == loc && Has(s, ep)
    && dsize == RecLen(Namlen(s, ep)) && (Ino(s, ep) != 0 ==> Namlen(s, ep) > 0)
    && Tiled(o, base, loc) && Tiled(o, loc, end) && Tiled(s, base, ep) && Space(s, base, ep) == 0
    && Live(s, base, ep) + Used(s, ep) == Live(o, base, loc)
    && spacefree + (if Ino(s, ep) == 0 then dsize else 0) == Space(o, base, loc)
  }

  lemma CompactStart(o: Bytes, base: nat, end: nat)
    requires base < end && Tiled(o, base, end) && |o| < 0x1_0000
    ensures var d := RecLen(Namlen(o, base));
            Compacting(o, o, base, end, base, Next(o, base), d, Reclen(o, base) - d)
  {
    OneRecord(o, base, end);
    assert Tiled(o, base, base);
    assert Live(o, base, base) == [];
  }

  /** The record at ep gets the length it needs and becomes part of what is packed. */
  lemma Trimmed(s: Bytes, base: nat, ep: nat, dsize: nat, at: nat)
    requires Tiled(s, base, ep) && Has(s, ep) && dsize == RecLen(Namlen(s, ep)) && ep + dsize == at <= |s| < 0x1_0000
    requires Ino(s, ep) != 0 && Namlen(s, ep) > 0
    ensures var s1 := PutReclen(s, ep, dsize);
            && Tiled(s1, base, at)
            && Live(s1, base, at) == Live(s, base, ep) + Used(s, ep) && Space(s1, base, at) == Space(s, base, ep)
  {
    var s1 := PutReclen(s, ep, dsize);
    SameHead(s, s1, ep, base, ep);
    SameRange(s, s1, base, ep);
    LengthOnly(s, ep, dsize);
    assert Next(s1, ep) == at;
    LastRecord(s1, base, ep, at);
  }

  /** One record more. */
  lemma LastRecord(s: Bytes, base: nat, ep: nat, at: nat)
    requires Tiled(s, base, ep) && Has(s, ep) && at == Next(s, ep) <= |s| && Good(s, ep, at)
    ensures Tiled(s, base, at) && Live(s, base, at) == Live(s, base, ep) + Used(s, ep)
    ensures Space(s, base, at) == Space(s, base, ep) + Room(s, ep)
  {
    OneRecord(s, ep, at);
    JoinRanges(s, base, ep, at);
  }

  /** The state before a record is copied: what was in use before loc is packed in [base, ep). */
  ghost predicate Packed(o: Bytes, s: Bytes, base: nat, end: nat, ep: nat, loc: nat) {
    && SameAround(o, s, base, loc) && |o| < 0x1_0000 && base <= ep <= loc < end <= |o|
    && Tiled(o, base, loc) && Tiled(o, loc, end) && Tiled(s, base, ep) && Space(s, base, ep) == 0
    && Live(s, base, ep) == Live(o, base, loc) && loc - ep == Space(o, base, loc)
  }

  /** The first half of a round: the record at ep is finished if it is in use, else dropped. */
  lemma Finish(o: Bytes, s: Bytes, base: nat, end: nat, ep: nat, loc: nat, dsize: nat, spacefree: int, at: nat)
    requires Compacting(o, s, base, end, ep, loc, dsize, spacefree) && loc < end && at == ep + dsize
    ensures Ino(s, ep) != 0 ==> Packed(o, PutReclen(s, ep, dsize), base, end, at, loc)
    ensures Ino(s, ep) == 0 ==> Packed(o, s, base, end, ep, loc)
  {
    if Ino(s, ep) != 0 {
      Trimmed(s, base, ep, dsize, at);
      FinishAround(o, s, base, ep, loc, dsize);
    }
  }

  lemma FinishAround(o: Bytes, s: Bytes, base: nat, ep: nat, loc: nat, dsize: nat)
    requires SameAround(o, s, base, loc) && base <= ep && ep + HEADER <= loc && dsize < 0x1_0000
    ensures SameAround(o, PutReclen(s, ep, dsize), base, loc)
  {
    var s1 := PutReclen(s, ep, dsize);
    Shorter(s, s1, ep, base);
    Later(s, s1, ep + 6, loc);
  }

  /** The record about to be copied is the one that was there from the start. */
  lemma NextRecord(o: Bytes, s: Bytes, base: nat, end: nat, ep: nat, loc: nat)
    requires Packed(o, s, base, end, ep, loc)
    ensures Has(s, loc) && Reclen(s, loc) == Reclen(o, loc) && Namlen(s, loc) == Namlen(o, loc)
    ensures Ino(s, loc) == Ino(o, loc) && Good(o, loc, end) && RecLen(Namlen(s, loc)) <= Reclen(s, loc)
    ensures Next(s, loc) <= end && loc + RecLen(Namlen(s, loc)) <= |s|
  {
    SameTail(o, s, loc, loc, end);
    SameFields(o, loc, s, loc, end - loc);
  }

  /** The second half: the record at loc, d1 bytes of which matter, is copied to ep; the next one is at next. */
  lemma Copied(o: Bytes, s: Bytes, base: nat, end: nat, ep: nat, loc: nat, d1: nat, next: nat)
    requires Packed(o, s, base, end, ep, loc) && Good(o, loc, end) && loc + d1 <= next <= end
    requires Has(s, loc) && d1 == RecLen(Namlen(s, loc)) && next == Next(s, loc)
    ensures Compacting(o, Put(s, ep, s[loc..loc + d1]), base, end, ep, next, d1, next - ep - d1)
  {
    CopiedAround(o, s, base, ep, loc, d1, next);
    NextRecord(o, s, base, end, ep, loc);
    CopiedRecord(o, s, base, end, ep, loc, d1, Put(s, ep, s[loc..loc + d1]));
    PackedStays(s, base, ep, s[loc..loc + d1]);
    assert Next(o, loc) == next;
    Counted(o, base, end, loc, next);
  }

  /** The copy says what the record said ... */
  lemma CopiedRecord(o: Bytes, s: Bytes, base: nat, end: nat, ep: nat, loc: nat, d1: nat, s2: Bytes)
    requires Packed(o, s, base, end, ep, loc) && Good(o, loc, end) && loc + d1 <= end
    requires Has(s, loc) && d1 == RecLen(Namlen(s, loc)) && s2 == Put(s, ep, s[loc..loc + d1])
    ensures Ino(s2, ep) == Ino(o, loc) && Namlen(s2, ep) == Namlen(o, loc) && Used(s2, ep) == Used(o, loc)
  {
    NextRecord(o, s, base, end, ep, loc);
    SameTail(o, s, loc, loc, loc + d1);
    assert s2[ep..ep + d1] == s[loc..loc + d1];
    SameFields(o, loc, s2, ep, d1);
  }

  /** ... and what is packed before it stays. */
  lemma PackedStays(s: Bytes, base: nat, ep: nat, t: Bytes)
    requires Tiled(s, base, ep) && ep + |t| <= |s|
    ensures Tiled(Put(s, ep, t), base, ep) && Live(Put(s, ep, t), base, ep) == Live(s, base, ep)
    ensures Space(Put(s, ep, t), base, ep) == Space(s, base, ep)
  {
    SameHead(s, Put(s, ep, t), ep, base, ep);
    SameRange(s, Put(s, ep, t), base, ep);
  }

  lemma Counted(o: Bytes, base: nat, end: nat, loc: nat, next: nat)
    requires Tiled(o, base, loc) && Tiled(o, loc, end) && loc < end && next == Next(o, loc)
    ensures Tiled(o, base, next) && Tiled(o, next, end)
    ensures Live(o, base, next) == Live(o, base, loc) + Used(o, loc)
    ensures Space(o, base, next) == Space(o, base, loc) + Room(o, loc)
  {
    LastRecord(o, base, loc, next);
  }

  lemma CopiedAround(o: Bytes, s: Bytes, base: nat, ep: nat, loc: nat, d1: nat, next: nat)
    requires SameAround(o, s, base, loc) && base <= ep <= loc && loc + d1 <= next <= |s|
    ensures SameAround(o, Put(s, ep, s[loc..loc + d1]), base, next)
  {
    var s2 := Put(s, ep, s[loc..loc + d1]);
    Shorter(s, s2, ep, base);
    Later(s, s2, ep + d1, next);
    Later(o, s, loc, next);
  }

  /** The bytes of a new record; what follows the name in them does not matter. */
  function NewRecord(e: Entry, reclen: nat, pad: Bytes): (r: Bytes)
    requires e.ino < 0x1_0000_0000 && reclen < 0x1_0000 && |e.name| < 0x100
    requires HEADER + |e.name| + |pad| == RecLen(|e.name|)
    ensures |r| == RecLen(|e.name|)
    ensures Ino(r, 0) == e.ino && Reclen(r, 0) == reclen && Namlen(r, 0) == |e.name| && EntryAt(r, 0) == e
  {
    var r := FourBytes(e.ino) + TwoBytes(reclen) + [|e.name| as byte, e.typ] + e.name + pad;
    FiveParts(FourBytes(e.ino), TwoBytes(reclen), |e.name| as byte, e.typ, e.name, pad);
    r
  }

  lemma FiveParts(a: Bytes, c: Bytes, n: byte, t: byte, name: Bytes, pad: Bytes)
    requires |a| == 4 && |c| == 2
    ensures var r := a + c + [n, t] + name + pad;
            && Number(r, 0, 4) == Number(a, 0, 4) && Number(r, 4, 6) == Number(c, 0, 2)
            && r[6] == n && r[7] == t && r[HEADER..HEADER + |name|] == name
  {
    var r := a + c + [n, t] + name + pad;
    assert r[0..4] == a && a[0..4] == a;
    SameNumber(a, 0, 4, r, 0);
    assert r[4] == c[0] && r[5] == c[1];
    assert r[4..6] == [r[4], r[5]] && c[0..2] == [c[0], c[1]];
    SameNumber(c, 0, 2, r, 4);
  }

  ghost predicate CanEnter(e: Entry, pad: Bytes) {
    0 < e.ino < 0x1_0000_0000 && 0 < |e.name| < 0x100 && HEADER + |e.name| + |pad| == RecLen(|e.name|)
  }

  /** The new record fills what is left of the range. */
  lemma Entered(o: Bytes, s: Bytes, base: nat, end: nat, at: nat, e: Entry, pad: Bytes, reclen: nat)
    requires at + reclen == end
    requires SameAround(o, s, base, end) && |o| < 0x1_0000 && base <= at && Tiled(s, base, at)
    requires at + RecLen(|e.name|) <= end && Aligned(reclen) && CanEnter(e, pad)
    ensures var s' := Put(s, at, NewRecord(e, reclen, pad));
            && Tiled(s', base, end) && Live(s', base, end) == Live(s, base, at) + [e] && SameAround(o, s', base, end)
            && (Space(s, base, at) == 0 ==> LastHasRoom(s', base, at, end, e))
  {
    var r := NewRecord(e, reclen, pad);
    var s' := Put(s, at, r);
    SameHead(s, s', at, base, at);
    SameRange(s, s', base, at);
    assert r[0..|r|] == r;
    SameFields(r, 0, s', at, |r|);
    OneRecord(s', at, end);
    JoinRanges(s', base, at, end);
    EnteredAround(o, s, base, end, at, r);
  }

  /** The record at `at` holds e and is the last one; the ones before it have no space to spare. */
  ghost predicate LastHasRoom(s: Bytes, base: nat, at: nat, end: nat, e: Entry) {
    && Tiled(s, base, at) && Space(s, base, at) == 0
    && Good(s, at, end) && Next(s, at) == end && Ino(s, at) != 0 && EntryAt(s, at) == e
  }

  lemma EnteredAround(o: Bytes, s: Bytes, base: nat, end: nat, at: nat, r: Bytes)
    requires SameAround(o, s, base, end) && base <= at && at + |r| <= end
    ensures SameAround(o, Put(s, at, r), base, end)
  {
    var s' := Put(s, at, r);
    Shorter(s, s', at, base);
    Later(s, s', at + |r|, end);
  }

  lemma {:induction false} TiledByFours(s: Bytes, off: nat, end: nat)
    requires Tiled(s, off, end)
    ensures Aligned(end - off)
    decreases end - off
  {
    if off < end {
      var r := Reclen(s, off);
      TiledByFours(s, off + r, end);
      AlignedSum(r, end - off - r);
    }
  }

  /** ext2_direnter in a block: the range [base, base + count) has room for the entry e once it is compacted.
      Everything outside the range stays as it is, the range is tiled again, and what is in use in it is what
      was, in the same order, and then e.  All free space of the range is behind e, in its record. */
  method Enter(b: array<byte>, base: nat, count: nat, ghost end: nat, e: Entry, pad: Bytes)
    requires b.Length < 0x1_0000 && count > 0 && end == base + count && Tiled(b[..], base, end) && CanEnter(e, pad)
    requires RecLen(|e.name|) <= Space(b[..], base, end)
    modifies b
    ensures Tiled(b[..], base, end) && SameAround(old(b[..]), b[..], base, end)
    ensures Live(b[..], base, end) == old(Live(b[..], base, end)) + [e]
    ensures Compacted(b[..], base, end, e)
  {
    ghost var o := b[..];
    var ep, dsize, spacefree, loc := Compact(b, base, count, end);
    if Ino(b[..], ep) == 0 {
      EnterFree(b, ep, dsize, spacefree, e, pad, o, base, end);
    } else {
      EnterUsed(b, ep, dsize, spacefree, e, pad, o, base, end);
    }
  }

  /** The range still is a list of records, with the entry e behind those it had; nothing outside it changed. */
  ghost predicate HasEntered(o: Bytes, s: Bytes, base: nat, end: nat, e: Entry)
    requires Tiled(o, base, end)
  {
    && Tiled(s, base, end) && SameAround(o, s, base, end) && Live(s, base, end) == Live(o, base, end) + [e]
    && Compacted(s, base, end, e)
  }

  ghost predicate Compacted(s: Bytes, base: nat, end: nat, e: Entry) {
    exists at: nat :: LastHasRoom(s, base, at, end, e)
  }

  /** The new record takes the place of a free one. */
  method EnterFree(b: array<byte>, ep: nat, dsize: nat, spacefree: nat, e: Entry, pad: Bytes,
                   ghost o: Bytes, ghost base: nat, ghost end: nat)
    requires Compacting(o, b[..], base, end, ep, end, dsize, spacefree) && Ino(b[..], ep) == 0
    requires CanEnter(e, pad) && RecLen(|e.name|) <= Space(o, base, end)
    modifies b
    ensures HasEntered(o, b[..], base, end, e)
  {
    var newentrysize := RecLen(|e.name|);
    if spacefree + dsize < newentrysize {
      assert false;   // panic: compact1
    }
    LastSizes(o, b[..], base, end, ep, dsize, spacefree);
    var reclen := spacefree + dsize;
    Entered(o, b[..], base, end, ep, e, pad, reclen);
    BcopyIn(b, NewRecord(e, reclen, pad), ep);
  }

  /** The new record follows the last one in use, which gets the length it needs. */
  method EnterUsed(b: array<byte>, ep: nat, dsize: nat, spacefree: nat, e: Entry, pad: Bytes,
                   ghost o: Bytes, ghost base: nat, ghost end: nat)
    requires Compacting(o, b[..], base, end, ep, end, dsize, spacefree) && Ino(b[..], ep) != 0
    requires CanEnter(e, pad) && RecLen(|e.name|) <= Space(o, base, end)
    modifies b
    ensures HasEntered(o, b[..], base, end, e)
  {
    var newentrysize := RecLen(|e.name|);
    if spacefree < newentrysize {
      assert false;   // panic: compact2
    }
    ghost var s := b[..];
    var at := ep + dsize;
    EnteredUsed(o, s, base, end, ep, dsize, spacefree, at, e, pad);
    SetReclen(b, ep, dsize);
    BcopyIn(b, NewRecord(e, spacefree, pad), at);
    assert b[..] == Put(PutReclen(s, ep, dsize), at, NewRecord(e, spacefree, pad));
  }

  lemma EnteredUsed(o: Bytes, s: Bytes, base: nat, end: nat, ep: nat, dsize: nat, spacefree: nat, at: nat,
                    e: Entry, pad: Bytes)
    requires Compacting(o, s, base, end, ep, end, dsize, spacefree) && Ino(s, ep) != 0 && at == ep + dsize
    requires CanEnter(e, pad) && RecLen(|e.name|) <= spacefree
    ensures dsize < 0x1_0000 && spacefree < 0x1_0000 && at + RecLen(|e.name|) <= |s|
    ensures var t := Put(PutReclen(s, ep, dsize), at, NewRecord(e, spacefree, pad));
            && Tiled(t, base, end) && SameAround(o, t, base, end) && Live(t, base, end) == Live(o, base, end) + [e]
            && LastHasRoom(t, base, at, end, e)
  {
    LastSizes(o, s, base, end, ep, dsize, spacefree);
    Trimmed(s, base, ep, dsize, at);
    FinishAround(o, s, base, ep, end, dsize);
    Entered(o, PutReclen(s, ep, dsize), base, end, at, e, pad, spacefree);
  }

  lemma LastSizes(o: Bytes, s: Bytes, base: nat, end: nat, ep: nat, dsize: nat, spacefree: nat)
    requires Compacting(o, s, base, end, ep, end, dsize, spacefree)
    ensures base <= ep && ep + dsize + spacefree == end <= |s|
    ensures Aligned(end - ep) && Aligned(spacefree)
  {
    TiledByFours(o, base, end);
    TiledByFours(s, base, ep);
    Fours(base, ep, end, dsize);
  }

  lemma Fours(base: nat, ep: nat, end: nat, dsize: nat)
    requires base <= ep && ep + dsize <= end && Aligned(end - base) && Aligned(ep - base) && Aligned(dsize)
    ensures Aligned(end - ep) && Aligned(end - ep - dsize)
  {
    AlignedSum(ep - base, end - ep);
    AlignedSum(dsize, end - ep - dsize);
  }

  /** The loop of ext2_direnter. */
  method Compact(b: array<byte>, base: nat, count: nat, ghost end: nat) returns (ep: nat, dsize: nat, spacefree: nat, loc: nat)
    requires b.Length < 0x1_0000 && count > 0 && end == base + count && Tiled(b[..], base, end)
    modifies b
    ensures loc == end && Compacting(old(b[..]), b[..], base, end, ep, loc, dsize, spacefree)
  {
    ghost var o := b[..];
    CompactStart(o, base, end);
    ep, dsize := base, RecLen(Namlen(b[..], base));
    spacefree, loc := Reclen(b[..], base) - dsize, Next(b[..], base);
    while loc < base + count
      invariant Compacting(o, b[..], base, end, ep, loc, dsize, spacefree)
      decreases base + count - loc
    {
      ep, dsize, spacefree, loc := Round(b, ep, dsize, spacefree, loc, o, base, end);
    }
  }

  /** Its body. */
  method Round(b: array<byte>, ep0: nat, dsize0: nat, spacefree0: nat, loc0: nat, ghost o: Bytes, ghost base: nat, ghost end: nat)
    returns (ep: nat, dsize: nat, spacefree: nat, loc: nat)
    requires Compacting(o, b[..], base, end, ep0, loc0, dsize0, spacefree0) && loc0 < end
    modifies b
    ensures Compacting(o, b[..], base, end, ep, loc, dsize, spacefree) && loc > loc0
  {
    ep, spacefree := FinishLast(b, ep0, dsize0, spacefree0, loc0, o, base, end);
    ghost var s := b[..];
    NextRecord(o, s, base, end, ep, loc0);
    dsize := RecLen(Namlen(b[..], loc0));
    spacefree := spacefree + Reclen(b[..], loc0) - dsize;
    loc := Next(b[..], loc0);
    Copied(o, s, base, end, ep, loc0, dsize, loc);
    Bcopy(b, loc0, ep, dsize);
  }

  /** Its first half: trim the record at ep and step behind it, or drop it if it is free. */
  method FinishLast(b: array<byte>, ep0: nat, dsize: nat, spacefree0: nat, ghost loc: nat, ghost o: Bytes,
                    ghost base: nat, ghost end: nat)
    returns (ep: nat, spacefree: nat)
    requires Compacting(o, b[..], base, end, ep0, loc, dsize, spacefree0) && loc < end
    modifies b
    ensures Packed(o, b[..], base, end, ep, loc) && spacefree == loc - ep
  {
    var at := ep0 + dsize;
    Finish(o, b[..], base, end, ep0, loc, dsize, spacefree0, at);
    ep, spacefree := ep0, spacefree0;
    if Ino(b[..], ep) != 0 {
      SetReclen(b, ep, dsize);
      ep := at;
    } else {
      spacefree := spacefree + dsize;
    }
  }

  // ---------------------------------------------------------------- ext2_dirremove

  /** The first record of a block is freed by zeroing its inode number ... */
  method RemoveFirst(b: array<byte>, off: nat, ghost end: nat)
    requires off < end && Tiled(b[..], off, end)
    modifies b
    ensures Tiled(b[..], off, end) && SameAround(old(b[..]), b[..], off, end)
    ensures Live(b[..], off, end) == Live(old(b[..]), Next(old(b[..]), off), end)
  {
    ghost var o := b[..];
    Freed(o, off, end);
    BcopyIn(b, [0, 0, 0, 0], off);
    assert b[..] == Put(o, off, [0, 0, 0, 0]);
  }

  lemma Freed(o: Bytes, off: nat, end: nat)
    requires off < end && Tiled(o, off, end)
    ensures var s := Put(o, off, [0, 0, 0, 0]);
            && Tiled(s, off, end) && SameAround(o, s, off, end)
            && Live(s, off, end) == Live(o, Next(o, off), end)
  {
    var s, next := Put(o, off, [0, 0, 0, 0]), Next(o, off);
    EnteredAround(o, o, off, end, off, [0, 0, 0, 0]);
    SameTail(o, s, off + 4, off + 4, off + 6);
    SameNumber(o, off + 4, off + 6, s, off + 4);
    assert s[off + 6] == s[off + 4..][2] && o[off + 6] == o[off + 4..][2];
    var z := s[off..off + 4];
    assert z[0] == 0 && z[1] == 0 && z[2] == 0 && z[3] == 0;
    NumberOfFour(s, off);
    assert Next(s, off) == next && Ino(s, off) == 0;
    SameTail(o, s, off + 4, next, end);
    SameRange(o, s, next, end);
  }

  /** ... and a later one by adding its length to the record before it. */
  method RemoveLater(b: array<byte>, prev: nat, ghost end: nat, ghost next: nat)
    requires b.Length < 0x1_0000 && TwoRecords(b[..], prev, end, next)
    modifies b
    ensures Tiled(b[..], prev, end) && SameAround(old(b[..]), b[..], prev, end)
    ensures Live(b[..], prev, end) == Used(old(b[..]), prev) + Live(old(b[..]), next, end)
  {
    var o := b[..];
    var rep := Next(o, prev);
    var r := Reclen(o, prev) + Reclen(o, rep);
    Merged(o, prev, end, next, r);
    SetReclen(b, prev, r);
  }

  /** There are records at prev and right behind it, and the next one is at `next`. */
  ghost predicate TwoRecords(o: Bytes, prev: nat, end: nat, next: nat) {
    && Good(o, prev, end) && Good(o, Next(o, prev), end)
    && next == Next(o, prev) + Reclen(o, Next(o, prev)) && Tiled(o, next, end)
  }

  lemma Merged(o: Bytes, prev: nat, end: nat, next: nat, r: nat)
    requires |o| < 0x1_0000 && TwoRecords(o, prev, end, next) && r == next - prev
    ensures r < 0x1_0000
    ensures var s := PutReclen(o, prev, r);
            && Tiled(s, prev, end) && SameAround(o, s, prev, end)
            && Live(s, prev, end) == Used(o, prev) + Live(o, next, end)
  {
    var s := PutReclen(o, prev, r);
    LengthOnly(o, prev, r);
    FinishAround(o, o, prev, prev, end, r);
    SameTail(o, s, prev + 6, next, end);
    SameRange(o, s, next, end);
    AlignedSum(Reclen(o, prev), Reclen(o, Next(o, prev)));
    assert Good(s, prev, end);
    OneRecord(s, prev, end);
    JoinRanges(s, prev, next, end);
  }
}
