/// Path arithmetic: from a logical block number to the offsets that lead to it (ext2_getlbns).  With n pointers
/// per block there are Pow(n, l) logical blocks below a pointer of level l.
module BlockPath {
  import opened BlockTree
  import opened Arith

  const NDADDR := 12
  const NIADDR := 3

  /** One step of a path: the logical number of a pointer block, and the offset used in it. */
  datatype Indir = Indir(lbn: int, off: nat)

  datatype LbnPath = Path(steps: seq<Indir>) | EFBIG

  /** The first logical block reached through the indirect pointer of level l in the inode. */
  function Base(n: nat, l: nat): nat {
    if l <= 1 then NDADDR else Base(n, l - 1) + Pow(n, l - 1)
  }

  /** How many pointer blocks lie between the inode and logical block m; more than NIADDR is too far. */
  function Level(n: nat, m: nat): nat {
    if m < NDADDR then 0
    else if m < Base(n, 2) then 1
    else if m < Base(n, 3) then 2
    else if m < Base(n, 4) then 3
    else 4
  }

  /** The l low digits of r in base n, most significant first. */
  function Offs(n: nat, l: nat, r: nat): (p: seq<nat>)
    requires n > 0
    ensures |p| == l && InRange(n, p)
  {
    if l == 0 then [] else [(r / Pow(n, l - 1)) % n] + Offs(n, l - 1, r)
  }

  function Compose(n: nat, p: seq<nat>): nat {
    if p == [] then 0 else Pow(n, |p| - 1) * p[0] + Compose(n, p[1..])
  }

  /** The logical number of the pointer block of level k on the way to block base + r: one less, per
      level, than the negated number of the first data block it leads to. */
  function MetaLbn(n: nat, base: nat, k: nat, r: nat): int
    requires n > 0 && k > 0
  {
    -(base + Down(r, Pow(n, k)) + k - 1)
  }

  /** What a walk down l levels records, stopping at the pointer block numbered `target`. */
  function Steps(n: nat, base: nat, l: nat, r: nat, target: int): seq<Indir>
    requires n > 0
  {
    if l == 0 || MetaLbn(n, base, l, r) == target then []
    else [Indir(MetaLbn(n, base, l, r), (r / Pow(n, l - 1)) % n)] + Steps(n, base, l - 1, r, target)
  }

  function Lbns(n: nat, bn: int): LbnPath
    requires n > 0
  {
    var m := if bn < 0 then -bn else bn;
    var l := Level(n, m);
    if l == 0 then Path([])
    else if l > NIADDR then EFBIG
    else
      LevelBase(n, m);
      PathAt(n, l, m - Base(n, l), bn)
  }

  /** The path through the indirect pointer of level l to the block r places behind its first one. */
  function PathAt(n: nat, l: nat, r: nat, target: int): LbnPath
    requires n > 0 && l > 0
  {
    Path([Indir(MetaLbn(n, Base(n, l), l, r), l - 1)] + Steps(n, Base(n, l), l, r, target))
  }

  // ---------------------------------------------------------------- arithmetic

  lemma PowAtLeast(n: nat, l: nat)
    requires n >= 3
    ensures Pow(n, l) >= l + 1
    ensures l > 0 ==> Pow(n, l) >= n
  {
    if l > 0 {
      PowAtLeast(n, l - 1);
      MulMono(n, 1, Pow(n, l - 1));
      MulMono(Pow(n, l - 1), 2, n);
    }
  }

  lemma LevelBase(n: nat, m: nat)
    requires n > 0
    ensures var l := Level(n, m);
            && (1 <= l <= NIADDR ==> Base(n, l) <= m < Base(n, l) + Pow(n, l))
            && (l > NIADDR <==> m >= 12 + n + n * n + n * n * n)
  {
    assert Pow(n, 0) == 1 && Pow(n, 1) == n && Pow(n, 2) == n * n;
    assert Pow(n, 3) == n * (n * n) == n * n * n;
    assert Base(n, 2) == 12 + n && Base(n, 3) == 12 + n + n * n && Base(n, 4) == 12 + n + n * n + n * n * n;
  }

  // ---------------------------------------------------------------- mixed radix

  /** The offsets of a path recompose to the block number. */
  lemma {:induction false} ComposeOffs(n: nat, l: nat, r: nat)
    requires n > 0
    ensures Compose(n, Offs(n, l, r)) == r % Pow(n, l)
  {
    if l > 0 {
      ComposeOffs(n, l - 1, r);
      ModProduct(r, n, Pow(n, l - 1));
      assert Offs(n, l, r)[1..] == Offs(n, l - 1, r);
    }
  }

  lemma {:induction false} ComposeBound(n: nat, p: seq<nat>)
    requires n > 0 && InRange(n, p)
    ensures Compose(n, p) < Pow(n, |p|)
  {
    if p != [] {
      ComposeBound(n, p[1..]);
      MulBound(Pow(n, |p| - 1), p[0], n, Compose(n, p[1..]));
    }
  }

  /** Every path of offsets is the path of the number it recomposes to. */
  lemma {:induction false} OffsCompose(n: nat, p: seq<nat>, r: nat)
    requires n > 0 && InRange(n, p) && r % Pow(n, |p|) == Compose(n, p)
    ensures Offs(n, |p|, r) == p
  {
    if p != [] {
      var s := Pow(n, |p| - 1);
      ModProduct(r, n, s);
      ComposeBound(n, p[1..]);
      DivMod(r, s);
      QuotientUnique(s, p[0], Compose(n, p[1..]), (r / s) % n, r % s);
      OffsCompose(n, p[1..], r);
    }
  }

  /** The order of paths is the order of block numbers. */
  lemma {:induction false} LexCompose(n: nat, p: seq<nat>, q: seq<nat>)
    requires n > 0 && |p| == |q| && InRange(n, p) && InRange(n, q)
    ensures LexLe(p, q) <==> Compose(n, p) <= Compose(n, q)
  {
    if p != [] {
      LexCompose(n, p[1..], q[1..]);
      ComposeBound(n, p[1..]);
      ComposeBound(n, q[1..]);
      LexDigits(Pow(n, |p| - 1), p[0], Compose(n, p[1..]), q[0], Compose(n, q[1..]));
    }
  }

  lemma LexOffs(n: nat, l: nat, i: nat, j: nat)
    requires n > 0 && i < Pow(n, l) && j < Pow(n, l)
    ensures LexLe(Offs(n, l, i), Offs(n, l, j)) <==> i <= j
    ensures Offs(n, l, i) == Offs(n, l, j) <==> i == j
  {
    ComposeOffs(n, l, i);
    ComposeOffs(n, l, j);
    DivModUnique(i, Pow(n, l), 0, i);
    DivModUnique(j, Pow(n, l), 0, j);
    LexCompose(n, Offs(n, l, i), Offs(n, l, j));
  }

  /** The way ext2_indirtrunc splits `lastbn`: a quotient for this block, a remainder for the next. */
  lemma {:induction false} OffsSplit(n: nat, l: nat, r: nat)
    requires n > 0 && l > 0 && r < Pow(n, l)
    ensures var s := Pow(n, l - 1);
            && r / s < n && r % s < s
            && Offs(n, l, r)[0] == r / s && Offs(n, l, r)[1..] == Offs(n, l - 1, r % s)
  {
    var s := Pow(n, l - 1);
    assert r == s * (r / s) + r % s;
    if r / s >= n {
      MulMono(s, n, r / s);
    }
    DivModUnique(r / s, n, 0, r / s);
    ComposeOffs(n, l - 1, r % s);
    DivModUnique(r % s, s, 0, r % s);
    ComposeOffs(n, l - 1, r);
    OffsCompose(n, Offs(n, l - 1, r), r % s);
    assert Offs(n, l, r)[1..] == Offs(n, l - 1, r);
  }

  // ---------------------------------------------------------------- the path of a block

  /** For a data block the walk goes all the way down and records the digits of the block number. */
  lemma StepsOffs(n: nat, base: nat, l: nat, r: nat, target: int)
    requires n > 0 && base > 0 && target >= 0
    ensures var s := Steps(n, base, l, r, target);
            && |s| == l
            && forall k :: 0 <= k < l ==> s[k].lbn == MetaLbn(n, base, l - k, r) && s[k].off == Offs(n, l, r)[k]
  {
    StepsLength(n, base, l, r, target);
    forall k | 0 <= k < l
      ensures Steps(n, base, l, r, target)[k] == Indir(MetaLbn(n, base, l - k, r), Offs(n, l, r)[k])
    {
      StepAt(n, base, l, r, target, k);
    }
  }

  lemma {:induction false} StepsLength(n: nat, base: nat, l: nat, r: nat, target: int)
    requires n > 0 && base > 0 && target >= 0
    ensures |Steps(n, base, l, r, target)| == l
  {
    if l > 0 {
      MetaNegative(n, base, l, r);
      StepsLength(n, base, l - 1, r, target);
    }
  }

  lemma {:induction false} StepAt(n: nat, base: nat, l: nat, r: nat, target: int, k: nat)
    requires n > 0 && base > 0 && target >= 0 && k < l
    ensures |Steps(n, base, l, r, target)| == l
    ensures Steps(n, base, l, r, target)[k] == Indir(MetaLbn(n, base, l - k, r), Offs(n, l, r)[k])
  {
    StepsLength(n, base, l, r, target);
    MetaNegative(n, base, l, r);
    if k > 0 {
      StepAt(n, base, l - 1, r, target, k - 1);
    }
  }

  lemma MetaNegative(n: nat, base: nat, l: nat, r: nat)
    requires n > 0 && l > 0 && base > 0
    ensures MetaLbn(n, base, l, r) < 0
  {
    DivMod(r, Pow(n, l));
    MulMono(Pow(n, l), 0, r / Pow(n, l));
  }

  /** Looking up a data block: the path recomposes to the block number, and is too long for the inode
      exactly from 12 + n + n^2 + n^3 on. */
  lemma DataPath(n: nat, bn: nat)
    requires n > 0
    ensures Lbns(n, bn).EFBIG? <==> bn >= 12 + n + n * n + n * n * n
    ensures var l := Level(n, bn);
            l <= NIADDR ==>
              var s := Lbns(n, bn).steps;
              && (l == 0 ==> s == [] && bn < NDADDR)
              && (l > 0 ==>
                    && Base(n, l) <= bn
                    && |s| == l + 1 && s[0].off == l - 1
                    && (forall k :: 1 <= k <= l ==> s[k].off == Offs(n, l, bn - Base(n, l))[k - 1] < n)
                    && Base(n, l) + Compose(n, Offs(n, l, bn - Base(n, l))) == bn)
  {
    LevelBase(n, bn);
    var l := Level(n, bn);
    if 0 < l <= NIADDR {
      var r := bn - Base(n, l);
      StepsOffs(n, Base(n, l), l, r, bn);
      ComposeOffs(n, l, r);
      DivModUnique(r, Pow(n, l), 0, r);
    }
  }

  /** Distinct block numbers have distinct paths. */
  lemma PathsDistinct(n: nat, i: nat, j: nat)
    requires n > 0 && i >= NDADDR && j >= NDADDR
    requires Lbns(n, i).Path? && Lbns(n, j).Path?
    requires |Lbns(n, i).steps| == |Lbns(n, j).steps|
    requires forall k :: 0 <= k < |Lbns(n, i).steps| ==> Lbns(n, i).steps[k].off == Lbns(n, j).steps[k].off
    ensures i == j
  {
    DataPath(n, i);
    DataPath(n, j);
    LevelBase(n, i);
    LevelBase(n, j);
    var l := Level(n, i);
    var p, q := Offs(n, l, i - Base(n, l)), Offs(n, l, j - Base(n, l));
    forall k | 0 <= k < l
      ensures p[k] == q[k]
    {
      assert Lbns(n, i).steps[k + 1].off == Lbns(n, j).steps[k + 1].off;
    }
    assert p == q;
  }

  /** From a block of level k + 1 to the block of level k behind offset `off`, as truncation and lookup
      both step. */
  lemma MetaStep(n: nat, base: nat, k: nat, r: nat)
    requires n > 0 && k > 0
    ensures MetaLbn(n, base, k, r) == MetaLbn(n, base, k + 1, r) + 1 - ((r / Pow(n, k)) % n) * Pow(n, k)
  {
    ModProduct(r, n, Pow(n, k));
  }

  lemma PowValues(n: nat)
    ensures Pow(n, 0) == 1 && Pow(n, 1) == n && Pow(n, 2) == n * n
  {
    assert Pow(n, 1) == n * Pow(n, 0);
    assert Pow(n, 2) == n * Pow(n, 1);
  }

  lemma BaseValues(n: nat)
    ensures Base(n, 1) == 12 && Base(n, 2) == 12 + n && Base(n, 3) == 12 + n + n * n
  {
    PowValues(n);
    assert Base(n, 2) == Base(n, 1) + Pow(n, 1);
    assert Base(n, 3) == Base(n, 2) + Pow(n, 2);
  }

  /** The numbers truncation computes for the three indirect blocks of the inode. */
  lemma MetaRoots(n: nat)
    requires n > 0
    ensures MetaLbn(n, Base(n, 1), 1, 0) == -NDADDR
    ensures MetaLbn(n, Base(n, 2), 2, 0) == -NDADDR - n - 1
    ensures MetaLbn(n, Base(n, 3), 3, 0) == (-NDADDR - n - 1) - n * n - 1
  {
    PowValues(n);
    BaseValues(n);
    MetaRoot(n, 1);
    MetaRoot(n, 2);
    MetaRoot(n, 3);
  }

  lemma MetaRoot(n: nat, l: nat)
    requires n > 0 && l > 0
    ensures MetaLbn(n, Base(n, l), l, 0) == -(Base(n, l) + l - 1)
  {
    SmallMod(0, Pow(n, l));
  }

  /** Looking up the number of a pointer block on a path retraces that path and stops there. */
  lemma MetaRetraces(n: nat, bn: nat, k: nat)
    requires n >= 3 && Lbns(n, bn).Path? && 1 <= k < |Lbns(n, bn).steps|
    ensures Lbns(n, Lbns(n, bn).steps[k].lbn) == Path(Lbns(n, bn).steps[..k])
  {
    LevelBase(n, bn);
    var l := Level(n, bn);
    RetracePath(n, l, bn - Base(n, l), k, bn);
  }

  lemma RetracePath(n: nat, l: nat, r: nat, k: nat, bn: nat)
    requires n >= 3 && 1 <= l <= NIADDR && r < Pow(n, l)
    requires 1 <= k < |PathAt(n, l, r, bn).steps|
    ensures Lbns(n, PathAt(n, l, r, bn).steps[k].lbn) == Path(PathAt(n, l, r, bn).steps[..k])
  {
    var base, p := Base(n, l), PathAt(n, l, r, bn).steps;
    StepsOffs(n, base, l, r, bn);
    var lv := l - k + 1;
    PrefixSteps(n, base, l, lv, r, bn);
    assert p[k] == Steps(n, base, l, r, bn)[k - 1];
    RetraceMeta(n, l, lv, r);
    assert p[..k] == [p[0]] + Steps(n, base, l, r, bn)[..k - 1];
  }

  lemma RootMeta(n: nat, l: nat, r: nat, r': nat)
    requires n > 0 && l > 0 && r < Pow(n, l) && r' < Pow(n, l)
    ensures MetaLbn(n, Base(n, l), l, r) == MetaLbn(n, Base(n, l), l, r')
  {
    SmallMod(r, Pow(n, l));
    SmallMod(r', Pow(n, l));
  }

  lemma RetraceMeta(n: nat, l: nat, lv: nat, r: nat)
    requires n >= 3 && 1 <= lv <= l <= NIADDR && r < Pow(n, l)
    ensures Lbns(n, MetaLbn(n, Base(n, l), lv, r)) ==
            Path([Indir(MetaLbn(n, Base(n, l), l, r), l - 1)] + Above(n, Base(n, l), l, lv, r))
  {
    var m, r' := MetaLbn(n, Base(n, l), lv, r), MetaPlace(n, lv, r);
    MetaPlaceIs(n, l, lv, r);
    LbnsByLevel(n, l, m, r');
    RetraceSteps(n, Base(n, l), l, lv, r);
    RootMeta(n, l, r, r');
  }

  /** The number of a pointer block names a place behind the first block of the tree. */
  function MetaPlace(n: nat, k: nat, r: nat): (p: nat)
    requires n > 0 && k > 0
  {
    Down(r, Pow(n, k)) + k - 1
  }

  lemma MetaPlaceIs(n: nat, l: nat, lv: nat, r: nat)
    requires n >= 3 && 1 <= lv <= l <= NIADDR && r < Pow(n, l)
    ensures MetaPlace(n, lv, r) < Pow(n, l) && MetaLbn(n, Base(n, l), lv, r) == -(Base(n, l) + MetaPlace(n, lv, r)) < 0
  {
    PowAtLeast(n, lv);
    AlignedBelow(n, l, lv, r);
    MetaNegative(n, Base(n, l), lv, r);
  }

  lemma LbnsByLevel(n: nat, l: nat, bn: int, r: nat)
    requires n > 0 && 1 <= l <= NIADDR && r < Pow(n, l) && (if bn < 0 then -bn else bn) == Base(n, l) + r
    ensures Lbns(n, bn) == PathAt(n, l, r, bn)
  {
    var m := if bn < 0 then -bn else bn;
    LevelUnique(n, l, m);
    assert m - Base(n, l) == r;
  }

  lemma LevelUnique(n: nat, l: nat, m: nat)
    requires n > 0 && 1 <= l <= NIADDR && Base(n, l) <= m < Base(n, l) + Pow(n, l)
    ensures Level(n, m) == l
  {
    assert Base(n, 2) == Base(n, 1) + Pow(n, 1);
    assert Base(n, 3) == Base(n, 2) + Pow(n, 2);
    assert Base(n, 4) == Base(n, 3) + Pow(n, 3);
  }

  /** The aligned run of Pow(k) numbers around r stays within the Pow(l) numbers around r. */
  lemma {:induction false} AlignedBelow(n: nat, l: nat, k: nat, r: nat)
    requires n > 0 && k <= l && r < Pow(n, l)
    ensures Down(r, Pow(n, k)) + Pow(n, k) <= Pow(n, l)
    decreases l
  {
    if k == l {
      SmallMod(r, Pow(n, l));
    } else {
      var s := Pow(n, l - 1);
      OffsSplit(n, l, r);
      AlignedBelow(n, l - 1, k, r % s);
      ModNested(n, l - 1, k, r);
      DivMod(r, s);
      MulMono(s, r / s + 1, n);
      assert s * (r / s + 1) == s * (r / s) + s;
    }
  }

  /** Low digits do not depend on high ones. */
  lemma {:induction false} ModNested(n: nat, l: nat, k: nat, r: nat)
    requires n > 0 && k <= l
    ensures (r % Pow(n, l)) % Pow(n, k) == r % Pow(n, k)
    decreases l
  {
    ComposeOffs(n, k, r);
    ComposeOffs(n, k, r % Pow(n, l));
    if k == l {
      DivModUnique(r % Pow(n, l), Pow(n, l), 0, r % Pow(n, l));
    } else {
      var s := Pow(n, l - 1);
      ModProduct(r, n, s);
      ModNested(n, l - 1, k, r);
      ModNested(n, l - 1, k, r % Pow(n, l));
      var a := (r / s) % n;
      DivModUnique(r % Pow(n, l), s, a, r % s);
    }
  }

  lemma {:induction false} PrefixSteps(n: nat, base: nat, l: nat, k: nat, r: nat, target: int)
    requires n > 0 && base > 0 && target >= 0 && 1 <= k <= l
    ensures |Steps(n, base, l, r, target)| == l
    ensures Steps(n, base, l, r, target)[..l - k] == Above(n, base, l, k, r)
    decreases l
  {
    StepsOffs(n, base, l, r, target);
    if k < l {
      PrefixSteps(n, base, l - 1, k, r, target);
      var t := Steps(n, base, l - 1, r, target);
      assert Steps(n, base, l, r, target) == Steps(n, base, l, r, target)[..1] + t;
      assert Steps(n, base, l, r, target)[..l - k] == Steps(n, base, l, r, target)[..1] + t[..l - 1 - k];
    }
  }

  /** The steps of a walk above level k. */
  function Above(n: nat, base: nat, l: nat, k: nat, r: nat): seq<Indir>
    requires n > 0 && k <= l && k > 0
    decreases l
  {
    if l == k then []
    else [Indir(MetaLbn(n, base, l, r), (r / Pow(n, l - 1)) % n)] + Above(n, base, l - 1, k, r)
  }

  lemma {:induction false} RetraceSteps(n: nat, base: nat, l: nat, k: nat, r: nat)
    requires n >= 3 && 1 <= k <= l && l <= 3
    ensures Steps(n, base, l, MetaPlace(n, k, r), MetaLbn(n, base, k, r)) == Above(n, base, l, k, r)
    decreases l
  {
    var r' := MetaPlace(n, k, r);
    PowAtLeast(n, k);
    DownPlus(r, Pow(n, k), k - 1);
    if k < l {
      HighDigits(n, l, k, r, r');
      HighDigits(n, l - 1, k, r, r');
      SameQuotientSameDown(r, r', Pow(n, l));
      Gap(n, l, k, r);
      RetraceSteps(n, base, l - 1, k, r);
    } else {
      SameQuotientSameDown(r, r', Pow(n, l));
    }
  }

  /** Numbers that agree above digit k agree above every higher digit. */
  lemma {:induction false} HighDigits(n: nat, l: nat, k: nat, r: nat, r': nat)
    requires n > 0 && k <= l && r / Pow(n, k) == r' / Pow(n, k)
    ensures r / Pow(n, l) == r' / Pow(n, l)
    decreases l
  {
    if k < l {
      HighDigits(n, l - 1, k, r, r');
      ModProduct(r, n, Pow(n, l - 1));
      ModProduct(r', n, Pow(n, l - 1));
    }
  }

  /** No pointer block further up has the number of the one of level k. */
  lemma Gap(n: nat, l: nat, k: nat, r: nat)
    requires n >= 3 && 1 <= k < l <= 3
    ensures Down(r, Pow(n, l)) + l - 1 != Down(r, Pow(n, k)) + k - 1
  {
    var s := Pow(n, k);
    PowAtLeast(n, k);
    ModNested(n, l, k, r);
    var low := r % Pow(n, l);
    DivMod(low, s);
    if low / s >= 1 {
      MulMono(s, 1, low / s);
    }
  }

  // ---------------------------------------------------------------- the computation

  method GetLbns(n: nat, realbn: int) returns (r: LbnPath)
    requires n > 1
    ensures r == Lbns(n, realbn)
  {
    var bn := if realbn < 0 then -realbn else realbn;
    if bn < NDADDR {
      return Path([]);
    }
    var i, rel, blockcnt := FindLevel(n, bn);
    if i == 0 {
      return EFBIG;
    }
    r := WalkDown(n, realbn, i, rel, blockcnt);
  }

  /** The loop that counts levels down from NIADDR; 0 when the number is too large. */
  method FindLevel(n: nat, m: nat) returns (i: nat, bn: nat, blockcnt: nat)
    requires n > 1 && m >= NDADDR
    ensures i <= NIADDR
    ensures i == 0 ==> Level(n, m) > NIADDR
    ensures i > 0 ==> m == Base(n, NIADDR + 1 - i) + bn && bn < Pow(n, NIADDR + 1 - i)
    ensures blockcnt == Pow(n, NIADDR - i)
  {
    blockcnt, i := 1, NIADDR;
    bn := m - NDADDR;
    while true
      invariant 0 <= i <= NIADDR && blockcnt == Pow(n, NIADDR - i)
      invariant m == Base(n, NIADDR + 1 - i) + bn
      decreases i
    {
      if i == 0 {
        BaseSteps(n);
        return;
      }
      var qblockcnt := blockcnt * n;
      assert qblockcnt == Pow(n, NIADDR + 1 - i);
      if bn < qblockcnt {
        return;
      }
      blockcnt := qblockcnt;
      i, bn := i - 1, bn - blockcnt;
    }
  }

  /** The loop that records the path, stopping early at the pointer block asked for. */
  method WalkDown(n: nat, realbn: int, i0: nat, bn: nat, blockcnt0: nat) returns (r: LbnPath)
    requires n > 1 && 1 <= i0 <= NIADDR && blockcnt0 == Pow(n, NIADDR - i0)
    requires bn < Pow(n, NIADDR + 1 - i0)
    requires (if realbn < 0 then -realbn else realbn) == Base(n, NIADDR + 1 - i0) + bn
    ensures r == Lbns(n, realbn)
  {
    ghost var l := NIADDR + 1 - i0;
    LbnsByLevel(n, l, realbn, bn);
    ghost var full := PathAt(n, l, bn, realbn);
    ghost var base := Base(n, l);
    var i, blockcnt := i0, blockcnt0;
    var metalbn := if realbn >= 0 then -(realbn - bn + NIADDR - i) else -(-realbn - bn + NIADDR - i);
    SmallMod(bn, Pow(n, l));
    var ap := [Indir(metalbn, NIADDR - i)];
    while i <= NIADDR
      invariant 1 <= i <= NIADDR + 1
      invariant i <= NIADDR ==> metalbn == MetaLbn(n, base, NIADDR + 1 - i, bn) && blockcnt == Pow(n, NIADDR - i)
      invariant Path(ap + Steps(n, base, NIADDR + 1 - i, bn, realbn)) == full
    {
      if metalbn == realbn {
        break;
      }
      var off := (bn / blockcnt) % n;
      ap, metalbn, blockcnt := WalkStep(n, base, NIADDR + 1 - i, bn, realbn, ap, metalbn, blockcnt, off);
      i := i + 1;
    }
    return Path(ap);
  }

  method WalkStep(n: nat, ghost base: nat, ghost k: nat, ghost bn: nat, ghost target: int,
                  ap: seq<Indir>, metalbn: int, blockcnt: nat, off: nat)
    returns (ap': seq<Indir>, metalbn': int, blockcnt': nat)
    requires n > 1 && k > 0 && blockcnt == Pow(n, k - 1) && off == (bn / blockcnt) % n
    requires metalbn == MetaLbn(n, base, k, bn) && metalbn != target
    ensures k > 1 ==> metalbn' == MetaLbn(n, base, k - 1, bn) && blockcnt' == Pow(n, k - 2)
    ensures ap' + Steps(n, base, k - 1, bn, target) == ap + Steps(n, base, k, bn, target)
  {
    ap' := ap + [Indir(metalbn, off)];
    metalbn' := metalbn - (-1 + off * blockcnt);
    blockcnt' := blockcnt / n;
    if k > 1 {
      MetaStep(n, base, k - 1, bn);
      DivModUnique(blockcnt, n, Pow(n, k - 2), 0);
    }
  }

  lemma BaseSteps(n: nat)
    ensures Base(n, 1) <= Base(n, 2) <= Base(n, 3) <= Base(n, 4)
  {
  }

  // ---------------------------------------------------------------- the largest file

  /** How many units of 512 bytes i_blocks can count: 32 bits, or 48 with the huge_file feature. */
  function MaxUnits(huge: bool): nat {
    if huge then 0xffff_ffff_ffff else 0xffff_ffff
  }

  /** e2fs_maxfilesize for block size bsize. */
  function MaxFileSize(bsize: nat, largeFile: bool, huge: bool): nat {
    if !largeFile then 0x7fff_ffff
    else
      var logically := BlocksNamed(bsize / 4) * bsize;
      if logically < 512 * MaxUnits(huge) then logically else 512 * MaxUnits(huge)
  }

  /** How many blocks twelve direct pointers and three trees of b pointers per block name. */
  function BlocksNamed(b: nat): nat {
    12 + b + b * b + b * b * b
  }

  lemma PathBelow(b: nat, m: nat)
    requires b > 0
    ensures Lbns(b, m).Path? <==> m < BlocksNamed(b)
  {
    LevelBase(b, m);
  }

  /** Every byte below the largest file size has a path.  With the large_file feature no other byte has one, unless its
      place cannot be counted in i_blocks; without it the size is the largest signed 32-bit number. */
  lemma MaxFileSizeHasPath(bsize: nat, largeFile: bool, huge: bool, offset: nat)
    requires bsize == 1024 || bsize == 2048 || bsize == 4096
    ensures offset < MaxFileSize(bsize, largeFile, huge) ==> Lbns(bsize / 4, offset / bsize).Path?
    ensures largeFile ==> (offset < MaxFileSize(bsize, largeFile, huge) <==>
                             Lbns(bsize / 4, offset / bsize).Path? && offset / 512 < MaxUnits(huge))
    ensures !largeFile ==> (offset < MaxFileSize(bsize, largeFile, huge) <==> offset <= 0x7fff_fffe)
  {
    var limit := BlocksNamed(bsize / 4);
    assert 0x7fff_ffff < limit * bsize;
    BlockBelow(bsize, limit, offset);
    BlockBelow(512, MaxUnits(huge), offset);
    PathBelow(bsize / 4, offset / bsize);
  }

  lemma BlockBelow(bsize: nat, limit: nat, offset: nat)
    requires bsize > 0
    ensures offset / bsize < limit <==> offset < limit * bsize
  {
    DivMod(offset, bsize);
    if offset / bsize >= limit {
      MulMono(bsize, limit, offset / bsize);
    } else {
      MulBound(bsize, offset / bsize, limit, offset % bsize);
    }
  }
}
