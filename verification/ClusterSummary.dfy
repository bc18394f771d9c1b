/// The histogram of free runs of a block group (ext2_clusteracct), kept up to date bit by bit.
module ClusterSummary {
  import opened Bitmap

  function Cap(k: nat, cap: nat): nat {
    if k > cap then cap else k
  }

  // ---------------------------------------------------------------- runs of clear bits

  /** How many clear bits end the map. */
  function Trail(s: seq<bool>): (k: nat)
    ensures k <= |s|
  {
    if s == [] || s[|s| - 1] then 0 else 1 + Trail(s[..|s| - 1])
  }

  /** How many clear bits begin the map. */
  function Lead(s: seq<bool>): (k: nat)
    ensures k <= |s|
  {
    if s == [] || s[0] then 0 else 1 + Lead(s[1..])
  }

  /** A run of this length counts for capped length k. */
  function One(len: nat, cap: nat, k: nat): nat {
    if len > 0 && Cap(len, cap) == k then 1 else 0
  }

  /** How many free runs of capped length k a set bit has ended. */
  function Closed(s: seq<bool>, cap: nat, k: nat): nat {
    if s == [] then 0
    else
      var t := s[..|s| - 1];
      Closed(t, cap, k) + if s[|s| - 1] then One(Trail(t), cap, k) else 0
  }

  /** How many free runs of capped length k there are. */
  function Runs(s: seq<bool>, cap: nat, k: nat): nat {
    Closed(s, cap, k) + One(Trail(s), cap, k)
  }

  /** What it means to be a free run: clear bits that cannot be extended either way. */
  ghost predicate IsRun(s: seq<bool>, a: nat, b: nat) {
    && a < b <= |s|
    && (forall i :: a <= i < b ==> !s[i])
    && (a > 0 ==> s[a - 1]) && (b < |s| ==> s[b])
  }

  ghost function RunsOf(s: seq<bool>, cap: nat, k: nat): set<(nat, nat)> {
    set a: nat, b: nat | a < b <= |s| && IsRun(s, a, b) && Cap(b - a, cap) == k :: (a, b)
  }

  ghost function ClosedRunsOf(s: seq<bool>, cap: nat, k: nat): set<(nat, nat)> {
    set a: nat, b: nat | a < b < |s| && IsRun(s, a, b) && Cap(b - a, cap) == k :: (a, b)
  }

  lemma {:induction false} TrailBits(s: seq<bool>)
    ensures forall i :: |s| - Trail(s) <= i < |s| ==> !s[i]
    ensures Trail(s) < |s| ==> s[|s| - Trail(s) - 1]
  {
    if s != [] && !s[|s| - 1] {
      TrailBits(s[..|s| - 1]);
    }
  }

  lemma {:induction false} LeadBits(s: seq<bool>)
    ensures forall i :: 0 <= i < Lead(s) ==> !s[i]
    ensures Lead(s) < |s| ==> s[Lead(s)]
  {
    if s != [] && !s[0] {
      LeadBits(s[1..]);
      assert forall i :: 1 <= i < |s| ==> s[i] == s[1..][i - 1];
    }
  }

  /** The last run, if there is one, is the trailing clear bits. */
  lemma LastRun(s: seq<bool>, a: nat)
    requires a < |s|
    ensures IsRun(s, a, |s|) <==> Trail(s) > 0 && a == |s| - Trail(s)
  {
    TrailBits(s);
  }

  /** The histogram counts the maximal free runs of each capped length. */
  lemma {:induction false} ClosedCount(s: seq<bool>, cap: nat, k: nat)
    ensures Closed(s, cap, k) == |ClosedRunsOf(s, cap, k)|
  {
    if s == [] {
      assert ClosedRunsOf(s, cap, k) == {};
    } else {
      var t := s[..|s| - 1];
      ClosedCount(t, cap, k);
      forall a: nat, b: nat | a < b < |s|
        ensures b < |t| ==> (IsRun(s, a, b) <==> IsRun(t, a, b))
        ensures b == |t| ==> (IsRun(s, a, b) <==> s[|t|] && IsRun(t, a, b))
      {
        SnocRun(s, t, a, b);
      }
      var last := (|t| - Trail(t), |t|);
      if s[|t|] && Trail(t) > 0 && Cap(Trail(t), cap) == k {
        LastRun(t, last.0);
        AddedRun(s, t, cap, k, last);
      } else {
        forall a: nat | a < |t|
          ensures !(s[|t|] && IsRun(t, a, |t|) && Cap(|t| - a, cap) == k)
        {
          LastRun(t, a);
        }
        assert ClosedRunsOf(s, cap, k) == ClosedRunsOf(t, cap, k);
      }
    }
  }

  lemma SnocRun(s: seq<bool>, t: seq<bool>, a: nat, b: nat)
    requires s != [] && t == s[..|s| - 1] && a < b < |s|
    ensures b < |t| ==> (IsRun(s, a, b) <==> IsRun(t, a, b))
    ensures b == |t| ==> (IsRun(s, a, b) <==> s[|t|] && IsRun(t, a, b))
  {
    assert forall i :: 0 <= i < |t| ==> s[i] == t[i];
  }

  lemma AddedRun(s: seq<bool>, t: seq<bool>, cap: nat, k: nat, last: (nat, nat))
    requires s != [] && t == s[..|s| - 1] && s[|t|]
    requires last.0 < last.1 == |t| && IsRun(t, last.0, last.1) && Cap(last.1 - last.0, cap) == k
    requires forall a: nat, b: nat :: a < b < |t| ==> (IsRun(s, a, b) <==> IsRun(t, a, b))
    requires forall a: nat :: a < |t| ==> (IsRun(s, a, |t|) <==> IsRun(t, a, |t|))
    ensures |ClosedRunsOf(s, cap, k)| == |ClosedRunsOf(t, cap, k)| + 1
  {
    var u, v := ClosedRunsOf(s, cap, k), ClosedRunsOf(t, cap, k);
    forall r | r in u
      ensures r in v || r == last
    {
      if r.1 == |t| {
        LastRun(t, r.0);
        LastRun(t, last.0);
      }
    }
    forall r | r in v
      ensures r in u
    {
    }
    assert last in u;
    AddedOne(u, v, last, true);
  }

  lemma RunsCount(s: seq<bool>, cap: nat, k: nat)
    ensures Runs(s, cap, k) == |RunsOf(s, cap, k)|
  {
    ClosedCount(s, cap, k);
    var last := (|s| - Trail(s), |s|);
    var u, v := RunsOf(s, cap, k), ClosedRunsOf(s, cap, k);
    var added := Trail(s) > 0 && Cap(Trail(s), cap) == k;
    forall r | r in u && r !in v
      ensures r == last && added
    {
      LastRun(s, r.0);
    }
    if added {
      LastRun(s, last.0);
      assert last in u;
    }
    AddedOne(u, v, last, added);
  }

  lemma AddedOne(u: set<(nat, nat)>, v: set<(nat, nat)>, last: (nat, nat), added: bool)
    requires v <= u && (forall r :: r in u && r !in v ==> r == last && added) && (added ==> last in u && last !in v)
    ensures |u| == |v| + if added then 1 else 0
  {
    assert u == v + if added then {last} else {};
  }

  // ---------------------------------------------------------------- one bit changes

  lemma Snoc(t: seq<bool>, c: bool, cap: nat, k: nat)
    ensures Trail(t + [c]) == if c then 0 else 1 + Trail(t)
    ensures Closed(t + [c], cap, k) == Closed(t, cap, k) + if c then One(Trail(t), cap, k) else 0
  {
    assert (t + [c])[..|t|] == t;
  }

  /** A set bit separates the runs on both sides. */
  lemma {:induction false} Split(p: seq<bool>, q: seq<bool>, cap: nat, k: nat)
    ensures Trail(p + [true] + q) == Trail(q)
    ensures Closed(p + [true] + q, cap, k) == Runs(p, cap, k) + Closed(q, cap, k)
    decreases |q|
  {
    Snoc(p, true, cap, k);
    if q == [] {
      assert p + [true] + q == p + [true];
    } else {
      var q0, c := q[..|q| - 1], q[|q| - 1];
      Split(p, q0, cap, k);
      Snoc(q0, c, cap, k);
      Snoc(p + [true] + q0, c, cap, k);
      assert q == q0 + [c];
      assert p + [true] + q == p + [true] + q0 + [c];
    }
  }

  /** What is behind the leading run and the set bit that ends it. */
  function After(q: seq<bool>): seq<bool> {
    if Lead(q) < |q| then q[Lead(q) + 1..] else []
  }

  /** The runs in there. */
  function Rest(q: seq<bool>, cap: nat, k: nat): nat {
    if Lead(q) < |q| then Runs(After(q), cap, k) else 0
  }

  lemma {:induction false} LeadSnoc(q: seq<bool>, c: bool)
    ensures Lead(q + [c]) == if Lead(q) < |q| then Lead(q) else if c then |q| else |q| + 1
    decreases |q|
  {
    if q != [] {
      LeadSnoc(q[1..], c);
      assert (q + [c])[1..] == q[1..] + [c];
    } else {
      assert [c][1..] == [];
    }
  }

  lemma AfterSnoc(q: seq<bool>, c: bool)
    ensures Lead(q) < |q| ==> After(q + [c]) == After(q) + [c]
    ensures Lead(q) == |q| && c ==> After(q + [c]) == []
  {
    LeadSnoc(q, c);
  }

  /** The first run of a map, and what is behind it. */
  lemma {:induction false} Start(q: seq<bool>, cap: nat, k: nat)
    ensures Trail(q) == if Lead(q) < |q| then Trail(After(q)) else |q|
    ensures Closed(q, cap, k) == if Lead(q) < |q| then One(Lead(q), cap, k) + Closed(After(q), cap, k) else 0
    decreases |q|
  {
    if q != [] {
      var t, c := q[..|q| - 1], q[|q| - 1];
      assert q == t + [c];
      Start(t, cap, k);
      LeadSnoc(t, c);
      AfterSnoc(t, c);
      if Lead(t) < |t| {
        Snoc(After(t), c, cap, k);
      }
    }
  }

  lemma StartRuns(q: seq<bool>, cap: nat, k: nat)
    ensures Runs(q, cap, k) == One(Lead(q), cap, k) + Rest(q, cap, k)
  {
    Start(q, cap, k);
  }

  /** Map x is q behind a clear bit, which itself is behind a map that ends in w clear bits and has closed v runs:
      the clear bit joins the runs on both sides. */
  ghost predicate Joined(x: seq<bool>, q: seq<bool>, v: nat, w: nat, cap: nat, k: nat) {
    if Lead(q) < |q| then
      Trail(x) == Trail(After(q)) && Closed(x, cap, k) == v + One(w + 1 + Lead(q), cap, k) + Closed(After(q), cap, k)
    else Trail(x) == w + 1 + |q| && Closed(x, cap, k) == v
  }

  lemma JoinedSnoc(x: seq<bool>, x': seq<bool>, q: seq<bool>, q': seq<bool>, c: bool, v: nat, w: nat, cap: nat, k: nat)
    requires Joined(x, q, v, w, cap, k) && x' == x + [c] && q' == q + [c]
    ensures Joined(x', q', v, w, cap, k)
  {
    LeadSnoc(q, c);
    AfterSnoc(q, c);
    Snoc(x, c, cap, k);
    if Lead(q) < |q| {
      Snoc(After(q), c, cap, k);
      assert One(w + 1 + Lead(q'), cap, k) == One(w + 1 + Lead(q), cap, k);
    }
  }

  lemma {:induction false} Join(x: seq<bool>, p: seq<bool>, q: seq<bool>, cap: nat, k: nat)
    requires x == p + [false] + q
    ensures Joined(x, q, Closed(p, cap, k), Trail(p), cap, k)
    decreases |q|
  {
    if q == [] {
      Snoc(p, false, cap, k);
      assert x == p + [false];
    } else {
      var y, t, c := x[..|x| - 1], q[..|q| - 1], q[|q| - 1];
      Join(y, p, t, cap, k);
      assert q == t + [c] && x == y + [c];
      JoinedSnoc(y, x, t, q, c, Closed(p, cap, k), Trail(p), cap, k);
    }
  }

  lemma JoinedRuns(x: seq<bool>, q: seq<bool>, v: nat, w: nat, cap: nat, k: nat)
    requires Joined(x, q, v, w, cap, k)
    ensures Runs(x, cap, k) == v + One(w + 1 + Lead(q), cap, k) + Rest(q, cap, k)
  {
  }

  /** What taking the free bit x does to the runs, and what freeing it does: the run around it and the runs
      to its left and right are exchanged. */
  lemma BitRuns(s: seq<bool>, x: nat, cap: nat, k: nat)
    requires x < |s|
    ensures var p, q := s[..x], s[x + 1..];
            var around := Closed(p, cap, k) + Rest(q, cap, k);
            && Runs(s[x := true], cap, k) == around + One(Trail(p), cap, k) + One(Lead(q), cap, k)
            && Runs(s[x := false], cap, k) == around + One(Trail(p) + 1 + Lead(q), cap, k)
  {
    var p, q := s[..x], s[x + 1..];
    assert s[x := true] == p + [true] + q;
    TakenRuns(p, q, cap, k);
    Join(s[x := false], p, q, cap, k);
    JoinedRuns(s[x := false], q, Closed(p, cap, k), Trail(p), cap, k);
  }

  lemma TakenRuns(p: seq<bool>, q: seq<bool>, cap: nat, k: nat)
    ensures Runs(p + [true] + q, cap, k) ==
            Closed(p, cap, k) + Rest(q, cap, k) + One(Trail(p), cap, k) + One(Lead(q), cap, k)
  {
    Split(p, q, cap, k);
    StartRuns(q, cap, k);
  }

  /** By how much a bit change alters the number of runs of capped length k; cnt is 1 when x is freed. */
  function Delta(s: seq<bool>, x: nat, cap: nat, cnt: int, k: nat): int
    requires x < |s|
  {
    var back, forw := Trail(s[..x]), Lead(s[x + 1..]);
    (if Cap(back + forw + 1, cap) == k then cnt else 0)
    - (if back > 0 && Cap(back, cap) == k then cnt else 0)
    - (if forw > 0 && Cap(forw, cap) == k then cnt else 0)
  }

  /** The local update is the difference of two full scans. */
  lemma DeltaIsChange(s: seq<bool>, x: nat, cap: nat, k: nat)
    requires x < |s|
    ensures Runs(s[x := false], cap, k) == Runs(s[x := true], cap, k) + Delta(s, x, cap, 1, k)
    ensures Runs(s[x := true], cap, k) == Runs(s[x := false], cap, k) + Delta(s, x, cap, -1, k)
  {
    BitRuns(s, x, cap, k);
  }

  /** When the first call scans the map after the bit has changed and then applies the change on top of it,
      the histogram is off by that change; it comes out right exactly when the bit extends a run that is
      already at the cap, on one side only. */
  lemma FirstCallSkew(s: seq<bool>, x: nat, cap: nat, cnt: int)
    requires x < |s| && cap > 0 && (cnt == 1 || cnt == -1)
    ensures (forall k :: 1 <= k <= cap ==> Delta(s, x, cap, cnt, k) == 0) <==>
            var back, forw := Trail(s[..x]), Lead(s[x + 1..]);
            (back >= cap && forw == 0) || (back == 0 && forw >= cap)
  {
    var back, forw := Trail(s[..x]), Lead(s[x + 1..]);
    if forall k :: 1 <= k <= cap ==> Delta(s, x, cap, cnt, k) == 0 {
      assert Delta(s, x, cap, cnt, Cap(back + forw + 1, cap)) == 0;
      assert back > 0 ==> Delta(s, x, cap, cnt, Cap(back, cap)) == 0;
      assert forw > 0 ==> Delta(s, x, cap, cnt, Cap(forw, cap)) == 0;
    }
  }

  // ---------------------------------------------------------------- the longest run

  /** There are k clear bits in a row. */
  ghost predicate Fits(s: seq<bool>, k: nat) {
    exists a: nat :: ClearAt(s, a, k)
  }

  ghost predicate ClearAt(s: seq<bool>, a: nat, k: nat) {
    a + k <= |s| && forall i :: a <= i < a + k ==> !s[i]
  }

  ghost predicate ClosedAt(s: seq<bool>, cap: nat, k: nat, j: nat) {
    j >= k && Closed(s, cap, j) > 0
  }

  /** The histogram counts a run of capped length j, which is at least k. */
  ghost predicate CountedAt(s: seq<bool>, cap: nat, k: nat, j: nat) {
    j >= k && Runs(s, cap, j) > 0
  }

  lemma {:induction false} ClosedFits(s: seq<bool>, cap: nat, k: nat)
    requires 1 <= k <= cap
    ensures Fits(s, k) <==> (exists j: nat :: ClosedAt(s, cap, k, j)) || Trail(s) >= k
  {
    if s == [] {
      assert forall a: nat :: !ClearAt(s, a, k);
    } else {
      var t := s[..|s| - 1];
      ClosedFits(t, cap, k);
      FitsSnoc(t, s, k);
      if j: nat :| ClosedAt(t, cap, k, j) {
        assert ClosedAt(s, cap, k, j);
      }
      if s[|t|] && Trail(t) >= k {
        assert ClosedAt(s, cap, k, Cap(Trail(t), cap));
      }
      if j: nat :| ClosedAt(s, cap, k, j) {
        assert ClosedAt(t, cap, k, j) || (s[|t|] && Cap(Trail(t), cap) == j);
      }
    }
  }

  lemma FitsSnoc(t: seq<bool>, s: seq<bool>, k: nat)
    requires k > 0 && s != [] && t == s[..|s| - 1]
    ensures Fits(s, k) <==> Fits(t, k) || Trail(s) >= k
  {
    TrailBits(s);
    if Fits(s, k) {
      var a: nat :| ClearAt(s, a, k);
      if a + k <= |t| {
        assert ClearAt(t, a, k);
      }
    }
    if Fits(t, k) {
      var a: nat :| ClearAt(t, a, k);
      assert ClearAt(s, a, k);
    }
    if Trail(s) >= k {
      assert ClearAt(s, |s| - k, k);
    }
  }

  /** Some run counted in the histogram is at least k long exactly when k clear bits in a row exist. */
  lemma LongestRun(s: seq<bool>, cap: nat, k: nat)
    requires 1 <= k <= cap
    ensures Fits(s, k) <==> exists j: nat :: CountedAt(s, cap, k, j)
  {
    ClosedFits(s, cap, k);
    if Trail(s) >= k {
      assert CountedAt(s, cap, k, Cap(Trail(s), cap));
    }
    if j: nat :| ClosedAt(s, cap, k, j) {
      assert CountedAt(s, cap, k, j);
    }
    if j: nat :| CountedAt(s, cap, k, j) {
      assert ClosedAt(s, cap, k, j) || Cap(Trail(s), cap) == j;
    }
  }

  lemma CappedRuns(s: seq<bool>, cap: nat, k: nat)
    requires k > cap
    ensures Runs(s, cap, k) == 0
  {
    ClosedCapped(s, cap, k);
  }

  lemma {:induction false} ClosedCapped(s: seq<bool>, cap: nat, k: nat)
    requires k > cap
    ensures Closed(s, cap, k) == 0
  {
    if s != [] {
      ClosedCapped(s[..|s| - 1], cap, k);
    }
  }

  // ---------------------------------------------------------------- scanning the bytes

  lemma MaskStep(i: nat)
    ensures i % 8 != 7 ==> (i + 1) / 8 == i / 8 && Mask((i + 1) % 8) == Mask(i % 8) << 1
    ensures i % 8 == 7 ==> (i + 1) / 8 == i / 8 + 1 && Mask((i + 1) % 8) == 1
    ensures (i + 1) % 8 != 0 ==> Mask(i % 8) == Mask((i + 1) % 8) >> 1
    ensures (i + 1) % 8 == 0 ==> Mask(i % 8) == 128
  {
    var k := i % 8;
    assert k == 0 || k == 1 || k == 2 || k == 3 || k == 4 || k == 5 || k == 6 || k == 7;
  }

  method NextBit(i: nat, loc: nat, bit: bv8) returns (loc': nat, bit': bv8)
    requires loc == i / 8 && bit == Mask(i % 8)
    ensures loc' == (i + 1) / 8 && bit' == Mask((i + 1) % 8)
  {
    MaskStep(i);
    if i % 8 != 7 {
      loc', bit' := loc, bit << 1;
    } else {
      loc', bit' := loc + 1, 1;
    }
  }

  method PreviousBit(i: nat, loc: int, bit: bv8) returns (loc': int, bit': bv8)
    requires loc == i / 8 && bit == Mask(i % 8)
    ensures i > 0 ==> loc' == (i - 1) / 8 && bit' == Mask((i - 1) % 8)
  {
    if i > 0 {
      MaskStep(i - 1);
    }
    if i % 8 != 0 {
      loc', bit' := loc, bit >> 1;
    } else {
      loc', bit' := loc - 1, 128;
    }
  }

  lemma TrailPrefix(s: seq<bool>, i: nat, cap: nat)
    requires i < |s|
    ensures Trail(s[..i + 1]) == if s[i] then 0 else 1 + Trail(s[..i])
    ensures forall k :: Closed(s[..i + 1], cap, k) == Closed(s[..i], cap, k) + if s[i] then One(Trail(s[..i]), cap, k) else 0
  {
    assert s[..i + 1][..i] == s[..i];
  }

  class Summary {
    const cap: nat          // contigsumsize
    var init: bool          // cs_init
    var sum: array<int>     // cs_sum: how many free runs of each length, the last entry for all longer ones
    var maxcluster: nat     // the length of the longest free run, capped

    predicate Shaped()
      reads this
    {
      sum.Length == cap + 1 && cap > 0
    }

    /** The histogram is that of map s. */
    ghost predicate Accurate(s: seq<bool>)
      requires Shaped()
      reads this, sum
    {
      forall k :: 1 <= k <= cap ==> sum[k] == Runs(s, cap, k)
    }

    /** The scan of the first call: every run ends at a set bit, or at the end of the map. */
    method InitScan(bbp: Bytes)
      requires Shaped() && forall k :: 1 <= k <= cap ==> sum[k] == 0
      modifies this`init, sum
      ensures Shaped() && init && Accurate(Bits(bbp))
    {
      ghost var s := Bits(bbp);
      var run, bit, loc, i := 0, 1 as bv8, 0, 0;
      while i < 8 * |bbp|
        invariant 0 <= i <= 8 * |bbp| && loc == i / 8 && bit == Mask(i % 8)
        invariant Scanned(s[..i], run)
      {
        TrailPrefix(s, i, cap);
        BitAt(bbp, i);
        run := ScanBit(bbp[loc] & bit != 0, run, s[..i], s[..i + 1]);
        loc, bit := NextBit(i, loc, bit);
        i := i + 1;
      }
      assert s[..i] == s;
      if run != 0 {
        CountRun(run);
      }
      init := true;
    }

    /** The runs that end within t are counted, and `run` clear bits end it. */
    ghost predicate Scanned(t: seq<bool>, run: nat)
      reads this, sum
    {
      Shaped() && run == Trail(t) && forall k :: 1 <= k <= cap ==> sum[k] == Closed(t, cap, k)
    }

    method ScanBit(isSet: bool, run: nat, ghost t: seq<bool>, ghost t': seq<bool>) returns (run': nat)
      requires Scanned(t, run) && Trail(t') == if isSet then 0 else 1 + Trail(t)
      requires forall k :: Closed(t', cap, k) == Closed(t, cap, k) + if isSet then One(Trail(t), cap, k) else 0
      modifies sum
      ensures Scanned(t', run')
    {
      run' := run;
      if !isSet {
        run' := run + 1;
      } else if run != 0 {
        CountRun(run);
        run' := 0;
      }
    }

    method CountRun(run: nat)
      requires Shaped() && run > 0
      modifies sum
      ensures forall k :: 1 <= k <= cap ==> sum[k] == old(sum[k]) + One(run, cap, k)
    {
      var r := if run > cap then cap else run;
      sum[r] := sum[r] + 1;
    }

    /** How many clear bits follow bit bno, up to the cap. */
    method Forward(bbp: Bytes, bno: nat) returns (forw: nat)
      requires bno < 8 * |bbp| && cap > 0
      ensures forw == Cap(Lead(Bits(bbp)[bno + 1..]), cap)
    {
      ghost var s := Bits(bbp);
      var start := bno + 1;
      var end := start + cap;
      if end > 8 * |bbp| {
        end := 8 * |bbp|;
      }
      var loc, bit, i := start / 8, Mask(start % 8), start;
      while i < end
        invariant start <= i <= end && loc == i / 8 && bit == Mask(i % 8)
        invariant forall j :: start <= j < i ==> !s[j]
      {
        BitAt(bbp, i);
        if bbp[loc] & bit != 0 {
          break;
        }
        loc, bit := NextBit(i, loc, bit);
        i := i + 1;
      }
      LeadIs(s, start, i, end, cap);
      forw := i - start;
    }

    /** How many clear bits precede bit bno, up to the cap. */
    method Backward(bbp: Bytes, bno: nat) returns (back: nat)
      requires bno < 8 * |bbp| && cap > 0
      ensures back == Cap(Trail(Bits(bbp)[..bno]), cap)
    {
      ghost var s := Bits(bbp);
      var start: int := bno - 1;
      var end: int := start - cap;
      if end < 0 {
        end := -1;
      }
      var loc: int, bit, i: int := if start < 0 then 0 else start / 8, Mask(if start < 0 then 0 else start % 8), start;
      while i > end
        invariant end <= i <= start && (i > end ==> loc == i / 8 && bit == Mask(i % 8))
        invariant forall j :: i < j <= start ==> !s[j]
      {
        BitAt(bbp, i);
        if bbp[loc] & bit != 0 {
          break;
        }
        loc, bit := PreviousBit(i, loc, bit);
        i := i - 1;
      }
      TrailIs(s, bno, i + 1, end + 1, cap);
      back := start - i;
    }

    /** ext2_clusteracct, called after bit bno has changed: cnt is 1 for freed, -1 for taken.  A histogram
        that was right stays right; one that was not initialised ends up off by the change just made. */
    method ClusterAcct(bbp: Bytes, bno: nat, cnt: int, ghost was: seq<bool>)
      requires Shaped() && Flipped(was, Bits(bbp), bno, cnt)
      requires !init ==> forall k :: 1 <= k <= cap ==> sum[k] == 0
      modifies this, sum
      ensures Shaped() && init && sum == old(sum)
      ensures old(init && Accurate(was)) ==> Accurate(Bits(bbp))
      ensures !old(init) ==> forall k :: 1 <= k <= cap ==>
                sum[k] == Runs(Bits(bbp), cap, k) + (Runs(Bits(bbp), cap, k) - Runs(was, cap, k))
      ensures maxcluster <= cap && (maxcluster > 0 ==> sum[maxcluster] > 0) && forall k :: maxcluster < k <= cap ==> sum[k] <= 0
      ensures Accurate(Bits(bbp)) ==>
                maxcluster <= cap && forall k :: 1 <= k <= cap ==> (k <= maxcluster <==> Fits(Bits(bbp), k))
    {
      ghost var s := Bits(bbp);
      if !init {
        InitScan(bbp);
      }
      FlipDelta(was, s, bno, cap, cnt);
      Apply(bbp, bno, cnt);
      var i := cap;
      while i > 0
        invariant 0 <= i <= cap
        invariant forall k :: i < k <= cap ==> sum[k] <= 0
      {
        if sum[i] > 0 {
          break;
        }
        i := i - 1;
      }
      maxcluster := i;
      if Accurate(s) {
        LargestCounted(s, cap, i);
      }
    }

    /** Exchange the run around bit bno for those on its sides, or the other way round. */
    method Apply(bbp: Bytes, bno: nat, cnt: int)
      requires Shaped() && bno < 8 * |bbp|
      modifies sum
      ensures forall k :: 1 <= k <= cap ==> sum[k] == old(sum[k]) + Delta(Bits(bbp), bno, cap, cnt, k)
    {
      var forw := Forward(bbp, bno);
      var back := Backward(bbp, bno);
      var i := back + forw + 1;
      if i > cap {
        i := cap;
      }
      sum[i] := sum[i] + cnt;
      if back > 0 {
        sum[back] := sum[back] - cnt;
      }
      if forw > 0 {
        sum[forw] := sum[forw] - cnt;
      }
    }
  }

  /** The clear bits found going forward are those that lead the rest of the map, up to the cap. */
  lemma LeadIs(s: seq<bool>, start: nat, i: nat, end: nat, cap: nat)
    requires start <= i <= end <= |s| && end == if start + cap > |s| then |s| else start + cap
    requires forall j :: start <= j < i ==> !s[j]
    requires i < end ==> s[i]
    ensures i - start == Cap(Lead(s[start..]), cap)
  {
    var q := s[start..];
    LeadBits(q);
    assert forall j :: 0 <= j < |q| ==> q[j] == s[start + j];
  }

  lemma TrailIs(s: seq<bool>, bno: nat, i: nat, end: nat, cap: nat)
    requires end <= i <= bno <= |s| && end == if bno < cap then 0 else bno - cap
    requires forall j :: i <= j < bno ==> !s[j]
    requires i > end ==> s[i - 1]
    ensures bno - i == Cap(Trail(s[..bno]), cap)
  {
    TrailBits(s[..bno]);
  }

  /** Bit x of map `was` was freed (cnt is 1) or taken (-1), giving map s. */
  ghost predicate Flipped(was: seq<bool>, s: seq<bool>, x: nat, cnt: int) {
    x < |was| && (cnt == 1 || cnt == -1) && was[x] == (cnt == 1) && s == was[x := cnt == -1]
  }

  lemma FlipDelta(was: seq<bool>, s: seq<bool>, x: nat, cap: nat, cnt: int)
    requires Flipped(was, s, x, cnt)
    ensures forall k :: 1 <= k <= cap ==> Delta(s, x, cap, cnt, k) == Runs(s, cap, k) - Runs(was, cap, k)
  {
    forall k | 1 <= k <= cap
      ensures Delta(s, x, cap, cnt, k) == Runs(s, cap, k) - Runs(was, cap, k)
    {
      DeltaIsChange(s, x, cap, k);
      assert s[x := false] == (if cnt == 1 then s else was);
      assert s[x := true] == (if cnt == 1 then was else s);
    }
  }

  /** The largest length the histogram counts is that of the longest run. */
  lemma LargestCounted(s: seq<bool>, cap: nat, m: nat)
    requires m <= cap && (forall k :: m < k <= cap ==> Runs(s, cap, k) == 0) && (m > 0 ==> Runs(s, cap, m) > 0)
    ensures forall k :: 1 <= k <= cap ==> (k <= m <==> Fits(s, k))
  {
    forall k | 1 <= k <= cap
      ensures k <= m <==> Fits(s, k)
    {
      LongestRun(s, cap, k);
      if k <= m {
        assert CountedAt(s, cap, k, m);
      } else if j: nat :| CountedAt(s, cap, k, j) {
        if j > cap {
          CappedRuns(s, cap, j);
        }
      }
    }
  }
}
