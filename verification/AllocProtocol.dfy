/// Allocating and freeing blocks from many threads at once.
///
/// A thread gives the mount lock up while it reads a bitmap; from then on it owns the buffer of that bitmap,
/// and takes the lock again only to change the counts.  The model is a state machine of the single steps a
/// thread takes in between; a run is any interleaving of such steps by any number of threads.
module AllocProtocol {
  import opened Arith
  import opened Options

  /** What a thread is about to do to a bit: take it or give it back. */
  datatype Op = Take | Give

  function Delta(op: Op): int {
    if op.Take? then -1 else 1
  }

  /** Where a thread is. */
  datatype Pc =
    | Idle
    | Probe                            // ext2_hashalloc, holding the lock: which group next?
    | Relock                           // this group was full: take the lock again
    | Wait(g: nat)                     // ext2_alloccg: read the bitmap of g
    | HaveBuf(g: nat)                  // is the count of g still positive?
    | Checked(g: nat)                  // it is: find a clear bit
    | FreeWait(g: nat, b: nat)         // ext2_blkfree: read the bitmap
    | FreeHave(g: nat, b: nat)         // is the bit set?
    | BitDone(op: Op, g: nat, b: nat)  // the bit has changed: take the lock
    | Count1(op: Op, g: nat, b: nat)   // change the count of the volume
    | Count2(op: Op, g: nat, b: nat)   // change the count of the group
    | Counted(op: Op, g: nat, b: nat)  // release the lock
    | Unlocked(op: Op, g: nat, b: nat) // release the buffer

  type Block = (nat, nat)

  datatype State = State(
    clear: seq<set<nat>>,        // the clear bits of each group's bitmap
    nbfree: seq<int>,            // the free count of each group
    fbcount: int,                // the free count of the volume
    lock: Option<nat>,           // the thread that holds the mount lock
    buf: seq<Option<nat>>,       // the thread that owns the buffer of each group's bitmap
    pc: seq<Pc>,
    owned: seq<set<Block>>)      // the blocks each thread has been handed and not given back

  datatype Step =
    | Enter                      // ext2_alloc: take the lock
    | TryGroup(g: nat)           // look at the count of group g
    | GiveUp                     // ENOSPC
    | TakeLock                   // whoever waits for the lock gets it
    | TakeBuf                    // whoever waits for a buffer gets it
    | Check                      // with the buffer: is the count still positive?
    | ChangeBit(b: nat)          // set or clear the bit
    | CountVolume
    | CountGroup
    | DropLock
    | DropBuf                    // done; the block is handed out, or is free
    | StartFree(g: nat, b: nat)  // ext2_blkfree of a block the thread owns
    | Hand(u: nat, g: nat, b: nat) // the block is thread u's from now on: it works on the file next

  // ---------------------------------------------------------------- steps

  predicate Enabled(s: State, t: nat, step: Step)
    requires t < |s.pc|
  {
    var pc := s.pc[t];
    match step
    case Enter => pc.Idle? && s.lock.None?
    case TryGroup(g) => pc.Probe? && g < |s.clear| && g < |s.nbfree|
    case GiveUp => pc.Probe?
    case TakeLock => (pc.Relock? || pc.BitDone?) && s.lock.None?
    case TakeBuf => (pc.Wait? || pc.FreeWait?) && pc.g < |s.buf| && s.buf[pc.g].None?
    case Check => pc.HaveBuf? && pc.g < |s.nbfree| && pc.g < |s.buf|
    case ChangeBit(b) =>
      (pc.Checked? || pc.FreeHave?) && pc.g < |s.clear|
      && (if pc.Checked? then b in s.clear[pc.g] else b == pc.b && b !in s.clear[pc.g])
    case CountVolume => pc.Count1?
    case CountGroup => pc.Count2? && pc.g < |s.nbfree|
    case DropLock => pc.Counted?
    case DropBuf => pc.Unlocked? && pc.g < |s.buf| && t < |s.owned|
    case StartFree(g, b) => pc.Idle? && t < |s.owned| && (g, b) in s.owned[t]
    case Hand(u, g, b) => pc.Idle? && t < |s.owned| && u < |s.owned| && (g, b) in s.owned[t]
  }

  function Apply(s: State, t: nat, step: Step): State
    requires t < |s.pc| && Enabled(s, t, step)
  {
    var pc := s.pc[t];
    match step
    case Enter => s.(lock := Some(t), pc := s.pc[t := Probe])
    case TryGroup(g) =>
      if s.nbfree[g] == 0 then s else s.(lock := None, pc := s.pc[t := Wait(g)])
    case GiveUp => s.(lock := None, pc := s.pc[t := Idle])
    case TakeLock =>
      s.(lock := Some(t), pc := s.pc[t := if pc.Relock? then Probe else Count1(pc.op, pc.g, pc.b)])
    case TakeBuf =>
      s.(buf := s.buf[pc.g := Some(t)],
         pc := s.pc[t := if pc.Wait? then HaveBuf(pc.g) else FreeHave(pc.g, pc.b)])
    case Check =>
      if s.nbfree[pc.g] == 0 then s.(buf := s.buf[pc.g := None], pc := s.pc[t := Relock])
      else s.(pc := s.pc[t := Checked(pc.g)])
    case ChangeBit(b) =>
      if pc.Checked? then
        s.(clear := s.clear[pc.g := s.clear[pc.g] - {b}], pc := s.pc[t := BitDone(Take, pc.g, b)])
      else
        s.(clear := s.clear[pc.g := s.clear[pc.g] + {b}], pc := s.pc[t := BitDone(Give, pc.g, b)])
    case CountVolume => s.(fbcount := s.fbcount + Delta(pc.op), pc := s.pc[t := Count2(pc.op, pc.g, pc.b)])
    case CountGroup =>
      s.(nbfree := s.nbfree[pc.g := s.nbfree[pc.g] + Delta(pc.op)], pc := s.pc[t := Counted(pc.op, pc.g, pc.b)])
    case DropLock => s.(lock := None, pc := s.pc[t := Unlocked(pc.op, pc.g, pc.b)])
    case DropBuf =>
      s.(buf := s.buf[pc.g := None], pc := s.pc[t := Idle],
         owned := s.owned[t := if pc.op.Take? then s.owned[t] + {(pc.g, pc.b)} else s.owned[t]])
    case StartFree(g, b) =>
      s.(pc := s.pc[t := FreeWait(g, b)], owned := s.owned[t := s.owned[t] - {(g, b)}])
    case Hand(u, g, b) =>
      var rest := s.owned[t := s.owned[t] - {(g, b)}];
      s.(owned := rest[u := rest[u] + {(g, b)}])
  }

  // ---------------------------------------------------------------- the invariant

  predicate HoldsLock(pc: Pc) {
    pc.Probe? || pc.Count1? || pc.Count2? || pc.Counted?
  }

  predicate HoldsBuf(pc: Pc) {
    pc.HaveBuf? || pc.Checked? || pc.FreeHave? || pc.BitDone? || pc.Count1? || pc.Count2? || pc.Counted? || pc.Unlocked?
  }

  predicate HasGroup(pc: Pc) {
    HoldsBuf(pc) || pc.Wait? || pc.FreeWait?
  }

  /** By how much the clear bits of a group differ from its count, given where the owner of its buffer is. */
  function BitsAhead(pc: Pc): int {
    if pc.BitDone? || pc.Count1? || pc.Count2? then Delta(pc.op) else 0
  }

  /** By how much the count of the volume differs from the sum over the groups. */
  function VolumeAhead(pc: Pc): int {
    if pc.Count2? then Delta(pc.op) else 0
  }

  /** The thread has cleared a bit and not yet counted it in the group. */
  predicate Returning(pc: Pc) {
    (pc.BitDone? || pc.Count1? || pc.Count2?) && pc.op.Give?
  }

  /** The block a thread is about to be handed, or has not yet given back. */
  function Pending(pc: Pc): set<Block> {
    match pc
    case FreeWait(g, b) => {(g, b)}
    case FreeHave(g, b) => {(g, b)}
    case BitDone(op, g, b) => if op.Take? then {(g, b)} else {}
    case Count1(op, g, b) => if op.Take? then {(g, b)} else {}
    case Count2(op, g, b) => if op.Take? then {(g, b)} else {}
    case Counted(op, g, b) => if op.Take? then {(g, b)} else {}
    case Unlocked(op, g, b) => if op.Take? then {(g, b)} else {}
    case _ => {}
  }

  function Claims(s: State, t: nat): set<Block>
    requires t < |s.pc| && t < |s.owned|
  {
    s.owned[t] + Pending(s.pc[t])
  }

  ghost predicate Shaped(s: State) {
    && |s.clear| == |s.nbfree| == |s.buf| && |s.pc| == |s.owned|
    && (forall t :: 0 <= t < |s.pc| && HasGroup(s.pc[t]) ==> s.pc[t].g < |s.buf|)
  }

  /** The lock is held by the thread that thinks so, and by no other. */
  ghost predicate LockInv(s: State) {
    && (s.lock.Some? ==> s.lock.value < |s.pc|)
    && (forall t :: 0 <= t < |s.pc| ==> (HoldsLock(s.pc[t]) <==> s.lock == Some(t)))
  }

  ghost predicate BufInv(s: State)
    requires Shaped(s)
  {
    && (forall t :: 0 <= t < |s.pc| && HoldsBuf(s.pc[t]) ==> s.buf[s.pc[t].g] == Some(t))
    && (forall g :: 0 <= g < |s.buf| && s.buf[g].Some? ==>
          s.buf[g].value < |s.pc| && HoldsBuf(s.pc[s.buf[g].value]) && s.pc[s.buf[g].value].g == g)
  }

  function Ahead(s: State, g: nat): int
    requires g < |s.buf|
  {
    if s.buf[g].Some? && s.buf[g].value < |s.pc| then BitsAhead(s.pc[s.buf[g].value]) else 0
  }

  /** Each group's clear bits are its count, up to the change its buffer's owner is in the middle of. */
  ghost predicate CountInv(s: State)
    requires Shaped(s)
  {
    && (forall g :: 0 <= g < |s.buf| ==> |s.clear[g]| == s.nbfree[g] + Ahead(s, g))
    && (forall t :: 0 <= t < |s.pc| && s.pc[t].Checked? ==> s.nbfree[s.pc[t].g] > 0)
  }

  ghost predicate ReturnInv(s: State)
    requires Shaped(s)
  {
    forall t :: 0 <= t < |s.pc| && Returning(s.pc[t]) ==> s.pc[t].b in s.clear[s.pc[t].g]
  }

  function SumAhead(s: State): int {
    if s.lock.Some? && s.lock.value < |s.pc| then VolumeAhead(s.pc[s.lock.value]) else 0
  }

  /** The count of the volume is the sum of the groups', up to the change the lock's holder is making. */
  ghost predicate SumInv(s: State) {
    s.fbcount == Sum(s.nbfree) + SumAhead(s)
  }

  /** A block that some thread has a claim on is in use, and no other thread has a claim on it. */
  ghost predicate OwnInv(s: State)
    requires Shaped(s)
  {
    && (forall t, x :: 0 <= t < |s.pc| && x in Claims(s, t) ==> x.0 < |s.clear| && x.1 !in s.clear[x.0])
    && (forall t, u, x :: 0 <= t < |s.pc| && 0 <= u < |s.pc| && x in Claims(s, t) && x in Claims(s, u) ==> t == u)
    && (forall t :: 0 <= t < |s.pc| ==> s.owned[t] !! Pending(s.pc[t]))
  }

  ghost predicate Inv(s: State) {
    Shaped(s) && LockInv(s) && BufInv(s) && CountInv(s) && ReturnInv(s) && SumInv(s) && OwnInv(s)
  }

  /** Nobody is at work, the counts match, and each block in somebody's hands is in use and in nobody else's. */
  ghost predicate Init(s: State) {
    && |s.clear| == |s.nbfree| == |s.buf| && |s.pc| == |s.owned|
    && s.lock.None? && (forall g :: 0 <= g < |s.buf| ==> s.buf[g].None? && s.nbfree[g] == |s.clear[g]|)
    && (forall t :: 0 <= t < |s.pc| ==> s.pc[t].Idle?) && s.fbcount == Sum(s.nbfree)
    && (forall t, x :: 0 <= t < |s.owned| && x in s.owned[t] ==> x.0 < |s.clear| && x.1 !in s.clear[x.0])
    && (forall t, u, x :: 0 <= t < |s.owned| && 0 <= u < |s.owned| && x in s.owned[t] && x in s.owned[u] ==> t == u)
  }

  lemma InitInv(s: State)
    requires Init(s)
    ensures Inv(s)
  {
  }

  // ---------------------------------------------------------------- every step keeps it

  lemma KeepsShape(s: State, t: nat, step: Step)
    requires Shaped(s) && OwnInv(s) && t < |s.pc| && Enabled(s, t, step)
    ensures Shaped(Apply(s, t, step))
  {
    if step.StartFree? {
      assert (step.g, step.b) in Claims(s, t);
    }
  }

  lemma KeepsLock(s: State, t: nat, step: Step)
    requires Shaped(s) && LockInv(s) && t < |s.pc| && Enabled(s, t, step)
    ensures LockInv(Apply(s, t, step))
  {
  }

  lemma KeepsBuf(s: State, t: nat, step: Step)
    requires Shaped(s) && BufInv(s) && t < |s.pc| && Enabled(s, t, step) && Shaped(Apply(s, t, step))
    ensures BufInv(Apply(s, t, step))
  {
    var s' := Apply(s, t, step);
    forall u | 0 <= u < |s'.pc| && HoldsBuf(s'.pc[u])
      ensures s'.buf[s'.pc[u].g] == Some(u)
    {
      OwnerKept(s, t, step, u);
    }
    forall g | 0 <= g < |s'.buf| && s'.buf[g].Some?
      ensures s'.buf[g].value < |s'.pc| && HoldsBuf(s'.pc[s'.buf[g].value]) && s'.pc[s'.buf[g].value].g == g
    {
      BufferKept(s, t, step, g);
    }
  }

  lemma OwnerKept(s: State, t: nat, step: Step, u: nat)
    requires Shaped(s) && BufInv(s) && t < |s.pc| && Enabled(s, t, step) && Shaped(Apply(s, t, step))
    requires u < |s.pc| && HoldsBuf(Apply(s, t, step).pc[u])
    ensures Apply(s, t, step).buf[Apply(s, t, step).pc[u].g] == Some(u)
  {
  }

  lemma BufferKept(s: State, t: nat, step: Step, g: nat)
    requires Shaped(s) && BufInv(s) && t < |s.pc| && Enabled(s, t, step) && Shaped(Apply(s, t, step))
    requires g < |s.buf| && Apply(s, t, step).buf[g].Some?
    ensures var s' := Apply(s, t, step);
            s'.buf[g].value < |s'.pc| && HoldsBuf(s'.pc[s'.buf[g].value]) && s'.pc[s'.buf[g].value].g == g
  {
  }

  lemma KeepsCount(s: State, t: nat, step: Step)
    requires Shaped(s) && BufInv(s) && CountInv(s) && t < |s.pc| && Enabled(s, t, step) && Shaped(Apply(s, t, step))
    ensures CountInv(Apply(s, t, step))
  {
    var s' := Apply(s, t, step);
    forall g | 0 <= g < |s'.buf|
      ensures |s'.clear[g]| == s'.nbfree[g] + Ahead(s', g)
    {
      CountKept(s, t, step, g);
    }
    forall u | 0 <= u < |s'.pc| && s'.pc[u].Checked?
      ensures s'.nbfree[s'.pc[u].g] > 0
    {
      CheckKept(s, t, step, u);
    }
  }

  lemma CountKept(s: State, t: nat, step: Step, g: nat)
    requires Shaped(s) && BufInv(s) && CountInv(s) && t < |s.pc| && Enabled(s, t, step) && Shaped(Apply(s, t, step))
    requires g < |s.buf|
    ensures |Apply(s, t, step).clear[g]| == Apply(s, t, step).nbfree[g] + Ahead(Apply(s, t, step), g)
  {
    assert |s.clear[g]| == s.nbfree[g] + Ahead(s, g);
  }

  lemma CheckKept(s: State, t: nat, step: Step, u: nat)
    requires Shaped(s) && BufInv(s) && CountInv(s) && t < |s.pc| && Enabled(s, t, step) && Shaped(Apply(s, t, step))
    requires u < |s.pc| && Apply(s, t, step).pc[u].Checked?
    ensures Apply(s, t, step).nbfree[Apply(s, t, step).pc[u].g] > 0
  {
    assert |s.clear[Apply(s, t, step).pc[u].g]| >= 0;
  }

  lemma KeepsReturn(s: State, t: nat, step: Step)
    requires Shaped(s) && BufInv(s) && CountInv(s) && ReturnInv(s)
    requires t < |s.pc| && Enabled(s, t, step) && Shaped(Apply(s, t, step))
    ensures ReturnInv(Apply(s, t, step))
  {
    var s' := Apply(s, t, step);
    forall u | 0 <= u < |s'.pc| && Returning(s'.pc[u])
      ensures s'.pc[u].b in s'.clear[s'.pc[u].g]
    {
      if u != t {
        assert s.buf[s.pc[u].g] == Some(u);
      }
    }
  }

  lemma KeepsSum(s: State, t: nat, step: Step)
    requires Shaped(s) && LockInv(s) && SumInv(s) && t < |s.pc| && Enabled(s, t, step)
    ensures SumInv(Apply(s, t, step))
  {
    if step.CountGroup? {
      SumUpdate(s.nbfree, s.pc[t].g, s.nbfree[s.pc[t].g] + Delta(s.pc[t].op));
    }
  }

  /** Changing a bit changes who has a claim on what: taking adds one, giving back drops one.  Handing a block
      over moves one. */
  lemma ClaimsAfter(s: State, t: nat, step: Step, u: nat)
    requires Shaped(s) && OwnInv(s) && t < |s.pc| && Enabled(s, t, step) && u < |s.pc|
    ensures |Apply(s, t, step).pc| == |s.pc| && |Apply(s, t, step).owned| == |s.owned|
    ensures Claims(Apply(s, t, step), u) ==
            if step.Hand? then
              (if u == step.u then Claims(s, u) + {(step.g, step.b)}
               else if u == t then Claims(s, u) - {(step.g, step.b)} else Claims(s, u))
            else if u == t && step.ChangeBit? then
              (if s.pc[t].Checked? then Claims(s, t) + {(s.pc[t].g, step.b)} else Claims(s, t) - {(s.pc[t].g, step.b)})
            else Claims(s, u)
    ensures Apply(s, t, step).owned[u] !! Pending(Apply(s, t, step).pc[u])
  {
    assert s.owned[t] !! Pending(s.pc[t]);
    assert step.Hand? ==> (step.g, step.b) in Claims(s, t);
    assert step.ChangeBit? && s.pc[t].Checked? ==> (s.pc[t].g, step.b) !in Claims(s, t);
  }

  lemma KeepsOwn(s: State, t: nat, step: Step)
    requires Shaped(s) && OwnInv(s) && t < |s.pc| && Enabled(s, t, step) && Shaped(Apply(s, t, step))
    ensures OwnInv(Apply(s, t, step))
  {
    var s' := Apply(s, t, step);
    forall u | 0 <= u < |s.pc|
      ensures s'.owned[u] !! Pending(s'.pc[u])
    {
      ClaimsAfter(s, t, step, u);
    }
    forall u, x | 0 <= u < |s.pc| && x in Claims(s', u)
      ensures x.0 < |s'.clear| && x.1 !in s'.clear[x.0]
    {
      ClaimInUse(s, t, step, u, x);
    }
    forall u, v, x | 0 <= u < |s.pc| && 0 <= v < |s.pc| && x in Claims(s', u) && x in Claims(s', v)
      ensures u == v
    {
      ClaimOnce(s, t, step, u, v, x);
    }
  }

  lemma ClaimInUse(s: State, t: nat, step: Step, u: nat, x: Block)
    requires Shaped(s) && OwnInv(s) && t < |s.pc| && Enabled(s, t, step) && Shaped(Apply(s, t, step))
    requires u < |s.pc| && x in Claims(Apply(s, t, step), u)
    ensures x.0 < |Apply(s, t, step).clear| && x.1 !in Apply(s, t, step).clear[x.0]
  {
    ClaimsAfter(s, t, step, u);
    if step.ChangeBit? && s.pc[t].FreeHave? {
      assert (s.pc[t].g, step.b) in Claims(s, t);
    }
    if step.Hand? {
      assert (step.g, step.b) in Claims(s, t);
    }
  }

  lemma ClaimOnce(s: State, t: nat, step: Step, u: nat, v: nat, x: Block)
    requires Shaped(s) && OwnInv(s) && t < |s.pc| && Enabled(s, t, step) && Shaped(Apply(s, t, step))
    requires u < |s.pc| && v < |s.pc| && x in Claims(Apply(s, t, step), u) && x in Claims(Apply(s, t, step), v)
    ensures u == v
  {
    ClaimsAfter(s, t, step, u);
    ClaimsAfter(s, t, step, v);
    if step.Hand? {
      assert (step.g, step.b) in Claims(s, t);
    }
  }

  lemma StepInv(s: State, t: nat, step: Step)
    requires Inv(s) && t < |s.pc| && Enabled(s, t, step)
    ensures Inv(Apply(s, t, step))
  {
    KeepsShape(s, t, step);
    KeepsLock(s, t, step);
    KeepsBuf(s, t, step);
    KeepsCount(s, t, step);
    KeepsReturn(s, t, step);
    KeepsSum(s, t, step);
    KeepsOwn(s, t, step);
  }

  // ---------------------------------------------------------------- runs

  /** What a run has done: which thread took which step, in order. */
  type Schedule = seq<(nat, Step)>

  /** The run of a schedule from s on is possible and ends in s'. */
  ghost predicate Run(s: State, sched: Schedule, s': State)
    decreases |sched|
  {
    if sched == [] then s' == s
    else
      && sched[0].0 < |s.pc| && Enabled(s, sched[0].0, sched[0].1)
      && Run(Apply(s, sched[0].0, sched[0].1), sched[1..], s')
  }

  /** The invariant holds after any run, however the steps of the threads interleave. */
  lemma {:induction false} RunInv(s: State, sched: Schedule, s': State)
    requires Inv(s) && Run(s, sched, s')
    ensures Inv(s')
    decreases |sched|
  {
    if sched != [] {
      StepInv(s, sched[0].0, sched[0].1);
      RunInv(Apply(s, sched[0].0, sched[0].1), sched[1..], s');
    }
  }

  /** In every reachable state no block is in two threads' hands, and none of those in hand is free. */
  lemma NeverHandedOutTwice(s: State, sched: Schedule, s': State, t: nat, u: nat, x: Block)
    requires Init(s) && Run(s, sched, s') && t < |s'.owned| && u < |s'.owned|
    requires x in s'.owned[t]
    ensures x in s'.owned[u] ==> t == u
    ensures x.0 < |s'.clear| && x.1 !in s'.clear[x.0]
  {
    InitInv(s);
    RunInv(s, sched, s');
    assert x in Claims(s', t);
    assert x in s'.owned[u] ==> x in Claims(s', u);
  }

  /** Block x is free, or some thread has a claim on it. */
  ghost predicate Tracked(s: State, x: Block)
    requires |s.pc| == |s.owned|
  {
    x.0 < |s.clear| && (x.1 in s.clear[x.0] || exists t: nat :: t < |s.pc| && x in Claims(s, t))
  }

  lemma StepTracks(s: State, t: nat, step: Step, x: Block)
    requires Inv(s) && t < |s.pc| && Enabled(s, t, step) && Shaped(Apply(s, t, step))
    ensures Tracked(Apply(s, t, step), x) <==> Tracked(s, x)
  {
    ClaimsAfter(s, t, step, t);
    if Tracked(s, x) {
      StillTracked(s, t, step, x);
    }
    if Tracked(Apply(s, t, step), x) {
      TrackedBefore(s, t, step, x);
    }
  }

  lemma StillTracked(s: State, t: nat, step: Step, x: Block)
    requires Inv(s) && t < |s.pc| && Enabled(s, t, step) && Shaped(Apply(s, t, step)) && Tracked(s, x)
    ensures Tracked(Apply(s, t, step), x)
  {
    var s' := Apply(s, t, step);
    ClaimsAfter(s, t, step, t);
    if u: nat :| u < |s.pc| && x in Claims(s, u) {
      ClaimsAfter(s, t, step, u);
      if step.Hand? && x == (step.g, step.b) {
        ClaimsAfter(s, t, step, step.u);
        assert x in Claims(s', step.u);
      }
      assert !step.Hand? && u != t ==> x in Claims(s', u);
    }
  }

  lemma TrackedBefore(s: State, t: nat, step: Step, x: Block)
    requires Inv(s) && t < |s.pc| && Enabled(s, t, step) && Shaped(Apply(s, t, step)) && Tracked(Apply(s, t, step), x)
    ensures Tracked(s, x)
  {
    var s' := Apply(s, t, step);
    ClaimsAfter(s, t, step, t);
    if u: nat :| u < |s'.pc| && x in Claims(s', u) {
      ClaimsAfter(s, t, step, u);
      assert step.Hand? ==> (step.g, step.b) in Claims(s, t);
    }
  }

  /** No block is lost and none appears: over any run the blocks that are free or in somebody's hands stay the
      same. */
  lemma {:induction false} NothingLost(s: State, sched: Schedule, s': State, x: Block)
    requires Inv(s) && Run(s, sched, s')
    ensures |s'.pc| == |s'.owned| && (Tracked(s', x) <==> Tracked(s, x))
    decreases |sched|
  {
    if sched != [] {
      StepInv(s, sched[0].0, sched[0].1);
      StepTracks(s, sched[0].0, sched[0].1, x);
      NothingLost(Apply(s, sched[0].0, sched[0].1), sched[1..], s', x);
    }
  }

  /** In every reachable state the counts are right wherever nobody is in the middle of changing them. */
  lemma CountsMatch(s: State, sched: Schedule, s': State, g: nat)
    requires Init(s) && Run(s, sched, s') && g < |s'.buf|
    ensures |s'.clear| == |s'.nbfree| == |s'.buf|
    ensures s'.buf[g].None? ==> s'.nbfree[g] == |s'.clear[g]|
    ensures s'.lock.None? ==> s'.fbcount == Sum(s'.nbfree)
  {
    InitInv(s);
    RunInv(s, sched, s');
  }

  /** No thread that waits for a buffer holds the mount lock. */
  lemma WaitsWithoutLock(s: State, sched: Schedule, s': State, t: nat)
    requires Init(s) && Run(s, sched, s') && t < |s'.pc| && (s'.pc[t].Wait? || s'.pc[t].FreeWait?)
    ensures s'.lock != Some(t)
  {
    InitInv(s);
    RunInv(s, sched, s');
  }

  lemma NoCountNegative(s: State)
    requires Inv(s)
    ensures forall k :: 0 <= k < |s.nbfree| ==> s.nbfree[k] >= 0
  {
    forall k | 0 <= k < |s.nbfree|
      ensures s.nbfree[k] >= 0
    {
      assert |s.clear[k]| == s.nbfree[k] + Ahead(s, k);
      if Ahead(s, k) > 0 {
        assert Returning(s.pc[s.buf[k].value]);
      }
    }
  }

  /** Neither count ever goes below zero, a thread with a positive count finds a clear bit, and no block is
      freed that is free: the panics of the allocator are out of reach. */
  lemma NoPanic(s: State, sched: Schedule, s': State, t: nat)
    requires Init(s) && Run(s, sched, s') && t < |s'.pc|
    ensures HasGroup(s'.pc[t]) ==> s'.pc[t].g < |s'.clear| && s'.pc[t].g < |s'.nbfree|
    ensures s'.pc[t].Checked? ==> s'.clear[s'.pc[t].g] != {}
    ensures s'.pc[t].FreeHave? ==> s'.pc[t].b !in s'.clear[s'.pc[t].g]
    ensures s'.pc[t].Count1? && s'.pc[t].op.Take? ==> s'.fbcount > 0
    ensures s'.pc[t].Count2? && s'.pc[t].op.Take? ==> s'.nbfree[s'.pc[t].g] > 0
  {
    InitInv(s);
    RunInv(s, sched, s');
    var pc := s'.pc[t];
    if HoldsBuf(pc) {
      assert s'.buf[pc.g] == Some(t);
      assert |s'.clear[pc.g]| == s'.nbfree[pc.g] + BitsAhead(pc);
      NoCountNegative(s');
      SumAtLeast(s'.nbfree, pc.g);
    }
    if pc.FreeHave? {
      assert (pc.g, pc.b) in Claims(s', t);
    }
  }

  // ---------------------------------------------------------------- progress

  /** The thread that can go on when thread t is in the middle of something: t itself, or whoever it waits
      for. */
  lemma NoDeadlock(s: State, sched: Schedule, s': State, t: nat)
    requires Init(s) && Run(s, sched, s') && t < |s'.pc| && !s'.pc[t].Idle?
    ensures exists u: nat, step: Step :: u < |s'.pc| && !s'.pc[u].Idle? && Enabled(s', u, step)
  {
    InitInv(s);
    RunInv(s, sched, s');
    if s'.lock.Some? {
      Proceeds(s, sched, s', s'.lock.value);
    } else if (s'.pc[t].Wait? || s'.pc[t].FreeWait?) && s'.buf[s'.pc[t].g].Some? {
      Proceeds(s, sched, s', s'.buf[s'.pc[t].g].value);
    } else {
      Proceeds(s, sched, s', t);
    }
  }

  /** A thread that waits for nothing can take a step. */
  lemma Proceeds(s: State, sched: Schedule, s': State, u: nat)
    requires Init(s) && Run(s, sched, s') && u < |s'.pc| && !s'.pc[u].Idle?
    requires HoldsLock(s'.pc[u]) || s'.lock.None?
    requires (s'.pc[u].Wait? || s'.pc[u].FreeWait?) && s'.pc[u].g < |s'.buf| ==> s'.buf[s'.pc[u].g].None?
    ensures exists step: Step :: Enabled(s', u, step)
  {
    InitInv(s);
    RunInv(s, sched, s');
    NoPanic(s, sched, s', u);
    var step: Step;
    match s'.pc[u] {
      case Probe => step := GiveUp;
      case Relock => step := TakeLock;
      case Wait(_) => step := TakeBuf;
      case HaveBuf(_) => step := Check;
      case Checked(g) =>
        var b :| b in s'.clear[g];
        step := ChangeBit(b);
      case FreeWait(_, _) => step := TakeBuf;
      case FreeHave(_, b) => step := ChangeBit(b);
      case BitDone(_, _, _) => step := TakeLock;
      case Count1(_, _, _) => step := CountVolume;
      case Count2(_, _, _) => step := CountGroup;
      case Counted(_, _, _) => step := DropLock;
      case Unlocked(_, _, _) => step := DropBuf;
    }
    assert Enabled(s', u, step);
  }
}
