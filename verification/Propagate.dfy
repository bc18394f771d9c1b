/// Finding the directories that are connected to the root (propagate in dir.c), on its first call.
///
/// Directories are numbered by their place in the sorted table of directories; `parent` is what the scan of
/// the directory entries found, None where it found no parent.  Parents may form cycles.
module Propagate {
  import opened Options

  datatype DirState = DSTATE | DCLEAR | DFOUND

  /** The table pass 2 leaves: nobody was found yet, each parent is in the table, and whoever was given a parent
      is in state DSTATE. */
  ghost predicate Table(parent: seq<Option<nat>>, state: seq<DirState>, root: nat) {
    && |parent| == |state| && root < |parent|
    && (forall v :: 0 <= v < |parent| && parent[v].Some? ==> parent[v].value < |parent|)
    && (forall v :: 0 <= v < |state| ==> state[v] != DFOUND)
    && (forall v :: 0 <= v < |parent| && v != root && parent[v].Some? ==> state[v] == DSTATE)
  }

  // ---------------------------------------------------------------- how pass 2 fills the table

  /** A directory entry pass 2 comes to: entry number `entryno` of directory `dir` names directory v; `remove` is
      whether the entry is removed when there is something wrong with it. */
  datatype Entry = Entry(dir: nat, v: nat, entryno: nat, remove: bool)

  /** What pass2check does to parents and states.  A directory to be cleared whose entry stays is in state DSTATE
      from then on. */
  function NoteEntry(parent: seq<Option<nat>>, state: seq<DirState>, e: Entry): (seq<Option<nat>>, seq<DirState>)
    requires |parent| == |state| && e.v < |parent|
  {
    if e.entryno <= 2 then (parent, state)
    else if state[e.v] == DCLEAR then
      if e.remove then (parent, state) else (parent[e.v := Some(e.dir)], state[e.v := DSTATE])
    else if parent[e.v].Some? && e.remove then (parent, state)
    else (parent[e.v := Some(e.dir)], state)
  }

  /** The entries of all directories, in the order pass 2 comes to them. */
  function NoteEntries(parent: seq<Option<nat>>, state: seq<DirState>, es: seq<Entry>): (seq<Option<nat>>, seq<DirState>)
    requires |parent| == |state| && forall e :: e in es ==> e.v < |parent|
    decreases |es|
  {
    if es == [] then (parent, state)
    else
      var r := NoteEntry(parent, state, es[0]);
      NoteEntries(r.0, r.1, es[1..])
  }

  /** Pass 2 starts without parents, except that the root is its own; so propagate gets such a table whatever the
      directories contain. */
  lemma {:induction false} EntriesMakeTable(parent: seq<Option<nat>>, state: seq<DirState>, root: nat, es: seq<Entry>)
    requires Table(parent, state, root) && forall e :: e in es ==> e.v < |parent| && e.dir < |parent|
    ensures var r := NoteEntries(parent, state, es); Table(r.0, r.1, root)
    decreases |es|
  {
    if es != [] {
      assert es[0] in es;
      var r := NoteEntry(parent, state, es[0]);
      EntriesMakeTable(r.0, r.1, root, es[1..]);
    }
  }

  lemma FreshTable(state: seq<DirState>, root: nat)
    requires root < |state| && forall v :: 0 <= v < |state| ==> state[v] != DFOUND
    ensures Table(seq(|state|, v => if v == root then Some(root) else None), state, root)
  {
  }

  /** v is a child of u in the tree that is walked: the root is nobody's child. */
  predicate ChildOf(parent: seq<Option<nat>>, root: nat, v: nat, u: nat) {
    v < |parent| && v != root && parent[v] == Some(u)
  }

  /** v is the last child of u before k. */
  ghost predicate LastChild(parent: seq<Option<nat>>, root: nat, u: nat, k: nat, v: Option<nat>) {
    match v
    case None => forall w: nat :: w < k ==> !ChildOf(parent, root, w, u)
    case Some(c) => c < k && ChildOf(parent, root, c, u)
                    && forall w: nat :: c < w < k ==> !ChildOf(parent, root, w, u)
  }

  /** The lists of children: each starts at the last child, and goes on to the one before. */
  ghost predicate Linked(parent: seq<Option<nat>>, root: nat, child: seq<Option<nat>>, sib: seq<Option<nat>>, up: seq<Option<nat>>) {
    && |child| == |sib| == |up| == |parent|
    && (forall u :: 0 <= u < |parent| ==> LastChild(parent, root, u, |parent|, child[u]))
    && (forall v: nat, u: nat :: ChildOf(parent, root, v, u) ==> up[v] == Some(u) && LastChild(parent, root, u, v, sib[v]))
    && (forall v :: 0 <= v < |parent| && (v == root || parent[v].None?) ==> up[v].None? && sib[v].None?)
  }

  // ---------------------------------------------------------------- who is connected

  /** The walk goes down from u: the head of its list of children is in state DSTATE. */
  ghost predicate Open(parent: seq<Option<nat>>, state: seq<DirState>, root: nat, u: nat)
    requires |state| == |parent|
  {
    exists h: nat :: h < |parent| && LastChild(parent, root, u, |parent|, Some(h)) && state[h] == DSTATE
  }

  /** The chain of parents of v reaches the root in d steps. */
  ghost predicate Chain(parent: seq<Option<nat>>, root: nat, v: nat, d: nat)
    decreases d
  {
    v < |parent| && (v == root || (d > 0 && parent[v].Some? && Chain(parent, root, parent[v].value, d - 1)))
  }

  /** It does so through directories the walk goes down from. */
  ghost predicate Reached(parent: seq<Option<nat>>, state: seq<DirState>, root: nat, v: nat, d: nat)
    requires |state| == |parent|
    decreases d
  {
    v < |parent| && (v == root || (d > 0 && parent[v].Some? && Open(parent, state, root, parent[v].value)
                                   && Reached(parent, state, root, parent[v].value, d - 1)))
  }

  ghost predicate Connected(parent: seq<Option<nat>>, root: nat, v: nat) {
    exists d: nat :: Chain(parent, root, v, d)
  }

  ghost predicate Found(parent: seq<Option<nat>>, state: seq<DirState>, root: nat, v: nat)
    requires |state| == |parent|
  {
    exists d: nat :: Reached(parent, state, root, v, d)
  }

  lemma {:induction false} ReachedChain(parent: seq<Option<nat>>, state: seq<DirState>, root: nat, v: nat, d: nat)
    requires |state| == |parent| && Reached(parent, state, root, v, d)
    ensures Chain(parent, root, v, d)
    decreases d
  {
    if v != root {
      ReachedChain(parent, state, root, parent[v].value, d - 1);
    }
  }

  /** The directories found are exactly the connected ones: the head of a list of children is in state DSTATE. */
  lemma FoundIsConnected(parent: seq<Option<nat>>, state: seq<DirState>, root: nat, v: nat)
    requires Table(parent, state, root)
    ensures Found(parent, state, root, v) <==> Connected(parent, root, v)
  {
    if d: nat :| Reached(parent, state, root, v, d) {
      ReachedChain(parent, state, root, v, d);
    }
    if d: nat :| Chain(parent, root, v, d) {
      ChainReached(parent, state, root, v, d);
    }
  }

  lemma {:induction false} ChainReached(parent: seq<Option<nat>>, state: seq<DirState>, root: nat, v: nat, d: nat)
    requires Table(parent, state, root) && Chain(parent, root, v, d)
    ensures Reached(parent, state, root, v, d)
    decreases d
  {
    if v != root {
      var u := parent[v].value;
      ChainReached(parent, state, root, u, d - 1);
      assert ChildOf(parent, root, v, u);
      var h := SomeLast(parent, root, u, v, |parent|);
    }
  }

  /** Whoever has a child has a last one. */
  lemma {:induction false} SomeLast(parent: seq<Option<nat>>, root: nat, u: nat, v: nat, k: nat) returns (h: nat)
    requires v < k <= |parent| && ChildOf(parent, root, v, u)
    ensures h < k && LastChild(parent, root, u, k, Some(h))
    decreases k
  {
    if ChildOf(parent, root, k - 1, u) {
      h := k - 1;
    } else {
      h := SomeLast(parent, root, u, v, k - 1);
    }
  }

  lemma OneLast(parent: seq<Option<nat>>, root: nat, u: nat, k: nat, h: nat)
    requires LastChild(parent, root, u, k, Some(h))
    ensures forall h': nat :: LastChild(parent, root, u, k, Some(h')) ==> h' == h
  {
  }

  // ---------------------------------------------------------------- the walk

  function Unmarked(state: seq<DirState>): nat {
    if state == [] then 0 else (if state[|state| - 1] == DFOUND then 0 else 1) + Unmarked(state[..|state| - 1])
  }

  lemma {:induction false} MarkOne(state: seq<DirState>, v: nat)
    requires v < |state| && state[v] != DFOUND
    ensures Unmarked(state[v := DFOUND]) == Unmarked(state) - 1
  {
    var k := |state| - 1;
    if v < k {
      MarkOne(state[..k], v);
      assert state[v := DFOUND][..k] == state[..k][v := DFOUND];
    } else {
      assert state[v := DFOUND][..k] == state[..k];
    }
  }

  /** All children of u behind c in its list order, that is with higher numbers, have been found. */
  ghost predicate ElderFound(parent: seq<Option<nat>>, now: seq<DirState>, root: nat, u: nat, c: nat)
    requires |now| == |parent|
  {
    forall w: nat :: w > c && ChildOf(parent, root, w, u) ==> now[w] == DFOUND
  }

  ghost predicate AllFound(parent: seq<Option<nat>>, now: seq<DirState>, root: nat, u: nat)
    requires |now| == |parent|
  {
    forall w: nat :: ChildOf(parent, root, w, u) ==> now[w] == DFOUND
  }

  /** None of the children of u behind c in the list has been found. */
  ghost predicate YoungerNew(parent: seq<Option<nat>>, now: seq<DirState>, root: nat, u: nat, c: nat)
    requires |now| == |parent|
  {
    forall w: nat :: w < c && ChildOf(parent, root, w, u) ==> now[w] != DFOUND
  }

  /** The path leads from the root down to where the walk is; whoever it leads through is found and gone down
      from, and so are the children listed before the next one on the path, but none listed behind it. */
  ghost predicate Path(parent: seq<Option<nat>>, state: seq<DirState>, now: seq<DirState>, root: nat, path: seq<nat>)
    requires |state| == |parent| == |now|
    decreases |path|
  {
    && path != [] && path[|path| - 1] < |parent|
    && if |path| == 1 then path[0] == root
       else
         var u, c := path[|path| - 2], path[|path| - 1];
         && u < |parent| && ChildOf(parent, root, c, u) && Open(parent, state, root, u) && now[u] == DFOUND
         && ElderFound(parent, now, root, u, c) && YoungerNew(parent, now, root, u, c)
         && Path(parent, state, now, root, path[..|path| - 1])
  }

  /** What is marked: only directories to be found, each after its parent. */
  ghost predicate Marks(parent: seq<Option<nat>>, state: seq<DirState>, now: seq<DirState>, root: nat)
    requires Table(parent, state, root)
  {
    && |now| == |parent|
    && (forall v :: 0 <= v < |now| ==> now[v] == state[v] || now[v] == DFOUND)
    && (forall v: nat :: v < |now| && now[v] == DFOUND ==> Found(parent, state, root, v))
    && (forall v: nat, u: nat :: ChildOf(parent, root, v, u) && now[v] == DFOUND ==> now[u] == DFOUND)
  }

  /** Whoever is found and gone down from has all its children found, or the walk is among them. */
  ghost predicate Served(parent: seq<Option<nat>>, state: seq<DirState>, now: seq<DirState>, root: nat, path: seq<nat>)
    requires |state| == |parent| == |now| && path != []
  {
    forall u: nat :: u < |now| && now[u] == DFOUND && Open(parent, state, root, u) ==>
      AllFound(parent, now, root, u) || u in path[..|path| - 1]
  }

  /** The loop invariant: the walk arrives at the end of the path. */
  ghost predicate Walking(parent: seq<Option<nat>>, state: seq<DirState>, now: seq<DirState>, root: nat, path: seq<nat>)
    requires Table(parent, state, root)
  {
    && Marks(parent, state, now, root) && Path(parent, state, now, root, path)
    && Served(parent, state, now, root, path)
  }

  lemma {:induction false} PathFound(parent: seq<Option<nat>>, state: seq<DirState>, now: seq<DirState>, root: nat, path: seq<nat>)
    requires |state| == |parent| == |now| && Path(parent, state, now, root, path)
    ensures Reached(parent, state, root, path[|path| - 1], |path| - 1)
    decreases |path|
  {
    if |path| > 1 {
      PathFound(parent, state, now, root, path[..|path| - 1]);
    }
  }

  /** v is d steps below the root. */
  ghost predicate Depth(parent: seq<Option<nat>>, root: nat, v: nat, d: nat)
    decreases d
  {
    if d == 0 then v == root
    else v < |parent| && v != root && parent[v].Some? && Depth(parent, root, parent[v].value, d - 1)
  }

  lemma {:induction false} OneDepth(parent: seq<Option<nat>>, root: nat, v: nat, d: nat, e: nat)
    requires Depth(parent, root, v, d) && Depth(parent, root, v, e)
    ensures d == e
    decreases d
  {
    if d > 0 && e > 0 {
      OneDepth(parent, root, parent[v].value, d - 1, e - 1);
    }
  }

  lemma {:induction false} PathDepth(parent: seq<Option<nat>>, state: seq<DirState>, now: seq<DirState>, root: nat, path: seq<nat>, i: nat)
    requires |state| == |parent| == |now| && Path(parent, state, now, root, path) && i < |path|
    ensures Depth(parent, root, path[i], i)
    decreases |path|
  {
    if |path| > 1 {
      PathDepth(parent, state, now, root, path[..|path| - 1], if i < |path| - 1 then i else i - 1);
    }
  }

  /** Marking v, which is not a child of anybody the path leads through, keeps the path. */
  lemma {:induction false} PathKept(parent: seq<Option<nat>>, state: seq<DirState>, now: seq<DirState>, root: nat, path: seq<nat>, v: nat)
    requires |state| == |parent| == |now| && Path(parent, state, now, root, path) && v < |now|
    requires forall i :: 0 <= i < |path| - 1 ==> !ChildOf(parent, root, v, path[i])
    ensures Path(parent, state, now[v := DFOUND], root, path)
    decreases |path|
  {
    if |path| > 1 {
      PathKept(parent, state, now, root, path[..|path| - 1], v);
    }
  }

  lemma PathMarked(parent: seq<Option<nat>>, state: seq<DirState>, now: seq<DirState>, root: nat, path: seq<nat>)
    requires |state| == |parent| == |now| && Path(parent, state, now, root, path)
    ensures Path(parent, state, now[path[|path| - 1] := DFOUND], root, path)
  {
    var last := |path| - 1;
    var v := path[last];
    if last > 0 {
      PathDepth(parent, state, now, root, path, last);
      forall i | 0 <= i < last - 1
        ensures !ChildOf(parent, root, v, path[..last][i])
      {
        PathDepth(parent, state, now, root, path, i);
        if ChildOf(parent, root, v, path[i]) {
          OneDepth(parent, root, v, last, i + 1);
        }
      }
      PathKept(parent, state, now, root, path[..last], v);
    }
  }

  lemma {:induction false} NoOwnChild(parent: seq<Option<nat>>, state: seq<DirState>, root: nat, v: nat, d: nat)
    requires |state| == |parent| && Reached(parent, state, root, v, d)
    ensures !ChildOf(parent, root, v, v)
    decreases d
  {
    if v != root && parent[v] == Some(v) {
      NoOwnChild(parent, state, root, v, d - 1);
    }
  }

  lemma MarksKept(parent: seq<Option<nat>>, state: seq<DirState>, now: seq<DirState>, root: nat, path: seq<nat>)
    requires Table(parent, state, root) && Walking(parent, state, now, root, path)
    ensures Marks(parent, state, now[path[|path| - 1] := DFOUND], root)
  {
    PathFound(parent, state, now, root, path);
    assert Found(parent, state, root, path[|path| - 1]);
  }

  /** After the directory is marked: everybody else is still served. */
  ghost predicate At(parent: seq<Option<nat>>, state: seq<DirState>, now: seq<DirState>, root: nat, path: seq<nat>)
    requires Table(parent, state, root)
  {
    && Marks(parent, state, now, root) && Path(parent, state, now, root, path) && now[path[|path| - 1]] == DFOUND
    && forall u: nat :: u < |now| && now[u] == DFOUND && Open(parent, state, root, u) && u != path[|path| - 1] ==>
         AllFound(parent, now, root, u) || u in path[..|path| - 1]
  }

  lemma MarkKeeps(parent: seq<Option<nat>>, state: seq<DirState>, now: seq<DirState>, root: nat, path: seq<nat>)
    requires Table(parent, state, root) && Walking(parent, state, now, root, path)
    ensures At(parent, state, now[path[|path| - 1] := DFOUND], root, path)
  {
    MarksKept(parent, state, now, root, path);
    PathMarked(parent, state, now, root, path);
  }

  /** None of the children of u has been found. */
  ghost predicate NoneFound(parent: seq<Option<nat>>, now: seq<DirState>, root: nat, u: nat)
    requires |now| == |parent|
  {
    forall w: nat :: ChildOf(parent, root, w, u) ==> now[w] != DFOUND
  }

  /** When the walk goes down it has just entered the directory, and none of its children is found. */
  lemma NewlyEntered(parent: seq<Option<nat>>, state: seq<DirState>, now: seq<DirState>, root: nat, path: seq<nat>, h: nat)
    requires Table(parent, state, root) && Walking(parent, state, now, root, path) && Again(parent, state, now, root, path)
    requires h < |parent| && LastChild(parent, root, path[|path| - 1], |parent|, Some(h))
    requires now[path[|path| - 1] := DFOUND][h] == DSTATE
    ensures now[path[|path| - 1]] != DFOUND
    ensures NoneFound(parent, now[path[|path| - 1] := DFOUND], root, path[|path| - 1])
  {
    var cur := path[|path| - 1];
    PathFound(parent, state, now, root, path);
    NoOwnChild(parent, state, root, cur, |path| - 1);
    if now[cur] == DFOUND {
      assert now[h] == state[h] == DSTATE;
      assert Open(parent, state, root, cur);
    }
  }

  /** Down to the head of the list of children. */
  lemma Down(parent: seq<Option<nat>>, state: seq<DirState>, now: seq<DirState>, root: nat, path: seq<nat>, h: nat)
    requires Table(parent, state, root) && At(parent, state, now, root, path) && h < |parent|
    requires LastChild(parent, root, path[|path| - 1], |parent|, Some(h)) && now[h] == DSTATE
    requires state[h] == DSTATE && NoneFound(parent, now, root, path[|path| - 1])
    ensures Walking(parent, state, now, root, path + [h])
  {
    var path' := path + [h];
    assert path'[..|path|] == path;
    assert Open(parent, state, root, path[|path| - 1]);
    assert path[|path| - 1] in path;
    assert forall u :: u in path[..|path| - 1] ==> u in path;
  }

  /** The directory the walk is at has all its children found, or the walk does not go down from it. */
  ghost predicate Done(parent: seq<Option<nat>>, state: seq<DirState>, now: seq<DirState>, root: nat, path: seq<nat>)
    requires Table(parent, state, root)
  {
    && Marks(parent, state, now, root) && Path(parent, state, now, root, path) && now[path[|path| - 1]] == DFOUND
    && Served(parent, state, now, root, path)
    && (Open(parent, state, root, path[|path| - 1]) ==> AllFound(parent, now, root, path[|path| - 1]))
  }

  /** A directory met before has all its children found, or is not gone down from. */
  ghost predicate Again(parent: seq<Option<nat>>, state: seq<DirState>, now: seq<DirState>, root: nat, path: seq<nat>)
    requires |state| == |parent| == |now| && path != [] && path[|path| - 1] < |now|
  {
    now[path[|path| - 1]] == DFOUND && Open(parent, state, root, path[|path| - 1]) ==>
      AllFound(parent, now, root, path[|path| - 1])
  }

  /** The walk does not go down: then there is nothing left to find below. */
  lemma NotDown(parent: seq<Option<nat>>, state: seq<DirState>, now: seq<DirState>, root: nat, path: seq<nat>, head: Option<nat>)
    requires Table(parent, state, root) && Walking(parent, state, now, root, path) && Again(parent, state, now, root, path)
    requires LastChild(parent, root, path[|path| - 1], |parent|, head)
    requires head.Some? ==> now[path[|path| - 1] := DFOUND][head.value] != DSTATE
    ensures Done(parent, state, now[path[|path| - 1] := DFOUND], root, path)
  {
    MarkKeeps(parent, state, now, root, path);
    var cur := path[|path| - 1];
    if now[cur] != DFOUND {
      NotOpen(parent, state, now, root, path, head);
    } else {
      assert now[cur := DFOUND] == now;
    }
  }

  lemma NotOpen(parent: seq<Option<nat>>, state: seq<DirState>, now: seq<DirState>, root: nat, path: seq<nat>, head: Option<nat>)
    requires Table(parent, state, root) && Walking(parent, state, now, root, path)
    requires LastChild(parent, root, path[|path| - 1], |parent|, head) && now[path[|path| - 1]] != DFOUND
    requires head.Some? ==> now[path[|path| - 1] := DFOUND][head.value] != DSTATE
    ensures !Open(parent, state, root, path[|path| - 1])
  {
    var cur := path[|path| - 1];
    PathFound(parent, state, now, root, path);
    NoOwnChild(parent, state, root, cur, |path| - 1);
    match head
    case None =>
    case Some(h) => OneLast(parent, root, cur, |parent|, h);
  }

  /** On to the next child of the same parent. */
  lemma Aside(parent: seq<Option<nat>>, state: seq<DirState>, now: seq<DirState>, root: nat, path: seq<nat>, u: nat, s: nat)
    requires Table(parent, state, root) && Done(parent, state, now, root, path)
    requires |path| > 1 && u == path[|path| - 2] && LastChild(parent, root, u, path[|path| - 1], Some(s))
    ensures Walking(parent, state, now, root, path[..|path| - 1] + [s])
    ensures now[s] != DFOUND
  {
    var last := |path| - 1;
    var path' := path[..last] + [s];
    assert path'[..last] == path[..last] && path'[last - 1] == u && path'[last] == s;
    assert ElderFound(parent, now, root, u, path[last]) && ChildOf(parent, root, path[last], u);
    assert ElderFound(parent, now, root, u, s) && YoungerNew(parent, now, root, u, s);
    assert Path(parent, state, now, root, path');
    AsideServed(parent, state, now, root, path, path');
  }

  lemma AsideServed(parent: seq<Option<nat>>, state: seq<DirState>, now: seq<DirState>, root: nat, path: seq<nat>, path': seq<nat>)
    requires |state| == |parent| == |now| && path != [] && |path'| == |path| && path'[..|path| - 1] == path[..|path| - 1]
    requires Served(parent, state, now, root, path)
    ensures Served(parent, state, now, root, path')
  {
  }

  /** Back to the parent: all its children are found. */
  lemma Back(parent: seq<Option<nat>>, state: seq<DirState>, now: seq<DirState>, root: nat, path: seq<nat>, u: nat)
    requires Table(parent, state, root) && Done(parent, state, now, root, path)
    requires |path| > 1 && u == path[|path| - 2] && LastChild(parent, root, u, path[|path| - 1], None)
    ensures Walking(parent, state, now, root, path[..|path| - 1])
    ensures Again(parent, state, now, root, path[..|path| - 1])
  {
    var last := |path| - 1;
    assert AllFound(parent, now, root, u);
    forall v | v in path[..last]
      ensures v in path[..last][..last - 1] || v == u
    {
      assert path[..last] == path[..last][..last - 1] + [u];
    }
  }

  /** At the root again, with nothing to the side: exactly the directories to be found are found. */
  lemma Finished(parent: seq<Option<nat>>, state: seq<DirState>, now: seq<DirState>, root: nat, path: seq<nat>)
    requires Table(parent, state, root) && Done(parent, state, now, root, path) && |path| == 1
    ensures forall v: nat :: v < |parent| ==> now[v] == if Found(parent, state, root, v) then DFOUND else state[v]
  {
    forall v: nat | v < |parent|
      ensures now[v] == if Found(parent, state, root, v) then DFOUND else state[v]
    {
      if d: nat :| Reached(parent, state, root, v, d) {
        FoundMarked(parent, state, now, root, path, v, d);
      }
    }
  }

  lemma {:induction false} FoundMarked(parent: seq<Option<nat>>, state: seq<DirState>, now: seq<DirState>, root: nat, path: seq<nat>, v: nat, d: nat)
    requires Table(parent, state, root) && Done(parent, state, now, root, path) && |path| == 1
    requires Reached(parent, state, root, v, d)
    ensures now[v] == DFOUND
    decreases d
  {
    if v != root {
      var u := parent[v].value;
      FoundMarked(parent, state, now, root, path, u, d - 1);
      assert ChildOf(parent, root, v, u);
    }
  }

  // ---------------------------------------------------------------- the procedure

  lemma Start(parent: seq<Option<nat>>, state: seq<DirState>, root: nat)
    requires Table(parent, state, root)
    ensures Walking(parent, state, state, root, [root]) && Again(parent, state, state, root, [root])
  {
  }

  lemma {:induction false} UnmarkedAll(state: seq<DirState>)
    ensures Unmarked(state) <= |state|
  {
    if state != [] {
      UnmarkedAll(state[..|state| - 1]);
    }
  }

  /** The root has nobody to its side or above; everybody else on a path has a parent, the one before it. */
  lemma AtRoot(parent: seq<Option<nat>>, state: seq<DirState>, now: seq<DirState>, root: nat, path: seq<nat>,
               child: seq<Option<nat>>, sib: seq<Option<nat>>, up: seq<Option<nat>>)
    requires |state| == |parent| == |now| && Path(parent, state, now, root, path)
    requires Linked(parent, root, child, sib, up)
    ensures |path| == 1 ==> sib[path[0]].None? && up[path[0]].None?
    ensures |path| > 1 ==>
              var c, u := path[|path| - 1], path[|path| - 2];
              up[c] == Some(u) && LastChild(parent, root, u, c, sib[c])
  {
  }

  /** The directories before the i-th are linked. */
  ghost predicate LinkedTo(parent: seq<Option<nat>>, root: nat, child: seq<Option<nat>>, sib: seq<Option<nat>>, up: seq<Option<nat>>, i: nat) {
    && |child| == |sib| == |up| == |parent|
    && (forall u :: 0 <= u < |parent| ==> LastChild(parent, root, u, i, child[u]))
    && (forall v: nat, u: nat :: v < i && ChildOf(parent, root, v, u) ==> up[v] == Some(u) && LastChild(parent, root, u, v, sib[v]))
    && (forall v :: 0 <= v < |parent| && (v == root || parent[v].None? || v >= i) ==> up[v].None? && sib[v].None?)
  }

  lemma LinkedOneMore(parent: seq<Option<nat>>, root: nat, child: seq<Option<nat>>, sib: seq<Option<nat>>, up: seq<Option<nat>>, i: nat)
    requires LinkedTo(parent, root, child, sib, up, i) && i < |parent|
    ensures if parent[i].Some? && i != root && parent[i].value < |parent| then
              LinkedTo(parent, root, child[parent[i].value := Some(i)], sib[i := child[parent[i].value]], up[i := parent[i]], i + 1)
            else i == root || parent[i].None? ==> LinkedTo(parent, root, child, sib, up, i + 1)
  {
    assert forall u: nat :: ChildOf(parent, root, i, u) <==> i != root && parent[i] == Some(u);
  }

  class Directories {
    var state: seq<DirState>         // statemap
    const parent: seq<Option<nat>>   // i_parent, as a place in the table
    const root: nat
    var child: seq<Option<nat>>      // i_child: the head of the list of children
    var sib: seq<Option<nat>>        // i_sibling: the next child of the same parent
    var up: seq<Option<nat>>         // i_parentp

    /** The first loop: every directory with a parent is put at the head of its parent's list. */
    method LinkChildren()
      requires Table(parent, state, root)
      modifies this`child, this`sib, this`up
      ensures Linked(parent, root, child, sib, up)
    {
      var n := |parent|;
      child, sib, up := seq(n, _ => None), seq(n, _ => None), seq(n, _ => None);
      var i := 0;
      while i < n
        invariant 0 <= i <= n && LinkedTo(parent, root, child, sib, up, i)
      {
        LinkedOneMore(parent, root, child, sib, up, i);
        if parent[i].Some? && i != root {
          var p := parent[i].value;
          up := up[i := Some(p)];
          sib := sib[i := child[p]];
          child := child[p := Some(i)];
        }
        i := i + 1;
      }
    }

    /** propagate: exactly the directories whose chain of parents reaches the root become DFOUND; whatever cycles
        there are, it takes at most two rounds for each directory, and one. */
    method Propagate() returns (ghost rounds: nat)
      requires Table(parent, state, root)
      modifies this
      ensures |state| == |parent|
      ensures forall v: nat :: v < |parent| ==>
                state[v] == if Connected(parent, root, v) then DFOUND else old(state)[v]
      ensures rounds <= 2 * |parent| + 1
    {
      LinkChildren();
      ghost var was, path := state, [root];
      var inp := Some(root);
      rounds := 0;
      UnmarkedAll(state);
      Start(parent, state, root);
      while inp.Some?
        invariant |state| == |parent| && Linked(parent, root, child, sib, up)
        invariant inp.Some? ==> Arrived(parent, was, state, root, path, inp.value)
        invariant inp.Some? ==> rounds + 2 * Unmarked(state) + |path| + Phase(state, inp.value) <= 2 * |parent| + 1
        invariant inp.None? ==> rounds <= 2 * |parent| + 1
                                && forall v: nat :: v < |parent| ==> state[v] == if Found(parent, was, root, v) then DFOUND else was[v]
        decreases if inp.Some? then 2 * Unmarked(state) + |path| + Phase(state, inp.value) + 1 else 0
      {
        inp, path := Round(inp.value, was, path);
        rounds := rounds + 1;
      }
      forall v: nat | v < |parent|
        ensures Found(parent, was, root, v) <==> Connected(parent, root, v)
      {
        FoundIsConnected(parent, was, root, v);
      }
    }

    /** One round of the walk. */
    method Round(cur: nat, ghost was: seq<DirState>, ghost path: seq<nat>) returns (inp: Option<nat>, ghost path': seq<nat>)
      requires |state| == |parent| && Linked(parent, root, child, sib, up)
      requires Arrived(parent, was, state, root, path, cur)
      modifies this`state
      ensures |state| == |parent|
      ensures inp.Some? ==> Arrived(parent, was, state, root, path', inp.value)
      ensures inp.Some? ==> 2 * Unmarked(state) + |path'| + Phase(state, inp.value)
                            < old(2 * Unmarked(state) + |path| + Phase(state, cur))
      ensures inp.None? ==> forall v: nat :: v < |parent| ==> state[v] == if Found(parent, was, root, v) then DFOUND else was[v]
    {
      ghost var now := state;
      MarkKeeps(parent, was, now, root, path);
      if state[cur] != DFOUND {
        MarkOne(state, cur);
      } else {
        assert state[cur := DFOUND] == state;
      }
      state := state[cur := DFOUND];
      var head := child[cur];
      if head.Some? && state[head.value] == DSTATE {
        NewlyEntered(parent, was, now, root, path, head.value);
        Down(parent, was, state, root, path, head.value);
        return head, path + [head.value];
      }
      NotDown(parent, was, now, root, path, head);
      inp, path' := Leave(cur, was, path);
    }

    /** The second half of a round: to the side, or up, or the walk is over. */
    method Leave(cur: nat, ghost was: seq<DirState>, ghost path: seq<nat>) returns (inp: Option<nat>, ghost path': seq<nat>)
      requires |state| == |parent| && Linked(parent, root, child, sib, up) && Table(parent, was, root)
      requires Done(parent, was, state, root, path) && path[|path| - 1] == cur
      ensures inp.Some? ==> Arrived(parent, was, state, root, path', inp.value)
      ensures inp.Some? ==> |path'| + Phase(state, inp.value) <= |path|
      ensures inp.None? ==> forall v: nat :: v < |parent| ==> state[v] == if Found(parent, was, root, v) then DFOUND else was[v]
    {
      AtRoot(parent, was, state, root, path, child, sib, up);
      if sib[cur].Some? {
        ghost var u := path[|path| - 2];
        Aside(parent, was, state, root, path, u, sib[cur].value);
        return sib[cur], path[..|path| - 1] + [sib[cur].value];
      }
      if up[cur].None? {
        Finished(parent, was, state, root, path);
        return None, path;
      }
      Back(parent, was, state, root, path, up[cur].value);
      return up[cur], path[..|path| - 1];
    }
  }

  /** The walk arrives at directory v, the end of the path. */
  ghost predicate Arrived(parent: seq<Option<nat>>, was: seq<DirState>, now: seq<DirState>, root: nat, path: seq<nat>, v: nat) {
    && Table(parent, was, root) && Walking(parent, was, now, root, path) && path[|path| - 1] == v
    && Again(parent, was, now, root, path)
  }

  /** 1 when the walk comes back to a directory, 0 when it enters it. */
  function Phase(now: seq<DirState>, v: nat): nat
    requires v < |now|
  {
    if now[v] == DFOUND then 1 else 0
  }
}
