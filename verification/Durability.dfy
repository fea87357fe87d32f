/** A disk as a crash finds it: which changes to its names, and which contents, are sure to be there afterwards. */
module Durability {
  import opened Errors
  import opened Options

  type Path = string

  datatype Node = File(inode: nat) | Link(text: string) | Folder

  /** One change to a name: bound to a node, or to nothing. */
  datatype Change = Change(path: Path, node: Option<Node>)

  /** The names as they were, every change since, and the indices of the changes known to have reached the disk.
      `contents` is what a running program reads, `flushed` what of it has reached the disk. */
  datatype State = State(base: map<Path, Node>, log: seq<Change>, settled: set<nat>,
                         contents: map<nat, seq<char>>, flushed: map<nat, seq<char>>) {

    predicate Valid()
    {
      (forall k <- settled :: k < |log|) &&
      forall j <- flushed :: j in contents && flushed[j] == contents[j]
    }

    /** What `p` names when of the first `n` changes those in `keep` count. */
    function Found(p: Path, keep: set<nat>, n: nat): Option<Node>
      requires n <= |log|
    {
      if n == 0 then (if p in base then Some(base[p]) else None)
      else if n - 1 in keep && log[n - 1].path == p then log[n - 1].node
      else Found(p, keep, n - 1)
    }

    /** What `p` names now. */
    function Now(p: Path): Option<Node>
    {
      Latest(p, |log|)
    }

    function Latest(p: Path, n: nat): Option<Node>
      requires n <= |log|
    {
      if n == 0 then (if p in base then Some(base[p]) else None)
      else if log[n - 1].path == p then log[n - 1].node
      else Latest(p, n - 1)
    }

    /** A crash keeps what has reached the disk, and of the other changes any it likes. */
    ghost predicate MayKeep(keep: set<nat>)
    {
      settled <= keep && forall k <- keep :: k < |log|
    }

    /** What `p` names after a crash. */
    function After(p: Path, keep: set<nat>): Option<Node> { Found(p, keep, |log|) }

    /** Nothing that happened to `p` can be undone by a crash. */
    ghost predicate Settled(p: Path)
    {
      forall k :: 0 <= k < |log| && log[k].path == p ==> k in settled
    }

    function Bound(p: Path, node: Option<Node>): State { this.(log := log + [Change(p, node)]) }
  }

  lemma {:induction false} SettledStays(s: State, p: Path, keep: set<nat>, n: nat)
    requires n <= |s.log| && s.Settled(p) && s.settled <= keep
    ensures s.Found(p, keep, n) == s.Latest(p, n)
  {
    if n > 0 { SettledStays(s, p, keep, n - 1); }
  }

  lemma {:induction false} BoundLatest(s: State, p: Path, node: Option<Node>, q: Path, n: nat)
    requires n <= |s.log|
    ensures s.Bound(p, node).Latest(q, n) == s.Latest(q, n)
  {
    if n > 0 { BoundLatest(s, p, node, q, n - 1); }
  }

  lemma BoundNow(s: State, p: Path, node: Option<Node>, q: Path)
    ensures s.Bound(p, node).Now(q) == if q == p then node else s.Now(q)
  {
    BoundLatest(s, p, node, q, |s.log|);
  }

  lemma {:induction false} BoundFound(s: State, p: Path, node: Option<Node>, q: Path, keep: set<nat>, n: nat)
    requires n <= |s.log|
    ensures s.Bound(p, node).Found(q, keep, n) == s.Found(q, keep, n)
  {
    if n > 0 { BoundFound(s, p, node, q, keep, n - 1); }
  }

  /** The same names, whatever the contents and however much of it has reached the disk. */
  ghost predicate SameNames(s: State, t: State) { s.base == t.base && s.log == t.log }

  lemma {:induction false} SameLatest(s: State, t: State, p: Path, n: nat)
    requires SameNames(s, t) && n <= |s.log|
    ensures s.Latest(p, n) == t.Latest(p, n)
  {
    if n > 0 { SameLatest(s, t, p, n - 1); }
  }

  // ---- the calls ------------------------------------------------------------------------------

  /** The calls a move makes. Any of them may fail, and nothing is said of when a change reaches the disk but what
      `fsync` promises. `history` is every state a crash could have met. */
  class Disk {
    var state: State
    var clock: nat
    ghost var history: seq<State>
    ghost var refused: seq<Path>  // unlinks that failed
    const faults: nat -> Option<Errno>
    const sizes: nat -> nat       // how much of a read or a write goes through at once
    const folder: Path -> Path    // `os.path.dirname`

    constructor (state: State, faults: nat -> Option<Errno>, sizes: nat -> nat, folder: Path -> Path)
      ensures this.state == state && history == [] && refused == []
    {
      this.state, clock, history, refused := state, 0, [], [];
      this.faults, this.sizes, this.folder := faults, sizes, folder;
    }

    /** No call fails from that tick on. */
    ghost predicate Fair(from: nat) { forall n: nat :: n >= from ==> faults(n).None? }

    /** A call that may fail, and does nothing to the names or the contents. */
    method Try() returns (e: Option<Errno>)
      modifies this`clock
      ensures e == faults(old(clock)) && clock == old(clock) + 1
    {
      e := faults(clock);
      clock := clock + 1;
    }

    method Bind(p: Path, node: Option<Node>)
      modifies this`state, this`history
      ensures state == old(state).Bound(p, node) && history == old(history) + [state]
    {
      state := state.Bound(p, node);
      history := history + [state];
    }

    /** `os.link` */
    method Hardlink(src: Path, dst: Path) returns (e: Option<Errno>)
      modifies this`state, this`clock, this`history
      ensures e.Some? ==> state == old(state) && history == old(history)
      ensures e.None? ==> old(state).Now(src).Some? && old(state).Now(dst).None? &&
                          state == old(state).Bound(dst, old(state).Now(src)) && history == old(history) + [state]
      ensures e.None? ==> !old(state).Now(src).value.Folder?
      ensures clock == old(clock) + 1
      ensures e == if faults(old(clock)).Some? then faults(old(clock))
                   else if old(state).Now(src).None? then Some(ENOENT)
                   else if old(state).Now(dst).Some? then Some(EEXIST)
                   else if old(state).Now(src).value.Folder? then Some(EPERM)
                   else None
    {
      e := Try();
      if e.Some? { return; }
      var node := state.Now(src);
      if node.None? { return Some(ENOENT); }
      if state.Now(dst).Some? { return Some(EEXIST); }
      if node.value.Folder? { return Some(EPERM); }
      Bind(dst, node);
    }

    /** `os.symlink` */
    method Symlink(text: string, dst: Path) returns (e: Option<Errno>)
      modifies this`state, this`clock, this`history
      ensures e.Some? ==> state == old(state) && history == old(history)
      ensures e.None? ==> old(state).Now(dst).None? && state == old(state).Bound(dst, Some(Link(text))) &&
                          history == old(history) + [state]
      ensures clock == old(clock) + 1 && (faults(old(clock)).None? && old(state).Now(dst).None? ==> e.None?)
    {
      e := Try();
      if e.Some? { return; }
      if state.Now(dst).Some? { return Some(EEXIST); }
      Bind(dst, Some(Link(text)));
    }

    /** `os.unlink` */
    method Unlink(p: Path) returns (e: Option<Errno>)
      modifies this`state, this`clock, this`history, this`refused
      ensures e.Some? ==> state == old(state) && history == old(history) && refused == old(refused) + [p]
      ensures e.None? ==> state == old(state).Bound(p, None) && history == old(history) + [state] &&
                          refused == old(refused)
      ensures clock == old(clock) + 1
      ensures faults(old(clock)).None? && old(state).Now(p).Some? && !old(state).Now(p).value.Folder? ==> e.None?
    {
      e := Try();
      if e.None? {
        var node := state.Now(p);
        if node.None? {
          e := Some(ENOENT);
        } else if node.value.Folder? {
          e := Some(EISDIR);
        }
      }
      if e.Some? {
        refused := refused + [p];
        return;
      }
      Bind(p, None);
    }

    /** `os.open` with `O_CREAT | O_EXCL` */
    method CreateNew(p: Path) returns (e: Option<Errno>, inode: nat)
      modifies this`state, this`clock, this`history
      ensures e.Some? ==> state == old(state) && history == old(history)
      ensures e.None? ==> old(state).Now(p).None? && inode !in old(state).contents && inode !in old(state).flushed &&
                          state ==
                          old(state).Bound(p, Some(File(inode))).(contents := old(state).contents[inode := ""]) &&
                          history == old(history) + [state]
      ensures clock == old(clock) + 1 && (faults(old(clock)).None? && old(state).Now(p).None? ==> e.None?)
    {
      inode := 0;
      e := Try();
      if e.Some? { return; }
      if state.Now(p).Some? { return Some(EEXIST), 0; }
      inode := Unused(state.contents.Keys + state.flushed.Keys);
      state := state.Bound(p, Some(File(inode))).(contents := state.contents[inode := ""]);
      history := history + [state];
    }

    /** `open(p, "rb")` on a file. */
    method OpenRead(p: Path) returns (e: Option<Errno>, inode: nat)
      modifies this`clock
      ensures e.None? ==> state.Now(p) == Some(File(inode)) && inode in state.contents
      ensures clock == old(clock) + 1
      ensures state.Now(p).Some? && state.Now(p).value.File? && state.Now(p).value.inode in state.contents ==>
                faults(old(clock)).None? ==> e.None?
    {
      inode := 0;
      e := Try();
      if e.Some? { return; }
      var node := state.Now(p);
      if node.None? || !node.value.File? || node.value.inode !in state.contents { return Some(EIO), 0; }
      inode := node.value.inode;
    }

    /** Of `data` a part reaches the file, all of it if nothing fails. What is added is not on the disk yet. */
    method Append(inode: nat, data: seq<char>) returns (e: Option<Errno>)
      requires inode in state.contents
      modifies this`state, this`clock, this`history
      ensures history == old(history) + [state] && state.flushed == old(state).flushed - {inode}
      ensures e == faults(old(clock)) && clock == old(clock) + 1
      ensures exists n :: 0 <= n <= |data| && (e.None? ==> n == |data|) &&
                state == old(state).(contents := old(state).contents[inode := old(state).contents[inode] + data[..n]],
                                     flushed := old(state).flushed - {inode})
    {
      e := Try();
      var n := if e.None? then |data| else sizes(clock) % (|data| + 1);
      state := state.(contents := state.contents[inode := state.contents[inode] + data[..n]],
                      flushed := state.flushed - {inode});
      history := history + [state];
    }

    /** `os.fsync` of a file. */
    method SyncFile(inode: nat) returns (e: Option<Errno>)
      requires inode in state.contents
      modifies this`state, this`clock, this`history
      ensures e.Some? ==> state == old(state) && history == old(history)
      ensures e.None? ==>
                state == old(state).(flushed := old(state).flushed[inode := old(state).contents[inode]]) &&
                history == old(history) + [state]
      ensures e == faults(old(clock)) && clock == old(clock) + 1
    {
      e := Try();
      if e.Some? { return; }
      state := state.(flushed := state.flushed[inode := state.contents[inode]]);
      history := history + [state];
    }

    /** `os.fsync` of a folder: every change to a name in it is on the disk. */
    method SyncFolder(dir: Path) returns (e: Option<Errno>)
      modifies this`state, this`clock, this`history
      ensures e.Some? ==> state == old(state) && history == old(history)
      ensures e.None? ==>
                state == old(state).(settled := state.settled) && history == old(history) + [state] &&
                forall k :: k in state.settled <==>
                              k in old(state).settled || (0 <= k < |state.log| && folder(state.log[k].path) == dir)
      ensures e == faults(old(clock)) && clock == old(clock) + 1
    {
      e := Try();
      if e.Some? { return; }
      state := state.(settled := state.settled +
                                 set k | 0 <= k < |state.log| && folder(state.log[k].path) == dir :: k as nat);
      history := history + [state];
    }
  }

  /** A number not yet in use. */
  function Unused(used: set<nat>): (n: nat)
    ensures n !in used
  {
    UnusedFrom(used, 0)
  }

  function UnusedFrom(used: set<nat>, n: nat): (m: nat)
    ensures m !in used
    decreases |set u <- used | u >= n|
  {
    if n !in used then n
    else
      assert (set u <- used | u >= n) == (set u <- used | u >= n + 1) + {n};
      UnusedFrom(used, n + 1)
  }
}
