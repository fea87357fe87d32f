/** The calls the descriptor walks make, on a disk that changes under them. Each call may fail, and the
    environment gets a turn wherever a walk takes one. */
module Kernel {
  import opened Options
  import opened Inodes

  datatype Result<+T> = Ok(value: T) | Raised {
    predicate IsFailure() { Raised? }

    function PropagateFailure<U>(): Result<U>
      requires Raised?
    {
      Raised
    }

    function Extract(): T
      requires Ok?
    {
      value
    }
  }

  /** What `os.stat` of a name reports; the mount is known for a descriptor only. */
  datatype Stat = Stat(device: nat, inode: nat, mode: nat, size: nat, mtime: int, ctime: int)

  function StatOf(k: Key, n: Node): Stat
  {
    Stat(k.device, k.inode, n.mode, n.size, n.mtime, n.ctime)
  }

  /** `identity_for_stat` */
  function IdentityForStat(st: Stat, mount: int): Identity
  {
    Identity(true, mount, st.device, st.inode, st.mode, st.size, st.mtime, st.ctime)
  }

  predicate NamesDirectory(nodes: Nodes, d: Key, name: Name)
  {
    Names(nodes, d, name) && IsDirectory(NodeAt(nodes, d, name).mode)
  }

  predicate NamesFile(nodes: Nodes, d: Key, name: Name)
  {
    Names(nodes, d, name) && !IsDirectory(NodeAt(nodes, d, name).mode)
  }

  predicate NamesEmptyDirectory(nodes: Nodes, d: Key, name: Name)
  {
    NamesDirectory(nodes, d, name) && NodeAt(nodes, d, name).kids == map[]
  }

  /** A name `d` is free to give. */
  predicate Vacant(nodes: Nodes, d: Key, name: Name)
  {
    Slot(nodes, d, name).None? && d in nodes && IsDirectory(nodes[d].mode)
  }

  /** There is something to move, room for it, and neither directory is what is moved. */
  predicate CanMove(nodes: Nodes, d: Key, name: Name, toDir: Key, to: Name)
  {
    Names(nodes, d, name) && Vacant(nodes, toDir, to) && Slot(nodes, d, name).value !in {d, toDir}
  }

  /** One change the run itself made, as it was made. `under` is the claimed path of the directory being consumed, `at`
      the tick of the call, and `left` what a directory still held when it was removed. */
  datatype Act =
    | Moved(fromDir: Key, from: Name, toDir: Key, to: Name, moved: Key, at: nat)
    | Unlinked(dir: Key, name: Name, under: string, identity: Identity, digest: string, at: nat)
    | RemovedDirectory(dir: Key, name: Name, under: string, removed: Key, left: map<Name, Key>)

  /** A `stat` of a name, and its tick. */
  datatype Ask = Ask(dir: Key, name: Name, at: nat)

  /** The environment never rebinds either name. */
  ghost predicate Aloof(drift: (nat, Nodes) -> Option<Nodes>, home: (Key, Name), away: (Key, Name))
  {
    forall n: nat, nodes: Nodes :: drift(n, nodes).Some? ==>
                                     var left := drift(n, nodes).value;
                                     Slot(left, home.0, home.1) == Slot(nodes, home.0, home.1) &&
                                     Slot(left, away.0, away.1) == Slot(nodes, away.0, away.1)
  }

  class World {
    var nodes: Nodes
    var clock: nat
    var held: nat  // directory descriptors held
    ghost var acts: seq<Act>
    ghost var unlinks: nat  // how many of the acts are unlinks
    ghost var asked: Option<Ask>  // the last name asked about
    ghost var home: (Key, Name)  // the source's own name
    ghost var away: (Key, Name)  // where the run moves it to
    ghost var meddled: bool  // the environment rebound one of these two since the run last looked

    const limit: nat  // how many directory descriptors the process may hold
    const faults: nat -> bool  // which calls fail
    const drift: (nat, Nodes) -> Option<Nodes>  // what the environment makes of the disk when it acts
    const stamp: nat -> int  // the timestamps the kernel writes
    const sha256: seq<bv8> -> string

    constructor (nodes: Nodes, limit: nat, faults: nat -> bool, drift: (nat, Nodes) -> Option<Nodes>,
                 stamp: nat -> int, sha256: seq<bv8> -> string)
      ensures this.nodes == nodes && clock == 0 && held == 0 && acts == [] && unlinks == 0 && !meddled
      ensures this.limit == limit && this.faults == faults && this.drift == drift
    {
      this.nodes, clock, held := nodes, 0, 0;
      acts, unlinks, asked, meddled := [], 0, None, false;
      home, away := (Key(0, 0), "a"), (Key(0, 0), "a");
      this.limit, this.faults, this.drift, this.stamp, this.sha256 := limit, faults, drift, stamp, sha256;
    }

    /** The two names a run moves between; what the environment does to them from here on counts. */
    ghost method Watch(home: (Key, Name), away: (Key, Name))
      modifies `home, `away, `meddled
      ensures this.home == home && this.away == away && !meddled
    {
      this.home, this.away, meddled := home, away, false;
    }

    /** The environment never acts. */
    ghost predicate Still() { forall n: nat, nodes: Nodes :: Rests(n, nodes) }

    predicate Rests(n: nat, nodes: Nodes) { drift(n, nodes).None? }

    /** Nor does any call fail. */
    ghost predicate Calm() { Still() && forall n: nat :: !faults(n) }

    ghost function AtHome(): Option<Key>
      reads this
    {
      Slot(nodes, home.0, home.1)
    }

    ghost function Away(): Option<Key>
      reads this
    {
      Slot(nodes, away.0, away.1)
    }

    /** No call fails in the `n` ticks from `tick` on. */
    ghost predicate FairFrom(tick: nat, n: nat) { forall k: nat :: tick <= k < tick + n ==> !faults(k) }

    /** Between the two states only the environment acted. */
    twostate predicate OnlyDrifted()
      reads this
    {
      acts == old(acts) && unlinks == old(unlinks) && home == old(home) && away == old(away) &&
      (Still() ==> nodes == old(nodes) && meddled == old(meddled)) &&
      (Aloof(drift, home, away) ==> meddled == old(meddled)) &&
      (!meddled ==> !old(meddled) && AtHome() == old(AtHome()) && Away() == old(Away()))
    }

    /** Between the two states the run removed names, and the environment may have acted. */
    twostate predicate OnlyShrank()
      reads this
    {
      old(acts) <= acts && home == old(home) && away == old(away) &&
      (Still() || Aloof(drift, home, away) ==> meddled == old(meddled)) &&
      (!meddled ==> !old(meddled) && (AtHome().None? || AtHome() == old(AtHome())))
    }

    /** The environment's turn. */
    method Drift()
      modifies `nodes, `clock, `meddled
      ensures OnlyDrifted() && clock == old(clock) + 1
    {
      var left := drift(clock, nodes);
      assert Still() ==> Rests(clock, nodes);
      clock := clock + 1;
      if left.Some? {
        ghost var before := (AtHome(), Away());
        nodes := left.value;
        meddled := meddled || (AtHome(), Away()) != before;
      }
    }

    method Fails() returns (failed: bool)
      modifies `clock
      ensures failed == faults(old(clock)) && clock == old(clock) + 1 && (Calm() ==> !failed)
    {
      failed := faults(clock);
      clock := clock + 1;
    }

    /** `_stat_name`: no-follow, `None` for an unbound name. */
    method StatName(d: Key, name: Name) returns (r: Result<Option<Stat>>)
      modifies `clock, `asked
      ensures asked == Some(Ask(d, name, old(clock))) && clock == old(clock) + 1
      ensures r.Raised? <==> faults(old(clock))
      ensures Calm() ==> r.Ok?
      ensures r.Ok? ==>
                r.value == if !Names(nodes, d, name) then None
                           else Some(StatOf(Slot(nodes, d, name).value, NodeAt(nodes, d, name)))
    {
      asked := Some(Ask(d, name, clock));
      var failed := Fails();
      if failed { return Raised; }
      return Ok(if Names(nodes, d, name) then Some(StatOf(Slot(nodes, d, name).value, NodeAt(nodes, d, name)))
                else None);
    }

    /** `_open_child_directory`: a descriptor, while the process may hold another. */
    method OpenDirectory(d: Key, name: Name) returns (r: Result<Key>)
      modifies `clock, `held
      ensures r.Ok? ==> held == old(held) + 1 <= limit && Slot(nodes, d, name) == Some(r.value) &&
                        r.value in nodes && IsDirectory(nodes[r.value].mode)
      ensures r.Raised? ==> held == old(held)
      ensures faults(old(clock)) ==> r.Raised?
      ensures Calm() && old(held) < limit && NamesDirectory(nodes, d, name) ==> r.Ok?
    {
      var failed := Fails();
      var slot := Slot(nodes, d, name);
      if failed || held >= limit || !NamesDirectory(nodes, d, name) {
        return Raised;
      }
      held := held + 1;
      return Ok(slot.value);
    }

    method CloseDirectory()
      requires held > 0
      modifies `held
      ensures held == old(held) - 1
    {
      held := held - 1;
    }

    /** `_open_child_regular`: anything but a link opens. */
    method OpenRegular(d: Key, name: Name) returns (r: Result<Key>)
      modifies `clock
      ensures clock == old(clock) + 1
      ensures r.Ok? ==> Slot(nodes, d, name) == Some(r.value) && r.value in nodes && !faults(old(clock))
      ensures !faults(old(clock)) && Names(nodes, d, name) && !IsLink(NodeAt(nodes, d, name).mode) ==> r.Ok?
    {
      var failed := Fails();
      var slot := Slot(nodes, d, name);
      if failed || !Names(nodes, d, name) || IsLink(NodeAt(nodes, d, name).mode) {
        return Raised;
      }
      return Ok(slot.value);
    }

    /** `_leased_regular`: open, then exclude every writer; a file held by one is refused. */
    method LeaseRegular(d: Key, name: Name) returns (r: Result<Key>)
      modifies `clock
      ensures r.Ok? ==> Slot(nodes, d, name) == Some(r.value) && r.value in nodes
      ensures r.Ok? ==> clock == old(clock) + 2 && FairFrom(old(clock), 2)
      ensures FairFrom(old(clock), 2) && Names(nodes, d, name) && !IsLink(NodeAt(nodes, d, name).mode) ==> r.Ok?
    {
      r := OpenRegular(d, name);
      if r.Ok? {
        var refused := Fails();
        if refused { r := Raised; }
      }
    }

    method Release() returns (r: Result<()>)
      modifies `clock
      ensures clock == old(clock) + 1 && (r.Raised? <==> faults(old(clock)))
    {
      var failed := Fails();
      r := if failed then Raised else Ok(());
    }

    /** `_identity_for_fd` */
    method Fstat(fd: Key) returns (r: Result<Identity>)
      modifies `clock
      ensures clock == old(clock) + 1
      ensures r.Ok? ==> fd in nodes && r.value == IdentityOf(fd, nodes[fd])
      ensures !faults(old(clock)) && fd in nodes ==> r.Ok?
    {
      var failed := Fails();
      if failed || fd !in nodes { return Raised; }
      return Ok(IdentityOf(fd, nodes[fd]));
    }

    /** `_mount_id` */
    method MountOf(fd: Key) returns (r: Result<int>)
      modifies `clock
      ensures clock == old(clock) + 1
      ensures r.Ok? ==> fd in nodes && r.value == nodes[fd].mount
      ensures !faults(old(clock)) && fd in nodes ==> r.Ok?
    {
      var failed := Fails();
      if failed || fd !in nodes { return Raised; }
      return Ok(nodes[fd].mount);
    }

    /** `_sha256_fd` */
    method Hash(fd: Key) returns (r: Result<string>)
      modifies `clock
      ensures clock == old(clock) + 1
      ensures r.Ok? ==> fd in nodes && r.value == sha256(nodes[fd].bytes)
      ensures !faults(old(clock)) && fd in nodes ==> r.Ok?
    {
      var failed := Fails();
      if failed || fd !in nodes { return Raised; }
      return Ok(sha256(nodes[fd].bytes));
    }

    /** `set(os.listdir(fd))` */
    method List(d: Key) returns (r: Result<set<Name>>)
      modifies `clock
      ensures r.Ok? ==> r.value == Kids(nodes, d).Keys && d in nodes && IsDirectory(nodes[d].mode)
      ensures Calm() && d in nodes && IsDirectory(nodes[d].mode) ==> r.Ok?
    {
      var failed := Fails();
      if failed || d !in nodes || !IsDirectory(nodes[d].mode) { return Raised; }
      return Ok(nodes[d].kids.Keys);
    }

    method Fsync() returns (r: Result<()>)
      modifies `clock
      ensures clock == old(clock) + 1 && (r.Raised? <==> faults(old(clock)))
    {
      var failed := Fails();
      r := if failed then Raised else Ok(());
    }

    /** `os.unlink(name, dir_fd=d)` */
    method Unlink(d: Key, name: Name, ghost under: string) returns (r: Result<()>)
      modifies `nodes, `clock, `acts, `unlinks
      ensures clock == old(clock) + 1
      ensures r.Raised? ==> nodes == old(nodes) && acts == old(acts) && unlinks == old(unlinks)
      ensures r.Ok? ==> unlinks == old(unlinks) + 1
      ensures r.Ok? ==>
                old(NamesFile(nodes, d, name)) &&
                var k := old(Slot(nodes, d, name).value);
                acts == old(acts) + [Unlinked(d, name, under, IdentityOf(k, old(nodes[k])), sha256(old(nodes[k].bytes)),
                                              old(clock))] &&
                exists t :: nodes == WithoutFile(old(nodes), d, name, k, t)
      ensures !faults(old(clock)) && old(NamesFile(nodes, d, name)) ==> r.Ok?
    {
      var failed := Fails();
      var slot := Slot(nodes, d, name);
      if failed || !NamesFile(nodes, d, name) {
        return Raised;
      }
      var k := slot.value;
      acts := acts + [Unlinked(d, name, under, IdentityOf(k, nodes[k]), sha256(nodes[k].bytes), clock - 1)];
      unlinks := unlinks + 1;
      nodes := WithoutFile(nodes, d, name, k, stamp(clock));
      return Ok(());
    }

    /** `os.rmdir(name, dir_fd=d)`: an empty directory only. */
    method Rmdir(d: Key, name: Name, ghost under: string) returns (r: Result<()>)
      modifies `nodes, `clock, `acts
      ensures r.Raised? ==> nodes == old(nodes) && acts == old(acts)
      ensures r.Ok? ==>
                old(NamesEmptyDirectory(nodes, d, name)) &&
                var k := old(Slot(nodes, d, name).value);
                acts == old(acts) + [RemovedDirectory(d, name, under, k, map[])] &&
                exists t :: nodes == Unbound(old(nodes), d, name, t)
      ensures Calm() && old(NamesEmptyDirectory(nodes, d, name)) ==> r.Ok?
    {
      var failed := Fails();
      var slot := Slot(nodes, d, name);
      if failed || !NamesEmptyDirectory(nodes, d, name) {
        return Raised;
      }
      acts := acts + [RemovedDirectory(d, name, under, slot.value, nodes[slot.value].kids)];
      nodes := Unbound(nodes, d, name, stamp(clock));
      return Ok(());
    }

    /** `rename_noreplace_at`: refused where the destination is bound or is what is moved, in one step otherwise. */
    method RenameNoReplace(d: Key, name: Name, toDir: Key, to: Name) returns (r: Result<()>)
      modifies `nodes, `clock, `acts
      ensures clock == old(clock) + 1
      ensures r.Raised? ==> nodes == old(nodes) && acts == old(acts)
      ensures r.Ok? ==>
                old(Names(nodes, d, name) && Vacant(nodes, toDir, to)) &&
                var k := old(Slot(nodes, d, name).value);
                k !in {d, toDir} && acts == old(acts) + [Moved(d, name, toDir, to, k, old(clock))] &&
                exists t :: nodes == Rebound(old(nodes), d, name, toDir, to, k, t)
      ensures r.Ok? <==> !faults(old(clock)) && old(CanMove(nodes, d, name, toDir, to))
    {
      var failed := Fails();
      var slot := Slot(nodes, d, name);
      if failed || !CanMove(nodes, d, name, toDir, to) {
        return Raised;
      }
      acts := acts + [Moved(d, name, toDir, to, slot.value, clock - 1)];
      nodes := Rebound(nodes, d, name, toDir, to, slot.value, stamp(clock));
      return Ok(());
    }
  }

  // ---- what the three mutating calls leave behind --------------------------------

  /** Taking a name away stamps the directory, and so does giving one. */
  function Unbound(nodes: Nodes, d: Key, name: Name, t: int): Nodes
    requires Slot(nodes, d, name).Some?
  {
    nodes[d := nodes[d].(kids := nodes[d].kids - {name}, mtime := t, ctime := t)]
  }

  function Stamped(nodes: Nodes, k: Key, t: int): Nodes
    requires k in nodes
  {
    nodes[k := nodes[k].(ctime := t)]
  }

  /** The unlinked inode's change time moves too: it lost a name. */
  function WithoutFile(nodes: Nodes, d: Key, name: Name, k: Key, t: int): Nodes
    requires Slot(nodes, d, name) == Some(k) && k in nodes
  {
    Stamped(Unbound(nodes, d, name, t), k, t)
  }

  /** A rename moves the inode's change time and stamps both directories. */
  function Rebound(nodes: Nodes, d: Key, name: Name, toDir: Key, to: Name, k: Key, t: int): Nodes
    requires Slot(nodes, d, name) == Some(k) && k in nodes
    requires Vacant(nodes, toDir, to)
  {
    var away := Unbound(nodes, d, name, t);
    Stamped(away[toDir := away[toDir].(kids := away[toDir].kids[to := k], mtime := t, ctime := t)], k, t)
  }

  lemma UnboundSlots(nodes: Nodes, d: Key, name: Name, t: int, e: Key, other: Name)
    requires Slot(nodes, d, name).Some?
    ensures Slot(Unbound(nodes, d, name, t), e, other) ==
            if (e, other) == (d, name) then None else Slot(nodes, e, other)
  {
  }

  lemma StampedSlots(nodes: Nodes, k: Key, t: int, e: Key, other: Name)
    requires k in nodes
    ensures Slot(Stamped(nodes, k, t), e, other) == Slot(nodes, e, other)
  {
  }

  lemma ReboundSlots(nodes: Nodes, d: Key, name: Name, toDir: Key, to: Name, k: Key, t: int, e: Key, other: Name)
    requires Slot(nodes, d, name) == Some(k) && k in nodes
    requires Vacant(nodes, toDir, to)
    ensures Slot(Rebound(nodes, d, name, toDir, to, k, t), e, other) ==
            if (e, other) == (toDir, to) then Some(k)
            else if (e, other) == (d, name) then None
            else Slot(nodes, e, other)
  {
  }
}
