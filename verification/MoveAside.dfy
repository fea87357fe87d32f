/** `move_aside` and `_copy_into_claimed`: put a file aside under a name no one has, so that no crash loses it. */
module MoveAside {
  import opened Errors
  import opened Options
  import opened Durability

  /** `_LINK_UNSUPPORTED` of the firmware adapter. */
  predicate LinkUnsupported(e: Errno) { e in {EXDEV, EPERM, EOPNOTSUPP, EMLINK} }

  // ---- what a crash may cost --------------------------------------------------------------------

  /** What is moved: a file's content, or where a link points. */
  datatype What = Data(bytes: seq<char>) | Pointer(text: string)

  /** The node is all of it, on disk. */
  ghost predicate Holds(s: State, node: Option<Node>, what: What)
  {
    match what
    case Data(bytes) => node.Some? && node.value.File? && node.value.inode in s.flushed &&
                        s.flushed[node.value.inode] == bytes
    case Pointer(text) => node == Some(Link(text))
  }

  /** After a crash that kept `keep`, one of the two names has it whole. */
  ghost predicate Survives(s: State, keep: set<nat>, src: Path, dst: Path, what: What)
  {
    Holds(s, s.After(src, keep), what) || Holds(s, s.After(dst, keep), what)
  }

  ghost predicate CrashSafe(s: State, src: Path, dst: Path, what: What)
  {
    forall keep :: s.MayKeep(keep) ==> Survives(s, keep, src, dst, what)
  }

  ghost predicate AllSafe(seen: seq<State>, from: nat, src: Path, dst: Path, what: What)
  {
    from <= |seen| && forall k :: from <= k < |seen| ==> CrashSafe(seen[k], src, dst, what)
  }

  /** `p` has it whole, and no crash changes that. */
  ghost predicate Stands(s: State, p: Path, what: What)
  {
    s.Valid() && s.Settled(p) && Holds(s, s.Now(p), what)
  }

  lemma StandingIsSafe(s: State, p: Path, src: Path, dst: Path, what: What)
    requires Stands(s, p, what) && (p == src || p == dst)
    ensures CrashSafe(s, src, dst, what)
  {
    forall keep | s.MayKeep(keep) ensures Survives(s, keep, src, dst, what) {
      SettledStays(s, p, keep, |s.log|);
    }
  }

  /** Every name but `p` is as it was. */
  ghost predicate OnlyAt(before: State, after: State, p: Path)
  {
    forall q :: q != p ==> after.Now(q) == before.Now(q)
  }

  // ---- the copy -----------------------------------------------------------------------------------

  /** `dst` was claimed for the new file `inode`; apart from that file nothing was written. */
  ghost predicate Claimed(before: State, s: State, dst: Path, inode: nat)
  {
    s.Valid() && SameNames(s, before.Bound(dst, Some(File(inode)))) && before.settled <= s.settled &&
    inode !in before.contents && inode !in before.flushed && s.contents.Keys == before.contents.Keys + {inode} &&
    (forall i <- before.contents :: s.contents[i] == before.contents[i]) &&
    forall i <- before.flushed :: i in s.flushed && s.flushed[i] == before.flushed[i]
  }

  lemma ClaimedNow(before: State, s: State, dst: Path, inode: nat, p: Path)
    requires Claimed(before, s, dst, inode)
    ensures s.Now(p) == if p == dst then Some(File(inode)) else before.Now(p)
  {
    BoundNow(before, dst, Some(File(inode)), p);
    SameLatest(s, before.Bound(dst, Some(File(inode))), p, |s.log|);
  }

  /** While the copy is made, the original stands. */
  lemma ClaimedIsSafe(before: State, s: State, src: Path, dst: Path, inode: nat, what: What)
    requires Stands(before, src, what) && src != dst && Claimed(before, s, dst, inode)
    ensures Stands(s, src, what) && CrashSafe(s, src, dst, what)
  {
    ClaimedNow(before, s, dst, inode, src);
    assert s.Settled(src) by {
      forall k | 0 <= k < |s.log| && s.log[k].path == src ensures k in s.settled {
        assert k < |before.log| && s.log[k] == before.log[k];
      }
    }
    StandingIsSafe(s, src, src, dst, what);
  }

  /** The state of a run that has claimed `dst`, and what a crash could have met since `from`. */
  ghost predicate Copying(disk: Disk, before: State, src: Path, dst: Path, inode: nat, from: nat, what: What,
                          sure: bool)
    reads disk
  {
    Claimed(before, disk.state, dst, inode) &&
    (sure ==> Stands(before, src, what) && src != dst && AllSafe(disk.history, from, src, dst, what))
  }

  /** One write to the file under way, through a buffer: some of what is waiting goes out, the rest waits on. */
  method Write(disk: Disk, inode: nat, waiting: seq<char>, all: bool, ghost before: State, src: Path, dst: Path,
               ghost from: nat, ghost what: What, ghost sure: bool)
    returns (e: Option<Errno>, rest: seq<char>)
    requires Copying(disk, before, src, dst, inode, from, what, sure)
    modifies disk`state, disk`clock, disk`history
    ensures Copying(disk, before, src, dst, inode, from, what, sure)
    ensures e.None? ==> disk.state.contents[inode] + rest == old(disk.state.contents[inode]) + waiting
    ensures e.None? && all ==> rest == ""
    ensures disk.clock >= old(disk.clock) && (disk.Fair(old(disk.clock)) ==> e.None?)
  {
    var n := if all then |waiting| else disk.sizes(disk.clock) % (|waiting| + 1);
    rest := waiting[n..];
    ghost var written := disk.state.contents[inode];
    e := disk.Append(inode, waiting[..n]);
    if sure { ClaimedIsSafe(before, disk.state, src, dst, inode, what); }
    if e.None? {
      assert waiting[..n][..n] == waiting[..n];
      assert written + waiting[..n] + rest == written + waiting;
    }
  }

  /** `shutil.copyfileobj`, the flush and the `fsync`, with `out` and `source` open; and `out` closed behind it. */
  method CopyContent(disk: Disk, src: Path, dst: Path, inode: nat, ghost before: State, ghost from: nat,
                     ghost what: What, ghost sure: bool)
    returns (e: Option<Errno>)
    requires Copying(disk, before, src, dst, inode, from, what, sure) && disk.state.contents[inode] == ""
    modifies disk`state, disk`clock, disk`history
    ensures Copying(disk, before, src, dst, inode, from, what, sure)
    ensures e.None? && sure ==> Holds(disk.state, Some(File(inode)), what)
    ensures disk.clock >= old(disk.clock) && (sure && what.Data? && disk.Fair(old(disk.clock)) ==> e.None?)
  {
    if sure { SourceReadable(before, disk.state, src, dst, inode, what); }
    var source;
    e, source := disk.OpenRead(src);
    if e.Some? { return; }
    var buffer := "";
    e, buffer := Pump(disk, src, dst, inode, source, before, from, what, sure);
    if e.None? { e, buffer := Flush(disk, src, dst, inode, buffer, before, from, what, sure); }
    if buffer != "" {
      var _, _ := Write(disk, inode, buffer, true, before, src, dst, from, what, sure);
    }
    if e.None? { e := disk.Try(); }
  }

  /** `out.flush()` and the `fsync` behind it. */
  method Flush(disk: Disk, src: Path, dst: Path, inode: nat, buffer: seq<char>, ghost before: State, ghost from: nat,
               ghost what: What, ghost sure: bool)
    returns (e: Option<Errno>, rest: seq<char>)
    requires Copying(disk, before, src, dst, inode, from, what, sure)
    requires sure ==> what == Data(disk.state.contents[inode] + buffer)
    modifies disk`state, disk`clock, disk`history
    ensures Copying(disk, before, src, dst, inode, from, what, sure)
    ensures e.None? ==> rest == ""
    ensures e.None? && sure ==> Holds(disk.state, Some(File(inode)), what)
    ensures disk.clock >= old(disk.clock) && (disk.Fair(old(disk.clock)) ==> e.None?)
  {
    e, rest := Write(disk, inode, buffer, true, before, src, dst, from, what, sure);
    if e.Some? { return; }
    e := disk.SyncFile(inode);
    if sure { ClaimedIsSafe(before, disk.state, src, dst, inode, what); }
  }

  lemma SourceReadable(before: State, s: State, src: Path, dst: Path, inode: nat, what: What)
    requires Stands(before, src, what) && src != dst && Claimed(before, s, dst, inode)
    ensures what.Data? ==> s.Now(src).Some? && s.Now(src).value.File? && s.Now(src).value.inode in s.contents
  {
    ClaimedNow(before, s, dst, inode, src);
  }

  lemma SourceHolds(before: State, s: State, src: Path, dst: Path, inode: nat, source: nat, what: What)
    requires Stands(before, src, what) && src != dst && Claimed(before, s, dst, inode)
    requires s.Now(src) == Some(File(source)) && source in s.contents
    ensures what == Data(s.contents[source])
  {
    ClaimedNow(before, s, dst, inode, src);
  }

  /** The copying loop: read a piece, write a piece, until the source has no more. */
  method Pump(disk: Disk, src: Path, dst: Path, inode: nat, source: nat, ghost before: State, ghost from: nat,
              ghost what: What, ghost sure: bool)
    returns (e: Option<Errno>, buffer: seq<char>)
    requires Copying(disk, before, src, dst, inode, from, what, sure) && disk.state.contents[inode] == ""
    requires disk.state.Now(src) == Some(File(source)) && source in disk.state.contents
    modifies disk`state, disk`clock, disk`history
    ensures Copying(disk, before, src, dst, inode, from, what, sure)
    ensures e.None? && sure ==> what == Data(disk.state.contents[inode] + buffer)
    ensures disk.clock >= old(disk.clock) && (disk.Fair(old(disk.clock)) ==> e.None?)
  {
    ghost var data := disk.state.contents[source];
    if sure { SourceHolds(before, disk.state, src, dst, inode, source, what); }
    e, buffer := None, "";
    var at := 0;
    while at < |disk.state.contents[source]|
      invariant Copying(disk, before, src, dst, inode, from, what, sure) && e.None?
      invariant source in disk.state.contents && disk.state.contents[source] == data && at <= |data|
      invariant disk.state.contents[inode] + buffer == data[..at] && disk.clock >= old(disk.clock)
      decreases |data| - at
    {
      e, buffer, at := PumpOnce(disk, src, dst, inode, source, at, buffer, before, from, what, sure);
      if e.Some? { return; }
    }
  }

  method PumpOnce(disk: Disk, src: Path, dst: Path, inode: nat, source: nat, at: nat, buffer: seq<char>,
                  ghost before: State, ghost from: nat, ghost what: What, ghost sure: bool)
    returns (e: Option<Errno>, rest: seq<char>, next: nat)
    requires Copying(disk, before, src, dst, inode, from, what, sure)
    requires source in before.contents && at < |disk.state.contents[source]|
    requires disk.state.contents[inode] + buffer == disk.state.contents[source][..at]
    modifies disk`state, disk`clock, disk`history
    ensures Copying(disk, before, src, dst, inode, from, what, sure)
    ensures disk.state.contents[source] == old(disk.state.contents[source])
    ensures e.None? ==> at < next <= |disk.state.contents[source]| &&
                        disk.state.contents[inode] + rest == disk.state.contents[source][..next]
    ensures disk.clock >= old(disk.clock) && (disk.Fair(old(disk.clock)) ==> e.None?)
  {
    e := disk.Try();
    if e.Some? { return e, buffer, at; }
    ghost var data := disk.state.contents[source];
    var n := 1 + disk.sizes(disk.clock) % (|disk.state.contents[source]| - at);
    var piece := disk.state.contents[source][at..at + n];
    assert data[..at] + piece == data[..at + n];
    ghost var written := disk.state.contents[inode];
    assert written + (buffer + piece) == (written + buffer) + piece;
    e, rest := Write(disk, inode, buffer + piece, false, before, src, dst, from, what, sure);
    next := at + n;
  }

  lemma SyncedStands(before: State, s: State, t: State, dst: Path, inode: nat, what: What)
    requires Claimed(before, s, dst, inode) && Holds(s, Some(File(inode)), what)
    requires t == s.(settled := t.settled) && s.settled <= t.settled && t.Settled(dst)
    requires forall k <- t.settled :: k < |t.log|
    ensures Claimed(before, t, dst, inode) && Stands(t, dst, what)
  {
    ClaimedNow(before, t, dst, inode, dst);
  }

  /** Everything between the claim and its success: the content, its `stat`, and the folder on disk. */
  method FillClaimed(disk: Disk, src: Path, dst: Path, inode: nat, ghost before: State, ghost from: nat,
                     ghost what: What, ghost sure: bool)
    returns (e: Option<Errno>)
    requires Copying(disk, before, src, dst, inode, from, what, sure) && disk.state.contents[inode] == ""
    modifies disk`state, disk`clock, disk`history
    ensures Copying(disk, before, src, dst, inode, from, what, sure)
    ensures e.None? && sure ==> Stands(disk.state, dst, what)
    ensures disk.clock >= old(disk.clock) && (sure && what.Data? && disk.Fair(old(disk.clock)) ==> e.None?)
  {
    e := CopyContent(disk, src, dst, inode, before, from, what, sure);
    if e.Some? { return; }
    e := disk.Try();
    if e.Some? { return; }
    e := disk.Try();
    if e.Some? { return; }
    ghost var s := disk.state;
    e := disk.SyncFolder(disk.folder(dst));
    if sure { ClaimedIsSafe(before, disk.state, src, dst, inode, what); }
    if sure && e.None? { SyncedStands(before, s, disk.state, dst, inode, what); }
    var closing := disk.Try();
    if closing.Some? { e := closing; }
  }

  lemma BoundStands(s: State, p: Path, node: Option<Node>, q: Path, what: What)
    requires Stands(s, q, what) && p != q
    ensures Stands(s.Bound(p, node), q, what)
  {
    BoundNow(s, p, node, q);
  }

  lemma JustClaimed(before: State, s: State, dst: Path, inode: nat)
    requires before.Valid() && inode !in before.contents && inode !in before.flushed
    requires s == before.Bound(dst, Some(File(inode))).(contents := before.contents[inode := ""])
    ensures Claimed(before, s, dst, inode)
  {
  }

  /** `_copy_into_claimed` */
  method CopyIntoClaimed(disk: Disk, src: Path, dst: Path, ghost what: What, ghost sure: bool)
    returns (e: Option<Errno>)
    requires disk.state.Valid() && (sure ==> Stands(disk.state, src, what))
    modifies disk`state, disk`clock, disk`history, disk`refused
    ensures disk.state.Valid() && OnlyAt(old(disk.state), disk.state, dst)
    ensures sure ==> AllSafe(disk.history, old(|disk.history|), src, dst, what) && Stands(disk.state, src, what)
    ensures old(disk.state).Now(dst).Some? ==>
              e.Some? && disk.state == old(disk.state) && disk.history == old(disk.history)
    ensures e.None? ==> disk.state.Now(dst).Some? && disk.refused == old(disk.refused)
    ensures e.None? && sure ==> Stands(disk.state, dst, what) && src != dst
    ensures sure && what.Data? && src != dst && old(disk.state).Now(dst).None? && disk.Fair(old(disk.clock)) ==> e.None?
    ensures disk.clock >= old(disk.clock)
    ensures e.Some? ==>
              (disk.refused == old(disk.refused) && disk.state.Now(dst) == old(disk.state).Now(dst)) ||
              (disk.refused == old(disk.refused) + [dst] && disk.state.Now(dst).Some?)
  {
    ghost var before, from := disk.state, |disk.history|;
    var inode;
    e, inode := disk.CreateNew(dst);
    if e.Some? { return; }
    JustClaimed(before, disk.state, dst, inode);
    if sure { ClaimedIsSafe(before, disk.state, src, dst, inode, what); }
    e := FillClaimed(disk, src, dst, inode, before, from, what, sure);
    ghost var s := disk.state;
    AllClaimedNow(before, s, dst, inode);
    if sure { ClaimedIsSafe(before, s, src, dst, inode, what); }
    if e.Some? {
      var _ := disk.Unlink(dst);
      AllBoundNow(s, dst, None);
      if sure && disk.state != s {
        BoundStands(s, dst, None, src, what);
        StandingIsSafe(disk.state, src, src, dst, what);
      }
    }
  }

  lemma AllClaimedNow(before: State, s: State, dst: Path, inode: nat)
    requires Claimed(before, s, dst, inode)
    ensures OnlyAt(before, s, dst) && s.Now(dst) == Some(File(inode))
  {
    forall p { ClaimedNow(before, s, dst, inode, p); }
  }

  lemma AllBoundNow(s: State, dst: Path, node: Option<Node>)
    ensures OnlyAt(s, s.Bound(dst, node), dst) && s.Bound(dst, node).Now(dst) == node
  {
    forall p { BoundNow(s, dst, node, p); }
  }

  // ---- the whole move --------------------------------------------------------------------------------

  /** Linked to the new name, then taken from the old. */
  function Relinked(s: State, src: Path, dst: Path): State
  {
    s.Bound(dst, s.Now(src)).Bound(src, None)
  }

  /** Only a copy will do: no second name can be given on this volume, as the call at that tick says. */
  predicate MustCopy(s: State, src: Path, refusal: Option<Errno>)
  {
    !(s.Now(src).Some? && s.Now(src).value.Link?) && refusal.Some? && LinkUnsupported(refusal.value)
  }

  /** The link call at that tick is refused because links are not to be had there, and nothing fails behind it. */
  ghost predicate LinkFailsAlone(disk: Disk, at: nat)
  {
    disk.faults(at).Some? && disk.faults(at).value in {EXDEV, EPERM, EOPNOTSUPP, EMLINK} && disk.Fair(at + 1)
  }

  /** `dst` claimed by a second name for what `src` names, or by a copy of it. */
  method ClaimAside(disk: Disk, src: Path, dst: Path, ghost what: What, ghost sure: bool)
    returns (e: Option<Errno>, ghost copied: bool)
    requires disk.state.Valid() && (sure ==> Stands(disk.state, src, what))
    modifies disk`state, disk`clock, disk`history, disk`refused
    ensures disk.state.Valid() && OnlyAt(old(disk.state), disk.state, dst)
    ensures sure ==> AllSafe(disk.history, old(|disk.history|), src, dst, what) && Stands(disk.state, src, what)
    ensures old(disk.state).Now(dst).Some? ==>
              e.Some? && disk.state == old(disk.state) && disk.history == old(disk.history)
    ensures e.None? ==> disk.state.Now(dst).Some? && disk.refused == old(disk.refused)
    ensures e.None? && sure ==> Holds(disk.state, disk.state.Now(dst), what) && src != dst
    ensures e.None? && sure ==> (copied <==> MustCopy(old(disk.state), src, disk.faults(old(disk.clock))))
    ensures sure && src != dst && old(disk.state).Now(dst).None? && disk.Fair(old(disk.clock)) ==> e.None?
    ensures sure && what.Data? && src != dst && old(disk.state).Now(dst).None? ==>
              LinkFailsAlone(disk, old(disk.clock)) ==> e.None? && copied
    ensures disk.clock > old(disk.clock)
    ensures e.None? && sure && copied ==> Stands(disk.state, dst, what)
    ensures e.None? && !copied ==> disk.state == old(disk.state).Bound(dst, old(disk.state).Now(src))
    ensures e.Some? ==>
              (disk.refused == old(disk.refused) && disk.state.Now(dst) == old(disk.state).Now(dst)) ||
              (disk.refused == old(disk.refused) + [dst] && disk.state.Now(dst).Some?)
  {
    ghost var before := disk.state;
    copied := false;
    var node := disk.state.Now(src);
    if node.Some? && node.value.Link? {
      e := disk.Try();
      if e.Some? { return; }
      e := disk.Symlink(node.value.text, dst);
    } else {
      e := disk.Hardlink(src, dst);
      if e.Some? && LinkUnsupported(e.value) {
        copied := true;
        e := CopyIntoClaimed(disk, src, dst, what, sure);
        return;
      }
    }
    if e.None? {
      AllBoundNow(before, dst, before.Now(src));
      if sure {
        BoundStands(before, dst, before.Now(src), src, what);
        StandingIsSafe(disk.state, src, src, dst, what);
      }
    }
  }

  /** `move_aside`. `what` stands at `src` to begin with, on disk, if the caller is `sure` of it. */
  method MoveFileAside(disk: Disk, src: Path, dst: Path, ghost what: What, ghost sure: bool)
    returns (e: Option<Errno>, ghost copied: bool)
    requires disk.state.Valid() && (sure ==> Stands(disk.state, src, what))
    modifies disk`state, disk`clock, disk`history, disk`refused
    // an existing dst is never replaced
    ensures old(disk.state).Now(dst).Some? ==> e.Some? && disk.state == old(disk.state)
    // no other name is touched
    ensures forall p :: p != src && p != dst ==> disk.state.Now(p) == old(disk.state).Now(p)
    // success: the whole of it is at dst, and nothing at src
    ensures e.None? ==> disk.state.Now(src).None? && disk.refused == old(disk.refused)
    ensures e.None? && sure ==> Holds(disk.state, disk.state.Now(dst), what)
    // and it succeeds where a file or a link stands at src, dst is free and no call fails, or only the link call of a
    // file, because links are not to be had there: then the file is copied
    ensures sure && src != dst && old(disk.state).Now(dst).None? && disk.Fair(old(disk.clock)) ==> e.None?
    ensures sure && what.Data? && src != dst && old(disk.state).Now(dst).None? ==>
              disk.faults(old(disk.clock)).None? && LinkFailsAlone(disk, old(disk.clock) + 1) ==> e.None? && copied
    // failure: nothing has changed, or an unlink was refused, and dst is still claimed
    ensures e.Some? ==>
              (disk.refused == old(disk.refused) && disk.state.Now(dst) == old(disk.state).Now(dst)) ||
              (disk.refused == old(disk.refused) + [dst] && disk.state.Now(dst).Some?) ||
              (disk.refused == old(disk.refused) + [src] && (sure ==> Holds(disk.state, disk.state.Now(dst), what)))
    ensures e.Some? && src != dst ==> disk.state.Now(src) == old(disk.state).Now(src)
    ensures e.Some? && sure ==> Stands(disk.state, src, what)
    // a crash anywhere leaves it whole at one of the names, unless it was linked and then unlinked
    ensures sure && (copied || e.Some?) ==> AllSafe(disk.history, old(|disk.history|), src, dst, what)
    // and then exactly that last point is not safe
    ensures sure && !copied && e.None? ==>
              disk.state == Relinked(old(disk.state), src, dst) && |disk.history| > old(|disk.history|) &&
              disk.history[|disk.history| - 1] == disk.state &&
              AllSafe(disk.history[..|disk.history| - 1], old(|disk.history|), src, dst, what) &&
              !CrashSafe(disk.state, src, dst, what)
    // which of the two it is depends on what stands at src, and on what the first link call says
    ensures sure && e.None? ==> (copied <==> MustCopy(old(disk.state), src, disk.faults(old(disk.clock) + 1)))
    ensures sure && e.None? ==> (AllSafe(disk.history, old(|disk.history|), src, dst, what) <==>
                                 MustCopy(old(disk.state), src, disk.faults(old(disk.clock) + 1)))
  {
    copied := false;
    e := disk.Try();
    if e.Some? { return; }
    ghost var before := disk.state;
    e, copied := ClaimAside(disk, src, dst, what, sure);
    if e.Some? { return; }
    ghost var s, seen := disk.state, disk.history;
    e := disk.Unlink(src);
    if e.Some? { return; }
    AllBoundNow(s, src, None);
    if sure {
      assert disk.history[..|disk.history| - 1] == seen;
      if !copied {
        var keep := MayBeLost(before, src, dst, what);
      } else {
        BoundStands(s, src, None, dst, what);
        StandingIsSafe(disk.state, dst, src, dst, what);
      }
    }
  }

  // ---- what a crash costs where no copy was made -----------------------------------------------------------

  lemma RelinkedAfter(s: State, src: Path, dst: Path, keep: set<nat>, p: Path)
    requires src != dst
    ensures var n := |s.log|;
            Relinked(s, src, dst).After(p, keep) ==
            if p == src && n + 1 in keep then None
            else if p == dst && n in keep then s.Now(src)
            else s.Found(p, keep, n)
  {
    var linked := s.Bound(dst, s.Now(src));
    BoundFound(linked, src, None, p, keep, |linked.log|);
    BoundFound(s, dst, s.Now(src), p, keep, |s.log|);
  }

  /** After link-then-unlink a crash leaves the file whole exactly when it does not keep the unlink without the link,
      or `dst` was a whole copy of it already. The adapter flushes nothing on this path, so nothing but the order in
      which the disk writes the two changes stands between a crash and the loss. */
  lemma RelinkedSurvives(s: State, src: Path, dst: Path, what: What, keep: set<nat>)
    requires Stands(s, src, what) && src != dst && Relinked(s, src, dst).MayKeep(keep)
    ensures Survives(Relinked(s, src, dst), keep, src, dst, what) <==>
            (|s.log| + 1 in keep ==> |s.log| in keep) || Holds(s, s.Found(dst, keep, |s.log|), what)
  {
    RelinkedAfter(s, src, dst, keep, src);
    RelinkedAfter(s, src, dst, keep, dst);
    SettledStays(s, src, keep, |s.log|);
  }

  /** On a disk that keeps changes in order, linked and unlinked is as safe as copied. */
  lemma InOrderIsSafe(s: State, src: Path, dst: Path, what: What, keep: set<nat>, n: nat)
    requires Stands(s, src, what) && src != dst && Relinked(s, src, dst).MayKeep(keep)
    requires forall k: nat :: k in keep <==> k < n
    ensures Survives(Relinked(s, src, dst), keep, src, dst, what)
  {
    RelinkedSurvives(s, src, dst, what, keep);
  }

  /** On any other disk there is a crash that loses the file: it keeps every change but the link. */
  lemma MayBeLost(s: State, src: Path, dst: Path, what: What) returns (keep: set<nat>)
    requires Stands(s, src, what) && src != dst && s.Now(dst).None?
    ensures Relinked(s, src, dst).MayKeep(keep) && !Survives(Relinked(s, src, dst), keep, src, dst, what)
    ensures !CrashSafe(Relinked(s, src, dst), src, dst, what)
  {
    var n := |s.log|;
    keep := Below(n) + {n + 1};
    RelinkedSurvives(s, src, dst, what, keep);
    AllKept(s, dst, keep, n);
  }

  function Below(n: nat): (s: set<nat>)
    ensures forall k: nat :: k in s <==> k < n
  {
    if n == 0 then {} else Below(n - 1) + {n - 1}
  }

  /** A crash that keeps every change so far leaves what there is now. */
  lemma {:induction false} AllKept(s: State, p: Path, keep: set<nat>, n: nat)
    requires n <= |s.log| && forall k :: 0 <= k < n ==> k in keep
    ensures s.Found(p, keep, n) == s.Latest(p, n)
  {
    if n > 0 { AllKept(s, p, keep, n - 1); }
  }
}
