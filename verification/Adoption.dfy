/** The adoption move: carry a set of files to new names, by link-then-unlink or by rename-with-rollback. */
module Adoption {
  import opened Errors
  import opened Options
  import opened Text

  type Path = string

  /** `_LINK_UNSUPPORTED` */
  predicate LinkUnsupported(e: Errno) { e in {EXDEV, EPERM, EOPNOTSUPP, EMLINK, EISDIR} }

  function At(names: map<Path, nat>, p: Path): Option<nat>
  {
    if p in names then Some(names[p]) else None
  }

  /** A call on the names, as it was refused. */
  datatype Call =
    | Linking(source: Path, target: Path, errno: Errno)
    | Unlinking(path: Path)
    | Renaming(source: Path, target: Path)

  function Unlinkings(paths: seq<Path>): (calls: seq<Call>)
    ensures |calls| == |paths| && forall i :: 0 <= i < |paths| ==> calls[i] == Unlinking(paths[i])
  {
    seq(|paths|, i requires 0 <= i < |paths| => Unlinking(paths[i]))
  }

  /** The names the move is about, and what each is bound to. Any call may fail, as `faults` says. */
  class Disk {
    var names: map<Path, nat>
    var folders: set<Path>
    var clock: nat
    ghost var refused: seq<Call>  // the links, unlinks and renames that failed
    const faults: nat -> Option<Errno>
    const directory: nat -> bool  // whether an inode is a directory

    constructor (names: map<Path, nat>, faults: nat -> Option<Errno>, directory: nat -> bool)
      ensures this.names == names && this.faults == faults && this.directory == directory && refused == []
    {
      this.names, folders, clock, refused := names, {}, 0, [];
      this.faults, this.directory := faults, directory;
    }

    /** No call fails from that tick on. */
    ghost predicate Obliging(from: nat) { forall n: nat :: n >= from ==> faults(n).None? }

    /** Of the calls from that tick on one fails, the one at `at`. */
    ghost predicate FailsOnlyAt(from: nat, at: nat)
    {
      from <= at && faults(at).Some? && forall n: nat :: n >= from && n != at ==> faults(n).None?
    }

    /** Of the calls from that tick on one fails, among the `n` from `first` on, and as a link fails where links are not
        to be had: across devices, or on a file system or for a file that admits none. */
    ghost predicate OneLinkFails(from: nat, first: nat, n: nat)
    {
      exists at: nat :: first <= at < first + n && FailsOnlyAt(from, at) &&
                        faults(at).value in {EXDEV, EPERM, EOPNOTSUPP, EMLINK, EISDIR}
    }

    /** `os.path.lexists` */
    predicate Exists(p: Path)
      reads this
    {
      p in names
    }

    /** `os.path.isdir(p) and not os.path.islink(p)` */
    predicate IsDirectory(p: Path)
      reads this
    {
      p in names && directory(names[p])
    }

    ghost predicate NoDirectories(pairs: seq<Pair>)
      reads this
    {
      forall i :: 0 <= i < |pairs| ==> !IsDirectory(pairs[i].source)
    }

    method Fault() returns (e: Option<Errno>)
      modifies `clock
      ensures e == faults(old(clock)) && clock == old(clock) + 1
    {
      e := faults(clock);
      clock := clock + 1;
    }

    method MakeDirs(p: Path) returns (e: Option<Errno>)
      modifies `folders, `clock
      ensures folders == if e.None? then old(folders) + {p} else old(folders)
      ensures e == faults(old(clock)) && clock == old(clock) + 1
    {
      e := Fault();
      if e.None? { folders := folders + {p}; }
    }

    /** `os.link`: a second name for a file, never over anything. */
    method Link(source: Path, target: Path) returns (e: Option<Errno>)
      modifies `names, `clock, `refused
      ensures clock == old(clock) + 1
      ensures e.Some? ==> names == old(names) && refused == old(refused) + [Linking(source, target, e.value)]
      ensures e.None? ==> source in old(names) && target !in old(names) && !directory(old(names)[source]) &&
                          refused == old(refused) && names == old(names)[target := old(names)[source]]
      ensures e == if faults(old(clock)).Some? then faults(old(clock))
                   else if source !in old(names) then Some(ENOENT)
                   else if directory(old(names)[source]) then Some(EPERM)
                   else if target in old(names) then Some(EEXIST)
                   else None
    {
      e := Fault();
      if e.None? {
        if source !in names {
          e := Some(ENOENT);
        } else if directory(names[source]) {
          e := Some(EPERM);
        } else if target in names {
          e := Some(EEXIST);
        }
      }
      if e.Some? {
        refused := refused + [Linking(source, target, e.value)];
        return;
      }
      names := names[target := names[source]];
    }

    method Unlink(p: Path) returns (e: Option<Errno>)
      modifies `names, `clock, `refused
      ensures e.Some? ==> names == old(names) && refused == old(refused) + [Unlinking(p)]
      ensures e.None? ==> p in old(names) && names == old(names) - {p} && refused == old(refused)
      ensures clock == old(clock) + 1
      ensures faults(old(clock)).None? && p in old(names) && !directory(old(names)[p]) ==> e.None?
    {
      e := Fault();
      if e.None? {
        if p !in names {
          e := Some(ENOENT);
        } else if directory(names[p]) {
          e := Some(EISDIR);
        }
      }
      if e.Some? {
        refused := refused + [Unlinking(p)];
        return;
      }
      names := names - {p};
    }

    /** `os.rename`: replaces what it lands on, and does nothing where both names are one file's. */
    method Rename(source: Path, target: Path) returns (e: Option<Errno>)
      modifies `names, `clock, `refused
      ensures e.Some? ==> names == old(names) && refused == old(refused) + [Renaming(source, target)]
      ensures e.None? ==> source in old(names) && refused == old(refused) &&
                          names == if At(old(names), target) == Some(old(names)[source]) then old(names)
                                   else (old(names) - {source})[target := old(names)[source]]
      ensures clock == old(clock) + 1
      ensures faults(old(clock)).None? && source in old(names) && target !in old(names) ==> e.None?
    {
      e := Fault();
      if e.None? {
        if source !in names {
          e := Some(ENOENT);
        } else if target in names && directory(names[target]) != directory(names[source]) {
          e := Some(EISDIR);
        }
      }
      if e.Some? {
        refused := refused + [Renaming(source, target)];
        return;
      }
      if At(names, target) != Some(names[source]) {
        names := (names - {source})[target := names[source]];
      }
    }
  }

  // ---- outcomes ----------------------------------------------------------------------

  datatype Pair = Pair(source: Path, target: Path)

  datatype Failure = Occupied(target: Path) | CouldNotMove(source: Path)

  /** What the source's `error` text reports; `Nothing` is the empty string. */
  datatype Trouble =
    | Nothing
    | NoParent(parent: Path)
    | CouldNotPrepare(source: Path, left: seq<Path>)
    | OldCopiesRemain(sources: seq<Path>)
    | CouldNotRename(failure: Failure, left: seq<Path>)
    | CouldNotPutBack(failure: Failure, stuck: seq<Path>, left: seq<Path>)

  /** The links the report says were left behind. */
  function Left(t: Trouble): seq<Path>
  {
    match t
    case CouldNotPrepare(_, left) => left
    case CouldNotRename(_, left) => left
    case CouldNotPutBack(_, _, left) => left
    case _ => []
  }

  datatype Outcome = Outcome(moved: seq<Path>, stranded: seq<Path>, unmoved: seq<Path>, error: Trouble)

  function Sources(pairs: seq<Pair>): (s: seq<Path>)
    ensures |s| == |pairs| && forall i :: 0 <= i < |s| ==> s[i] == pairs[i].source
  {
    seq(|pairs|, i requires 0 <= i < |pairs| => pairs[i].source)
  }

  function Targets(pairs: seq<Pair>): (t: seq<Path>)
    ensures |t| == |pairs| && forall i :: 0 <= i < |t| ==> t[i] == pairs[i].target
  {
    seq(|pairs|, i requires 0 <= i < |pairs| => pairs[i].target)
  }

  /** A set of moves that do not meet: what the caller plans. */
  ghost predicate Separate(pairs: seq<Pair>)
  {
    (forall i, j :: 0 <= i < j < |pairs| ==>
                      pairs[i].source != pairs[j].source && pairs[i].target != pairs[j].target) &&
    forall i, j :: 0 <= i < |pairs| && 0 <= j < |pairs| ==> pairs[i].source != pairs[j].target
  }

  // ---- where a pair can end ---------------------------------------------------------------

  ghost predicate Kept(before: map<Path, nat>, after: map<Path, nat>, p: Pair)
  {
    At(after, p.source) == At(before, p.source) && At(after, p.target) == At(before, p.target)
  }

  /** The file stands at its target and nowhere else. */
  ghost predicate Carried(before: map<Path, nat>, after: map<Path, nat>, p: Pair)
  {
    At(before, p.source).Some? && At(before, p.target).None? &&
    At(after, p.source).None? && At(after, p.target) == At(before, p.source)
  }

  /** The file stands at both names. */
  ghost predicate Doubled(before: map<Path, nat>, after: map<Path, nat>, p: Pair)
  {
    At(before, p.source).Some? && At(before, p.target).None? &&
    At(after, p.source) == At(before, p.source) && At(after, p.target) == At(before, p.source)
  }

  /** A name no pair mentions. */
  ghost predicate Foreign(pairs: seq<Pair>, p: Path)
  {
    forall q <- pairs :: p != q.source && p != q.target
  }

  /** No name outside the pairs changed. */
  ghost predicate OthersKept(before: map<Path, nat>, after: map<Path, nat>, pairs: seq<Pair>)
  {
    forall p :: Foreign(pairs, p) ==> At(after, p) == At(before, p)
  }

  /** What changed is at the names of `p` alone. */
  ghost predicate OnlyAt(before: map<Path, nat>, after: map<Path, nat>, p: Pair)
  {
    forall x :: x != p.source && x != p.target ==> At(after, x) == At(before, x)
  }

  lemma OthersKeptNext(before: map<Path, nat>, mid: map<Path, nat>, after: map<Path, nat>, pairs: seq<Pair>, p: Pair)
    requires OthersKept(before, mid, pairs) && OnlyAt(mid, after, p) && p in pairs
    ensures OthersKept(before, after, pairs)
  {
    forall x | Foreign(pairs, x) ensures At(after, x) == At(before, x) {
      assert x != p.source && x != p.target;
    }
  }

  lemma Apart(pairs: seq<Pair>, i: nat, j: nat)
    requires Separate(pairs) && i < |pairs| && j < |pairs| && i != j
    ensures pairs[j].source !in {pairs[i].source, pairs[i].target}
    ensures pairs[j].target !in {pairs[i].source, pairs[i].target}
  {
  }

  /** The report tells of every pair once, and what it tells is so. */
  ghost predicate Truthful(before: map<Path, nat>, after: map<Path, nat>, pairs: seq<Pair>, o: Outcome)
  {
    Distinct(o.moved) && Distinct(o.stranded) && Distinct(o.unmoved) && Distinct(Left(o.error)) &&
    (forall t <- o.moved :: t in Targets(pairs)) && (forall s <- o.stranded + o.unmoved :: s in Sources(pairs)) &&
    (forall t <- Left(o.error) :: t in Targets(pairs)) &&
    forall i :: 0 <= i < |pairs| ==> Told(before, after, pairs[i], o)
  }

  ghost predicate Told(before: map<Path, nat>, after: map<Path, nat>, p: Pair, o: Outcome)
  {
    if p.target in o.moved then
      p.source !in o.stranded && p.source !in o.unmoved && p.target !in Left(o.error) && Carried(before, after, p)
    else if p.source in o.stranded then
      p.source !in o.unmoved && p.target !in Left(o.error) && Doubled(before, after, p)
    else
      p.source in o.unmoved &&
      if p.target in Left(o.error) then Doubled(before, after, p) else Kept(before, after, p)
  }

  // ---- what could not be undone ----------------------------------------------------------------

  /** The call was refused since the log was `before`. */
  ghost predicate Refused(before: seq<Call>, after: seq<Call>, call: Call)
  {
    exists k :: |before| <= k < |after| && after[k] == call
  }

  lemma RefusedOn(before: seq<Call>, mid: seq<Call>, after: seq<Call>, call: Call)
    requires before <= mid <= after && (Refused(before, mid, call) || Refused(mid, after, call))
    ensures Refused(before, after, call)
  {
    if Refused(before, mid, call) {
      var k :| |before| <= k < |mid| && mid[k] == call;
      assert after[k] == call;
    }
  }

  /** Of everything the report says is not as it began, the call that would have undone it was refused: a pair that
      is stuck at its target, a link that is left, an original that is stranded. */
  ghost predicate Excused(before: seq<Call>, after: seq<Call>, pairs: seq<Pair>, o: Outcome)
  {
    before <= after && (o.moved != [] ==> o.error.Nothing? || o.error.OldCopiesRemain? || o.error.CouldNotPutBack?) &&
    (o.error.OldCopiesRemain? ==> o.stranded != [] && o.error.sources == o.stranded) &&
    (o.error.CouldNotPutBack? ==> o.error.stuck == o.moved) &&
    forall p <- pairs ::
      (o.error.CouldNotPutBack? && p.target in o.moved ==> Refused(before, after, Renaming(p.target, p.source))) &&
      (p.target in Left(o.error) ==> Refused(before, after, Unlinking(p.target))) &&
      (p.source in o.stranded ==> Refused(before, after, Unlinking(p.source)))
  }

  /** None of the calls was refused that take an original away, or undo a step. */
  ghost predicate NoneRefused(before: seq<Call>, after: seq<Call>, pairs: seq<Pair>)
  {
    forall p <- pairs :: !Refused(before, after, Unlinking(p.source)) && !Refused(before, after, Unlinking(p.target)) &&
                         !Refused(before, after, Renaming(p.target, p.source))
  }

  // ---- the two strategies -------------------------------------------------------------------

  /** `_drop_links`: last made, first removed; what is returned would not go. */
  method DropLinks(disk: Disk, staged: seq<Path>) returns (left: seq<Path>)
    requires Distinct(staged)
    modifies disk`names, disk`clock, disk`refused
    ensures Distinct(left) && forall t <- left :: t in staged
    ensures forall p :: At(disk.names, p) == if p in staged && p !in left then None else At(old(disk.names), p)
    ensures disk.refused == old(disk.refused) + Unlinkings(left)
    ensures disk.clock >= old(disk.clock)
    ensures disk.Obliging(old(disk.clock)) && old(AreFiles(disk, staged)) ==> left == []
  {
    left := [];
    for k := |staged| downto 0
      invariant Distinct(left) && forall t <- left :: t in staged[k..]
      invariant forall p :: At(disk.names, p) == if p in staged[k..] && p !in left then None else At(old(disk.names), p)
      invariant disk.refused == old(disk.refused) + Unlinkings(left)
      invariant disk.clock >= old(disk.clock)
      invariant disk.Obliging(old(disk.clock)) && old(AreFiles(disk, staged)) ==> left == []
    {
      var target := staged[k];
      assert staged[k..] == [target] + staged[k + 1..];
      assert target !in staged[k + 1..];
      AppendDistinct(left, target);
      assert At(disk.names, target) == At(old(disk.names), target);
      var e := disk.Unlink(target);
      if e.Some? { left := left + [target]; }
    }
  }

  ghost predicate AreFiles(disk: Disk, paths: seq<Path>)
    reads disk
  {
    forall p <- paths :: p in disk.names && !disk.IsDirectory(p)
  }

  /** None of the calls refused since the log was `before` was a link. */
  ghost predicate NoLinks(before: seq<Call>, after: seq<Call>)
  {
    before <= after && forall k :: |before| <= k < |after| ==> !after[k].Linking?
  }

  /** `_rename_one`: probe, then rename; `None` on success. */
  method RenameOne(disk: Disk, p: Pair) returns (failure: Option<Failure>)
    modifies disk`names, disk`clock, disk`refused
    ensures failure.Some? ==> disk.names == old(disk.names)
    ensures failure.None? ==> p.source in old(disk.names) && p.target !in old(disk.names) &&
                              Carried(old(disk.names), disk.names, p) && disk.refused == old(disk.refused)
    ensures NoLinks(old(disk.refused), disk.refused)
    ensures OnlyAt(old(disk.names), disk.names, p)
    ensures disk.clock >= old(disk.clock)
    ensures disk.Obliging(old(disk.clock)) && p.source in old(disk.names) && p.target !in old(disk.names) ==>
              failure.None?
  {
    if disk.Exists(p.target) { return Some(Occupied(p.target)); }
    var e := disk.Rename(p.source, p.target);
    return if e.Some? then Some(CouldNotMove(p.source)) else None;
  }

  /** `_roll_back`: last moved, first put back; what is returned would not go. */
  method RollBack(disk: Disk, done: seq<Pair>) returns (stuck: seq<Pair>)
    requires Separate(done)
    requires forall i :: 0 <= i < |done| ==> done[i].source !in disk.names && done[i].target in disk.names
    modifies disk`names, disk`clock, disk`refused
    ensures forall p <- stuck :: p in done
    ensures Distinct(Targets(stuck))
    ensures forall i :: 0 <= i < |done| ==> PutBack(old(disk.names), disk.names, done[i], stuck)
    ensures OthersKept(old(disk.names), disk.names, done)
    ensures disk.refused == old(disk.refused) + Renamings(stuck)
    ensures disk.clock >= old(disk.clock) && (disk.Obliging(old(disk.clock)) ==> stuck == [])
  {
    stuck := [];
    ghost var before := disk.names;
    for k := |done| downto 0
      invariant forall p <- stuck :: p in done[k..]
      invariant Distinct(Targets(stuck))
      invariant forall i :: k <= i < |done| ==> PutBack(before, disk.names, done[i], stuck)
      invariant forall i :: 0 <= i < k ==> Kept(before, disk.names, done[i])
      invariant OthersKept(before, disk.names, done)
      invariant disk.refused == old(disk.refused) + Renamings(stuck)
      invariant disk.clock >= old(disk.clock) && (disk.Obliging(old(disk.clock)) ==> stuck == [])
    {
      ghost var mid, already := disk.names, stuck;
      assert Kept(before, mid, done[k]);
      StuckGrows(done, k, already);
      stuck := PutOneBack(disk, done[k], stuck);
      OthersKeptNext(before, mid, disk.names, done, done[k]);
      PutBackNext(before, mid, disk.names, done, k, already, stuck);
    }
  }

  lemma PutBackNext(before: map<Path, nat>, mid: map<Path, nat>, after: map<Path, nat>, done: seq<Pair>, k: nat,
                    already: seq<Pair>, stuck: seq<Pair>)
    requires Separate(done) && k < |done| && OnlyAt(mid, after, done[k]) && PutBack(mid, after, done[k], stuck)
    requires done[k] !in already && (stuck == already || stuck == already + [done[k]])
    requires forall i :: k < i < |done| ==> PutBack(before, mid, done[i], already)
    requires forall i :: 0 <= i <= k ==> Kept(before, mid, done[i])
    ensures forall i :: k <= i < |done| ==> PutBack(before, after, done[i], stuck)
    ensures forall i :: 0 <= i < k ==> Kept(before, after, done[i])
  {
    forall i | k < i < |done| ensures PutBack(before, after, done[i], stuck) {
      assert PutBack(before, mid, done[i], already);
      Apart(done, k, i);
    }
    forall i | 0 <= i < k ensures Kept(before, after, done[i]) {
      Apart(done, k, i);
    }
  }

  /** The renames that would have put the pairs back. */
  function Renamings(pairs: seq<Pair>): (calls: seq<Call>)
    ensures |calls| == |pairs|
    ensures forall i :: 0 <= i < |pairs| ==> calls[i] == Renaming(pairs[i].target, pairs[i].source)
  {
    seq(|pairs|, i requires 0 <= i < |pairs| => Renaming(pairs[i].target, pairs[i].source))
  }

  method PutOneBack(disk: Disk, p: Pair, stuck: seq<Pair>) returns (now: seq<Pair>)
    requires p.source !in disk.names && p.target in disk.names && p !in stuck
    modifies disk`names, disk`clock, disk`refused
    ensures (now == stuck && disk.refused == old(disk.refused)) ||
            (now == stuck + [p] && disk.refused == old(disk.refused) + [Renaming(p.target, p.source)])
    ensures disk.clock >= old(disk.clock) && (disk.Obliging(old(disk.clock)) ==> now == stuck)
    ensures PutBack(old(disk.names), disk.names, p, now)
    ensures OnlyAt(old(disk.names), disk.names, p)
  {
    var e := disk.Rename(p.target, p.source);
    now := if e.Some? then stuck + [p] else stuck;
  }

  lemma StuckGrows(done: seq<Pair>, k: nat, stuck: seq<Pair>)
    requires k < |done| && Separate(done) && Distinct(Targets(stuck)) && forall p <- stuck :: p in done[k + 1..]
    ensures done[k] !in stuck && Distinct(Targets(stuck + [done[k]]))
    ensures forall p <- stuck + [done[k]] :: p in done[k..]
  {
    assert done[k..] == [done[k]] + done[k + 1..];
    assert Targets(stuck + [done[k]]) == Targets(stuck) + [done[k].target];
    forall p | p in stuck ensures p.target != done[k].target {
      var j :| k < j < |done| && done[j] == p;
    }
    assert forall i :: 0 <= i < |stuck| ==> stuck[i] in stuck;
    AppendDistinct(Targets(stuck), done[k].target);
  }

  /** A pair that was moved is at its source again, or stuck where it is. */
  ghost predicate PutBack(before: map<Path, nat>, after: map<Path, nat>, p: Pair, stuck: seq<Pair>)
  {
    if p in stuck then Kept(before, after, p)
    else At(after, p.source) == At(before, p.target) && At(after, p.target).None?
  }

  /** The sources of the pairs whose target is not stuck. */
  function Unstuck(pairs: seq<Pair>, stuck: seq<Path>): (s: seq<Path>)
    ensures forall x <- s :: exists i :: 0 <= i < |pairs| && pairs[i].source == x && pairs[i].target !in stuck
    ensures forall i :: 0 <= i < |pairs| && pairs[i].target !in stuck ==> pairs[i].source in s
  {
    if pairs == [] then []
    else
      var tail := Unstuck(pairs[1..], stuck);
      assert forall i :: 0 < i < |pairs| ==> pairs[i] == pairs[1..][i - 1];
      if pairs[0].target in stuck then tail else [pairs[0].source] + tail
  }

  lemma {:induction false} UnstuckIsDistinct(pairs: seq<Pair>, stuck: seq<Path>)
    requires Separate(pairs)
    ensures Distinct(Unstuck(pairs, stuck))
  {
    if pairs != [] {
      UnstuckIsDistinct(pairs[1..], stuck);
      assert pairs[0].source !in Unstuck(pairs[1..], stuck);
    }
  }

  /** `_rename_with_rollback` */
  method RenameWithRollback(disk: Disk, pairs: seq<Pair>, left: seq<Path>) returns (o: Outcome)
    requires Separate(pairs) && Distinct(left)
    requires forall t <- left :: t in Targets(pairs) && t in disk.names
    modifies disk`names, disk`clock, disk`refused
    ensures OthersKept(old(disk.names), disk.names, pairs)
    ensures o.stranded == [] && Distinct(o.moved) && Distinct(o.unmoved)
    ensures (forall t <- o.moved :: t in Targets(pairs)) && forall s <- o.unmoved :: s in Sources(pairs)
    ensures forall i :: 0 <= i < |pairs| ==> Renamed(old(disk.names), disk.names, pairs[i], o)
    ensures if o.error.Nothing? then o == Outcome(Targets(pairs), [], [], Nothing) && left == []
            else Left(o.error) == left && (o.error.CouldNotRename? || o.error.CouldNotPutBack?)
    ensures StuckForGood(old(disk.refused), disk.refused, pairs, o)
    ensures NoLinks(old(disk.refused), disk.refused)
    ensures disk.Obliging(old(disk.clock)) && !o.error.Nothing? ==> o.moved == []
    ensures disk.Obliging(old(disk.clock)) && old(AllFree(disk.names, pairs)) ==> o.error.Nothing?
  {
    var done: seq<Pair> := [];
    for i := 0 to |pairs|
      invariant done == pairs[..i]
      invariant OthersKept(old(disk.names), disk.names, pairs)
      invariant CarriedUpTo(old(disk.names), disk.names, pairs, i)
      invariant disk.refused == old(disk.refused)
      invariant disk.clock >= old(disk.clock)
      invariant disk.Obliging(old(disk.clock)) && old(AllFree(disk.names, pairs)) ==> AllFree(disk.names, pairs[i..])
    {
      ghost var mid := disk.names;
      var failure := RenameOne(disk, pairs[i]);
      if failure.None? {
        done := done + [pairs[i]];
        OthersKeptNext(old(disk.names), mid, disk.names, pairs, pairs[i]);
        CarriedNext(old(disk.names), mid, disk.names, pairs, i);
      } else {
        ghost var log := disk.refused;
        o := UndoRenames(disk, pairs, done, failure.value, left, old(disk.names));
        StuckOn(old(disk.refused), log, disk.refused, pairs, o);
        return;
      }
    }
    NothingLeft(old(disk.names), disk.names, pairs, left);
    return Outcome(Targets(pairs), [], [], Nothing);
  }

  /** The first `i` pairs are carried, the others untouched. */
  ghost predicate CarriedUpTo(before: map<Path, nat>, after: map<Path, nat>, pairs: seq<Pair>, i: nat)
  {
    forall j :: 0 <= j < |pairs| ==> if j < i then Carried(before, after, pairs[j]) else Kept(before, after, pairs[j])
  }

  lemma CarriedNext(before: map<Path, nat>, mid: map<Path, nat>, after: map<Path, nat>, pairs: seq<Pair>, i: nat)
    requires Separate(pairs) && i < |pairs| && CarriedUpTo(before, mid, pairs, i)
    requires Carried(mid, after, pairs[i]) && OnlyAt(mid, after, pairs[i])
    ensures CarriedUpTo(before, after, pairs, i + 1)
  {
    forall j | 0 <= j < |pairs|
      ensures if j < i + 1 then Carried(before, after, pairs[j]) else Kept(before, after, pairs[j])
    {
      if j != i { Apart(pairs, i, j); }
    }
  }

  /** A link left behind stands in the way of its own pair. */
  lemma NothingLeft(before: map<Path, nat>, after: map<Path, nat>, pairs: seq<Pair>, left: seq<Path>)
    requires forall t <- left :: t in Targets(pairs) && t in before
    requires CarriedUpTo(before, after, pairs, |pairs|)
    ensures |left| == 0
  {
    var first := |left| > 0 && left[0] in left;
    forall t | t in Targets(pairs) ensures t !in before {
      var j :| 0 <= j < |pairs| && pairs[j].target == t;
      assert Carried(before, after, pairs[j]);
    }
  }

  /** Every source is there, and every target is free. */
  ghost predicate AllFree(names: map<Path, nat>, pairs: seq<Pair>)
  {
    forall i :: 0 <= i < |pairs| ==> pairs[i].source in names && pairs[i].target !in names
  }

  ghost predicate Renamed(before: map<Path, nat>, after: map<Path, nat>, p: Pair, o: Outcome)
  {
    if p.target in o.moved then p.source !in o.unmoved && Carried(before, after, p)
    else p.source in o.unmoved && Kept(before, after, p)
  }

  /** The failure branch: put back what was done, and report what would not go. */
  method UndoRenames(disk: Disk, pairs: seq<Pair>, done: seq<Pair>, failure: Failure, left: seq<Path>,
                     ghost start: map<Path, nat>)
    returns (o: Outcome)
    requires Separate(pairs) && done <= pairs
    requires OthersKept(start, disk.names, pairs) && CarriedUpTo(start, disk.names, pairs, |done|)
    modifies disk`names, disk`clock, disk`refused
    ensures OthersKept(start, disk.names, pairs)
    ensures o.stranded == [] && Distinct(o.moved) && Distinct(o.unmoved)
    ensures (forall t <- o.moved :: t in Targets(pairs)) && forall s <- o.unmoved :: s in Sources(pairs)
    ensures forall j :: 0 <= j < |pairs| ==> Renamed(start, disk.names, pairs[j], o)
    ensures Left(o.error) == left && (o.error.CouldNotRename? || o.error.CouldNotPutBack?)
    ensures StuckForGood(old(disk.refused), disk.refused, pairs, o)
    ensures NoLinks(old(disk.refused), disk.refused)
    ensures disk.clock >= old(disk.clock) && (disk.Obliging(old(disk.clock)) ==> o.moved == [])
  {
    ghost var mid := disk.names;
    DoneCanGoBack(start, mid, pairs, done);
    var stuck := RollBack(disk, done);
    o := UndoOutcome(pairs, Targets(stuck), failure, left);
    UndoIsTold(start, mid, disk.names, pairs, done, stuck, o);
    OthersKeptByPart(start, mid, disk.names, pairs, done);
    StuckIsRefused(old(disk.refused), pairs, done, stuck, o);
  }

  /** What stays at its target after a failed pass would not go back. */
  ghost predicate StuckForGood(before: seq<Call>, after: seq<Call>, pairs: seq<Pair>, o: Outcome)
  {
    before <= after && (o.moved != [] ==> o.error.Nothing? || o.error.CouldNotPutBack?) &&
    (o.error.CouldNotPutBack? ==> o.error.stuck == o.moved) &&
    forall p <- pairs ::
      o.error.CouldNotPutBack? && p.target in o.moved ==> Refused(before, after, Renaming(p.target, p.source))
  }

  lemma StuckOn(before: seq<Call>, mid: seq<Call>, after: seq<Call>, pairs: seq<Pair>, o: Outcome)
    requires before <= mid && StuckForGood(mid, after, pairs, o)
    ensures StuckForGood(before, after, pairs, o)
  {
    forall p | p in pairs && o.error.CouldNotPutBack? && p.target in o.moved
      ensures Refused(before, after, Renaming(p.target, p.source))
    {
      RefusedOn(before, mid, after, Renaming(p.target, p.source));
    }
  }

  lemma StuckIsRefused(before: seq<Call>, pairs: seq<Pair>, done: seq<Pair>, stuck: seq<Pair>, o: Outcome)
    requires Separate(pairs) && done <= pairs && forall p <- stuck :: p in done
    requires o.moved == Targets(stuck) && (o.error.CouldNotPutBack? <==> stuck != [])
    requires o.error.CouldNotPutBack? ==> o.error.stuck == o.moved
    ensures StuckForGood(before, before + Renamings(stuck), pairs, o)
  {
    StuckTargets(pairs, done, stuck);
    forall p | p in pairs && p.target in o.moved
      ensures Refused(before, before + Renamings(stuck), Renaming(p.target, p.source))
    {
      var j :| 0 <= j < |pairs| && pairs[j] == p;
      var k :| 0 <= k < |stuck| && stuck[k] == p;
      assert (before + Renamings(stuck))[|before| + k] == Renaming(p.target, p.source);
    }
  }

  lemma DoneCanGoBack(start: map<Path, nat>, mid: map<Path, nat>, pairs: seq<Pair>, done: seq<Pair>)
    requires Separate(pairs) && done <= pairs && CarriedUpTo(start, mid, pairs, |done|)
    ensures Separate(done)
    ensures forall i :: 0 <= i < |done| ==> done[i].source !in mid && done[i].target in mid
  {
    forall i | 0 <= i < |done| ensures done[i].source !in mid && done[i].target in mid {
      assert Carried(start, mid, pairs[i]);
    }
  }

  lemma OthersKeptByPart(start: map<Path, nat>, mid: map<Path, nat>, after: map<Path, nat>, pairs: seq<Pair>,
                         done: seq<Pair>)
    requires done <= pairs && OthersKept(start, mid, pairs) && OthersKept(mid, after, done)
    ensures OthersKept(start, after, pairs)
  {
    forall x | Foreign(pairs, x) ensures Foreign(done, x) {
      forall q | q in done ensures q in pairs {
        var i :| 0 <= i < |done| && done[i] == q;
        assert pairs[i] == q;
      }
    }
  }

  function UndoOutcome(pairs: seq<Pair>, stuck: seq<Path>, failure: Failure, left: seq<Path>): Outcome
  {
    if stuck == [] then Outcome([], [], Sources(pairs), CouldNotRename(failure, left))
    else Outcome(stuck, [], Unstuck(pairs, stuck), CouldNotPutBack(failure, stuck, left))
  }

  lemma UndoIsTold(start: map<Path, nat>, mid: map<Path, nat>, after: map<Path, nat>, pairs: seq<Pair>,
                   done: seq<Pair>, stuck: seq<Pair>, o: Outcome)
    requires Separate(pairs) && done <= pairs && CarriedUpTo(start, mid, pairs, |done|)
    requires (forall p <- stuck :: p in done) && Distinct(Targets(stuck))
    requires forall i :: 0 <= i < |done| ==> PutBack(mid, after, done[i], stuck)
    requires OthersKept(mid, after, done)
    requires o.moved == Targets(stuck)
    requires o.unmoved == if stuck == [] then Sources(pairs) else Unstuck(pairs, Targets(stuck))
    ensures Distinct(o.moved) && Distinct(o.unmoved)
    ensures (forall t <- o.moved :: t in Targets(pairs)) && forall s <- o.unmoved :: s in Sources(pairs)
    ensures forall j :: 0 <= j < |pairs| ==> Renamed(start, after, pairs[j], o)
  {
    var moved := Targets(stuck);
    UnstuckIsDistinct(pairs, moved);
    StuckTargets(pairs, done, stuck);
    forall j | 0 <= j < |pairs| ensures Renamed(start, after, pairs[j], o) {
      AfterRollBack(start, mid, after, pairs, done, stuck, j);
      if pairs[j].target in moved { NotUnstuck(pairs, j, moved); }
      assert Sources(pairs)[j] == pairs[j].source;
    }
    forall s | s in Unstuck(pairs, moved) ensures s in Sources(pairs) {
      var j :| 0 <= j < |pairs| && pairs[j].source == s && pairs[j].target !in moved;
      assert Sources(pairs)[j] == s;
    }
  }

  lemma AfterRollBack(start: map<Path, nat>, mid: map<Path, nat>, after: map<Path, nat>, pairs: seq<Pair>,
                      done: seq<Pair>, stuck: seq<Pair>, j: nat)
    requires Separate(pairs) && done <= pairs && j < |pairs| && CarriedUpTo(start, mid, pairs, |done|)
    requires forall p <- stuck :: p in done
    requires forall i :: 0 <= i < |done| ==> PutBack(mid, after, done[i], stuck)
    requires OthersKept(mid, after, done)
    ensures if j < |done| && pairs[j] in stuck then Carried(start, after, pairs[j]) else Kept(start, after, pairs[j])
  {
    if j < |done| {
      assert PutBack(mid, after, done[j], stuck);
    } else {
      forall x | x in {pairs[j].source, pairs[j].target} ensures Foreign(done, x) {
        forall q | q in done ensures x != q.source && x != q.target {
          var i :| 0 <= i < |done| && done[i] == q;
          Apart(pairs, i, j);
        }
      }
    }
  }

  lemma StuckTargets(pairs: seq<Pair>, done: seq<Pair>, stuck: seq<Pair>)
    requires Separate(pairs) && done <= pairs && forall p <- stuck :: p in done
    ensures forall j :: 0 <= j < |pairs| ==> (pairs[j].target in Targets(stuck) <==> j < |done| && pairs[j] in stuck)
    ensures forall t <- Targets(stuck) :: t in Targets(pairs)
  {
    forall k | 0 <= k < |stuck| ensures exists j :: 0 <= j < |done| && pairs[j] == stuck[k] {
      assert stuck[k] in done;
    }
    forall j | 0 <= j < |pairs| && j < |done| && pairs[j] in stuck ensures pairs[j].target in Targets(stuck) {
      var k :| 0 <= k < |stuck| && stuck[k] == pairs[j];
      assert Targets(stuck)[k] == pairs[j].target;
    }
    forall t | t in Targets(stuck) ensures t in Targets(pairs) {
      var k :| 0 <= k < |stuck| && stuck[k].target == t;
      var j :| 0 <= j < |done| && pairs[j] == stuck[k];
      assert Targets(pairs)[j] == t;
    }
  }

  lemma NotUnstuck(pairs: seq<Pair>, j: nat, stuck: seq<Path>)
    requires j < |pairs| && Separate(pairs) && pairs[j].target in stuck
    ensures pairs[j].source !in Unstuck(pairs, stuck)
  {
  }

  // ---- link, then unlink ----------------------------------------------------------------------

  /** The first `i` pairs have their link, the others are untouched. */
  ghost predicate DoubledUpTo(before: map<Path, nat>, after: map<Path, nat>, pairs: seq<Pair>, i: nat)
  {
    forall j :: 0 <= j < |pairs| ==> if j < i then Doubled(before, after, pairs[j]) else Kept(before, after, pairs[j])
  }

  lemma DoubledNext(before: map<Path, nat>, mid: map<Path, nat>, after: map<Path, nat>, pairs: seq<Pair>, i: nat)
    requires Separate(pairs) && i < |pairs| && DoubledUpTo(before, mid, pairs, i)
    requires Doubled(mid, after, pairs[i]) && OnlyAt(mid, after, pairs[i])
    ensures DoubledUpTo(before, after, pairs, i + 1)
  {
    forall j | 0 <= j < |pairs|
      ensures if j < i + 1 then Doubled(before, after, pairs[j]) else Kept(before, after, pairs[j])
    {
      if j != i { Apart(pairs, i, j); }
    }
  }

  /** After a staging attempt was taken back: a link stands exactly where one was left. */
  ghost predicate TakenBack(before: map<Path, nat>, after: map<Path, nat>, pairs: seq<Pair>, left: seq<Path>)
  {
    Distinct(left) && (forall t <- left :: t in Targets(pairs)) && OthersKept(before, after, pairs) &&
    forall j :: 0 <= j < |pairs| ==>
                  if pairs[j].target in left then Doubled(before, after, pairs[j]) else Kept(before, after, pairs[j])
  }

  lemma DroppedIsTakenBack(before: map<Path, nat>, mid: map<Path, nat>, after: map<Path, nat>, pairs: seq<Pair>,
                           i: nat, left: seq<Path>)
    requires Separate(pairs) && i <= |pairs| && DoubledUpTo(before, mid, pairs, i) && OthersKept(before, mid, pairs)
    requires Distinct(left) && forall t <- left :: t in Targets(pairs[..i])
    requires forall p :: At(after, p) == if p in Targets(pairs[..i]) && p !in left then None else At(mid, p)
    ensures TakenBack(before, after, pairs, left)
  {
    var staged := Targets(pairs[..i]);
    forall j | 0 <= j < |pairs|
      ensures (pairs[j].target in staged <==> j < i) && pairs[j].source !in staged
    {
      if j < i { assert staged[j] == pairs[j].target; }
      assert forall k :: 0 <= k < i ==> staged[k] == pairs[k].target;
    }
    forall t | t in staged ensures t in Targets(pairs) {
      var k :| 0 <= k < i && staged[k] == t;
      assert Targets(pairs)[k] == t;
    }
    forall x | Foreign(pairs, x) ensures x !in staged {
      assert forall k :: 0 <= k < i ==> pairs[k] in pairs;
    }
  }

  /** The staging half: a link for every pair, or every link taken back that would go. `at` is the tick of the link that
      was refused. */
  method StageLinks(disk: Disk, pairs: seq<Pair>)
    returns (e: Option<Errno>, failed: Path, left: seq<Path>, ghost at: nat)
    requires Separate(pairs)
    modifies disk`names, disk`clock, disk`refused
    ensures e.None? ==> OthersKept(old(disk.names), disk.names, pairs) &&
                        DoubledUpTo(old(disk.names), disk.names, pairs, |pairs|)
    ensures e.Some? ==> TakenBack(old(disk.names), disk.names, pairs, left)
    ensures e.None? ==> old(disk.NoDirectories(pairs)) && disk.NoDirectories(pairs) && disk.refused == old(disk.refused)
    ensures e.Some? ==>
              exists p <- pairs :: failed == p.source &&
                disk.refused == old(disk.refused) + [Linking(p.source, p.target, e.value)] + Unlinkings(left)
    ensures e.Some? ==> old(disk.clock) <= at < old(disk.clock) + |pairs| && at < disk.clock &&
                        (disk.Obliging(at + 1) ==> left == []) &&
                        (old(AllFree(disk.names, pairs) && disk.NoDirectories(pairs)) ==> e == disk.faults(at))
    ensures e.None? ==> disk.clock == old(disk.clock) + |pairs| &&
                        forall n :: old(disk.clock) <= n < disk.clock ==> disk.faults(n).None?
  {
    e, failed, left, at := None, "", [], 0;
    ghost var before, log := disk.names, disk.refused;
    for i := 0 to |pairs|
      invariant e.None? && OthersKept(before, disk.names, pairs) && DoubledUpTo(before, disk.names, pairs, i)
      invariant disk.refused == log && disk.clock == old(disk.clock) + i
      invariant forall n :: old(disk.clock) <= n < disk.clock ==> disk.faults(n).None?
      invariant forall j :: 0 <= j < i ==> !disk.directory(before[pairs[j].source])
    {
      ghost var mid := disk.names;
      assert Kept(before, mid, pairs[i]);
      at := disk.clock;
      e := disk.Link(pairs[i].source, pairs[i].target);
      if e.Some? {
        failed := pairs[i].source;
        StagedTargets(pairs, i);
        StagedAreFiles(disk, before, pairs, i);
        left := DropLinks(disk, Targets(pairs[..i]));
        DroppedIsTakenBack(before, mid, disk.names, pairs, i, left);
        assert pairs[i] in pairs;
        return;
      }
      OthersKeptNext(before, mid, disk.names, pairs, pairs[i]);
      DoubledNext(before, mid, disk.names, pairs, i);
    }
  }

  lemma StagedAreFiles(disk: Disk, before: map<Path, nat>, pairs: seq<Pair>, i: nat)
    requires i <= |pairs| && DoubledUpTo(before, disk.names, pairs, i)
    requires forall j :: 0 <= j < i ==> !disk.directory(before[pairs[j].source])
    ensures AreFiles(disk, Targets(pairs[..i]))
  {
    forall p | p in Targets(pairs[..i]) ensures p in disk.names && !disk.IsDirectory(p) {
      var j :| 0 <= j < i && Targets(pairs[..i])[j] == p;
      assert Doubled(before, disk.names, pairs[j]);
    }
  }

  lemma StagedTargets(pairs: seq<Pair>, i: nat)
    requires Separate(pairs) && i <= |pairs|
    ensures Distinct(Targets(pairs[..i]))
  {
  }

  /** Of the first `i` pairs each is carried or doubled, as listed; the others are doubled. */
  ghost predicate UnlinkedUpTo(before: map<Path, nat>, after: map<Path, nat>, pairs: seq<Pair>, i: nat,
                               moved: seq<Path>, stranded: seq<Path>)
  {
    Distinct(moved) && Distinct(stranded) && |moved| + |stranded| == i <= |pairs| &&
    (forall t <- moved :: t in Targets(pairs[..i])) && (forall s <- stranded :: s in Sources(pairs[..i])) &&
    forall j :: 0 <= j < |pairs| ==> UnlinkState(before, after, pairs[j], j < i, moved, stranded)
  }

  ghost predicate UnlinkState(before: map<Path, nat>, after: map<Path, nat>, p: Pair, passed: bool,
                              moved: seq<Path>, stranded: seq<Path>)
  {
    if p.target in moved then passed && p.source !in stranded && Carried(before, after, p)
    else (passed <==> p.source in stranded) && Doubled(before, after, p)
  }

  lemma UnlinkedNext(before: map<Path, nat>, mid: map<Path, nat>, after: map<Path, nat>, pairs: seq<Pair>, i: nat,
                     moved: seq<Path>, stranded: seq<Path>, gone: bool)
    requires Separate(pairs) && i < |pairs| && UnlinkedUpTo(before, mid, pairs, i, moved, stranded)
    requires after == if gone then mid - {pairs[i].source} else mid
    ensures UnlinkedUpTo(before, after, pairs, i + 1, if gone then moved + [pairs[i].target] else moved,
                         if gone then stranded else stranded + [pairs[i].source])
  {
    var moved' := if gone then moved + [pairs[i].target] else moved;
    var stranded' := if gone then stranded else stranded + [pairs[i].source];
    assert Targets(pairs[..i + 1]) == Targets(pairs[..i]) + [pairs[i].target];
    assert Sources(pairs[..i + 1]) == Sources(pairs[..i]) + [pairs[i].source];
    assert UnlinkState(before, mid, pairs[i], false, moved, stranded);
    if gone { AppendDistinct(moved, pairs[i].target); } else { AppendDistinct(stranded, pairs[i].source); }
    forall j | 0 <= j < |pairs| ensures UnlinkState(before, after, pairs[j], j < i + 1, moved', stranded') {
      assert UnlinkState(before, mid, pairs[j], j < i, moved, stranded);
      if j != i { Apart(pairs, i, j); }
    }
  }

  lemma NoneUnlinked(before: map<Path, nat>, after: map<Path, nat>, pairs: seq<Pair>)
    requires DoubledUpTo(before, after, pairs, |pairs|)
    ensures UnlinkedUpTo(before, after, pairs, 0, [], [])
  {
  }

  method UnlinkEach(disk: Disk, pairs: seq<Pair>, ghost before: map<Path, nat>, ghost files: bool)
    returns (moved: seq<Path>, stranded: seq<Path>)
    requires Separate(pairs) && OthersKept(before, disk.names, pairs)
    requires UnlinkedUpTo(before, disk.names, pairs, 0, [], [])
    requires files ==> disk.Obliging(disk.clock) && disk.NoDirectories(pairs)
    modifies disk`names, disk`clock, disk`refused
    ensures OthersKept(before, disk.names, pairs) && UnlinkedUpTo(before, disk.names, pairs, |pairs|, moved, stranded)
    ensures disk.refused == old(disk.refused) + Unlinkings(stranded)
    ensures files ==> stranded == []
  {
    moved, stranded := [], [];
    ghost var log := disk.refused;
    for i := 0 to |pairs|
      invariant UnlinkedUpTo(before, disk.names, pairs, i, moved, stranded)
      invariant OthersKept(before, disk.names, pairs) && disk.refused == log + Unlinkings(stranded)
      invariant files ==> stranded == [] && disk.NoDirectories(pairs) && disk.Obliging(disk.clock)
    {
      moved, stranded := UnlinkOriginal(disk, pairs, i, moved, stranded, before, log, files);
    }
  }

  /** The second half: every link is there, the originals go. */
  method UnlinkOriginals(disk: Disk, pairs: seq<Pair>, ghost before: map<Path, nat>) returns (o: Outcome)
    requires Separate(pairs) && OthersKept(before, disk.names, pairs) && DoubledUpTo(before, disk.names, pairs, |pairs|)
    modifies disk`names, disk`clock, disk`refused
    ensures OthersKept(before, disk.names, pairs) && Truthful(before, disk.names, pairs, o)
    ensures o.unmoved == [] && Left(o.error) == [] && |o.moved| + |o.stranded| == |pairs|
    ensures disk.refused == old(disk.refused) + Unlinkings(o.stranded)
    ensures o.error == if o.stranded == [] then Nothing else OldCopiesRemain(o.stranded)
    ensures disk.Obliging(old(disk.clock)) && old(disk.NoDirectories(pairs)) ==> o.error.Nothing?
  {
    NoneUnlinked(before, disk.names, pairs);
    var moved, stranded := UnlinkEach(disk, pairs, before, disk.Obliging(disk.clock) && disk.NoDirectories(pairs));
    o := Outcome(moved, stranded, [], if stranded == [] then Nothing else OldCopiesRemain(stranded));
    UnlinkedIsTruthful(before, disk.names, pairs, o);
  }

  method UnlinkOriginal(disk: Disk, pairs: seq<Pair>, i: nat, moved: seq<Path>, stranded: seq<Path>,
                        ghost before: map<Path, nat>, ghost log: seq<Call>, ghost files: bool)
    returns (nowMoved: seq<Path>, nowStranded: seq<Path>)
    requires Separate(pairs) && i < |pairs| && UnlinkedUpTo(before, disk.names, pairs, i, moved, stranded)
    requires OthersKept(before, disk.names, pairs) && disk.refused == log + Unlinkings(stranded)
    requires files ==> disk.Obliging(disk.clock) && disk.NoDirectories(pairs)
    modifies disk`names, disk`clock, disk`refused
    ensures UnlinkedUpTo(before, disk.names, pairs, i + 1, nowMoved, nowStranded)
    ensures disk.refused == log + Unlinkings(nowStranded)
    ensures OthersKept(before, disk.names, pairs)
    ensures files ==> nowStranded == stranded && disk.NoDirectories(pairs) && disk.Obliging(disk.clock)
  {
    ghost var mid := disk.names;
    assert UnlinkState(before, mid, pairs[i], false, moved, stranded);
    var e := disk.Unlink(pairs[i].source);
    UnlinkedNext(before, mid, disk.names, pairs, i, moved, stranded, e.None?);
    OthersKeptNext(before, mid, disk.names, pairs, pairs[i]);
    if e.None? {
      return moved + [pairs[i].target], stranded;
    } else {
      assert Unlinkings(stranded + [pairs[i].source]) == Unlinkings(stranded) + [Unlinking(pairs[i].source)];
      return moved, stranded + [pairs[i].source];
    }
  }

  lemma UnlinkedIsTruthful(before: map<Path, nat>, after: map<Path, nat>, pairs: seq<Pair>, o: Outcome)
    requires UnlinkedUpTo(before, after, pairs, |pairs|, o.moved, o.stranded)
    requires o.unmoved == [] && Left(o.error) == []
    ensures Truthful(before, after, pairs, o)
  {
    assert pairs[..|pairs|] == pairs;
    forall i | 0 <= i < |pairs| ensures Told(before, after, pairs[i], o) {
      assert UnlinkState(before, after, pairs[i], true, o.moved, o.stranded);
    }
  }

  /** A rename pass that starts from a staging attempt taken back tells the truth about the whole. */
  lemma FallbackIsTruthful(before: map<Path, nat>, mid: map<Path, nat>, after: map<Path, nat>, pairs: seq<Pair>,
                           left: seq<Path>, o: Outcome)
    requires Separate(pairs) && TakenBack(before, mid, pairs, left) && OthersKept(mid, after, pairs)
    requires o.stranded == [] && Distinct(o.moved) && Distinct(o.unmoved)
    requires (forall t <- o.moved :: t in Targets(pairs)) && forall s <- o.unmoved :: s in Sources(pairs)
    requires forall i :: 0 <= i < |pairs| ==> Renamed(mid, after, pairs[i], o)
    requires Left(o.error) == left
    ensures OthersKept(before, after, pairs) && Truthful(before, after, pairs, o)
  {
    forall i | 0 <= i < |pairs| ensures Told(before, after, pairs[i], o) {
      assert Renamed(mid, after, pairs[i], o);
    }
  }

  /** A link was refused, and not because links are not to be had there. */
  ghost predicate LinkRefusedOtherwise(before: seq<Call>, after: seq<Call>)
  {
    exists k :: |before| <= k < |after| && after[k].Linking? &&
                after[k].errno !in {EXDEV, EPERM, EOPNOTSUPP, EMLINK, EISDIR}
  }

  /** `_link_then_unlink` */
  method LinkThenUnlink(disk: Disk, pairs: seq<Pair>) returns (o: Outcome)
    requires Separate(pairs)
    modifies disk`names, disk`clock, disk`refused
    ensures OthersKept(old(disk.names), disk.names, pairs) && Truthful(old(disk.names), disk.names, pairs, o)
    ensures o.error.Nothing? ==> o.stranded == [] && o.unmoved == []
    ensures Excused(old(disk.refused), disk.refused, pairs, o)
    ensures o.error.CouldNotPrepare? <==> LinkRefusedOtherwise(old(disk.refused), disk.refused)
    ensures disk.Obliging(old(disk.clock)) && !o.error.Nothing? ==>
              o.moved == [] && o.stranded == [] && Left(o.error) == []
    ensures disk.Obliging(old(disk.clock)) && old(AllFree(disk.names, pairs) && disk.NoDirectories(pairs)) ==>
              o.error.Nothing?
    // where nothing but one link fails, because links are not to be had there, the set is renamed
    ensures disk.OneLinkFails(old(disk.clock), old(disk.clock), |pairs|) ==>
              old(AllFree(disk.names, pairs) && disk.NoDirectories(pairs)) ==> o.error.Nothing?
  {
    ghost var before, log := disk.names, disk.refused;
    var e, failed, left, at := StageLinks(disk, pairs);
    ghost var mid, staged := disk.names, disk.refused;
    if e.None? {
      assert forall i :: 0 <= i < |pairs| ==> Doubled(before, mid, pairs[i]);
      o := UnlinkOriginals(disk, pairs, before);
      StrandedIsExcused(log, disk.refused, pairs, o);
    } else {
      ghost var p :| p in pairs && failed == p.source &&
                     staged == log + [Linking(p.source, p.target, e.value)] + Unlinkings(left);
      if LinkUnsupported(e.value) {
        o := FallBack(disk, pairs, left, before, log, Linking(p.source, p.target, e.value));
      } else {
        o := Outcome([], [], Sources(pairs), CouldNotPrepare(failed, left));
        NotPrepared(before, mid, pairs, left, o);
        LinkLogged(log, staged, left, Linking(p.source, p.target, e.value));
      }
    }
  }

  lemma AllRefused(before: seq<Call>, paths: seq<Path>)
    ensures forall p <- paths :: Refused(before, before + Unlinkings(paths), Unlinking(p))
  {
    forall p | p in paths ensures Refused(before, before + Unlinkings(paths), Unlinking(p)) {
      var k :| 0 <= k < |paths| && paths[k] == p;
      assert (before + Unlinkings(paths))[|before| + k] == Unlinking(p);
    }
  }

  lemma StrandedIsExcused(log: seq<Call>, after: seq<Call>, pairs: seq<Pair>, o: Outcome)
    requires after == log + Unlinkings(o.stranded) && Left(o.error) == []
    requires o.error == if o.stranded == [] then Nothing else OldCopiesRemain(o.stranded)
    ensures Excused(log, after, pairs, o) && !LinkRefusedOtherwise(log, after)
  {
    AllRefused(log, o.stranded);
    assert forall k :: |log| <= k < |after| ==> after[k] == Unlinkings(o.stranded)[k - |log|];
  }

  lemma FallbackIsExcused(before: seq<Call>, mid: seq<Call>, after: seq<Call>, pairs: seq<Pair>, left: seq<Path>,
                          o: Outcome)
    requires before <= mid && (forall t <- left :: Refused(before, mid, Unlinking(t)))
    requires StuckForGood(mid, after, pairs, o) && o.stranded == [] && Left(o.error) == left
    requires o.error.Nothing? || o.error.CouldNotRename? || o.error.CouldNotPutBack?
    ensures Excused(before, after, pairs, o)
  {
    StuckOn(before, mid, after, pairs, o);
    forall t | t in left ensures Refused(before, after, Unlinking(t)) {
      RefusedOn(before, mid, after, Unlinking(t));
    }
  }

  /** The refused link and the unlinks behind it, in the log. */
  lemma LinkLogged(log: seq<Call>, staged: seq<Call>, left: seq<Path>, link: Call)
    requires link.Linking? && staged == log + [link] + Unlinkings(left)
    ensures log <= staged && forall t <- left :: Refused(log, staged, Unlinking(t))
    ensures LinkRefusedOtherwise(log, staged) <==> link.errno !in {EXDEV, EPERM, EOPNOTSUPP, EMLINK, EISDIR}
  {
    assert staged[|log|] == link;
    AllRefused(log + [link], left);
    forall t | t in left ensures Refused(log, staged, Unlinking(t)) {
      RefusedOn(log, log + [link], staged, Unlinking(t));
    }
  }

  lemma NoLinksOn(log: seq<Call>, mid: seq<Call>, after: seq<Call>)
    requires log <= mid && NoLinks(mid, after)
    ensures LinkRefusedOtherwise(log, after) <==> LinkRefusedOtherwise(log, mid)
  {
    if LinkRefusedOtherwise(log, mid) {
      var k :| |log| <= k < |mid| && mid[k].Linking? &&
               mid[k].errno !in {EXDEV, EPERM, EOPNOTSUPP, EMLINK, EISDIR};
      assert after[k] == mid[k];
    }
  }

  /** The fall-back: `link` was refused, and the links made before it were taken back as far as they would go. */
  method FallBack(disk: Disk, pairs: seq<Pair>, left: seq<Path>, ghost before: map<Path, nat>, ghost log: seq<Call>,
                  ghost link: Call)
    returns (o: Outcome)
    requires Separate(pairs) && TakenBack(before, disk.names, pairs, left)
    requires link.Linking? && LinkUnsupported(link.errno) && disk.refused == log + [link] + Unlinkings(left)
    modifies disk`names, disk`clock, disk`refused
    ensures OthersKept(before, disk.names, pairs) && Truthful(before, disk.names, pairs, o)
    ensures o.error.Nothing? ==> o.stranded == [] && o.unmoved == []
    ensures Excused(log, disk.refused, pairs, o)
    ensures !o.error.CouldNotPrepare? && !LinkRefusedOtherwise(log, disk.refused)
    ensures disk.Obliging(old(disk.clock)) && !o.error.Nothing? ==>
              o.moved == [] && o.stranded == [] && Left(o.error) == left
    ensures disk.Obliging(old(disk.clock)) && left == [] && AllFree(before, pairs) ==> o.error.Nothing?
  {
    ghost var mid, staged := disk.names, disk.refused;
    LinkLogged(log, staged, left, link);
    LeftIsBound(before, mid, pairs, left);
    assert left == [] && AllFree(before, pairs) ==> AllFree(mid, pairs) by { TakenBackIsFree(before, mid, pairs); }
    o := RenameWithRollback(disk, pairs, left);
    FallbackIsTruthful(before, mid, disk.names, pairs, left, o);
    FallbackIsExcused(log, staged, disk.refused, pairs, left, o);
    NoLinksOn(log, staged, disk.refused);
  }

  lemma TakenBackIsFree(before: map<Path, nat>, mid: map<Path, nat>, pairs: seq<Pair>)
    ensures TakenBack(before, mid, pairs, []) && AllFree(before, pairs) ==> AllFree(mid, pairs)
  {
    if TakenBack(before, mid, pairs, []) && AllFree(before, pairs) {
      forall i | 0 <= i < |pairs| ensures pairs[i].source in mid && pairs[i].target !in mid {
        assert Kept(before, mid, pairs[i]);
      }
    }
  }

  lemma NotPrepared(before: map<Path, nat>, mid: map<Path, nat>, pairs: seq<Pair>, left: seq<Path>, o: Outcome)
    requires Separate(pairs) && TakenBack(before, mid, pairs, left)
    requires o.moved == [] && o.stranded == [] && o.unmoved == Sources(pairs) && Left(o.error) == left
    ensures OthersKept(before, mid, pairs) && Truthful(before, mid, pairs, o)
  {
    forall i | 0 <= i < |pairs| ensures Told(before, mid, pairs[i], o) {
      assert Sources(pairs)[i] == pairs[i].source;
    }
  }

  lemma LeftIsBound(before: map<Path, nat>, mid: map<Path, nat>, pairs: seq<Pair>, left: seq<Path>)
    requires TakenBack(before, mid, pairs, left)
    ensures forall t <- left :: t in mid
  {
    forall t | t in left ensures t in mid {
      var j :| 0 <= j < |pairs| && Targets(pairs)[j] == t;
      assert Doubled(before, mid, pairs[j]);
    }
  }

  // ---- the whole move -----------------------------------------------------------------------------

  /** `os.path.dirname` */
  function DirName(p: Path): Path
  {
    var head := p[..LastSlash(p)];
    if AllSlashes(head) then head else StripSlashes(head)
  }

  /** One past the last slash, or 0. */
  function LastSlash(p: Path): (k: nat)
    ensures k <= |p|
  {
    if p == "" then 0 else if p[|p| - 1] == '/' then |p| else LastSlash(p[..|p| - 1])
  }

  predicate AllSlashes(p: Path) { forall c <- p :: c == '/' }

  function StripSlashes(p: Path): Path
  {
    if p != "" && p[|p| - 1] == '/' then StripSlashes(p[..|p| - 1]) else p
  }

  /** The parents of the targets; a bare name has none. */
  function Parents(pairs: seq<Pair>): (parents: seq<Path>)
    ensures |parents| == |pairs| && forall i :: 0 <= i < |pairs| ==> parents[i] == DirName(pairs[i].target)
  {
    seq(|pairs|, i requires 0 <= i < |pairs| => DirName(pairs[i].target))
  }

  /** How many calls it takes to make the first `i` of them. */
  function CallsUpTo(parents: seq<Path>, i: nat): nat
    requires i <= |parents|
  {
    if i == 0 then 0 else CallsUpTo(parents, i - 1) + if parents[i - 1] != "" then 1 else 0
  }

  function ParentCalls(pairs: seq<Pair>): nat { CallsUpTo(Parents(pairs), |pairs|) }

  lemma {:induction false} CallsGrow(parents: seq<Path>, i: nat, j: nat)
    requires i <= j <= |parents|
    ensures CallsUpTo(parents, i) <= CallsUpTo(parents, j)
  {
    if i < j { CallsGrow(parents, i, j - 1); }
  }

  /** `_ensure_parents` */
  method EnsureParents(disk: Disk, pairs: seq<Pair>) returns (error: Trouble)
    modifies disk`folders, disk`clock
    ensures error.Nothing? || error.NoParent?
    ensures error.Nothing? ==>
              forall i :: 0 <= i < |pairs| ==>
                            DirName(pairs[i].target) == "" || DirName(pairs[i].target) in disk.folders
    ensures error.Nothing? ==> disk.clock == old(disk.clock) + ParentCalls(pairs)
    ensures (forall n :: old(disk.clock) <= n < old(disk.clock) + ParentCalls(pairs) ==> disk.faults(n).None?) ==>
              error.Nothing?
  {
    error := MakeEach(disk, Parents(pairs));
  }

  method MakeEach(disk: Disk, parents: seq<Path>) returns (error: Trouble)
    modifies disk`folders, disk`clock
    ensures error.Nothing? || error.NoParent?
    ensures error.Nothing? ==> forall p <- parents :: p == "" || p in disk.folders
    ensures error.Nothing? ==> disk.clock == old(disk.clock) + CallsUpTo(parents, |parents|)
    ensures (forall n :: old(disk.clock) <= n < old(disk.clock) + CallsUpTo(parents, |parents|) ==>
                           disk.faults(n).None?) ==> error.Nothing?
  {
    for i := 0 to |parents|
      invariant forall j :: 0 <= j < i ==> parents[j] == "" || parents[j] in disk.folders
      invariant disk.clock == old(disk.clock) + CallsUpTo(parents, i)
    {
      CallsGrow(parents, i + 1, |parents|);
      if parents[i] != "" {
        var e := disk.MakeDirs(parents[i]);
        if e.Some? { return NoParent(parents[i]); }
      }
    }
    return Nothing;
  }

  /** The simultaneous renaming of every pair. */
  function Simultaneously(before: map<Path, nat>, pairs: seq<Pair>): map<Path, nat>
    requires forall i :: 0 <= i < |pairs| ==> pairs[i].source in before
  {
    if pairs == [] then before
    else
      assert forall i :: 0 <= i < |pairs[1..]| ==> pairs[1..][i] == pairs[i + 1];
      (Simultaneously(before, pairs[1..]) - {pairs[0].source})[pairs[0].target := before[pairs[0].source]]
  }

  lemma {:induction false} SimultaneouslyAt(before: map<Path, nat>, pairs: seq<Pair>, p: Path)
    requires Separate(pairs) && forall i :: 0 <= i < |pairs| ==> pairs[i].source in before
    ensures Foreign(pairs, p) ==> At(Simultaneously(before, pairs), p) == At(before, p)
    ensures forall i :: 0 <= i < |pairs| && p == pairs[i].source ==> At(Simultaneously(before, pairs), p).None?
    ensures forall i :: 0 <= i < |pairs| && p == pairs[i].target ==>
                          At(Simultaneously(before, pairs), p) == Some(before[pairs[i].source])
  {
    if pairs != [] {
      var tail := pairs[1..];
      assert forall i :: 0 < i < |pairs| ==> pairs[i] == tail[i - 1];
      SimultaneouslyAt(before, tail, p);
      if Foreign(pairs, p) {
        assert pairs[0] in pairs && forall q <- tail :: q in pairs;
      }
    }
  }

  /** A truthful report without an error describes the simultaneous renaming, whichever way it came about. */
  lemma NoErrorIsSimultaneous(before: map<Path, nat>, after: map<Path, nat>, pairs: seq<Pair>, o: Outcome)
    requires Separate(pairs) && OthersKept(before, after, pairs) && Truthful(before, after, pairs, o)
    requires o.error.Nothing? && o.stranded == [] && o.unmoved == []
    ensures AllFree(before, pairs) && after == Simultaneously(before, pairs)
  {
    forall i | 0 <= i < |pairs| ensures Carried(before, after, pairs[i]) {
      assert Told(before, after, pairs[i], o);
    }
    forall p ensures At(after, p) == At(Simultaneously(before, pairs), p) {
      SimultaneouslyAt(before, pairs, p);
      if !Foreign(pairs, p) {
        var q :| q in pairs && (p == q.source || p == q.target);
        var i :| 0 <= i < |pairs| && pairs[i] == q;
        assert Carried(before, after, pairs[i]);
      }
    }
    SameNames(after, Simultaneously(before, pairs));
  }

  lemma SameNames(a: map<Path, nat>, b: map<Path, nat>)
    requires forall p :: At(a, p) == At(b, p)
    ensures a == b
  {
    forall p ensures (p in a <==> p in b) && (p in a ==> a[p] == b[p]) {
      assert At(a, p) == At(b, p);
    }
  }

  /** A report with nothing moved, nothing stranded and no link left behind is of a disk as it began. */
  lemma NothingMovedIsNothingChanged(before: map<Path, nat>, after: map<Path, nat>, pairs: seq<Pair>, o: Outcome)
    requires OthersKept(before, after, pairs) && Truthful(before, after, pairs, o)
    requires o.moved == [] && o.stranded == [] && Left(o.error) == []
    ensures after == before
  {
    forall p ensures At(after, p) == At(before, p) {
      if !Foreign(pairs, p) {
        var q :| q in pairs && (p == q.source || p == q.target);
        var i :| 0 <= i < |pairs| && pairs[i] == q;
        assert Told(before, after, pairs[i], o);
      }
    }
    SameNames(after, before);
  }

  /** Where anything is stuck, stranded or left, a call was refused that would have undone it. */
  lemma ToldIsRefused(before: map<Path, nat>, after: map<Path, nat>, log: seq<Call>, refused: seq<Call>,
                      pairs: seq<Pair>, o: Outcome)
    requires Truthful(before, after, pairs, o) && Excused(log, refused, pairs, o) && !o.error.Nothing?
    requires o.moved != [] || o.stranded != [] || Left(o.error) != []
    ensures !NoneRefused(log, refused, pairs)
  {
    if o.stranded != [] {
      assert o.stranded[0] in o.stranded + o.unmoved;
      var j :| 0 <= j < |pairs| && Sources(pairs)[j] == o.stranded[0];
      assert pairs[j] in pairs && pairs[j].source in o.stranded;
    } else {
      var t := if o.moved != [] then o.moved[0] else Left(o.error)[0];
      assert t in o.moved || t in Left(o.error);
      var j :| 0 <= j < |pairs| && Targets(pairs)[j] == t;
      assert pairs[j] in pairs;
    }
  }

  /** No byte is lost: what a source named is still named, by it or by its target. */
  lemma NothingIsLost(before: map<Path, nat>, after: map<Path, nat>, pairs: seq<Pair>, o: Outcome)
    requires Truthful(before, after, pairs, o)
    ensures forall p <- pairs :: p.source in before ==>
                                   At(after, p.source) == At(before, p.source) ||
                                   At(after, p.target) == At(before, p.source)
  {
    forall p | p in pairs && p.source in before
      ensures At(after, p.source) == At(before, p.source) || At(after, p.target) == At(before, p.source)
    {
      var i :| 0 <= i < |pairs| && pairs[i] == p;
      assert Told(before, after, pairs[i], o);
    }
  }

  /** `move_pairs` */
  method MovePairs(disk: Disk, pairs: seq<Pair>) returns (o: Outcome)
    requires Separate(pairs)
    modifies disk
    ensures OthersKept(old(disk.names), disk.names, pairs) && Truthful(old(disk.names), disk.names, pairs, o)
    ensures forall p <- pairs :: p.source in old(disk.names) ==>
                                   At(disk.names, p.source) == At(old(disk.names), p.source) ||
                                   At(disk.names, p.target) == At(old(disk.names), p.source)
    ensures o.error.Nothing? ==>
              o.stranded == [] && o.unmoved == [] && old(AllFree(disk.names, pairs)) &&
              disk.names == Simultaneously(old(disk.names), pairs)
    ensures o.moved == [] && o.stranded == [] && Left(o.error) == [] ==> disk.names == old(disk.names)
    // what is not as it began was tried and refused; a failure nothing refused to undo leaves the disk as it started
    ensures Excused(old(disk.refused), disk.refused, pairs, o)
    ensures !o.error.Nothing? && NoneRefused(old(disk.refused), disk.refused, pairs) ==> disk.names == old(disk.names)
    ensures disk.Obliging(old(disk.clock)) && !o.error.Nothing? ==> disk.names == old(disk.names)
    // preparing fails only where a link is refused for another reason than that links are not to be had there
    ensures o.error.CouldNotPrepare? <==> LinkRefusedOtherwise(old(disk.refused), disk.refused)
    // where no call fails, or nothing but one link for that reason, the whole set is moved
    ensures disk.Obliging(old(disk.clock)) && old(AllFree(disk.names, pairs)) ==> o.error.Nothing?
    ensures disk.OneLinkFails(old(disk.clock), old(disk.clock) + ParentCalls(pairs), |pairs|) ==>
              old(AllFree(disk.names, pairs) && disk.NoDirectories(pairs)) ==> o.error.Nothing?
  {
    ghost var before := disk.names;
    if pairs == [] {
      o := Outcome([], [], [], Nothing);
    } else {
      o := MoveSome(disk, pairs);
    }
    NothingIsLost(before, disk.names, pairs, o);
    if o.error.Nothing? { NoErrorIsSimultaneous(before, disk.names, pairs, o); }
    if o.moved == [] && o.stranded == [] && Left(o.error) == [] {
      NothingMovedIsNothingChanged(before, disk.names, pairs, o);
    } else if !o.error.Nothing? {
      ToldIsRefused(before, disk.names, old(disk.refused), disk.refused, pairs, o);
    }
  }

  /** The choice of a strategy. */
  method MoveSome(disk: Disk, pairs: seq<Pair>) returns (o: Outcome)
    requires Separate(pairs)
    modifies disk
    ensures OthersKept(old(disk.names), disk.names, pairs) && Truthful(old(disk.names), disk.names, pairs, o)
    ensures o.error.Nothing? ==> o.stranded == [] && o.unmoved == []
    ensures Excused(old(disk.refused), disk.refused, pairs, o)
    ensures disk.Obliging(old(disk.clock)) && !o.error.Nothing? ==>
              o.moved == [] && o.stranded == [] && Left(o.error) == []
    ensures o.error.CouldNotPrepare? <==> LinkRefusedOtherwise(old(disk.refused), disk.refused)
    ensures disk.Obliging(old(disk.clock)) && old(AllFree(disk.names, pairs)) ==> o.error.Nothing?
    ensures disk.OneLinkFails(old(disk.clock), old(disk.clock) + ParentCalls(pairs), |pairs|) ==>
              old(AllFree(disk.names, pairs) && disk.NoDirectories(pairs)) ==> o.error.Nothing?
  {
    var parentError := EnsureParents(disk, pairs);
    if !parentError.Nothing? {
      o := Outcome([], [], Sources(pairs), parentError);
      NothingDone(disk.names, pairs, o);
    } else if exists i :: 0 <= i < |pairs| && disk.IsDirectory(pairs[i].source) {
      o := RenameOutright(disk, pairs);
    } else {
      o := LinkThenUnlink(disk, pairs);
    }
  }

  lemma NothingDone(names: map<Path, nat>, pairs: seq<Pair>, o: Outcome)
    requires Separate(pairs) && o.moved == [] && o.stranded == [] && o.unmoved == Sources(pairs) && Left(o.error) == []
    ensures OthersKept(names, names, pairs) && Truthful(names, names, pairs, o)
  {
    forall i | 0 <= i < |pairs| ensures Told(names, names, pairs[i], o) {
      assert Sources(pairs)[i] == pairs[i].source;
    }
  }

  /** A set with a directory in it: no links, but renames from the start. */
  method RenameOutright(disk: Disk, pairs: seq<Pair>) returns (o: Outcome)
    requires Separate(pairs)
    modifies disk`names, disk`clock, disk`refused
    ensures OthersKept(old(disk.names), disk.names, pairs) && Truthful(old(disk.names), disk.names, pairs, o)
    ensures o.error.Nothing? ==> o.stranded == [] && o.unmoved == []
    ensures Excused(old(disk.refused), disk.refused, pairs, o)
    ensures disk.Obliging(old(disk.clock)) && !o.error.Nothing? ==>
              o.moved == [] && o.stranded == [] && Left(o.error) == []
    ensures !o.error.CouldNotPrepare? && !LinkRefusedOtherwise(old(disk.refused), disk.refused)
    ensures disk.Obliging(old(disk.clock)) && old(AllFree(disk.names, pairs)) ==> o.error.Nothing?
  {
    ghost var before, log := disk.names, disk.refused;
    o := RenameWithRollback(disk, pairs, []);
    KeptIsTakenBack(before, pairs);
    FallbackIsTruthful(before, before, disk.names, pairs, [], o);
    NoLinksOn(log, log, disk.refused);
    FallbackIsExcused(log, log, disk.refused, pairs, [], o);
  }

  lemma KeptIsTakenBack(names: map<Path, nat>, pairs: seq<Pair>)
    ensures TakenBack(names, names, pairs, [])
  {
  }
}
