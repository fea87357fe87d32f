/** `_delete_claimed_directory`: consume a claimed tree, each file re-proved immediately before its unlink. */
module Deletion {
  import opened Options
  import opened Text
  import opened Inodes
  import opened Kernel
  import opened Walks

  /** `_RemovalProgress`. The observer's own callback may raise. */
  class RemovalProgress {
    const total: nat
    const observed: bool
    var removed: nat

    constructor (total: nat, observed: bool)
      ensures removed == 0 && this.total == total && this.observed == observed
    {
      this.total, this.observed, removed := total, observed, 0;
    }

    method Tick(w: World) returns (r: Result<()>)
      modifies `removed, w`clock
      ensures removed == old(removed) + 1
      ensures w.Calm() ==> r.Ok?
    {
      removed := removed + 1;
      if observed {
        var failed := w.Fails();
        if failed { return Raised; }
      }
      return Ok(());
    }
  }

  // ---- what the pass may do ---------------------------------------------------------------

  /** `d` is the directory the claim has at the path `under`; at the empty path it is the claimed source itself. */
  predicate ClaimedAt(entries: Entries, root: Key, under: string, d: Key)
  {
    if under == "" then d == root else under in entries && KeyOf(entries[under].identity) == d
  }

  /** The act takes a name the claim has off the directory the claim has it in: a file as the claim describes it, or a
      directory that is empty by then. */
  ghost predicate ClaimedAct(act: Act, entries: Entries, root: Key, mount: int, contentBound: bool)
  {
    match act
    case Unlinked(dir, name, under, identity, digest, _) =>
      ClaimedAt(entries, root, under, dir) && Rel(under, name) in entries &&
      var expected := entries[Rel(under, name)];
      Agrees(identity, expected.identity) && identity.mount == mount && IsRegular(identity.mode) &&
      (expected.sha256.Some? ==> expected.sha256 == Some(digest)) && (contentBound ==> expected.sha256.Some?)
    case RemovedDirectory(dir, name, under, _, left) =>
      ClaimedAt(entries, root, under, dir) && Rel(under, name) in entries && left == map[]
    case Moved(_, _, _, _, _, _) => false
  }

  /** Every act since `before` is one the claim allows. */
  ghost predicate ClaimedActs(before: seq<Act>, after: seq<Act>, entries: Entries, root: Key, mount: int,
                              contentBound: bool)
  {
    before <= after && forall i :: |before| <= i < |after| ==> ClaimedAct(after[i], entries, root, mount, contentBound)
  }

  /** The last file to go was leased for its own unlink, and the release of that lease failed: it is not counted. */
  predicate Uncounted(before: seq<Act>, after: seq<Act>, contentBound: bool, faults: nat -> bool)
  {
    !contentBound && |before| < |after| && after[|after| - 1].Unlinked? && faults(after[|after| - 1].at + 1)
  }

  /** What a pass over `files` claimed files did since the log was `before`: nothing the claim does not allow; one tick
      for each unlink, but for the last one exactly where it went uncounted; all of it, if it got `through`. */
  ghost predicate Accounts(before: seq<Act>, after: seq<Act>, entries: Entries, root: Key, mount: int,
                           contentBound: bool, faults: nat -> bool, unlinks: int, ticks: int, files: nat, through: bool)
  {
    ClaimedActs(before, after, entries, root, mount, contentBound) && 0 <= ticks &&
    unlinks == ticks + (if Uncounted(before, after, contentBound, faults) then 1 else 0) &&
    unlinks <= files && (through ==> unlinks == ticks) && (through && WellFormed(entries) ==> ticks == files)
  }

  lemma AccountsOn(before: seq<Act>, mid: seq<Act>, after: seq<Act>, entries: Entries, root: Key, mount: int,
                   contentBound: bool, faults: nat -> bool, unlinks: int, ticks: int, files: nat,
                   more: int, moreTicks: int, moreFiles: nat, through: bool)
    requires Accounts(before, mid, entries, root, mount, contentBound, faults, unlinks, ticks, files, true)
    requires Accounts(mid, after, entries, root, mount, contentBound, faults, more, moreTicks, moreFiles, through)
    ensures Accounts(before, after, entries, root, mount, contentBound, faults, unlinks + more, ticks + moreTicks,
                     files + moreFiles, through)
  {
  }

  // ---- what stays put ------------------------------------------------------------------------

  /** The inodes the claim names below `prefix`. */
  ghost function Claimed(entries: Entries, prefix: string): set<Key>
  {
    set relative | relative in Under(entries, prefix) :: KeyOf(entries[relative].identity)
  }

  /** Each claimed inode has one name in the tree. */
  ghost predicate OneName(entries: Entries)
  {
    forall a, b :: ShareInode(entries, a, b) ==> a == b
  }

  predicate ShareInode(entries: Entries, a: string, b: string)
  {
    a in entries && b in entries && KeyOf(entries[a].identity) == KeyOf(entries[b].identity)
  }

  ghost predicate SameAt(before: Nodes, after: Nodes, k: Key)
  {
    (k in before <==> k in after) && (k in before ==> before[k] == after[k])
  }

  /** Nothing changed but the inodes in `touched`. */
  ghost predicate SameBut(before: Nodes, after: Nodes, touched: set<Key>)
  {
    forall k :: k !in touched ==> SameAt(before, after, k)
  }

  lemma {:induction false} ResolvesAlike(before: Nodes, after: Nodes, d: Key, entries: Entries, mount: int,
                                         prefix: string, s: string)
    requires Exact(before, d, entries, mount, prefix)
    requires Kids(before, d) == Kids(after, d) && forall k <- Claimed(entries, prefix) :: SameAt(before, after, k)
    ensures Resolve(before, d, s) == Resolve(after, d, s)
    decreases |s|
  {
    var k := SlashAt(s);
    ExactGivesLevel(before, d, entries, mount, prefix);
    if s[..k] in Kids(before, d) && k < |s| {
      var name: Name := s[..k];
      var kid := Kids(before, d)[name];
      assert ChildExact(before, d, entries, mount, prefix, name);
      ClaimedHas(entries, prefix, name);
      if IsDirectory(before[kid].mode) {
        ResolvesAlike(before, after, kid, entries, mount, Rel(prefix, name), s[k + 1..]);
      }
    }
  }

  lemma ClaimedHas(entries: Entries, prefix: string, name: Name)
    requires Rel(prefix, name) in entries
    ensures KeyOf(entries[Rel(prefix, name)].identity) in Claimed(entries, prefix)
    ensures Claimed(entries, Rel(prefix, name)) <= Claimed(entries, prefix)
  {
    RestOfRel(prefix, name);
    assert Rel(prefix, name) in Under(entries, prefix);
    UnderShrinks(entries, prefix, name);
  }

  /** A tree stays exactly as claimed while none of its own inodes change. */
  lemma ExactFrame(before: Nodes, after: Nodes, d: Key, entries: Entries, mount: int, prefix: string)
    requires Exact(before, d, entries, mount, prefix)
    requires Kids(before, d) == Kids(after, d) && forall k <- Claimed(entries, prefix) :: SameAt(before, after, k)
    ensures Exact(after, d, entries, mount, prefix)
  {
    forall s ensures ExactAt(after, d, entries, mount, prefix, s) {
      assert ExactAt(before, d, entries, mount, prefix, s);
      ResolvesAlike(before, after, d, entries, mount, prefix, s);
      RestOfRel(prefix, s);
      if Rel(prefix, s) in entries {
        assert Rel(prefix, s) in Under(entries, prefix);
        assert KeyOf(entries[Rel(prefix, s)].identity) in Claimed(entries, prefix);
      }
    }
  }

  /** What consuming one name of a level may touch: the directory, the named inode, everything claimed below. */
  ghost function Touched(entries: Entries, d: Key, prefix: string, name: Name): set<Key>
    requires Rel(prefix, name) in entries
  {
    {d, KeyOf(entries[Rel(prefix, name)].identity)} + Claimed(entries, Rel(prefix, name))
  }

  /** Consuming one name leaves its siblings exactly as claimed. */
  lemma SiblingStands(before: Nodes, after: Nodes, d: Key, entries: Entries, mount: int, prefix: string,
                      name: Name, other: Name)
    requires ChildExact(before, d, entries, mount, prefix, other) && other != name
    requires Rel(prefix, name) in entries && OneName(entries) && d !in Claimed(entries, prefix)
    requires SameBut(before, after, Touched(entries, d, prefix, name))
    requires other in Kids(after, d) && Kids(after, d)[other] == Kids(before, d)[other]
    ensures ChildExact(after, d, entries, mount, prefix, other)
  {
    var rel := Rel(prefix, other);
    var kid := Kids(before, d)[other];
    ClaimedHas(entries, prefix, other);
    RestOfRel(prefix, name);
    RestOfRel(prefix, other);
    forall relative | relative in Under(entries, rel) || relative == rel
      ensures SameAt(before, after, KeyOf(entries[relative].identity))
    {
      SiblingApart(entries, prefix, name, other, relative);
      assert KeyOf(entries[relative].identity) in Claimed(entries, prefix);
      assert KeyOf(entries[relative].identity) !in Touched(entries, d, prefix, name);
    }
    if IsDirectory(before[kid].mode) {
      ExactFrame(before, after, kid, entries, mount, rel);
    }
  }

  lemma SiblingApart(entries: Entries, prefix: string, name: Name, other: Name, relative: string)
    requires name != other && Rel(prefix, name) in entries && Rel(prefix, other) in entries && OneName(entries)
    requires relative in Under(entries, Rel(prefix, other)) || relative == Rel(prefix, other)
    ensures KeyOf(entries[relative].identity) != KeyOf(entries[Rel(prefix, name)].identity)
    ensures KeyOf(entries[relative].identity) !in Claimed(entries, Rel(prefix, name))
  {
    HeadOf(prefix, name, Rel(prefix, name));
    HeadOf(prefix, other, relative);
    assert !ShareInode(entries, relative, Rel(prefix, name));
    forall taken | taken in Under(entries, Rel(prefix, name))
      ensures KeyOf(entries[taken].identity) != KeyOf(entries[relative].identity)
    {
      HeadOf(prefix, name, taken);
      assert !ShareInode(entries, taken, relative);
    }
  }

  lemma HeadOf(prefix: string, name: Name, relative: string)
    requires Below(Rel(prefix, name), relative) || relative == Rel(prefix, name)
    ensures Below(prefix, relative) && Head(Rest(prefix, relative)) == name
  {
    if Below(Rel(prefix, name), relative) {
      HeadBelow(prefix, name, relative);
    } else {
      RestOfRel(prefix, name);
      SlashAfterName(name, "");
      assert name[..|name|] == name;
    }
  }

  // ---- the pass --------------------------------------------------------------------------------

  /** Nothing stands in the way of consuming the claim below `prefix`. */
  ghost predicate Consumable(nodes: Nodes, d: Key, entries: Entries, mount: int, prefix: string, room: int,
                             leased: map<string, Key>, contentBound: bool, sha256: seq<bv8> -> string)
  {
    Ready(nodes, d, entries, prefix, room, leased, contentBound) &&
    Exact(nodes, d, entries, mount, prefix) && OneName(entries) && d !in Claimed(entries, prefix) &&
    HashesHold(nodes, entries, prefix, contentBound, sha256)
  }

  /** The same for one name of a level. */
  ghost predicate ChildConsumable(nodes: Nodes, d: Key, entries: Entries, mount: int, prefix: string, name: Name,
                                  room: int, leased: map<string, Key>, contentBound: bool,
                                  sha256: seq<bv8> -> string)
  {
    Ready(nodes, d, entries, prefix, room, leased, contentBound) &&
    ChildExact(nodes, d, entries, mount, prefix, name) && OneName(entries) && d !in Claimed(entries, prefix) &&
    forall relative <- FilesAt(entries, prefix, name) :: HashHolds(nodes, entries[relative], contentBound, sha256)
  }

  lemma SiblingConsumable(before: Nodes, after: Nodes, d: Key, entries: Entries, mount: int, prefix: string,
                          name: Name, other: Name, room: int, leased: map<string, Key>, contentBound: bool,
                          sha256: seq<bv8> -> string)
    requires ChildConsumable(before, d, entries, mount, prefix, other, room, leased, contentBound, sha256)
    requires other != name && Rel(prefix, name) in entries
    requires SameBut(before, after, Touched(entries, d, prefix, name))
    requires d in after && IsDirectory(after[d].mode)
    requires other in Kids(after, d) && Kids(after, d)[other] == Kids(before, d)[other]
    ensures ChildConsumable(after, d, entries, mount, prefix, other, room, leased, contentBound, sha256)
  {
    SiblingStands(before, after, d, entries, mount, prefix, name, other);
    forall relative | relative in FilesAt(entries, prefix, other)
      ensures HashHolds(after, entries[relative], contentBound, sha256)
    {
      BelowOrAt(prefix, other, relative);
      SiblingApart(entries, prefix, name, other, relative);
      assert KeyOf(entries[relative].identity) in Claimed(entries, prefix);
      assert KeyOf(entries[relative].identity) !in Touched(entries, d, prefix, name);
      assert HashHolds(before, entries[relative], contentBound, sha256);
    }
  }

  lemma ChildDirectoryConsumable(nodes: Nodes, d: Key, entries: Entries, mount: int, prefix: string, name: Name,
                                 room: int, leased: map<string, Key>, contentBound: bool, sha256: seq<bv8> -> string)
    requires ChildConsumable(nodes, d, entries, mount, prefix, name, room, leased, contentBound, sha256)
    requires IsDirectory(NodeAt(nodes, d, name).mode)
    ensures Slot(nodes, d, name).value != d && room > 0 && d !in Claimed(entries, prefix)
    ensures Matches(nodes, Slot(nodes, d, name).value, entries[Rel(prefix, name)].identity, mount)
    ensures Consumable(nodes, Slot(nodes, d, name).value, entries, mount, Rel(prefix, name), room - 1, leased,
                       contentBound, sha256)
  {
    var rel := Rel(prefix, name);
    ChildReady(nodes, d, entries, mount, prefix, room, leased, contentBound, name);
    ClaimedHas(entries, prefix, name);
    FilesAtDirectory(entries, prefix, name);
    forall relative | relative in Under(entries, rel)
      ensures KeyOf(entries[relative].identity) != KeyOf(entries[rel].identity)
    {
      assert relative != rel && !ShareInode(entries, relative, rel);
    }
  }

  /** One round of the pass. */
  method DeleteEntry(w: World, d: Key, entries: Entries, mount: int, prefix: string, name: Name,
                     leased: map<string, Key>, contentBound: bool, progress: RemovalProgress, ghost root: Key,
                     ghost sure: bool)
    returns (r: Result<()>)
    requires ClaimedAt(entries, root, prefix, d)
    requires sure ==> w.Calm() && ChildConsumable(w.nodes, d, entries, mount, prefix, name, w.limit - w.held, leased,
                                                  contentBound, w.sha256)
    modifies w, progress`removed
    ensures w.OnlyShrank() && w.held == old(w.held)
    ensures Accounts(old(w.acts), w.acts, entries, root, mount, contentBound, w.faults, w.unlinks - old(w.unlinks),
                     progress.removed - old(progress.removed), |FilesAt(entries, prefix, name)|, r.Ok?)
    ensures sure ==> r.Ok? && Consumed(old(w.nodes), w.nodes, d, entries, prefix, name)
    decreases |Under(entries, prefix)|, 0, 2
  {
    var found :- ClaimedChild(w, d, entries, prefix, name);
    var (expected, current) := found;
    if IsDirectory(current.mode) {
      r := DeleteSubdirectory(w, d, entries, mount, prefix, name, leased, contentBound, progress, root, sure);
    } else if IsRegular(current.mode) {
      r := DeleteFile(w, d, entries, mount, prefix, name, current, leased, contentBound, progress, root, sure);
    } else {
      return Raised;
    }
  }

  /** One name of `d` is gone with everything claimed at it, and nothing else is touched. */
  ghost predicate Consumed(before: Nodes, after: Nodes, d: Key, entries: Entries, prefix: string, name: Name)
  {
    Rel(prefix, name) in entries && d in after && IsDirectory(after[d].mode) &&
    Kids(after, d) == Kids(before, d) - {name} &&
    SameBut(before, after, Touched(entries, d, prefix, name))
  }

  /** How many calls stand before the unlink of an entry whose lease the pass takes itself: two for the lease, the
      mount, an `fstat`, and the proof. */
  function ProofTicks(entry: Entry): nat { 4 + ClaimTicks(entry.sha256) }

  /** The regular-file branch: lease, re-prove, unlink, release, tick. */
  method DeleteFile(w: World, d: Key, entries: Entries, mount: int, prefix: string, name: Name, current: Stat,
                    leased: map<string, Key>, contentBound: bool, progress: RemovalProgress, ghost root: Key,
                    ghost sure: bool)
    returns (r: Result<()>)
    requires ClaimedAt(entries, root, prefix, d)
    requires Rel(prefix, name) in entries && Names(w.nodes, d, name)
    requires current == StatOf(Slot(w.nodes, d, name).value, NodeAt(w.nodes, d, name)) && IsRegular(current.mode)
    requires sure ==> w.FairFrom(w.clock, ProofTicks(entries[Rel(prefix, name)]) + 1) &&
                      ChildConsumable(w.nodes, d, entries, mount, prefix, name, w.limit - w.held, leased,
                                      contentBound, w.sha256)
    modifies w, progress`removed
    ensures w.OnlyShrank() && w.held == old(w.held)
    ensures w.unlinks <= old(w.unlinks) + 1
    ensures Accounts(old(w.acts), w.acts, entries, root, mount, contentBound, w.faults, w.unlinks - old(w.unlinks),
                     progress.removed - old(progress.removed), |FilesAt(entries, prefix, name)|, r.Ok?)
    ensures sure ==> w.unlinks == old(w.unlinks) + 1 && Consumed(old(w.nodes), w.nodes, d, entries, prefix, name)
    ensures sure && !contentBound ==>
              |w.acts| == |old(w.acts)| + 1 && w.acts[|old(w.acts)|].Unlinked? &&
              w.acts[|old(w.acts)|].at == old(w.clock) + ProofTicks(entries[Rel(prefix, name)])
    ensures sure && w.Calm() ==> r.Ok?
  {
    var relative := Rel(prefix, name);
    if sure {
      FileReady(w.nodes, d, entries, mount, prefix, name, w.limit - w.held, leased, contentBound, w.sha256);
    }
    FilesAtOne(entries, prefix, name);
    var _ :- ProveFile(w, d, mount, relative, name, entries[relative], current, leased, contentBound);
    r := TakeFile(w, d, entries, mount, prefix, name, contentBound, progress, root);
  }

  lemma FileReady(nodes: Nodes, d: Key, entries: Entries, mount: int, prefix: string, name: Name, room: int,
                  leased: map<string, Key>, contentBound: bool, sha256: seq<bv8> -> string)
    requires ChildConsumable(nodes, d, entries, mount, prefix, name, room, leased, contentBound, sha256)
    requires IsRegular(NodeAt(nodes, d, name).mode)
    ensures Matches(nodes, Slot(nodes, d, name).value, entries[Rel(prefix, name)].identity, mount)
    ensures HashHolds(nodes, entries[Rel(prefix, name)], contentBound, sha256)
    ensures contentBound ==> Rel(prefix, name) in leased && leased[Rel(prefix, name)] == Slot(nodes, d, name).value
  {
    ChildReady(nodes, d, entries, mount, prefix, room, leased, contentBound, name);
    FileAtItself(entries, prefix, name);
  }

  lemma FilesAtOne(entries: Entries, prefix: string, name: Name)
    requires Rel(prefix, name) in entries
    ensures IsRegular(entries[Rel(prefix, name)].identity.mode) ==>
              |FilesAt(entries, prefix, name)| >= 1 && (WellFormed(entries) ==> |FilesAt(entries, prefix, name)| == 1)
  {
    FileAtItself(entries, prefix, name);
    assert FilesAt(entries, prefix, name) == {} ==> Rel(prefix, name) !in FilesAt(entries, prefix, name);
    if WellFormed(entries) && IsRegular(entries[Rel(prefix, name)].identity.mode) {
      FilesAtFile(entries, prefix, name);
    }
  }

  /** The file just re-proved goes: unlink, release, tick. */
  method TakeFile(w: World, d: Key, entries: Entries, mount: int, prefix: string, name: Name, contentBound: bool,
                  progress: RemovalProgress, ghost root: Key)
    returns (r: Result<()>)
    requires ClaimedAt(entries, root, prefix, d)
    requires Rel(prefix, name) in entries && Names(w.nodes, d, name)
    requires IsRegular(NodeAt(w.nodes, d, name).mode) && NodeAt(w.nodes, d, name).mount == mount
    requires FileClaimHolds(NodeAt(w.nodes, d, name), Slot(w.nodes, d, name).value, entries[Rel(prefix, name)].identity,
                            entries[Rel(prefix, name)].sha256, false, contentBound, w.sha256)
    modifies w`nodes, w`clock, w`acts, w`unlinks, progress`removed
    ensures w.OnlyShrank()
    ensures w.unlinks <= old(w.unlinks) + 1
    ensures Accounts(old(w.acts), w.acts, entries, root, mount, contentBound, w.faults, w.unlinks - old(w.unlinks),
                     progress.removed - old(progress.removed), 1, r.Ok?)
    ensures !w.faults(old(w.clock)) ==>
              w.unlinks == old(w.unlinks) + 1 && Consumed(old(w.nodes), w.nodes, d, entries, prefix, name) &&
              |w.acts| == |old(w.acts)| + 1 && w.acts[|old(w.acts)|].Unlinked? &&
              w.acts[|old(w.acts)|].at == old(w.clock)
    ensures w.Calm() ==> r.Ok?
  {
    var _ :- UnlinkClaimed(w, d, entries, mount, prefix, name, contentBound, root);
    if !contentBound {
      var _ :- w.Release();
    }
    r := progress.Tick(w);
  }

  /** The input on which a file that is gone goes uncounted: its entry stands as an identity-only claim has it, and one
      call fails, the release of the lease behind its unlink. */
  method UncountedByOneRelease(w: World, d: Key, entries: Entries, mount: int, prefix: string, name: Name,
                               progress: RemovalProgress, ghost root: Key)
    returns (r: Result<()>)
    requires ClaimedAt(entries, root, prefix, d)
    requires ChildConsumable(w.nodes, d, entries, mount, prefix, name, w.limit - w.held, map[], false, w.sha256)
    requires IsRegular(NodeAt(w.nodes, d, name).mode)
    requires forall tick: nat :: w.faults(tick) <==> tick == w.clock + ProofTicks(entries[Rel(prefix, name)]) + 1
    modifies w, progress`removed
    ensures r.Raised? && w.unlinks == old(w.unlinks) + 1 && progress.removed == old(progress.removed)
    ensures Slot(w.nodes, d, name).None?
  {
    var current := StatOf(Slot(w.nodes, d, name).value, NodeAt(w.nodes, d, name));
    r := DeleteFile(w, d, entries, mount, prefix, name, current, map[], false, progress, root, true);
    assert Uncounted(old(w.acts), w.acts, false, w.faults);
  }

  /** The unlink itself, of a file just re-proved. */
  method UnlinkClaimed(w: World, d: Key, entries: Entries, mount: int, prefix: string, name: Name, contentBound: bool,
                       ghost root: Key)
    returns (r: Result<()>)
    requires ClaimedAt(entries, root, prefix, d)
    requires Rel(prefix, name) in entries && Names(w.nodes, d, name)
    requires IsRegular(NodeAt(w.nodes, d, name).mode) && NodeAt(w.nodes, d, name).mount == mount
    requires FileClaimHolds(NodeAt(w.nodes, d, name), Slot(w.nodes, d, name).value, entries[Rel(prefix, name)].identity,
                            entries[Rel(prefix, name)].sha256, false, contentBound, w.sha256)
    modifies w`nodes, w`clock, w`acts, w`unlinks
    ensures w.OnlyShrank()
    ensures w.clock == old(w.clock) + 1 && w.unlinks == old(w.unlinks) + if r.Ok? then 1 else 0
    ensures r.Raised? ==> w.acts == old(w.acts)
    ensures r.Ok? ==> |w.acts| == |old(w.acts)| + 1 && w.acts[|old(w.acts)|].Unlinked? &&
                      w.acts[|old(w.acts)|].at == old(w.clock) &&
                      ClaimedActs(old(w.acts), w.acts, entries, root, mount, contentBound) &&
                      Consumed(old(w.nodes), w.nodes, d, entries, prefix, name)
    ensures !w.faults(old(w.clock)) ==> r.Ok?
  {
    ghost var before := w.nodes;
    r := w.Unlink(d, name, prefix);
    if r.Ok? {
      UnlinkShrinks(before, w.nodes, d, name);
    }
  }

  lemma FileAtItself(entries: Entries, prefix: string, name: Name)
    requires Rel(prefix, name) in entries
    ensures IsRegular(entries[Rel(prefix, name)].identity.mode) ==> Rel(prefix, name) in FilesAt(entries, prefix, name)
  {
    HeadOf(prefix, name, Rel(prefix, name));
  }

  lemma UnlinkShrinks(before: Nodes, after: Nodes, d: Key, name: Name)
    requires Names(before, d, name)
    requires exists t :: after == WithoutFile(before, d, name, Slot(before, d, name).value, t)
    ensures forall e, other :: Slot(after, e, other) == if (e, other) == (d, name) then None else Slot(before, e, other)
  {
    var k := Slot(before, d, name).value;
    var t :| after == WithoutFile(before, d, name, k, t);
    forall e, other
      ensures Slot(after, e, other) == if (e, other) == (d, name) then None else Slot(before, e, other)
    {
      UnboundSlots(before, d, name, t, e, other);
      StampedSlots(Unbound(before, d, name, t), k, t, e, other);
    }
  }

  /** Everything the code checks between opening a claimed file and unlinking it. */
  method ProveFile(w: World, d: Key, mount: int, relative: string, name: Name, expected: Entry, current: Stat,
                   leased: map<string, Key>, contentBound: bool)
    returns (r: Result<()>)
    requires Names(w.nodes, d, name) && current == StatOf(Slot(w.nodes, d, name).value, NodeAt(w.nodes, d, name))
    requires IsRegular(current.mode)
    modifies w`clock
    ensures r.Ok? ==> var k := Slot(w.nodes, d, name).value;
                      w.nodes[k].mount == mount &&
                      FileClaimHolds(w.nodes[k], k, expected.identity, expected.sha256, false, contentBound, w.sha256)
    ensures r.Ok? ==> w.clock == old(w.clock) + ProofTicks(expected) - if contentBound then 2 else 0
    ensures w.FairFrom(old(w.clock), ProofTicks(expected)) &&
            Matches(w.nodes, Slot(w.nodes, d, name).value, expected.identity, mount) &&
            HashHolds(w.nodes, expected, contentBound, w.sha256) ==>
              (contentBound ==> relative in leased && leased[relative] == Slot(w.nodes, d, name).value) ==> r.Ok?
  {
    var fd: Key;
    if contentBound {
      if relative !in leased { return Raised; }
      fd := leased[relative];
    } else {
      fd :- w.LeaseRegular(d, name);
    }
    var actual :- w.MountOf(fd);
    if actual != mount { return Raised; }
    var identity :- w.Fstat(fd);
    if !EntryMatches(current, identity) { return Raised; }
    r := RequireFileClaim(w, fd, expected.identity, expected.sha256, false, contentBound);
  }

  /** The directory branch: recurse, then remove what the name holds by then, if it is an empty directory. */
  method DeleteSubdirectory(w: World, d: Key, entries: Entries, mount: int, prefix: string, name: Name,
                            leased: map<string, Key>, contentBound: bool, progress: RemovalProgress, ghost root: Key,
                            ghost sure: bool)
    returns (r: Result<()>)
    requires ClaimedAt(entries, root, prefix, d)
    requires Rel(prefix, name) in entries && NamesDirectory(w.nodes, d, name)
    requires sure ==> w.Calm() && ChildConsumable(w.nodes, d, entries, mount, prefix, name, w.limit - w.held, leased,
                                                  contentBound, w.sha256)
    modifies w, progress`removed
    ensures w.OnlyShrank() && w.held == old(w.held)
    ensures Accounts(old(w.acts), w.acts, entries, root, mount, contentBound, w.faults, w.unlinks - old(w.unlinks),
                     progress.removed - old(progress.removed), |FilesAt(entries, prefix, name)|, r.Ok?)
    ensures sure ==> r.Ok? && Consumed(old(w.nodes), w.nodes, d, entries, prefix, name)
    decreases |Under(entries, prefix)|, 0, 1
  {
    ghost var before, kid := w.nodes, Slot(w.nodes, d, name).value;
    if sure { ClaimedKid(w.nodes, d, entries, mount, prefix, name, w.limit - w.held, leased, contentBound, w.sha256); }
    r := EmptySubdirectory(w, d, entries, mount, prefix, name, leased, contentBound, progress, root, sure);
    if r.Raised? { return; }
    ghost var emptied, acts, log := w.nodes, w.acts, old(w.acts);
    if sure { EmptiedIsRemovable(before, emptied, d, entries, prefix, name, kid); }
    r := RmdirClaimed(w, d, name, prefix);
    AccountsWithout(log, acts, w.acts, entries, root, mount, contentBound, w.faults, w.unlinks - old(w.unlinks),
                    progress.removed - old(progress.removed), |FilesAt(entries, prefix, name)|, r.Ok?);
    if sure { SubdirectoryConsumed(before, emptied, w.nodes, d, entries, prefix, name); }
  }

  lemma ClaimedKid(nodes: Nodes, d: Key, entries: Entries, mount: int, prefix: string, name: Name, room: int,
                   leased: map<string, Key>, contentBound: bool, sha256: seq<bv8> -> string)
    requires ChildConsumable(nodes, d, entries, mount, prefix, name, room, leased, contentBound, sha256)
    ensures d !in Claimed(entries, prefix) && Slot(nodes, d, name).Some?
    ensures Slot(nodes, d, name).value == KeyOf(entries[Rel(prefix, name)].identity)
  {
  }

  /** Open the child as claimed and consume what is in it. */
  method EmptySubdirectory(w: World, d: Key, entries: Entries, mount: int, prefix: string, name: Name,
                           leased: map<string, Key>, contentBound: bool, progress: RemovalProgress, ghost root: Key,
                           ghost sure: bool)
    returns (r: Result<()>)
    requires ClaimedAt(entries, root, prefix, d)
    requires Rel(prefix, name) in entries && NamesDirectory(w.nodes, d, name)
    requires sure ==> w.Calm() && ChildConsumable(w.nodes, d, entries, mount, prefix, name, w.limit - w.held, leased,
                                                  contentBound, w.sha256)
    modifies w, progress`removed
    ensures w.OnlyShrank() && w.held == old(w.held)
    ensures Accounts(old(w.acts), w.acts, entries, root, mount, contentBound, w.faults, w.unlinks - old(w.unlinks),
                     progress.removed - old(progress.removed), |FilesAt(entries, prefix, name)|, r.Ok?)
    ensures sure ==>
              r.Ok? && var kid := Slot(old(w.nodes), d, name).value;
              kid in w.nodes && IsDirectory(w.nodes[kid].mode) && w.nodes[kid].kids == map[] &&
              SameBut(old(w.nodes), w.nodes, {kid} + Claimed(entries, Rel(prefix, name)))
    decreases |Under(entries, prefix)|, 0, 0
  {
    var relative := Rel(prefix, name);
    if sure {
      ChildDirectoryConsumable(w.nodes, d, entries, mount, prefix, name, w.limit - w.held, leased, contentBound,
                               w.sha256);
    }
    assert |Under(entries, relative)| < |Under(entries, prefix)| by { UnderShrinks(entries, prefix, name); }
    var child :- EnterClaimed(w, d, name, mount, entries[relative].identity);
    assert FilesAt(entries, prefix, name) == Files(entries, relative) by { FilesAtDirectory(entries, prefix, name); }
    r := DeleteClaimedDirectory(w, child, entries, mount, relative, leased, contentBound, progress, root, sure);
    w.CloseDirectory();
  }

  lemma EmptiedIsRemovable(before: Nodes, emptied: Nodes, d: Key, entries: Entries, prefix: string, name: Name,
                           kid: Key)
    requires Rel(prefix, name) in entries && d !in Claimed(entries, prefix)
    requires Slot(before, d, name) == Some(kid) && kid == KeyOf(entries[Rel(prefix, name)].identity)
    requires SameBut(before, emptied, {kid} + Claimed(entries, Rel(prefix, name)))
    requires kid in emptied && IsDirectory(emptied[kid].mode) && emptied[kid].kids == map[]
    ensures NamesEmptyDirectory(emptied, d, name) && SameAt(before, emptied, d)
  {
    ClaimedHas(entries, prefix, name);
    assert SameAt(before, emptied, d);
  }

  lemma SubdirectoryConsumed(before: Nodes, emptied: Nodes, after: Nodes, d: Key, entries: Entries, prefix: string,
                             name: Name)
    requires Rel(prefix, name) in entries && SameAt(before, emptied, d)
    requires SameBut(before, emptied,
                     {KeyOf(entries[Rel(prefix, name)].identity)} + Claimed(entries, Rel(prefix, name)))
    requires d in after && IsDirectory(after[d].mode) && SameBut(emptied, after, {d})
    requires Kids(after, d) == Kids(emptied, d) - {name}
    ensures Consumed(before, after, d, entries, prefix, name)
  {
    forall k | k !in Touched(entries, d, prefix, name) ensures SameAt(before, after, k) {
      assert SameAt(before, emptied, k) && SameAt(emptied, after, k);
    }
  }

  method RmdirClaimed(w: World, d: Key, name: Name, ghost under: string) returns (r: Result<()>)
    modifies w`nodes, w`clock, w`acts
    ensures w.OnlyShrank()
    ensures r.Raised? ==> w.acts == old(w.acts)
    ensures r.Ok? ==> OneRemoval(old(w.acts), w.acts) && Removes(w.acts[|old(w.acts)|], d, name, under)
    ensures r.Ok? ==> d in w.nodes && IsDirectory(w.nodes[d].mode) && SameBut(old(w.nodes), w.nodes, {d}) &&
                      Kids(w.nodes, d) == old(Kids(w.nodes, d)) - {name}
    ensures w.Calm() && old(NamesEmptyDirectory(w.nodes, d, name)) ==> r.Ok?
  {
    ghost var before := w.nodes;
    r := w.Rmdir(d, name, under);
    if r.Ok? {
      RmdirShrinks(before, w.nodes, d, name);
    }
  }

  /** One more act than before, and it removed an empty directory. */
  ghost predicate OneRemoval(before: seq<Act>, after: seq<Act>)
  {
    before <= after && |after| == |before| + 1 && after[|before|].RemovedDirectory? && after[|before|].left == map[]
  }

  lemma AccountsWithout(before: seq<Act>, mid: seq<Act>, after: seq<Act>, entries: Entries, root: Key, mount: int,
                        contentBound: bool, faults: nat -> bool, unlinks: int, ticks: int, files: nat, through: bool)
    requires Accounts(before, mid, entries, root, mount, contentBound, faults, unlinks, ticks, files, true)
    requires if through then OneRemoval(mid, after) && ClaimedAct(after[|mid|], entries, root, mount, contentBound)
             else after == mid
    ensures Accounts(before, after, entries, root, mount, contentBound, faults, unlinks, ticks, files, through)
  {
  }

  /** The removal of an empty directory. */
  predicate Removes(act: Act, d: Key, name: Name, under: string)
  {
    act.RemovedDirectory? && (act.dir, act.name, act.under) == (d, name, under)
  }

  lemma RmdirShrinks(before: Nodes, after: Nodes, d: Key, name: Name)
    requires Names(before, d, name)
    requires exists t :: after == Unbound(before, d, name, t)
    ensures forall e, other :: Slot(after, e, other) == if (e, other) == (d, name) then None else Slot(before, e, other)
  {
    var t :| after == Unbound(before, d, name, t);
    forall e, other
      ensures Slot(after, e, other) == if (e, other) == (d, name) then None else Slot(before, e, other)
    {
      UnboundSlots(before, d, name, t, e, other);
    }
  }

  /** `_delete_claimed_directory` */
  method DeleteClaimedDirectory(w: World, d: Key, entries: Entries, mount: int, prefix: string,
                                leased: map<string, Key>, contentBound: bool, progress: RemovalProgress,
                                ghost root: Key, ghost sure: bool)
    returns (r: Result<()>)
    requires ClaimedAt(entries, root, prefix, d)
    requires sure ==> w.Calm() && Consumable(w.nodes, d, entries, mount, prefix, w.limit - w.held, leased, contentBound,
                                             w.sha256)
    modifies w, progress`removed
    ensures w.OnlyShrank() && w.held == old(w.held)
    ensures Accounts(old(w.acts), w.acts, entries, root, mount, contentBound, w.faults, w.unlinks - old(w.unlinks),
                     progress.removed - old(progress.removed), |Files(entries, prefix)|, r.Ok?)
    ensures sure ==>
              r.Ok? && d in w.nodes && IsDirectory(w.nodes[d].mode) && w.nodes[d].kids == map[] &&
              SameBut(old(w.nodes), w.nodes, {d} + Claimed(entries, prefix))
    decreases |Under(entries, prefix)|, 3
  {
    assert sure ==> Kids(w.nodes, d).Keys == ExpectedNames(entries, prefix) by {
      if sure { ExactGivesLevel(w.nodes, d, entries, mount, prefix); }
    }
    var names :- ClaimedNames(w, d, entries, prefix);
    if sure {
      AllRemain(w.nodes, d, entries, mount, prefix, names, w.limit - w.held, leased, contentBound, w.sha256);
    }
    ghost var parts := Parts(entries, prefix, names);
    assert Total(parts, |names|) == |Files(entries, prefix)| by { PartsAreFiles(entries, prefix, names); }
    r := DeleteNames(w, d, entries, mount, prefix, names, leased, contentBound, progress, root, sure, parts);
    assert sure ==> Kids(w.nodes, d).Keys == {};
  }

  /** The loop of the pass, over the names of a level that listed as claimed. */
  method DeleteNames(w: World, d: Key, entries: Entries, mount: int, prefix: string, names: seq<Name>,
                     leased: map<string, Key>, contentBound: bool, progress: RemovalProgress, ghost root: Key,
                     ghost sure: bool, ghost parts: seq<set<string>>)
    returns (r: Result<()>)
    requires ClaimedAt(entries, root, prefix, d)
    requires Distinct(names)
    requires |parts| == |names| && forall i :: 0 <= i < |names| ==> parts[i] == FilesAt(entries, prefix, names[i])
    requires sure ==> w.Calm() && Remaining(w.nodes, w.nodes, d, entries, mount, prefix, NamesFrom(names, 0),
                                            w.limit - w.held, leased, contentBound, w.sha256)
    modifies w, progress`removed
    ensures w.OnlyShrank() && w.held == old(w.held)
    ensures Accounts(old(w.acts), w.acts, entries, root, mount, contentBound, w.faults, w.unlinks - old(w.unlinks),
                     progress.removed - old(progress.removed), Total(parts, |names|), r.Ok?)
    ensures sure ==> r.Ok? && Remaining(old(w.nodes), w.nodes, d, entries, mount, prefix, {}, w.limit - w.held,
                                        leased, contentBound, w.sha256)
    decreases |Under(entries, prefix)|, 2
  {
    r := Ok(());
    ghost var start, log, unlinks, ticks := w.nodes, w.acts, w.unlinks, progress.removed;
    for i := 0 to |names|
      invariant w.OnlyShrank() && w.held == old(w.held) && r.Ok?
      invariant Accounts(log, w.acts, entries, root, mount, contentBound, w.faults, w.unlinks - unlinks,
                         progress.removed - ticks, Total(parts, i), true)
      invariant sure ==>
                  Remaining(start, w.nodes, d, entries, mount, prefix, NamesFrom(names, i), w.limit - w.held, leased,
                            contentBound, w.sha256)
    {
      r := DeleteNext(w, d, entries, mount, prefix, names, i, leased, contentBound, progress, root, sure, parts, start,
                      log, unlinks, ticks);
      if r.Raised? {
        TotalGrows(parts, i + 1);
        return;
      }
    }
    assert NamesFrom(names, |names|) == {};
  }

  /** One round of that loop, and what it comes to with the rounds before it. */
  method DeleteNext(w: World, d: Key, entries: Entries, mount: int, prefix: string, names: seq<Name>, i: nat,
                    leased: map<string, Key>, contentBound: bool, progress: RemovalProgress, ghost root: Key,
                    ghost sure: bool, ghost parts: seq<set<string>>, ghost start: Nodes, ghost log: seq<Act>,
                    ghost unlinks: nat, ghost ticks: nat)
    returns (r: Result<()>)
    requires ClaimedAt(entries, root, prefix, d)
    requires i < |names| == |parts| && Distinct(names) && parts[i] == FilesAt(entries, prefix, names[i])
    requires Accounts(log, w.acts, entries, root, mount, contentBound, w.faults, w.unlinks - unlinks,
                      progress.removed - ticks, Total(parts, i), true)
    requires sure ==> w.Calm() && Remaining(start, w.nodes, d, entries, mount, prefix, NamesFrom(names, i),
                                            w.limit - w.held, leased, contentBound, w.sha256)
    modifies w, progress`removed
    ensures w.OnlyShrank() && w.held == old(w.held)
    ensures Accounts(log, w.acts, entries, root, mount, contentBound, w.faults, w.unlinks - unlinks,
                     progress.removed - ticks, Total(parts, i + 1), r.Ok?)
    ensures sure ==> r.Ok? && Remaining(start, w.nodes, d, entries, mount, prefix, NamesFrom(names, i + 1),
                                        w.limit - w.held, leased, contentBound, w.sha256)
    decreases |Under(entries, prefix)|, 1, 2
  {
    ghost var acts, done, told, rest := w.acts, w.unlinks, progress.removed, NamesFrom(names, i);
    assert names[i] in rest && NamesFrom(names, i + 1) == rest - {names[i]} by { NamesFromNext(names, i); }
    r := DeleteRound(w, d, entries, mount, prefix, names[i], leased, contentBound, progress, root, sure, start, rest);
    AccountsOn(log, acts, w.acts, entries, root, mount, contentBound, w.faults, done - unlinks, told - ticks,
               Total(parts, i), w.unlinks - done, progress.removed - told, |parts[i]|, r.Ok?);
  }

  /** The names a level still has to give up. */
  ghost function NamesFrom(names: seq<Name>, i: nat): set<Name>
  {
    set j | i <= j < |names| :: names[j]
  }

  lemma NamesFromNext(names: seq<Name>, i: nat)
    requires i < |names| && Distinct(names)
    ensures names[i] in NamesFrom(names, i) && NamesFrom(names, i + 1) == NamesFrom(names, i) - {names[i]}
  {
  }

  /** The next name, and what still stands behind it. */
  method DeleteRound(w: World, d: Key, entries: Entries, mount: int, prefix: string, name: Name,
                     leased: map<string, Key>, contentBound: bool, progress: RemovalProgress, ghost root: Key,
                     ghost sure: bool, ghost start: Nodes, ghost rest: set<Name>)
    returns (r: Result<()>)
    requires ClaimedAt(entries, root, prefix, d)
    requires sure ==> w.Calm() && name in rest && Remaining(start, w.nodes, d, entries, mount, prefix, rest,
                                                            w.limit - w.held, leased, contentBound, w.sha256)
    modifies w, progress`removed
    ensures w.OnlyShrank() && w.held == old(w.held)
    ensures Accounts(old(w.acts), w.acts, entries, root, mount, contentBound, w.faults, w.unlinks - old(w.unlinks),
                     progress.removed - old(progress.removed), |FilesAt(entries, prefix, name)|, r.Ok?)
    ensures sure ==> r.Ok? && Remaining(start, w.nodes, d, entries, mount, prefix, rest - {name}, w.limit - w.held,
                                        leased, contentBound, w.sha256)
    decreases |Under(entries, prefix)|, 1, 1
  {
    ghost var before := w.nodes;
    r := DeleteTurn(w, d, entries, mount, prefix, name, leased, contentBound, progress, root, sure);
    assert sure ==> Remaining(start, w.nodes, d, entries, mount, prefix, rest - {name}, w.limit - w.held, leased,
                              contentBound, w.sha256) by {
      if sure {
        RemainingNext(start, before, w.nodes, d, entries, mount, prefix, name, rest, w.limit - w.held, leased,
                      contentBound, w.sha256);
      }
    }
  }

  /** The environment's turn, then the next name. */
  method DeleteTurn(w: World, d: Key, entries: Entries, mount: int, prefix: string, name: Name,
                    leased: map<string, Key>, contentBound: bool, progress: RemovalProgress, ghost root: Key,
                    ghost sure: bool)
    returns (r: Result<()>)
    requires ClaimedAt(entries, root, prefix, d)
    requires sure ==> w.Calm() && ChildConsumable(w.nodes, d, entries, mount, prefix, name, w.limit - w.held, leased,
                                                  contentBound, w.sha256)
    modifies w, progress`removed
    ensures w.OnlyShrank() && w.held == old(w.held)
    ensures Accounts(old(w.acts), w.acts, entries, root, mount, contentBound, w.faults, w.unlinks - old(w.unlinks),
                     progress.removed - old(progress.removed), |FilesAt(entries, prefix, name)|, r.Ok?)
    ensures sure ==> r.Ok? && Consumed(old(w.nodes), w.nodes, d, entries, prefix, name)
    decreases |Under(entries, prefix)|, 1, 0
  {
    w.Drift();
    r := DeleteEntry(w, d, entries, mount, prefix, name, leased, contentBound, progress, root, sure);
  }

  lemma AllRemain(nodes: Nodes, d: Key, entries: Entries, mount: int, prefix: string, names: seq<Name>, room: int,
                  leased: map<string, Key>, contentBound: bool, sha256: seq<bv8> -> string)
    requires Consumable(nodes, d, entries, mount, prefix, room, leased, contentBound, sha256)
    requires forall n :: n in names <==> n in Kids(nodes, d)
    ensures Remaining(nodes, nodes, d, entries, mount, prefix, NamesFrom(names, 0), room, leased, contentBound, sha256)
  {
    ExactGivesLevel(nodes, d, entries, mount, prefix);
    assert NamesFrom(names, 0) == Kids(nodes, d).Keys;
    forall name | name in Kids(nodes, d)
      ensures ChildConsumable(nodes, d, entries, mount, prefix, name, room, leased, contentBound, sha256)
    {
      assert FilesAt(entries, prefix, name) <= Files(entries, prefix);
    }
  }

  /** The claimed files of a level, name by name. */
  ghost function Parts(entries: Entries, prefix: string, names: seq<string>): seq<set<string>>
  {
    seq(|names|, i requires 0 <= i < |names| => FilesAt(entries, prefix, names[i]))
  }

  lemma PartsAreFiles(entries: Entries, prefix: string, names: seq<string>)
    requires Distinct(names) && forall name <- ExpectedNames(entries, prefix) :: name in names
    ensures Total(Parts(entries, prefix, names), |names|) == |Files(entries, prefix)|
  {
    PartsApart(entries, prefix, names);
    PartsAddUp(Parts(entries, prefix, names), |names|);
    PartsCover(entries, prefix, names);
  }

  lemma PartsApart(entries: Entries, prefix: string, names: seq<string>)
    requires Distinct(names)
    ensures var parts := Parts(entries, prefix, names); forall i, j :: 0 <= i < j < |parts| ==> parts[i] !! parts[j]
  {
    var parts := Parts(entries, prefix, names);
    forall i, j | 0 <= i < j < |parts| ensures parts[i] !! parts[j] {
      FilesAtApart(entries, prefix, names[i], names[j]);
    }
  }

  lemma FilesAtApart(entries: Entries, prefix: string, a: string, b: string)
    requires a != b
    ensures FilesAt(entries, prefix, a) !! FilesAt(entries, prefix, b)
  {
  }

  lemma PartsCover(entries: Entries, prefix: string, names: seq<string>)
    requires forall name <- ExpectedNames(entries, prefix) :: name in names
    ensures Union(Parts(entries, prefix, names), |names|) == Files(entries, prefix)
  {
    var parts := Parts(entries, prefix, names);
    forall relative | relative in Union(parts, |names|) ensures relative in Files(entries, prefix) {
      InUnion(parts, |names|, relative);
      var j :| 0 <= j < |names| && relative in parts[j];
      assert relative in FilesAt(entries, prefix, names[j]);
    }
    forall relative | relative in Files(entries, prefix) ensures relative in Union(parts, |names|) {
      var j := PartOf(entries, prefix, names, relative);
      InUnion(parts, |names|, relative);
      assert relative in parts[j];
    }
  }

  lemma PartOf(entries: Entries, prefix: string, names: seq<string>, relative: string) returns (j: nat)
    requires forall name <- ExpectedNames(entries, prefix) :: name in names
    requires relative in Files(entries, prefix)
    ensures j < |names| && relative in FilesAt(entries, prefix, names[j])
  {
    var head := Head(Rest(prefix, relative));
    assert head in ExpectedNames(entries, prefix);
    j :| 0 <= j < |names| && names[j] == head;
  }

  /** With the names in `rest` still there: they stand as claimed, and nothing outside the tree was touched. */
  ghost predicate Remaining(start: Nodes, nodes: Nodes, d: Key, entries: Entries, mount: int, prefix: string,
                            rest: set<Name>, room: int, leased: map<string, Key>, contentBound: bool,
                            sha256: seq<bv8> -> string)
  {
    d in nodes && IsDirectory(nodes[d].mode) && Kids(nodes, d).Keys == rest &&
    SameBut(start, nodes, {d} + Claimed(entries, prefix)) &&
    forall name <- rest ::
      ChildConsumable(nodes, d, entries, mount, prefix, name, room, leased, contentBound, sha256)
  }

  lemma RemainingNext(start: Nodes, before: Nodes, after: Nodes, d: Key, entries: Entries, mount: int, prefix: string,
                      name: Name, rest: set<Name>, room: int, leased: map<string, Key>, contentBound: bool,
                      sha256: seq<bv8> -> string)
    requires Remaining(start, before, d, entries, mount, prefix, rest, room, leased, contentBound, sha256)
    requires Consumed(before, after, d, entries, prefix, name)
    ensures Remaining(start, after, d, entries, mount, prefix, rest - {name}, room, leased, contentBound, sha256)
  {
    TouchedWithin(start, before, after, d, entries, prefix, name);
    forall other | other in rest - {name}
      ensures ChildConsumable(after, d, entries, mount, prefix, other, room, leased, contentBound, sha256)
    {
      SiblingConsumable(before, after, d, entries, mount, prefix, name, other, room, leased, contentBound, sha256);
    }
  }

  lemma TouchedWithin(start: Nodes, before: Nodes, after: Nodes, d: Key, entries: Entries, prefix: string, name: Name)
    requires SameBut(start, before, {d} + Claimed(entries, prefix))
    requires Consumed(before, after, d, entries, prefix, name)
    ensures SameBut(start, after, {d} + Claimed(entries, prefix))
  {
    ClaimedHas(entries, prefix, name);
    forall k | k !in {d} + Claimed(entries, prefix) ensures SameAt(start, after, k) {
      assert SameAt(start, before, k) && SameAt(before, after, k);
    }
  }
}
