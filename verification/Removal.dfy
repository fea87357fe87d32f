/** `claim_source`, `remove_claimed` and `rename_claimed`: claim a tree, then remove or rename exactly it. */
module Removal {
  import opened Options
  import opened Text
  import opened Inodes
  import opened Kernel
  import opened Walks
  import opened Deletion

  // ---- claims and outcomes ------------------------------------------------------------

  datatype Claim = Claim(sourcePath: string, safeRoot: string, identity: Identity, sha256: Option<string>,
                         entries: Entries, contentBound: bool)

  /** What `_open_parent` comes back with. */
  datatype Anchor = NoParent | Refused | Parent(dir: Key, name: Name)

  datatype Outcome = Outcome(success: bool, changed: bool, ambiguous: bool)

  const ABSENT := Outcome(true, false, false)
  const CHANGED := Outcome(true, true, false)
  const UNCERTAIN := Outcome(false, true, true)

  /** Where a run's exception left it: nothing was staged; the one `stat` outside the `try` failed; or the
      refusal was rolled back first. */
  datatype Site = BeforeStaging | AfterStaging | RolledBack

  datatype Run = Done(outcome: Outcome) | RaisedAt(site: Site)

  /** `_claimed_file_count` */
  function ClaimedFileCount(claim: Claim): nat
  {
    if !claim.identity.present then 0
    else if IsDirectory(claim.identity.mode) then |Files(claim.entries, "")|
    else 1
  }

  /** `staging_prefix(name)` and the inode number */
  function StagingName(name: Name, inode: nat): Name
  {
    var staged := "." + name + ".romm-prune-" + Numeral(inode);
    assert '/' !in Numeral(inode);
    staged
  }

  lemma StagingNameDiffers(name: Name, inode: nat)
    ensures StagingName(name, inode) != name
  {
    assert |StagingName(name, inode)| > |name|;
  }

  /** `_require_identity` */
  predicate IdentityHolds(current: Option<Stat>, expected: Identity)
  {
    if !expected.present then current.None?
    else current.Some? && IdentityForStat(current.value, expected.mount) == expected
  }

  /** `_require_claimed_identity` */
  predicate ClaimedIdentityHolds(current: Option<Stat>, expected: Identity)
  {
    current.Some? && expected.present && AgreesWhenMoved(IdentityForStat(current.value, expected.mount), expected)
  }

  // ---- a claim that describes what stands at a name -----------------------------------------

  /** The claim is a true record of what `name` leads to. */
  ghost predicate Describes(nodes: Nodes, dir: Key, name: Name, claim: Claim, sha256: seq<bv8> -> string)
  {
    Names(nodes, dir, name) && DescribesNode(nodes, Slot(nodes, dir, name).value, claim, sha256) &&
    IdentityOf(Slot(nodes, dir, name).value, NodeAt(nodes, dir, name)) == claim.identity
  }

  ghost predicate DescribesNode(nodes: Nodes, k: Key, claim: Claim, sha256: seq<bv8> -> string)
  {
    k in nodes &&
    if IsDirectory(nodes[k].mode) then
      IsInventory(nodes, k, claim.identity.mount, "", claim.entries, claim.contentBound, sha256) && claim.sha256.None?
    else
      IsRegular(nodes[k].mode) && claim.entries == map[] &&
      claim.sha256 == if claim.contentBound then Some(sha256(nodes[k].bytes)) else None
  }

  /** What `claim_source` makes: hashes of regular files only, and of all of them or none. */
  predicate Shaped(claim: Claim)
  {
    claim.identity.present &&
    if IsDirectory(claim.identity.mode) then claim.sha256.None?
    else IsRegular(claim.identity.mode) && claim.entries == map[] && (claim.sha256.Some? <==> claim.contentBound)
  }

  /** The inode has the content the claim records: the whole inventory of a directory, or the hash of a file. */
  ghost predicate BornOut(nodes: Nodes, k: Key, claim: Claim, directory: bool, moved: bool, sha256: seq<bv8> -> string)
  {
    k in nodes &&
    if directory then
      IsDirectory(nodes[k].mode) &&
      IsInventory(nodes, k, claim.identity.mount, "", claim.entries, claim.contentBound, sha256)
    else FileClaimHolds(nodes[k], k, claim.identity, claim.sha256, moved, claim.contentBound, sha256)
  }

  /** The inode is the sealed source, whole: its identity, the change time of a rename apart, and its content. */
  ghost predicate Sealed(nodes: Nodes, k: Key, claim: Claim, sha256: seq<bv8> -> string)
  {
    k in nodes && claim.identity.present &&
    AgreesWhenMoved(IdentityForStat(StatOf(k, nodes[k]), claim.identity.mount), claim.identity) &&
    BornOut(nodes, k, claim, IsDirectory(nodes[k].mode), true, sha256)
  }

  lemma SealedIsDescribed(nodes: Nodes, k: Key, claim: Claim, sha256: seq<bv8> -> string)
    requires Sealed(nodes, k, claim, sha256) && Shaped(claim)
    ensures DescribesNode(nodes, k, claim, sha256) && k == KeyOf(claim.identity)
  {
  }

  lemma InventoryIsUnique(nodes: Nodes, d: Key, mount: int, a: Entries, b: Entries, digest: bool,
                          sha256: seq<bv8> -> string)
    requires IsInventory(nodes, d, mount, "", a, digest, sha256) && IsInventory(nodes, d, mount, "", b, digest, sha256)
    ensures a == b
  {
    forall relative ensures relative in a <==> relative in b {
      assert ExactAt(nodes, d, a, mount, "", relative) && ExactAt(nodes, d, b, mount, "", relative);
    }
    forall relative | relative in a ensures a[relative] == b[relative] {
      assert ExactAt(nodes, d, a, mount, "", relative) && ExactAt(nodes, d, b, mount, "", relative);
      assert EntryHashed(nodes, a[relative], digest, sha256) && EntryHashed(nodes, b[relative], digest, sha256);
    }
  }

  /** `claim_source` */
  method ClaimSource(w: World, path: string, safeRoot: string, anchor: Anchor, digest: bool, ghost sure: bool)
    returns (r: Result<Claim>)
    requires sure ==> w.Calm() && anchor.Parent? && Claimable(w.nodes, anchor.dir, anchor.name, w.limit - w.held)
    modifies w
    ensures w.OnlyDrifted() && w.held == old(w.held)
    ensures r.Ok? ==> r.value.sourcePath == path && r.value.safeRoot == safeRoot && r.value.contentBound == digest
    ensures r.Ok? && r.value.identity.present ==> Shaped(r.value)
    ensures r.Ok? && !r.value.identity.present <==> NothingAt(old(w.nodes), anchor, old(w.clock), w.faults)
    ensures r.Ok? && !r.value.identity.present && anchor.Parent? ==> w.clock == old(w.clock) + 1
    ensures r.Ok? && !r.value.identity.present ==> w.nodes == old(w.nodes)
    ensures r.Ok? && w.Still() ==>
              if r.value.identity.present then
                anchor.Parent? && Describes(w.nodes, anchor.dir, anchor.name, r.value, w.sha256) &&
                w.nodes[Slot(w.nodes, anchor.dir, anchor.name).value].mount == w.nodes[anchor.dir].mount
              else anchor.NoParent? || (anchor.Parent? && !Names(w.nodes, anchor.dir, anchor.name))
    ensures sure ==> r.Ok? && r.value.identity.present
  {
    match anchor {
      case NoParent => return Ok(Claim(path, safeRoot, MISSING, None, map[], digest));
      case Refused => return Raised;
      case Parent(dir, name) =>
        var current :- w.StatName(dir, name);
        if current.None? { return Ok(Claim(path, safeRoot, MISSING, None, map[], digest)); }
        if IsRegular(current.value.mode) {
          var entry :- ClaimFile(w, dir, name, current.value, digest);
          return Ok(Claim(path, safeRoot, entry.identity, entry.sha256, map[], digest));
        }
        if !IsDirectory(current.value.mode) { return Raised; }
        var fd :- w.OpenDirectory(dir, name);
        var taken := ClaimDirectory(w, dir, fd, current.value, digest, sure);
        w.CloseDirectory();
        if taken.Raised? { return Raised; }
        return Ok(Claim(path, safeRoot, taken.value.0, None, taken.value.1, digest));
    }
  }

  /** What a claim can be taken of. */
  ghost predicate Claimable(nodes: Nodes, dir: Key, name: Name, room: int)
  {
    dir in nodes && Names(nodes, dir, name) &&
    var k := Slot(nodes, dir, name).value;
    nodes[k].mount == nodes[dir].mount &&
    (IsRegular(nodes[k].mode) ||
     (IsDirectory(nodes[k].mode) && room > 0 && Walkable(nodes, k, nodes[k].mount, room - 1)))
  }

  method ClaimFile(w: World, dir: Key, name: Name, current: Stat, digest: bool) returns (r: Result<Entry>)
    modifies w`clock
    ensures r.Ok? ==> Names(w.nodes, dir, name) && dir in w.nodes && var k := Slot(w.nodes, dir, name).value;
                      w.nodes[k].mount == w.nodes[dir].mount && EntryMatches(current, r.value.identity) &&
                      r.value.identity == IdentityOf(k, w.nodes[k]) &&
                      r.value.sha256 == if digest then Some(w.sha256(w.nodes[k].bytes)) else None
    ensures w.Calm() && dir in w.nodes && Names(w.nodes, dir, name) ==>
              var k := Slot(w.nodes, dir, name).value;
              w.nodes[k].mount == w.nodes[dir].mount && IsRegular(w.nodes[k].mode) && current == StatOf(k, w.nodes[k])
              ==> r.Ok?
  {
    var mount :- w.MountOf(dir);
    r := InventoryFile(w, dir, name, current, mount, digest);
  }

  method ClaimDirectory(w: World, dir: Key, fd: Key, current: Stat, digest: bool, ghost sure: bool)
    returns (r: Result<(Identity, Entries)>)
    requires sure ==> w.Calm() && dir in w.nodes && fd in w.nodes && w.nodes[fd].mount == w.nodes[dir].mount &&
                      current == StatOf(fd, w.nodes[fd]) && Walkable(w.nodes, fd, w.nodes[fd].mount, w.limit - w.held)
    modifies w
    ensures w.OnlyDrifted() && w.held == old(w.held)
    ensures r.Ok? ==> r.value.0.present && r.value.0.mode == current.mode
    ensures r.Ok? && w.Still() ==>
              fd in w.nodes && dir in w.nodes && w.nodes[fd].mount == w.nodes[dir].mount &&
              r.value.0 == IdentityOf(fd, w.nodes[fd]) && EntryMatches(current, r.value.0) &&
              IsInventory(w.nodes, fd, r.value.0.mount, "", r.value.1, digest, w.sha256)
    ensures sure ==> r.Ok?
  {
    var outer :- w.MountOf(dir);
    var inner :- w.MountOf(fd);
    if inner != outer { return Raised; }
    var identity :- w.Fstat(fd);
    if !EntryMatches(current, identity) { return Raised; }
    var entries :- InventoryDirectory(w, fd, identity.mount, "", digest, sure);
    return Ok((identity, entries));
  }

  // ---- removal ---------------------------------------------------------------------------------

  /** `_lease_claimed_source`: hold writers off and refuse any drift since sealing. Nothing is changed. */
  method LeaseClaimedSource(w: World, dir: Key, temporary: Name, current: Stat, claim: Claim, ghost sure: bool)
    returns (r: Result<map<string, Key>>)
    requires sure ==> w.Calm() && Staged(w.nodes, dir, temporary, current, claim, w.limit - w.held, w.sha256)
    modifies w
    ensures w.OnlyDrifted() && w.held == old(w.held)
    ensures r.Ok? && w.Still() ==> Slot(w.nodes, dir, temporary).Some? &&
                                   BornOut(w.nodes, Slot(w.nodes, dir, temporary).value, claim,
                                           IsDirectory(current.mode), true, w.sha256)
    ensures r.Ok? ==> !w.faults(old(w.clock)) && (IsDirectory(current.mode) ==> WellFormed(claim.entries))
    ensures sure ==> r.Ok? && Held(w.nodes, dir, temporary, current, claim, r.value)
  {
    if IsDirectory(current.mode) {
      var fd :- w.OpenDirectory(dir, temporary);
      var matched := InventoryMatches(w, dir, fd, claim, sure);
      w.CloseDirectory();
      if matched.Raised? { return Raised; }
      fd :- w.OpenDirectory(dir, temporary);
      r := LeaseAndValidate(w, fd, claim, sure);
      w.CloseDirectory();
    } else if claim.entries != map[] {
      return Raised;
    } else {
      var fd :- w.LeaseRegular(dir, temporary);
      var outer :- w.MountOf(dir);
      var inner :- w.MountOf(fd);
      if inner != outer { return Raised; }
      var _ :- RequireFileClaim(w, fd, claim.identity, claim.sha256, true, claim.contentBound);
      return Ok(map["" := fd]);
    }
  }

  /** The staged source is still what the claim describes, its change time apart. */
  ghost predicate Staged(nodes: Nodes, dir: Key, temporary: Name, current: Stat, claim: Claim, room: int,
                         sha256: seq<bv8> -> string)
  {
    dir in nodes && IsDirectory(nodes[dir].mode) && Names(nodes, dir, temporary) && claim.identity.present &&
    var k := Slot(nodes, dir, temporary).value;
    AgreesWhenMoved(IdentityOf(k, nodes[k]), claim.identity) && nodes[k].mount == nodes[dir].mount &&
    current.mode == nodes[k].mode && DescribesNode(nodes, k, claim, sha256) && WellFormed(claim.entries) &&
    (IsDirectory(current.mode) ==>
       room > 0 && Walkable(nodes, k, claim.identity.mount, room - 1) && Fits(claim.entries, "", room - 1) &&
       OneName(claim.entries) && dir != k && dir !in Claimed(claim.entries, "") && k !in Claimed(claim.entries, ""))
  }

  /** What the lease pass holds is what the delete pass needs. */
  ghost predicate Held(nodes: Nodes, dir: Key, temporary: Name, current: Stat, claim: Claim, leased: map<string, Key>)
  {
    if IsDirectory(current.mode) then Holding(claim.entries, "", leased, claim.contentBound)
    else Slot(nodes, dir, temporary).Some? && "" in leased && leased[""] == Slot(nodes, dir, temporary).value
  }

  /** The whole staged tree is inventoried afresh and compared with the claim. */
  method InventoryMatches(w: World, dir: Key, fd: Key, claim: Claim, ghost sure: bool) returns (r: Result<()>)
    requires sure ==> w.Calm() && dir in w.nodes && fd in w.nodes && w.nodes[fd].mount == w.nodes[dir].mount &&
                      Walkable(w.nodes, fd, claim.identity.mount, w.limit - w.held) &&
                      IsInventory(w.nodes, fd, claim.identity.mount, "", claim.entries, claim.contentBound, w.sha256)
    modifies w
    ensures w.OnlyDrifted() && w.held == old(w.held)
    ensures r.Ok? && w.Still() ==>
              IsInventory(w.nodes, fd, claim.identity.mount, "", claim.entries, claim.contentBound, w.sha256)
    ensures r.Ok? ==> WellFormed(claim.entries)
    ensures sure ==> r.Ok?
  {
    var outer :- w.MountOf(dir);
    var inner :- w.MountOf(fd);
    if inner != outer { return Raised; }
    var actual :- InventoryDirectory(w, fd, claim.identity.mount, "", claim.contentBound, sure);
    if sure {
      InventoryIsUnique(w.nodes, fd, claim.identity.mount, actual, claim.entries, claim.contentBound, w.sha256);
    }
    if actual != claim.entries { return Raised; }
    return Ok(());
  }

  method LeaseAndValidate(w: World, fd: Key, claim: Claim, ghost sure: bool) returns (r: Result<map<string, Key>>)
    requires sure ==> w.Calm() && Ready(w.nodes, fd, claim.entries, "", w.limit - w.held, map[], false) &&
                      WellFormed(claim.entries) &&
                      IsInventory(w.nodes, fd, claim.identity.mount, "", claim.entries, claim.contentBound, w.sha256)
    modifies w
    ensures w.OnlyDrifted() && w.held == old(w.held)
    ensures sure ==> r.Ok? && Holding(claim.entries, "", r.value, claim.contentBound)
  {
    var leased: map<string, Key> := map[];
    if claim.contentBound {
      if sure { HashedHolds(w.nodes, claim.entries, claim.contentBound, w.sha256); }
      leased :- AcquireDirectoryLeases(w, fd, claim.entries, claim.identity.mount, "", sure);
    }
    var _ :- ValidateClaimedDirectory(w, fd, claim.entries, claim.identity.mount, "", leased, claim.contentBound, sure);
    return Ok(leased);
  }

  lemma HashedHolds(nodes: Nodes, entries: Entries, contentBound: bool, sha256: seq<bv8> -> string)
    requires Hashed(nodes, entries, contentBound, sha256)
    ensures HashesHold(nodes, entries, "", contentBound, sha256)
  {
    forall relative | relative in Files(entries, "")
      ensures HashHolds(nodes, entries[relative], contentBound, sha256)
    {
      assert EntryHashed(nodes, entries[relative], contentBound, sha256);
    }
  }

  /** An act the claim allows: on one of its entries, in the tree below `root`; or on the source itself, as staged. */
  ghost predicate SourceAct(act: Act, claim: Claim, root: Option<Key>, dir: Key, temporary: Name)
  {
    (root.Some? && ClaimedAct(act, claim.entries, root.value, claim.identity.mount, claim.contentBound)) ||
    (Removes(act, dir, temporary, "") && act.left == map[]) ||
    (act.Unlinked? && act.dir == dir && act.name == temporary &&
     AgreesWhenMoved(act.identity, claim.identity) &&
     (claim.sha256.Some? ==> claim.sha256 == Some(act.digest)) && (claim.contentBound ==> claim.sha256.Some?))
  }

  ghost predicate SourceActs(before: seq<Act>, after: seq<Act>, claim: Claim, root: Option<Key>, dir: Key,
                             temporary: Name)
  {
    before <= after && forall i :: |before| <= i < |after| ==> SourceAct(after[i], claim, root, dir, temporary)
  }

  /** The name an unlink or an `rmdir` took away. */
  function Taking(act: Act): Option<(Key, Name)>
  {
    if act.Moved? then None else Some((act.dir, act.name))
  }

  /** The last act took the staging name itself away. */
  predicate EndsWith(before: seq<Act>, after: seq<Act>, dir: Key, temporary: Name)
  {
    |before| < |after| && Taking(after[|after| - 1]) == Some((dir, temporary))
  }

  /** What is reported of a removal that took `unlinks` files: all but the last, exactly where the lease of that one
      file failed to be released; and every claimed file, if it got `through`. */
  ghost predicate Told(before: seq<Act>, after: seq<Act>, directory: bool, claim: Claim, faults: nat -> bool,
                       unlinks: int, ticks: int, through: bool)
  {
    var files := if directory then |Files(claim.entries, "")| else 1;
    0 <= ticks && unlinks <= files &&
    unlinks == ticks + (if Uncounted(before, after, claim.contentBound || !directory, faults) then 1 else 0) &&
    (through ==> unlinks == ticks) && (through && (directory ==> WellFormed(claim.entries)) ==> ticks == files)
  }

  /** `_unlink_claimed_source` */
  method UnlinkClaimedSource(w: World, dir: Key, temporary: Name, current: Stat, claim: Claim,
                             leased: map<string, Key>, progress: RemovalProgress, ghost sure: bool)
    returns (r: Result<()>)
    requires sure ==> w.Calm() && Staged(w.nodes, dir, temporary, current, claim, w.limit - w.held, w.sha256) &&
                      Held(w.nodes, dir, temporary, current, claim, leased)
    modifies w, progress`removed
    ensures w.OnlyShrank() && w.held == old(w.held)
    ensures SourceActs(old(w.acts), w.acts, claim, old(Slot(w.nodes, dir, temporary)), dir, temporary)
    ensures Told(old(w.acts), w.acts, IsDirectory(current.mode), claim, w.faults, w.unlinks - old(w.unlinks),
                 progress.removed - old(progress.removed), r.Ok?)
    ensures r.Ok? ==> Slot(w.nodes, dir, temporary).None? && EndsWith(old(w.acts), w.acts, dir, temporary)
    ensures sure ==> r.Ok? && Emptied(old(w.nodes), w.nodes, dir, temporary, claim)
  {
    if IsDirectory(current.mode) {
      r := UnlinkTree(w, dir, temporary, current, claim, leased, progress, sure);
    } else {
      r := UnlinkOne(w, dir, temporary, current, claim, leased, progress, sure);
    }
  }

  /** The name is gone, and of everything outside the claimed tree only its directory changed. */
  ghost predicate Emptied(before: Nodes, after: Nodes, dir: Key, temporary: Name, claim: Claim)
  {
    Slot(before, dir, temporary).Some? && dir in after &&
    Kids(after, dir) == Kids(before, dir) - {temporary} &&
    SameBut(before, after, {dir, Slot(before, dir, temporary).value} + Claimed(claim.entries, ""))
  }

  method UnlinkTree(w: World, dir: Key, temporary: Name, current: Stat, claim: Claim,
                    leased: map<string, Key>, progress: RemovalProgress, ghost sure: bool)
    returns (r: Result<()>)
    requires IsDirectory(current.mode)
    requires sure ==> w.Calm() && Staged(w.nodes, dir, temporary, current, claim, w.limit - w.held, w.sha256) &&
                      Held(w.nodes, dir, temporary, current, claim, leased)
    modifies w, progress`removed
    ensures w.OnlyShrank() && w.held == old(w.held)
    ensures SourceActs(old(w.acts), w.acts, claim, old(Slot(w.nodes, dir, temporary)), dir, temporary)
    ensures Told(old(w.acts), w.acts, true, claim, w.faults, w.unlinks - old(w.unlinks),
                 progress.removed - old(progress.removed), r.Ok?)
    ensures r.Ok? ==> Slot(w.nodes, dir, temporary).None? && EndsWith(old(w.acts), w.acts, dir, temporary)
    ensures sure ==> r.Ok? && Emptied(old(w.nodes), w.nodes, dir, temporary, claim)
  {
    ghost var before, root, log := w.nodes, Slot(w.nodes, dir, temporary), w.acts;
    r := EmptyTree(w, dir, temporary, current, claim, leased, progress, sure);
    ghost var acts, emptied := w.acts, r.Ok?;
    ghost var emptiedNodes := w.nodes;
    if r.Ok? {
      if sure { EmptiedSource(before, w.nodes, dir, temporary, claim); }
      r := RmdirSource(w, dir, temporary);
    }
    if sure { SourceEmptied(before, emptiedNodes, w.nodes, dir, temporary, claim); }
    TreeIsTold(log, acts, w.acts, claim, root, dir, temporary, w.faults, w.unlinks - old(w.unlinks),
               progress.removed - old(progress.removed), emptied, r.Ok?);
  }

  lemma EmptiedSource(before: Nodes, mid: Nodes, dir: Key, temporary: Name, claim: Claim)
    requires Slot(before, dir, temporary).Some? && dir in before && dir != Slot(before, dir, temporary).value
    requires dir !in Claimed(claim.entries, "")
    requires SameBut(before, mid, {Slot(before, dir, temporary).value} + Claimed(claim.entries, ""))
    requires var k := Slot(before, dir, temporary).value; k in mid && IsDirectory(mid[k].mode) && mid[k].kids == map[]
    ensures SameAt(before, mid, dir) && NamesEmptyDirectory(mid, dir, temporary)
  {
    assert SameAt(before, mid, dir);
  }

  lemma SourceEmptied(before: Nodes, mid: Nodes, after: Nodes, dir: Key, temporary: Name, claim: Claim)
    requires Slot(before, dir, temporary).Some? && dir in before && SameAt(before, mid, dir) && dir in after
    requires SameBut(before, mid, {Slot(before, dir, temporary).value} + Claimed(claim.entries, ""))
    requires SameBut(mid, after, {dir}) && Kids(after, dir) == Kids(mid, dir) - {temporary}
    ensures Emptied(before, after, dir, temporary, claim)
  {
    forall k | k !in {dir, Slot(before, dir, temporary).value} + Claimed(claim.entries, "")
      ensures SameAt(before, after, k)
    {
      assert SameAt(before, mid, k) && SameAt(mid, after, k);
    }
  }

  lemma TreeIsTold(before: seq<Act>, mid: seq<Act>, after: seq<Act>, claim: Claim, root: Option<Key>, dir: Key,
                   temporary: Name, faults: nat -> bool, unlinks: int, ticks: int, emptied: bool, through: bool)
    requires TreeAccounts(before, mid, claim, root, faults, unlinks, ticks, emptied)
    requires if through then emptied && OneRemoval(mid, after) && Removes(after[|mid|], dir, temporary, "")
             else after == mid
    ensures SourceActs(before, after, claim, root, dir, temporary)
    ensures Told(before, after, true, claim, faults, unlinks, ticks, through)
    ensures through ==> EndsWith(before, after, dir, temporary)
  {
  }

  /** The accounts of the pass over the staged tree; nothing is done where the name leads nowhere. */
  ghost predicate TreeAccounts(before: seq<Act>, after: seq<Act>, claim: Claim, root: Option<Key>, faults: nat -> bool,
                               unlinks: int, ticks: int, through: bool)
  {
    if root.Some? then
      Accounts(before, after, claim.entries, root.value, claim.identity.mount, claim.contentBound, faults, unlinks,
               ticks, |Files(claim.entries, "")|, through)
    else before == after && unlinks == 0 == ticks && !through
  }

  method EmptyTree(w: World, dir: Key, temporary: Name, current: Stat, claim: Claim,
                   leased: map<string, Key>, progress: RemovalProgress, ghost sure: bool)
    returns (r: Result<()>)
    requires IsDirectory(current.mode)
    requires sure ==> w.Calm() && Staged(w.nodes, dir, temporary, current, claim, w.limit - w.held, w.sha256) &&
                      Held(w.nodes, dir, temporary, current, claim, leased)
    modifies w, progress`removed
    ensures w.OnlyShrank() && w.held == old(w.held)
    ensures TreeAccounts(old(w.acts), w.acts, claim, old(Slot(w.nodes, dir, temporary)), w.faults,
                         w.unlinks - old(w.unlinks), progress.removed - old(progress.removed), r.Ok?)
    ensures sure ==>
              r.Ok? && var k := Slot(old(w.nodes), dir, temporary).value;
              k in w.nodes && IsDirectory(w.nodes[k].mode) && w.nodes[k].kids == map[] &&
              SameBut(old(w.nodes), w.nodes, {k} + Claimed(claim.entries, ""))
  {
    var fd :- w.OpenDirectory(dir, temporary);
    assert sure ==> Consumable(w.nodes, fd, claim.entries, claim.identity.mount, "", w.limit - w.held, leased,
                               claim.contentBound, w.sha256) by {
      if sure { HashedHolds(w.nodes, claim.entries, claim.contentBound, w.sha256); }
    }
    r := DeleteClaimedDirectory(w, fd, claim.entries, claim.identity.mount, "", leased, claim.contentBound, progress,
                                fd, sure);
    w.CloseDirectory();
  }

  method RmdirSource(w: World, dir: Key, temporary: Name) returns (r: Result<()>)
    modifies w`nodes, w`clock, w`acts
    ensures w.OnlyShrank()
    ensures r.Raised? ==> w.acts == old(w.acts)
    ensures r.Ok? ==> OneRemoval(old(w.acts), w.acts) && Removes(w.acts[|old(w.acts)|], dir, temporary, "") &&
                      Slot(w.nodes, dir, temporary).None? && dir in w.nodes &&
                      SameBut(old(w.nodes), w.nodes, {dir}) &&
                      Kids(w.nodes, dir) == old(Kids(w.nodes, dir)) - {temporary}
    ensures w.Calm() && old(NamesEmptyDirectory(w.nodes, dir, temporary)) ==> r.Ok?
  {
    ghost var before := w.nodes;
    r := w.Rmdir(dir, temporary, "");
    if r.Ok? { RmdirShrinks(before, w.nodes, dir, temporary); }
  }

  method UnlinkOne(w: World, dir: Key, temporary: Name, current: Stat, claim: Claim,
                   leased: map<string, Key>, progress: RemovalProgress, ghost sure: bool)
    returns (r: Result<()>)
    requires !IsDirectory(current.mode)
    requires sure ==> w.Calm() && Staged(w.nodes, dir, temporary, current, claim, w.limit - w.held, w.sha256) &&
                      Held(w.nodes, dir, temporary, current, claim, leased)
    modifies w, progress`removed
    ensures w.OnlyShrank() && w.held == old(w.held)
    ensures SourceActs(old(w.acts), w.acts, claim, old(Slot(w.nodes, dir, temporary)), dir, temporary)
    ensures Told(old(w.acts), w.acts, false, claim, w.faults, w.unlinks - old(w.unlinks),
                 progress.removed - old(progress.removed), r.Ok?)
    ensures r.Ok? ==> Slot(w.nodes, dir, temporary).None? && EndsWith(old(w.acts), w.acts, dir, temporary)
    ensures sure ==> r.Ok? && Emptied(old(w.nodes), w.nodes, dir, temporary, claim)
  {
    var _ :- ProveOne(w, dir, temporary, claim, leased);
    ghost var before := w.nodes;
    var gone := w.Unlink(dir, temporary, "");
    if gone.Raised? { return Raised; }
    UnlinkShrinks(before, w.nodes, dir, temporary);
    r := progress.Tick(w);
  }

  /** The lease is of the staged file, and the file is as claimed. */
  predicate Provable(nodes: Nodes, dir: Key, temporary: Name, claim: Claim, leased: map<string, Key>,
                     sha256: seq<bv8> -> string)
  {
    Names(nodes, dir, temporary) && "" in leased && leased[""] == Slot(nodes, dir, temporary).value &&
    FileClaimHolds(NodeAt(nodes, dir, temporary), leased[""], claim.identity, claim.sha256, true, claim.contentBound,
                   sha256)
  }

  /** Everything the code checks of the staged file before it unlinks it. */
  method ProveOne(w: World, dir: Key, temporary: Name, claim: Claim, leased: map<string, Key>) returns (r: Result<()>)
    modifies w`clock, w`asked
    ensures r.Ok? ==> Names(w.nodes, dir, temporary) && var k := Slot(w.nodes, dir, temporary).value;
                      FileClaimHolds(w.nodes[k], k, claim.identity, claim.sha256, true, claim.contentBound, w.sha256)
    ensures w.Calm() && Provable(w.nodes, dir, temporary, claim, leased, w.sha256) ==> r.Ok?
  {
    if "" !in leased { return Raised; }
    var fd := leased[""];
    var _ :- RequireFileClaim(w, fd, claim.identity, claim.sha256, true, claim.contentBound);
    var again :- w.StatName(dir, temporary);
    if again.None? { return Raised; }
    var identity :- w.Fstat(fd);
    if !EntryMatches(again.value, identity) { return Raised; }
    return Ok(());
  }

  // ---- what a rename moves ----------------------------------------------------------------------

  /** Nothing of a directory but its names, and the stamps they move. */
  predicate OnlyKids(before: Node, after: Node, kids: map<Name, Key>)
  {
    after == before.(kids := kids, mtime := after.mtime, ctime := after.ctime)
  }

  /** The inode went from one name to the other, whole: nothing of it changed but its change time, and of the two
      directories nothing but the two names. */
  ghost predicate Relocated(before: Nodes, after: Nodes, d: Key, name: Name, toDir: Key, to: Name, k: Key)
  {
    {d, toDir, k} <= before.Keys && {d, toDir, k} <= after.Keys && k !in {d, toDir} &&
    SameBut(before, after, {d, toDir, k}) && after[k] == before[k].(ctime := after[k].ctime) &&
    if d == toDir then OnlyKids(before[d], after[d], before[d].kids[to := k] - {name})
    else
      OnlyKids(before[d], after[d], before[d].kids - {name}) &&
      OnlyKids(before[toDir], after[toDir], before[toDir].kids[to := k])
  }

  /** The inode is back under its name, and both directories list what they did. */
  ghost predicate PutBack(before: Nodes, after: Nodes, d: Key, toDir: Key, k: Key)
  {
    {d, toDir, k} <= before.Keys && {d, toDir, k} <= after.Keys && k !in {d, toDir} &&
    SameBut(before, after, {d, toDir, k}) && after[k] == before[k].(ctime := after[k].ctime) &&
    OnlyKids(before[d], after[d], before[d].kids) && OnlyKids(before[toDir], after[toDir], before[toDir].kids)
  }

  lemma ThereAndBack(before: Nodes, mid: Nodes, after: Nodes, d: Key, name: Name, toDir: Key, to: Name, k: Key)
    requires Slot(before, d, name) == Some(k) && Slot(before, toDir, to).None? && (d, name) != (toDir, to)
    requires d in before && toDir in before && IsDirectory(before[d].mode) && IsDirectory(before[toDir].mode)
    requires Relocated(before, mid, d, name, toDir, to, k) && Relocated(mid, after, toDir, to, d, name, k)
    ensures PutBack(before, after, d, toDir, k)
  {
    forall e | e !in {d, toDir, k} ensures SameAt(before, after, e) {
      assert SameAt(before, mid, e) && SameAt(mid, after, e);
    }
    if d == toDir {
      assert (before[d].kids[to := k] - {name})[name := k] - {to} == before[d].kids;
    } else {
      assert (before[d].kids - {name})[name := k] == before[d].kids;
      assert before[toDir].kids[to := k] - {to} == before[toDir].kids;
    }
  }

  predicate Moves(act: Act, d: Key, name: Name, toDir: Key, to: Name)
  {
    act.Moved? && (act.fromDir, act.from, act.toDir, act.to) == (d, name, toDir, to)
  }

  /** One more act than before, and it is this rename. */
  ghost predicate OneMove(before: seq<Act>, after: seq<Act>, d: Key, name: Name, toDir: Key, to: Name)
  {
    before <= after && |after| == |before| + 1 && Moves(after[|before|], d, name, toDir, to)
  }

  lemma RenameRelocates(before: Nodes, after: Nodes, d: Key, name: Name, toDir: Key, to: Name)
    requires Names(before, d, name) && Vacant(before, toDir, to) && (d, name) != (toDir, to)
    requires Slot(before, d, name).value !in {d, toDir}
    requires exists t :: after == Rebound(before, d, name, toDir, to, Slot(before, d, name).value, t)
    ensures Slot(after, toDir, to) == Slot(before, d, name) && Slot(after, d, name).None?
    ensures Relocated(before, after, d, name, toDir, to, Slot(before, d, name).value)
  {
    var k := Slot(before, d, name).value;
    var t :| after == Rebound(before, d, name, toDir, to, k, t);
    ReboundSlots(before, d, name, toDir, to, k, t, toDir, to);
    ReboundSlots(before, d, name, toDir, to, k, t, d, name);
    if d == toDir { assert (before[d].kids - {name})[to := k] == before[d].kids[to := k] - {name}; }
  }

  // ---- giving a claim back ------------------------------------------------------------------------

  /** The syncs that close a roll-back, from the tick `at` on: of one directory, or of two. */
  ghost predicate Synced(w: World, at: nat)
    reads w
  {
    !w.faults(at) && (w.home.0 != w.away.0 ==> !w.faults(at + 1))
  }

  /** A roll-back that asked about the source's own name at the tick `back`: whatever stood at the other name is moved
      to it, unless a call was refused or the move had become impossible, and nothing else is done. The refusal
      surfaces exactly where the move also got through to the disk; anything else is an uncertain outcome. */
  ghost predicate GivesBack(w: World, before: seq<Act>, back: nat, r: Run)
    reads w
  {
    w.asked == Some(Ask(w.home.0, w.home.1, back)) &&
    r == (if w.acts != before && Synced(w, back + 2) then RaisedAt(RolledBack) else Done(UNCERTAIN)) &&
    if w.acts == before then
      w.faults(back) || w.faults(back + 1) || !CanMove(w.nodes, w.away.0, w.away.1, w.home.0, w.home.1)
    else
      OneMove(before, w.acts, w.away.0, w.away.1, w.home.0, w.home.1) && !w.faults(back) && !w.faults(back + 1) &&
      w.Away().None? && w.AtHome() == Some(w.acts[|before|].moved)
  }

  /** The `stat` of the source's name and the rename to it that both roll-backs begin with. */
  method MoveBack(w: World, dir: Key, name: Name, toDir: Key, to: Name) returns (moved: bool)
    requires (dir, name) != (toDir, to)
    modifies w`nodes, w`clock, w`acts, w`asked
    ensures w.asked == Some(Ask(dir, name, old(w.clock)))
    ensures moved ==>
              w.FairFrom(old(w.clock), 2) && w.clock == old(w.clock) + 2 &&
              OneMove(old(w.acts), w.acts, toDir, to, dir, name) &&
              var k := w.acts[|old(w.acts)|].moved;
              old(Slot(w.nodes, toDir, to)) == Some(k) == Slot(w.nodes, dir, name) &&
              Slot(w.nodes, toDir, to).None? && Relocated(old(w.nodes), w.nodes, toDir, to, dir, name, k)
    ensures !moved ==>
              w.nodes == old(w.nodes) && w.acts == old(w.acts) &&
              (w.faults(old(w.clock)) || w.faults(old(w.clock) + 1) || !CanMove(w.nodes, toDir, to, dir, name))
  {
    var occupied := w.StatName(dir, name);
    if occupied.Raised? || occupied.value.Some? { return false; }
    ghost var before := w.nodes;
    var back := w.RenameNoReplace(toDir, to, dir, name);
    if back.Raised? { return false; }
    RenameRelocates(before, w.nodes, toDir, to, dir, name);
    return true;
  }

  /** What a roll-back leaves: what stood at the other name before it, back under the source's own and whole; or all as
      it was. */
  twostate predicate Returned(w: World)
    reads w
  {
    w.unlinks == old(w.unlinks) && w.home == old(w.home) && w.away == old(w.away) &&
    if w.acts == old(w.acts) then w.nodes == old(w.nodes)
    else
      w.AtHome().Some? && w.AtHome() == old(w.Away()) &&
      Relocated(old(w.nodes), w.nodes, w.away.0, w.away.1, w.home.0, w.home.1, w.AtHome().value)
  }

  /** `_roll_back_claim`, and what `remove_claimed` does with its answer: a source given back means the refusal
      is raised, whether or not the leases closed cleanly; anything else is an uncertain outcome. */
  method RollBackClaim(w: World, dir: Key, name: Name, temporary: Name) returns (r: Run, ghost back: nat)
    requires w.home == (dir, name) && w.away == (dir, temporary) && name != temporary
    modifies w`nodes, w`clock, w`acts, w`asked
    ensures back == old(w.clock) + 1 && GivesBack(w, old(w.acts), back, r) && Returned(w)
  {
    var closed := w.Release();
    back := w.clock;
    var moved := MoveBack(w, dir, name, dir, temporary);
    if !moved { return Done(UNCERTAIN), back; }
    var synced := w.Fsync();
    r := if synced.Ok? then RaisedAt(RolledBack) else Done(UNCERTAIN);
  }

  /** Everything the claim's own removal needs is in place. */
  ghost predicate Removable(nodes: Nodes, dir: Key, name: Name, claim: Claim, room: int, sha256: seq<bv8> -> string)
  {
    dir in nodes && IsDirectory(nodes[dir].mode) && claim.identity.present &&
    Describes(nodes, dir, name, claim, sha256) &&
    Slot(nodes, dir, StagingName(name, claim.identity.inode)).None? &&
    var k := Slot(nodes, dir, name).value;
    nodes[k].mount == nodes[dir].mount && dir != k && WellFormed(claim.entries) &&
    (IsDirectory(nodes[k].mode) ==>
       room > 0 && Walkable(nodes, k, claim.identity.mount, room - 1) && Fits(claim.entries, "", room - 1) &&
       OneName(claim.entries) && dir !in Claimed(claim.entries, "") && k !in Claimed(claim.entries, ""))
  }

  /** The run's first act took the source from the one name to the other. */
  ghost predicate BeginsWith(before: seq<Act>, after: seq<Act>, home: (Key, Name), away: (Key, Name), at: nat)
  {
    before < after && Moves(after[|before|], home.0, home.1, away.0, away.1) && after[|before|].at == at
  }

  /** The checks, and the staging rename; `over` is what the run ends with if it gets no further. */
  method StageSource(w: World, dir: Key, name: Name, claim: Claim, ghost sure: bool)
    returns (over: Option<Run>, current: Option<Stat>)
    requires w.home == (dir, name) && w.away == (dir, StagingName(name, claim.identity.inode))
    requires sure ==> w.Still() && w.FairFrom(w.clock, 5) &&
                      Removable(w.nodes, dir, name, claim, w.limit - w.held, w.sha256)
    modifies w
    ensures w.held == old(w.held) && w.unlinks == old(w.unlinks) && w.home == old(w.home) && w.away == old(w.away)
    ensures w.Still() || Aloof(w.drift, w.home, w.away) ==> w.meddled == old(w.meddled)
    ensures over.Some? ==> w.OnlyDrifted() && over.value in {Done(ABSENT), RaisedAt(BeforeStaging)}
    ensures over == Some(Done(ABSENT)) <==>
            !claim.identity.present && !w.faults(old(w.clock) + 1) && !Names(w.nodes, dir, name)
    ensures w.Still() ==> (over.None? <==> Stageable(old(w.nodes), dir, name, claim, old(w.clock), w.faults))
    ensures over.None? ==> current.Some? && claim.identity.present &&
                           IdentityForStat(current.value, claim.identity.mount) == claim.identity &&
                           OneMove(old(w.acts), w.acts, dir, name, dir, w.away.1) && w.clock == old(w.clock) + 5 &&
                           w.acts[|old(w.acts)|].at == old(w.clock) + 4 &&
                           w.AtHome().None? && w.Away() == Some(w.acts[|old(w.acts)|].moved) &&
                           (!w.meddled ==> w.Away() == Some(KeyOf(claim.identity)))
    ensures over.None? && w.Still() ==> Taken(old(w.nodes), w.nodes, w.home, w.away, KeyOf(claim.identity))
    ensures sure ==> over.None? && Staged(w.nodes, dir, w.away.1, current.value, claim, w.limit - w.held, w.sha256)
  {
    over, current := CheckSource(w, dir, name, claim, sure);
    if over.Some? { return; }
    var temporary := StagingName(name, current.value.inode);
    StagingNameDiffers(name, current.value.inode);
    w.Drift();
    ghost var before := w.nodes;
    var moved := w.RenameNoReplace(dir, name, dir, temporary);
    if moved.Raised? { return Some(RaisedAt(BeforeStaging)), current; }
    RenameRelocates(before, w.nodes, dir, name, dir, temporary);
    if sure { StagedIsReady(before, w.nodes, dir, name, temporary, current.value, claim, w.limit - w.held, w.sha256); }
    return None, current;
  }

  /** The staging rename can be reached from here, and go through: neither `stat` nor the rename fails, the claimed
      identity stands at the name, and it can be moved. */
  predicate Stageable(nodes: Nodes, dir: Key, name: Name, claim: Claim, clock: nat, faults: nat -> bool)
  {
    claim.identity.present && !faults(clock + 1) && !faults(clock + 2) && !faults(clock + 4) &&
    IdentityHolds(Found(nodes, dir, name), claim.identity) &&
    CanMove(nodes, dir, name, dir, StagingName(name, claim.identity.inode))
  }

  /** Everything `remove_claimed` asks before it renames. */
  method CheckSource(w: World, dir: Key, name: Name, claim: Claim, ghost sure: bool)
    returns (over: Option<Run>, current: Option<Stat>)
    requires w.home == (dir, name) && w.away == (dir, StagingName(name, claim.identity.inode))
    requires sure ==> w.Still() && w.FairFrom(w.clock, 3) &&
                      Removable(w.nodes, dir, name, claim, w.limit - w.held, w.sha256)
    modifies w
    ensures w.OnlyDrifted() && w.held == old(w.held)
    ensures over.Some? ==> over.value in {Done(ABSENT), RaisedAt(BeforeStaging)}
    ensures over == Some(Done(ABSENT)) <==>
            !claim.identity.present && !w.faults(old(w.clock) + 1) && !Names(w.nodes, dir, name)
    ensures w.Still() && over.Some? ==>
              w.faults(old(w.clock) + 1) || w.faults(old(w.clock) + 2) || !claim.identity.present ||
              !IdentityHolds(Found(w.nodes, dir, name), claim.identity) || Names(w.nodes, dir, w.away.1)
    ensures over.None? ==> !w.faults(old(w.clock) + 1) && !w.faults(old(w.clock) + 2) &&
                           IdentityHolds(Found(w.nodes, dir, name), claim.identity)
    ensures over.None? ==> current.Some? && claim.identity.present && w.clock == old(w.clock) + 3 &&
                           current == Found(w.nodes, dir, name) &&
                           IdentityForStat(current.value, claim.identity.mount) == claim.identity
    ensures sure ==> over.None?
  {
    w.Drift();
    var stat := w.StatName(dir, name);
    if stat.Raised? || !IdentityHolds(stat.value, claim.identity) {
      return Some(RaisedAt(BeforeStaging)), None;
    }
    current := stat.value;
    if current.None? { return Some(Done(ABSENT)), None; }
    var temporary := StagingName(name, current.value.inode);
    var taken := w.StatName(dir, temporary);
    if taken.Raised? || taken.value.Some? {
      return Some(RaisedAt(BeforeStaging)), current;
    }
    return None, current;
  }

  /** The one rename stands between the two states. */
  ghost predicate Taken(before: Nodes, after: Nodes, home: (Key, Name), away: (Key, Name), k: Key)
  {
    Slot(before, home.0, home.1) == Some(k) && Vacant(before, away.0, away.1) &&
    Slot(after, home.0, home.1).None? && Slot(after, away.0, away.1) == Some(k) &&
    Relocated(before, after, home.0, home.1, away.0, away.1, k)
  }

  /** The staging rename keeps everything the claim says of the tree. */
  lemma StagedIsReady(before: Nodes, after: Nodes, dir: Key, name: Name, temporary: Name, current: Stat, claim: Claim,
                      room: int, sha256: seq<bv8> -> string)
    requires Removable(before, dir, name, claim, room, sha256)
    requires temporary == StagingName(name, claim.identity.inode)
    requires current == StatOf(Slot(before, dir, name).value, NodeAt(before, dir, name))
    requires exists t :: after == Rebound(before, dir, name, dir, temporary, Slot(before, dir, name).value, t)
    ensures Staged(after, dir, temporary, current, claim, room, sha256)
    ensures Kids(after, dir) == Kids(before, dir)[temporary := Slot(before, dir, name).value] - {name}
  {
    var k := Slot(before, dir, name).value;
    StagingNameDiffers(name, claim.identity.inode);
    RenameRelocates(before, after, dir, name, dir, temporary);
    if IsDirectory(before[k].mode) {
      assert Kids(before, k) == Kids(after, k);
      TreeMovesWhole(before, after, k, claim.identity.mount, claim.entries, claim.contentBound, room - 1, sha256);
    }
  }

  /** A tree none of whose inodes changed, its root's own stamps apart, has the same inventory and walks alike. */
  lemma TreeMovesWhole(before: Nodes, after: Nodes, k: Key, mount: int, entries: Entries, digest: bool, room: int,
                       sha256: seq<bv8> -> string)
    requires IsInventory(before, k, mount, "", entries, digest, sha256)
    requires Walkable(before, k, mount, room)
    requires Kids(before, k) == Kids(after, k) && k in after && IsDirectory(after[k].mode)
    requires forall c <- Claimed(entries, "") :: SameAt(before, after, c)
    ensures IsInventory(after, k, mount, "", entries, digest, sha256)
    ensures Walkable(after, k, mount, room)
  {
    ExactFrame(before, after, k, entries, mount, "");
    ExactIsSupported(after, k, entries, mount, "");
    forall s | LeadsToDirectory(after, k, s) ensures Depth(s) <= room {
      ResolvesAlike(before, after, k, entries, mount, "", s);
      assert ExactAt(before, k, entries, mount, "", s);
      assert s in Under(entries, "") && KeyOf(entries[s].identity) in Claimed(entries, "");
      assert LeadsToDirectory(before, k, s);
    }
    forall relative | relative in entries ensures EntryHashed(after, entries[relative], digest, sha256) {
      assert EntryHashed(before, entries[relative], digest, sha256);
      assert relative in Under(entries, "");
      assert KeyOf(entries[relative].identity) in Claimed(entries, "");
    }
  }

  /** The staging rename would find the sealed source, whole. */
  ghost predicate SealedWhenStaged(nodes: Nodes, dir: Key, name: Name, temporary: Name, claim: Claim,
                                   sha256: seq<bv8> -> string)
  {
    exists staged :: Taken(nodes, staged, (dir, name), (dir, temporary), KeyOf(claim.identity)) &&
                     Sealed(staged, KeyOf(claim.identity), claim, sha256)
  }

  /** The source was consumed: the claim allows every act, in the tree below what stood at the staging name, which is
      what was `moved` there unless the environment rebound the name; and the report is as `Told` says. */
  ghost predicate ConsumedFrom(w: World, before: seq<Act>, claim: Claim, moved: Option<Key>, unlinks: int, ticks: int,
                               through: bool)
    reads w
  {
    Told(before, w.acts, IsDirectory(claim.identity.mode), claim, w.faults, unlinks, ticks, through) &&
    exists root: Option<Key> :: (!w.meddled ==> root == moved) &&
                                SourceActs(before, w.acts, claim, root, w.away.0, w.away.1)
  }

  /** `remove_claimed`. `asked` is the tick of the `stat` behind the staging rename, `back` that of the `stat` a
      roll-back begins with, and `strayed` says that the environment rebound a name before the staging rename. */
  method RemoveClaimed(w: World, path: string, safeRoot: string, anchor: Anchor, claim: Claim, observed: bool,
                       ghost sure: bool)
    returns (r: Run, progress: RemovalProgress, ghost asked: Option<nat>, ghost back: Option<nat>, ghost strayed: bool)
    requires sure ==> w.Still() && w.FairFrom(w.clock, 5) && anchor.Parent? && claim.sourcePath == path &&
                      claim.safeRoot == safeRoot &&
                      Removable(w.nodes, anchor.dir, anchor.name, claim, w.limit - w.held, w.sha256)
    modifies w
    ensures fresh(progress) && w.held == old(w.held)
    // nothing is done until the staging rename
    ensures asked.None? <==> r in {Done(ABSENT), RaisedAt(BeforeStaging)}
    ensures asked.None? ==> w.acts == old(w.acts) && w.unlinks == old(w.unlinks)
    ensures asked.None? && w.Still() ==> w.nodes == old(w.nodes)
    // success without a change is reported of a claim of nothing, of this path, and exactly where nothing stands there
    ensures r == Done(ABSENT) <==>
            claim.sourcePath == path && claim.safeRoot == safeRoot && !claim.identity.present &&
            NothingAt(w.nodes, anchor, old(w.clock) + 1, w.faults)
    // undisturbed, the staging rename is made exactly where the claimed identity stands at the name and can be moved
    ensures w.Still() ==>
              (asked.Some? <==>
               claim.sourcePath == path && claim.safeRoot == safeRoot && anchor.Parent? &&
               Stageable(old(w.nodes), anchor.dir, anchor.name, claim, old(w.clock), w.faults))
    // which moves the sealed inode, or what the environment put in its place by then
    ensures asked.Some? ==>
              anchor.Parent? && claim.identity.present && w.home == (anchor.dir, anchor.name) &&
              w.away == (anchor.dir, StagingName(anchor.name, claim.identity.inode)) &&
              BeginsWith(old(w.acts), w.acts, w.home, w.away, old(w.clock) + 4) &&
              (!strayed ==> w.acts[|old(w.acts)|].moved == KeyOf(claim.identity)) &&
              (w.Still() || Aloof(w.drift, w.home, w.away) ==> !strayed && !w.meddled)
    // the one raise that leaves the source staged
    ensures asked.Some? ==> asked.value == old(w.clock) + 6
    ensures r == RaisedAt(AfterStaging) <==> asked.Some? && w.faults(asked.value)
    ensures r == RaisedAt(AfterStaging) ==>
              w.asked == Some(Ask(w.away.0, w.away.1, asked.value)) &&
              |w.acts| == |old(w.acts)| + 1 && w.unlinks == old(w.unlinks) &&
              (!w.meddled ==> w.AtHome().None? && w.Away() == Some(w.acts[|old(w.acts)|].moved)) &&
              (w.Still() ==> Taken(old(w.nodes), w.nodes, w.home, w.away, KeyOf(claim.identity)))
    // any other is of a source given back
    ensures back.Some? ==>
              asked.Some? && w.unlinks == old(w.unlinks) &&
              GivesBack(w, w.acts[..|old(w.acts)| + 1], back.value, r) &&
              (!w.meddled && |w.acts| > |old(w.acts)| + 1 ==>
                 w.acts[|old(w.acts)| + 1].moved == w.acts[|old(w.acts)|].moved)
    ensures back.Some? && w.Still() ==>
              (r == RaisedAt(RolledBack) <==> w.FairFrom(back.value, 3)) &&
              if |w.acts| == |old(w.acts)| + 1 then Taken(old(w.nodes), w.nodes, w.home, w.away, KeyOf(claim.identity))
              else PutBack(old(w.nodes), w.nodes, w.home.0, w.away.0, KeyOf(claim.identity))
    // what is not given back was found as claimed, and nothing but what was claimed is unlinked
    ensures asked.Some? && r != RaisedAt(AfterStaging) && back.None? ==>
              !w.faults(asked.value + 1) && (!w.meddled ==> w.acts[|old(w.acts)|].moved == KeyOf(claim.identity)) &&
              (w.Still() ==> SealedWhenStaged(old(w.nodes), w.home.0, w.home.1, w.away.1, claim, w.sha256))
    ensures asked.Some? && r != RaisedAt(AfterStaging) && back.None? ==>
              r in {Done(CHANGED), Done(UNCERTAIN)} &&
              ConsumedFrom(w, w.acts[..|old(w.acts)| + 1], claim, Some(w.acts[|old(w.acts)|].moved),
                           w.unlinks - old(w.unlinks), progress.removed, r == Done(CHANGED))
    ensures r == Done(CHANGED) ==>
              w.Away().None? && (!w.meddled ==> w.AtHome().None?) &&
              EndsWith(w.acts[..|old(w.acts)| + 1], w.acts, w.away.0, w.away.1) &&
              w.unlinks - old(w.unlinks) == progress.removed == ClaimedFileCount(claim)
    ensures sure ==> asked.Some?
    ensures sure && w.Calm() ==>
              r == Done(CHANGED) && Kids(w.nodes, anchor.dir) == Kids(old(w.nodes), anchor.dir) - {anchor.name} &&
              SameBut(old(w.nodes), w.nodes, {anchor.dir, KeyOf(claim.identity)} + Claimed(claim.entries, ""))
  {
    ghost var before := w.nodes;
    var over, current;
    over, current, strayed := LocateAndStage(w, path, safeRoot, anchor, claim, sure);
    if over.Some? {
      progress := new RemovalProgress(0, observed);
      return over.value, progress, None, None, strayed;
    }
    var Parent(dir, name) := anchor;
    var temporary := StagingName(name, current.value.inode);
    assert name != temporary by { StagingNameDiffers(name, current.value.inode); }
    ghost var staged := w.acts;
    ghost var tick;
    r, progress, tick, back := FinishRemoval(w, dir, name, temporary, current.value, claim, observed,
                                             sure && w.Calm(), before);
    asked := Some(tick);
    UpTo(staged, w.acts);
  }

  /** There is no parent, or the `stat` at that tick goes through and finds the name leading nowhere. */
  predicate NothingAt(nodes: Nodes, anchor: Anchor, at: nat, faults: nat -> bool)
  {
    anchor.NoParent? || (anchor.Parent? && !faults(at) && !Names(nodes, anchor.dir, anchor.name))
  }

  /** `remove_claimed` up to the staging rename, from the claim's shape and the anchored parent on. */
  method LocateAndStage(w: World, path: string, safeRoot: string, anchor: Anchor, claim: Claim, ghost sure: bool)
    returns (over: Option<Run>, current: Option<Stat>, ghost strayed: bool)
    requires sure ==> w.Still() && w.FairFrom(w.clock, 5) && anchor.Parent? && claim.sourcePath == path &&
                      claim.safeRoot == safeRoot &&
                      Removable(w.nodes, anchor.dir, anchor.name, claim, w.limit - w.held, w.sha256)
    modifies w
    ensures w.held == old(w.held) && w.unlinks == old(w.unlinks)
    ensures over.Some? ==> over.value in {Done(ABSENT), RaisedAt(BeforeStaging)} && w.acts == old(w.acts) &&
                           (w.Still() ==> w.nodes == old(w.nodes))
    ensures over == Some(Done(ABSENT)) <==>
            claim.sourcePath == path && claim.safeRoot == safeRoot && !claim.identity.present &&
            NothingAt(w.nodes, anchor, old(w.clock) + 1, w.faults)
    ensures w.Still() ==>
              (over.None? <==>
               claim.sourcePath == path && claim.safeRoot == safeRoot && anchor.Parent? &&
               Stageable(old(w.nodes), anchor.dir, anchor.name, claim, old(w.clock), w.faults))
    ensures over.None? ==> anchor.Parent? && current.Some? && claim.identity.present &&
                           IdentityForStat(current.value, claim.identity.mount) == claim.identity &&
                           w.home == (anchor.dir, anchor.name) && !w.meddled &&
                           w.away == (anchor.dir, StagingName(anchor.name, claim.identity.inode)) &&
                           OneMove(old(w.acts), w.acts, w.home.0, w.home.1, w.away.0, w.away.1) &&
                           w.clock == old(w.clock) + 5 && w.acts[|old(w.acts)|].at == old(w.clock) + 4 &&
                           w.AtHome().None? && w.Away() == Some(w.acts[|old(w.acts)|].moved) &&
                           (!strayed ==> w.Away() == Some(KeyOf(claim.identity)))
    ensures over.None? && (w.Still() || Aloof(w.drift, w.home, w.away)) ==> !strayed
    ensures over.None? && w.Still() ==> Taken(old(w.nodes), w.nodes, w.home, w.away, KeyOf(claim.identity))
    ensures sure ==> over.None? && Staged(w.nodes, w.away.0, w.away.1, current.value, claim, w.limit - w.held, w.sha256)
  {
    strayed := false;
    if claim.sourcePath != path || claim.safeRoot != safeRoot || anchor.Refused? {
      return Some(RaisedAt(BeforeStaging)), None, false;
    }
    if anchor.NoParent? {
      return Some(if claim.identity.present then RaisedAt(BeforeStaging) else Done(ABSENT)), None, false;
    }
    var Parent(dir, name) := anchor;
    w.Watch((dir, name), (dir, StagingName(name, claim.identity.inode)));
    over, current := StageSource(w, dir, name, claim, sure);
    if over.Some? { return; }
    strayed := w.meddled;
    w.Watch(w.home, w.away);
  }

  lemma RemovedWhole(before: Nodes, staged: Nodes, after: Nodes, dir: Key, name: Name, temporary: Name, claim: Claim)
    requires Taken(before, staged, (dir, name), (dir, temporary), KeyOf(claim.identity))
    requires Emptied(staged, after, dir, temporary, claim)
    ensures SameBut(before, after, {dir, KeyOf(claim.identity)} + Claimed(claim.entries, ""))
    ensures Kids(after, dir) == Kids(before, dir) - {name}
  {
    forall k | k !in {dir, KeyOf(claim.identity)} + Claimed(claim.entries, "") ensures SameAt(before, after, k) {
      assert SameAt(before, staged, k) && SameAt(staged, after, k);
    }
  }

  /** What was taken can be moved back. */
  lemma TakenCanGoBack(before: Nodes, after: Nodes, home: (Key, Name), away: (Key, Name), k: Key)
    requires Taken(before, after, home, away, k)
    ensures CanMove(after, away.0, away.1, home.0, home.1)
  {
  }

  /** `remove_claimed` behind the staging rename; `before` is what the disk was before it. */
  method FinishRemoval(w: World, dir: Key, name: Name, temporary: Name, current: Stat, claim: Claim, observed: bool,
                       ghost sure: bool, ghost before: Nodes)
    returns (r: Run, progress: RemovalProgress, ghost asked: nat, ghost back: Option<nat>)
    requires w.Still() ==> Taken(before, w.nodes, w.home, w.away, KeyOf(claim.identity))
    requires w.home == (dir, name) && w.away == (dir, temporary) && name != temporary && !w.meddled
    requires w.AtHome().None?
    requires claim.identity.present && IdentityForStat(current, claim.identity.mount) == claim.identity
    requires sure ==> w.Calm() && Staged(w.nodes, dir, temporary, current, claim, w.limit - w.held, w.sha256)
    modifies w
    ensures fresh(progress) && w.held == old(w.held) && w.home == old(w.home) && w.away == old(w.away)
    ensures w.Still() || Aloof(w.drift, w.home, w.away) ==> !w.meddled
    ensures asked == old(w.clock) + 1 && old(w.acts) <= w.acts
    ensures r == RaisedAt(AfterStaging) <==> w.faults(asked)
    ensures r == RaisedAt(AfterStaging) ==>
              back.None? && w.asked == Some(Ask(dir, temporary, asked)) && w.OnlyDrifted()
    ensures back.Some? ==>
              GivesBack(w, old(w.acts), back.value, r) && w.unlinks == old(w.unlinks) &&
              (!w.meddled && w.acts != old(w.acts) ==> w.AtHome() == old(w.Away()))
    ensures back.Some? && w.Still() ==>
              (r == RaisedAt(RolledBack) <==> w.FairFrom(back.value, 3)) &&
              if w.acts == old(w.acts) then Taken(before, w.nodes, w.home, w.away, KeyOf(claim.identity))
              else PutBack(before, w.nodes, dir, dir, KeyOf(claim.identity))
    ensures r != RaisedAt(AfterStaging) && back.None? ==>
              !w.faults(asked + 1) && (!w.meddled ==> old(w.Away()) == Some(KeyOf(claim.identity))) &&
              (w.Still() ==> SealedWhenStaged(before, dir, name, temporary, claim, w.sha256))
    ensures r != RaisedAt(AfterStaging) && back.None? ==>
              r in {Done(CHANGED), Done(UNCERTAIN)} &&
              ConsumedFrom(w, old(w.acts), claim, old(w.Away()), w.unlinks - old(w.unlinks), progress.removed,
                           r == Done(CHANGED))
    ensures r == Done(CHANGED) ==>
              back.None? && w.Away().None? && (!w.meddled ==> w.AtHome().None?) &&
              EndsWith(old(w.acts), w.acts, dir, temporary) &&
              w.unlinks - old(w.unlinks) == progress.removed == ClaimedFileCount(claim)
    ensures sure ==> r == Done(CHANGED) && Kids(w.nodes, dir) == Kids(before, dir) - {name} &&
                     SameBut(before, w.nodes, {dir, KeyOf(claim.identity)} + Claimed(claim.entries, ""))
  {
    ghost var staged := w.nodes;
    w.Drift();
    asked, back := w.clock, None;
    var claimed := w.StatName(dir, temporary);
    if claimed.Raised? {
      progress := new RemovalProgress(0, observed);
      return RaisedAt(AfterStaging), progress, asked, None;
    }
    r, progress, back := ConsumeOrGiveBack(w, dir, name, temporary, current, claimed.value, claim, observed, sure);
    if w.Still() {
      WhatStillLeaves(w, before, staged, old(w.acts), claim, back, r);
    }
    assert sure ==> Kids(w.nodes, dir) == Kids(before, dir) - {name} &&
                    SameBut(before, w.nodes, {dir, KeyOf(claim.identity)} + Claimed(claim.entries, "")) by {
      if sure { RemovedWhole(before, staged, w.nodes, dir, name, temporary, claim); }
    }
  }

  /** Undisturbed: what is not given back was found sealed, and what is given back is back. */
  lemma WhatStillLeaves(w: World, before: Nodes, staged: Nodes, log: seq<Act>, claim: Claim, back: Option<nat>, r: Run)
    requires var k := KeyOf(claim.identity);
             w.home.0 == w.away.0 && w.home != w.away && Taken(before, staged, w.home, w.away, k) &&
             if back.None? then Sealed(staged, k, claim, w.sha256)
             else GivesBack(w, log, back.value, r) &&
                  if w.acts == log then w.nodes == staged
                  else Relocated(staged, w.nodes, w.away.0, w.away.1, w.home.0, w.home.1, k)
    ensures back.None? ==> SealedWhenStaged(before, w.home.0, w.home.1, w.away.1, claim, w.sha256)
    ensures back.Some? ==>
              (r == RaisedAt(RolledBack) <==> w.FairFrom(back.value, 3)) &&
              if w.acts == log then Taken(before, w.nodes, w.home, w.away, KeyOf(claim.identity))
              else PutBack(before, w.nodes, w.home.0, w.away.0, KeyOf(claim.identity))
  {
    if back.Some? { GivenBackStill(w, before, staged, log, KeyOf(claim.identity), back.value, r); }
  }

  /** Undisturbed, a roll-back is refused by a failing call or not at all, and puts everything back. */
  lemma GivenBackStill(w: World, before: Nodes, staged: Nodes, log: seq<Act>, k: Key, back: nat, r: Run)
    requires w.home != w.away && Taken(before, staged, w.home, w.away, k) && GivesBack(w, log, back, r)
    requires if w.acts == log then w.nodes == staged
             else Relocated(staged, w.nodes, w.away.0, w.away.1, w.home.0, w.home.1, k)
    ensures r == RaisedAt(RolledBack) <==> !w.faults(back) && !w.faults(back + 1) && Synced(w, back + 2)
    ensures if w.acts == log then Taken(before, w.nodes, w.home, w.away, k)
            else PutBack(before, w.nodes, w.home.0, w.away.0, k)
  {
    TakenCanGoBack(before, staged, w.home, w.away, k);
    if w.acts != log { ThereAndBack(before, staged, w.nodes, w.home.0, w.home.1, w.away.0, w.away.1, k); }
  }

  /** `remove_claimed` from the staged source on; `claimed` is the `stat` of it. */
  method ConsumeOrGiveBack(w: World, dir: Key, name: Name, temporary: Name, current: Stat, claimed: Option<Stat>,
                           claim: Claim, observed: bool, ghost sure: bool)
    returns (r: Run, progress: RemovalProgress, ghost back: Option<nat>)
    requires w.home == (dir, name) && w.away == (dir, temporary) && name != temporary
    requires claim.identity.present && IdentityForStat(current, claim.identity.mount) == claim.identity
    requires claimed == Found(w.nodes, dir, temporary)
    requires sure ==> w.Calm() && Staged(w.nodes, dir, temporary, current, claim, w.limit - w.held, w.sha256)
    modifies w
    ensures fresh(progress) && w.held == old(w.held) && w.home == old(w.home) && w.away == old(w.away)
    ensures w.Still() || Aloof(w.drift, w.home, w.away) ==> w.meddled == old(w.meddled)
    ensures !w.meddled ==> !old(w.meddled)
    ensures old(w.acts) <= w.acts
    ensures back.Some? ==>
              GivesBack(w, old(w.acts), back.value, r) && w.unlinks == old(w.unlinks) &&
              (!w.meddled && w.acts != old(w.acts) ==> w.AtHome() == old(w.Away())) &&
              (w.Still() ==>
                 if w.acts == old(w.acts) then w.nodes == old(w.nodes)
                 else w.AtHome() == old(w.Away()) &&
                      Relocated(old(w.nodes), w.nodes, dir, temporary, dir, name, w.AtHome().value))
    ensures back.None? ==>
              ClaimedIdentityHolds(claimed, claim.identity) && !w.faults(old(w.clock)) &&
              (w.Still() ==> old(w.Away()).Some? && Sealed(old(w.nodes), old(w.Away()).value, claim, w.sha256))
    ensures back.None? ==>
              r in {Done(CHANGED), Done(UNCERTAIN)} &&
              ConsumedFrom(w, old(w.acts), claim, old(w.Away()), w.unlinks - old(w.unlinks), progress.removed,
                           r == Done(CHANGED))
    ensures r == Done(CHANGED) ==>
              back.None? && w.Away().None? && (!w.meddled ==> w.AtHome().None? || w.AtHome() == old(w.AtHome())) &&
              EndsWith(old(w.acts), w.acts, dir, temporary) &&
              w.unlinks - old(w.unlinks) == progress.removed == ClaimedFileCount(claim)
    ensures sure ==> r == Done(CHANGED) && Emptied(old(w.nodes), w.nodes, dir, temporary, claim)
  {
    progress := new RemovalProgress(ClaimedFileCount(claim), observed);
    back := None;
    var leased := HoldSource(w, dir, temporary, current, claimed, claim, sure);
    if leased.Raised? {
      ghost var tick;
      r, tick := RollBackClaim(w, dir, name, temporary);
      back := Some(tick);
      return;
    }
    r := Consume(w, dir, temporary, current, claim, leased.value, progress, sure);
  }

  /** Hold what was staged, if it is what was claimed; then the environment has its turn. */
  method HoldSource(w: World, dir: Key, temporary: Name, current: Stat, claimed: Option<Stat>, claim: Claim,
                    ghost sure: bool)
    returns (leased: Result<map<string, Key>>)
    requires claim.identity.present && IdentityForStat(current, claim.identity.mount) == claim.identity
    requires claimed == Found(w.nodes, dir, temporary)
    requires sure ==> w.Calm() && Staged(w.nodes, dir, temporary, current, claim, w.limit - w.held, w.sha256)
    modifies w
    ensures w.OnlyDrifted() && w.held == old(w.held)
    ensures leased.Ok? ==>
              ClaimedIdentityHolds(claimed, claim.identity) && !w.faults(old(w.clock)) &&
              (IsDirectory(claim.identity.mode) ==> WellFormed(claim.entries)) &&
              (w.Still() ==> Slot(w.nodes, dir, temporary).Some? &&
                             Sealed(w.nodes, Slot(w.nodes, dir, temporary).value, claim, w.sha256))
    ensures sure ==> leased.Ok? && Held(w.nodes, dir, temporary, current, claim, leased.value)
  {
    leased := Raised;
    if ClaimedIdentityHolds(claimed, claim.identity) {
      leased := LeaseClaimedSource(w, dir, temporary, current, claim, sure);
    }
    w.Drift();
  }

  /** What a `stat` of the name finds. */
  function Found(nodes: Nodes, dir: Key, name: Name): Option<Stat>
  {
    if Names(nodes, dir, name) then Some(StatOf(Slot(nodes, dir, name).value, NodeAt(nodes, dir, name))) else None
  }

  /** `remove_claimed` from the leased source on. */
  method Consume(w: World, dir: Key, temporary: Name, current: Stat, claim: Claim, leased: map<string, Key>,
                 progress: RemovalProgress, ghost sure: bool)
    returns (r: Run)
    requires claim.identity.present && IdentityForStat(current, claim.identity.mount) == claim.identity
    requires sure ==> w.Calm() && Staged(w.nodes, dir, temporary, current, claim, w.limit - w.held, w.sha256) &&
                      Held(w.nodes, dir, temporary, current, claim, leased)
    modifies w, progress`removed
    ensures w.OnlyShrank() && w.held == old(w.held)
    ensures r in {Done(CHANGED), Done(UNCERTAIN)}
    ensures SourceActs(old(w.acts), w.acts, claim, old(Slot(w.nodes, dir, temporary)), dir, temporary)
    ensures Told(old(w.acts), w.acts, IsDirectory(claim.identity.mode), claim, w.faults, w.unlinks - old(w.unlinks),
                 progress.removed - old(progress.removed), r == Done(CHANGED))
    ensures r == Done(CHANGED) ==> Slot(w.nodes, dir, temporary).None? && EndsWith(old(w.acts), w.acts, dir, temporary)
    ensures sure ==> r == Done(CHANGED) && Emptied(old(w.nodes), w.nodes, dir, temporary, claim)
  {
    var removed := UnlinkClaimedSource(w, dir, temporary, current, claim, leased, progress, sure);
    var closed := w.Release();
    if closed.Raised? || removed.Raised? { return Done(UNCERTAIN); }
    var synced := w.Fsync();
    if synced.Raised? { return Done(UNCERTAIN); }
    return Done(CHANGED);
  }

  /** The input on which the raise leaves the source staged: nobody disturbs the disk, the claim is removable, and one
      call fails, the `stat` of line 200. */
  method StrandedByOneStat(w: World, path: string, safeRoot: string, dir: Key, name: Name, claim: Claim)
    returns (r: Run)
    requires w.Still() && forall tick: nat :: w.faults(tick) <==> tick == w.clock + 6
    requires claim.sourcePath == path && claim.safeRoot == safeRoot
    requires Removable(w.nodes, dir, name, claim, w.limit - w.held, w.sha256)
    modifies w
    ensures r == RaisedAt(AfterStaging) && Slot(w.nodes, dir, name).None?
    ensures Slot(w.nodes, dir, StagingName(name, claim.identity.inode)) == Some(KeyOf(claim.identity))
    ensures w.unlinks == old(w.unlinks)
  {
    var progress;
    ghost var asked, back, strayed;
    r, progress, asked, back, strayed := RemoveClaimed(w, path, safeRoot, Parent(dir, name), claim, false, true);
  }

  // ---- rename -----------------------------------------------------------------------------------

  /** The calls that checking a regular file takes: to open it, to compare two mounts, and to prove it. */
  function CheckTicks(claim: Claim): nat { 3 + ClaimTicks(claim.sha256) }

  /** No call fails, or the source is a file and none of the next `n` calls does. */
  ghost predicate Smooth(w: World, claim: Claim, n: nat)
    reads w
  {
    w.Still() && (w.Calm() || (!IsDirectory(claim.identity.mode) && w.FairFrom(w.clock, n)))
  }

  /** `_require_claim_before_rename` and `_require_claim_after_rename`, which differ in what a rename may change. */
  method RequireClaim(w: World, dir: Key, name: Name, current: Stat, claim: Claim, moved: bool, ghost sure: bool)
    returns (r: Result<()>)
    requires sure ==> Smooth(w, claim, CheckTicks(claim)) &&
                      Renamable(w.nodes, dir, name, current, claim, moved, w.limit - w.held, w.sha256)
    modifies w
    ensures w.OnlyDrifted() && w.held == old(w.held)
    ensures r.Ok? && w.Still() ==> Slot(w.nodes, dir, name).Some? &&
                                   BornOut(w.nodes, Slot(w.nodes, dir, name).value, claim, IsDirectory(current.mode),
                                           moved, w.sha256)
    ensures r.Ok? ==> !w.faults(old(w.clock))
    ensures r.Ok? && !IsDirectory(current.mode) ==> w.clock == old(w.clock) + CheckTicks(claim)
    ensures sure ==> r.Ok?
  {
    if IsDirectory(current.mode) {
      var fd :- w.OpenDirectory(dir, name);
      r := InventoryMatches(w, dir, fd, claim, sure);
      w.CloseDirectory();
    } else if claim.entries != map[] && !moved {
      return Raised;
    } else {
      var fd :- w.OpenRegular(dir, name);
      var outer :- w.MountOf(dir);
      var inner :- w.MountOf(fd);
      if inner != outer { return Raised; }
      r := RequireFileClaim(w, fd, claim.identity, claim.sha256, moved, claim.contentBound);
    }
  }

  /** What stands at the name is what the claim describes; once moved, its change time apart. */
  ghost predicate Renamable(nodes: Nodes, dir: Key, name: Name, current: Stat, claim: Claim, moved: bool, room: int,
                            sha256: seq<bv8> -> string)
  {
    dir in nodes && IsDirectory(nodes[dir].mode) && Names(nodes, dir, name) && claim.identity.present &&
    var k := Slot(nodes, dir, name).value;
    (if moved then AgreesWhenMoved(IdentityOf(k, nodes[k]), claim.identity)
     else IdentityOf(k, nodes[k]) == claim.identity) &&
    nodes[k].mount == nodes[dir].mount && current.mode == nodes[k].mode && DescribesNode(nodes, k, claim, sha256) &&
    (IsDirectory(current.mode) ==> room > 0 && Walkable(nodes, k, claim.identity.mount, room - 1))
  }

  /** A rename that can go through: the source as claimed, the destination free and outside it. */
  ghost predicate CanRename(nodes: Nodes, source: Anchor, destination: Anchor, claim: Claim, room: int,
                            sha256: seq<bv8> -> string)
  {
    source.Parent? && destination.Parent? && Describes(nodes, source.dir, source.name, claim, sha256) &&
    claim.identity.present && Vacant(nodes, destination.dir, destination.name) &&
    source.dir in nodes && IsDirectory(nodes[source.dir].mode) &&
    var k := Slot(nodes, source.dir, source.name).value;
    k !in {source.dir, destination.dir} &&
    nodes[k].mount == nodes[source.dir].mount && nodes[k].mount == nodes[destination.dir].mount &&
    (IsDirectory(nodes[k].mode) ==>
       room > 0 && Walkable(nodes, k, claim.identity.mount, room - 1) &&
       {source.dir, destination.dir, k} !! Claimed(claim.entries, ""))
  }

  /** `rename_claimed`. `asked` is the tick of the `stat` behind the rename, `back` that of the `stat` a roll-back
      begins with, and `strayed` says that the environment rebound a name before the rename. */
  method RenameClaimed(w: World, src: string, safeRoot: string, source: Anchor, destination: Anchor, claim: Claim,
                       ghost sure: bool)
    returns (r: Run, ghost asked: Option<nat>, ghost back: Option<nat>, ghost strayed: bool)
    requires sure ==> Smooth(w, claim, CheckTicks(claim) + 5) && claim.sourcePath == src &&
                      claim.safeRoot == safeRoot &&
                      CanRename(w.nodes, source, destination, claim, w.limit - w.held, w.sha256)
    modifies w
    ensures w.held == old(w.held)
    // nothing is done until the rename
    ensures asked.None? <==> r in {Done(ABSENT), RaisedAt(BeforeStaging)}
    ensures asked.None? ==> w.acts == old(w.acts) && (w.Still() ==> w.nodes == old(w.nodes))
    // success without a change is reported of a claim of nothing, of this path, and exactly where nothing stands there
    ensures r == Done(ABSENT) <==>
            claim.sourcePath == src && claim.safeRoot == safeRoot && !claim.identity.present &&
            source.Parent? && destination.Parent? && NothingAt(w.nodes, source, old(w.clock) + 1, w.faults)
    // undisturbed, the rename is made only of a source found as claimed, to a free name
    ensures asked.Some? && w.Still() ==>
              claim.sourcePath == src && claim.safeRoot == safeRoot && source.Parent? && destination.Parent? &&
              AsClaimed(old(w.nodes), source.dir, source.name, claim, w.sha256) &&
              CanMove(old(w.nodes), source.dir, source.name, destination.dir, destination.name)
    // which moves the sealed source to the destination, or what the environment put in its place by then
    ensures asked.Some? ==>
              source.Parent? && destination.Parent? && w.home == (source.dir, source.name) &&
              w.away == (destination.dir, destination.name) && claim.identity.present &&
              asked.value >= 2 && BeginsWith(old(w.acts), w.acts, w.home, w.away, asked.value - 2) &&
              (!strayed ==> w.acts[|old(w.acts)|].moved == KeyOf(claim.identity)) &&
              (w.Still() || Aloof(w.drift, w.home, w.away) ==> !strayed && !w.meddled)
    // where it stays unless the refusal is rolled back
    ensures asked.Some? && back.None? ==>
              r in {Done(CHANGED), Done(UNCERTAIN), RaisedAt(AfterStaging)} && |w.acts| == |old(w.acts)| + 1 &&
              (!w.meddled ==> w.AtHome().None? && w.Away() == Some(w.acts[|old(w.acts)|].moved)) &&
              (w.Still() ==> Taken(old(w.nodes), w.nodes, w.home, w.away, KeyOf(claim.identity)))
    ensures back.Some? ==>
              asked.Some? && GivesBack(w, w.acts[..|old(w.acts)| + 1], back.value, r) &&
              (!w.meddled && |w.acts| > |old(w.acts)| + 1 ==>
                 w.acts[|old(w.acts)| + 1].moved == w.acts[|old(w.acts)|].moved)
    ensures back.Some? && w.Still() ==>
              (r == RaisedAt(RolledBack) <==>
               !w.faults(back.value) && !w.faults(back.value + 1) && Synced(w, back.value + 2)) &&
              if |w.acts| == |old(w.acts)| + 1 then Taken(old(w.nodes), w.nodes, w.home, w.away, KeyOf(claim.identity))
              else PutBack(old(w.nodes), w.nodes, w.home.0, w.away.0, KeyOf(claim.identity))
    // what is not rolled back was found as claimed
    ensures asked.Some? && r != RaisedAt(AfterStaging) && back.None? ==>
              !w.faults(asked.value + 1) && (!w.meddled ==> w.acts[|old(w.acts)|].moved == KeyOf(claim.identity)) &&
              (w.Still() ==> Sealed(w.nodes, KeyOf(claim.identity), claim, w.sha256)) &&
              (w.Still() && Shaped(claim) ==> DescribesNode(w.nodes, KeyOf(claim.identity), claim, w.sha256))
    // the one raise that leaves the source at the destination
    ensures r == RaisedAt(AfterStaging) <==> asked.Some? && w.faults(asked.value)
    ensures r == RaisedAt(AfterStaging) ==> back.None? && w.asked == Some(Ask(w.away.0, w.away.1, asked.value))
    ensures sure ==> asked.Some? && (!IsDirectory(claim.identity.mode) ==>
                                       asked.value == old(w.clock) + CheckTicks(claim) + 6)
    ensures sure && w.Calm() ==> r == Done(CHANGED)
  {
    asked, back, strayed := None, None, false;
    if claim.sourcePath != src || claim.safeRoot != safeRoot || !source.Parent? || !destination.Parent? {
      return RaisedAt(BeforeStaging), None, None, false;
    }
    var Parent(dir, name) := source;
    var Parent(toDir, to) := destination;
    ghost var before := w.nodes;
    var over, current;
    over, current, strayed := WatchAndStage(w, dir, name, toDir, to, claim, sure);
    if over.Some? { return over.value, None, None, strayed; }
    ghost var moved := w.acts;
    ghost var tick;
    r, tick, back := FinishRename(w, dir, name, toDir, to, current.value, claim, sure && w.Calm(), before);
    asked := Some(tick);
    UpTo(moved, w.acts);
  }

  lemma UpTo(start: seq<Act>, after: seq<Act>)
    requires start <= after
    ensures after[..|start|] == start
  {
  }

  /** What stands at the name has the claimed identity, its change time included, and the claimed content. */
  ghost predicate AsClaimed(nodes: Nodes, dir: Key, name: Name, claim: Claim, sha256: seq<bv8> -> string)
  {
    IdentityHolds(Found(nodes, dir, name), claim.identity) && Slot(nodes, dir, name).Some? &&
    BornOut(nodes, Slot(nodes, dir, name).value, claim, IsDirectory(claim.identity.mode), false, sha256)
  }

  /** The checks and the rename, with an eye on both names before it and behind it. */
  method WatchAndStage(w: World, dir: Key, name: Name, toDir: Key, to: Name, claim: Claim, ghost sure: bool)
    returns (over: Option<Run>, current: Option<Stat>, ghost strayed: bool)
    requires sure ==> Smooth(w, claim, CheckTicks(claim) + 5) &&
                      CanRename(w.nodes, Parent(dir, name), Parent(toDir, to), claim, w.limit - w.held, w.sha256)
    modifies w
    ensures w.held == old(w.held) && w.home == (dir, name) && w.away == (toDir, to)
    ensures over.Some? ==> over.value in {Done(ABSENT), RaisedAt(BeforeStaging)} && w.acts == old(w.acts) &&
                           (w.Still() ==> w.nodes == old(w.nodes))
    ensures over == Some(Done(ABSENT)) <==>
            !claim.identity.present && !w.faults(old(w.clock) + 1) && !Names(w.nodes, dir, name)
    ensures over.None? && w.Still() ==> AsClaimed(old(w.nodes), dir, name, claim, w.sha256) &&
                                        CanMove(old(w.nodes), dir, name, toDir, to)
    ensures over.None? ==> current.Some? && w.home != w.away && claim.identity.present && !w.meddled &&
                           IdentityForStat(current.value, claim.identity.mount) == claim.identity &&
                           OneMove(old(w.acts), w.acts, dir, name, toDir, to) &&
                           w.AtHome().None? && w.Away() == Some(w.acts[|old(w.acts)|].moved) &&
                           w.clock == w.acts[|old(w.acts)|].at + 1 &&
                           (!strayed ==> w.Away() == Some(KeyOf(claim.identity)))
    ensures over.None? && (w.Still() || Aloof(w.drift, w.home, w.away)) ==> !strayed
    ensures over.None? && w.Still() ==> Taken(old(w.nodes), w.nodes, w.home, w.away, KeyOf(claim.identity))
    ensures sure ==> over.None? && Renamable(w.nodes, toDir, to, current.value, claim, true, w.limit - w.held, w.sha256)
    ensures sure && !IsDirectory(claim.identity.mode) ==> w.clock == old(w.clock) + CheckTicks(claim) + 5
  {
    strayed := false;
    w.Watch((dir, name), (toDir, to));
    over, current := StageRename(w, dir, name, toDir, to, claim, sure);
    if over.Some? { return; }
    strayed := w.meddled;
    w.Watch(w.home, w.away);
  }

  /** `rename_claimed` behind the rename; `before` is what the disk was before it. */
  method FinishRename(w: World, dir: Key, name: Name, toDir: Key, to: Name, current: Stat, claim: Claim,
                      ghost sure: bool, ghost before: Nodes)
    returns (r: Run, ghost asked: nat, ghost back: Option<nat>)
    requires w.Still() ==> Taken(before, w.nodes, w.home, w.away, KeyOf(claim.identity))
    requires w.home == (dir, name) && w.away == (toDir, to) && (dir, name) != (toDir, to) && !w.meddled
    requires w.AtHome().None?
    requires claim.identity.present && IdentityForStat(current, claim.identity.mount) == claim.identity
    requires sure ==> w.Calm() && Renamable(w.nodes, toDir, to, current, claim, true, w.limit - w.held, w.sha256)
    modifies w
    ensures w.held == old(w.held) && w.home == old(w.home) && w.away == old(w.away)
    ensures w.Still() || Aloof(w.drift, w.home, w.away) ==> !w.meddled
    ensures asked == old(w.clock) + 1 && old(w.acts) <= w.acts
    ensures r == RaisedAt(AfterStaging) <==> w.faults(asked)
    ensures r == RaisedAt(AfterStaging) ==> back.None? && w.asked == Some(Ask(toDir, to, asked))
    ensures back.None? ==> r in {Done(CHANGED), Done(UNCERTAIN), RaisedAt(AfterStaging)} && w.OnlyDrifted()
    ensures back.Some? ==> GivesBack(w, old(w.acts), back.value, r) &&
                           (!w.meddled && w.acts != old(w.acts) ==> w.AtHome() == old(w.Away()))
    ensures back.Some? && w.Still() ==>
              (r == RaisedAt(RolledBack) <==>
               !w.faults(back.value) && !w.faults(back.value + 1) && Synced(w, back.value + 2)) &&
              if w.acts == old(w.acts) then Taken(before, w.nodes, w.home, w.away, KeyOf(claim.identity))
              else PutBack(before, w.nodes, dir, toDir, KeyOf(claim.identity))
    ensures r != RaisedAt(AfterStaging) && back.None? ==>
              !w.faults(asked + 1) && (!w.meddled ==> old(w.Away()) == Some(KeyOf(claim.identity))) &&
              (w.Still() ==> Sealed(w.nodes, KeyOf(claim.identity), claim, w.sha256))
    ensures sure ==> r == Done(CHANGED)
  {
    ghost var staged := w.nodes;
    w.Drift();
    asked, back := w.clock, None;
    var claimed := w.StatName(toDir, to);
    if claimed.Raised? { return RaisedAt(AfterStaging), asked, None; }
    r, back := SettleRename(w, dir, name, toDir, to, current, claimed.value, claim, sure);
    if w.Still() && back.Some? {
      GivenBackStill(w, before, staged, old(w.acts), KeyOf(claim.identity), back.value, r);
    }
  }

  /** The input on which the raise leaves a file at the destination: nobody disturbs the disk, the claim is of a regular
      file that can be renamed, and one call fails, the `stat` of line 270. */
  method MovedButForOneStat(w: World, src: string, safeRoot: string, source: Anchor, destination: Anchor, claim: Claim)
    returns (r: Run)
    requires w.Still() && forall tick: nat :: w.faults(tick) <==> tick == w.clock + CheckTicks(claim) + 6
    requires claim.sourcePath == src && claim.safeRoot == safeRoot && !IsDirectory(claim.identity.mode)
    requires CanRename(w.nodes, source, destination, claim, w.limit - w.held, w.sha256)
    modifies w
    ensures r == RaisedAt(AfterStaging) && Slot(w.nodes, source.dir, source.name).None?
    ensures Slot(w.nodes, destination.dir, destination.name) == Some(KeyOf(claim.identity))
  {
    ghost var asked, back, strayed;
    r, asked, back, strayed := RenameClaimed(w, src, safeRoot, source, destination, claim, true);
  }

  /** `rename_claimed` up to the rename; `over` is what the run ends with if it gets no further. */
  method StageRename(w: World, dir: Key, name: Name, toDir: Key, to: Name, claim: Claim, ghost sure: bool)
    returns (over: Option<Run>, current: Option<Stat>)
    requires w.home == (dir, name) && w.away == (toDir, to)
    requires sure ==> Smooth(w, claim, CheckTicks(claim) + 5) &&
                      CanRename(w.nodes, Parent(dir, name), Parent(toDir, to), claim, w.limit - w.held, w.sha256)
    modifies w
    ensures w.held == old(w.held) && w.home == old(w.home) && w.away == old(w.away)
    ensures w.Still() || Aloof(w.drift, w.home, w.away) ==> w.meddled == old(w.meddled)
    ensures over.Some? ==> w.OnlyDrifted() && over.value in {Done(ABSENT), RaisedAt(BeforeStaging)}
    ensures over == Some(Done(ABSENT)) <==>
            !claim.identity.present && !w.faults(old(w.clock) + 1) && !Names(w.nodes, dir, name)
    ensures over.None? && w.Still() ==> AsClaimed(old(w.nodes), dir, name, claim, w.sha256) &&
                                        CanMove(old(w.nodes), dir, name, toDir, to)
    ensures over.None? ==> current.Some? && (dir, name) != (toDir, to) && claim.identity.present &&
                           IdentityForStat(current.value, claim.identity.mount) == claim.identity &&
                           OneMove(old(w.acts), w.acts, dir, name, toDir, to) &&
                           w.AtHome().None? && w.Away() == Some(w.acts[|old(w.acts)|].moved) &&
                           w.clock == w.acts[|old(w.acts)|].at + 1 &&
                           (!w.meddled ==> w.Away() == Some(KeyOf(claim.identity)))
    ensures over.None? && w.Still() ==> Taken(old(w.nodes), w.nodes, w.home, w.away, KeyOf(claim.identity))
    ensures sure ==> over.None? && Renamable(w.nodes, toDir, to, current.value, claim, true, w.limit - w.held, w.sha256)
    ensures sure && !IsDirectory(claim.identity.mode) ==> w.clock == old(w.clock) + CheckTicks(claim) + 5
  {
    over, current := CheckRename(w, dir, name, toDir, to, claim, sure);
    if over.Some? { return; }
    w.Drift();
    ghost var before := w.nodes;
    var moved := w.RenameNoReplace(dir, name, toDir, to);
    if moved.Raised? { return Some(RaisedAt(BeforeStaging)), None; }
    RenameRelocates(before, w.nodes, dir, name, toDir, to);
    if sure {
      RenamedIsReady(before, w.nodes, Parent(dir, name), Parent(toDir, to), current.value, claim, w.limit - w.held,
                     w.sha256);
    }
    return None, current;
  }

  /** Everything `rename_claimed` asks before it renames. */
  method CheckRename(w: World, dir: Key, name: Name, toDir: Key, to: Name, claim: Claim, ghost sure: bool)
    returns (over: Option<Run>, current: Option<Stat>)
    requires w.home == (dir, name) && w.away == (toDir, to)
    requires sure ==> Smooth(w, claim, CheckTicks(claim) + 3) &&
                      CanRename(w.nodes, Parent(dir, name), Parent(toDir, to), claim, w.limit - w.held, w.sha256)
    modifies w
    ensures w.OnlyDrifted() && w.held == old(w.held)
    ensures over.Some? ==> over.value in {Done(ABSENT), RaisedAt(BeforeStaging)}
    ensures over == Some(Done(ABSENT)) <==>
            !claim.identity.present && !w.faults(old(w.clock) + 1) && !Names(w.nodes, dir, name)
    ensures over.None? && w.Still() ==> AsClaimed(w.nodes, dir, name, claim, w.sha256)
    ensures over.None? ==> current.Some? && claim.identity.present &&
                           IdentityForStat(current.value, claim.identity.mount) == claim.identity &&
                           (!w.meddled ==> w.AtHome() == Some(KeyOf(claim.identity)))
    ensures over.None? && w.Still() ==> current == Found(w.nodes, dir, name)
    ensures sure ==> over.None?
    ensures sure && !IsDirectory(claim.identity.mode) ==> w.clock == old(w.clock) + CheckTicks(claim) + 3
  {
    w.Drift();
    var stat := w.StatName(dir, name);
    if stat.Raised? || !IdentityHolds(stat.value, claim.identity) { return Some(RaisedAt(BeforeStaging)), None; }
    current := stat.value;
    if current.None? { return Some(Done(ABSENT)), None; }
    var required := RequireClaim(w, dir, name, current.value, claim, false, sure);
    if required.Raised? { return Some(RaisedAt(BeforeStaging)), None; }
    var taken := w.StatName(toDir, to);
    if taken.Raised? || taken.value.Some? { return Some(RaisedAt(BeforeStaging)), None; }
    return None, current;
  }

  lemma RenamedIsReady(before: Nodes, after: Nodes, source: Anchor, destination: Anchor, current: Stat, claim: Claim,
                       room: int, sha256: seq<bv8> -> string)
    requires CanRename(before, source, destination, claim, room, sha256)
    requires current == StatOf(Slot(before, source.dir, source.name).value, NodeAt(before, source.dir, source.name))
    requires exists t :: after == Rebound(before, source.dir, source.name, destination.dir, destination.name,
                                          Slot(before, source.dir, source.name).value, t)
    ensures Renamable(after, destination.dir, destination.name, current, claim, true, room, sha256)
  {
    var k := Slot(before, source.dir, source.name).value;
    RenameRelocates(before, after, source.dir, source.name, destination.dir, destination.name);
    if IsDirectory(before[k].mode) {
      assert Kids(before, k) == Kids(after, k);
      TreeMovesWhole(before, after, k, claim.identity.mount, claim.entries, claim.contentBound, room - 1, sha256);
    }
  }

  /** `rename_claimed` from the moved source on: keep it there, or give it back. `claimed` is the `stat` of it. */
  method SettleRename(w: World, dir: Key, name: Name, toDir: Key, to: Name, current: Stat, claimed: Option<Stat>,
                      claim: Claim, ghost sure: bool)
    returns (r: Run, ghost back: Option<nat>)
    requires w.home == (dir, name) && w.away == (toDir, to) && (dir, name) != (toDir, to)
    requires claim.identity.present && IdentityForStat(current, claim.identity.mount) == claim.identity
    requires claimed == Found(w.nodes, toDir, to)
    requires sure ==> w.Calm() && Renamable(w.nodes, toDir, to, current, claim, true, w.limit - w.held, w.sha256)
    modifies w
    ensures w.held == old(w.held) && w.home == old(w.home) && w.away == old(w.away)
    ensures w.Still() || Aloof(w.drift, w.home, w.away) ==> w.meddled == old(w.meddled)
    ensures !w.meddled ==> !old(w.meddled)
    // kept: found as claimed
    ensures back.None? ==>
              r in {Done(CHANGED), Done(UNCERTAIN)} && w.OnlyDrifted() && !w.faults(old(w.clock)) &&
              ClaimedIdentityHolds(claimed, claim.identity) &&
              (w.Still() ==> w.Away().Some? && Sealed(w.nodes, w.Away().value, claim, w.sha256))
    // or given back, the very inode that was moved
    ensures back.Some? ==>
              GivesBack(w, old(w.acts), back.value, r) && w.unlinks == old(w.unlinks) &&
              (!w.meddled && w.acts != old(w.acts) ==> w.AtHome() == old(w.Away())) &&
              (w.Still() ==>
                 if w.acts == old(w.acts) then w.nodes == old(w.nodes)
                 else w.AtHome() == old(w.Away()) &&
                      Relocated(old(w.nodes), w.nodes, toDir, to, dir, name, w.AtHome().value))
    ensures sure ==> r == Done(CHANGED)
  {
    var kept: Result<()> := Raised;
    if ClaimedIdentityHolds(claimed, claim.identity) {
      kept := RequireClaim(w, toDir, to, current, claim, true, sure);
    }
    w.Drift();
    back := None;
    if kept.Ok? {
      var synced := SyncBoth(w, dir, toDir);
      return if synced.Ok? then Done(CHANGED) else Done(UNCERTAIN), None;
    }
    ghost var tick;
    r, tick := RollBackRename(w, dir, name, toDir, to);
    back := Some(tick);
  }

  /** `_roll_back_rename` */
  method RollBackRename(w: World, dir: Key, name: Name, toDir: Key, to: Name) returns (r: Run, ghost back: nat)
    requires w.home == (dir, name) && w.away == (toDir, to) && (dir, name) != (toDir, to)
    modifies w`nodes, w`clock, w`acts, w`asked
    ensures back == old(w.clock) && GivesBack(w, old(w.acts), back, r) && Returned(w)
  {
    back := w.clock;
    var moved := MoveBack(w, dir, name, toDir, to);
    if !moved { return Done(UNCERTAIN), back; }
    var synced := SyncBoth(w, dir, toDir);
    r := if synced.Ok? then RaisedAt(RolledBack) else Done(UNCERTAIN);
  }

  method SyncBoth(w: World, dir: Key, toDir: Key) returns (r: Result<()>)
    modifies w`clock
    ensures r.Ok? <==> !w.faults(old(w.clock)) && (toDir != dir ==> !w.faults(old(w.clock) + 1))
  {
    r := w.Fsync();
    if r.Ok? && toDir != dir {
      r := w.Fsync();
    }
  }

  // ---- the passes against each other, and a whole removal -----------------------------------------

  /** On a disk nobody disturbs, the level-by-level validation of an identity-only claim accepts exactly when a
      fresh inventory of the whole tree equals the claim. */
  method ValidateAgainstInventory(w: World, d: Key, entries: Entries, mount: int) returns (accepted: bool, equal: bool)
    requires w.Calm() && d in w.nodes && IsDirectory(w.nodes[d].mode)
    requires WellFormed(entries) && (forall relative <- entries :: entries[relative].sha256.None?)
    modifies w
    ensures accepted == equal
    ensures w.nodes == old(w.nodes) && w.acts == old(w.acts)
  {
    ghost var room := w.limit - w.held;
    ghost var exact := Exact(w.nodes, d, entries, mount, "") && Fits(entries, "", room);
    if exact { ExactIsWalkable(w.nodes, d, entries, mount, room); }
    var valid := ValidateClaimedDirectory(w, d, entries, mount, "", map[], false, exact);
    var actual := InventoryDirectory(w, d, mount, "", false, exact);
    accepted, equal := valid.Ok?, actual.Ok? && actual.value == entries;
    if equal { InventoryIsWellFormed(w.nodes, d, mount, entries, room); }
    if exact {
      ExactIsInventory(w.nodes, d, entries, mount, w.sha256);
      InventoryIsUnique(w.nodes, d, mount, actual.value, entries, false, w.sha256);
    }
  }

  lemma ExactIsWalkable(nodes: Nodes, d: Key, entries: Entries, mount: int, room: int)
    requires Exact(nodes, d, entries, mount, "") && Fits(entries, "", room) && d in nodes && IsDirectory(nodes[d].mode)
    ensures Walkable(nodes, d, mount, room)
  {
    ExactIsSupported(nodes, d, entries, mount, "");
    forall s | LeadsToDirectory(nodes, d, s) ensures Depth(s) <= room {
      assert ExactAt(nodes, d, entries, mount, "", s);
      assert s in Under(entries, "");
    }
  }

  lemma ExactIsInventory(nodes: Nodes, d: Key, entries: Entries, mount: int, sha256: seq<bv8> -> string)
    requires Exact(nodes, d, entries, mount, "") && (forall relative <- entries :: entries[relative].sha256.None?)
    ensures IsInventory(nodes, d, mount, "", entries, false, sha256)
  {
    forall relative | relative in entries ensures EntryHashed(nodes, entries[relative], false, sha256) {
      assert ExactAt(nodes, d, entries, mount, "", relative);
    }
  }

  /** A path below a path resolves from where that one leads. */
  lemma {:induction false} ResolveBelow(nodes: Nodes, d: Key, above: string, rest: string)
    requires Resolve(nodes, d, above + "/" + rest).Some?
    ensures Resolve(nodes, d, above).Some? && Resolve(nodes, Resolve(nodes, d, above).value, rest).Some?
    decreases |above|
  {
    var k := SlashAt(above);
    if k < |above| {
      SplitAtSlash(above, k);
      assert above + "/" + rest == above[..k] + "/" + (above[k + 1..] + "/" + rest);
      HeadIsName(nodes, d, above[..k], above[k + 1..] + "/" + rest);
      ResolveThrough(nodes, d, above[..k], above[k + 1..] + "/" + rest);
      ResolveThrough(nodes, d, above[..k], above[k + 1..]);
      ResolveBelow(nodes, Kids(nodes, d)[above[..k]], above[k + 1..], rest);
    } else {
      assert above[..k] == above;
      HeadIsName(nodes, d, above, rest);
      ResolveThrough(nodes, d, above, rest);
    }
  }

  lemma HeadIsName(nodes: Nodes, d: Key, head: string, rest: string)
    requires '/' !in head && Resolve(nodes, d, head + "/" + rest).Some?
    ensures head in Kids(nodes, d)
  {
    var whole := head + "/" + rest;
    assert whole[|head|] == '/';
    assert forall i :: 0 <= i < |head| ==> whole[i] == head[i] && head[i] in head;
    var k := SlashAt(whole);
    assert forall i :: 0 <= i < k ==> whole[i] == whole[..k][i];
    assert whole[..|head|] == head;
  }

  /** The inventory of a real tree is well-formed, and no deeper than the tree. */
  lemma InventoryIsWellFormed(nodes: Nodes, d: Key, mount: int, entries: Entries, room: int)
    requires Exact(nodes, d, entries, mount, "") && TreeFits(nodes, d, room)
    ensures WellFormed(entries) && Fits(entries, "", room)
  {
    forall above, relative | above in entries && relative in entries && above + "/" <= relative
      ensures IsDirectory(entries[above].identity.mode)
    {
      var rest := relative[|above| + 1..];
      assert relative == above + "/" + rest;
      assert ExactAt(nodes, d, entries, mount, "", above) && ExactAt(nodes, d, entries, mount, "", relative);
      ResolveBelow(nodes, d, above, rest);
    }
    forall relative | relative in Under(entries, "") && IsDirectory(entries[relative].identity.mode)
      ensures Depth(Rest("", relative)) <= room
    {
      assert ExactAt(nodes, d, entries, mount, "", relative);
      assert LeadsToDirectory(nodes, d, relative);
    }
  }

  /** A tree each of whose inodes has one name in it, apart from the directory it hangs in. */
  ghost predicate Tree(nodes: Nodes, dir: Key, k: Key)
  {
    dir != k &&
    (forall s, t :: Resolve(nodes, k, s).Some? && Resolve(nodes, k, s) == Resolve(nodes, k, t) ==> s == t) &&
    forall s :: Resolve(nodes, k, s) !in {Some(dir), Some(k)}
  }

  /** The tree below `k` has a path to `c`. */
  ghost predicate Leads(nodes: Nodes, k: Key, c: Key)
  {
    exists s :: Resolve(nodes, k, s) == Some(c)
  }

  lemma TreeClaim(nodes: Nodes, dir: Key, k: Key, mount: int, entries: Entries)
    requires Exact(nodes, k, entries, mount, "") && Tree(nodes, dir, k)
    ensures OneName(entries) && dir !in Claimed(entries, "") && k !in Claimed(entries, "")
    ensures forall c <- Claimed(entries, "") :: Leads(nodes, k, c)
  {
    forall relative | relative in entries
      ensures Resolve(nodes, k, relative) == Some(KeyOf(entries[relative].identity))
    {
      assert ExactAt(nodes, k, entries, mount, "", relative);
    }
    forall relative | relative in Under(entries, "") ensures KeyOf(entries[relative].identity) !in {dir, k} {
      assert Resolve(nodes, k, relative) !in {Some(dir), Some(k)};
    }
  }

  /** `remove_current`: claim what is there, content and all, and remove exactly that. `claim` is what was claimed, the
      other ghost results are those of `RemoveClaimed`. */
  method RemoveCurrent(w: World, path: string, safeRoot: string, anchor: Anchor, ghost sure: bool)
    returns (r: Run, progress: RemovalProgress, ghost claim: Result<Claim>, ghost asked: Option<nat>,
             ghost back: Option<nat>, ghost strayed: bool)
    requires sure ==> w.Calm() && anchor.Parent? && Claimable(w.nodes, anchor.dir, anchor.name, w.limit - w.held) &&
                      RemovableTree(w.nodes, anchor.dir, anchor.name)
    modifies w
    ensures fresh(progress) && w.held == old(w.held)
    ensures asked.None? <==> r in {Done(ABSENT), RaisedAt(BeforeStaging)}
    ensures asked.None? ==> w.acts == old(w.acts) && (w.Still() ==> w.nodes == old(w.nodes))
    // success without a change is reported where nothing stood and nothing stands; undisturbed, exactly there
    ensures r == Done(ABSENT) ==>
              claim.Ok? && !claim.value.identity.present &&
              NothingAt(old(w.nodes), anchor, old(w.clock), w.faults) &&
              NothingAt(w.nodes, anchor, old(w.clock) + 2, w.faults)
    ensures w.Still() ==> (r == Done(ABSENT) <==> NothingAt(old(w.nodes), anchor, old(w.clock), w.faults) &&
                                                  NothingAt(old(w.nodes), anchor, old(w.clock) + 2, w.faults))
    // what is moved is what was claimed, and the claim is true of it
    ensures asked.Some? ==>
              claim.Ok? && anchor.Parent? && w.home == (anchor.dir, anchor.name) &&
              w.away == (anchor.dir, StagingName(anchor.name, claim.value.identity.inode)) &&
              asked.value >= 2 && BeginsWith(old(w.acts), w.acts, w.home, w.away, asked.value - 2) &&
              (!strayed ==> w.acts[|old(w.acts)|].moved == KeyOf(claim.value.identity)) &&
              (w.Still() || Aloof(w.drift, w.home, w.away) ==> !strayed && !w.meddled)
    ensures asked.Some? && w.Still() ==>
              Describes(old(w.nodes), anchor.dir, anchor.name, claim.value, w.sha256)
    // the report
    ensures r == RaisedAt(AfterStaging) <==> asked.Some? && w.faults(asked.value)
    ensures r == RaisedAt(AfterStaging) ==>
              w.asked == Some(Ask(w.away.0, w.away.1, asked.value)) &&
              (w.Still() ==> Taken(old(w.nodes), w.nodes, w.home, w.away, KeyOf(claim.value.identity)))
    ensures back.Some? ==>
              asked.Some? && w.unlinks == old(w.unlinks) && GivesBack(w, w.acts[..|old(w.acts)| + 1], back.value, r)
    ensures back.Some? && w.Still() ==>
              (r == RaisedAt(RolledBack) <==> w.FairFrom(back.value, 3)) &&
              if |w.acts| == |old(w.acts)| + 1 then
                Taken(old(w.nodes), w.nodes, w.home, w.away, KeyOf(claim.value.identity))
              else PutBack(old(w.nodes), w.nodes, w.home.0, w.away.0, KeyOf(claim.value.identity))
    ensures asked.Some? && r != RaisedAt(AfterStaging) && back.None? ==>
              r in {Done(CHANGED), Done(UNCERTAIN)} &&
              ConsumedFrom(w, w.acts[..|old(w.acts)| + 1], claim.value, Some(w.acts[|old(w.acts)|].moved),
                           w.unlinks - old(w.unlinks), progress.removed, r == Done(CHANGED))
    ensures r == Done(CHANGED) ==>
              w.Away().None? && (!w.meddled ==> w.AtHome().None?) &&
              w.unlinks - old(w.unlinks) == progress.removed == ClaimedFileCount(claim.value)
    ensures sure ==> r == Done(CHANGED) &&
                     Kids(w.nodes, anchor.dir) == Kids(old(w.nodes), anchor.dir) - {anchor.name} &&
                     OnlyTreeGone(old(w.nodes), w.nodes, anchor.dir, Slot(old(w.nodes), anchor.dir, anchor.name).value)
  {
    var claimed := ClaimSource(w, path, safeRoot, anchor, true, sure);
    claim := claimed;
    if claimed.Raised? {
      progress := new RemovalProgress(0, false);
      return RaisedAt(BeforeStaging), progress, claim, None, None, false;
    }
    assert sure ==> Removable(w.nodes, anchor.dir, anchor.name, claimed.value, w.limit - w.held, w.sha256) &&
                    LeadsToClaimed(w.nodes, Slot(w.nodes, anchor.dir, anchor.name).value, claimed.value) by {
      if sure { CurrentIsRemovable(w.nodes, anchor.dir, anchor.name, claimed.value, w.limit - w.held, w.sha256); }
    }
    r, progress, asked, back, strayed := RemoveClaimed(w, path, safeRoot, anchor, claimed.value, false, sure);
  }

  /** The staging name is free, and below the name hangs a tree. */
  ghost predicate RemovableTree(nodes: Nodes, dir: Key, name: Name)
  {
    dir in nodes && IsDirectory(nodes[dir].mode) && Slot(nodes, dir, name).Some? &&
    Slot(nodes, dir, StagingName(name, Slot(nodes, dir, name).value.inode)).None? &&
    Tree(nodes, dir, Slot(nodes, dir, name).value)
  }

  /** Whatever the tree below `k` does not lead to is as it was, the directory it hung in apart. */
  ghost predicate OnlyTreeGone(before: Nodes, after: Nodes, dir: Key, k: Key)
  {
    forall other :: other !in {dir, k} && !Leads(before, k, other) ==> SameAt(before, after, other)
  }

  /** The tree below `k` leads to every inode the claim names. */
  ghost predicate LeadsToClaimed(nodes: Nodes, k: Key, claim: Claim)
  {
    forall c <- Claimed(claim.entries, "") :: Leads(nodes, k, c)
  }

  lemma CurrentIsRemovable(nodes: Nodes, dir: Key, name: Name, claim: Claim, room: int, sha256: seq<bv8> -> string)
    requires Claimable(nodes, dir, name, room) && RemovableTree(nodes, dir, name)
    requires claim.identity.present && Describes(nodes, dir, name, claim, sha256)
    requires nodes[Slot(nodes, dir, name).value].mount == nodes[dir].mount
    ensures Removable(nodes, dir, name, claim, room, sha256)
    ensures LeadsToClaimed(nodes, Slot(nodes, dir, name).value, claim)
  {
    var k := Slot(nodes, dir, name).value;
    if IsDirectory(nodes[k].mode) {
      InventoryIsWellFormed(nodes, k, claim.identity.mount, claim.entries, room - 1);
      TreeClaim(nodes, dir, k, claim.identity.mount, claim.entries);
    }
  }
}
