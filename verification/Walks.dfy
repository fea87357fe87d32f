/** The recursive walks over a claimed tree: take its inventory, check it, hold it, consume it. */
module Walks {
  import opened Options
  import opened Text
  import opened Inodes
  import opened Kernel

  // ---- checks on one entry ------------------------------------------------------

  /** Equal in every field but `exists`. */
  predicate Agrees(actual: Identity, expected: Identity)
  {
    actual == expected.(present := true)
  }

  /** Equal in the fields a rename keeps. */
  predicate AgreesWhenMoved(actual: Identity, expected: Identity)
  {
    actual.(ctime := 0) == expected.(present := true, ctime := 0)
  }

  /** `_require_entry_matches_fd` */
  predicate EntryMatches(entry: Stat, fd: Identity)
  {
    Agrees(IdentityForStat(entry, fd.mount), fd)
  }

  /** `_require_file_claim` */
  method RequireFileClaim(w: World, fd: Key, expected: Identity, expectedHash: Option<string>,
                          claimed: bool, contentBound: bool)
    returns (r: Result<()>)
    modifies w`clock
    ensures r.Ok? ==> fd in w.nodes && w.clock == old(w.clock) + ClaimTicks(expectedHash) &&
                      FileClaimHolds(w.nodes[fd], fd, expected, expectedHash, claimed, contentBound, w.sha256)
    ensures fd in w.nodes && FileClaimHolds(w.nodes[fd], fd, expected, expectedHash, claimed, contentBound, w.sha256)
            ==> w.FairFrom(old(w.clock), ClaimTicks(expectedHash)) ==> r.Ok?
  {
    if contentBound && expectedHash.None? { return Raised; }
    var before :- w.Fstat(fd);
    if !(if claimed then AgreesWhenMoved(before, expected) else Agrees(before, expected)) { return Raised; }
    if expectedHash.None? { return Ok(()); }
    var hash :- w.Hash(fd);
    var after :- w.Fstat(fd);
    if hash != expectedHash.value || after != before { return Raised; }
    return Ok(());
  }

  /** How many calls it takes to prove a file: one `fstat`, or a hash between two. */
  function ClaimTicks(expectedHash: Option<string>): nat { if expectedHash.Some? then 3 else 1 }

  predicate FileClaimHolds(n: Node, fd: Key, expected: Identity, expectedHash: Option<string>,
                           claimed: bool, contentBound: bool, sha256: seq<bv8> -> string)
  {
    (if claimed then AgreesWhenMoved(IdentityOf(fd, n), expected) else Agrees(IdentityOf(fd, n), expected)) &&
    (contentBound ==> expectedHash.Some?) && (expectedHash.Some? ==> expectedHash.value == sha256(n.bytes))
  }

  // ---- one level ----------------------------------------------------------------------

  /** `sorted(names)` of one directory. */
  method InOrder(names: set<Name>) returns (ordered: seq<Name>)
    ensures Ascending(ordered) && Distinct(ordered) && forall n :: n in ordered <==> n in names
  {
    var all := Sorted(names);
    AscendingIsDistinct(all);
    assert forall i :: 0 <= i < |all| ==> all[i] in names;
    ordered := all;
  }

  /** The first half of `_claimed_children`: the listing must be the claimed names exactly. */
  method ClaimedNames(w: World, d: Key, entries: Entries, prefix: string) returns (r: Result<seq<Name>>)
    modifies w`clock
    ensures r.Ok? ==> Kids(w.nodes, d).Keys == ExpectedNames(entries, prefix) &&
                      Ascending(r.value) && Distinct(r.value) &&
                      (forall n :: n in r.value <==> n in Kids(w.nodes, d)) &&
                      d in w.nodes && IsDirectory(w.nodes[d].mode)
    ensures w.Calm() && d in w.nodes && IsDirectory(w.nodes[d].mode) ==>
              Kids(w.nodes, d).Keys == ExpectedNames(entries, prefix) ==> r.Ok?
  {
    var actual :- w.List(d);
    if actual != ExpectedNames(entries, prefix) { return Raised; }
    var ordered := InOrder(actual);
    return Ok(ordered);
  }

  /** The second half, once per name: the claimed entry and a fresh `stat`. */
  method ClaimedChild(w: World, d: Key, entries: Entries, prefix: string, name: Name)
    returns (r: Result<(Entry, Stat)>)
    modifies w`clock, w`asked
    ensures r.Ok? ==> Rel(prefix, name) in entries && Names(w.nodes, d, name) &&
                      r.value == (entries[Rel(prefix, name)],
                                  StatOf(Slot(w.nodes, d, name).value, NodeAt(w.nodes, d, name)))
    ensures w.Calm() && Rel(prefix, name) in entries && Names(w.nodes, d, name) ==> r.Ok?
  {
    if Rel(prefix, name) !in entries { return Raised; }
    var current :- w.StatName(d, name);
    if current.None? { return Raised; }
    return Ok((entries[Rel(prefix, name)], current.value));
  }

  // ---- how deep a walk goes -----------------------------------------------------------

  /** Components of a relative path. */
  function Depth(path: string): nat
    decreases |path|
  {
    var k := SlashAt(path);
    1 + if k < |path| then Depth(path[k + 1..]) else 0
  }

  lemma DepthThrough(name: Name, s: string)
    ensures Depth(name) == 1 && Depth(name + "/" + s) == 1 + Depth(s)
  {
    SlashAfterName(name, s);
    assert (name + "/" + s)[|name| + 1..] == s;
  }

  /** A walk of the tree below `d` holds at most `room` directories at once. */
  ghost predicate TreeFits(nodes: Nodes, d: Key, room: int)
  {
    forall s :: LeadsToDirectory(nodes, d, s) ==> Depth(s) <= room
  }

  predicate LeadsToDirectory(nodes: Nodes, d: Key, s: string)
  {
    Resolve(nodes, d, s).Some? && Resolve(nodes, d, s).value in nodes &&
    IsDirectory(nodes[Resolve(nodes, d, s).value].mode)
  }

  /** The same for what one name leads to. */
  ghost predicate KidFits(nodes: Nodes, d: Key, name: Name, room: int)
  {
    NamesDirectory(nodes, d, name) ==> room > 0 && TreeFits(nodes, Slot(nodes, d, name).value, room - 1)
  }

  lemma SubtreeFits(nodes: Nodes, d: Key, name: Name, room: int)
    requires TreeFits(nodes, d, room)
    ensures KidFits(nodes, d, name, room)
  {
    if NamesDirectory(nodes, d, name) {
      ResolveThrough(nodes, d, name, "");
      DepthThrough(name, "");
      assert LeadsToDirectory(nodes, d, name);
      forall s | LeadsToDirectory(nodes, Kids(nodes, d)[name], s) ensures Depth(s) <= room - 1 {
        ResolveThrough(nodes, d, name, s);
        DepthThrough(name, s);
        assert LeadsToDirectory(nodes, d, name + "/" + s);
      }
    }
  }

  lemma KidsFit(nodes: Nodes, d: Key, room: int)
    requires forall name <- Kids(nodes, d) :: KidFits(nodes, d, name, room)
    ensures TreeFits(nodes, d, room)
  {
    forall s | LeadsToDirectory(nodes, d, s) ensures Depth(s) <= room {
      var k := SlashAt(s);
      if k == |s| {
        assert s == s[..k];
        ResolveThrough(nodes, d, s, "");
        DepthThrough(s, "");
        assert KidFits(nodes, d, s, room);
      } else {
        var name: string := s[..k];
        SplitAtSlash(s, k);
        assert name in Kids(nodes, d);
        ResolveThrough(nodes, d, name, s[k + 1..]);
        DepthThrough(name, s[k + 1..]);
        assert KidFits(nodes, d, name, room);
        assert LeadsToDirectory(nodes, Kids(nodes, d)[name], s[k + 1..]);
      }
    }
  }

  /** Everything the tree leads to is a directory or a regular file on the claim's own mount. */
  ghost predicate Supported(nodes: Nodes, d: Key, mount: int)
  {
    forall s :: Resolve(nodes, d, s).Some? ==> SupportedNode(nodes, Resolve(nodes, d, s).value, mount)
  }

  predicate SupportedNode(nodes: Nodes, k: Key, mount: int)
  {
    k in nodes && nodes[k].mount == mount && (IsDirectory(nodes[k].mode) || IsRegular(nodes[k].mode))
  }

  lemma SubtreeSupported(nodes: Nodes, d: Key, name: Name, mount: int)
    requires Supported(nodes, d, mount) && name in Kids(nodes, d)
    ensures SupportedNode(nodes, Kids(nodes, d)[name], mount)
    ensures Supported(nodes, Kids(nodes, d)[name], mount)
  {
    ResolveThrough(nodes, d, name, "");
    forall s | Resolve(nodes, Kids(nodes, d)[name], s).Some?
      ensures SupportedNode(nodes, Resolve(nodes, Kids(nodes, d)[name], s).value, mount)
    {
      ResolveThrough(nodes, d, name, s);
      assert Resolve(nodes, d, name + "/" + s).Some?;
    }
  }

  // ---- the inventory ----------------------------------------------------------------------

  /** Hashes were taken of the regular files, or of nothing. */
  ghost predicate Hashed(nodes: Nodes, entries: Entries, digest: bool, sha256: seq<bv8> -> string)
  {
    forall relative <- entries :: EntryHashed(nodes, entries[relative], digest, sha256)
  }

  predicate EntryHashed(nodes: Nodes, entry: Entry, digest: bool, sha256: seq<bv8> -> string)
  {
    var k := KeyOf(entry.identity);
    k in nodes &&
    entry.sha256 == if digest && IsRegular(entry.identity.mode) then Some(sha256(nodes[k].bytes)) else None
  }

  /** `entries` is the inventory of the tree below `d`: that tree's paths, all of them, as they are. */
  ghost predicate IsInventory(nodes: Nodes, d: Key, mount: int, prefix: string, entries: Entries, digest: bool,
                              sha256: seq<bv8> -> string)
  {
    Exact(nodes, d, entries, mount, prefix) && (forall relative <- entries :: Below(prefix, relative)) &&
    Hashed(nodes, entries, digest, sha256)
  }

  /** The inventory so far, of the children in `done`. */
  ghost predicate Partly(nodes: Nodes, d: Key, mount: int, prefix: string, entries: Entries, done: set<Name>)
  {
    (forall relative <- entries :: Below(prefix, relative)) &&
    forall s :: if Head(s) in done then ExactAt(nodes, d, entries, mount, prefix, s) else Rel(prefix, s) !in entries
  }

  lemma PartlyGrows(nodes: Nodes, d: Key, mount: int, prefix: string, entries: Entries, done: set<Name>,
                    name: Name, entry: Entry, sub: Entries)
    requires Partly(nodes, d, mount, prefix, entries, done)
    requires name in Kids(nodes, d) && name !in done
    requires Matches(nodes, Kids(nodes, d)[name], entry.identity, mount)
    requires IsDirectory(nodes[Kids(nodes, d)[name]].mode) ==>
               Exact(nodes, Kids(nodes, d)[name], sub, mount, Rel(prefix, name)) &&
               forall relative <- sub :: Below(Rel(prefix, name), relative)
    requires !IsDirectory(nodes[Kids(nodes, d)[name]].mode) ==> sub == map[]
    ensures Partly(nodes, d, mount, prefix, entries[Rel(prefix, name) := entry] + sub, done + {name})
  {
    var rel := Rel(prefix, name);
    var grown := entries[rel := entry] + sub;
    RestOfRel(prefix, name);
    forall relative | relative in sub
      ensures Below(prefix, relative) && relative == Rel(prefix, name + "/" + Rest(rel, relative))
    {
      RelIsAssociative(prefix, name, Rest(rel, relative));
      RestOfRel(prefix, name + "/" + Rest(rel, relative));
    }
    forall s
      ensures if Head(s) in done + {name} then ExactAt(nodes, d, grown, mount, prefix, s) else Rel(prefix, s) !in grown
    {
      RestOfRel(prefix, s);
      if Head(s) != name {
        OtherHead(prefix, name, s, sub);
        assert if Head(s) in done then ExactAt(nodes, d, entries, mount, prefix, s) else Rel(prefix, s) !in entries;
      } else {
        PartlyAt(nodes, d, mount, prefix, entries, done, name, entry, sub, s);
      }
    }
  }

  lemma OtherHead(prefix: string, name: Name, s: string, sub: Entries)
    requires Head(s) != name
    requires forall relative <- sub ::
               Below(Rel(prefix, name), relative) && Below(prefix, relative) &&
               relative == Rel(prefix, name + "/" + Rest(Rel(prefix, name), relative))
    ensures Rel(prefix, s) != Rel(prefix, name) && Rel(prefix, s) !in sub
  {
    RestOfRel(prefix, s);
    RestOfRel(prefix, name);
    SlashAfterName(name, "");
    assert name[..|name|] == name;
    forall relative | relative in sub ensures Head(Rest(prefix, relative)) == name {
      var t := Rest(Rel(prefix, name), relative);
      RestOfRel(prefix, name + "/" + t);
      SlashAfterName(name, t);
      assert (name + "/" + t)[..|name|] == name;
    }
  }

  lemma PartlyAt(nodes: Nodes, d: Key, mount: int, prefix: string, entries: Entries, done: set<Name>,
                 name: Name, entry: Entry, sub: Entries, s: string)
    requires Partly(nodes, d, mount, prefix, entries, done)
    requires name in Kids(nodes, d) && name !in done && Head(s) == name
    requires Matches(nodes, Kids(nodes, d)[name], entry.identity, mount)
    requires IsDirectory(nodes[Kids(nodes, d)[name]].mode) ==>
               Exact(nodes, Kids(nodes, d)[name], sub, mount, Rel(prefix, name)) &&
               forall relative <- sub :: Below(Rel(prefix, name), relative)
    requires !IsDirectory(nodes[Kids(nodes, d)[name]].mode) ==> sub == map[]
    ensures ExactAt(nodes, d, entries[Rel(prefix, name) := entry] + sub, mount, prefix, s)
  {
    var rel := Rel(prefix, name);
    var kid := Kids(nodes, d)[name];
    var k := SlashAt(s);
    RestOfRel(prefix, s);
    assert Rel(prefix, s) !in entries;
    if k == |s| {
      assert s == name;
      ResolveThrough(nodes, d, name, "");
      assert rel !in sub;
    } else {
      var t := s[k + 1..];
      SplitAtSlash(s, k);
      RelIsAssociative(prefix, name, t);
      ResolveThrough(nodes, d, name, t);
      if IsDirectory(nodes[kid].mode) {
        assert ExactAt(nodes, kid, sub, mount, rel, t);
      }
    }
  }

  lemma WhollyExact(nodes: Nodes, d: Key, mount: int, prefix: string, entries: Entries, done: set<Name>)
    requires Partly(nodes, d, mount, prefix, entries, done) && done == Kids(nodes, d).Keys
    ensures Exact(nodes, d, entries, mount, prefix)
  {
    forall s ensures ExactAt(nodes, d, entries, mount, prefix, s) {
      assert if Head(s) in done then ExactAt(nodes, d, entries, mount, prefix, s) else Rel(prefix, s) !in entries;
    }
  }

  /** `_inventory_directory`. The descriptor limit is what ends it on a tree the environment keeps deepening. */
  method InventoryDirectory(w: World, d: Key, mount: int, prefix: string, digest: bool, ghost sure: bool)
    returns (r: Result<Entries>)
    requires sure ==> w.Calm() && Walkable(w.nodes, d, mount, w.limit - w.held)
    modifies w
    ensures w.OnlyDrifted() && w.held == old(w.held)
    ensures r.Ok? ==> Nested(r.value, prefix)
    ensures w.Still() && r.Ok? ==> IsInventory(w.nodes, d, mount, prefix, r.value, digest, w.sha256)
    ensures w.Still() && r.Ok? ==> Walkable(w.nodes, d, mount, w.limit - w.held)
    ensures sure ==> r.Ok?
    decreases w.limit - w.held, 2, 0
  {
    var listed :- w.List(d);
    var names := InOrder(listed);
    var entries: Entries := map[];
    for i := 0 to |names|
      invariant w.OnlyDrifted() && w.held == old(w.held)
      invariant Laid(entries, prefix, names, i)
      invariant w.Still() ==> SoFar(w.nodes, d, mount, prefix, entries, names, i, digest, w.sha256, w.limit - w.held)
    {
      entries :- InventoryRound(w, d, names, i, mount, prefix, digest, entries, sure);
    }
    if w.Still() { SoFarIsAll(w.nodes, d, mount, prefix, entries, names, digest, w.sha256, w.limit - w.held); }
    return Ok(entries);
  }

  /** Everything below the prefix, and nothing below what is no directory. */
  ghost predicate Nested(entries: Entries, prefix: string)
  {
    WellFormed(entries) && forall relative <- entries :: Below(prefix, relative)
  }

  /** The same of a walk that has been through the first `i` names. */
  ghost predicate Laid(entries: Entries, prefix: string, names: seq<Name>, i: nat)
  {
    i <= |names| && Nested(entries, prefix) &&
    forall relative <- entries :: Head(Rest(prefix, relative)) in NamesUpTo(names, i)
  }

  lemma LaidGrows(entries: Entries, prefix: string, names: seq<Name>, i: nat, entry: Entry, sub: Entries)
    requires i < |names| && Distinct(names) && Laid(entries, prefix, names, i)
    requires Nested(sub, Rel(prefix, names[i])) && (IsDirectory(entry.identity.mode) || sub == map[])
    ensures Laid(entries[Rel(prefix, names[i]) := entry] + sub, prefix, names, i + 1)
  {
    var name, rel := names[i], Rel(prefix, names[i]);
    assert NamesUpTo(names, i + 1) == NamesUpTo(names, i) + {name} && name !in NamesUpTo(names, i);
    HeadAt(prefix, name);
    forall relative | relative in sub ensures Below(prefix, relative) && Head(Rest(prefix, relative)) == name {
      HeadBelow(prefix, name, relative);
    }
    var grown := entries[rel := entry] + sub;
    forall above, relative | above in grown && relative in grown && above + "/" <= relative
      ensures IsDirectory(grown[above].identity.mode)
    {
      assert Head(Rest(prefix, relative)) == Head(Rest(prefix, above)) by { HeadAbove(prefix, above, relative); }
      NestedGrows(entries, sub, rel, entry, above, relative);
    }
  }

  lemma NestedGrows(entries: Entries, sub: Entries, rel: string, entry: Entry, above: string, relative: string)
    requires WellFormed(entries) && WellFormed(sub) && (IsDirectory(entry.identity.mode) || sub == map[])
    requires above + "/" <= relative && forall x <- sub :: rel + "/" <= x
    requires (above in entries && above != rel && above !in sub && relative in entries) ||
             (above == rel && (relative == rel || relative in sub)) ||
             (above in sub && (relative == rel || relative in sub))
    ensures IsDirectory((entries[rel := entry] + sub)[above].identity.mode)
  {
    if above in sub {
      assert |rel| < |above| < |relative|;
      assert LiesBelow(sub, above, relative);
    } else if above == rel {
      assert |rel| < |relative|;
    } else {
      assert LiesBelow(entries, above, relative);
    }
  }

  lemma HeadAt(prefix: string, name: Name)
    ensures Below(prefix, Rel(prefix, name)) && Head(Rest(prefix, Rel(prefix, name))) == name
  {
    RestOfRel(prefix, name);
    SlashAfterName(name, "");
    assert name[..|name|] == name;
  }

  /** What lies below a path begins with the same name. */
  lemma HeadAbove(prefix: string, above: string, relative: string)
    requires Below(prefix, above) && Below(prefix, relative) && above + "/" <= relative
    ensures Head(Rest(prefix, relative)) == Head(Rest(prefix, above))
  {
    var a, s := Rest(prefix, above), Rest(prefix, relative);
    var k, j := SlashAt(a), SlashAt(s);
    assert a + "/" <= s && (a + "/")[k] == '/';
    assert s[k] == '/' && forall i :: 0 <= i < k ==> s[i] == a[..k][i] && a[..k][i] in a[..k];
    assert forall i :: 0 <= i < j ==> s[i] == s[..j][i];
  }

  ghost function NamesUpTo(names: seq<Name>, i: nat): set<Name>
    requires i <= |names|
  {
    set j | 0 <= j < i :: names[j]
  }

  /** What the walk has when it has been through the first `i` names. */
  ghost predicate SoFar(nodes: Nodes, d: Key, mount: int, prefix: string, entries: Entries, names: seq<Name>, i: nat,
                        digest: bool, sha256: seq<bv8> -> string, room: int)
  {
    i <= |names| && Partly(nodes, d, mount, prefix, entries, NamesUpTo(names, i)) &&
    Hashed(nodes, entries, digest, sha256) && FitSoFar(nodes, d, names, i, room)
  }

  lemma SoFarGrows(nodes: Nodes, d: Key, mount: int, prefix: string, entries: Entries, names: seq<Name>, i: nat,
                   entry: Entry, sub: Entries, digest: bool, sha256: seq<bv8> -> string, room: int)
    requires SoFar(nodes, d, mount, prefix, entries, names, i, digest, sha256, room)
    requires i < |names| && Distinct(names) && names[i] in Kids(nodes, d) && KidFits(nodes, d, names[i], room)
    requires Matches(nodes, Kids(nodes, d)[names[i]], entry.identity, mount)
    requires EntryHashed(nodes, entry, digest, sha256)
    requires if IsDirectory(nodes[Kids(nodes, d)[names[i]]].mode) then
               IsInventory(nodes, Kids(nodes, d)[names[i]], mount, Rel(prefix, names[i]), sub, digest, sha256)
             else sub == map[]
    ensures SoFar(nodes, d, mount, prefix, entries[Rel(prefix, names[i]) := entry] + sub, names, i + 1, digest, sha256,
                  room)
  {
    PartlyGrows(nodes, d, mount, prefix, entries, NamesUpTo(names, i), names[i], entry, sub);
    assert NamesUpTo(names, i + 1) == NamesUpTo(names, i) + {names[i]};
  }

  lemma SoFarIsAll(nodes: Nodes, d: Key, mount: int, prefix: string, entries: Entries, names: seq<Name>, digest: bool,
                   sha256: seq<bv8> -> string, room: int)
    requires SoFar(nodes, d, mount, prefix, entries, names, |names|, digest, sha256, room)
    requires forall n :: n in names <==> n in Kids(nodes, d).Keys
    ensures IsInventory(nodes, d, mount, prefix, entries, digest, sha256)
    ensures Supported(nodes, d, mount) && TreeFits(nodes, d, room)
  {
    assert NamesUpTo(names, |names|) == Kids(nodes, d).Keys;
    WhollyExact(nodes, d, mount, prefix, entries, NamesUpTo(names, |names|));
    ExactIsSupported(nodes, d, entries, mount, prefix);
    AllFit(nodes, d, names, room);
  }

  /** The environment's turn, one name, and the inventory grown by it. */
  method InventoryRound(w: World, d: Key, names: seq<Name>, i: nat, mount: int, prefix: string, digest: bool,
                        entries: Entries, ghost sure: bool)
    returns (r: Result<Entries>)
    requires i < |names| && Distinct(names)
    requires sure ==> w.Calm() && Walkable(w.nodes, d, mount, w.limit - w.held) && names[i] in Kids(w.nodes, d)
    modifies w
    ensures w.OnlyDrifted() && w.held == old(w.held)
    ensures w.Still() && r.Ok? &&
            old(SoFar(w.nodes, d, mount, prefix, entries, names, i, digest, w.sha256, w.limit - w.held)) ==>
              SoFar(w.nodes, d, mount, prefix, r.value, names, i + 1, digest, w.sha256, w.limit - w.held)
    ensures r.Ok? && Laid(entries, prefix, names, i) ==> Laid(r.value, prefix, names, i + 1)
    ensures sure ==> r.Ok?
    decreases w.limit - w.held, 1, 1
  {
    w.Drift();
    assert sure ==> ChildWalkable(w.nodes, d, names[i], mount, w.limit - w.held) by {
      if sure { WalkableChild(w.nodes, d, names[i], mount, w.limit - w.held); }
    }
    var found :- InventoryEntry(w, d, names[i], mount, Rel(prefix, names[i]), digest, sure);
    var (entry, sub) := found;
    if w.Still() && SoFar(w.nodes, d, mount, prefix, entries, names, i, digest, w.sha256, w.limit - w.held) {
      SoFarGrows(w.nodes, d, mount, prefix, entries, names, i, entry, sub, digest, w.sha256, w.limit - w.held);
    }
    if Laid(entries, prefix, names, i) { LaidGrows(entries, prefix, names, i, entry, sub); }
    return Ok(entries[Rel(prefix, names[i]) := entry] + sub);
  }

  ghost predicate FitSoFar(nodes: Nodes, d: Key, names: seq<Name>, i: nat, room: int)
    requires i <= |names|
  {
    forall j :: 0 <= j < i ==> KidFits(nodes, d, names[j], room)
  }

  lemma AllFit(nodes: Nodes, d: Key, names: seq<Name>, room: int)
    requires FitSoFar(nodes, d, names, |names|, room) && forall n :: n in names <==> n in Kids(nodes, d).Keys
    ensures TreeFits(nodes, d, room)
  {
    forall name | name in Kids(nodes, d) ensures KidFits(nodes, d, name, room) {
      assert name in names;
    }
    KidsFit(nodes, d, room);
  }

  /** One round of the walk: the entry for one name, and the inventory below it. */
  method InventoryEntry(w: World, d: Key, name: Name, mount: int, relative: string, digest: bool, ghost sure: bool)
    returns (r: Result<(Entry, Entries)>)
    requires sure ==> w.Calm() && ChildWalkable(w.nodes, d, name, mount, w.limit - w.held)
    modifies w
    ensures w.OnlyDrifted() && w.held == old(w.held)
    ensures r.Ok? ==> Nested(r.value.1, relative) && (IsDirectory(r.value.0.identity.mode) || r.value.1 == map[])
    ensures w.Still() && r.Ok? ==> Names(w.nodes, d, name) && var k := Slot(w.nodes, d, name).value;
                                   Matches(w.nodes, k, r.value.0.identity, mount) &&
                                   EntryHashed(w.nodes, r.value.0, digest, w.sha256) &&
                                   if IsDirectory(w.nodes[k].mode) then
                                     IsInventory(w.nodes, k, mount, relative, r.value.1, digest, w.sha256)
                                   else r.value.1 == map[]
    ensures w.Still() && r.Ok? ==> KidFits(w.nodes, d, name, w.limit - w.held)
    ensures sure ==> r.Ok?
    decreases w.limit - w.held, 1, 0
  {
    var current :- w.StatName(d, name);
    if current.None? { return Raised; }
    if IsDirectory(current.value.mode) {
      var child :- w.OpenDirectory(d, name);
      r := InventoryChild(w, child, current.value, mount, relative, digest, sure);
      w.CloseDirectory();
    } else if IsRegular(current.value.mode) {
      var entry :- InventoryFile(w, d, name, current.value, mount, digest);
      return Ok((entry, map[]));
    } else {
      return Raised;
    }
  }

  /** The directory branch, from the open descriptor on. */
  method InventoryChild(w: World, child: Key, current: Stat, mount: int, relative: string, digest: bool,
                        ghost sure: bool)
    returns (r: Result<(Entry, Entries)>)
    requires sure ==> w.Calm() && Walkable(w.nodes, child, mount, w.limit - w.held) &&
                      w.nodes[child].mount == mount && current == StatOf(child, w.nodes[child])
    modifies w
    ensures w.OnlyDrifted() && w.held == old(w.held)
    ensures r.Ok? ==> Nested(r.value.1, relative) && r.value.0.identity.mode == current.mode
    ensures w.Still() && r.Ok? ==>
              child in w.nodes && w.nodes[child].mount == mount && EntryMatches(current, r.value.0.identity) &&
              r.value.0 == Entry(IdentityOf(child, w.nodes[child]), None) &&
              IsInventory(w.nodes, child, mount, relative, r.value.1, digest, w.sha256) &&
              TreeFits(w.nodes, child, w.limit - w.held)
    ensures sure ==> r.Ok?
    decreases w.limit - w.held, 3, 0
  {
    var actual :- w.MountOf(child);
    if actual != mount { return Raised; }
    var identity :- w.Fstat(child);
    if !EntryMatches(current, identity) { return Raised; }
    var sub :- InventoryDirectory(w, child, mount, relative, digest, sure);
    return Ok((Entry(identity, None), sub));
  }

  /** The regular-file branch. */
  method InventoryFile(w: World, d: Key, name: Name, current: Stat, mount: int, digest: bool) returns (r: Result<Entry>)
    modifies w`clock
    ensures r.Ok? ==> Names(w.nodes, d, name) && var k := Slot(w.nodes, d, name).value;
                      w.nodes[k].mount == mount && r.value.identity == IdentityOf(k, w.nodes[k]) &&
                      EntryMatches(current, r.value.identity) &&
                      r.value.sha256 == if digest then Some(w.sha256(w.nodes[k].bytes)) else None
    ensures w.Calm() && Names(w.nodes, d, name) ==>
              var n := NodeAt(w.nodes, d, name);
              n.mount == mount && !IsLink(n.mode) && current == StatOf(Slot(w.nodes, d, name).value, n) ==> r.Ok?
  {
    var fd :- w.OpenRegular(d, name);
    var actual :- w.MountOf(fd);
    if actual != mount { return Raised; }
    var identity :- w.Fstat(fd);
    if !EntryMatches(current, identity) { return Raised; }
    if digest {
      var hash :- w.Hash(fd);
      var again :- w.Fstat(fd);
      if again != identity { return Raised; }
      return Ok(Entry(identity, Some(hash)));
    }
    return Ok(Entry(identity, None));
  }

  /** A walk can go all the way: only supported entries, on one mount, no deeper than descriptors allow. */
  ghost predicate Walkable(nodes: Nodes, d: Key, mount: int, room: int)
  {
    d in nodes && IsDirectory(nodes[d].mode) && Supported(nodes, d, mount) && TreeFits(nodes, d, room)
  }

  /** The same for one name. */
  ghost predicate ChildWalkable(nodes: Nodes, d: Key, name: Name, mount: int, room: int)
  {
    Slot(nodes, d, name).Some? && SupportedNode(nodes, Slot(nodes, d, name).value, mount) &&
    (IsDirectory(NodeAt(nodes, d, name).mode) ==>
       room > 0 && Walkable(nodes, Slot(nodes, d, name).value, mount, room - 1))
  }

  lemma WalkableChild(nodes: Nodes, d: Key, name: Name, mount: int, room: int)
    requires Walkable(nodes, d, mount, room) && name in Kids(nodes, d)
    ensures ChildWalkable(nodes, d, name, mount, room)
  {
    SubtreeSupported(nodes, d, name, mount);
    SubtreeFits(nodes, d, name, room);
  }

  lemma ExactIsSupported(nodes: Nodes, d: Key, entries: Entries, mount: int, prefix: string)
    requires Exact(nodes, d, entries, mount, prefix)
    ensures Supported(nodes, d, mount)
  {
    forall s | Resolve(nodes, d, s).Some? ensures SupportedNode(nodes, Resolve(nodes, d, s).value, mount) {
      assert ExactAt(nodes, d, entries, mount, prefix, s);
    }
  }

  // ---- the claim's own measures --------------------------------------------------------

  lemma UnderShrinks(entries: Entries, prefix: string, name: Name)
    requires Rel(prefix, name) in entries
    ensures Under(entries, Rel(prefix, name)) < Under(entries, prefix)
    ensures |Under(entries, Rel(prefix, name))| < |Under(entries, prefix)|
  {
    RestOfRel(prefix, name);
    var inner, outer := Under(entries, Rel(prefix, name)), Under(entries, prefix);
    assert Rel(prefix, name) in outer && Rel(prefix, name) !in inner;
    forall relative | relative in inner ensures relative in outer {
      var t := Rest(Rel(prefix, name), relative);
      RelIsAssociative(prefix, name, t);
      RestOfRel(prefix, name + "/" + t);
    }
    SmallerSubset(inner, outer);
  }

  lemma SmallerSubset<T>(inner: set<T>, outer: set<T>)
    requires inner < outer
    ensures |inner| < |outer|
  {
    var x :| x in outer && x !in inner;
    assert |outer - inner| > 0;
    assert outer == inner + (outer - inner);
  }

  /** Consuming the claim below `prefix` holds at most `room` directories at once. */
  ghost predicate Fits(entries: Entries, prefix: string, room: int)
  {
    forall relative <- Under(entries, prefix) | IsDirectory(entries[relative].identity.mode) ::
      Depth(Rest(prefix, relative)) <= room
  }

  /** The same for one name of a level. */
  ghost predicate EntryFits(entries: Entries, prefix: string, name: Name, room: int)
  {
    Rel(prefix, name) in entries && IsDirectory(entries[Rel(prefix, name)].identity.mode) ==>
      room > 0 && Fits(entries, Rel(prefix, name), room - 1)
  }

  lemma EntriesFit(entries: Entries, prefix: string, room: int)
    requires WellFormed(entries)
    requires forall name: Name :: name in ExpectedNames(entries, prefix) ==>
                                    Rel(prefix, name) in entries && EntryFits(entries, prefix, name, room)
    requires forall name <- ExpectedNames(entries, prefix) :: name != ""
    ensures Fits(entries, prefix, room)
  {
    forall relative | relative in Under(entries, prefix) && IsDirectory(entries[relative].identity.mode)
      ensures Depth(Rest(prefix, relative)) <= room
    {
      var head := Head(Rest(prefix, relative));
      assert head in ExpectedNames(entries, prefix);
      var name: Name := head;
      BelowOrAt(prefix, name, relative);
      if relative == Rel(prefix, name) {
        RestOfRel(prefix, name);
        DepthThrough(name, "");
      } else {
        assert LiesBelow(entries, Rel(prefix, name), relative);
        var t := Rest(Rel(prefix, name), relative);
        RelIsAssociative(prefix, name, t);
        RestOfRel(prefix, name + "/" + t);
        DepthThrough(name, t);
        assert relative in Under(entries, Rel(prefix, name));
      }
    }
  }

  lemma ChildFits(entries: Entries, prefix: string, name: Name, room: int)
    requires Fits(entries, prefix, room) && Rel(prefix, name) in entries
    ensures IsDirectory(entries[Rel(prefix, name)].identity.mode) ==> room > 0
    ensures Fits(entries, Rel(prefix, name), room - 1)
  {
    RestOfRel(prefix, name);
    DepthThrough(name, "");
    assert Rel(prefix, name) in Under(entries, prefix);
    forall relative | relative in Under(entries, Rel(prefix, name)) && IsDirectory(entries[relative].identity.mode)
      ensures Depth(Rest(Rel(prefix, name), relative)) <= room - 1
    {
      var t := Rest(Rel(prefix, name), relative);
      RelIsAssociative(prefix, name, t);
      RestOfRel(prefix, name + "/" + t);
      DepthThrough(name, t);
      assert relative in Under(entries, prefix);
    }
  }

  /** Under a content-bound claim each regular file below `prefix` is leased already. */
  ghost predicate Holding(entries: Entries, prefix: string, leased: map<string, Key>, contentBound: bool)
  {
    contentBound ==>
      forall relative <- Files(entries, prefix) ::
        relative in leased && leased[relative] == KeyOf(entries[relative].identity)
  }

  /** The regular files claimed below `prefix`. */
  function Files(entries: Entries, prefix: string): set<string>
  {
    set relative <- Under(entries, prefix) | IsRegular(entries[relative].identity.mode)
  }

  // ---- entering a claimed directory ---------------------------------------------------------

  /** Open a child directory, on this mount and of exactly the claimed identity. */
  method EnterClaimed(w: World, d: Key, name: Name, mount: int, expected: Identity) returns (r: Result<Key>)
    modifies w`clock, w`held
    ensures r.Ok? ==> w.held == old(w.held) + 1 <= w.limit && Slot(w.nodes, d, name) == Some(r.value) &&
                      Matches(w.nodes, r.value, expected, mount) && IsDirectory(w.nodes[r.value].mode)
    ensures r.Raised? ==> w.held == old(w.held)
    ensures w.Calm() && NamesDirectory(w.nodes, d, name) && w.limit > old(w.held) ==>
              Matches(w.nodes, Slot(w.nodes, d, name).value, expected, mount) ==> r.Ok?
  {
    var child :- w.OpenDirectory(d, name);
    var actual := w.MountOf(child);
    var identity := w.Fstat(child);
    if actual.Raised? || actual.value != mount || identity.Raised? || identity.value != expected {
      w.CloseDirectory();
      return Raised;
    }
    return Ok(child);
  }

  // ---- validation ----------------------------------------------------------------------------

  /** `_validate_claimed_directory`: level by level, yet it accepts exactly the tree the claim describes. */
  method ValidateClaimedDirectory(w: World, d: Key, entries: Entries, mount: int, prefix: string,
                                  leased: map<string, Key>, contentBound: bool, ghost sure: bool)
    returns (r: Result<()>)
    requires sure ==> w.Calm() && Ready(w.nodes, d, entries, prefix, w.limit - w.held, leased, contentBound) &&
                      Exact(w.nodes, d, entries, mount, prefix)
    modifies w
    ensures w.OnlyDrifted() && w.held == old(w.held)
    ensures w.Still() && WellFormed(entries) && r.Ok? ==>
              Exact(w.nodes, d, entries, mount, prefix) && Fits(entries, prefix, w.limit - w.held)
    ensures sure ==> r.Ok?
    decreases |Under(entries, prefix)|, 2
  {
    assert sure ==> LevelExact(w.nodes, d, entries, mount, prefix) by {
      if sure { ExactGivesLevel(w.nodes, d, entries, mount, prefix); }
    }
    var names :- ClaimedNames(w, d, entries, prefix);
    r := ValidateNames(w, d, entries, mount, prefix, names, leased, contentBound, sure);
    if w.Still() && WellFormed(entries) && r.Ok? {
      LevelIsValid(w.nodes, d, entries, mount, prefix, names, w.limit - w.held);
    }
  }

  /** A child as claimed that the pass has room for. */
  ghost predicate ChildValid(nodes: Nodes, d: Key, entries: Entries, mount: int, prefix: string, name: Name, room: int)
  {
    ChildExact(nodes, d, entries, mount, prefix, name) && EntryFits(entries, prefix, name, room)
  }

  lemma LevelIsValid(nodes: Nodes, d: Key, entries: Entries, mount: int, prefix: string, names: seq<Name>, room: int)
    requires WellFormed(entries) && Kids(nodes, d).Keys == ExpectedNames(entries, prefix)
    requires forall n :: n in names <==> n in Kids(nodes, d)
    requires forall name <- names :: ChildValid(nodes, d, entries, mount, prefix, name, room)
    ensures Exact(nodes, d, entries, mount, prefix) && Fits(entries, prefix, room)
  {
    forall name | name in Kids(nodes, d)
      ensures ChildExact(nodes, d, entries, mount, prefix, name) && EntryFits(entries, prefix, name, room)
    {
      assert name in names;
    }
    LevelGivesExact(nodes, d, entries, mount, prefix);
    EntriesFit(entries, prefix, room);
  }

  method ValidateNames(w: World, d: Key, entries: Entries, mount: int, prefix: string, names: seq<Name>,
                       leased: map<string, Key>, contentBound: bool, ghost sure: bool)
    returns (r: Result<()>)
    requires sure ==> w.Calm() && Ready(w.nodes, d, entries, prefix, w.limit - w.held, leased, contentBound) &&
                      forall name <- names :: ChildExact(w.nodes, d, entries, mount, prefix, name)
    modifies w
    ensures w.OnlyDrifted() && w.held == old(w.held)
    ensures w.Still() && WellFormed(entries) && r.Ok? ==>
              forall name <- names :: ChildValid(w.nodes, d, entries, mount, prefix, name, w.limit - w.held)
    ensures sure ==> r.Ok?
    decreases |Under(entries, prefix)|, 1
  {
    for i := 0 to |names|
      invariant w.OnlyDrifted() && w.held == old(w.held)
      invariant w.Still() && WellFormed(entries) ==>
                  forall j :: 0 <= j < i ==>
                                ChildValid(w.nodes, d, entries, mount, prefix, names[j], w.limit - w.held)
    {
      w.Drift();
      assert names[i] in names;
      var _ :- ValidateEntry(w, d, entries, mount, prefix, names[i], leased, contentBound, sure);
    }
    return Ok(());
  }

  /** A pass over the claim can open what it has to. */
  ghost predicate Ready(nodes: Nodes, d: Key, entries: Entries, prefix: string, room: int,
                        leased: map<string, Key>, contentBound: bool)
  {
    d in nodes && IsDirectory(nodes[d].mode) && Fits(entries, prefix, room) &&
    Holding(entries, prefix, leased, contentBound)
  }

  lemma ChildReady(nodes: Nodes, d: Key, entries: Entries, mount: int, prefix: string, room: int,
                   leased: map<string, Key>, contentBound: bool, name: Name)
    requires Ready(nodes, d, entries, prefix, room, leased, contentBound)
    requires ChildExact(nodes, d, entries, mount, prefix, name)
    ensures IsDirectory(NodeAt(nodes, d, name).mode) ==>
              room > 0 &&
              Ready(nodes, Slot(nodes, d, name).value, entries, Rel(prefix, name), room - 1, leased, contentBound)
    ensures contentBound && IsRegular(NodeAt(nodes, d, name).mode) ==>
              Rel(prefix, name) in leased && leased[Rel(prefix, name)] == Slot(nodes, d, name).value
  {
    ChildFits(entries, prefix, name, room);
    UnderShrinks(entries, prefix, name);
    RestOfRel(prefix, name);
    assert Rel(prefix, name) in Under(entries, prefix);
    assert Files(entries, Rel(prefix, name)) <= Files(entries, prefix);
  }

  /** One round of the validation. */
  method ValidateEntry(w: World, d: Key, entries: Entries, mount: int, prefix: string, name: Name,
                       leased: map<string, Key>, contentBound: bool, ghost sure: bool)
    returns (r: Result<()>)
    requires sure ==> w.Calm() && Ready(w.nodes, d, entries, prefix, w.limit - w.held, leased, contentBound) &&
                      ChildExact(w.nodes, d, entries, mount, prefix, name)
    modifies w
    ensures w.OnlyDrifted() && w.held == old(w.held)
    ensures w.Still() && WellFormed(entries) && r.Ok? ==>
              ChildValid(w.nodes, d, entries, mount, prefix, name, w.limit - w.held)
    ensures sure ==> r.Ok?
    decreases |Under(entries, prefix)|, 0
  {
    if sure {
      ChildReady(w.nodes, d, entries, mount, prefix, w.limit - w.held, leased, contentBound, name);
    }
    var found :- ClaimedChild(w, d, entries, prefix, name);
    var (expected, current) := found;
    if IsDirectory(current.mode) {
      var child :- EnterClaimed(w, d, name, mount, expected.identity);
      assert |Under(entries, Rel(prefix, name))| < |Under(entries, prefix)| by { UnderShrinks(entries, prefix, name); }
      r := ValidateClaimedDirectory(w, child, entries, mount, Rel(prefix, name), leased, contentBound, sure);
      w.CloseDirectory();
    } else if IsRegular(current.mode) {
      r := ValidateFile(w, d, mount, Rel(prefix, name), name, expected, current, leased, contentBound);
    } else {
      return Raised;
    }
  }

  method ValidateFile(w: World, d: Key, mount: int, relative: string, name: Name, expected: Entry, current: Stat,
                      leased: map<string, Key>, contentBound: bool)
    returns (r: Result<()>)
    requires Names(w.nodes, d, name) && current == StatOf(Slot(w.nodes, d, name).value, NodeAt(w.nodes, d, name))
    requires IsRegular(current.mode)
    modifies w`clock
    ensures r.Ok? ==> Matches(w.nodes, Slot(w.nodes, d, name).value, expected.identity, mount)
    ensures w.Calm() && Matches(w.nodes, Slot(w.nodes, d, name).value, expected.identity, mount) ==>
              (contentBound ==> relative in leased && leased[relative] == Slot(w.nodes, d, name).value) ==> r.Ok?
  {
    var fd: Key;
    if contentBound {
      if relative !in leased { return Raised; }
      fd := leased[relative];
    } else {
      fd :- w.LeaseRegular(d, name);
    }
    var actual :- w.MountOf(fd);
    if actual != mount { return Raised; }
    var identity :- w.Fstat(fd);
    if !EntryMatches(current, identity) { return Raised; }
    var again :- w.Fstat(fd);
    if again != expected.identity { return Raised; }
    if !contentBound {
      var _ :- w.Release();
    }
    return Ok(());
  }

  // ---- leases --------------------------------------------------------------------------------

  /** What the lease pass collected: descriptors of the claimed identities, each under its own path. */
  ghost predicate Leases(entries: Entries, leased: map<string, Key>)
  {
    forall relative <- leased :: relative in entries && leased[relative] == KeyOf(entries[relative].identity)
  }

  /** The hashes a claim records are those of the files it names. */
  ghost predicate HashesHold(nodes: Nodes, entries: Entries, prefix: string, contentBound: bool,
                             sha256: seq<bv8> -> string)
  {
    forall relative <- Files(entries, prefix) :: HashHolds(nodes, entries[relative], contentBound, sha256)
  }

  predicate HashHolds(nodes: Nodes, entry: Entry, contentBound: bool, sha256: seq<bv8> -> string)
  {
    KeyOf(entry.identity) in nodes && (contentBound ==> entry.sha256.Some?) &&
    (entry.sha256.Some? ==> entry.sha256.value == sha256(nodes[KeyOf(entry.identity)].bytes))
  }

  /** What a lease is held of has the identity and the content the claim records for its path. */
  ghost predicate Proved(nodes: Nodes, entries: Entries, leased: map<string, Key>, mount: int,
                         sha256: seq<bv8> -> string)
  {
    forall relative <- leased ::
      relative in entries && ProvedOne(nodes, entries[relative], leased[relative], mount, sha256)
  }

  predicate ProvedOne(nodes: Nodes, entry: Entry, fd: Key, mount: int, sha256: seq<bv8> -> string)
  {
    fd in nodes && nodes[fd].mount == mount &&
    FileClaimHolds(nodes[fd], fd, entry.identity, entry.sha256, false, true, sha256)
  }

  /** `_acquire_directory_leases`: every file below, leased and re-proved; the content-bound route only. */
  method AcquireDirectoryLeases(w: World, d: Key, entries: Entries, mount: int, prefix: string, ghost sure: bool)
    returns (r: Result<map<string, Key>>)
    requires sure ==> w.Calm() && Ready(w.nodes, d, entries, prefix, w.limit - w.held, map[], false) &&
                      HashesHold(w.nodes, entries, prefix, true, w.sha256) && Exact(w.nodes, d, entries, mount, prefix)
    modifies w
    ensures w.OnlyDrifted() && w.held == old(w.held)
    ensures r.Ok? ==> Leases(entries, r.value)
    ensures r.Ok? && WellFormed(entries) ==> Files(entries, prefix) <= r.value.Keys
    ensures r.Ok? && w.Still() ==> Proved(w.nodes, entries, r.value, mount, w.sha256)
    ensures sure ==> r.Ok?
    decreases |Under(entries, prefix)|, 2
  {
    assert sure ==> LevelExact(w.nodes, d, entries, mount, prefix) by {
      if sure { ExactGivesLevel(w.nodes, d, entries, mount, prefix); }
    }
    var names :- ClaimedNames(w, d, entries, prefix);
    r := LeaseNames(w, d, entries, mount, prefix, names, sure);
    assert r.Ok? && WellFormed(entries) ==> Files(entries, prefix) <= r.value.Keys by {
      forall relative | r.Ok? && WellFormed(entries) && relative in Files(entries, prefix) ensures relative in r.value {
        assert Head(Rest(prefix, relative)) in ExpectedNames(entries, prefix);
        assert relative in FilesAt(entries, prefix, Head(Rest(prefix, relative)));
      }
    }
  }

  method LeaseNames(w: World, d: Key, entries: Entries, mount: int, prefix: string, names: seq<Name>, ghost sure: bool)
    returns (r: Result<map<string, Key>>)
    requires sure ==> w.Calm() && Ready(w.nodes, d, entries, prefix, w.limit - w.held, map[], false) &&
                      HashesHold(w.nodes, entries, prefix, true, w.sha256) &&
                      forall name <- names :: ChildExact(w.nodes, d, entries, mount, prefix, name)
    modifies w
    ensures w.OnlyDrifted() && w.held == old(w.held)
    ensures r.Ok? ==> Leases(entries, r.value)
    ensures r.Ok? && WellFormed(entries) ==> forall name <- names :: FilesAt(entries, prefix, name) <= r.value.Keys
    ensures r.Ok? && w.Still() ==> Proved(w.nodes, entries, r.value, mount, w.sha256)
    ensures sure ==> r.Ok?
    decreases |Under(entries, prefix)|, 1, 0
  {
    var leased: map<string, Key> := map[];
    for i := 0 to |names|
      invariant w.OnlyDrifted() && w.held == old(w.held)
      invariant Leases(entries, leased)
      invariant WellFormed(entries) ==> LeasedUpTo(entries, prefix, names, i, leased)
      invariant w.Still() ==> Proved(w.nodes, entries, leased, mount, w.sha256)
    {
      leased :- LeaseRound(w, d, entries, mount, prefix, names, i, leased, sure);
    }
    return Ok(leased);
  }

  ghost predicate LeasedUpTo(entries: Entries, prefix: string, names: seq<Name>, i: nat, leased: map<string, Key>)
    requires i <= |names|
  {
    forall j :: 0 <= j < i ==> FilesAt(entries, prefix, names[j]) <= leased.Keys
  }

  /** The environment's turn, and the leases at one name. */
  method LeaseRound(w: World, d: Key, entries: Entries, mount: int, prefix: string, names: seq<Name>, i: nat,
                    leased: map<string, Key>, ghost sure: bool)
    returns (r: Result<map<string, Key>>)
    requires i < |names|
    requires sure ==> w.Calm() && Ready(w.nodes, d, entries, prefix, w.limit - w.held, map[], false) &&
                      HashesHold(w.nodes, entries, prefix, true, w.sha256) &&
                      ChildExact(w.nodes, d, entries, mount, prefix, names[i])
    modifies w
    ensures w.OnlyDrifted() && w.held == old(w.held)
    ensures r.Ok? && Leases(entries, leased) ==> Leases(entries, r.value)
    ensures r.Ok? && WellFormed(entries) && LeasedUpTo(entries, prefix, names, i, leased) ==>
              LeasedUpTo(entries, prefix, names, i + 1, r.value)
    ensures r.Ok? && w.Still() && old(Proved(w.nodes, entries, leased, mount, w.sha256)) ==>
              Proved(w.nodes, entries, r.value, mount, w.sha256)
    ensures sure ==> r.Ok?
    decreases |Under(entries, prefix)|, 0, 1
  {
    w.Drift();
    var more :- LeaseEntry(w, d, entries, mount, prefix, names[i], sure);
    return Ok(leased + more);
  }

  /** The files claimed below a name are among those claimed below its directory; so is the name itself. */
  ghost predicate FilesNest(entries: Entries, prefix: string, name: Name)
    requires Rel(prefix, name) in entries
  {
    Files(entries, Rel(prefix, name)) <= Files(entries, prefix) &&
    (IsRegular(entries[Rel(prefix, name)].identity.mode) ==> Rel(prefix, name) in Files(entries, prefix))
  }

  lemma FilesOfChild(entries: Entries, prefix: string, name: Name)
    requires Rel(prefix, name) in entries
    ensures FilesNest(entries, prefix, name)
  {
    UnderShrinks(entries, prefix, name);
    RestOfRel(prefix, name);
  }

  /** The claimed files at one name of a level, or below it. */
  ghost function FilesAt(entries: Entries, prefix: string, name: string): set<string>
  {
    set relative | relative in Files(entries, prefix) && Head(Rest(prefix, relative)) == name
  }

  lemma FilesAtDirectory(entries: Entries, prefix: string, name: Name)
    requires Rel(prefix, name) in entries && !IsRegular(entries[Rel(prefix, name)].identity.mode)
    ensures FilesAt(entries, prefix, name) == Files(entries, Rel(prefix, name))
  {
    forall relative | relative in FilesAt(entries, prefix, name) ensures relative in Files(entries, Rel(prefix, name)) {
      BelowOrAt(prefix, name, relative);
    }
    forall relative | relative in Files(entries, Rel(prefix, name)) ensures relative in FilesAt(entries, prefix, name) {
      HeadBelow(prefix, name, relative);
    }
  }

  lemma FilesAtFile(entries: Entries, prefix: string, name: Name)
    requires WellFormed(entries)
    requires Rel(prefix, name) in entries && IsRegular(entries[Rel(prefix, name)].identity.mode)
    ensures FilesAt(entries, prefix, name) == {Rel(prefix, name)}
  {
    RestOfRel(prefix, name);
    SlashAfterName(name, "");
    assert name[..|name|] == name;
    forall relative | relative in FilesAt(entries, prefix, name) ensures relative == Rel(prefix, name) {
      BelowOrAt(prefix, name, relative);
      assert !LiesBelow(entries, Rel(prefix, name), relative);
    }
  }

  lemma BelowOrAt(prefix: string, name: Name, relative: string)
    requires Below(prefix, relative) && Head(Rest(prefix, relative)) == name
    ensures relative == Rel(prefix, name) || Below(Rel(prefix, name), relative)
  {
    var s := Rest(prefix, relative);
    var k := SlashAt(s);
    if k == |s| {
      assert s == s[..k];
    } else {
      SplitAtSlash(s, k);
      RelIsAssociative(prefix, name, s[k + 1..]);
      RestOfRel(Rel(prefix, name), s[k + 1..]);
    }
  }

  lemma HeadBelow(prefix: string, name: Name, relative: string)
    requires Below(Rel(prefix, name), relative)
    ensures Below(prefix, relative) && Head(Rest(prefix, relative)) == name
  {
    var t := Rest(Rel(prefix, name), relative);
    RelIsAssociative(prefix, name, t);
    RestOfRel(prefix, name + "/" + t);
    SlashAfterName(name, t);
    assert (name + "/" + t)[..|name|] == name;
  }

  /** One round of the lease pass. */
  method LeaseEntry(w: World, d: Key, entries: Entries, mount: int, prefix: string, name: Name, ghost sure: bool)
    returns (r: Result<map<string, Key>>)
    requires sure ==> w.Calm() && Ready(w.nodes, d, entries, prefix, w.limit - w.held, map[], false) &&
                      HashesHold(w.nodes, entries, prefix, true, w.sha256) &&
                      ChildExact(w.nodes, d, entries, mount, prefix, name)
    modifies w
    ensures w.OnlyDrifted() && w.held == old(w.held)
    ensures r.Ok? ==> Leases(entries, r.value)
    ensures r.Ok? && WellFormed(entries) ==> FilesAt(entries, prefix, name) <= r.value.Keys
    ensures r.Ok? && w.Still() ==> Proved(w.nodes, entries, r.value, mount, w.sha256)
    ensures sure ==> r.Ok?
    decreases |Under(entries, prefix)|, 0, 0
  {
    if sure {
      ChildReady(w.nodes, d, entries, mount, prefix, w.limit - w.held, map[], false, name);
    }
    assert Rel(prefix, name) in entries ==> FilesNest(entries, prefix, name) by {
      if Rel(prefix, name) in entries { FilesOfChild(entries, prefix, name); }
    }
    var found :- ClaimedChild(w, d, entries, prefix, name);
    var (expected, current) := found;
    if IsDirectory(current.mode) {
      var child :- EnterClaimed(w, d, name, mount, expected.identity);
      assert |Under(entries, Rel(prefix, name))| < |Under(entries, prefix)| by { UnderShrinks(entries, prefix, name); }
      assert FilesAt(entries, prefix, name) == Files(entries, Rel(prefix, name)) by {
        FilesAtDirectory(entries, prefix, name);
      }
      r := AcquireDirectoryLeases(w, child, entries, mount, Rel(prefix, name), sure);
      w.CloseDirectory();
    } else if IsRegular(current.mode) {
      var fd :- LeaseFile(w, d, mount, name, expected, current);
      assert WellFormed(entries) ==> FilesAt(entries, prefix, name) == {Rel(prefix, name)} by {
        if WellFormed(entries) { FilesAtFile(entries, prefix, name); }
      }
      return Ok(map[Rel(prefix, name) := fd]);
    } else {
      return Raised;
    }
  }

  method LeaseFile(w: World, d: Key, mount: int, name: Name, expected: Entry, current: Stat) returns (r: Result<Key>)
    requires Names(w.nodes, d, name) && current == StatOf(Slot(w.nodes, d, name).value, NodeAt(w.nodes, d, name))
    requires IsRegular(current.mode)
    modifies w`clock
    ensures r.Ok? ==> r.value == KeyOf(expected.identity) && expected.identity.mode == current.mode
    ensures r.Ok? ==> ProvedOne(w.nodes, expected, r.value, mount, w.sha256)
    ensures w.Calm() && Matches(w.nodes, Slot(w.nodes, d, name).value, expected.identity, mount) ==>
              HashHolds(w.nodes, expected, true, w.sha256) ==> r.Ok?
  {
    var fd :- w.LeaseRegular(d, name);
    var actual :- w.MountOf(fd);
    if actual != mount { return Raised; }
    var identity :- w.Fstat(fd);
    if !EntryMatches(current, identity) { return Raised; }
    var _ :- RequireFileClaim(w, fd, expected.identity, expected.sha256, false, true);
    return Ok(fd);
  }
}
