/** What a directory tree looks like to a descriptor-relative walk: inodes, the names directories give
    them, and the identity a `stat` of one reports. */
module Inodes {
  import opened Options

  /** The kernel admits no empty name and no slash inside one. */
  type Name = s: string | s != "" && '/' !in s witness "a"

  datatype Key = Key(device: nat, inode: nat)

  /** One inode. `kids` means something for a directory only, `bytes` for a regular file only. */
  datatype Node = Node(
    mount: int, mode: nat, size: nat, mtime: int, ctime: int, kids: map<Name, Key>, bytes: seq<bv8>)

  type Nodes = map<Key, Node>

  /** The `SourceIdentity` record. */
  datatype Identity = Identity(
    present: bool, mount: int, device: nat, inode: nat, mode: nat, size: nat, mtime: int, ctime: int)

  const MISSING := Identity(false, 0, 0, 0, 0, 0, 0, 0)

  /** One `SourceEntry`; an identity-only claim records no hash. */
  datatype Entry = Entry(identity: Identity, sha256: Option<string>)

  type Entries = map<string, Entry>

  predicate IsDirectory(mode: nat) { mode / 0x1000 % 0x10 == 0x4 }

  predicate IsRegular(mode: nat) { mode / 0x1000 % 0x10 == 0x8 }

  predicate IsLink(mode: nat) { mode / 0x1000 % 0x10 == 0xA }

  function IdentityOf(k: Key, n: Node): Identity
  {
    Identity(true, n.mount, k.device, k.inode, n.mode, n.size, n.mtime, n.ctime)
  }

  function KeyOf(id: Identity): Key { Key(id.device, id.inode) }

  function Kids(nodes: Nodes, d: Key): map<Name, Key>
  {
    if d in nodes && IsDirectory(nodes[d].mode) then nodes[d].kids else map[]
  }

  /** What `name` in directory `d` is bound to. */
  function Slot(nodes: Nodes, d: Key, name: Name): Option<Key>
  {
    if name in Kids(nodes, d) then Some(Kids(nodes, d)[name]) else None
  }

  /** `name` in `d` leads to an inode. */
  predicate Names(nodes: Nodes, d: Key, name: Name)
  {
    Slot(nodes, d, name).Some? && Slot(nodes, d, name).value in nodes
  }

  function NodeAt(nodes: Nodes, d: Key, name: Name): Node
    requires Names(nodes, d, name)
  {
    nodes[Slot(nodes, d, name).value]
  }

  // ---- slash-joined relative paths ----------------------------------------------

  /** Where the first slash stands, or the length. */
  function SlashAt(s: string): (k: nat)
    ensures k <= |s| && '/' !in s[..k] && (k < |s| ==> s[k] == '/')
  {
    if s == "" || s[0] == '/' then 0
    else
      var k := 1 + SlashAt(s[1..]);
      assert s[..k] == [s[0]] + s[1..][..k - 1];
      k
  }

  /** `s.split("/", 1)[0]` */
  function Head(s: string): string { s[..SlashAt(s)] }

  /** `f"{prefix}/{name}" if prefix else name` */
  function Rel(prefix: string, name: string): string
  {
    if prefix == "" then name else prefix + "/" + name
  }

  /** `not prefix or relative.startswith(prefix + "/")` */
  predicate Below(prefix: string, relative: string)
  {
    prefix == "" || prefix + "/" <= relative
  }

  /** `relative[len(prefix) + 1 :] if prefix else relative` */
  function Rest(prefix: string, relative: string): (s: string)
    requires Below(prefix, relative)
    ensures Rel(prefix, s) == relative
  {
    if prefix == "" then relative else relative[|prefix| + 1..]
  }

  lemma RestOfRel(prefix: string, s: string)
    ensures Below(prefix, Rel(prefix, s)) && Rest(prefix, Rel(prefix, s)) == s
  {
  }

  lemma SlashAfterName(name: Name, s: string)
    ensures SlashAt(name) == |name| && SlashAt(name + "/" + s) == |name|
  {
    var whole := name + "/" + s;
    assert whole[|name|] == '/';
    assert forall i :: 0 <= i < |name| ==> whole[i] == name[i] && name[i] in name;
    var k := SlashAt(whole);
    assert forall i :: 0 <= i < k ==> whole[i] == whole[..k][i];
  }

  lemma RelIsAssociative(prefix: string, name: string, s: string)
    requires name != ""
    ensures Rel(prefix, name + "/" + s) == Rel(Rel(prefix, name), s)
  {
  }

  lemma SplitAtSlash(s: string, k: nat)
    requires k < |s| && s[k] == '/'
    ensures s == s[..k] + "/" + s[k + 1..]
  {
    assert s[k..k + 1] == "/";
    assert s == s[..k] + s[k..k + 1] + s[k + 1..];
  }

  /** The inode a relative path leads to from directory `d`, no link followed. */
  function Resolve(nodes: Nodes, d: Key, path: string): Option<Key>
    decreases |path|
  {
    var k := SlashAt(path);
    if path[..k] !in Kids(nodes, d) then None
    else
      var kid := Kids(nodes, d)[path[..k]];
      if k == |path| then Some(kid) else Resolve(nodes, kid, path[k + 1..])
  }

  lemma ResolveThrough(nodes: Nodes, d: Key, name: Name, s: string)
    ensures Resolve(nodes, d, name) == Slot(nodes, d, name)
    ensures name in Kids(nodes, d) ==>
              Resolve(nodes, d, name + "/" + s) == Resolve(nodes, Kids(nodes, d)[name], s)
  {
    SlashAfterName(name, s);
    assert (name + "/" + s)[..|name|] == name && name[..|name|] == name;
    assert (name + "/" + s)[|name| + 1..] == s;
  }

  // ---- claims against trees ---------------------------------------------------------

  /** Entries lying below `prefix`. */
  function Under(entries: Entries, prefix: string): set<string>
  {
    set relative <- entries.Keys | Below(prefix, relative)
  }

  /** The names a claim expects one directory level to list. */
  function ExpectedNames(entries: Entries, prefix: string): set<string>
  {
    set relative | relative in Under(entries, prefix) :: Head(Rest(prefix, relative))
  }

  /** No entry lies below one that is not a directory. */
  ghost predicate WellFormed(entries: Entries)
  {
    forall above, relative :: LiesBelow(entries, above, relative) ==> IsDirectory(entries[above].identity.mode)
  }

  predicate LiesBelow(entries: Entries, above: string, relative: string)
  {
    above in entries && relative in entries && above + "/" <= relative
  }

  predicate Matches(nodes: Nodes, k: Key, id: Identity, mount: int)
  {
    k in nodes && nodes[k].mount == mount && IdentityOf(k, nodes[k]) == id &&
    (IsDirectory(nodes[k].mode) || IsRegular(nodes[k].mode))
  }

  ghost predicate ExactAt(nodes: Nodes, d: Key, entries: Entries, mount: int, prefix: string, s: string)
  {
    (Rel(prefix, s) in entries <==> Resolve(nodes, d, s).Some?) &&
    (Rel(prefix, s) in entries ==>
       Matches(nodes, Resolve(nodes, d, s).value, entries[Rel(prefix, s)].identity, mount))
  }

  /** Below `prefix` the claim names every path the directory leads to, no other, and each by its identity. */
  ghost predicate Exact(nodes: Nodes, d: Key, entries: Entries, mount: int, prefix: string)
  {
    forall s :: ExactAt(nodes, d, entries, mount, prefix, s)
  }

  /** The same judgement for one name of one directory level. */
  ghost predicate ChildExact(nodes: Nodes, d: Key, entries: Entries, mount: int, prefix: string, name: Name)
  {
    name in Kids(nodes, d) && Rel(prefix, name) in entries &&
    var kid := Kids(nodes, d)[name];
    Matches(nodes, kid, entries[Rel(prefix, name)].identity, mount) &&
    (IsDirectory(nodes[kid].mode) ==> Exact(nodes, kid, entries, mount, Rel(prefix, name)))
  }

  /** A whole level judged name by name. */
  ghost predicate LevelExact(nodes: Nodes, d: Key, entries: Entries, mount: int, prefix: string)
  {
    Kids(nodes, d).Keys == ExpectedNames(entries, prefix) &&
    forall name <- Kids(nodes, d) :: ChildExact(nodes, d, entries, mount, prefix, name)
  }

  lemma ExpectedHas(entries: Entries, prefix: string, name: Name)
    requires Rel(prefix, name) in entries
    ensures name in ExpectedNames(entries, prefix)
  {
    RestOfRel(prefix, name);
    SlashAfterName(name, "");
    assert name[..|name|] == name;
    assert Rel(prefix, name) in Under(entries, prefix);
  }

  lemma ExactGivesLevel(nodes: Nodes, d: Key, entries: Entries, mount: int, prefix: string)
    requires Exact(nodes, d, entries, mount, prefix)
    ensures LevelExact(nodes, d, entries, mount, prefix)
  {
    forall name | name in Kids(nodes, d)
      ensures ChildExact(nodes, d, entries, mount, prefix, name) && name in ExpectedNames(entries, prefix)
    {
      ResolveThrough(nodes, d, name, "");
      assert ExactAt(nodes, d, entries, mount, prefix, name);
      ExpectedHas(entries, prefix, name);
      forall s ensures ExactAt(nodes, Kids(nodes, d)[name], entries, mount, Rel(prefix, name), s) {
        assert ExactAt(nodes, d, entries, mount, prefix, name + "/" + s);
        RelIsAssociative(prefix, name, s);
        ResolveThrough(nodes, d, name, s);
      }
    }
    forall name | name in ExpectedNames(entries, prefix)
      ensures name in Kids(nodes, d)
    {
      var relative :| relative in Under(entries, prefix) && Head(Rest(prefix, relative)) == name;
      assert ExactAt(nodes, d, entries, mount, prefix, Rest(prefix, relative));
    }
  }

  lemma LevelGivesExact(nodes: Nodes, d: Key, entries: Entries, mount: int, prefix: string)
    requires WellFormed(entries)
    requires LevelExact(nodes, d, entries, mount, prefix)
    ensures Exact(nodes, d, entries, mount, prefix)
  {
    forall s ensures ExactAt(nodes, d, entries, mount, prefix, s) {
      var k := SlashAt(s);
      if s[..k] !in Kids(nodes, d) {
        UnexpectedIsAbsent(nodes, d, entries, prefix, s);
      } else if k == |s| {
        assert s[..k] == s;
        assert ChildExact(nodes, d, entries, mount, prefix, s);
        ResolveThrough(nodes, d, s, "");
      } else {
        assert ChildExact(nodes, d, entries, mount, prefix, s[..k]);
        SplitAtSlash(s, k);
        DeeperIsExact(nodes, d, entries, mount, prefix, s[..k], s[k + 1..]);
      }
    }
  }

  lemma UnexpectedIsAbsent(nodes: Nodes, d: Key, entries: Entries, prefix: string, s: string)
    requires Kids(nodes, d).Keys == ExpectedNames(entries, prefix)
    requires Head(s) !in Kids(nodes, d)
    ensures Rel(prefix, s) !in entries && Resolve(nodes, d, s).None?
  {
    RestOfRel(prefix, s);
    assert Rel(prefix, s) in entries ==> Rel(prefix, s) in Under(entries, prefix);
  }

  lemma DeeperIsExact(
    nodes: Nodes, d: Key, entries: Entries, mount: int, prefix: string, name: Name, s: string)
    requires WellFormed(entries)
    requires ChildExact(nodes, d, entries, mount, prefix, name)
    ensures ExactAt(nodes, d, entries, mount, prefix, name + "/" + s)
  {
    RelIsAssociative(prefix, name, s);
    ResolveThrough(nodes, d, name, s);
    var kid := Kids(nodes, d)[name];
    if IsDirectory(nodes[kid].mode) {
      assert ExactAt(nodes, kid, entries, mount, Rel(prefix, name), s);
    } else {
      assert !LiesBelow(entries, Rel(prefix, name), Rel(prefix, name + "/" + s));
      assert Rel(prefix, name) + "/" <= Rel(prefix, name + "/" + s);
    }
  }
}
