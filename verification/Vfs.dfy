/**
 The virtual file system: inodes linked by parent, first child and next sibling, and
 the table of open files with its reference counts. The linked inodes spell out the
 tree of VfsTree; every method says what becomes of that tree and of the counts.
 */
module Vfs {
  import opened Bits
  import opened Options
  import opened Words
  import opened VfsTree

  const MAX_OPEN_FILES := 64
  const O_TRUNC := 0x10

  datatype Kind = RegularFile | Directory

  class Inode {
    const kind: Kind
    const name: string
    var size: nat
    var data: Option<seq<byte>>
    var refCount: nat
    var parent: Inode?
    var nextSibling: Inode?
    var firstChild: Inode?

    constructor (kind: Kind, name: string)
      ensures this.kind == kind && this.name == name && size == 0 && data == None && refCount == 1
      ensures parent == null && nextSibling == null && firstChild == null
    {
      this.kind, this.name, size, data, refCount := kind, name, 0, None, 1;
      parent, nextSibling, firstChild := null, null, null;
    }
  }

  datatype OpenFile = OpenFile(used: bool, flags: nat, offset: nat, inode: Inode?)

  const CLOSED: OpenFile := OpenFile(false, 0, 0, null)

  // How many descriptors are open on an inode.
  function Opens(files: seq<OpenFile>, n: Inode): nat {
    if files == [] then 0
    else (if files[0].used && files[0].inode == n then 1 else 0) + Opens(files[1..], n)
  }

  lemma {:induction false} OpensUpdate(files: seq<OpenFile>, fd: nat, f: OpenFile, n: Inode)
    requires fd < |files|
    ensures Opens(files[fd := f], n) + (if files[fd].used && files[fd].inode == n then 1 else 0)
         == Opens(files, n) + if f.used && f.inode == n then 1 else 0
  {
    if fd == 0 {
      assert files[fd := f][1..] == files[1..];
    } else {
      OpensUpdate(files[1..], fd - 1, f, n);
      assert files[fd := f][1..] == files[1..][fd - 1 := f];
    }
  }

  function HeadOf(kids: seq<Inode>): Inode? {
    if kids == [] then null else kids[0]
  }

  // The sibling link of the child at place `i`.
  ghost predicate SiblingOk(kids: seq<Inode>, i: int)
    requires 0 <= i < |kids|
    reads {kids[i]}`nextSibling
  {
    kids[i].nextSibling == HeadOf(kids[i + 1..])
  }

  ghost predicate ChainOk(kids: seq<Inode>)
    reads kids`nextSibling
  {
    forall i :: 0 <= i < |kids| ==> SiblingOk(kids, i)
  }

  // The fields of an inode spell out its place in the tree.
  ghost predicate NodeOk(t: Tree<Inode>, n: Inode)
    requires n in t.kids
    reads n`parent, n`firstChild, t.kids[n]`nextSibling
  {
    && n in t.names && t.names[n] == n.name
    && n.parent == (if n in t.up then t.up[n] else null)
    && n.firstChild == HeadOf(t.kids[n]) && ChainOk(t.kids[n])
  }

  class Vfs {
    const root: Inode
    const openFiles: array<OpenFile>
    ghost var tree: Tree<Inode>
    ghost var rank: map<Inode, nat>

    // The links of the inodes are the tree.
    ghost predicate LinksOk()
      reads this, tree.kids.Keys`parent, tree.kids.Keys`firstChild, tree.kids.Keys`nextSibling
    {
      && TreeOk(tree) && tree.root == root
      && (forall n :: n in tree.kids ==> NodeOk(tree, n))
    }

    // Each inode is counted once for the tree and once for every open descriptor.
    ghost predicate RefsOk()
      reads this, openFiles, tree.kids.Keys`refCount
    {
      && openFiles.Length == MAX_OPEN_FILES
      && (forall n :: n in tree.kids ==> n.refCount == 1 + Opens(openFiles[..], n))
      && (forall fd :: 0 <= fd < openFiles.Length && openFiles[fd].used ==>
            openFiles[fd].inode != null && openFiles[fd].inode in tree.kids)
    }

    ghost predicate Valid()
      reads this, openFiles, tree.kids.Keys
    {
      LinksOk() && RefsOk() && RankedBy(tree, rank)
    }

    /** vfs_init. */
    constructor ()
      ensures Valid() && fresh(openFiles) && tree.kids.Keys == {root} && Lookup(tree, "/") == Some(root)
      ensures openFiles.Length == 64 && forall fd :: 0 <= fd < 64 ==> openFiles[fd] == CLOSED
    {
      var r := new Inode(Directory, "");
      root := r;
      openFiles := new OpenFile[MAX_OPEN_FILES](_ => CLOSED);
      tree := Tree(r, map[], map[r := []], map[r := ""]);
      rank := map[r := 0];
      new;
      NotOpen(openFiles[..], r);
      assert "/"[1..] == "";
    }

    // ---------------------------------------------------------------- lookup

    /** The search through a directory's sibling list. */
    method FindByName(dir: Inode, comp: string) returns (found: Inode?)
      requires LinksOk() && dir in tree.kids && comp != ""
      ensures match FindChild(tree, tree.kids[dir], comp)
              case None => found == null
              case Some(c) => found == c
    {
      ghost var kids, i := tree.kids[dir], 0;
      var child := dir.firstChild;
      while child != null
        invariant 0 <= i <= |kids| && child == HeadOf(kids[i..])
        invariant FindChild(tree, kids, comp) == FindChild(tree, kids[i..], comp)
        decreases |kids| - i
      {
        assert kids[i] in tree.kids && SiblingOk(kids, i);
        if child.name == comp {
          return child;
        }
        assert kids[i..][1..] == kids[i + 1..];
        child := child.nextSibling;
        i := i + 1;
      }
      return null;
    }

    /** lookup_path. */
    method LookupPath(path: string) returns (ino: Inode?)
      requires LinksOk()
      ensures match Lookup(tree, path)
              case None => ino == null
              case Some(n) => ino == n && n in tree.kids
    {
      if path == "" || path[0] != '/' {
        return null;
      }
      var cur := root;
      var rest := path[1..];
      while rest != ""
        invariant cur in tree.kids && Lookup(tree, path) == Resolve(tree, cur, rest)
        decreases |rest|
      {
        var comp, after := NextComponent(rest);
        MoveInTree(tree, cur, comp);
        rest := after;
        if comp == "" || comp == "." {
          continue;
        }
        if comp == ".." {
          if cur.parent != null {
            cur := cur.parent;
          }
          continue;
        }
        var found := FindByName(cur, comp);
        if found == null {
          return null;
        }
        cur := found;
      }
      return cur;
    }

    // ---------------------------------------------------------------- descriptors

    /** alloc_fd: takes the lowest unused descriptor. */
    method AllocFd() returns (fd: int)
      requires openFiles.Length == MAX_OPEN_FILES
      modifies openFiles
      ensures fd == -1 ==> openFiles[..] == old(openFiles[..]) && AllUsed(openFiles[..])
      ensures fd != -1 ==> LowestUnused(old(openFiles[..]), fd)
                           && openFiles[..] == old(openFiles[..][fd := openFiles[fd].(used := true, offset := 0)])
    {
      fd := 0;
      while fd < MAX_OPEN_FILES
        invariant 0 <= fd <= MAX_OPEN_FILES && openFiles[..] == old(openFiles[..])
        invariant forall i :: 0 <= i < fd ==> openFiles[i].used
      {
        if !openFiles[fd].used {
          openFiles[fd] := openFiles[fd].(used := true, offset := 0);
          return;
        }
        fd := fd + 1;
      }
      return -1;
    }

    /** free_inode: drops one reference and frees the inode with the last one. */
    method FreeInode(n: Inode) returns (freed: bool)
      requires n.refCount > 0
      modifies n`refCount
      ensures n.refCount == old(n.refCount) - 1 && freed == (n.refCount == 0)
    {
      n.refCount := n.refCount - 1;
      freed := n.refCount == 0;
    }

    // Opens an inode on the lowest unused descriptor.
    method Attach(ino: Inode, flags: nat) returns (fd: int)
      requires RefsOk() && ino in tree.kids
      modifies openFiles, ino`refCount, ino`size
      ensures RefsOk()
      ensures fd == -1 ==> AllUsed(old(openFiles[..])) && openFiles[..] == old(openFiles[..])
                           && ino.refCount == old(ino.refCount) && ino.size == old(ino.size)
      ensures fd != -1 ==> LowestUnused(old(openFiles[..]), fd) && ino.refCount == old(ino.refCount) + 1
                           && openFiles[..] == old(openFiles[..])[fd := OpenFile(true, flags, 0, ino)]
                           && ino.size == if Truncates(flags) then 0 else old(ino.size)
    {
      fd := AllocFd();
      if fd < 0 {
        assert RefsOk();
        return;
      }
      openFiles[fd] := openFiles[fd].(flags := flags, inode := ino);
      ino.refCount := ino.refCount + 1;
      if BitAnd(flags, O_TRUNC) != 0 {
        ino.size := 0;
      }
      assert openFiles[..] == old(openFiles[..])[fd := OpenFile(true, flags, 0, ino)];
      forall n | n in tree.kids
        ensures n.refCount == 1 + Opens(openFiles[..], n)
      {
        OpensUpdate(old(openFiles[..]), fd, openFiles[fd], n);
      }
    }

    /** vfs_open, with the verdict of the permission check as `permitted`. */
    method Open(path: string, flags: nat, permitted: bool) returns (fd: int)
      requires Valid()
      modifies openFiles, tree.kids.Keys`refCount, tree.kids.Keys`size
      ensures Valid()
      ensures fd == -1 <==> Lookup(tree, path).None? || !permitted || AllUsed(old(openFiles[..]))
      ensures fd == -1 ==> openFiles[..] == old(openFiles[..])
      ensures fd == -1 ==> forall n :: n in tree.kids ==> n.refCount == old(n.refCount) && n.size == old(n.size)
      ensures fd != -1 ==>
                && Lookup(tree, path).Some? && LowestUnused(old(openFiles[..]), fd)
                && var ino := Lookup(tree, path).value;
                && openFiles[..] == old(openFiles[..])[fd := OpenFile(true, flags, 0, ino)]
                && ino in tree.kids && ino.refCount == old(ino.refCount) + 1
                && ino.size == (if Truncates(flags) then 0 else old(ino.size))
                && forall n :: n in tree.kids && n != ino ==> n.refCount == old(n.refCount) && n.size == old(n.size)
    {
      hide TreeOk, RankedBy, NodeOk, RefsOk;
      var ino := LookupPath(path);
      if ino == null || !permitted {
        return -1;
      }
      fd := Attach(ino, flags);
    }

    /** vfs_close. No sequence of closes frees an inode of the tree. */
    method Close(fd: int) returns (r: int, freed: bool)
      requires Valid()
      modifies openFiles, tree.kids.Keys`refCount
      ensures Valid() && !freed
      ensures r == 0 <==> 0 <= fd < MAX_OPEN_FILES && old(openFiles[..])[fd].used
      ensures r == 0 || r == -1
      ensures r == -1 ==> openFiles[..] == old(openFiles[..])
      ensures r == -1 ==> forall n :: n in tree.kids ==> n.refCount == old(n.refCount)
      ensures r == 0 ==>
                && openFiles[..] == old(openFiles[..])[fd := CLOSED]
                && forall n :: n in tree.kids ==>
                     n.refCount == old(n.refCount) - if n == old(openFiles[..])[fd].inode then 1 else 0
    {
      hide TreeOk, RankedBy, NodeOk;
      if fd < 0 || fd >= MAX_OPEN_FILES || !openFiles[fd].used {
        return -1, false;
      }
      var ino := openFiles[fd].inode;
      freed := false;
      OpensSome(openFiles[..], fd, ino);
      if ino != null {
        freed := FreeInode(ino);
      }
      openFiles[fd] := CLOSED;
      r := 0;
      assert openFiles[..] == old(openFiles[..])[fd := CLOSED];
      forall n | n in tree.kids
        ensures n.refCount == 1 + Opens(openFiles[..], n)
      {
        OpensUpdate(old(openFiles[..]), fd, CLOSED, n);
      }
    }

    /** An open descriptor holds an inode of the tree, which no close of others can free. */
    lemma OpenIsHeld(fd: nat)
      requires Valid() && fd < MAX_OPEN_FILES && openFiles[fd].used
      ensures openFiles[fd].inode != null && openFiles[fd].inode in tree.kids && openFiles[fd].inode.refCount >= 2
    {
      OpensSome(openFiles[..], fd, openFiles[fd].inode);
    }

    // ---------------------------------------------------------------- new inodes

    // Hangs a new inode into the tree.
    method Link(parent: Inode, child: Inode)
      requires Valid() && parent in tree.kids
      requires child !in tree.kids && child.refCount == 1 && child.firstChild == null
      modifies this`tree, this`rank, child`parent, child`nextSibling, parent`firstChild
      ensures Valid() && tree == AddChild(old(tree), parent, child, child.name)
    {
      hide TreeOk, RankedBy, NodeOk, AddChild, Opens, RefsOk;
      ghost var t', rank' := Grow(tree, rank, parent, child);
      Splice(tree, parent, child);
      tree, rank := t', rank';
      RefsKept(child);
    }

    // An inode that is new to the tree and not open is counted for the tree only.
    twostate lemma RefsKept(child: Inode)
      requires old(RefsOk()) && tree.kids.Keys == old(tree.kids.Keys) + {child}
      requires child !in old(tree.kids) && child.refCount == 1
      requires openFiles[..] == old(openFiles[..])
      requires forall n :: n in old(tree.kids) ==> n.refCount == old(n.refCount)
      ensures RefsOk()
    {
      hide Opens;
      NotOpen(openFiles[..], child);
    }

    /** vfs_mkdir. */
    method Mkdir(path: string, memory: bool) returns (r: int, ghost made: Inode?)
      requires Valid()
      modifies this`tree, this`rank, tree.kids.Keys`firstChild
      ensures Valid() && (r == 0 || r == -1) && (r == 0 <==> made != null)
      ensures r == 0 <==> path != "" && path[0] == '/' && Lookup(old(tree), ParentPath(path)).Some? && memory
      ensures r == -1 ==> tree == old(tree)
      ensures r == 0 ==> Created(old(tree), tree, path, made) && fresh(made) && made.kind == Directory
    {
      if path == "" || path[0] != '/' {
        return -1, null;
      }
      var parent := LookupPath(ParentPath(path));
      if parent == null || !memory {
        return -1, null;
      }
      var child := new Inode(Directory, LastName(path));
      Link(parent, child);
      return 0, child;
    }

    /** vfs_create_file. A file that is there already gets the new contents in place. */
    method CreateFile(path: string, data: seq<byte>, inodeMemory: bool, dataMemory: bool)
        returns (r: int, ghost made: Inode?)
      requires Valid()
      modifies this`tree, this`rank, tree.kids.Keys`firstChild, tree.kids.Keys`size, tree.kids.Keys`data
      ensures Valid() && (r == 0 || r == -1)
      ensures made == null ==> tree == old(tree)
      ensures made != null ==> r == 0 && Created(old(tree), tree, path, made) && fresh(made) && Holds(made, data)
      ensures r == 0 <==>
                && MayCreate(old(tree), path)
                && (data == [] || dataMemory)
                && (Replaces(old(tree), path) || inodeMemory)
      ensures r == 0 && made == null ==> Replaces(old(tree), path) && Holds(Lookup(tree, path).value, data)
      ensures forall n :: n in old(tree.kids) && !(Replaces(old(tree), path) && n == Lookup(old(tree), path).value) ==>
                n.size == old(n.size) && n.data == old(n.data)
    {
      hide TreeOk, RankedBy, NodeOk, AddChild, RefsOk, Lookup, ParentPath, LastName, Holds;
      made := null;
      if path == "" || path[0] != '/' || LastName(path) == "" {
        return -1, null;
      }
      var parent := LookupPath(ParentPath(path));
      if parent == null || parent.kind != Directory {
        return -1, null;
      }
      var existing := LookupPath(path);
      if existing != null && existing.kind == RegularFile {
        r := Replace(existing, data, dataMemory);
        return;
      }
      if !inodeMemory {
        return -1, null;
      }
      r, made := AddFile(parent, LastName(path), data, dataMemory);
    }

    // Makes a file and hangs it into the tree.
    method AddFile(parent: Inode, name: string, data: seq<byte>, dataMemory: bool) returns (r: int, ghost made: Inode?)
      requires Valid() && parent in tree.kids
      modifies this`tree, this`rank, parent`firstChild
      ensures Valid() && r == (if data == [] || dataMemory then 0 else -1) && (made == null <==> r == -1)
      ensures r == -1 ==> tree == old(tree)
      ensures made != null ==>
                && fresh(made) && made !in old(tree.kids) && Holds(made, data)
                && tree == AddChild(old(tree), parent, made, name)
    {
      hide TreeOk, RankedBy, NodeOk, AddChild;
      var child := new Inode(RegularFile, name);
      child.size := |data|;
      if |data| > 0 {
        if !dataMemory {
          return -1, null;
        }
        child.data := Some(data);
      }
      Link(parent, child);
      return 0, child;
    }
  }

  // Gives a file new contents in place.
  method Replace(existing: Inode, data: seq<byte>, dataMemory: bool) returns (r: int)
    requires existing.kind == RegularFile
    modifies existing`data, existing`size
    ensures r == if data == [] || dataMemory then 0 else -1
    ensures Holds(existing, if r == 0 then data else [])
  {
    existing.data, existing.size := None, |data|;
    if |data| > 0 {
      if !dataMemory {
        existing.size := 0;
        return -1;
      }
      existing.data := Some(data);
    }
    return 0;
  }

  predicate Truncates(flags: nat) {
    BitAnd(flags, 0x10) != 0
  }

  predicate AllUsed(files: seq<OpenFile>) {
    forall i :: 0 <= i < |files| ==> files[i].used
  }

  predicate LowestUnused(files: seq<OpenFile>, fd: int) {
    0 <= fd < |files| && !files[fd].used && forall i :: 0 <= i < fd ==> files[i].used
  }

  // A new inode hangs under the inode of the parent path, under the last name.
  ghost predicate Created(t: Tree<Inode>, t': Tree<Inode>, path: string, made: Inode?) {
    var p := Lookup(t, ParentPath(path));
    && made != null && made !in t.kids && p.Some? && p.value in t.kids
    && t' == AddChild(t, p.value, made, LastName(path)) && TreeOk(t)
  }

  ghost predicate Holds(n: Inode, data: seq<byte>)
    reads n`size, n`data
  {
    n.kind == RegularFile && n.size == |data| && n.data == if data == [] then None else Some(data)
  }

  predicate MayCreate(t: Tree<Inode>, path: string) {
    && path != "" && path[0] == '/' && LastName(path) != ""
    && var p := Lookup(t, ParentPath(path));
    && p.Some? && p.value.kind == Directory
  }

  predicate Replaces(t: Tree<Inode>, path: string) {
    MayCreate(t, path) && Lookup(t, path).Some? && Lookup(t, path).value.kind == RegularFile
  }

  /** A path that did not resolve and now was created resolves to the new inode, and every
      path that resolved before still does so to the same inode. */
  lemma CreatedPaths(t: Tree<Inode>, t': Tree<Inode>, path: string, made: Inode)
    requires Created(t, t', path, made)
    requires WithinLimits(path) && PlainName(LastName(path)) && Lookup(t, path).None?
    ensures Lookup(t', path) == Some(made)
    ensures forall s :: Lookup(t, s).Some? ==> Lookup(t', s) == Lookup(t, s)
    ensures Lookup(t', path + "/" + "..") == Lookup(t, ParentPath(path))
  {
    var p, name := Lookup(t, ParentPath(path)).value, LastName(path);
    LookupByParent(t, path);
    assert Unused(t, p, name);
    CreatedIsFound(t, path, p, made);
    PathsKeptIff(t, ParentPath(path), p, made, name);
    LookupJoin(t', path, "..");
  }

  /** A new inode under a name in use hides what was there: some path changes. */
  lemma ShadowedPaths(t: Tree<Inode>, t': Tree<Inode>, path: string, made: Inode)
    requires Created(t, t', path, made)
    requires WithinLimits(path) && PlainName(LastName(path)) && Lookup(t, path).Some?
    ensures exists s :: Lookup(t, s).Some? && Lookup(t', s) != Lookup(t, s)
  {
    var p, name := Lookup(t, ParentPath(path)).value, LastName(path);
    LookupByParent(t, path);
    assert !Unused(t, p, name);
    PathsKeptIff(t, ParentPath(path), p, made, name);
  }

  // Only directories have children.
  ghost predicate FilesHoldNothing(t: Tree<Inode>) {
    forall n :: n in t.kids && t.kids[n] != [] ==> n.kind == Directory
  }

  /** Creating keeps regular files without children exactly when the parent is a directory, which
      `vfs_create_file` makes sure of and `vfs_mkdir` does not. */
  lemma FilesHoldNothingIff(t: Tree<Inode>, t': Tree<Inode>, path: string, made: Inode)
    requires Created(t, t', path, made) && FilesHoldNothing(t)
    ensures FilesHoldNothing(t') <==> Lookup(t, ParentPath(path)).value.kind == Directory
    ensures MayCreate(t, path) ==> FilesHoldNothing(t')
  {
    var p := Lookup(t, ParentPath(path)).value;
    assert p in t'.kids && t'.kids[p] != [] && t'.kids[made] == [];
    assert forall n :: n in t.kids && n != p ==> t'.kids[n] == t.kids[n];
  }

  // The root directory with one file in it.
  function OneFile(root: Inode, file: Inode): Tree<Inode> {
    var up: map<Inode, Inode>, kids: map<Inode, seq<Inode>> := map[file := root], map[root := [file], file := []];
    Tree(root, up, kids, map[root := "", file := "f"])
  }

  /** A directory made inside a regular file: the path of the file is taken for a parent path. */
  lemma DirectoryInFile(root: Inode, file: Inode, made: Inode)
    requires file.kind == RegularFile && root.kind == Directory && root != file && made != root && made != file
    ensures var t := OneFile(root, file);
      && TreeOk(t) && FilesHoldNothing(t) && Lookup(t, ParentPath("/f/d")) == Some(file)
      && Created(t, AddChild(t, file, made, "d"), "/f/d", made) && !FilesHoldNothing(AddChild(t, file, made, "d"))
  {
    hide AddChild;
    var t := OneFile(root, file);
    assert forall p, i :: p in t.kids && 0 <= i < |t.kids[p]| ==> t.kids[p][i] == file;
    PathOfTwo();
    RootName(t, "f");
    assert "/" + "f" == "/f" && FindChild(t, t.kids[root], "f") == Some(file);
    FilesHoldNothingIff(t, AddChild(t, file, made, "d"), "/f/d", made);
  }

  lemma PathOfTwo()
    ensures ParentPath("/f/d") == "/f" && LastName("/f/d") == "d"
  {
    var p := "/f/d";
    assert p[..3] == "/f/" && LastSlash(p[..3]) == 2 && LastSlash(p) == 2;
    assert p[..2] == "/f" && p[3..] == "d";
  }

  // Puts a new inode in front of a directory's children.
  method Splice(ghost t: Tree<Inode>, parent: Inode, child: Inode)
    requires TreeOk(t) && parent in t.kids && child !in t.kids && child.firstChild == null
    requires forall n :: n in t.kids ==> NodeOk(t, n)
    modifies child`parent, child`nextSibling, parent`firstChild
    ensures var t' := AddChild(t, parent, child, child.name);
      forall n :: n in t'.kids ==> NodeOk(t', n)
  {
    hide TreeOk, AddChild, NodeOk, ChainOk;
    KidsInTree(t);
    ParentNode(t, parent);
    child.parent := parent;
    child.nextSibling := parent.firstChild;
    parent.firstChild := child;
    assert forall n :: n in t.kids && n != parent ==> NodeOk(t, n);
    AllNodes(t, parent, child);
  }

  lemma ParentNode(t: Tree<Inode>, parent: Inode)
    requires parent in t.kids && NodeOk(t, parent)
    ensures parent.firstChild == HeadOf(t.kids[parent]) && ChainOk(t.kids[parent])
    ensures parent in t.names && t.names[parent] == parent.name
    ensures parent.parent == if parent in t.up then t.up[parent] else null
  {
  }

  // The tree with a child in front: every field is right again.
  lemma AllNodes(t: Tree<Inode>, parent: Inode, child: Inode)
    requires parent in t.kids && child !in t.kids && child !in t.up && ChainOk(t.kids[parent])
    requires parent in t.names && t.names[parent] == parent.name
    requires parent.parent == if parent in t.up then t.up[parent] else null
    requires parent.firstChild == child && child.nextSibling == HeadOf(t.kids[parent])
    requires child.parent == parent && child.firstChild == null
    requires forall n :: n in t.kids && n != parent ==> NodeOk(t, n)
    ensures var t' := AddChild(t, parent, child, child.name);
      forall n :: n in t'.kids ==> NodeOk(t', n)
  {
    ChainOfNew(child, t.kids[parent]);
    forall n | n in t.kids && n != parent
      ensures NodeOk(AddChild(t, parent, child, child.name), n)
    {
      NodeStays(t, parent, child, n);
    }
  }

  // The other inodes keep their places.
  lemma NodeStays(t: Tree<Inode>, parent: Inode, child: Inode, n: Inode)
    requires parent in t.kids && n in t.kids && n != parent && n != child && NodeOk(t, n)
    ensures NodeOk(AddChild(t, parent, child, child.name), n)
  {
  }

  // The tree with one inode more, and its rank.
  lemma Grow(t: Tree<Inode>, rank: map<Inode, nat>, parent: Inode, child: Inode)
      returns (t': Tree<Inode>, rank': map<Inode, nat>)
    requires TreeOk(t) && RankedBy(t, rank) && parent in t.kids && child !in t.kids
    ensures t' == AddChild(t, parent, child, child.name)
    ensures TreeOk(t') && RankedBy(t', rank') && t'.root == t.root && t'.kids.Keys == t.kids.Keys + {child}
  {
    AddChildKeepsTree(t, parent, child, child.name);
    AddChildKeepsRank(t, parent, child, child.name, rank);
    t', rank' := AddChild(t, parent, child, child.name), rank[child := rank[parent] + 1];
  }

  lemma KidsInTree(t: Tree<Inode>)
    requires TreeOk(t)
    ensures t.up.Keys <= t.kids.Keys && t.names.Keys == t.kids.Keys
    ensures forall n, k :: n in t.kids && k in t.kids[n] ==> k in t.kids
  {
  }

  lemma ChainOfNew(child: Inode, kids: seq<Inode>)
    requires ChainOk(kids) && child.nextSibling == HeadOf(kids)
    ensures ChainOk([child] + kids)
  {
    var all := [child] + kids;
    forall i | 0 <= i < |all|
      ensures SiblingOk(all, i)
    {
      assert all[i + 1..] == kids[i..];
      assert i > 0 ==> SiblingOk(kids, i - 1);
    }
  }

  // An open descriptor is counted.
  lemma {:induction false} OpensSome(files: seq<OpenFile>, fd: nat, n: Inode?)
    requires fd < |files| && files[fd].used && files[fd].inode == n
    ensures n != null ==> Opens(files, n) > 0
  {
    if fd > 0 {
      OpensSome(files[1..], fd - 1, n);
    }
  }

  lemma {:induction false} NotOpen(files: seq<OpenFile>, n: Inode)
    requires forall i :: 0 <= i < |files| && files[i].used ==> files[i].inode != n
    ensures Opens(files, n) == 0
  {
    if files != [] {
      NotOpen(files[1..], n);
    }
  }

  lemma CompLenStep(s: string, limit: nat)
    ensures CompLen(s, limit) == if s == "" || s[0] == '/' || limit == 0 then 0 else 1 + CompLen(s[1..], limit - 1)
  {
  }

  lemma SkipStep(s: string)
    ensures SkipSlashes(s) == if s != "" && s[0] == '/' then SkipSlashes(s[1..]) else s
  {
  }

  /** Extracts the next component of a path and skips the slashes behind it. */
  method NextComponent(p: string) returns (comp: string, rest: string)
    ensures comp == p[..CompLen(p, MAX_NAME)] && rest == SkipSlashes(p[CompLen(p, MAX_NAME)..])
  {
    hide CompLen, SkipSlashes;
    var i := 0;
    comp := "";
    assert p[0..] == p;
    while i < |p| && p[i] != '/' && i < MAX_NAME
      invariant 0 <= i <= |p| && i <= MAX_NAME && comp == p[..i]
      invariant CompLen(p, MAX_NAME) == i + CompLen(p[i..], MAX_NAME - i)
    {
      CompLenStep(p[i..], MAX_NAME - i);
      assert p[i..][1..] == p[i + 1..];
      comp := comp + [p[i]];
      i := i + 1;
    }
    CompLenStep(p[i..], MAX_NAME - i);
    ghost var n := i;
    while i < |p| && p[i] == '/'
      invariant n <= i <= |p| && SkipSlashes(p[n..]) == SkipSlashes(p[i..])
    {
      SkipStep(p[i..]);
      assert p[i..][1..] == p[i + 1..];
      i := i + 1;
    }
    SkipStep(p[i..]);
    rest := p[i..];
  }
}
