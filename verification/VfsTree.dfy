/**
 The inode tree as a value, and path resolution over it. The linked inodes of Vfs
 refine this tree; what path lookup promises is proved here.
 */
module VfsTree {
  import opened Options

  const MAX_NAME := 127   // VFS_MAX_NAME_LEN less its terminator
  const MAX_PATH := 511   // VFS_MAX_PATH_LEN less its terminator

  /** `kids` lists the children of each inode, newest first; `up` is every inode's parent. */
  datatype Tree<T(==)> = Tree(root: T, up: map<T, T>, kids: map<T, seq<T>>, names: map<T, string>)

  // Each inode but the root hangs under its parent, once.
  ghost predicate TreeOk<T>(t: Tree<T>) {
    && t.root in t.kids && t.names.Keys == t.kids.Keys && t.up.Keys == t.kids.Keys - {t.root}
    && (forall p, i :: p in t.kids && 0 <= i < |t.kids[p]| ==>
          t.kids[p][i] in t.up && t.up[t.kids[p][i]] == p)
    && (forall c :: c in t.up ==> t.up[c] in t.kids && c in t.kids[t.up[c]])
    && (forall p, i, j :: p in t.kids && 0 <= i < j < |t.kids[p]| ==> t.kids[p][i] != t.kids[p][j])
  }

  // A rank that grows from parent to child: following parents cannot go round.
  ghost predicate RankedBy<T>(t: Tree<T>, rank: map<T, nat>) {
    && rank.Keys == t.kids.Keys
    && forall c :: c in t.up ==> t.up[c] in rank && c in rank && rank[t.up[c]] < rank[c]
  }

  // ---------------------------------------------------------------- components

  // The length of the component at the front: up to a slash, the end or the name limit.
  function CompLen(p: string, limit: nat): (n: nat)
    ensures n <= |p| && n <= limit && forall i :: 0 <= i < n ==> p[i] != '/'
    ensures n == |p| || n == limit || p[n] == '/'
  {
    if p == "" || p[0] == '/' || limit == 0 then 0 else 1 + CompLen(p[1..], limit - 1)
  }

  function SkipSlashes(p: string): (r: string)
    ensures |r| <= |p| && (r == "" || r[0] != '/')
    ensures p != "" && p[0] == '/' ==> |r| < |p|
  {
    if p == "" || p[0] != '/' then p else SkipSlashes(p[1..])
  }

  function FindChild<T(==)>(t: Tree<T>, kids: seq<T>, name: string): Option<T> {
    if kids == [] then None
    else if kids[0] in t.names && t.names[kids[0]] == name then Some(kids[0])
    else FindChild(t, kids[1..], name)
  }

  /** One component: stay, go up, or go down to the first child of that name. */
  function Move<T(==)>(t: Tree<T>, cur: T, comp: string): Option<T> {
    if comp == "" || comp == "." then Some(cur)
    else if comp == ".." then Some(if cur in t.up then t.up[cur] else cur)
    else if cur in t.kids then FindChild(t, t.kids[cur], comp)
    else None
  }

  /** The walk of lookup_path over the rest of a path. */
  function Resolve<T(==)>(t: Tree<T>, cur: T, p: string): Option<T>
    decreases |p|
  {
    if p == "" then Some(cur)
    else
      var n := CompLen(p, MAX_NAME);
      var next := Move(t, cur, p[..n]);
      if next.None? then None else Resolve(t, next.value, SkipSlashes(p[n..]))
  }

  function Lookup<T(==)>(t: Tree<T>, path: string): Option<T> {
    if path == "" || path[0] != '/' then None else Resolve(t, t.root, path[1..])
  }

  // ---------------------------------------------------------------- splitting a path

  // The index of the last slash.
  function LastSlash(p: string): (i: int)
    ensures -1 <= i < |p|
    ensures i >= 0 ==> p[i] == '/'
    ensures forall j :: i < j < |p| ==> p[j] != '/'
  {
    if p == "" then -1 else if p[|p| - 1] == '/' then |p| - 1 else LastSlash(p[..|p| - 1])
  }

  function Cut(s: string, n: nat): string {
    if |s| <= n then s else s[..n]
  }

  function ParentPath(path: string): string {
    var p := Cut(path, MAX_PATH);
    var i := LastSlash(p);
    if i <= 0 then Cut(p, 1) else p[..i]
  }

  function LastName(path: string): string {
    var p := Cut(path, MAX_PATH);
    Cut(p[LastSlash(p) + 1..], MAX_NAME)
  }

  // ---------------------------------------------------------------- composing walks

  lemma SlashIsNoMove<T>(t: Tree<T>, cur: T, r: string)
    ensures Resolve(t, cur, SkipSlashes("/" + r)) == Resolve(t, cur, r)
    ensures Resolve(t, cur, "/" + r) == Resolve(t, cur, r)
  {
    assert ("/" + r)[1..] == r;
    assert SkipSlashes("/" + r) == SkipSlashes(r);
    if r != "" && r[0] == '/' {
      assert CompLen(r, MAX_NAME) == 0 && r[..0] == "" && r[0..] == r;
    }
    assert CompLen("/" + r, MAX_NAME) == 0;
    assert ("/" + r)[..0] == "" && ("/" + r)[0..] == "/" + r;
  }

  lemma {:induction false} CompLenAppend(s: string, r: string, limit: nat)
    ensures CompLen(s + "/" + r, limit) == CompLen(s, limit)
  {
    if s != "" && s[0] != '/' && limit > 0 {
      CompLenAppend(s[1..], r, limit - 1);
      assert (s + "/" + r)[1..] == s[1..] + "/" + r;
    } else if s == "" {
      assert s + "/" + r == "/" + r;
    }
  }

  lemma {:induction false} SkipAppend(s: string, r: string)
    requires SkipSlashes(s) != ""
    ensures SkipSlashes(s + "/" + r) == SkipSlashes(s) + "/" + r
  {
    if s[0] == '/' {
      SkipAppend(s[1..], r);
      assert (s + "/" + r)[1..] == s[1..] + "/" + r;
    }
  }

  lemma {:induction false} SkipAllSlashes(s: string, r: string)
    requires SkipSlashes(s) == ""
    ensures SkipSlashes(s + "/" + r) == SkipSlashes(r)
  {
    assert (s + "/" + r)[1..] == if s == "" then r else s[1..] + "/" + r;
    if s != "" {
      SkipAllSlashes(s[1..], r);
    }
  }

  /** Walking a joined path is walking its first part and then, from there, the second. */
  lemma {:induction false} ResolveJoin<T>(t: Tree<T>, cur: T, s: string, r: string)
    ensures Resolve(t, cur, s + "/" + r) ==
      match Resolve(t, cur, s)
      case None => None
      case Some(x) => Resolve(t, x, r)
    decreases |s|
  {
    if s == "" {
      assert s + "/" + r == "/" + r;
      SlashIsNoMove(t, cur, r);
    } else {
      var n := CompLen(s, MAX_NAME);
      CompLenAppend(s, r, MAX_NAME);
      var p := s + "/" + r;
      assert p[..n] == s[..n] && p[n..] == s[n..] + "/" + r;
      var next := Move(t, cur, s[..n]);
      if next.Some? {
        var rest := SkipSlashes(s[n..]);
        if rest == "" {
          SkipAllSlashes(s[n..], r);
          SlashIsNoMove(t, next.value, r);
          assert SkipSlashes("/" + r) == SkipSlashes(r) by { assert ("/" + r)[1..] == r; }
        } else {
          SkipAppend(s[n..], r);
          ResolveJoin(t, next.value, rest, r);
        }
      }
    }
  }

  // A name that a single component of a path can spell.
  predicate PlainName(name: string) {
    0 < |name| <= 127 && name != "." && name != ".." && forall i :: 0 <= i < |name| ==> name[i] != '/'
  }

  lemma {:induction false} CompLenWhole(name: string, limit: nat)
    requires |name| <= limit && forall i :: 0 <= i < |name| ==> name[i] != '/'
    ensures CompLen(name, limit) == |name|
  {
    if name != "" {
      CompLenWhole(name[1..], limit - 1);
    }
  }

  lemma ResolveName<T>(t: Tree<T>, cur: T, name: string)
    requires |name| <= MAX_NAME && forall i :: 0 <= i < |name| ==> name[i] != '/'
    ensures Resolve(t, cur, name) == Move(t, cur, name)
  {
    CompLenWhole(name, MAX_NAME);
    if name != "" {
      assert name[..|name|] == name && name[|name|..] == "";
    }
  }

  // A path below another one: walking on by one component.
  lemma LookupJoin<T>(t: Tree<T>, q: string, name: string)
    requires q != "" && q[0] == '/' && |name| <= MAX_NAME && forall i :: 0 <= i < |name| ==> name[i] != '/'
    ensures Lookup(t, q + "/" + name) ==
      match Lookup(t, q)
      case None => None
      case Some(p) => Move(t, p, name)
  {
    assert (q + "/" + name)[1..] == q[1..] + "/" + name;
    ResolveJoin(t, t.root, q[1..], name);
    if Lookup(t, q).Some? {
      ResolveName(t, Lookup(t, q).value, name);
    }
  }

  predicate WithinLimits(path: string) {
    path != "" && path[0] == '/' && |path| <= 511 && |path[LastSlash(path) + 1..]| <= 127
  }

  lemma PathParts(path: string)
    requires WithinLimits(path)
    ensures var q, name := ParentPath(path), LastName(path);
      && q != "" && q[0] == '/' && |name| <= MAX_NAME && (forall i :: 0 <= i < |name| ==> name[i] != '/')
      && (path == q + "/" + name || (q == "/" && path == "/" + name))
  {
    var i := LastSlash(path);
    assert Cut(path, MAX_PATH) == path;
    assert LastName(path) == path[i + 1..];
    if i == 0 {
      assert ParentPath(path) == path[..1];
    }
  }

  /** Within the length limits a path resolves by resolving its parent path and looking its
      last name up there. */
  lemma LookupByParent<T>(t: Tree<T>, path: string)
    requires WithinLimits(path)
    ensures Lookup(t, path) ==
      match Lookup(t, ParentPath(path))
      case None => None
      case Some(p) => Move(t, p, LastName(path))
  {
    PathParts(path);
    var q, name := ParentPath(path), LastName(path);
    if path == q + "/" + name {
      LookupJoin(t, q, name);
    } else {
      RootName(t, name);
    }
  }

  lemma RootName<T>(t: Tree<T>, name: string)
    requires |name| <= MAX_NAME && forall i :: 0 <= i < |name| ==> name[i] != '/'
    ensures Lookup(t, "/") == Some(t.root) && Lookup(t, "/" + name) == Move(t, t.root, name)
  {
    ResolveName(t, t.root, name);
    assert ("/" + name)[1..] == name && "/"[1..] == "";
  }

  // ---------------------------------------------------------------- new inodes

  /** The new inode becomes the first child. */
  function AddChild<T(==)>(t: Tree<T>, p: T, c: T, name: string): Tree<T>
    requires p in t.kids
  {
    Tree(t.root, t.up[c := p], t.kids[p := [c] + t.kids[p]][c := []], t.names[c := name])
  }

  lemma AddChildKeepsTree<T>(t: Tree<T>, p: T, c: T, name: string)
    requires TreeOk(t) && p in t.kids && c !in t.kids
    ensures TreeOk(AddChild(t, p, c, name))
  {
    var t' := AddChild(t, p, c, name);
    forall q, i | q in t'.kids && 0 <= i < |t'.kids[q]|
      ensures t'.kids[q][i] in t'.up && t'.up[t'.kids[q][i]] == q
    {
      if q == p && i > 0 {
        assert t'.kids[q][i] == t.kids[q][i - 1];
      }
    }
    forall d | d in t'.up
      ensures t'.up[d] in t'.kids && d in t'.kids[t'.up[d]]
    {
      if d == c {
        assert t'.kids[p][0] == c;
      } else {
        assert d in t.up;
      }
    }
    forall q, i, j | q in t'.kids && 0 <= i < j < |t'.kids[q]|
      ensures t'.kids[q][i] != t'.kids[q][j]
    {
      if q == p {
        assert t'.kids[q][j] == t.kids[q][j - 1];
        assert i > 0 ==> t'.kids[q][i] == t.kids[q][i - 1];
      }
    }
  }

  /** Parents stay acyclic: a rank for the old tree extends to the new one. */
  lemma AddChildKeepsRank<T>(t: Tree<T>, p: T, c: T, name: string, rank: map<T, nat>)
    requires TreeOk(t) && p in t.kids && c !in t.kids && RankedBy(t, rank)
    ensures RankedBy(AddChild(t, p, c, name), rank[c := rank[p] + 1])
  {
    var t', r := AddChild(t, p, c, name), rank[c := rank[p] + 1];
    forall d | d in t'.up
      ensures t'.up[d] in r && d in r && r[t'.up[d]] < r[d]
    {
      if d != c {
        assert d in t.up && d in t.kids && t.up[d] in t.kids;
      }
    }
  }

  lemma {:induction false} FindElsewhere<T>(t: Tree<T>, p: T, c: T, name: string, kids: seq<T>, m: string)
    requires p in t.kids && c !in kids
    ensures FindChild(AddChild(t, p, c, name), kids, m) == FindChild(t, kids, m)
  {
    if kids != [] {
      assert forall x :: x in kids[1..] ==> x in kids;
      FindElsewhere(t, p, c, name, kids[1..], m);
    }
  }

  lemma {:induction false} FoundIsChild<T>(t: Tree<T>, kids: seq<T>, m: string)
    ensures FindChild(t, kids, m).Some? ==> FindChild(t, kids, m).value in kids
    ensures FindChild(t, kids, m).Some? ==>
              FindChild(t, kids, m).value in t.names && t.names[FindChild(t, kids, m).value] == m
    ensures FindChild(t, kids, m).None? ==> forall k :: k in kids && k in t.names ==> t.names[k] != m
  {
    if kids != [] {
      FoundIsChild(t, kids[1..], m);
      assert forall x :: x in kids <==> x == kids[0] || x in kids[1..];
    }
  }

  // A move stays in the tree.
  lemma MoveInTree<T>(t: Tree<T>, cur: T, comp: string)
    requires TreeOk(t) && cur in t.kids
    ensures Move(t, cur, comp).Some? ==> Move(t, cur, comp).value in t.kids
  {
    FoundIsChild(t, t.kids[cur], comp);
    assert forall k :: k in t.kids[cur] ==> k in t.up;
  }

  // No old child of `p` answers to the new name.
  predicate Unused<T(==)>(t: Tree<T>, p: T, name: string)
    requires p in t.kids
  {
    PlainName(name) ==> FindChild(t, t.kids[p], name).None?
  }

  lemma MoveKept<T>(t: Tree<T>, p: T, c: T, name: string, cur: T, comp: string)
    requires TreeOk(t) && p in t.kids && c !in t.kids && cur in t.kids && Unused(t, p, name)
    requires |comp| <= MAX_NAME && forall i :: 0 <= i < |comp| ==> comp[i] != '/'
    ensures Move(t, cur, comp).Some? ==> Move(AddChild(t, p, c, name), cur, comp) == Move(t, cur, comp)
  {
    assert forall q, i :: q in t.kids && 0 <= i < |t.kids[q]| ==> t.kids[q][i] in t.up;
    FindElsewhere(t, p, c, name, t.kids[cur], comp);
    assert cur == p ==> AddChild(t, p, c, name).kids[p][1..] == t.kids[p];
  }

  lemma {:induction false} ResolveKept<T>(t: Tree<T>, p: T, c: T, name: string, cur: T, s: string)
    requires TreeOk(t) && p in t.kids && c !in t.kids && cur in t.kids && Unused(t, p, name)
    requires Resolve(t, cur, s).Some?
    ensures Resolve(AddChild(t, p, c, name), cur, s) == Resolve(t, cur, s)
    decreases |s|
  {
    if s != "" {
      var n := CompLen(s, MAX_NAME);
      MoveKept(t, p, c, name, cur, s[..n]);
      MoveInTree(t, cur, s[..n]);
      ResolveKept(t, p, c, name, Move(t, cur, s[..n]).value, SkipSlashes(s[n..]));
    }
  }

  /** Adding an inode keeps every path that resolved before exactly when no path component
      can spell its name or no child of the parent had it: a name in use is shadowed. */
  lemma PathsKeptIff<T>(t: Tree<T>, q: string, p: T, c: T, name: string)
    requires TreeOk(t) && p in t.kids && c !in t.kids && Lookup(t, q) == Some(p)
    ensures (forall s :: Lookup(t, s).Some? ==> Lookup(AddChild(t, p, c, name), s) == Lookup(t, s))
      <==> Unused(t, p, name)
  {
    var t' := AddChild(t, p, c, name);
    if Unused(t, p, name) {
      forall s | Lookup(t, s).Some?
        ensures Lookup(t', s) == Lookup(t, s)
      {
        ResolveKept(t, p, c, name, t.root, s[1..]);
      }
    } else {
      var s := q + "/" + name;
      LookupJoin(t, q, name);
      FoundIsChild(t, t.kids[p], name);
      if Lookup(t', q) == Some(p) {
        LookupJoin(t', q, name);
        assert Lookup(t', s) == Some(c);
        assert forall k :: k in t.kids[p] ==> k in t.up;
      }
      assert Lookup(t', s) != Lookup(t, s) || Lookup(t', q) != Lookup(t, q);
    }
  }

  /** What was created is found: the path of a new inode with a plain, unused name resolves
      to it. */
  lemma CreatedIsFound<T>(t: Tree<T>, path: string, p: T, c: T)
    requires TreeOk(t) && p in t.kids && c !in t.kids
    requires WithinLimits(path) && Lookup(t, ParentPath(path)) == Some(p)
    requires PlainName(LastName(path)) && Unused(t, p, LastName(path))
    ensures Lookup(AddChild(t, p, c, LastName(path)), path) == Some(c)
  {
    var t' := AddChild(t, p, c, LastName(path));
    PathsKeptIff(t, ParentPath(path), p, c, LastName(path));
    LookupByParent(t', path);
  }

  /** Of a path of more than 511 characters only the first 511 say what is created where. */
  lemma LongPathIsCut(path: string)
    requires |path| > 511
    ensures ParentPath(path) == ParentPath(path[..511]) && LastName(path) == LastName(path[..511])
  {
  }

  lemma ParentAndLast<T>(t: Tree<T>, path: string)
    requires path != "" && path[0] == '/' && |path| <= 511
    ensures var last := path[LastSlash(path) + 1..];
      && LastName(path) == Cut(last, 127) && (forall i :: 0 <= i < |last| ==> last[i] != '/')
      && Lookup(t, path) ==
           match Lookup(t, ParentPath(path))
           case None => None
           case Some(x) => Resolve(t, x, last)
  {
    var i := LastSlash(path);
    var last := path[i + 1..];
    assert Cut(path, MAX_PATH) == path;
    if i > 0 {
      assert path == path[..i] + "/" + last;
      JoinedLookup(t, path[..i], last);
    } else {
      assert path[..1] == "/" && "/"[1..] == "" && path[1..] == last;
    }
  }

  /** What is created is found exactly when its name has 127 characters at most: a longer one
      is cut when the inode is made, but looked up in two steps. (Behind the 127th character
      a single dot does no harm.) */
  lemma CreatedIsFoundIff<T>(t: Tree<T>, path: string, p: T, c: T)
    requires TreeOk(t) && p in t.kids && c !in t.kids
    requires path != "" && path[0] == '/' && |path| <= 511 && Lookup(t, ParentPath(path)) == Some(p)
    requires PlainName(LastName(path)) && Unused(t, p, LastName(path))
    ensures var last := path[LastSlash(path) + 1..];
      Lookup(AddChild(t, p, c, LastName(path)), path) == Some(c) <==> |last| <= 127 || last[127..] == "."
  {
    hide Resolve, SkipSlashes, CompLen;
    var name, last := LastName(path), path[LastSlash(path) + 1..];
    var t' := AddChild(t, p, c, name);
    PathsKeptIff(t, ParentPath(path), p, c, name);
    ParentAndLast(t', path);
    assert Lookup(t', ParentPath(path)) == Some(p);
    ResolveName(t', p, name);
    if |last| > 127 {
      LongNameIsSplit(t', p, last);
      ResolveJoin(t', p, name, last[127..]);
      BelowNew(t, p, c, name, last[127..]);
    }
  }

  /** A name of 128 times the letter a in an empty root directory: created, but not found. */
  lemma LongNameIsLost<T>(root: T, c: T, name: string)
    requires root != c && |name| == 128 && forall i :: 0 <= i < 128 ==> name[i] == 'a'
    ensures var t := Tree(root, map[], map[root := []], map[root := ""]);
      && TreeOk(t) && Lookup(t, ParentPath("/" + name)) == Some(root)
      && LastName("/" + name) == name[..127] && Lookup(AddChild(t, root, c, name[..127]), "/" + name) != Some(c)
  {
    hide AddChild, Resolve;
    var t, path := Tree(root, map[], map[root := []], map[root := ""]), "/" + name;
    assert path[0] == '/' && forall i :: 0 < i < |path| ==> path[i] == 'a';
    assert LastSlash(path) == 0 && path[1..] == name && path[..1] == "/";
    RootName(t, "");
    CreatedIsFoundIff(t, path, root, c);
    assert name[127..][0] == 'a';
  }

  // Below a new inode there is nothing yet.
  lemma BelowNew<T>(t: Tree<T>, p: T, c: T, name: string, rest: string)
    requires TreeOk(t) && p in t.kids && c !in t.kids && rest != "" && forall i :: 0 <= i < |rest| ==> rest[i] != '/'
    ensures Resolve(AddChild(t, p, c, name), c, rest) == Some(c) <==> rest == "."
  {
    hide Resolve, TreeOk;
    var t' := AddChild(t, p, c, name);
    if |rest| <= 127 {
      ResolveName(t', c, rest);
      assert t'.kids[c] == [] && t'.up[c] == p;
    } else {
      LongNameIsSplit(t', c, rest);
      ResolveJoin(t', c, rest[..127], rest[127..]);
      ResolveName(t', c, rest[..127]);
      assert t'.kids[c] == [] && FindChild(t', t'.kids[c], rest[..127]) == None;
    }
  }

  /** ".." inverts descent: going down by a plain name and up again is where one was. */
  lemma UpInvertsDown<T>(t: Tree<T>, q: string, name: string)
    requires TreeOk(t) && PlainName(name)
    requires Lookup(t, q).Some? && Lookup(t, q).value in t.kids && Lookup(t, q + "/" + name).Some?
    ensures Lookup(t, q + "/" + name + "/" + "..") == Lookup(t, q)
  {
    var p := Lookup(t, q).value;
    LookupJoin(t, q, name);
    FoundIsChild(t, t.kids[p], name);
    assert forall k :: k in t.kids[p] ==> k in t.up && t.up[k] == p;
    LookupJoin(t, q + "/" + name, "..");
  }

  /** Dropping a "." component, or doubling a slash, anywhere in a path changes no lookup. */
  lemma DropDot<T>(t: Tree<T>, q: string, r: string)
    requires q != "" && q[0] == '/'
    ensures Lookup(t, q + "/" + ".") == Lookup(t, q)
    ensures Lookup(t, q + "/" + "." + "/" + r) == Lookup(t, q + "/" + r) == Lookup(t, q + "/" + "/" + r)
  {
    LookupJoin(t, q, ".");
    LookupJoin(t, q, "");
    assert q + "/" + "" == q + "/";
    JoinedLookup(t, q + "/" + ".", r);
    JoinedLookup(t, q + "/", r);
    JoinedLookup(t, q, r);
  }

  lemma JoinedLookup<T>(t: Tree<T>, q: string, r: string)
    requires q != "" && q[0] == '/'
    ensures Lookup(t, q + "/" + r) ==
      match Lookup(t, q)
      case None => None
      case Some(x) => Resolve(t, x, r)
  {
    assert (q + "/" + r)[1..] == q[1..] + "/" + r;
    ResolveJoin(t, t.root, q[1..], r);
  }

  /** ".." leads to the directory an inode hangs in, and from the root to the root. */
  lemma DotDotIsParent<T>(t: Tree<T>, q: string)
    requires TreeOk(t) && Lookup(t, q).Some?
    ensures var x := Lookup(t, q).value;
      && (x == t.root ==> Lookup(t, q + "/" + "..") == Some(t.root))
      && (forall p :: p in t.kids && x in t.kids[p] ==> Lookup(t, q + "/" + "..") == Some(p))
  {
    LookupJoin(t, q, "..");
  }

  /** A name of more than 127 characters is walked as if it had a slash behind the 127th. */
  lemma LongNameIsSplit<T>(t: Tree<T>, cur: T, name: string)
    requires |name| > 127 && forall i :: 0 <= i < |name| ==> name[i] != '/'
    ensures Resolve(t, cur, name) == Resolve(t, cur, name[..127] + "/" + name[127..])
  {
    var front, rest := name[..127], name[127..];
    ResolveJoin(t, cur, front, rest);
    ResolveName(t, cur, front);
    CompLenCut(name, 127);
  }

  lemma {:induction false} CompLenCut(name: string, limit: nat)
    requires |name| >= limit && forall i :: 0 <= i < |name| ==> name[i] != '/'
    ensures CompLen(name, limit) == limit
  {
    if limit > 0 {
      CompLenCut(name[1..], limit - 1);
    }
  }

  /** Every path resolves inside the tree. */
  lemma {:induction false} ResolveInTree<T>(t: Tree<T>, cur: T, s: string)
    requires TreeOk(t) && cur in t.kids
    ensures Resolve(t, cur, s).Some? ==> Resolve(t, cur, s).value in t.kids
    decreases |s|
  {
    if s != "" {
      var n := CompLen(s, MAX_NAME);
      MoveInTree(t, cur, s[..n]);
      if Move(t, cur, s[..n]).Some? {
        ResolveInTree(t, Move(t, cur, s[..n]).value, SkipSlashes(s[n..]));
      }
    }
  }
}
