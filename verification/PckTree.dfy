/** The tree of the files and directories in a package, as linked nodes, and the set of
    paths that it stands for. */
module PckTrees {

  type Path = seq<string>

  ghost predicate ProperPrefix(p: Path, q: Path) {
    |p| < |q| && q[..|p|] == p
  }

  class PckTreeNode {
    var childs: seq<PckTreeNode>
    var parent: PckTreeNode?
    var name: string
    var isDirectory: bool

    constructor ()
      ensures childs == [] && parent == null && name == "" && !isDirectory
    {
      childs, parent, name, isDirectory := [], null, "", false;
    }

    /** A child with that name. */
    method FindChild(childName: string) returns (node: PckTreeNode?)
      ensures node != null ==> node in childs && node.name == childName
      ensures node == null ==> forall c :: c in childs ==> c.name != childName
    {
      var i := 0;
      while i < |childs|
        invariant 0 <= i <= |childs|
        invariant forall j :: 0 <= j < i ==> childs[j].name != childName
      {
        if childs[i].name == childName {
          return childs[i];
        }
        i := i + 1;
      }
      return null;
    }

    /** Adds a new last child, whatever its name is. Where a tree can have a child with that
        name and has none, it stays a tree. */
    method AddChild(childName: string, directory: bool, ghost t: Nodes) returns (node: PckTreeNode, ghost t': Nodes)
      requires this in t
      modifies `childs
      ensures fresh(node) && childs == old(childs) + [node] && t' == t[node := t[this] + [childName]]
      ensures node.name == childName && node.isDirectory == directory && node.parent == this && node.childs == []
      ensures old(Tree(t) && CanHaveChildren(this) && NoChildNamed(this, childName)) ==> Tree(t')
    {
      hide Tree, NodeOk;
      node := new PckTreeNode();
      node.isDirectory := directory;
      node.name := childName;
      node.parent := this;
      childs := childs + [node];
      t' := t[node := t[this] + [childName]];
      if old(Tree(t) && CanHaveChildren(this) && NoChildNamed(this, childName)) {
        ChildAdded(t, this, node);
      }
    }

    /** Deletes everything below the node. */
    method FreeAllChilds(ghost t: Nodes) returns (ghost t': Nodes)
      requires Tree(t) && this in t
      modifies t.Keys
      ensures t' == t - Below(t, t[this]) && Tree(t') && childs == []
      ensures forall n :: n in t ==> n.parent == old(n.parent) && n.isDirectory == old(n.isDirectory) && n.name == old(n.name)
      ensures forall n :: n in t' && n != this ==> n.childs == old(n.childs)
      decreases Below(t, t[this])
    {
      hide Tree, NodeOk, Below;
      t' := t;
      ghost var all := childs;
      ChildPaths(t, this);
      var i := 0;
      while i < |childs|
        invariant 0 <= i <= |childs| && childs == all && Tree(t') && this in t'
        invariant Subtree(t', t) && forall c :: c in all ==> c in t'
        invariant t.Keys - t'.Keys <= Below(t, t[this])
        invariant forall n :: n in t ==> n.parent == old(n.parent) && n.isDirectory == old(n.isDirectory) && n.name == old(n.name)
        invariant forall n :: n in t' && n !in all[..i] ==> n.childs == old(n.childs)
      {
        var c := childs[i];
        assert c in all;
        BelowChild(t, t', this, c);
        assert all[..i + 1] == all[..i] + [c];
        t' := c.FreeAllChilds(t');
        i := i + 1;
      }
      assert all[..i] == all;
      childs := [];
      NotBelowItself(t, this);
      t' := t' - Below(t, t[this]);
      BelowOf(t, this, all);
      assert t' == t - Below(t, t[this]);
      ChildsFreed(t, t', this);
    }

    /** The child with that name, added when missing and converted when it is of the other
        kind; a directory that becomes a file loses everything below it. */
    method UniqueAddChild(childName: string, directory: bool, ghost t: Nodes) returns (node: PckTreeNode, ghost t': Nodes)
      requires Tree(t) && this in t && CanHaveChildren(this)
      modifies t.Keys
      ensures Tree(t') && node in t' && t'[node] == t[this] + [childName] && fresh(t'.Keys - t.Keys)
      ensures this in t' && t'[this] == t[this]
      ensures node.isDirectory == directory
      ensures Files(t') == if directory then old(Files(t)) - {t'[node]} else FilesWith(old(Files(t)), t'[node])
      ensures Dirs(t') == if directory then old(Dirs(t)) + {t'[node]} else DirsWithout(old(Dirs(t)), t'[node])
    {
      hide Tree, NodeOk, Below, Files, Dirs;
      t' := t;
      ghost var path := t[this] + [childName];
      ChildPaths(t, this);
      var found := FindChild(childName);
      if found != null {
        node := found;
        IsThere(t, node);
        if node.isDirectory != directory {
          if node.isDirectory {
            t' := node.FreeAllChilds(t);
            NotBelowItself(t, node);
            BelowChild(t, t, this, node);
          }
          label Freed:
          node.isDirectory := directory;
          DirectoryTree@Freed(t', node);
          KindChanged(t, t', node);
        } else {
          KindKept(t, node);
        }
        return;
      }
      NothingThere(t, this, childName);
      node, t' := AddChild(childName, directory, t);
      NodeAdded(t, node, path);
    }

    /** Adds a path below the node. Every part before a separator becomes a directory, the
        part after the last separator a file; empty parts are skipped. */
    method AddFullName(fullName: string, ghost t: Nodes) returns (node: PckTreeNode, ghost t': Nodes)
      requires Tree(t) && this in t && CanHaveChildren(this)
      requires forall i :: 0 <= i <= |fullName| ==> |Tail(fullName[..i])| < MAX_PATH
      modifies t.Keys
      ensures Tree(t') && node in t' && t'[node] == t[this] + DirNames(fullName)
      ensures Files(t') == FilesAfter(old(Files(t)), t[this], DirNames(fullName), Tail(fullName))
      ensures Dirs(t') == DirsAfter(old(Dirs(t)), t[this], DirNames(fullName), Tail(fullName))
      ensures GoodNames(t) ==> GoodNames(t')
    {
      hide GoodNames, GoodPaths, GoodPath;
      hide Tree, NodeOk, Files, Dirs, Tail, DirNames, CanHaveChildren, FilesAfter, DirsAfter, FilesWith, DirsWithout;
      var temp := new char[MAX_PATH];
      var nTemp, nFull := 0, 0;
      node, t' := this, t;
      ghost var base := t[this];
      if GoodNames(t) {
        NodePaths(t);
        GoodNode(t, this);
      }
      NothingRead();
      NoWay(old(Files(t)), old(Dirs(t)), base);
      while nFull < |fullName|
        invariant 0 <= nFull <= |fullName| && nTemp < MAX_PATH && fresh(temp)
        invariant temp[..nTemp] == Tail(fullName[..nFull])
        invariant Tree(t') && node in t' && CanHaveChildren(node) && fresh(t'.Keys - t.Keys)
        invariant t'[node] == base + DirNames(fullName[..nFull])
        invariant Files(t') == FilesAfter(old(Files(t)), base, DirNames(fullName[..nFull]), "")
        invariant Dirs(t') == DirsAfter(old(Dirs(t)), base, DirNames(fullName[..nFull]), "")
      {
        ghost var before, after := fullName[..nFull], fullName[..nFull + 1];
        assert after == before + [fullName[nFull]];
        ReadOne(before, fullName[nFull]);
        if fullName[nFull] == '\\' || fullName[nFull] == '/' {
          if nTemp > 0 {
            node, t' := node.UniqueAddChild(temp[..nTemp], true, t');
            DirAdded(old(Files(t)), old(Dirs(t)), base, DirNames(before), temp[..nTemp]);
            assert CanHaveChildren(node) by {
              DirectoryCan(node);
            }
          }
          nTemp := 0;
        } else {
          assert |Tail(after)| < MAX_PATH;
          temp[nTemp] := fullName[nFull];
          nTemp := nTemp + 1;
        }
        nFull := nFull + 1;
      }
      assert fullName[..nFull] == fullName;
      if nTemp > 0 {
        ghost var t1 := t';
        var file;
        file, t' := node.UniqueAddChild(temp[..nTemp], false, t');
        FileAdded(old(Files(t)), old(Dirs(t)), base, DirNames(fullName), Tail(fullName));
      }
      if GoodNames(t) {
        NamesStayGood(t, t', old(Files(t)), old(Dirs(t)), base, fullName);
      }
    }

    /** The path of the node, without the root's name; the root gives its own name. */
    method GetPathName(ghost t: Nodes) returns (r: string)
      requires Tree(t) && this in t
      ensures r == if parent == null then name else Joined(t[this])
    {
      hide Tree, NodeOk, Joined;
      var up := parent;
      r := name;
      IsThere(t, this);
      if up == null {
        return;
      }
      ParentPath(t, this);
      ghost var path, k := t[this], |t[this]| - 1;
      JoinedLast(path);
      while up.parent != null
        invariant up in t && 0 <= k < |path| && t[up] == path[..k] && r == Joined(path[k..])
        decreases k
      {
        IsThere(t, up);
        ParentPath(t, up);
        assert path[..k][k - 1] == up.name;
        JoinedMore(path, k, up.name);
        assert path[..k][..k - 1] == path[..k - 1];
        r := up.name + "\\" + r;
        up := up.parent;
        k := k - 1;
      }
      IsThere(t, up);
      assert path[k..] == path;
    }
  }

  // A tree is described by the path of each of its nodes; the root has the empty path.
  type Nodes = map<PckTreeNode, Path>

  ghost predicate NoChildNamed(n: PckTreeNode, name: string)
    reads n, n.childs
  {
    forall c :: c in n.childs ==> c.name != name
  }

  ghost predicate CanHaveChildren(n: PckTreeNode)
    reads n
  {
    n.isDirectory || n.parent == null
  }

  ghost predicate ChildOk(t: Nodes, n: PckTreeNode, c: PckTreeNode)
    requires n in t
    reads t.Keys
  {
    c in t && c.parent == n && t[c] == t[n] + [c.name]
  }

  ghost predicate NodeOk(t: Nodes, n: PckTreeNode)
    requires n in t
    reads t.Keys
  {
    && (forall c :: c in n.childs ==> ChildOk(t, n, c))
    && (forall i, j :: 0 <= i < j < |n.childs| ==> n.childs[i] != n.childs[j])
    && (n.parent == null <==> t[n] == [])
    && (n.parent != null ==> n.parent in t && n in n.parent.childs)
    && (n.childs != [] ==> CanHaveChildren(n))
  }

  /** Children know their parent, siblings have different names, files have no children,
      and every node but the root is in the list of its parent. */
  ghost predicate Tree(t: Nodes)
    reads t.Keys
  {
    && (forall n :: n in t ==> NodeOk(t, n))
    && (forall n, n' :: n in t && n' in t && t[n] == t[n'] ==> n == n')
  }

  /** The nodes whose path continues `p`. */
  ghost function Below(t: Nodes, p: Path): set<PckTreeNode> {
    set n | n in t && ProperPrefix(p, t[n])
  }

  ghost predicate Subtree(t': Nodes, t: Nodes) {
    t'.Keys <= t.Keys && forall n :: n in t' ==> t'[n] == t[n]
  }

  lemma ChildPaths(t: Nodes, p: PckTreeNode)
    requires Tree(t) && p in t
    ensures forall c :: c in p.childs ==> c in t && c.parent == p && t[c] == t[p] + [c.name]
  {
    assert NodeOk(t, p);
  }

  lemma NotBelowItself(t: Nodes, p: PckTreeNode)
    requires p in t
    ensures p !in Below(t, t[p])
  {
  }

  lemma BelowOf(t: Nodes, p: PckTreeNode, cs: seq<PckTreeNode>)
    requires p in t && forall c :: c in cs ==> c in t && |t[c]| == |t[p]| + 1 && t[c][..|t[p]|] == t[p]
    ensures forall c :: c in cs ==> c in Below(t, t[p])
  {
  }

  /** There is less below a child than below its parent, and no sibling. */
  lemma BelowChild(t: Nodes, t': Nodes, p: PckTreeNode, c: PckTreeNode)
    requires p in t' && c in t' && Subtree(t', t) && |t[c]| == |t[p]| + 1 && t[c][..|t[p]|] == t[p]
    ensures Below(t', t'[c]) < Below(t, t[p]) && p !in Below(t', t'[c])
    ensures forall n :: n in t && |t[n]| == |t[c]| ==> n !in Below(t', t'[c])
  {
    assert c in Below(t, t[p]) && c !in Below(t', t'[c]);
    forall n | n in Below(t', t'[c])
      ensures n in Below(t, t[p])
    {
      assert t[n][..|t[p]|] == t[n][..|t[c]|][..|t[p]|];
    }
  }

  lemma LastName(p: Path, a: string, q: Path, b: string)
    requires p + [a] == q + [b]
    ensures p == q && a == b
  {
    assert (p + [a])[|p|] == (q + [b])[|q|];
    assert p == (p + [a])[..|p|] && q == (q + [b])[..|q|];
  }

  /** Siblings have different names. */
  lemma SiblingNames(t: Nodes, n: PckTreeNode, i: nat, j: nat)
    requires Tree(t) && n in t && i < j < |n.childs|
    ensures n.childs[i].name != n.childs[j].name
  {
    assert NodeOk(t, n) && ChildOk(t, n, n.childs[i]) && ChildOk(t, n, n.childs[j]);
  }

  /** The node that a path of the tree ends in is a child of the node before it. */
  lemma ParentPath(t: Nodes, n: PckTreeNode)
    requires Tree(t) && n in t && n.parent != null
    ensures n.parent in t && n in n.parent.childs && t[n] == t[n.parent] + [n.name]
  {
    assert NodeOk(t, n);
    assert NodeOk(t, n.parent);
  }

  twostate lemma ChildAdded(t: Nodes, new p: PckTreeNode, new x: PckTreeNode)
    requires old(Tree(t)) && p in t && old(CanHaveChildren(p)) && x !in t
    requires forall n :: n in t ==> n.parent == old(n.parent) && n.isDirectory == old(n.isDirectory) && n.name == old(n.name)
    requires forall n :: n in t && n != p ==> n.childs == old(n.childs)
    requires p.childs == old(p.childs) + [x] && x.parent == p && x.childs == []
    requires forall c :: c in old(p.childs) ==> old(c.name) != x.name
    ensures Tree(t[x := t[p] + [x.name]])
  {
    hide ProperPrefix, NodeOk;
    var path := t[p] + [x.name];
    var t' := t[x := path];
    NewPath(t, p, x.name);
    forall n | n in t'
      ensures NodeOk(t', n)
    {
      if n == p {
        ParentOfNew(t, p, x);
      } else if n == x {
        NewNode(t, p, x);
      } else {
        OtherNode(t, p, x, n);
      }
    }
  }

  /** No node has the path of a child that is not there. */
  twostate lemma NewPath(t: Nodes, new p: PckTreeNode, new name: string)
    requires old(Tree(t)) && p in t && forall c :: c in old(p.childs) ==> old(c.name) != name
    ensures forall n :: n in t ==> t[n] != t[p] + [name]
  {
    forall n | n in t
      ensures t[n] != t[p] + [name]
    {
      assert old(NodeOk(t, n));
      if t[n] == t[p] + [name] {
        OldParentPath(t, n);
        LastName(t[old(n.parent)], old(n.name), t[p], name);
      }
    }
  }

  twostate lemma ParentOfNew(t: Nodes, new p: PckTreeNode, new x: PckTreeNode)
    requires old(Tree(t)) && p in t && old(CanHaveChildren(p)) && x !in t
    requires forall n :: n in t ==> n.parent == old(n.parent) && n.isDirectory == old(n.isDirectory) && n.name == old(n.name)
    requires forall n :: n in t && n != p ==> n.childs == old(n.childs)
    requires p.childs == old(p.childs) + [x] && x.parent == p
    requires forall n :: n in t ==> t[n] != t[p] + [x.name]
    ensures NodeOk(t[x := t[p] + [x.name]], p)
  {
    hide ChildOk;
    var t' := t[x := t[p] + [x.name]];
    assert old(NodeOk(t, p));
    forall c | c in old(p.childs)
      ensures c in t && ChildOk(t', p, c)
    {
      OldChild(t, p, c);
      SameChild(t', p, c);
    }
    SameChild(t', p, x);
  }

  twostate lemma OldChild(t: Nodes, new n: PckTreeNode, new c: PckTreeNode)
    requires old(Tree(t)) && n in t && c in old(n.childs)
    ensures c in t && old(c.parent) == n && t[c] == t[n] + [old(c.name)]
  {
    assert old(NodeOk(t, n)) && old(ChildOk(t, n, c));
  }

  lemma SameChild(t: Nodes, n: PckTreeNode, c: PckTreeNode)
    requires n in t && c in t && c.parent == n && t[c] == t[n] + [c.name]
    ensures ChildOk(t, n, c)
  {
  }

  lemma NewNode(t: Nodes, p: PckTreeNode, x: PckTreeNode)
    requires p in t && x !in t && x.parent == p && x.childs == [] && x in p.childs
    ensures NodeOk(t[x := t[p] + [x.name]], x)
  {
  }

  /** A node whose surroundings stay as they are. */
  twostate lemma NodeKept(t: Nodes, new t': Nodes, new n: PckTreeNode)
    requires n in t && old(NodeOk(t, n)) && n in t' && t'[n] == t[n]
    requires n.parent == old(n.parent) && n.childs == old(n.childs) && (CanHaveChildren(n) || n.childs == [])
    requires forall c :: c in n.childs ==> c in t && c in t' && t'[c] == t[c] && c.parent == old(c.parent) && c.name == old(c.name)
    requires n.parent != null ==> n.parent in t' && n in n.parent.childs
    ensures NodeOk(t', n)
  {
    forall c | c in n.childs
      ensures ChildOk(t', n, c)
    {
      assert old(ChildOk(t, n, c));
    }
  }

  twostate lemma OtherNode(t: Nodes, new p: PckTreeNode, new x: PckTreeNode, new n: PckTreeNode)
    requires old(Tree(t)) && p in t && x !in t && n in t && n != p
    requires forall y :: y in t ==> y.parent == old(y.parent) && y.isDirectory == old(y.isDirectory) && y.name == old(y.name)
    requires forall y :: y in t && y != p ==> y.childs == old(y.childs)
    requires p.childs == old(p.childs) + [x]
    ensures NodeOk(t[x := t[p] + [x.name]], n)
  {
    hide NodeOk;
    OldNode(t, n);
    NodeKept(t, t[x := t[p] + [x.name]], n);
  }

  twostate lemma OldNode(t: Nodes, new n: PckTreeNode)
    requires old(Tree(t)) && n in t
    ensures old(NodeOk(t, n)) && (forall c :: c in old(n.childs) ==> c in t)
    ensures old(n.parent) != null ==> old(n.parent) in t && n in old(n.parent.childs)
    ensures old(n.childs) != [] ==> old(CanHaveChildren(n))
  {
    assert old(NodeOk(t, n));
    forall c | c in old(n.childs)
      ensures c in t
    {
      assert old(ChildOk(t, n, c));
    }
  }

  twostate lemma OldParentPath(t: Nodes, new n: PckTreeNode)
    requires old(Tree(t)) && n in t && old(n.parent) != null
    ensures old(n.parent) in t && n in old(n.parent.childs) && t[n] == t[old(n.parent)] + [old(n.name)]
  {
    assert old(NodeOk(t, n));
    assert old(NodeOk(t, n.parent));
  }

  twostate lemma ChildsFreed(t: Nodes, new t': Nodes, new p: PckTreeNode)
    requires old(Tree(t)) && p in t && p in t' && t' == t - Below(t, t[p])
    requires forall n :: n in t ==> n.parent == old(n.parent) && n.isDirectory == old(n.isDirectory) && n.name == old(n.name)
    requires forall n :: n in t' && n != p ==> n.childs == old(n.childs)
    requires p.childs == []
    ensures Tree(t')
  {
    hide NodeOk, Below;
    BelowAre(t, t[p]);
    forall n | n in t'
      ensures NodeOk(t', n)
    {
      OldNode(t, n);
      if n.parent != null {
        OldParentPath(t, n);
        StaysAbove(t, p, n, n.parent);
      }
      if n == p {
        Childless(t, t', n);
      } else {
        forall c | c in n.childs
          ensures c in t'
        {
          ChildStays(t, p, n, c);
        }
        NodeKept(t, t', n);
      }
    }
  }

  lemma BelowAre(t: Nodes, p: Path)
    ensures forall n :: n in Below(t, p) <==> n in t && ProperPrefix(p, t[n])
  {
  }

  twostate lemma Childless(t: Nodes, new t': Nodes, new n: PckTreeNode)
    requires n in t && old(NodeOk(t, n)) && n in t' && t'[n] == t[n]
    requires n.parent == old(n.parent) && n.childs == []
    requires n.parent != null ==> n.parent in t' && n in n.parent.childs
    ensures NodeOk(t', n)
  {
  }

  lemma PrefixOfChild(p: Path, q: Path, x: string)
    ensures ProperPrefix(p, q + [x]) <==> p == q || ProperPrefix(p, q)
  {
    if |p| <= |q| {
      assert (q + [x])[..|p|] == q[..|p|];
    }
  }

  lemma StaysAbove(t: Nodes, p: PckTreeNode, n: PckTreeNode, q: PckTreeNode)
    requires p in t && n in t && q in t && t[n] == t[q] + [n.name] && n !in Below(t, t[p])
    ensures q !in Below(t, t[p]) && t[q] != t[p]
  {
    PrefixOfChild(t[p], t[q], n.name);
  }

  twostate lemma ChildStays(t: Nodes, new p: PckTreeNode, new n: PckTreeNode, new c: PckTreeNode)
    requires old(Tree(t)) && p in t && n in t && n != p && n !in Below(t, t[p]) && c in old(n.childs)
    ensures c in t && c !in Below(t, t[p])
  {
    assert old(NodeOk(t, n)) && old(ChildOk(t, n, c));
    PrefixOfChild(t[p], t[n], old(c.name));
  }

  // ------------------------------------------------------------- the set of paths

  ghost function Files(t: Nodes): set<Path>
    reads t.Keys
  {
    set n | n in t && n.parent != null && !n.isDirectory :: t[n]
  }

  ghost function Dirs(t: Nodes): set<Path>
    reads t.Keys
  {
    set n | n in t && n.parent != null && n.isDirectory :: t[n]
  }

  /** The files after `p` became one: those below it are gone. */
  ghost function FilesWith(files: set<Path>, p: Path): set<Path> {
    (set q | q in files && !ProperPrefix(p, q)) + {p}
  }

  ghost function DirsWithout(dirs: set<Path>, p: Path): set<Path> {
    set q | q in dirs && q != p && !ProperPrefix(p, q)
  }

  lemma {:induction false} Ancestor(t: Nodes, n: PckTreeNode, k: nat) returns (a: PckTreeNode)
    requires Tree(t) && n in t && k <= |t[n]|
    ensures a in t && t[a] == t[n][..k]
    decreases |t[n]|
  {
    assert NodeOk(t, n);
    if k == |t[n]| {
      assert t[n][..k] == t[n];
      a := n;
    } else {
      ParentPath(t, n);
      a := Ancestor(t, n.parent, k);
      assert t[n][..k] == t[n.parent][..k];
    }
  }

  lemma BelowHasChild(t: Nodes, p: PckTreeNode, n: PckTreeNode)
    requires Tree(t) && p in t && n in t && ProperPrefix(t[p], t[n])
    ensures p.childs != []
  {
    var a := Ancestor(t, n, |t[p]| + 1);
    assert NodeOk(t, a);
    ParentPath(t, a);
    assert t[a.parent] == t[a][..|t[p]|] == t[p];
  }

  /** Below a node without children there is nothing. */
  lemma NothingBelow(t: Nodes, p: PckTreeNode)
    requires Tree(t) && p in t && p.childs == []
    ensures forall n :: n in t ==> !ProperPrefix(t[p], t[n])
  {
    forall n | n in t
      ensures !ProperPrefix(t[p], t[n])
    {
      if ProperPrefix(t[p], t[n]) {
        BelowHasChild(t, p, n);
      }
    }
  }

  lemma NothingThere(t: Nodes, p: PckTreeNode, x: string)
    requires Tree(t) && p in t && forall c :: c in p.childs ==> c.name != x
    ensures forall n :: n in t ==> t[n] != t[p] + [x] && !ProperPrefix(t[p] + [x], t[n])
  {
    var path := t[p] + [x];
    forall n | n in t
      ensures t[n] != path && !ProperPrefix(path, t[n])
    {
      if t[n] == path || ProperPrefix(path, t[n]) {
        var a := Ancestor(t, n, |path|);
        assert t[n][..|path|] == path;
        assert NodeOk(t, a);
        ParentPath(t, a);
        LastName(t[a.parent], a.name, t[p], x);
        assert false;
      }
    }
  }

  lemma IsThere(t: Nodes, n: PckTreeNode)
    requires Tree(t) && n in t
    ensures n.parent == null <==> t[n] == []
    ensures n.childs != [] ==> CanHaveChildren(n)
  {
    assert NodeOk(t, n);
  }

  lemma KindKept(t: Nodes, x: PckTreeNode)
    requires Tree(t) && x in t && x.parent != null
    ensures Files(t) == if x.isDirectory then Files(t) - {t[x]} else FilesWith(Files(t), t[x])
    ensures Dirs(t) == if x.isDirectory then Dirs(t) + {t[x]} else DirsWithout(Dirs(t), t[x])
  {
    assert NodeOk(t, x);
    if !x.isDirectory {
      NothingBelow(t, x);
    }
  }

  twostate lemma KindChanged(t: Nodes, new t': Nodes, new x: PckTreeNode)
    requires old(Tree(t)) && x in t && old(x.parent) != null && x.isDirectory != old(x.isDirectory)
    requires t' == if x.isDirectory then t else t - Below(t, t[x])
    requires forall n :: n in t ==> n.parent == old(n.parent) && n.name == old(n.name)
    requires forall n :: n in t && n != x ==> n.isDirectory == old(n.isDirectory)
    requires Tree(t')
    ensures Files(t') == if x.isDirectory then old(Files(t)) - {t[x]} else FilesWith(old(Files(t)), t[x])
    ensures Dirs(t') == if x.isDirectory then old(Dirs(t)) + {t[x]} else DirsWithout(old(Dirs(t)), t[x])
  {
    hide NodeOk;
    OldPathsDiffer(t, x);
    if !x.isDirectory {
      FreedFiles(t, t', x);
      FreedDirs(t, t', x);
    }
  }

  twostate lemma OldPathsDiffer(t: Nodes, new x: PckTreeNode)
    requires old(Tree(t)) && x in t
    ensures forall n :: n in t && t[n] == t[x] ==> n == x
  {
  }

  twostate lemma FreedFiles(t: Nodes, new t': Nodes, new x: PckTreeNode)
    requires x in t && forall n :: n in t && t[n] == t[x] ==> n == x
    requires old(x.parent) != null && !x.isDirectory && old(x.isDirectory) && t' == t - Below(t, t[x])
    requires forall n :: n in t ==> n.parent == old(n.parent)
    requires forall n :: n in t && n != x ==> n.isDirectory == old(n.isDirectory)
    ensures Files(t') == FilesWith(old(Files(t)), t[x])
  {
    NotBelowItself(t, x);
    forall q
      ensures q in Files(t') <==> q in FilesWith(old(Files(t)), t[x])
    {
      if q in old(Files(t)) && !ProperPrefix(t[x], q) {
        var n :| n in t && old(n.parent != null && !n.isDirectory) && t[n] == q;
        assert n in t';
      }
    }
  }

  twostate lemma FreedDirs(t: Nodes, new t': Nodes, new x: PckTreeNode)
    requires x in t && forall n :: n in t && t[n] == t[x] ==> n == x
    requires old(x.parent) != null && !x.isDirectory && old(x.isDirectory) && t' == t - Below(t, t[x])
    requires forall n :: n in t ==> n.parent == old(n.parent)
    requires forall n :: n in t && n != x ==> n.isDirectory == old(n.isDirectory)
    ensures Dirs(t') == DirsWithout(old(Dirs(t)), t[x])
  {
    forall q
      ensures q in Dirs(t') <==> q in DirsWithout(old(Dirs(t)), t[x])
    {
      if q in old(Dirs(t)) && !ProperPrefix(t[x], q) && q != t[x] {
        var n :| n in t && old(n.parent != null && n.isDirectory) && t[n] == q;
        assert n in t';
      }
    }
  }

  twostate lemma NodeAdded(t: Nodes, new x: PckTreeNode, new p: Path)
    requires x !in t && x.parent != null
    requires forall n :: n in t ==> n.parent == old(n.parent) && n.isDirectory == old(n.isDirectory)
    requires forall n :: n in t ==> t[n] != p && !ProperPrefix(p, t[n])
    ensures Files(t[x := p]) == if x.isDirectory then old(Files(t)) - {p} else FilesWith(old(Files(t)), p)
    ensures Dirs(t[x := p]) == if x.isDirectory then old(Dirs(t)) + {p} else DirsWithout(old(Dirs(t)), p)
  {
    hide ProperPrefix;
    var t' := t[x := p];
    forall q
      ensures q in Files(t') <==> q in old(Files(t)) || (q == p && !x.isDirectory)
      ensures q in Dirs(t') <==> q in old(Dirs(t)) || (q == p && x.isDirectory)
    {
      if n :| n in t && old(n.parent != null && n.isDirectory) && t[n] == q {
        assert t'[n] == q;
      }
      if n :| n in t && old(n.parent != null && !n.isDirectory) && t[n] == q {
        assert t'[n] == q;
      }
      assert t'[x] == p;
    }
  }

  twostate lemma DirectoryTree(t: Nodes, new x: PckTreeNode)
    requires old(Tree(t)) && x in t
    requires forall n :: n in t ==> n.parent == old(n.parent) && n.name == old(n.name) && n.childs == old(n.childs)
    requires forall n :: n in t && n != x ==> n.isDirectory == old(n.isDirectory)
    requires x.isDirectory || x.childs == []
    ensures Tree(t)
  {
    forall n | n in t
      ensures NodeOk(t, n)
    {
      assert old(NodeOk(t, n));
    }
  }

  // --------------------------------------------------------------- written paths

  const MAX_PATH: nat := 260

  predicate IsSeparator(c: char) {
    c == '\\' || c == '/'
  }

  /** What follows the last separator. */
  function Tail(s: string): string {
    if s == "" || IsSeparator(s[|s| - 1]) then "" else Tail(s[..|s| - 1]) + [s[|s| - 1]]
  }

  /** The parts that a separator ends, without the empty ones. */
  function DirNames(s: string): Path {
    if s == "" then []
    else
      var before := s[..|s| - 1];
      if IsSeparator(s[|s| - 1]) && Tail(before) != "" then DirNames(before) + [Tail(before)] else DirNames(before)
  }

  /** The names of a path with separators between them. */
  function Joined(p: Path): string {
    if p == [] then ""
    else if |p| == 1 then p[0]
    else p[0] + "\\" + Joined(p[1..])
  }

  lemma NothingRead()
    ensures ""[..0] == "" && Tail("") == "" && DirNames("") == []
  {
  }

  lemma ReadOne(before: string, c: char)
    ensures Tail(before + [c]) == if IsSeparator(c) then "" else Tail(before) + [c]
    ensures DirNames(before + [c]) ==
      if IsSeparator(c) && Tail(before) != "" then DirNames(before) + [Tail(before)] else DirNames(before)
  {
    assert (before + [c])[..|before|] == before;
  }

  lemma JoinedLast(p: Path)
    requires p != []
    ensures Joined(p[|p| - 1..]) == p[|p| - 1]
  {
  }

  lemma JoinedMore(p: Path, k: nat, name: string)
    requires 0 < k < |p| && p[k - 1] == name
    ensures Joined(p[k - 1..]) == name + "\\" + Joined(p[k..])
  {
    assert p[k - 1..][1..] == p[k..];
  }

  ghost predicate GoodName(x: string) {
    x != "" && forall i :: 0 <= i < |x| ==> x[i] != '\\' && x[i] != '/'
  }

  ghost predicate GoodPath(p: Path) {
    forall i :: 0 <= i < |p| ==> GoodName(p[i])
  }

  /** No part of the path of a node is empty or has a separator in it. */
  ghost predicate GoodNames(t: Nodes) {
    forall n :: n in t ==> GoodPath(t[n])
  }

  ghost predicate GoodPaths(ps: set<Path>) {
    forall p :: p in ps ==> GoodPath(p)
  }

  lemma {:induction false} ReadName(before: string, x: string)
    requires forall i :: 0 <= i < |x| ==> !IsSeparator(x[i])
    ensures Tail(before + x) == Tail(before) + x && DirNames(before + x) == DirNames(before)
    decreases |x|
  {
    if x == "" {
      assert before + x == before;
    } else {
      var n := |x| - 1;
      ReadName(before, x[..n]);
      assert before + x == before + x[..n] + [x[n]];
      ReadOne(before + x[..n], x[n]);
    }
  }

  /** Backslashes and slashes, in any number and mixed. */
  predicate Separators(run: string) {
    forall i :: 0 <= i < |run| ==> run[i] == '\\' || run[i] == '/'
  }

  /** All names read so far. */
  function NamesIn(s: string): Path {
    DirNames(s) + if Tail(s) == "" then [] else [Tail(s)]
  }

  lemma {:induction false} ReadRun(before: string, run: string)
    requires Separators(run) && run != ""
    ensures Tail(before + run) == "" && DirNames(before + run) == NamesIn(before)
    decreases |run|
  {
    hide DirNames, Tail;
    var n := |run| - 1;
    assert before + run == before + run[..n] + [run[n]];
    ReadOne(before + run[..n], run[n]);
    if n > 0 {
      ReadRun(before, run[..n]);
    } else {
      assert before + run[..n] == before;
    }
  }

  lemma ReadPart(before: string, run: string, x: string)
    requires Separators(run) && GoodName(x) && (run == "" ==> Tail(before) == "")
    ensures Tail(before + run + x) == x && DirNames(before + run + x) == NamesIn(before)
  {
    hide DirNames, Tail;
    if run == "" {
      assert before + run == before;
    } else {
      ReadRun(before, run);
    }
    ReadName(before + run, x);
  }

  /** A path with separators written before its names; none are needed before the first. */
  ghost predicate GoodRuns(p: Path, runs: seq<string>) {
    |runs| == |p| && forall i :: 0 <= i < |runs| ==> Separators(runs[i]) && (i > 0 ==> runs[i] != "")
  }

  function Written(p: Path, runs: seq<string>): string
    requires |runs| == |p|
  {
    if p == [] then "" else runs[0] + p[0] + Written(p[1..], runs[1..])
  }

  lemma WrittenFirst(before: string, p: Path, runs: seq<string>)
    requires p != [] && |runs| == |p|
    ensures before + Written(p, runs) == before + runs[0] + p[0] + Written(p[1..], runs[1..])
  {
  }

  lemma NothingWritten(before: string)
    ensures before + Written([], []) == before
  {
  }

  lemma NameRead(before: string, run: string, x: string)
    requires Separators(run) && GoodName(x) && (run == "" ==> Tail(before) == "")
    ensures NamesIn(before + run + x) == NamesIn(before) + [x] && Tail(before + run + x) == x
    ensures DirNames(before + run + x) == NamesIn(before)
  {
    hide DirNames, Tail, Separators, GoodName;
    ReadPart(before, run, x);
    NotEmpty(x);
  }

  lemma {:induction false} ReadWritten(before: string, p: Path, runs: seq<string>)
    requires p != [] && GoodPath(p) && GoodRuns(p, runs) && (runs[0] == "" ==> Tail(before) == "")
    ensures DirNames(before + Written(p, runs)) == NamesIn(before) + p[..|p| - 1]
    ensures Tail(before + Written(p, runs)) == p[|p| - 1]
    decreases |p|
  {
    hide DirNames, Tail, GoodName, Separators, Written, NamesIn;
    var next := before + runs[0] + p[0];
    NameRead(before, runs[0], p[0]);
    WrittenFirst(before, p, runs);
    if |p| > 1 {
      ReadWritten(next, p[1..], runs[1..]);
      assert p[..|p| - 1] == [p[0]] + p[1..][..|p| - 2];
    } else {
      assert p[1..] == [] && runs[1..] == [];
      NothingWritten(next);
    }
  }

  lemma NotEmpty(x: string)
    requires GoodName(x)
    ensures x != ""
  {
  }

  /** However many backslashes and slashes stand between the names of a path, it is read as
      that path; with separators behind it, all its names are those of directories. */
  lemma SeparatorsRead(p: Path, runs: seq<string>, end: string)
    requires p != [] && GoodPath(p) && GoodRuns(p, runs) && Separators(end)
    ensures DirNames(Written(p, runs)) == p[..|p| - 1] && Tail(Written(p, runs)) == p[|p| - 1]
    ensures end != "" ==> DirNames(Written(p, runs) + end) == p && Tail(Written(p, runs) + end) == ""
  {
    hide DirNames, Tail;
    NothingRead();
    ReadWritten("", p, runs);
    assert "" + Written(p, runs) == Written(p, runs);
    assert GoodName(p[|p| - 1]);
    if end != "" {
      ReadRun(Written(p, runs), end);
      assert p == p[..|p| - 1] + [p[|p| - 1]];
    }
  }

  // --------------------------------------------------------- what one path changes

  /** `q` leads from `base` towards `base + ds`. */
  ghost predicate OnWay(base: Path, ds: Path, q: Path) {
    |base| < |q| <= |base| + |ds| && q == (base + ds)[..|q|]
  }

  ghost function Way(base: Path, ds: Path): set<Path> {
    set k | |base| < k <= |base| + |ds| :: (base + ds)[..k]
  }

  ghost function FilesAfter(files: set<Path>, base: Path, ds: Path, file: string): set<Path> {
    var kept := set q | q in files && !OnWay(base, ds, q);
    if file == "" then kept else FilesWith(kept, base + ds + [file])
  }

  ghost function DirsAfter(dirs: set<Path>, base: Path, ds: Path, file: string): set<Path> {
    var all := dirs + Way(base, ds);
    if file == "" then all else DirsWithout(all, base + ds + [file])
  }

  lemma NoWay(files: set<Path>, dirs: set<Path>, base: Path)
    ensures FilesAfter(files, base, [], "") == files && DirsAfter(dirs, base, [], "") == dirs
    ensures base + [] == base
  {
  }

  lemma DirAdded(files: set<Path>, dirs: set<Path>, base: Path, ds: Path, x: string)
    ensures var p := base + ds + [x];
      && FilesAfter(files, base, ds, "") - {p} == FilesAfter(files, base, ds + [x], "")
      && DirsAfter(dirs, base, ds, "") + {p} == DirsAfter(dirs, base, ds + [x], "")
      && p == base + (ds + [x])
  {
    var p, way := base + ds + [x], base + (ds + [x]);
    assert p == way;
    forall q
      ensures OnWay(base, ds + [x], q) <==> OnWay(base, ds, q) || q == p
    {
      if |q| <= |base| + |ds| {
        assert way[..|q|] == (base + ds)[..|q|];
      }
    }
    forall q
      ensures q in Way(base, ds + [x]) <==> q in Way(base, ds) || q == p
    {
      InWay(base, ds, q);
      InWay(base, ds + [x], q);
    }
  }

  lemma InWay(base: Path, ds: Path, q: Path)
    ensures q in Way(base, ds) <==> OnWay(base, ds, q)
  {
  }

  lemma FileAdded(files: set<Path>, dirs: set<Path>, base: Path, ds: Path, file: string)
    requires file != ""
    ensures FilesWith(FilesAfter(files, base, ds, ""), base + ds + [file]) == FilesAfter(files, base, ds, file)
    ensures DirsWithout(DirsAfter(dirs, base, ds, ""), base + ds + [file]) == DirsAfter(dirs, base, ds, file)
  {
  }

  lemma DirectoryCan(n: PckTreeNode)
    requires n.isDirectory
    ensures CanHaveChildren(n)
  {
  }

  ghost predicate Prefix(p: Path, q: Path) {
    |p| <= |q| && q[..|p|] == p
  }

  lemma RootIsNoFile(t: Nodes)
    requires Tree(t)
    ensures [] !in Files(t) && [] !in Dirs(t)
  {
    forall n | n in t && n.parent != null
      ensures t[n] != []
    {
      assert NodeOk(t, n);
    }
  }

  /** Adding a file at the root: the files that were parts of its path and those that were
      below it are gone, it is there, and nothing else changes. */
  lemma FileAddedAtRoot(files: set<Path>, dirs: set<Path>, ds: Path, file: string)
    requires file != "" && [] !in files
    ensures var p := ds + [file];
      && FilesAfter(files, [], ds, file) == (set q | q in files && !ProperPrefix(q, p) && !ProperPrefix(p, q)) + {p}
      && DirsAfter(dirs, [], ds, file) ==
           (set q | q in dirs && q != p && !ProperPrefix(p, q)) + (set k | 0 < k < |p| :: p[..k])
  {
    var p := ds + [file];
    assert [] + ds == ds && [] + ds + [file] == p;
    assert forall q :: q != [] ==> (OnWay([], ds, q) <==> ProperPrefix(q, p)) by {
      assert forall k :: 0 <= k <= |ds| ==> p[..k] == ds[..k];
    }
    forall q
      ensures q in DirsAfter(dirs, [], ds, file) <==>
        q in (set q | q in dirs && q != p && !ProperPrefix(p, q)) + (set k | 0 < k < |p| :: p[..k])
    {
      InWay([], ds, q);
      assert forall k :: 0 <= k <= |ds| ==> p[..k] == ds[..k];
    }
  }

  /** A path that ends with a separator adds directories only. */
  lemma DirsAddedAtRoot(files: set<Path>, dirs: set<Path>, ds: Path)
    requires [] !in files
    ensures FilesAfter(files, [], ds, "") == set q | q in files && !Prefix(q, ds)
    ensures DirsAfter(dirs, [], ds, "") == dirs + set k | 0 < k <= |ds| :: ds[..k]
  {
    assert [] + ds == ds;
  }

  // ----------------------------------------------------------------- names of nodes

  function Backslashes(n: nat): (runs: seq<string>)
    ensures |runs| == n && forall i :: 0 <= i < n ==> runs[i] == "\\"
  {
    if n == 0 then [] else ["\\"] + Backslashes(n - 1)
  }

  lemma BackslashesRest(n: nat)
    ensures n > 0 ==> Backslashes(n) == ["\\"] + Backslashes(n - 1)
  {
  }

  lemma JoinedFirst(p: Path)
    requires p != []
    ensures Joined(p) == p[0] + if |p| == 1 then "" else "\\" + Joined(p[1..])
  {
  }

  lemma {:induction false} JoinedAfter(p: Path)
    requires p != []
    ensures "\\" + Joined(p) == Written(p, Backslashes(|p|))
    decreases |p|
  {
    hide Joined, Backslashes;
    JoinedFirst(p);
    BackslashesRest(|p|);
    if |p| > 1 {
      JoinedAfter(p[1..]);
    }
  }

  lemma WrittenPlain(p: Path, runs: seq<string>)
    requires p != [] && |runs| == |p| - 1
    ensures Written(p, [""] + runs) == p[0] + Written(p[1..], runs)
  {
    assert ([""] + runs)[1..] == runs;
  }

  lemma NoneWritten(p: Path, runs: seq<string>)
    requires p == [] && |runs| == 0
    ensures Written(p, runs) == ""
  {
  }

  /** A path is given with one backslash between its names. */
  lemma JoinedIs(p: Path)
    requires p != []
    ensures Joined(p) == Written(p, [""] + Backslashes(|p| - 1))
  {
    hide Joined, Backslashes, Written;
    JoinedFirst(p);
    WrittenPlain(p, Backslashes(|p| - 1));
    if |p| > 1 {
      JoinedAfter(p[1..]);
    } else {
      NoneWritten(p[1..], Backslashes(|p| - 1));
    }
  }

  /** The written form of a path of good names is read as that path. */
  lemma JoinedRoundTrip(p: Path)
    requires p != [] && GoodPath(p)
    ensures DirNames(Joined(p)) + [Tail(Joined(p))] == p
  {
    hide DirNames, Tail, Joined, GoodPath;
    JoinedIs(p);
    SeparatorsRead(p, [""] + Backslashes(|p| - 1), "");
  }

  lemma {:induction false} ReadGood(s: string)
    ensures GoodPath(DirNames(s)) && (Tail(s) != "" ==> GoodName(Tail(s)))
    decreases |s|
  {
    if s != "" {
      ReadGood(s[..|s| - 1]);
    }
  }

  /** The paths of all nodes but the root are those of the files and directories. */
  lemma NodePaths(t: Nodes)
    requires Tree(t)
    ensures GoodNames(t) <==> GoodPaths(Files(t)) && GoodPaths(Dirs(t))
  {
    forall n | n in t
      ensures n.parent == null <==> t[n] == []
      ensures n.parent != null ==> t[n] in Files(t) || t[n] in Dirs(t)
    {
      IsThere(t, n);
    }
  }

  lemma GoodNode(t: Nodes, n: PckTreeNode)
    requires GoodNames(t) && n in t
    ensures GoodPath(t[n])
  {
  }

  lemma AfterGood(files: set<Path>, dirs: set<Path>, base: Path, ds: Path, file: string)
    requires GoodPaths(files) && GoodPaths(dirs) && GoodPath(base) && GoodPath(ds) && (file != "" ==> GoodName(file))
    ensures GoodPaths(FilesAfter(files, base, ds, file)) && GoodPaths(DirsAfter(dirs, base, ds, file))
  {
    hide GoodName;
  }

  lemma NamesStayGood(t: Nodes, t': Nodes, files: set<Path>, dirs: set<Path>, base: Path, fullName: string)
    requires Tree(t') && GoodPaths(files) && GoodPaths(dirs) && GoodPath(base)
    requires Files(t') == FilesAfter(files, base, DirNames(fullName), Tail(fullName))
    requires Dirs(t') == DirsAfter(dirs, base, DirNames(fullName), Tail(fullName))
    ensures GoodNames(t')
  {
    hide Tree, Files, Dirs, FilesAfter, DirsAfter, GoodPaths, GoodPath, GoodNames, GoodName, Tail, DirNames;
    ReadGood(fullName);
    AfterGood(files, dirs, base, DirNames(fullName), Tail(fullName));
    NodePaths(t');
  }

  /** A new root has a tree with good names; AddFullName keeps it so. */
  lemma NewRoot(root: PckTreeNode)
    requires root.parent == null && root.childs == []
    ensures Tree(map[root := []]) && GoodNames(map[root := []])
  {
  }

  /** The name that GetPathName gives to a node is read as the path of that node. */
  lemma PathNameRoundTrip(t: Nodes, n: PckTreeNode)
    requires Tree(t) && GoodNames(t) && n in t && n.parent != null
    ensures DirNames(Joined(t[n])) + [Tail(Joined(t[n]))] == t[n]
  {
    hide DirNames, Tail, Joined;
    IsThere(t, n);
    JoinedRoundTrip(t[n]);
  }

  /** Adding the name of a file again changes nothing. */
  lemma FileNameKept(t: Nodes, n: PckTreeNode)
    requires Tree(t) && GoodNames(t) && n in t && n.parent != null && !n.isDirectory
    ensures var name := Joined(t[n]);
      && FilesAfter(Files(t), [], DirNames(name), Tail(name)) == Files(t)
      && DirsAfter(Dirs(t), [], DirNames(name), Tail(name)) == Dirs(t)
  {
    hide DirNames, Tail, Joined, FilesAfter, DirsAfter, GoodNames, ProperPrefix, Tree, Files, Dirs;
    var p, ds, file := t[n], DirNames(Joined(t[n])), Tail(Joined(t[n]));
    PathNameRoundTrip(t, n);
    RootIsNoFile(t);
    LastIsGood(t, n, ds, file);
    FileAddedAtRoot(Files(t), Dirs(t), ds, file);
    NoneBelowFile(t, n);
    forall k | 0 < k < |p|
      ensures p[..k] in Dirs(t)
    {
      AboveIsDirectory(t, n, k);
    }
    forall q | ProperPrefix(q, p) && q != []
      ensures q !in Files(t)
    {
      PrefixIs(q, p);
      AboveIsDirectory(t, n, |q|);
    }
    SameFiles(Files(t), p);
    SameDirs(Dirs(t), p);
  }

  lemma PrefixIs(q: Path, p: Path)
    requires ProperPrefix(q, p)
    ensures |q| < |p| && q == p[..|q|]
  {
  }

  lemma SameFiles(files: set<Path>, p: Path)
    requires p in files && [] !in files && forall q :: q in files ==> !ProperPrefix(p, q)
    requires forall q :: ProperPrefix(q, p) && q != [] ==> q !in files
    ensures (set q | q in files && !ProperPrefix(q, p) && !ProperPrefix(p, q)) + {p} == files
  {
    hide ProperPrefix;
  }

  lemma SameDirs(dirs: set<Path>, p: Path)
    requires p !in dirs && forall q :: q in dirs ==> !ProperPrefix(p, q)
    requires forall k :: 0 < k < |p| ==> p[..k] in dirs
    ensures (set q | q in dirs && q != p && !ProperPrefix(p, q)) + (set k | 0 < k < |p| :: p[..k]) == dirs
  {
  }

  lemma LastIsGood(t: Nodes, n: PckTreeNode, ds: Path, file: string)
    requires GoodNames(t) && n in t && ds + [file] == t[n]
    ensures file != ""
  {
    assert GoodPath(t[n]) && t[n][|ds|] == file;
  }

  lemma NoneBelowFile(t: Nodes, n: PckTreeNode)
    requires Tree(t) && n in t && n.parent != null && !n.isDirectory
    ensures forall q :: q in Files(t) + Dirs(t) ==> !ProperPrefix(t[n], q)
    ensures t[n] in Files(t) && t[n] !in Dirs(t)
  {
    IsThere(t, n);
    NothingBelow(t, n);
  }

  lemma AboveIsDirectory(t: Nodes, n: PckTreeNode, k: nat)
    requires Tree(t) && n in t && 0 < k < |t[n]|
    ensures t[n][..k] in Dirs(t) && t[n][..k] !in Files(t)
  {
    var a := Ancestor(t, n, k);
    BelowHasChild(t, a, n);
    IsThere(t, a);
  }
}
