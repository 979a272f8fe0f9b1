/**
 An abstract UFS image as seen through the offline helper, and the preorder
 inventory of a directory tree in it.
 */
module TreeInventory {
  import opened Bytes

  /** An absolute path as its components; the root is the empty sequence. */
  type Path = seq<string>

  datatype Node = Node(mode: nat, data: seq<byte>)

  type Files = map<Path, Node>

  /** The type bits say directory. */
  predicate IsDir(n: Node) { n.mode / 0x1000 % 0x10 == 4 }

  predicate DirAt(fs: Files, p: Path) { p in fs && IsDir(fs[p]) }

  function Parent(p: Path): Path
    requires |p| > 0
  {
    p[..|p| - 1]
  }

  /** Every node but the root lies in a directory. */
  ghost predicate WellFormed(fs: Files) {
    DirAt(fs, []) && forall p :: p in fs && |p| > 0 ==> DirAt(fs, Parent(p))
  }

  /** What the helper reports for a directory: its names, in some order. */
  type Browse = (Files, Path) -> seq<string>

  ghost predicate NoDup<T(!new)>(s: seq<T>) { forall i, j :: 0 <= i < j < |s| ==> s[i] != s[j] }

  ghost predicate Faithful(browse: Browse) {
    forall fs: Files, p: Path | DirAt(fs, p) :: NamesOf(fs, p, browse(fs, p))
  }

  ghost predicate NamesOf(fs: Files, p: Path, names: seq<string>) {
    NoDup(names) && forall n: string :: n in names <==> p + [n] in fs
  }

  /** The paths of a subtree: all of them, once each, root first and ancestors before descendants. */
  ghost predicate Preorder(fs: Files, root: Path, paths: seq<Path>) {
    && |paths| > 0 && paths[0] == root
    && NoDup(paths)
    && (forall q :: q in paths <==> q in fs && root <= q)
    && (forall i, j :: 0 <= i < |paths| && 0 <= j < |paths| && paths[i] < paths[j] ==> i < j)
  }

  function Below(fs: Files, p: Path): set<Path> { set q | q in fs && p <= q }

  lemma BelowChild(fs: Files, p: Path, n: string)
    requires p in fs
    ensures Below(fs, p + [n]) < Below(fs, p)
  {
    assert p in Below(fs, p);
    forall q | q in Below(fs, p + [n])
      ensures q in Below(fs, p)
    {
      assert p <= p + [n];
    }
  }

  /** In a well-formed image a path below p is p itself or lies below one of its children. */
  lemma {:induction false} BelowSomeChild(fs: Files, p: Path, q: Path)
    requires WellFormed(fs) && q in fs && p < q
    ensures p + [q[|p|]] in fs && p + [q[|p|]] <= q
    decreases |q|
  {
    if |q| == |p| + 1 {
      assert q == p + [q[|p|]];
    } else {
      assert DirAt(fs, Parent(q));
      assert p < Parent(q) && Parent(q)[|p|] == q[|p|];
      BelowSomeChild(fs, p, Parent(q));
    }
  }

  lemma ChildrenDisjoint(p: Path, m: string, n: string, q: Path)
    requires p + [m] <= q && p + [n] <= q
    ensures m == n
  {
    assert (p + [m])[|p|] == m && (p + [n])[|p|] == n;
    assert q[..|p| + 1] == p + [m];
    assert q[..|p| + 1] == p + [n];
  }

  // ---- tree_inventory ----

  /** The paths gathered after the first i children: complete, without repeats, in order. */
  ghost predicate Gathered(fs: Files, p: Path, names: seq<string>, i: nat, paths: seq<Path>)
    requires i <= |names|
  {
    && |paths| > 0 && paths[0] == p
    && NoDup(paths)
    && (forall q :: q in paths <==> q == p || (q in fs && exists k :: 0 <= k < i && p + [names[k]] <= q))
    && (forall a, b :: 0 <= a < |paths| && 0 <= b < |paths| && paths[a] < paths[b] ==> a < b)
  }

  lemma GatherChild(fs: Files, p: Path, names: seq<string>, i: nat, paths: seq<Path>, sub: seq<Path>)
    requires i < |names| && NoDup(names) && Gathered(fs, p, names, i, paths)
    requires Preorder(fs, p + [names[i]], sub)
    ensures Gathered(fs, p, names, i + 1, paths + sub)
  {
    var child := p + [names[i]];
    var all := paths + sub;
    forall x, y | x in paths && y in sub
      ensures x != y && !(y < x)
    {
      assert child <= y;
      if x != p {
        var k :| 0 <= k < i && p + [names[k]] <= x;
        if y <= x {
          ChildrenDisjoint(p, names[i], names[k], x);
        }
      }
    }
    forall a, b | 0 <= a < b < |all|
      ensures all[a] != all[b] && !(all[b] < all[a])
    {
      if a < |paths| <= b {
        assert all[a] in paths && all[b] in sub;
      }
    }
  }

  lemma GatheredAll(fs: Files, p: Path, names: seq<string>, paths: seq<Path>)
    requires WellFormed(fs) && p in fs && NamesOf(fs, p, names)
    requires Gathered(fs, p, names, |names|, paths)
    ensures Preorder(fs, p, paths)
  {
    forall q | q in fs && p < q
      ensures q in paths
    {
      BelowSomeChild(fs, p, q);
      var n := q[|p|];
      assert n in names;
      var k :| 0 <= k < |names| && names[k] == n;
    }
  }

  lemma BrowsedNames(fs: Files, p: Path, browse: Browse)
    requires Faithful(browse) && DirAt(fs, p)
    ensures NamesOf(fs, p, browse(fs, p))
  {
  }

  /** visit: the node itself, then each of a directory's names in turn. */
  method Visit(fs: Files, browse: Browse, path: Path) returns (paths: seq<Path>)
    requires WellFormed(fs) && Faithful(browse) && path in fs
    ensures Preorder(fs, path, paths)
    decreases Below(fs, path)
  {
    paths := [path];
    if !IsDir(fs[path]) {
      LeafAlone(fs, path);
      return;
    }
    hide Below, Faithful, Preorder;
    var names := browse(fs, path);
    BrowsedNames(fs, path, browse);
    var i := 0;
    while i < |names|
      invariant i <= |names| && Gathered(fs, path, names, i, paths)
    {
      BelowChild(fs, path, names[i]);
      assert names[i] in names;
      var sub := Visit(fs, browse, path + [names[i]]);
      GatherChild(fs, path, names, i, paths, sub);
      paths := paths + sub;
      i := i + 1;
    }
    GatheredAll(fs, path, names, paths);
  }

  /** A node that is not a directory has nothing below it. */
  lemma NothingBelow(fs: Files, p: Path, q: Path)
    requires WellFormed(fs) && p in fs && !IsDir(fs[p]) && q in fs && p <= q
    ensures q == p
  {
    if p < q {
      BelowSomeChild(fs, p, q);
    }
  }

  lemma LeafAlone(fs: Files, p: Path)
    requires WellFormed(fs) && p in fs && !IsDir(fs[p])
    ensures Preorder(fs, p, [p])
  {
    forall q | q in fs && p <= q
      ensures q == p
    {
      NothingBelow(fs, p, q);
    }
    hide WellFormed;
    assert forall q :: q in [p] <==> q == p;
  }

  method Inventory(fs: Files, browse: Browse, root: Path) returns (r: Option<seq<Path>>)
    requires WellFormed(fs) && Faithful(browse)
    ensures r.Some? <==> root in fs
    ensures r.Some? ==> Preorder(fs, root, r.value)
  {
    if root !in fs {
      return None;
    }
    var paths := Visit(fs, browse, root);
    return Some(paths);
  }
}
