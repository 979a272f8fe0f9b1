/**
 replace_tree and insert_tree: delete a subtree leaf first, copy another one in
 root first, verify, and only then publish the working image.
 */
module TreeCopy {
  import opened Bytes
  import opened TreeInventory

  const DIRECTORY_MODE := 0x4000
  const REGULAR_MODE := 0x8000

  function Permissions(mode: nat): nat { mode % 0x1000 }

  /** What a copied node becomes: a directory, or a regular file with the same data; permissions kept. */
  function Copied(n: Node): (r: Node)
    ensures IsDir(r) == IsDir(n) && Permissions(r.mode) == Permissions(n.mode)
  {
    if IsDir(n) then Node(DIRECTORY_MODE + Permissions(n.mode), [])
    else Node(REGULAR_MODE + Permissions(n.mode), n.data)
  }

  /** What a copy keeps: a regular file, or a directory without data of its own. Symbolic links are not kept. */
  predicate Preserved(n: Node) {
    n.mode / 0x1000 == 8 || (n.mode / 0x1000 == 4 && n.data == [])
  }

  lemma CopyIsExact(n: Node)
    ensures Copied(n) == n <==> Preserved(n)
  {
  }

  /** The working image, changed by one helper command at a time. A command that fails changes nothing. */
  class WorkingImage {
    var nodes: Files
    const newDirectoryMode: nat
    const newFileMode: nat

    constructor (fs: Files, newDirectory: nat, newFile: nat)
      requires newDirectory / 0x1000 == 4 && newFile / 0x1000 == 8
      ensures nodes == fs && newDirectoryMode == newDirectory && newFileMode == newFile && Modes()
    {
      nodes := fs;
      newDirectoryMode := newDirectory;
      newFileMode := newFile;
    }

    /** Whatever permissions the helper gives new nodes, their type bits are right. */
    predicate Modes() { newDirectoryMode / 0x1000 == 4 && newFileMode / 0x1000 == 8 }

    predicate CanCreate(p: Path)
      reads this
    {
      |p| > 0 && p !in nodes && DirAt(nodes, Parent(p))
    }

    method Mkdir(p: Path) returns (ok: bool)
      modifies this
      ensures ok <==> old(CanCreate(p))
      ensures nodes == if ok then old(nodes)[p := Node(newDirectoryMode, [])] else old(nodes)
    {
      ok := CanCreate(p);
      if ok {
        nodes := nodes[p := Node(newDirectoryMode, [])];
      }
    }

    method FromFile(p: Path, data: seq<byte>) returns (ok: bool)
      modifies this
      ensures ok <==> old(CanCreate(p))
      ensures nodes == if ok then old(nodes)[p := Node(newFileMode, data)] else old(nodes)
    {
      ok := CanCreate(p);
      if ok {
        nodes := nodes[p := Node(newFileMode, data)];
      }
    }

    method Chmod(p: Path, permissions: nat) returns (ok: bool)
      requires permissions < 0x1000
      modifies this
      ensures ok <==> p in old(nodes)
      ensures nodes == if !ok then old(nodes)
                       else var n := old(nodes)[p];
                            old(nodes)[p := Node(n.mode / 0x1000 * 0x1000 + permissions, n.data)]
    {
      ok := p in nodes;
      if ok {
        nodes := nodes[p := Node(nodes[p].mode / 0x1000 * 0x1000 + permissions, nodes[p].data)];
      }
    }

    /** rmdir removes empty directories only; unlink removes anything else. */
    method Remove(p: Path, asDirectory: bool) returns (ok: bool)
      modifies this
      ensures ok <==> |p| > 0 && p in old(nodes) && IsDir(old(nodes)[p]) == asDirectory
                      && (asDirectory ==> forall q :: q in old(nodes) ==> !(p < q))
      ensures nodes == if ok then old(nodes) - {p} else old(nodes)
    {
      ok := |p| > 0 && p in nodes && IsDir(nodes[p]) == asDirectory
            && (asDirectory ==> forall q | q in nodes :: !(p < q));
      if ok {
        nodes := nodes - {p};
      }
    }

    // ---- deleting a subtree ----

    /** Reverse preorder: every removal finds its precondition, and only the root of the subtree is left. */
    method DeleteBelow(ghost fs: Files, root: Path, paths: seq<Path>) returns (ok: bool)
      requires nodes == fs && Preorder(fs, root, paths)
      modifies this
      ensures ok
      ensures nodes == fs - (set q | q in fs && root < q)
    {
      var i := |paths|;
      assert paths[i..] == [];
      while i > 1
        invariant 1 <= i <= |paths|
        invariant nodes == fs - (set q | q in paths[i..])
      {
        i := i - 1;
        var p := paths[i];
        RemovalAllowed(fs, root, paths, i);
        assert p in nodes;
        var removed := Remove(p, IsDir(nodes[p]));
        if !removed {
          return false;
        }
        assert paths[i..] == [p] + paths[i + 1..];
      }
      BelowIsTail(fs, root, paths);
      return true;
    }

    // ---- copying a subtree ----

    /** Create one copied node and set its permissions. */
    method CopyNode(target: Path, n: Node) returns (ok: bool)
      requires Modes()
      modifies this
      ensures ok <==> old(CanCreate(target))
      ensures nodes == if ok then old(nodes)[target := Copied(n)] else old(nodes)
    {
      if IsDir(n) {
        ok := Mkdir(target);
      } else {
        ok := FromFile(target, n.data);
      }
      if ok {
        ok := Chmod(target, Permissions(n.mode));
      }
    }

    /** Preorder: every node finds its parent already there, and nothing is ever overwritten. */
    method CopyBelow(src: Files, sroot: Path, paths: seq<Path>, ghost base: Files, droot: Path) returns (ok: bool)
      requires Modes() && WellFormed(src) && Preorder(src, sroot, paths)
      requires nodes == base && DirAt(base, droot) && forall q :: q in base ==> !(droot < q)
      modifies this
      ensures ok
      ensures IsGraft(src, sroot, base, droot, nodes)
    {
      hide Preorder, WellFormed, Grafted, IsGraft;
      GraftStart(src, sroot, paths, base, droot);
      var i := 1;
      while i < |paths|
        invariant 1 <= i <= |paths|
        invariant Grafted(src, sroot, paths, i, base, droot, nodes)
      {
        GraftNext(src, sroot, paths, i, base, droot, nodes);
        var target := droot + paths[i][|sroot|..];
        ghost var before := nodes;
        ok := CopyNode(target, src[paths[i]]);
        if !ok {
          return;
        }
        GraftStep(src, sroot, paths, i, base, droot, before);
        i := i + 1;
      }
      GraftDone(src, sroot, paths, base, droot, nodes);
      ok := true;
    }
  }

  /** Where a source path lands. */
  function Target(sroot: Path, droot: Path, p: Path): Path
    requires sroot <= p
  {
    droot + p[|sroot|..]
  }

  /** And the source path a destination path came from. */
  function Origin(sroot: Path, droot: Path, q: Path): Path
    requires droot <= q
  {
    sroot + q[|droot|..]
  }

  /**
   r is base with the subtree of src below sroot, copied, in place below droot:
   same relative paths, and nothing else changed.
   */
  ghost predicate IsGraft(src: Files, sroot: Path, base: Files, droot: Path, r: Files) {
    && (forall q :: q in r <==> q in base || (droot < q && Origin(sroot, droot, q) in src))
    && (forall q :: q in base ==> q in r && r[q] == base[q])
    && (forall q :: q in r && q !in base ==> droot < q && Origin(sroot, droot, q) in src
                                             && r[q] == Copied(src[Origin(sroot, droot, q)]))
  }

  /** The same when only the paths before position i have been copied. */
  ghost predicate Grafted(src: Files, sroot: Path, paths: seq<Path>, i: nat, base: Files, droot: Path, r: Files)
    requires 1 <= i <= |paths|
  {
    && (forall q :: q in r <==> q in base || (droot < q && Origin(sroot, droot, q) in paths[1..i]))
    && (forall q :: q in base ==> q in r && r[q] == base[q])
    && (forall q :: q in r && q !in base ==> droot < q && Origin(sroot, droot, q) in src
                                             && r[q] == Copied(src[Origin(sroot, droot, q)]))
  }

  lemma RemovalAllowed(fs: Files, root: Path, paths: seq<Path>, i: nat)
    requires Preorder(fs, root, paths) && 0 < i < |paths|
    ensures |paths[i]| > 0 && paths[i] in fs && paths[i] !in paths[i + 1..]
    ensures forall q :: q in fs && paths[i] < q ==> q in paths[i + 1..]
  {
    var p := paths[i];
    assert p in paths && root <= p && p != paths[0];
    forall q | q in fs && p < q
      ensures q in paths[i + 1..]
    {
      assert root <= q;
      var j :| 0 <= j < |paths| && paths[j] == q;
      assert paths[i] < paths[j];
      assert paths[i + 1..][j - i - 1] == q;
    }
  }

  lemma BelowIsTail(fs: Files, root: Path, paths: seq<Path>)
    requires Preorder(fs, root, paths)
    ensures forall q :: q in paths[1..] <==> q in fs && root < q
  {
    forall q
      ensures q in paths[1..] <==> q in fs && root < q
    {
      if q in paths[1..] {
        var j :| 0 <= j < |paths[1..]| && paths[1..][j] == q;
        assert paths[j + 1] == q && q in paths;
        assert paths[0] != paths[j + 1];
      }
      if q in fs && root < q {
        var j :| 0 <= j < |paths| && paths[j] == q;
        assert paths[1..][j - 1] == q;
      }
    }
  }

  lemma TargetOrigin(sroot: Path, droot: Path, p: Path)
    requires sroot < p
    ensures droot < Target(sroot, droot, p) && Origin(sroot, droot, Target(sroot, droot, p)) == p
  {
  }

  lemma OriginTarget(sroot: Path, droot: Path, q: Path)
    requires droot < q
    ensures sroot < Origin(sroot, droot, q) && Target(sroot, droot, Origin(sroot, droot, q)) == q
  {
  }

  lemma AtPosition(src: Files, sroot: Path, paths: seq<Path>, i: nat)
    requires Preorder(src, sroot, paths) && 0 < i < |paths|
    ensures paths[i] in src && sroot < paths[i] && paths[i] !in paths[1..i]
    ensures forall p :: p in paths[1..i + 1] <==> p in paths[1..i] || p == paths[i]
  {
    assert paths[i] in paths && paths[i] != paths[0];
    assert paths[1..i + 1] == paths[1..i] + [paths[i]];
  }

  /** The parent of the next node to copy is the subtree's root or has been copied already. */
  lemma ParentEarlier(src: Files, sroot: Path, paths: seq<Path>, i: nat)
    requires WellFormed(src) && Preorder(src, sroot, paths) && 0 < i < |paths|
    ensures |paths[i]| > 0 && DirAt(src, Parent(paths[i])) && sroot <= Parent(paths[i])
    ensures Parent(paths[i]) == sroot || Parent(paths[i]) in paths[1..i]
  {
    AtPosition(src, sroot, paths, i);
    var p := Parent(paths[i]);
    assert DirAt(src, p);
    assert p in paths;
    var k :| 0 <= k < |paths| && paths[k] == p;
    assert paths[k] < paths[i];
    if k > 0 {
      assert paths[1..i][k - 1] == p;
    }
  }

  lemma GraftNext(src: Files, sroot: Path, paths: seq<Path>, i: nat, base: Files, droot: Path, r: Files)
    requires WellFormed(src) && Preorder(src, sroot, paths) && 0 < i < |paths|
    requires DirAt(base, droot) && forall q :: q in base ==> !(droot < q)
    requires Grafted(src, sroot, paths, i, base, droot, r)
    ensures sroot < paths[i] && paths[i] in src
    ensures var target := Target(sroot, droot, paths[i]);
            |target| > 0 && target !in r && DirAt(r, Parent(target))
  {
    hide WellFormed, Preorder;
    AtPosition(src, sroot, paths, i);
    ParentEarlier(src, sroot, paths, i);
    var target := Target(sroot, droot, paths[i]);
    TargetOrigin(sroot, droot, paths[i]);
    var parent := Parent(paths[i]);
    assert Parent(target) == Target(sroot, droot, parent);
    if parent != sroot {
      TargetOrigin(sroot, droot, parent);
      assert Parent(target) in r && Parent(target) !in base;
    } else {
      assert Parent(target) == droot;
    }
  }

  lemma GraftStep(src: Files, sroot: Path, paths: seq<Path>, i: nat, base: Files, droot: Path, r: Files)
    requires Preorder(src, sroot, paths) && 0 < i < |paths|
    requires sroot < paths[i] && paths[i] in src && forall q :: q in base ==> !(droot < q)
    requires Grafted(src, sroot, paths, i, base, droot, r)
    ensures Grafted(src, sroot, paths, i + 1, base, droot, r[Target(sroot, droot, paths[i]) := Copied(src[paths[i]])])
  {
    AtPosition(src, sroot, paths, i);
    hide Preorder;
    var target := Target(sroot, droot, paths[i]);
    TargetOrigin(sroot, droot, paths[i]);
    forall q | droot < q && Origin(sroot, droot, q) == paths[i]
      ensures q == target
    {
      OriginTarget(sroot, droot, q);
    }
  }

  lemma GraftStart(src: Files, sroot: Path, paths: seq<Path>, base: Files, droot: Path)
    requires Preorder(src, sroot, paths)
    ensures |paths| > 0 && Grafted(src, sroot, paths, 1, base, droot, base)
  {
    assert paths[1..1] == [];
  }

  lemma GraftDone(src: Files, sroot: Path, paths: seq<Path>, base: Files, droot: Path, r: Files)
    requires Preorder(src, sroot, paths) && Grafted(src, sroot, paths, |paths|, base, droot, r)
    ensures IsGraft(src, sroot, base, droot, r)
  {
    BelowIsTail(src, sroot, paths);
    assert paths[1..|paths|] == paths[1..];
    forall q | droot < q
      ensures Origin(sroot, droot, q) in paths[1..] <==> Origin(sroot, droot, q) in src
    {
      OriginTarget(sroot, droot, q);
    }
  }

  /** Below droot, r has every node of the source subtree as it was. */
  ghost predicate SameBelow(src: Files, sroot: Path, r: Files, droot: Path) {
    forall p :: p in src && sroot < p ==> Target(sroot, droot, p) in r && r[Target(sroot, droot, p)] == src[p]
  }

  ghost predicate AllPreserved(src: Files, sroot: Path) {
    forall p :: p in src && sroot < p ==> Preserved(src[p])
  }

  lemma GraftedNode(src: Files, sroot: Path, base: Files, droot: Path, r: Files, p: Path)
    requires IsGraft(src, sroot, base, droot, r) && forall q :: q in base ==> !(droot < q)
    requires p in src && sroot < p
    ensures var target := Target(sroot, droot, p); target in r && r[target] == Copied(src[p])
  {
    TargetOrigin(sroot, droot, p);
  }

  /** The copied subtree is the source's exactly when there is nothing but directories and regular files in it. */
  lemma GraftIsExact(src: Files, sroot: Path, base: Files, droot: Path, r: Files)
    requires IsGraft(src, sroot, base, droot, r) && forall q :: q in base ==> !(droot < q)
    ensures SameBelow(src, sroot, r, droot) <==> AllPreserved(src, sroot)
  {
    hide IsGraft, Copied, Preserved, Target;
    forall p | p in src && sroot < p
      ensures var target := Target(sroot, droot, p);
              target in r && (r[target] == src[p] <==> Preserved(src[p]))
    {
      GraftedNode(src, sroot, base, droot, r, p);
      CopyIsExact(src[p]);
    }
  }

  /** A tree that holds one symbolic link. */
  function LinkTree(link: seq<byte>): Files { map[[] := Node(0x41ed, []), ["link"] := Node(0xa1ff, link)] }

  lemma LinkTreeShape(link: seq<byte>)
    ensures WellFormed(LinkTree(link)) && ["link"] in LinkTree(link)
    ensures var n := LinkTree(link)[["link"]];
            n == Node(0xa1ff, link) && Copied(n) == Node(0x81ff, link) && !Preserved(n)
  {
    assert Parent(["link"]) == [];
  }

  /** What every copy of it holds instead. */
  lemma SymlinkBecomesFile(base: Files, droot: Path, r: Files, link: seq<byte>)
    requires IsGraft(LinkTree(link), [], base, droot, r)
    requires forall q :: q in base ==> !(droot < q)
    ensures WellFormed(LinkTree(link)) && !SameBelow(LinkTree(link), [], r, droot)
    ensures droot + ["link"] in r && r[droot + ["link"]] == Node(0x81ff, link)
  {
    LinkTreeShape(link);
    hide IsGraft, LinkTree, WellFormed, Copied, Preserved;
    var p: Path := ["link"];
    GraftedNode(LinkTree(link), [], base, droot, r, p);
    assert p[0..] == p;
    GraftIsExact(LinkTree(link), [], base, droot, r);
  }

  // ---- replace_tree and insert_tree ----

  /** What is left of dst when everything below droot is gone. */
  function Cleared(dst: Files, droot: Path): Files { dst - (set q | q in dst && droot < q) }

  lemma GraftWellFormed(src: Files, sroot: Path, base: Files, droot: Path, r: Files)
    requires WellFormed(src) && WellFormed(base) && DirAt(src, sroot) && DirAt(base, droot)
    requires IsGraft(src, sroot, base, droot, r) && forall x :: x in base ==> !(droot < x)
    ensures WellFormed(r) && DirAt(r, droot)
  {
    hide IsDir, Copied;
    forall q | q in r && |q| > 0
      ensures DirAt(r, Parent(q))
    {
      if q in base {
        assert DirAt(base, Parent(q));
      } else {
        GraftParent(src, sroot, base, droot, r, q);
      }
    }
  }

  lemma GraftParent(src: Files, sroot: Path, base: Files, droot: Path, r: Files, q: Path)
    requires WellFormed(src) && DirAt(base, droot) && IsGraft(src, sroot, base, droot, r)
    requires forall x :: x in base ==> !(droot < x)
    requires q in r && q !in base
    ensures |q| > 0 && DirAt(r, Parent(q))
  {
    hide Copied;
    var p := Origin(sroot, droot, q);
    OriginTarget(sroot, droot, q);
    var parent := Parent(q);
    assert DirAt(src, Parent(p));
    if parent != droot {
      assert droot < parent && Origin(sroot, droot, parent) == Parent(p);
      assert parent in r;
      if parent !in base {
        assert r[parent] == Copied(src[Parent(p)]);
        CopiedDir(src[Parent(p)]);
      }
    }
  }

  lemma CopiedDir(n: Node)
    ensures IsDir(Copied(n)) == IsDir(n)
  {
  }

  lemma ClearedWellFormed(dst: Files, droot: Path)
    requires WellFormed(dst) && DirAt(dst, droot)
    ensures WellFormed(Cleared(dst, droot)) && DirAt(Cleared(dst, droot), droot)
  {
    var base := Cleared(dst, droot);
    assert !(droot < droot) && !(droot < []);
    forall q | q in base && |q| > 0
      ensures DirAt(base, Parent(q))
    {
      assert DirAt(dst, Parent(q));
      assert Parent(q) <= q;
    }
  }

  /** The paths that copying was meant to create. */
  function Expected(sroot: Path, droot: Path, paths: seq<Path>): set<Path>
    requires forall p :: p in paths ==> sroot <= p
  {
    set p | p in paths :: Target(sroot, droot, p)
  }

  /** A faithful listing of the result finds exactly those. */
  lemma VerificationPasses(src: Files, sroot: Path, base: Files, droot: Path, r: Files,
                           paths: seq<Path>, after: seq<Path>)
    requires IsGraft(src, sroot, base, droot, r) && droot in base && forall q :: q in base ==> !(droot < q)
    requires Preorder(src, sroot, paths) && Preorder(r, droot, after)
    ensures (forall p :: p in paths[1..] ==> sroot < p)
    ensures Expected(sroot, droot, paths[1..]) == set q | q in after[1..]
  {
    BelowIsTail(src, sroot, paths);
    BelowIsTail(r, droot, after);
    forall q
      ensures q in Expected(sroot, droot, paths[1..]) <==> q in after[1..]
    {
      if droot < q {
        OriginTarget(sroot, droot, q);
        assert Origin(sroot, droot, q) in paths[1..] <==> Origin(sroot, droot, q) in src;
      }
      if q in Expected(sroot, droot, paths[1..]) {
        var p :| p in paths[1..] && Target(sroot, droot, p) == q;
        TargetOrigin(sroot, droot, p);
      }
    }
  }

  /** replace_tree: the new image, or nothing when a root is not a directory. */
  method ReplaceTree(src: Files, sroot: Path, dst: Files, droot: Path, browse: Browse,
                     newDirectoryMode: nat, newFileMode: nat)
      returns (r: Option<Files>)
    requires WellFormed(src) && WellFormed(dst) && Faithful(browse)
    requires newDirectoryMode / 0x1000 == 4 && newFileMode / 0x1000 == 8
    ensures r.Some? <==> DirAt(src, sroot) && DirAt(dst, droot)
    ensures r.Some? ==> IsGraft(src, sroot, Cleared(dst, droot), droot, r.value)
    ensures r.Some? ==> (SameBelow(src, sroot, r.value, droot) <==> AllPreserved(src, sroot))
  {
    hide WellFormed, Faithful, Preorder, IsGraft, SameBelow, AllPreserved;
    var paths := Inventory(src, browse, sroot);
    var previous := Inventory(dst, browse, droot);
    if paths.None? || previous.None? || !IsDir(src[sroot]) || !IsDir(dst[droot]) {
      return None;
    }
    var working := new WorkingImage(dst, newDirectoryMode, newFileMode);
    var ok := working.DeleteBelow(dst, droot, previous.value);
    ghost var base := Cleared(dst, droot);
    ClearedWellFormed(dst, droot);
    ok := working.CopyBelow(src, sroot, paths.value, base, droot);
    GraftWellFormed(src, sroot, base, droot, working.nodes);
    GraftIsExact(src, sroot, base, droot, working.nodes);
    var after := Inventory(working.nodes, browse, droot);
    VerificationPasses(src, sroot, base, droot, working.nodes, paths.value, after.value);
    NonEmpty(src, sroot, paths.value);
    NonEmpty(working.nodes, droot, after.value);
    if Expected(sroot, droot, paths.value[1..]) != set q | q in after.value[1..] {
      return None;
    }
    return Some(working.nodes);
  }

  lemma NonEmpty(fs: Files, root: Path, paths: seq<Path>)
    requires Preorder(fs, root, paths)
    ensures |paths| > 0
  {
  }

  /** A path that is not there has nothing below it. */
  lemma {:induction false} AbsentIsBare(fs: Files, p: Path, q: Path)
    requires WellFormed(fs) && p !in fs && q in fs
    ensures !(p < q)
    decreases |q|
  {
    if |q| > 0 {
      assert DirAt(fs, Parent(q));
      AbsentIsBare(fs, p, Parent(q));
      ProperPrefix(p, q);
    }
  }

  lemma ProperPrefix(p: Path, q: Path)
    requires |q| > 0
    ensures p < q ==> p == Parent(q) || p < Parent(q)
  {
    if p < q && |p| == |q| - 1 {
      assert q[..|p|] == p;
    }
  }

  lemma {:induction false} SameLength<T(!new)>(a: seq<T>, b: seq<T>)
    requires NoDup(a) && NoDup(b) && forall x :: x in a <==> x in b
    ensures |a| == |b|
    decreases |a|
  {
    assert |b| > 0 ==> b[0] in b;
    if |a| > 0 {
      var x := a[0];
      assert x in a;
      var k :| 0 <= k < |b| && b[k] == x;
      var b' := b[..k] + b[k + 1..];
      forall y
        ensures y in a[1..] <==> y in b'
      {
        if y in a[1..] {
          var i :| 0 <= i < |a[1..]| && a[1..][i] == y;
          assert a[0] != a[i + 1] && y in a;
          var j :| 0 <= j < |b| && b[j] == y;
          assert b'[if j < k then j else j - 1] == y;
        }
        if y in b' {
          var j :| 0 <= j < |b'| && b'[j] == y;
          var m := if j < k then j else j + 1;
          assert b[m] == y && m != k;
          assert y in a && y != x;
        }
      }
      SameLength(a[1..], b');
    }
  }

  /** The verification of insert_tree compares sizes, which agree. */
  lemma SizesAgree(src: Files, sroot: Path, base: Files, droot: Path, r: Files, paths: seq<Path>, after: seq<Path>)
    requires IsGraft(src, sroot, base, droot, r) && droot in base && forall q :: q in base ==> !(droot < q)
    requires Preorder(src, sroot, paths) && Preorder(r, droot, after)
    ensures |paths| == |after|
  {
    BelowIsTail(src, sroot, paths);
    BelowIsTail(r, droot, after);
    var targets := seq(|paths| - 1, i requires 0 <= i < |paths| - 1 => TargetOf(sroot, droot, paths[1..][i]));
    forall i, j | 0 <= i < j < |targets|
      ensures targets[i] != targets[j]
    {
      assert paths[1..][i] in paths[1..] && paths[1..][j] in paths[1..];
      assert paths[i + 1] != paths[j + 1];
      TargetOrigin(sroot, droot, paths[i + 1]);
      TargetOrigin(sroot, droot, paths[j + 1]);
    }
    forall q
      ensures q in targets <==> q in after[1..]
    {
      if q in targets {
        var i :| 0 <= i < |targets| && targets[i] == q;
        assert paths[1..][i] in paths[1..];
        TargetOrigin(sroot, droot, paths[1..][i]);
      }
      if q in after[1..] {
        OriginTarget(sroot, droot, q);
        var i :| 0 <= i < |paths[1..]| && paths[1..][i] == Origin(sroot, droot, q);
        assert targets[i] == q;
      }
    }
    forall i, j | 0 <= i < j < |after[1..]|
      ensures after[1..][i] != after[1..][j]
    {
      assert after[i + 1] != after[j + 1];
    }
    SameLength(targets, after[1..]);
  }

  function TargetOf(sroot: Path, droot: Path, p: Path): Path { if sroot <= p then Target(sroot, droot, p) else droot }

  /** insert_tree: copy into a new directory, if the source root is one and the new one can be made. */
  method InsertTree(src: Files, sroot: Path, dst: Files, droot: Path, browse: Browse,
                    newDirectoryMode: nat, newFileMode: nat)
      returns (r: Option<Files>)
    requires WellFormed(src) && WellFormed(dst) && Faithful(browse)
    requires newDirectoryMode / 0x1000 == 4 && newFileMode / 0x1000 == 8
    ensures r.Some? <==> DirAt(src, sroot) && |droot| > 0 && droot !in dst && DirAt(dst, Parent(droot))
    ensures r.Some? ==> IsGraft(src, sroot, dst[droot := Node(newDirectoryMode, [])], droot, r.value)
    ensures r.Some? ==> (SameBelow(src, sroot, r.value, droot) <==> AllPreserved(src, sroot))
  {
    hide WellFormed, Faithful, Preorder, IsGraft, SameBelow, AllPreserved;
    var paths := Inventory(src, browse, sroot);
    if paths.None? || !IsDir(src[sroot]) {
      return None;
    }
    var working := new WorkingImage(dst, newDirectoryMode, newFileMode);
    var ok := working.Mkdir(droot);
    if !ok {
      return None;
    }
    ghost var base := working.nodes;
    NewDirectory(dst, droot, newDirectoryMode);
    ok := working.CopyBelow(src, sroot, paths.value, base, droot);
    GraftWellFormed(src, sroot, base, droot, working.nodes);
    GraftIsExact(src, sroot, base, droot, working.nodes);
    var after := Inventory(working.nodes, browse, droot);
    SizesAgree(src, sroot, base, droot, working.nodes, paths.value, after.value);
    if |after.value| != |paths.value| {
      return None;
    }
    return Some(working.nodes);
  }

  lemma NewDirectory(dst: Files, droot: Path, mode: nat)
    requires WellFormed(dst) && |droot| > 0 && droot !in dst && DirAt(dst, Parent(droot)) && mode / 0x1000 == 4
    ensures var base := dst[droot := Node(mode, [])];
            WellFormed(base) && DirAt(base, droot) && forall q :: q in base ==> !(droot < q)
  {
    forall q | q in dst
      ensures !(droot < q)
    {
      AbsentIsBare(dst, droot, q);
    }
  }
}
