/**
 Path resolution and recursive extraction. Extraction resolves every joined path
 again from the root; on an acyclic volume with unique names per directory this
 is a plain preorder walk that follows directory entries.
 */
module Ufs1Extract {
  import opened Bytes
  import opened ByteSearch
  import opened Ufs1Reader
  import opened Ufs1Directory
  import opened SlashPaths

  /** One line of the extraction report. Directories carry no data. */
  datatype Node = Node(path: seq<byte>, kind: Kind, data: seq<byte>, size: nat)

  // ---- resolving ----

  /** The entries of a directory inode. */
  function Listing(v: Volume, inode: Inode): Option<seq<Entry>>
    requires v.Valid() && inode.Shaped()
  {
    if inode.Kind() != DirectoryKind then None
    else match FileData(v, inode)
      case None => None
      case Some(data) => Some(Entries(data, v.sb.little))
  }

  function FirstNamed(entries: seq<Entry>, name: Name): (r: Option<Entry>)
    ensures r.Some? ==> r.value in entries && r.value.name == name
  {
    if |entries| == 0 then None
    else if entries[0].name == name then Some(entries[0])
    else FirstNamed(entries[1..], name)
  }

  /** One component of a path. */
  function Descend(v: Volume, inode: Inode, name: Name): (r: Option<Inode>)
    requires v.Valid() && inode.Shaped()
    ensures r.Some? ==> r.value.Shaped()
  {
    match Listing(v, inode)
    case None => None
    case Some(entries) =>
      match FirstNamed(entries, name)
      case None => None
      case Some(e) => ReadInode(v, e.ino)
  }

  function DescendAll(v: Volume, inode: Inode, names: seq<Name>): (r: Option<Inode>)
    requires v.Valid() && inode.Shaped()
    ensures r.Some? ==> r.value.Shaped()
    decreases |names|
  {
    if |names| == 0 then Some(inode)
    else match Descend(v, inode, names[0])
      case None => None
      case Some(next) => DescendAll(v, next, names[1..])
  }

  function ResolveNames(v: Volume, names: seq<Name>): (r: Option<Inode>)
    requires v.Valid()
    ensures r.Some? ==> r.value.Shaped()
  {
    match ReadInode(v, ROOT_INO)
    case None => None
    case Some(root) => DescendAll(v, root, names)
  }

  function Resolve(v: Volume, path: seq<byte>): (r: Option<Inode>)
    requires v.Valid()
    ensures r.Some? ==> r.value.Shaped()
  {
    if Absolute(path) then ResolveNames(v, Components(path)) else None
  }

  /** resolve: walk the components one directory at a time. */
  method ResolvePath(v: Volume, path: seq<byte>) returns (r: Option<Inode>)
    requires v.Valid()
    ensures r == Resolve(v, path)
  {
    hide FileData, ReadInode, Entries, Components;
    if !Absolute(path) {
      return None;
    }
    r := ReadInode(v, ROOT_INO);
    if r.None? {
      return;
    }
    var names := Components(path);
    var i := 0;
    while i < |names|
      invariant i <= |names| && r.Some? && r.value.Shaped()
      invariant Resolve(v, path) == DescendAll(v, r.value, names[i..])
    {
      assert names[i..][0] == names[i] && names[i..][1..] == names[i + 1..];
      if r.value.Kind() != DirectoryKind {
        return None;
      }
      var data := ReadFile(v, r.value);
      if data.None? {
        return None;
      }
      var entries := ParseDirectory(data.value, v.sb.little);
      var found := FirstNamed(entries, names[i]);
      if found.None? {
        return None;
      }
      r := ReadInode(v, found.value.ino);
      if r.None? {
        return None;
      }
      i := i + 1;
    }
  }

  lemma {:induction false} DescendOneMore(v: Volume, inode: Inode, names: seq<Name>, name: Name)
    requires v.Valid() && inode.Shaped()
    ensures DescendAll(v, inode, names + [name]) ==
            match DescendAll(v, inode, names)
            case None => None
            case Some(next) => Descend(v, next, name)
    decreases |names|
  {
    hide Descend;
    if |names| == 0 {
      assert (names + [name])[1..] == [];
    } else {
      assert (names + [name])[1..] == names[1..] + [name];
      match Descend(v, inode, names[0])
      case None =>
      case Some(next) => DescendOneMore(v, next, names[1..], name);
    }
  }

  /** Resolving a joined path is resolving its parent and descending once. */
  lemma ResolveChild(v: Volume, path: seq<byte>, name: Name)
    requires v.Valid() && SafeName(name) && Resolve(v, path).Some?
    ensures Resolve(v, ChildPath(path, name)) == Descend(v, Resolve(v, path).value, name)
  {
    hide Descend, Components, ChildPath, ReadInode;
    ComponentsChild(path, name);
    ChildAbsolute(path, name);
    DescendOneMore(v, ReadInode(v, ROOT_INO).value, Components(path), name);
  }

  // ---- the directory graph ----

  predicate Ordinary(e: Entry) { e.name != DOT && e.name != DOTDOT }

  function OrdinaryOnly(entries: seq<Entry>): (r: seq<Entry>)
    ensures forall e :: e in r <==> e in entries && Ordinary(e)
  {
    if |entries| == 0 then []
    else (if Ordinary(entries[0]) then [entries[0]] else []) + OrdinaryOnly(entries[1..])
  }

  /** The children of inode number ino: its entries other than "." and "..", if it is a readable directory. */
  function Children(v: Volume, ino: nat): seq<Entry>
    requires v.Valid()
  {
    match ReadInode(v, ino)
    case None => []
    case Some(inode) =>
      match Listing(v, inode)
      case None => []
      case Some(entries) => OrdinaryOnly(entries)
  }

  /** A set of inode numbers and a rank on them. */
  datatype Order = Order(reach: set<nat>, rank: nat -> nat)

  /** The set is closed under directory entries, along which the rank strictly decreases. */
  ghost predicate Acyclic(v: Volume, o: Order)
    requires v.Valid()
  {
    forall ino: nat, e | ino in o.reach && e in Children(v, ino) :: e.ino in o.reach && o.rank(e.ino) < o.rank(ino)
  }

  predicate Distinct(entries: seq<Entry>) {
    forall i, j :: 0 <= i < j < |entries| ==> entries[i].name != entries[j].name
  }

  /** No directory in the set has two children of one name. */
  ghost predicate UniqueNames(v: Volume, o: Order)
    requires v.Valid()
  {
    forall ino: nat | ino in o.reach :: Distinct(Children(v, ino))
  }

  lemma {:induction false} OrdinaryFirst(entries: seq<Entry>, name: Name)
    requires name != DOT && name != DOTDOT
    ensures FirstNamed(OrdinaryOnly(entries), name) == FirstNamed(entries, name)
  {
    if |entries| > 0 {
      OrdinaryFirst(entries[1..], name);
      var rest := OrdinaryOnly(entries[1..]);
      if Ordinary(entries[0]) {
        var all := [entries[0]] + rest;
        assert OrdinaryOnly(entries) == all && all[0] == entries[0] && all[1..] == rest;
      } else {
        assert OrdinaryOnly(entries) == rest;
        assert entries[0].name != name;
      }
    }
  }

  lemma {:induction false} DistinctFirst(entries: seq<Entry>, i: nat)
    requires Distinct(entries) && i < |entries|
    ensures FirstNamed(entries, entries[i].name) == Some(entries[i])
    decreases i
  {
    if i > 0 {
      assert entries[0].name != entries[i].name;
      DistinctFirst(entries[1..], i - 1);
    }
  }

  /** With unique names, descending by a child's name reaches the inode its entry names. */
  lemma DescendToChild(v: Volume, inode: Inode, e: Entry, o: Order)
    requires v.Valid() && UniqueNames(v, o) && inode.ino in o.reach
    requires ReadInode(v, inode.ino) == Some(inode) && e in Children(v, inode.ino)
    ensures inode.Shaped() && Descend(v, inode, e.name) == ReadInode(v, e.ino)
  {
    hide ReadInode, Listing;
    var children := Children(v, inode.ino);
    assert Distinct(children);
    var i :| 0 <= i < |children| && children[i] == e;
    DistinctFirst(children, i);
    OrdinaryFirst(Listing(v, inode).value, e.name);
  }

  // ---- the walk ----

  function Prepend(nodes: seq<Node>, rest: Option<seq<Node>>): Option<seq<Node>> {
    match rest
    case None => None
    case Some(r) => Some(nodes + r)
  }

  /** Preorder listing from inode number ino, following entries. */
  ghost function Walk(v: Volume, ino: nat, path: seq<byte>, o: Order): Option<seq<Node>>
    requires v.Valid() && Acyclic(v, o) && ino in o.reach
    decreases o.rank(ino), 1, 0
  {
    match ReadInode(v, ino)
    case None => None
    case Some(inode) =>
      if inode.Kind() == DirectoryKind then
        if Listing(v, inode).None? then None
        else Prepend([Node(path, DirectoryKind, [], inode.size)], WalkAll(v, ino, path, Listing(v, inode).value, o))
      else match FileData(v, inode)
        case None => None
        case Some(data) => Some([Node(path, inode.Kind(), data, |data|)])
  }

  ghost function WalkAll(v: Volume, ino: nat, path: seq<byte>, entries: seq<Entry>, o: Order): Option<seq<Node>>
    requires v.Valid() && Acyclic(v, o) && ino in o.reach
    requires forall e :: e in entries && Ordinary(e) ==> e in Children(v, ino)
    decreases o.rank(ino), 0, |entries|
  {
    if |entries| == 0 then Some([])
    else
      var e := entries[0];
      if !Ordinary(e) then WalkAll(v, ino, path, entries[1..], o)
      else if !SafeName(e.name) then None
      else
        match Walk(v, e.ino, ChildPath(path, e.name), o)
        case None => None
        case Some(nodes) => Prepend(nodes, WalkAll(v, ino, path, entries[1..], o))
  }

  lemma PrependTwice(a: seq<Node>, b: seq<Node>, r: Option<seq<Node>>)
    ensures Prepend(a, Prepend(b, r)) == Prepend(a + b, r)
  {
    if r.Some? {
      assert a + (b + r.value) == a + b + r.value;
    }
  }

  /** extract_one: the report of a subtree, every child reached by resolving its joined path. */
  method ExtractOne(v: Volume, source: seq<byte>, ghost ino: nat, ghost o: Order)
      returns (r: Option<seq<Node>>)
    requires v.Valid() && Acyclic(v, o) && ino in o.reach && UniqueNames(v, o)
    requires Resolve(v, source) == ReadInode(v, ino)
    ensures r == Walk(v, ino, source, o)
    decreases o.rank(ino)
  {
    hide Resolve, ReadInode, FileData, Children, Acyclic, UniqueNames;
    var inode := ResolvePath(v, source);
    if inode.None? {
      return None;
    }
    if inode.value.Kind() == DirectoryKind {
      r := ExtractChildren(v, source, inode.value, ino, o);
      return;
    }
    var data := ReadFile(v, inode.value);
    if data.None? {
      return None;
    }
    return Some([Node(source, inode.value.Kind(), data.value, |data.value|)]);
  }

  method ExtractChildren(v: Volume, source: seq<byte>, inode: Inode, ghost ino: nat, ghost o: Order)
      returns (r: Option<seq<Node>>)
    requires v.Valid() && Acyclic(v, o) && ino in o.reach && UniqueNames(v, o) && inode.Shaped()
    requires Resolve(v, source) == Some(inode) == ReadInode(v, ino) && inode.Kind() == DirectoryKind
    ensures r == Walk(v, ino, source, o)
    decreases o.rank(ino), 0
  {
    hide Resolve, ReadInode, FileData, Acyclic, UniqueNames, Entries, ChildPath, SafeName, Ordinary;
    var data := ReadFile(v, inode);
    if data.None? {
      return None;
    }
    var entries := ParseDirectory(data.value, v.sb.little);
    assert Listing(v, inode) == Some(entries);
    var nodes := [Node(source, DirectoryKind, [], inode.size)];
    var i := 0;
    assert entries[0..] == entries;
    while i < |entries|
      invariant i <= |entries|
      invariant forall e :: e in entries && Ordinary(e) ==> e in Children(v, ino)
      invariant Walk(v, ino, source, o) == Prepend(nodes, WalkAll(v, ino, source, entries[i..], o))
    {
      var child := entries[i];
      WalkAllStep(v, ino, source, entries, i, o);
      if Ordinary(child) {
        if !SafeName(child.name) {
          return None;
        }
        var childSource := ChildPath(source, child.name);
        ResolveChild(v, source, child.name);
        DescendToChild(v, inode, child, o);
        RankDecreases(v, ino, child, o);
        var sub := ExtractOne(v, childSource, child.ino, o);
        if sub.None? {
          return None;
        }
        PrependTwice(nodes, sub.value, WalkAll(v, ino, source, entries[i + 1..], o));
        nodes := nodes + sub.value;
      }
      i := i + 1;
    }
    WalkAllEnd(v, ino, source, entries[i..], o);
    assert nodes + [] == nodes;
    return Some(nodes);
  }

  lemma RankDecreases(v: Volume, ino: nat, e: Entry, o: Order)
    requires v.Valid() && Acyclic(v, o) && ino in o.reach && e in Children(v, ino)
    ensures e.ino in o.reach && o.rank(e.ino) < o.rank(ino)
  {
  }

  lemma WalkAllStep(v: Volume, ino: nat, path: seq<byte>, entries: seq<Entry>, i: nat, o: Order)
    requires v.Valid() && Acyclic(v, o) && ino in o.reach && i < |entries|
    requires forall e :: e in entries && Ordinary(e) ==> e in Children(v, ino)
    ensures var e := entries[i];
            var rest := WalkAll(v, ino, path, entries[i + 1..], o);
            WalkAll(v, ino, path, entries[i..], o) ==
            if !Ordinary(e) then rest
            else if !SafeName(e.name) then None
            else match Walk(v, e.ino, ChildPath(path, e.name), o)
              case None => None
              case Some(nodes) => Prepend(nodes, rest)
  {
    hide Walk, Children, Acyclic, SafeName, ChildPath, Ordinary;
    assert entries[i..][0] == entries[i] && entries[i..][1..] == entries[i + 1..];
  }

  lemma WalkAllEnd(v: Volume, ino: nat, path: seq<byte>, entries: seq<Entry>, o: Order)
    requires v.Valid() && Acyclic(v, o) && ino in o.reach && |entries| == 0
    ensures WalkAll(v, ino, path, entries, o) == Some([])
  {
  }
}
