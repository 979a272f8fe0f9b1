/**
 What an extraction lists: exactly the inodes reachable along directory entries
 from the starting one, each under its own path, once.
 */
module Ufs1Reachable {
  import opened Bytes
  import opened Ufs1Reader
  import opened Ufs1Directory
  import opened SlashPaths
  import opened Ufs1Extract

  /** The inode number that a sequence of names leads to. */
  ghost function Follow(v: Volume, ino: nat, names: seq<Name>): Option<nat>
    requires v.Valid()
    decreases |names|
  {
    if |names| == 0 then Some(ino)
    else match FirstNamed(Children(v, ino), names[0])
      case None => None
      case Some(e) => Follow(v, e.ino, names[1..])
  }

  /** The node carries the kind and data of the inode. */
  ghost predicate Describes(v: Volume, ino: nat, n: Node)
    requires v.Valid()
  {
    match ReadInode(v, ino)
    case None => false
    case Some(inode) =>
      && n.kind == inode.Kind()
      && (if inode.Kind() == DirectoryKind then n.data == [] && n.size == inode.size
          else FileData(v, inode) == Some(n.data) && n.size == |n.data|)
  }

  /** Every ordinary entry's subtree is part of the listing. */
  lemma {:induction false} WalkAllHas(v: Volume, ino: nat, path: seq<byte>, entries: seq<Entry>, o: Order, e: Entry)
    requires v.Valid() && Acyclic(v, o) && ino in o.reach
    requires forall x :: x in entries && Ordinary(x) ==> x in Children(v, ino)
    requires WalkAll(v, ino, path, entries, o).Some? && e in entries && Ordinary(e)
    ensures SafeName(e.name)
    ensures var sub := Walk(v, e.ino, ChildPath(path, e.name), o);
            sub.Some? && forall n :: n in sub.value ==> n in WalkAll(v, ino, path, entries, o).value
    decreases |entries|
  {
    hide Walk, Acyclic, Children, SafeName, ChildPath, Ordinary;
    if entries[0] != e {
      WalkAllHas(v, ino, path, entries[1..], o, e);
    }
  }

  lemma WalkParts(v: Volume, ino: nat, path: seq<byte>, o: Order)
    requires v.Valid() && Acyclic(v, o) && ino in o.reach && Walk(v, ino, path, o).Some?
    ensures ReadInode(v, ino).Some?
    ensures var inode := ReadInode(v, ino).value;
            var nodes := Walk(v, ino, path, o).value;
            && |nodes| > 0 && nodes[0].path == path && Describes(v, ino, nodes[0])
            && (inode.Kind() != DirectoryKind ==> |nodes| == 1 && Children(v, ino) == [])
            && (inode.Kind() == DirectoryKind ==>
                  && Listing(v, inode).Some?
                  && (forall x :: x in Listing(v, inode).value && Ordinary(x) ==> x in Children(v, ino))
                  && WalkAll(v, ino, path, Listing(v, inode).value, o) == Some(nodes[1..]))
  {
    hide FileData, ReadInode, WalkAll;
  }

  /** Every reachable inode is listed, under the path that reaches it. */
  lemma {:induction false} WalkComplete(v: Volume, ino: nat, path: seq<byte>, o: Order, names: seq<Name>)
      returns (n: Node)
    requires v.Valid() && Acyclic(v, o) && ino in o.reach
    requires Walk(v, ino, path, o).Some? && Follow(v, ino, names).Some?
    ensures n in Walk(v, ino, path, o).value
    ensures Components(n.path) == Components(path) + names
    ensures Describes(v, Follow(v, ino, names).value, n)
    decreases |names|
  {
    hide Walk, WalkAll, Acyclic, Children, Describes, Components, ReadInode;
    WalkParts(v, ino, path, o);
    var nodes := Walk(v, ino, path, o).value;
    if |names| == 0 {
      n := nodes[0];
      assert Components(path) + [] == Components(path);
    } else {
      var e := FirstNamed(Children(v, ino), names[0]).value;
      ChildIsEntry(v, ino, e);
      var listing := Listing(v, ReadInode(v, ino).value).value;
      WalkAllHas(v, ino, path, listing, o, e);
      RankDecreases(v, ino, e, o);
      n := WalkComplete(v, e.ino, ChildPath(path, e.name), o, names[1..]);
      ComponentsChild(path, e.name);
      assert names == [e.name] + names[1..];
      assert Components(path) + [e.name] + names[1..] == Components(path) + ([e.name] + names[1..]);
    }
  }

  lemma ChildIsEntry(v: Volume, ino: nat, e: Entry)
    requires v.Valid() && e in Children(v, ino)
    ensures ReadInode(v, ino).Some? && Ordinary(e)
    ensures var inode := ReadInode(v, ino).value;
            inode.Kind() == DirectoryKind && Listing(v, inode).Some? && e in Listing(v, inode).value
  {
    hide ReadInode, FileData;
  }

  /** A listed node under a list of entries comes from one of them. */
  lemma {:induction false} WalkAllFrom(v: Volume, ino: nat, path: seq<byte>, entries: seq<Entry>, o: Order, n: Node)
      returns (e: Entry)
    requires v.Valid() && Acyclic(v, o) && ino in o.reach
    requires forall x :: x in entries && Ordinary(x) ==> x in Children(v, ino)
    requires WalkAll(v, ino, path, entries, o).Some? && n in WalkAll(v, ino, path, entries, o).value
    ensures e in entries && Ordinary(e) && SafeName(e.name)
    ensures e.ino in o.reach
    ensures var sub := Walk(v, e.ino, ChildPath(path, e.name), o);
            sub.Some? && n in sub.value
    decreases |entries|
  {
    hide Walk, Acyclic, Children, SafeName, ChildPath, Ordinary;
    e := entries[0];
    if Ordinary(e) {
      RankDecreases(v, ino, e, o);
      if n in Walk(v, e.ino, ChildPath(path, e.name), o).value {
        return;
      }
    }
    e := WalkAllFrom(v, ino, path, entries[1..], o, n);
  }

  lemma FollowFirst(v: Volume, ino: nat, e: Entry, names: seq<Name>, o: Order)
    requires v.Valid() && UniqueNames(v, o) && ino in o.reach && e in Children(v, ino)
    ensures Follow(v, ino, [e.name] + names) == Follow(v, e.ino, names)
  {
    hide Children;
    var children := Children(v, ino);
    assert Distinct(children);
    var i :| 0 <= i < |children| && children[i] == e;
    DistinctFirst(children, i);
    assert ([e.name] + names)[1..] == names;
  }

  /** Everything listed is reachable, along the names its path adds. */
  lemma {:induction false} WalkSound(v: Volume, ino: nat, path: seq<byte>, o: Order, n: Node)
      returns (names: seq<Name>)
    requires v.Valid() && Acyclic(v, o) && ino in o.reach && UniqueNames(v, o)
    requires Walk(v, ino, path, o).Some? && n in Walk(v, ino, path, o).value
    ensures Follow(v, ino, names).Some? && Describes(v, Follow(v, ino, names).value, n)
    ensures Components(n.path) == Components(path) + names
    decreases o.rank(ino)
  {
    hide Walk, WalkAll, Acyclic, Children, Describes, Components, ReadInode, UniqueNames;
    WalkParts(v, ino, path, o);
    var nodes := Walk(v, ino, path, o).value;
    if n == nodes[0] {
      names := [];
      assert Components(path) + [] == Components(path);
    } else {
      var listing := Listing(v, ReadInode(v, ino).value).value;
      assert n in nodes[1..];
      var e := WalkAllFrom(v, ino, path, listing, o, n);
      RankDecreases(v, ino, e, o);
      var rest := WalkSound(v, e.ino, ChildPath(path, e.name), o, n);
      names := [e.name] + rest;
      FollowFirst(v, ino, e, rest, o);
      ComponentsChild(path, e.name);
      assert Components(path) + [e.name] + rest == Components(path) + names;
    }
  }

  // ---- when the walk succeeds ----

  /** A directory that lists, with names that are safe to join, or anything else that has data. */
  ghost predicate Extractable(v: Volume, ino: nat)
    requires v.Valid()
  {
    match ReadInode(v, ino)
    case None => false
    case Some(inode) =>
      if inode.Kind() == DirectoryKind
      then Listing(v, inode).Some? && forall e :: e in Children(v, ino) ==> SafeName(e.name)
      else FileData(v, inode).Some?
  }

  /** The walk of a leaf, and of a directory in terms of its entries. */
  lemma WalkSplits(v: Volume, ino: nat, path: seq<byte>, o: Order)
    requires v.Valid() && Acyclic(v, o) && ino in o.reach && ReadInode(v, ino).Some?
    ensures var inode := ReadInode(v, ino).value;
            if inode.Kind() != DirectoryKind then Walk(v, ino, path, o).Some? <==> FileData(v, inode).Some?
            else if Listing(v, inode).None? then Walk(v, ino, path, o).None?
            else
              var listing := Listing(v, inode).value;
              && (forall x :: x in listing && Ordinary(x) <==> x in Children(v, ino))
              && (Walk(v, ino, path, o).Some? <==> WalkAll(v, ino, path, listing, o).Some?)
  {
    hide FileData, ReadInode, WalkAll;
  }

  /** The walk of a list of entries succeeds exactly when every ordinary one is safe and can be walked. */
  lemma {:induction false} WalkAllSucceeds(v: Volume, ino: nat, path: seq<byte>, entries: seq<Entry>, o: Order)
    requires v.Valid() && Acyclic(v, o) && ino in o.reach
    requires forall x :: x in entries && Ordinary(x) ==> x in Children(v, ino)
    requires forall x :: x in entries && Ordinary(x) ==> x.ino in o.reach
    ensures WalkAll(v, ino, path, entries, o).Some? <==>
            forall x :: x in entries && Ordinary(x) ==>
              SafeName(x.name) && Walk(v, x.ino, ChildPath(path, x.name), o).Some?
    decreases |entries|
  {
    hide Walk, Acyclic, Children, SafeName, ChildPath, Ordinary;
    if |entries| > 0 {
      var rest := entries[1..];
      assert entries == [entries[0]] + rest;
      WalkAllSucceeds(v, ino, path, rest, o);
    }
  }

  lemma {:induction false} WalkReadsAll(v: Volume, ino: nat, path: seq<byte>, o: Order, names: seq<Name>)
    requires v.Valid() && Acyclic(v, o) && ino in o.reach
    requires Walk(v, ino, path, o).Some? && Follow(v, ino, names).Some?
    ensures Extractable(v, Follow(v, ino, names).value)
    decreases |names|
  {
    hide Walk, WalkAll, Acyclic, Children, ReadInode, FileData, SafeName;
    WalkParts(v, ino, path, o);
    var inode := ReadInode(v, ino).value;
    WalkSplits(v, ino, path, o);
    if |names| > 0 {
      var e := FirstNamed(Children(v, ino), names[0]).value;
      ChildIsEntry(v, ino, e);
      WalkAllHas(v, ino, path, Listing(v, inode).value, o, e);
      RankDecreases(v, ino, e, o);
      WalkReadsAll(v, e.ino, ChildPath(path, e.name), o, names[1..]);
    } else if inode.Kind() == DirectoryKind {
      forall e | e in Children(v, ino)
        ensures SafeName(e.name)
      {
        ChildIsEntry(v, ino, e);
        WalkAllHas(v, ino, path, Listing(v, inode).value, o, e);
      }
    }
  }

  /** So is every inode that names lead to. */
  ghost predicate AllExtractable(v: Volume, ino: nat)
    requires v.Valid()
  {
    forall names :: Follow(v, ino, names).Some? ==> Extractable(v, Follow(v, ino, names).value)
  }

  lemma ChildExtractable(v: Volume, ino: nat, e: Entry, o: Order)
    requires v.Valid() && UniqueNames(v, o) && ino in o.reach && e in Children(v, ino) && AllExtractable(v, ino)
    ensures AllExtractable(v, e.ino)
  {
    hide Children, Extractable, UniqueNames;
    forall names | Follow(v, e.ino, names).Some?
      ensures Extractable(v, Follow(v, e.ino, names).value)
    {
      FollowFirst(v, ino, e, names, o);
    }
  }

  lemma {:induction false} ExtractableWalks(v: Volume, ino: nat, path: seq<byte>, o: Order)
    requires v.Valid() && Acyclic(v, o) && ino in o.reach && UniqueNames(v, o) && AllExtractable(v, ino)
    ensures Walk(v, ino, path, o).Some?
    decreases o.rank(ino)
  {
    assert Follow(v, ino, []) == Some(ino);
    hide Walk, WalkAll, Acyclic, Children, ReadInode, FileData, SafeName, UniqueNames, Follow, Listing;
    assert Extractable(v, ino);
    var inode := ReadInode(v, ino).value;
    WalkSplits(v, ino, path, o);
    if inode.Kind() == DirectoryKind {
      var listing := Listing(v, inode).value;
      forall x | x in listing && Ordinary(x)
        ensures x.ino in o.reach && SafeName(x.name) && Walk(v, x.ino, ChildPath(path, x.name), o).Some?
      {
        RankDecreases(v, ino, x, o);
        ChildExtractable(v, ino, x, o);
        ExtractableWalks(v, x.ino, ChildPath(path, x.name), o);
      }
      WalkAllSucceeds(v, ino, path, listing, o);
    }
  }

  /**
   Extraction succeeds exactly when everything reachable can be extracted: every
   directory lists, with safe names, and everything else has data.
   */
  lemma WalkSucceeds(v: Volume, ino: nat, path: seq<byte>, o: Order)
    requires v.Valid() && Acyclic(v, o) && ino in o.reach && UniqueNames(v, o)
    ensures Walk(v, ino, path, o).Some? <==> AllExtractable(v, ino)
  {
    hide Walk, Acyclic, UniqueNames, Follow, Extractable;
    if Walk(v, ino, path, o).Some? {
      forall names | Follow(v, ino, names).Some?
        ensures Extractable(v, Follow(v, ino, names).value)
      {
        WalkReadsAll(v, ino, path, o, names);
      }
    }
    if AllExtractable(v, ino) {
      ExtractableWalks(v, ino, path, o);
    }
  }

  // ---- no node is listed twice ----

  ghost predicate NoRepeats(nodes: seq<Node>) {
    forall i, j :: 0 <= i < j < |nodes| ==> Components(nodes[i].path) != Components(nodes[j].path)
  }

  lemma NoRepeatsConcat(a: seq<Node>, b: seq<Node>)
    requires NoRepeats(a) && NoRepeats(b)
    requires forall x, y :: x in a && y in b ==> Components(x.path) != Components(y.path)
    ensures NoRepeats(a + b)
  {
    hide Components;
    var c := a + b;
    forall i, j | 0 <= i < j < |c|
      ensures Components(c[i].path) != Components(c[j].path)
    {
      if i < |a| <= j {
        assert c[i] in a && c[j] in b;
      }
    }
  }

  /** The distinctness of the ordinary names among a list of entries. */
  predicate DistinctOrdinary(entries: seq<Entry>) { Distinct(OrdinaryOnly(entries)) }

  lemma DistinctTail(entries: seq<Entry>)
    requires |entries| > 0 && DistinctOrdinary(entries)
    ensures DistinctOrdinary(entries[1..])
    ensures Ordinary(entries[0]) ==> forall e :: e in entries[1..] && Ordinary(e) ==> e.name != entries[0].name
  {
    var rest := OrdinaryOnly(entries[1..]);
    var all := OrdinaryOnly(entries);
    if Ordinary(entries[0]) {
      assert all == [entries[0]] + rest;
      forall i, j | 0 <= i < j < |rest|
        ensures rest[i].name != rest[j].name
      {
        assert all[i + 1].name != all[j + 1].name;
      }
      forall e | e in entries[1..] && Ordinary(e)
        ensures e.name != entries[0].name
      {
        var j :| 0 <= j < |rest| && rest[j] == e;
        assert all[0].name != all[j + 1].name;
      }
    } else {
      assert all == rest;
    }
  }

  /** The component after the parent's path is the entry's name. */
  lemma UnderEntry(v: Volume, path: seq<byte>, e: Entry, o: Order, n: Node)
    requires v.Valid() && Acyclic(v, o) && e.ino in o.reach && UniqueNames(v, o) && SafeName(e.name)
    requires var sub := Walk(v, e.ino, ChildPath(path, e.name), o); sub.Some? && n in sub.value
    ensures |Components(n.path)| > |Components(path)| && Components(n.path)[|Components(path)|] == e.name
  {
    hide Walk, Acyclic, UniqueNames, Components;
    var names := WalkSound(v, e.ino, ChildPath(path, e.name), o, n);
    ComponentsChild(path, e.name);
  }

  lemma RootShorter(v: Volume, ino: nat, path: seq<byte>, entries: seq<Entry>, o: Order, rest: seq<Node>, n: Node)
    requires v.Valid() && Acyclic(v, o) && ino in o.reach && UniqueNames(v, o)
    requires forall x :: x in entries && Ordinary(x) ==> x in Children(v, ino)
    requires WalkAll(v, ino, path, entries, o) == Some(rest) && n in rest
    ensures |Components(n.path)| > |Components(path)|
  {
    hide Walk, WalkAll, Acyclic, UniqueNames, Components, Children;
    var e := WalkAllFrom(v, ino, path, entries, o, n);
    RankDecreases(v, ino, e, o);
    UnderEntry(v, path, e, o, n);
  }

  lemma {:induction false} WalkOnce(v: Volume, ino: nat, path: seq<byte>, o: Order)
    requires v.Valid() && Acyclic(v, o) && ino in o.reach && UniqueNames(v, o) && Walk(v, ino, path, o).Some?
    ensures NoRepeats(Walk(v, ino, path, o).value)
    decreases o.rank(ino), 1, 0
  {
    hide Walk, WalkAll, Acyclic, UniqueNames, Components, ReadInode, Describes;
    WalkParts(v, ino, path, o);
    var nodes := Walk(v, ino, path, o).value;
    var inode := ReadInode(v, ino).value;
    if inode.Kind() == DirectoryKind {
      var listing := Listing(v, inode).value;
      ListingDistinct(v, ino, o);
      WalkAllOnce(v, ino, path, listing, o);
      forall x, y | x in nodes[..1] && y in nodes[1..]
        ensures Components(x.path) != Components(y.path)
      {
        RootShorter(v, ino, path, listing, o, nodes[1..], y);
      }
      NoRepeatsConcat(nodes[..1], nodes[1..]);
      assert nodes == nodes[..1] + nodes[1..];
    }
  }

  lemma ListingDistinct(v: Volume, ino: nat, o: Order)
    requires v.Valid() && UniqueNames(v, o) && ino in o.reach
    requires ReadInode(v, ino).Some? && Listing(v, ReadInode(v, ino).value).Some?
    ensures DistinctOrdinary(Listing(v, ReadInode(v, ino).value).value)
  {
    hide ReadInode, Listing;
    assert Distinct(Children(v, ino));
  }

  lemma {:induction false} WalkAllOnce(v: Volume, ino: nat, path: seq<byte>, entries: seq<Entry>, o: Order)
    requires v.Valid() && Acyclic(v, o) && ino in o.reach && UniqueNames(v, o) && DistinctOrdinary(entries)
    requires forall x :: x in entries && Ordinary(x) ==> x in Children(v, ino)
    requires WalkAll(v, ino, path, entries, o).Some?
    ensures NoRepeats(WalkAll(v, ino, path, entries, o).value)
    decreases o.rank(ino), 0, |entries|
  {
    if |entries| > 0 {
      hide Walk, Acyclic, UniqueNames, Components, Children, Ordinary, SafeName, DistinctOrdinary, ChildPath, NoRepeats;
      var e := entries[0];
      DistinctTail(entries);
      WalkAllOnce(v, ino, path, entries[1..], o);
      if Ordinary(e) {
        RankDecreases(v, ino, e, o);
        var sub := Walk(v, e.ino, ChildPath(path, e.name), o).value;
        WalkOnce(v, e.ino, ChildPath(path, e.name), o);
        var rest := WalkAll(v, ino, path, entries[1..], o).value;
        forall x, y | x in sub && y in rest
          ensures Components(x.path) != Components(y.path)
        {
          UnderEntry(v, path, e, o, x);
          var f := WalkAllFrom(v, ino, path, entries[1..], o, y);
          UnderEntry(v, path, f, o, y);
        }
        NoRepeatsConcat(sub, rest);
      }
    } else {
      WalkAllEnd(v, ino, path, entries, o);
    }
  }
}
