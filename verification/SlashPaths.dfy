/** Slash-separated paths: splitting, stripping and extending them. */
module SlashPaths {
  import opened Bytes
  import opened ByteSearch

  const SLASH: byte := '/' as int

  type Name = seq<byte>

  const DOT: Name := ['.' as int]
  const DOTDOT: Name := ['.' as int, '.' as int]

  /** The non-empty parts of a path. */
  function Components(path: seq<byte>): seq<Name>
    decreases |path|
  {
    var i := IndexOf(path, SLASH, 0);
    var part := if i == 0 then [] else [path[..i]];
    if i == |path| then part else part + Components(path[i + 1..])
  }

  /** rstrip("/"). */
  function StripSlashes(path: seq<byte>): (r: seq<byte>)
    ensures |r| <= |path|
  {
    if |path| > 0 && path[|path| - 1] == SLASH then StripSlashes(path[..|path| - 1]) else path
  }

  function ChildPath(path: seq<byte>, name: Name): seq<byte> { StripSlashes(path) + [SLASH] + name }

  predicate Absolute(path: seq<byte>) { |path| > 0 && path[0] == SLASH }

  predicate SlashFree(s: seq<byte>) { forall k :: 0 <= k < |s| ==> s[k] != SLASH }

  /** A name that a directory walk may join to a path. */
  predicate SafeName(name: Name) { |name| > 0 && SlashFree(name) && NulFree(name) }

  lemma SplitAtSlash(s: seq<byte>, part: seq<byte>, rest: seq<byte>)
    requires s == part + [SLASH] + rest && SlashFree(part)
    ensures Components(s) == (if |part| == 0 then [] else [part]) + Components(rest)
  {
    IndexOfIs(s, SLASH, 0, |part|);
    assert s[..|part|] == part && s[|part| + 1..] == rest;
  }

  lemma OneComponent(part: seq<byte>)
    requires SlashFree(part)
    ensures Components(part) == if |part| == 0 then [] else [part]
  {
    IndexOfIs(part, SLASH, 0, |part|);
    assert part[..|part|] == part;
  }

  /** Splitting distributes over joining with a slash. */
  lemma {:induction false} ComponentsJoin(a: seq<byte>, b: seq<byte>)
    ensures Components(a + [SLASH] + b) == Components(a) + Components(b)
    decreases |a|
  {
    hide Components;
    var i := IndexOf(a, SLASH, 0);
    var part := a[..i];
    assert SlashFree(part);
    if i == |a| {
      assert part == a;
      SplitAtSlash(a + [SLASH] + b, a, b);
      OneComponent(a);
    } else {
      var rest := a[i + 1..];
      assert a == part + [SLASH] + rest;
      SplitAtSlash(a, part, rest);
      assert a + [SLASH] + b == part + [SLASH] + (rest + [SLASH] + b);
      SplitAtSlash(a + [SLASH] + b, part, rest + [SLASH] + b);
      ComponentsJoin(rest, b);
    }
  }

  lemma {:induction false} ComponentsStrip(path: seq<byte>)
    ensures Components(StripSlashes(path)) == Components(path)
    decreases |path|
  {
    hide Components;
    if |path| > 0 && path[|path| - 1] == SLASH {
      var front := path[..|path| - 1];
      assert path == front + [SLASH] + [];
      ComponentsJoin(front, []);
      OneComponent([]);
      ComponentsStrip(front);
    }
  }

  /** A child path has one component more. */
  lemma ComponentsChild(path: seq<byte>, name: Name)
    requires SafeName(name)
    ensures Components(ChildPath(path, name)) == Components(path) + [name]
  {
    hide Components;
    ComponentsJoin(StripSlashes(path), name);
    ComponentsStrip(path);
    OneComponent(name);
  }

  lemma {:induction false} StripKeepsFirst(path: seq<byte>)
    ensures |StripSlashes(path)| > 0 ==> StripSlashes(path)[0] == path[0]
  {
    if |path| > 0 && path[|path| - 1] == SLASH {
      StripKeepsFirst(path[..|path| - 1]);
    }
  }

  lemma ChildAbsolute(path: seq<byte>, name: Name)
    requires Absolute(path)
    ensures Absolute(ChildPath(path, name))
  {
    StripKeepsFirst(path);
  }
}
