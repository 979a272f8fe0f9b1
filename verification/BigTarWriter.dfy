/**
 The archive writer that the bigtar tests use, and the round trip through the
 reader: names, numbers, kinds, links and offsets all come back.
 */
module BigTarWriter {
  import opened Bytes
  import opened ByteSearch
  import opened SlashPaths
  import opened OctalFields
  import opened BigTar

  /**
   A member to write: a path (with or without a leading "./", directories with a
   trailing slash), its numbers, a type flag, data, and a link target.
   */
  datatype Member = Member(
    dotted: bool, path: seq<Name>, slash: bool,
    mode: nat, uid: nat, gid: nat, mtime: nat,
    flag: byte, data: seq<byte>, linkDotted: bool, link: seq<Name>)

  predicate CanonicalPart(n: Name) { SafeName(n) && n != DOT && n != DOTDOT }

  predicate CanonicalPath(p: seq<Name>) { |p| > 0 && forall n :: n in p ==> CanonicalPart(n) }

  function Spelled(dotted: bool, p: seq<Name>): seq<byte> { (if dotted then DOT_SLASH else []) + JoinSlash(p) }

  function NameOf(m: Member): seq<byte> { Spelled(m.dotted, m.path) + (if m.slash then [SLASH] else []) }

  function LinkOf(m: Member): seq<byte> { if |m.link| == 0 then [] else Spelled(m.linkDotted, m.link) }

  function Last(p: seq<Name>): Name
    requires |p| > 0
  {
    p[|p| - 1]
  }

  predicate Writable(m: Member) {
    && CanonicalPath(m.path) && |NameOf(m)| <= NAME_SIZE
    && (|m.link| == 0 || CanonicalPath(m.link)) && |LinkOf(m)| <= NAME_SIZE
    && m.mode < Pow8(7) && m.uid < Pow8(7) && m.gid < Pow8(7) && |m.data| < Pow8(11) && m.mtime < Pow8(11)
    && (m.flag == 0 || m.flag == '0' as int || m.flag == '1' as int || m.flag == '2' as int)
  }

  // ---- names come back ----

  lemma {:induction false} JoinComponents(p: seq<Name>)
    requires forall n :: n in p ==> CanonicalPart(n)
    ensures Components(JoinSlash(p)) == p
    ensures NulFree(JoinSlash(p)) && (|p| > 0 ==> |JoinSlash(p)| > 0)
  {
    hide Components;
    if |p| == 0 {
      OneComponent([]);
    } else {
      assert p[0] in p;
      OneComponent(p[0]);
      if |p| > 1 {
        JoinComponents(p[1..]);
        ComponentsJoin(p[0], JoinSlash(p[1..]));
        assert p == [p[0]] + p[1..];
      }
    }
  }

  lemma {:induction false} PartsCanonical(p: seq<Name>)
    requires forall n :: n in p ==> CanonicalPart(n)
    ensures Parts(p) == p
  {
    if |p| > 0 {
      assert p[0] in p;
      PartsCanonical(p[1..]);
    }
  }

  /** A canonical path does not begin with a slash or with "./", and is not a dot. */
  lemma JoinStart(p: seq<Name>, tail: seq<byte>)
    requires CanonicalPath(p) && (tail == [] || tail == [SLASH])
    ensures var s := JoinSlash(p) + tail;
            && |s| > 0 && s[0] != SLASH && s != DOT && s != DOT_SLASH
            && !(|s| >= 2 && s[..2] == DOT_SLASH)
  {
    var s, n := JoinSlash(p) + tail, p[0];
    assert n in p && CanonicalPart(n);
    assert s[..|n|] == n && (|s| > |n| ==> s[|n|] == SLASH);
    assert s[0] == n[0];
    assert |n| > 1 ==> s[1] == s[..|n|][1] == n[1] != SLASH;
    assert |n| == 1 ==> n == [n[0]];
    assert |s| >= 2 ==> s[..2] == [s[0], s[1]];
    assert DOT_SLASH[0] == '.' as int && DOT_SLASH[1] == SLASH;
  }

  lemma NoDotSlash(s: seq<byte>)
    requires !(|s| >= 2 && s[..2] == DOT_SLASH)
    ensures StripDotSlash(s) == s && StripDotSlash(DOT_SLASH + s) == s
  {
    assert (DOT_SLASH + s)[..2] == DOT_SLASH && (DOT_SLASH + s)[2..] == s;
  }

  lemma TailComponents(p: seq<Name>, tail: seq<byte>)
    requires (forall n :: n in p ==> CanonicalPart(n)) && (tail == [] || tail == [SLASH])
    ensures Components(JoinSlash(p) + tail) == p && NulFree(JoinSlash(p) + tail)
  {
    JoinComponents(p);
    if tail == [] {
      assert JoinSlash(p) + tail == JoinSlash(p);
    } else {
      ComponentsJoin(JoinSlash(p), []);
      OneComponent([]);
      assert JoinSlash(p) + tail == JoinSlash(p) + [SLASH] + [];
    }
  }

  /** The reader makes a spelled canonical path canonical again. */
  lemma SpelledPath(dotted: bool, p: seq<Name>, tail: seq<byte>, raw: seq<byte>)
    requires CanonicalPath(p) && (tail == [] || tail == [SLASH])
    requires CutNul(raw) == Spelled(dotted, p) + tail
    ensures SafePath(raw) == Some(JoinSlash(p))
  {
    hide Components, CutNul, CanonicalPart;
    var s := JoinSlash(p) + tail;
    var name := Spelled(dotted, p) + tail;
    JoinStart(p, tail);
    NoDotSlash(s);
    if dotted {
      assert name == DOT_SLASH + s;
      assert |name| >= 3;
    } else {
      assert name == s;
    }
    TailComponents(p, tail);
    PartsCanonical(p);
    NoDotDot(p);
  }

  lemma NoDotDot(p: seq<Name>)
    requires CanonicalPath(p)
    ensures DOTDOT !in p
  {
  }

  // ---- headers come back ----

  /** A string at the front of a zeroed field. */
  function Padded(s: seq<byte>, n: nat): (r: seq<byte>)
    requires |s| <= n
    ensures |r| == n
  {
    s + Zeros(n - |s|)
  }

  lemma CutPadded(s: seq<byte>, n: nat)
    requires NulFree(s) && |s| <= n
    ensures CutNul(Padded(s, n)) == s
  {
    var t := Padded(s, n);
    if |s| < n {
      assert t == s + [0] + Zeros(n - |s| - 1);
      CutAtNul(s, Zeros(n - |s| - 1));
    } else {
      assert t == s;
      IndexOfIs(t, 0, 0, |t|);
    }
  }

  /** A number as zero-padded octal digits and a NUL. */
  function Field(v: nat, n: nat): (r: seq<byte>)
    requires n > 0
    ensures |r| == n
  {
    OctalDigits(v, n - 1) + [0]
  }

  lemma FieldReads(v: nat, n: nat)
    requires n > 1 && v < Pow8(n - 1)
    ensures Octal(Field(v, n)) == Some(v)
  {
    FieldRoundTrip(v, n - 1, []);
    assert Field(v, n) == OctalDigits(v, n - 1) + [0] + [];
  }

  function Numbers(m: Member, sizeField: seq<byte>): (r: seq<byte>)
    requires |sizeField| == 12
    ensures |r| == 48
  {
    Field(m.mode, 8) + (Field(m.uid, 8) + (Field(m.gid, 8) + (sizeField + Field(m.mtime, 12))))
  }

  function Front(m: Member, sizeField: seq<byte>): (r: seq<byte>)
    requires Writable(m) && |sizeField| == 12
    ensures |r| == 273
  {
    Padded(NameOf(m), 225) + Numbers(m, sizeField)
  }

  function Back(m: Member): (r: seq<byte>)
    requires Writable(m)
    ensures |r| == 231
  {
    [m.flag] + (Padded(LinkOf(m), 225) + Zeros(5))
  }

  /** The header's byte sum with the checksum field blank, in six digits, a NUL and a space. */
  function ChecksumField(m: Member, sizeField: seq<byte>): (r: seq<byte>)
    requires Writable(m) && |sizeField| == 12
    ensures |r| == 8
  {
    OctalDigits(Sum(Front(m, sizeField) + SPACES + Back(m)), 6) + [0] + [32]
  }

  function Header(m: Member, sizeField: seq<byte>): (r: seq<byte>)
    requires Writable(m) && |sizeField| == 12
    ensures |r| == BLOCK
  {
    Front(m, sizeField) + (ChecksumField(m, sizeField) + Back(m))
  }

  lemma {:induction false} SumBound(s: seq<byte>)
    ensures Sum(s) <= 255 * |s|
  {
    if |s| > 0 {
      SumBound(s[1..]);
    }
  }

  /** Six octal digits always hold the sum of a 512-byte header. */
  lemma ChecksumFits(s: seq<byte>)
    requires |s| == BLOCK
    ensures Sum(s) < Pow8(6)
  {
    SumBound(s);
    assert Pow8(6) == 8 * Pow8(5) == 64 * Pow8(4) == 512 * Pow8(3) == 4096 * Pow8(2) == 32768 * Pow8(1) == 262144;
  }

  lemma HeaderPieces(m: Member, sizeField: seq<byte>)
    requires Writable(m) && |sizeField| == 12
    ensures var h := Header(m, sizeField);
            && h[..273] == Front(m, sizeField) && h[273..281] == ChecksumField(m, sizeField) && h[281..] == Back(m)
            && h[..225] == Padded(NameOf(m), 225) && h[225..273] == Numbers(m, sizeField)
            && h[281] == m.flag && h[282..507] == Padded(LinkOf(m), 225)
  {
    hide ChecksumField, Padded, Numbers, NameOf, LinkOf;
    var h := Header(m, sizeField);
    assert h[0..] == h;
    FrontOf(h, 0, Front(m, sizeField), ChecksumField(m, sizeField) + Back(m));
    FrontOf(h, 273, ChecksumField(m, sizeField), Back(m));
    FrontOf(h, 281, [m.flag], Padded(LinkOf(m), 225) + Zeros(5));
    FrontOf(h, 282, Padded(LinkOf(m), 225), Zeros(5));
    assert h[281] == h[281..282][0];
    var f := Front(m, sizeField);
    assert f[0..] == f && f[225..273] == f[225..];
    FrontOf(f, 0, Padded(NameOf(m), 225), Numbers(m, sizeField));
    SameFront(h, f, 225);
  }

  lemma SameFront(h: seq<byte>, f: seq<byte>, n: nat)
    requires n <= |f| <= |h| && h[..|f|] == f
    ensures h[..n] == f[..n] && h[n..|f|] == f[n..]
  {
  }

  lemma NumberPieces(h: seq<byte>, m: Member, sizeField: seq<byte>)
    requires |h| == BLOCK && |sizeField| == 12 && h[225..273] == Numbers(m, sizeField)
    ensures h[225..233] == Field(m.mode, 8) && h[233..241] == Field(m.uid, 8) && h[241..249] == Field(m.gid, 8)
    ensures h[249..261] == sizeField && h[261..273] == Field(m.mtime, 12)
  {
    hide Field;
    var g := h[225..273];
    assert g[0..] == g;
    FrontOf(g, 0, Field(m.mode, 8), Field(m.uid, 8) + (Field(m.gid, 8) + (sizeField + Field(m.mtime, 12))));
    FrontOf(g, 8, Field(m.uid, 8), Field(m.gid, 8) + (sizeField + Field(m.mtime, 12)));
    FrontOf(g, 16, Field(m.gid, 8), sizeField + Field(m.mtime, 12));
    FrontOf(g, 24, sizeField, Field(m.mtime, 12));
    SubWindow(h, 225, 273, 0, 8);
    SubWindow(h, 225, 273, 8, 16);
    SubWindow(h, 225, 273, 16, 24);
    SubWindow(h, 225, 273, 24, 36);
    SubWindow(h, 225, 273, 36, 48);
    assert g[36..48] == g[36..];
  }

  lemma SubWindow(s: seq<byte>, lo: nat, hi: nat, i: nat, j: nat)
    requires lo <= hi <= |s| && i <= j <= hi - lo
    ensures s[lo..hi][i..j] == s[lo + i..lo + j]
  {
    var a, b := s[lo..hi][i..j], s[lo + i..lo + j];
    assert |a| == |b| && forall k :: 0 <= k < |a| ==> a[k] == s[lo..hi][i + k] == b[k];
  }

  lemma SpelledNulFree(dotted: bool, p: seq<Name>, tail: seq<byte>)
    requires (forall n :: n in p ==> CanonicalPart(n)) && (tail == [] || tail == [SLASH])
    ensures NulFree(Spelled(dotted, p) + tail)
  {
    JoinComponents(p);
  }

  function TailOf(m: Member): seq<byte> { if m.slash then [SLASH] else [] }

  lemma NameReads(m: Member, raw: seq<byte>)
    requires Writable(m) && raw == Padded(NameOf(m), 225)
    ensures CutNul(raw) == NameOf(m) && SafePath(raw) == Some(JoinSlash(m.path))
  {
    hide Padded, CutNul, SafePath, CanonicalPart;
    SpelledNulFree(m.dotted, m.path, TailOf(m));
    CutPadded(NameOf(m), 225);
    SpelledPath(m.dotted, m.path, TailOf(m), raw);
  }

  lemma CutNulFree(s: seq<byte>)
    requires NulFree(s)
    ensures CutNul(s) == s
  {
    IndexOfIs(s, 0, 0, |s|);
  }

  lemma LinkReads(m: Member, raw: seq<byte>)
    requires Writable(m) && raw == Padded(LinkOf(m), 225)
    ensures CutNul(raw) == LinkOf(m)
    ensures |LinkOf(m)| > 0 <==> |m.link| > 0
    ensures |m.link| > 0 ==> SafePath(CutNul(raw)) == Some(JoinSlash(m.link))
  {
    hide Padded, CutNul, SafePath, CanonicalPart;
    if |m.link| > 0 {
      JoinStart(m.link, []);
      SpelledNulFree(m.linkDotted, m.link, []);
      assert Spelled(m.linkDotted, m.link) + [] == LinkOf(m);
      CutNulFree(LinkOf(m));
      SpelledPath(m.linkDotted, m.link, [], LinkOf(m));
    }
    CutPadded(LinkOf(m), 225);
  }

  /** A string whose slash-free end holds a visible character does not end with a slash once stripped. */
  lemma {:induction false} StrippedEnd(a: seq<byte>, n: seq<byte>, k: nat)
    requires SlashFree(n) && k < |n| && !Space(n[k])
    ensures !EndsWithSlash(StripRight(a + n))
    decreases |n|
  {
    var s := a + n;
    assert s[|s| - 1] == n[|n| - 1];
    if Space(n[|n| - 1]) {
      assert s[..|s| - 1] == a + n[..|n| - 1];
      StrippedEnd(a, n[..|n| - 1], k);
    }
  }

  /** Trailing blanks are stripped, whatever stands before them. */
  lemma {:induction false} StrippedBlanks(a: seq<byte>, n: seq<byte>)
    requires forall k :: 0 <= k < |n| ==> Space(n[k])
    ensures StripRight(a + n) == StripRight(a)
    decreases |n|
  {
    if |n| == 0 {
      assert a + n == a;
    } else {
      assert (a + n)[..|a| + |n| - 1] == a + n[..|n| - 1];
      StrippedBlanks(a, n[..|n| - 1]);
    }
  }

  lemma {:induction false} JoinEnd(p: seq<Name>) returns (front: seq<byte>)
    requires |p| > 0
    ensures JoinSlash(p) == front + Last(p)
    ensures if |p| == 1 then front == [] else EndsWithSlash(front)
    decreases |p|
  {
    if |p| == 1 {
      front := [];
    } else {
      var rest := JoinEnd(p[1..]);
      front := p[0] + [SLASH] + rest;
      assert p[0] + [SLASH] + (rest + Last(p)) == front + Last(p);
    }
  }

  lemma SlashStays(s: seq<byte>)
    requires EndsWithSlash(s) || s == []
    ensures StripRight(s) == s
  {
  }

  lemma SafeCanonical(n: Name)
    requires CanonicalPart(n)
    ensures SafeName(n)
  {
  }

  predicate AllBlank(s: seq<byte>) { forall k :: 0 <= k < |s| ==> Space(s[k]) }

  /** Nothing but blanks after the last slash of the spelled path. */
  predicate BlankEnd(m: Member)
    requires Writable(m)
  {
    AllBlank(Last(m.path)) && (m.dotted || |m.path| > 1)
  }

  /**
   The reader takes a name for a directory's exactly when it was written with a
   trailing slash, or has nothing but blanks after its last slash.
   */
  lemma DirectoryName(m: Member)
    requires Writable(m)
    ensures EndsWithSlash(StripRight(NameOf(m))) <==> m.slash || BlankEnd(m)
  {
    hide StripRight, JoinSlash, CanonicalPart;
    var last := Last(m.path);
    if m.slash {
      SlashStays(NameOf(m));
    } else {
      var front := JoinEnd(m.path);
      assert last in m.path && CanonicalPart(last);
      SafeCanonical(last);
      var before := (if m.dotted then DOT_SLASH else []) + front;
      assert NameOf(m) == before + last;
      if AllBlank(last) {
        StrippedBlanks(before, last);
        SlashStays(before);
      } else {
        var k :| 0 <= k < |last| && !Space(last[k]);
        StrippedEnd(before, last, k);
      }
    }
  }

  /** The kind a member is written as: a file's data follows unless its name ends with a slash. */
  function KindWritten(m: Member): Kind
    requires Writable(m)
  {
    if m.flag == '1' as int then HardLink
    else if m.flag == '2' as int then SymLink
    else if m.slash then DirectoryEntry else FileEntry
  }

  /** The kind it is read as. */
  function KindRead(m: Member): Kind
    requires Writable(m)
  {
    if KindWritten(m) == FileEntry && BlankEnd(m) then DirectoryEntry else KindWritten(m)
  }

  /** Not a file whose name has nothing but blanks after its last slash. */
  predicate Plain(m: Member)
    requires Writable(m)
  {
    !(KindWritten(m) == FileEntry && BlankEnd(m))
  }

  function EntryAs(m: Member, size: int, offset: nat, kind: Kind): Entry
    requires Writable(m)
  {
    Entry(JoinSlash(m.path), m.mode, m.uid, m.gid, size, m.mtime, kind,
          if |m.link| == 0 then None else Some(JoinSlash(m.link)), offset, offset + BLOCK)
  }

  /** The entry that the writer meant. */
  function EntryWritten(m: Member, size: int, offset: nat): Entry
    requires Writable(m)
  {
    EntryAs(m, size, offset, KindWritten(m))
  }

  /** The entry that the reader yields. */
  function EntryRead(m: Member, size: int, offset: nat): Entry
    requires Writable(m)
  {
    EntryAs(m, size, offset, KindRead(m))
  }

  /** They are the same exactly for plain members. */
  lemma ReadAsWritten(m: Member, size: int, offset: nat)
    requires Writable(m)
    ensures EntryRead(m, size, offset) == EntryWritten(m, size, offset) <==> Plain(m)
  {
  }

  lemma ChecksumReads(m: Member, sizeField: seq<byte>)
    requires Writable(m) && |sizeField| == 12
    ensures ChecksumOK(Header(m, sizeField))
  {
    hide Octal, Sum, Front, Back, Writable, Header;
    HeaderPieces(m, sizeField);
    var sum := Sum(Front(m, sizeField) + SPACES + Back(m));
    ChecksumFits(Front(m, sizeField) + SPACES + Back(m));
    FieldRoundTrip(sum, 6, [32]);
  }

  /** A written header reads back as its member, with whatever number its size field spells. */
  lemma HeaderReads(m: Member, sizeField: seq<byte>, size: int, offset: nat)
    requires Writable(m) && |sizeField| == 12 && Octal(sizeField) == Some(size)
    ensures ParseHeader(Header(m, sizeField), offset) == Some(EntryRead(m, size, offset))
  {
    hide Octal, SafePath, ChecksumOK, Field, Header, StripRight, CutNul, JoinSlash, NameOf, LinkOf, Padded, Numbers,
         Front, Back, ChecksumField, Pow8;
    var h := Header(m, sizeField);
    ChecksumReads(m, sizeField);
    HeaderPieces(m, sizeField);
    NumberPieces(h, m, sizeField);
    NumbersRead(m);
    NameReads(m, h[..225]);
    LinkReads(m, h[282..507]);
    DirectoryName(m);
  }

  lemma NumbersRead(m: Member)
    requires Writable(m)
    ensures Octal(Field(m.mode, 8)) == Some(m.mode) && Octal(Field(m.uid, 8)) == Some(m.uid)
    ensures Octal(Field(m.gid, 8)) == Some(m.gid) && Octal(Field(m.mtime, 12)) == Some(m.mtime)
  {
    hide Octal, Field, Pow8;
    FieldReads(m.mode, 8);
    FieldReads(m.uid, 8);
    FieldReads(m.gid, 8);
    FieldReads(m.mtime, 12);
  }

  lemma HeaderNotBlank(m: Member, sizeField: seq<byte>)
    requires Writable(m) && |sizeField| == 12
    ensures !Blank(Header(m, sizeField))
  {
    hide ChecksumField, Back, Numbers, JoinSlash;
    JoinStart(m.path, TailOf(m));
    SpelledNulFree(m.dotted, m.path, TailOf(m));
    assert NameOf(m) == Spelled(m.dotted, m.path) + TailOf(m);
    assert Header(m, sizeField)[0] == NameOf(m)[0];
  }

  // ---- archives come back ----

  function Padding(n: nat): nat { (BLOCK - n % BLOCK) % BLOCK }

  /** File data padded to whole blocks. Links and directories are written without their data. */
  function Body(m: Member): seq<byte>
    requires Writable(m)
  {
    if KindWritten(m) == FileEntry then m.data + Zeros(Padding(|m.data|)) else []
  }

  function Archive(ms: seq<Member>): seq<byte>
    requires forall m :: m in ms ==> Writable(m)
  {
    if |ms| == 0 then Zeros(1024)
    else Header(ms[0], Field(|ms[0].data|, 12)) + (Body(ms[0]) + Archive(ms[1..]))
  }

  function Written(ms: seq<Member>, offset: nat): seq<Entry>
    requires forall m :: m in ms ==> Writable(m)
  {
    if |ms| == 0 then []
    else [EntryWritten(ms[0], |ms[0].data|, offset)] + Written(ms[1..], offset + BLOCK + |Body(ms[0])|)
  }

  lemma PaddedBlocks(n: nat)
    ensures (n + BLOCK - 1) / BLOCK * BLOCK == n + Padding(n)
  {
  }

  /** The first member of what is left at an offset is yielded as it reads. */
  lemma MemberRead(archive: seq<byte>, offset: nat, m: Member, rest: seq<byte>)
    requires Writable(m) && offset <= |archive|
    requires archive[offset..] == Header(m, Field(|m.data|, 12)) + rest
    ensures StepAt(archive, offset).Yield?
    ensures StepAt(archive, offset).entry == EntryRead(m, |m.data|, offset)
  {
    hide ParseHeader, Header, Field, Octal, Pow8;
    FrontOf(archive, offset, Header(m, Field(|m.data|, 12)), rest);
    assert Slice(archive, offset, BLOCK) == Header(m, Field(|m.data|, 12));
    HeaderNotBlank(m, Field(|m.data|, 12));
    FieldReads(|m.data|, 12);
    HeaderReads(m, Field(|m.data|, 12), |m.data|, offset);
  }

  /** If it is plain, it is yielded as written and the reader moves on to the next. */
  lemma MemberStep(archive: seq<byte>, offset: nat, m: Member, rest: seq<byte>)
    requires Writable(m) && Plain(m) && offset <= |archive|
    requires archive[offset..] == Header(m, Field(|m.data|, 12)) + (Body(m) + rest)
    ensures var next := offset + BLOCK + |Body(m)|;
            && StepAt(archive, offset) == Yield(EntryWritten(m, |m.data|, offset), next)
            && next <= |archive| && archive[next..] == rest
  {
    hide StepAt, Header, Field, Padding;
    FrontOf(archive, offset, Header(m, Field(|m.data|, 12)), Body(m) + rest);
    FrontOf(archive, offset + BLOCK, Body(m), rest);
    MemberRead(archive, offset, m, Body(m) + rest);
    ReadAsWritten(m, |m.data|, offset);
    YieldNext(archive, offset);
    PaddedBlocks(|m.data|);
  }

  /**
   Parsing a written archive gives every member back as it was written, in order,
   at the offsets it was written to, and ends normally, exactly when no member is a
   file whose name has nothing but blanks after its last slash.
   */
  lemma {:induction false} ArchiveRoundTrip(archive: seq<byte>, offset: nat, ms: seq<Member>, turns: nat)
    requires forall m :: m in ms ==> Writable(m)
    requires offset <= |archive| && archive[offset..] == Archive(ms) && turns > |ms|
    ensures Scan(archive, offset, turns) == Scanned(Written(ms, offset), Finished) <==>
            forall m :: m in ms ==> Plain(m)
    decreases |ms|
  {
    hide StepAt, Header, Body, Field, EntryWritten, EntryRead, Writable, Plain;
    if |ms| == 0 {
      EndStep(archive, offset);
    } else {
      var m, rest := ms[0], ms[1..];
      assert m in ms && ms == [m] + rest;
      if Plain(m) {
        MemberStep(archive, offset, m, Archive(rest));
        ArchiveRoundTrip(archive, offset + BLOCK + |Body(m)|, rest, turns - 1);
        var scanned := Scan(archive, offset + BLOCK + |Body(m)|, turns - 1);
        assert Scan(archive, offset, turns).entries[1..] == scanned.entries;
        assert Written(ms, offset)[1..] == Written(rest, offset + BLOCK + |Body(m)|);
      } else {
        MemberRead(archive, offset, m, Body(m) + Archive(rest));
        ReadAsWritten(m, |m.data|, offset);
        assert Scan(archive, offset, turns).entries[0] == EntryRead(m, |m.data|, offset);
        assert Written(ms, offset)[0] == EntryWritten(m, |m.data|, offset);
      }
    }
  }

  /** A file "a/ " with one byte of data. */
  const BLANK_FILE := Member(false, [['a' as int], [32]], false, 0, 0, 0, 0, '0' as int, [1], false, [])

  lemma BlankFile()
    ensures Writable(BLANK_FILE) && KindWritten(BLANK_FILE) == FileEntry && KindRead(BLANK_FILE) == DirectoryEntry
    ensures !Plain(BLANK_FILE)
  {
    var m := BLANK_FILE;
    assert m.path[0] == ['a' as int] && m.path[1] == [32] && Last(m.path) == [32];
    assert JoinSlash(m.path[1..]) == [32];
    assert NameOf(m) == ['a' as int, SLASH, 32];
    assert forall k :: 0 <= k < |Last(m.path)| ==> Space(Last(m.path)[k]);
    assert Pow8(0) == 1;
  }

  /** It is read as a directory, and an archive of it does not come back. */
  lemma BlankNameMisread(archive: seq<byte>, turns: nat)
    requires Writable(BLANK_FILE)
    requires archive == Archive([BLANK_FILE]) && turns > 1
    ensures KindWritten(BLANK_FILE) == FileEntry
    ensures ParseHeader(Header(BLANK_FILE, Field(1, 12)), 0) == Some(EntryAs(BLANK_FILE, 1, 0, DirectoryEntry))
    ensures Scan(archive, 0, turns) != Scanned(Written([BLANK_FILE], 0), Finished)
  {
    BlankFile();
    hide ParseHeader, Header, Scan, Written, KindWritten, KindRead, Writable, Plain, Octal, Field, Archive;
    FieldReads(1, 12);
    HeaderReads(BLANK_FILE, Field(1, 12), 1, 0);
    assert archive[0..] == archive && BLANK_FILE in [BLANK_FILE];
    ArchiveRoundTrip(archive, 0, [BLANK_FILE], turns);
  }

  lemma EndStep(archive: seq<byte>, offset: nat)
    requires offset <= |archive| && archive[offset..] == Zeros(1024)
    ensures StepAt(archive, offset) == Stop
  {
    hide ParseHeader;
    var header := Slice(archive, offset, BLOCK);
    assert forall k :: 0 <= k < |header| ==> header[k] == archive[offset..][k];
  }

  // ---- negative sizes ----

  /** A size field of "-k000". */
  function NegativeSize(k: nat): (s: seq<byte>)
    requires 1 <= k <= 7
    ensures |s| == 12
  {
    ['-' as int, '0' as int + k, '0' as int, '0' as int, '0' as int] + Zeros(7)
  }

  /** The reader takes it for -512 * k. */
  lemma NegativeField(k: nat)
    requires 1 <= k <= 7
    ensures Octal(NegativeSize(k)) == Some(-512 * k)
  {
    var s: seq<byte> := ['-' as int, '0' as int + k, '0' as int, '0' as int, '0' as int];
    assert NegativeSize(k) == s + [0] + Zeros(6);
    CutAtNul(s, Zeros(6));
    NoStrip(s);
    var d := s[1..];
    assert Digits([], 512 * k, true) == Some(512 * k);
    assert Digits(d[3..], 64 * k, true) == Some(512 * k);
    assert Digits(d[2..], 8 * k, true) == Digits(d[2..][1..], 64 * k, true) && d[2..][1..] == d[3..];
    assert Digits(d[1..], k, true) == Digits(d[1..][1..], 8 * k, true) && d[1..][1..] == d[2..];
    assert Digits(d, 0, false) == Some(512 * k);
  }

  /** A file with that size field is yielded, and the reader goes on k - 1 blocks before its header. */
  lemma NegativeStep(archive: seq<byte>, offset: nat, m: Member, k: nat)
    requires Writable(m) && Plain(m) && KindWritten(m) == FileEntry && 1 <= k <= 7
    requires offset + BLOCK <= |archive| && archive[offset..offset + BLOCK] == Header(m, NegativeSize(k))
    ensures StepAt(archive, offset) == Yield(EntryWritten(m, -512 * k, offset), offset - BLOCK * (k - 1))
  {
    hide ParseHeader, Header, Field, Octal;
    var h := Header(m, NegativeSize(k));
    assert Slice(archive, offset, BLOCK) == h;
    HeaderNotBlank(m, NegativeSize(k));
    NegativeField(k);
    HeaderReads(m, NegativeSize(k), -512 * k, offset);
  }

  /** A first file with a size field of "-1000" is yielded for ever. */
  lemma NegativeSizeLoops(m: Member, archive: seq<byte>)
    requires Writable(m) && Plain(m) && KindWritten(m) == FileEntry
    requires |archive| >= BLOCK && archive[..BLOCK] == Header(m, NegativeSize(1))
    ensures !Ends(archive)
    ensures forall n: nat :: After(archive, 0, n) == Some(0)
  {
    hide StepAt, Header;
    assert archive[0..0 + BLOCK] == archive[..BLOCK];
    NegativeStep(archive, 0, m, 1);
    StuckForever(archive, 0);
  }

  /** One with "-2000" sends the reader before the start of the archive, where it fails. */
  lemma NegativeSizeFails(m: Member, archive: seq<byte>)
    requires Writable(m) && Plain(m) && KindWritten(m) == FileEntry
    requires |archive| >= BLOCK && archive[..BLOCK] == Header(m, NegativeSize(2))
    ensures Ends(archive)
    ensures Scan(archive, 0, 2) == Scanned([EntryWritten(m, -1024, 0)], Failed)
  {
    hide Header, EntryWritten, ParseHeader;
    assert archive[0..0 + BLOCK] == archive[..BLOCK];
    NegativeStep(archive, 0, m, 2);
    assert StepAt(archive, -512) == Fail;
    assert Scan(archive, -512, 1) == Scanned([], Failed);
    assert !Scan(archive, 0, 2).status.Running?;
  }

  /** Behind a file whose data is a block of zeros, the same field sends it into that data, where it ends normally. */
  lemma NegativeSizeFinishes(first: Member, second: Member, archive: seq<byte>)
    requires Writable(first) && Plain(first) && KindWritten(first) == FileEntry && first.data == Zeros(BLOCK)
    requires Writable(second) && Plain(second) && KindWritten(second) == FileEntry
    requires archive == Header(first, Field(BLOCK, 12)) + (Zeros(BLOCK) + Header(second, NegativeSize(2)))
    ensures Ends(archive)
    ensures Scan(archive, 0, 3) ==
            Scanned([EntryWritten(first, 512, 0), EntryWritten(second, -1024, 1024)], Finished)
  {
    hide Header, EntryWritten, ParseHeader, Field, KindWritten, StepAt;
    var rest := Header(second, NegativeSize(2));
    assert Body(first) == Zeros(BLOCK) by {
      assert first.data + Zeros(0) == first.data;
    }
    assert archive[0..] == archive;
    MemberStep(archive, 0, first, rest);
    assert |archive| == 1536 && archive[1024..1536] == archive[1024..] == rest;
    NegativeStep(archive, 1024, second, 2);
    ZeroBlockStops(archive, Header(first, Field(BLOCK, 12)), rest);
    assert Scan(archive, 512, 1) == Scanned([], Finished);
    assert Scan(archive, 1024, 2) == Scanned([EntryWritten(second, -1024, 1024)], Finished);
    assert !Scan(archive, 0, 3).status.Running?;
  }

  lemma ZeroBlockStops(archive: seq<byte>, a: seq<byte>, b: seq<byte>)
    requires |a| == BLOCK && archive == a + (Zeros(BLOCK) + b)
    ensures StepAt(archive, 512) == Stop
  {
    hide ParseHeader;
    var header := Slice(archive, 512, BLOCK);
    assert header == Zeros(BLOCK);
  }
}
