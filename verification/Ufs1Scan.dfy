/**
 Finding a native UFS1 volume in an image: the superblock scan, the choice of a
 root offset from the disk label or the scan, and whether the volume opens there.
 */
module Ufs1Scan {
  import opened Bytes
  import opened ByteSearch
  import opened NextLabel
  import opened Ufs1Layout
  import opened Ufs1Reader

  const UFS1_MAGIC := 0x1_1954
  const MAGIC_LITTLE: seq<byte> := [0x54, 0x19, 0x01, 0x00]
  const MAGIC_BIG: seq<byte> := [0x00, 0x01, 0x19, 0x54]
  const MAGIC_OFFSET := 0x55c
  const SUPERBLOCK := 0x2000
  const SUPERBLOCK_READ := 0x600
  const PREFIX_SIZE := 0x40_0000

  datatype Candidate = Candidate(
    little: bool, magicOffset: nat, superblockOffset: int, bsize: nat, fsize: nat, frag: nat, plausible: bool)

  function MagicBytes(little: bool): seq<byte> { if little then MAGIC_LITTLE else MAGIC_BIG }

  /** _candidate_at: what is recorded for a magic number at an offset. */
  function CandidateAt(data: seq<byte>, at: nat, little: bool): (c: Candidate)
    ensures c.magicOffset == at && c.superblockOffset == at - MAGIC_OFFSET && c.little == little
  {
    var o := at - MAGIC_OFFSET;
    if 0 <= o && o + MAGIC_OFFSET + 4 <= |data| then
      var bsize, fsize, frag := U32(data, o + 0x30, little), U32(data, o + 0x34, little), U32(data, o + 0x38, little);
      Candidate(little, at, o, bsize, fsize, frag, Plausible(bsize, fsize, frag))
    else Candidate(little, at, o, 0, 0, 0, false)
  }

  /** The candidate of some occurrence of a magic number. */
  predicate IsCandidate(data: seq<byte>, c: Candidate) {
    MatchAt(data, MagicBytes(c.little), c.magicOffset) && c == CandidateAt(data, c.magicOffset, c.little)
  }

  predicate Increasing(cs: seq<Candidate>) {
    forall i, j :: 0 <= i < j < |cs| ==> cs[i].magicOffset < cs[j].magicOffset
  }

  /** The candidates of every occurrence in either byte order, once each, by position. */
  ghost predicate IsScan(data: seq<byte>, cs: seq<Candidate>) {
    Increasing(cs) && forall c :: c in cs <==> IsCandidate(data, c)
  }

  /** The find loop for one byte order. */
  method FindMagic(data: seq<byte>, little: bool) returns (cs: seq<Candidate>)
    ensures Increasing(cs) && forall c :: c in cs <==> IsCandidate(data, c) && c.little == little
  {
    hide CandidateAt, MagicBytes, MatchAt;
    var pattern := MagicBytes(little);
    cs := [];
    ghost var from := 0;
    var found := Find(data, pattern, 0);
    MatchInside(data, little);
    while found.Some?
      invariant from <= |data| && found == Find(data, pattern, from)
      invariant Increasing(cs)
      invariant forall c :: c in cs <==> IsCandidate(data, c) && c.little == little && c.magicOffset < from
      decreases |data| - from
    {
      cs := cs + [CandidateAt(data, found.value, little)];
      from := found.value + 1;
      found := Find(data, pattern, found.value + 1);
    }
  }

  lemma MatchInside(data: seq<byte>, little: bool)
    ensures forall i: nat :: MatchAt(data, MagicBytes(little), i) ==> i < |data|
  {
  }

  /** sorted: a stable sort by position. */
  function SortByOffset(cs: seq<Candidate>): seq<Candidate> {
    if |cs| == 0 then [] else Insert(cs[0], SortByOffset(cs[1..]))
  }

  function Insert(c: Candidate, cs: seq<Candidate>): seq<Candidate> {
    if |cs| == 0 || c.magicOffset <= cs[0].magicOffset then [c] + cs else [cs[0]] + Insert(c, cs[1..])
  }

  predicate Ascending(cs: seq<Candidate>) {
    |cs| == 0 || ((forall c :: c in cs[1..] ==> cs[0].magicOffset <= c.magicOffset) && Ascending(cs[1..]))
  }

  lemma {:induction false} InsertElements(c: Candidate, cs: seq<Candidate>)
    ensures multiset(Insert(c, cs)) == multiset{c} + multiset(cs)
    ensures forall x :: x in Insert(c, cs) <==> x == c || x in cs
  {
    if |cs| > 0 {
      assert cs == [cs[0]] + cs[1..];
      InsertElements(c, cs[1..]);
    }
  }

  lemma {:induction false} InsertAscending(c: Candidate, cs: seq<Candidate>)
    requires Ascending(cs)
    ensures Ascending(Insert(c, cs))
  {
    if |cs| == 0 || c.magicOffset <= cs[0].magicOffset {
      assert ([c] + cs)[1..] == cs;
    } else {
      var rest := Insert(c, cs[1..]);
      InsertAscending(c, cs[1..]);
      InsertElements(c, cs[1..]);
      assert ([cs[0]] + rest)[1..] == rest;
    }
  }

  /** Sorting keeps every element with its multiplicity and puts them in order. */
  lemma {:induction false} Sorted(cs: seq<Candidate>)
    ensures multiset(SortByOffset(cs)) == multiset(cs) && Ascending(SortByOffset(cs))
  {
    if |cs| > 0 {
      assert cs == [cs[0]] + cs[1..];
      Sorted(cs[1..]);
      InsertElements(cs[0], SortByOffset(cs[1..]));
      InsertAscending(cs[0], SortByOffset(cs[1..]));
    }
  }

  lemma {:induction false} AscendingAt(cs: seq<Candidate>, i: nat, j: nat)
    requires Ascending(cs) && i < j < |cs|
    ensures cs[i].magicOffset <= cs[j].magicOffset
  {
    if i == 0 {
      assert cs[j] == cs[1..][j - 1];
    } else {
      AscendingAt(cs[1..], i - 1, j - 1);
    }
  }

  /** scan_ufs1_superblocks. */
  method ScanSuperblocks(data: seq<byte>) returns (cs: seq<Candidate>)
    ensures IsScan(data, cs)
  {
    hide CandidateAt, MagicBytes, MatchAt, SortByOffset, Ascending;
    var little := FindMagic(data, true);
    var big := FindMagic(data, false);
    cs := SortByOffset(little + big);
    Sorted(little + big);
    SameElements(little + big, cs);
    forall i, j | 0 <= i < j < |cs|
      ensures cs[i].magicOffset < cs[j].magicOffset
    {
      AscendingAt(cs, i, j);
      assert cs[i] in cs && cs[j] in cs;
      if cs[i].magicOffset == cs[j].magicOffset {
        OneByteOrder(data, cs[i].magicOffset);
        TwoCopies(cs, i, j);
        AtMostOne(little, big, cs[i]);
      }
    }
  }

  lemma SameElements(a: seq<Candidate>, b: seq<Candidate>)
    requires multiset(a) == multiset(b)
    ensures forall c :: c in a <==> c in b
  {
    forall c
      ensures c in a <==> c in b
    {
      assert c in a <==> c in multiset(a);
      assert c in b <==> c in multiset(b);
    }
  }

  lemma FirstByte(data: seq<byte>, little: bool, at: nat)
    requires MatchAt(data, MagicBytes(little), at)
    ensures at < |data| && data[at] == if little then 0x54 else 0
  {
    assert data[at + 0] == MagicBytes(little)[0];
  }

  /** The two spellings of the magic number never occur at one position. */
  lemma OneByteOrder(data: seq<byte>, at: nat)
    ensures !(MatchAt(data, MagicBytes(true), at) && MatchAt(data, MagicBytes(false), at))
  {
    hide MatchAt, MagicBytes;
    if MatchAt(data, MagicBytes(true), at) && MatchAt(data, MagicBytes(false), at) {
      FirstByte(data, true, at);
      FirstByte(data, false, at);
    }
  }

  lemma {:induction false} CountOnce(cs: seq<Candidate>, c: Candidate)
    requires Increasing(cs)
    ensures multiset(cs)[c] == if c in cs then 1 else 0
    decreases |cs|
  {
    if |cs| > 0 {
      assert cs == [cs[0]] + cs[1..];
      CountOnce(cs[1..], c);
      if c in cs[1..] {
        var k :| 0 <= k < |cs| - 1 && cs[1..][k] == c;
        assert cs[0].magicOffset < cs[k + 1].magicOffset;
      }
    }
  }

  lemma AtMostOne(a: seq<Candidate>, b: seq<Candidate>, c: Candidate)
    requires Increasing(a) && Increasing(b) && !(c in a && c in b)
    ensures multiset(a + b)[c] <= 1
  {
    CountOnce(a, c);
    CountOnce(b, c);
    assert multiset(a + b)[c] == multiset(a)[c] + multiset(b)[c];
  }

  lemma TwoCopies(cs: seq<Candidate>, i: nat, j: nat)
    requires i < j < |cs|
    ensures cs[i] == cs[j] ==> multiset(cs)[cs[i]] >= 2
  {
    assert cs == cs[..i] + [cs[i]] + cs[i + 1..j] + [cs[j]] + cs[j + 1..];
  }

  // ---- choosing a root offset ----

  datatype RootChoice =
    | Labelled(offset: nat)       // the label's offset, and a superblock is there
    | Scanned(candidate: Candidate)  // the best plausible candidate of the scan
    | Unverified(offset: nat)     // the label's offset for want of anything better
    | NotFound
    | Malformed                   // the label's root partition record runs past the scanned bytes

  /** The label report, unless the first label is unusable. */
  function ReportOf(image: seq<byte>): Option<Inspection> { InspectLabels(Slice(image, 0, LABEL_SCAN_SIZE)) }

  /** A usable label whose root partition record is cut off raises an error of another kind. */
  predicate LabelMalformed(data: seq<byte>) {
    var first := Find(data, MAGIC, 0);
    && first.Some?
    && var p := ParseLabel(data, first.value);
       && p.Some? && RootNamed(p.value)
       && PartitionRecord(data, first.value + RootAt(p.value)).None?
  }

  predicate HasNativeSuperblock(image: seq<byte>, rootOffset: nat) {
    var magic := Slice(image, rootOffset + SUPERBLOCK + MAGIC_OFFSET, 4);
    magic == MAGIC_LITTLE || magic == MAGIC_BIG
  }

  predicate Usable(c: Candidate) { c.plausible && c.superblockOffset >= SUPERBLOCK }

  predicate Fits(c: Candidate, fsize: Option<nat>) { Usable(c) && (fsize.Some? ==> c.fsize == fsize.value) }

  function FirstFitting(cs: seq<Candidate>, fsize: Option<nat>): (r: Option<Candidate>)
    ensures r.Some? ==> r.value in cs && Fits(r.value, fsize)
    ensures r.None? ==> forall c :: c in cs ==> !Fits(c, fsize)
  {
    if |cs| == 0 then None
    else if Fits(cs[0], fsize) then Some(cs[0])
    else FirstFitting(cs[1..], fsize)
  }

  lemma {:induction false} FirstIsLowest(cs: seq<Candidate>, fsize: Option<nat>, c: Candidate)
    requires Increasing(cs) && c in cs && Fits(c, fsize)
    ensures FirstFitting(cs, fsize).Some? && FirstFitting(cs, fsize).value.magicOffset <= c.magicOffset
  {
    if !Fits(cs[0], fsize) {
      FirstIsLowest(cs[1..], fsize, c);
    }
  }

  /** The fragment size that the label asks for, if any. */
  function Preferred(report: Option<Inspection>): Option<nat> {
    if report.Some? && report.value.root.fragmentSize != 0 then Some(report.value.root.fragmentSize) else None
  }

  /** c is the lowest candidate of the scanned prefix that fits. */
  ghost predicate Lowest(data: seq<byte>, c: Candidate, fsize: Option<nat>) {
    && IsCandidate(data, c) && Fits(c, fsize)
    && forall d :: IsCandidate(data, d) && Fits(d, fsize) ==> c.magicOffset <= d.magicOffset
  }

  ghost predicate NoneFits(data: seq<byte>, fsize: Option<nat>) {
    forall d :: IsCandidate(data, d) ==> !Fits(d, fsize)
  }

  /** The choice is the best there is: the label if it is right, else the scan, else the label on trust. */
  ghost predicate RightChoice(image: seq<byte>, r: RootChoice) {
    var report := ReportOf(image);
    var data := Slice(image, 0, PREFIX_SIZE);
    match r
    case Malformed => LabelMalformed(Slice(image, 0, LABEL_SCAN_SIZE))
    case Labelled(o) => report.Some? && o == report.value.ufsByteOffset && HasNativeSuperblock(image, o)
    case Scanned(c) =>
      && (report.Some? ==> !HasNativeSuperblock(image, report.value.ufsByteOffset))
      && (Lowest(data, c, Preferred(report)) || (NoneFits(data, Preferred(report)) && Lowest(data, c, None)))
    case Unverified(o) =>
      && report.Some? && o == report.value.ufsByteOffset && !HasNativeSuperblock(image, o) && NoneFits(data, None)
    case NotFound => report.None? && NoneFits(data, None)
  }

  /** default_root_offset. */
  method DefaultRootOffset(image: seq<byte>) returns (r: RootChoice)
    ensures RightChoice(image, r)
    ensures r == Malformed <==> LabelMalformed(Slice(image, 0, LABEL_SCAN_SIZE))
  {
    hide InspectLabels, PartitionRecord, ParseLabel, Find, CandidateAt, MagicBytes, MatchAt, HasNativeSuperblock, Slice;
    if LabelMalformed(Slice(image, 0, LABEL_SCAN_SIZE)) {
      return Malformed;
    }
    var report := ReportOf(image);
    if report.Some? && HasNativeSuperblock(image, report.value.ufsByteOffset) {
      return Labelled(report.value.ufsByteOffset);
    }
    var data := Slice(image, 0, PREFIX_SIZE);
    var cs := ScanSuperblocks(data);
    var matching := FirstFitting(cs, Preferred(report));
    if matching.Some? {
      FirstFittingIsLowest(data, cs, Preferred(report));
      return Scanned(matching.value);
    }
    var any := FirstFitting(cs, None);
    if any.Some? {
      FirstFittingIsLowest(data, cs, None);
      return Scanned(any.value);
    }
    return if report.Some? then Unverified(report.value.ufsByteOffset) else NotFound;
  }

  lemma FirstFittingIsLowest(data: seq<byte>, cs: seq<Candidate>, fsize: Option<nat>)
    requires IsScan(data, cs) && FirstFitting(cs, fsize).Some?
    ensures Lowest(data, FirstFitting(cs, fsize).value, fsize)
  {
    hide CandidateAt, MagicBytes, MatchAt, Fits, FirstFitting;
    forall d | IsCandidate(data, d) && Fits(d, fsize)
      ensures FirstFitting(cs, fsize).value.magicOffset <= d.magicOffset
    {
      FirstIsLowest(cs, fsize, d);
    }
  }

  // ---- opening the volume ----

  function I32(s: seq<byte>, o: nat, little: bool): int
    requires o + 4 <= |s|
  {
    var v := U32(s, o, little);
    if v >= WORD / 2 then v - WORD else v
  }

  function DecodeSuperblock(data: seq<byte>, little: bool): Superblock
    requires |data| == SUPERBLOCK_READ
  {
    Superblock(little, I32(data, 0x10, little), I32(data, 0x18, little), I32(data, 0x1c, little),
               I32(data, 0x30, little), I32(data, 0x34, little), I32(data, 0x38, little), I32(data, 0x74, little),
               I32(data, 0x78, little), I32(data, 0xb8, little), I32(data, 0xbc, little))
  }

  /** _read_superblock. */
  function ReadSuperblock(image: seq<byte>, offset: int): Option<Superblock> {
    match ReadAt(image, offset, SUPERBLOCK_READ)
    case None => None
    case Some(data) =>
      if U32(data, MAGIC_OFFSET, true) == UFS1_MAGIC then Some(DecodeSuperblock(data, true))
      else if U32(data, MAGIC_OFFSET, false) == UFS1_MAGIC then Some(DecodeSuperblock(data, false))
      else None
  }

  /** The superblock offset that a choice leads to. */
  function OffsetOf(r: RootChoice): int
    requires r.Labelled? || r.Scanned? || r.Unverified?
  {
    if r.Scanned? then r.candidate.superblockOffset else r.offset + SUPERBLOCK
  }

  lemma MagicValue(s: seq<byte>, o: nat, little: bool)
    requires o + 4 <= |s|
    ensures U32(s, o, little) == UFS1_MAGIC <==> s[o..o + 4] == MagicBytes(little)
  {
    var m := s[o..o + 4];
    assert m == [s[o], s[o + 1], s[o + 2], s[o + 3]];
  }

  lemma SameWord(s: seq<byte>, t: seq<byte>, o: nat, at: nat, little: bool)
    requires o + |t| <= |s| && t == s[o..o + |t|] && at + 4 <= |t|
    ensures U32(t, at, little) == U32(s, o + at, little)
  {
    assert forall k :: 0 <= k < |t| ==> t[k] == s[o + k];
  }

  /** A superblock can be read exactly where its bytes are there and hold a magic number in either order. */
  lemma ReadableSuperblock(image: seq<byte>, o: nat)
    ensures ReadSuperblock(image, o).Some? <==>
            && o + SUPERBLOCK_READ <= |image|
            && var magic := image[o + MAGIC_OFFSET..o + MAGIC_OFFSET + 4];
               magic == MAGIC_LITTLE || magic == MAGIC_BIG
    ensures ReadSuperblock(image, o).Some? ==>
              ReadSuperblock(image, o).value.little == (image[o + MAGIC_OFFSET..o + MAGIC_OFFSET + 4] == MAGIC_LITTLE)
  {
    hide U32, I32;
    if o + SUPERBLOCK_READ <= |image| {
      var data := image[o..o + SUPERBLOCK_READ];
      assert data[MAGIC_OFFSET..MAGIC_OFFSET + 4] == image[o + MAGIC_OFFSET..o + MAGIC_OFFSET + 4];
      MagicValue(data, MAGIC_OFFSET, true);
      MagicValue(data, MAGIC_OFFSET, false);
    }
  }

  lemma CandidateInImage(image: seq<byte>, c: Candidate)
    requires IsCandidate(Slice(image, 0, PREFIX_SIZE), c) && Usable(c)
    ensures c.superblockOffset + MAGIC_OFFSET + 4 <= |image|
    ensures image[c.magicOffset..c.magicOffset + 4] == MagicBytes(c.little)
    ensures c == CandidateAt(image, c.magicOffset, c.little)
  {
    hide U32;
    var data := Slice(image, 0, PREFIX_SIZE);
    assert data == image[0..0 + |data|];
    var o := c.superblockOffset;
    SameWord(image, data, 0, o + 0x30, c.little);
    SameWord(image, data, 0, o + 0x34, c.little);
    SameWord(image, data, 0, o + 0x38, c.little);
    assert forall k :: 0 <= k < 4 ==> image[c.magicOffset + k] == data[c.magicOffset + k] == MagicBytes(c.little)[k];
  }

  /**
   The volume opens at the chosen offset exactly when the choice is not the label
   on trust and the superblock's whole 0x600 bytes are there: the checks that lead
   to the choice look at no more than the first 0x560 of them.
   */
  lemma OpensExactly(image: seq<byte>, r: RootChoice)
    requires RightChoice(image, r) && (r.Labelled? || r.Scanned? || r.Unverified?)
    ensures 0 <= OffsetOf(r)
    ensures ReadSuperblock(image, OffsetOf(r)).Some? <==>
            !r.Unverified? && OffsetOf(r) + SUPERBLOCK_READ <= |image|
  {
    hide InspectLabels, ReadSuperblock, CandidateAt, NoneFits;
    var o := OffsetOf(r);
    if r.Scanned? {
      CandidateInImage(image, r.candidate);
    }
    ReadableSuperblock(image, o);
    if o + SUPERBLOCK_READ <= |image| {
      assert Slice(image, o + MAGIC_OFFSET, 4) == image[o + MAGIC_OFFSET..o + MAGIC_OFFSET + 4];
    }
  }

  lemma SuperblockFields(image: seq<byte>, c: Candidate)
    requires c == CandidateAt(image, c.magicOffset, c.little) && Usable(c)
    requires ReadSuperblock(image, c.superblockOffset).Some?
    requires ReadSuperblock(image, c.superblockOffset).value.little == c.little
    ensures var sb := ReadSuperblock(image, c.superblockOffset).value;
            sb.bsize == c.bsize && sb.fsize == c.fsize && sb.frag == c.frag && c.bsize > 0
    ensures Plausible(c.bsize, c.fsize, c.frag)
  {
    hide U32;
    var o := c.superblockOffset;
    var data := image[o..o + SUPERBLOCK_READ];
    SameWord(image, data, o, 0x30, c.little);
    SameWord(image, data, o, 0x34, c.little);
    SameWord(image, data, o, 0x38, c.little);
  }

  // ---- an image that is too short ----

  /** An image that ends right behind the magic number of a plausible superblock. */
  function ShortImage(): (s: seq<byte>)
    ensures |s| == SUPERBLOCK + MAGIC_OFFSET + 4 && forall k :: 0 <= k < |s| ==> s[k] == ShortByte(k)
  {
    seq(SUPERBLOCK + MAGIC_OFFSET + 4, k requires 0 <= k => ShortByte(k))
  }

  function ShortByte(k: nat): byte {
    if k == 0x2031 then 0x20 else if k == 0x2035 then 0x04 else if k == 0x2038 then 0x08
    else if k == 0x255c then 0x54 else if k == 0x255d then 0x19 else if k == 0x255e then 0x01 else 0
  }

  const SHORT := Candidate(true, 0x255c, 0x2000, 8192, 1024, 8, true)

  lemma ShortCandidate()
    ensures IsCandidate(ShortImage(), SHORT) && Usable(SHORT)
  {
    hide ShortImage;
    var s := ShortImage();
    assert U32(s, 0x2030, true) == 8192 && U32(s, 0x2034, true) == 1024 && U32(s, 0x2038, true) == 8;
  }

  lemma OnlyShortCandidate(at: nat, little: bool)
    requires MatchAt(ShortImage(), MagicBytes(little), at)
    ensures little && at == 0x255c
  {
    hide ShortImage, MatchAt;
    var s := ShortImage();
    if little {
      MatchByte(s, MAGIC_LITTLE, at, 0);
    } else {
      MatchByte(s, MAGIC_BIG, at, 2);
      MatchByte(s, MAGIC_BIG, at, 3);
    }
  }

  lemma ShortReport()
    ensures ReportOf(ShortImage()).None? && Find(Slice(ShortImage(), 0, LABEL_SCAN_SIZE), MAGIC, 0).None?
  {
    hide ShortImage, InspectAt, ShortByte, Find, MatchAt;
    var s := Slice(ShortImage(), 0, LABEL_SCAN_SIZE);
    assert s == ShortImage();
    var first := Find(s, MAGIC, 0);
    if first.Some? {
      MatchByte(s, MAGIC, first.value, 0);
      NoD(first.value);
    }
  }

  lemma NoD(k: nat)
    ensures ShortByte(k) != 0x64
  {
  }

  /** The scan finds its superblock and the choice falls on it, but the volume does not open. */
  lemma ShortImageFails(r: RootChoice)
    requires RightChoice(ShortImage(), r)
    ensures r == Scanned(SHORT) && ReadSuperblock(ShortImage(), SHORT.superblockOffset).None?
  {
    ShortReport();
    ShortCandidate();
    hide ShortImage, CandidateAt, MatchAt, InspectLabels, Find, ReadSuperblock;
    var data := Slice(ShortImage(), 0, PREFIX_SIZE);
    assert data == ShortImage();
    if r.Scanned? {
      OnlyShortCandidate(r.candidate.magicOffset, r.candidate.little);
    }
    OpensExactly(ShortImage(), Scanned(SHORT));
  }

  /** A scanned volume opens with the byte order and block sizes that the scan judged plausible. */
  lemma ScannedGeometry(image: seq<byte>, c: Candidate)
    requires RightChoice(image, Scanned(c)) && c.superblockOffset + SUPERBLOCK_READ <= |image|
    ensures 0 <= c.superblockOffset && ReadSuperblock(image, c.superblockOffset).Some?
    ensures var sb := ReadSuperblock(image, c.superblockOffset).value;
            && sb.little == c.little && sb.bsize == c.bsize && sb.fsize == c.fsize && sb.frag == c.frag
            && sb.bsize > 0 && sb.fsize > 0 && sb.frag * sb.fsize == sb.bsize
  {
    hide InspectLabels, U32, NoneFits, CandidateAt, MatchAt, Plausible, ReadSuperblock;
    var o := c.superblockOffset;
    CandidateInImage(image, c);
    OpensExactly(image, Scanned(c));
    ReadableSuperblock(image, o);
    SuperblockFields(image, c);
    PlausibleGeometry(c.bsize, c.fsize, c.frag);
  }

  /** Where the boot loader finds the root file system, and a superblock is there, the host tool looks. */
  lemma ToolOpensLoaderRoot(image: seq<byte>, o: nat, labelSector: nat, r: RootChoice)
    requires var data := Slice(image, 0, LABEL_SCAN_SIZE);
             && Find(data, MAGIC, 0) == Some(o) && o + LABEL_SIZE <= |data|
             && LoaderAccepts(data[o..o + LABEL_SIZE], labelSector)
             && HasNativeSuperblock(image, RootOffset(data[o..o + LABEL_SIZE]))
    requires RightChoice(image, r)
    ensures r == Labelled(RootOffset(Slice(image, 0, LABEL_SCAN_SIZE)[o..o + LABEL_SIZE]))
  {
    hide LoaderAccepts, ReportUsable, HasNativeSuperblock, NoneFits, Lowest, RootOffset, PartitionRecord,
         ParseLabel, Find;
    ReadersAgree(Slice(image, 0, LABEL_SCAN_SIZE), o, labelSector);
  }
}
