/**
 NeXT dlV3 disk labels: the checksum in its two implementations, the boot
 loader's reader (nextlabel.c) and the host tool's reader (nextlabel.py), and
 the theorem that they agree.
 */
module NextLabel {
  import opened Bytes
  import opened ByteSearch

  const MAGIC: seq<byte> := [0x64, 0x6c, 0x56, 0x33]
  const LABEL_SIZE := 1024
  const LABEL_SCAN_SIZE := 32768
  const CHECKSUM := 558
  const CHECKSUM_WORDS := 279
  const SECTOR_SIZE := 94
  const FRONT := 112
  const ROOT := 188
  const PARTITION_A := 192
  const PARTITION_SIZE := 64
  const PARTITION_TYPE := 35
  const PARTITION_COUNT := 8
  const UFS_TYPE: seq<byte> := [0x34, 0x2e, 0x33, 0x42, 0x53, 0x44]  // 4.3BSD
  const BPS := 512

  // ---- the checksum ----

  /** Sum of the first n big-endian words. */
  function WordSum(lab: seq<byte>, n: nat): nat
    requires 2 * n <= |lab|
  {
    if n == 0 then 0 else WordSum(lab, n - 1) + Be16(lab, 2 * (n - 1))
  }

  /** The value in 0..0xffff congruent to t modulo 0xffff, zero only for zero. */
  function EndAround(t: nat): (r: nat)
    ensures r <= 0xffff
  {
    if t == 0 then 0 else 1 + (t - 1) % 0xffff
  }

  function Checksum(lab: seq<byte>): nat
    requires CHECKSUM <= |lab|
  {
    EndAround(WordSum(lab, CHECKSUM_WORDS))
  }

  /** The label with its block number zeroed. */
  function Normalized(lab: seq<byte>): (r: seq<byte>)
    requires 8 <= |lab|
    ensures |r| == |lab|
  {
    lab[..4] + [0, 0, 0, 0] + lab[8..]
  }

  lemma EndAroundStep(t: nat, word: nat)
    requires word <= 0xffff
    ensures var s := EndAround(t) + word;
            EndAround(t + word) == if s > 0xffff then s - 0xffff else s
  {
  }

  lemma EndAroundFold(t: nat)
    ensures EndAround(t % 0x1_0000 + t / 0x1_0000) == EndAround(t)
    ensures t >= 0x1_0000 ==> t % 0x1_0000 + t / 0x1_0000 < t
  {
    var q, r := t / 0x1_0000, t % 0x1_0000;
    assert t == r + q + 0xffff * q;
    ModAddMultiple(r + q - 1, q);
  }

  lemma {:induction false} ModAddMultiple(a: int, q: nat)
    ensures (a + 0xffff * q) % 0xffff == a % 0xffff
  {
    if q > 0 {
      ModAddMultiple(a, q - 1);
    }
  }

  /** Normalizing zeroes two words and keeps the others. */
  lemma NormalWord(lab: seq<byte>, i: nat)
    requires 8 <= |lab| && 2 * i + 2 <= |lab|
    ensures Be16(Normalized(lab), 2 * i) == if i == 2 || i == 3 then 0 else Be16(lab, 2 * i)
  {
  }

  lemma NextWord(lab: seq<byte>, i: nat)
    requires 2 * i + 2 <= |lab|
    ensures WordSum(lab, i + 1) == WordSum(lab, i) + Be16(lab, 2 * i)
  {
  }

  /** dlV3Checksum: add a word at a time, correcting each carry at once, and skip the block number. */
  method DlV3Checksum(lab: seq<byte>) returns (sum: nat)
    requires |lab| >= LABEL_SIZE
    ensures sum == Checksum(Normalized(lab))
  {
    ghost var normal := Normalized(lab);
    assert |normal| == |lab|;
    sum := 0;
    var offset := 0;
    ghost var i := 0;
    hide Be16, Normalized, EndAround;
    Nothing(normal);
    while offset < CHECKSUM
      invariant offset == 2 * i <= CHECKSUM && sum <= 0xffff
      invariant sum == EndAround(WordSum(normal, i))
    {
      var word := Be16(lab, offset);
      if offset == 4 || offset == 6 {
        word := 0;
      }
      NormalWord(lab, i);
      NextWord(normal, i);
      EndAroundStep(WordSum(normal, i), word);
      sum := sum + word;
      if sum > 0xffff {
        sum := sum - 0xffff;
      }
      offset := offset + 2;
      i := i + 1;
    }
  }

  lemma Nothing(lab: seq<byte>)
    ensures EndAround(WordSum(lab, 0)) == 0
  {
  }

  /** checksum_v3: add all words, then fold the carries until none is left. */
  method ChecksumV3(lab: seq<byte>) returns (r: Option<nat>)
    ensures r == if |lab| < CHECKSUM + 2 || lab[..4] != MAGIC then None else Some(Checksum(lab))
  {
    if |lab| < CHECKSUM + 2 || lab[..4] != MAGIC {
      return None;
    }
    var total: nat := 0;
    var i := 0;
    while i < CHECKSUM_WORDS
      invariant i <= CHECKSUM_WORDS && total == WordSum(lab, i)
    {
      total := total + Be16(lab, 2 * i);
      i := i + 1;
    }
    while total / 0x1_0000 != 0
      invariant EndAround(total) == Checksum(lab)
      decreases total
    {
      EndAroundFold(total);
      total := total % 0x1_0000 + total / 0x1_0000;
    }
    return Some(total);
  }

  // ---- the boot loader's reader ----

  function PartitionAt(lab: seq<byte>): nat
    requires |lab| >= LABEL_SIZE && 'a' as int <= lab[ROOT] <= 'h' as int
    ensures PARTITION_A <= PartitionAt(lab) <= LABEL_SIZE - PARTITION_SIZE
  {
    PARTITION_A + (lab[ROOT] - 'a' as int) * PARTITION_SIZE
  }

  /** What NeXTLabelUFSOffset demands of the root partition and the sector size. */
  predicate UsableRoot(lab: seq<byte>)
    requires |lab| >= LABEL_SIZE
  {
    && 'a' as int <= lab[ROOT] <= 'h' as int
    && var part := PartitionAt(lab);
       && Be24(lab, part) != 0xff_ffff
       && Be24(lab, part + 3) != 0 && Be24(lab, part + 3) != 0xff_ffff
       && lab[part + PARTITION_TYPE..part + PARTITION_TYPE + 6] == UFS_TYPE
       && Be16(lab, SECTOR_SIZE) != 0 && Be16(lab, SECTOR_SIZE) % BPS == 0
  }

  predicate LoaderAccepts(lab: seq<byte>, labelSector: nat) {
    && |lab| >= LABEL_SIZE
    && lab[..4] == MAGIC && Be32(lab, 4) == labelSector
    && Be16(lab, CHECKSUM) == Checksum(Normalized(lab))
    && UsableRoot(lab)
  }

  /** Where a partition starts, in bytes. */
  function StartByte(sectors: nat, secsize: nat): nat { sectors * secsize }

  /** The byte offset of the root file system that a label denotes. */
  function RootOffset(lab: seq<byte>): nat
    requires |lab| >= LABEL_SIZE && 'a' as int <= lab[ROOT] <= 'h' as int
  {
    StartByte(Be16(lab, FRONT) + Be24(lab, PartitionAt(lab)), Be16(lab, SECTOR_SIZE))
  }

  lemma MagicWord(lab: seq<byte>)
    requires |lab| >= 4
    ensures Be32(lab, 0) == 0x646c_5633 <==> lab[..4] == MAGIC
  {
    if lab[..4] == MAGIC {
      assert lab[0] == lab[..4][0] && lab[1] == lab[..4][1] && lab[2] == lab[..4][2] && lab[3] == lab[..4][3];
    }
  }

  lemma MulAtMost(a: nat, b: nat, c: nat, d: nat)
    requires a <= c && b <= d
    ensures a * b <= c * d
  {
    assert a * b <= c * b by {
      assert c * b == a * b + (c - a) * b;
    }
    assert c * d == c * b + c * (d - b);
  }

  lemma MulThree(a: nat, b: nat, c: nat)
    ensures a * b * c == a * (b * c)
  {
  }

  lemma SectorBound(front: nat, base: nat, secsize: nat)
    requires front <= 0xffff && base < 0xff_ffff && secsize <= 0xffff && secsize % BPS == 0
    ensures (front + base) * (secsize / BPS) <= 0xffff_ffff
    ensures (front + base) * (secsize / BPS) * BPS == StartByte(front + base, secsize)
  {
    var n := secsize / BPS;
    MulAtMost(front + base, n, 0xffff + 0xff_fffe, 127);
    MulThree(front + base, n, BPS);
  }

  /** NeXTLabelUFSOffset: the sector where the root file system starts. Its overflow test never fires. */
  method NeXTLabelUFSOffset(lab: seq<byte>, labelSector: nat) returns (r: Option<nat>)
    ensures r.Some? <==> LoaderAccepts(lab, labelSector)
    ensures r.Some? ==> r.value * BPS == RootOffset(lab) && r.value <= 0xffff_ffff
  {
    hide Be16, Be24, Be32, Checksum, Normalized, StartByte;
    if |lab| < LABEL_SIZE {
      return None;
    }
    MagicWord(lab);
    if Be32(lab, 0) != 0x646c_5633 || Be32(lab, 4) != labelSector {
      return None;
    }
    var sum := DlV3Checksum(lab);
    if Be16(lab, CHECKSUM) != sum {
      return None;
    }
    if lab[ROOT] < 'a' as int || lab[ROOT] > 'h' as int {
      return None;
    }
    var root := lab[ROOT] - 'a' as int;
    var part := PARTITION_A + root * PARTITION_SIZE;
    var base := Be24(lab, part);
    var size := Be24(lab, part + 3);
    if base == 0xff_ffff || size == 0 || size == 0xff_ffff {
      return None;
    }
    if lab[part + PARTITION_TYPE..part + PARTITION_TYPE + 6] != UFS_TYPE {
      return None;
    }
    var secsize := Be16(lab, SECTOR_SIZE);
    var front := Be16(lab, FRONT);
    if secsize == 0 || secsize % BPS != 0 {
      return None;
    }
    SectorBound(front, base, secsize);
    var sectors := (front + base) * (secsize / BPS);
    if sectors > 0xffff_ffff {
      return None;
    }
    return Some(sectors);
  }

  // ---- the host tool's reader ----

  datatype Partition = Partition(base: nat, size: nat, blockSize: nat, fragmentSize: nat, kind: seq<byte>)

  datatype Parsed = Parsed(
    labelBlock: nat, sectorSize: nat, frontPorch: nat, rootPartition: byte,
    partitionA: Partition, partitionB: Partition,
    stored: nat, computed: nat, normalized: nat, checksumValid: bool)

  /** A fixed-width text field up to its first NUL. */
  function Text(s: seq<byte>): seq<byte> { s[..IndexOf(s, 0, 0)] }

  function PartitionRecord(s: seq<byte>, at: nat): Option<Partition> {
    if at + 10 > |s| then None
    else Some(Partition(Be24(s, at), Be24(s, at + 3), Be16(s, at + 6), Be16(s, at + 8),
                        Text(Slice(s, at + PARTITION_TYPE, 8))))
  }

  function ParseLabel(data: seq<byte>, offset: nat): Option<Parsed> {
    var lab := Slice(data, offset, CHECKSUM + 2);
    if |lab| < CHECKSUM + 2 || lab[..4] != MAGIC then None
    else
      var stored := Be16(lab, CHECKSUM);
      var computed := Checksum(lab);
      var normalized := Checksum(Normalized(lab));
      Some(Parsed(
        Be32(lab, 4), Be16(lab, SECTOR_SIZE), Be16(lab, FRONT), lab[ROOT],
        PartitionRecord(lab, PARTITION_A).value, PartitionRecord(lab, PARTITION_A + PARTITION_SIZE).value,
        stored, computed, normalized, stored == computed || stored == normalized))
  }

  datatype Inspection = Inspection(primary: Parsed, offset: nat, root: Partition, ufsByteOffset: nat)

  predicate RootNamed(p: Parsed) { 'a' as int <= p.rootPartition < 'a' as int + PARTITION_COUNT }

  function RootAt(p: Parsed): nat
    requires RootNamed(p)
  {
    PARTITION_A + (p.rootPartition - 'a' as int) * PARTITION_SIZE
  }

  function InspectParsed(data: seq<byte>, o: nat, p: Parsed): Option<Inspection>
    requires RootNamed(p)
  {
    match PartitionRecord(data, o + RootAt(p))
    case None => None
    case Some(root) => Some(Inspection(p, o, root, StartByte(p.frontPorch + root.base, p.sectorSize)))
  }

  /** inspect_labels, once the first label has been found at o. */
  function InspectAt(data: seq<byte>, o: nat): Option<Inspection> {
    match ParseLabel(data, o)
    case None => None
    case Some(p) => if RootNamed(p) then InspectParsed(data, o, p) else None
  }

  /** inspect_labels on the bytes it scans: the first label in them is primary. */
  function InspectLabels(data: seq<byte>): Option<Inspection> {
    var first := Find(data, MAGIC, 0);
    if first.None? then None else InspectAt(data, first.value)
  }

  // ---- agreement ----

  lemma {:induction false} WordSumPrefix(s: seq<byte>, t: seq<byte>, n: nat)
    requires 2 * n <= |s| && 2 * n <= |t| && forall k :: 0 <= k < 2 * n ==> s[k] == t[k]
    ensures WordSum(s, n) == WordSum(t, n)
  {
    if n > 0 {
      WordSumPrefix(s, t, n - 1);
    }
  }

  lemma TextPrefix(s: seq<byte>)
    requires |s| == 8
    ensures s[..6] == UFS_TYPE <==> |Text(s)| >= 6 && Text(s)[..6] == UFS_TYPE
  {
    if s[..6] == UFS_TYPE {
      assert forall k :: 0 <= k < 6 ==> s[k] == s[..6][k];
    } else if |Text(s)| >= 6 {
      assert Text(s)[..6] == s[..6];
    }
  }

  /** The host tool's view of a complete label at o is the label's own fields. */
  lemma ParsedFields(data: seq<byte>, o: nat, lab: seq<byte>)
    requires o + LABEL_SIZE <= |data| && lab == data[o..o + LABEL_SIZE] && lab[..4] == MAGIC
    ensures var r := ParseLabel(data, o);
            && r.Some?
            && r.value.labelBlock == Be32(lab, 4) && r.value.sectorSize == Be16(lab, SECTOR_SIZE)
            && r.value.frontPorch == Be16(lab, FRONT) && r.value.rootPartition == lab[ROOT]
            && r.value.stored == Be16(lab, CHECKSUM)
            && r.value.normalized == Checksum(Normalized(lab)) && r.value.computed == Checksum(lab)
            && r.value.checksumValid == (r.value.stored == r.value.computed || r.value.stored == r.value.normalized)
  {
    var short := Slice(data, o, CHECKSUM + 2);
    assert short == lab[..CHECKSUM + 2];
    assert short[..4] == lab[..4];
    WordSumPrefix(short, lab, CHECKSUM_WORDS);
    WordSumPrefix(Normalized(short), Normalized(lab), CHECKSUM_WORDS);
  }

  lemma SubSlice(s: seq<byte>, o: nat, n: nat, at: nat, m: nat)
    requires o + n <= |s| && at + m <= n
    ensures s[o..o + n][at..at + m] == s[o + at..o + at + m]
  {
    var a, b := s[o..o + n][at..at + m], s[o + at..o + at + m];
    assert |a| == |b|;
    assert forall k :: 0 <= k < m ==> a[k] == s[o..o + n][at + k] == s[o + at + k] == b[k];
  }

  lemma RootKind(data: seq<byte>, o: nat, lab: seq<byte>, at: nat)
    requires o + LABEL_SIZE <= |data| && lab == data[o..o + LABEL_SIZE] && at + 8 <= LABEL_SIZE
    ensures var kind := Text(Slice(data, o + at, 8));
            lab[at..at + 6] == UFS_TYPE <==> |kind| >= 6 && kind[..6] == UFS_TYPE
  {
    hide Text;
    SubSlice(data, o, LABEL_SIZE, at, 8);
    var field := Slice(data, o + at, 8);
    assert field == lab[at..at + 8];
    assert field[..6] == lab[at..at + 6];
    TextPrefix(field);
  }

  lemma RootRecord(data: seq<byte>, o: nat, lab: seq<byte>)
    requires o + LABEL_SIZE <= |data| && lab == data[o..o + LABEL_SIZE]
    requires 'a' as int <= lab[ROOT] <= 'h' as int
    ensures var part := PartitionAt(lab);
            var r := PartitionRecord(data, o + part);
            && r.Some? && r.value.base == Be24(lab, part) && r.value.size == Be24(lab, part + 3)
            && (lab[part + PARTITION_TYPE..part + PARTITION_TYPE + 6] == UFS_TYPE <==>
                |r.value.kind| >= 6 && r.value.kind[..6] == UFS_TYPE)
  {
    hide Text, Slice, PartitionAt;
    var part := PartitionAt(lab);
    RootKind(data, o, lab, part + PARTITION_TYPE);
  }

  /** What the host tool's report must say for the boot loader to accept the label. */
  predicate ReportUsable(i: Inspection, labelSector: nat) {
    && i.primary.labelBlock == labelSector
    && i.primary.stored == i.primary.normalized
    && i.root.base != 0xff_ffff && i.root.size != 0 && i.root.size != 0xff_ffff
    && |i.root.kind| >= 6 && i.root.kind[..6] == UFS_TYPE
    && i.primary.sectorSize != 0 && i.primary.sectorSize % BPS == 0
  }

  /**
   The two readers agree on the label copy that the host tool takes as primary:
   the loader accepts it exactly when the tool reports it usable, and then the
   tool marks its checksum valid and both put the root file system at one place.
   */
  lemma ReadersAgree(data: seq<byte>, o: nat, labelSector: nat)
    requires Find(data, MAGIC, 0) == Some(o) && o + LABEL_SIZE <= |data|
    ensures var lab := data[o..o + LABEL_SIZE];
            var report := InspectLabels(data);
            && (LoaderAccepts(lab, labelSector) <==> report.Some? && ReportUsable(report.value, labelSector))
            && (LoaderAccepts(lab, labelSector) ==>
                  report.value.primary.checksumValid && report.value.ufsByteOffset == RootOffset(lab))
  {
    hide ParseLabel, PartitionRecord, Find, Checksum;
    var lab := data[o..o + LABEL_SIZE];
    assert lab[..4] == MAGIC by {
      assert forall k :: 0 <= k < 4 ==> lab[k] == data[o + k] == MAGIC[k];
    }
    ParsedFields(data, o, lab);
    if 'a' as int <= lab[ROOT] <= 'h' as int {
      RootRecord(data, o, lab);
    }
  }
}
