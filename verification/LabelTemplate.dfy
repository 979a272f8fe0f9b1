/**
 Writing dlV3 labels: update_template edits a copy of a template in place, and
 the disc wrapper uses it to point partitions a and b at files of an ISO image.
 */
module LabelTemplate {
  import opened Bytes
  import opened ByteSearch
  import opened NextLabel

  const EXPORT_SIZE := 7680
  const PARTITION_B := 256

  /** A second partition: its base relative to the front porch, and its size, in sectors. */
  datatype Extent = Extent(base: int, size: int)

  datatype Edit = Edit(frontPorch: int, blocks: int, partitionB: Option<Extent>, aBase: Option<int>)

  predicate Fits24(v: int) { 0 <= v <= 0xff_ffff }

  /** The inputs update_template takes without raising. */
  predicate EditFits(lab: seq<byte>, e: Edit) {
    && |lab| == EXPORT_SIZE && lab[..4] == MAGIC
    && 0 <= e.frontPorch <= 0xffff && Fits24(e.blocks)
    && (e.aBase.Some? ==> Fits24(e.aBase.value))
    && (e.partitionB.Some? ==> Fits24(e.partitionB.value.base) && Fits24(e.partitionB.value.size))
  }

  predicate Edited(e: Edit, k: nat) {
    || 4 <= k < 8 || FRONT <= k < FRONT + 2
    || PARTITION_A + (if e.aBase.Some? then 0 else 3) <= k < PARTITION_A + 6
    || (e.partitionB.Some? && PARTITION_B <= k < PARTITION_B + PARTITION_SIZE)
    || CHECKSUM <= k < CHECKSUM + 2
  }

  /** The edited label, field by field; every byte outside the edited fields is the template's. */
  predicate IsEdit(lab: seq<byte>, e: Edit, r: seq<byte>)
    requires EditFits(lab, e)
  {
    && |r| == EXPORT_SIZE
    && Be32(r, 4) == 0
    && Be16(r, FRONT) == e.frontPorch
    && Be24(r, PARTITION_A) == (if e.aBase.Some? then e.aBase.value else Be24(lab, PARTITION_A))
    && Be24(r, PARTITION_A + 3) == e.blocks
    && (e.partitionB.Some? ==>
          && Be24(r, PARTITION_B) == e.partitionB.value.base
          && Be24(r, PARTITION_B + 3) == e.partitionB.value.size
          && forall k :: PARTITION_B + 6 <= k < PARTITION_B + PARTITION_SIZE ==> r[k] == lab[k - PARTITION_SIZE])
    && Be16(r, CHECKSUM) == Checksum(r)
    && forall k :: 0 <= k < EXPORT_SIZE && !Edited(e, k) ==> r[k] == lab[k]
  }

  /** update_template: the template copied into a buffer and edited in place. */
  method UpdateTemplate(lab: seq<byte>, e: Edit) returns (r: Option<seq<byte>>)
    ensures r.Some? <==> EditFits(lab, e)
    ensures r.Some? ==> IsEdit(lab, e, r.value)
  {
    hide Checksum, PutBe16, PutBe24;
    if |lab| != EXPORT_SIZE || lab[..4] != MAGIC {
      return None;
    }
    if !(0 <= e.frontPorch <= 0xffff) {
      return None;
    }
    var result := new byte[EXPORT_SIZE](i requires 0 <= i < EXPORT_SIZE => lab[i]);
    var ok := WriteFront(result, e);
    if !ok {
      return None;
    }
    if e.partitionB.Some? {
      ok := WritePartitionB(result, e.partitionB.value);
      if !ok {
        return None;
      }
    }
    Seal(result);
    return Some(result[..]);
  }

  /** The label block, the front porch and the extent of partition a. */
  method WriteFront(result: array<byte>, e: Edit) returns (ok: bool)
    requires result.Length == EXPORT_SIZE && 0 <= e.frontPorch <= 0xffff
    modifies result
    ensures ok <==> (e.aBase.Some? ==> Fits24(e.aBase.value)) && Fits24(e.blocks)
    ensures ok ==>
              && Be32(result[..], 4) == 0 && Be16(result[..], FRONT) == e.frontPorch
              && Be24(result[..], PARTITION_A) ==
                 (if e.aBase.Some? then e.aBase.value else old(Be24(result[..], PARTITION_A)))
              && Be24(result[..], PARTITION_A + 3) == e.blocks
    ensures forall k :: 0 <= k < EXPORT_SIZE && !Edited(e.(partitionB := None), k) ==> result[k] == old(result[k])
  {
    Store(result, 4, [0, 0, 0, 0]);
    Store(result, FRONT, PutBe16(e.frontPorch));
    if e.aBase.Some? {
      if !Fits24(e.aBase.value) {
        return false;
      }
      Store(result, PARTITION_A, PutBe24(e.aBase.value));
    }
    if !Fits24(e.blocks) {
      return false;
    }
    Store(result, PARTITION_A + 3, PutBe24(e.blocks));
    return true;
  }

  /** Partition b as a copy of partition a with its own extent. */
  method WritePartitionB(result: array<byte>, b: Extent) returns (ok: bool)
    requires result.Length == EXPORT_SIZE
    modifies result
    ensures ok <==> Fits24(b.base) && Fits24(b.size)
    ensures ok ==>
              && Be24(result[..], PARTITION_B) == b.base && Be24(result[..], PARTITION_B + 3) == b.size
              && forall k :: PARTITION_B + 6 <= k < PARTITION_B + PARTITION_SIZE ==>
                   result[k] == old(result[k - PARTITION_SIZE])
    ensures forall k :: 0 <= k < EXPORT_SIZE && !(PARTITION_B <= k < PARTITION_B + PARTITION_SIZE) ==>
              result[k] == old(result[k])
  {
    Store(result, PARTITION_B, result[PARTITION_A..PARTITION_A + PARTITION_SIZE]);
    if !Fits24(b.base) {
      return false;
    }
    Store(result, PARTITION_B, PutBe24(b.base));
    if !Fits24(b.size) {
      return false;
    }
    Store(result, PARTITION_B + 3, PutBe24(b.size));
    return true;
  }

  /** The checksum of everything before it. */
  method Seal(result: array<byte>)
    requires result.Length == EXPORT_SIZE && result[..4] == MAGIC
    modifies result
    ensures Be16(result[..], CHECKSUM) == Checksum(result[..])
    ensures forall k :: 0 <= k < EXPORT_SIZE && !(CHECKSUM <= k < CHECKSUM + 2) ==> result[k] == old(result[k])
  {
    ghost var before := result[..];
    assert before[..4] == MAGIC;
    var sum := ChecksumV3(result[..]);
    Store(result, CHECKSUM, PutBe16(sum.value));
    WordSumPrefix(before, result[..], CHECKSUM_WORDS);
  }

  // ---- reading an edited label back ----

  lemma EditKeeps(lab: seq<byte>, e: Edit, r: seq<byte>)
    requires EditFits(lab, e) && IsEdit(lab, e, r)
    ensures r[..4] == MAGIC && r[ROOT] == lab[ROOT] && Be16(r, SECTOR_SIZE) == Be16(lab, SECTOR_SIZE)
    ensures Normalized(r) == r
    ensures r[PARTITION_A + PARTITION_TYPE..PARTITION_A + PARTITION_TYPE + 6]
         == lab[PARTITION_A + PARTITION_TYPE..PARTITION_A + PARTITION_TYPE + 6]
  {
    assert r[..4] == lab[..4];
    assert r[4] == 0 && r[5] == 0 && r[6] == 0 && r[7] == 0;
    assert Normalized(r)[4..8] == [0, 0, 0, 0];
  }

  /** Parsing the edited label gives back exactly what was asked for, with a valid checksum. */
  lemma EditParses(lab: seq<byte>, e: Edit, r: seq<byte>)
    requires EditFits(lab, e) && IsEdit(lab, e, r)
    ensures var p := ParseLabel(r, 0);
            && p.Some?
            && p.value.labelBlock == 0 && p.value.frontPorch == e.frontPorch
            && p.value.partitionA.size == e.blocks
            && p.value.partitionA.base == (if e.aBase.Some? then e.aBase.value else Be24(lab, PARTITION_A))
            && (e.partitionB.Some? ==>
                  && p.value.partitionB.base == e.partitionB.value.base
                  && p.value.partitionB.size == e.partitionB.value.size
                  && p.value.partitionB.blockSize == p.value.partitionA.blockSize
                  && p.value.partitionB.fragmentSize == p.value.partitionA.fragmentSize
                  && p.value.partitionB.kind == p.value.partitionA.kind)
            && p.value.checksumValid && p.value.stored == p.value.normalized == p.value.computed
  {
    hide Checksum, Text;
    EditKeeps(lab, e, r);
    var head := r[..LABEL_SIZE];
    assert head == r[0..0 + LABEL_SIZE] && head[..4] == r[..4];
    ParsedFields(r, 0, head);
    assert Normalized(head) == head;
    SumOfHead(r, head);
    ParsedPartitions(r);
    if e.partitionB.Some? {
      SamePartition(r);
    }
  }

  lemma SumOfHead(r: seq<byte>, head: seq<byte>)
    requires |r| == EXPORT_SIZE && head == r[..LABEL_SIZE]
    ensures Checksum(head) == Checksum(r)
  {
    WordSumPrefix(head, r, CHECKSUM_WORDS);
  }

  lemma ParsedPartitions(r: seq<byte>)
    requires |r| == EXPORT_SIZE && r[..4] == MAGIC
    ensures var p := ParseLabel(r, 0);
            && p.Some?
            && PartitionRecord(r, PARTITION_A) == Some(p.value.partitionA)
            && PartitionRecord(r, PARTITION_B) == Some(p.value.partitionB)
  {
    hide Text, Checksum;
    var lab := Slice(r, 0, CHECKSUM + 2);
    assert lab == r[..CHECKSUM + 2] && lab[..4] == r[..4];
    assert Slice(lab, PARTITION_A + PARTITION_TYPE, 8) == Slice(r, PARTITION_A + PARTITION_TYPE, 8);
    assert Slice(lab, PARTITION_B + PARTITION_TYPE, 8) == Slice(r, PARTITION_B + PARTITION_TYPE, 8);
  }

  lemma SamePartition(r: seq<byte>)
    requires |r| == EXPORT_SIZE
    requires forall k :: PARTITION_B + 6 <= k < PARTITION_B + PARTITION_SIZE ==> r[k] == r[k - PARTITION_SIZE]
    ensures Be16(r, PARTITION_B + 6) == Be16(r, PARTITION_A + 6) && Be16(r, PARTITION_B + 8) == Be16(r, PARTITION_A + 8)
    ensures Slice(r, PARTITION_B + PARTITION_TYPE, 8) == Slice(r, PARTITION_A + PARTITION_TYPE, 8)
  {
  }

  /** The boot loader accepts an edited label at sector 0 exactly when its root partition is usable. */
  lemma EditAccepted(lab: seq<byte>, e: Edit, r: seq<byte>)
    requires EditFits(lab, e) && IsEdit(lab, e, r)
    ensures LoaderAccepts(r, 0) <==> UsableRoot(r)
  {
    EditKeeps(lab, e, r);
  }

  /** With root partition a, that depends only on the edit and on three template fields. */
  lemma EditAcceptedForRootA(lab: seq<byte>, e: Edit, r: seq<byte>)
    requires EditFits(lab, e) && IsEdit(lab, e, r) && lab[ROOT] == 'a' as int
    ensures var base := if e.aBase.Some? then e.aBase.value else Be24(lab, PARTITION_A);
            LoaderAccepts(r, 0) <==>
            && base != 0xff_ffff && e.blocks != 0 && e.blocks != 0xff_ffff
            && lab[PARTITION_A + PARTITION_TYPE..PARTITION_A + PARTITION_TYPE + 6] == UFS_TYPE
            && Be16(lab, SECTOR_SIZE) != 0 && Be16(lab, SECTOR_SIZE) % BPS == 0
  {
    hide Checksum;
    EditKeeps(lab, e, r);
    EditAccepted(lab, e, r);
  }

  /** What the edited label's root partition holds: its extent, and the template record its type comes from. */
  datatype RootFields = RootFields(base: int, size: int, typeRecord: nat)

  function EditedRoot(lab: seq<byte>, e: Edit): (f: RootFields)
    requires EditFits(lab, e) && 'a' as int <= lab[ROOT] <= 'h' as int
    ensures f.typeRecord + PARTITION_SIZE <= LABEL_SIZE
  {
    var part := PartitionAt(lab);
    if part == PARTITION_A then
      RootFields(if e.aBase.Some? then e.aBase.value else Be24(lab, PARTITION_A), e.blocks, PARTITION_A)
    else if part == PARTITION_B && e.partitionB.Some? then
      RootFields(e.partitionB.value.base, e.partitionB.value.size, PARTITION_A)
    else RootFields(Be24(lab, part), Be24(lab, part + 3), part)
  }

  lemma EditedRootFields(lab: seq<byte>, e: Edit, r: seq<byte>)
    requires EditFits(lab, e) && IsEdit(lab, e, r) && 'a' as int <= lab[ROOT] <= 'h' as int && r[ROOT] == lab[ROOT]
    ensures var f, part := EditedRoot(lab, e), PartitionAt(lab);
            && PartitionAt(r) == part
            && Be24(r, part) == f.base && Be24(r, part + 3) == f.size
            && r[part + PARTITION_TYPE..part + PARTITION_TYPE + 6]
               == lab[f.typeRecord + PARTITION_TYPE..f.typeRecord + PARTITION_TYPE + 6]
  {
    hide Checksum;
    var part := PartitionAt(lab);
    assert part % PARTITION_SIZE == 0;
    if part != PARTITION_A && !(part == PARTITION_B && e.partitionB.Some?) {
      assert forall k :: part <= k < part + 46 ==> !Edited(e, k);
    }
  }

  /**
   Whichever partition is the root, whether the boot loader accepts the edited
   label at sector 0 depends on nothing but the edit and the template.
   */
  lemma EditAcceptedExactly(lab: seq<byte>, e: Edit, r: seq<byte>)
    requires EditFits(lab, e) && IsEdit(lab, e, r)
    ensures LoaderAccepts(r, 0) <==>
            && 'a' as int <= lab[ROOT] <= 'h' as int
            && var f := EditedRoot(lab, e);
               && f.base != 0xff_ffff && f.size != 0 && f.size != 0xff_ffff
               && lab[f.typeRecord + PARTITION_TYPE..f.typeRecord + PARTITION_TYPE + 6] == UFS_TYPE
               && Be16(lab, SECTOR_SIZE) != 0 && Be16(lab, SECTOR_SIZE) % BPS == 0
  {
    EditKeeps(lab, e, r);
    EditAccepted(lab, e, r);
    hide Checksum, IsEdit, LoaderAccepts, Be24, EditedRoot, PartitionAt;
    if 'a' as int <= lab[ROOT] <= 'h' as int {
      EditedRootFields(lab, e, r);
    }
  }
}
