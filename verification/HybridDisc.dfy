/**
 Hybrid discs: finding files in the ISO directory tree, writing a dlV3 label over
 the first sectors so that its partitions are those files, and the El Torito
 report, which the label must not disturb.
 */
module HybridDisc {
  import opened Bytes
  import opened ByteSearch
  import opened NextLabel
  import opened LabelTemplate

  const SECTOR := 2048
  const CD001: seq<byte> := [0x43, 0x44, 0x30, 0x30, 0x31]
  const EL_TORITO := Ascii("EL TORITO SPECIFICATION")

  datatype FileExtent = FileExtent(lba: nat, size: nat)

  datatype DirectoryRecord = DirectoryRecord(extent: nat, size: nat, flags: byte, name: seq<byte>)

  // ---- directory records ----

  /** The next sector boundary after index. */
  function NextSector(index: nat): nat { (index / SECTOR + 1) * SECTOR }

  function RecordOf(record: seq<byte>): DirectoryRecord
    requires |record| >= 34
  {
    DirectoryRecord(Le32(record, 2), Le32(record, 10), record[25], Slice(record, 33, record[32]))
  }

  /** The records of a directory: packed within sectors, a zero length skips to the next one. */
  function Records(data: seq<byte>, index: nat): seq<DirectoryRecord>
    decreases |data| - index
  {
    if index >= |data| then []
    else if data[index] == 0 then Records(data, NextSector(index))
    else
      var record := Slice(data, index, data[index]);
      if |record| < 34 then []
      else [RecordOf(record)] + Records(data, index + data[index])
  }

  method DirectoryRecords(data: seq<byte>) returns (records: seq<DirectoryRecord>)
    ensures records == Records(data, 0)
  {
    hide RecordOf, Le32, Slice, Records;
    records := [];
    var index := 0;
    while index < |data|
      invariant Records(data, 0) == records + Records(data, index)
      decreases |data| - index
    {
      var length := data[index];
      RecordsStep(data, index);
      if length == 0 {
        index := NextSector(index);
        continue;
      }
      var record := Slice(data, index, length);
      if |record| < 34 {
        return records;
      }
      records := records + [RecordOf(record)];
      index := index + length;
    }
    RecordsEnd(data, index);
  }

  lemma RecordsStep(data: seq<byte>, index: nat)
    requires index < |data|
    ensures var record := Slice(data, index, data[index]);
            Records(data, index) ==
            if data[index] == 0 then Records(data, NextSector(index))
            else if |record| < 34 then []
            else [RecordOf(record)] + Records(data, index + data[index])
  {
    hide RecordOf, Slice;
  }

  lemma RecordsEnd(data: seq<byte>, index: nat)
    requires index >= |data|
    ensures Records(data, index) == []
  {
  }

  // ---- looking files up ----

  function Upper(s: seq<byte>): (r: seq<byte>)
    ensures |r| == |s|
  {
    seq(|s|, i requires 0 <= i < |s| => if 'a' as int <= s[i] <= 'z' as int then s[i] - 32 else s[i])
  }

  predicate Names(record: DirectoryRecord, component: seq<byte>) {
    record.name == Upper(component) || record.name == Upper(component) + [';' as int, '1' as int]
  }

  function FirstNamed(records: seq<DirectoryRecord>, component: seq<byte>): (r: Option<DirectoryRecord>)
    ensures r.Some? ==> r.value in records && Names(r.value, component)
    ensures r.None? ==> forall x :: x in records ==> !Names(x, component)
  {
    if |records| == 0 then None
    else if Names(records[0], component) then Some(records[0])
    else FirstNamed(records[1..], component)
  }

  /** The root directory's extent, from the primary volume descriptor in sector 16. */
  function RootDirectory(image: seq<byte>): Option<FileExtent> {
    var pvd := Slice(image, 16 * SECTOR, SECTOR);
    if |pvd| != SECTOR || pvd[0] != 1 || pvd[1..6] != CD001 then None
    else Some(FileExtent(Le32(pvd, 158), Le32(pvd, 166)))
  }

  function Directory(image: seq<byte>, at: FileExtent): seq<DirectoryRecord> {
    Records(Slice(image, at.lba * SECTOR, at.size), 0)
  }

  function IsoRootExtent(image: seq<byte>, filename: seq<byte>): Option<FileExtent> {
    match RootDirectory(image)
    case None => None
    case Some(root) =>
      match FirstNamed(Directory(image, root), filename)
      case None => None
      case Some(r) => Some(FileExtent(r.extent, r.size))
  }

  /** Following the components of a path; all but the last must be directories. */
  function Follow(image: seq<byte>, at: FileExtent, components: seq<seq<byte>>): Option<FileExtent>
    decreases |components|
  {
    if |components| == 0 then Some(at)
    else
      match FirstNamed(Directory(image, at), components[0])
      case None => None
      case Some(r) =>
        if |components| > 1 && r.flags / 2 % 2 == 0 then None
        else Follow(image, FileExtent(r.extent, r.size), components[1..])
  }

  function IsoPathExtent(image: seq<byte>, components: seq<seq<byte>>): Option<FileExtent> {
    match RootDirectory(image)
    case None => None
    case Some(root) => Follow(image, root, components)
  }

  /** iso_path_extent's loop. */
  method FollowPath(image: seq<byte>, components: seq<seq<byte>>) returns (r: Option<FileExtent>)
    ensures r == IsoPathExtent(image, components)
  {
    var root := RootDirectory(image);
    if root.None? {
      return None;
    }
    var at := root.value;
    var index := 0;
    while index < |components|
      invariant index <= |components|
      invariant IsoPathExtent(image, components) == Follow(image, at, components[index..])
    {
      var records := DirectoryRecords(Slice(image, at.lba * SECTOR, at.size));
      var found := FirstNamed(records, components[index]);
      assert components[index..][1..] == components[index + 1..];
      if found.None? {
        return None;
      }
      at := FileExtent(found.value.extent, found.value.size);
      if index < |components| - 1 && found.value.flags / 2 % 2 == 0 {
        return None;
      }
      index := index + 1;
    }
    return Some(at);
  }

  /** The two lookups agree on files in the root directory. */
  lemma LookupsAgree(image: seq<byte>, filename: seq<byte>)
    ensures IsoPathExtent(image, [filename]) == IsoRootExtent(image, filename)
  {
    hide Records, FirstNamed, Le32, Directory;
    assert [filename][1..] == [];
    if RootDirectory(image).Some? {
      var found := FirstNamed(Directory(image, RootDirectory(image).value), filename);
      if found.Some? {
        assert Follow(image, FileExtent(found.value.extent, found.value.size), []) ==
               Some(FileExtent(found.value.extent, found.value.size));
      }
    }
  }

  // ---- the label does not disturb what lies past it ----

  /** Two images of one size that differ at most in the bytes the label occupies. */
  predicate SamePastLabel(s: seq<byte>, t: seq<byte>) {
    |s| == |t| && forall k :: EXPORT_SIZE <= k < |s| ==> s[k] == t[k]
  }

  lemma SliceUnchanged(s: seq<byte>, t: seq<byte>, i: nat, n: nat)
    requires SamePastLabel(s, t) && (n == 0 || EXPORT_SIZE <= i)
    ensures Slice(s, i, n) == Slice(t, i, n)
  {
  }

  /** Every directory read on the way lies past sector 3. */
  predicate PathClear(image: seq<byte>, at: FileExtent, components: seq<seq<byte>>)
    decreases |components|
  {
    |components| == 0 ||
    (at.lba > 3 &&
     match FirstNamed(Directory(image, at), components[0])
     case None => true
     case Some(r) => PathClear(image, FileExtent(r.extent, r.size), components[1..]))
  }

  lemma {:induction false} FollowUnchanged(s: seq<byte>, t: seq<byte>, at: FileExtent, components: seq<seq<byte>>)
    requires SamePastLabel(s, t) && PathClear(s, at, components)
    ensures Follow(s, at, components) == Follow(t, at, components)
    decreases |components|
  {
    hide Records;
    if |components| > 0 {
      SliceUnchanged(s, t, at.lba * SECTOR, at.size);
      match FirstNamed(Directory(s, at), components[0])
      case None =>
      case Some(r) => FollowUnchanged(s, t, FileExtent(r.extent, r.size), components[1..]);
    }
  }

  /** A file found before the label was written is found at the same place afterwards. */
  lemma LookupUnchanged(s: seq<byte>, t: seq<byte>, components: seq<seq<byte>>)
    requires SamePastLabel(s, t)
    requires RootDirectory(s).Some? ==> PathClear(s, RootDirectory(s).value, components)
    ensures IsoPathExtent(t, components) == IsoPathExtent(s, components)
  {
    hide Follow, PathClear;
    SliceUnchanged(s, t, 16 * SECTOR, SECTOR);
    if RootDirectory(s).Some? {
      FollowUnchanged(s, t, RootDirectory(s).value, components);
    }
  }

  // ---- the El Torito report ----

  datatype Report = Report(
    pvd: bool, bootRecord: bool, catalogLba: Option<nat>,
    catalogValid: bool, bootable: bool, mediaType: Option<byte>, bootSectors: Option<nat>, bootLba: Option<nat>)

  const EMPTY := Report(false, false, None, false, false, None, None, None)

  function TrimRight(s: seq<byte>): seq<byte> {
    if |s| > 0 && s[|s| - 1] == ' ' as int then TrimRight(s[..|s| - 1]) else s
  }

  predicate IsBootRecord(sector: seq<byte>)
    requires |sector| == SECTOR
  {
    sector[0] == 0 && EL_TORITO <= TrimRight(sector[7..39])
  }

  predicate IsDescriptor(sector: seq<byte>) { |sector| == SECTOR && sector[1..6] == CD001 && sector[6] == 1 }

  /** The volume descriptors in sectors lba..63, up to the terminator or a short sector. */
  function ScanDescriptors(image: seq<byte>, lba: nat, report: Report): Report
    decreases 64 - lba
  {
    if lba >= 64 then report
    else
      var sector := Slice(image, lba * SECTOR, SECTOR);
      if |sector| != SECTOR then report
      else if !IsDescriptor(sector) then ScanDescriptors(image, lba + 1, report)
      else if sector[0] == 1 then ScanDescriptors(image, lba + 1, report.(pvd := true))
      else if IsBootRecord(sector) then
        ScanDescriptors(image, lba + 1, report.(bootRecord := true, catalogLba := Some(Le32(sector, 71))))
      else if sector[0] == 255 then report
      else ScanDescriptors(image, lba + 1, report)
  }

  /** Sum of the first n little-endian words. */
  function WordSumLe(s: seq<byte>, n: nat): nat
    requires 2 * n <= |s|
  {
    if n == 0 then 0 else WordSumLe(s, n - 1) + Le16(s, 2 * (n - 1))
  }

  function ReadCatalog(image: seq<byte>, report: Report): Report {
    if report.catalogLba.None? then report
    else
      var catalog := Slice(image, report.catalogLba.value * SECTOR, SECTOR);
      if |catalog| != SECTOR then report
      else report.(
        catalogValid := catalog[0] == 1 && WordSumLe(catalog, 16) % 0x1_0000 == 0,
        bootable := catalog[32] == 0x88,
        mediaType := Some(catalog[33]),
        bootSectors := Some(Le16(catalog, 38)),
        bootLba := Some(Le32(catalog, 40)))
  }

  function ElTorito(image: seq<byte>): Report { ReadCatalog(image, ScanDescriptors(image, 16, EMPTY)) }

  /** inspect_el_torito: the descriptor scan, then the boot catalog. */
  method InspectElTorito(image: seq<byte>) returns (result: Report)
    ensures result == ElTorito(image)
  {
    result := Descriptors(image);
    result := Catalog(image, result);
  }

  method Descriptors(image: seq<byte>) returns (result: Report)
    ensures result == ScanDescriptors(image, 16, EMPTY)
  {
    hide IsBootRecord, Le32, Ascii;
    result := EMPTY;
    var lba := 16;
    while lba < 64
      invariant 16 <= lba <= 64
      invariant ScanDescriptors(image, 16, EMPTY) == ScanDescriptors(image, lba, result)
      decreases 64 - lba
    {
      var sector := Slice(image, lba * SECTOR, SECTOR);
      if |sector| != SECTOR {
        break;
      }
      if sector[1..6] != CD001 || sector[6] != 1 {
        lba := lba + 1;
        continue;
      }
      if sector[0] == 1 {
        result := result.(pvd := true);
      } else if IsBootRecord(sector) {
        result := result.(bootRecord := true, catalogLba := Some(Le32(sector, 71)));
      } else if sector[0] == 255 {
        break;
      }
      lba := lba + 1;
    }
  }

  method Catalog(image: seq<byte>, report: Report) returns (result: Report)
    ensures result == ReadCatalog(image, report)
  {
    hide Le32, Le16;
    result := report;
    if result.catalogLba.Some? {
      var catalog := Slice(image, result.catalogLba.value * SECTOR, SECTOR);
      if |catalog| == SECTOR {
        var checksum := 0;
        var i := 0;
        while i < 16
          invariant i <= 16 && checksum == WordSumLe(catalog, i)
        {
          checksum := checksum + Le16(catalog, 2 * i);
          i := i + 1;
        }
        result := result.(
          catalogValid := catalog[0] == 1 && checksum % 0x1_0000 == 0,
          bootable := catalog[32] == 0x88,
          mediaType := Some(catalog[33]),
          bootSectors := Some(Le16(catalog, 38)),
          bootLba := Some(Le32(catalog, 40)));
      }
    }
  }

  // ---- what the report says ----

  function SectorAt(image: seq<byte>, k: nat): seq<byte> { Slice(image, k * SECTOR, SECTOR) }

  predicate Terminator(sector: seq<byte>) { IsDescriptor(sector) && sector[0] == 255 }

  predicate PrimaryDescriptor(sector: seq<byte>) { IsDescriptor(sector) && sector[0] == 1 }

  predicate BootDescriptor(sector: seq<byte>) { IsDescriptor(sector) && IsBootRecord(sector) }

  /** The scan reads sector k: it and all before it are whole, and none before it is a terminator. */
  predicate Reached(image: seq<byte>, from: nat, k: nat) {
    && from <= k < 64
    && (forall j :: from <= j <= k ==> |SectorAt(image, j)| == SECTOR)
    && (forall j :: from <= j < k ==> !Terminator(SectorAt(image, j)))
  }

  predicate ReachedPrimary(image: seq<byte>, from: nat, k: nat) {
    Reached(image, from, k) && PrimaryDescriptor(SectorAt(image, k))
  }

  predicate ReachedBoot(image: seq<byte>, from: nat, k: nat) {
    Reached(image, from, k) && BootDescriptor(SectorAt(image, k))
  }

  /** No boot record is reached after sector k, which holds one. */
  predicate LastBoot(image: seq<byte>, from: nat, k: nat) {
    ReachedBoot(image, from, k) && forall j :: k < j < 64 ==> !ReachedBoot(image, from, j)
  }

  /** The catalog address is the one in sector k. */
  predicate GivesCatalog(image: seq<byte>, k: nat, catalogLba: Option<nat>) {
    |SectorAt(image, k)| == SECTOR && catalogLba == Some(Le32(SectorAt(image, k), 71))
  }

  /** The report after one sector that does not end the scan. */
  function AfterSector(image: seq<byte>, k: nat, report: Report): Report {
    var sector := SectorAt(image, k);
    if PrimaryDescriptor(sector) then report.(pvd := true)
    else if BootDescriptor(sector) then report.(bootRecord := true, catalogLba := Some(Le32(sector, 71)))
    else report
  }

  predicate GoesOn(sector: seq<byte>) { |sector| == SECTOR && !Terminator(sector) }

  lemma ScanStep(image: seq<byte>, from: nat, report: Report)
    requires from < 64
    ensures ScanDescriptors(image, from, report) ==
            if GoesOn(SectorAt(image, from)) then ScanDescriptors(image, from + 1, AfterSector(image, from, report))
            else report
  {
    hide Slice, Le32, Ascii;
  }

  /** What is reached from a sector is that sector, if whole, and what is reached from the next one if it goes on. */
  lemma ReachedStep(image: seq<byte>, from: nat, k: nat)
    ensures from >= 64 ==> !Reached(image, from, k)
    ensures Reached(image, from, k) ==> from <= k < 64
    ensures from == k < 64 ==> (Reached(image, from, k) <==> |SectorAt(image, from)| == SECTOR)
    ensures from < k ==> (Reached(image, from, k) <==> GoesOn(SectorAt(image, from)) && Reached(image, from + 1, k))
  {
    hide SectorAt, Terminator;
  }

  lemma DescriptorsDiffer(sector: seq<byte>)
    ensures PrimaryDescriptor(sector) ==> GoesOn(sector) && !BootDescriptor(sector)
    ensures BootDescriptor(sector) ==> GoesOn(sector)
  {
    hide Ascii;
  }

  /** The scan from a sector on adds a primary descriptor exactly when one is reached. */
  lemma {:induction false} ScanPrimary(image: seq<byte>, from: nat, report: Report)
    ensures ScanDescriptors(image, from, report).pvd <==> report.pvd || exists k :: ReachedPrimary(image, from, k)
    decreases 64 - from
  {
    hide PrimaryDescriptor, BootDescriptor, SectorAt, Ascii, Reached, GoesOn;
    var next := from + 1;
    forall k
      ensures ReachedPrimary(image, from, k) <==>
              && from < 64 && GoesOn(SectorAt(image, from))
              && (if k == from then PrimaryDescriptor(SectorAt(image, k)) else ReachedPrimary(image, next, k))
    {
      ReachedStep(image, from, k);
      ReachedStep(image, next, k);
      DescriptorsDiffer(SectorAt(image, from));
      Whole(SectorAt(image, from));
    }
    if from < 64 {
      ScanPrimary(image, next, AfterSector(image, from, report));
      ScanStep(image, from, report);
      DescriptorsDiffer(SectorAt(image, from));
      assert ReachedPrimary(image, from, from) <==> PrimaryDescriptor(SectorAt(image, from));
    }
  }

  lemma Whole(sector: seq<byte>)
    ensures GoesOn(sector) ==> |sector| == SECTOR
  {
  }

  /** And it takes the catalog's address from the last boot record that is reached, if there is one. */
  lemma {:induction false} ScanBoot(image: seq<byte>, from: nat, report: Report)
    ensures var r := ScanDescriptors(image, from, report);
            if exists k :: ReachedBoot(image, from, k)
            then r.bootRecord &&
                 exists k :: LastBoot(image, from, k) && GivesCatalog(image, k, r.catalogLba)
            else r.bootRecord == report.bootRecord && r.catalogLba == report.catalogLba
    decreases 64 - from
  {
    hide PrimaryDescriptor, BootDescriptor, SectorAt, Ascii, Reached, GoesOn, Le32;
    var next := from + 1;
    forall k
      ensures ReachedBoot(image, from, k) <==>
              && from < 64 && GoesOn(SectorAt(image, from))
              && (if k == from then BootDescriptor(SectorAt(image, k)) else ReachedBoot(image, next, k))
      ensures ReachedBoot(image, next, k) ==> from < k < 64
    {
      ReachedStep(image, from, k);
      ReachedStep(image, next, k);
      DescriptorsDiffer(SectorAt(image, from));
      Whole(SectorAt(image, from));
    }
    if from < 64 {
      ScanBoot(image, next, AfterSector(image, from, report));
      ScanStep(image, from, report);
      DescriptorsDiffer(SectorAt(image, from));
      if GoesOn(SectorAt(image, from)) {
        if k :| LastBoot(image, next, k) && GivesCatalog(image, k, ScanDescriptors(image, from, report).catalogLba) {
          assert LastBoot(image, from, k);
        } else if BootDescriptor(SectorAt(image, from)) {
          Whole(SectorAt(image, from));
          assert !exists k :: ReachedBoot(image, next, k);
          assert LastBoot(image, from, from);
          assert GivesCatalog(image, from, ScanDescriptors(image, from, report).catalogLba);
        }
      }
    }
  }

  lemma CatalogKeeps(image: seq<byte>, report: Report)
    ensures var r := ReadCatalog(image, report);
            r.pvd == report.pvd && r.bootRecord == report.bootRecord && r.catalogLba == report.catalogLba
  {
    hide Le32, Le16, WordSumLe;
  }

  /**
   The report says whether a primary descriptor and a boot record stand before the
   terminator, the first short sector and sector 64, and gives the catalog address
   of the last such boot record.
   */
  lemma ReportMeaning(image: seq<byte>)
    ensures var r := ElTorito(image);
            && (r.pvd <==> exists k :: ReachedPrimary(image, 16, k))
            && (r.bootRecord <==> exists k :: ReachedBoot(image, 16, k))
            && (r.catalogLba.Some? <==> r.bootRecord)
            && (r.bootRecord ==>
                  exists k :: LastBoot(image, 16, k) && GivesCatalog(image, k, r.catalogLba))
  {
    hide ScanDescriptors, ReadCatalog, ReachedPrimary, ReachedBoot, LastBoot;
    ScanPrimary(image, 16, EMPTY);
    ScanBoot(image, 16, EMPTY);
    CatalogKeeps(image, ScanDescriptors(image, 16, EMPTY));
  }

  lemma {:induction false} ScanUnchanged(s: seq<byte>, t: seq<byte>, lba: nat, report: Report)
    requires SamePastLabel(s, t) && lba >= 16
    ensures ScanDescriptors(s, lba, report) == ScanDescriptors(t, lba, report)
    decreases 64 - lba
  {
    hide IsBootRecord, Ascii;
    if lba < 64 {
      SliceUnchanged(s, t, lba * SECTOR, SECTOR);
      var sector := Slice(s, lba * SECTOR, SECTOR);
      ScanUnchanged(s, t, lba + 1, report);
      ScanUnchanged(s, t, lba + 1, report.(pvd := true));
      if |sector| == SECTOR {
        ScanUnchanged(s, t, lba + 1, report.(bootRecord := true, catalogLba := Some(Le32(sector, 71))));
      }
    }
  }

  /** Writing a label leaves the report unchanged when the catalog lies past sector 3. */
  lemma ReportUnchanged(s: seq<byte>, t: seq<byte>)
    requires SamePastLabel(s, t)
    requires ElTorito(s).catalogLba.Some? ==> ElTorito(s).catalogLba.value > 3
    ensures ElTorito(t) == ElTorito(s)
  {
    hide ScanDescriptors, WordSumLe;
    ScanUnchanged(s, t, 16, EMPTY);
    var lba := ScanDescriptors(s, 16, EMPTY).catalogLba;
    if lba.Some? {
      SliceUnchanged(s, t, lba.value * SECTOR, SECTOR);
    }
  }

  // ---- placing the label ----

  /** The edit that points partition a at the payload and partition b at a second file. */
  function PlacementEdit(payload: FileExtent, second: Option<FileExtent>, secondBytes: nat, forceBase: bool): Edit {
    Edit(payload.lba, (payload.size + SECTOR - 1) / SECTOR,
         match second
         case None => None
         case Some(s) => Some(Extent(s.lba - payload.lba, (secondBytes + SECTOR - 1) / SECTOR)),
         if forceBase then Some(0) else None)
  }

  /** A template whose root is partition a at base 0 of 2048-byte sectors resolves to the two files. */
  lemma PlacementResolves(template: seq<byte>, payload: FileExtent, second: Option<FileExtent>, secondBytes: nat,
                          forceBase: bool, r: seq<byte>)
    requires var e := PlacementEdit(payload, second, secondBytes, forceBase);
             EditFits(template, e) && IsEdit(template, e, r)
    requires template[ROOT] == 'a' as int && Be16(template, NextLabel.SECTOR_SIZE) == SECTOR
    requires forceBase || Be24(template, PARTITION_A) == 0
    ensures r[ROOT] == 'a' as int && RootOffset(r) == payload.lba * SECTOR
    ensures second.Some? ==>
              StartByte(Be16(r, FRONT) + Be24(r, PARTITION_B), Be16(r, NextLabel.SECTOR_SIZE)) ==
              second.value.lba * SECTOR
  {
    EditKeeps(template, PlacementEdit(payload, second, secondBytes, forceBase), r);
  }

  /**
   The boot loader accepts a label so placed, at sector 0, exactly when its partition
   a is of the loader's type and the payload has neither 0 nor 0xffffff sectors, and
   then it finds the root file system where the payload file starts.
   */
  lemma PlacementBoots(template: seq<byte>, payload: FileExtent, second: Option<FileExtent>, secondBytes: nat,
                       forceBase: bool, r: seq<byte>)
    requires var e := PlacementEdit(payload, second, secondBytes, forceBase);
             EditFits(template, e) && IsEdit(template, e, r)
    requires template[ROOT] == 'a' as int && Be16(template, NextLabel.SECTOR_SIZE) == SECTOR
    requires forceBase || Be24(template, PARTITION_A) == 0
    ensures LoaderAccepts(r, 0) <==>
            && template[PARTITION_A + PARTITION_TYPE..PARTITION_A + PARTITION_TYPE + 6] == UFS_TYPE
            && payload.size > 0 && (payload.size + SECTOR - 1) / SECTOR != 0xff_ffff
    ensures r[ROOT] == 'a' as int && RootOffset(r) == payload.lba * SECTOR
  {
    EditAcceptedForRootA(template, PlacementEdit(payload, second, secondBytes, forceBase), r);
    PlacementResolves(template, payload, second, secondBytes, forceBase, r);
  }

  /** The second file, when one is wanted: None stands for a failed lookup. */
  function SecondExtent(image: seq<byte>, secondPath: Option<seq<seq<byte>>>): Option<Option<FileExtent>> {
    match secondPath
    case None => Some(None)
    case Some(path) =>
      match IsoPathExtent(image, path)
      case None => None
      case Some(extent) => Some(Some(extent))
  }

  /** Both files are found and the label fields can hold where they are. */
  predicate CanPlace(image: seq<byte>, template: seq<byte>, payloadName: seq<byte>,
                     secondPath: Option<seq<seq<byte>>>, secondBytes: nat, forceBase: bool) {
    var payload := IsoRootExtent(image, payloadName);
    var second := SecondExtent(image, secondPath);
    && payload.Some? && second.Some?
    && EditFits(template, PlacementEdit(payload.value, second.value, secondBytes, forceBase))
  }

  /**
   The labelling end of wrap_ufs: look the files up, edit the template, and write
   it over the start of the image.
   */
  method PlaceLabel(image: array<byte>, template: seq<byte>, payloadName: seq<byte>,
                    secondPath: Option<seq<seq<byte>>>, secondBytes: nat, forceBase: bool)
      returns (ok: bool, payload: FileExtent, second: Option<FileExtent>)
    requires image.Length >= EXPORT_SIZE
    modifies image
    ensures ok <==> CanPlace(old(image[..]), template, payloadName, secondPath, secondBytes, forceBase)
    ensures ok ==>
              && IsoRootExtent(old(image[..]), payloadName) == Some(payload)
              && SecondExtent(old(image[..]), secondPath) == Some(second)
              && var e := PlacementEdit(payload, second, secondBytes, forceBase);
                 EditFits(template, e) && IsEdit(template, e, image[..EXPORT_SIZE])
    ensures SamePastLabel(old(image[..]), image[..])
    ensures !ok ==> image[..] == old(image[..])
  {
    hide IsEdit, EditFits, Records, RootDirectory, FirstNamed, Follow;
    payload, second := FileExtent(0, 0), None;
    var looked := FollowPath(image[..], [payloadName]);
    LookupsAgree(image[..], payloadName);
    if looked.None? {
      return false, payload, second;
    }
    payload := looked.value;
    if secondPath.Some? {
      second := FollowPath(image[..], secondPath.value);
      if second.None? {
        return false, payload, second;
      }
    }
    var written := UpdateTemplate(template, PlacementEdit(payload, second, secondBytes, forceBase));
    if written.None? {
      return false, payload, second;
    }
    EditSize(template, PlacementEdit(payload, second, secondBytes, forceBase), written.value);
    Store(image, 0, written.value);
    assert image[..EXPORT_SIZE] == written.value;
    ok := true;
  }

  lemma EditSize(template: seq<byte>, e: Edit, r: seq<byte>)
    requires EditFits(template, e) && IsEdit(template, e, r)
    ensures |r| == EXPORT_SIZE
  {
  }
}
