/**
 Publication of the completed KERNBOOTSTRUCT: every field, the driver records
 and the configuration are written to the live structure only after the last
 file read and link, and every one of them reads back as written.
 */
module BootPublish {
  import opened Bytes
  import opened ByteSearch
  import opened BootConfig
  import opened BootTables
  import opened BootLink
  import BootSarld

  const BOOT_STRING := 0x2
  const BOOT_MAGIC := 0xa4
  const BOOT_DEVICE := 0xac
  const CONVMEM := 0xb0
  const EXTMEM := 0xb4
  const BOOT_FILE := 0xb8
  const BOOT_FILE_SIZE := 0x40
  const LOW_MEMORY := 0x138
  const DISPLAY_MODE := 0x14c
  const BOOT_MODE := 0x150
  const CONFIG_END := 0x158
  const KERNEL_ADDRESS := 0x15c
  const CONFIG := 0x24fc

  const MAGIC := 0xa7a7_a7a7
  const LOW_MEMORY_END := 0x2_0000
  const BOOTSTRUCT_ADDRESS := 0x1_1000

  /** What the loader knows before the structure is published. */
  datatype Inputs = Inputs(
    commandLine: CString, bootFile: CString,
    biosdev: nat, convmem: nat, extmem: nat,
    kernelAddress: nat, kernelSize: nat, graphicsBoot: bool)
  {
    predicate Words() {
      biosdev < WORD && convmem < WORD && extmem < WORD && kernelAddress < WORD && kernelSize < WORD
    }
  }

  /** strlcpy: as much of the string as fits with its NUL. */
  function Truncated(s: CString, size: nat): (r: CString)
    requires size > 0
    ensures |r| == Min(|s|, size - 1)
  {
    s[..Min(|s|, size - 1)]
  }

  method Strlcpy(a: array<byte>, at: nat, s: CString, size: nat)
    requires 0 < size && at + size <= a.Length
    modifies a
    ensures StringAt(a[..], at, Truncated(s, size))
    ensures forall k :: 0 <= k < a.Length && !(at <= k < at + size) ==> a[k] == old(a[k])
  {
    Store(a, at, Truncated(s, size) + [0]);
  }

  ghost predicate HoldsBytes(a: array<byte>, at: nat, s: seq<byte>)
    reads a
  {
    at + |s| <= a.Length && forall k :: at <= k < at + |s| ==> a[k] == s[k - at]
  }

  predicate StringAt(s: seq<byte>, at: nat, text: CString) {
    at + |text| < |s| && s[at + |text|] == 0 && forall k :: at <= k < at + |text| ==> s[k] == text[k - at]
  }

  /** The strings and machine words at the front of the structure. */
  predicate FrontPublished(s: seq<byte>, i: Inputs) {
    && |s| >= LOW_MEMORY
    && StringAt(s, BOOT_STRING, Truncated(i.commandLine, BOOT_MAGIC - BOOT_STRING))
    && StringAt(s, BOOT_FILE, Truncated(i.bootFile, BOOT_FILE_SIZE))
    && Le32(s, BOOT_MAGIC) == MAGIC
    && Le32(s, BOOT_DEVICE) == i.biosdev
    && Le32(s, CONVMEM) == i.convmem
    && Le32(s, EXTMEM) == i.extmem
  }

  /** The words between the low-memory field and the driver records. */
  predicate WordsPublished(s: seq<byte>, i: Inputs, kernelSize: nat, drivers: nat, sarldEntry: nat, configLength: nat) {
    && |s| >= DRIVER_RECORDS
    && Le32(s, LOW_MEMORY) == LOW_MEMORY_END
    && Le32(s, DISPLAY_MODE) == (if i.graphicsBoot then 1 else 0)
    && Le32(s, BOOT_MODE) == 0
    && Le32(s, DRIVER_COUNT) == drivers
    && Le32(s, KERNEL_ADDRESS) == i.kernelAddress
    && Le32(s, KERNEL_SIZE) == kernelSize
    && Le32(s, SARLD_ENTRY) == sarldEntry
    && Le32(s, CONFIG_END) == BOOTSTRUCT_ADDRESS + CONFIG + configLength
  }

  method PublishFront(a: array<byte>, i: Inputs)
    requires a.Length >= STAGED_SIZE && i.Words()
    modifies a
    ensures FrontPublished(a[..LOW_MEMORY], i)
  {
    Strlcpy(a, BOOT_STRING, i.commandLine, BOOT_MAGIC - BOOT_STRING);
    Put32(a, BOOT_MAGIC, MAGIC);
    Put32(a, BOOT_DEVICE, i.biosdev);
    Put32(a, CONVMEM, i.convmem);
    Put32(a, EXTMEM, i.extmem);
    Strlcpy(a, BOOT_FILE, i.bootFile, BOOT_FILE_SIZE);
  }

  method PublishWords(a: array<byte>, i: Inputs, kernelSize: nat, drivers: nat, sarldEntry: nat, configLength: nat)
    requires a.Length >= STAGED_SIZE && i.Words()
    requires kernelSize < WORD && drivers < WORD && sarldEntry < WORD && configLength < CONFIG_LIMIT
    modifies a
    ensures WordsPublished(a[..DRIVER_RECORDS], i, kernelSize, drivers, sarldEntry, configLength)
    ensures a[..LOW_MEMORY] == old(a[..LOW_MEMORY])
  {
    Put32(a, LOW_MEMORY, LOW_MEMORY_END);
    Put32(a, DISPLAY_MODE, if i.graphicsBoot then 1 else 0);
    Put32(a, BOOT_MODE, 0);
    Put32(a, DRIVER_COUNT, drivers);
    Put32(a, KERNEL_ADDRESS, i.kernelAddress);
    Put32(a, KERNEL_SIZE, kernelSize);
    Put32(a, SARLD_ENTRY, sarldEntry);
    Put32(a, CONFIG_END, BOOTSTRUCT_ADDRESS + CONFIG + configLength);
  }

  method PublishTables(legacy: array<byte>, staged: array<byte>, config: array<byte>, configLength: nat,
                       drivers: nat, ghost records: seq<Record>)
    requires legacy != staged && legacy != config
    requires legacy.Length >= CONFIG + CONFIG_LIMIT + 2 && staged.Length >= STAGED_SIZE
    requires configLength < CONFIG_LIMIT <= config.Length
    requires drivers == |records| && Stored(staged, records)
    modifies legacy
    ensures Stored(legacy, records)
    ensures HoldsBytes(legacy, CONFIG, config[..configLength] + [0, 0])
    ensures legacy[..DRIVER_RECORDS] == old(legacy[..DRIVER_RECORDS])
  {
    hide Get32, HoldsBytes;
    PublishRecords(legacy, staged, drivers);
    PublishConfig(legacy, config, configLength);
    CopiedRecords(legacy, staged, records);
  }

  /** The driver records, copied from the staged structure. */
  method PublishRecords(legacy: array<byte>, staged: array<byte>, drivers: nat)
    requires legacy != staged && legacy.Length >= STAGED_SIZE && staged.Length >= STAGED_SIZE
    requires drivers <= DRIVER_LIMIT
    modifies legacy
    ensures forall k :: DRIVER_RECORDS <= k < DRIVER_RECORDS + drivers * 8 ==> legacy[k] == staged[k]
    ensures forall k :: 0 <= k < DRIVER_RECORDS ==> legacy[k] == old(legacy[k])
  {
    Store(legacy, DRIVER_RECORDS, staged[DRIVER_RECORDS..DRIVER_RECORDS + drivers * 8]);
  }

  /** The configuration and its two closing NULs. */
  method PublishConfig(legacy: array<byte>, config: array<byte>, configLength: nat)
    requires legacy != config && legacy.Length >= CONFIG + CONFIG_LIMIT + 2
    requires configLength < CONFIG_LIMIT <= config.Length
    modifies legacy
    ensures HoldsBytes(legacy, CONFIG, config[..configLength] + [0, 0])
    ensures forall k :: 0 <= k < CONFIG ==> legacy[k] == old(legacy[k])
  {
    Store(legacy, CONFIG, config[..configLength]);
    legacy[CONFIG + configLength] := 0;
    legacy[CONFIG + configLength + 1] := 0;
  }

  lemma CopiedRecords(a: array<byte>, b: array<byte>, records: seq<Record>)
    requires a.Length >= STAGED_SIZE && b.Length >= STAGED_SIZE && Stored(b, records)
    requires forall k :: DRIVER_RECORDS <= k < DRIVER_RECORDS + |records| * 8 ==> a[k] == b[k]
    ensures Stored(a, records)
  {
  }

  /** The publishing half of prepareOpenStepBootStruct. */
  method Publish(legacy: array<byte>, staged: array<byte>, config: array<byte>, i: Inputs, kernelSize: nat,
                 configLength: nat, ghost records: seq<Record>)
    requires legacy != staged && legacy != config
    requires legacy.Length >= CONFIG + CONFIG_LIMIT + 2 && staged.Length >= STAGED_SIZE
    requires configLength < CONFIG_LIMIT <= config.Length
    requires i.Words() && kernelSize < WORD
    requires Get32(staged, DRIVER_COUNT) == |records| && Stored(staged, records)
    modifies legacy
    ensures FrontPublished(legacy[..LOW_MEMORY], i)
    ensures WordsPublished(legacy[..DRIVER_RECORDS], i, kernelSize, |records|, Get32(staged, SARLD_ENTRY), configLength)
    ensures Stored(legacy, records)
    ensures HoldsBytes(legacy, CONFIG, config[..configLength] + [0, 0])
  {
    hide FrontPublished, WordsPublished, Stored, HoldsBytes, Get32;
    PublishFront(legacy, i);
    var drivers := Get32(staged, DRIVER_COUNT);
    var sarldEntry := Get32(staged, SARLD_ENTRY);
    PublishWords(legacy, i, kernelSize, drivers, sarldEntry, configLength);
    ghost var words := legacy[..DRIVER_RECORDS];
    assert words[..LOW_MEMORY] == legacy[..LOW_MEMORY];
    PublishTables(legacy, staged, config, configLength, drivers, records);
    assert legacy[..LOW_MEMORY] == legacy[..DRIVER_RECORDS][..LOW_MEMORY];
  }

  /**
   prepareOpenStepBootStruct: size the kernel, build the configuration, link the
   drivers into the cleared staging structure, then publish everything.
   */
  method PrepareOpenStepBootStruct(
      b: Build, disk: Disk, system: Read, l: Linker, i: Inputs, names: Option<CString>,
      hasBaseFile: bool, isKernel: bool, commands: seq<Command>, mem: array<byte>, sarld: BootSarld.SarldFile,
      legacy: array<byte>, staged: array<byte>, config: array<byte>)
      returns (configLength: nat, extent: nat, kernelSize: nat, ghost records: seq<Record>)
    requires HonestDisk(disk) && ValidBuild(b) && HonestRead(system, CONFIG_LIMIT - 2) && HonestLinker(l)
    requires i.Words() && mem.Length == WORD && sarld.Staged()
    requires mem != legacy && mem != staged && mem != config
    requires forall c :: c in commands ==> WordSized(c)
    requires legacy != staged && legacy != config && staged != config
    requires legacy.Length >= CONFIG + CONFIG_LIMIT + 2 && staged.Length >= STAGED_SIZE
    requires config.Length >= CONFIG_STAGE_SIZE
    modifies legacy, staged, config, mem
    ensures configLength < CONFIG_LIMIT && extent < WORD && kernelSize < WORD
    ensures HoldsBytes(legacy, CONFIG,
              LateEdits(b, i.graphicsBoot, Join(ConfigTables(b, disk, system, names))) + [0, 0])
    ensures configLength == |LateEdits(b, i.graphicsBoot, Join(ConfigTables(b, disk, system, names)))|
    ensures ExtentIs(isKernel, commands, i.kernelAddress, i.kernelSize, extent)
    ensures var start := RoundPage((i.kernelAddress + extent) % WORD);
            if !Linking(names, hasBaseFile, sarld)
            then records == [] && kernelSize == extent
            else && records == Records(l, DriverNames(names.value, 0), 0, start)
                 && kernelSize == (End(records, start) - i.kernelAddress) % WORD
    ensures FrontPublished(legacy[..LOW_MEMORY], i)
    ensures MemoryIs(mem, old(mem[..]), Attempted(names, hasBaseFile), sarld)
    ensures var entry := if Linking(names, hasBaseFile, sarld) then BootSarld.Entry(sarld).value else 0;
            WordsPublished(legacy[..DRIVER_RECORDS], i, kernelSize, |records|, entry, configLength)
    ensures Stored(legacy, records)
  {
    hide LateEdits, Join, ConfigTables, Records, FrontPublished, WordsPublished, Stored, RoundPage, DriverNames, End,
         ExtentIs, MemoryIs;
    extent := OpenStepKernelExtent(isKernel, commands, i.kernelAddress, i.kernelSize);
    configLength := BuildConfiguration(b, disk, system, names, i.graphicsBoot, config);
    forall k | 0 <= k < STAGED_SIZE {
      staged[k] := 0;
    }
    assert mem[..] == old(mem[..]);
    kernelSize, records := LinkOpenStepDrivers(staged, hasBaseFile, mem, sarld, l, i.kernelAddress, extent, names);
    Publish(legacy, staged, config, i, kernelSize, configLength, records);
  }

  /**
   The two closing NULs lie below the kernel's allocation floor exactly when the
   configuration is at most 0xcb02 bytes long.
   */
  lemma ConfigBelowFloor(configLength: nat)
    ensures BOOTSTRUCT_ADDRESS + CONFIG + configLength + 1 < LOW_MEMORY_END <==> configLength <= 0xcb02
  {
  }

  /** The loader's own limit admits longer ones: a system table alone can reach past the floor. */
  lemma ConfigCanPassFloor(b: Build, disk: Disk, table: seq<byte>)
    requires |table| == 0xcb03 && !b.atapiSlave && !b.eideSafe && !b.eidePrimaryOnly
    ensures HonestRead(Read(|table|, table), CONFIG_LIMIT - 2)
    ensures |LateEdits(b, true, Join(ConfigTables(b, disk, Read(|table|, table), None)))| == 0xcb03
  {
    var system := Read(|table|, table);
    assert table[..|table|] == table;
    assert ConfigTables(b, disk, system, None) == [table];
  }
}
