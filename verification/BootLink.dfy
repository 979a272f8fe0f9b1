/**
 The standalone driver linker loop of the BootE handoff: a bump allocator that
 places linked drivers after the kernel, below a fixed ceiling, and records
 each of them in the staged boot structure.
 */
module BootLink {
  import opened Bytes
  import opened ByteSearch
  import opened BootConfig
  import opened BootTables
  import BootSarld

  const DRIVER_COUNT := 0x154
  const KERNEL_SIZE := 0x160
  const SARLD_ENTRY := 0x164
  const DRIVER_RECORDS := 0x168
  const DRIVER_LIMIT := 64
  const STAGED_SIZE := 0x368
  const SARLD_MALLOC := 0x50_0000

  // ---- 32-bit memory words ----

  function Get32(a: array<byte>, o: nat): (v: nat)
    requires o + 4 <= a.Length
    reads a
    ensures v < WORD
  {
    a[o] as int + (a[o + 1] as int) * 0x100 + (a[o + 2] as int) * 0x1_0000 + (a[o + 3] as int) * 0x100_0000
  }

  method Put32(a: array<byte>, o: nat, v: nat)
    requires o + 4 <= a.Length && v < WORD
    modifies a
    ensures Get32(a, o) == v
    ensures forall k :: 0 <= k < a.Length && !(o <= k < o + 4) ==> a[k] == old(a[k])
    ensures forall p: nat :: p + 4 <= a.Length && (p + 4 <= o || o + 4 <= p) ==> Get32(a, p) == old(Get32(a, p))
  {
    var bytes := PutLe32(v);
    a[o], a[o + 1], a[o + 2], a[o + 3] := bytes[0], bytes[1], bytes[2], bytes[3];
    assert Le32(bytes, 0) == v;
  }

  function RoundPage(v: nat): (r: nat)
    requires v < WORD
    ensures r < WORD
  {
    ((v + 0xfff) % WORD) / 0x1000 * 0x1000
  }

  /** Short of wrapping, the least page boundary that is not below v. */
  lemma RoundPageIsLeast(v: nat, page: nat)
    requires v + 0xfff < WORD
    ensures RoundPage(v) % 0x1000 == 0 && v <= RoundPage(v)
    ensures v <= page && page % 0x1000 == 0 ==> RoundPage(v) <= page
  {
  }

  // ---- the extent of the linked kernel ----

  datatype Segment = Segment(vmaddr: nat, vmsize: nat)

  /** A Mach-O load command: its size and, for a segment command, its address range. */
  datatype Command = Command(cmdsize: nat, segment: Option<Segment>)

  predicate WordSized(c: Command) {
    c.segment.Some? ==> c.segment.value.vmaddr < WORD && c.segment.value.vmsize < WORD
  }

  function SegmentEnd(s: Segment): nat { (s.vmaddr + s.vmsize) % WORD }

  /** A segment counts when it starts at or above the kernel and ends at or below sarld's heap. */
  predicate Counts(c: Command, kernelAddress: nat) {
    && c.segment.Some?
    && kernelAddress <= c.segment.value.vmaddr
    && kernelAddress < SegmentEnd(c.segment.value) <= SARLD_MALLOC
  }

  predicate WellFormed(commands: seq<Command>) {
    forall i :: 0 <= i < |commands| ==> commands[i].cmdsize >= BootSarld.COMMAND_HEADER
  }

  /** c is a counted segment, and none ends higher. */
  predicate Highest(commands: seq<Command>, c: Command, kernelAddress: nat) {
    && c in commands && Counts(c, kernelAddress)
    && forall d :: d in commands && Counts(d, kernelAddress) ==>
         SegmentEnd(d.segment.value) <= SegmentEnd(c.segment.value)
  }

  /** The extent of the kernel: up to the highest counted segment, or the fallback if nothing can be counted. */
  ghost predicate ExtentIs(isKernel: bool, commands: seq<Command>, kernelAddress: nat, fallback: nat, size: nat)
    requires kernelAddress < WORD && forall c :: c in commands ==> WordSized(c)
  {
    if isKernel && WellFormed(commands) && exists c :: c in commands && Counts(c, kernelAddress)
    then exists c :: Highest(commands, c, kernelAddress) &&
                     size == RoundPage(SegmentEnd(c.segment.value) - kernelAddress)
    else size == fallback
  }

  /** openStepKernelExtent: page-rounded size up to the highest counted segment, or the fallback. */
  method OpenStepKernelExtent(isKernel: bool, commands: seq<Command>, kernelAddress: nat, fallback: nat)
      returns (size: nat)
    requires kernelAddress < WORD && fallback < WORD
    requires forall c :: c in commands ==> WordSized(c)
    ensures size < WORD
    ensures ExtentIs(isKernel, commands, kernelAddress, fallback, size)
  {
    hide RoundPage, SegmentEnd;
    if !isKernel {
      return fallback;
    }
    var end := kernelAddress;
    var index := 0;
    while index < |commands|
      invariant index <= |commands| && end >= kernelAddress
      invariant forall i :: 0 <= i < index ==> commands[i].cmdsize >= BootSarld.COMMAND_HEADER
      invariant forall i :: 0 <= i < index && Counts(commands[i], kernelAddress) ==>
                  SegmentEnd(commands[i].segment.value) <= end
      invariant end > kernelAddress ==>
                  exists i :: 0 <= i < index && Counts(commands[i], kernelAddress) &&
                              SegmentEnd(commands[i].segment.value) == end
    {
      var command := commands[index];
      if command.cmdsize < BootSarld.COMMAND_HEADER {
        return fallback;
      }
      if command.segment.Some? {
        var segmentEnd := SegmentEnd(command.segment.value);
        if command.segment.value.vmaddr >= kernelAddress && segmentEnd <= SARLD_MALLOC && segmentEnd > end {
          end := segmentEnd;
        }
      }
      index := index + 1;
    }
    size := if end > kernelAddress then RoundPage(end - kernelAddress) else fallback;
  }

  // ---- linking ----

  datatype Record = Record(base: nat, size: nat)

  datatype Linked = Linked(status: int, workSize: nat)

  /**
   The outside world of the linker loop: how many bytes of the driver's _reloc
   file were read (0 when the read fails), and what sarld answers when offered
   some room at an address. Both may differ from call to call.
   */
  datatype Linker = Linker(reloc: (nat, Name) -> nat, link: (nat, Name, nat, nat) -> Linked)

  /** sarld never reports more than it was offered. */
  ghost predicate HonestLinker(l: Linker) {
    forall k, name, output, offered :: l.link(k, name, output, offered).workSize <= offered
  }

  /** Driver k is linked at output: its file was read, there is room, and sarld succeeded. */
  predicate Links(l: Linker, k: nat, name: Name, output: nat) {
    && l.reloc(k, name) != 0 && l.reloc(k, name) != BootSarld.SARLD_STAGE_SIZE
    && output < SARLD_MALLOC
    && var r := l.link(k, name, output, SARLD_MALLOC - output);
       r.status == 1 && r.workSize != 0 && (output + r.workSize) % WORD <= SARLD_MALLOC
  }

  /** The room driver k takes when it links at output. */
  function Taken(l: Linker, k: nat, name: Name, output: nat): nat
    requires Links(l, k, name, output)
  {
    l.link(k, name, output, SARLD_MALLOC - output).workSize
  }

  lemma TakenFits(l: Linker, k: nat, name: Name, output: nat)
    requires HonestLinker(l) && Links(l, k, name, output)
    ensures var size := Taken(l, k, name, output);
            0 < size && (output + size) % WORD == output + size <= SARLD_MALLOC
  {
  }

  /** The records that drivers ns[k..] get when allocation stands at output. */
  function Records(l: Linker, ns: seq<Name>, k: nat, output: nat): (rs: seq<Record>)
    ensures k <= |ns| && k <= DRIVER_LIMIT ==> k + |rs| <= |ns| && k + |rs| <= DRIVER_LIMIT
    decreases |ns| - k
  {
    if k >= |ns| || k >= DRIVER_LIMIT || !Links(l, k, ns[k], output) then []
    else var size := Taken(l, k, ns[k], output);
      [Record(output, size)] + Records(l, ns, k + 1, (output + size) % WORD)
  }

  /** Where allocation stands after some records. */
  function End(rs: seq<Record>, start: nat): nat {
    if |rs| == 0 then start else End(rs[1..], rs[0].base + rs[0].size)
  }

  /** Non-empty records, each starting where the one before ends, all below the ceiling. */
  predicate Contiguous(rs: seq<Record>, start: nat) {
    |rs| == 0 ||
    (rs[0].base == start && 0 < rs[0].size && start + rs[0].size <= SARLD_MALLOC &&
     Contiguous(rs[1..], start + rs[0].size))
  }

  lemma {:induction false} RecordsAreContiguous(l: Linker, ns: seq<Name>, k: nat, output: nat)
    requires HonestLinker(l)
    ensures Contiguous(Records(l, ns, k, output), output)
    decreases |ns| - k
  {
    hide Links, Taken;
    if k < |ns| && k < DRIVER_LIMIT && Links(l, k, ns[k], output) {
      TakenFits(l, k, ns[k], output);
      RecordsAreContiguous(l, ns, k + 1, output + Taken(l, k, ns[k], output));
    }
  }

  /** No two linked drivers share a byte, and none reaches past the ceiling. */
  lemma {:induction false} ContiguousIsDisjoint(rs: seq<Record>, start: nat, i: nat, j: nat)
    requires Contiguous(rs, start) && i < j < |rs|
    ensures start <= rs[i].base && rs[i].base + rs[i].size <= rs[j].base
    ensures rs[j].base + rs[j].size <= End(rs, start) <= SARLD_MALLOC
    decreases j
  {
    EndIsLast(rs[1..], start + rs[0].size, j - 1);
    if i > 0 {
      ContiguousIsDisjoint(rs[1..], start + rs[0].size, i - 1, j - 1);
    }
  }

  lemma {:induction false} EndIsLast(rs: seq<Record>, start: nat, j: nat)
    requires Contiguous(rs, start) && j < |rs|
    ensures start <= rs[j].base && rs[j].base + rs[j].size <= End(rs, start) <= SARLD_MALLOC
    ensures j == |rs| - 1 ==> rs[j].base + rs[j].size == End(rs, start)
    decreases |rs|
  {
    if |rs| > 1 {
      EndIsLast(rs[1..], start + rs[0].size, if j == 0 then 0 else j - 1);
    }
  }

  /** Record i is driver k + i, linked at its own base with the size sarld reported. */
  lemma {:induction false} RecordIsDriver(l: Linker, ns: seq<Name>, k: nat, output: nat, i: nat)
    requires HonestLinker(l) && i < |Records(l, ns, k, output)|
    requires k <= |ns| && k <= DRIVER_LIMIT
    ensures var r := Records(l, ns, k, output)[i];
            Links(l, k + i, ns[k + i], r.base) && r.size == Taken(l, k + i, ns[k + i], r.base)
    decreases i
  {
    hide Links, Taken;
    TakenFits(l, k, ns[k], output);
    if i > 0 {
      RecordIsDriver(l, ns, k + 1, output + Taken(l, k, ns[k], output), i - 1);
    }
  }

  /** Linking stops at the first driver that cannot be linked where allocation then stands. */
  lemma {:induction false} RecordsStop(l: Linker, ns: seq<Name>, k: nat, output: nat)
    requires HonestLinker(l) && k <= |ns| && k <= DRIVER_LIMIT
    ensures var rs := Records(l, ns, k, output);
            var m := k + |rs|;
            m == |ns| || m == DRIVER_LIMIT || !Links(l, m, ns[m], End(rs, output))
    decreases |ns| - k
  {
    hide Links, Taken;
    if k < |ns| && k < DRIVER_LIMIT && Links(l, k, ns[k], output) {
      TakenFits(l, k, ns[k], output);
      RecordsStop(l, ns, k + 1, output + Taken(l, k, ns[k], output));
    }
  }

  // ---- the loop ----

  ghost predicate Stored(a: array<byte>, rs: seq<Record>)
    requires a.Length >= STAGED_SIZE
    reads a
  {
    |rs| <= DRIVER_LIMIT &&
    forall i :: 0 <= i < |rs| ==>
      Get32(a, DRIVER_RECORDS + 8 * i) == rs[i].base && Get32(a, DRIVER_RECORDS + 8 * i + 4) == rs[i].size
  }

  /** There are drivers to link, and a kernel to link them with. */
  predicate Attempted(names: Option<CString>, hasBaseFile: bool) {
    names.Some? && |names.value| > 0 && hasBaseFile
  }

  /** And the linker loads too. */
  predicate Linking(names: Option<CString>, hasBaseFile: bool, sarld: BootSarld.SarldFile)
    requires sarld.Staged()
  {
    Attempted(names, hasBaseFile) && BootSarld.Entry(sarld).Some?
  }

  /** Memory holds what loading sarld leaves there, if that is attempted, and is as before otherwise. */
  ghost predicate MemoryIs(mem: array<byte>, before: seq<byte>, attempted: bool, sarld: BootSarld.SarldFile)
    requires |before| == mem.Length == WORD && sarld.Staged()
    reads mem
  {
    forall a :: 0 <= a < WORD ==>
      mem[a] == if attempted then BootSarld.ByteAfter(before, sarld.commands, BootSarld.CarriedOut(sarld), a)
                else before[a]
  }

  /** linkOpenStepDrivers, on memory with sarld's file in the staging area. The staged structure starts zeroed. */
  method LinkOpenStepDrivers(staged: array<byte>, hasBaseFile: bool, mem: array<byte>, sarld: BootSarld.SarldFile,
                             l: Linker, kernelAddress: nat, kernelSize: nat, names: Option<CString>)
      returns (newSize: nat, ghost records: seq<Record>)
    requires HonestLinker(l) && staged.Length >= STAGED_SIZE
    requires kernelAddress < WORD && kernelSize < WORD
    requires mem != staged && mem.Length == WORD && sarld.Staged()
    requires Get32(staged, DRIVER_COUNT) == 0 && Get32(staged, SARLD_ENTRY) == 0
    modifies staged, mem
    ensures newSize < WORD
    ensures var start := RoundPage((kernelAddress + kernelSize) % WORD);
            if !Linking(names, hasBaseFile, sarld)
            then records == [] && newSize == kernelSize && Get32(staged, SARLD_ENTRY) == 0
            else && records == Records(l, DriverNames(names.value, 0), 0, start)
                 && newSize == (End(records, start) - kernelAddress) % WORD
                 && Get32(staged, SARLD_ENTRY) == BootSarld.Entry(sarld).value
    ensures MemoryIs(mem, old(mem[..]), Attempted(names, hasBaseFile), sarld)
    ensures Get32(staged, DRIVER_COUNT) == |records|
    ensures |records| > 0 ==> Get32(staged, KERNEL_SIZE) == newSize
    ensures Stored(staged, records)
  {
    hide Links, Taken, Records, DriverNames, RoundPage, BootSarld.ByteAfter, BootSarld.Entry, Get32;
    if names.None? || |names.value| == 0 || !hasBaseFile {
      return kernelSize, [];
    }
    var entry := BootSarld.LoadOpenStepSarld(mem, sarld);
    if entry.None? {
      return kernelSize, [];
    }
    var output := RoundPage((kernelAddress + kernelSize) % WORD);
    Put32(staged, SARLD_ENTRY, entry.value);
    output, records := LinkInOrder(staged, l, kernelAddress, output, names.value);
    newSize := (output - kernelAddress) % WORD;
  }

  /** The linker loop: one driver name, one link attempt and one record at a time. */
  method LinkInOrder(staged: array<byte>, l: Linker, kernelAddress: nat, start: nat, text: CString)
      returns (output: nat, ghost records: seq<Record>)
    requires HonestLinker(l) && staged.Length >= STAGED_SIZE
    requires kernelAddress < WORD && start < WORD
    requires Get32(staged, DRIVER_COUNT) == 0
    modifies staged
    ensures records == Records(l, DriverNames(text, 0), 0, start) && output == End(records, start)
    ensures Get32(staged, DRIVER_COUNT) == |records|
    ensures Get32(staged, SARLD_ENTRY) == old(Get32(staged, SARLD_ENTRY))
    ensures |records| > 0 ==> Get32(staged, KERNEL_SIZE) == (output - kernelAddress) % WORD
    ensures Stored(staged, records)
  {
    hide Links, Taken, Records, DriverNames, WordAt, Get32, End;
    records := [];
    EndEmpty(start);
    output := start;
    ghost var ns := DriverNames(text, 0);
    var count := 0;
    var cursor := 0;
    while cursor < |text| && count < DRIVER_LIMIT
      invariant cursor <= |text| && count == |records| <= |ns| && count <= DRIVER_LIMIT && output < WORD
      invariant ns[count..] == DriverNames(text, cursor)
      invariant Records(l, ns, 0, start) == records + Records(l, ns, count, output)
      invariant output == End(records, start)
      invariant Get32(staged, DRIVER_COUNT) == count && Get32(staged, SARLD_ENTRY) == old(Get32(staged, SARLD_ENTRY))
      invariant count > 0 ==> Get32(staged, KERNEL_SIZE) == (output - kernelAddress) % WORD
      invariant Stored(staged, records)
      decreases |text| - cursor
    {
      var w := NextDriverName(text, cursor);
      if !w.Word? {
        break;
      }
      NamesStep(text, cursor, w.name, w.next);
      assert ns[count] == ns[count..][0] == w.name && ns[count + 1..] == ns[count..][1..];
      var linked := TryLink(l, count, w.name, output);
      if linked.None? {
        RecordsEnd(l, ns, count, output);
        assert records == Records(l, ns, 0, start);
        return output, records;
      }
      var workSize := linked.value;
      RecordsStep(l, ns, count, output);
      EndAppend(records, Record(output, workSize), start);
      AddRecord(staged, records, output, workSize, count, (output + workSize - kernelAddress) % WORD);
      records := records + [Record(output, workSize)];
      cursor, count, output := w.next, count + 1, output + workSize;
    }
    if count < DRIVER_LIMIT {
      NamesEnd(text, cursor);
    }
    RecordsEnd(l, ns, count, output);
    assert records == Records(l, ns, 0, start);
  }

  lemma EndEmpty(start: nat)
    ensures End([], start) == start
  {
  }

  /** Load the driver's _reloc file and offer sarld everything up to the ceiling. */
  method TryLink(l: Linker, k: nat, driver: Name, output: nat) returns (size: Option<nat>)
    requires HonestLinker(l)
    ensures size.Some? <==> Links(l, k, driver, output)
    ensures size.Some? ==>
              && size.value == Taken(l, k, driver, output)
              && 0 < size.value && output + size.value <= SARLD_MALLOC
  {
    var length := l.reloc(k, driver);
    if length <= 0 || length == BootSarld.SARLD_STAGE_SIZE {
      return None;
    }
    if output >= SARLD_MALLOC {
      return None;
    }
    var r := l.link(k, driver, output, SARLD_MALLOC - output);
    if r.status != 1 || r.workSize == 0 || (output + r.workSize) % WORD > SARLD_MALLOC {
      return None;
    }
    TakenFits(l, k, driver, output);
    return Some(r.workSize);
  }

  method AddRecord(staged: array<byte>, ghost records: seq<Record>, base: nat, size: nat, count: nat, kernelSize: nat)
    requires staged.Length >= STAGED_SIZE && count == |records| < DRIVER_LIMIT
    requires base < WORD && size < WORD && kernelSize < WORD
    requires Stored(staged, records)
    modifies staged
    ensures Stored(staged, records + [Record(base, size)])
    ensures Get32(staged, DRIVER_COUNT) == count + 1
    ensures Get32(staged, KERNEL_SIZE) == kernelSize
    ensures Get32(staged, SARLD_ENTRY) == old(Get32(staged, SARLD_ENTRY))
  {
    hide Get32;
    Put32(staged, DRIVER_RECORDS + count * 8, base);
    Put32(staged, DRIVER_RECORDS + count * 8 + 4, size);
    Put32(staged, DRIVER_COUNT, count + 1);
    Put32(staged, KERNEL_SIZE, kernelSize);
  }

  lemma RecordsEnd(l: Linker, ns: seq<Name>, k: nat, output: nat)
    requires k >= |ns| || k >= DRIVER_LIMIT || !Links(l, k, ns[k], output)
    ensures Records(l, ns, k, output) == []
  {
  }

  lemma RecordsStep(l: Linker, ns: seq<Name>, k: nat, output: nat)
    requires HonestLinker(l) && k < |ns| && k < DRIVER_LIMIT && Links(l, k, ns[k], output)
    ensures var size := Taken(l, k, ns[k], output);
            Records(l, ns, k, output) == [Record(output, size)] + Records(l, ns, k + 1, output + size)
  {
    TakenFits(l, k, ns[k], output);
  }

  lemma {:induction false} EndAppend(rs: seq<Record>, r: Record, start: nat)
    ensures End(rs + [r], start) == r.base + r.size
  {
    if |rs| > 0 {
      assert (rs + [r])[1..] == rs[1..] + [r];
      EndAppend(rs[1..], r, rs[0].base + rs[0].size);
    }
  }
}
