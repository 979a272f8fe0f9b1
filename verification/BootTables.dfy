/**
 Driver names, driver tables and the whole configuration pipeline of the BootE
 handoff: system table, Boot Drivers list, one appended table per driver, then
 the build-selected rewrites.
 */
module BootTables {
  import opened Bytes
  import opened ByteSearch
  import opened BootConfig

  const NAME_MAX := 63
  const CONFIG_STAGE_SIZE := 0x10_0000

  type Name = seq<byte>

  /** The compile-time choices of the loader and its two built-in tables. */
  datatype Build = Build(
    amdAlias: bool, eideTable: seq<byte>,
    atapiSlave: bool, eideSafe: bool, eidePrimaryOnly: bool,
    keyboardTable: seq<byte>, mouseTable: seq<byte>)

  ghost predicate ValidBuild(b: Build) {
    && 0 < |b.keyboardTable| <= 0x1000 && NulFree(b.keyboardTable)
    && 0 < |b.mouseTable| <= 0x1000 && NulFree(b.mouseTable)
  }

  // ---- driver names ----

  predicate Blank(b: byte) { b == ' ' as int || b == '\t' as int }

  predicate IsDriverNameCharacter(b: byte) {
    || 'a' as int <= b <= 'z' as int
    || 'A' as int <= b <= 'Z' as int
    || '0' as int <= b <= '9' as int
    || b == '_' as int
  }

  predicate ValidName(n: Name) {
    0 < |n| <= NAME_MAX && forall i :: 0 <= i < |n| ==> IsDriverNameCharacter(n[i])
  }

  function SkipBlanks(s: seq<byte>, i: nat): (r: nat)
    requires i <= |s|
    ensures i <= r <= |s| && (r < |s| ==> !Blank(s[r]))
    ensures forall j :: i <= j < r ==> Blank(s[j])
    decreases |s| - i
  {
    if i < |s| && Blank(s[i]) then SkipBlanks(s, i + 1) else i
  }

  function WordEnd(s: seq<byte>, i: nat): (r: nat)
    requires i <= |s|
    ensures i <= r <= |s| && (r < |s| ==> Blank(s[r]))
    ensures forall j :: i <= j < r ==> !Blank(s[j])
    decreases |s| - i
  {
    if i < |s| && !Blank(s[i]) then WordEnd(s, i + 1) else i
  }

  datatype Word = Word(name: Name, next: nat) | BadWord | NoWord

  /** The blank-delimited word at or after the cursor. */
  function WordAt(s: seq<byte>, cursor: nat): (w: Word)
    requires cursor <= |s|
    ensures w.Word? ==> cursor < w.next <= |s| && ValidName(w.name)
  {
    var b := SkipBlanks(s, cursor);
    var e := WordEnd(s, b);
    if b == e then NoWord else if ValidName(s[b..e]) then Word(s[b..e], e) else BadWord
  }

  /** The driver list: words up to the end or to the first ill-formed one. */
  function DriverNames(s: seq<byte>, cursor: nat): (ns: seq<Name>)
    requires cursor <= |s|
    ensures forall n :: n in ns ==> ValidName(n)
    decreases |s| - cursor
  {
    match WordAt(s, cursor)
    case Word(n, next) => [n] + DriverNames(s, next)
    case _ => []
  }

  /** The scanner shared by the table and the linker loops, one character at a time. */
  method NextDriverName(s: CString, start: nat) returns (w: Word)
    requires start <= |s|
    ensures w == WordAt(s, start)
  {
    var cursor := start;
    while cursor < |s| && Blank(s[cursor])
      invariant start <= cursor <= |s|
      invariant SkipBlanks(s, start) == SkipBlanks(s, cursor)
    {
      cursor := cursor + 1;
    }
    ghost var b := cursor;
    var driver: Name := [];
    while cursor < |s| && !Blank(s[cursor])
      invariant b <= cursor <= |s| && driver == s[b..cursor] && |driver| <= NAME_MAX
      invariant WordEnd(s, b) == WordEnd(s, cursor)
      invariant forall i :: 0 <= i < |driver| ==> IsDriverNameCharacter(driver[i])
    {
      var value := s[cursor];
      if !IsDriverNameCharacter(value) || |driver| == NAME_MAX {
        assert s[b..WordEnd(s, b)][cursor - b] == value;
        return BadWord;
      }
      cursor := cursor + 1;
      driver := driver + [value];
    }
    return if |driver| == 0 then NoWord else Word(driver, cursor);
  }

  function Spaced(ns: seq<Name>): seq<byte> {
    if |ns| == 0 then [] else ns[0] + [' ' as int] + Spaced(ns[1..])
  }

  /** Writing a list of names with spaces and scanning it gives the list back. */
  lemma {:induction false} NamesRoundTrip(s: seq<byte>, at: nat, ns: seq<Name>)
    requires forall n :: n in ns ==> ValidName(n)
    requires at <= |s| && s[at..] == Spaced(ns)
    ensures DriverNames(s, at) == ns
    decreases |ns|
  {
    hide WordAt, ValidName, DriverNames, Blank, Spaced;
    SpacedStep(ns);
    if |ns| == 0 {
      assert |s[at..]| == 0;
      NamesEnd(s, at);
    } else {
      var n := ns[0];
      var e := at + |n|;
      assert n in ns;
      WordFront(s, at, n, Spaced(ns[1..]));
      NamesRoundTrip(s, e + 1, ns[1..]);
      WordAtIs(s, at, e);
      NamesStep(s, at, n, e);
      BlankSkipped(s, e);
      assert ns == [n] + ns[1..];
    }
  }

  lemma SpacedStep(ns: seq<Name>)
    ensures Spaced(ns) == if |ns| == 0 then [] else ns[0] + [' ' as int] + Spaced(ns[1..])
  {
  }

  lemma WordFront(s: seq<byte>, at: nat, n: Name, rest: seq<byte>)
    requires at <= |s| && s[at..] == n + [' ' as int] + rest && ValidName(n)
    ensures |n| > 0 && at + |n| < |s| && s[at..at + |n|] == n && Blank(s[at + |n|])
    ensures s[at + |n| + 1..] == rest
    ensures forall j :: at <= j < at + |n| ==> !Blank(s[j])
  {
    assert s[at..][|n|] == ' ' as int;
    assert s[at + |n| + 1..] == s[at..][|n| + 1..];
    assert s[at..at + |n|] == s[at..][..|n|];
    assert forall j :: at <= j < at + |n| ==> s[j] == s[at..at + |n|][j - at] == n[j - at];
  }

  lemma NamesStep(s: seq<byte>, cursor: nat, n: Name, next: nat)
    requires cursor <= |s| && WordAt(s, cursor) == Word(n, next)
    ensures DriverNames(s, cursor) == [n] + DriverNames(s, next)
  {
  }

  lemma BlankSkipped(s: seq<byte>, i: nat)
    requires i < |s| && Blank(s[i])
    ensures DriverNames(s, i) == DriverNames(s, i + 1)
  {
    hide ValidName;
    assert SkipBlanks(s, i) == SkipBlanks(s, i + 1);
  }

  lemma WordAtIs(s: seq<byte>, i: nat, e: nat)
    requires i < e < |s| && Blank(s[e]) && ValidName(s[i..e])
    requires forall j :: i <= j < e ==> !Blank(s[j])
    ensures WordAt(s, i) == Word(s[i..e], e)
  {
    var r := WordEnd(s, i);
    assert !(r < e) && !(e < r);
  }

  // ---- reading one driver's table ----

  /** What a read put into memory and the count it returned. */
  datatype Read = Read(count: int, data: seq<byte>)

  /** An arbitrary volume: the answer to each request, by driver index and attempt. */
  type Disk = (nat, nat, seq<byte>, nat) -> Read

  /** A read stores at most what was asked for, and at least what it reports as read. */
  ghost predicate HonestDisk(disk: Disk) {
    forall k, attempt, path, limit :: HonestRead(disk(k, attempt, path, limit), limit)
  }

  predicate HonestRead(r: Read, limit: nat) {
    |r.data| <= limit && (r.count <= limit ==> r.count <= |r.data|)
  }

  function Bundle(b: Build, driver: Name): Name {
    if b.amdAlias && driver == Ascii("AMDPCSCSIDriver") then Ascii("AMD") else driver
  }

  function PreferredTable(b: Build, driver: Name): seq<byte> {
    if driver == Ascii("EIDE") then b.eideTable
    else if driver == Ascii("MatroxMGA2064WDisplayDriver") then Ascii("PCI8MB")
    else Ascii("Default")
  }

  function TablePath(bundle: Name, table: seq<byte>): seq<byte> {
    Ascii("/private/Drivers/i386/") + bundle + Ascii(".config/") + table + Ascii(".table")
  }

  function BuiltIn(b: Build, driver: Name): Option<seq<byte>> {
    if driver == Ascii("PS2Keyboard") then Some(b.keyboardTable)
    else if driver == Ascii("PS2Mouse") then Some(b.mouseTable)
    else None
  }

  /** Preferred table, then the driver's own, then Default, then the built-in copy. */
  function TableRead(b: Build, disk: Disk, k: nat, driver: Name, limit: nat): Read {
    var bundle := Bundle(b, driver);
    var preferred := PreferredTable(b, driver);
    var r0 := disk(k, 0, TablePath(bundle, preferred), limit);
    var r1 := if r0.count <= 0 && preferred != driver then disk(k, 1, TablePath(bundle, driver), limit) else r0;
    var r2 := if r1.count <= 0 then disk(k, 2, TablePath(bundle, Ascii("Default")), limit) else r1;
    match BuiltIn(b, driver)
    case Some(t) => if r2.count <= 0 then Read(|t|, t) else r2
    case None => r2
  }

  /** The table a driver contributes when limit bytes are left, if any. */
  function DriverTable(b: Build, disk: Disk, k: nat, driver: Name, limit: nat): Option<seq<byte>> {
    var r := TableRead(b, disk, k, driver, limit);
    if 0 < r.count <= limit && r.count <= |r.data| then Some(r.data[..r.count]) else None
  }

  lemma TableReadIsLong(b: Build, disk: Disk, k: nat, driver: Name, limit: nat)
    requires HonestDisk(disk) && ValidBuild(b)
    ensures var r := TableRead(b, disk, k, driver, limit);
            (r.count <= limit ==> r.count <= |r.data|) && |r.data| <= Max(limit, 0x1000)
  {
    var bundle, preferred := Bundle(b, driver), PreferredTable(b, driver);
    assert HonestRead(disk(k, 0, TablePath(bundle, preferred), limit), limit);
    assert HonestRead(disk(k, 1, TablePath(bundle, driver), limit), limit);
    assert HonestRead(disk(k, 2, TablePath(bundle, Ascii("Default")), limit), limit);
  }

  /** The reads of one driver, each landing at the same place in the buffer. */
  method ReadTable(b: Build, disk: Disk, k: nat, driver: Name, config: array<byte>, at: nat)
      returns (r: Read)
    requires HonestDisk(disk) && ValidBuild(b)
    requires at + 2 <= CONFIG_LIMIT && config.Length >= CONFIG_STAGE_SIZE
    modifies config
    ensures r == TableRead(b, disk, k, driver, CONFIG_LIMIT - at - 2)
    ensures config[..at] == old(config[..at])
    ensures at + |r.data| <= config.Length
    ensures forall j :: at <= j < at + |r.data| ==> config[j] == r.data[j - at]
  {
    hide Ascii, Bundle, PreferredTable, TablePath, BuiltIn;
    var limit := CONFIG_LIMIT - at - 2;
    var bundle := Bundle(b, driver);
    var preferred := PreferredTable(b, driver);
    r := disk(k, 0, TablePath(bundle, preferred), limit);
    ReadAt(config, at, r, limit);
    if r.count <= 0 && preferred != driver {
      r := disk(k, 1, TablePath(bundle, driver), limit);
      ReadAt(config, at, r, limit);
    }
    if r.count <= 0 {
      r := disk(k, 2, TablePath(bundle, Ascii("Default")), limit);
      ReadAt(config, at, r, limit);
    }
    var builtIn := BuiltIn(b, driver);
    if r.count <= 0 && builtIn.Some? {
      BuiltInSize(b, driver);
      r := Read(|builtIn.value|, builtIn.value);
      ReadAt(config, at, r, 0x1000);
    }
  }

  lemma BuiltInSize(b: Build, driver: Name)
    requires ValidBuild(b)
    ensures BuiltIn(b, driver).Some? ==> |BuiltIn(b, driver).value| <= 0x1000
  {
  }

  method ReadAt(config: array<byte>, at: nat, r: Read, limit: nat)
    requires HonestRead(r, limit) && at + limit <= config.Length
    modifies config
    ensures config[..at] == old(config[..at])
    ensures forall j :: at <= j < at + |r.data| ==> config[j] == r.data[j - at]
  {
    Store(config, at, r.data);
  }

  // ---- appending the tables ----

  datatype Entry = Entry(index: nat, table: seq<byte>)

  /** The tables that drivers ns[k..] contribute when the first pos bytes are in use. */
  function Found(b: Build, disk: Disk, ns: seq<Name>, k: nat, pos: nat): seq<Entry>
    decreases |ns| - k
  {
    if k >= |ns| || pos + 2 >= CONFIG_LIMIT then []
    else match DriverTable(b, disk, k, ns[k], CONFIG_LIMIT - pos - 3)
      case None => Found(b, disk, ns, k + 1, pos)
      case Some(t) => [Entry(k, t)] + Found(b, disk, ns, k + 1, pos + 1 + |t|)
  }

  function Tables(found: seq<Entry>): (ts: seq<seq<byte>>)
    ensures |ts| == |found|
  {
    seq(|found|, i requires 0 <= i < |found| => found[i].table)
  }

  /** Bytes in use when driver m is reached: the start plus every earlier driver's table and NUL. */
  function Used(found: seq<Entry>, m: nat, start: nat): nat {
    if |found| == 0 || found[0].index >= m then start
    else Used(found[1..], m, start + 1 + |found[0].table|)
  }

  /** The entry of driver m, if it has one. */
  function EntryOf(found: seq<Entry>, m: nat): Option<seq<byte>> {
    if |found| == 0 then None
    else if found[0].index == m then Some(found[0].table)
    else EntryOf(found[1..], m)
  }

  /** Entries in strictly increasing driver order, all of drivers lo..hi-1. */
  predicate Ordered(found: seq<Entry>, lo: nat, hi: nat) {
    |found| == 0 || (lo <= found[0].index < hi && Ordered(found[1..], found[0].index + 1, hi))
  }

  lemma OrderedFrom(found: seq<Entry>, lo: nat, lo': nat, hi: nat)
    requires Ordered(found, lo, hi) && lo' <= lo
    ensures Ordered(found, lo', hi)
  {
  }

  lemma {:induction false} FoundInOrder(b: Build, disk: Disk, ns: seq<Name>, k: nat, pos: nat)
    ensures Ordered(Found(b, disk, ns, k, pos), k, |ns|)
    decreases |ns| - k
  {
    hide Ascii, DriverTable;
    if k < |ns| && pos + 2 < CONFIG_LIMIT {
      match DriverTable(b, disk, k, ns[k], CONFIG_LIMIT - pos - 3)
      case None =>
        FoundInOrder(b, disk, ns, k + 1, pos);
        OrderedFrom(Found(b, disk, ns, k + 1, pos), k + 1, k, |ns|);
      case Some(t) =>
        FoundInOrder(b, disk, ns, k + 1, pos + 1 + |t|);
    }
  }

  lemma {:induction false} BeforeFirst(found: seq<Entry>, m: nat, hi: nat, start: nat)
    requires Ordered(found, m + 1, hi)
    ensures EntryOf(found, m).None? && Used(found, m, start) == start
  {
    if |found| > 0 {
      OrderedFrom(found[1..], found[0].index + 1, m + 1, hi);
      BeforeFirst(found[1..], m, hi, start);
    }
  }

  /**
   Every driver is accounted for: driver m has an entry exactly when the area was
   not exhausted on reaching it and its table could be loaded, and then that
   entry is the table.
   */
  lemma {:induction false} FoundExactly(b: Build, disk: Disk, ns: seq<Name>, k: nat, pos: nat, m: nat)
    requires k <= m < |ns|
    ensures var f := Found(b, disk, ns, k, pos);
            var used := Used(f, m, pos);
            EntryOf(f, m) ==
            if used + 2 >= CONFIG_LIMIT then None
            else DriverTable(b, disk, m, ns[m], CONFIG_LIMIT - used - 3)
    decreases |ns| - k
  {
    hide Ascii, DriverTable;
    var f := Found(b, disk, ns, k, pos);
    if pos + 2 < CONFIG_LIMIT {
      match DriverTable(b, disk, k, ns[k], CONFIG_LIMIT - pos - 3)
      case None =>
        if m == k {
          FoundInOrder(b, disk, ns, k + 1, pos);
          BeforeFirst(f, m, |ns|, pos);
        } else {
          FoundExactly(b, disk, ns, k + 1, pos, m);
        }
      case Some(t) =>
        if m > k {
          assert f[1..] == Found(b, disk, ns, k + 1, pos + 1 + |t|);
          FoundExactly(b, disk, ns, k + 1, pos + 1 + |t|, m);
        }
    }
  }

  /** appendOpenStepDriverTables: one NUL and one table per driver that can be loaded. */
  method AppendOpenStepDriverTables(b: Build, disk: Disk, config: array<byte>, length: nat, names: Option<CString>)
      returns (newLength: nat)
    requires HonestDisk(disk) && ValidBuild(b)
    requires length + 2 <= CONFIG_LIMIT && config.Length >= CONFIG_STAGE_SIZE
    modifies config
    ensures newLength + 2 <= CONFIG_LIMIT
    ensures config[..newLength] == AppendTables(b, disk, old(config[..length]), names)
  {
    hide Ascii, DriverTable, TableRead, Join, WordAt, DriverNames, Found;
    ghost var orig := config[..length];
    ghost var found: seq<Entry> := [];
    JoinOne(orig);
    newLength := length;
    if names.None? {
      return length;
    }
    var text := names.value;
    var cursor := 0;
    var k := 0;
    ghost var ns := DriverNames(text, 0);
    while cursor < |text|
      invariant cursor <= |text| && k <= |ns| && ns[k..] == DriverNames(text, cursor)
      invariant newLength + 2 <= CONFIG_LIMIT
      invariant Found(b, disk, ns, 0, length) == found + Found(b, disk, ns, k, newLength)
      invariant config[..newLength] == Join([orig] + Tables(found))
      decreases |text| - cursor
    {
      var w := NextDriverName(text, cursor);
      if !w.Word? {
        break;
      }
      NamesStep(text, cursor, w.name, w.next);
      assert ns[k] == ns[k..][0] && ns[k + 1..] == ns[k..][1..];
      if newLength + 2 >= CONFIG_LIMIT {
        FoundEnd(b, disk, ns, k, newLength);
        assert found == Found(b, disk, ns, 0, |orig|);
        return newLength;
      }
      newLength, found := AppendOne(b, disk, ns, k, w.name, config, newLength, orig, found);
      cursor, k := w.next, k + 1;
    }
    NamesEnd(text, cursor);
    FoundEnd(b, disk, ns, k, newLength);
    assert found == Found(b, disk, ns, 0, |orig|);
  }

  lemma JoinOne(t: seq<byte>)
    ensures Join([t] + Tables([])) == t
  {
    assert [t] + Tables([]) == [t];
  }

  lemma NamesEnd(s: seq<byte>, cursor: nat)
    requires cursor <= |s| && (cursor < |s| ==> !WordAt(s, cursor).Word?)
    ensures DriverNames(s, cursor) == []
  {
  }

  lemma FoundEnd(b: Build, disk: Disk, ns: seq<Name>, k: nat, pos: nat)
    requires k >= |ns| || pos + 2 >= CONFIG_LIMIT
    ensures Found(b, disk, ns, k, pos) == []
  {
  }

  function AppendTables(b: Build, disk: Disk, config: seq<byte>, names: Option<CString>): seq<byte> {
    Join([config] + Tables(FoundTables(b, disk, config, names)))
  }

  function FoundTables(b: Build, disk: Disk, config: seq<byte>, names: Option<CString>): seq<Entry> {
    if names.None? then [] else Found(b, disk, DriverNames(names.value, 0), 0, |config|)
  }

  /** One pass of the append loop, from writing the NUL to accepting or rejecting the table. */
  method AppendOne(b: Build, disk: Disk, ghost ns: seq<Name>, k: nat, driver: Name, config: array<byte>, length: nat,
                   ghost orig: seq<byte>, ghost found: seq<Entry>)
      returns (newLength: nat, ghost newFound: seq<Entry>)
    requires HonestDisk(disk) && ValidBuild(b) && k < |ns| && ns[k] == driver
    requires length + 2 < CONFIG_LIMIT && config.Length >= CONFIG_STAGE_SIZE
    requires config[..length] == Join([orig] + Tables(found))
    modifies config
    ensures newLength + 2 <= CONFIG_LIMIT
    ensures found + Found(b, disk, ns, k, length) == newFound + Found(b, disk, ns, k + 1, newLength)
    ensures config[..newLength] == Join([orig] + Tables(newFound))
  {
    hide Ascii, TableRead, Join;
    ghost var before := config[..length];
    config[length] := 0;
    TableReadIsLong(b, disk, k, driver, CONFIG_LIMIT - (length + 1) - 2);
    var r := ReadTable(b, disk, k, driver, config, length + 1);
    var tableLength := r.count;
    assert config[..length] == before && config[length] == 0 by {
      assert config[..length] == config[..length + 1][..length];
    }
    newFound := found;
    if tableLength <= 0 || tableLength > CONFIG_LIMIT - (length + 1) - 2 {
      assert DriverTable(b, disk, k, driver, CONFIG_LIMIT - length - 3).None?;
      return length, found;
    }
    ghost var t := r.data[..tableLength];
    assert DriverTable(b, disk, k, driver, CONFIG_LIMIT - length - 3) == Some(t);
    newLength := length + 1 + tableLength;
    newFound := found + [Entry(k, t)];
    assert config[..newLength] == before + [0] + t;
    assert [orig] + Tables(newFound) == [orig] + Tables(found) + [t];
    JoinAppend([orig] + Tables(found), t);
  }

  // ---- the whole configuration ----

  function SystemTable(system: Read): seq<byte> {
    if 0 < system.count <= CONFIG_LIMIT - 2 && system.count <= |system.data| then system.data[..system.count] else []
  }

  function EditedSystemTable(system: Read, names: Option<CString>): seq<byte> {
    match names
    case None => SystemTable(system)
    case Some(text) => SetDrivers(SystemTable(system), text)
  }

  // The later edits, each first on the flat byte sequence and then on a list of tables.

  function AtapiEdit(b: Build, c: seq<byte>): seq<byte> {
    if b.atapiSlave then SetAtapiSlave(c) else c
  }

  function AtapiTables(b: Build, ts: seq<seq<byte>>): (r: seq<seq<byte>>)
    requires |ts| > 0
    ensures |r| == |ts|
  {
    if b.atapiSlave && |Join(ts)| + |SLAVE| < CONFIG_LIMIT then ReplaceFirstTable(ts, ATAPI_KEY, ATAPI_VALUE) else ts
  }

  function SectorsEdit(b: Build, c: seq<byte>): seq<byte> {
    if b.eideSafe then ReplaceAll(c, SECTORS_KEY, SECTORS_VALUE) else c
  }

  function SectorsTables(b: Build, ts: seq<seq<byte>>): (r: seq<seq<byte>>)
    ensures |r| == |ts|
  {
    if b.eideSafe then ReplaceAllTables(ts, SECTORS_KEY, SECTORS_VALUE) else ts
  }

  function PortsEdit(b: Build, c: seq<byte>): seq<byte> {
    if b.eidePrimaryOnly then ReplaceFirst(c, PORTS_KEY, PORTS_VALUE) else c
  }

  function PortsTables(b: Build, ts: seq<seq<byte>>): (r: seq<seq<byte>>)
    ensures |r| == |ts|
  {
    if b.eidePrimaryOnly then ReplaceFirstTable(ts, PORTS_KEY, PORTS_VALUE) else ts
  }

  function TextEdit(graphicsBoot: bool, c: seq<byte>): seq<byte> {
    if |c| > 0 && !graphicsBoot then ReplaceFirst(c, TEXT_KEY, TEXT_VALUE) else c
  }

  function TextTables(graphicsBoot: bool, ts: seq<seq<byte>>): (r: seq<seq<byte>>)
    ensures |r| == |ts|
  {
    if graphicsBoot then ts else ReplaceFirstTable(ts, TEXT_KEY, TEXT_VALUE)
  }

  function LateEdits(b: Build, graphicsBoot: bool, c: seq<byte>): seq<byte> {
    TextEdit(graphicsBoot, PortsEdit(b, SectorsEdit(b, AtapiEdit(b, c))))
  }

  function LateTableEdits(b: Build, graphicsBoot: bool, ts: seq<seq<byte>>): (r: seq<seq<byte>>)
    requires |ts| > 0
    ensures |r| == |ts|
  {
    TextTables(graphicsBoot, PortsTables(b, SectorsTables(b, AtapiTables(b, ts))))
  }

  function ConfigTables(b: Build, disk: Disk, system: Read, names: Option<CString>): (ts: seq<seq<byte>>)
    ensures |ts| > 0
  {
    var t := EditedSystemTable(system, names);
    [t] + Tables(FoundTables(b, disk, t, names))
  }

  /** The configuration part of prepareOpenStepBootStruct, in place in the staging area. */
  method BuildConfiguration(b: Build, disk: Disk, system: Read, names: Option<CString>, graphicsBoot: bool,
                            config: array<byte>)
      returns (configLength: nat)
    requires HonestDisk(disk) && ValidBuild(b) && HonestRead(system, CONFIG_LIMIT - 2)
    requires config.Length >= CONFIG_STAGE_SIZE
    modifies config
    ensures configLength < CONFIG_LIMIT
    ensures config[..configLength] ==
            LateEdits(b, graphicsBoot, Join(ConfigTables(b, disk, system, names)))
  {
    hide Ascii, Join, SetDrivers, Found, LateEdits;
    ReadAt(config, 0, system, CONFIG_LIMIT - 2);
    configLength := if 0 < system.count <= CONFIG_LIMIT - 2 then system.count else 0;
    assert config[..configLength] == SystemTable(system);
    configLength := SetOpenStepBootDrivers(config, configLength, names);
    configLength := AppendOpenStepDriverTables(b, disk, config, configLength, names);
    configLength := ApplyLateEdits(b, graphicsBoot, config, configLength);
  }

  method ApplyLateEdits(b: Build, graphicsBoot: bool, config: array<byte>, length: nat) returns (newLength: nat)
    requires length < CONFIG_LIMIT <= config.Length
    modifies config
    ensures newLength < CONFIG_LIMIT
    ensures config[..newLength] == LateEdits(b, graphicsBoot, old(config[..length]))
  {
    hide Ascii, ReplaceFirst, ReplaceAll, SetAtapiSlave;
    newLength := length;
    if b.atapiSlave {
      newLength := ForceOpenStepATAPISlave(config, newLength);
    }
    if b.eideSafe {
      ForceOpenStepSafeEIDE(config, newLength);
    }
    if b.eidePrimaryOnly {
      newLength := ForceOpenStepPrimaryEIDE(config, newLength);
    }
    if newLength > 0 && !graphicsBoot {
      ForceOpenStepTextBoot(config, newLength);
    }
  }

  // ---- what the flat configuration means as a list of tables ----

  ghost predicate NulFreeDisk(disk: Disk) {
    forall k, attempt, path, limit :: NulFree(disk(k, attempt, path, limit).data)
  }

  lemma AtapiNulFree()
    ensures NulFree(ATAPI_KEY) && NulFree(ATAPI_VALUE)
  {
    assert NulFree(ATAPI_STEM);
    hide ATAPI_STEM;
    ConcatNulFree(ATAPI_STEM, Ascii("\";"));
    ConcatNulFree(ATAPI_STEM, SLAVE);
    ConcatNulFree(ATAPI_STEM + SLAVE, Ascii("\";"));
  }

  lemma SectorsNulFree()
    ensures NulFree(SECTORS_KEY) && NulFree(SECTORS_VALUE)
  {
    assert NulFree(SECTORS_STEM);
    hide SECTORS_STEM;
    ConcatNulFree(SECTORS_STEM, Ascii("Yes\""));
    ConcatNulFree(SECTORS_STEM, Ascii("No\" "));
  }

  lemma PortsNulFree()
    ensures NulFree(PORTS_KEY) && NulFree(PORTS_VALUE)
  {
    assert NulFree(PORTS_STEM);
    hide PORTS_STEM;
    ConcatNulFree(PORTS_STEM, Ascii(" 0x170-0x177\""));
    ConcatNulFree(PORTS_STEM, Ascii("\""));
  }

  lemma TextNulFree()
    ensures NulFree(TEXT_KEY) && NulFree(TEXT_VALUE)
  {
    assert NulFree(TEXT_STEM);
    hide TEXT_STEM;
    ConcatNulFree(TEXT_STEM, Ascii("Yes\""));
    ConcatNulFree(TEXT_STEM, Ascii("No \""));
  }

  lemma FindInEmpty(pat: seq<byte>, rep: seq<byte>)
    requires |pat| > 0
    ensures ReplaceFirst([], pat, rep) == []
  {
  }

  lemma FirstStage(ts: seq<seq<byte>>, pat: seq<byte>, rep: seq<byte>)
    requires |ts| > 0 && AllNulFree(ts) && NulFree(pat) && NulFree(rep) && |pat| > 0
    ensures ReplaceFirst(Join(ts), pat, rep) == Join(ReplaceFirstTable(ts, pat, rep))
    ensures AllNulFree(ReplaceFirstTable(ts, pat, rep))
  {
    hide AllNulFree, ReplaceFirst, ReplaceFirstTable, Join;
    ReplaceFirstJoin(ts, pat, rep);
    ReplaceFirstTableNulFree(ts, pat, rep);
  }

  lemma AtapiStage(b: Build, ts: seq<seq<byte>>)
    requires |ts| > 0 && AllNulFree(ts)
    ensures AtapiEdit(b, Join(ts)) == Join(AtapiTables(b, ts)) && AllNulFree(AtapiTables(b, ts))
  {
    AtapiNulFree();
    hide ReplaceFirst, ReplaceFirstTable, Join, AllNulFree, NulFree;
    FirstStage(ts, ATAPI_KEY, ATAPI_VALUE);
  }

  lemma SectorsStage(b: Build, ts: seq<seq<byte>>)
    requires |ts| > 0 && AllNulFree(ts)
    ensures SectorsEdit(b, Join(ts)) == Join(SectorsTables(b, ts)) && AllNulFree(SectorsTables(b, ts))
  {
    SectorsNulFree();
    hide ReplaceAll, ReplaceAllTables, Join, AllNulFree, NulFree;
    ReplaceAllJoin(ts, SECTORS_KEY, SECTORS_VALUE);
    ReplaceAllTablesNulFree(ts, SECTORS_KEY, SECTORS_VALUE);
  }

  lemma PortsStage(b: Build, ts: seq<seq<byte>>)
    requires |ts| > 0 && AllNulFree(ts)
    ensures PortsEdit(b, Join(ts)) == Join(PortsTables(b, ts)) && AllNulFree(PortsTables(b, ts))
  {
    PortsNulFree();
    hide ReplaceFirst, ReplaceFirstTable, Join, AllNulFree, NulFree;
    FirstStage(ts, PORTS_KEY, PORTS_VALUE);
  }

  lemma TextStage(graphicsBoot: bool, ts: seq<seq<byte>>)
    requires |ts| > 0 && AllNulFree(ts)
    ensures TextEdit(graphicsBoot, Join(ts)) == Join(TextTables(graphicsBoot, ts))
    ensures AllNulFree(TextTables(graphicsBoot, ts))
  {
    TextNulFree();
    hide ReplaceFirst, ReplaceFirstTable, Join, AllNulFree, NulFree;
    FirstStage(ts, TEXT_KEY, TEXT_VALUE);
    FindInEmpty(TEXT_KEY, TEXT_VALUE);
  }

  /** The flat late edits are table edits: none of them changes the number or order of tables. */
  lemma LateEditsAreTableEdits(b: Build, graphicsBoot: bool, ts: seq<seq<byte>>)
    requires |ts| > 0 && AllNulFree(ts)
    ensures LateEdits(b, graphicsBoot, Join(ts)) == Join(LateTableEdits(b, graphicsBoot, ts))
    ensures AllNulFree(LateTableEdits(b, graphicsBoot, ts))
  {
    hide Join, AllNulFree, AtapiEdit, AtapiTables, SectorsEdit, SectorsTables, PortsEdit, PortsTables,
         TextEdit, TextTables;
    AtapiStage(b, ts);
    SectorsStage(b, AtapiTables(b, ts));
    PortsStage(b, SectorsTables(b, AtapiTables(b, ts)));
    TextStage(graphicsBoot, PortsTables(b, SectorsTables(b, AtapiTables(b, ts))));
  }

  lemma DriverTableNulFree(b: Build, disk: Disk, k: nat, driver: Name, limit: nat)
    requires NulFreeDisk(disk) && ValidBuild(b)
    ensures DriverTable(b, disk, k, driver, limit).Some? ==> NulFree(DriverTable(b, disk, k, driver, limit).value)
  {
    hide Ascii;
    assert NulFree(TableRead(b, disk, k, driver, limit).data);
  }

  lemma {:induction false} FoundNulFree(b: Build, disk: Disk, ns: seq<Name>, k: nat, pos: nat)
    requires NulFreeDisk(disk) && ValidBuild(b)
    ensures forall e :: e in Found(b, disk, ns, k, pos) ==> NulFree(e.table)
    decreases |ns| - k
  {
    hide Ascii, DriverTable, NulFree, NulFreeDisk;
    if k < |ns| && pos + 2 < CONFIG_LIMIT {
      DriverTableNulFree(b, disk, k, ns[k], CONFIG_LIMIT - pos - 3);
      match DriverTable(b, disk, k, ns[k], CONFIG_LIMIT - pos - 3)
      case None => FoundNulFree(b, disk, ns, k + 1, pos);
      case Some(t) => FoundNulFree(b, disk, ns, k + 1, pos + 1 + |t|);
    }
  }

  lemma SetDriversNulFree(config: seq<byte>, names: seq<byte>)
    requires NulFree(config) && NulFree(names)
    ensures NulFree(SetDrivers(config, names))
  {
    hide DriversSpan;
  }

  lemma EditedNulFree(system: Read, names: Option<CString>)
    requires NulFree(system.data)
    ensures NulFree(EditedSystemTable(system, names))
  {
    hide SetDrivers;
    if names.Some? {
      SetDriversNulFree(SystemTable(system), names.value);
    }
  }

  lemma ConfigTablesNulFree(b: Build, disk: Disk, system: Read, names: Option<CString>)
    requires NulFreeDisk(disk) && ValidBuild(b) && NulFree(system.data)
    ensures AllNulFree(ConfigTables(b, disk, system, names))
  {
    var t := EditedSystemTable(system, names);
    hide Ascii, Found;
    EditedNulFree(system, names);
    if names.Some? {
      FoundNulFree(b, disk, DriverNames(names.value, 0), 0, |t|);
    }
  }

  /**
   Splitting the finished configuration at NUL gives exactly the edited system
   table followed by one edited table per driver whose table was found, in order.
   */
  lemma ConfigurationMeaning(b: Build, disk: Disk, system: Read, names: Option<CString>, graphicsBoot: bool)
    requires NulFreeDisk(disk) && ValidBuild(b) && NulFree(system.data)
    ensures var ts := ConfigTables(b, disk, system, names);
            && Split(LateEdits(b, graphicsBoot, Join(ts))) == LateTableEdits(b, graphicsBoot, ts)
            && |ts| == 1 + |FoundTables(b, disk, EditedSystemTable(system, names), names)|
  {
    hide Ascii, Split, Join, AllNulFree, LateEdits, LateTableEdits;
    var ts := ConfigTables(b, disk, system, names);
    ConfigTablesNulFree(b, disk, system, names);
    LateEditsAreTableEdits(b, graphicsBoot, ts);
    SplitJoin(LateTableEdits(b, graphicsBoot, ts));
  }
}
