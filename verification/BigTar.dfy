/**
 The bigtar archive reader, and the writer of its test fixtures as its partner:
 parsing what the writer wrote gives back the same entries at the same offsets.
 */
module BigTar {
  import opened Bytes
  import opened ByteSearch
  import opened SlashPaths
  import opened OctalFields

  const BLOCK := 512
  const NAME_SIZE := 225
  const DOT_SLASH: seq<byte> := ['.' as int, SLASH]
  const SPACES: seq<byte> := [32, 32, 32, 32, 32, 32, 32, 32]

  datatype Kind = DirectoryEntry | FileEntry | HardLink | SymLink

  datatype Entry = Entry(
    name: seq<byte>, mode: int, uid: int, gid: int, size: int, mtime: int,
    kind: Kind, link: Option<seq<byte>>, headerOffset: nat, dataOffset: nat)

  // ---- names ----

  function StripDotSlash(s: seq<byte>): (r: seq<byte>)
    ensures |r| <= |s|
  {
    if |s| >= 2 && s[..2] == DOT_SLASH then StripDotSlash(s[2..]) else s
  }

  /** The parts of a pure path: empty and "." components disappear. */
  function Parts(names: seq<Name>): seq<Name> {
    if |names| == 0 then []
    else (if names[0] == DOT then [] else [names[0]]) + Parts(names[1..])
  }

  function JoinSlash(names: seq<Name>): seq<byte> {
    if |names| == 0 then []
    else if |names| == 1 then names[0]
    else names[0] + [SLASH] + JoinSlash(names[1..])
  }

  /** _safe_name: the canonical relative path, or None for a name that is rejected. */
  function SafePath(raw: seq<byte>): Option<seq<byte>> {
    var name := CutNul(raw);
    if name == DOT || name == DOT_SLASH then Some(DOT)
    else
      var rest := StripDotSlash(name);
      var parts := Parts(Components(rest));
      if |rest| == 0 || rest[0] == SLASH || DOTDOT in parts then None
      else if |parts| == 0 then Some(DOT)
      else Some(JoinSlash(parts))
  }

  // ---- headers ----

  function Sum(s: seq<byte>): nat {
    if |s| == 0 then 0 else s[0] + Sum(s[1..])
  }

  function EndsWithSlash(s: seq<byte>): bool { |s| > 0 && s[|s| - 1] == SLASH }

  function KindOf(flag: byte, directoryName: bool): Option<Kind> {
    if flag == 0 || flag == '0' as int then Some(if directoryName then DirectoryEntry else FileEntry)
    else if flag == '1' as int then Some(HardLink)
    else if flag == '2' as int then Some(SymLink)
    else None
  }

  predicate ChecksumOK(header: seq<byte>)
    requires |header| == BLOCK
  {
    Octal(header[273..281]) == Some(Sum(header[..273] + SPACES + header[281..]))
  }

  /** The fields of one header, or None when any of them is rejected. */
  function ParseHeader(header: seq<byte>, offset: nat): Option<Entry>
    requires |header| == BLOCK
  {
    var name := SafePath(header[..225]);
    var mode, uid, gid := Octal(header[225..233]), Octal(header[233..241]), Octal(header[241..249]);
    var size, mtime := Octal(header[249..261]), Octal(header[261..273]);
    var kind := KindOf(header[281], EndsWithSlash(StripRight(CutNul(header[..225]))));
    var rawLink := CutNul(header[282..507]);
    var link := if |rawLink| > 0 then SafePath(rawLink) else None;
    if !ChecksumOK(header) || name.None? || mode.None? || uid.None? || gid.None? || size.None? || mtime.None?
       || kind.None? || (|rawLink| > 0 && link.None?)
    then None
    else Some(Entry(name.value, mode.value, uid.value, gid.value, size.value, mtime.value,
                    kind.value, link, offset, offset + BLOCK))
  }

  // ---- the scan ----

  predicate Blank(s: seq<byte>) { forall k :: 0 <= k < |s| ==> s[k] == 0 }

  datatype Step = Stop | Fail | Yield(entry: Entry, next: int)

  /** Blocks of data after a header: only files have any, whatever the size field says. */
  function DataBlocks(e: Entry): int { if e.kind == FileEntry then (e.size + BLOCK - 1) / BLOCK else 0 }

  /** One turn of the reader's loop at an offset. Seeking before the start fails. */
  function StepAt(archive: seq<byte>, offset: int): (s: Step)
    ensures s.Yield? ==> 0 <= offset && s.entry.headerOffset == offset && s.entry.dataOffset == offset + BLOCK
  {
    if offset < 0 then Fail
    else
      var header := Slice(archive, offset, BLOCK);
      if Blank(header) then Stop
      else if |header| != BLOCK then Fail
      else match ParseHeader(header, offset)
        case None => Fail
        case Some(e) => Yield(e, offset + BLOCK + DataBlocks(e) * BLOCK)
  }

  /** Where a scan stands: it has ended, or it is about to read a header at an offset. */
  datatype Status = Finished | Failed | Running(offset: int)

  datatype Scanned = Scanned(entries: seq<Entry>, status: Status)

  /** What the reader has yielded, and where it stands, after so many turns from an offset. */
  function Scan(archive: seq<byte>, offset: int, turns: nat): Scanned
    decreases turns
  {
    if turns == 0 then Scanned([], Running(offset))
    else match StepAt(archive, offset)
      case Stop => Scanned([], Finished)
      case Fail => Scanned([], Failed)
      case Yield(e, next) =>
        var rest := Scan(archive, next, turns - 1);
        Scanned([e] + rest.entries, rest.status)
  }

  /** A yielded header is a whole block of the archive. */
  lemma YieldInside(archive: seq<byte>, offset: int)
    requires StepAt(archive, offset).Yield?
    ensures 0 <= offset && offset + BLOCK <= |archive|
  {
    hide Octal, SafePath, Sum;
  }

  /** _entries: the reader's loop, for as many turns as its consumer asks for. */
  method ReadEntries(archive: seq<byte>, turns: nat) returns (r: Scanned)
    ensures r == Scan(archive, 0, turns)
  {
    hide StepAt;
    var entries: seq<Entry> := [];
    var offset := 0;
    var turn := 0;
    while turn < turns
      invariant turn <= turns
      invariant var rest := Scan(archive, offset, turns - turn);
                Scan(archive, 0, turns) == Scanned(entries + rest.entries, rest.status)
    {
      match StepAt(archive, offset)
      case Stop => return Scanned(entries, Finished);
      case Fail => return Scanned(entries, Failed);
      case Yield(e, next) =>
        var rest := Scan(archive, next, turns - turn - 1).entries;
        assert entries + ([e] + rest) == entries + [e] + rest;
        entries := entries + [e];
        offset := next;
        turn := turn + 1;
    }
    return Scanned(entries, Running(offset));
  }

  /** Headers and padded data tile the archive from an offset on. */
  predicate Tiled(entries: seq<Entry>, offset: int, limit: nat) {
    |entries| == 0 ||
    (entries[0].headerOffset == offset && entries[0].dataOffset == offset + BLOCK <= limit &&
     Tiled(entries[1..], offset + BLOCK + DataBlocks(entries[0]) * BLOCK, limit))
  }

  lemma {:induction false} ScanTiles(archive: seq<byte>, offset: int, turns: nat)
    ensures Tiled(Scan(archive, offset, turns).entries, offset, |archive|)
    decreases turns
  {
    hide StepAt;
    if turns > 0 && StepAt(archive, offset).Yield? {
      var step := StepAt(archive, offset);
      YieldInside(archive, offset);
      YieldNext(archive, offset);
      ScanTiles(archive, step.next, turns - 1);
      assert Scan(archive, offset, turns).entries[1..] == Scan(archive, step.next, turns - 1).entries;
    }
  }

  lemma YieldNext(archive: seq<byte>, offset: int)
    requires StepAt(archive, offset).Yield?
    ensures var s := StepAt(archive, offset); s.next == offset + BLOCK + DataBlocks(s.entry) * BLOCK
  {
    hide ParseHeader, Blank;
  }

  // ---- when the scan ends ----

  /** The offset after n entries, if the reader yields that many. */
  function After(archive: seq<byte>, offset: int, n: nat): Option<int>
    decreases n
  {
    if n == 0 then Some(offset)
    else match StepAt(archive, offset)
      case Yield(_, next) => After(archive, next, n - 1)
      case _ => None
  }

  /** The scan of an archive ends, with or without an error, after some number of turns. */
  ghost predicate Ends(archive: seq<byte>) { exists n: nat :: !Scan(archive, 0, n).status.Running? }

  /** A scan is still running exactly when every turn so far has yielded an entry. */
  lemma {:induction false} RunningIsAfter(archive: seq<byte>, offset: int, n: nat)
    ensures Scan(archive, offset, n).status.Running? <==> After(archive, offset, n).Some?
    ensures After(archive, offset, n).Some? ==>
              Scan(archive, offset, n).status == Running(After(archive, offset, n).value)
    decreases n
  {
    hide StepAt;
    if n > 0 && StepAt(archive, offset).Yield? {
      RunningIsAfter(archive, StepAt(archive, offset).next, n - 1);
    }
  }

  lemma {:induction false} AfterSum(archive: seq<byte>, offset: int, m: nat, n: nat)
    ensures After(archive, offset, m + n) ==
            match After(archive, offset, m)
            case None => None
            case Some(x) => After(archive, x, n)
    decreases m
  {
    hide StepAt;
    if m > 0 && StepAt(archive, offset).Yield? {
      AfterSum(archive, StepAt(archive, offset).next, m - 1, n);
    }
  }

  lemma AfterBefore(archive: seq<byte>, offset: int, m: nat, n: nat)
    requires m <= n && After(archive, offset, n).Some?
    ensures After(archive, offset, m).Some?
  {
    hide StepAt, After;
    AfterSum(archive, offset, m, n - m);
  }

  /** A reader that comes back to an offset never ends. */
  lemma {:induction false} LoopGoesOn(archive: seq<byte>, offset: int, period: nat, n: nat)
    requires period > 0 && After(archive, offset, period) == Some(offset)
    ensures After(archive, offset, n).Some?
    decreases n
  {
    hide StepAt, After;
    if n <= period {
      AfterBefore(archive, offset, n, period);
    } else {
      LoopGoesOn(archive, offset, period, n - period);
      AfterSum(archive, offset, period, n - period);
    }
  }

  lemma RepeatGoesOn(archive: seq<byte>, i: nat, j: nat, n: nat)
    requires i < j && After(archive, 0, i).Some? && After(archive, 0, i) == After(archive, 0, j)
    ensures After(archive, 0, n).Some?
  {
    hide StepAt, After;
    var x := After(archive, 0, i).value;
    AfterSum(archive, 0, i, j - i);
    LoopGoesOn(archive, x, j - i, n);
    AfterSum(archive, 0, i, n);
    AfterBefore(archive, 0, n, i + n);
  }

  /** Whatever offset the reader goes on from is the start of a whole block of the archive. */
  lemma {:induction false} AfterInside(archive: seq<byte>, offset: int, n: nat)
    requires offset % BLOCK == 0 && After(archive, offset, n + 1).Some?
    ensures After(archive, offset, n).Some?
    ensures var x := After(archive, offset, n).value; 0 <= x && x % BLOCK == 0 && x / BLOCK < |archive| / BLOCK
    decreases n
  {
    hide StepAt;
    YieldInside(archive, offset);
    YieldNext(archive, offset);
    if n > 0 {
      AfterInside(archive, StepAt(archive, offset).next, n - 1);
    }
  }

  lemma {:induction false} Pigeonhole(s: seq<nat>, n: nat) returns (i: nat, j: nat)
    requires |s| > n && forall k :: 0 <= k < |s| ==> s[k] < n
    ensures i < j < |s| && s[i] == s[j]
    decreases n
  {
    if k :| 0 <= k < |s| - 1 && s[k] == s[|s| - 1] {
      i, j := k, |s| - 1;
    } else {
      // Give the last value's hole to whoever sits in hole n - 1.
      var last := s[|s| - 1];
      var moved := seq(|s| - 1, k requires 0 <= k < |s| - 1 => if s[k] == n - 1 then last else s[k]);
      i, j := Pigeonhole(moved, n - 1);
    }
  }

  /** A reader that yields more entries than the archive has blocks has come back to an offset. */
  lemma LongRunRepeats(archive: seq<byte>) returns (i: nat, j: nat)
    requires After(archive, 0, |archive| / BLOCK + 1).Some?
    ensures i < j && After(archive, 0, i).Some? && After(archive, 0, i) == After(archive, 0, j)
  {
    var n := |archive| / BLOCK;
    forall k | 0 <= k <= n
      ensures After(archive, 0, k).Some?
      ensures var x := After(archive, 0, k).value; 0 <= x && x % BLOCK == 0 && x / BLOCK < n
    {
      AfterBefore(archive, 0, k + 1, n + 1);
      AfterInside(archive, 0, k);
    }
    var holes := seq(n + 1, k requires 0 <= k <= n => BlockAfter(archive, k));
    i, j := Pigeonhole(holes, n);
    var x, y := After(archive, 0, i).value, After(archive, 0, j).value;
    assert x == x / BLOCK * BLOCK && y == y / BLOCK * BLOCK;
  }

  function BlockAfter(archive: seq<byte>, k: nat): nat {
    match After(archive, 0, k)
    case None => 0
    case Some(x) => if x < 0 then 0 else x / BLOCK
  }

  /**
   The scan ends exactly when it never comes back to an offset, and then within as
   many turns as the archive has blocks and one more.
   */
  lemma ScanEnds(archive: seq<byte>)
    ensures Ends(archive) <==> !Scan(archive, 0, |archive| / BLOCK + 1).status.Running?
    ensures Ends(archive) <==>
            forall i: nat, j: nat :: i < j && After(archive, 0, i).Some? ==>
              After(archive, 0, i) != After(archive, 0, j)
  {
    hide Scan, After;
    RunningIsAfter(archive, 0, |archive| / BLOCK + 1);
    if After(archive, 0, |archive| / BLOCK + 1).Some? {
      var i, j := LongRunRepeats(archive);
      forall n: nat
        ensures Scan(archive, 0, n).status.Running?
      {
        RepeatGoesOn(archive, i, j, n);
        RunningIsAfter(archive, 0, n);
      }
    } else {
      forall i: nat, j: nat | i < j && After(archive, 0, i).Some?
        ensures After(archive, 0, i) != After(archive, 0, j)
      {
        if After(archive, 0, i) == After(archive, 0, j) {
          RepeatGoesOn(archive, i, j, |archive| / BLOCK + 1);
        }
      }
    }
  }

  // ---- what a file's size does ----

  /** A step fails to advance exactly at a file whose size field is -512 or less. */
  lemma StepAdvances(archive: seq<byte>, offset: int)
    requires StepAt(archive, offset).Yield?
    ensures var e := StepAt(archive, offset).entry;
            StepAt(archive, offset).next <= offset <==> e.kind == FileEntry && e.size <= -BLOCK
  {
    hide ParseHeader, Blank;
  }

  predicate Backward(e: Entry) { e.kind == FileEntry && e.size <= -BLOCK }

  lemma {:induction false} ForwardGains(archive: seq<byte>, offset: int, n: nat)
    requires forall e :: e in Scan(archive, offset, n).entries ==> !Backward(e)
    ensures After(archive, offset, n).Some? ==> After(archive, offset, n).value >= offset + n
    decreases n
  {
    hide StepAt, Backward;
    if n > 0 && StepAt(archive, offset).Yield? {
      var step := StepAt(archive, offset);
      assert step.entry in Scan(archive, offset, n).entries;
      assert !Backward(step.entry);
      Advances(archive, offset);
      assert forall e :: e in Scan(archive, step.next, n - 1).entries ==> e in Scan(archive, offset, n).entries;
      ForwardGains(archive, step.next, n - 1);
    }
  }

  lemma Advances(archive: seq<byte>, offset: int)
    requires StepAt(archive, offset).Yield? && !Backward(StepAt(archive, offset).entry)
    ensures StepAt(archive, offset).next >= offset + 1
  {
    hide StepAt;
    StepAdvances(archive, offset);
  }

  /** Any scan that meets no file of size -512 or less ends. */
  lemma ForwardEnds(archive: seq<byte>)
    requires forall n: nat, e :: e in Scan(archive, 0, n).entries ==> !Backward(e)
    ensures Ends(archive)
  {
    var n := |archive|;
    hide Scan, After;
    RunningIsAfter(archive, 0, n + 1);
    if After(archive, 0, n + 1).Some? {
      AfterInside(archive, 0, n);
      ForwardGains(archive, 0, n);
    }
  }

  /** A file size from -1023 to -512 sends the reader back to its own header, however it got there, for ever. */
  lemma StuckForever(archive: seq<byte>, k: nat)
    requires After(archive, 0, k).Some? && StepAt(archive, After(archive, 0, k).value).Yield?
    requires var e := StepAt(archive, After(archive, 0, k).value).entry;
             e.kind == FileEntry && -1023 <= e.size <= -512
    ensures !Ends(archive)
    ensures forall n: nat :: n >= k ==> After(archive, 0, n) == After(archive, 0, k)
  {
    hide StepAt;
    var x := After(archive, 0, k).value;
    YieldNext(archive, x);
    forall n: nat | n >= k
      ensures After(archive, 0, n) == Some(x)
    {
      AfterSum(archive, 0, k, n - k);
      StayAt(archive, x, n - k);
    }
    ScanEnds(archive);
    assert After(archive, 0, k + 1) == Some(x);
  }

  lemma {:induction false} StayAt(archive: seq<byte>, x: int, n: nat)
    requires StepAt(archive, x).Yield? && StepAt(archive, x).next == x
    ensures After(archive, x, n) == Some(x)
  {
    hide StepAt;
    if n > 0 {
      StayAt(archive, x, n - 1);
    }
  }
}
