/**
 Loading the standalone linker: its segments are copied from the staged file to
 a fixed low-memory window, one load command at a time, in the loader's own
 32-bit address space.
 */
module BootSarld {
  import opened Bytes

  const SARLD_STAGE := 0x300_0000
  const SARLD_STAGE_SIZE := 0x4_0000
  const COMMAND_HEADER := 8
  const VM_MIN := 0x2_0000
  const VM_MAX := 0x6_0000
  const HEADER_SIZE := 28

  /** The Mach-O header: whether its magic, processor and file type are sarld's, and its command size. */
  datatype Header = Header(kindOK: bool, sizeofcmds: nat)

  datatype Body =
    | Segment(vmaddr: nat, vmsize: nat, fileoff: nat, filesize: nat)
    | Thread(eip: nat)
    | Other

  /** A load command as the loop meets it. A thread command too short to hold its state is an Other. */
  datatype LoadCommand = LoadCommand(cmdsize: nat, body: Body)

  predicate WordSized(c: LoadCommand) {
    && c.cmdsize < WORD
    && match c.body
       case Segment(vmaddr, vmsize, fileoff, filesize) =>
         vmaddr < WORD && vmsize < WORD && fileoff < WORD && filesize < WORD
       case Thread(eip) => eip < WORD
       case Other => true
  }

  predicate AllWords(cs: seq<LoadCommand>) { forall i :: 0 <= i < |cs| ==> WordSized(cs[i]) }

  /** Addresses wrap at 32 bits. */
  function Address(base: nat, k: nat): (a: nat)
    requires base < WORD && k < WORD
    ensures a < WORD && a == (base + k) % WORD
  {
    if base + k >= WORD then base + k - WORD else base + k
  }

  // ---- what the loop accepts ----

  /** Where command i is read: the sum of the sizes before it. */
  function CommandAt(cs: seq<LoadCommand>, i: nat): (a: nat)
    requires AllWords(cs) && i <= |cs|
    ensures a < WORD
  {
    if i == 0 then SARLD_STAGE + HEADER_SIZE else Address(CommandAt(cs, i - 1), cs[i - 1].cmdsize)
  }

  /** The bounds on a segment, with the sums taken in 32 bits. */
  predicate SafeSegment(s: Body, length: nat)
    requires s.Segment?
  {
    var end := (s.vmaddr + s.vmsize) % WORD;
    && VM_MIN <= s.vmaddr && s.vmaddr <= end <= VM_MAX
    && (s.fileoff + s.filesize) % WORD <= length
    && s.filesize <= s.vmsize
  }

  predicate Accepts(cs: seq<LoadCommand>, i: nat, length: nat)
    requires AllWords(cs) && i < |cs|
  {
    && cs[i].cmdsize >= COMMAND_HEADER
    && CommandAt(cs, i + 1) <= SARLD_STAGE + length
    && (cs[i].body.Segment? ==> SafeSegment(cs[i].body, length))
  }

  /** How many commands are carried out from position i on: all, or those before the first rejected one. */
  function Prefix(cs: seq<LoadCommand>, i: nat, length: nat): (n: nat)
    requires AllWords(cs) && i <= |cs|
    ensures i <= n <= |cs|
    ensures forall j :: i <= j < n ==> Accepts(cs, j, length)
    ensures n < |cs| ==> !Accepts(cs, n, length)
    decreases |cs| - i
  {
    if i == |cs| || !Accepts(cs, i, length) then i else Prefix(cs, i + 1, length)
  }

  /** The entry point of the last thread command among the first n, or 0. */
  function EntryAfter(cs: seq<LoadCommand>, n: nat): nat
    requires n <= |cs|
  {
    if n == 0 then 0
    else if cs[n - 1].body.Thread? then cs[n - 1].body.eip
    else EntryAfter(cs, n - 1)
  }

  predicate HeaderOK(h: Header, length: nat) {
    length > HEADER_SIZE && h.kindOK && (HEADER_SIZE + h.sizeofcmds) % WORD <= length
  }

  /** The staged file: how much of it was read, its header and its load commands. */
  datatype SarldFile = SarldFile(length: nat, header: Header, commands: seq<LoadCommand>)
  {
    predicate Staged() { length <= SARLD_STAGE_SIZE && AllWords(commands) }
  }

  /** How many of the file's commands are carried out. */
  function CarriedOut(f: SarldFile): (n: nat)
    requires f.Staged()
    ensures n <= |f.commands|
  {
    if HeaderOK(f.header, f.length) then Prefix(f.commands, 0, f.length) else 0
  }

  /** The entry point of a file that loads. */
  function Entry(f: SarldFile): (entry: Option<nat>)
    requires f.Staged()
    ensures entry.Some? ==> VM_MIN <= entry.value < VM_MAX
  {
    var found := EntryAfter(f.commands, |f.commands|);
    if HeaderOK(f.header, f.length) && CarriedOut(f) == |f.commands| && VM_MIN <= found < VM_MAX then Some(found)
    else None
  }

  /** An entry point that is not 0 is the one that the last thread command names. */
  lemma {:induction false} EntryIsLastThread(cs: seq<LoadCommand>, n: nat) returns (i: nat)
    requires n <= |cs| && EntryAfter(cs, n) != 0
    ensures i < n && cs[i].body == Thread(EntryAfter(cs, n))
    ensures forall j :: i < j < n ==> !cs[j].body.Thread?
  {
    i := n - 1;
    if !cs[i].body.Thread? {
      i := EntryIsLastThread(cs, n - 1);
    }
  }

  /** A file loads only if every command is accepted, and is entered where its last thread command says. */
  lemma EntryMeaning(f: SarldFile) returns (i: nat)
    requires f.Staged() && Entry(f).Some?
    ensures HeaderOK(f.header, f.length) && forall j :: 0 <= j < |f.commands| ==> Accepts(f.commands, j, f.length)
    ensures i < |f.commands| && f.commands[i].body == Thread(Entry(f).value)
    ensures forall j :: i < j < |f.commands| ==> !f.commands[j].body.Thread?
    ensures VM_MIN <= Entry(f).value < VM_MAX
  {
    i := EntryIsLastThread(f.commands, |f.commands|);
  }

  // ---- memory ----

  predicate Covers(c: LoadCommand, a: nat) {
    c.body.Segment? && c.body.vmaddr <= a < c.body.vmaddr + c.body.vmsize
  }

  /** The address that byte a of a segment is copied from. */
  function SourceOf(s: Body, a: nat): (r: nat)
    requires s.Segment? && s.fileoff < WORD && s.vmaddr <= a < WORD
    ensures r < WORD
  {
    Address(Address(SARLD_STAGE, s.fileoff), a - s.vmaddr)
  }

  /** Byte a of memory after the first n commands: each segment is zeroed, then filled from the file. */
  function ByteAfter(before: seq<byte>, cs: seq<LoadCommand>, n: nat, a: nat): byte
    requires |before| == WORD && AllWords(cs) && n <= |cs| && a < WORD
    decreases n
  {
    if n == 0 then before[a]
    else
      var c := cs[n - 1];
      if !Covers(c, a) then ByteAfter(before, cs, n - 1, a)
      else if a - c.body.vmaddr >= c.body.filesize then 0
      else
        var source := SourceOf(c.body, a);
        if Covers(c, source) then 0 else ByteAfter(before, cs, n - 1, source)
  }

  /** One segment: clear its memory, then copy its file bytes in. */
  method LoadSegment(mem: array<byte>, s: Body)
    requires mem.Length == WORD && s.Segment? && s.vmsize < WORD && s.fileoff < WORD
    requires s.vmaddr + s.vmsize <= VM_MAX && s.filesize <= s.vmsize
    modifies mem
    ensures forall a :: 0 <= a < WORD ==>
              mem[a] ==
              if !(s.vmaddr <= a < s.vmaddr + s.vmsize) then old(mem[a])
              else if a - s.vmaddr >= s.filesize then 0
              else if s.vmaddr <= SourceOf(s, a) < s.vmaddr + s.vmsize then 0
              else old(mem[SourceOf(s, a)])
  {
    hide SourceOf;
    forall k | s.vmaddr <= k < s.vmaddr + s.vmsize {
      mem[k] := 0;
    }
    forall k | s.vmaddr <= k < s.vmaddr + s.filesize {
      mem[k] := mem[SourceOf(s, k)];
    }
  }

  /**
   loadOpenStepSarld, once the file has been read to the staging area: carry out its
   load commands, then check the entry point.
   */
  method LoadOpenStepSarld(mem: array<byte>, file: SarldFile) returns (entry: Option<nat>)
    requires mem.Length == WORD && file.Staged()
    modifies mem
    ensures forall a :: 0 <= a < WORD ==> mem[a] == ByteAfter(old(mem[..]), file.commands, CarriedOut(file), a)
    ensures entry == Entry(file)
  {
    hide Address, SourceOf, SafeSegment, AllWords;
    ghost var before := mem[..];
    var length, header, cs := file.length, file.header, file.commands;
    if length <= HEADER_SIZE || !header.kindOK || (HEADER_SIZE + header.sizeofcmds) % WORD > length {
      return None;
    }
    var found := 0;
    var command := SARLD_STAGE + HEADER_SIZE;
    var index := 0;
    while index < |cs|
      invariant index <= |cs| && command == CommandAt(cs, index)
      invariant Prefix(cs, 0, length) == Prefix(cs, index, length)
      invariant found == EntryAfter(cs, index)
      invariant forall a :: 0 <= a < WORD ==> mem[a] == ByteAfter(before, cs, index, a)
    {
      var c := cs[index];
      assert WordSized(c) by {
        AtIndex(cs, index);
      }
      if c.cmdsize < COMMAND_HEADER || Address(command, c.cmdsize) > SARLD_STAGE + length {
        return None;
      }
      if c.body.Segment? {
        if !SafeSegment(c.body, length) {
          return None;
        }
        SegmentInWindow(c.body, length);
        LoadSegment(mem, c.body);
      } else if c.body.Thread? {
        found := c.body.eip;
      }
      command := Address(command, c.cmdsize);
      index := index + 1;
    }
    if found < VM_MIN || found >= VM_MAX {
      return None;
    }
    return Some(found);
  }

  lemma AtIndex(cs: seq<LoadCommand>, i: nat)
    requires AllWords(cs) && i < |cs|
    ensures WordSized(cs[i])
  {
  }

  // ---- what a load means ----

  /** The wrapping test admits no wrapped segment: an accepted one lies in the window. */
  lemma SegmentInWindow(s: Body, length: nat)
    requires s.Segment? && s.vmaddr < WORD && s.vmsize < WORD && SafeSegment(s, length)
    ensures VM_MIN <= s.vmaddr && s.vmaddr + s.vmsize <= VM_MAX && s.filesize <= s.vmsize
  {
  }

  /** The file bounds do wrap: an accepted segment's bytes lie in the file exactly when their end does not. */
  lemma SegmentInFile(s: Body, length: nat)
    requires s.Segment? && SafeSegment(s, length) && length < WORD
    requires s.fileoff < WORD && s.filesize < WORD
    ensures s.fileoff + s.filesize <= length <==> s.fileoff + s.filesize < WORD
  {
  }

  /** No command, accepted or not, changes a byte outside the window: neither the staged file nor the boot structure. */
  lemma {:induction false} OutsideUntouched(before: seq<byte>, cs: seq<LoadCommand>, length: nat, n: nat, a: nat)
    requires |before| == WORD && AllWords(cs) && n <= Prefix(cs, 0, length) && a < WORD
    requires !(VM_MIN <= a < VM_MAX)
    ensures ByteAfter(before, cs, n, a) == before[a]
    decreases n
  {
    hide Prefix, Address, SafeSegment;
    if n > 0 {
      var c := cs[n - 1];
      assert Accepts(cs, n - 1, length);
      if c.body.Segment? {
        SegmentInWindow(c.body, length);
      }
      OutsideUntouched(before, cs, length, n - 1, a);
    }
  }

  /** Wherever an accepted segment's bytes are copied from, it is not the window. */
  lemma SourceOutside(s: Body, length: nat, a: nat)
    requires s.Segment? && SafeSegment(s, length) && length <= SARLD_STAGE_SIZE
    requires s.vmsize < WORD && s.fileoff < WORD
    requires s.vmaddr <= a < WORD && a - s.vmaddr < s.filesize
    ensures VM_MAX <= SourceOf(s, a)
    ensures s.fileoff + s.filesize < WORD ==>
              && s.fileoff + (a - s.vmaddr) < length
              && SourceOf(s, a) == SARLD_STAGE + s.fileoff + (a - s.vmaddr)
  {
  }

  /**
   After a load, a byte holds what the last segment that covers it put there: zero
   past its file bytes, else the byte that was at the wrapped source address, which
   for a file range that does not wrap is the staged file's byte at the same
   distance from the start of the range.
   */
  lemma {:induction false} LastSegmentWins(before: seq<byte>, cs: seq<LoadCommand>, length: nat, n: nat, i: nat, a: nat)
    requires |before| == WORD && AllWords(cs) && i < n <= Prefix(cs, 0, length) && length <= SARLD_STAGE_SIZE
    requires a < WORD && Covers(cs[i], a) && forall j :: i < j < n ==> !Covers(cs[j], a)
    ensures var s := cs[i].body;
            && ByteAfter(before, cs, n, a) == (if a - s.vmaddr < s.filesize then before[SourceOf(s, a)] else 0)
            && (s.fileoff + s.filesize < WORD && a - s.vmaddr < s.filesize ==>
                  && s.fileoff + (a - s.vmaddr) < length
                  && SourceOf(s, a) == SARLD_STAGE + s.fileoff + (a - s.vmaddr))
    decreases n
  {
    hide Prefix, SafeSegment, SourceOf;
    var s := cs[i].body;
    assert Accepts(cs, i, length);
    SegmentInWindow(s, length);
    if a - s.vmaddr < s.filesize {
      SourceOutside(s, length, a);
    }
    if i < n - 1 {
      assert !Covers(cs[n - 1], a);
      LastSegmentWins(before, cs, length, n - 1, i, a);
    } else if a - s.vmaddr < s.filesize {
      OutsideUntouched(before, cs, length, i, SourceOf(s, a));
    }
  }

  /** A segment whose range wraps is accepted in a file of 100 bytes: its bytes are those before the staged file. */
  lemma WrappedSegmentAccepted()
    ensures var cs := [LoadCommand(56, Body.Segment(VM_MIN, 0x1000, 0xffff_f000, 0x1000))];
            && AllWords(cs) && Prefix(cs, 0, 100) == 1
            && cs[0].body.fileoff + cs[0].body.filesize > 100
            && SourceOf(cs[0].body, VM_MIN) == SARLD_STAGE - 0x1000
  {
    var cs := [LoadCommand(56, Body.Segment(VM_MIN, 0x1000, 0xffff_f000, 0x1000))];
    assert CommandAt(cs, 0) == SARLD_STAGE + HEADER_SIZE;
    assert Prefix(cs, 1, 100) == 1;
  }

  /** So is a command whose end wraps: the next one is read from address 0x1c. */
  lemma WrappedCommandAccepted()
    ensures var cs := [LoadCommand(0xfd00_0000, Other)];
            && AllWords(cs) && Prefix(cs, 0, 100) == 1
            && !EndsUnwrapped(cs, 0) && !InFile(cs, 0, 100) && CommandAt(cs, 1) == 0x1c
  {
    var cs := [LoadCommand(0xfd00_0000, Other)];
    assert CommandAt(cs, 0) == SARLD_STAGE + HEADER_SIZE;
    assert Prefix(cs, 1, 100) == 1;
  }

  /** Command i ends in the address space without wrapping. */
  predicate EndsUnwrapped(cs: seq<LoadCommand>, i: nat)
    requires AllWords(cs) && i < |cs|
  {
    CommandAt(cs, i) + cs[i].cmdsize < WORD
  }

  /** Command i lies in the file, behind the header. */
  predicate InFile(cs: seq<LoadCommand>, i: nat, length: nat)
    requires AllWords(cs) && i < |cs|
  {
    SARLD_STAGE + HEADER_SIZE <= CommandAt(cs, i) && CommandAt(cs, i) + cs[i].cmdsize <= SARLD_STAGE + length
  }

  /** The commands carried out all lie in the file exactly when none of their ends wraps. */
  lemma CommandsInFile(cs: seq<LoadCommand>, length: nat, n: nat)
    requires AllWords(cs) && n <= Prefix(cs, 0, length) && length <= SARLD_STAGE_SIZE
    ensures (forall i :: 0 <= i < n ==> EndsUnwrapped(cs, i)) <==> (forall i :: 0 <= i < n ==> InFile(cs, i, length))
  {
    hide Prefix, SafeSegment, CommandAt, Address;
    if forall i :: 0 <= i < n ==> EndsUnwrapped(cs, i) {
      forall i | 0 <= i < n
        ensures InFile(cs, i, length)
      {
        Forward(cs, i);
        assert Accepts(cs, i, length) && EndsUnwrapped(cs, i);
        NextCommand(cs, i);
      }
    }
    if forall i :: 0 <= i < n ==> InFile(cs, i, length) {
      forall i | 0 <= i < n
        ensures EndsUnwrapped(cs, i)
      {
        assert InFile(cs, i, length);
      }
    }
  }

  lemma NextCommand(cs: seq<LoadCommand>, i: nat)
    requires AllWords(cs) && i < |cs| && EndsUnwrapped(cs, i)
    ensures CommandAt(cs, i + 1) == CommandAt(cs, i) + cs[i].cmdsize
  {
  }

  lemma {:induction false} Forward(cs: seq<LoadCommand>, i: nat)
    requires AllWords(cs) && i <= |cs| && forall j :: 0 <= j < i ==> EndsUnwrapped(cs, j)
    ensures SARLD_STAGE + HEADER_SIZE <= CommandAt(cs, i)
    decreases i
  {
    hide Address;
    if i > 0 {
      Forward(cs, i - 1);
      assert EndsUnwrapped(cs, i - 1);
      NextCommand(cs, i - 1);
    }
  }
}
