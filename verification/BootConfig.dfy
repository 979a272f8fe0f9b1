/**
 The in-place edits that BootE makes to the staged configuration tables.
 Each method works on the shared buffer exactly as the loader does and is
 proved equal to a pure edit of the byte sequence config[..length].
 */
module BootConfig {
  import opened Bytes
  import opened ByteSearch

  const CONFIG_LIMIT := 0xd000
  const QUOTE: byte := '"' as int

  const DRIVERS_KEY := Ascii("\"Boot Drivers\" = \"")
  const TEXT_STEM := Ascii("\"Boot Graphics\" = \"")
  const TEXT_KEY := TEXT_STEM + Ascii("Yes\"")
  const TEXT_VALUE := TEXT_STEM + Ascii("No \"")
  const SECTORS_STEM := Ascii("\"Multiple Sectors\" = \"")
  const SECTORS_KEY := SECTORS_STEM + Ascii("Yes\"")
  const SECTORS_VALUE := SECTORS_STEM + Ascii("No\" ")
  const PORTS_STEM := Ascii("\"I/O Ports\" = \"0x1f0-0x1f7")
  const PORTS_KEY := PORTS_STEM + Ascii(" 0x170-0x177\"")
  const PORTS_VALUE := PORTS_STEM + Ascii("\"")
  const ATAPI_STEM := Ascii("\"ATAPI Device\" = \"")
  const ATAPI_KEY := ATAPI_STEM + Ascii("\";")
  const SLAVE := Ascii("Slave")
  const ATAPI_VALUE := ATAPI_STEM + SLAVE + Ascii("\";")
  const ATAPI_INSERTION := 18

  /** A C string: the bytes before its terminating NUL. */
  type CString = s: seq<byte> | NulFree(s)

  // ---- "Boot Drivers" = "..." ----

  datatype Span = Span(start: nat, end: nat)

  /** Where the text between the quotes of the first Boot Drivers key lies. */
  function DriversSpan(config: seq<byte>): (r: Option<Span>)
    ensures r.Some? ==> |DRIVERS_KEY| <= r.value.start <= r.value.end < |config|
  {
    match Find(config, DRIVERS_KEY, 0)
    case None => None
    case Some(i) =>
      var start := i + |DRIVERS_KEY|;
      var end := IndexOf(config, QUOTE, start);
      if end == |config| then None else Some(Span(start, end))
  }

  /** What a reader of the table sees as the value of Boot Drivers. */
  function DriversValue(config: seq<byte>): Option<seq<byte>> {
    match DriversSpan(config)
    case None => None
    case Some(s) => Some(config[s.start..s.end])
  }

  /** The new value fits below the limit with room for the two closing NULs. */
  predicate DriversFit(config: seq<byte>, names: seq<byte>) {
    match DriversSpan(config)
    case None => false
    case Some(s) => |config| + |names| - (s.end - s.start) + 2 < CONFIG_LIMIT
  }

  function SetDrivers(config: seq<byte>, names: seq<byte>): seq<byte> {
    if DriversFit(config, names)
    then var s := DriversSpan(config).value; Splice(config, s.start, s.end - s.start, names)
    else config
  }

  lemma KeyAfterSplice(s: seq<byte>, pat: seq<byte>, i: nat, at: nat, n: nat, rep: seq<byte>)
    requires Find(s, pat, 0) == Some(i) && i + |pat| <= at && at + n <= |s|
    ensures Find(Splice(s, at, n, rep), pat, 0) == Some(i)
  {
    var r := Splice(s, at, n, rep);
    assert r[..at] == s[..at];
    forall j | 0 <= j <= i
      ensures MatchAt(r, pat, j) <==> MatchAt(s, pat, j)
    {
      PrefixMatch(s, r, pat, at, j);
    }
    FindIs(r, pat, 0, i);
  }

  lemma QuoteAfterSplice(s: seq<byte>, at: nat, n: nat, rep: seq<byte>)
    requires at + n < |s| && s[at + n] == QUOTE
    ensures IndexOf(Splice(s, at, n, rep), QUOTE, at) == at + IndexOf(rep, QUOTE, 0)
  {
    var r := Splice(s, at, n, rep);
    var q := IndexOf(rep, QUOTE, 0);
    assert forall k :: at <= k < at + |rep| ==> r[k] == rep[k - at];
    assert r[at + |rep|] == s[at + n];
    IndexOfIs(r, QUOTE, at, at + q);
  }

  /** After a splice the same key is found, and the value runs to the first quote of names. */
  lemma SpanAfterSet(config: seq<byte>, names: seq<byte>)
    requires DriversFit(config, names)
    ensures var s := DriversSpan(config).value;
            DriversSpan(SetDrivers(config, names)) ==
            Some(Span(s.start, s.start + IndexOf(names, QUOTE, 0)))
  {
    hide Find, IndexOf, Splice, Ascii;
    var s := DriversSpan(config).value;
    KeyAfterSplice(config, DRIVERS_KEY, s.start - |DRIVERS_KEY|, s.start, s.end - s.start, names);
    QuoteAfterSplice(config, s.start, s.end - s.start, names);
    SpliceLength(config, s.start, s.end - s.start, names);
  }

  lemma SpliceLength(s: seq<byte>, i: nat, n: nat, rep: seq<byte>)
    requires i + n <= |s|
    ensures |Splice(s, i, n, rep)| == |s| - n + |rep|
  {
  }

  lemma SplicePoints(r: seq<byte>, s: seq<byte>, i: nat, n: nat, rep: seq<byte>)
    requires i + n <= |s| && |r| == |s| - n + |rep|
    requires forall k :: 0 <= k < i ==> r[k] == s[k]
    requires forall k :: i <= k < i + |rep| ==> r[k] == rep[k - i]
    requires forall k :: i + |rep| <= k < |r| ==> r[k] == s[k - |rep| + n]
    ensures r == Splice(s, i, n, rep)
  {
  }

  lemma PrefixMatch(s: seq<byte>, t: seq<byte>, pat: seq<byte>, n: nat, j: nat)
    requires n <= |s| && n <= |t| && s[..n] == t[..n] && j + |pat| <= n
    ensures MatchAt(s, pat, j) <==> MatchAt(t, pat, j)
  {
    assert forall k :: 0 <= k < n ==> s[k] == s[..n][k] == t[k];
  }

  /** What was put is what is read back, provided it holds no quote. */
  lemma DriversSetGet(config: seq<byte>, names: seq<byte>)
    requires DriversFit(config, names)
    ensures DriversValue(SetDrivers(config, names)) == Some(names) <==> QUOTE !in names
  {
    SpanAfterSet(config, names);
    hide DriversSpan;
    var s := DriversSpan(config).value;
    var q := IndexOf(names, QUOTE, 0);
    assert SetDrivers(config, names)[s.start..s.start + q] == names[..q];
    if QUOTE in names {
      var k :| 0 <= k < |names| && names[k] == QUOTE;
      assert q < |names|;
    }
  }

  /** Writing back the value that is there changes nothing. */
  lemma DriversGetSet(config: seq<byte>)
    requires DriversValue(config).Some?
    ensures SetDrivers(config, DriversValue(config).value) == config
  {
  }

  /** The last of two quote-free writes wins. */
  lemma DriversSetSet(config: seq<byte>, first: seq<byte>, second: seq<byte>)
    requires DriversFit(config, first) && QUOTE !in first
    ensures DriversFit(SetDrivers(config, first), second) == DriversFit(config, second)
    ensures DriversFit(config, second) ==>
              SetDrivers(SetDrivers(config, first), second) == SetDrivers(config, second)
  {
    SpanAfterSet(config, first);
    var s := DriversSpan(config).value;
    var r := SetDrivers(config, first);
    assert IndexOf(first, QUOTE, 0) == |first|;
    assert r[..s.start] == config[..s.start] && r[s.start + |first|..] == config[s.end..];
  }

  /** There would be room to write the names again behind their own first quote. */
  predicate DriversFitTwice(config: seq<byte>, names: seq<byte>) {
    match DriversSpan(config)
    case None => false
    case Some(s) => |config| + 2 * |names| - (s.end - s.start) - IndexOf(names, QUOTE, 0) + 2 < CONFIG_LIMIT
  }

  lemma SecondFit(config: seq<byte>, names: seq<byte>)
    requires DriversFit(config, names)
    ensures DriversFit(SetDrivers(config, names), names) == DriversFitTwice(config, names)
  {
    SpanAfterSet(config, names);
    hide DriversSpan, IndexOf;
  }

  /**
   Setting the same names twice equals setting them once exactly when the first
   write does nothing, or the names hold no quote, or a second write would not fit.
   */
  lemma DriversIdempotent(config: seq<byte>, names: seq<byte>)
    ensures var once := SetDrivers(config, names);
            SetDrivers(once, names) == once <==>
            !DriversFit(config, names) || QUOTE !in names || !DriversFitTwice(config, names)
  {
    var once := SetDrivers(config, names);
    if DriversFit(config, names) {
      SecondFit(config, names);
      if QUOTE !in names {
        DriversSetSet(config, names, names);
      } else if DriversFit(once, names) {
        SpanAfterSet(config, names);
        var k :| 0 <= k < |names| && names[k] == QUOTE;
        assert |SetDrivers(once, names)| > |once|;
      }
    }
  }

  /** The list A"B in an empty value: only A is read back, and a second write leaves B" behind. */
  lemma QuotedNames()
    ensures var config := DRIVERS_KEY + [QUOTE];
            var names := ['A' as int, QUOTE, 'B' as int];
            var once := SetDrivers(config, names);
            && DriversValue(once) == Some(['A' as int])
            && SetDrivers(once, names) != once
  {
    var config := DRIVERS_KEY + [QUOTE];
    var names: seq<byte> := ['A' as int, QUOTE, 'B' as int];
    EmptySpan();
    IndexOfIs(names, QUOTE, 0, 1);
    SpanAfterSet(config, names);
    DriversIdempotent(config, names);
    hide DriversSpan, Ascii, DRIVERS_KEY;
    var once := SetDrivers(config, names);
    assert once == config[..|DRIVERS_KEY|] + names + config[|DRIVERS_KEY|..];
    assert once[|DRIVERS_KEY|..|DRIVERS_KEY| + 1] == ['A' as int];
  }

  lemma EmptySpan()
    ensures |DRIVERS_KEY| == 18
    ensures DriversSpan(DRIVERS_KEY + [QUOTE]) == Some(Span(18, 18))
  {
    var config := DRIVERS_KEY + [QUOTE];
    assert |DRIVERS_KEY| == 18;
    hide Ascii, DRIVERS_KEY;
    FindIs(config, DRIVERS_KEY, 0, 0);
    IndexOfIs(config, QUOTE, 18, 18);
  }

  /** setOpenStepBootDrivers: splice names between the quotes, shifting the tail in place. */
  method SetOpenStepBootDrivers(config: array<byte>, length: nat, names: Option<CString>)
      returns (newLength: nat)
    requires length + 2 <= CONFIG_LIMIT <= config.Length
    modifies config
    ensures newLength + 2 <= CONFIG_LIMIT
    ensures config[..newLength] ==
            if names.None? then old(config[..length]) else SetDrivers(old(config[..length]), names.value)
    ensures config[Max(length, newLength)..] == old(config[Max(length, newLength)..])
  {
    hide Find, IndexOf, Splice, Ascii, MatchAt;
    ghost var orig := config[..length];
    if names.None? {
      return length;
    }
    var text := names.value;
    var i := 0;
    while i + |DRIVERS_KEY| < length
      invariant i <= length
      invariant forall j :: 0 <= j < i ==> !MatchAt(orig, DRIVERS_KEY, j)
    {
      if MatchAt(config[..length], DRIVERS_KEY, i) {
        FindIs(orig, DRIVERS_KEY, 0, i);
        newLength := ReplaceValue(config, length, i + |DRIVERS_KEY|, text);
        return newLength;
      }
      i := i + 1;
    }
    KeyNeedsRoom(orig, i);
    return length;
  }

  /** A key that ends at or after the last byte has no closing quote, so nothing is written. */
  lemma KeyNeedsRoom(s: seq<byte>, i: nat)
    requires forall j :: 0 <= j < i ==> !MatchAt(s, DRIVERS_KEY, j)
    requires i + |DRIVERS_KEY| >= |s|
    ensures DriversSpan(s).None?
  {
    if Find(s, DRIVERS_KEY, 0).Some? {
      assert Find(s, DRIVERS_KEY, 0).value + |DRIVERS_KEY| == |s|;
    }
  }

  /** The rest of setOpenStepBootDrivers, once the first key has been found before start. */
  method ReplaceValue(config: array<byte>, length: nat, start: nat, text: seq<byte>)
      returns (newLength: nat)
    requires start <= length && length + 2 <= CONFIG_LIMIT <= config.Length
    requires |DRIVERS_KEY| <= start
    requires Find(config[..length], DRIVERS_KEY, 0) == Some(start - |DRIVERS_KEY|)
    modifies config
    ensures newLength + 2 <= CONFIG_LIMIT
    ensures config[..newLength] == SetDrivers(old(config[..length]), text)
    ensures config[Max(length, newLength)..] == old(config[Max(length, newLength)..])
  {
    hide Find, IndexOf, Splice, Ascii;
    ghost var orig := config[..length];
    var end := start;
    while end < length && config[end] != QUOTE
      invariant start <= end <= length
      invariant forall j :: start <= j < end ==> orig[j] != QUOTE
    {
      end := end + 1;
    }
    IndexOfIs(orig, QUOTE, start, end);
    if end == length {
      return length;
    }
    var delta := |text| - (end - start);
    if length + delta + 2 >= CONFIG_LIMIT {
      return length;
    }
    SpliceInPlace(config, length, start, end, text);
    newLength := length + delta;
  }

  /** Replace the bytes [start, end) by text: move the tail, then copy text in. */
  method SpliceInPlace(config: array<byte>, length: nat, start: nat, end: nat, text: seq<byte>)
    requires start <= end <= length <= config.Length
    requires length + |text| - (end - start) <= config.Length
    modifies config
    ensures var newLength := length + |text| - (end - start);
            && config[..newLength] == Splice(old(config[..length]), start, end - start, text)
            && config[Max(length, newLength)..] == old(config[Max(length, newLength)..])
  {
    hide Splice;
    ghost var orig := config[..length];
    var newLength := length + |text| - (end - start);
    ShiftTail(config, end, length, newLength - length);
    Store(config, start, text);
    SplicePoints(config[..newLength], orig, start, end - start, text);
  }

  /** Move the bytes [end, length) by delta, copying from whichever side is safe. */
  method ShiftTail(config: array<byte>, end: nat, length: nat, delta: int)
    requires end <= length <= config.Length
    requires 0 <= end + delta && length + delta <= config.Length
    modifies config
    ensures forall k :: end + delta <= k < length + delta ==> config[k] == old(config[k - delta])
    ensures forall k :: 0 <= k < Min(end, end + delta) || Max(length, length + delta) <= k < config.Length ==>
              config[k] == old(config[k])
  {
    ghost var orig := config[..];
    var tail := length - end;
    if delta > 0 {
      var j := tail - 1;
      while j >= 0
        invariant -1 <= j < tail
        invariant forall k :: end + delta + j < k < length + delta ==> config[k] == orig[k - delta]
        invariant forall k :: 0 <= k <= end + delta + j || length + delta <= k < config.Length ==>
                    config[k] == orig[k]
      {
        config[end + delta + j] := config[end + j];
        j := j - 1;
      }
    } else if delta < 0 {
      var j := 0;
      while j < tail
        invariant 0 <= j <= tail
        invariant forall k :: end + delta <= k < end + delta + j ==> config[k] == orig[k - delta]
        invariant forall k :: 0 <= k < end + delta || end + delta + j <= k < config.Length ==>
                    config[k] == orig[k]
      {
        config[end + delta + j] := config[end + j];
        j := j + 1;
      }
    }
  }

  // ---- single-key rewrites ----

  /** forceOpenStepTextBoot: the first "Yes" becomes "No " with its quote moved inside. */
  method ForceOpenStepTextBoot(config: array<byte>, length: nat)
    requires length <= config.Length
    modifies config
    ensures config[..length] == ReplaceFirst(old(config[..length]), TEXT_KEY, TEXT_VALUE)
    ensures config[length..] == old(config[length..])
  {
    ghost var orig := config[..length];
    TextConstants();
    hide Find, Splice, Ascii, MatchAt, TEXT_KEY, TEXT_VALUE;
    var i := 0;
    while i + |TEXT_KEY| <= length
      invariant i + |TEXT_KEY| <= length + 1 || i == 0
      invariant forall j :: 0 <= j < i ==> !MatchAt(orig, TEXT_KEY, j)
    {
      if MatchAt(config[..length], TEXT_KEY, i) {
        FindIs(orig, TEXT_KEY, 0, i);
        config[i + |TEXT_KEY| - 4] := 'N' as int;
        config[i + |TEXT_KEY| - 3] := 'o' as int;
        config[i + |TEXT_KEY| - 2] := ' ' as int;
        WrittenNo(config[..length], orig, i);
        return;
      }
      i := i + 1;
    }
    NoMatch(orig, TEXT_KEY, i);
  }

  lemma WrittenNo(r: seq<byte>, s: seq<byte>, i: nat)
    requires |r| == |s| && MatchAt(s, TEXT_KEY, i) && |TEXT_KEY| == 23
    requires r[i + 19] == 'N' as int && r[i + 20] == 'o' as int && r[i + 21] == ' ' as int
    requires forall k :: 0 <= k < |r| && !(i + 19 <= k < i + 22) ==> r[k] == s[k]
    ensures r == Splice(s, i, |TEXT_KEY|, TEXT_VALUE)
  {
    TextConstants();
    hide Ascii, TEXT_KEY, TEXT_VALUE;
    assert forall k :: i <= k < i + 23 ==> s[k] == TEXT_KEY[k - i];
    Overwritten(r, s, i, TEXT_KEY, TEXT_VALUE);
  }

  lemma TextConstants()
    ensures |TEXT_KEY| == |TEXT_VALUE| == 23
    ensures TEXT_VALUE[19] == 'N' as int && TEXT_VALUE[20] == 'o' as int && TEXT_VALUE[21] == ' ' as int
    ensures TEXT_VALUE[22] == TEXT_KEY[22]
    ensures forall k :: 0 <= k < 19 ==> TEXT_VALUE[k] == TEXT_KEY[k]
  {
    assert |TEXT_STEM| == 19;
    hide TEXT_STEM;
    assert TEXT_KEY[..19] == TEXT_STEM == TEXT_VALUE[..19];
    assert TEXT_KEY[19..] == Ascii("Yes\"") && TEXT_VALUE[19..] == Ascii("No \"");
    assert forall k :: 0 <= k < 4 ==> TEXT_VALUE[19 + k] == TEXT_VALUE[19..][k];
  }

  lemma NoMatch(s: seq<byte>, pat: seq<byte>, i: nat)
    requires forall j :: 0 <= j < i ==> !MatchAt(s, pat, j)
    requires i + |pat| > |s|
    ensures Find(s, pat, 0).None?
  {
  }

  /** A match overwritten byte by byte with a value of the same length is a splice. */
  lemma Overwritten(r: seq<byte>, s: seq<byte>, i: nat, pat: seq<byte>, rep: seq<byte>)
    requires |r| == |s| && |pat| == |rep| && MatchAt(s, pat, i)
    requires forall k :: i <= k < i + |rep| ==> r[k] == rep[k - i]
    requires forall k :: 0 <= k < |r| && !(i <= k < i + |rep|) ==> r[k] == s[k]
    ensures r == Splice(s, i, |pat|, rep)
  {
    SplicePoints(r, s, i, |pat|, rep);
  }

  /** forceOpenStepPrimaryEIDE: drop the secondary port range from the first matching table. */
  method ForceOpenStepPrimaryEIDE(config: array<byte>, length: nat) returns (newLength: nat)
    requires length <= config.Length
    modifies config
    ensures newLength <= length
    ensures config[..newLength] == ReplaceFirst(old(config[..length]), PORTS_KEY, PORTS_VALUE)
    ensures config[length..] == old(config[length..])
  {
    ghost var orig := config[..length];
    hide Find, Splice, Ascii, MatchAt;
    var i := 0;
    while i + |PORTS_KEY| <= length
      invariant i + |PORTS_KEY| <= length + 1 || i == 0
      invariant forall j :: 0 <= j < i ==> !MatchAt(orig, PORTS_KEY, j)
    {
      if MatchAt(config[..length], PORTS_KEY, i) {
        FindIs(orig, PORTS_KEY, 0, i);
        SpliceInPlace(config, length, i, i + |PORTS_KEY|, PORTS_VALUE);
        newLength := length - (|PORTS_KEY| - |PORTS_VALUE|);
        return newLength;
      }
      i := i + 1;
    }
    NoMatch(orig, PORTS_KEY, i);
    return length;
  }

  /** The pure edit of forceOpenStepATAPISlave: nothing is written when the result would reach the limit. */
  function SetAtapiSlave(config: seq<byte>): seq<byte> {
    if |config| + |SLAVE| < CONFIG_LIMIT then ReplaceFirst(config, ATAPI_KEY, ATAPI_VALUE) else config
  }

  /** forceOpenStepATAPISlave: insert the value between the quotes of the first empty ATAPI Device key. */
  method ForceOpenStepATAPISlave(config: array<byte>, length: nat) returns (newLength: nat)
    requires length < CONFIG_LIMIT <= config.Length
    modifies config
    ensures newLength < CONFIG_LIMIT
    ensures config[..newLength] == SetAtapiSlave(old(config[..length]))
    ensures config[Max(length, newLength)..] == old(config[Max(length, newLength)..])
  {
    ghost var orig := config[..length];
    hide Find, Splice, Ascii, MatchAt;
    var i := 0;
    while i + |ATAPI_KEY| <= length
      invariant i + |ATAPI_KEY| <= length + 1 || i == 0
      invariant forall j :: 0 <= j < i ==> !MatchAt(orig, ATAPI_KEY, j)
    {
      if MatchAt(config[..length], ATAPI_KEY, i) {
        FindIs(orig, ATAPI_KEY, 0, i);
        if length + |SLAVE| >= CONFIG_LIMIT {
          return length;
        }
        SpliceInPlace(config, length, i + ATAPI_INSERTION, i + ATAPI_INSERTION, SLAVE);
        InsertedSlave(orig, i);
        newLength := length + |SLAVE|;
        return newLength;
      }
      i := i + 1;
    }
    NoMatch(orig, ATAPI_KEY, i);
    return length;
  }

  lemma InsertedSlave(s: seq<byte>, i: nat)
    requires MatchAt(s, ATAPI_KEY, i)
    ensures Splice(s, i + ATAPI_INSERTION, 0, SLAVE) == Splice(s, i, |ATAPI_KEY|, ATAPI_VALUE)
  {
    var r := Splice(s, i + ATAPI_INSERTION, 0, SLAVE);
    AtapiConstants();
    assert forall k :: i <= k < i + 20 ==> s[k] == ATAPI_KEY[k - i];
    SplicePoints(r, s, i, |ATAPI_KEY|, ATAPI_VALUE);
  }

  lemma AtapiConstants()
    ensures |ATAPI_KEY| == 20 && |SLAVE| == 5
    ensures ATAPI_VALUE == ATAPI_KEY[..18] + SLAVE + ATAPI_KEY[18..]
  {
    assert |ATAPI_STEM| == 18;
    hide ATAPI_STEM, Ascii;
  }

  // ---- "Multiple Sectors": every occurrence ----

  lemma SectorsStem()
    ensures |SECTORS_STEM| == 22
    ensures SECTORS_STEM[0] == QUOTE && SECTORS_STEM[1] == 'M' as int
  {
  }

  lemma SectorsNoN()
    ensures forall k :: 0 <= k < |SECTORS_STEM| ==> SECTORS_STEM[k] != 'N' as int
  {
  }

  lemma SectorsConstants()
    ensures |SECTORS_KEY| == |SECTORS_VALUE| == 26
    ensures SECTORS_VALUE[..22] == SECTORS_KEY[..22]
    ensures SECTORS_VALUE[22..] == ['N' as int, 'o' as int, QUOTE, ' ' as int]
    ensures SECTORS_KEY[0] == QUOTE && SECTORS_KEY[1] == 'M' as int
    ensures forall k :: 0 <= k < 26 ==> SECTORS_KEY[k] != 'N' as int
  {
    SectorsStem();
    SectorsNoN();
    hide SECTORS_STEM;
    assert SECTORS_KEY[..22] == SECTORS_STEM == SECTORS_VALUE[..22];
  }

  /** Around one written value no match of the key can start or reach into it. */
  lemma ValueBlocksKey(s: seq<byte>, i: nat, j: nat)
    requires MatchAt(s, SECTORS_VALUE, i)
    requires i - 4 < j < i + 26
    ensures !MatchAt(s, SECTORS_KEY, j)
  {
    SectorsConstants();
    hide Ascii;
    assert s[i + 22] == SECTORS_VALUE[22];
    assert s[i + 23] == SECTORS_VALUE[23];
    assert s[i + 24] == SECTORS_VALUE[24];
    assert s[i + 25] == SECTORS_VALUE[25];
    if j <= i + 22 {
      assert s[i + 22] != SECTORS_KEY[i + 22 - j];
    } else {
      assert s[j] == SECTORS_KEY[0] && j + 1 < |s| ==> s[j + 1] != SECTORS_KEY[1];
    }
  }

  lemma NoneAfterRewrite(s: seq<byte>, i: nat, tail: seq<byte>)
    requires Find(s, SECTORS_KEY, 0) == Some(i) && Find(tail, SECTORS_KEY, 0).None?
    ensures Find(s[..i] + SECTORS_VALUE + tail, SECTORS_KEY, 0).None?
  {
    SectorsConstants();
    hide Ascii;
    var r := s[..i] + SECTORS_VALUE + tail;
    assert MatchAt(r, SECTORS_VALUE, i);
    forall j: nat
      ensures !MatchAt(r, SECTORS_KEY, j)
    {
      if j <= i - 4 {
        // A match here would also be a match of the original, before its first one.
        assert s[i..i + 22] == SECTORS_KEY[..22];
        assert r[..i + 22] == s[..i + 22];
        PrefixMatch(s, r, SECTORS_KEY, i + 22, j);
      } else if j < i + 26 {
        ValueBlocksKey(r, i, j);
      } else {
        assert r[i + 26..] == tail;
        SuffixMatch(r, SECTORS_KEY, i + 26, j);
      }
    }
  }

  lemma SuffixMatch(s: seq<byte>, pat: seq<byte>, n: nat, j: nat)
    requires n <= j && n <= |s|
    ensures MatchAt(s, pat, j) <==> MatchAt(s[n..], pat, j - n)
  {
  }

  /** After forceOpenStepSafeEIDE no occurrence of the key is left. */
  lemma {:induction false} NoSectorsKeyRemains(s: seq<byte>)
    ensures Find(ReplaceAll(s, SECTORS_KEY, SECTORS_VALUE), SECTORS_KEY, 0).None?
    decreases |s|
  {
    SectorsConstants();
    hide Ascii, ReplaceAll;
    match Find(s, SECTORS_KEY, 0)
    case None => ReplaceAllNone(s, SECTORS_KEY, SECTORS_VALUE);
    case Some(i) =>
      var q := s[i + 26..];
      NoSectorsKeyRemains(q);
      ReplaceAllStep(s, SECTORS_KEY, SECTORS_VALUE, i, s[..i], q);
      NoneAfterRewrite(s, i, ReplaceAll(q, SECTORS_KEY, SECTORS_VALUE));
  }

  lemma SectorsStep(orig: seq<byte>, base: nat, i: nat)
    requires base <= i && i + |SECTORS_KEY| <= |orig| && MatchAt(orig, SECTORS_KEY, i)
    requires forall j :: base <= j < i ==> !MatchAt(orig, SECTORS_KEY, j)
    ensures var n := i + |SECTORS_KEY|;
            ReplaceAll(orig[base..], SECTORS_KEY, SECTORS_VALUE) ==
            orig[base..i] + SECTORS_VALUE + ReplaceAll(orig[n..], SECTORS_KEY, SECTORS_VALUE)
  {
    hide Ascii, ReplaceAll;
    var s := orig[base..];
    forall j | 0 <= j <= i - base
      ensures MatchAt(s, SECTORS_KEY, j) <==> MatchAt(orig, SECTORS_KEY, base + j)
    {
      SuffixMatch(orig, SECTORS_KEY, base, base + j);
    }
    FindIs(s, SECTORS_KEY, 0, i - base);
    SectorsConstants();
    ReplaceAllStep(s, SECTORS_KEY, SECTORS_VALUE, i - base, orig[base..i], orig[i + 26..]);
  }

  lemma SectorsDone(orig: seq<byte>, base: nat, i: nat)
    requires base <= |orig| < i + |SECTORS_KEY|
    requires forall j :: base <= j < i ==> !MatchAt(orig, SECTORS_KEY, j)
    ensures ReplaceAll(orig[base..], SECTORS_KEY, SECTORS_VALUE) == orig[base..]
  {
    SectorsConstants();
    hide Ascii, ReplaceAll;
    forall j: nat ensures !MatchAt(orig[base..], SECTORS_KEY, j) {
      SuffixMatch(orig, SECTORS_KEY, base, base + j);
    }
    ReplaceAllNone(orig[base..], SECTORS_KEY, SECTORS_VALUE);
  }

  lemma SameMatch(cur: seq<byte>, done: seq<byte>, orig: seq<byte>, i: nat)
    requires |done| <= |orig| && cur == done + orig[|done|..]
    ensures |done| <= i ==> (MatchAt(cur, SECTORS_KEY, i) <==> MatchAt(orig, SECTORS_KEY, i))
  {
    hide Ascii;
    if |done| <= i {
      SuffixMatch(cur, SECTORS_KEY, |done|, i);
      SuffixMatch(orig, SECTORS_KEY, |done|, i);
      assert cur[|done|..] == orig[|done|..];
    }
  }

  lemma NotInsideDone(cur: seq<byte>, done: seq<byte>, orig: seq<byte>, i: nat)
    requires |done| <= |orig| && cur == done + orig[|done|..]
    requires |done| - 26 < i
    requires |done| > 0 ==> |done| >= 26 && MatchAt(done, SECTORS_VALUE, |done| - 26)
    requires MatchAt(cur, SECTORS_KEY, i)
    ensures |done| <= i && i + |SECTORS_KEY| <= |orig| && MatchAt(orig, SECTORS_KEY, i)
  {
    SectorsConstants();
    hide Ascii;
    if i < |done| {
      assert cur[..|done|] == done[..|done|];
      PrefixMatch(done, cur, SECTORS_VALUE, |done|, |done| - 26);
      ValueBlocksKey(cur, |done| - 26, i);
    }
    SameMatch(cur, done, orig, i);
  }

  lemma ExtendDone(r: seq<byte>, cur: seq<byte>, done: seq<byte>, orig: seq<byte>, i: nat)
    requires |done| <= i && i + 26 <= |orig| && MatchAt(orig, SECTORS_KEY, i)
    requires cur == done + orig[|done|..] && |r| == |cur|
    requires forall k :: 0 <= k < |r| && !(i + 22 <= k < i + 26) ==> r[k] == cur[k]
    requires r[i + 22] == 'N' as int && r[i + 23] == 'o' as int && r[i + 24] == QUOTE && r[i + 25] == ' ' as int
    ensures var d := done + orig[|done|..i] + SECTORS_VALUE;
            r == d + orig[i + 26..] && MatchAt(d, SECTORS_VALUE, |d| - 26)
  {
    SectorsConstants();
    hide Ascii, SECTORS_KEY, SECTORS_VALUE;
    var d := done + orig[|done|..i] + SECTORS_VALUE;
    forall k | i <= k < i + 26
      ensures r[k] == SECTORS_VALUE[k - i]
    {
      if k < i + 22 {
        assert orig[i + (k - i)] == SECTORS_KEY[k - i] == SECTORS_KEY[..22][k - i] == SECTORS_VALUE[..22][k - i];
      } else {
        assert SECTORS_VALUE[k - i] == SECTORS_VALUE[22..][k - i - 22];
      }
    }
    assert d[i..] == SECTORS_VALUE;
  }

  /**
   Where the scan stands: cur is the rewritten part done followed by the untouched
   rest of orig, done ends with the last value written, and up to i the rest holds no key.
   */
  ghost predicate Scanned(orig: seq<byte>, done: seq<byte>, cur: seq<byte>, i: nat) {
    && |done| <= |orig| && |done| - 26 < i
    && cur == done + orig[|done|..]
    && (|done| > 0 ==> |done| >= 26 && MatchAt(done, SECTORS_VALUE, |done| - 26))
    && (forall j :: |done| <= j < i ==> !MatchAt(orig, SECTORS_KEY, j))
    && ReplaceAll(orig, SECTORS_KEY, SECTORS_VALUE) ==
       done + ReplaceAll(orig[|done|..], SECTORS_KEY, SECTORS_VALUE)
  }

  lemma ScannedStart(orig: seq<byte>)
    ensures Scanned(orig, [], orig, 0)
  {
    assert orig[0..] == orig;
  }

  lemma ScannedSkip(orig: seq<byte>, done: seq<byte>, cur: seq<byte>, i: nat)
    requires Scanned(orig, done, cur, i) && !MatchAt(cur, SECTORS_KEY, i)
    ensures Scanned(orig, done, cur, i + 1)
  {
    hide MatchAt, ReplaceAll, Ascii, SECTORS_KEY, SECTORS_VALUE;
    SameMatch(cur, done, orig, i);
  }

  lemma Concat4(a: seq<byte>, b: seq<byte>, c: seq<byte>, d: seq<byte>)
    ensures a + (b + c + d) == a + b + c + d
  {
  }

  lemma ScannedWrite(orig: seq<byte>, done: seq<byte>, cur: seq<byte>, i: nat, r: seq<byte>)
      returns (d: seq<byte>)
    requires Scanned(orig, done, cur, i) && MatchAt(cur, SECTORS_KEY, i)
    requires |SECTORS_KEY| == 26 && |r| == |cur|
    requires forall k :: 0 <= k < |r| && !(i + 22 <= k < i + 26) ==> r[k] == cur[k]
    requires r[i + 22] == 'N' as int && r[i + 23] == 'o' as int && r[i + 24] == QUOTE && r[i + 25] == ' ' as int
    ensures Scanned(orig, d, r, i + 1)
  {
    SectorsConstants();
    hide Ascii, ReplaceAll, MatchAt, Find;
    NotInsideDone(cur, done, orig, i);
    SectorsStep(orig, |done|, i);
    ExtendDone(r, cur, done, orig, i);
    d := done + orig[|done|..i] + SECTORS_VALUE;
    assert |d| == i + 26;
    Concat4(done, orig[|done|..i], SECTORS_VALUE, ReplaceAll(orig[i + 26..], SECTORS_KEY, SECTORS_VALUE));
  }

  lemma ScannedEnd(orig: seq<byte>, done: seq<byte>, cur: seq<byte>, i: nat)
    requires Scanned(orig, done, cur, i) && i + |SECTORS_KEY| > |orig|
    ensures cur == ReplaceAll(orig, SECTORS_KEY, SECTORS_VALUE)
  {
    SectorsDone(orig, |done|, i);
  }

  /** forceOpenStepSafeEIDE: rewrite every occurrence, one scan, in place. */
  method ForceOpenStepSafeEIDE(config: array<byte>, length: nat)
    requires length <= config.Length
    modifies config
    ensures config[..length] == ReplaceAll(old(config[..length]), SECTORS_KEY, SECTORS_VALUE)
    ensures config[length..] == old(config[length..])
  {
    SectorsConstants();
    hide Ascii, ReplaceAll, Find, Scanned, MatchAt, SECTORS_KEY, SECTORS_VALUE, SECTORS_STEM;
    ghost var orig := config[..length];
    ghost var done: seq<byte> := [];
    ScannedStart(orig);
    var i := 0;
    while i + |SECTORS_KEY| <= length
      invariant Scanned(orig, done, config[..length], i)
      invariant config[length..] == old(config[length..])
    {
      ghost var cur := config[..length];
      if MatchAt(config[..length], SECTORS_KEY, i) {
        config[i + |SECTORS_KEY| - 4] := 'N' as int;
        config[i + |SECTORS_KEY| - 3] := 'o' as int;
        config[i + |SECTORS_KEY| - 2] := QUOTE;
        config[i + |SECTORS_KEY| - 1] := ' ' as int;
        done := ScannedWrite(orig, done, cur, i, config[..length]);
      } else {
        ScannedSkip(orig, done, cur, i);
      }
      i := i + 1;
    }
    ScannedEnd(orig, done, config[..length], i);
  }
}
