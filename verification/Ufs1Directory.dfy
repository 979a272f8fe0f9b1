/**
 Directory data of a native UFS1 volume: a scan over variable-length records
 that tile the data, in either byte order.
 */
module Ufs1Directory {
  import opened Bytes
  import opened Ufs1Reader

  datatype Entry = Entry(ino: nat, recordLength: nat, fileType: byte, name: seq<byte>)

  /** One accepted record: where it lies, and the entry it yields unless it is unused. */
  datatype Visit = Visit(at: nat, length: nat, entry: Option<Entry>)

  /** The record at an offset, or nothing where the scan stops. */
  function VisitAt(data: seq<byte>, at: nat, little: bool): (r: Option<Visit>)
    ensures r.Some? ==> r.value.at == at && 8 <= r.value.length && at + r.value.length <= |data|
  {
    if at + 8 > |data| then None
    else
      var ino, length := U32(data, at, little), U16(data, at + 4, little);
      if (ino == 0 && length == 0) || length < 8 || at + length > |data| then None
      else
        var nameLength: nat := data[at + 7];
        Some(Visit(at, length,
          if ino != 0 && nameLength <= length - 8
          then Some(Entry(ino, length, data[at + 6], data[at + 8..at + 8 + nameLength])) else None))
  }

  function Visits(data: seq<byte>, at: nat, little: bool): seq<Visit>
    decreases |data| - at
  {
    match VisitAt(data, at, little)
    case None => []
    case Some(v) => [v] + Visits(data, at + v.length, little)
  }

  function Yielded(visits: seq<Visit>): seq<Entry> {
    if |visits| == 0 then []
    else (if visits[0].entry.Some? then [visits[0].entry.value] else []) + Yielded(visits[1..])
  }

  function Entries(data: seq<byte>, little: bool): seq<Entry> { Yielded(Visits(data, 0, little)) }

  /** parse_directory. */
  method ParseDirectory(data: seq<byte>, little: bool) returns (entries: seq<Entry>)
    ensures entries == Entries(data, little)
  {
    hide U16, U32, Visits, Yielded;
    entries := [];
    var offset := 0;
    while offset + 8 <= |data|
      invariant Entries(data, little) == entries + Yielded(Visits(data, offset, little))
      decreases |data| - offset
    {
      var ino := U32(data, offset, little);
      var recordLength := U16(data, offset + 4, little);
      if ino == 0 && recordLength == 0 {
        VisitsEnd(data, offset, little);
        return entries;
      }
      if recordLength < 8 || offset + recordLength > |data| {
        VisitsEnd(data, offset, little);
        return entries;
      }
      var fileType := data[offset + 6];
      var nameLength: nat := data[offset + 7];
      VisitsStep(data, offset, little);
      if ino != 0 && nameLength <= recordLength - 8 {
        var name := data[offset + 8..offset + 8 + nameLength];
        entries := entries + [Entry(ino, recordLength, fileType, name)];
      }
      offset := offset + recordLength;
    }
    VisitsEnd(data, offset, little);
  }

  lemma VisitsEnd(data: seq<byte>, at: nat, little: bool)
    requires VisitAt(data, at, little).None?
    ensures Yielded(Visits(data, at, little)) == []
  {
  }

  lemma VisitsStep(data: seq<byte>, at: nat, little: bool)
    requires VisitAt(data, at, little).Some?
    ensures var v := VisitAt(data, at, little).value;
            Yielded(Visits(data, at, little)) ==
            (if v.entry.Some? then [v.entry.value] else []) + Yielded(Visits(data, at + v.length, little))
  {
    hide VisitAt;
    var v := VisitAt(data, at, little).value;
    assert Visits(data, at, little)[1..] == Visits(data, at + v.length, little);
  }

  // ---- the records tile the data ----

  /** Consecutive records from at on, each of at least 8 bytes with its name inside it. */
  predicate Tiles(data: seq<byte>, visits: seq<Visit>, at: nat) {
    |visits| == 0 ||
    var v := visits[0];
    && v.at == at && 8 <= v.length && at + v.length <= |data|
    && (v.entry.Some? ==>
          var name := v.entry.value.name;
          8 + |name| <= v.length && name == data[at + 8..at + 8 + |name|])
    && Tiles(data, visits[1..], at + v.length)
  }

  lemma {:induction false} VisitsTile(data: seq<byte>, at: nat, little: bool)
    ensures Tiles(data, Visits(data, at, little), at)
    decreases |data| - at
  {
    hide U16, U32;
    match VisitAt(data, at, little)
    case None =>
    case Some(v) => VisitsTile(data, at + v.length, little);
  }

  /** So offsets strictly increase and no record reaches into a later one. */
  lemma {:induction false} TilesInOrder(data: seq<byte>, visits: seq<Visit>, at: nat, i: nat, j: nat)
    requires Tiles(data, visits, at) && i < j < |visits|
    ensures at <= visits[i].at && visits[i].at + visits[i].length <= visits[j].at < |data|
    decreases j
  {
    var v := visits[0];
    if i > 0 {
      TilesInOrder(data, visits[1..], at + v.length, i - 1, j - 1);
    } else {
      TilesFrom(data, visits[1..], at + v.length, j - 1);
    }
  }

  lemma {:induction false} TilesFrom(data: seq<byte>, visits: seq<Visit>, at: nat, j: nat)
    requires Tiles(data, visits, at) && j < |visits|
    ensures at <= visits[j].at < |data|
    decreases j
  {
    if j > 0 {
      TilesFrom(data, visits[1..], at + visits[0].length, j - 1);
    }
  }

  // ---- round trip ----

  /** A well-formed record: a used or unused inode number, a name, and padding. */
  datatype Record = Record(ino: nat, fileType: byte, name: seq<byte>, padding: seq<byte>)
  {
    function Length(): nat { 8 + |name| + |padding| }

    predicate WellFormed() { ino < WORD && |name| < 0x100 && Length() < 0x1_0000 }
  }

  function PackHalf(w: nat, little: bool): (r: seq<byte>)
    requires w < 0x1_0000
    ensures |r| == 2 && U16(r, 0, little) == w
  {
    if little then [w % 0x100, w / 0x100] else [w / 0x100, w % 0x100]
  }

  function Encode(r: Record, little: bool): (s: seq<byte>)
    requires r.WellFormed()
    ensures |s| == r.Length()
  {
    PackWord(r.ino, little) + PackHalf(r.Length(), little) + [r.fileType, |r.name|] + r.name + r.padding
  }

  function EncodeAll(rs: seq<Record>, little: bool): seq<byte>
    requires forall r :: r in rs ==> r.WellFormed()
  {
    if |rs| == 0 then [] else Encode(rs[0], little) + EncodeAll(rs[1..], little)
  }

  function Used(rs: seq<Record>): seq<Entry> {
    if |rs| == 0 then []
    else (if rs[0].ino == 0 then [] else [Entry(rs[0].ino, rs[0].Length(), rs[0].fileType, rs[0].name)]) + Used(rs[1..])
  }

  lemma EncodedFields(data: seq<byte>, at: nat, r: Record, little: bool)
    requires r.WellFormed() && at + r.Length() <= |data|
    requires data[at..at + r.Length()] == Encode(r, little)
    ensures U32(data, at, little) == r.ino && U16(data, at + 4, little) == r.Length()
    ensures data[at + 6] == r.fileType && data[at + 7] == |r.name|
    ensures data[at + 8..at + 8 + |r.name|] == r.name
  {
    var s := Encode(r, little);
    assert forall k :: 0 <= k < |s| ==> data[at + k] == data[at..at + r.Length()][k] == s[k];
    assert s[..4] == PackWord(r.ino, little) && s[4..6] == PackHalf(r.Length(), little);
    assert s[8..8 + |r.name|] == r.name;
    assert forall k :: 0 <= k < 4 ==> s[k] == PackWord(r.ino, little)[k];
  }

  lemma EncodedVisit(data: seq<byte>, at: nat, r: Record, little: bool)
    requires r.WellFormed() && at + r.Length() <= |data|
    requires data[at..at + r.Length()] == Encode(r, little)
    ensures VisitAt(data, at, little) ==
            Some(Visit(at, r.Length(), if r.ino == 0 then None else Some(Entry(r.ino, r.Length(), r.fileType, r.name))))
  {
    hide Encode, U16, U32;
    EncodedFields(data, at, r, little);
  }

  lemma EncodedFront(data: seq<byte>, at: nat, rs: seq<Record>, tail: seq<byte>, little: bool)
    requires (forall r :: r in rs ==> r.WellFormed()) && |rs| > 0
    requires at <= |data| && data[at..] == EncodeAll(rs, little) + tail
    ensures at + rs[0].Length() <= |data|
    ensures data[at..at + rs[0].Length()] == Encode(rs[0], little)
    ensures data[at + rs[0].Length()..] == EncodeAll(rs[1..], little) + tail
  {
    var a, b := Encode(rs[0], little), EncodeAll(rs[1..], little);
    assert data[at..] == a + (b + tail) by {
      Associates(a, b, tail);
    }
    hide Encode, EncodeAll;
    FrontOf(data, at, a, b + tail);
  }

  /**
   Parsing the encoding of any list of well-formed records, followed by data the
   scan does not accept, gives exactly the used entries, in order.
   */
  lemma {:induction false} DirectoryRoundTrip(data: seq<byte>, at: nat, rs: seq<Record>, tail: seq<byte>, little: bool)
    requires forall r :: r in rs ==> r.WellFormed()
    requires at <= |data| && data[at..] == EncodeAll(rs, little) + tail
    requires VisitAt(data, |data| - |tail|, little).None?
    ensures Yielded(Visits(data, at, little)) == Used(rs)
    decreases |rs|
  {
    hide VisitAt, Encode, Visits, Yielded;
    if |rs| == 0 {
      assert at == |data| - |tail|;
      VisitsEnd(data, at, little);
    } else {
      EncodedFront(data, at, rs, tail, little);
      EncodedVisit(data, at, rs[0], little);
      VisitsStep(data, at, little);
      DirectoryRoundTrip(data, at + rs[0].Length(), rs[1..], tail, little);
    }
  }

  /** In particular a directory that is nothing but records. */
  lemma ParseEncodedDirectory(rs: seq<Record>, little: bool)
    requires forall r :: r in rs ==> r.WellFormed()
    ensures Entries(EncodeAll(rs, little), little) == Used(rs)
  {
    var data := EncodeAll(rs, little);
    assert data[0..] == data + [];
    DirectoryRoundTrip(data, 0, rs, [], little);
  }
}
