/**
 PCI configuration access of the Glide library: masked reads and read-modify-write
 of aligned device words, refining a little-endian array of 256 bytes.
 */
module PciConfig {
  import opened Bytes

  const CONFIG_WORDS := 64

  datatype PciError = NoError | ReadError | WriteError

  // Shifts are by 8 * lane and masks cover size bytes, written out for each value.

  function ShiftUp(w: bv32, lane: nat): bv32
    requires lane < 4
  {
    if lane == 0 then w else if lane == 1 then w << 8 else if lane == 2 then w << 16 else w << 24
  }

  function ShiftDown(w: bv32, lane: nat): bv32
    requires lane < 4
  {
    if lane == 0 then w else if lane == 1 then w >> 8 else if lane == 2 then w >> 16 else w >> 24
  }

  function Mask(size: nat): bv32
    requires size < 4
  {
    if size == 0 then 0 else if size == 1 then 0xff else if size == 2 then 0xffff else 0xff_ffff
  }

  /** The low size bytes of a word, all of it for four or more. */
  function Low(w: bv32, size: nat): bv32 {
    if size >= 4 then w else w & Mask(size)
  }

  /** The value pciSetConfigData stores: the masked bytes from data, the others from the old word. */
  function Merge(word: bv32, data: bv32, lane: nat, size: nat): bv32
    requires 0 < size && lane + size <= 4
  {
    if size == 4 then data
    else
      Blend(word, ShiftUp(data, lane), ShiftUp(Mask(size), lane))
  }

  /** The bits of data under the mask, the bits of word elsewhere. */
  function Blend(word: bv32, data: bv32, mask: bv32): bv32 { (word & !mask) | (data & mask) }

  function Bits(word: bv32, mask: bv32): bv32 { word & mask }

  /** The value pciGetConfigData returns from a word. */
  function Extract(w: bv32, lane: nat, size: nat): bv32
    requires lane < 4
  {
    Low(ShiftDown(w, lane), size)
  }

  /** Byte 0..3 of a device word, least significant first. */
  function Lane(w: bv32, l: nat): bv32
    requires l < 4
  {
    Extract(w, l, 1)
  }

  /** Configuration space as bytes. */
  function ByteOf(words: seq<bv32>, k: nat): bv32
    requires k < 4 * |words|
  {
    Lane(words[k / 4], k % 4)
  }

  lemma ExtractAt0(word: bv32, data: bv32, size: nat)
    requires 0 < size <= 4
    ensures Extract(Merge(word, data, 0, size), 0, size) == Low(data, size)
  {
  }

  lemma ExtractAt1(word: bv32, data: bv32, size: nat)
    requires 0 < size <= 3
    ensures Extract(Merge(word, data, 1, size), 1, size) == Low(data, size)
  {
  }

  lemma ExtractAt2(word: bv32, data: bv32, size: nat)
    requires 0 < size <= 2
    ensures Extract(Merge(word, data, 2, size), 2, size) == Low(data, size)
  {
  }

  lemma ExtractAt3(word: bv32, data: bv32, size: nat)
    requires 0 < size <= 1
    ensures Extract(Merge(word, data, 3, size), 3, size) == Low(data, size)
  {
  }

  /** What was put is what is got: the low bytes of the value. */
  lemma ExtractMerge(word: bv32, data: bv32, lane: nat, size: nat)
    requires 0 < size && lane + size <= 4
    ensures Extract(Merge(word, data, lane, size), lane, size) == Low(data, size)
  {
    hide Extract, Merge, Low;
    if lane == 0 {
      ExtractAt0(word, data, size);
    } else if lane == 1 {
      ExtractAt1(word, data, size);
    } else if lane == 2 {
      ExtractAt2(word, data, size);
    } else {
      ExtractAt3(word, data, size);
    }
  }

  /** The bits of a word that a narrow register occupies. */
  function Region(lane: nat, size: nat): bv32
    requires size < 4 && lane < 4
  {
    ShiftUp(Mask(size), lane)
  }

  lemma RegionAt0(w: bv32, size: nat)
    requires 0 < size <= 3
    ensures Extract(w, 0, size) == ShiftDown(Bits(w, Region(0, size)), 0)
  {
  }

  lemma RegionAt1(w: bv32, size: nat)
    requires 0 < size <= 3
    ensures Extract(w, 1, size) == ShiftDown(Bits(w, Region(1, size)), 1)
  {
  }

  lemma RegionAt2(w: bv32, size: nat)
    requires 0 < size <= 2
    ensures Extract(w, 2, size) == ShiftDown(Bits(w, Region(2, size)), 2)
  {
  }

  lemma RegionAt3(w: bv32, size: nat)
    requires 0 < size <= 1
    ensures Extract(w, 3, size) == ShiftDown(Bits(w, Region(3, size)), 3)
  {
  }

  lemma ExtractRegion(w: bv32, lane: nat, size: nat)
    requires 0 < size < 4 && lane + size <= 4
    ensures Extract(w, lane, size) == ShiftDown(Bits(w, Region(lane, size)), lane)
  {
    hide Extract, ShiftDown, Region, Bits;
    match lane
    case 0 => RegionAt0(w, size);
    case 1 => RegionAt1(w, size);
    case 2 => RegionAt2(w, size);
    case _ => RegionAt3(w, size);
  }

  lemma RegionsDisjoint(lane: nat, size: nat, other: nat, otherSize: nat)
    requires 0 < size < 4 && lane + size <= 4 && 0 < otherSize < 4 && other + otherSize <= 4
    requires other + otherSize <= lane || lane + size <= other
    ensures Bits(Region(other, otherSize), Region(lane, size)) == 0
  {
  }

  lemma MergeOutside(word: bv32, data: bv32, mask: bv32, region: bv32)
    requires Bits(region, mask) == 0
    ensures Bits(Blend(word, data, mask), region) == Bits(word, region)
  {
  }

  /** Merging leaves every register of the word that shares no byte with it as it was. */
  lemma MergeKeepsOthers(word: bv32, data: bv32, lane: nat, size: nat, other: nat, otherSize: nat)
    requires 0 < size && lane + size <= 4 && 0 < otherSize && other + otherSize <= 4
    requires other + otherSize <= lane || lane + size <= other
    ensures Extract(Merge(word, data, lane, size), other, otherSize) == Extract(word, other, otherSize)
  {
    hide Extract, ShiftDown, ShiftUp, Mask, Bits, Blend;
    RegionsDisjoint(lane, size, other, otherSize);
    MergeOutside(word, ShiftUp(data, lane), Region(lane, size), Region(other, otherSize));
    ExtractRegion(word, other, otherSize);
    ExtractRegion(Merge(word, data, lane, size), other, otherSize);
  }

  lemma ShiftByZero(w: bv32)
    ensures ShiftDown(w, 0) == w
  {
  }

  lemma ShiftTwice(w: bv32)
    ensures ShiftDown(ShiftDown(w, 1), 1) == ShiftDown(w, 2)
    ensures ShiftDown(ShiftDown(w, 1), 2) == ShiftDown(w, 3)
    ensures ShiftDown(ShiftDown(w, 2), 1) == ShiftDown(w, 3)
  {
  }

  lemma NestedShift(w: bv32, lane: nat, k: nat)
    requires lane + k < 4
    ensures ShiftDown(ShiftDown(w, lane), k) == ShiftDown(w, lane + k)
  {
    hide ShiftDown;
    ShiftByZero(w);
    ShiftByZero(ShiftDown(w, lane));
    ShiftTwice(w);
  }

  /** Cutting a word to size bytes keeps byte k of them. */
  lemma LowKeepsByte(w: bv32, size: nat, k: nat)
    requires k < size <= 4
    ensures Extract(Low(w, size), k, 1) == Extract(w, k, 1)
  {
  }

  /** Byte k of an extracted register is byte lane + k of the word. */
  lemma ExtractLane(w: bv32, lane: nat, size: nat, k: nat)
    requires lane + size <= 4 && k < size
    ensures Lane(Extract(w, lane, size), k) == Lane(w, lane + k)
  {
    hide ShiftDown, Low;
    LowKeepsByte(ShiftDown(w, lane), size, k);
    NestedShift(w, lane, k);
  }

  /** A merged word has the low bytes of data at the addressed lanes and its old bytes elsewhere. */
  lemma MergeLanes(word: bv32, data: bv32, lane: nat, size: nat, l: nat)
    requires 0 < size && lane + size <= 4 && l < 4
    ensures Lane(Merge(word, data, lane, size), l) ==
            if lane <= l < lane + size then Lane(data, l - lane) else Lane(word, l)
  {
    hide Merge, Extract;
    var merged := Merge(word, data, lane, size);
    if lane <= l < lane + size {
      ExtractMerge(word, data, lane, size);
      ExtractLane(merged, lane, size, l - lane);
      LowKeepsByte(data, size, l - lane);
    } else {
      MergeKeepsOthers(word, data, lane, size, l, 1);
    }
  }

  // ---- the library and its devices ----

  predicate GoodAccess(address: nat, size: nat) { 0 < size <= 4 && address % 4 + size <= 4 }

  /** The driver serves aligned words of an existing device. */
  predicate Served(address: nat) { address - address % 4 <= 252 }

  class PciLibrary {
    var initialized: bool
    var numberOfDevices: nat
    var errorCode: PciError
    const devices: seq<array<bv32>>

    ghost predicate Valid()
      reads this
    {
      && numberOfDevices <= |devices|
      && (forall i :: 0 <= i < |devices| ==> devices[i].Length == CONFIG_WORDS)
      && (forall i, j :: 0 <= i < j < |devices| ==> devices[i] != devices[j])
    }

    constructor (cards: seq<array<bv32>>)
      requires forall i :: 0 <= i < |cards| ==> cards[i].Length == CONFIG_WORDS
      requires forall i, j :: 0 <= i < j < |cards| ==> cards[i] != cards[j]
      ensures Valid() && devices == cards && initialized && numberOfDevices == |cards| && errorCode == NoError
    {
      devices := cards;
      initialized, numberOfDevices, errorCode := true, |cards|, NoError;
    }

    predicate Ready(device: nat)
      reads this
    {
      initialized && device < numberOfDevices
    }

    /** pciGetConfigData. */
    method GetConfigData(address: nat, size: nat, device: nat) returns (data: Option<bv32>)
      requires Valid()
      modifies this`errorCode
      ensures data.Some? <==> Ready(device) && Served(address)
      ensures data.Some? ==> data.value == Extract(devices[device][address / 4], address % 4, size)
      ensures errorCode == if !Ready(device) then old(errorCode) else if Served(address) then NoError else ReadError
    {
      hide ShiftDown, Mask;
      if !initialized || device >= numberOfDevices {
        return None;
      }
      var word := ReadConfigLong(device, address - address % 4);
      if word.None? {
        errorCode := ReadError;
        return None;
      }
      var value := ShiftDown(word.value, address % 4);
      if size < 4 {
        value := value & Mask(size);
      }
      errorCode := NoError;
      return Some(value);
    }

    /** pciSetConfigData: write a whole word, or merge the addressed bytes into the old one. */
    method SetConfigData(address: nat, size: nat, device: nat, data: bv32) returns (ok: bool)
      requires Valid()
      modifies this`errorCode, devices
      ensures ok <==> Ready(device) && GoodAccess(address, size) && Served(address)
      ensures ok ==>
                var word := old(devices[device][address / 4]);
                devices[device][..] ==
                  old(devices[device][..])[address / 4 := Merge(word, data, address % 4, size)]
      ensures !ok ==> forall i :: 0 <= i < |devices| ==> devices[i][..] == old(devices[i][..])
      ensures forall i :: 0 <= i < |devices| && i != device ==> devices[i][..] == old(devices[i][..])
      ensures errorCode == if ok then NoError else WriteError
    {
      hide ShiftUp, Mask, Blend;
      if !initialized || device >= numberOfDevices || size == 0 || size > 4 || address % 4 + size > 4 {
        errorCode := WriteError;
        return false;
      }
      var value := data;
      if size != 4 {
        var word := ReadConfigLong(device, address - address % 4);
        if word.None? {
          errorCode := WriteError;
          return false;
        }
        var mask := ShiftUp(Mask(size), address % 4);
        value := Blend(word.value, ShiftUp(data, address % 4), mask);
      }
      ok := WriteConfigLong(device, address - address % 4, value);
      errorCode := if ok then NoError else WriteError;
    }

    /** V2Driver_ReadConfigLong. */
    method ReadConfigLong(device: nat, address: nat) returns (value: Option<bv32>)
      requires Valid()
      ensures value.Some? <==> device < |devices| && address % 4 == 0 && address <= 252
      ensures value.Some? ==> value.value == devices[device][address / 4]
    {
      if device >= |devices| || address % 4 != 0 || address > 252 {
        return None;
      }
      return Some(devices[device][address / 4]);
    }

    /** V2Driver_WriteConfigLong. */
    method WriteConfigLong(device: nat, address: nat, value: bv32) returns (ok: bool)
      requires Valid()
      modifies devices
      ensures ok <==> device < |devices| && address % 4 == 0 && address <= 252
      ensures ok ==> devices[device][..] == old(devices[device][..])[address / 4 := value]
      ensures forall i :: 0 <= i < |devices| && !(ok && i == device) ==> devices[i][..] == old(devices[i][..])
    {
      if device >= |devices| || address % 4 != 0 || address > 252 {
        return false;
      }
      devices[device][address / 4] := value;
      return true;
    }
  }

  // ---- the byte-level meaning ----

  /** A masked set changes exactly the addressed bytes of configuration space. */
  lemma SetChangesAddressedBytes(words: seq<bv32>, address: nat, size: nat, data: bv32, k: nat)
    requires |words| == CONFIG_WORDS && GoodAccess(address, size) && Served(address) && k < 256
    ensures var after := words[address / 4 := Merge(words[address / 4], data, address % 4, size)];
            ByteOf(after, k) ==
            if address <= k < address + size then Lane(data, k - address) else ByteOf(words, k)
  {
    hide Lane, Merge;
    if k / 4 == address / 4 {
      MergeLanes(words[address / 4], data, address % 4, size, k % 4);
    }
  }

  /** Reading a register after setting it gives the low bytes of the value. */
  lemma GetAfterSet(words: seq<bv32>, address: nat, size: nat, data: bv32)
    requires |words| == CONFIG_WORDS && GoodAccess(address, size) && Served(address)
    ensures var after := words[address / 4 := Merge(words[address / 4], data, address % 4, size)];
            Extract(after[address / 4], address % 4, size) == Low(data, size)
  {
    hide Merge, Extract, Low;
    ExtractMerge(words[address / 4], data, address % 4, size);
  }

  /** A register that shares no byte with the one written reads as before. */
  lemma OtherRegisterUnchanged(words: seq<bv32>, address: nat, size: nat, data: bv32, other: nat, otherSize: nat)
    requires |words| == CONFIG_WORDS && GoodAccess(address, size) && Served(address)
    requires GoodAccess(other, otherSize) && Served(other)
    requires other + otherSize <= address || address + size <= other
    ensures var after := words[address / 4 := Merge(words[address / 4], data, address % 4, size)];
            Extract(after[other / 4], other % 4, otherSize) == Extract(words[other / 4], other % 4, otherSize)
  {
    hide Lane, Merge, Extract;
    if other / 4 == address / 4 {
      MergeKeepsOthers(words[address / 4], data, address % 4, size, other % 4, otherSize);
    }
  }
}
