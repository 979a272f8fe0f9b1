/** Bytes, optional values and fixed-width integers in both byte orders. */
module Bytes {

  type byte = b: int | 0 <= b < 256

  datatype Option<+T> = None | Some(value: T)

  const WORD := 0x1_0000_0000

  /** The bytes of an ASCII literal. */
  function Ascii(s: string): (r: seq<byte>)
    ensures |r| == |s|
    ensures forall i :: 0 <= i < |s| ==> r[i] == s[i] as int % 256
  {
    seq(|s|, i requires 0 <= i < |s| => s[i] as int % 256)
  }

  function Zeros(n: nat): (r: seq<byte>)
    ensures |r| == n && forall i :: 0 <= i < n ==> r[i] == 0
  {
    seq(n, _ => 0)
  }

  function Min(a: int, b: int): int { if a < b then a else b }

  function Max(a: int, b: int): int { if a < b then b else a }

  // ---- big-endian fields ----

  function Be16(s: seq<byte>, o: nat): (v: nat)
    requires o + 2 <= |s|
    ensures v < 0x1_0000
  {
    (s[o] as int) * 0x100 + s[o + 1] as int
  }

  function Be24(s: seq<byte>, o: nat): (v: nat)
    requires o + 3 <= |s|
    ensures v < 0x100_0000
  {
    (s[o] as int) * 0x1_0000 + (s[o + 1] as int) * 0x100 + s[o + 2] as int
  }

  function Be32(s: seq<byte>, o: nat): (v: nat)
    requires o + 4 <= |s|
    ensures v < WORD
  {
    (s[o] as int) * 0x100_0000 + (s[o + 1] as int) * 0x1_0000 + (s[o + 2] as int) * 0x100 + s[o + 3] as int
  }

  function PutBe16(v: nat): (r: seq<byte>)
    requires v < 0x1_0000
    ensures |r| == 2 && Be16(r, 0) == v
  {
    [v / 0x100, v % 0x100]
  }

  function PutBe24(v: nat): (r: seq<byte>)
    requires v < 0x100_0000
    ensures |r| == 3 && Be24(r, 0) == v
  {
    var v1 := v / 0x100;
    [v1 / 0x100, v1 % 0x100, v % 0x100]
  }

  // ---- little-endian fields ----

  function Le16(s: seq<byte>, o: nat): (v: nat)
    requires o + 2 <= |s|
    ensures v < 0x1_0000
  {
    s[o] as int + (s[o + 1] as int) * 0x100
  }

  function Le32(s: seq<byte>, o: nat): (v: nat)
    requires o + 4 <= |s|
    ensures v < WORD
  {
    s[o] as int + (s[o + 1] as int) * 0x100 + (s[o + 2] as int) * 0x1_0000 + (s[o + 3] as int) * 0x100_0000
  }

  function PutLe32(v: nat): (r: seq<byte>)
    requires v < WORD
    ensures |r| == 4 && Le32(r, 0) == v
  {
    var v1 := v / 0x100;
    var v2 := v1 / 0x100;
    [v % 0x100, v1 % 0x100, v2 % 0x100, v2 / 0x100]
  }

  /** Python slicing: as much of s[i..i + n] as there is. */
  function Slice(s: seq<byte>, i: nat, n: nat): seq<byte> {
    if i >= |s| then [] else s[i..Min(i + n, |s|)]
  }

  // ---- cutting concatenations ----

  lemma Associates(a: seq<byte>, b: seq<byte>, c: seq<byte>)
    ensures a + b + c == a + (b + c)
  {
  }

  lemma FrontOf(data: seq<byte>, at: nat, a: seq<byte>, b: seq<byte>)
    requires at <= |data| && data[at..] == a + b
    ensures at + |a| <= |data| && data[at..at + |a|] == a && data[at + |a|..] == b
  {
    assert |data[at..]| == |a| + |b|;
    assert data[at..at + |a|] == data[at..][..|a|];
    assert data[at + |a|..] == data[at..][|a|..];
  }

  /** Copy bytes into a buffer, starting at position at. */
  method Store(buffer: array<byte>, at: nat, bytes: seq<byte>)
    requires at + |bytes| <= buffer.Length
    modifies buffer
    ensures forall k :: at <= k < at + |bytes| ==> buffer[k] == bytes[k - at]
    ensures forall k :: 0 <= k < at || at + |bytes| <= k < buffer.Length ==> buffer[k] == old(buffer[k])
  {
    forall k | 0 <= k < |bytes| {
      buffer[at + k] := bytes[k];
    }
  }
}
