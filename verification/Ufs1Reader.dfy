/**
 Reading inodes and file data from a native UFS1 volume: direct blocks, the
 single indirect block, holes, and symlinks kept inside the inode.
 */
module Ufs1Reader {
  import opened Bytes
  import opened Ufs1Layout

  const ROOT_INO := 2
  const NDADDR := 12
  const NIADDR := 3

  /** An image, the offset of the volume in it, and the superblock fields. */
  datatype Volume = Volume(image: seq<byte>, rootOffset: int, sb: Superblock)
  {
    /** What the reader divides by is positive. */
    predicate Valid() { sb.ipg > 0 && sb.inopb > 0 && sb.bsize > 0 }
  }

  datatype Kind = DirectoryKind | FileKind | SymlinkKind | OtherKind

  datatype Inode = Inode(ino: nat, mode: nat, size: nat, direct: seq<nat>, indirect: seq<nat>, blocks: nat)
  {
    predicate Shaped() { |direct| == NDADDR && |indirect| == NIADDR }

    function Kind(): Kind {
      var format := mode / 0x1000 % 0x10;
      if format == 4 then DirectoryKind else if format == 8 then FileKind
      else if format == 10 then SymlinkKind else OtherKind
    }
  }

  function U16(s: seq<byte>, o: nat, little: bool): nat
    requires o + 2 <= |s|
  {
    if little then Le16(s, o) else Be16(s, o)
  }

  function U32(s: seq<byte>, o: nat, little: bool): (v: nat)
    requires o + 4 <= |s|
    ensures v < WORD
  {
    if little then Le32(s, o) else Be32(s, o)
  }

  function U64(s: seq<byte>, o: nat, little: bool): nat
    requires o + 8 <= |s|
  {
    if little then U32(s, o, true) + WORD * U32(s, o + 4, true) else WORD * U32(s, o, false) + U32(s, o + 4, false)
  }

  function U32s(s: seq<byte>, o: nat, n: nat, little: bool): (r: seq<nat>)
    requires o + 4 * n <= |s|
    ensures |r| == n && forall i :: 0 <= i < n ==> r[i] == U32(s, o + 4 * i, little)
  {
    seq(n, i requires 0 <= i < n => U32(s, o + 4 * i, little))
  }

  /** _read_at: exactly size bytes, or failure. */
  function ReadAt(image: seq<byte>, offset: int, size: int): (r: Option<seq<byte>>)
    ensures r.Some? ==> |r.value| == size
  {
    if offset < 0 || size < 0 then None
    else if size == 0 then Some([])
    else if offset + size > |image| then None
    else Some(image[offset..offset + size])
  }

  function DecodeInode(data: seq<byte>, ino: nat, little: bool): (i: Inode)
    requires |data| == INODE_SIZE
    ensures i.Shaped() && i.ino == ino
  {
    Inode(ino, U16(data, 0, little), U64(data, 8, little),
          U32s(data, 0x28, NDADDR, little), U32s(data, 0x58, NIADDR, little), U32(data, 0x68, little))
  }

  function ReadInode(v: Volume, ino: nat): (r: Option<Inode>)
    requires v.Valid()
    ensures r.Some? ==> r.value.Shaped() && r.value.ino == ino
  {
    if ino < ROOT_INO then None
    else match ReadAt(v.image, InodeOffset(v.sb, v.rootOffset, ino), INODE_SIZE)
      case None => None
      case Some(data) =>
        var inode := DecodeInode(data, ino, v.sb.little);
        if inode.mode == 0 then None else Some(inode)
  }

  // ---- file data ----

  function FsOffset(v: Volume, fragment: nat): int { v.rootOffset + fragment * v.sb.fsize }

  function BlocksNeeded(size: nat, bsize: int): nat
    requires bsize > 0
  {
    (size + bsize - 1) / bsize
  }

  /** The entries of the single indirect block, when it can be read. */
  function IndirectEntries(v: Volume, inode: Inode): (r: Option<seq<nat>>)
    requires v.Valid() && inode.Shaped()
    ensures r.Some? ==> |r.value| == Max(v.sb.nindir, 0)
  {
    match ReadAt(v.image, FsOffset(v, inode.indirect[0]), v.sb.bsize)
    case None => None
    case Some(data) =>
      var n := Max(v.sb.nindir, 0);
      if 4 * n > |data| then None else Some(U32s(data, 0, n, v.sb.little))
  }

  /** The block addresses of a file, or failure when it needs blocks the reader does not support. */
  function BlockAddresses(v: Volume, inode: Inode): (r: Option<seq<nat>>)
    requires v.Valid() && inode.Shaped()
    ensures r.Some? ==> |r.value| == BlocksNeeded(inode.size, v.sb.bsize)
  {
    var needed := BlocksNeeded(inode.size, v.sb.bsize);
    if needed <= NDADDR then Some(inode.direct[..needed])
    else if inode.indirect[0] == 0 then None
    else match IndirectEntries(v, inode)
      case None => None
      case Some(entries) =>
        if needed - NDADDR > |entries| then None else Some(inode.direct + entries[..needed - NDADDR])
  }

  function Block(v: Volume, address: nat): (r: Option<seq<byte>>)
    requires v.Valid()
    ensures r.Some? ==> |r.value| == v.sb.bsize
  {
    if address == 0 then Some(Zeros(v.sb.bsize)) else ReadAt(v.image, FsOffset(v, address), v.sb.bsize)
  }

  function Blocks(v: Volume, addresses: seq<nat>): (r: Option<seq<byte>>)
    requires v.Valid()
  {
    if |addresses| == 0 then Some([])
    else match Blocks(v, addresses[..|addresses| - 1])
      case None => None
      case Some(data) =>
        match Block(v, addresses[|addresses| - 1])
        case None => None
        case Some(block) => Some(data + block)
  }

  /** The block pointers of an inode as bytes again: a short symlink's target. */
  function InlineBytes(inode: Inode, little: bool): (r: seq<byte>)
    requires inode.Shaped()
  {
    Pack(inode.direct + inode.indirect, little)
  }

  function Pack(words: seq<nat>, little: bool): (r: seq<byte>)
    ensures |r| == 4 * |words|
  {
    if |words| == 0 then []
    else Pack(words[..|words| - 1], little) + PackWord(words[|words| - 1] % WORD, little)
  }

  function PackWord(w: nat, little: bool): (r: seq<byte>)
    requires w < WORD
    ensures |r| == 4 && U32(r, 0, little) == w
  {
    var b := PutLe32(w);
    assert Le32(b, 0) == w;
    if little then b else [b[3], b[2], b[1], b[0]]
  }

  function FileData(v: Volume, inode: Inode): Option<seq<byte>>
    requires v.Valid() && inode.Shaped()
  {
    if inode.Kind() == OtherKind then None
    else if inode.Kind() == SymlinkKind && inode.blocks == 0 then
      var inline := InlineBytes(inode, v.sb.little);
      Some(inline[..Min(inode.size, |inline|)])
    else match BlockAddresses(v, inode)
      case None => None
      case Some(addresses) =>
        match Blocks(v, addresses)
        case None => None
        case Some(data) => Some(data[..Min(inode.size, |data|)])
  }

  /** read_file: gather the addresses, then one chunk per block. */
  method ReadFile(v: Volume, inode: Inode) returns (r: Option<seq<byte>>)
    requires v.Valid() && inode.Shaped()
    ensures r == FileData(v, inode)
  {
    if inode.Kind() == OtherKind {
      return None;
    }
    if inode.Kind() == SymlinkKind && inode.blocks == 0 {
      var inline := InlineBytes(inode, v.sb.little);
      return Some(inline[..Min(inode.size, |inline|)]);
    }
    var addresses := GatherAddresses(v, inode);
    if addresses.None? {
      return None;
    }
    var data := GatherBlocks(v, addresses.value);
    if data.None? {
      return None;
    }
    return Some(data.value[..Min(inode.size, |data.value|)]);
  }

  method GatherAddresses(v: Volume, inode: Inode) returns (r: Option<seq<nat>>)
    requires v.Valid() && inode.Shaped()
    ensures r == BlockAddresses(v, inode)
  {
    hide IndirectEntries, BlocksNeeded;
    var needed := BlocksNeeded(inode.size, v.sb.bsize);
    var addresses := inode.direct[..Min(needed, NDADDR)];
    var remaining := needed - |addresses|;
    if remaining > 0 && inode.indirect[0] != 0 {
      assert addresses == inode.direct;
      var entries := IndirectEntries(v, inode);
      if entries.None? {
        return None;
      }
      addresses := addresses + entries.value[..Min(remaining, |entries.value|)];
      remaining := needed - |addresses|;
    }
    if remaining > 0 {
      return None;
    }
    return Some(addresses);
  }

  method GatherBlocks(v: Volume, addresses: seq<nat>) returns (r: Option<seq<byte>>)
    requires v.Valid()
    ensures r == Blocks(v, addresses)
  {
    hide Block;
    var data: seq<byte> := [];
    var i := 0;
    while i < |addresses|
      invariant i <= |addresses| && Blocks(v, addresses[..i]) == Some(data)
    {
      assert addresses[..i + 1][..i] == addresses[..i];
      var block := Block(v, addresses[i]);
      if block.None? {
        BlocksFail(v, addresses, i);
        return None;
      }
      data := data + block.value;
      i := i + 1;
    }
    assert addresses[..i] == addresses;
    return Some(data);
  }

  lemma {:induction false} BlocksFail(v: Volume, addresses: seq<nat>, i: nat)
    requires v.Valid() && i < |addresses| && Block(v, addresses[i]).None?
    ensures Blocks(v, addresses).None?
    decreases |addresses|
  {
    if i < |addresses| - 1 {
      BlocksFail(v, addresses[..|addresses| - 1], i);
    }
  }

  // ---- what the data means ----

  predicate HasBlock(v: Volume, inode: Inode, b: nat)
    requires v.Valid() && inode.Shaped()
  {
    b < NDADDR || (IndirectEntries(v, inode).Some? && b - NDADDR < |IndirectEntries(v, inode).value|)
  }

  /** The address of logical block b of a file. */
  function LogicalBlock(v: Volume, inode: Inode, b: nat): nat
    requires v.Valid() && inode.Shaped() && HasBlock(v, inode, b)
  {
    if b < NDADDR then inode.direct[b] else IndirectEntries(v, inode).value[b - NDADDR]
  }

  /** Every block of the file is addressable, and every block that is not a hole lies in the image. */
  predicate Readable(v: Volume, inode: Inode)
    requires v.Valid() && inode.Shaped()
  {
    var needed := BlocksNeeded(inode.size, v.sb.bsize);
    && (needed > NDADDR ==>
          && inode.indirect[0] != 0 && IndirectEntries(v, inode).Some?
          && needed - NDADDR <= |IndirectEntries(v, inode).value|)
    && forall b :: 0 <= b < needed ==> Block(v, LogicalBlock(v, inode, b)).Some?
  }

  lemma MulNext(n: nat, b: int)
    ensures (n + 1) * b == n * b + b
  {
  }

  lemma {:induction false} BlocksMeaning(v: Volume, addresses: seq<nat>)
    requires v.Valid()
    ensures Blocks(v, addresses).Some? <==> forall b :: 0 <= b < |addresses| ==> Block(v, addresses[b]).Some?
    ensures Blocks(v, addresses).Some? ==> |Blocks(v, addresses).value| == |addresses| * v.sb.bsize
    decreases |addresses|
  {
    hide Block;
    if |addresses| > 0 {
      var front := addresses[..|addresses| - 1];
      BlocksMeaning(v, front);
      assert forall b :: 0 <= b < |front| ==> front[b] == addresses[b];
      MulNext(|front|, v.sb.bsize);
    }
  }

  /** Block b of the data is the block at address b. */
  lemma {:induction false} BlocksAt(v: Volume, addresses: seq<nat>, b: nat)
    requires v.Valid() && b < |addresses| && Blocks(v, addresses).Some?
    ensures Block(v, addresses[b]).Some?
    ensures (b + 1) * v.sb.bsize <= |Blocks(v, addresses).value| && 0 <= b * v.sb.bsize
    ensures Blocks(v, addresses).value[b * v.sb.bsize..(b + 1) * v.sb.bsize] == Block(v, addresses[b]).value
    decreases |addresses|
  {
    var n := |addresses| - 1;
    var front := addresses[..n];
    BlocksMeaning(v, front);
    BlocksMeaning(v, addresses);
    assert (b + 1) * v.sb.bsize == b * v.sb.bsize + v.sb.bsize;
    if b < n {
      BlocksAt(v, front, b);
    }
  }

  lemma CeilBounds(size: nat, bsize: int)
    requires bsize > 0
    ensures var n := BlocksNeeded(size, bsize);
            size <= n * bsize && (n > 0 ==> (n - 1) * bsize < size)
  {
    var n := BlocksNeeded(size, bsize);
    var m := size + bsize - 1;
    assert m == bsize * (m / bsize) + m % bsize;
    assert n * bsize == bsize * (m / bsize);
    assert (n - 1) * bsize == n * bsize - bsize;
  }

  /** Position k of a file lies in block k / bsize, one of the needed blocks. */
  lemma PositionInBlock(size: nat, bsize: int, k: nat)
    requires bsize > 0 && k < size
    ensures var b := k / bsize;
            b < BlocksNeeded(size, bsize) && k == b * bsize + k % bsize && k < (b + 1) * bsize
  {
    var b, n := k / bsize, BlocksNeeded(size, bsize);
    CeilBounds(size, bsize);
    assert k == bsize * b + k % bsize;
    assert bsize * b == b * bsize && (b + 1) * bsize == b * bsize + bsize;
    if b >= n {
      MulMonotone(n, b, bsize);
    }
  }

  lemma MulMonotone(a: int, b: int, c: int)
    requires a <= b && c >= 0
    ensures a * c <= b * c
  {
    assert b * c == a * c + (b - a) * c;
  }

  lemma AddressesAreLogical(v: Volume, inode: Inode)
    requires v.Valid() && inode.Shaped() && BlockAddresses(v, inode).Some?
    ensures var a := BlockAddresses(v, inode).value;
            && (|a| > NDADDR ==> IndirectEntries(v, inode).Some? && |a| - NDADDR <= |IndirectEntries(v, inode).value|)
            && forall b :: 0 <= b < |a| ==> a[b] == LogicalBlock(v, inode, b)
  {
  }

  /** For block-mapped files, read_file succeeds exactly when the file is readable. */
  lemma ReadableExactly(v: Volume, inode: Inode)
    requires v.Valid() && inode.Shaped() && inode.Kind() != OtherKind
    requires !(inode.Kind() == SymlinkKind && inode.blocks == 0)
    ensures FileData(v, inode).Some? <==> Readable(v, inode)
  {
    hide Block, Blocks, IndirectEntries, BlocksNeeded;
    if BlockAddresses(v, inode).Some? {
      var a := BlockAddresses(v, inode).value;
      AddressesAreLogical(v, inode);
      BlocksMeaning(v, a);
      assert forall b :: 0 <= b < |a| ==> a[b] == LogicalBlock(v, inode, b);
    }
  }

  /** The byte map of a file: byte k of it, through its logical block. */
  predicate ByteIs(v: Volume, inode: Inode, k: nat, value: byte)
    requires v.Valid() && inode.Shaped()
  {
    var b := k / v.sb.bsize;
    && HasBlock(v, inode, b)
    && Block(v, LogicalBlock(v, inode, b)).Some?
    && value == Block(v, LogicalBlock(v, inode, b)).value[k % v.sb.bsize]
  }

  /** Then it is exactly size bytes long. */
  lemma FileLength(v: Volume, inode: Inode)
    requires v.Valid() && inode.Shaped() && FileData(v, inode).Some?
    requires !(inode.Kind() == SymlinkKind && inode.blocks == 0)
    ensures |FileData(v, inode).value| == inode.size
  {
    hide Block, Blocks, IndirectEntries, BlocksNeeded, BlockAddresses;
    BlocksSize(v, inode, BlockAddresses(v, inode).value);
  }

  /** A short symlink's target is as much of its size as the block pointers hold. */
  lemma InlineLength(v: Volume, inode: Inode)
    requires v.Valid() && inode.Shaped() && inode.Kind() == SymlinkKind && inode.blocks == 0
    ensures FileData(v, inode).Some? && |FileData(v, inode).value| == Min(inode.size, 60)
  {
    assert |InlineBytes(inode, v.sb.little)| == 60;
  }

  /** And byte k is byte k % bsize of logical block k / bsize. */
  lemma FileByte(v: Volume, inode: Inode, k: nat)
    requires v.Valid() && inode.Shaped() && FileData(v, inode).Some?
    requires !(inode.Kind() == SymlinkKind && inode.blocks == 0)
    requires k < inode.size
    ensures |FileData(v, inode).value| == inode.size
    ensures ByteIs(v, inode, k, FileData(v, inode).value[k])
  {
    hide Block, Blocks, IndirectEntries, BlocksNeeded, BlockAddresses;
    var a := BlockAddresses(v, inode).value;
    AddressesAreLogical(v, inode);
    BlocksSize(v, inode, a);
    BlocksByte(v, inode.size, a, k);
  }

  lemma BlocksSize(v: Volume, inode: Inode, a: seq<nat>)
    requires v.Valid() && |a| == BlocksNeeded(inode.size, v.sb.bsize) && Blocks(v, a).Some?
    ensures inode.size <= |Blocks(v, a).value|
  {
    hide Block, Blocks, BlocksNeeded;
    BlocksMeaning(v, a);
    CeilBounds(inode.size, v.sb.bsize);
  }

  lemma BlocksByte(v: Volume, size: nat, a: seq<nat>, k: nat)
    requires v.Valid() && |a| == BlocksNeeded(size, v.sb.bsize) && Blocks(v, a).Some? && k < size
    ensures var b := k / v.sb.bsize;
            && b < |a| && k < |Blocks(v, a).value| && Block(v, a[b]).Some?
            && Blocks(v, a).value[k] == Block(v, a[b]).value[k % v.sb.bsize]
  {
    hide Block, Blocks, BlocksNeeded;
    var bsize := v.sb.bsize;
    PositionInBlock(size, bsize, k);
    var b := k / bsize;
    BlocksAt(v, a, b);
    var data := Blocks(v, a).value;
    var i, j := b * bsize, (b + 1) * bsize;
    assert k == i + k % bsize;
    assert data[i..j][k % bsize] == data[i + k % bsize];
  }

  /** A hole reads as zeros; any other block is the image at its fragment address. */
  lemma BlockByte(v: Volume, address: nat, j: nat)
    requires v.Valid() && j < v.sb.bsize && Block(v, address).Some?
    ensures address == 0 ==> Block(v, address).value[j] == 0
    ensures address != 0 ==>
              && 0 <= FsOffset(v, address) && FsOffset(v, address) + j < |v.image|
              && Block(v, address).value[j] == v.image[FsOffset(v, address) + j]
  {
  }
}
