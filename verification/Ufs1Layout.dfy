/**
 Where a native UFS1 volume keeps its inodes: cylinder groups with a rotating
 offset, inode tables, and the block-and-remainder arithmetic of the reader.
 */
module Ufs1Layout {
  const INODE_SIZE := 128

  /** The superblock fields that addressing uses, as signed words. */
  datatype Superblock = Superblock(
    little: bool, iblkno: int, cgoffset: int, cgmask: int,
    bsize: int, fsize: int, frag: int, nindir: int, inopb: int, ipg: int, fpg: int)

  // ---- bits ----

  /** a & b for a non-negative a and any b, in two's complement. */
  function BitAnd(a: nat, b: int): nat {
    if a == 0 then 0 else (a % 2) * (b % 2) + 2 * BitAnd(a / 2, b / 2)
  }

  function BitNot(a: int): int { -a - 1 }

  function Pow2(k: nat): (p: int)
    ensures p > 0
  {
    if k == 0 then 1 else 2 * Pow2(k - 1)
  }

  lemma {:induction false} ModSplit(a: nat, p: nat)
    requires p > 0
    ensures a % (2 * p) == a % 2 + 2 * (a / 2 % p)
  {
    var q, r := a / 2 / p, a / 2 % p;
    assert a / 2 == p * q + r;
    assert a == 2 * p * q + (2 * r + a % 2) by {
      assert 2 * (p * q) == 2 * p * q;
    }
    ModIs(a, 2 * p, q, 2 * r + a % 2);
  }

  lemma ModIs(a: int, n: nat, q: int, r: nat)
    requires n > 0 && r < n && a == n * q + r
    ensures a % n == r && a / n == q
  {
    var d := q - a / n;
    assert a == n * (a / n) + a % n;
    assert n * d == a % n - r by {
      assert n * d == n * q - n * (a / n);
    }
    assert d > 0 ==> n * d >= n;
    assert d < 0 ==> n * d <= 0 - n;
  }

  lemma AndOdd(a: nat, b: int)
    requires b % 2 == 1
    ensures BitAnd(a, b) == a % 2 + 2 * BitAnd(a / 2, b / 2)
  {
    if a == 0 {
      assert BitAnd(a / 2, b / 2) == 0;
    }
  }

  /** Masking with the complement of -2^k keeps the remainder modulo 2^k. */
  lemma {:induction false} MaskIsMod(a: nat, k: nat)
    ensures BitAnd(a, BitNot(-Pow2(k))) == a % Pow2(k)
    decreases k
  {
    hide BitAnd;
    if k == 0 {
      AndZero(a);
    } else {
      var p := Pow2(k - 1);
      var mask := BitNot(-Pow2(k));
      assert mask == 2 * (p - 1) + 1;
      assert mask % 2 == 1 && mask / 2 == p - 1;
      AndOdd(a, mask);
      MaskIsMod(a / 2, k - 1);
      ModSplit(a, p);
    }
  }

  lemma {:induction false} AndZero(a: nat)
    ensures BitAnd(a, 0) == 0
  {
    if a > 0 {
      AndZero(a / 2);
    }
  }

  // ---- cylinder groups and inode tables ----

  /** _cgbase: the first fragment of a cylinder group, with its rotation. */
  function CgBase(sb: Superblock, cg: nat): int {
    sb.fpg * cg + sb.cgoffset * BitAnd(cg, BitNot(sb.cgmask))
  }

  /** The image offset that read_inode computes. */
  function InodeOffset(sb: Superblock, rootOffset: int, ino: nat): int
    requires sb.ipg > 0 && sb.inopb > 0
  {
    var cg := ino / sb.ipg;
    var index := ino % sb.ipg;
    var fragment := CgBase(sb, cg) + sb.iblkno;
    rootOffset + (fragment + index / sb.inopb * sb.frag) * sb.fsize + index % sb.inopb * INODE_SIZE
  }

  /** What makes inode blocks exactly full of inodes and blocks exactly full of fragments. */
  predicate Geometry(sb: Superblock) {
    && sb.ipg > 0 && sb.inopb > 0 && sb.fsize > 0
    && sb.inopb * INODE_SIZE == sb.bsize
    && sb.frag * sb.fsize == sb.bsize
  }

  /** The plausibility test of the superblock scan. */
  predicate Plausible(bsize: int, fsize: int, frag: int) {
    && (bsize == 4096 || bsize == 8192 || bsize == 16384 || bsize == 32768 || bsize == 65536)
    && (fsize == 512 || fsize == 1024 || fsize == 2048 || fsize == 4096 || fsize == 8192)
    && bsize >= fsize && bsize % fsize == 0 && frag == bsize / fsize
  }

  lemma PlausibleGeometry(bsize: int, fsize: int, frag: int)
    requires Plausible(bsize, fsize, frag)
    ensures frag * fsize == bsize && fsize > 0
  {
  }

  /** The image offset of group cg's inode table when the mask is -2^k. */
  function TableBase(sb: Superblock, rootOffset: int, cg: nat, k: nat): int {
    rootOffset + (sb.fpg * cg + sb.cgoffset * (cg % Pow2(k)) + sb.iblkno) * sb.fsize
  }

  lemma BlockAndRemainder(index: nat, inopb: nat, frag: int, fsize: int)
    requires inopb > 0 && inopb * INODE_SIZE == frag * fsize
    ensures index / inopb * frag * fsize + index % inopb * INODE_SIZE == index * INODE_SIZE
  {
    var q, r := index / inopb, index % inopb;
    assert index == inopb * q + r;
    assert q * frag * fsize == q * (frag * fsize) == q * (inopb * INODE_SIZE);
    assert q * (inopb * INODE_SIZE) == inopb * q * INODE_SIZE;
  }

  /** The block-and-remainder formula is the flat index into the group's table. */
  lemma InodeAddress(sb: Superblock, rootOffset: int, ino: nat, k: nat)
    requires Geometry(sb) && sb.cgmask == -Pow2(k)
    ensures InodeOffset(sb, rootOffset, ino) ==
            TableBase(sb, rootOffset, ino / sb.ipg, k) + INODE_SIZE * (ino % sb.ipg)
  {
    var cg, index := ino / sb.ipg, ino % sb.ipg;
    MaskIsMod(cg, k);
    BlockAndRemainder(index, sb.inopb, sb.frag, sb.fsize);
    var fragment := CgBase(sb, cg) + sb.iblkno;
    var block := index / sb.inopb * sb.frag;
    assert (fragment + block) * sb.fsize == fragment * sb.fsize + block * sb.fsize;
  }

  /** Every rotated table lies inside its own group. */
  ghost predicate TablesFit(sb: Superblock, k: nat) {
    forall r: nat :: r < Pow2(k) ==> TableFits(sb, r)
  }

  predicate TableFits(sb: Superblock, r: nat) {
    var first := sb.cgoffset * r + sb.iblkno;
    0 <= first && first * sb.fsize + INODE_SIZE * sb.ipg <= sb.fpg * sb.fsize
  }

  lemma TableInsideGroup(sb: Superblock, rootOffset: int, cg: nat, k: nat)
    requires Geometry(sb) && TablesFit(sb, k)
    ensures var start := rootOffset + sb.fpg * sb.fsize * cg;
            var base := TableBase(sb, rootOffset, cg, k);
            start <= base && base + INODE_SIZE * sb.ipg <= start + sb.fpg * sb.fsize
  {
    var r := cg % Pow2(k);
    assert TableFits(sb, r);
    var first := sb.cgoffset * r + sb.iblkno;
    assert first * sb.fsize >= 0;
    assert (sb.fpg * cg + first) * sb.fsize == sb.fpg * cg * sb.fsize + first * sb.fsize;
    assert sb.fpg * cg * sb.fsize == sb.fpg * sb.fsize * cg;
  }

  /** Distinct inode numbers occupy disjoint bytes of the image. */
  lemma InodesDisjoint(sb: Superblock, rootOffset: int, k: nat, i: nat, j: nat)
    requires Geometry(sb) && sb.cgmask == -Pow2(k) && TablesFit(sb, k) && i != j
    ensures var a, b := InodeOffset(sb, rootOffset, i), InodeOffset(sb, rootOffset, j);
            a + INODE_SIZE <= b || b + INODE_SIZE <= a
  {
    hide InodeOffset, TableBase, Pow2;
    InodeAddress(sb, rootOffset, i, k);
    InodeAddress(sb, rootOffset, j, k);
    var g, h := i / sb.ipg, j / sb.ipg;
    assert i == sb.ipg * g + i % sb.ipg && j == sb.ipg * h + j % sb.ipg;
    if g != h {
      TableInsideGroup(sb, rootOffset, g, k);
      TableInsideGroup(sb, rootOffset, h, k);
      var size := sb.fpg * sb.fsize;
      assert size >= 0;
      if g < h {
        GroupsInOrder(size, g, h);
      } else {
        GroupsInOrder(size, h, g);
      }
    }
  }

  lemma {:induction false} GroupsInOrder(size: int, g: nat, h: nat)
    requires size >= 0 && g < h
    ensures size * g + size <= size * h
    decreases h
  {
    assert size * h == size * (h - 1) + size;
    if g < h - 1 {
      GroupsInOrder(size, g, h - 1);
    }
  }
}
