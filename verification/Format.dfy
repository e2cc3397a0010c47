/** The layout and the free counts of a freshly formatted volume (format.go). */
module Format {
  import opened Bytes
  import opened Bitmap
  import opened Descriptor
  import opened FreeCounts

  const BLOCK: nat := 4096
  const BPG: nat := 32768
  const IPG: nat := 256
  const DESC: nat := 32
  const RESERVED: nat := 10
  const TABLE: nat := 16
  const MIN_BLOCKS: nat := 21

  // ---------------------------------------------------------------- layout arithmetic

  /** The number of block groups, computed in 32-bit arithmetic. */
  function Groups(total: nat): nat {
    ((total + BPG - 1) % U32) / BPG
  }

  /** Blocks of the group descriptor table. */
  function GdtBlocks(n: nat): nat {
    (n * DESC + BLOCK - 1) / BLOCK
  }

  /** Multiplies p by base until it reaches g. */
  function Reach(base: nat, p: nat, g: nat): nat
    requires base >= 2 && p >= 1
    decreases if p < g then g - p else 0
  {
    if p < g then Grows(p, base); Reach(base, p * base, g) else p
  }

  lemma Grows(p: nat, base: nat)
    requires base >= 2 && p >= 1
    ensures p < p * base
  {
    MulMono(2, base, p);
  }

  function Pow(b: nat, k: nat): (p: nat)
    requires b >= 2
    ensures p >= 1
  {
    if k == 0 then 1 else Pow(b, k - 1) * b
  }

  ghost predicate PowerOf(b: nat, g: nat)
    requires b >= 2
  {
    exists k :: k >= 1 && Pow(b, k) == g
  }

  lemma {:induction false} PowMono(b: nat, j: nat, k: nat)
    requires b >= 2 && j < k
    ensures Pow(b, j) < Pow(b, k)
    decreases k
  {
    Grows(Pow(b, k - 1), b);
    if j < k - 1 { PowMono(b, j, k - 1); }
  }

  /** From one power, the loop arrives at g exactly if g is a power from there on. */
  lemma {:induction false} ReachPowers(b: nat, j: nat, g: nat)
    requires b >= 2 && j >= 1
    requires forall k :: 1 <= k < j ==> Pow(b, k) != g
    ensures Reach(b, Pow(b, j), g) == g <==> PowerOf(b, g)
    decreases if Pow(b, j) < g then g - Pow(b, j) else 0
  {
    if Pow(b, j) < g {
      Grows(Pow(b, j), b);
      assert Pow(b, j + 1) == Pow(b, j) * b;
      ReachPowers(b, j + 1, g);
    } else if Pow(b, j) > g && PowerOf(b, g) {
      var k :| k >= 1 && Pow(b, k) == g;
      if k > j { PowMono(b, j, k); }
    }
  }

  lemma {:induction false} PowOdd(b: nat, k: nat)
    requires b >= 2 && b % 2 == 1
    ensures Pow(b, k) % 2 == 1
    decreases k
  {
    if k > 0 {
      PowOdd(b, k - 1);
      OddProduct(Pow(b, k - 1), b);
    }
  }

  lemma OddProduct(x: nat, y: nat)
    requires x % 2 == 1 && y % 2 == 1
    ensures (x * y) % 2 == 1
  {
    var i, j := x / 2, y / 2;
    assert x * y == (2 * i + 1) * (2 * j + 1) == 2 * (2 * i * j + i + j) + 1;
  }

  /** Groups 0 and 1 and the powers of 3, 5 and 7. */
  ghost predicate SparseBackup(g: nat) {
    g <= 1 || PowerOf(3, g) || PowerOf(5, g) || PowerOf(7, g)
  }

  /** The even groups the source turns away first are no powers anyway. */
  lemma SparseOdd(g: nat)
    requires SparseBackup(g) && g > 1
    ensures g % 2 == 1
  {
    if PowerOf(3, g) {
      var k :| k >= 1 && Pow(3, k) == g;
      PowOdd(3, k);
    } else if PowerOf(5, g) {
      var k :| k >= 1 && Pow(5, k) == g;
      PowOdd(5, k);
    } else {
      var k :| k >= 1 && Pow(7, k) == g;
      PowOdd(7, k);
    }
  }

  method IsPower(base: nat, g: nat) returns (r: bool)
    requires base >= 2
    ensures r <==> PowerOf(base, g)
  {
    assert Pow(base, 1) == Pow(base, 0) * base == base;
    ReachPowers(base, 1, g);
    var p := base;
    while p < g
      invariant p >= 1 && Reach(base, base, g) == Reach(base, p, g)
      decreases if p < g then g - p else 0
    {
      Grows(p, base);
      p := p * base;
    }
    return p == g;
  }

  /** `groupIsSparseBackup`: groups 0 and 1 and the powers of 3, 5 and 7. */
  method GroupIsSparseBackup(g: nat) returns (r: bool)
    ensures r <==> SparseBackup(g)
  {
    if g <= 1 {
      return true;
    }
    if g % 2 == 0 {
      if SparseBackup(g) { SparseOdd(g); }
      return false;
    }
    r := IsPower(3, g);
    if !r { r := IsPower(5, g); }
    if !r { r := IsPower(7, g); }
  }

  ghost function SuperBlocks(g: nat, n: nat): nat {
    if SparseBackup(g) then 1 + GdtBlocks(n) else 0
  }

  /** Leading blocks of group g taken by metadata, and in group 0 the root directory. */
  ghost function Meta(g: nat, n: nat): nat {
    SuperBlocks(g, n) + 2 + TABLE + if g == 0 then 1 else 0
  }

  function GroupBlocks(g: nat, n: nat, total: nat): nat
    requires g < n && (n - 1) * BPG <= total
  {
    if g == n - 1 then total - g * BPG else BPG
  }

  /** Free blocks group g starts with. */
  ghost function FreeIn(g: nat, n: nat, total: nat): nat
    requires g < n && (n - 1) * BPG <= total
  {
    Max(0, GroupBlocks(g, n, total) - Meta(g, n))
  }

  /** Below the rounding limit the groups cover the volume. */
  lemma GroupsCover(total: nat)
    requires 0 < total && total + BPG - 1 < U32
    ensures var n := Groups(total);
            0 < n <= 131072 && (n - 1) * BPG < total <= n * BPG
  {
    var n := Groups(total);
    assert (total + BPG - 1) % U32 == total + BPG - 1;
  }

  /** At the limit the sum wraps and no group is laid out at all. */
  lemma GroupsWrap(total: nat)
    requires U32 <= total + BPG - 1 && total < U32
    ensures Groups(total) == 0
  {
    assert (total + BPG - 1) % U32 == total + BPG - 1 - U32;
  }

  /** The number of groups a reader derives from the superblock, rounded in 64 bits. */
  function ReaderGroups(blocks: nat, bpg: nat): nat
    requires bpg > 0
  {
    (blocks + bpg - 1) % U64 / bpg % U32
  }

  /** Format and reader agree on the number of groups exactly below the limit; beyond it
      format has laid out none of the 131072 groups the reader expects. */
  lemma CountsAgree(total: nat)
    requires 0 < total < U32
    ensures Groups(total) == ReaderGroups(total, BPG) <==> total + BPG - 1 < U32
    ensures U32 <= total + BPG - 1 ==> Groups(total) == 0 && ReaderGroups(total, BPG) == 131072
  {
    assert (total + BPG - 1) % U64 == total + BPG - 1;
    assert (total + BPG - 1) / BPG < U32;
    if U32 <= total + BPG - 1 {
      GroupsWrap(total);
    } else {
      assert (total + BPG - 1) % U32 == total + BPG - 1;
    }
  }

  lemma MetaBound(g: nat, n: nat)
    requires n <= 131072
    ensures 0 < Meta(g, n) <= 1044
  {
    hide SparseBackup;
    assert n * DESC + BLOCK - 1 <= 131072 * 32 + 4095;
    assert GdtBlocks(n) <= 1024;
  }

  /** Block b is one of those that format writes group g's metadata to: the backup copies,
      then the block bitmap, the inode bitmap and the inode table. */
  ghost predicate MetaBlock(g: nat, n: nat, b: nat) {
    g * BPG <= b < g * BPG + Meta(g, n)
  }

  /** All of them are blocks of the volume. */
  ghost predicate MetaInside(g: nat, n: nat, total: nat) {
    forall b: nat :: MetaBlock(g, n, b) ==> b < total
  }

  lemma LastMeta(g: nat, n: nat, total: nat)
    requires n <= 131072
    ensures MetaInside(g, n, total) <==> g * BPG + Meta(g, n) <= total
  {
    hide Meta;
    MetaBound(g, n);
    assert MetaBlock(g, n, g * BPG + Meta(g, n) - 1);
  }

  /** Every group but the last holds its metadata; so all metadata lies inside the volume
      exactly if the blocks left for the last group are enough for its own. */
  lemma MetaFits(total: nat)
    requires 0 < total && total + BPG - 1 < U32
    ensures var n := Groups(total);
            && (forall g :: 0 <= g < n - 1 ==> MetaInside(g, n, total) && Meta(g, n) <= GroupBlocks(g, n, total))
            && ((forall g :: 0 <= g < n ==> MetaInside(g, n, total)) <==> Meta(n - 1, n) <= total - (n - 1) * BPG)
  {
    hide Meta, Groups, MetaInside;
    var n := Groups(total);
    GroupsCover(total);
    forall g | 0 <= g < n ensures MetaInside(g, n, total) <==> g * BPG + Meta(g, n) <= total { LastMeta(g, n, total); }
    forall g | 0 <= g < n - 1 ensures MetaInside(g, n, total) && Meta(g, n) <= GroupBlocks(g, n, total) {
      MetaBound(g, n);
    }
    if MetaInside(n - 1, n, total) {
      forall g | 0 <= g < n ensures MetaInside(g, n, total) { }
    }
  }

  /** One block past a whole group: the second group of a volume of 32769 blocks has
      one block and 20 blocks of metadata, so its bitmaps lie behind the volume. */
  lemma LastGroupTooShort()
    ensures Groups(32769) == 2 && GroupBlocks(1, 2, 32769) == 1 && Meta(1, 2) == 20 && !MetaInside(1, 2, 32769)
  {
    assert (32769 + BPG - 1) % U32 == 65536;
    assert GdtBlocks(2) == 1;
    LastMeta(1, 2, 32769);
  }

  // ---------------------------------------------------------------- counting

  /** Exactly the bits in [lo, hi) are clear. */
  lemma {:induction false} IntervalCount(bits: seq<bool>, lo: nat, hi: nat)
    requires forall i :: 0 <= i < |bits| ==> bits[i] == !(lo <= i < hi)
    ensures |FreeBits(bits)| == Max(0, Min(hi, |bits|) - lo)
    decreases |bits|
  {
    hide FreeBits;
    if bits == [] {
      NoneFree(bits);
    } else {
      IntervalCount(bits[..|bits| - 1], lo, hi);
      FreeLast(bits);
    }
  }

  lemma IntervalFree(m: seq<bv8>, max: nat, lo: nat, hi: nat)
    requires max <= 8 * |m| && forall i :: 0 <= i < max ==> Bit(m, i) == !(lo <= i < hi)
    ensures Free(m, max) == Max(0, Min(hi, max) - lo)
  {
    hide Bit, FreeBits;
    IntervalCount(Bits(m, max), lo, hi);
  }

  /** Sets bits [0, lo) and [hi, 8 * BLOCK) of a zeroed bitmap block. */
  method MarkOutside(lo: nat, hi: nat) returns (m: array<bv8>)
    requires lo <= 8 * BLOCK
    ensures fresh(m) && m.Length == BLOCK
    ensures forall i :: 0 <= i < 8 * BLOCK ==> Bit(m[..], i) == !(lo <= i < hi)
  {
    hide Bit;
    m := new bv8[BLOCK](_ => 0);
    forall i | 0 <= i < 8 * BLOCK ensures !Bit(m[..], i) { ZeroBit(m[..], i); }
    var i := 0;
    while i < lo
      invariant 0 <= i <= lo
      invariant forall j :: 0 <= j < 8 * BLOCK ==> Bit(m[..], j) == (j < i)
    {
      SetBit(m, i);
      i := i + 1;
    }
    i := hi;
    while i < 8 * BLOCK
      invariant hi <= i && (i <= 8 * BLOCK || i == hi)
      invariant forall j :: 0 <= j < 8 * BLOCK ==> Bit(m[..], j) == (j < lo || hi <= j < i)
    {
      SetBit(m, i);
      i := i + 1;
    }
  }

  lemma ZeroBit(m: seq<bv8>, i: nat)
    requires i < 8 * |m| && m[i / 8] == 0
    ensures !Bit(m, i)
  {
  }

  /** A zeroed descriptor with its counters set. */
  method BuildDesc(blocks: nat, inodes: nat, dirs: nat) returns (d: seq<byte>)
    requires blocks < U16 && inodes < U16 && dirs < U16
    ensures |d| == DESC && Decode(d, false) == Counts(blocks, inodes, dirs)
  {
    hide Decode, Encoded;
    var raw := new byte[DESC](_ => 0);
    var c := Counts(blocks, inodes, dirs);
    EncodeRoundTrip(raw[..], false, c);
    Encode(raw, false, c);
    d := raw[..];
  }

  // ---------------------------------------------------------------- formatting

  /** Sum of the free blocks of the first k groups. */
  ghost function FreeUpTo(k: nat, n: nat, total: nat): nat
    requires k <= n && (n > 0 ==> (n - 1) * BPG <= total)
  {
    if k == 0 then 0 else FreeUpTo(k - 1, n, total) + FreeIn(k - 1, n, total)
  }

  function FreeInodesIn(g: nat): nat {
    if g == 0 then IPG - RESERVED else IPG
  }

  /** The groups laid out so far. */
  ghost predicate LaidOut(bmaps: seq<seq<bv8>>, imaps: seq<seq<bv8>>, descs: seq<seq<byte>>, g: nat, n: nat, total: nat)
    requires g <= n && (n > 0 ==> (n - 1) * BPG <= total)
  {
    && |bmaps| == |imaps| == |descs| == g
    && forall h :: 0 <= h < g ==> GroupLaidOut(bmaps[h], imaps[h], descs[h], h, n, total)
  }

  ghost predicate GroupLaidOut(bm: seq<bv8>, im: seq<bv8>, desc: seq<byte>, h: nat, n: nat, total: nat)
    requires h < n && (n - 1) * BPG <= total
  {
    && |bm| == BLOCK && |im| == BLOCK && |desc| == DESC
    && Free(bm, BPG) == FreeIn(h, n, total) && Free(im, IPG) == FreeInodesIn(h)
    && Decode(desc, false).blocks == FreeIn(h, n, total) && Decode(desc, false).inodes == FreeInodesIn(h)
  }

  /** One group: bitmaps and descriptor. */
  method LayGroup(g: nat, n: nat, total: nat) returns (bm: seq<bv8>, im: seq<bv8>, desc: seq<byte>)
    requires g < n <= 131072 && (n - 1) * BPG <= total <= n * BPG
    ensures GroupLaidOut(bm, im, desc, g, n, total)
  {
    hide Free, Decode, Bit, SparseBackup, GdtBlocks;
    MetaBound(g, n);
    var sparse := GroupIsSparseBackup(g);
    var meta := (if sparse then 1 + GdtBlocks(n) else 0) + 2 + TABLE + (if g == 0 then 1 else 0);
    var groupBlocks := if g == n - 1 then total - g * BPG else BPG;
    var freeBlocks := if groupBlocks >= meta then groupBlocks - meta else 0;
    desc := BuildDesc(freeBlocks, if g == 0 then IPG - RESERVED else IPG, if g == 0 then 1 else 0);
    var a := MarkOutside(meta, groupBlocks);
    IntervalFree(a[..], BPG, meta, groupBlocks);
    var b := MarkOutside(if g == 0 then RESERVED else 0, IPG);
    IntervalFree(b[..], IPG, if g == 0 then RESERVED else 0, IPG);
    bm, im := a[..], b[..];
  }

  lemma {:induction false} LaidOutSums(bmaps: seq<seq<bv8>>, imaps: seq<seq<bv8>>, descs: seq<seq<byte>>, g: nat, n: nat, total: nat)
    requires g <= n && (n > 0 ==> (n - 1) * BPG <= total) && LaidOut(bmaps, imaps, descs, g, n, total)
    ensures forall h :: 0 <= h < g ==> BPG <= 8 * |bmaps[h]| && IPG <= 8 * |imaps[h]|
    ensures Sum(bmaps, BPG) == FreeUpTo(g, n, total)
    ensures Sum(imaps, IPG) == if g == 0 then 0 else IPG * g - RESERVED
    decreases g
  {
    hide Free, Decode, FreeIn;
    if g > 0 {
      assert GroupLaidOut(bmaps[g - 1], imaps[g - 1], descs[g - 1], g - 1, n, total);
      LaidOutSums(bmaps[..g - 1], imaps[..g - 1], descs[..g - 1], g - 1, n, total);
    }
  }

  lemma LaidOutClean(bmaps: seq<seq<bv8>>, imaps: seq<seq<bv8>>, descs: seq<seq<byte>>, n: nat, total: nat)
    requires 0 < n <= 131072 && (n - 1) * BPG <= total && LaidOut(bmaps, imaps, descs, n, n, total)
    ensures var lay := Layout(BPG, IPG, false);
            && Shape(lay, bmaps, imaps, descs)
            && Clean(lay, bmaps, imaps, descs, FreeUpTo(n, n, total), IPG * n - RESERVED)
  {
    hide Free, Decode, FreeIn, FreeUpTo, Sum;
    var lay := Layout(BPG, IPG, false);
    forall h | 0 <= h < n ensures GroupShape(lay, bmaps[h], imaps[h], descs[h]) && GroupClean(lay, bmaps[h], imaps[h], descs[h]) {
      assert GroupLaidOut(bmaps[h], imaps[h], descs[h], h, n, total);
    }
    LaidOutSums(bmaps, imaps, descs, n, n, total);
  }

  /** `Format`: refuses sizes that are unaligned, too small or too large; below the
      32-bit rounding limit what it writes is consistent. */
  method FormatVolume(size: nat) returns (v: Volume?)
    ensures v != null <==> size % BLOCK == 0 && size >= MIN_BLOCKS * BLOCK && size / BLOCK < U32
    ensures v != null ==> fresh(v)
    ensures v != null && size / BLOCK + BPG - 1 < U32 ==> v.Valid() && v.Consistent() && |v.bmaps| == Groups(size / BLOCK)
    ensures v != null && size / BLOCK + BPG - 1 >= U32 ==> v.bmaps == []
  {
    hide Shape, Clean, FreeUpTo, FreeIn, LaidOut, GroupLaidOut, Groups;
    if size % BLOCK != 0 {
      return null;
    }
    if size < MIN_BLOCKS * BLOCK {
      return null;
    }
    var total := size / BLOCK;
    if total > U32 - 1 {
      return null;
    }
    var n := Groups(total);
    ghost var below := total + BPG - 1 < U32;
    if below { GroupsCover(total); } else { GroupsWrap(total); }
    var bmaps: seq<seq<bv8>>, imaps: seq<seq<bv8>>, descs: seq<seq<byte>>, fb: nat, g := [], [], [], 0, 0;
    NoGroups(n, total);
    while g < n
      invariant 0 <= g <= n && (n > 0 ==> (n - 1) * BPG <= total <= n * BPG && n <= 131072)
      invariant LaidOut(bmaps, imaps, descs, g, n, total) && fb == FreeUpTo(g, n, total)
    {
      var bm, im, desc := LayGroup(g, n, total);
      var free := FreeBlocksOf(g, n, total);
      OneGroup(bmaps, imaps, descs, g, n, total, bm, im, desc);
      bmaps, imaps, descs, fb := bmaps + [bm], imaps + [im], descs + [desc], fb + free;
      g := g + 1;
    }
    if below { LaidOutClean(bmaps, imaps, descs, n, total); }
    HowMany(bmaps, imaps, descs, n, total);
    v := new Volume(Layout(BPG, IPG, false), bmaps, imaps, descs, fb, if n == 0 then U32 - RESERVED else IPG * n - RESERVED);
  }

  /** The totals loop of `Format`. */
  method FreeBlocksOf(g: nat, n: nat, total: nat) returns (f: nat)
    requires g < n <= 131072 && (n - 1) * BPG <= total <= n * BPG
    ensures f == FreeIn(g, n, total)
  {
    hide SparseBackup, GdtBlocks;
    var sparse := GroupIsSparseBackup(g);
    var meta := (if sparse then 1 + GdtBlocks(n) else 0) + 2 + TABLE + (if g == 0 then 1 else 0);
    var groupBlocks := if g == n - 1 then total - g * BPG else BPG;
    f := if groupBlocks > meta then groupBlocks - meta else 0;
  }

  lemma NoGroups(n: nat, total: nat)
    requires n > 0 ==> (n - 1) * BPG <= total
    ensures LaidOut([], [], [], 0, n, total) && FreeUpTo(0, n, total) == 0
  {
  }

  lemma HowMany(bmaps: seq<seq<bv8>>, imaps: seq<seq<bv8>>, descs: seq<seq<byte>>, n: nat, total: nat)
    requires (n > 0 ==> (n - 1) * BPG <= total) && LaidOut(bmaps, imaps, descs, n, n, total)
    ensures |bmaps| == n
  {
  }

  lemma OneGroup(bmaps: seq<seq<bv8>>, imaps: seq<seq<bv8>>, descs: seq<seq<byte>>, g: nat, n: nat, total: nat, bm: seq<bv8>, im: seq<bv8>, desc: seq<byte>)
    requires g < n && (n - 1) * BPG <= total && LaidOut(bmaps, imaps, descs, g, n, total) && GroupLaidOut(bm, im, desc, g, n, total)
    ensures LaidOut(bmaps + [bm], imaps + [im], descs + [desc], g + 1, n, total)
    ensures FreeUpTo(g + 1, n, total) == FreeUpTo(g, n, total) + FreeIn(g, n, total)
  {
    hide GroupLaidOut, FreeIn;
  }

  /** Format, then any run of allocations and frees: `CheckImage` accepts the result. */
  method FormatThenRun(size: nat, ops: seq<Op>) returns (formatted: bool, ok: bool)
    ensures formatted <==> size % BLOCK == 0 && size >= MIN_BLOCKS * BLOCK && size / BLOCK + BPG - 1 < U32
    ensures formatted ==> ok
  {
    hide Shape, Clean;
    var v := FormatVolume(size);
    if v == null || size / BLOCK + BPG - 1 >= U32 {
      return false, false;
    }
    ok := RunThenCheck(v, ops);
    return true, ok;
  }
}
