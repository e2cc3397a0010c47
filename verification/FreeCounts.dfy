/** Free-count conservation: bitmaps, descriptors and superblock totals under
    allocation, release, checking and repair (alloc.go, delete.go,
    commit_dispatch.go, fsck.go), with one operation at a time. */
module FreeCounts {
  import opened Bytes
  import opened Bitmap
  import opened Descriptor

  // ---------------------------------------------------------------- counting free bits

  /** Clear bits among the first max. */
  function Free(m: seq<bv8>, max: nat): (n: nat)
    requires max <= 8 * |m|
  {
    |FreeBits(Bits(m, max))|
  }

  lemma {:induction false} FreeBound(bits: seq<bool>)
    ensures |FreeBits(bits)| <= |bits|
    decreases |bits|
  {
    if bits != [] {
      FreeBound(bits[..|bits| - 1]);
    }
  }

  lemma FreeMax(m: seq<bv8>, max: nat)
    requires max <= 8 * |m|
    ensures Free(m, max) <= max
  {
    FreeBound(Bits(m, max));
  }

  /** Setting one clear bit costs one. */
  lemma {:induction false} FlipCount(a: seq<bool>, b: seq<bool>, i: nat)
    requires |a| == |b| && i < |a| && !a[i] && b[i] && forall j :: 0 <= j < |a| && j != i ==> a[j] == b[j]
    ensures |FreeBits(a)| == |FreeBits(b)| + 1
    decreases |a|
  {
    hide FreeBits;
    var n := |a| - 1;
    if i < n {
      FlipCount(a[..n], b[..n], i);
      FreeLast(a);
      FreeLast(b);
    } else {
      assert a[..n] == b[..n];
      FreeLast(a);
      FreeLast(b);
    }
  }

  /** Setting n distinct clear bits costs n. */
  lemma {:induction false} PickCount(a: seq<bool>, b: seq<bool>, n: nat, r: seq<nat>)
    requires Picks(a, n, r) && |a| == |b| && forall j :: 0 <= j < |a| ==> b[j] == (a[j] || j in r)
    ensures |FreeBits(a)| == |FreeBits(b)| + n
    decreases n
  {
    hide FreeBits;
    if n == 0 {
      assert a == b;
    } else {
      var pre, x := r[..n - 1], r[n - 1];
      var c := seq(|a|, j requires 0 <= j < |a| => a[j] || j in pre);
      assert r == pre + [x];
      assert x !in pre;
      PickCount(a, c, n - 1, pre);
      FlipCount(c, b, x);
    }
  }

  /** A 32-bit counter. */
  function Wrap(n: nat): nat {
    n % U32
  }

  /** Total over the groups. */
  function Sum(ms: seq<seq<bv8>>, max: nat): nat
    requires forall g :: 0 <= g < |ms| ==> max <= 8 * |ms[g]|
  {
    if ms == [] then 0 else Sum(ms[..|ms| - 1], max) + Free(ms[|ms| - 1], max)
  }

  lemma SumNone(ms: seq<seq<bv8>>, max: nat)
    ensures Sum(ms[..0], max) == 0
  {
  }

  lemma SumNext(ms: seq<seq<bv8>>, max: nat, g: nat)
    requires g < |ms| && forall i :: 0 <= i < |ms| ==> max <= 8 * |ms[i]|
    ensures Sum(ms[..g + 1], max) == Sum(ms[..g], max) + Free(ms[g], max)
  {
    hide Free;
    assert ms[..g + 1][..g] == ms[..g];
  }

  lemma {:induction false} SumUpdate(ms: seq<seq<bv8>>, max: nat, g: nat, m: seq<bv8>)
    requires g < |ms| && max <= 8 * |m| && forall i :: 0 <= i < |ms| ==> max <= 8 * |ms[i]|
    ensures Sum(ms[g := m], max) == Sum(ms, max) - Free(ms[g], max) + Free(m, max)
    decreases |ms|
  {
    hide Free;
    var n := |ms| - 1;
    if g < n {
      assert ms[g := m][..n] == ms[..n][g := m];
      SumUpdate(ms[..n], max, g, m);
    } else {
      assert ms[g := m][..n] == ms[..n];
    }
  }

  // ---------------------------------------------------------------- consistency

  /** Bits per group and descriptor width. */
  datatype Layout = Layout(bpg: nat, ipg: nat, wide: bool)

  ghost predicate GroupShape(lay: Layout, bm: seq<bv8>, im: seq<bv8>, desc: seq<byte>) {
    lay.bpg <= 8 * |bm| && lay.ipg <= 8 * |im| && DescOk(desc, lay.wide)
  }

  /** One bitmap pair and one descriptor per group, with counts that fit their fields. */
  ghost predicate Shape(lay: Layout, bmaps: seq<seq<bv8>>, imaps: seq<seq<bv8>>, descs: seq<seq<byte>>) {
    && 0 < lay.bpg <= FieldMax(lay.wide) && 0 < lay.ipg <= FieldMax(lay.wide)
    && |imaps| == |bmaps| == |descs| && |bmaps| * lay.ipg < U32
    && forall g :: 0 <= g < |bmaps| ==> GroupShape(lay, bmaps[g], imaps[g], descs[g])
  }

  /** A descriptor whose free counts are those of its bitmaps. */
  ghost predicate GroupClean(lay: Layout, bm: seq<bv8>, im: seq<bv8>, desc: seq<byte>)
    requires GroupShape(lay, bm, im, desc)
  {
    Decode(desc, lay.wide).blocks == Free(bm, lay.bpg) && Decode(desc, lay.wide).inodes == Free(im, lay.ipg)
  }

  ghost predicate AllClean(lay: Layout, bmaps: seq<seq<bv8>>, imaps: seq<seq<bv8>>, descs: seq<seq<byte>>)
    requires Shape(lay, bmaps, imaps, descs)
  {
    forall g :: 0 <= g < |bmaps| ==> GroupClean(lay, bmaps[g], imaps[g], descs[g])
  }

  /** What `CheckImage` accepts. */
  ghost predicate Clean(lay: Layout, bmaps: seq<seq<bv8>>, imaps: seq<seq<bv8>>, descs: seq<seq<byte>>, fb: nat, fi: nat)
    requires Shape(lay, bmaps, imaps, descs)
  {
    AllClean(lay, bmaps, imaps, descs) && fb == Sum(bmaps, lay.bpg) && fi == Wrap(Sum(imaps, lay.ipg))
  }

  /** The first g groups recounted, the others as they were. */
  ghost predicate Recounted(lay: Layout, bmaps: seq<seq<bv8>>, imaps: seq<seq<bv8>>, was: seq<seq<byte>>, descs: seq<seq<byte>>, g: nat)
    requires Shape(lay, bmaps, imaps, descs)
  {
    && |was| == |descs| && g <= |descs|
    && (forall h :: 0 <= h < g ==> GroupClean(lay, bmaps[h], imaps[h], descs[h]) && OnlyFree(was[h], descs[h], lay.wide))
    && forall h :: g <= h < |descs| ==> descs[h] == was[h]
  }

  lemma RecountedNone(lay: Layout, bmaps: seq<seq<bv8>>, imaps: seq<seq<bv8>>, descs: seq<seq<byte>>)
    requires Shape(lay, bmaps, imaps, descs)
    ensures Recounted(lay, bmaps, imaps, descs, descs, 0)
  {
  }

  lemma RecountedNext(lay: Layout, bmaps: seq<seq<bv8>>, imaps: seq<seq<bv8>>, was: seq<seq<byte>>, d0: seq<seq<byte>>, descs: seq<seq<byte>>, g: nat)
    requires Shape(lay, bmaps, imaps, d0) && Shape(lay, bmaps, imaps, descs) && g < |descs|
    requires Recounted(lay, bmaps, imaps, was, d0, g) && forall h :: 0 <= h < |descs| && h != g ==> descs[h] == d0[h]
    requires GroupShape(lay, bmaps[g], imaps[g], descs[g]) && GroupClean(lay, bmaps[g], imaps[g], descs[g]) && OnlyFree(d0[g], descs[g], lay.wide)
    ensures Recounted(lay, bmaps, imaps, was, descs, g + 1)
  {
    hide GroupClean, OnlyFree, GroupShape;
  }

  lemma RecountedAll(lay: Layout, bmaps: seq<seq<bv8>>, imaps: seq<seq<bv8>>, was: seq<seq<byte>>, descs: seq<seq<byte>>)
    requires Shape(lay, bmaps, imaps, descs) && Recounted(lay, bmaps, imaps, was, descs, |descs|)
    ensures AllClean(lay, bmaps, imaps, descs) && |was| == |descs| && forall g :: 0 <= g < |descs| ==> OnlyFree(was[g], descs[g], lay.wide)
  {
    hide GroupClean, OnlyFree, GroupShape;
  }

  /** One group changes: the rest of the volume stays as it was. */
  lemma CleanUpdate(lay: Layout, bmaps: seq<seq<bv8>>, imaps: seq<seq<bv8>>, descs: seq<seq<byte>>, g: nat,
                    bmaps': seq<seq<bv8>>, imaps': seq<seq<bv8>>, descs': seq<seq<byte>>)
    requires Shape(lay, bmaps, imaps, descs) && g < |bmaps| && |bmaps'| == |imaps'| == |descs'| == |bmaps|
    requires bmaps' == bmaps[g := bmaps'[g]] && imaps' == imaps[g := imaps'[g]] && descs' == descs[g := descs'[g]]
    requires GroupShape(lay, bmaps'[g], imaps'[g], descs'[g])
    ensures Shape(lay, bmaps', imaps', descs')
    ensures Sum(bmaps', lay.bpg) == Sum(bmaps, lay.bpg) - Free(bmaps[g], lay.bpg) + Free(bmaps'[g], lay.bpg)
    ensures Sum(imaps', lay.ipg) == Sum(imaps, lay.ipg) - Free(imaps[g], lay.ipg) + Free(imaps'[g], lay.ipg)
    ensures GroupClean(lay, bmaps'[g], imaps'[g], descs'[g]) && AllClean(lay, bmaps, imaps, descs) ==> AllClean(lay, bmaps', imaps', descs')
  {
    hide Free, GroupClean;
    forall h | 0 <= h < |bmaps'| ensures GroupShape(lay, bmaps'[h], imaps'[h], descs'[h]) {
      assert GroupShape(lay, bmaps[h], imaps[h], descs[h]);
    }
    SumUpdate(bmaps, lay.bpg, g, bmaps'[g]);
    SumUpdate(imaps, lay.ipg, g, imaps'[g]);
    if GroupClean(lay, bmaps'[g], imaps'[g], descs'[g]) && AllClean(lay, bmaps, imaps, descs) {
      forall h | 0 <= h < |bmaps'| ensures GroupClean(lay, bmaps'[h], imaps'[h], descs'[h]) {
        if h != g { assert GroupClean(lay, bmaps[h], imaps[h], descs[h]); }
      }
    }
  }

  // ---------------------------------------------------------------- bitmap buffers

  method LoadBitmap(m: seq<bv8>) returns (a: array<bv8>)
    ensures fresh(a) && a[..] == m
  {
    a := new bv8[|m|](k requires 0 <= k < |m| => m[k]);
    assert a[..] == m;
  }

  /** The marking loop of the allocator. */
  method SetBits(a: array<bv8>, r: seq<nat>)
    requires forall k :: 0 <= k < |r| ==> r[k] < 8 * a.Length
    modifies a
    ensures forall j :: 0 <= j < 8 * a.Length ==> Bit(a[..], j) == (Bit(old(a[..]), j) || j in r)
  {
    hide Bit;
    var k := 0;
    while k < |r|
      invariant 0 <= k <= |r|
      invariant forall j :: 0 <= j < 8 * a.Length ==> Bit(a[..], j) == (Bit(old(a[..]), j) || j in r[..k])
    {
      SetBit(a, r[k]);
      assert r[..k + 1] == r[..k] + [r[k]];
      k := k + 1;
    }
    assert r[..k] == r;
  }

  lemma SetFree(m: seq<bv8>, m': seq<bv8>, max: nat, n: nat, r: seq<nat>)
    requires |m'| == |m| && max <= 8 * |m| && Picks(Bits(m, max), n, r)
    requires forall j :: 0 <= j < 8 * |m| ==> Bit(m', j) == (Bit(m, j) || j in r)
    ensures Free(m, max) == Free(m', max) + n
  {
    hide Bit, FreeBits;
    PickCount(Bits(m, max), Bits(m', max), n, r);
  }

  lemma ClearFree(m: seq<bv8>, m': seq<bv8>, max: nat, i: nat)
    requires |m'| == |m| && i < max <= 8 * |m| && forall j :: 0 <= j < 8 * |m| ==> Bit(m', j) == (j != i && Bit(m, j))
    ensures Free(m', max) == Free(m, max) + if Bit(m, i) then 1 else 0
  {
    hide Bit, FreeBits;
    if Bit(m, i) {
      FlipCount(Bits(m', max), Bits(m, max), i);
    } else {
      assert Bits(m', max) == Bits(m, max);
    }
  }

  // ---------------------------------------------------------------- the volume

  class Volume {
    const lay: Layout
    var bmaps: seq<seq<bv8>>
    var imaps: seq<seq<bv8>>
    var descs: seq<seq<byte>>
    var freeBlocks: nat
    var freeInodes: nat

    constructor (lay: Layout, bmaps: seq<seq<bv8>>, imaps: seq<seq<bv8>>, descs: seq<seq<byte>>, fb: nat, fi: nat)
      ensures this.lay == lay && this.bmaps == bmaps && this.imaps == imaps && this.descs == descs && freeBlocks == fb && freeInodes == fi
    {
      this.lay, this.bmaps, this.imaps, this.descs, this.freeBlocks, this.freeInodes := lay, bmaps, imaps, descs, fb, fi;
    }

    ghost predicate Valid()
      reads this
    {
      Shape(lay, bmaps, imaps, descs)
    }

    ghost predicate Consistent()
      requires Valid()
      reads this
    {
      Clean(lay, bmaps, imaps, descs, freeBlocks, freeInodes)
    }

    /** `CheckImage`: accepts exactly the consistent volumes. */
    method CheckImage() returns (ok: bool)
      requires Valid()
      ensures ok <==> Consistent()
    {
      hide Free, Decode, Sum, FieldMax, DescOk, Wrap;
      ok := true;
      SumNone(bmaps, lay.bpg);
      SumNone(imaps, lay.ipg);
      WrapNone();
      var totalBlocks: nat, totalInodes: nat, g := 0, 0, 0;
      while g < |bmaps|
        invariant 0 <= g <= |bmaps|
        invariant ok <==> forall h :: 0 <= h < g ==> GroupClean(lay, bmaps[h], imaps[h], descs[h])
        invariant totalBlocks == Sum(bmaps[..g], lay.bpg) && totalInodes == Wrap(Sum(imaps[..g], lay.ipg))
      {
        assert GroupShape(lay, bmaps[g], imaps[g], descs[g]);
        var d := Decode(descs[g], lay.wide);
        var fb := CountZeros(bmaps[g], lay.bpg);
        var fi := CountZeros(imaps[g], lay.ipg);
        if fb != d.blocks || fi != d.inodes {
          ok := false;
        }
        SumNext(bmaps, lay.bpg, g);
        SumNext(imaps, lay.ipg, g);
        WrapSum(Sum(imaps[..g], lay.ipg), fi);
        totalBlocks, totalInodes := totalBlocks + fb, Wrap(totalInodes + fi);
        g := g + 1;
      }
      assert bmaps[..g] == bmaps && imaps[..g] == imaps;
      if totalBlocks != freeBlocks || totalInodes != freeInodes {
        ok := false;
      }
    }

    method CountZeros(m: seq<bv8>, max: nat) returns (n: nat)
      requires max <= 8 * |m|
      ensures n == Free(m, max)
    {
      hide FreeBits, Bits;
      n := CountZeroBits(m, max);
    }

    /** Rewrites a descriptor with the counts of the bitmaps as they stand. */
    method Recount(g: nat)
      requires Valid() && g < |bmaps|
      modifies this`descs
      ensures Valid() && |descs| == |old(descs)| && forall h :: 0 <= h < |descs| && h != g ==> descs[h] == old(descs)[h]
      ensures GroupShape(lay, bmaps[g], imaps[g], descs[g]) && GroupClean(lay, bmaps[g], imaps[g], descs[g])
      ensures OnlyFree(old(descs)[g], descs[g], lay.wide)
    {
      hide Free, Decode, Encoded, FieldMax;
      assert GroupShape(lay, bmaps[g], imaps[g], descs[g]);
      var d := Decode(descs[g], lay.wide);
      var fb := CountZeros(bmaps[g], lay.bpg);
      var fi := CountZeros(imaps[g], lay.ipg);
      if fb != d.blocks || fi != d.inodes {
        var raw := LoadBytes(descs[g]);
        var c := Counts(fb, fi, d.dirs);
        FreeMax(bmaps[g], lay.bpg);
        FreeMax(imaps[g], lay.ipg);
        DirsFit(descs[g], lay.wide);
        EncodeRoundTrip(descs[g], lay.wide, c);
        EncodeOnlyFree(descs[g], lay.wide, c);
        Encode(raw, lay.wide, c);
        CleanUpdate(lay, bmaps, imaps, descs, g, bmaps, imaps, descs[g := raw[..]]);
        descs := descs[g := raw[..]];
      }
    }

    method LoadBytes(s: seq<byte>) returns (a: array<byte>)
      ensures fresh(a) && a[..] == s
    {
      a := new byte[|s|](k requires 0 <= k < |s| => s[k]);
      assert a[..] == s;
    }

    /** `RepairImage`: recomputes every count from the bitmaps and touches nothing else. */
    method RepairImage()
      requires Valid()
      modifies this`descs, this`freeBlocks, this`freeInodes
      ensures Valid() && Consistent()
      ensures |descs| == |old(descs)| && forall g :: 0 <= g < |descs| ==> OnlyFree(old(descs)[g], descs[g], lay.wide)
    {
      hide Free, Decode, Sum, FieldMax, DescOk, Wrap, GroupClean, OnlyFree, Recounted, AllClean;
      SumNone(bmaps, lay.bpg);
      SumNone(imaps, lay.ipg);
      WrapNone();
      RecountedNone(lay, bmaps, imaps, descs);
      var totalBlocks: nat, totalInodes: nat, g := 0, 0, 0;
      while g < |bmaps|
        invariant 0 <= g <= |bmaps| && Valid() && Recounted(lay, bmaps, imaps, old(descs), descs, g)
        invariant totalBlocks == Sum(bmaps[..g], lay.bpg) && totalInodes == Wrap(Sum(imaps[..g], lay.ipg))
      {
        ghost var d0 := descs;
        Recount(g);
        RecountedNext(lay, bmaps, imaps, old(descs), d0, descs, g);
        var fb := CountZeros(bmaps[g], lay.bpg);
        var fi := CountZeros(imaps[g], lay.ipg);
        SumNext(bmaps, lay.bpg, g);
        SumNext(imaps, lay.ipg, g);
        WrapSum(Sum(imaps[..g], lay.ipg), fi);
        totalBlocks, totalInodes := totalBlocks + fb, Wrap(totalInodes + fi);
        g := g + 1;
      }
      assert bmaps[..g] == bmaps && imaps[..g] == imaps;
      RecountedAll(lay, bmaps, imaps, old(descs), descs);
      freeBlocks, freeInodes := totalBlocks, totalInodes;
    }

    /** The dispatcher: writes a group's block bitmap, then its descriptor with the
        counts recomputed from the bitmaps. */
    method DispatchBlocks(g: nat, bm: seq<bv8>)
      requires Valid() && g < |bmaps| && |bm| == |bmaps[g]|
      modifies this`bmaps, this`descs
      ensures Valid() && bmaps == old(bmaps)[g := bm]
      ensures old(AllClean(lay, bmaps, imaps, descs)) ==> AllClean(lay, bmaps, imaps, descs)
      ensures Sum(bmaps, lay.bpg) == old(Sum(bmaps, lay.bpg) - Free(bmaps[g], lay.bpg)) + Free(bm, lay.bpg)
    {
      hide Free, Decode, GroupClean;
      ghost var b0, d0 := bmaps, descs;
      assert GroupShape(lay, bmaps[g], imaps[g], descs[g]);
      CleanUpdate(lay, b0, imaps, d0, g, b0[g := bm], imaps, d0);
      bmaps := bmaps[g := bm];
      Recount(g);
      CleanUpdate(lay, b0, imaps, d0, g, bmaps, imaps, descs);
    }

    method DispatchInodes(g: nat, im: seq<bv8>)
      requires Valid() && g < |bmaps| && |im| == |imaps[g]|
      modifies this`imaps, this`descs
      ensures Valid() && imaps == old(imaps)[g := im]
      ensures old(AllClean(lay, bmaps, imaps, descs)) ==> AllClean(lay, bmaps, imaps, descs)
      ensures Sum(imaps, lay.ipg) == old(Sum(imaps, lay.ipg) - Free(imaps[g], lay.ipg)) + Free(im, lay.ipg)
    {
      hide Free, Decode, GroupClean;
      ghost var i0, d0 := imaps, descs;
      assert GroupShape(lay, bmaps[g], imaps[g], descs[g]);
      CleanUpdate(lay, bmaps, i0, d0, g, bmaps, i0[g := im], d0);
      imaps := imaps[g := im];
      Recount(g);
      CleanUpdate(lay, bmaps, i0, d0, g, bmaps, imaps, descs);
    }

    /** The group scan of `allocBlocks` from a cursor: the first group whose descriptor
        and bitmap both offer n blocks. */
    method AllocBlocks(start: nat, n: nat) returns (ok: bool, g: nat, r: seq<nat>)
      requires Valid() && Consistent()
      modifies this
      ensures Valid() && Consistent() && imaps == old(imaps) && freeInodes == old(freeInodes)
      ensures ok <==> exists h :: 0 <= h < |old(bmaps)| && n <= Free(old(bmaps)[h], lay.bpg)
      ensures !ok ==> bmaps == old(bmaps) && descs == old(descs) && freeBlocks == old(freeBlocks)
      ensures ok ==> && g < |old(bmaps)| && Picks(Bits(old(bmaps)[g], lay.bpg), n, r) && freeBlocks + n == old(freeBlocks)
                     && |bmaps| == |old(bmaps)| && (forall h :: 0 <= h < |bmaps| && h != g ==> bmaps[h] == old(bmaps)[h])
                     && |bmaps[g]| == |old(bmaps)[g]| && forall j :: 0 <= j < 8 * |bmaps[g]| ==> Bit(bmaps[g], j) == (Bit(old(bmaps)[g], j) || j in r)
    {
      hide Free, Decode, Bit, Picks, BestPick, Sum;
      var i := 0;
      while i < |bmaps|
        invariant 0 <= i <= |bmaps| && Valid() && Consistent()
        invariant bmaps == old(bmaps) && imaps == old(imaps) && descs == old(descs) && freeBlocks == old(freeBlocks) && freeInodes == old(freeInodes)
        invariant forall k :: 0 <= k < i ==> Free(bmaps[Slot(start, k, |bmaps|)], lay.bpg) < n
      {
        g := Slot(start, i, |bmaps|);
        assert GroupShape(lay, bmaps[g], imaps[g], descs[g]) && GroupClean(lay, bmaps[g], imaps[g], descs[g]);
        var skip := false;
        if Decode(descs[g], lay.wide).blocks < n {
          var quick := CountZeros(bmaps[g], lay.bpg);
          skip := quick < n;
        }
        if !skip && Decode(descs[g], lay.wide).blocks >= n {
          r, ok := Search(bmaps[g], n);
          if ok {
            Take(g, n, r);
            return;
          }
        }
        i := i + 1;
      }
      ok, r, g := false, [], 0;
      forall h | 0 <= h < |bmaps| ensures Free(bmaps[h], lay.bpg) < n {
        Reaches(start, h, |bmaps|);
      }
    }

    method Search(m: seq<bv8>, n: nat) returns (r: seq<nat>, ok: bool)
      requires lay.bpg <= 8 * |m|
      ensures ok <==> n <= Free(m, lay.bpg)
      ensures ok ==> Picks(Bits(m, lay.bpg), n, r)
    {
      hide FreeBits, Bits, Picks, BestPick;
      r, ok := FindFreeRun(m, lay.bpg, n);
    }

    /** Marks the chosen bits, adjusts the superblock and dispatches the group. */
    method Take(g: nat, n: nat, r: seq<nat>)
      requires Valid() && Consistent() && g < |bmaps| && Picks(Bits(bmaps[g], lay.bpg), n, r) && GroupShape(lay, bmaps[g], imaps[g], descs[g])
      modifies this
      ensures Valid() && Consistent() && imaps == old(imaps) && freeInodes == old(freeInodes) && freeBlocks + n == old(freeBlocks)
      ensures |bmaps| == |old(bmaps)| && (forall h :: 0 <= h < |bmaps| && h != g ==> bmaps[h] == old(bmaps)[h])
      ensures |bmaps[g]| == |old(bmaps)[g]| && forall j :: 0 <= j < 8 * |bmaps[g]| ==> Bit(bmaps[g], j) == (Bit(old(bmaps)[g], j) || j in r)
    {
      hide Free, Decode, Bit, GroupClean, Sum, FreeBits;
      var a := LoadBitmap(bmaps[g]);
      SetBits(a, r);
      SetFree(bmaps[g], a[..], lay.bpg, n, r);
      SumAtLeast(bmaps, lay.bpg, g);
      freeBlocks := freeBlocks - n;
      DispatchBlocks(g, a[..]);
    }

    /** `freeBlock` of bit i in group g. Freeing a block in use keeps the volume
        consistent; freeing a free one does not. */
    method FreeBlock(g: nat, i: nat)
      requires Valid() && Consistent() && g < |bmaps| && i < lay.bpg
      modifies this
      ensures Valid() && |bmaps| == |old(bmaps)| && |bmaps[g]| == |old(bmaps)[g]| && lay.bpg <= 8 * |bmaps[g]|
      ensures Consistent() <==> Bit(old(bmaps)[g], i)
      ensures imaps == old(imaps) && (forall h :: 0 <= h < |bmaps| && h != g ==> bmaps[h] == old(bmaps)[h])
      ensures forall j :: 0 <= j < 8 * |bmaps[g]| ==> Bit(bmaps[g], j) == (j != i && Bit(old(bmaps)[g], j))
    {
      hide Free, Decode, Bit, GroupClean, Sum, FreeBits;
      assert GroupShape(lay, bmaps[g], imaps[g], descs[g]);
      var a := LoadBitmap(bmaps[g]);
      ClearBit(a, i);
      ClearFree(bmaps[g], a[..], lay.bpg, i);
      freeBlocks := freeBlocks + 1;
      DispatchBlocks(g, a[..]);
    }

    /** `allocInode`: the first free inode of the first group that has one. */
    method AllocInode(start: nat) returns (ok: bool, g: nat, i: nat)
      requires Valid() && Consistent()
      modifies this
      ensures Valid() && Consistent() && bmaps == old(bmaps) && freeBlocks == old(freeBlocks)
      ensures ok <==> exists h :: 0 <= h < |old(imaps)| && Free(old(imaps)[h], lay.ipg) > 0
      ensures !ok ==> imaps == old(imaps) && descs == old(descs) && freeInodes == old(freeInodes)
      ensures ok ==> && g < |old(imaps)| && i < lay.ipg && |imaps| == |old(imaps)| && freeInodes + 1 == old(freeInodes)
                     && (forall h :: 0 <= h < |imaps| && h != g ==> imaps[h] == old(imaps)[h])
                     && |imaps[g]| == |old(imaps)[g]| && lay.ipg <= 8 * |imaps[g]| && !Bit(old(imaps)[g], i)
                     && forall j :: 0 <= j < 8 * |imaps[g]| ==> Bit(imaps[g], j) == (j == i || Bit(old(imaps)[g], j))
    {
      hide Free, Decode, Bit, Sum;
      var k := 0;
      while k < |bmaps|
        invariant 0 <= k <= |bmaps| && Valid() && Consistent()
        invariant bmaps == old(bmaps) && imaps == old(imaps) && descs == old(descs) && freeBlocks == old(freeBlocks) && freeInodes == old(freeInodes)
        invariant forall h :: 0 <= h < k ==> Free(imaps[Slot(start, h, |bmaps|)], lay.ipg) == 0
      {
        g := Slot(start, k, |bmaps|);
        assert GroupShape(lay, bmaps[g], imaps[g], descs[g]) && GroupClean(lay, bmaps[g], imaps[g], descs[g]);
        if Decode(descs[g], lay.wide).inodes != 0 {
          i, ok := FindFreeBit(imaps[g], lay.ipg);
          HasFree(imaps[g], lay.ipg, i, ok);
          if ok {
            TakeInode(g, i);
            return;
          }
        }
        k := k + 1;
      }
      ok, g, i := false, 0, 0;
      forall h | 0 <= h < |imaps| ensures Free(imaps[h], lay.ipg) == 0 {
        Reaches(start, h, |bmaps|);
      }
    }

    method TakeInode(g: nat, i: nat)
      requires Valid() && Consistent()
      requires g < |imaps| && i < lay.ipg && GroupShape(lay, bmaps[g], imaps[g], descs[g]) && !Bit(imaps[g], i)
      modifies this
      ensures Valid() && Consistent() && bmaps == old(bmaps) && freeBlocks == old(freeBlocks) && freeInodes + 1 == old(freeInodes)
      ensures |imaps| == |old(imaps)| && (forall h :: 0 <= h < |imaps| && h != g ==> imaps[h] == old(imaps)[h])
      ensures |imaps[g]| == |old(imaps)[g]| && forall j :: 0 <= j < 8 * |imaps[g]| ==> Bit(imaps[g], j) == (j == i || Bit(old(imaps)[g], j))
    {
      hide Free, Decode, Bit, Sum, Shape, AllClean, Wrap;
      InodesLeft(lay, bmaps, imaps, descs, g, i);
      var a := LoadBitmap(imaps[g]);
      SetBit(a, i);
      SetOneFree(imaps[g], a[..], lay.ipg, i);
      freeInodes := freeInodes - 1;
      DispatchInodes(g, a[..]);
    }

    /** `freeInodeSlot` of bit i in group g: the bitmap, then the descriptor with its
        own count plus one, then the superblock. Consistent exactly if the inode was in use. */
    method FreeInode(g: nat, i: nat)
      requires Valid() && Consistent() && g < |imaps| && i < lay.ipg
      modifies this
      ensures Valid() && bmaps == old(bmaps) && |imaps| == |old(imaps)| && |imaps[g]| == |old(imaps)[g]| && lay.ipg <= 8 * |imaps[g]|
      ensures Consistent() <==> Bit(old(imaps)[g], i)
      ensures forall h :: 0 <= h < |imaps| && h != g ==> imaps[h] == old(imaps)[h]
      ensures forall j :: 0 <= j < 8 * |imaps[g]| ==> Bit(imaps[g], j) == (j != i && Bit(old(imaps)[g], j))
    {
      hide Free, Decode, Bit, Sum, FreeBits, Encoded, GroupClean, Clean, AllClean, FieldMax;
      GroupOf(lay, bmaps, imaps, descs, freeBlocks, freeInodes, g);
      var a := LoadBitmap(imaps[g]);
      ClearBit(a, i);
      var d := Decode(descs[g], lay.wide);
      var raw := LoadBytes(descs[g]);
      Encode(raw, lay.wide, Counts(d.blocks, d.inodes + 1, d.dirs));
      InodeFreed(lay, bmaps, imaps, descs, freeBlocks, freeInodes, g, i, a[..]);
      imaps := imaps[g := a[..]];
      descs := descs[g := raw[..]];
      freeInodes := Wrap(freeInodes + 1);
    }
  }

  /** A free inode is counted, and the total does not wrap. */
  lemma InodesLeft(lay: Layout, bmaps: seq<seq<bv8>>, imaps: seq<seq<bv8>>, descs: seq<seq<byte>>, g: nat, i: nat)
    requires Shape(lay, bmaps, imaps, descs) && g < |imaps| && i < lay.ipg && !Bit(imaps[g], i)
    ensures |imaps| == |bmaps| && lay.ipg <= 8 * |imaps[g]| && 0 < Free(imaps[g], lay.ipg) <= Sum(imaps, lay.ipg)
    ensures forall n: nat :: n <= Sum(imaps, lay.ipg) ==> Wrap(n) == n
  {
    hide Free, Sum;
    assert GroupShape(lay, bmaps[g], imaps[g], descs[g]);
    HasFree(imaps[g], lay.ipg, i, true);
    SumAtLeast(imaps, lay.ipg, g);
    SumMax(imaps, lay.ipg);
  }

  lemma SetOneFree(m: seq<bv8>, m': seq<bv8>, max: nat, i: nat)
    requires |m'| == |m| && i < max <= 8 * |m| && !Bit(m, i)
    requires forall j :: 0 <= j < 8 * |m| ==> Bit(m', j) == (j == i || Bit(m, j))
    ensures Free(m, max) == Free(m', max) + 1
  {
    hide Bit, FreeBits, Free;
    assert Picks(Bits(m, max), 1, [i]);
    SetFree(m, m', max, 1, [i]);
  }

  /** The three writes of `freeInodeSlot` together. */
  lemma InodeFreed(lay: Layout, bmaps: seq<seq<bv8>>, imaps: seq<seq<bv8>>, descs: seq<seq<byte>>, fb: nat, fi: nat, g: nat, i: nat, im: seq<bv8>)
    requires Shape(lay, bmaps, imaps, descs) && Clean(lay, bmaps, imaps, descs, fb, fi) && g < |bmaps| && i < lay.ipg
    requires GroupShape(lay, bmaps[g], imaps[g], descs[g])
    requires |im| == |imaps[g]| && forall j :: 0 <= j < 8 * |im| ==> Bit(im, j) == (j != i && Bit(imaps[g], j))
    ensures var d := Decode(descs[g], lay.wide);
            var descs' := descs[g := Encoded(descs[g], lay.wide, Counts(d.blocks, d.inodes + 1, d.dirs))];
            && Shape(lay, bmaps, imaps[g := im], descs')
            && (Clean(lay, bmaps, imaps[g := im], descs', fb, Wrap(fi + 1)) <==> Bit(imaps[g], i))
  {
    hide Free, Decode, Bit, Sum, Encoded, GroupClean, Clean, AllClean, FieldMax;
    GroupOf(lay, bmaps, imaps, descs, fb, fi, g);
    var d := Decode(descs[g], lay.wide);
    var descs' := descs[g := Encoded(descs[g], lay.wide, Counts(d.blocks, d.inodes + 1, d.dirs))];
    ClearFree(imaps[g], im, lay.ipg, i);
    CleanUpdate(lay, bmaps, imaps, descs, g, bmaps, imaps[g := im], descs');
    SumMax(imaps, lay.ipg);
    SumMax(imaps[g := im], lay.ipg);
    if Bit(imaps[g], i) {
      InodeReturned(lay, bmaps[g], imaps[g], im, descs[g]);
    }
    FreedVerdict(lay, bmaps, imaps, descs, imaps[g := im], descs', fb, fi, Bit(imaps[g], i));
  }

  lemma GroupOf(lay: Layout, bmaps: seq<seq<bv8>>, imaps: seq<seq<bv8>>, descs: seq<seq<byte>>, fb: nat, fi: nat, g: nat)
    requires Shape(lay, bmaps, imaps, descs) && Clean(lay, bmaps, imaps, descs, fb, fi) && g < |bmaps|
    ensures GroupShape(lay, bmaps[g], imaps[g], descs[g]) && GroupClean(lay, bmaps[g], imaps[g], descs[g])
    ensures AllClean(lay, bmaps, imaps, descs)
  {
  }

  /** One inode returned: the totals agree again exactly if it was in use. */
  lemma FreedVerdict(lay: Layout, bmaps: seq<seq<bv8>>, imaps: seq<seq<bv8>>, descs: seq<seq<byte>>,
                     imaps': seq<seq<bv8>>, descs': seq<seq<byte>>, fb: nat, fi: nat, used: bool)
    requires Shape(lay, bmaps, imaps, descs) && Clean(lay, bmaps, imaps, descs, fb, fi) && Shape(lay, bmaps, imaps', descs')
    requires used ==> AllClean(lay, bmaps, imaps', descs')
    requires Sum(imaps', lay.ipg) == Sum(imaps, lay.ipg) + (if used then 1 else 0) < U32
    ensures Clean(lay, bmaps, imaps', descs', fb, Wrap(fi + 1)) <==> used
  {
    hide Sum, AllClean;
  }

  /** The descriptor with its inode count raised matches a bitmap with one bit more free. */
  lemma InodeReturned(lay: Layout, bm: seq<bv8>, im: seq<bv8>, im': seq<bv8>, desc: seq<byte>)
    requires lay.bpg <= FieldMax(lay.wide) && lay.ipg <= FieldMax(lay.wide)
    requires GroupShape(lay, bm, im, desc) && GroupClean(lay, bm, im, desc) && GroupShape(lay, bm, im', desc)
    requires Free(im', lay.ipg) == Free(im, lay.ipg) + 1
    ensures var d := Decode(desc, lay.wide);
            GroupClean(lay, bm, im', Encoded(desc, lay.wide, Counts(d.blocks, d.inodes + 1, d.dirs)))
  {
    hide Free, Decode, Encoded, FieldMax;
    var d := Decode(desc, lay.wide);
    FreeMax(im', lay.ipg);
    FreeMax(bm, lay.bpg);
    DirsFit(desc, lay.wide);
    EncodeRoundTrip(desc, lay.wide, Counts(d.blocks, d.inodes + 1, d.dirs));
  }

  // ---------------------------------------------------------------- runs

  datatype Op =
    | TakeBlocks(start: nat, n: nat)
    | TakeInode(start: nat)
    | DropBlock(g: nat, i: nat)
    | DropInode(g: nat, i: nat)

  /** Any run of allocations and of frees of items in use ends in a volume `CheckImage` accepts. */
  method RunThenCheck(v: Volume, ops: seq<Op>) returns (ok: bool)
    requires v.Valid() && v.Consistent()
    modifies v
    ensures ok && v.Valid() && v.Consistent()
  {
    hide Shape, Clean, Bit, Free;
    var k := 0;
    while k < |ops|
      invariant 0 <= k <= |ops| && v.Valid() && v.Consistent()
    {
      Perform(v, ops[k]);
      k := k + 1;
    }
    ok := v.CheckImage();
  }

  method Perform(v: Volume, op: Op)
    requires v.Valid() && v.Consistent()
    modifies v
    ensures v.Valid() && v.Consistent()
  {
    hide Clean, Bit, Free, FieldMax, Picks;
    match op
    case TakeBlocks(start, n) =>
      var _, _, _ := v.AllocBlocks(start, n);
    case TakeInode(start) =>
      var _, _, _ := v.AllocInode(start);
    case DropBlock(g, i) =>
      if g < |v.bmaps| && i < v.lay.bpg {
        assert GroupShape(v.lay, v.bmaps[g], v.imaps[g], v.descs[g]);
        if Bit(v.bmaps[g], i) { v.FreeBlock(g, i); }
      }
    case DropInode(g, i) =>
      if g < |v.imaps| && i < v.lay.ipg {
        assert GroupShape(v.lay, v.bmaps[g], v.imaps[g], v.descs[g]);
        if Bit(v.imaps[g], i) { v.FreeInode(g, i); }
      }
  }

  /** The group visited in round i of a scan that starts at a cursor. */
  function Slot(start: nat, i: nat, n: nat): (g: nat)
    requires n > 0
    ensures g < n
  {
    (start % n + i) % n
  }

  /** A scan of n rounds visits every group. */
  lemma Reaches(start: nat, h: nat, n: nat)
    requires h < n
    ensures exists k :: 0 <= k < n && Slot(start, k, n) == h
  {
    var s := start % n;
    var k := if h >= s then h - s else h + n - s;
    if h >= s {
      DivModUnique(s + k, n, 0, h);
    } else {
      DivModUnique(s + k, n, 1, h);
    }
    assert Slot(start, k, n) == h;
  }

  lemma {:induction false} SumAtLeast(ms: seq<seq<bv8>>, max: nat, g: nat)
    requires g < |ms| && forall i :: 0 <= i < |ms| ==> max <= 8 * |ms[i]|
    ensures Free(ms[g], max) <= Sum(ms, max)
    decreases |ms|
  {
    hide Free;
    if g < |ms| - 1 {
      SumAtLeast(ms[..|ms| - 1], max, g);
    }
  }

  lemma {:induction false} NoneFree(bits: seq<bool>)
    requires forall j :: 0 <= j < |bits| ==> bits[j]
    ensures FreeBits(bits) == []
    decreases |bits|
  {
    if bits != [] {
      NoneFree(bits[..|bits| - 1]);
    }
  }

  /** No more free items than there are. */
  lemma {:induction false} SumMax(ms: seq<seq<bv8>>, max: nat)
    requires forall i :: 0 <= i < |ms| ==> max <= 8 * |ms[i]|
    ensures Sum(ms, max) <= |ms| * max
    decreases |ms|
  {
    hide Free;
    if ms != [] {
      SumMax(ms[..|ms| - 1], max);
      FreeMax(ms[|ms| - 1], max);
    }
  }

  lemma HasFree(m: seq<bv8>, max: nat, i: nat, ok: bool)
    requires max <= 8 * |m|
    requires ok ==> i < max && !Bit(m, i)
    requires !ok ==> forall j :: 0 <= j < max ==> Bit(m, j)
    ensures ok <==> Free(m, max) > 0
  {
    hide Bit;
    var bits := Bits(m, max);
    if ok {
      assert i in FreeBits(bits);
    } else {
      NoneFree(bits);
    }
  }

  lemma WrapNone()
    ensures Wrap(0) == 0
  {
  }

  lemma WrapSum(a: nat, b: nat)
    ensures Wrap(Wrap(a) + b) == Wrap(a + b)
  {
    assert a + b == (a % U32 + b) + (a / U32) * U32;
  }

  lemma DirsFit(desc: seq<byte>, wide: bool)
    requires DescOk(desc, wide)
    ensures Decode(desc, wide).dirs <= FieldMax(wide)
  {
    Pow256Values();
    assert UnLE(desc[16..18]) < U16;
    if wide {
      assert UnLE(desc[48..50]) < U16;
    }
  }
}
