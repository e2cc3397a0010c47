/** The two read paths: the positional one that binary-searches the leaves, and
    the one that materialises the whole file block by block. */
module ReadPath {
  import opened Bytes
  import opened Extents
  import opened ExtentTree
  import opened Volume
  import opened FileMath

  /** A range between two leaves reads as zeros. */
  lemma HoleBytes(data: seq<byte>, geo: Geo, ls: seq<Leaf>, i: nat, cur: nat, n: nat)
    requires Sized(data, geo) && geo.bs > 0 && SortedMap(ls) && i <= |ls|
    requires forall k :: 0 <= k < i ==> ls[k].log + ls[k].count <= cur / geo.bs
    requires i < |ls| ==> cur + n <= ls[i].log * geo.bs
    ensures forall y: nat :: cur <= y < cur + n ==> FileByte(data, geo, ls, y) == 0
  {
    forall y: nat | cur <= y < cur + n ensures FileByte(data, geo, ls, y) == 0 {
      var b := y / geo.bs;
      QuotientMono(cur, y, geo.bs);
      if i < |ls| { DivRange(y, 0, ls[i].log, geo.bs); }
      SearchDecides(ls, b, i);
      assert forall p: nat :: !Maps(ls, b, p);
    }
  }

  /** Block number of the last byte of a range inside one run. */
  lemma LastBlock(bs: nat, cur: nat, n: nat)
    requires bs > 0 && n > 0
    ensures cur / bs + (cur % bs + n - 1) / bs == (cur + n - 1) / bs
  {
    DivMulMod(cur, bs);
    DivMulMod(cur % bs + n - 1, bs);
    QuotientSum(cur + n - 1, bs, cur / bs, (cur % bs + n - 1) / bs, (cur % bs + n - 1) % bs);
  }

  lemma QuotientSum(x: nat, bs: nat, c: nat, q: nat, r: nat)
    requires r < bs && x == c * bs + (q * bs + r)
    ensures x / bs == c + q
  {
    assert (c + q) * bs == c * bs + q * bs;
    DivModUnique(x, bs, c + q, r);
  }

  /** A range inside one run is a contiguous slice of the image. */
  lemma RunBytes(data: seq<byte>, geo: Geo, ls: seq<Leaf>, i: nat, cur: nat, n: nat, po: nat)
    requires Sized(data, geo) && geo.bs > 0 && SortedMap(ls) && i < |ls| && n > 0
    requires Covers(ls[i], cur / geo.bs)
    requires ls[i].log * geo.bs <= cur && cur + n <= (ls[i].log + ls[i].count) * geo.bs
    requires po == ls[i].phys * geo.bs + (cur - ls[i].log * geo.bs)
    requires ls[i].phys + (cur / geo.bs - ls[i].log) + (cur % geo.bs + n - 1) / geo.bs < geo.blocks
    ensures po + n <= |data|
    ensures forall y: nat :: cur <= y < cur + n ==> FileByte(data, geo, ls, y) == data[po + (y - cur)]
  {
    var l, last := ls[i], cur + n - 1;
    LastBlock(geo.bs, cur, n);
    RunIsLinear(geo, ls, i, last);
    BlockFits(geo, l.phys + (last / geo.bs - l.log));
    forall y: nat | cur <= y < cur + n ensures FileByte(data, geo, ls, y) == data[po + (y - cur)] {
      RunIsLinear(geo, ls, i, y);
      QuotientMono(y, last, geo.bs);
    }
  }

  // ---------------------------------------------------------------- whole-file read (inode.go)

  /** The leaves the copy loop has finished: k whole ones and j blocks of the next. */
  function Done(ls: seq<Leaf>, k: nat, j: nat): seq<Leaf>
    requires k < |ls| && j <= ls[k].count
  {
    ls[..k] + [ls[k].(count := j)]
  }

  lemma DoneMaps(ls: seq<Leaf>, k: nat, j: nat, b: nat, p: nat)
    requires k < |ls| && j <= ls[k].count
    ensures Maps(Done(ls, k, j), b, p) ==> Maps(ls, b, p)
    ensures j < ls[k].count ==> (Maps(Done(ls, k, j + 1), b, p) <==> Maps(Done(ls, k, j), b, p) || (b == ls[k].log + j && p == ls[k].phys + j))
  {
    MapsAppend(ls[..k], [ls[k].(count := j)], b, p);
    MapsSingle(ls[k].(count := j), b, p);
    if Maps(ls[..k], b, p) {
      var l :| l in ls[..k] && Covers(l, b) && p == l.phys + (b - l.log);
      assert l in ls;
    }
    if Covers(ls[k], b) && p == ls[k].phys + (b - ls[k].log) { assert ls[k] in ls; }
    if j < ls[k].count {
      MapsAppend(ls[..k], [ls[k].(count := j + 1)], b, p);
      MapsSingle(ls[k].(count := j + 1), b, p);
    }
  }

  lemma PhysIs(ls: seq<Leaf>, b: nat, p: nat)
    requires Functional(ls) && Maps(ls, b, p)
    ensures Phys(ls, b) == Some(p)
  {
    assert Mapped(ls, b);
  }

  lemma PhysNone(ls: seq<Leaf>, b: nat)
    requires forall p: nat :: !Maps(ls, b, p)
    ensures Phys(ls, b) == None
  {
  }

  lemma DoneFunctional(ls: seq<Leaf>, k: nat, j: nat)
    requires k < |ls| && j <= ls[k].count && Functional(ls)
    ensures Functional(Done(ls, k, j))
  {
    forall b: nat, p: nat, q: nat | Maps(Done(ls, k, j), b, p) && Maps(Done(ls, k, j), b, q) ensures p == q {
      DoneMaps(ls, k, j, b, p);
      DoneMaps(ls, k, j, b, q);
    }
  }

  /** Copying one more block adds exactly that block's bytes. */
  lemma CopyByte(data: seq<byte>, geo: Geo, ls: seq<Leaf>, k: nat, j: nat, o: nat)
    requires Sized(data, geo) && geo.bs > 0 && k < |ls| && j < ls[k].count && Functional(ls)
    requires ls[k].phys + j < geo.blocks
    requires (ls[k].phys + j) * geo.bs + geo.bs <= |data|
    ensures FileByte(data, geo, Done(ls, k, j + 1), o)
            == if o / geo.bs == ls[k].log + j then data[(ls[k].phys + j) * geo.bs + o % geo.bs]
               else FileByte(data, geo, Done(ls, k, j), o)
  {
    var a, c, b := Done(ls, k, j), Done(ls, k, j + 1), o / geo.bs;
    DoneFunctional(ls, k, j);
    DoneFunctional(ls, k, j + 1);
    forall p: nat
      ensures Maps(c, b, p) <==> Maps(a, b, p) || (b == ls[k].log + j && p == ls[k].phys + j)
    {
      DoneMaps(ls, k, j, b, p);
    }
    if b == ls[k].log + j {
      PhysIs(c, b, ls[k].phys + j);
    } else if p: nat :| Maps(a, b, p) {
      PhysIs(a, b, p);
      PhysIs(c, b, p);
    } else {
      PhysNone(a, b);
      PhysNone(c, b);
    }
  }

  /** The bytes one iteration of the copy loop stores. */
  lemma CopyBlock(data: seq<byte>, geo: Geo, ls: seq<Leaf>, k: nat, j: nat, size: nat, logOff: nat, n: nat, src: nat)
    requires Sized(data, geo) && geo.bs > 0 && k < |ls| && j < ls[k].count && Functional(ls)
    requires ls[k].phys + j < geo.blocks && src == (ls[k].phys + j) * geo.bs && src + geo.bs <= |data|
    requires logOff == (ls[k].log + j) * geo.bs && logOff < size && n == Min(geo.bs, size - logOff)
    ensures FileBytes(data, geo, Done(ls, k, j + 1), size)
            == Put(FileBytes(data, geo, Done(ls, k, j), size), logOff, data[src..src + n])
  {
    var a := Put(FileBytes(data, geo, Done(ls, k, j), size), logOff, data[src..src + n]);
    forall o | 0 <= o < size ensures FileByte(data, geo, Done(ls, k, j + 1), o) == a[o] {
      CopyByte(data, geo, ls, k, j, o);
      DivMulMod(o, geo.bs);
      if logOff <= o < logOff + n {
        DivModUnique(o, geo.bs, ls[k].log + j, o - logOff);
      }
    }
  }

  lemma SkipBlock(data: seq<byte>, geo: Geo, ls: seq<Leaf>, k: nat, j: nat, size: nat)
    requires Sized(data, geo) && geo.bs > 0 && k < |ls| && j < ls[k].count && Functional(ls)
    requires ls[k].phys + j < geo.blocks && (ls[k].phys + j) * geo.bs + geo.bs <= |data|
    requires (ls[k].log + j) * geo.bs >= size
    ensures FileBytes(data, geo, Done(ls, k, j + 1), size) == FileBytes(data, geo, Done(ls, k, j), size)
  {
    forall o | 0 <= o < size ensures FileByte(data, geo, Done(ls, k, j + 1), o) == FileByte(data, geo, Done(ls, k, j), o) {
      CopyByte(data, geo, ls, k, j, o);
      DivMulMod(o, geo.bs);
    }
  }

  predicate PhysInRange(geo: Geo, ls: seq<Leaf>) {
    forall i :: 0 <= i < |ls| ==> LeafInRange(geo, ls[i])
  }

  predicate LeafInRange(geo: Geo, l: Leaf) {
    l.count > 0 ==> l.phys + l.count <= geo.blocks
  }

  /** `declaredBytes`: the size of the filesystem, clamped to an int64. */
  function DeclaredBytes(geo: Geo): nat
    requires geo.bs > 0
  {
    if geo.blocks > (U63 - 1) / geo.bs then U63 - 1 else geo.blocks * geo.bs
  }

  /** `fileSizeCeiling`: the declared filesystem size, but no more than the read limit. */
  function SizeCeiling(geo: Geo, limit: nat): nat
    requires geo.bs > 0
  {
    Min(DeclaredBytes(geo), limit)
  }

  /** `readFileData` over any list that maps each block at most once: the ceiling is
      checked before the buffer exists. */
  method ReadFileData(data: seq<byte>, geo: Geo, ls: seq<Leaf>, size: nat, limit: nat) returns (ok: bool, out: seq<byte>)
    requires geo.Valid() && Sized(data, geo) && Functional(ls)
    ensures ok <==> size <= SizeCeiling(geo, limit) && (size > 0 ==> ls != []) && PhysInRange(geo, ls)
    ensures ok ==> out == FileBytes(data, geo, ls, size)
    ensures |out| <= SizeCeiling(geo, limit)
  {
    hide Functional, FileByte, FileBytes, Done, SizeCeiling;
    if size > SizeCeiling(geo, limit) {
      return false, [];
    }
    out := Zeros(size);
    if size > 0 && ls == [] {
      return false, out;
    }
    NoLeafBytes(data, geo, size);
    var k := 0;
    assert ls[..0] == [];
    while k < |ls|
      invariant 0 <= k <= |ls| && |out| == size
      invariant out == FileBytes(data, geo, ls[..k], size)
      invariant forall i :: 0 <= i < k ==> LeafInRange(geo, ls[i])
    {
      LeafStart(data, geo, ls, k, size);
      ok, out := ReadLeaf(data, geo, ls, k, size, out);
      if !ok {
        return;
      }
      k := k + 1;
    }
    assert ls[..k] == ls;
    return true, out;
  }

  /** The block loop over one leaf. */
  method ReadLeaf(data: seq<byte>, geo: Geo, ls: seq<Leaf>, k: nat, size: nat, was: seq<byte>) returns (ok: bool, out: seq<byte>)
    requires geo.Valid() && Sized(data, geo) && Functional(ls) && k < |ls| && was == FileBytes(data, geo, Done(ls, k, 0), size)
    ensures ok <==> LeafInRange(geo, ls[k])
    ensures ok ==> out == FileBytes(data, geo, ls[..k + 1], size)
    ensures |out| == size
  {
    hide Functional, FileByte, FileBytes, Done;
    out := was;
    var j := 0;
    while j < ls[k].count
      invariant 0 <= j <= ls[k].count && |out| == size
      invariant out == FileBytes(data, geo, Done(ls, k, j), size)
      invariant j > 0 ==> ls[k].phys + j <= geo.blocks
    {
      if ls[k].phys + j >= geo.blocks {
        return false, out;
      }
      out := CopyOne(data, geo, ls, k, j, size, out);
      j := j + 1;
    }
    LeafDone(ls, k);
    return true, out;
  }

  method CopyOne(data: seq<byte>, geo: Geo, ls: seq<Leaf>, k: nat, j: nat, size: nat, was: seq<byte>) returns (out: seq<byte>)
    requires geo.Valid() && Sized(data, geo) && Functional(ls) && k < |ls| && j < ls[k].count && ls[k].phys + j < geo.blocks
    requires was == FileBytes(data, geo, Done(ls, k, j), size)
    ensures out == FileBytes(data, geo, Done(ls, k, j + 1), size)
  {
    hide Functional, FileByte, FileBytes, Done, Put;
    var phys := ls[k].phys + j;
    BlockFits(geo, phys);
    var logOff := (ls[k].log + j) * geo.bs;
    if logOff >= size {
      SkipBlock(data, geo, ls, k, j, size);
      return was;
    }
    var n := Min(geo.bs, size - logOff);
    CopyBlock(data, geo, ls, k, j, size, logOff, n, phys * geo.bs);
    return Put(was, logOff, data[phys * geo.bs..phys * geo.bs + n]);
  }

  lemma LeafStart(data: seq<byte>, geo: Geo, ls: seq<Leaf>, k: nat, size: nat)
    requires Sized(data, geo) && geo.bs > 0 && Functional(ls) && k < |ls|
    ensures FileBytes(data, geo, Done(ls, k, 0), size) == FileBytes(data, geo, ls[..k], size)
  {
    hide FileByte, FileBytes, Functional;
    PrefixFunctional(ls, k);
    EmptyTail(data, geo, ls[..k], ls[k].(count := 0), size);
  }

  lemma LeafDone(ls: seq<Leaf>, k: nat)
    requires k < |ls|
    ensures Done(ls, k, ls[k].count) == ls[..k + 1]
  {
  }

  lemma NoLeafBytes(data: seq<byte>, geo: Geo, size: nat)
    requires geo.bs > 0 && Sized(data, geo)
    ensures Zeros(size) == FileBytes(data, geo, [], size)
  {
  }

  lemma PrefixFunctional(ls: seq<Leaf>, k: nat)
    requires Functional(ls) && k <= |ls|
    ensures Functional(ls[..k])
  {
    forall b: nat, p: nat | Maps(ls[..k], b, p) ensures Maps(ls, b, p) {
      var l :| l in ls[..k] && Covers(l, b) && p == l.phys + (b - l.log);
      assert l in ls;
    }
  }

  lemma EmptyTail(data: seq<byte>, geo: Geo, pre: seq<Leaf>, l: Leaf, size: nat)
    requires Sized(data, geo) && geo.bs > 0 && l.count == 0 && Functional(pre)
    ensures FileBytes(data, geo, pre + [l], size) == FileBytes(data, geo, pre, size)
  {
    hide Maps, Functional, Phys;
    forall o | 0 <= o < size ensures FileByte(data, geo, pre + [l], o) == FileByte(data, geo, pre, o) {
      PhysTail(pre, l, o / geo.bs);
    }
  }

  lemma PhysTail(pre: seq<Leaf>, l: Leaf, b: nat)
    requires l.count == 0 && Functional(pre)
    ensures Phys(pre + [l], b) == Phys(pre, b)
  {
    forall p: nat ensures Maps(pre + [l], b, p) <==> Maps(pre, b, p) {
      MapsAppend(pre, [l], b, p);
      MapsSingle(l, b, p);
    }
    if p: nat :| Maps(pre, b, p) {
      PhysIs(pre, b, p);
      assert Phys(pre + [l], b) == Some(p);
    } else {
      PhysNone(pre, b);
      PhysNone(pre + [l], b);
    }
  }
}
