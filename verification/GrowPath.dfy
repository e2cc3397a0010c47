/** Growing a file: slack zeroing, block allocation and the growth commit. */
module GrowPath {
  import opened Bytes
  import opened Extents
  import opened ExtentTree
  import opened Volume
  import opened FileMath
  import opened Steps

  /** First byte of the block after the one holding byte o. */
  function BlockEnd(geo: Geo, o: nat): nat
    requires geo.bs > 0
  {
    (o / geo.bs + 1) * geo.bs
  }

  /** Bytes [from, to) read as zero, every other byte is unchanged. */
  ghost predicate Zeroed(data: seq<byte>, data': seq<byte>, geo: Geo, ls: seq<Leaf>, from: nat, to: nat)
    requires Sized(data, geo) && Sized(data', geo) && geo.bs > 0
  {
    forall o: nat :: FileByte(data', geo, ls, o) == if from <= o < to then 0 else FileByte(data, geo, ls, o)
  }

  /** Blocks outside the map are untouched. */
  ghost predicate OnlyInMap(data: seq<byte>, data': seq<byte>, geo: Geo, ls: seq<Leaf>)
    requires Sized(data, geo) && Sized(data', geo)
  {
    forall b: nat :: b < geo.blocks && b !in Blocks(ls) ==> BlockAt(data', geo, b) == BlockAt(data, geo, b)
  }

  lemma BlockFrom(bs: nat, q: nat, x: nat)
    requires bs > 0 && x >= q * bs
    ensures x / bs * bs >= q * bs
  {
    DivModUnique(q * bs, bs, q, 0);
    QuotientMono(q * bs, x, bs);
    MulMono(q, x / bs, bs);
  }

  lemma BlockEndBound(geo: Geo, o: nat, x: nat)
    requires geo.bs > 0 && o <= x
    ensures o - o % geo.bs + geo.bs == BlockEnd(geo, o)
    ensures x < BlockEnd(geo, o) ==> x / geo.bs == o / geo.bs
    ensures x >= BlockEnd(geo, o) ==> x / geo.bs * geo.bs >= BlockEnd(geo, o)
  {
    var q, bs := o / geo.bs, geo.bs;
    DivMulMod(o, bs);
    assert (q + 1) * bs == q * bs + bs;
    if x < (q + 1) * bs {
      DivModUnique(x, bs, q, x - q * bs);
    } else {
      BlockFrom(bs, q + 1, x);
    }
  }

  /** Past the end of the file, only the slack of the last block can be non-zero. */
  lemma TailAfterBlock(data: seq<byte>, geo: Geo, ls: seq<Leaf>, size: nat, x: nat)
    requires Sized(data, geo) && geo.bs > 0 && TailZero(data, geo, ls, size)
    requires x >= size && (size % geo.bs == 0 || x >= BlockEnd(geo, size))
    ensures FileByte(data, geo, ls, x) == 0
  {
    if size % geo.bs == 0 {
      DivMulMod(size, geo.bs);
      DivRange(x, size / geo.bs, x + 1, geo.bs) by { assert (x + 1) * geo.bs >= x + 1 by { MulMono(1, geo.bs, x + 1); } }
      MulMono(size / geo.bs, x / geo.bs, geo.bs);
    } else {
      BlockEndBound(geo, size, x);
    }
  }

  lemma SlackInHole(data: seq<byte>, geo: Geo, ls: seq<Leaf>, size: nat, x: nat)
    requires Sized(data, geo) && geo.bs > 0 && TailZero(data, geo, ls, size)
    requires x >= size && !Mapped(ls, size / geo.bs)
    ensures FileByte(data, geo, ls, x) == 0
  {
    BlockEndBound(geo, size, x);
    if x >= BlockEnd(geo, size) {
      assert x / geo.bs * geo.bs >= size;
    }
  }

  /** Growth exposes only zeros once the slack has been zeroed. */
  ghost predicate GrowthIsZero(data: seq<byte>, geo: Geo, ls: seq<Leaf>, size: nat, newSize: nat)
    requires Sized(data, geo) && geo.bs > 0
  {
    forall o: nat :: size <= o < newSize ==> FileByte(data, geo, ls, o) == 0
  }

  /** The slack write: n zero bytes at file offset size, through run i. */
  lemma SlackWrite(data: seq<byte>, geo: Geo, ls: seq<Leaf>, i: nat, size: nat, newSize: nat, n: nat, po: nat)
    requires Sized(data, geo) && geo.bs > 0 && MapOk(geo, ls) && TailZero(data, geo, ls, size) && i < |ls|
    requires size < newSize && Covers(ls[i], size / geo.bs)
    requires ls[i].log * geo.bs <= size && size + n <= (ls[i].log + ls[i].count) * geo.bs
    requires n == Min(BlockEnd(geo, size) - size, newSize - size)
    requires po == ls[i].phys * geo.bs + (size - ls[i].log * geo.bs)
    ensures po + n <= |data|
    ensures var data' := Put(data, po, Zeros(n));
            && Zeroed(data, data', geo, ls, size, size + n) && OnlyInMap(data, data', geo, ls)
            && GrowthIsZero(data', geo, ls, size, newSize) && TailZero(data', geo, ls, size)
  {
    assert LeafInBounds(geo, ls[i]);
    RunFits(geo, ls[i], size, n);
    WriteThrough(data, geo, ls, i, size, Zeros(n), po);
    RunWriteOutside(data, geo, ls, i, size, Zeros(n), po);
    var data' := Put(data, po, Zeros(n));
    forall o: nat | size <= o < newSize ensures FileByte(data', geo, ls, o) == 0 {
      if o >= size + n {
        BlockEndBound(geo, size, o);
        assert o / geo.bs * geo.bs >= size;
      }
    }
  }

  /** A file's content depends only on its bytes below the size. */
  lemma ContentEq(geo: Geo, img: Image, img': Image, ino: nat)
    requires geo.bs > 0 && Sized(img.data, geo) && Sized(img'.data, geo) && ino in img.inodes && ino in img'.inodes
    requires Tree(geo, img, ino).Parsed? && Tree(geo, img', ino).Parsed?
    requires img'.inodes[ino].size == img.inodes[ino].size
    requires forall o: nat :: o < img.inodes[ino].size ==> FileByte(img'.data, geo, Tree(geo, img', ino).leaves, o) == FileByte(img.data, geo, Tree(geo, img, ino).leaves, o)
    ensures Content(geo, img', ino) == Content(geo, img, ino)
  {
  }

  /** Growing the size over zero bytes extends the content with zeros. */
  lemma ContentExtends(geo: Geo, img: Image, img': Image, ino: nat, n: nat)
    requires geo.bs > 0 && Sized(img.data, geo) && Sized(img'.data, geo) && ino in img.inodes && ino in img'.inodes
    requires Tree(geo, img, ino).Parsed? && Tree(geo, img', ino).Parsed?
    requires img'.inodes[ino].size == n && img.inodes[ino].size <= n
    requires forall o: nat :: o < n ==> FileByte(img'.data, geo, Tree(geo, img', ino).leaves, o)
                                        == if o < img.inodes[ino].size then FileByte(img.data, geo, Tree(geo, img, ino).leaves, o) else 0
    ensures Content(geo, img', ino) == Extend(Content(geo, img, ino), n)
  {
  }

  /** The used set changed by exactly what the file gained and lost, and what it
      gained was free before. */
  ghost predicate Conserved(geo: Geo, img: Image, img': Image, ino: nat)
    requires Sized(img.data, geo) && Sized(img'.data, geo) && ino in img.inodes && ino in img'.inodes
  {
    && img'.used == img.used - Owned(geo, img, ino) + Owned(geo, img', ino)
    && (Owned(geo, img', ino) - Owned(geo, img, ino)) !! img.used
  }
}
