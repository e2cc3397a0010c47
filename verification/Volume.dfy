/** The persisted state of a volume and what makes it sound: every file's extent
    tree parses, and no block is owned twice or marked free while owned. */
module Volume {
  import opened Bytes
  import opened Extents
  import opened ExtentTree

  /** The two inode fields the positional engine rewrites: i_block and i_size. */
  datatype Inode = Inode(iblock: seq<byte>, size: nat)

  /** Image bytes, the block bitmap as a set, and the inode table. */
  datatype Image = Image(data: seq<byte>, used: set<nat>, inodes: map<nat, Inode>)

  // ---------------------------------------------------------------- one file

  /** Leaves the engine accepts: sorted, injective, inside the volume and the on-disk fields. */
  ghost predicate MapOk(geo: Geo, ls: seq<Leaf>) {
    SortedMap(ls) && Injective(ls) && InBounds(geo, ls)
  }

  predicate InBounds(geo: Geo, ls: seq<Leaf>) {
    forall i :: 0 <= i < |ls| ==> LeafInBounds(geo, ls[i])
  }

  predicate LeafInBounds(geo: Geo, l: Leaf) {
    1 <= l.count <= 0x8000 && l.log + l.count <= U32 && 0 < l.phys && l.phys + l.count <= geo.blocks
  }

  lemma InBoundsEncodable(geo: Geo, ls: seq<Leaf>)
    requires InBounds(geo, ls) && geo.blocks <= U48
    ensures AllEncodable(ls)
  {
  }

  lemma BlocksInBounds(geo: Geo, ls: seq<Leaf>, p: nat)
    requires InBounds(geo, ls) && p in Blocks(ls)
    ensures 0 < p < geo.blocks
  {
    var b: nat :| Maps(ls, b, p);
    var l :| l in ls && Covers(l, b) && p == l.phys + (b - l.log);
    var i :| 0 <= i < |ls| && ls[i] == l;
    assert LeafInBounds(geo, ls[i]);
  }

  /** Byte o of the file the leaves describe; holes read as zero. */
  ghost function FileByte(data: seq<byte>, geo: Geo, ls: seq<Leaf>, o: nat): byte
    requires Sized(data, geo) && geo.bs > 0
  {
    var p := Phys(ls, o / geo.bs);
    if p.Some? && p.value < geo.blocks then
      BlockFits(geo, p.value);
      data[p.value * geo.bs + o % geo.bs]
    else 0
  }

  /** The first size bytes of that file. */
  ghost function FileBytes(data: seq<byte>, geo: Geo, ls: seq<Leaf>, size: nat): (c: seq<byte>)
    requires Sized(data, geo) && geo.bs > 0
    ensures |c| == size
    ensures forall o :: 0 <= o < size ==> c[o] == FileByte(data, geo, ls, o)
  {
    seq(size, o requires 0 <= o => FileByte(data, geo, ls, o))
  }

  /** Blocks mapped wholly past the end of the file hold zeros. */
  ghost predicate TailZero(data: seq<byte>, geo: Geo, ls: seq<Leaf>, size: nat)
    requires Sized(data, geo) && geo.bs > 0
  {
    forall o: nat :: o / geo.bs * geo.bs >= size ==> FileByte(data, geo, ls, o) == 0
  }

  function Tree(geo: Geo, img: Image, ino: nat): Parsed
    requires Sized(img.data, geo) && ino in img.inodes
  {
    ParseRoot(img.data, geo, img.inodes[ino].iblock)
  }

  /** The data and index blocks file ino reaches. */
  ghost function Owned(geo: Geo, img: Image, ino: nat): set<nat>
    requires Sized(img.data, geo) && ino in img.inodes
  {
    match Tree(geo, img, ino)
    case Failed(_) => {}
    case Parsed(ls, seen) => Blocks(ls) + set c | c in seen
  }

  /** File ino as persisted: a tree of the driver's shape over blocks marked used. */
  ghost predicate FileOk(geo: Geo, img: Image, ino: nat)
    requires Sized(img.data, geo) && ino in img.inodes && geo.bs > 0
  {
    var n, r := img.inodes[ino], Tree(geo, img, ino);
    && |n.iblock| == IBLOCK
    && r.Parsed? && MapOk(geo, r.leaves)
    && r.seen == (if SingleChild(n.iblock).Some? then [SingleChild(n.iblock).value] else [])
    && (forall c :: c in r.seen ==> c !in Blocks(r.leaves))
    && Owned(geo, img, ino) <= img.used
    && TailZero(img.data, geo, r.leaves, n.size)
  }

  ghost function Content(geo: Geo, img: Image, ino: nat): (c: seq<byte>)
    requires Sized(img.data, geo) && ino in img.inodes && geo.bs > 0
  {
    match Tree(geo, img, ino)
    case Failed(_) => []
    case Parsed(ls, _) => FileBytes(img.data, geo, ls, img.inodes[ino].size)
  }

  // ---------------------------------------------------------------- the volume

  ghost predicate Separate(geo: Geo, img: Image)
    requires Sized(img.data, geo)
  {
    forall i, j {:trigger Owned(geo, img, i), Owned(geo, img, j)} :: i in img.inodes && j in img.inodes && i != j ==> Owned(geo, img, i) !! Owned(geo, img, j)
  }

  /** Sound state: what must hold between any two device writes. */
  ghost predicate ImageOk(geo: Geo, img: Image) {
    && geo.Valid() && Sized(img.data, geo)
    && 0 in img.used && (forall b :: b in img.used ==> b < geo.blocks)
    && (forall i {:trigger FileOk(geo, img, i)} :: i in img.inodes ==> FileOk(geo, img, i))
    && Separate(geo, img)
  }

  /** File j's inode and every block it owns are the same in both states. */
  ghost predicate Undisturbed(geo: Geo, img: Image, img': Image, j: nat)
    requires Sized(img.data, geo) && Sized(img'.data, geo) && j in img.inodes
  {
    && j in img'.inodes && img'.inodes[j] == img.inodes[j]
    && forall b :: b in Owned(geo, img, j) && b < geo.blocks ==> BlockAt(img'.data, geo, b) == BlockAt(img.data, geo, b)
  }

  // ---------------------------------------------------------------- framing

  lemma {:induction false} ParseEntriesFrame(data: seq<byte>, data': seq<byte>, geo: Geo, buf: seq<byte>, entries: nat, depth: nat, i: nat, seen: seq<nat>)
    requires Sized(data, geo) && Sized(data', geo) && entries < U16
    requires var r := ParseEntries(data, geo, buf, entries, depth, i, seen);
             forall b :: b in r.seen && b < geo.blocks ==> BlockAt(data', geo, b) == BlockAt(data, geo, b)
    ensures ParseEntries(data', geo, buf, entries, depth, i, seen) == ParseEntries(data, geo, buf, entries, depth, i, seen)
    ensures seen <= ParseEntries(data, geo, buf, entries, depth, i, seen).seen
    decreases depth, entries - i
  {
    hide ParseNode, DecodeLeaf, DecodeIndex, BlockAt;
    if i < entries && 24 + 12 * i <= |buf| {
      if depth == 0 {
        ParseEntriesFrame(data, data', geo, buf, entries, depth, i + 1, seen);
      } else {
        var child := DecodeIndex(buf[12 + 12 * i..24 + 12 * i]);
        if 0 < child < geo.blocks && child !in seen {
          var sub := ParseNode(data, geo, BlockAt(data, geo, child), depth - 1, seen + [child]);
          if sub.Parsed? { ParseEntriesFrame(data, data', geo, buf, entries, depth, i + 1, sub.seen); }
          ParseNodeFrame(data, data', geo, BlockAt(data, geo, child), depth - 1, seen + [child]);
          assert child in seen + [child];
        }
      }
    }
  }

  /** Parsing depends only on the index blocks it reads. */
  lemma {:induction false} ParseNodeFrame(data: seq<byte>, data': seq<byte>, geo: Geo, buf: seq<byte>, want: nat, seen: seq<nat>)
    requires Sized(data, geo) && Sized(data', geo)
    requires var r := ParseNode(data, geo, buf, want, seen);
             forall b :: b in r.seen && b < geo.blocks ==> BlockAt(data', geo, b) == BlockAt(data, geo, b)
    ensures ParseNode(data', geo, buf, want, seen) == ParseNode(data, geo, buf, want, seen)
    ensures seen <= ParseNode(data, geo, buf, want, seen).seen
    decreases want, U16
  {
    hide ParseEntries, BlockAt, UnLE;
    if |buf| >= 12 && UnLE(buf[0..2]) == EXTENT_MAGIC && UnLE(buf[6..8]) == want <= MAX_DEPTH {
      EntriesFit(buf);
      ParseEntriesFrame(data, data', geo, buf, UnLE(buf[2..4]), want, 0, seen);
    }
  }

  /** The same for a whole tree, whether it is accepted or refused. */
  lemma ParseFrame(geo: Geo, img: Image, img': Image, ino: nat)
    requires Sized(img.data, geo) && Sized(img'.data, geo) && ino in img.inodes && ino in img'.inodes && img'.inodes[ino] == img.inodes[ino]
    requires forall b :: b in Tree(geo, img, ino).seen && b < geo.blocks ==> BlockAt(img'.data, geo, b) == BlockAt(img.data, geo, b)
    ensures Tree(geo, img', ino) == Tree(geo, img, ino)
  {
    hide ParseNode, BlockAt;
    var buf := img.inodes[ino].iblock;
    if |buf| >= 12 && UnLE(buf[6..8]) <= MAX_DEPTH {
      ParseNodeFrame(img.data, img'.data, geo, buf, UnLE(buf[6..8]), []);
    }
  }

  lemma ByteFrame(data: seq<byte>, data': seq<byte>, geo: Geo, ls: seq<Leaf>, o: nat)
    requires Sized(data, geo) && Sized(data', geo) && geo.bs > 0
    requires forall b :: b in Blocks(ls) && b < geo.blocks ==> BlockAt(data', geo, b) == BlockAt(data, geo, b)
    ensures FileByte(data', geo, ls, o) == FileByte(data, geo, ls, o)
  {
    var p := Phys(ls, o / geo.bs);
    if p.Some? && p.value < geo.blocks {
      assert p.value in Blocks(ls);
      BlockFits(geo, p.value);
      assert BlockAt(data, geo, p.value)[o % geo.bs] == data[p.value * geo.bs + o % geo.bs];
      assert BlockAt(data', geo, p.value)[o % geo.bs] == data'[p.value * geo.bs + o % geo.bs];
    }
  }

  /** A file whose inode and owned blocks are untouched reads back unchanged and stays sound. */
  lemma UndisturbedFile(geo: Geo, img: Image, img': Image, j: nat)
    requires geo.Valid() && Sized(img.data, geo) && Sized(img'.data, geo) && j in img.inodes
    requires FileOk(geo, img, j) && Undisturbed(geo, img, img', j)
    ensures Tree(geo, img', j) == Tree(geo, img, j)
    ensures Owned(geo, img', j) == Owned(geo, img, j)
    ensures Content(geo, img', j) == Content(geo, img, j)
    ensures Owned(geo, img, j) <= img'.used ==> FileOk(geo, img', j)
  {
    var n, r := img.inodes[j], Tree(geo, img, j);
    ParseFrame(geo, img, img', j);
    forall o: nat ensures FileByte(img'.data, geo, r.leaves, o) == FileByte(img.data, geo, r.leaves, o) {
      ByteFrame(img.data, img'.data, geo, r.leaves, o);
    }
  }

  /** Every file but ino keeps its inode, its blocks and their bitmap bits. */
  ghost predicate OthersKept(geo: Geo, img: Image, img': Image, ino: nat)
    requires Sized(img.data, geo) && Sized(img'.data, geo)
  {
    && img'.inodes.Keys == img.inodes.Keys
    && forall j {:trigger Undisturbed(geo, img, img', j)} :: j in img.inodes && j != ino ==> Undisturbed(geo, img, img', j) && Owned(geo, img, j) <= img'.used
  }

  /** File j reads back the same bytes from the same blocks. */
  ghost predicate SameFile(geo: Geo, img: Image, img': Image, j: nat)
    requires Sized(img.data, geo) && Sized(img'.data, geo) && geo.bs > 0 && j in img.inodes && j in img'.inodes
  {
    && img'.inodes[j] == img.inodes[j]
    && Owned(geo, img', j) == Owned(geo, img, j)
    && Content(geo, img', j) == Content(geo, img, j)
  }

  /** Isolation: nothing any other file owns or reads has changed. */
  ghost predicate OthersSame(geo: Geo, img: Image, img': Image, ino: nat) {
    && geo.bs > 0 && Sized(img.data, geo) && Sized(img'.data, geo)
    && img'.inodes.Keys == img.inodes.Keys
    && forall j {:trigger SameFile(geo, img, img', j)} :: j in img.inodes && j != ino ==> SameFile(geo, img, img', j)
  }

  lemma KeptIsSame(geo: Geo, img: Image, img': Image, ino: nat)
    requires ImageOk(geo, img) && Sized(img'.data, geo) && OthersKept(geo, img, img', ino)
    ensures OthersSame(geo, img, img', ino)
    ensures forall j {:trigger FileOk(geo, img', j)} :: j in img.inodes && j != ino ==> FileOk(geo, img', j)
  {
    forall j | j in img.inodes && j != ino
      ensures SameFile(geo, img, img', j) && FileOk(geo, img', j)
    {
      UndisturbedFile(geo, img, img', j);
    }
  }

  /** Every file but ino kept, and ino sound on its own: the volume is sound. */
  lemma VolumeStep(geo: Geo, img: Image, img': Image, ino: nat)
    requires ImageOk(geo, img) && ino in img.inodes && Sized(img'.data, geo) && OthersKept(geo, img, img', ino)
    requires 0 in img'.used && forall b :: b in img'.used ==> b < geo.blocks
    requires FileOk(geo, img', ino)
    requires forall j {:trigger Owned(geo, img, j)} :: j in img.inodes && j != ino ==> Owned(geo, img', ino) !! Owned(geo, img, j)
    ensures ImageOk(geo, img') && OthersSame(geo, img, img', ino)
  {
    KeptIsSame(geo, img, img', ino);
    forall i, j | i in img'.inodes && j in img'.inodes && i != j
      ensures Owned(geo, img', i) !! Owned(geo, img', j)
    {
      assert i in img.inodes && j in img.inodes;
      assert i != ino ==> SameFile(geo, img, img', i);
      assert j != ino ==> SameFile(geo, img, img', j);
    }
  }

  // ---------------------------------------------------------------- local writes

  /** A write confined to blocks [lo, hi) leaves every other block alone. */
  lemma PutOutside(data: seq<byte>, geo: Geo, off: nat, s: seq<byte>, lo: nat, hi: nat, b: nat)
    requires Sized(data, geo) && lo <= hi <= geo.blocks && b < geo.blocks && !(lo <= b < hi)
    requires lo * geo.bs <= off && off + |s| <= hi * geo.bs <= |data|
    ensures BlockAt(Put(data, off, s), geo, b) == BlockAt(data, geo, b)
  {
    hide Put;
    BlockFits(geo, b);
    if b < lo {
      BlockBefore(geo.bs, b, lo);
    } else {
      MulMono(hi, b, geo.bs);
    }
    PutAway(data, off, s, b * geo.bs, geo.bs);
  }

  lemma BlockBefore(bs: nat, b: nat, lo: nat)
    requires b < lo
    ensures b * bs + bs <= lo * bs
  {
    MulMono(b + 1, lo, bs);
  }

  /** A splice elsewhere leaves a stretch alone. */
  lemma PutAway(data: seq<byte>, off: nat, s: seq<byte>, lo: nat, n: nat)
    requires off + |s| <= |data| && lo + n <= |data| && (lo + n <= off || off + |s| <= lo)
    ensures Put(data, off, s)[lo..lo + n] == data[lo..lo + n]
  {
  }
}
