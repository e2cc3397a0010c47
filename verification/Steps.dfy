/** The device steps of the positional engine, one at a time: each leaves the
    volume sound and every other file exactly as it was. */
module Steps {
  import opened Bytes
  import opened Extents
  import opened ExtentTree
  import opened Volume
  import opened FileMath

  /** Every file reads back the same. */
  ghost predicate AllSame(geo: Geo, img: Image, img': Image) {
    && geo.bs > 0 && Sized(img.data, geo) && Sized(img'.data, geo)
    && img'.inodes.Keys == img.inodes.Keys
    && forall j {:trigger SameFile(geo, img, img', j)} :: j in img.inodes ==> SameFile(geo, img, img', j)
  }

  ghost predicate Unowned(geo: Geo, img: Image, b: nat)
    requires Sized(img.data, geo)
  {
    forall j {:trigger Owned(geo, img, j)} :: j in img.inodes ==> b !in Owned(geo, img, j)
  }

  lemma OwnedIsUsed(geo: Geo, img: Image, b: nat)
    requires ImageOk(geo, img) && b !in img.used
    ensures Unowned(geo, img, b)
  {
    forall j | j in img.inodes ensures b !in Owned(geo, img, j) {
      assert FileOk(geo, img, j);
    }
  }

  lemma AllSameTrans(geo: Geo, a: Image, b: Image, c: Image)
    requires AllSame(geo, a, b) && AllSame(geo, b, c)
    ensures AllSame(geo, a, c)
  {
    forall j | j in a.inodes ensures SameFile(geo, a, c, j) {
      assert SameFile(geo, a, b, j) && SameFile(geo, b, c, j);
    }
  }

  lemma OthersSameTrans(geo: Geo, a: Image, b: Image, c: Image, ino: nat)
    requires OthersSame(geo, a, b, ino) && OthersSame(geo, b, c, ino)
    ensures OthersSame(geo, a, c, ino)
  {
    forall j | j in a.inodes && j != ino ensures SameFile(geo, a, c, j) {
      assert SameFile(geo, a, b, j) && SameFile(geo, b, c, j);
    }
  }

  /** A step that disturbs no file and keeps every owned block marked used. */
  lemma QuietStep(geo: Geo, img: Image, img': Image)
    requires ImageOk(geo, img) && Sized(img'.data, geo) && img'.inodes == img.inodes
    requires 0 in img'.used && forall b :: b in img'.used ==> b < geo.blocks
    requires forall j {:trigger Undisturbed(geo, img, img', j)} :: j in img.inodes ==> Undisturbed(geo, img, img', j) && Owned(geo, img, j) <= img'.used
    ensures ImageOk(geo, img') && AllSame(geo, img, img')
    ensures forall j {:trigger Tree(geo, img', j)} :: j in img.inodes ==> Tree(geo, img', j) == Tree(geo, img, j)
  {
    forall j | j in img.inodes
      ensures FileOk(geo, img', j) && SameFile(geo, img, img', j) && Tree(geo, img', j) == Tree(geo, img, j)
    {
      UndisturbedFile(geo, img, img', j);
    }
    forall i, j | i in img'.inodes && j in img'.inodes && i != j
      ensures Owned(geo, img', i) !! Owned(geo, img', j)
    {
      assert SameFile(geo, img, img', i) && SameFile(geo, img, img', j);
    }
  }

  /** Marking further blocks used. */
  lemma AllocStep(geo: Geo, img: Image, img': Image)
    requires ImageOk(geo, img) && img' == img.(used := img'.used)
    requires img.used <= img'.used && forall b :: b in img'.used ==> b < geo.blocks
    ensures ImageOk(geo, img') && AllSame(geo, img, img')
    ensures forall j {:trigger Tree(geo, img', j)} :: j in img.inodes ==> Tree(geo, img', j) == Tree(geo, img, j)
  {
    forall j | j in img.inodes ensures Undisturbed(geo, img, img', j) && Owned(geo, img, j) <= img'.used {
      assert FileOk(geo, img, j);
    }
    QuietStep(geo, img, img');
  }

  /** Marking an unowned block free. */
  lemma FreeStep(geo: Geo, img: Image, b: nat)
    requires ImageOk(geo, img) && Unowned(geo, img, b) && b != 0
    ensures var img' := img.(used := img.used - {b});
            && ImageOk(geo, img') && AllSame(geo, img, img')
            && forall j {:trigger Tree(geo, img', j)} :: j in img.inodes ==> Tree(geo, img', j) == Tree(geo, img, j)
  {
    var img' := img.(used := img.used - {b});
    forall j | j in img.inodes ensures Undisturbed(geo, img, img', j) && Owned(geo, img, j) <= img'.used {
      assert FileOk(geo, img, j);
    }
    QuietStep(geo, img, img');
  }

  /** Writing a whole block that no file owns. */
  lemma UnownedWriteStep(geo: Geo, img: Image, b: nat, s: seq<byte>)
    requires ImageOk(geo, img) && b < geo.blocks && Unowned(geo, img, b) && |s| == geo.bs
    ensures b * geo.bs + |s| <= |img.data|
    ensures var img' := img.(data := Put(img.data, b * geo.bs, s));
            && ImageOk(geo, img') && AllSame(geo, img, img')
            && (forall j {:trigger Tree(geo, img', j)} :: j in img.inodes ==> Tree(geo, img', j) == Tree(geo, img, j))
            && BlockAt(img'.data, geo, b) == s
            && forall c: nat :: c < geo.blocks && c != b ==> BlockAt(img'.data, geo, c) == BlockAt(img.data, geo, c)
  {
    BlockFits(geo, b);
    var img' := img.(data := Put(img.data, b * geo.bs, s));
    forall c: nat | c < geo.blocks && c != b ensures BlockAt(img'.data, geo, c) == BlockAt(img.data, geo, c) {
      assert (b + 1) * geo.bs == b * geo.bs + geo.bs;
      PutOutside(img.data, geo, b * geo.bs, s, b, b + 1, c);
    }
    forall j | j in img.inodes ensures Undisturbed(geo, img, img', j) && Owned(geo, img, j) <= img'.used {
      assert FileOk(geo, img, j);
      assert b !in Owned(geo, img, j);
    }
    QuietStep(geo, img, img');
  }

  /** A write through one run leaves the blocks outside the map alone. */
  lemma RunWriteOutside(data: seq<byte>, geo: Geo, ls: seq<Leaf>, i: nat, o: nat, s: seq<byte>, po: nat)
    requires Sized(data, geo) && InBounds(geo, ls) && i < |ls|
    requires ls[i].log * geo.bs <= o && o + |s| <= (ls[i].log + ls[i].count) * geo.bs
    requires po == ls[i].phys * geo.bs + (o - ls[i].log * geo.bs) && po + |s| <= |data|
    ensures forall b: nat :: b < geo.blocks && b !in Blocks(ls) ==> BlockAt(Put(data, po, s), geo, b) == BlockAt(data, geo, b)
  {
    var l := ls[i];
    assert LeafInBounds(geo, l);
    RunFits(geo, l, o, |s|);
    forall b: nat | b < geo.blocks && b !in Blocks(ls)
      ensures BlockAt(Put(data, po, s), geo, b) == BlockAt(data, geo, b)
    {
      assert l.phys <= b < l.phys + l.count ==> Maps(ls, l.log + (b - l.phys), b) by { assert l in ls; }
      PutOutside(data, geo, po, s, l.phys, l.phys + l.count, b);
    }
  }

  /** Writing through one of a file's own runs. */
  lemma OwnWriteStep(geo: Geo, img: Image, ino: nat, i: nat, o: nat, s: seq<byte>, po: nat)
    requires ImageOk(geo, img) && ino in img.inodes && FileOk(geo, img, ino) && i < |Tree(geo, img, ino).leaves|
    requires var ls := Tree(geo, img, ino).leaves;
             && ls[i].log * geo.bs <= o && o + |s| <= (ls[i].log + ls[i].count) * geo.bs
             && po == ls[i].phys * geo.bs + (o - ls[i].log * geo.bs)
    requires po + |s| <= |img.data|
    requires TailZero(Put(img.data, po, s), geo, Tree(geo, img, ino).leaves, img.inodes[ino].size)
    ensures var img' := img.(data := Put(img.data, po, s));
            && ImageOk(geo, img') && OthersSame(geo, img, img', ino)
            && Tree(geo, img', ino) == Tree(geo, img, ino)
  {
    var img' := img.(data := Put(img.data, po, s));
    var r := Tree(geo, img, ino);
    var ls := r.leaves;
    RunWriteOutside(img.data, geo, ls, i, o, s, po);
    ParseFrame(geo, img, img', ino);
    forall j | j in img.inodes && j != ino ensures Undisturbed(geo, img, img', j) && Owned(geo, img, j) <= img'.used {
      assert FileOk(geo, img, j);
      assert Owned(geo, img, ino) !! Owned(geo, img, j);
    }
    VolumeStep(geo, img, img', ino);
  }

  /** The blocks of the new map are reserved for this file and apart from its leaf block. */
  ghost predicate Claimable(geo: Geo, img: Image, ino: nat, ms: seq<Leaf>)
    requires Sized(img.data, geo) && ino in img.inodes && Tree(geo, img, ino).Parsed?
  {
    && Blocks(ms) <= img.used
    && (forall j {:trigger Owned(geo, img, j)} :: j in img.inodes && j != ino ==> Blocks(ms) !! Owned(geo, img, j))
    && (forall c :: c in Tree(geo, img, ino).seen ==> c !in Blocks(ms))
  }

  /** What a root stored in the inode must satisfy to denote map ms. */
  ghost predicate RootFor(geo: Geo, img: Image, root: seq<byte>, ms: seq<Leaf>)
    requires Sized(img.data, geo)
  {
    && |root| == IBLOCK
    && var r := ParseRoot(img.data, geo, root);
       && r.Parsed? && r.leaves == ms
       && r.seen == (if SingleChild(root).Some? then [SingleChild(root).value] else [])
  }

  /** The commit point: one inode write switches the file to a new map and size. */
  lemma InodeStep(geo: Geo, img: Image, ino: nat, root: seq<byte>, ms: seq<Leaf>, size: nat)
    requires ImageOk(geo, img) && ino in img.inodes && FileOk(geo, img, ino) && MapOk(geo, ms) && Claimable(geo, img, ino, ms)
    requires RootFor(geo, img, root, ms) && TailZero(img.data, geo, ms, size)
    requires forall c :: c in ParseRoot(img.data, geo, root).seen ==> c !in Blocks(ms) && c in img.used && Unowned(geo, img, c)
    ensures var img' := img.(inodes := img.inodes[ino := Inode(root, size)]);
            && ImageOk(geo, img') && OthersSame(geo, img, img', ino)
            && Tree(geo, img', ino).Parsed? && Tree(geo, img', ino).leaves == ms
            && Tree(geo, img', ino).seen == ParseRoot(img.data, geo, root).seen
  {
    var img' := img.(inodes := img.inodes[ino := Inode(root, size)]);
    assert Tree(geo, img', ino) == ParseRoot(img.data, geo, root);
    forall j | j in img.inodes && j != ino ensures Undisturbed(geo, img, img', j) && Owned(geo, img, j) <= img'.used {
      assert FileOk(geo, img, j);
    }
    assert FileOk(geo, img', ino);
    forall j | j in img.inodes && j != ino ensures Owned(geo, img', ino) !! Owned(geo, img, j) {
    }
    assert img'.inodes.Keys == img.inodes.Keys;
    VolumeStep(geo, img, img', ino);
  }
}
