/** What the positional engine promises: which intermediate states are safe, and
    what a commit, a growth or a cut does to a file and to the volume. */
module EngineSpec {
  import opened Bytes
  import opened Extents
  import opened ExtentTree
  import opened Volume
  import opened FileMath
  import opened Steps
  import opened ReadPath
  import opened GrowPath

  datatype Err = Ok | Closed | BadOffset | EOF | OutOfRange | NoSpace | TooManyExtents | Unmapped

  /** More leaves than a root or one leaf block can hold. */
  ghost predicate Overfull(geo: Geo, n: int)
    requires geo.Valid()
  {
    n > INLINE_CAP && n > geo.LeafCap()
  }

  // ---------------------------------------------------------------- crash points

  /** A device state after which a crash is harmless: the volume is sound, other
      files are untouched and file ino holds one of the listed contents. */
  ghost predicate SafePoint(geo: Geo, img0: Image, h: Image, ino: nat, cs: set<seq<byte>>) {
    && ImageOk(geo, h) && OthersSame(geo, img0, h, ino) && ino in h.inodes
    && Content(geo, h, ino) in cs
  }

  ghost predicate Trail(geo: Geo, hs: seq<Image>, img0: Image, ino: nat, cs: set<seq<byte>>) {
    forall k :: 0 <= k < |hs| ==> SafePoint(geo, img0, hs[k], ino, cs)
  }

  lemma TrailJoin(geo: Geo, hs: seq<Image>, ts: seq<Image>, img0: Image, img1: Image, ino: nat, cs: set<seq<byte>>, ds: set<seq<byte>>, all: set<seq<byte>>)
    requires Trail(geo, hs, img0, ino, cs) && Trail(geo, ts, img1, ino, ds)
    requires OthersSame(geo, img0, img1, ino) && cs <= all && ds <= all
    ensures Trail(geo, hs + ts, img0, ino, all)
  {
    forall k | 0 <= k < |hs + ts| ensures SafePoint(geo, img0, (hs + ts)[k], ino, all) {
      if k < |hs| {
        assert SafePoint(geo, img0, hs[k], ino, cs);
      } else {
        assert SafePoint(geo, img1, ts[k - |hs|], ino, ds);
        OthersSameTrans(geo, img0, img1, ts[k - |hs|], ino);
      }
    }
  }

  lemma TrailOne(geo: Geo, img0: Image, h: Image, ino: nat, cs: set<seq<byte>>)
    requires SafePoint(geo, img0, h, ino, cs)
    ensures Trail(geo, [h], img0, ino, cs)
  {
  }

  // ---------------------------------------------------------------- an open file

  /** The handle's map and size are those of the persisted inode on a sound volume. */
  ghost predicate Synced(geo: Geo, img: Image, ino: nat, ls: seq<Leaf>, size: nat) {
    && ImageOk(geo, img) && ino in img.inodes
    && FileOk(geo, img, ino)
    && Tree(geo, img, ino).leaves == ls && img.inodes[ino].size == size
  }

  lemma SyncedMeans(geo: Geo, img: Image, ino: nat, ls: seq<Leaf>, size: nat)
    requires Synced(geo, img, ino, ls, size)
    ensures geo.Valid() && Sized(img.data, geo) && SortedMap(ls) && InBounds(geo, ls)
    ensures ino in img.inodes && |Content(geo, img, ino)| == size
    ensures Tree(geo, img, ino).Parsed? && Tree(geo, img, ino).leaves == ls
  {
  }

  /** What a successful commit of map ms and size n needs of the state before it. */
  ghost predicate Committable(geo: Geo, img: Image, ino: nat, ms: seq<Leaf>, n: nat)
    requires ImageOk(geo, img) && ino in img.inodes && FileOk(geo, img, ino)
  {
    MapOk(geo, ms) && Claimable(geo, img, ino, ms) && TailZero(img.data, geo, ms, n)
  }

  ghost function Index(geo: Geo, img: Image, ino: nat): set<nat>
    requires Sized(img.data, geo) && ino in img.inodes && Tree(geo, img, ino).Parsed?
  {
    set c | c in Tree(geo, img, ino).seen
  }

  ghost predicate FreshChild(geo: Geo, img: Image, ino: nat, c: nat)
    requires Sized(img.data, geo) && ino in img.inodes
  {
    0 < c < geo.blocks && c !in img.used
  }

  /** State after a new leaf block was allocated and written, before the inode is. */
  lemma LeafBlockReady(geo: Geo, img: Image, img1: Image, img2: Image, ino: nat, c: nat, s: seq<byte>)
    requires ImageOk(geo, img) && ino in img.inodes && FreshChild(geo, img, ino, c) && |s| == geo.bs
    requires img1 == img.(used := img.used + {c})
    requires c * geo.bs + geo.bs <= |img.data| && img2 == img1.(data := Put(img.data, c * geo.bs, s))
    ensures ImageOk(geo, img1) && AllSame(geo, img, img1)
    ensures ImageOk(geo, img2) && AllSame(geo, img, img2)
    ensures Tree(geo, img2, ino) == Tree(geo, img, ino)
    ensures BlockAt(img2.data, geo, c) == s && Unowned(geo, img2, c)
    ensures forall b: nat :: b < geo.blocks && b != c ==> BlockAt(img2.data, geo, b) == BlockAt(img.data, geo, b)
  {
    AllocStep(geo, img, img1);
    OwnedIsUsed(geo, img, c);
    forall j | j in img1.inodes ensures c !in Owned(geo, img1, j) {
      assert SameFile(geo, img, img1, j);
    }
    UnownedWriteStep(geo, img1, c, s);
    AllSameTrans(geo, img, img1, img2);
    forall j | j in img2.inodes ensures c !in Owned(geo, img2, j) {
      assert SameFile(geo, img, img2, j);
    }
    assert Tree(geo, img1, ino) == Tree(geo, img, ino);
  }

  /** The root `writeExtentTree` stores. */
  function RootOf(ms: seq<Leaf>, c: nat): (r: seq<byte>)
    ensures |r| == IBLOCK
  {
    if |ms| <= INLINE_CAP then NodeBytes(ms, INLINE_CAP, IBLOCK) else IndexRoot(ms[0].log, c)
  }

  lemma RootParses(geo: Geo, img: Image, ms: seq<Leaf>, c: nat)
    requires geo.Valid() && Sized(img.data, geo) && MapOk(geo, ms) && 12 + 12 * |ms| <= geo.bs
    requires |ms| > INLINE_CAP ==> 0 < c < geo.blocks && BlockAt(img.data, geo, c) == NodeBytes(ms, geo.LeafCap(), geo.bs)
    ensures RootFor(geo, img, RootOf(ms, c), ms)
    ensures ParseRoot(img.data, geo, RootOf(ms, c)).seen == if |ms| <= INLINE_CAP then [] else [c]
  {
    SortedInjectiveApart(ms);
    InBoundsEncodable(geo, ms);
    if |ms| <= INLINE_CAP {
      InlineRoundTrip(img.data, geo, ms);
    } else {
      NodeHoldsLeaves(ms, geo.LeafCap(), geo.bs);
      IndexRoundTrip(img.data, geo, ms, ms[0].log, c);
    }
  }

  /** The inode write of a commit, from a state that differs from img only in an
      unowned leaf block c. */
  lemma CommitPoint(geo: Geo, img: Image, img2: Image, ino: nat, ms: seq<Leaf>, n: nat, c: nat)
    requires ImageOk(geo, img) && ino in img.inodes && FileOk(geo, img, ino) && Committable(geo, img, ino, ms, n)
    requires ImageOk(geo, img2) && AllSame(geo, img, img2) && Tree(geo, img2, ino) == Tree(geo, img, ino)
    requires 12 + 12 * |ms| <= geo.bs && img.used <= img2.used
    requires forall b :: b in img.used ==> BlockAt(img2.data, geo, b) == BlockAt(img.data, geo, b)
    requires |ms| > INLINE_CAP ==> && FreshChild(geo, img, ino, c) && c in img2.used && Unowned(geo, img2, c)
                                   && BlockAt(img2.data, geo, c) == NodeBytes(ms, geo.LeafCap(), geo.bs)
    ensures var img3 := img2.(inodes := img2.inodes[ino := Inode(RootOf(ms, c), n)]);
            && Synced(geo, img3, ino, ms, n) && OthersSame(geo, img, img3, ino)
            && Tree(geo, img3, ino).seen == (if |ms| <= INLINE_CAP then [] else [c])
            && forall o: nat :: FileByte(img3.data, geo, ms, o) == FileByte(img.data, geo, ms, o)
  {
    hide ParseRoot, NodeBytes, Separate, MapOk;
    RootParses(geo, img2, ms, c);
    forall o: nat ensures FileByte(img2.data, geo, ms, o) == FileByte(img.data, geo, ms, o) {
      ByteFrame(img.data, img2.data, geo, ms, o);
    }
    assert Claimable(geo, img2, ino, ms) by {
      forall j | j in img2.inodes && j != ino ensures Blocks(ms) !! Owned(geo, img2, j) {
        assert SameFile(geo, img, img2, j);
      }
    }
    InodeStep(geo, img2, ino, RootOf(ms, c), ms, n);
    var img3 := img2.(inodes := img2.inodes[ino := Inode(RootOf(ms, c), n)]);
    assert OthersSame(geo, img, img2, ino);
    OthersSameTrans(geo, img, img2, img3, ino);
    assert FileOk(geo, img3, ino);
  }

  /** The superseded leaf block is reachable from no inode any more. */
  lemma OldChildFree(geo: Geo, img: Image, img3: Image, ino: nat, ms: seq<Leaf>, c0: nat)
    requires ImageOk(geo, img) && ino in img.inodes && FileOk(geo, img, ino) && Claimable(geo, img, ino, ms)
    requires c0 in Tree(geo, img, ino).seen
    requires ImageOk(geo, img3) && OthersSame(geo, img, img3, ino)
    requires Tree(geo, img3, ino).Parsed? && Tree(geo, img3, ino).leaves == ms && c0 !in Tree(geo, img3, ino).seen
    ensures Unowned(geo, img3, c0) && 0 < c0 < geo.blocks
  {
    ParseRootReadsOnce(img.data, geo, img.inodes[ino].iblock);
    assert c0 in Owned(geo, img, ino);
    forall j | j in img3.inodes ensures c0 !in Owned(geo, img3, j) {
      if j != ino {
        assert SameFile(geo, img, img3, j);
        assert Owned(geo, img, ino) !! Owned(geo, img, j);
      }
    }
  }

  /** Everything a commit of map ms and size n achieves. */
  ghost predicate CommitDone(geo: Geo, img: Image, img': Image, ino: nat, ms: seq<Leaf>, n: nat, steps: seq<Image>) {
    && Synced(geo, img', ino, ms, n) && OthersSame(geo, img, img', ino)
    && ino in img.inodes && Tree(geo, img, ino).Parsed?
    && (forall o: nat :: FileByte(img'.data, geo, ms, o) == FileByte(img.data, geo, ms, o))
    && img'.used == img.used - Index(geo, img, ino) + Index(geo, img', ino) && Index(geo, img', ino) !! img.used
    && Trail(geo, steps, img, ino, {Content(geo, img, ino), Content(geo, img', ino)})
  }

  /** The device states of a commit, in order. */
  lemma CommitTrail(geo: Geo, img: Image, pre: seq<Image>, img3: Image, ino: nat)
    requires ImageOk(geo, img) && ino in img.inodes
    requires forall k :: 0 <= k < |pre| ==> ImageOk(geo, pre[k]) && AllSame(geo, img, pre[k])
    requires ImageOk(geo, img3) && ino in img3.inodes && OthersSame(geo, img, img3, ino)
    ensures Trail(geo, pre + [img3], img, ino, {Content(geo, img, ino), Content(geo, img3, ino)})
  {
    var hs := pre + [img3];
    forall k | 0 <= k < |hs|
      ensures SafePoint(geo, img, hs[k], ino, {Content(geo, img, ino), Content(geo, img3, ino)})
    {
      if k < |pre| {
        assert SameFile(geo, img, pre[k], ino);
      }
    }
  }

  lemma FreeAfterCommit(geo: Geo, img: Image, img3: Image, ino: nat, ms: seq<Leaf>, n: nat, steps: seq<Image>, c0: nat)
    requires ImageOk(geo, img) && ino in img.inodes && FileOk(geo, img, ino) && Claimable(geo, img, ino, ms)
    requires Tree(geo, img, ino).seen == [c0] && c0 in img.used
    requires Synced(geo, img3, ino, ms, n) && OthersSame(geo, img, img3, ino) && c0 !in Tree(geo, img3, ino).seen
    requires forall o: nat :: FileByte(img3.data, geo, ms, o) == FileByte(img.data, geo, ms, o)
    requires img3.used == img.used + Index(geo, img3, ino) && Index(geo, img3, ino) !! img.used
    requires Trail(geo, steps, img, ino, {Content(geo, img, ino), Content(geo, img3, ino)})
    ensures var img4 := img3.(used := img3.used - {c0});
            CommitDone(geo, img, img4, ino, ms, n, steps + [img4])
  {
    hide TailZero, MapOk, SingleChild, FileByte, InBounds, Claimable, Separate, ParseRoot;
    OldChildFree(geo, img, img3, ino, ms, c0);
    FreeStep(geo, img3, c0);
    var img4 := img3.(used := img3.used - {c0});
    assert Tree(geo, img4, ino) == Tree(geo, img3, ino);
    assert SameFile(geo, img3, img4, ino);
    assert FileOk(geo, img4, ino);
    OthersSameTrans(geo, img, img3, img4, ino);
    var cs := {Content(geo, img, ino), Content(geo, img4, ino)};
    TrailOne(geo, img3, img4, ino, cs);
    TrailJoin(geo, steps, [img4], img, img3, ino, cs, cs, cs);
    assert Index(geo, img, ino) == {c0};
  }

  /** What writing the tree does to the device: nothing for an inline root, else
      one allocation and one block write. */
  ghost predicate TreeWritten(geo: Geo, img: Image, img2: Image, exts: seq<Leaf>, c: nat, pre: seq<Image>) {
    && geo.Valid() && Sized(img.data, geo) && 12 + 12 * |exts| <= geo.bs
    && if |exts| <= INLINE_CAP then img2 == img && pre == []
       else
         && 0 < c < geo.blocks && c !in img.used
         && c * geo.bs + geo.bs <= |img.data|
         && |pre| == 2 && pre[0] == img.(used := img.used + {c}) && pre[1] == img2
         && img2 == pre[0].(data := Put(img.data, c * geo.bs, NodeBytes(exts, geo.LeafCap(), geo.bs)))
  }

  lemma TreeWrittenQuiet(geo: Geo, img: Image, img2: Image, ino: nat, exts: seq<Leaf>, c: nat, pre: seq<Image>)
    requires ImageOk(geo, img) && ino in img.inodes && TreeWritten(geo, img, img2, exts, c, pre)
    ensures forall k :: 0 <= k < |pre| ==> ImageOk(geo, pre[k]) && AllSame(geo, img, pre[k])
    ensures ImageOk(geo, img2) && AllSame(geo, img, img2) && Tree(geo, img2, ino) == Tree(geo, img, ino)
    ensures img.used <= img2.used && forall b :: b in img.used ==> BlockAt(img2.data, geo, b) == BlockAt(img.data, geo, b)
    ensures |exts| > INLINE_CAP ==> && FreshChild(geo, img, ino, c) && img2.used == img.used + {c} && Unowned(geo, img2, c)
                                    && BlockAt(img2.data, geo, c) == NodeBytes(exts, geo.LeafCap(), geo.bs)
    ensures |exts| <= INLINE_CAP ==> img2.used == img.used
  {
    if |exts| > INLINE_CAP {
      LeafBlockReady(geo, img, pre[0], img2, ino, c, NodeBytes(exts, geo.LeafCap(), geo.bs));
    }
  }

  /** A commit up to and including its inode write. */
  lemma CommitProof(geo: Geo, img: Image, img2: Image, img3: Image, ino: nat, exts: seq<Leaf>, n: nat, c: nat, pre: seq<Image>)
    requires ImageOk(geo, img) && ino in img.inodes && FileOk(geo, img, ino) && Committable(geo, img, ino, exts, n)
    requires TreeWritten(geo, img, img2, exts, c, pre)
    requires img3 == img2.(inodes := img2.inodes[ino := Inode(RootOf(exts, c), n)])
    ensures Synced(geo, img3, ino, exts, n) && OthersSame(geo, img, img3, ino)
    ensures Tree(geo, img3, ino).seen == if |exts| <= INLINE_CAP then [] else [c]
    ensures forall o: nat :: FileByte(img3.data, geo, exts, o) == FileByte(img.data, geo, exts, o)
    ensures img3.used == img.used + Index(geo, img3, ino) && Index(geo, img3, ino) !! img.used
    ensures Trail(geo, pre + [img3], img, ino, {Content(geo, img, ino), Content(geo, img3, ino)})
  {
    hide ImageOk, FileOk, OthersSame, Trail, Claimable, TailZero, Content, AllSame, Unowned, NodeBytes, RootOf;
    TreeWrittenQuiet(geo, img, img2, ino, exts, c, pre);
    CommitPoint(geo, img, img2, ino, exts, n, c);
    CommitTrail(geo, img, pre, img3, ino);
    SyncedMeans(geo, img3, ino, exts, n);
    assert Index(geo, img3, ino) == if |exts| <= INLINE_CAP then {} else {c};
  }

  lemma GrowNoneFailed(geo: Geo, img: Image, ino: nat, ls: seq<Leaf>, size: nat)
    requires Synced(geo, img, ino, ls, size)
    ensures GrowFailed(geo, img, img, ino, ls, size, [])
  {
  }

  lemma PrepareIsTrail(geo: Geo, img: Image, img1: Image, ino: nat, ls: seq<Leaf>, size: nat, steps: seq<Image>)
    requires GrowFailed(geo, img, img1, ino, ls, size, steps) && Synced(geo, img, ino, ls, size)
    ensures Synced(geo, img1, ino, ls, size) && Trail(geo, steps, img, ino, {Content(geo, img, ino)})
  {
  }

  /** Everything mapped stays mapped and the missing blocks are mapped too. */
  ghost predicate ExtendsOver(ls: seq<Leaf>, ms: seq<Leaf>, missing: seq<nat>) {
    && (forall b: nat :: Mapped(ls, b) ==> Mapped(ms, b))
    && (forall i :: 0 <= i < |missing| ==> Mapped(ms, missing[i]))
  }

  lemma GrownExtends(geo: Geo, img: Image, ino: nat, ls: seq<Leaf>, size: nat, missing: seq<nat>, phys: seq<nat>)
    requires Synced(geo, img, ino, ls, size) && FreshBlocks(geo, img, phys) && |missing| == |phys|
    requires Holes(ls, missing) && forall i :: 0 <= i < |missing| ==> missing[i] < U32
    ensures ExtendsOver(ls, Grown(ls, missing, phys), missing)
  {
    GrownMapOk(geo, img, ino, ls, size, missing, phys);
    var ms := Grown(ls, missing, phys);
    forall b: nat | Mapped(ls, b) ensures Mapped(ms, b) {
      var p: nat :| Maps(ls, b, p);
      assert Maps(ms, b, p);
    }
  }

  /** The logical block that holds file offset o. */
  function BlockOf(geo: Geo, o: nat): nat
    requires geo.bs > 0
  {
    o / geo.bs
  }

  lemma BlockOrder(geo: Geo, o: nat, o': nat)
    requires geo.bs > 0 && o <= o'
    ensures BlockOf(geo, o) <= BlockOf(geo, o')
  {
    QuotientMono(o, o', geo.bs);
  }

  ghost predicate AllMapped(ls: seq<Leaf>, first: nat, last: nat) {
    forall b: nat :: first <= b <= last ==> Mapped(ls, b)
  }

  lemma NoneMissing(ls: seq<Leaf>, missing: seq<nat>, first: nat, last: nat)
    requires forall b: nat :: b in missing <==> first <= b <= last && !Mapped(ls, b)
    ensures missing == [] ==> AllMapped(ls, first, last)
  {
  }

  lemma MissingAreHoles(ls: seq<Leaf>, missing: seq<nat>, first: nat, last: nat)
    requires StrictlyAscending(missing) && forall b: nat :: b in missing <==> first <= b <= last && !Mapped(ls, b)
    ensures Holes(ls, missing)
    ensures last < U32 ==> forall i :: 0 <= i < |missing| ==> missing[i] < U32
  {
    forall i | 0 <= i < |missing| ensures !Mapped(ls, missing[i]) && missing[i] <= last {
      assert missing[i] in missing;
    }
  }

  lemma RangeMapped(ls: seq<Leaf>, ms: seq<Leaf>, missing: seq<nat>, first: nat, last: nat)
    requires forall b: nat :: b in missing <==> first <= b <= last && !Mapped(ls, b)
    ensures ExtendsOver(ls, ms, missing) ==> AllMapped(ms, first, last)
  {
    if ExtendsOver(ls, ms, missing) {
      forall b: nat | first <= b <= last ensures Mapped(ms, b) {
        if b in missing {
          var i :| 0 <= i < |missing| && missing[i] == b;
        }
      }
    }
  }

  lemma ChildOf(geo: Geo, img: Image, ino: nat)
    requires ImageOk(geo, img) && ino in img.inodes && FileOk(geo, img, ino)
    ensures Tree(geo, img, ino).Parsed?
    ensures match SingleChild(img.inodes[ino].iblock)
            case Some(c) => Tree(geo, img, ino).seen == [c] && c in img.used && 0 < c < geo.blocks && Index(geo, img, ino) == {c}
            case None => Tree(geo, img, ino).seen == [] && Index(geo, img, ino) == {}
  {
    ParseRootReadsOnce(img.data, geo, img.inodes[ino].iblock);
    if SingleChild(img.inodes[ino].iblock).Some? {
      assert SingleChild(img.inodes[ino].iblock).value in Owned(geo, img, ino);
    }
  }

  /** The device steps of a commit: the tree, the inode, and the release of the old leaf block. */
  ghost predicate CommitTrace(geo: Geo, img: Image, img2: Image, img3: Image, img4: Image, ino: nat, exts: seq<Leaf>, n: nat, c: nat, pre: seq<Image>, post: seq<Image>) {
    && TreeWritten(geo, img, img2, exts, c, pre)
    && img3 == img2.(inodes := img2.inodes[ino := Inode(RootOf(exts, c), n)])
    && ino in img.inodes && |img.inodes[ino].iblock| == IBLOCK
    && var was := SingleChild(img.inodes[ino].iblock);
       if was.None? || SingleChild(RootOf(exts, c)) == was then img4 == img3 && post == []
       else img4 == (if was.value < geo.first then img3 else img3.(used := img3.used - {was.value})) && post == [img4]
  }

  lemma TreeWrittenFresh(geo: Geo, img: Image, img2: Image, exts: seq<Leaf>, c: nat, pre: seq<Image>)
    requires TreeWritten(geo, img, img2, exts, c, pre)
    ensures 12 + 12 * |exts| <= geo.bs && (|exts| > INLINE_CAP ==> c !in img.used)
  {
  }

  lemma CommitResult(geo: Geo, img: Image, img2: Image, img3: Image, img4: Image, ino: nat, exts: seq<Leaf>, n: nat, c: nat, pre: seq<Image>, post: seq<Image>)
    requires ImageOk(geo, img) && ino in img.inodes && FileOk(geo, img, ino) && Committable(geo, img, ino, exts, n)
    requires CommitTrace(geo, img, img2, img3, img4, ino, exts, n, c, pre, post)
    ensures CommitDone(geo, img, img4, ino, exts, n, pre + [img3] + post)
  {
    hide ImageOk, FileOk, OthersSame, Trail, Claimable, TailZero, Content, Tree, RootOf, MapOk, TreeWritten;
    assert 12 + 12 * |exts| <= geo.bs && (|exts| > INLINE_CAP ==> c !in img.used) by { TreeWrittenFresh(geo, img, img2, exts, c, pre); }
    CommitProof(geo, img, img2, img3, ino, exts, n, c, pre);
    ChildOf(geo, img, ino);
    ChildOf(geo, img3, ino);
    SyncedMeans(geo, img3, ino, exts, n);
    match SingleChild(img.inodes[ino].iblock)
    case Some(c0) =>
      FreeAfterCommit(geo, img, img3, ino, exts, n, pre + [img3], c0);
    case None =>
      assert pre + [img3] + [] == pre + [img3];
  }

  // ---------------------------------------------------------------- growth

  /** States that differ from img in no file at all. */
  lemma TrailQuiet(geo: Geo, hs: seq<Image>, img: Image, ino: nat)
    requires ImageOk(geo, img) && ino in img.inodes
    requires forall k :: 0 <= k < |hs| ==> ImageOk(geo, hs[k]) && AllSame(geo, img, hs[k])
    ensures Trail(geo, hs, img, ino, {Content(geo, img, ino)})
  {
    forall k | 0 <= k < |hs| ensures SafePoint(geo, img, hs[k], ino, {Content(geo, img, ino)}) {
      assert SameFile(geo, img, hs[k], ino);
    }
  }

  /** The three preparatory phases of an allocating growth: allocate, zero, zero slack. */
  lemma PrepareTrail(geo: Geo, img: Image, imga: Image, imgz: Image, img1: Image, ino: nat, ls: seq<Leaf>, size: nat, n: nat, zs: seq<Image>, ss: seq<Image>)
    requires Synced(geo, img, ino, ls, size) && ImageOk(geo, imga) && AllSame(geo, img, imga)
    requires AllSame(geo, imga, imgz) && forall k :: 0 <= k < |zs| ==> ImageOk(geo, zs[k]) && AllSame(geo, imga, zs[k])
    requires SlackDone(geo, imgz, img1, ino, ls, size, n, ss)
    requires img.used <= imgz.used && Tree(geo, imgz, ino) == Tree(geo, img, ino)
    ensures GrowFailed(geo, img, img1, ino, ls, size, [imga] + zs + ss)
    ensures AllSame(geo, img, imgz)
  {
    var c := Content(geo, img, ino);
    assert SameFile(geo, img, imga, ino) && SameFile(geo, imga, imgz, ino);
    AllSameTrans(geo, img, imga, imgz);
    TrailQuiet(geo, [imga], img, ino);
    TrailQuiet(geo, zs, imga, ino);
    assert OthersSame(geo, img, imga, ino) && OthersSame(geo, img, imgz, ino);
    TrailJoin(geo, [imga], zs, img, imga, ino, {c}, {c}, {c});
    TrailJoin(geo, [imga] + zs, ss, img, imgz, ino, {c}, {c}, {c});
    OthersSameTrans(geo, img, imgz, img1, ino);
  }

  /** What zeroing the slack before a growth to newSize achieves. */
  ghost predicate SlackDone(geo: Geo, img: Image, img': Image, ino: nat, ls: seq<Leaf>, size: nat, newSize: nat, steps: seq<Image>) {
    && Synced(geo, img', ino, ls, size) && img'.used == img.used && img'.inodes == img.inodes
    && OthersSame(geo, img, img', ino) && ino in img.inodes && Tree(geo, img', ino) == Tree(geo, img, ino)
    && (forall o: nat :: o < size || o >= newSize ==> FileByte(img'.data, geo, ls, o) == FileByte(img.data, geo, ls, o))
    && GrowthIsZero(img'.data, geo, ls, size, newSize) && OnlyInMap(img.data, img'.data, geo, ls)
    && Content(geo, img', ino) == Content(geo, img, ino)
    && Trail(geo, steps, img, ino, {Content(geo, img, ino)})
  }

  lemma SlackUsed(geo: Geo, img: Image, img': Image, ino: nat, ls: seq<Leaf>, size: nat, newSize: nat, steps: seq<Image>)
    requires SlackDone(geo, img, img', ino, ls, size, newSize, steps)
    ensures img'.used == img.used
  {
  }

  lemma FreshInside(geo: Geo, img: Image, phys: seq<nat>)
    requires FreshBlocks(geo, img, phys)
    ensures forall i :: 0 <= i < |phys| ==> 0 < phys[i] < geo.blocks
  {
  }

  lemma SlackDoneMeans(geo: Geo, img: Image, img': Image, ino: nat, ls: seq<Leaf>, size: nat, newSize: nat, steps: seq<Image>)
    requires Synced(geo, img, ino, ls, size) && SlackDone(geo, img, img', ino, ls, size, newSize, steps)
    ensures Synced(geo, img', ino, ls, size) && Trail(geo, steps, img, ino, {Content(geo, img, ino)})
  {
  }

  lemma SlackNoop(geo: Geo, img: Image, ino: nat, ls: seq<Leaf>, size: nat, newSize: nat)
    requires geo.bs > 0 && (newSize <= size || size % geo.bs == 0 || !Mapped(ls, size / geo.bs))
    requires Synced(geo, img, ino, ls, size)
    ensures SlackDone(geo, img, img, ino, ls, size, newSize, [])
  {
    forall o: nat | size <= o < newSize ensures FileByte(img.data, geo, ls, o) == 0 {
      if size % geo.bs == 0 {
        TailAfterBlock(img.data, geo, ls, size, o);
      } else {
        SlackInHole(img.data, geo, ls, size, o);
      }
    }
  }

  lemma SlackStep(geo: Geo, img: Image, ino: nat, ls: seq<Leaf>, i: nat, size: nat, newSize: nat, n: nat, po: nat)
    requires geo.bs > 0 && i < |ls| && size < newSize && Covers(ls[i], size / geo.bs)
    requires ls[i].log * geo.bs <= size && size + n <= (ls[i].log + ls[i].count) * geo.bs
    requires n == Min(BlockEnd(geo, size) - size, newSize - size)
    requires po == ls[i].phys * geo.bs + (size - ls[i].log * geo.bs)
    requires Synced(geo, img, ino, ls, size)
    ensures po + n <= |img.data|
    ensures var img' := img.(data := Put(img.data, po, Zeros(n)));
            SlackDone(geo, img, img', ino, ls, size, newSize, [img'])
  {
    SlackWrite(img.data, geo, ls, i, size, newSize, n, po);
    OwnWriteStep(geo, img, ino, i, size, Zeros(n), po);
    var img' := img.(data := Put(img.data, po, Zeros(n)));
    ContentEq(geo, img, img', ino);
    assert FileOk(geo, img', ino);
    TrailOne(geo, img, img', ino, {Content(geo, img, ino)});
  }

  /** A growth of file ino to n bytes: content zero-extended, blocks accounted for,
      every intermediate state safe. */
  ghost predicate GrowDone(geo: Geo, img: Image, img': Image, ino: nat, ls: seq<Leaf>, size: nat, ms: seq<Leaf>, n: nat, steps: seq<Image>) {
    && Synced(geo, img, ino, ls, size) && Synced(geo, img', ino, ms, n) && OthersSame(geo, img, img', ino) && size <= n
    && (forall o: nat :: FileByte(img'.data, geo, ms, o) == if size <= o < n then 0 else FileByte(img.data, geo, ls, o))
    && Content(geo, img', ino) == Extend(Content(geo, img, ino), n)
    && Conserved(geo, img, img', ino)
    && Trail(geo, steps, img, ino, {Content(geo, img, ino), Extend(Content(geo, img, ino), n)})
  }

  lemma GrowDoneMeans(geo: Geo, img: Image, img': Image, ino: nat, ls: seq<Leaf>, size: nat, ms: seq<Leaf>, n: nat, steps: seq<Image>)
    requires GrowDone(geo, img, img', ino, ls, size, ms, n, steps)
    ensures Synced(geo, img', ino, ms, n)
    ensures geo.Valid() && Sized(img'.data, geo) && SortedMap(ms) && InBounds(geo, ms)
  {
  }

  /** State of a growth just before its commit: P allocated, zeroed, and mapped by ms. */
  ghost predicate ReadyToGrow(geo: Geo, img: Image, img1: Image, ino: nat, ls: seq<Leaf>, size: nat, ms: seq<Leaf>, P: set<nat>, n: nat) {
    && Synced(geo, img, ino, ls, size) && Synced(geo, img1, ino, ls, size) && OthersSame(geo, img, img1, ino) && size <= n
    && img1.used == img.used + P && P !! img.used && Tree(geo, img1, ino) == Tree(geo, img, ino)
    && MapOk(geo, ms) && Blocks(ms) == Blocks(ls) + P
    && (forall o: nat :: o < size || o >= n ==> FileByte(img1.data, geo, ls, o) == FileByte(img.data, geo, ls, o))
    && GrowthIsZero(img1.data, geo, ls, size, n)
    && (forall o: nat :: FileByte(img1.data, geo, ms, o) == FileByte(img1.data, geo, ls, o))
    && Content(geo, img1, ino) == Content(geo, img, ino)
  }

  lemma GrowCommittable(geo: Geo, img: Image, img1: Image, ino: nat, ls: seq<Leaf>, size: nat, ms: seq<Leaf>, P: set<nat>, n: nat)
    requires ReadyToGrow(geo, img, img1, ino, ls, size, ms, P, n)
    ensures Committable(geo, img1, ino, ms, n)
  {
    GrowClaimable(geo, img, img1, ino, ls, ms, P);
  }

  lemma GrowClaimable(geo: Geo, img: Image, img1: Image, ino: nat, ls: seq<Leaf>, ms: seq<Leaf>, P: set<nat>)
    requires ImageOk(geo, img) && ino in img.inodes && FileOk(geo, img, ino) && Tree(geo, img, ino).leaves == ls
    requires OthersSame(geo, img, img1, ino) && Tree(geo, img1, ino) == Tree(geo, img, ino)
    requires img1.used == img.used + P && P !! img.used && Blocks(ms) == Blocks(ls) + P
    ensures Claimable(geo, img1, ino, ms)
  {
    var own := Owned(geo, img, ino);
    assert own <= img.used && Blocks(ls) <= own;
    forall c | c in Tree(geo, img, ino).seen ensures c !in Blocks(ms) {
      assert c in own;
    }
    forall j | j in img1.inodes && j != ino ensures Blocks(ms) !! Owned(geo, img1, j) {
      assert SameFile(geo, img, img1, j);
      assert FileOk(geo, img, j);
      assert own !! Owned(geo, img, j);
    }
  }

  /** Nothing to allocate and nothing to expose. */
  lemma GrowNone(geo: Geo, img: Image, ino: nat, ls: seq<Leaf>, size: nat)
    requires Synced(geo, img, ino, ls, size)
    ensures GrowDone(geo, img, img, ino, ls, size, ls, size, [])
  {
    var c := Content(geo, img, ino);
    assert Extend(c, size) == c;
    assert Owned(geo, img, ino) <= img.used;
  }

  lemma GrowInPlaceReady(geo: Geo, img: Image, img1: Image, ino: nat, ls: seq<Leaf>, size: nat, n: nat, steps: seq<Image>)
    requires Synced(geo, img, ino, ls, size) && SlackDone(geo, img, img1, ino, ls, size, n, steps) && size <= n
    ensures ReadyToGrow(geo, img, img1, ino, ls, size, ls, {}, n)
  {
  }

  lemma SlackFailed(geo: Geo, img: Image, img1: Image, ino: nat, ls: seq<Leaf>, size: nat, n: nat, steps: seq<Image>)
    requires Synced(geo, img, ino, ls, size) && SlackDone(geo, img, img1, ino, ls, size, n, steps)
    ensures GrowFailed(geo, img, img1, ino, ls, size, steps)
  {
  }

  lemma GrowResult(geo: Geo, img: Image, img1: Image, img2: Image, ino: nat, ls: seq<Leaf>, size: nat, ms: seq<Leaf>, P: set<nat>, n: nat, steps: seq<Image>, steps2: seq<Image>)
    requires ReadyToGrow(geo, img, img1, ino, ls, size, ms, P, n)
    requires CommitDone(geo, img1, img2, ino, ms, n, steps2)
    requires Trail(geo, steps, img, ino, {Content(geo, img, ino)})
    ensures GrowDone(geo, img, img2, ino, ls, size, ms, n, steps + steps2)
  {
    OthersSameTrans(geo, img, img1, img2, ino);
    GrowContent(geo, img, img1, img2, ino, ls, size, ms, n);
    GrowConserved(geo, img, img1, img2, ino, ls, size, ms, P, n);
    var c, d := Content(geo, img, ino), Content(geo, img2, ino);
    TrailJoin(geo, steps, steps2, img, img1, ino, {c}, {c, d}, {c, d});
  }

  lemma GrowContent(geo: Geo, img: Image, img1: Image, img2: Image, ino: nat, ls: seq<Leaf>, size: nat, ms: seq<Leaf>, n: nat)
    requires Synced(geo, img, ino, ls, size) && Synced(geo, img1, ino, ls, size) && Synced(geo, img2, ino, ms, n) && size <= n
    requires forall o: nat :: o < size || o >= n ==> FileByte(img1.data, geo, ls, o) == FileByte(img.data, geo, ls, o)
    requires GrowthIsZero(img1.data, geo, ls, size, n)
    requires forall o: nat :: FileByte(img1.data, geo, ms, o) == FileByte(img1.data, geo, ls, o)
    requires forall o: nat :: FileByte(img2.data, geo, ms, o) == FileByte(img1.data, geo, ms, o)
    ensures forall o: nat :: FileByte(img2.data, geo, ms, o) == if size <= o < n then 0 else FileByte(img.data, geo, ls, o)
    ensures Content(geo, img2, ino) == Extend(Content(geo, img, ino), n)
  {
    ContentExtends(geo, img, img2, ino, n);
  }

  lemma GrowConserved(geo: Geo, img: Image, img1: Image, img2: Image, ino: nat, ls: seq<Leaf>, size: nat, ms: seq<Leaf>, P: set<nat>, n: nat)
    requires Synced(geo, img, ino, ls, size) && Synced(geo, img1, ino, ls, size) && Synced(geo, img2, ino, ms, n)
    requires Tree(geo, img1, ino) == Tree(geo, img, ino) && img1.used == img.used + P && P !! img.used
    requires Blocks(ms) == Blocks(ls) + P
    requires img2.used == img1.used - Index(geo, img1, ino) + Index(geo, img2, ino) && Index(geo, img2, ino) !! img1.used
    ensures Conserved(geo, img, img2, ino)
  {
    var i0, i2 := Index(geo, img, ino), Index(geo, img2, ino);
    assert Owned(geo, img, ino) == Blocks(ls) + i0;
    assert Owned(geo, img2, ino) == Blocks(ls) + P + i2;
    assert i0 !! Blocks(ls);
    assert i0 <= img.used && Blocks(ls) <= img.used;
    GrowAlgebra(img.used, Blocks(ls), P, i0, i2);
  }

  lemma GrowAlgebra(U: set<nat>, B: set<nat>, P: set<nat>, i0: set<nat>, i2: set<nat>)
    requires B + i0 <= U && B !! i0 && P !! U && i2 !! U + P
    ensures U + P - i0 + i2 == U - (B + i0) + (B + P + i2)
    ensures (B + P + i2) - (B + i0) !! U
  {
  }

  /** A failed growth: at most some unreferenced blocks stay marked used. */
  ghost predicate GrowFailed(geo: Geo, img: Image, img': Image, ino: nat, ls: seq<Leaf>, size: nat, steps: seq<Image>) {
    && Synced(geo, img, ino, ls, size) && Synced(geo, img', ino, ls, size) && OthersSame(geo, img, img', ino)
    && Content(geo, img', ino) == Content(geo, img, ino) && Owned(geo, img', ino) == Owned(geo, img, ino)
    && img.used <= img'.used
    && Trail(geo, steps, img, ino, {Content(geo, img, ino)})
  }

  /** The listed blocks hold zeros, all others are as before. */
  ghost predicate BlocksZeroed(geo: Geo, img: Image, img': Image, phys: seq<nat>) {
    && Sized(img.data, geo) && Sized(img'.data, geo)
    && (forall k :: 0 <= k < |phys| ==> phys[k] < geo.blocks && ZeroBlock(img'.data, geo, phys[k]))
    && (forall b: nat :: b < geo.blocks && b !in phys ==> BlockAt(img'.data, geo, b) == BlockAt(img.data, geo, b))
  }

  /** Blocks just allocated to nobody yet. */
  ghost predicate FreshBlocks(geo: Geo, img: Image, phys: seq<nat>) {
    Distinct(phys) && forall i :: 0 <= i < |phys| ==> 0 < phys[i] < geo.blocks && phys[i] !in img.used
  }

  ghost predicate Holes(ls: seq<Leaf>, missing: seq<nat>) {
    StrictlyAscending(missing) && forall i :: 0 <= i < |missing| ==> !Mapped(ls, missing[i])
  }

  lemma GrownMapOk(geo: Geo, img: Image, ino: nat, ls: seq<Leaf>, size: nat, missing: seq<nat>, phys: seq<nat>)
    requires Synced(geo, img, ino, ls, size) && FreshBlocks(geo, img, phys) && |missing| == |phys|
    requires Holes(ls, missing) && forall i :: 0 <= i < |missing| ==> missing[i] < U32
    ensures var ms := Grown(ls, missing, phys);
            && MapOk(geo, ms) && GrowsBy(ls, ms, set p | p in phys)
            && (forall i :: 0 <= i < |missing| ==> Maps(ms, missing[i], phys[i]))
            && Blocks(ms) == Blocks(ls) + set p | p in phys
  {
    assert Blocks(ls) <= Owned(geo, img, ino);
    GrownOk(geo, ls, missing, phys);
  }

  lemma GrowReady(geo: Geo, img: Image, imgz: Image, img1: Image, ino: nat, ls: seq<Leaf>, size: nat, missing: seq<nat>, phys: seq<nat>, n: nat, steps: seq<Image>)
    requires Synced(geo, img, ino, ls, size) && FreshBlocks(geo, img, phys) && |missing| == |phys| && size <= n
    requires Holes(ls, missing) && forall i :: 0 <= i < |missing| ==> missing[i] < U32
    requires imgz.used == img.used + (set p | p in phys) && AllSame(geo, img, imgz) && Tree(geo, imgz, ino) == Tree(geo, img, ino)
    requires BlocksZeroed(geo, img, imgz, phys) && SlackDone(geo, imgz, img1, ino, ls, size, n, steps)
    ensures ReadyToGrow(geo, img, img1, ino, ls, size, Grown(ls, missing, phys), (set p | p in phys), n)
  {
    var ms := Grown(ls, missing, phys);
    var P := set p | p in phys;
    GrownMapOk(geo, img, ino, ls, size, missing, phys);
    assert Blocks(ls) <= Owned(geo, img, ino);
    forall o: nat ensures FileByte(imgz.data, geo, ls, o) == FileByte(img.data, geo, ls, o) {
      ByteFrame(img.data, imgz.data, geo, ls, o);
    }
    forall b | b in P ensures b < geo.blocks && ZeroBlock(img1.data, geo, b) {
      var k :| 0 <= k < |phys| && phys[k] == b;
      assert b !in Blocks(ls);
    }
    SortedIsFunctional(ls);
    SortedIsFunctional(ms);
    ZeroedHolesInvisible(img1.data, geo, ls, ms, P);
    assert SameFile(geo, img, imgz, ino);
    assert OthersSame(geo, img, imgz, ino);
    OthersSameTrans(geo, img, imgz, img1, ino);
  }

  /** The range check of a read can only fail on a map that leaves the volume. */
  lemma RangeErr(geo: Geo, ls: seq<Leaf>, i: nat, cur: nat, n: nat)
    requires geo.bs > 0 && i < |ls| && n > 0 && Covers(ls[i], cur / geo.bs)
    requires ls[i].log * geo.bs <= cur && cur + n <= (ls[i].log + ls[i].count) * geo.bs
    requires ls[i].phys + (cur / geo.bs - ls[i].log) + (cur % geo.bs + n - 1) / geo.bs >= geo.blocks
    ensures !InBounds(geo, ls)
  {
    LastBlock(geo.bs, cur, n);
    DivRange(cur + n - 1, ls[i].log, ls[i].log + ls[i].count, geo.bs);
    assert !LeafInBounds(geo, ls[i]);
  }

  /** The caller's buffer with its first |s| bytes filled. */
  function Filled(p: seq<byte>, s: seq<byte>): (r: seq<byte>)
    requires |s| <= |p|
    ensures |r| == |p| && r[..|s|] == s && r[|s|..] == p[|s|..]
  {
    s + p[|s|..]
  }

  lemma FilledStep(p: seq<byte>, content: seq<byte>, off: nat, n: nat, s: seq<byte>)
    requires off + n + |s| <= |content| && n + |s| <= |p| && s == content[off + n..off + n + |s|]
    ensures Put(Filled(p, content[off..off + n]), n, s) == Filled(p, content[off..off + n + |s|])
  {
    assert content[off..off + n + |s|] == content[off..off + n] + s;
  }

  lemma SlackLength(geo: Geo, l: Leaf, size: nat)
    requires geo.bs > 0 && Covers(l, size / geo.bs)
    ensures geo.bs - size % geo.bs == BlockEnd(geo, size) - size
    ensures BlockEnd(geo, size) <= (l.log + l.count) * geo.bs
  {
    BlockEndBound(geo, size, size);
    MulMono(size / geo.bs + 1, l.log + l.count, geo.bs);
  }

  lemma UnownedSame(geo: Geo, img: Image, img': Image, b: nat)
    requires Sized(img.data, geo) && Unowned(geo, img, b) && AllSame(geo, img, img')
    ensures Unowned(geo, img', b)
  {
    forall j | j in img'.inodes ensures b !in Owned(geo, img', j) {
      assert SameFile(geo, img, img', j);
    }
  }

  lemma ZeroOneMore(geo: Geo, img: Image, was: Image, now: Image, phys: seq<nat>, i: nat)
    requires i < |phys| && phys[i] < geo.blocks && Sized(now.data, geo) && BlocksZeroed(geo, img, was, phys[..i])
    requires ZeroBlock(now.data, geo, phys[i])
    requires forall c: nat :: c < geo.blocks && c != phys[i] ==> BlockAt(now.data, geo, c) == BlockAt(was.data, geo, c)
    ensures BlocksZeroed(geo, img, now, phys[..i + 1])
  {
    var pre := phys[..i];
    assert phys[..i + 1] == pre + [phys[i]];
    forall k | 0 <= k < |pre + [phys[i]]| ensures (pre + [phys[i]])[k] < geo.blocks && ZeroBlock(now.data, geo, (pre + [phys[i]])[k]) {
      if k < i { assert ZeroBlock(was.data, geo, pre[k]); }
    }
  }

  /** Allocating blocks changes no file and gives them to nobody. */
  lemma FreshStep(geo: Geo, img: Image, imga: Image, ino: nat, ls: seq<Leaf>, size: nat, phys: seq<nat>)
    requires Synced(geo, img, ino, ls, size) && imga == img.(used := img.used + set p | p in phys)
    requires Distinct(phys) && forall i :: 0 <= i < |phys| ==> 0 < phys[i] < geo.blocks && phys[i] !in img.used
    ensures FreshBlocks(geo, img, phys) && ImageOk(geo, imga) && AllSame(geo, img, imga)
    ensures ino in imga.inodes && Tree(geo, imga, ino) == Tree(geo, img, ino)
    ensures forall i :: 0 <= i < |phys| ==> phys[i] < geo.blocks && Unowned(geo, imga, phys[i])
  {
    hide FileOk, Tree, Unowned, Distinct;
    AllocStep(geo, img, imga);
    assert Tree(geo, imga, ino) == Tree(geo, img, ino);
    forall i | 0 <= i < |phys| ensures Unowned(geo, imga, phys[i]) {
      OwnedIsUsed(geo, img, phys[i]);
      UnownedSame(geo, img, imga, phys[i]);
    }
  }

  lemma ZeroedSynced(geo: Geo, img: Image, imga: Image, imgz: Image, ino: nat, ls: seq<Leaf>, size: nat, phys: seq<nat>)
    requires Synced(geo, img, ino, ls, size) && imga.data == img.data && imga.inodes == img.inodes
    requires ImageOk(geo, imgz) && imgz.inodes == imga.inodes && Tree(geo, imgz, ino) == Tree(geo, imga, ino)
    requires BlocksZeroed(geo, imga, imgz, phys)
    ensures Synced(geo, imgz, ino, ls, size) && Tree(geo, imgz, ino) == Tree(geo, img, ino) && BlocksZeroed(geo, img, imgz, phys)
  {
    assert FileOk(geo, imgz, ino);
  }

  /** Some blocks nobody owns zeroed, and nothing else changed. */
  ghost predicate Zeroing(geo: Geo, img: Image, img': Image, ino: nat, phys: seq<nat>) {
    && ImageOk(geo, img') && AllSame(geo, img, img') && img'.used == img.used && img'.inodes == img.inodes
    && ino in img.inodes && Tree(geo, img', ino) == Tree(geo, img, ino) && BlocksZeroed(geo, img, img', phys)
  }

  lemma ZeroingMeans(geo: Geo, img: Image, img': Image, ino: nat, phys: seq<nat>)
    requires Zeroing(geo, img, img', ino, phys)
    ensures ImageOk(geo, img') && AllSame(geo, img, img') && img'.used == img.used && img'.inodes == img.inodes
    ensures ino in img.inodes && Tree(geo, img', ino) == Tree(geo, img, ino) && BlocksZeroed(geo, img, img', phys)
  {
  }

  lemma ZeroNone(geo: Geo, img: Image, ino: nat, phys: seq<nat>)
    requires ImageOk(geo, img) && ino in img.inodes
    ensures Zeroing(geo, img, img, ino, phys[..0])
  {
    forall j | j in img.inodes ensures Undisturbed(geo, img, img, j) && Owned(geo, img, j) <= img.used {
      assert FileOk(geo, img, j);
    }
    QuietStep(geo, img, img);
    assert BlocksZeroed(geo, img, img, phys[..0]);
  }

  lemma ZeroOne(geo: Geo, img: Image, was: Image, ino: nat, phys: seq<nat>, i: nat)
    requires i < |phys| && Zeroing(geo, img, was, ino, phys[..i]) && phys[i] < geo.blocks && ImageOk(geo, img) && Unowned(geo, img, phys[i])
    ensures phys[i] * geo.bs + geo.bs <= |was.data|
    ensures var now := was.(data := Put(was.data, phys[i] * geo.bs, Zeros(geo.bs)));
            Zeroing(geo, img, now, ino, phys[..i + 1]) && ImageOk(geo, now) && AllSame(geo, img, now)
  {
    hide AllSame, BlocksZeroed, Unowned, FileOk, Put, Tree;
    UnownedSame(geo, img, was, phys[i]);
    UnownedWriteStep(geo, was, phys[i], Zeros(geo.bs));
    var now := was.(data := Put(was.data, phys[i] * geo.bs, Zeros(geo.bs)));
    AllSameTrans(geo, img, was, now);
    assert Tree(geo, now, ino) == Tree(geo, was, ino);
    ZeroOneMore(geo, img, was, now, phys, i);
  }

  lemma LocateArith(bs: nat, e: Leaf, cur: nat)
    requires bs > 0 && e.log <= cur / bs < e.log + e.count
    ensures e.log * bs <= cur < (e.log + e.count) * bs
    ensures (e.phys + (cur / bs - e.log)) * bs + cur % bs == e.phys * bs + (cur - e.log * bs)
    ensures (e.count - (cur / bs - e.log)) * bs - cur % bs == (e.log + e.count) * bs - cur
  {
    var b := cur / bs;
    DivMulMod(cur, bs);
    MulMono(e.log, b, bs);
    MulMono(b + 1, e.log + e.count, bs);
    assert (b + 1) * bs == b * bs + bs;
    assert (e.phys + (b - e.log)) * bs == e.phys * bs + b * bs - e.log * bs;
    assert (e.count - (b - e.log)) * bs == (e.log + e.count) * bs - b * bs;
  }

  // ---------------------------------------------------------------- writing the data

  /** The contents a crash may leave while p is being stored over bytes that exist. */
  ghost function Written(c: seq<byte>, off: nat, p: seq<byte>): set<seq<byte>>
    requires off + |p| <= |c|
  {
    set k | 0 <= k <= |p| :: Put(c, off, p[..k])
  }

  /** The first k bytes of p have been stored at off. */
  ghost predicate DataDone(geo: Geo, img: Image, img': Image, ino: nat, ls: seq<Leaf>, size: nat, off: nat, p: seq<byte>, k: nat, steps: seq<Image>) {
    && Synced(geo, img, ino, ls, size) && Synced(geo, img', ino, ls, size)
    && OthersSame(geo, img, img', ino) && Tree(geo, img', ino) == Tree(geo, img, ino) && img'.used == img.used
    && k <= |p| && off + |p| <= |Content(geo, img, ino)|
    && Content(geo, img', ino) == Put(Content(geo, img, ino), off, p[..k])
    && Trail(geo, steps, img, ino, Written(Content(geo, img, ino), off, p))
  }

  lemma DataDoneMeans(geo: Geo, img: Image, img': Image, ino: nat, ls: seq<Leaf>, size: nat, off: nat, p: seq<byte>, k: nat, steps: seq<Image>)
    requires DataDone(geo, img, img', ino, ls, size, off, p, k, steps)
    ensures Synced(geo, img', ino, ls, size)
  {
  }

  lemma DataStart(geo: Geo, img: Image, ino: nat, ls: seq<Leaf>, size: nat, off: nat, p: seq<byte>)
    requires Synced(geo, img, ino, ls, size) && off + |p| <= size
    ensures DataDone(geo, img, img, ino, ls, size, off, p, 0, [])
  {
    assert Put(Content(geo, img, ino), off, p[..0]) == Content(geo, img, ino);
  }

  lemma PutGrows(c: seq<byte>, off: nat, p: seq<byte>, k: nat, m: nat)
    requires off + |p| <= |c| && k + m <= |p|
    ensures Put(Put(c, off, p[..k]), off + k, p[k..k + m]) == Put(c, off, p[..k + m])
  {
  }

  /** One device write of the data loop. */
  lemma DataWrite(geo: Geo, img: Image, ino: nat, ls: seq<Leaf>, size: nat, i: nat, o: nat, s: seq<byte>, po: nat)
    requires geo.bs > 0 && i < |ls| && Synced(geo, img, ino, ls, size) && o + |s| <= size
    requires ls[i].log * geo.bs <= o && o + |s| <= (ls[i].log + ls[i].count) * geo.bs
    requires po == ls[i].phys * geo.bs + (o - ls[i].log * geo.bs) && po + |s| <= |img.data|
    ensures var img' := img.(data := Put(img.data, po, s));
            && Synced(geo, img', ino, ls, size) && OthersSame(geo, img, img', ino)
            && Tree(geo, img', ino) == Tree(geo, img, ino)
            && Content(geo, img', ino) == Put(Content(geo, img, ino), o, s)
  {
    hide FileOk, OthersSame, Tree, FileByte, Put, TailZero, MapOk;
    FileSound(geo, img, ino, ls, size);
    WriteThrough(img.data, geo, ls, i, o, s, po);
    TailKept(img.data, geo, ls, size, o, s, po);
    OwnWriteStep(geo, img, ino, i, o, s, po);
    var img' := img.(data := Put(img.data, po, s));
    assert FileOk(geo, img', ino);
    ContentWritten(geo, img, img', ino, ls, size, o, s);
  }

  lemma FileSound(geo: Geo, img: Image, ino: nat, ls: seq<Leaf>, size: nat)
    requires Synced(geo, img, ino, ls, size)
    ensures MapOk(geo, ls) && TailZero(img.data, geo, ls, size)
  {
  }

  lemma ContentWritten(geo: Geo, img: Image, img': Image, ino: nat, ls: seq<Leaf>, size: nat, o: nat, s: seq<byte>)
    requires Synced(geo, img, ino, ls, size) && Synced(geo, img', ino, ls, size) && geo.bs > 0 && o + |s| <= size
    requires forall x: nat :: FileByte(img'.data, geo, ls, x) == if o <= x < o + |s| then s[x - o] else FileByte(img.data, geo, ls, x)
    ensures Content(geo, img', ino) == Put(Content(geo, img, ino), o, s)
  {
    hide FileOk, ImageOk, FileByte, Tree;
    SyncedMeans(geo, img, ino, ls, size);
    SyncedMeans(geo, img', ino, ls, size);
  }

  /** Storing bytes below the size leaves the tail zero. */
  lemma TailKept(data: seq<byte>, geo: Geo, ls: seq<Leaf>, size: nat, o: nat, s: seq<byte>, po: nat)
    requires Sized(data, geo) && geo.bs > 0 && TailZero(data, geo, ls, size) && o + |s| <= size && po + |s| <= |data|
    requires forall x: nat :: FileByte(Put(data, po, s), geo, ls, x) == if o <= x < o + |s| then s[x - o] else FileByte(data, geo, ls, x)
    ensures TailZero(Put(data, po, s), geo, ls, size)
  {
    forall x: nat | x / geo.bs * geo.bs >= size ensures FileByte(Put(data, po, s), geo, ls, x) == 0 {
      DivMulMod(x, geo.bs);
    }
  }

  lemma DataStep(geo: Geo, img0: Image, img: Image, ino: nat, ls: seq<Leaf>, size: nat, off: nat, p: seq<byte>, k: nat, steps: seq<Image>, i: nat, m: nat, po: nat)
    requires geo.bs > 0 && i < |ls| && k + m <= |p| && off + |p| <= size
    requires ls[i].log * geo.bs <= off + k && off + k + m <= (ls[i].log + ls[i].count) * geo.bs
    requires po == ls[i].phys * geo.bs + (off + k - ls[i].log * geo.bs) && po + m <= |img.data|
    requires DataDone(geo, img0, img, ino, ls, size, off, p, k, steps)
    ensures var img' := img.(data := Put(img.data, po, p[k..k + m]));
            DataDone(geo, img0, img', ino, ls, size, off, p, k + m, steps + [img'])
  {
    hide ImageOk, FileOk, OthersSame, Trail, Content, Tree;
    SyncedMeans(geo, img, ino, ls, size);
    SyncedMeans(geo, img0, ino, ls, size);
    var img' := img.(data := Put(img.data, po, p[k..k + m]));
    var c := Content(geo, img0, ino);
    DataWrite(geo, img, ino, ls, size, i, off + k, p[k..k + m], po);
    PutGrows(c, off, p, k, m);
    OthersSameTrans(geo, img0, img, img', ino);
    assert Put(c, off, p[..k + m]) in Written(c, off, p);
    assert SafePoint(geo, img0, img', ino, Written(c, off, p));
    TrailOne(geo, img0, img', ino, Written(c, off, p));
    OthersSameRefl(geo, img0, ino);
    TrailJoin(geo, steps, [img'], img0, img0, ino, Written(c, off, p), Written(c, off, p), Written(c, off, p));
  }

  lemma OthersSameRefl(geo: Geo, img: Image, ino: nat)
    requires geo.bs > 0 && Sized(img.data, geo)
    ensures OthersSame(geo, img, img, ino)
  {
  }

  /** Run i reaches the device and the addressable range. */
  lemma ChunkFits(geo: Geo, ls: seq<Leaf>, i: nat, o: nat, m: nat)
    requires geo.bs > 0 && InBounds(geo, ls) && i < |ls|
    requires ls[i].log * geo.bs <= o && o + m <= (ls[i].log + ls[i].count) * geo.bs
    ensures ls[i].phys * geo.bs + (o - ls[i].log * geo.bs) + m <= geo.blocks * geo.bs
    ensures o + m <= U32 * geo.bs
  {
    var l := ls[i];
    assert LeafInBounds(geo, l);
    MulMono(l.log + l.count, U32, geo.bs);
    MulMono(l.phys + l.count, geo.blocks, geo.bs);
    assert (l.phys + l.count) * geo.bs == l.phys * geo.bs + l.count * geo.bs;
    assert (l.log + l.count) * geo.bs == l.log * geo.bs + l.count * geo.bs;
  }

  // ---------------------------------------------------------------- opening

  /** Which inodes `newFile` gives a handle for. */
  predicate Openable(geo: Geo, img: Image, ino: nat)
    requires geo.bs > 0 && Sized(img.data, geo) && ino in img.inodes
  {
    var r, size := Tree(geo, img, ino), img.inodes[ino].size;
    r.Parsed? && size <= DeclaredBytes(geo) && (size > 0 ==> r.leaves != [])
  }

  lemma OpenSynced(geo: Geo, img: Image, ino: nat)
    requires ImageOk(geo, img) && ino in img.inodes
    ensures Tree(geo, img, ino).Parsed? && Sort(Logical, Tree(geo, img, ino).leaves) == Tree(geo, img, ino).leaves
    ensures Synced(geo, img, ino, Tree(geo, img, ino).leaves, img.inodes[ino].size)
  {
    assert FileOk(geo, img, ino);
    SortAscending(Logical, Tree(geo, img, ino).leaves);
  }

  // ---------------------------------------------------------------- a whole write

  /** The contents a crash during a write of p at off may leave. */
  ghost function WriteStates(c: seq<byte>, off: nat, p: seq<byte>): set<seq<byte>> {
    {c} + Written(Extend(c, off + |p|), off, p)
  }

  /** A write of p at off: spliced into the content, blocks accounted for, other
      files untouched and every intermediate state safe. */
  ghost predicate WriteDone(geo: Geo, img: Image, img': Image, ino: nat, off: nat, p: seq<byte>, steps: seq<Image>) {
    && ImageOk(geo, img) && ino in img.inodes && ImageOk(geo, img') && OthersSame(geo, img, img', ino) && ino in img'.inodes
    && Content(geo, img', ino) == Splice(Content(geo, img, ino), off, p)
    && Conserved(geo, img, img', ino)
    && Trail(geo, steps, img, ino, WriteStates(Content(geo, img, ino), off, p))
  }

  lemma ExtendMax(c: seq<byte>, size: nat, n: nat)
    requires |c| == size
    ensures Extend(c, Max(size, n)) == Extend(c, n)
  {
  }

  lemma StatesOf(c: seq<byte>, off: nat, p: seq<byte>)
    ensures var d := Extend(c, off + |p|);
            {c, d} <= WriteStates(c, off, p) && Written(d, off, p) <= WriteStates(c, off, p)
  {
    var d := Extend(c, off + |p|);
    assert d == Put(d, off, p[..0]);
    assert d in Written(d, off, p);
  }

  lemma WriteResult(geo: Geo, img: Image, img1: Image, img2: Image, ino: nat, ls: seq<Leaf>, size: nat, ms: seq<Leaf>, n: nat, off: nat, p: seq<byte>, gs: seq<Image>, ds: seq<Image>)
    requires GrowDone(geo, img, img1, ino, ls, size, ms, n, gs) && n == Max(size, off + |p|)
    requires DataDone(geo, img1, img2, ino, ms, n, off, p, |p|, ds)
    ensures WriteDone(geo, img, img2, ino, off, p, gs + ds)
  {
    hide ImageOk, FileOk, OthersSame, Trail, Content, Tree, Extend, Put, Written, WriteStates, FileByte;
    SyncedMeans(geo, img, ino, ls, size);
    SyncedMeans(geo, img1, ino, ms, n);
    var c, d := Content(geo, img, ino), Content(geo, img1, ino);
    ExtendMax(c, size, off + |p|);
    StatesOf(c, off, p);
    assert p[..|p|] == p;
    OthersSameTrans(geo, img, img1, img2, ino);
    TrailJoin(geo, gs, ds, img, img1, ino, {c, d}, Written(d, off, p), WriteStates(c, off, p));
  }

  lemma MappedSpan(geo: Geo, ls: seq<Leaf>, off: nat, end: nat, o: nat)
    requires geo.bs > 0 && off <= o < end && AllMapped(ls, BlockOf(geo, off), BlockOf(geo, end - 1))
    ensures Mapped(ls, o / geo.bs)
  {
    QuotientMono(off, o, geo.bs);
    QuotientMono(o, end - 1, geo.bs);
  }

  lemma Addressable(geo: Geo, end: nat)
    requires geo.bs > 0 && 0 < end <= U32 * geo.bs
    ensures BlockOf(geo, end - 1) < U32
  {
    DivRange(end - 1, 0, U32, geo.bs);
  }

  // ---------------------------------------------------------------- cutting

  /** The content with the rest of the block holding byte n zeroed. */
  ghost function CutTail(geo: Geo, c: seq<byte>, n: nat): (r: seq<byte>)
    requires geo.bs > 0
    ensures |r| == |c|
  {
    seq(|c|, i requires 0 <= i < |c| => if InSlack(geo, n, i) then 0 else c[i])
  }

  ghost predicate InSlack(geo: Geo, n: nat, o: nat)
    requires geo.bs > 0
  {
    n % geo.bs != 0 && n <= o < BlockEnd(geo, n)
  }

  /** The slack behind byte n has been zeroed and nothing else has changed. */
  ghost predicate TailCut(geo: Geo, img: Image, img': Image, ino: nat, ls: seq<Leaf>, size: nat, n: nat, steps: seq<Image>) {
    && Synced(geo, img, ino, ls, size) && Synced(geo, img', ino, ls, size)
    && img'.used == img.used && OthersSame(geo, img, img', ino) && Tree(geo, img', ino) == Tree(geo, img, ino)
    && (forall o: nat :: FileByte(img'.data, geo, ls, o) == if InSlack(geo, n, o) then 0 else FileByte(img.data, geo, ls, o))
    && Content(geo, img', ino) == CutTail(geo, Content(geo, img, ino), n)
    && Trail(geo, steps, img, ino, {CutTail(geo, Content(geo, img, ino), n)})
  }

  lemma TailCutMeans(geo: Geo, img: Image, img': Image, ino: nat, ls: seq<Leaf>, size: nat, n: nat, steps: seq<Image>)
    requires TailCut(geo, img, img', ino, ls, size, n, steps)
    ensures Synced(geo, img', ino, ls, size)
  {
  }

  lemma TailCutNoop(geo: Geo, img: Image, ino: nat, ls: seq<Leaf>, size: nat, n: nat)
    requires geo.bs > 0 && (n % geo.bs == 0 || !Mapped(ls, n / geo.bs))
    requires Synced(geo, img, ino, ls, size)
    ensures TailCut(geo, img, img, ino, ls, size, n, [])
  {
    hide ImageOk, FileOk;
    SyncedMeans(geo, img, ino, ls, size);
    OthersSameRefl(geo, img, ino);
    forall o: nat | InSlack(geo, n, o) ensures FileByte(img.data, geo, ls, o) == 0 {
      BlockEndBound(geo, n, o);
    }
    assert Content(geo, img, ino) == CutTail(geo, Content(geo, img, ino), n);
  }

  lemma TailCutWrite(geo: Geo, img: Image, ino: nat, ls: seq<Leaf>, i: nat, size: nat, n: nat, m: nat, po: nat)
    requires geo.bs > 0 && i < |ls| && Synced(geo, img, ino, ls, size)
    requires ls[i].log * geo.bs <= n && n + m <= (ls[i].log + ls[i].count) * geo.bs
    requires po == ls[i].phys * geo.bs + (n - ls[i].log * geo.bs) && po + m <= |img.data|
    ensures var img' := img.(data := Put(img.data, po, Zeros(m)));
            && Synced(geo, img', ino, ls, size) && OthersSame(geo, img, img', ino)
            && Tree(geo, img', ino) == Tree(geo, img, ino)
            && forall x: nat :: FileByte(img'.data, geo, ls, x) == if n <= x < n + m then 0 else FileByte(img.data, geo, ls, x)
  {
    WriteThrough(img.data, geo, ls, i, n, Zeros(m), po);
    TailStaysZero(img.data, geo, ls, size, n, m, po);
    OwnWriteStep(geo, img, ino, i, n, Zeros(m), po);
    var img' := img.(data := Put(img.data, po, Zeros(m)));
    assert FileOk(geo, img', ino);
  }

  lemma TailCutStep(geo: Geo, img: Image, ino: nat, ls: seq<Leaf>, i: nat, size: nat, n: nat, m: nat, po: nat)
    requires geo.bs > 0 && i < |ls| && n < size && n % geo.bs != 0
    requires ls[i].log * geo.bs <= n && n + m == BlockEnd(geo, n) <= (ls[i].log + ls[i].count) * geo.bs
    requires po == ls[i].phys * geo.bs + (n - ls[i].log * geo.bs)
    requires Synced(geo, img, ino, ls, size)
    ensures po + m <= |img.data|
    ensures var img' := img.(data := Put(img.data, po, Zeros(m)));
            TailCut(geo, img, img', ino, ls, size, n, [img'])
  {
    hide ImageOk, FileOk, OthersSame, TailZero, FileByte, BlockEnd;
    SyncedMeans(geo, img, ino, ls, size);
    assert LeafInBounds(geo, ls[i]);
    RunFits(geo, ls[i], n, m);
    TailCutWrite(geo, img, ino, ls, i, size, n, m, po);
    var img' := img.(data := Put(img.data, po, Zeros(m)));
    assert Content(geo, img', ino) == CutTail(geo, Content(geo, img, ino), n);
  }

  lemma TailStaysZero(data: seq<byte>, geo: Geo, ls: seq<Leaf>, size: nat, n: nat, m: nat, po: nat)
    requires Sized(data, geo) && geo.bs > 0 && TailZero(data, geo, ls, size) && po + m <= |data|
    requires forall x: nat :: FileByte(Put(data, po, Zeros(m)), geo, ls, x) == if n <= x < n + m then Zeros(m)[x - n] else FileByte(data, geo, ls, x)
    ensures TailZero(Put(data, po, Zeros(m)), geo, ls, size)
  {
  }

  /** Blocks needed for n bytes. */
  function Keep(geo: Geo, n: nat): nat
    requires geo.bs > 0
  {
    (n + geo.bs - 1) / geo.bs
  }

  lemma CutReleasable(geo: Geo, img: Image, img2: Image, ino: nat, ls: seq<Leaf>, size: nat, n: nat, steps: seq<Image>)
    requires geo.bs > 0 && Synced(geo, img, ino, ls, size) && CommitDone(geo, img, img2, ino, Cut(ls, Keep(geo, n)), n, steps)
    ensures ImageOk(geo, img2) && ino in img2.inodes
    ensures var freed := Dropped(ls, Keep(geo, n));
            forall k :: 0 <= k < |freed| ==> 0 < freed[k] < geo.blocks && Unowned(geo, img2, freed[k])
  {
    var freed := Dropped(ls, Keep(geo, n));
    forall k | 0 <= k < |freed| ensures 0 < freed[k] < geo.blocks && Unowned(geo, img2, freed[k]) {
      DroppedUnowned(geo, img, img2, ino, ls, size, n, steps, freed[k]);
    }
  }

  lemma KeepBound(geo: Geo, n: nat, o: nat)
    requires geo.bs > 0
    ensures o < n ==> o / geo.bs < Keep(geo, n)
    ensures o / geo.bs * geo.bs >= n ==> o / geo.bs >= Keep(geo, n)
  {
    var bs, k := geo.bs, Keep(geo, n);
    DivMulMod(n + bs - 1, bs);
    DivMulMod(o, bs);
    if o < n && o / bs >= k {
      MulMono(k, o / bs, bs);
    }
    if o / bs * bs >= n && o / bs < k {
      MulMono(o / bs + 1, k, bs);
    }
  }

  lemma CutCommittable(geo: Geo, img: Image, ino: nat, ls: seq<Leaf>, size: nat, n: nat)
    requires Synced(geo, img, ino, ls, size)
    ensures Committable(geo, img, ino, Cut(ls, Keep(geo, n)), n)
  {
    var keep := Keep(geo, n);
    var ms := Cut(ls, keep);
    CutOk(geo, ls, keep);
    CutBlocks(geo, ls, keep);
    forall o: nat | o / geo.bs * geo.bs >= n ensures FileByte(img.data, geo, ms, o) == 0 {
      CutBytes(img.data, geo, ls, keep, o);
      KeepBound(geo, n, o);
    }
    CutClaimable(geo, img, ino, ls, ms);
  }

  lemma CutClaimable(geo: Geo, img: Image, ino: nat, ls: seq<Leaf>, ms: seq<Leaf>)
    requires ImageOk(geo, img) && ino in img.inodes && FileOk(geo, img, ino) && Tree(geo, img, ino).leaves == ls
    requires Blocks(ms) <= Blocks(ls)
    ensures Claimable(geo, img, ino, ms)
  {
    assert Blocks(ls) <= Owned(geo, img, ino);
  }

  lemma CutContent(geo: Geo, img: Image, img1: Image, img2: Image, ino: nat, ls: seq<Leaf>, size: nat, n: nat)
    requires geo.bs > 0 && n <= size
    requires Synced(geo, img, ino, ls, size) && Synced(geo, img1, ino, ls, size) && Synced(geo, img2, ino, Cut(ls, Keep(geo, n)), n)
    requires forall o: nat :: FileByte(img1.data, geo, ls, o) == if InSlack(geo, n, o) then 0 else FileByte(img.data, geo, ls, o)
    requires forall o: nat :: FileByte(img2.data, geo, Cut(ls, Keep(geo, n)), o) == FileByte(img1.data, geo, Cut(ls, Keep(geo, n)), o)
    ensures |Content(geo, img, ino)| == size && Content(geo, img2, ino) == Take(Content(geo, img, ino), n)
  {
    var c, d := Content(geo, img, ino), Content(geo, img2, ino);
    forall o | 0 <= o < n ensures d[o] == c[o] {
      CutBytes(img1.data, geo, ls, Keep(geo, n), o);
      KeepBound(geo, n, o);
    }
  }

  /** A dropped block belongs to nobody once the shorter map is committed. */
  lemma DroppedUnowned(geo: Geo, img: Image, img2: Image, ino: nat, ls: seq<Leaf>, size: nat, n: nat, steps: seq<Image>, b: nat)
    requires Synced(geo, img, ino, ls, size) && CommitDone(geo, img, img2, ino, Cut(ls, Keep(geo, n)), n, steps)
    requires b in Dropped(ls, Keep(geo, n))
    ensures 0 < b < geo.blocks && Unowned(geo, img2, b)
  {
    CutBlocks(geo, ls, Keep(geo, n));
    assert b in Blocks(ls) && b in Owned(geo, img, ino) && b in img.used;
    BlocksInBounds(geo, ls, b);
    forall j | j in img2.inodes ensures b !in Owned(geo, img2, j) {
      if j == ino {
        assert b !in Index(geo, img2, ino);
      } else {
        assert SameFile(geo, img, img2, j);
        assert Owned(geo, img, ino) !! Owned(geo, img, j);
      }
    }
  }

  /** The first blocks of the list have been released and no file has noticed. */
  ghost predicate Released(geo: Geo, img: Image, img': Image, ino: nat, freed: seq<nat>, steps: seq<Image>) {
    && ImageOk(geo, img) && ImageOk(geo, img') && AllSame(geo, img, img') && ino in img.inodes
    && img'.used == img.used - (set b | b in freed) && Tree(geo, img', ino) == Tree(geo, img, ino)
    && (forall k :: 0 <= k < |steps| ==> ImageOk(geo, steps[k]) && AllSame(geo, img, steps[k]))
  }

  lemma ReleaseNone(geo: Geo, img: Image, ino: nat)
    requires ImageOk(geo, img) && ino in img.inodes
    ensures Released(geo, img, img, ino, [], [])
  {
    QuietStep(geo, img, img) by {
      forall j | j in img.inodes ensures Undisturbed(geo, img, img, j) && Owned(geo, img, j) <= img.used {
        assert FileOk(geo, img, j);
      }
    }
  }

  lemma ReleaseOne(geo: Geo, img: Image, img': Image, ino: nat, freed: seq<nat>, steps: seq<Image>, b: nat)
    requires Released(geo, img, img', ino, freed, steps) && b != 0 && Unowned(geo, img, b)
    ensures var img2 := img'.(used := img'.used - {b});
            Released(geo, img, img2, ino, freed + [b], steps + [img2])
  {
    UnownedSame(geo, img, img', b);
    FreeStep(geo, img', b);
    var img2 := img'.(used := img'.used - {b});
    AllSameTrans(geo, img, img', img2);
    assert Tree(geo, img2, ino) == Tree(geo, img', ino);
    assert (set x | x in freed + [b]) == (set x | x in freed) + {b};
  }

  /** A cut of file ino to n bytes. */
  ghost predicate ShrinkDone(geo: Geo, img: Image, img': Image, ino: nat, n: nat, steps: seq<Image>) {
    && ImageOk(geo, img) && ino in img.inodes && ImageOk(geo, img') && OthersSame(geo, img, img', ino) && ino in img'.inodes
    && var c := Content(geo, img, ino);
       && n <= |c| && Content(geo, img', ino) == Take(c, n) && Conserved(geo, img, img', ino)
       && Trail(geo, steps, img, ino, {c, CutTail(geo, c, n), Take(c, n)})
  }

  /** A cut that could not be committed: the slack behind byte n may already be zero. */
  ghost predicate ShrinkFailed(geo: Geo, img: Image, img': Image, ino: nat, n: nat, steps: seq<Image>) {
    && ImageOk(geo, img) && ino in img.inodes && ImageOk(geo, img') && OthersSame(geo, img, img', ino) && ino in img'.inodes
    && img'.used == img.used && Owned(geo, img', ino) == Owned(geo, img, ino)
    && Content(geo, img', ino) == CutTail(geo, Content(geo, img, ino), n)
    && Trail(geo, steps, img, ino, {CutTail(geo, Content(geo, img, ino), n)})
  }

  lemma ShrinkFailure(geo: Geo, img: Image, img1: Image, ino: nat, ls: seq<Leaf>, size: nat, n: nat, steps: seq<Image>)
    requires TailCut(geo, img, img1, ino, ls, size, n, steps)
    ensures ShrinkFailed(geo, img, img1, ino, n, steps)
  {
  }

  lemma ReleasedSynced(geo: Geo, img: Image, img': Image, ino: nat, ls: seq<Leaf>, n: nat, freed: seq<nat>, steps: seq<Image>)
    requires Synced(geo, img, ino, ls, n) && Released(geo, img, img', ino, freed, steps)
    ensures Synced(geo, img', ino, ls, n) && OthersSame(geo, img, img', ino)
    ensures Content(geo, img', ino) == Content(geo, img, ino)
    ensures Trail(geo, steps, img, ino, {Content(geo, img, ino)})
  {
    assert SameFile(geo, img, img', ino);
    assert FileOk(geo, img', ino);
    TrailQuiet(geo, steps, img, ino);
  }

  lemma CutConserved(geo: Geo, img: Image, img1: Image, img2: Image, img3: Image, ino: nat, ls: seq<Leaf>, size: nat, n: nat, ms: seq<Leaf>, D: set<nat>)
    requires Synced(geo, img, ino, ls, size) && Synced(geo, img2, ino, ms, n) && Synced(geo, img3, ino, ms, n)
    requires ino in img1.inodes && Sized(img1.data, geo) && Tree(geo, img1, ino) == Tree(geo, img, ino)
    requires img1.used == img.used && Tree(geo, img3, ino) == Tree(geo, img2, ino)
    requires img2.used == img1.used - Index(geo, img1, ino) + Index(geo, img2, ino) && Index(geo, img2, ino) !! img1.used
    requires img3.used == img2.used - D && Blocks(ls) == Blocks(ms) + D && Blocks(ms) !! D
    ensures Conserved(geo, img, img3, ino)
  {
    var i0, i2 := Index(geo, img, ino), Index(geo, img2, ino);
    assert Owned(geo, img, ino) == Blocks(ls) + i0;
    assert Owned(geo, img3, ino) == Blocks(ms) + i2;
    CutAlgebra(img.used, Blocks(ms), D, i0, i2);
  }

  lemma CutAlgebra(U: set<nat>, K: set<nat>, D: set<nat>, i0: set<nat>, i2: set<nat>)
    requires K + D + i0 <= U && K !! D && i0 !! K + D && i2 !! U
    ensures U - i0 + i2 - D == U - (K + D + i0) + (K + i2)
    ensures (K + i2) - (K + D + i0) !! U
  {
  }

  lemma ShrinkResult(geo: Geo, img: Image, img1: Image, img2: Image, img3: Image, ino: nat, ls: seq<Leaf>, size: nat, n: nat, ts: seq<Image>, cs: seq<Image>, fs: seq<Image>)
    requires geo.bs > 0 && n <= size && TailCut(geo, img, img1, ino, ls, size, n, ts)
    requires CommitDone(geo, img1, img2, ino, Cut(ls, Keep(geo, n)), n, cs)
    requires Released(geo, img2, img3, ino, Dropped(ls, Keep(geo, n)), fs)
    ensures ShrinkDone(geo, img, img3, ino, n, ts + cs + fs)
    ensures Synced(geo, img3, ino, Cut(ls, Keep(geo, n)), n)
  {
    var ms := Cut(ls, Keep(geo, n));
    ReleasedSynced(geo, img2, img3, ino, ms, n, Dropped(ls, Keep(geo, n)), fs);
    assert MapOk(geo, ls) by { assert FileOk(geo, img, ino); }
    CutBlocks(geo, ls, Keep(geo, n));
    hide ImageOk, FileOk, OthersSame, Trail, Tree, Content, Keep, Cut, Dropped, InSlack, MapOk;
    SyncedMeans(geo, img, ino, ls, size);
    CutContent(geo, img, img1, img2, ino, ls, size, n);
    CutConserved(geo, img, img1, img2, img3, ino, ls, size, n, ms, (set b | b in Dropped(ls, Keep(geo, n))));
    var c, d, t := Content(geo, img, ino), Content(geo, img1, ino), Content(geo, img2, ino);
    OthersSameTrans(geo, img, img1, img2, ino);
    OthersSameTrans(geo, img, img2, img3, ino);
    var all := {c, d, t};
    TrailJoin(geo, ts, cs, img, img1, ino, {d}, {d, t}, all);
    TrailJoin(geo, ts + cs, fs, img, img2, ino, all, {t}, all);
  }
}
