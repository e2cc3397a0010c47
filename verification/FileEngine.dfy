/** Positional reads and writes on an open file (open.go, writeat.go), over a
    device whose every intermediate state is recorded. */
module FileEngine {
  import opened Bytes
  import opened Extents
  import opened ExtentTree
  import opened Volume
  import opened FileMath
  import opened Steps
  import opened ReadPath
  import opened GrowPath
  import opened EngineSpec
  import opened FarGrowth

  /** The image, with the sequence of states its writes have produced and the number
      of allocations refused. */
  class Disk {
    const geo: Geo
    var img: Image
    ghost var history: seq<Image>
    ghost var denied: nat

    constructor (geo: Geo, img: Image)
      ensures this.geo == geo && this.img == img && history == [] && denied == 0
    {
      this.geo, this.img, this.history, this.denied := geo, img, [], 0;
    }

    method WriteRaw(off: nat, s: seq<byte>)
      requires off + |s| <= |img.data|
      modifies this`img, this`history
      ensures img == old(img).(data := Put(old(img).data, off, s))
      ensures history == old(history) + [img]
    {
      img := img.(data := Put(img.data, off, s));
      history := history + [img];
    }

    method WriteInode(ino: nat, n: Inode)
      modifies this`img, this`history
      ensures img == old(img).(inodes := old(img).inodes[ino := n])
      ensures history == old(history) + [img]
    {
      img := img.(inodes := img.inodes[ino := n]);
      history := history + [img];
    }

    /** `allocBlocks`: n free blocks, whichever the group search picks, or none at all. */
    method AllocBlocks(n: nat) returns (ok: bool, r: seq<nat>)
      modifies this
      ensures !ok ==> img == old(img) && history == old(history) && denied == old(denied) + 1
      ensures ok ==> denied == old(denied)
      ensures ok ==> |r| == n && Distinct(r) && forall i :: 0 <= i < n ==> 0 < r[i] < geo.blocks && r[i] !in old(img).used
      ensures ok ==> img == old(img).(used := old(img).used + set b | b in r) && history == old(history) + [img]
    {
      var free := set b | 0 < b < geo.blocks && b !in img.used;
      r := [];
      var refuse: bool := *;
      if |free| < n || refuse {
        denied := denied + 1;
        return false, r;
      }
      var left := free;
      while |r| < n
        invariant |r| <= n && |left| + |r| >= n && left <= free
        invariant Distinct(r)
        invariant forall i :: 0 <= i < |r| ==> r[i] in free && r[i] !in left
      {
        var b :| b in left;
        r := r + [b];
        left := left - {b};
      }
      img := img.(used := img.used + set b | b in r);
      history := history + [img];
      ok := true;
    }

    /** `freeBlock`: blocks before the first data block are left alone. */
    method FreeBlock(b: nat)
      modifies this`img, this`history
      ensures img == if b < geo.first then old(img) else old(img).(used := old(img).used - {b})
      ensures history == old(history) + [img]
    {
      if b >= geo.first {
        img := img.(used := img.used - {b});
      }
      history := history + [img];
    }
  }

  /** An open extent-mapped file. */
  class File {
    const vol: Disk
    const ino: nat
    var extents: seq<Leaf>
    var size: nat
    var closed: bool

    ghost predicate Valid()
      reads this, vol
    {
      Synced(vol.geo, vol.img, ino, extents, size)
    }

    constructor (vol: Disk, ino: nat, extents: seq<Leaf>, size: nat)
      ensures this.vol == vol && this.ino == ino && this.extents == extents && this.size == size && !closed
    {
      this.vol, this.ino, this.extents, this.size, this.closed := vol, ino, extents, size, false;
    }

    /** `newFile`: the handle for an extent-mapped inode, if it is readable. */
    static method Open(vol: Disk, ino: nat) returns (f: File?)
      requires vol.geo.Valid() && Sized(vol.img.data, vol.geo) && ino in vol.img.inodes
      ensures f != null <==> Openable(vol.geo, vol.img, ino)
      ensures f != null ==> fresh(f) && f.vol == vol && f.ino == ino && !f.closed && f.size == vol.img.inodes[ino].size
      ensures f != null ==> f.extents == Sort(Logical, Tree(vol.geo, vol.img, ino).leaves)
      ensures f != null && ImageOk(vol.geo, vol.img) ==> f.Valid() && f.extents == Tree(vol.geo, vol.img, ino).leaves
    {
      var r := ParseRoot(vol.img.data, vol.geo, vol.img.inodes[ino].iblock);
      if r.Failed? {
        return null;
      }
      var size := vol.img.inodes[ino].size;
      if size > DeclaredBytes(vol.geo) {
        return null;
      }
      if size > 0 && |r.leaves| == 0 {
        return null;
      }
      f := new File(vol, ino, Sort(Logical, r.leaves), size);
      if ImageOk(vol.geo, vol.img) {
        OpenSynced(vol.geo, vol.img, ino);
      }
    }

    /** `writeExtentTree`: the inode root for a map, writing a leaf block if it needs one. */
    method WriteTree(exts: seq<Leaf>) returns (err: Err, root: seq<byte>, c: nat, ghost steps: seq<Image>)
      requires vol.geo.Valid() && Sized(vol.img.data, vol.geo)
      modifies vol
      ensures vol.history == old(vol.history) + steps
      ensures err != Ok ==> vol.img == old(vol.img) && steps == [] && (err == NoSpace || err == TooManyExtents)
      ensures vol.denied >= old(vol.denied) && (err == NoSpace <==> vol.denied > old(vol.denied))
      ensures (err == TooManyExtents <==> Overfull(vol.geo, |exts|)) && (err == NoSpace ==> |exts| > INLINE_CAP)
      ensures err == Ok ==> root == RootOf(exts, c) && TreeWritten(vol.geo, old(vol.img), vol.img, exts, c, steps)
    {
      root, c, steps := Zeros(IBLOCK), 0, [];
      if |exts| <= INLINE_CAP {
        var node := BuildNode(exts, INLINE_CAP, IBLOCK);
        return Ok, node[..], 0, [];
      }
      var leafCap := vol.geo.LeafCap();
      if |exts| > leafCap {
        return TooManyExtents, root, 0, [];
      }
      var ok, bs := vol.AllocBlocks(1);
      if !ok {
        return NoSpace, root, 0, [];
      }
      c := bs[0];
      assert (set b | b in bs) == {c};
      ghost var img1 := vol.img;
      var node := BuildNode(exts, leafCap, vol.geo.bs);
      BlockFits(vol.geo, c);
      vol.WriteRaw(c * vol.geo.bs, node[..]);
      return Ok, IndexRoot(exts[0].log, c), c, [img1, vol.img];
    }

    /** The device side of `commitLocked`. */
    method CommitDevice(exts: seq<Leaf>, newSize: nat)
      returns (err: Err, c: nat, ghost img2: Image, ghost img3: Image, ghost pre: seq<Image>, ghost post: seq<Image>)
      requires vol.geo.Valid() && Sized(vol.img.data, vol.geo) && ino in vol.img.inodes && |vol.img.inodes[ino].iblock| == IBLOCK
      modifies vol
      ensures err != Ok ==> vol.img == old(vol.img) && vol.history == old(vol.history) && (err == NoSpace || err == TooManyExtents)
      ensures vol.denied >= old(vol.denied) && (err == NoSpace <==> vol.denied > old(vol.denied))
      ensures (err == TooManyExtents <==> Overfull(vol.geo, |exts|)) && (err == NoSpace ==> |exts| > INLINE_CAP)
      ensures err == Ok ==> CommitTrace(vol.geo, old(vol.img), img2, img3, vol.img, ino, exts, newSize, c, pre, post)
      ensures err == Ok ==> vol.history == old(vol.history) + (pre + [img3] + post) && Sized(vol.img.data, vol.geo)
    {
      hide RootOf, NodeBytes, SingleChild, ParseRoot, Put;
      var oldChild := SingleChild(vol.img.inodes[ino].iblock);
      var root;
      err, root, c, pre := WriteTree(exts);
      img2, img3, post := vol.img, vol.img, [];
      if err != Ok {
        return;
      }
      vol.WriteInode(ino, Inode(root, newSize));
      img3 := vol.img;
      if oldChild.Some? && SingleChild(root) != oldChild {
        vol.FreeBlock(oldChild.value);
        post := [vol.img];
      }
    }

    /** `commitLocked`: persists a map and a size, then adopts them. */
    method Commit(exts: seq<Leaf>, newSize: nat) returns (err: Err, ghost steps: seq<Image>)
      requires Valid()
      modifies this, vol
      ensures closed == old(closed) && vol.history == old(vol.history) + steps
      ensures err != Ok ==> vol.img == old(vol.img) && steps == [] && extents == old(extents) && size == old(size)
      ensures err == Ok || err == NoSpace || err == TooManyExtents
      ensures vol.denied >= old(vol.denied) && (err == NoSpace <==> vol.denied > old(vol.denied))
      ensures (err == TooManyExtents <==> vol.geo.Valid() && Overfull(vol.geo, |exts|)) && (err == NoSpace ==> |exts| > INLINE_CAP)
      ensures err == Ok ==> extents == exts && size == newSize && Sized(vol.img.data, vol.geo)
      ensures err == Ok && old(Committable(vol.geo, vol.img, ino, exts, newSize)) ==>
                CommitDone(vol.geo, old(vol.img), vol.img, ino, exts, newSize, steps)
      ensures err == Ok && InBounds(vol.geo, exts) && old(Mine(vol.geo, vol.img, ino, Blocks(exts)) && Blocks(exts) <= vol.img.used) ==>
                Strayed(vol.geo, old(vol.img), vol.img, ino, exts, steps)
    {
      hide Strayed, CommitDone, Committable, CommitTrace, Mine, InBounds, Blocks, Overfull;
      ghost var img, good := vol.img, Committable(vol.geo, vol.img, ino, exts, newSize);
      ghost var mine := InBounds(vol.geo, exts) && Mine(vol.geo, vol.img, ino, Blocks(exts)) && Blocks(exts) <= vol.img.used;
      var c;
      ghost var img2, img3, pre, post;
      err, c, img2, img3, pre, post := CommitDevice(exts, newSize);
      steps := [];
      if err != Ok {
        return;
      }
      steps := pre + [img3] + post;
      extents, size := exts, newSize;
      if good {
        CommitResult(vol.geo, img, img2, img3, vol.img, ino, exts, newSize, c, pre, post);
      }
      if mine {
        CommitStrays(vol.geo, img, img2, img3, vol.img, ino, exts, newSize, c, pre, post);
      }
    }

    /** `locateLocked`: the image offset of a file offset and how far its run reaches. */
    method Locate(cur: nat) returns (physOff: nat, avail: nat, ok: bool, i: nat)
      requires vol.geo.bs > 0
      ensures i <= |extents|
      ensures !ok && i < |extents| ==> cur / vol.geo.bs < extents[i].log
      ensures SortedMap(extents) ==> forall k :: 0 <= k < i ==> extents[k].log + extents[k].count <= cur / vol.geo.bs
      ensures ok ==> && i < |extents| && Covers(extents[i], cur / vol.geo.bs)
                     && extents[i].log * vol.geo.bs <= cur
                     && cur + avail == (extents[i].log + extents[i].count) * vol.geo.bs && avail > 0
                     && physOff == extents[i].phys * vol.geo.bs + (cur - extents[i].log * vol.geo.bs)
      ensures SortedMap(extents) ==> (ok <==> Mapped(extents, cur / vol.geo.bs))
    {
      hide Searchable, SortedMap, Bisect, Maps;
      var logBlock, within := cur / vol.geo.bs, cur % vol.geo.bs;
      i := SearchLeaf(extents, logBlock);
      if SortedMap(extents) { SortedIsSearchable(extents); }
      if i == |extents| || extents[i].log > logBlock {
        return 0, 0, false, i;
      }
      var e := extents[i];
      assert SortedMap(extents) ==> Maps(extents, logBlock, e.phys + (logBlock - e.log));
      LocateArith(vol.geo.bs, e, cur);
      var skip := logBlock - e.log;
      physOff := (e.phys + skip) * vol.geo.bs + within;
      avail := (e.count - skip) * vol.geo.bs - within;
      ok := true;
    }

    /** `ReadAt`: fills p from offset off; holes are zero-filled. */
    method ReadAt(p: array<byte>, off: int) returns (n: nat, err: Err)
      requires vol.geo.Valid() && Sized(vol.img.data, vol.geo) && SortedMap(extents)
      modifies p
      ensures n <= p.Length && forall k :: n <= k < p.Length ==> p[k] == old(p[k])
      ensures closed ==> n == 0 && err == Closed
      ensures !closed && off < 0 ==> n == 0 && err == BadOffset
      ensures !closed && off >= size ==> n == 0 && err == EOF
      ensures !closed && 0 <= off < size ==> off + n <= size
      ensures !closed && 0 <= off < size ==> p[..n] == FileBytes(vol.img.data, vol.geo, extents, size)[off..off + n]
      ensures !closed && 0 <= off < size ==> (err == Ok <==> n == p.Length)
      ensures !closed && 0 <= off < size && InBounds(vol.geo, extents) ==> n == Min(p.Length, size - off) && (err == Ok || err == EOF)
    {
      hide FileByte, FileBytes, InBounds, SortedMap, Filled, Put;
      if closed {
        return 0, Closed;
      }
      if off < 0 {
        return 0, BadOffset;
      }
      if off >= size {
        return 0, EOF;
      }
      ghost var content := FileBytes(vol.img.data, vol.geo, extents, size);
      n := 0;
      while n < p.Length
        invariant 0 <= n <= p.Length && off + n <= size
        invariant p[..] == Filled(old(p[..]), content[off..off + n])
      {
        var cur := off + n;
        if cur >= size {
          return n, EOF;
        }
        var want := Min(p.Length - n, size - cur);
        var s, ok := ReadChunk(cur, want);
        if !ok {
          return n, OutOfRange;
        }
        Store(p, n, s);
        FilledStep(old(p[..]), content, off, n, s);
        n := n + |s|;
      }
      return n, Ok;
    }

    method Store(p: array<byte>, n: nat, s: seq<byte>)
      requires n + |s| <= p.Length
      modifies p
      ensures p[..] == Put(old(p[..]), n, s)
    {
      forall j | n <= j < n + |s| { p[j] := s[j - n]; }
    }

    /** What one iteration of the read loop fetches: part of a hole, or of one run. */
    method ReadChunk(cur: nat, want: nat) returns (s: seq<byte>, ok: bool)
      requires vol.geo.Valid() && Sized(vol.img.data, vol.geo) && SortedMap(extents)
      requires 0 < want && cur + want <= size
      ensures ok ==> 0 < |s| <= want && s == FileBytes(vol.img.data, vol.geo, extents, size)[cur..cur + |s|]
      ensures !ok ==> !InBounds(vol.geo, extents)
    {
      var diskOff, avail, mapped, i := Locate(cur);
      if !mapped {
        var m := want;
        if i < |extents| {
          m := HoleChunk(i, cur, want);
        }
        HoleBytes(vol.img.data, vol.geo, extents, i, cur, m);
        return Zeros(m), true;
      }
      var m := Min(want, avail);
      var physBlock := extents[i].phys + (cur / vol.geo.bs - extents[i].log);
      if physBlock + (cur % vol.geo.bs + m - 1) / vol.geo.bs >= vol.geo.blocks {
        RangeErr(vol.geo, extents, i, cur, m);
        return [], false;
      }
      RunBytes(vol.img.data, vol.geo, extents, i, cur, m, diskOff);
      return vol.img.data[diskOff..diskOff + m], true;
    }

    /** How much of a hole to fill: up to the next leaf, never past it. */
    method HoleChunk(i: nat, cur: nat, want: nat) returns (chunk: nat)
      requires vol.geo.bs > 0 && i < |extents| && extents[i].log > cur / vol.geo.bs && want > 0
      ensures 0 < chunk <= want && cur + chunk <= extents[i].log * vol.geo.bs
    {
      DivMulMod(cur, vol.geo.bs);
      MulMono(cur / vol.geo.bs + 1, extents[i].log, vol.geo.bs);
      chunk := Min(want, extents[i].log * vol.geo.bs - cur);
    }

    /** `zeroSlackLocked`: zeroes the bytes a growth to newSize would expose. */
    method ZeroSlack(newSize: nat) returns (ghost steps: seq<Image>)
      requires Valid()
      modifies vol`img, vol`history
      ensures vol.history == old(vol.history) + steps
      ensures SlackDone(vol.geo, old(vol.img), vol.img, ino, extents, size, newSize, steps)
    {
      hide Synced, SlackDone, BlockEnd, Covers, SortedMap;
      SyncedMeans(vol.geo, vol.img, ino, extents, size);
      steps := [];
      if newSize <= size || size == 0 {
        if newSize > size { DivModUnique(0, vol.geo.bs, 0, 0); }
        SlackNoop(vol.geo, vol.img, ino, extents, size, newSize);
        return;
      }
      var slack := size % vol.geo.bs;
      if slack == 0 {
        SlackNoop(vol.geo, vol.img, ino, extents, size, newSize);
        return;
      }
      var phys, avail, ok, i := Locate(size);
      if !ok {
        SlackNoop(vol.geo, vol.img, ino, extents, size, newSize);
        return;
      }
      var n := Min(vol.geo.bs - slack, Min(avail, newSize - size));
      SlackLength(vol.geo, extents[i], size);
      SlackStep(vol.geo, vol.img, ino, extents, i, size, newSize, n, phys);
      vol.WriteRaw(phys, Zeros(n));
      steps := [vol.img];
    }

    /** The zeroing loop of `mapRangeLocked` over freshly allocated blocks. */
    method ZeroBlocks(phys: seq<nat>) returns (ghost steps: seq<Image>)
      requires ImageOk(vol.geo, vol.img) && ino in vol.img.inodes
      requires forall k :: 0 <= k < |phys| ==> phys[k] < vol.geo.blocks && Unowned(vol.geo, vol.img, phys[k])
      modifies vol`img, vol`history
      ensures vol.history == old(vol.history) + steps
      ensures ImageOk(vol.geo, vol.img) && AllSame(vol.geo, old(vol.img), vol.img)
      ensures vol.img.used == old(vol.img).used && vol.img.inodes == old(vol.img).inodes
      ensures Tree(vol.geo, vol.img, ino) == Tree(vol.geo, old(vol.img), ino)
      ensures BlocksZeroed(vol.geo, old(vol.img), vol.img, phys)
      ensures forall k :: 0 <= k < |steps| ==> ImageOk(vol.geo, steps[k]) && AllSame(vol.geo, old(vol.img), steps[k])
    {
      hide ImageOk, AllSame, BlocksZeroed, Unowned, Tree, Zeroing;
      steps := [];
      ghost var img := vol.img;
      ZeroNone(vol.geo, img, ino, phys);
      var i := 0;
      while i < |phys|
        invariant 0 <= i <= |phys| && vol.history == old(vol.history) + steps
        invariant Zeroing(vol.geo, img, vol.img, ino, phys[..i])
        invariant forall k :: 0 <= k < |steps| ==> ImageOk(vol.geo, steps[k]) && AllSame(vol.geo, img, steps[k])
      {
        ZeroOne(vol.geo, img, vol.img, ino, phys, i);
        vol.WriteRaw(phys[i] * vol.geo.bs, Zeros(vol.geo.bs));
        steps := steps + [vol.img];
        i := i + 1;
      }
      ZeroingMeans(vol.geo, img, vol.img, ino, phys[..i]);
      assert phys[..i] == phys;
    }

    /** The scan of `mapRangeLocked`: which blocks of the range are holes. */
    method MissingBlocks(first: nat, last: nat) returns (missing: seq<nat>)
      requires vol.geo.bs > 0 && SortedMap(extents)
      ensures StrictlyAscending(missing)
      ensures forall b: nat :: b in missing <==> first <= b <= last && !Mapped(extents, b)
      ensures missing != [] ==> first + |missing| <= last + 1
    {
      missing := [];
      var b := first;
      while b <= last
        invariant first <= b && (b <= last + 1 || b == first)
        invariant StrictlyAscending(missing) && first + |missing| <= b
        invariant forall k :: 0 <= k < |missing| ==> missing[k] < b
        invariant forall x: nat :: x in missing <==> first <= x < b && x <= last && !Mapped(extents, x)
      {
        DivModUnique(b * vol.geo.bs, vol.geo.bs, b, 0);
        var _, _, ok, _ := Locate(b * vol.geo.bs);
        if !ok {
          missing := missing + [b];
        }
        b := b + 1;
      }
    }

    /** Allocates and zeroes one block per hole, then zeroes the slack. */
    method Prepare(missing: seq<nat>, newSize: nat) returns (ok: bool, phys: seq<nat>, ghost steps: seq<Image>)
      requires Valid() && Holes(extents, missing) && size <= newSize
      modifies vol
      ensures vol.history == old(vol.history) + steps
      ensures !ok ==> vol.img == old(vol.img) && steps == []
      ensures vol.denied >= old(vol.denied) && (ok <==> vol.denied == old(vol.denied))
      ensures ok ==> |phys| == |missing| && FreshBlocks(vol.geo, old(vol.img), phys)
      ensures ok ==> GrowFailed(vol.geo, old(vol.img), vol.img, ino, extents, size, steps) && forall i :: 0 <= i < |phys| ==> phys[i] in vol.img.used
      ensures ok && (forall i :: 0 <= i < |missing| ==> missing[i] < U32) ==>
                ReadyToGrow(vol.geo, old(vol.img), vol.img, ino, extents, size, Grown(extents, missing, phys), (set p | p in phys), newSize)
    {
      hide ImageOk, AllSame, Synced, Unowned, Holes, FreshBlocks, BlocksZeroed, Tree, SlackDone, GrowFailed, ReadyToGrow, Grown, Distinct;
      steps := [];
      ghost var img := vol.img;
      ok, phys := vol.AllocBlocks(|missing|);
      if !ok {
        return;
      }
      ghost var imga := vol.img;
      FreshStep(vol.geo, img, imga, ino, extents, size, phys);
      ghost var zs := ZeroBlocks(phys);
      ghost var imgz := vol.img;
      ZeroedSynced(vol.geo, img, imga, imgz, ino, extents, size, phys);
      ghost var ss := ZeroSlack(newSize);
      SlackUsed(vol.geo, imgz, vol.img, ino, extents, size, newSize, ss);
      PrepareTrail(vol.geo, img, imga, imgz, vol.img, ino, extents, size, newSize, zs, ss);
      steps := [imga] + zs + ss;
      if forall i :: 0 <= i < |missing| ==> missing[i] < U32 {
        GrowReady(vol.geo, img, imgz, vol.img, ino, extents, size, missing, phys, newSize, ss);
      }
    }

    /** Appends one single-block leaf per hole and coalesces. */
    method MergeLeaves(missing: seq<nat>, phys: seq<nat>) returns (merged: seq<Leaf>)
      requires |missing| == |phys|
      ensures merged == Grown(extents, missing, phys) && |merged| <= |extents| + |missing|
    {
      var all := extents + NewLeaves(missing, phys);
      var a := new Leaf[|all|](i requires 0 <= i < |all| => all[i]);
      assert a[..] == all;
      var m := CoalesceExtents(a);
      return a[..m];
    }

    /** `mapRangeLocked`: makes every block of [off, end) exist and records the size. */
    method MapRange(off: nat, end: nat) returns (err: Err, ghost steps: seq<Image>)
      requires vol.geo.bs > 0 && off < end && Valid()
      modifies this, vol
      ensures err == Ok || err == NoSpace || err == TooManyExtents
      ensures vol.denied >= old(vol.denied) && (err == NoSpace <==> vol.denied > old(vol.denied))
      ensures err == TooManyExtents ==> vol.geo.Valid() && Overfull(vol.geo, |extents| + BlockOf(vol.geo, end - 1) + 1 - BlockOf(vol.geo, off))
      ensures |extents| <= |old(extents)| + BlockOf(vol.geo, end - 1) + 1 - BlockOf(vol.geo, off)
      ensures closed == old(closed) && vol.history == old(vol.history) + steps
      ensures err != Ok ==> extents == old(extents) && size == old(size)
      ensures err != Ok ==> GrowFailed(vol.geo, old(vol.img), vol.img, ino, extents, size, steps)
      ensures err == Ok ==> size == Max(old(size), end) && Sized(vol.img.data, vol.geo) && InBounds(vol.geo, extents)
      ensures err == Ok && BlockOf(vol.geo, end - 1) < U32 ==>
                GrowDone(vol.geo, old(vol.img), vol.img, ino, old(extents), old(size), extents, size, steps)
      ensures err == Ok && BlockOf(vol.geo, end - 1) < U32 ==> AllMapped(extents, BlockOf(vol.geo, off), BlockOf(vol.geo, end - 1))
      ensures err == Ok ==>
                FarMapped(vol.geo, old(vol.img), vol.img, ino, old(extents), extents, BlockOf(vol.geo, off), BlockOf(vol.geo, end - 1), steps)
    {
      hide FarMapped, AllMapped, BlockOf, Synced, GrowDone, GrowFailed, InBounds;
      BlockOrder(vol.geo, off, end - 1);
      err, steps := MapBlocks(BlockOf(vol.geo, off), BlockOf(vol.geo, end - 1), Max(size, end));
    }

    method MapBlocks(firstBlock: nat, lastBlock: nat, newSize: nat) returns (err: Err, ghost steps: seq<Image>)
      requires Valid() && size <= newSize && firstBlock <= lastBlock
      modifies this, vol
      ensures err == Ok || err == NoSpace || err == TooManyExtents
      ensures vol.denied >= old(vol.denied) && (err == NoSpace <==> vol.denied > old(vol.denied))
      ensures err == TooManyExtents ==> vol.geo.Valid() && Overfull(vol.geo, |extents| + lastBlock + 1 - firstBlock)
      ensures |extents| <= |old(extents)| + lastBlock + 1 - firstBlock
      ensures closed == old(closed) && vol.history == old(vol.history) + steps
      ensures err != Ok ==> extents == old(extents) && size == old(size)
      ensures err != Ok ==> GrowFailed(vol.geo, old(vol.img), vol.img, ino, extents, size, steps)
      ensures err == Ok ==> size == newSize && Sized(vol.img.data, vol.geo) && InBounds(vol.geo, extents)
      ensures err == Ok && lastBlock < U32 ==>
                GrowDone(vol.geo, old(vol.img), vol.img, ino, old(extents), old(size), extents, size, steps)
      ensures err == Ok && lastBlock < U32 ==> AllMapped(extents, firstBlock, lastBlock)
      ensures err == Ok ==> FarMapped(vol.geo, old(vol.img), vol.img, ino, old(extents), extents, firstBlock, lastBlock, steps)
    {
      hide FarGrown, FarMapped, AllMapped, ImageOk, FileOk, OthersSame, Trail, GrowDone, GrowFailed, Mapped, InBounds, SortedMap, ExtendsOver;
      ghost var img := vol.img;
      SyncedMeans(vol.geo, img, ino, extents, size);
      var missing := MissingBlocks(firstBlock, lastBlock);
      if |missing| == 0 {
        NoneMissing(extents, missing, firstBlock, lastBlock);
        if newSize == size {
          GrowNone(vol.geo, img, ino, extents, size);
          FarNothing(vol.geo, img, img, ino, extents, size, size, firstBlock, lastBlock, []);
          return Ok, [];
        }
        err, steps := GrowInPlace(newSize);
        if err == Ok {
          GrowDoneMeans(vol.geo, img, vol.img, ino, extents, old(size), extents, size, steps);
          FarNothing(vol.geo, img, vol.img, ino, extents, old(size), size, firstBlock, lastBlock, steps);
        }
        return;
      }
      MissingAreHoles(extents, missing, firstBlock, lastBlock);
      err, steps := GrowMap(missing, newSize);
      if err == Ok {
        RangeMapped(old(extents), extents, missing, firstBlock, lastBlock);
        FarGrownRange(vol.geo, img, vol.img, ino, old(extents), extents, missing, firstBlock, lastBlock, steps);
      }
    }

    method GrowInPlace(newSize: nat) returns (err: Err, ghost steps: seq<Image>)
      requires Valid() && size < newSize
      modifies this, vol
      ensures err == Ok || err == NoSpace || err == TooManyExtents
      ensures vol.denied >= old(vol.denied) && (err == NoSpace <==> vol.denied > old(vol.denied))
      ensures err == TooManyExtents <==> vol.geo.Valid() && Overfull(vol.geo, |extents|)
      ensures closed == old(closed) && extents == old(extents) && vol.history == old(vol.history) + steps
      ensures err != Ok ==> size == old(size) && GrowFailed(vol.geo, old(vol.img), vol.img, ino, extents, size, steps)
      ensures err == Ok ==> size == newSize && GrowDone(vol.geo, old(vol.img), vol.img, ino, extents, old(size), extents, size, steps)
    {
      hide Synced, GrowDone, GrowFailed, Committable, CommitDone, ReadyToGrow, SlackDone, Content, Tree;
      ghost var img, was := vol.img, size;
      ghost var ss := ZeroSlack(newSize);
      ghost var img1 := vol.img;
      SlackDoneMeans(vol.geo, img, img1, ino, extents, size, newSize, ss);
      GrowInPlaceReady(vol.geo, img, img1, ino, extents, size, newSize, ss);
      GrowCommittable(vol.geo, img, img1, ino, extents, size, extents, {}, newSize);
      ghost var cs;
      err, cs := Commit(extents, newSize);
      steps := ss + cs;
      if err == Ok {
        GrowResult(vol.geo, img, img1, vol.img, ino, extents, was, extents, {}, newSize, ss, cs);
      } else {
        SlackFailed(vol.geo, img, img1, ino, extents, was, newSize, ss);
        assert steps == ss;
      }
    }

    method GrowMap(missing: seq<nat>, newSize: nat) returns (err: Err, ghost steps: seq<Image>)
      requires Valid() && Holes(extents, missing) && size <= newSize
      modifies this, vol
      ensures err == Ok || err == NoSpace || err == TooManyExtents
      ensures vol.denied >= old(vol.denied) && (err == NoSpace <==> vol.denied > old(vol.denied))
      ensures err == TooManyExtents ==> vol.geo.Valid() && Overfull(vol.geo, |extents| + |missing|)
      ensures |extents| <= |old(extents)| + |missing|
      ensures closed == old(closed) && vol.history == old(vol.history) + steps
      ensures err != Ok ==> extents == old(extents) && size == old(size)
      ensures err != Ok ==> GrowFailed(vol.geo, old(vol.img), vol.img, ino, extents, size, steps)
      ensures err == Ok ==> size == newSize && Sized(vol.img.data, vol.geo) && InBounds(vol.geo, extents)
      ensures err == Ok && (forall i :: 0 <= i < |missing| ==> missing[i] < U32) ==>
                GrowDone(vol.geo, old(vol.img), vol.img, ino, old(extents), old(size), extents, size, steps)
      ensures err == Ok && (forall i :: 0 <= i < |missing| ==> missing[i] < U32) ==> ExtendsOver(old(extents), extents, missing)
      ensures err == Ok ==> FarGrown(vol.geo, old(vol.img), vol.img, ino, old(extents), extents, missing, steps)
    {
      hide Strayed, FarGrown, Mine, Blocks, FreshBlocks, Synced, GrowDone, GrowFailed, Committable, CommitDone, ReadyToGrow, Grown, Content, Tree, InBounds, SortedMap, Mapped, Holes, ExtendsOver;
      ghost var img, ls, n0 := vol.img, extents, size;
      SyncedMeans(vol.geo, img, ino, extents, size);
      ghost var low := forall i :: 0 <= i < |missing| ==> missing[i] < U32;
      var ok, phys;
      ghost var ps;
      ok, phys, ps := Prepare(missing, newSize);
      steps := ps;
      if !ok {
        GrowNoneFailed(vol.geo, img, ino, extents, size);
        return NoSpace, steps;
      }
      ghost var img1 := vol.img;
      PrepareIsTrail(vol.geo, img, img1, ino, ls, n0, ps);
      var merged := MergeLeaves(missing, phys);
      GrownInBounds(vol.geo, extents, missing, phys) by { FreshInside(vol.geo, img, phys); }
      GrownClaims(vol.geo, img, img1, ino, ls, n0, missing, phys, ps);
      if low {
        GrowCommittable(vol.geo, img, img1, ino, ls, n0, merged, (set p | p in phys), newSize);
      }
      ghost var cs;
      err, cs := Commit(merged, newSize);
      steps := ps + cs;
      if err != Ok {
        assert steps == ps;
      } else {
        FarResult(vol.geo, img, img1, vol.img, ino, ls, n0, missing, phys, ps, cs);
      }
      if err == Ok && low {
        GrowResult(vol.geo, img, img1, vol.img, ino, ls, n0, merged, (set p | p in phys), newSize, ps, cs);
        GrownExtends(vol.geo, img, ino, ls, n0, missing, phys);
      }
    }

    /** The data loop of `WriteAt`. */
    method WriteData(p: seq<byte>, off: nat) returns (n: nat, err: Err, ghost steps: seq<Image>)
      requires vol.geo.bs > 0 && Sized(vol.img.data, vol.geo) && InBounds(vol.geo, extents) && |p| > 0 && off + |p| <= size
      modifies vol`img, vol`history
      ensures vol.history == old(vol.history) + steps
      ensures n <= |p| && (err == Ok <==> n == |p|) && (err == Ok || err == Unmapped)
      ensures err == Ok ==> BlockOf(vol.geo, off + |p| - 1) < U32
      ensures old(Valid()) && AllMapped(extents, BlockOf(vol.geo, off), BlockOf(vol.geo, off + |p| - 1)) ==>
                err == Ok && DataDone(vol.geo, old(vol.img), vol.img, ino, extents, size, off, p, |p|, steps)
      ensures InsideMap(vol.geo, old(vol.img), vol.img, ino, extents, steps)
    {
      hide InsideMap, Put, DataDone, Synced, AllMapped, InBounds, BlockOf;
      ghost var img0, good := vol.img, Valid() && AllMapped(extents, BlockOf(vol.geo, off), BlockOf(vol.geo, off + |p| - 1));
      n, steps := 0, [];
      InsideStart(vol.geo, img0, ino, extents);
      if good {
        DataStart(vol.geo, img0, ino, extents, size, off, p);
        SyncedMeans(vol.geo, img0, ino, extents, size);
      }
      while n < |p|
        invariant n <= |p| && vol.history == old(vol.history) + steps && Sized(vol.img.data, vol.geo)
        invariant n > 0 ==> off + n <= U32 * vol.geo.bs
        invariant good ==> DataDone(vol.geo, img0, vol.img, ino, extents, size, off, p, n, steps)
        invariant InsideMap(vol.geo, img0, vol.img, ino, extents, steps)
      {
        var cur := off + n;
        var phys, avail, ok, i := Locate(cur);
        if good {
          MappedSpan(vol.geo, extents, off, off + |p|, cur);
        }
        if !ok {
          return n, Unmapped, steps;
        }
        var chunk := Min(|p| - n, avail);
        ChunkFits(vol.geo, extents, i, cur, chunk);
        if good {
          DataStep(vol.geo, img0, vol.img, ino, extents, size, off, p, n, steps, i, chunk, phys);
        }
        InsideStep(vol.geo, img0, vol.img, ino, extents, steps, i, cur, p[n..n + chunk], phys);
        vol.WriteRaw(phys, p[n..n + chunk]);
        steps := steps + [vol.img];
        n := n + chunk;
      }
      Addressable(vol.geo, off + n);
      err := Ok;
    }

    /** `WriteAt`: stores p at offset off, allocating only the blocks it lacks. */
    method WriteAt(p: seq<byte>, off: int) returns (n: nat, err: Err, ghost steps: seq<Image>)
      requires vol.geo.bs > 0 && Valid()
      modifies this, vol
      ensures closed == old(closed) && vol.history == old(vol.history) + steps
      ensures closed ==> err == Closed
      ensures !closed && off < 0 ==> err == BadOffset
      ensures !closed && off >= 0 && |p| == 0 ==> err == Ok
      ensures !closed && off >= 0 && |p| > 0 && off + |p| >= U63 ==> err == BadOffset
      ensures closed || off < 0 || |p| == 0 || off + |p| >= U63 ==>
                n == 0 && vol.img == old(vol.img) && extents == old(extents) && size == old(size) && steps == []
      ensures err == Ok <==> !closed && off >= 0 && n == |p|
      ensures n <= |p|
      ensures vol.denied >= old(vol.denied) && (err == NoSpace <==> vol.denied > old(vol.denied))
      ensures err == TooManyExtents ==>
                off >= 0 && |p| > 0 && vol.geo.Valid() && Overfull(vol.geo, |extents| + BlockOf(vol.geo, off + |p| - 1) + 1 - BlockOf(vol.geo, off))
      ensures err == Ok || err == Closed || err == BadOffset || err == NoSpace || err == TooManyExtents || err == Unmapped
      ensures err == Unmapped ==> off >= 0 && |p| > 0 && BlockOf(vol.geo, off + |p| - 1) >= U32
      ensures off >= 0 && |p| > 0 ==> |extents| <= |old(extents)| + BlockOf(vol.geo, off + |p| - 1) + 1 - BlockOf(vol.geo, off)
      ensures err == BadOffset ==> off < 0 || off + |p| >= U63
      ensures err == Closed ==> closed
      ensures err == Ok && |p| > 0 ==> BlockOf(vol.geo, off + |p| - 1) < U32
      ensures err == Ok && |p| > 0 ==> Valid() && size == Max(old(size), off + |p|)
      ensures err == Ok && |p| > 0 ==> WriteDone(vol.geo, old(vol.img), vol.img, ino, off, p, steps)
      ensures err != Ok && off >= 0 && |p| > 0 && BlockOf(vol.geo, off + |p| - 1) < U32 ==>
                n == 0 && extents == old(extents) && size == old(size) && GrowFailed(vol.geo, old(vol.img), vol.img, ino, extents, size, steps)
      ensures OthersSafe(vol.geo, old(vol.img), vol.img, ino) && OthersAlong(vol.geo, old(vol.img), steps, ino)
      ensures err == Unmapped ==>
                && ino in vol.img.inodes
                && (Tree(vol.geo, vol.img, ino).Parsed? <==> SurvivesRange(old(extents), BlockOf(vol.geo, off), BlockOf(vol.geo, off + |p| - 1)))
    {
      hide OthersSafe, OthersAlong, Tree, SurvivesRange, FarMapped, InsideMap, Overfull, DataDone, Synced, AllMapped, InBounds, BlockOf, GrowDone, GrowFailed, WriteDone;
      ghost var img := vol.img;
      n, steps := 0, [];
      SyncedMeans(vol.geo, img, ino, extents, size);
      NothingDone(vol.geo, img, ino, extents, size);
      if off >= 0 && |p| > 0 { BlockOrder(vol.geo, off, off + |p| - 1); }
      if closed {
        GrowNoneFailed(vol.geo, img, ino, extents, size);
        return 0, Closed, [];
      }
      if off < 0 {
        return 0, BadOffset, [];
      }
      if |p| == 0 {
        return 0, Ok, [];
      }
      var end := off + |p|;
      if end >= U63 {
        GrowNoneFailed(vol.geo, img, ino, extents, size);
        return 0, BadOffset, [];
      }
      ghost var gs, ds;
      err, gs := MapRange(off, end);
      steps := gs;
      if err != Ok {
        FailedOthers(vol.geo, img, vol.img, ino, extents, size, gs);
        return;
      }
      ghost var img1 := vol.img;
      if BlockOf(vol.geo, end - 1) < U32 {
        GrowDoneMeans(vol.geo, img, img1, ino, old(extents), old(size), extents, size, gs);
      }
      n, err, ds := WriteData(p, off);
      steps := gs + ds;
      InsideAstray(vol.geo, img, img1, vol.img, ino, old(extents), extents, BlockOf(vol.geo, off), BlockOf(vol.geo, end - 1), gs, ds);
      if err == Ok {
        WriteResult(vol.geo, img, img1, vol.img, ino, old(extents), old(size), extents, size, off, p, gs, ds);
        DataDoneMeans(vol.geo, img1, vol.img, ino, extents, size, off, p, |p|, ds);
      }
    }

    /** The cut of `shrinkLocked`: leaves to keep, blocks to free. */
    method CutExtents(keep: nat) returns (kept: seq<Leaf>, freed: seq<nat>)
      ensures kept == Cut(extents, keep) && freed == Dropped(extents, keep)
    {
      kept, freed := [], [];
      var k := 0;
      while k < |extents|
        invariant 0 <= k <= |extents|
        invariant kept == Cut(extents[..k], keep) && freed == Dropped(extents[..k], keep)
      {
        var e := extents[k];
        assert extents[..k + 1][..k] == extents[..k];
        if e.log >= keep {
          freed := AppendRun(freed, e, 0);
          assert Dropped(extents[..k + 1], keep) == Dropped(extents[..k], keep) + Run(e);
        } else if e.log + e.count <= keep {
          kept := kept + [e];
        } else {
          var n := keep - e.log;
          kept := kept + [e.(count := n)];
          freed := AppendRun(freed, e, n);
        }
        k := k + 1;
      }
      assert extents[..k] == extents;
    }

    static method AppendRun(pre: seq<nat>, e: Leaf, start: nat) returns (r: seq<nat>)
      requires start <= e.count
      ensures r == pre + Run(Leaf(e.log + start, e.phys + start, e.count - start))
    {
      r := pre;
      var i := start;
      while i < e.count
        invariant start <= i <= e.count
        invariant r == pre + Run(Leaf(e.log + start, e.phys + start, i - start))
      {
        r := r + [e.phys + i];
        i := i + 1;
      }
    }

    /** Zeroes the rest of the last block kept. */
    method ZeroTail(n: nat) returns (ghost steps: seq<Image>)
      requires vol.geo.bs > 0 && n < size && Valid()
      modifies vol`img, vol`history
      ensures vol.history == old(vol.history) + steps
      ensures TailCut(vol.geo, old(vol.img), vol.img, ino, extents, size, n, steps)
    {
      hide Synced, TailCut, InBounds, BlockEnd;
      SyncedMeans(vol.geo, vol.img, ino, extents, size);
      steps := [];
      var slack := n % vol.geo.bs;
      if slack == 0 {
        TailCutNoop(vol.geo, vol.img, ino, extents, size, n);
        return;
      }
      var phys, avail, ok, i := Locate(n);
      if !ok {
        TailCutNoop(vol.geo, vol.img, ino, extents, size, n);
        return;
      }
      var m := Min(vol.geo.bs - slack, avail);
      SlackLength(vol.geo, extents[i], n);
      TailCutStep(vol.geo, vol.img, ino, extents, i, size, n, m, phys);
      vol.WriteRaw(phys, Zeros(m));
      steps := [vol.img];
    }

    /** The freeing loop of `shrinkLocked`. */
    method Release(freed: seq<nat>) returns (ghost steps: seq<Image>)
      requires ImageOk(vol.geo, vol.img) && ino in vol.img.inodes
      requires forall k :: 0 <= k < |freed| ==> 0 < freed[k] < vol.geo.blocks && Unowned(vol.geo, vol.img, freed[k])
      modifies vol`img, vol`history
      ensures vol.history == old(vol.history) + steps
      ensures Released(vol.geo, old(vol.img), vol.img, ino, freed, steps)
    {
      hide Released, FileOk, Unowned;
      ghost var img := vol.img;
      steps := [];
      ReleaseNone(vol.geo, img, ino);
      var k := 0;
      while k < |freed|
        invariant 0 <= k <= |freed| && vol.history == old(vol.history) + steps
        invariant Released(vol.geo, img, vol.img, ino, freed[..k], steps)
      {
        ReleaseOne(vol.geo, img, vol.img, ino, freed[..k], steps, freed[k]);
        vol.FreeBlock(freed[k]);
        steps := steps + [vol.img];
        assert freed[..k] + [freed[k]] == freed[..k + 1];
        k := k + 1;
      }
      assert freed[..k] == freed;
    }

    /** `shrinkLocked`: cuts the file to n bytes; the map is committed before any block is freed. */
    method Shrink(n: nat) returns (err: Err, ghost steps: seq<Image>)
      requires vol.geo.bs > 0 && n < size && Valid()
      modifies this, vol
      ensures closed == old(closed) && vol.history == old(vol.history) + steps && Valid()
      ensures err == Ok || err == NoSpace || err == TooManyExtents
      ensures vol.denied >= old(vol.denied) && (err == NoSpace <==> vol.denied > old(vol.denied))
      ensures err == TooManyExtents <==> vol.geo.Valid() && Overfull(vol.geo, |Cut(old(extents), Keep(vol.geo, n))|)
      ensures err == Ok ==> size == n && extents == Cut(old(extents), Keep(vol.geo, n))
      ensures err == Ok ==> ShrinkDone(vol.geo, old(vol.img), vol.img, ino, n, steps)
      ensures err != Ok ==> size == old(size) && extents == old(extents)
      ensures err != Ok ==> ShrinkFailed(vol.geo, old(vol.img), vol.img, ino, n, steps)
    {
      hide Synced, TailCut, Keep, Committable, CommitDone, Released, ShrinkDone, ShrinkFailed, ImageOk, Unowned, Cut, Dropped, Overfull;
      ghost var img, ls, n0 := vol.img, extents, size;
      var kept, freed := CutExtents(Keep(vol.geo, n));
      ghost var ts := ZeroTail(n);
      ghost var img1 := vol.img;
      TailCutMeans(vol.geo, img, img1, ino, ls, n0, n, ts);
      CutCommittable(vol.geo, img1, ino, ls, n0, n);
      ghost var cs;
      err, cs := Commit(kept, n);
      if err != Ok {
        ShrinkFailure(vol.geo, img, img1, ino, ls, n0, n, ts);
        steps := ts;
        return;
      }
      ghost var img2 := vol.img;
      CutReleasable(vol.geo, img1, img2, ino, ls, n0, n, cs);
      ghost var fs := Release(freed);
      steps := ts + cs + fs;
      ShrinkResult(vol.geo, img, img1, img2, vol.img, ino, ls, n0, n, ts, cs, fs);
    }

    /** `Truncate`: cuts the file, or grows it by a hole. */
    method Truncate(n: int) returns (err: Err, ghost steps: seq<Image>)
      requires vol.geo.bs > 0 && Valid()
      modifies this, vol
      ensures closed == old(closed) && vol.history == old(vol.history) + steps && Valid()
      ensures closed ==> err == Closed
      ensures !closed && n < 0 ==> err == BadOffset
      ensures !closed && n == old(size) ==> err == Ok
      ensures !closed && n >= 0 ==> err == Ok || err == NoSpace || err == TooManyExtents
      ensures vol.denied >= old(vol.denied) && (err == NoSpace <==> vol.denied > old(vol.denied))
      ensures err == TooManyExtents <==>
                !closed && n >= 0 && n != old(size) && vol.geo.Valid()
                && Overfull(vol.geo, if n < old(size) then |Cut(old(extents), Keep(vol.geo, n))| else |old(extents)|)
      ensures |extents| <= |old(extents)|
      ensures err == TooManyExtents ==> Overfull(vol.geo, |old(extents)|)
      ensures closed || n < 0 || n == old(size) ==> vol.img == old(vol.img) && extents == old(extents) && size == old(size) && steps == []
      ensures err == Ok ==> size == n
      ensures err == Ok && n < old(size) ==> ShrinkDone(vol.geo, old(vol.img), vol.img, ino, n, steps)
      ensures err == Ok && n > old(size) ==> GrowDone(vol.geo, old(vol.img), vol.img, ino, extents, old(size), extents, n, steps)
      ensures err != Ok ==> size == old(size) && extents == old(extents)
      ensures err != Ok && !closed && 0 <= n < old(size) ==> ShrinkFailed(vol.geo, old(vol.img), vol.img, ino, n, steps)
      ensures err != Ok && !closed && n > old(size) ==> GrowFailed(vol.geo, old(vol.img), vol.img, ino, extents, size, steps)
    {
      hide Synced, GrowDone, GrowFailed, ShrinkDone, ShrinkFailed;
      steps := [];
      if closed {
        return Closed, [];
      }
      if n < 0 {
        return BadOffset, [];
      }
      if n == size {
        return Ok, [];
      }
      if n < size {
        err, steps := Shrink(n);
        return;
      }
      ghost var img, was := vol.img, size;
      err, steps := GrowInPlace(n);
      if err == Ok {
        GrowDoneMeans(vol.geo, img, vol.img, ino, extents, was, extents, size, steps);
      } else {
        PrepareIsTrail(vol.geo, img, vol.img, ino, extents, size, steps);
      }
    }
  }
}
