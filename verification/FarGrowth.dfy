/** Growth past the 32-bit range of logical block numbers (writeat.go): what the
    truncated numbers do to the file's own tree, and why no other file notices. */
module FarGrowth {
  import opened Bytes
  import opened Extents
  import opened ExtentTree
  import opened Volume
  import opened FileMath
  import opened Steps
  import opened GrowPath
  import opened EngineSpec

  // ---------------------------------------------------------------- the committed root

  /** The holes' numbers stay distinct and unmapped when cut to 32 bits. */
  ghost predicate Survives(ls: seq<Leaf>, missing: seq<nat>) {
    NoneMapped(ls, missing) && StayDistinct(missing)
  }

  ghost predicate NoneMapped(ls: seq<Leaf>, missing: seq<nat>) {
    forall i :: 0 <= i < |missing| ==> !Mapped(ls, missing[i] % U32)
  }

  predicate StayDistinct(missing: seq<nat>) {
    forall i, j :: 0 <= i < j < |missing| ==> missing[i] % U32 != missing[j] % U32
  }

  /** The same for all holes of a range. */
  ghost predicate SurvivesRange(ls: seq<Leaf>, first: nat, last: nat) {
    && (forall b: nat :: first <= b <= last && !Mapped(ls, b) ==> !Mapped(ls, b % U32))
    && (forall b: nat, c: nat {:trigger Mapped(ls, b), Mapped(ls, c)} ::
          first <= b < c <= last && !Mapped(ls, b) && !Mapped(ls, c) ==> b % U32 != c % U32)
  }

  lemma SurvivesIsRange(ls: seq<Leaf>, missing: seq<nat>, first: nat, last: nat)
    requires StrictlyAscending(missing) && forall b: nat :: b in missing <==> first <= b <= last && !Mapped(ls, b)
    ensures Survives(ls, missing) <==> SurvivesRange(ls, first, last)
  {
    if Survives(ls, missing) {
      forall b: nat | first <= b <= last && !Mapped(ls, b) ensures !Mapped(ls, b % U32) {
        assert b in missing;
      }
      forall b: nat, c: nat | first <= b < c <= last && !Mapped(ls, b) && !Mapped(ls, c) ensures b % U32 != c % U32 {
        assert b in missing && c in missing;
        var i :| 0 <= i < |missing| && missing[i] == b;
        var j :| 0 <= j < |missing| && missing[j] == c;
        assert i < j;
      }
    }
    if SurvivesRange(ls, first, last) {
      forall i | 0 <= i < |missing| ensures !Mapped(ls, missing[i] % U32) { assert missing[i] in missing; }
      forall i, j | 0 <= i < j < |missing| ensures missing[i] % U32 != missing[j] % U32 {
        assert missing[i] in missing && missing[j] in missing;
      }
    }
  }

  /** Among themselves the new leaves are apart as their numbers are. */
  lemma NewAmong(missing: seq<nat>, phys: seq<nat>)
    requires |missing| == |phys| && Distinct(phys)
    ensures var add := NewLeaves(missing, phys);
            && AllApart(Physical, add)
            && (AllApart(Logical, add) <==> StayDistinct(missing))
  {
    var add := NewLeaves(missing, phys);
    if AllApart(Logical, add) {
      forall i, j | 0 <= i < j < |missing| ensures missing[i] % U32 != missing[j] % U32 {
        assert Apart(Logical, add[i], add[j]);
      }
    }
  }

  lemma RunInBlocks(ls: seq<Leaf>, l: Leaf, p: nat)
    requires l in ls
    ensures l.phys <= p < l.phys + l.count ==> p in Blocks(ls)
  {
    if l.phys <= p < l.phys + l.count { assert Maps(ls, l.log + (p - l.phys), p); }
  }

  /** A one-block leaf is apart from all of a list exactly if its block is unmapped there. */
  lemma NewAgainst(ls: seq<Leaf>, e: Leaf)
    requires e.count == 1 && e.phys !in Blocks(ls)
    ensures forall x :: x in ls ==> Apart(Physical, x, e)
    ensures (forall x :: x in ls ==> Apart(Logical, x, e)) <==> !Mapped(ls, e.log)
  {
    forall x | x in ls ensures Apart(Physical, x, e) { RunInBlocks(ls, x, e.phys); }
    if Mapped(ls, e.log) {
      var p: nat :| Maps(ls, e.log, p);
      var l :| l in ls && Covers(l, e.log);
      assert !Apart(Logical, l, e);
    } else {
      forall x | x in ls ensures Apart(Logical, x, e) {
        assert Covers(x, e.log) ==> Maps(ls, e.log, x.phys + (e.log - x.log));
      }
    }
  }

  /** Against the old ones they are apart as their numbers are unmapped. */
  lemma NewAcross(ls: seq<Leaf>, missing: seq<nat>, phys: seq<nat>)
    requires |missing| == |phys| && forall i :: 0 <= i < |phys| ==> phys[i] !in Blocks(ls)
    ensures var add := NewLeaves(missing, phys);
            && Across(Physical, ls, add)
            && (Across(Logical, ls, add) <==> NoneMapped(ls, missing))
  {
    hide Apart, Mapped, Blocks;
    var add := NewLeaves(missing, phys);
    forall k | 0 <= k < |add|
      ensures forall x :: x in ls ==> Apart(Physical, x, add[k])
      ensures (forall x :: x in ls ==> Apart(Logical, x, add[k])) <==> !Mapped(ls, missing[k] % U32)
    {
      NewAgainst(ls, add[k]);
    }
    if Across(Logical, ls, add) {
      forall k | 0 <= k < |missing| ensures !Mapped(ls, missing[k] % U32) { assert add[k] in add; }
    }
  }

  /** The new leaves overlap nothing exactly if the truncated numbers survive. */
  lemma NewLeavesApart(geo: Geo, ls: seq<Leaf>, missing: seq<nat>, phys: seq<nat>)
    requires MapOk(geo, ls) && |missing| == |phys| && Distinct(phys) && forall i :: 0 <= i < |phys| ==> phys[i] !in Blocks(ls)
    ensures var all := ls + NewLeaves(missing, phys);
            AllApart(Physical, all) && (AllApart(Logical, all) <==> Survives(ls, missing))
  {
    hide AllApart, NewLeaves, Across, Blocks, NoneMapped, StayDistinct, SortedMap, Injective, InBounds;
    var add := NewLeaves(missing, phys);
    SortedInjectiveApart(ls);
    NewAmong(missing, phys);
    NewAcross(ls, missing, phys);
    ApartMiddle(Logical, [], ls, add);
    ApartMiddle(Physical, [], ls, add);
    assert [] + add == add && [] + ls + add == ls + add;
  }

  lemma GrownApart(geo: Geo, ls: seq<Leaf>, missing: seq<nat>, phys: seq<nat>)
    requires MapOk(geo, ls) && |missing| == |phys| && Distinct(phys) && forall i :: 0 <= i < |phys| ==> phys[i] !in Blocks(ls)
    ensures var ms := Grown(ls, missing, phys);
            AllApart(Physical, ms) && (AllApart(Logical, ms) <==> Survives(ls, missing))
  {
    hide AllApart, Survives, Sort, Merge;
    var all := ls + NewLeaves(missing, phys);
    var s := Sort(Logical, all);
    NewLeavesApart(geo, ls, missing, phys);
    assert forall x :: x in all ==> x.count >= 1;
    forall ax: Axis ensures AllApart(ax, Merge(s)) <==> AllApart(ax, all) {
      SortProps(ax, Logical, all);
      MergeApart(ax, s, []);
      assert Merge(s) + [] == Merge(s) && s + [] == s;
    }
  }

  lemma GrownInBlocks(ls: seq<Leaf>, missing: seq<nat>, phys: seq<nat>, p: nat)
    requires |missing| == |phys| && p in Blocks(Grown(ls, missing, phys))
    ensures p in Blocks(ls) || p in phys
  {
    var all := ls + NewLeaves(missing, phys);
    SortSameMap(all);
    MergeSameMap(Sort(Logical, all));
    var b: nat :| Maps(Grown(ls, missing, phys), b, p);
    assert Maps(Sort(Logical, all), b, p);
    MapsAppend(ls, NewLeaves(missing, phys), b, p);
    if Maps(NewLeaves(missing, phys), b, p) {
      var l :| l in NewLeaves(missing, phys) && Covers(l, b) && p == l.phys + (b - l.log);
      var i :| 0 <= i < |missing| && NewLeaves(missing, phys)[i] == l;
      assert phys[i] == p;
    }
  }

  /** The parser accepts a committed root exactly if its leaves are disjoint. */
  lemma RootVerdict(geo: Geo, img: Image, ms: seq<Leaf>, c: nat)
    requires geo.Valid() && Sized(img.data, geo) && InBounds(geo, ms) && 12 + 12 * |ms| <= geo.bs
    requires |ms| > INLINE_CAP ==> 0 < c < geo.blocks && BlockAt(img.data, geo, c) == NodeBytes(ms, geo.LeafCap(), geo.bs)
    ensures ParseRoot(img.data, geo, RootOf(ms, c)) == Verdict(ms, if |ms| <= INLINE_CAP then [] else [c])
  {
    InBoundsEncodable(geo, ms);
    if |ms| <= INLINE_CAP {
      InlineRoundTrip(img.data, geo, ms);
    } else {
      NodeHoldsLeaves(ms, geo.LeafCap(), geo.bs);
      IndexRoundTrip(img.data, geo, ms, ms[0].log, c);
    }
  }

  // ---------------------------------------------------------------- other files

  /** Outside the blocks B and inode ino nothing has changed. */
  ghost predicate OnlyAt(geo: Geo, img: Image, img': Image, ino: nat, B: set<nat>) {
    && geo.bs > 0 && Sized(img.data, geo) && Sized(img'.data, geo)
    && img'.inodes.Keys == img.inodes.Keys && (forall j :: j in img.inodes && j != ino ==> img'.inodes[j] == img.inodes[j])
    && forall b: nat :: b < geo.blocks && b !in B ==> BlockAt(img'.data, geo, b) == BlockAt(img.data, geo, b)
  }

  /** No other file owns a block of B. */
  ghost predicate Mine(geo: Geo, img: Image, ino: nat, B: set<nat>)
    requires Sized(img.data, geo)
  {
    forall j {:trigger Owned(geo, img, j)} :: j in img.inodes && j != ino ==> B !! Owned(geo, img, j)
  }

  ghost predicate OthersSound(geo: Geo, img: Image, ino: nat) {
    && geo.Valid() && Sized(img.data, geo)
    && forall j {:trigger FileOk(geo, img, j)} :: j in img.inodes && j != ino ==> FileOk(geo, img, j)
  }

  /** Every other file is as it was, and sound. */
  ghost predicate OthersSafe(geo: Geo, img: Image, img': Image, ino: nat) {
    OthersSame(geo, img, img', ino) && OthersSound(geo, img', ino)
  }

  /** The blocks of every other file are in use. */
  ghost predicate Spared(geo: Geo, img: Image, img': Image, ino: nat)
    requires Sized(img.data, geo)
  {
    forall j {:trigger Owned(geo, img, j)} :: j in img.inodes && j != ino ==> Owned(geo, img, j) <= img'.used
  }

  /** A handle whose map may be broken: every other file is sound, and neither those
      files nor the file's own tree lie in the blocks the map leads to. */
  ghost predicate Astray(geo: Geo, img: Image, ino: nat, ms: seq<Leaf>) {
    && OthersSound(geo, img, ino) && ino in img.inodes && Mine(geo, img, ino, Blocks(ms))
    && forall b :: b in Tree(geo, img, ino).seen ==> b !in Blocks(ms)
  }

  lemma OnlyMineSame(geo: Geo, img: Image, img': Image, ino: nat, B: set<nat>)
    requires OthersSound(geo, img, ino) && OnlyAt(geo, img, img', ino, B) && Mine(geo, img, ino, B) && Spared(geo, img, img', ino)
    ensures OthersSafe(geo, img, img', ino)
  {
    hide FileOk, Content, Owned;
    forall j | j in img.inodes && j != ino ensures SameFile(geo, img, img', j) && FileOk(geo, img', j) {
      assert FileOk(geo, img, j);
      assert Undisturbed(geo, img, img', j);
      UndisturbedFile(geo, img, img', j);
    }
  }

  lemma SoundSpared(geo: Geo, img: Image, img': Image, ino: nat)
    requires OthersSound(geo, img, ino) && img.used <= img'.used
    ensures Spared(geo, img, img', ino)
  {
    forall j | j in img.inodes && j != ino ensures Owned(geo, img, j) <= img'.used {
      assert FileOk(geo, img, j);
    }
  }

  /** Data written through a map gone astray. */
  lemma AstrayWrite(geo: Geo, img: Image, img': Image, ino: nat, ms: seq<Leaf>)
    requires Astray(geo, img, ino, ms) && OnlyAt(geo, img, img', ino, Blocks(ms)) && img'.inodes == img.inodes && img'.used == img.used
    ensures OthersSafe(geo, img, img', ino) && Tree(geo, img', ino) == Tree(geo, img, ino)
  {
    hide FileOk, Owned, Tree, OthersSound, OthersSafe;
    SafeStep(geo, img, img', ino, Blocks(ms));
    ParseFrame(geo, img, img', ino);
  }

  lemma OthersSafeTrans(geo: Geo, a: Image, b: Image, c: Image, ino: nat)
    requires OthersSafe(geo, a, b, ino) && OthersSafe(geo, b, c, ino)
    ensures OthersSafe(geo, a, c, ino)
  {
    hide OthersSame;
    OthersSameTrans(geo, a, b, c, ino);
  }

  ghost predicate OthersAlong(geo: Geo, img: Image, steps: seq<Image>, ino: nat) {
    forall k :: 0 <= k < |steps| ==> OthersSafe(geo, img, steps[k], ino)
  }

  /** What a commit of any in-bounds map achieves, sound or not. */
  ghost predicate Strayed(geo: Geo, img: Image, img': Image, ino: nat, ms: seq<Leaf>, steps: seq<Image>) {
    && OthersSafe(geo, img, img', ino) && OthersAlong(geo, img, steps, ino) && Astray(geo, img', ino, ms)
    && (Tree(geo, img', ino).Parsed? <==> AllApart(Logical, ms) && AllApart(Physical, ms))
  }

  /** The tree write touches at most one block, which was free. */
  lemma TreeWriteOnly(geo: Geo, img: Image, img2: Image, ino: nat, exts: seq<Leaf>, c: nat, pre: seq<Image>)
    requires ImageOk(geo, img) && TreeWritten(geo, img, img2, exts, c, pre)
    ensures var B := if |exts| <= INLINE_CAP then {} else {c};
            && OnlyAt(geo, img, img2, ino, B) && Mine(geo, img, ino, B) && B !! img.used
            && (forall k :: 0 <= k < |pre| ==> OnlyAt(geo, img, pre[k], ino, B) && img.used <= pre[k].used)
            && img.used <= img2.used && img2.inodes == img.inodes
            && (|exts| > INLINE_CAP ==> BlockAt(img2.data, geo, c) == NodeBytes(exts, geo.LeafCap(), geo.bs))
  {
    hide NodeBytes, FileOk, Owned;
    if |exts| > INLINE_CAP {
      var s := NodeBytes(exts, geo.LeafCap(), geo.bs);
      OwnedIsUsed(geo, img, c);
      BlockFits(geo, c);
      forall b: nat | b < geo.blocks && b != c ensures BlockAt(img2.data, geo, b) == BlockAt(img.data, geo, b) {
        PutOutside(img.data, geo, c * geo.bs, s, c, c + 1, b) by { assert (c + 1) * geo.bs == c * geo.bs + geo.bs; }
      }
    }
  }

  /** Releasing the file's old leaf block takes nothing from the others. */
  lemma ReleaseSpares(geo: Geo, img: Image, img': Image, ino: nat)
    requires ImageOk(geo, img) && ino in img.inodes && FileOk(geo, img, ino)
    requires var was := SingleChild(img.inodes[ino].iblock);
             img'.used >= img.used - (if was.Some? then {was.value} else {})
    ensures Spared(geo, img, img', ino)
  {
    hide ParseRoot, TailZero, MapOk, SingleChild;
    forall j | j in img.inodes && j != ino ensures Owned(geo, img, j) <= img'.used {
      assert FileOk(geo, img, j) && Owned(geo, img, ino) !! Owned(geo, img, j);
    }
  }

  /** The inode write and the release that follow add nothing outside. */
  lemma OnlyMore(geo: Geo, img: Image, img2: Image, img3: Image, ino: nat, B: set<nat>)
    requires OnlyAt(geo, img, img2, ino, B) && img3.data == img2.data && ino in img.inodes && ino in img3.inodes
    requires img3.inodes == img2.inodes[ino := img3.inodes[ino]]
    ensures OnlyAt(geo, img, img3, ino, B)
  {
    hide BlockAt;
  }

  lemma TraceMeans(geo: Geo, img: Image, img2: Image, img3: Image, img4: Image, ino: nat, exts: seq<Leaf>, n: nat, c: nat, pre: seq<Image>, post: seq<Image>)
    requires CommitTrace(geo, img, img2, img3, img4, ino, exts, n, c, pre, post)
    ensures TreeWritten(geo, img, img2, exts, c, pre) && 12 + 12 * |exts| <= geo.bs && (|exts| > INLINE_CAP ==> 0 < c < geo.blocks)
    ensures img3.data == img2.data && img3.used == img2.used && img4.data == img2.data && ino in img.inodes && |img.inodes[ino].iblock| == IBLOCK
    ensures img3.inodes == img2.inodes[ino := Inode(RootOf(exts, c), n)] == img4.inodes
    ensures forall k :: 0 <= k < |post| ==> post[k] == img4
    ensures var was := SingleChild(img.inodes[ino].iblock);
            img4.used >= img2.used - (if was.Some? then {was.value} else {})
  {
    hide RootOf, SingleChild, NodeBytes;
  }

  lemma CommitStrays(geo: Geo, img: Image, img2: Image, img3: Image, img4: Image, ino: nat, exts: seq<Leaf>, n: nat, c: nat, pre: seq<Image>, post: seq<Image>)
    requires ImageOk(geo, img) && ino in img.inodes && FileOk(geo, img, ino)
    requires InBounds(geo, exts) && Mine(geo, img, ino, Blocks(exts)) && Blocks(exts) <= img.used
    requires CommitTrace(geo, img, img2, img3, img4, ino, exts, n, c, pre, post)
    ensures Strayed(geo, img, img4, ino, exts, pre + [img3] + post)
  {
    hide NodeBytes, RootOf, FileOk, Owned, Tree, SingleChild, AllApart, TreeWritten, OnlyAt, Mine, OthersSafe, OthersAlong, CommitTrace, Astray, ImageOk, InBounds;
    TraceMeans(geo, img, img2, img3, img4, ino, exts, n, c, pre, post);
    TreeWriteOnly(geo, img, img2, ino, exts, c, pre);
    CommitOthers(geo, img, img2, img3, img4, ino, exts, n, c, pre, post);
    CommitAstray(geo, img, img4, ino, exts, n, c, if |exts| <= INLINE_CAP then {} else {c});
  }

  lemma CommitOthers(geo: Geo, img: Image, img2: Image, img3: Image, img4: Image, ino: nat, exts: seq<Leaf>, n: nat, c: nat, pre: seq<Image>, post: seq<Image>)
    requires ImageOk(geo, img) && ino in img.inodes && FileOk(geo, img, ino)
    requires CommitTrace(geo, img, img2, img3, img4, ino, exts, n, c, pre, post)
    ensures OthersSafe(geo, img, img4, ino) && OthersAlong(geo, img, pre + [img3] + post, ino)
  {
    hide NodeBytes, RootOf, FileOk, SingleChild, TreeWritten, OnlyAt, Mine, OthersSafe, CommitTrace, ImageOk, OthersSound, Spared;
    var B := if |exts| <= INLINE_CAP then {} else {c};
    TraceMeans(geo, img, img2, img3, img4, ino, exts, n, c, pre, post);
    TreeWriteOnly(geo, img, img2, ino, exts, c, pre);
    OnlyMore(geo, img, img2, img3, ino, B);
    OnlyMore(geo, img, img2, img4, ino, B);
    ImageOthers(geo, img, ino);
    ReleaseSpares(geo, img, img4, ino);
    OnlyMineSame(geo, img, img4, ino, B);
    SafeStep(geo, img, img3, ino, B);
    forall k | 0 <= k < |pre| ensures OthersSafe(geo, img, pre[k], ino) {
      SafeStep(geo, img, pre[k], ino, B);
    }
  }

  lemma SafeStep(geo: Geo, img: Image, img': Image, ino: nat, B: set<nat>)
    requires OthersSound(geo, img, ino) && OnlyAt(geo, img, img', ino, B) && Mine(geo, img, ino, B) && img.used <= img'.used
    ensures OthersSafe(geo, img, img', ino)
  {
    hide OthersSound, OnlyAt, Mine, OthersSafe, Spared;
    SoundSpared(geo, img, img', ino);
    OnlyMineSame(geo, img, img', ino, B);
  }

  lemma ImageOthers(geo: Geo, img: Image, ino: nat)
    requires ImageOk(geo, img)
    ensures OthersSound(geo, img, ino)
  {
  }

  lemma CommitAstray(geo: Geo, img: Image, img4: Image, ino: nat, exts: seq<Leaf>, n: nat, c: nat, B: set<nat>)
    requires ImageOk(geo, img) && ino in img.inodes && InBounds(geo, exts) && 12 + 12 * |exts| <= geo.bs
    requires Mine(geo, img, ino, Blocks(exts)) && Blocks(exts) <= img.used && B == (if |exts| <= INLINE_CAP then {} else {c}) && B !! img.used
    requires OthersSafe(geo, img, img4, ino)
    requires |exts| > INLINE_CAP ==> 0 < c < geo.blocks && BlockAt(img4.data, geo, c) == NodeBytes(exts, geo.LeafCap(), geo.bs)
    requires ino in img4.inodes && img4.inodes[ino] == Inode(RootOf(exts, c), n)
    ensures Astray(geo, img4, ino, exts)
    ensures Tree(geo, img4, ino).Parsed? <==> AllApart(Logical, exts) && AllApart(Physical, exts)
  {
    hide NodeBytes, RootOf, ParseRoot, AllApart, FileOk, Content;
    RootVerdict(geo, img4, exts, c);
    forall j | j in img4.inodes && j != ino ensures Blocks(exts) !! Owned(geo, img4, j) {
      assert SameFile(geo, img, img4, j);
    }
  }

  /** What a growth over any holes achieves, in range or not. */
  ghost predicate FarGrown(geo: Geo, img: Image, img': Image, ino: nat, ls: seq<Leaf>, ms: seq<Leaf>, missing: seq<nat>, steps: seq<Image>) {
    && OthersSafe(geo, img, img', ino) && OthersAlong(geo, img, steps, ino) && Astray(geo, img', ino, ms)
    && (Tree(geo, img', ino).Parsed? <==> Survives(ls, missing))
  }

  lemma GrownClaims(geo: Geo, img: Image, img1: Image, ino: nat, ls: seq<Leaf>, size: nat, missing: seq<nat>, phys: seq<nat>, steps: seq<Image>)
    requires GrowFailed(geo, img, img1, ino, ls, size, steps) && FreshBlocks(geo, img, phys) && |missing| == |phys|
    requires forall i :: 0 <= i < |phys| ==> phys[i] in img1.used
    ensures var ms := Grown(ls, missing, phys);
            Mine(geo, img1, ino, Blocks(ms)) && Blocks(ms) <= img1.used
  {
    hide Trail, Content, Grown, TailZero, MapOk;
    var ms := Grown(ls, missing, phys);
    forall p | p in Blocks(ms) ensures p in img1.used { GrownInBlocks(ls, missing, phys, p); }
    forall j | j in img1.inodes && j != ino ensures Blocks(ms) !! Owned(geo, img1, j) {
      assert SameFile(geo, img, img1, j);
      assert FileOk(geo, img, j) && Owned(geo, img, ino) !! Owned(geo, img, j);
      forall p | p in Blocks(ms) ensures p !in Owned(geo, img1, j) { GrownInBlocks(ls, missing, phys, p); }
    }
  }

  lemma FarResult(geo: Geo, img: Image, img1: Image, img2: Image, ino: nat, ls: seq<Leaf>, size: nat, missing: seq<nat>, phys: seq<nat>, ps: seq<Image>, cs: seq<Image>)
    requires GrowFailed(geo, img, img1, ino, ls, size, ps) && FreshBlocks(geo, img, phys) && |missing| == |phys|
    requires Strayed(geo, img1, img2, ino, Grown(ls, missing, phys), cs)
    ensures FarGrown(geo, img, img2, ino, ls, Grown(ls, missing, phys), missing, ps + cs)
  {
    hide Grown, ImageOk, FileOk, OthersSafe, OthersSame, Content, Owned, Survives, AllApart, Tree, Trail, Astray;
    FailedOthers(geo, img, img1, ino, ls, size, ps);
    OthersSafeTrans(geo, img, img1, img2, ino);
    forall k | 0 <= k < |ps + cs| ensures OthersSafe(geo, img, (ps + cs)[k], ino) {
      if k >= |ps| {
        OthersSafeTrans(geo, img, img1, cs[k - |ps|], ino);
      }
    }
    FreshNotMapped(geo, img, ino, ls, size, phys);
    GrownApart(geo, ls, missing, phys);
  }

  lemma FreshNotMapped(geo: Geo, img: Image, ino: nat, ls: seq<Leaf>, size: nat, phys: seq<nat>)
    requires Synced(geo, img, ino, ls, size) && FreshBlocks(geo, img, phys)
    ensures MapOk(geo, ls) && forall i :: 0 <= i < |phys| ==> phys[i] !in Blocks(ls)
  {
  }

  /** The same for a range of blocks, holes or not. */
  ghost predicate FarMapped(geo: Geo, img: Image, img': Image, ino: nat, ls: seq<Leaf>, ms: seq<Leaf>, first: nat, last: nat, steps: seq<Image>) {
    && OthersSafe(geo, img, img', ino) && OthersAlong(geo, img, steps, ino) && Astray(geo, img', ino, ms)
    && (Tree(geo, img', ino).Parsed? <==> SurvivesRange(ls, first, last))
  }

  lemma FarGrownRange(geo: Geo, img: Image, img': Image, ino: nat, ls: seq<Leaf>, ms: seq<Leaf>, missing: seq<nat>, first: nat, last: nat, steps: seq<Image>)
    requires FarGrown(geo, img, img', ino, ls, ms, missing, steps)
    requires StrictlyAscending(missing) && forall b: nat :: b in missing <==> first <= b <= last && !Mapped(ls, b)
    ensures FarMapped(geo, img, img', ino, ls, ms, first, last, steps)
  {
    hide OthersSafe, OthersAlong, Astray, Survives, SurvivesRange, Mapped, Tree;
    SurvivesIsRange(ls, missing, first, last);
  }

  lemma SyncedOthers(geo: Geo, img: Image, ino: nat, ls: seq<Leaf>, size: nat)
    requires Synced(geo, img, ino, ls, size)
    ensures OthersSound(geo, img, ino)
  {
    hide FileOk;
    ImageOthers(geo, img, ino);
  }

  lemma SyncedAstray(geo: Geo, img: Image, ino: nat, ls: seq<Leaf>, size: nat)
    requires Synced(geo, img, ino, ls, size)
    ensures Astray(geo, img, ino, ls) && Tree(geo, img, ino).Parsed?
  {
    hide TailZero, MapOk, ParseRoot, SingleChild;
  }

  lemma TrailOthers(geo: Geo, img: Image, steps: seq<Image>, ino: nat, cs: set<seq<byte>>)
    requires Trail(geo, steps, img, ino, cs)
    ensures OthersAlong(geo, img, steps, ino)
  {
    hide ImageOk, OthersSame, Content, OthersSound;
    forall k | 0 <= k < |steps| ensures OthersSafe(geo, img, steps[k], ino) {
      assert SafePoint(geo, img, steps[k], ino, cs);
      ImageOthers(geo, steps[k], ino);
    }
  }

  /** A growth that had nothing to map. */
  lemma FarNothing(geo: Geo, img: Image, img': Image, ino: nat, ls: seq<Leaf>, size: nat, n: nat, first: nat, last: nat, steps: seq<Image>)
    requires GrowDone(geo, img, img', ino, ls, size, ls, n, steps) && AllMapped(ls, first, last)
    ensures FarMapped(geo, img, img', ino, ls, ls, first, last, steps)
  {
    hide Synced, OthersSame, Content, Trail, Astray, Tree, Conserved, OthersSound;
    SyncedAstray(geo, img', ino, ls, n);
    SyncedOthers(geo, img', ino, ls, n);
    SyncedMeans(geo, img, ino, ls, size);
    TrailOthers(geo, img, steps, ino, {Content(geo, img, ino), Extend(Content(geo, img, ino), n)});
  }

  lemma FailedOthers(geo: Geo, img: Image, img': Image, ino: nat, ls: seq<Leaf>, size: nat, steps: seq<Image>)
    requires GrowFailed(geo, img, img', ino, ls, size, steps)
    ensures OthersSafe(geo, img, img', ino) && OthersAlong(geo, img, steps, ino)
  {
    hide Synced, OthersSame, Trail, Content, Owned, OthersSound;
    SyncedMeans(geo, img, ino, ls, size);
    SyncedOthers(geo, img', ino, ls, size);
    TrailOthers(geo, img, steps, ino, {Content(geo, img, ino)});
  }

  // ---------------------------------------------------------------- data through a map

  /** Every state of a data loop differs from the first only inside the map. */
  ghost predicate InsideMap(geo: Geo, img: Image, img': Image, ino: nat, ms: seq<Leaf>, steps: seq<Image>) {
    && OnlyAt(geo, img, img', ino, Blocks(ms)) && img'.inodes == img.inodes && img'.used == img.used
    && forall k :: 0 <= k < |steps| ==> OnlyAt(geo, img, steps[k], ino, Blocks(ms)) && steps[k].inodes == img.inodes && steps[k].used == img.used
  }

  lemma InsideStart(geo: Geo, img: Image, ino: nat, ms: seq<Leaf>)
    requires geo.bs > 0 && Sized(img.data, geo)
    ensures InsideMap(geo, img, img, ino, ms, [])
  {
  }

  lemma InsideStep(geo: Geo, img: Image, img1: Image, ino: nat, ms: seq<Leaf>, steps: seq<Image>, i: nat, o: nat, s: seq<byte>, po: nat)
    requires InsideMap(geo, img, img1, ino, ms, steps) && InBounds(geo, ms) && i < |ms|
    requires ms[i].log * geo.bs <= o && o + |s| <= (ms[i].log + ms[i].count) * geo.bs
    requires po == ms[i].phys * geo.bs + (o - ms[i].log * geo.bs) && po + |s| <= |img1.data|
    ensures var img2 := img1.(data := Put(img1.data, po, s));
            InsideMap(geo, img, img2, ino, ms, steps + [img2])
  {
    hide BlockAt, Put, InBounds, Blocks;
    RunWriteOutside(img1.data, geo, ms, i, o, s, po);
  }

  /** A data loop over a map gone astray leaves other files and the file's own tree alone. */
  lemma InsideAstray(geo: Geo, img: Image, img1: Image, img2: Image, ino: nat, ls: seq<Leaf>, ms: seq<Leaf>, first: nat, last: nat, gs: seq<Image>, ds: seq<Image>)
    requires FarMapped(geo, img, img1, ino, ls, ms, first, last, gs) && InsideMap(geo, img1, img2, ino, ms, ds)
    ensures OthersSafe(geo, img, img2, ino) && OthersAlong(geo, img, gs + ds, ino) && ino in img2.inodes
    ensures Tree(geo, img2, ino).Parsed? <==> SurvivesRange(ls, first, last)
  {
    hide OthersSafe, OnlyAt, Tree, SurvivesRange;
    AstrayWrite(geo, img1, img2, ino, ms);
    OthersSafeTrans(geo, img, img1, img2, ino);
    forall k | 0 <= k < |gs + ds| ensures OthersSafe(geo, img, (gs + ds)[k], ino) {
      if k >= |gs| {
        AstrayWrite(geo, img1, ds[k - |gs|], ino, ms);
        OthersSafeTrans(geo, img, img1, ds[k - |gs|], ino);
      }
    }
  }

  lemma NothingDone(geo: Geo, img: Image, ino: nat, ls: seq<Leaf>, size: nat)
    requires Synced(geo, img, ino, ls, size)
    ensures OthersSafe(geo, img, img, ino) && OthersAlong(geo, img, [], ino)
  {
    hide Synced, OthersSame, OthersSound;
    SyncedMeans(geo, img, ino, ls, size);
    SyncedOthers(geo, img, ino, ls, size);
    OthersSameRefl(geo, img, ino);
  }
}
