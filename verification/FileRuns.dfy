/** Whole runs of positional writes and truncations on one handle, against a plain
    byte string; and what a write past the 32-bit block range does instead. */
module FileRuns {
  import opened Bytes
  import opened Extents
  import opened ExtentTree
  import opened Volume
  import opened FileMath
  import opened Steps
  import opened ReadPath
  import opened GrowPath
  import opened EngineSpec
  import opened FarGrowth
  import opened FileEngine

  datatype Op = Write(off: int, p: seq<byte>) | Resize(n: int)

  /** Every block the operation touches has a 32-bit logical number. */
  predicate InRange(geo: Geo, op: Op)
    requires geo.bs > 0
  {
    op.Write? && op.off >= 0 && |op.p| > 0 ==> BlockOf(geo, op.off + |op.p| - 1) < U32
  }

  /** The byte string after one operation that returned err. */
  ghost function After(geo: Geo, c: seq<byte>, op: Op, err: Err): seq<byte>
    requires geo.bs > 0
  {
    match op
    case Write(off, p) => if err == Ok && off >= 0 && |p| > 0 then Splice(c, off, p) else c
    case Resize(n) =>
      if n < 0 then c
      else if err == Ok then (if n <= |c| then Take(c, n) else Extend(c, n))
      else if err != Closed && n < |c| then CutTail(geo, c, n)
      else c
  }

  /** The byte string after a whole run. */
  ghost function AfterAll(geo: Geo, c: seq<byte>, ops: seq<Op>, errs: seq<Err>): seq<byte>
    requires geo.bs > 0 && |ops| == |errs|
    decreases |ops|
  {
    if ops == [] then c
    else
      var n := |ops| - 1;
      After(geo, AfterAll(geo, c, ops[..n], errs[..n]), ops[n], errs[n])
  }

  /** Sound volume, other files as in img0: what every device state of a run satisfies. */
  ghost predicate Harmless(geo: Geo, img0: Image, ino: nat, h: Image) {
    ImageOk(geo, h) && OthersSame(geo, img0, h, ino) && ino in h.inodes
  }

  ghost predicate AllHarmless(geo: Geo, img0: Image, ino: nat, hs: seq<Image>) {
    forall k :: 0 <= k < |hs| ==> Harmless(geo, img0, ino, hs[k])
  }

  /** Blocks marked used that the file does not own. */
  ghost function Others(geo: Geo, img: Image, ino: nat): set<nat>
    requires Sized(img.data, geo) && ino in img.inodes
  {
    img.used - Owned(geo, img, ino)
  }

  /** One operation: its result, its intermediate states, and what it leaks. */
  ghost predicate Stepped(geo: Geo, img: Image, img': Image, ino: nat, op: Op, err: Err, steps: seq<Image>) {
    && ImageOk(geo, img) && ino in img.inodes && Harmless(geo, img, ino, img')
    && Content(geo, img', ino) == After(geo, Content(geo, img, ino), op, err)
    && AllHarmless(geo, img, ino, steps)
    && Others(geo, img, ino) <= Others(geo, img', ino)
    && (err == Ok ==> Others(geo, img', ino) == Others(geo, img, ino))
  }

  /** Blocks a write touches. */
  function Touched(geo: Geo, op: Op): nat
    requires geo.bs > 0
  {
    if op.Write? && op.off >= 0 && |op.p| > 0 then
      BlockOrder(geo, op.off, op.off + |op.p| - 1);
      BlockOf(geo, op.off + |op.p| - 1) + 1 - BlockOf(geo, op.off)
    else 0
  }

  function TouchedAll(geo: Geo, ops: seq<Op>): nat
    requires geo.bs > 0
  {
    if ops == [] then 0 else TouchedAll(geo, ops[..|ops| - 1]) + Touched(geo, ops[|ops| - 1])
  }

  /** An offset or size the guards turn away. */
  predicate Misplaced(op: Op) {
    match op
    case Write(off, p) => off < 0 || off + |p| >= U63
    case Resize(n) => n < 0
  }

  /** Why an operation on a map of some leaves returned err, with the number of
      allocations the device refused during it. */
  ghost predicate Excused(geo: Geo, closed: bool, leaves: nat, op: Op, err: Err, denials: nat)
    requires geo.Valid()
  {
    match err
    case Ok => denials == 0
    case Closed => closed && denials == 0
    case BadOffset => Misplaced(op) && denials == 0
    case NoSpace => denials > 0
    case TooManyExtents => Overfull(geo, leaves + Touched(geo, op)) && denials == 0
    case _ => false
  }

  function Sum(ns: seq<nat>): nat {
    if ns == [] then 0 else Sum(ns[..|ns| - 1]) + ns[|ns| - 1]
  }

  /** The reasons over a whole run. */
  ghost predicate AllExcused(geo: Geo, closed: bool, leaves: nat, ops: seq<Op>, errs: seq<Err>, denials: seq<nat>)
    requires geo.Valid()
  {
    && |errs| == |ops| && |denials| == |ops|
    && forall k :: 0 <= k < |ops| ==> Excused(geo, closed, leaves + TouchedAll(geo, ops[..k]), ops[k], errs[k], denials[k])
  }

  lemma TouchedLast(geo: Geo, ops: seq<Op>, op: Op)
    requires geo.bs > 0
    ensures TouchedAll(geo, ops + [op]) == TouchedAll(geo, ops) + Touched(geo, op)
  {
    assert (ops + [op])[..|ops|] == ops;
  }

  lemma ExcusedMore(geo: Geo, closed: bool, now: nat, leaves: nat, op: Op, err: Err, d: nat)
    requires geo.Valid() && now <= leaves && Excused(geo, closed, now, op, err, d)
    ensures Excused(geo, closed, leaves, op, err, d)
  {
    hide Touched, Misplaced;
  }

  lemma ExcusedStep(geo: Geo, closed: bool, leaves: nat, now: nat, ops: seq<Op>, errs: seq<Err>, denials: seq<nat>, op: Op, err: Err, d: nat)
    requires geo.Valid() && AllExcused(geo, closed, leaves, ops, errs, denials)
    requires now <= leaves + TouchedAll(geo, ops) && Excused(geo, closed, now, op, err, d)
    ensures AllExcused(geo, closed, leaves, ops + [op], errs + [err], denials + [d])
    ensures TouchedAll(geo, ops + [op]) == TouchedAll(geo, ops) + Touched(geo, op) && Sum(denials + [d]) == Sum(denials) + d
  {
    hide Touched, Excused, TouchedAll;
    var os, es, ds := ops + [op], errs + [err], denials + [d];
    assert os[..|ops|] == ops && ds[..|denials|] == denials;
    TouchedLast(geo, ops, op);
    ExcusedMore(geo, closed, now, leaves + TouchedAll(geo, ops), op, err, d);
    forall k | 0 <= k < |os| ensures Excused(geo, closed, leaves + TouchedAll(geo, os[..k]), os[k], es[k], ds[k]) {
      if k < |ops| { assert os[..k] == ops[..k]; }
    }
  }

  lemma {:induction false} NoneDenied(ns: seq<nat>)
    requires Sum(ns) == 0
    ensures forall k :: 0 <= k < |ns| ==> ns[k] == 0
    decreases |ns|
  {
    if ns != [] { NoneDenied(ns[..|ns| - 1]); }
  }

  lemma {:induction false} TouchedPrefix(geo: Geo, ops: seq<Op>, k: nat)
    requires geo.bs > 0 && k < |ops|
    ensures TouchedAll(geo, ops[..k]) + Touched(geo, ops[k]) <= TouchedAll(geo, ops)
    decreases |ops|
  {
    hide Touched;
    var n := |ops| - 1;
    if k < n {
      TouchedPrefix(geo, ops[..n], k);
      assert ops[..n][..k] == ops[..k];
    }
  }

  /** On an open handle, a run whose offsets are in place, whose leaves fit one leaf
      block and to which the device refuses nothing succeeds in every operation. */
  lemma RunSucceeds(geo: Geo, leaves: nat, ops: seq<Op>, errs: seq<Err>, denials: seq<nat>)
    requires geo.Valid() && AllExcused(geo, false, leaves, ops, errs, denials) && Sum(denials) == 0
    requires (forall k :: 0 <= k < |ops| ==> !Misplaced(ops[k])) && !Overfull(geo, leaves + TouchedAll(geo, ops))
    ensures forall k :: 0 <= k < |errs| ==> errs[k] == Ok
  {
    hide Touched, TouchedAll, Misplaced;
    NoneDenied(denials);
    forall k | 0 <= k < |errs| ensures errs[k] == Ok {
      assert Excused(geo, false, leaves + TouchedAll(geo, ops[..k]), ops[k], errs[k], denials[k]);
      assert !Misplaced(ops[k]);
      TouchedPrefix(geo, ops, k);
    }
  }

  lemma TrailHarmless(geo: Geo, hs: seq<Image>, img: Image, ino: nat, cs: set<seq<byte>>)
    requires Trail(geo, hs, img, ino, cs)
    ensures AllHarmless(geo, img, ino, hs)
  {
    forall k | 0 <= k < |hs| ensures Harmless(geo, img, ino, hs[k]) {
      assert SafePoint(geo, img, hs[k], ino, cs);
    }
  }

  lemma ConservedOthers(geo: Geo, img: Image, img': Image, ino: nat)
    requires Sized(img.data, geo) && Sized(img'.data, geo) && ino in img.inodes && ino in img'.inodes
    requires Conserved(geo, img, img', ino)
    ensures Others(geo, img', ino) == Others(geo, img, ino)
  {
  }

  lemma WriteStepped(geo: Geo, img: Image, img': Image, ino: nat, off: nat, p: seq<byte>, steps: seq<Image>)
    requires |p| > 0 && WriteDone(geo, img, img', ino, off, p, steps)
    ensures Stepped(geo, img, img', ino, Write(off, p), Ok, steps)
  {
    ConservedOthers(geo, img, img', ino);
    TrailHarmless(geo, steps, img, ino, WriteStates(Content(geo, img, ino), off, p));
  }

  lemma GrowStepped(geo: Geo, img: Image, img': Image, ino: nat, ls: seq<Leaf>, size: nat, ms: seq<Leaf>, n: nat, steps: seq<Image>)
    requires size < n && GrowDone(geo, img, img', ino, ls, size, ms, n, steps)
    ensures Stepped(geo, img, img', ino, Resize(n), Ok, steps)
  {
    ConservedOthers(geo, img, img', ino);
    TrailHarmless(geo, steps, img, ino, {Content(geo, img, ino), Extend(Content(geo, img, ino), n)});
  }

  lemma ShrinkStepped(geo: Geo, img: Image, img': Image, ino: nat, n: nat, steps: seq<Image>)
    requires ShrinkDone(geo, img, img', ino, n, steps)
    ensures Stepped(geo, img, img', ino, Resize(n), Ok, steps)
  {
    ConservedOthers(geo, img, img', ino);
    var c := Content(geo, img, ino);
    TrailHarmless(geo, steps, img, ino, {c, CutTail(geo, c, n), Take(c, n)});
  }

  lemma ShrinkFailStepped(geo: Geo, img: Image, img': Image, ino: nat, n: nat, err: Err, steps: seq<Image>)
    requires ShrinkFailed(geo, img, img', ino, n, steps) && n < |Content(geo, img, ino)| && err != Ok && err != Closed
    ensures Stepped(geo, img, img', ino, Resize(n), err, steps)
  {
    TrailHarmless(geo, steps, img, ino, {CutTail(geo, Content(geo, img, ino), n)});
  }

  lemma FailStepped(geo: Geo, img: Image, img': Image, ino: nat, ls: seq<Leaf>, size: nat, op: Op, err: Err, steps: seq<Image>)
    requires GrowFailed(geo, img, img', ino, ls, size, steps) && err != Ok
    requires op.Resize? && op.n >= 0 ==> op.n >= size || err == Closed
    ensures Stepped(geo, img, img', ino, op, err, steps)
  {
    TrailHarmless(geo, steps, img, ino, {Content(geo, img, ino)});
  }

  lemma IdleStepped(geo: Geo, img: Image, ino: nat, ls: seq<Leaf>, size: nat, op: Op, err: Err)
    requires Synced(geo, img, ino, ls, size)
    requires op.Write? ==> err != Ok || op.off < 0 || |op.p| == 0
    requires op.Resize? ==> op.n < 0 || op.n == size || err == Closed
    ensures Stepped(geo, img, img, ino, op, err, [])
  {
    OthersSameRefl(geo, img, ino);
    assert op.Resize? && op.n == size ==> Take(Content(geo, img, ino), size) == Content(geo, img, ino);
  }

  lemma WriteExcused(geo: Geo, closed: bool, leaves: nat, off: int, p: seq<byte>, err: Err, d: nat)
    requires geo.Valid() && (err == NoSpace <==> d > 0)
    requires err == Ok || err == Closed || err == BadOffset || err == NoSpace || err == TooManyExtents
    requires err == Closed ==> closed
    requires err == BadOffset ==> off < 0 || off + |p| >= U63
    requires err == TooManyExtents ==> off >= 0 && |p| > 0 && Overfull(geo, leaves + BlockOf(geo, off + |p| - 1) + 1 - BlockOf(geo, off))
    ensures Excused(geo, closed, leaves, Write(off, p), err, d)
    ensures off >= 0 && |p| > 0 ==> Touched(geo, Write(off, p)) == BlockOf(geo, off + |p| - 1) + 1 - BlockOf(geo, off)
  {
    hide BlockOf, Overfull;
  }

  lemma ResizeExcused(geo: Geo, closed: bool, leaves: nat, n: int, err: Err, d: nat)
    requires geo.Valid() && (err == NoSpace <==> d > 0)
    requires if closed then err == Closed else if n < 0 then err == BadOffset else err == Ok || err == NoSpace || err == TooManyExtents
    requires err == TooManyExtents ==> Overfull(geo, leaves)
    ensures Excused(geo, closed, leaves, Resize(n), err, d) && Touched(geo, Resize(n)) == 0
  {
    hide BlockOf, Overfull;
  }

  /** Performs one operation. */
  method Perform(f: File, op: Op) returns (err: Err, ghost steps: seq<Image>)
    requires f.vol.geo.bs > 0 && f.Valid() && InRange(f.vol.geo, op)
    modifies f, f.vol
    ensures f.closed == old(f.closed) && f.Valid() && f.vol.history == old(f.vol.history) + steps
    ensures Stepped(f.vol.geo, old(f.vol.img), f.vol.img, f.ino, op, err, steps)
    ensures f.vol.geo.Valid() && f.vol.denied >= old(f.vol.denied)
    ensures Excused(f.vol.geo, f.closed, |old(f.extents)|, op, err, f.vol.denied - old(f.vol.denied))
    ensures |f.extents| <= |old(f.extents)| + Touched(f.vol.geo, op)
  {
    hide Overfull, OthersSafe, OthersSame, OthersAlong, SurvivesRange, Tree, Misplaced, Excused, Touched, Cut, Keep, Synced, Stepped, WriteDone, GrowDone, GrowFailed, ShrinkDone, ShrinkFailed, BlockOf;
    ghost var geo, ino, img, ls, size := f.vol.geo, f.ino, f.vol.img, f.extents, f.size;
    SyncedMeans(geo, img, ino, ls, size);
    match op {
      case Write(off, p) =>
        var n;
        n, err, steps := f.WriteAt(p, off);
        WriteExcused(geo, f.closed, |ls|, off, p, err, f.vol.denied - old(f.vol.denied));
        if f.closed || off < 0 || |p| == 0 || off + |p| >= U63 {
          IdleStepped(geo, img, ino, ls, size, op, err);
        } else if err == Ok {
          WriteStepped(geo, img, f.vol.img, ino, off, p, steps);
        } else {
          FailStepped(geo, img, f.vol.img, ino, ls, size, op, err, steps);
          PrepareIsTrail(geo, img, f.vol.img, ino, ls, size, steps);
        }
      case Resize(n) =>
        err, steps := f.Truncate(n);
        ResizeExcused(geo, f.closed, |ls|, n, err, f.vol.denied - old(f.vol.denied));
        if f.closed || n < 0 || n == size {
          IdleStepped(geo, img, ino, ls, size, op, err);
        } else if n < size {
          if err == Ok {
            ShrinkStepped(geo, img, f.vol.img, ino, n, steps);
          } else {
            SyncedMeans(geo, img, ino, ls, size);
            ShrinkFailStepped(geo, img, f.vol.img, ino, n, err, steps);
          }
        } else if err == Ok {
          GrowStepped(geo, img, f.vol.img, ino, f.extents, size, f.extents, n, steps);
        } else {
          FailStepped(geo, img, f.vol.img, ino, ls, size, op, err, steps);
        }
    }
  }

  /** A run from img to img' with the given results. */
  ghost predicate RunTo(geo: Geo, img: Image, img': Image, ino: nat, ops: seq<Op>, errs: seq<Err>, steps: seq<Image>) {
    && geo.bs > 0 && |ops| == |errs|
    && ImageOk(geo, img) && ino in img.inodes && Harmless(geo, img, ino, img')
    && Content(geo, img', ino) == AfterAll(geo, Content(geo, img, ino), ops, errs)
    && AllHarmless(geo, img, ino, steps)
    && Others(geo, img, ino) <= Others(geo, img', ino)
    && ((forall k :: 0 <= k < |errs| ==> errs[k] == Ok) ==> Others(geo, img', ino) == Others(geo, img, ino))
  }

  lemma RunStart(geo: Geo, img: Image, ino: nat, ls: seq<Leaf>, size: nat)
    requires Synced(geo, img, ino, ls, size)
    ensures RunTo(geo, img, img, ino, [], [], [])
  {
    OthersSameRefl(geo, img, ino);
  }

  lemma RunStep(geo: Geo, img: Image, img1: Image, img2: Image, ino: nat, ops: seq<Op>, errs: seq<Err>, hs: seq<Image>, op: Op, err: Err, steps: seq<Image>)
    requires RunTo(geo, img, img1, ino, ops, errs, hs) && Stepped(geo, img1, img2, ino, op, err, steps)
    ensures RunTo(geo, img, img2, ino, ops + [op], errs + [err], hs + steps)
  {
    hide ImageOk, Content, Owned, After, OthersSame;
    var os, es := ops + [op], errs + [err];
    assert os[..|ops|] == ops && es[..|ops|] == errs;
    OthersSameTrans(geo, img, img1, img2, ino);
    forall k | 0 <= k < |hs + steps| ensures Harmless(geo, img, ino, (hs + steps)[k]) {
      if k < |hs| {
        assert Harmless(geo, img, ino, hs[k]);
      } else {
        assert Harmless(geo, img1, ino, steps[k - |hs|]);
        OthersSameTrans(geo, img, img1, steps[k - |hs|], ino);
      }
    }
    if forall k :: 0 <= k < |es| ==> es[k] == Ok {
      assert es[|ops|] == err;
      forall k | 0 <= k < |errs| ensures errs[k] == Ok { assert es[k] == errs[k]; }
    }
  }

  lemma NoExcuse(geo: Geo, closed: bool, leaves: nat)
    requires geo.Valid()
    ensures AllExcused(geo, closed, leaves, [], [], []) && Sum([]) == 0 && TouchedAll(geo, []) == 0
  {
  }

  /** Any run of writes and truncations follows the byte string; every device state
      in between is sound and leaves other files alone, and only failed operations
      can leak blocks. */
  method RunAll(f: File, ops: seq<Op>) returns (errs: seq<Err>, ghost steps: seq<Image>, ghost denials: seq<nat>)
    requires f.vol.geo.bs > 0 && f.Valid() && forall k :: 0 <= k < |ops| ==> InRange(f.vol.geo, ops[k])
    modifies f, f.vol
    ensures f.Valid() && f.closed == old(f.closed) && f.vol.history == old(f.vol.history) + steps && |errs| == |ops|
    ensures RunTo(f.vol.geo, old(f.vol.img), f.vol.img, f.ino, ops, errs, steps)
    ensures f.vol.geo.Valid() && AllExcused(f.vol.geo, f.closed, |old(f.extents)|, ops, errs, denials)
    ensures f.vol.denied == old(f.vol.denied) + Sum(denials)
  {
    hide Synced, Stepped, RunTo, InRange, Excused, AllExcused, Sum, TouchedAll, Touched;
    ghost var geo, ino, img := f.vol.geo, f.ino, f.vol.img;
    errs, steps, denials := [], [], [];
    RunStart(geo, img, ino, f.extents, f.size);
    SyncedMeans(geo, img, ino, f.extents, f.size);
    NoExcuse(geo, f.closed, |f.extents|);
    assert ops[..0] == [];
    var k := 0;
    while k < |ops|
      invariant 0 <= k <= |ops| && |errs| == k && f.Valid() && f.closed == old(f.closed)
      invariant f.vol.history == old(f.vol.history) + steps
      invariant RunTo(geo, img, f.vol.img, ino, ops[..k], errs, steps)
      invariant AllExcused(geo, f.closed, |old(f.extents)|, ops[..k], errs, denials) && f.vol.denied == old(f.vol.denied) + Sum(denials)
      invariant |f.extents| <= |old(f.extents)| + TouchedAll(geo, ops[..k])
    {
      ghost var img1, d0, now := f.vol.img, f.vol.denied, |f.extents|;
      var e;
      ghost var ss;
      e, ss := Perform(f, ops[k]);
      RunStep(geo, img, img1, f.vol.img, ino, ops[..k], errs, steps, ops[k], e, ss);
      assert ops[..k] + [ops[k]] == ops[..k + 1];
      ExcusedStep(geo, f.closed, |old(f.extents)|, now, ops[..k], errs, denials, ops[k], e, f.vol.denied - d0);
      denials := denials + [f.vol.denied - d0];
      errs, steps := errs + [e], steps + ss;
      k := k + 1;
    }
    assert ops[..k] == ops;
  }

  /** A read after any run returns the slice of the byte string. */
  method RunThenRead(f: File, ops: seq<Op>, p: array<byte>, off: int) returns (errs: seq<Err>, n: nat, err: Err, ghost denials: seq<nat>)
    requires f.vol.geo.bs > 0 && f.Valid() && forall k :: 0 <= k < |ops| ==> InRange(f.vol.geo, ops[k])
    modifies f, f.vol, p
    ensures |errs| == |ops| && n <= p.Length && forall k :: n <= k < p.Length ==> p[k] == old(p[k])
    ensures !f.closed && off >= 0 ==> ReadsSlice(AfterAll(f.vol.geo, old(Content(f.vol.geo, f.vol.img, f.ino)), ops, errs), off, p[..], n, err)
    ensures f.vol.geo.Valid() && AllExcused(f.vol.geo, f.closed, |old(f.extents)|, ops, errs, denials) && f.vol.denied == old(f.vol.denied) + Sum(denials)
  {
    hide Synced, RunTo, InRange, Content, Openable, After, AllExcused, Sum;
    ghost var geo, ino, img := f.vol.geo, f.ino, f.vol.img;
    ghost var steps;
    errs, steps, denials := RunAll(f, ops);
    SyncedMeans(geo, f.vol.img, ino, f.extents, f.size);
    RunContent(geo, img, f.vol.img, ino, ops, errs, steps, f.extents, f.size);
    n, err := f.ReadAt(p, off);
  }

  /** What io.ReaderAt asks of a read of |buf| bytes at off: everything that exists, and an error exactly when that is short. */
  ghost predicate ReadsSlice(c: seq<byte>, off: nat, buf: seq<byte>, n: nat, err: Err) {
    if off >= |c| then n == 0 && err == EOF
    else n == Min(|buf|, |c| - off) && buf[..n] == c[off..off + n] && err == if n == |buf| then Ok else EOF
  }

  lemma RunContent(geo: Geo, img: Image, img': Image, ino: nat, ops: seq<Op>, errs: seq<Err>, steps: seq<Image>, ls: seq<Leaf>, size: nat)
    requires RunTo(geo, img, img', ino, ops, errs, steps) && Synced(geo, img', ino, ls, size)
    ensures AfterAll(geo, Content(geo, img, ino), ops, errs) == FileBytes(img'.data, geo, ls, size)
  {
  }

  // ---------------------------------------------------------------- two readers, two opens

  /** The binary search with run-length reads returns the slice of what the
      block-by-block loop materialises, and that loop succeeds exactly when the file
      is within the ceiling and is empty or has a leaf. */
  method ReadBothWays(f: File, p: array<byte>, off: nat, limit: nat) returns (ok: bool, whole: seq<byte>, n: nat, err: Err)
    requires f.vol.geo.bs > 0 && f.Valid() && !f.closed
    modifies p
    ensures ok <==> f.size <= SizeCeiling(f.vol.geo, limit) && (f.size == 0 || f.extents != [])
    ensures ok ==> ReadsSlice(whole, off, p[..], n, err)
  {
    hide Synced, Functional, FileByte, FileBytes, InBounds;
    SyncedMeans(f.vol.geo, f.vol.img, f.ino, f.extents, f.size);
    SortedIsFunctional(f.extents);
    InBoundsInRange(f.vol.geo, f.extents);
    ok, whole := ReadFileData(f.vol.img.data, f.vol.geo, f.extents, f.size, limit);
    n, err := f.ReadAt(p, off);
  }

  lemma InBoundsInRange(geo: Geo, ls: seq<Leaf>)
    requires InBounds(geo, ls)
    ensures PhysInRange(geo, ls)
  {
    forall i | 0 <= i < |ls| ensures LeafInRange(geo, ls[i]) { assert LeafInBounds(geo, ls[i]); }
  }

  /** A second open of a file sees the same map, size and content, and succeeds exactly
      when the file is empty or has a leaf and its size fits the declared filesystem. */
  method Reopen(f: File) returns (g: File?)
    requires f.vol.geo.bs > 0 && f.Valid()
    ensures g != null <==> (f.size == 0 || f.extents != []) && f.size <= DeclaredBytes(f.vol.geo)
    ensures g != null ==> fresh(g) && g.vol == f.vol && g.Valid() && g.ino == f.ino && g.extents == f.extents && g.size == f.size
  {
    hide DeclaredBytes, ParseRoot, FileOk, Sort;
    SyncedMeans(f.vol.geo, f.vol.img, f.ino, f.extents, f.size);
    g := File.Open(f.vol, f.ino);
  }

  // ---------------------------------------------------------------- past the 32-bit range

  lemma MappedLow(geo: Geo, ls: seq<Leaf>, b: nat)
    requires InBounds(geo, ls)
    ensures Mapped(ls, b) ==> b < U32
  {
    if p: nat :| Maps(ls, b, p) {
      var l :| l in ls && Covers(l, b) && p == l.phys + (b - l.log);
      var k :| 0 <= k < |ls| && ls[k] == l;
      assert LeafInBounds(geo, ls[k]);
    }
  }

  /** Allocating for a set of holes maps them all exactly when their numbers fit the
      32-bit field `mapRangeLocked` truncates them to. */
  lemma GrowMapsExactlyInRange(geo: Geo, img: Image, ino: nat, ls: seq<Leaf>, size: nat, missing: seq<nat>, phys: seq<nat>)
    requires Synced(geo, img, ino, ls, size) && FreshBlocks(geo, img, phys) && |missing| == |phys| && Holes(ls, missing)
    ensures (forall i :: 0 <= i < |missing| ==> Mapped(Grown(ls, missing, phys), missing[i]))
       <==> (forall i :: 0 <= i < |missing| ==> missing[i] < U32)
  {
    var ms := Grown(ls, missing, phys);
    SyncedMeans(geo, img, ino, ls, size);
    if forall i :: 0 <= i < |missing| ==> missing[i] < U32 {
      GrownMapOk(geo, img, ino, ls, size, missing, phys);
      forall i | 0 <= i < |missing| ensures Mapped(ms, missing[i]) {
        assert Maps(ms, missing[i], phys[i]);
      }
    } else {
      var i :| 0 <= i < |missing| && missing[i] >= U32;
      GrownInBounds(geo, ls, missing, phys);
      MappedLow(geo, ms, missing[i]);
    }
  }

  /** The write at logical block 2^32 alone: the file's tree can be parsed afterwards
      exactly if block 0 was a hole. */
  lemma FarWriteBreaksFile(geo: Geo, ls: seq<Leaf>)
    requires InBounds(geo, ls)
    ensures SurvivesRange(ls, U32, U32) <==> !Mapped(ls, 0)
  {
    MappedLow(geo, ls, U32);
    assert U32 % U32 == 0;
  }
}
