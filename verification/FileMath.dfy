/** Byte-level arithmetic of a mapped file: what one device write, one new block
    or one new map does to the bytes a reader sees. */
module FileMath {
  import opened Bytes
  import opened Extents
  import opened ExtentTree
  import opened Volume

  // ---------------------------------------------------------------- the abstract file

  /** The byte string grown to n bytes with zeros; never shortened. */
  function Extend(c: seq<byte>, n: nat): (r: seq<byte>)
    ensures |r| == Max(|c|, n)
    ensures forall i :: 0 <= i < |r| ==> r[i] == if i < |c| then c[i] else 0
  {
    if n <= |c| then c else c + Zeros(n - |c|)
  }

  /** The byte string after writing p at off, zero-filling any gap. */
  function Splice(c: seq<byte>, off: nat, p: seq<byte>): (r: seq<byte>)
    ensures |r| == Max(|c|, off + |p|)
  {
    Put(Extend(c, off + |p|), off, p)
  }

  /** The byte string cut to n bytes. */
  function Take(c: seq<byte>, n: nat): seq<byte>
    requires n <= |c|
  {
    c[..n]
  }

  // ---------------------------------------------------------------- one write through the map

  lemma DivRange(y: nat, lo: nat, hi: nat, bs: nat)
    requires bs > 0 && lo * bs <= y < hi * bs
    ensures lo <= y / bs < hi
  {
    if y / bs < lo { MulMono(y / bs + 1, lo, bs); }
    if y / bs >= hi { MulMono(hi, y / bs, bs); }
  }

  /** Inside one run, image offsets follow file offsets linearly. */
  lemma RunIsLinear(geo: Geo, ls: seq<Leaf>, i: nat, y: nat)
    requires geo.bs > 0 && SortedMap(ls) && i < |ls|
    requires ls[i].log * geo.bs <= y < (ls[i].log + ls[i].count) * geo.bs
    ensures var l := ls[i];
            && l.log <= y / geo.bs < l.log + l.count
            && Phys(ls, y / geo.bs) == Some(l.phys + (y / geo.bs - l.log))
            && (l.phys + (y / geo.bs - l.log)) * geo.bs + y % geo.bs == l.phys * geo.bs + (y - l.log * geo.bs)
  {
    var l, b := ls[i], y / geo.bs;
    DivRange(y, l.log, l.log + l.count, geo.bs);
    assert Maps(ls, b, l.phys + (b - l.log)) by { assert l in ls; }
    SortedIsFunctional(ls);
    assert Mapped(ls, b);
    DivMulMod(y, geo.bs);
    assert (l.phys + (b - l.log)) * geo.bs == l.phys * geo.bs + b * geo.bs - l.log * geo.bs;
  }

  lemma RunFits(geo: Geo, l: Leaf, o: nat, n: nat)
    requires LeafInBounds(geo, l)
    requires l.log * geo.bs <= o && o + n <= (l.log + l.count) * geo.bs
    ensures l.phys * geo.bs <= l.phys * geo.bs + (o - l.log * geo.bs)
    ensures l.phys * geo.bs + (o - l.log * geo.bs) + n <= (l.phys + l.count) * geo.bs <= geo.blocks * geo.bs
  {
    MulMono(l.phys + l.count, geo.blocks, geo.bs);
    assert (l.phys + l.count) * geo.bs == l.phys * geo.bs + l.count * geo.bs;
    assert (l.log + l.count) * geo.bs == l.log * geo.bs + l.count * geo.bs;
  }

  /** A byte outside the written file range is stored outside the written image range. */
  lemma OutsideRange(geo: Geo, ls: seq<Leaf>, i: nat, o: nat, n: nat, x: nat, q: nat)
    requires geo.bs > 0 && SortedMap(ls) && Injective(ls) && i < |ls|
    requires ls[i].log * geo.bs <= o && o + n <= (ls[i].log + ls[i].count) * geo.bs
    requires Maps(ls, x / geo.bs, q) && !(o <= x < o + n)
    ensures var po := ls[i].phys * geo.bs + (o - ls[i].log * geo.bs);
            !(po <= q * geo.bs + x % geo.bs < po + n)
  {
    var po := ls[i].phys * geo.bs + (o - ls[i].log * geo.bs);
    var at := q * geo.bs + x % geo.bs;
    if po <= at < po + n {
      var y := o + (at - po);
      RunIsLinear(geo, ls, i, y);
      var r := ls[i].phys + (y / geo.bs - ls[i].log);
      Flat(q, x % geo.bs, r, y % geo.bs, geo.bs);
      assert Maps(ls, y / geo.bs, r);
      DivMulMod(x, geo.bs);
      DivMulMod(y, geo.bs);
      assert false;
    }
  }

  /** Writing s at file offset o through run i changes exactly bytes [o, o + |s|). */
  lemma WriteThrough(data: seq<byte>, geo: Geo, ls: seq<Leaf>, i: nat, o: nat, s: seq<byte>, po: nat)
    requires Sized(data, geo) && geo.bs > 0 && MapOk(geo, ls) && i < |ls|
    requires ls[i].log * geo.bs <= o && o + |s| <= (ls[i].log + ls[i].count) * geo.bs
    requires po == ls[i].phys * geo.bs + (o - ls[i].log * geo.bs) && po + |s| <= |data|
    ensures forall x: nat :: FileByte(Put(data, po, s), geo, ls, x)
                             == if o <= x < o + |s| then s[x - o] else FileByte(data, geo, ls, x)
  {
    forall x: nat
      ensures FileByte(Put(data, po, s), geo, ls, x) == if o <= x < o + |s| then s[x - o] else FileByte(data, geo, ls, x)
    {
      var p := Phys(ls, x / geo.bs);
      if o <= x < o + |s| {
        RunIsLinear(geo, ls, i, x);
        assert LeafInBounds(geo, ls[i]);
        BlockFits(geo, p.value);
      } else if p.Some? && p.value < geo.blocks {
        OutsideRange(geo, ls, i, o, |s|, x, p.value);
        BlockFits(geo, p.value);
      }
    }
  }

  // ---------------------------------------------------------------- mapping zeroed blocks

  ghost predicate ZeroBlock(data: seq<byte>, geo: Geo, b: nat)
    requires Sized(data, geo) && b < geo.blocks
  {
    BlockAt(data, geo, b) == Zeros(geo.bs)
  }

  /** M extends L by mapping further blocks, all stored in P. */
  ghost predicate GrowsBy(ls: seq<Leaf>, ms: seq<Leaf>, P: set<nat>) {
    && (forall b: nat, p: nat :: Maps(ls, b, p) ==> Maps(ms, b, p))
    && (forall b: nat, p: nat :: Maps(ms, b, p) && !Maps(ls, b, p) ==> p in P && !Mapped(ls, b))
  }

  /** Filling holes with zeroed blocks changes no byte of the file. */
  lemma ZeroedHolesInvisible(data: seq<byte>, geo: Geo, ls: seq<Leaf>, ms: seq<Leaf>, P: set<nat>)
    requires Sized(data, geo) && geo.bs > 0 && Functional(ls) && Functional(ms) && GrowsBy(ls, ms, P)
    requires forall b :: b in P ==> b < geo.blocks && ZeroBlock(data, geo, b)
    ensures forall o: nat :: FileByte(data, geo, ms, o) == FileByte(data, geo, ls, o)
  {
    forall o: nat ensures FileByte(data, geo, ms, o) == FileByte(data, geo, ls, o) {
      var b := o / geo.bs;
      var p, q := Phys(ls, b), Phys(ms, b);
      if p.Some? {
        assert Maps(ms, b, p.value);
        assert q.Some?;
      } else if q.Some? {
        assert q.value in P;
        BlockFits(geo, q.value);
        assert BlockAt(data, geo, q.value)[o % geo.bs] == data[q.value * geo.bs + o % geo.bs];
      }
    }
  }

  /** One single-block leaf per missing block; the logical number is stored in 32 bits. */
  function NewLeaves(missing: seq<nat>, phys: seq<nat>): (r: seq<Leaf>)
    requires |missing| == |phys|
    ensures |r| == |missing|
  {
    seq(|missing|, i requires 0 <= i < |missing| => Leaf(missing[i] % U32, phys[i], 1))
  }

  predicate StrictlyAscending(s: seq<nat>) {
    forall i, j :: 0 <= i < j < |s| ==> s[i] < s[j]
  }

  /** Blocks absent from the map, and image blocks not yet in it. */
  ghost predicate FreshPairs(ls: seq<Leaf>, missing: seq<nat>, phys: seq<nat>) {
    && |missing| == |phys| && StrictlyAscending(missing) && Distinct(phys)
    && (forall i :: 0 <= i < |missing| ==> missing[i] < U32 && !Mapped(ls, missing[i]))
    && (forall i :: 0 <= i < |phys| ==> phys[i] !in Blocks(ls))
  }

  lemma NewLeafApart(ls: seq<Leaf>, missing: seq<nat>, phys: seq<nat>, i: nat, k: nat)
    requires FreshPairs(ls, missing, phys) && i < |ls| && k < |missing|
    requires 1 <= ls[i].count
    ensures Apart(Logical, ls[i], NewLeaves(missing, phys)[k]) && Apart(Physical, ls[i], NewLeaves(missing, phys)[k])
  {
    var l := ls[i];
    assert l in ls;
    var b, p := missing[k], phys[k];
    assert Covers(l, b) ==> Maps(ls, b, l.phys + (b - l.log));
    assert l.phys <= p < l.phys + l.count ==> Maps(ls, l.log + (p - l.phys), p);
  }

  /** The list handed to coalescing has no overlaps. */
  lemma MergedApart(geo: Geo, ls: seq<Leaf>, missing: seq<nat>, phys: seq<nat>)
    requires MapOk(geo, ls) && FreshPairs(ls, missing, phys)
    ensures var all := ls + NewLeaves(missing, phys);
            AllApart(Logical, all) && AllApart(Physical, all)
  {
    var add := NewLeaves(missing, phys);
    var all := ls + add;
    SortedInjectiveApart(ls);
    forall i, j | 0 <= i < j < |all|
      ensures Apart(Logical, all[i], all[j]) && Apart(Physical, all[i], all[j])
    {
      if j < |ls| {
        assert Apart(Logical, ls[i], ls[j]) && Apart(Physical, ls[i], ls[j]);
      } else if i < |ls| {
        NewLeafApart(ls, missing, phys, i, j - |ls|);
      } else {
        assert missing[i - |ls|] < missing[j - |ls|];
        assert phys[i - |ls|] != phys[j - |ls|];
      }
    }
  }

  lemma NewLeavesMap(missing: seq<nat>, phys: seq<nat>, b: nat, p: nat)
    requires |missing| == |phys| && forall i :: 0 <= i < |missing| ==> missing[i] < U32
    ensures Maps(NewLeaves(missing, phys), b, p) <==> exists i :: 0 <= i < |missing| && missing[i] == b && phys[i] == p
  {
    var add := NewLeaves(missing, phys);
    if Maps(add, b, p) {
      var l :| l in add && Covers(l, b) && p == l.phys + (b - l.log);
      var i :| 0 <= i < |add| && add[i] == l;
      assert missing[i] == b && phys[i] == p;
    }
    if i :| 0 <= i < |missing| && missing[i] == b && phys[i] == p {
      assert add[i] in add;
    }
  }

  lemma NewLeavesBounds(geo: Geo, missing: seq<nat>, phys: seq<nat>)
    requires |missing| == |phys|
    requires forall i :: 0 <= i < |phys| ==> 0 < phys[i] < geo.blocks
    ensures InBounds(geo, NewLeaves(missing, phys))
  {
    var add := NewLeaves(missing, phys);
    forall i | 0 <= i < |add| ensures LeafInBounds(geo, add[i]) {
      assert missing[i] % U32 < U32;
    }
  }

  /** The map after an allocating write: the old one plus the missing blocks. */
  function Grown(ls: seq<Leaf>, missing: seq<nat>, phys: seq<nat>): seq<Leaf>
    requires |missing| == |phys|
  {
    Merge(Sort(Logical, ls + NewLeaves(missing, phys)))
  }

  lemma MergeStepInBounds(geo: Geo, out: seq<Leaf>, e: Leaf)
    requires InBounds(geo, out) && LeafInBounds(geo, e)
    ensures InBounds(geo, MergeStep(out, e))
  {
    assert out != [] ==> LeafInBounds(geo, out[|out| - 1]);
  }

  /** Coalescing never widens a leaf past the bounds its parts respect. */
  lemma {:induction false} MergeInBounds(geo: Geo, s: seq<Leaf>)
    requires InBounds(geo, s)
    ensures InBounds(geo, Merge(s))
  {
    if s != [] {
      var n := |s| - 1;
      MergeInBounds(geo, s[..n]);
      MergeStepInBounds(geo, Merge(s[..n]), s[n]);
    }
  }

  lemma GrownInBounds(geo: Geo, ls: seq<Leaf>, missing: seq<nat>, phys: seq<nat>)
    requires InBounds(geo, ls) && |missing| == |phys|
    requires forall i :: 0 <= i < |phys| ==> 0 < phys[i] < geo.blocks
    ensures InBounds(geo, Grown(ls, missing, phys))
  {
    var all := ls + NewLeaves(missing, phys);
    NewLeavesBounds(geo, missing, phys);
    var s := Sort(Logical, all);
    forall i | 0 <= i < |s| ensures LeafInBounds(geo, s[i]) {
      assert s[i] in all;
    }
    MergeInBounds(geo, s);
  }

  lemma GrownMaps(ls: seq<Leaf>, missing: seq<nat>, phys: seq<nat>, b: nat, p: nat)
    requires |missing| == |phys| && forall i :: 0 <= i < |missing| ==> missing[i] < U32
    requires SameMap(Grown(ls, missing, phys), ls + NewLeaves(missing, phys))
    ensures Maps(Grown(ls, missing, phys), b, p)
       <==> Maps(ls, b, p) || exists i :: 0 <= i < |missing| && missing[i] == b && phys[i] == p
  {
    MapsAppend(ls, NewLeaves(missing, phys), b, p);
    NewLeavesMap(missing, phys, b, p);
  }

  /** The grown map is sound and maps exactly the old blocks and the missing ones. */
  lemma GrownOk(geo: Geo, ls: seq<Leaf>, missing: seq<nat>, phys: seq<nat>)
    requires MapOk(geo, ls) && FreshPairs(ls, missing, phys)
    requires forall i :: 0 <= i < |phys| ==> 0 < phys[i] < geo.blocks
    ensures var ms := Grown(ls, missing, phys);
            && MapOk(geo, ms)
            && GrowsBy(ls, ms, set p | p in phys)
            && (forall i :: 0 <= i < |missing| ==> Maps(ms, missing[i], phys[i]))
            && Blocks(ms) == Blocks(ls) + set p | p in phys
  {
    hide Grown, MapOk, Maps, Mapped, Blocks;
    var ms := Grown(ls, missing, phys);
    GrownSound(geo, ls, missing, phys);
    GrownExactly(ls, ms, missing, phys);
    AddedBlocks(ls, ms, missing, phys);
  }

  lemma GrownSound(geo: Geo, ls: seq<Leaf>, missing: seq<nat>, phys: seq<nat>)
    requires MapOk(geo, ls) && FreshPairs(ls, missing, phys)
    requires forall i :: 0 <= i < |phys| ==> 0 < phys[i] < geo.blocks
    ensures var ms := Grown(ls, missing, phys);
            MapOk(geo, ms) && Added(ls, ms, missing, phys)
  {
    hide SortedMap, Injective, Maps, AllApart;
    var all, ms := ls + NewLeaves(missing, phys), Grown(ls, missing, phys);
    MergedApart(geo, ls, missing, phys);
    NewLeavesBounds(geo, missing, phys);
    CoalesceProps(all);
    GrownInBounds(geo, ls, missing, phys);
    forall b: nat, p: nat
      ensures Maps(ms, b, p) <==> Maps(ls, b, p) || exists i :: 0 <= i < |missing| && missing[i] == b && phys[i] == p
    {
      GrownMaps(ls, missing, phys, b, p);
    }
  }

  /** The map ms is ls and the missing blocks. */
  ghost predicate Added(ls: seq<Leaf>, ms: seq<Leaf>, missing: seq<nat>, phys: seq<nat>)
    requires |missing| == |phys|
  {
    forall b: nat, p: nat :: Maps(ms, b, p) <==> Maps(ls, b, p) || exists i :: 0 <= i < |missing| && missing[i] == b && phys[i] == p
  }

  lemma GrownExactly(ls: seq<Leaf>, ms: seq<Leaf>, missing: seq<nat>, phys: seq<nat>)
    requires |missing| == |phys| && Added(ls, ms, missing, phys) && FreshPairs(ls, missing, phys)
    ensures GrowsBy(ls, ms, set p | p in phys) && forall i :: 0 <= i < |missing| ==> Maps(ms, missing[i], phys[i])
  {
    hide Maps;
  }

  lemma AddedBlocks(ls: seq<Leaf>, ms: seq<Leaf>, missing: seq<nat>, phys: seq<nat>)
    requires |missing| == |phys| && Added(ls, ms, missing, phys)
    ensures Blocks(ms) == Blocks(ls) + set p | p in phys
  {
    hide Maps;
    var P := set p | p in phys;
    forall p ensures p in Blocks(ms) <==> p in Blocks(ls) + P {
      if p in Blocks(ms) {
        var b: nat :| Maps(ms, b, p);
        assert Maps(ls, b, p) || p in P;
      }
      if p in Blocks(ls) {
        var b: nat :| Maps(ls, b, p);
        assert Maps(ms, b, p);
      }
      if p in P {
        var i :| 0 <= i < |phys| && phys[i] == p;
        assert Maps(ms, missing[i], p);
      }
    }
  }

  // ---------------------------------------------------------------- cutting the map

  /** `shrinkLocked`'s kept leaves: everything below logical block keep. */
  function Cut(ls: seq<Leaf>, keep: nat): (r: seq<Leaf>)
    ensures |r| <= |ls|
  {
    if ls == [] then []
    else
      var t, e := Cut(ls[..|ls| - 1], keep), ls[|ls| - 1];
      if e.log >= keep then t
      else if e.log + e.count <= keep then t + [e]
      else t + [e.(count := keep - e.log)]
  }

  /** The image blocks it frees, in order. */
  function Dropped(ls: seq<Leaf>, keep: nat): (r: seq<nat>)
  {
    if ls == [] then []
    else
      var t, e := Dropped(ls[..|ls| - 1], keep), ls[|ls| - 1];
      if e.log >= keep then t + Run(e)
      else if e.log + e.count <= keep then t
      else t + Run(Leaf(keep, e.phys + (keep - e.log), e.count - (keep - e.log)))
  }

  lemma {:induction false} CutMaps(ls: seq<Leaf>, keep: nat, b: nat, p: nat)
    ensures Maps(Cut(ls, keep), b, p) <==> Maps(ls, b, p) && b < keep
  {
    if ls != [] {
      var n := |ls| - 1;
      var e := ls[n];
      CutMaps(ls[..n], keep, b, p);
      assert ls == ls[..n] + [e];
      MapsAppend(ls[..n], [e], b, p);
      MapsSingle(e, b, p);
      var t := Cut(ls[..n], keep);
      if e.log < keep {
        var e' := if e.log + e.count <= keep then e else e.(count := keep - e.log);
        MapsAppend(t, [e'], b, p);
        MapsSingle(e', b, p);
      }
    }
  }

  lemma {:induction false} DroppedBlocks(ls: seq<Leaf>, keep: nat, p: nat)
    ensures p in Dropped(ls, keep) <==> exists b: nat :: b >= keep && Maps(ls, b, p)
  {
    if ls != [] {
      var n := |ls| - 1;
      var pre, e := ls[..n], ls[n];
      DroppedBlocks(pre, keep, p);
      assert ls == pre + [e];
      if b: nat :| b >= keep && Maps(pre, b, p) {
        assert Maps(ls, b, p) by { MapsAppend(pre, [e], b, p); }
      }
      if b: nat :| b >= keep && Maps(ls, b, p) {
        MapsAppend(pre, [e], b, p);
        MapsSingle(e, b, p);
      }
      if e.phys <= p < e.phys + e.count && e.log + (p - e.phys) >= keep {
        var b := e.log + (p - e.phys);
        assert Maps(ls, b, p) by { MapsAppend(pre, [e], b, p); MapsSingle(e, b, p); }
      }
    } else {
      assert forall b: nat :: !Maps(ls, b, p);
    }
  }

  lemma AppendSorted(geo: Geo, t: seq<Leaf>, e: Leaf)
    requires SortedMap(t) && InBounds(geo, t) && End(t) <= e.log && LeafInBounds(geo, e)
    ensures SortedMap(t + [e]) && InBounds(geo, t + [e])
  {
    forall i | 0 <= i < |t| ensures t[i].log + t[i].count <= e.log {
      if i < |t| - 1 { assert t[i].log + t[i].count <= t[|t| - 1].log; }
    }
  }

  lemma SortedPrefix(geo: Geo, ls: seq<Leaf>)
    requires SortedMap(ls) && InBounds(geo, ls) && ls != []
    ensures var n := |ls| - 1;
            SortedMap(ls[..n]) && InBounds(geo, ls[..n]) && End(ls[..n]) <= ls[n].log && LeafInBounds(geo, ls[n])
  {
  }

  lemma CutNone(geo: Geo, keep: nat)
    ensures Cut([], keep) == [] && SortedMap([]) && InBounds(geo, [])
  {
  }

  lemma {:induction false} CutSorted(geo: Geo, ls: seq<Leaf>, keep: nat)
    requires SortedMap(ls) && InBounds(geo, ls)
    ensures SortedMap(Cut(ls, keep)) && InBounds(geo, Cut(ls, keep)) && End(Cut(ls, keep)) <= End(ls)
  {
    hide SortedMap, InBounds;
    CutNone(geo, keep);
    if ls != [] {
      var n := |ls| - 1;
      var e := ls[n];
      SortedPrefix(geo, ls);
      CutSorted(geo, ls[..n], keep);
      var t := Cut(ls[..n], keep);
      if e.log >= keep {
        assert Cut(ls, keep) == t;
      } else {
        var e' := if e.log + e.count <= keep then e else e.(count := keep - e.log);
        assert Cut(ls, keep) == t + [e'];
        AppendSorted(geo, t, e');
      }
    }
  }

  lemma CutOk(geo: Geo, ls: seq<Leaf>, keep: nat)
    requires MapOk(geo, ls)
    ensures MapOk(geo, Cut(ls, keep))
    ensures forall b: nat, p: nat :: Maps(Cut(ls, keep), b, p) <==> Maps(ls, b, p) && b < keep
  {
    CutSorted(geo, ls, keep);
    forall b: nat, p: nat ensures Maps(Cut(ls, keep), b, p) <==> Maps(ls, b, p) && b < keep {
      CutMaps(ls, keep, b, p);
    }
    forall b: nat, c: nat, p: nat | Maps(Cut(ls, keep), b, p) && Maps(Cut(ls, keep), c, p) ensures b == c {
      assert Maps(ls, b, p) && Maps(ls, c, p);
    }
  }

  /** Cutting splits the owned data blocks into kept and dropped ones. */
  lemma CutBlocks(geo: Geo, ls: seq<Leaf>, keep: nat)
    requires MapOk(geo, ls)
    ensures var D := set p | p in Dropped(ls, keep);
            Blocks(ls) == Blocks(Cut(ls, keep)) + D && Blocks(Cut(ls, keep)) !! D
  {
    CutOk(geo, ls, keep);
    var K := Cut(ls, keep);
    var D := set p | p in Dropped(ls, keep);
    forall p: nat
      ensures p in Blocks(ls) <==> p in Blocks(K) || p in D
      ensures !(p in Blocks(K) && p in D)
    {
      DroppedBlocks(ls, keep, p);
      if p in Blocks(ls) {
        var b: nat :| Maps(ls, b, p);
        if b < keep { assert Maps(K, b, p); }
      }
      if p in Blocks(K) {
        var b: nat :| Maps(K, b, p);
        assert Maps(ls, b, p) && b < keep;
      }
    }
  }

  /** Bytes below the cut are unchanged, bytes above it are holes. */
  lemma CutBytes(data: seq<byte>, geo: Geo, ls: seq<Leaf>, keep: nat, o: nat)
    requires Sized(data, geo) && geo.bs > 0 && MapOk(geo, ls)
    ensures FileByte(data, geo, Cut(ls, keep), o) == if o / geo.bs < keep then FileByte(data, geo, ls, o) else 0
  {
    CutOk(geo, ls, keep);
    SortedIsFunctional(ls);
    SortedIsFunctional(Cut(ls, keep));
    var b := o / geo.bs;
    var p, q := Phys(ls, b), Phys(Cut(ls, keep), b);
    assert q.Some? ==> Maps(ls, b, q.value) && p.Some?;
    assert p.Some? && b < keep ==> Maps(Cut(ls, keep), b, p.value) && q.Some?;
  }
}
