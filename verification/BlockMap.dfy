/** The ext2/ext3 indirect block map (blockmap.go): a budgeted walk of the entry
    tree, against the lookup of one logical block at a time. */
module BlockMap {
  import opened Bytes
  import opened Extents

  const MAX_COUNT: nat := 0xFFFF

  // ---------------------------------------------------------------- the device

  predicate Readable(data: seq<byte>, bs: nat, b: nat) {
    b * bs + bs <= |data|
  }

  /** The bytes of block b; zeros stand in for a block the device does not have. */
  function Raw(data: seq<byte>, bs: nat, b: nat): (r: seq<byte>)
    ensures |r| == bs
  {
    if Readable(data, bs, b) then data[b * bs..b * bs + bs] else Zeros(bs)
  }

  /** Entry i of a block. */
  function Ptr(buf: seq<byte>, i: nat): nat
    requires 4 * i + 4 <= |buf|
  {
    UnLE(buf[4 * i..4 * i + 4])
  }

  /** Entries per block. */
  function Ptrs(bs: nat): (n: nat)
    ensures 4 * n <= bs
  {
    bs / 4
  }

  /** Logical blocks one entry at a level covers. */
  function Span(bs: nat, level: nat): nat {
    if level == 0 then 1 else Ptrs(bs) * Span(bs, level - 1)
  }

  lemma SpanPositive(bs: nat, level: nat)
    requires bs >= 4
    ensures Span(bs, level) >= 1
    decreases level
  {
    if level > 0 {
      SpanPositive(bs, level - 1);
      MulMono(1, Ptrs(bs), Span(bs, level - 1));
    }
  }

  // ---------------------------------------------------------------- one block at a time

  /** The physical block behind relative block rel of the subtree at blk; 0 is a hole. */
  function LookupIn(data: seq<byte>, bs: nat, level: nat, blk: nat, rel: nat): nat
    requires bs >= 4 && rel < Span(bs, level)
    decreases level
  {
    if level == 0 then blk
    else
      SpanPositive(bs, level - 1);
      var s := Span(bs, level - 1);
      Within(bs, level, rel);
      var p := Ptr(Raw(data, bs, blk), rel / s);
      if p == 0 then 0 else LookupIn(data, bs, level - 1, p, rel % s)
  }

  lemma Within(bs: nat, level: nat, rel: nat)
    requires bs >= 4 && level >= 1 && rel < Span(bs, level) && Span(bs, level - 1) >= 1
    ensures 0 <= rel / Span(bs, level - 1) < Ptrs(bs)
    ensures 4 * (rel / Span(bs, level - 1)) + 4 <= bs
    ensures 0 <= rel % Span(bs, level - 1) < Span(bs, level - 1)
  {
    var s := Span(bs, level - 1);
    if rel / s >= Ptrs(bs) {
      MulMono(Ptrs(bs), rel / s, s);
    }
  }

  /** The entry for logical block b: direct, or through one, two or three levels. */
  function Lookup(data: seq<byte>, bs: nat, iblock: seq<byte>, b: nat): nat
    requires bs >= 4 && |iblock| == 60
  {
    var s1, s2, s3 := Span(bs, 1), Span(bs, 2), Span(bs, 3);
    if b < 12 then Ptr(iblock, b)
    else if b < 12 + s1 then Under(data, bs, iblock, 1, b - 12)
    else if b < 12 + s1 + s2 then Under(data, bs, iblock, 2, b - 12 - s1)
    else if b < 12 + s1 + s2 + s3 then Under(data, bs, iblock, 3, b - 12 - s1 - s2)
    else 0
  }

  /** Through the indirect entry of a level. */
  function Under(data: seq<byte>, bs: nat, iblock: seq<byte>, level: nat, rel: nat): nat
    requires bs >= 4 && |iblock| == 60 && 1 <= level <= 3 && rel < Span(bs, level)
  {
    var p := Ptr(iblock, 11 + level);
    if p == 0 then 0 else LookupIn(data, bs, level, p, rel)
  }

  // ---------------------------------------------------------------- what the walk does

  datatype Pair = Pair(log: nat, phys: nat)

  /** Indirect blocks read, in order, and data entries met, in order. */
  datatype Trace = Trace(visits: seq<nat>, pairs: seq<Pair>)

  function Join(a: Trace, b: Trace): Trace {
    Trace(a.visits + b.visits, a.pairs + b.pairs)
  }

  const NOTHING: Trace := Trace([], [])

  /** The first i entries of indirect block blk at a level, below logical block n. */
  function Sub(data: seq<byte>, bs: nat, n: nat, level: nat, blk: nat, base: nat, i: nat): Trace
    requires bs >= 4 && level >= 1 && i <= Ptrs(bs)
    decreases level, i
  {
    if i == 0 then Trace([blk], [])
    else Join(Sub(data, bs, n, level, blk, base, i - 1), Child(data, bs, n, level, blk, base, i - 1))
  }

  function Child(data: seq<byte>, bs: nat, n: nat, level: nat, blk: nat, base: nat, i: nat): Trace
    requires bs >= 4 && level >= 1 && i < Ptrs(bs)
    decreases level, i
  {
    var lbn, p := base + i * Span(bs, level - 1), Ptr(Raw(data, bs, blk), i);
    if lbn >= n || p == 0 then NOTHING
    else if level == 1 then Trace([], [Pair(lbn, p)])
    else Sub(data, bs, n, level - 1, p, lbn, Ptrs(bs))
  }

  /** The pairs of a subtree are exactly what the lookup gives, block by block. */
  lemma {:induction false} SubPairs(data: seq<byte>, bs: nat, n: nat, level: nat, blk: nat, base: nat, i: nat, b: nat, p: nat)
    requires bs >= 4 && level >= 1 && i <= Ptrs(bs)
    ensures i * Span(bs, level - 1) <= Span(bs, level)
    ensures Pair(b, p) in Sub(data, bs, n, level, blk, base, i).pairs
       <==> base <= b < base + i * Span(bs, level - 1) && b < n && p != 0 && LookupIn(data, bs, level, blk, b - base) == p
    decreases level, i
  {
    hide Ptr, Raw, Ptrs;
    var s := Span(bs, level - 1);
    SpanPositive(bs, level - 1);
    MulMono(i, Ptrs(bs), s);
    if i > 0 {
      SubPairs(data, bs, n, level, blk, base, i - 1, b, p);
      assert (i - 1) * s + s == i * s;
      ChildPairs(data, bs, n, level, blk, base, i - 1, b, p);
    }
  }

  lemma SpanOne(bs: nat)
    ensures Span(bs, 0) == 1
  {
  }

  lemma SpanStep(bs: nat, level: nat)
    requires level >= 1
    ensures Span(bs, level) == Ptrs(bs) * Span(bs, level - 1)
  {
  }

  /** One level of the lookup: entry i, then offset w below it. */
  lemma LookupStep(data: seq<byte>, bs: nat, level: nat, blk: nat, i: nat, w: nat)
    requires bs >= 4 && level >= 1 && i < Ptrs(bs) && w < Span(bs, level - 1) && i * Span(bs, level - 1) + w < Span(bs, level)
    ensures var p := Ptr(Raw(data, bs, blk), i);
            && LookupIn(data, bs, level, blk, i * Span(bs, level - 1) + w) == (if p == 0 then 0 else LookupIn(data, bs, level - 1, p, w))
            && (level == 1 ==> LookupIn(data, bs, level - 1, p, w) == p)
  {
    hide Ptr, Raw, Span;
    DivModUnique(i * Span(bs, level - 1) + w, Span(bs, level - 1), i, w);
  }

  lemma {:induction false} ChildPairs(data: seq<byte>, bs: nat, n: nat, level: nat, blk: nat, base: nat, i: nat, b: nat, p: nat)
    requires bs >= 4 && level >= 1 && i < Ptrs(bs) && i * Span(bs, level - 1) + Span(bs, level - 1) <= Span(bs, level)
    ensures Pair(b, p) in Child(data, bs, n, level, blk, base, i).pairs
       <==> base + i * Span(bs, level - 1) <= b < base + i * Span(bs, level - 1) + Span(bs, level - 1) && b < n && p != 0 && LookupIn(data, bs, level, blk, b - base) == p
    decreases level, i
  {
    hide Ptr, Raw, Ptrs, LookupIn, Span;
    var s := Span(bs, level - 1);
    var lbn, q := base + i * s, Ptr(Raw(data, bs, blk), i);
    SpanPositive(bs, level - 1);
    if lbn <= b < lbn + s {
      LookupStep(data, bs, level, blk, i, b - lbn);
    }
    SpanOne(bs);
    if lbn < n && q != 0 && level > 1 {
      SubPairs(data, bs, n, level - 1, q, lbn, Ptrs(bs), b, p);
      SpanStep(bs, level - 1);
    }
  }

  ghost predicate Ascend(ps: seq<Pair>) {
    forall i, j :: 0 <= i < j < |ps| ==> ps[i].log < ps[j].log
  }

  ghost predicate InSpan(ps: seq<Pair>, lo: nat, hi: nat) {
    forall i :: 0 <= i < |ps| ==> lo <= ps[i].log < hi
  }

  lemma AscendCat(a: seq<Pair>, b: seq<Pair>, lo: nat, mid: nat, hi: nat)
    requires Ascend(a) && Ascend(b) && InSpan(a, lo, mid) && InSpan(b, mid, hi) && lo <= mid <= hi
    ensures Ascend(a + b) && InSpan(a + b, lo, hi)
  {
  }

  lemma {:induction false} SubAscends(data: seq<byte>, bs: nat, n: nat, level: nat, blk: nat, base: nat, i: nat)
    requires bs >= 4 && level >= 1 && i <= Ptrs(bs)
    ensures Ascend(Sub(data, bs, n, level, blk, base, i).pairs)
    ensures InSpan(Sub(data, bs, n, level, blk, base, i).pairs, base, base + i * Span(bs, level - 1))
    decreases level, i
  {
    hide Ptr, Raw, Ptrs;
    var s := Span(bs, level - 1);
    SpanPositive(bs, level - 1);
    if i > 0 {
      SubAscends(data, bs, n, level, blk, base, i - 1);
      var c := Child(data, bs, n, level, blk, base, i - 1);
      var lbn := base + (i - 1) * s;
      assert lbn + s == base + i * s;
      if c != NOTHING && level > 1 {
        SubAscends(data, bs, n, level - 1, Ptr(Raw(data, bs, blk), i - 1), lbn, Ptrs(bs));
      }
      assert Ascend(c.pairs) && InSpan(c.pairs, lbn, lbn + s);
      AscendCat(Sub(data, bs, n, level, blk, base, i - 1).pairs, c.pairs, base, lbn, lbn + s);
    }
  }

  // ---------------------------------------------------------------- budget and reuse

  /** The walk may follow this trace: within budget, no indirect block twice, all readable, 32-bit logical numbers. */
  ghost predicate Allowed(data: seq<byte>, bs: nat, budget: nat, used: nat, visited: seq<nat>, t: Trace) {
    && used + |t.visits| + |t.pairs| <= budget
    && Distinct(visited + t.visits)
    && (forall i :: 0 <= i < |t.visits| ==> Readable(data, bs, t.visits[i]))
    && (forall i :: 0 <= i < |t.pairs| ==> t.pairs[i].log < U32)
  }

  lemma AllowedJoin(data: seq<byte>, bs: nat, budget: nat, used: nat, visited: seq<nat>, a: Trace, b: Trace)
    ensures Allowed(data, bs, budget, used, visited, Join(a, b))
       <==> Allowed(data, bs, budget, used, visited, a) && Allowed(data, bs, budget, used + |a.visits| + |a.pairs|, visited + a.visits, b)
  {
    hide Readable;
    var j := Join(a, b);
    assert visited + j.visits == (visited + a.visits) + b.visits;
    if Allowed(data, bs, budget, used, visited, j) {
      var all, pre := visited + j.visits, visited + a.visits;
      forall x, y | 0 <= x < y < |pre| ensures pre[x] != pre[y] { assert all[x] == pre[x] && all[y] == pre[y]; }
      forall k | 0 <= k < |a.visits| ensures Readable(data, bs, a.visits[k]) { assert j.visits[k] == a.visits[k]; }
      forall k | 0 <= k < |b.visits| ensures Readable(data, bs, b.visits[k]) { assert j.visits[|a.visits| + k] == b.visits[k]; }
      forall k | 0 <= k < |a.pairs| ensures a.pairs[k].log < U32 { assert j.pairs[k] == a.pairs[k]; }
      forall k | 0 <= k < |b.pairs| ensures b.pairs[k].log < U32 { assert j.pairs[|a.pairs| + k] == b.pairs[k]; }
    }
  }

  lemma {:induction false} AllowedPrefix(data: seq<byte>, bs: nat, budget: nat, used: nat, visited: seq<nat>, n: nat, level: nat, blk: nat, base: nat, i: nat, j: nat)
    requires bs >= 4 && level >= 1 && i <= j <= Ptrs(bs)
    requires Allowed(data, bs, budget, used, visited, Sub(data, bs, n, level, blk, base, j))
    ensures Allowed(data, bs, budget, used, visited, Sub(data, bs, n, level, blk, base, i))
    decreases j
  {
    hide Allowed, Child;
    if i < j {
      AllowedJoin(data, bs, budget, used, visited, Sub(data, bs, n, level, blk, base, j - 1), Child(data, bs, n, level, blk, base, j - 1));
      AllowedPrefix(data, bs, budget, used, visited, n, level, blk, base, i, j - 1);
    }
  }

  /** Past the end of the file, entries contribute nothing. */
  lemma {:induction false} SubStops(data: seq<byte>, bs: nat, n: nat, level: nat, blk: nat, base: nat, i: nat, j: nat)
    requires bs >= 4 && level >= 1 && i <= j <= Ptrs(bs) && base + i * Span(bs, level - 1) >= n
    ensures Sub(data, bs, n, level, blk, base, j) == Sub(data, bs, n, level, blk, base, i)
    decreases j
  {
    if i < j {
      SubStops(data, bs, n, level, blk, base, i, j - 1);
      MulMono(i, j - 1, Span(bs, level - 1));
      var t := Sub(data, bs, n, level, blk, base, j - 1);
      assert Join(t, NOTHING) == t;
    }
  }

  // ---------------------------------------------------------------- coalescing

  /** `emit`: extends the last run or starts a new one. */
  function EmitStep(out: seq<Leaf>, x: Pair): seq<Leaf> {
    var k := |out| - 1;
    if out != [] && out[k].count < MAX_COUNT && out[k].phys + out[k].count == x.phys && out[k].log + out[k].count == x.log then
      out[..k] + [out[k].(count := out[k].count + 1)]
    else out + [Leaf(x.log, x.phys, 1)]
  }

  function Coalesced(ps: seq<Pair>): seq<Leaf> {
    if ps == [] then [] else EmitStep(Coalesced(ps[..|ps| - 1]), ps[|ps| - 1])
  }

  /** No two neighbouring leaves could have been one. */
  ghost predicate Maximal(ls: seq<Leaf>) {
    forall i :: 0 <= i < |ls| - 1 ==>
      !(ls[i].log + ls[i].count == ls[i + 1].log && ls[i].phys + ls[i].count == ls[i + 1].phys) || ls[i].count == MAX_COUNT
  }

  ghost predicate Tidy(ls: seq<Leaf>) {
    SortedMap(ls) && Maximal(ls) && forall i :: 0 <= i < |ls| ==> ls[i].count <= MAX_COUNT
  }

  lemma EmitMaps(out: seq<Leaf>, x: Pair, b: nat, p: nat)
    ensures Maps(EmitStep(out, x), b, p) <==> Maps(out, b, p) || (b == x.log && p == x.phys)
  {
    hide Maps;
    var r := EmitStep(out, x);
    if r == out + [Leaf(x.log, x.phys, 1)] {
      MapsAppend(out, [Leaf(x.log, x.phys, 1)], b, p);
      MapsSingle(Leaf(x.log, x.phys, 1), b, p);
    } else {
      var k := |out| - 1;
      var e := out[k].(count := out[k].count + 1);
      assert out == out[..k] + [out[k]];
      MapsAppend(out[..k], [out[k]], b, p);
      MapsSingle(out[k], b, p);
      MapsAppend(out[..k], [e], b, p);
      MapsSingle(e, b, p);
    }
  }

  lemma EmitTidy(out: seq<Leaf>, x: Pair)
    requires Tidy(out) && (out != [] ==> out[|out| - 1].log + out[|out| - 1].count <= x.log)
    ensures Tidy(EmitStep(out, x))
  {
    hide SortedMap, Maximal, EmitStep;
    EmitSorted(out, x);
    EmitMaximal(out, x);
  }

  lemma EmitSorted(out: seq<Leaf>, x: Pair)
    requires SortedMap(out) && (forall i :: 0 <= i < |out| ==> out[i].count <= MAX_COUNT)
    requires out != [] ==> out[|out| - 1].log + out[|out| - 1].count <= x.log
    ensures SortedMap(EmitStep(out, x)) && forall i :: 0 <= i < |EmitStep(out, x)| ==> EmitStep(out, x)[i].count <= MAX_COUNT
  {
    var r, k := EmitStep(out, x), |out| - 1;
    forall i, j | 0 <= i < j < |r| ensures r[i].log + r[i].count <= r[j].log {
      if j == |out| && i < k { assert out[i].log + out[i].count <= out[k].log; }
    }
  }

  lemma EmitMaximal(out: seq<Leaf>, x: Pair)
    requires Maximal(out) && (out != [] ==> out[|out| - 1].count <= MAX_COUNT)
    ensures Maximal(EmitStep(out, x))
  {
    var r := EmitStep(out, x);
    forall i | 0 <= i < |r| - 1
      ensures !(r[i].log + r[i].count == r[i + 1].log && r[i].phys + r[i].count == r[i + 1].phys) || r[i].count == MAX_COUNT
    {
      if i + 1 < |out| { assert !(out[i].log + out[i].count == out[i + 1].log && out[i].phys + out[i].count == out[i + 1].phys) || out[i].count == MAX_COUNT; }
    }
  }

  /** Coalescing an ascending list of pairs keeps exactly those pairs, in tidy runs. */
  lemma {:induction false} CoalescedIs(ps: seq<Pair>)
    requires Ascend(ps)
    ensures Tidy(Coalesced(ps))
    ensures forall b: nat, p: nat :: Maps(Coalesced(ps), b, p) <==> Pair(b, p) in ps
    ensures ps != [] ==> Coalesced(ps) != [] && var l := Coalesced(ps)[|Coalesced(ps)| - 1]; l.log + l.count == ps[|ps| - 1].log + 1
    decreases |ps|
  {
    hide Maps, Tidy;
    if ps == [] {
      NoLeaves();
    } else {
      var pre, x := ps[..|ps| - 1], ps[|ps| - 1];
      CoalescedIs(pre);
      EmitTidy(Coalesced(pre), x);
      forall b: nat, p: nat ensures Maps(Coalesced(ps), b, p) <==> Pair(b, p) in ps {
        EmitMaps(Coalesced(pre), x, b, p);
        assert ps == pre + [x];
      }
    }
  }

  lemma NoLeaves()
    ensures Tidy([]) && forall b: nat, p: nat :: !Maps([], b, p)
  {
  }

  // ---------------------------------------------------------------- the whole map

  /** The first k direct entries. */
  function Direct(n: nat, iblock: seq<byte>, k: nat): Trace
    requires |iblock| == 60 && k <= 12
  {
    if k == 0 then NOTHING
    else
      var t, p := Direct(n, iblock, k - 1), Ptr(iblock, k - 1);
      if k - 1 < n && p != 0 then Join(t, Trace([], [Pair(k - 1, p)])) else t
  }

  /** First logical block of an indirect level. */
  function Base(bs: nat, level: nat): nat
    requires level >= 1
  {
    if level == 1 then 12 else Base(bs, level - 1) + Span(bs, level - 1)
  }

  function Level(data: seq<byte>, bs: nat, n: nat, iblock: seq<byte>, level: nat): Trace
    requires bs >= 4 && |iblock| == 60 && 1 <= level <= 3
  {
    var p := Ptr(iblock, 11 + level);
    if Base(bs, level) >= n || p == 0 then NOTHING
    else Sub(data, bs, n, level, p, Base(bs, level), Ptrs(bs))
  }

  /** The direct entries and the first l indirect levels. */
  function Levels(data: seq<byte>, bs: nat, n: nat, iblock: seq<byte>, l: nat): Trace
    requires bs >= 4 && |iblock| == 60 && l <= 3
  {
    if l == 0 then Direct(n, iblock, 12)
    else Join(Levels(data, bs, n, iblock, l - 1), Level(data, bs, n, iblock, l))
  }

  lemma NoPairs()
    ensures Ascend([]) && InSpan([], 0, 0)
  {
  }

  lemma OnePair(x: Pair)
    ensures Ascend([x]) && InSpan([x], x.log, x.log + 1)
  {
  }

  lemma Widen(ps: seq<Pair>, lo: nat, hi: nat, hi': nat)
    requires InSpan(ps, lo, hi) && hi <= hi'
    ensures InSpan(ps, lo, hi')
  {
  }

  lemma {:induction false} DirectPairs(n: nat, iblock: seq<byte>, k: nat, b: nat, p: nat)
    requires |iblock| == 60 && k <= 12
    ensures Pair(b, p) in Direct(n, iblock, k).pairs <==> b < k && b < n && p != 0 && Ptr(iblock, b) == p
    ensures Direct(n, iblock, k).visits == [] && Ascend(Direct(n, iblock, k).pairs) && InSpan(Direct(n, iblock, k).pairs, 0, k)
    decreases k
  {
    hide Ptr, Ascend, InSpan;
    if k == 0 {
      NoPairs();
    } else {
      DirectPairs(n, iblock, k - 1, b, p);
      OnePair(Pair(k - 1, Ptr(iblock, k - 1)));
      Widen(Direct(n, iblock, k - 1).pairs, 0, k - 1, k);
      AscendCat(Direct(n, iblock, k - 1).pairs, [Pair(k - 1, Ptr(iblock, k - 1))], 0, k - 1, k);
    }
  }

  lemma LevelPairs(data: seq<byte>, bs: nat, n: nat, iblock: seq<byte>, level: nat, b: nat, p: nat)
    requires bs >= 4 && |iblock| == 60 && 1 <= level <= 3
    ensures Pair(b, p) in Level(data, bs, n, iblock, level).pairs
       <==> Base(bs, level) <= b < Base(bs, level) + Span(bs, level) && b < n && p != 0 && Under(data, bs, iblock, level, b - Base(bs, level)) == p
    ensures Ascend(Level(data, bs, n, iblock, level).pairs)
    ensures InSpan(Level(data, bs, n, iblock, level).pairs, Base(bs, level), Base(bs, level) + Span(bs, level))
  {
    hide Ptr, Base;
    var q := Ptr(iblock, 11 + level);
    SubPairs(data, bs, n, level, q, Base(bs, level), Ptrs(bs), b, p);
    SubAscends(data, bs, n, level, q, Base(bs, level), Ptrs(bs));
  }

  /** The four spans partition the file, and the walk finds exactly what each block's lookup gives. */
  lemma LevelsPairs(data: seq<byte>, bs: nat, n: nat, iblock: seq<byte>, b: nat, p: nat)
    requires bs >= 4 && |iblock| == 60
    ensures Pair(b, p) in Levels(data, bs, n, iblock, 3).pairs <==> b < n && p != 0 && Lookup(data, bs, iblock, b) == p
    ensures Ascend(Levels(data, bs, n, iblock, 3).pairs)
  {
    hide Ptr, Level, Direct, Span, Under, Ascend, InSpan;
    DirectPairs(n, iblock, 12, b, p);
    LevelPairs(data, bs, n, iblock, 1, b, p);
    LevelPairs(data, bs, n, iblock, 2, b, p);
    LevelPairs(data, bs, n, iblock, 3, b, p);
    var d, l1, l2, l3 := Direct(n, iblock, 12).pairs, Level(data, bs, n, iblock, 1).pairs, Level(data, bs, n, iblock, 2).pairs, Level(data, bs, n, iblock, 3).pairs;
    var b2, b3 := Base(bs, 2), Base(bs, 3);
    assert b2 == 12 + Span(bs, 1) && b3 == b2 + Span(bs, 2);
    AscendCat(d, l1, 0, 12, b2);
    AscendCat(d + l1, l2, 0, b2, b3);
    AscendCat(d + l1 + l2, l3, 0, b3, b3 + Span(bs, 3));
    assert Levels(data, bs, n, iblock, 1).pairs == d + l1;
    assert Levels(data, bs, n, iblock, 2).pairs == d + l1 + l2;
    assert Levels(data, bs, n, iblock, 3).pairs == d + l1 + l2 + l3;
  }

  // ---------------------------------------------------------------- the walk

  /** The state the closures of `blockMapExtents` share. */
  class Walker {
    const data: seq<byte>
    const bs: nat
    const n: nat
    const budget: nat
    var used: nat
    var visited: seq<nat>
    var out: seq<Leaf>
    ghost var pairs: seq<Pair>

    constructor (data: seq<byte>, bs: nat, n: nat, budget: nat)
      ensures this.data == data && this.bs == bs && this.n == n && this.budget == budget
      ensures used == 0 && visited == [] && out == [] && pairs == []
    {
      this.data, this.bs, this.n, this.budget := data, bs, n, budget;
      this.used, this.visited, this.out, this.pairs := 0, [], [], [];
    }

    ghost predicate Valid()
      reads this
    {
      bs >= 4 && out == Coalesced(pairs) && Distinct(visited) && |visited| <= used <= budget
    }

    /** However the walk ends: no indirect block read twice, and no more reads than budgeted. */
    ghost predicate Bounded()
      reads this
    {
      Distinct(visited) && |visited| <= budget
    }

    /** Allowed, from where the walk stands. */
    ghost predicate May(t: Trace)
      reads this
    {
      Allowed(data, bs, budget, used, visited, t)
    }

    /** `emit`, charging the entry. */
    method Emit(lbn: nat, phys: nat) returns (ok: bool)
      requires Valid()
      modifies this
      ensures ok <==> old(May(Trace([], [Pair(lbn, phys)])))
      ensures Bounded()
      ensures ok ==> Valid() && used == old(used) + 1 && visited == old(visited) && pairs == old(pairs) + [Pair(lbn, phys)]
    {
      hide Allowed, Coalesced, Distinct;
      EmitAllowed(data, bs, budget, used, visited, lbn, phys);
      used := used + 1;
      if used > budget {
        return false;
      }
      if lbn >= U32 {
        return false;
      }
      CoalescedNext(pairs, Pair(lbn, phys));
      pairs := pairs + [Pair(lbn, phys)];
      var k := |out| - 1;
      if k >= 0 && out[k].count < MAX_COUNT && out[k].phys + out[k].count == phys && out[k].log + out[k].count == lbn {
        out := out[..k] + [out[k].(count := out[k].count + 1)];
        return true;
      }
      out := out + [Leaf(lbn, phys, 1)];
      return true;
    }

    /** Charges and reads an indirect block, refusing one already read. */
    method Enter(blk: nat) returns (ok: bool)
      requires Valid()
      modifies this
      ensures ok <==> old(May(Trace([blk], [])))
      ensures Bounded()
      ensures ok ==> Valid() && used == old(used) + 1 && visited == old(visited) + [blk] && pairs == old(pairs)
    {
      hide Readable, Coalesced;
      ghost var t := Trace([blk], []);
      used := used + 1;
      if used > budget {
        return false;
      }
      if blk in visited {
        Reused(visited, blk);
        return false;
      }
      NewBlock(visited, blk);
      visited := visited + [blk];
      if !(blk * bs + bs <= |data|) {
        Unreadable(data, bs, blk);
        assert !Readable(data, bs, t.visits[0]);
        return false;
      }
      Unreadable(data, bs, blk);
      return true;
    }

    /** `walk`: one indirect block and everything below it. */
    method Walk(level: nat, blk: nat, base: nat) returns (ok: bool)
      requires Valid() && level >= 1
      modifies this
      ensures var t := Sub(data, bs, n, level, blk, base, Ptrs(bs));
              && (ok <==> old(May(t)))
              && Bounded()
              && (ok ==> && Valid() && used == old(used) + |t.visits| + |t.pairs|
                         && visited == old(visited) + t.visits && pairs == old(pairs) + t.pairs)
      decreases level
    {
      hide Readable, Coalesced, Distinct, Allowed, Ptrs, Ptr, Raw, Span, Child;
      ghost var u0, v0, p0 := used, visited, pairs;
      SubStart(data, bs, n, level, blk, base);
      ok := Enter(blk);
      if !ok {
        SubNeeds(data, bs, budget, u0, v0, n, level, blk, base, 0);
        return;
      }
      var buf := Raw(data, bs, blk);
      var i := 0;
      while i < Ptrs(bs)
        invariant 0 <= i <= Ptrs(bs) && Valid()
        invariant At(data, bs, budget, u0, v0, p0, Sub(data, bs, n, level, blk, base, i), used, visited, pairs)
      {
        var lbn := base + i * Span(bs, level - 1);
        if lbn >= n {
          SubStops(data, bs, n, level, blk, base, i, Ptrs(bs));
          return true;
        }
        var p := Ptr(buf, i);
        ghost var t, c := Sub(data, bs, n, level, blk, base, i), Child(data, bs, n, level, blk, base, i);
        ChildIs(data, bs, n, level, blk, base, i);
        AllowedJoin(data, bs, budget, u0, v0, t, c);
        var good := true;
        if p != 0 {
          if level == 1 {
            good := Emit(lbn, p);
          } else {
            good := Walk(level - 1, p, lbn);
          }
        } else {
          NothingAllowed(data, bs, budget, used, visited) by { WithinBudget(data, bs, budget, u0, v0, t); }
        }
        SubNext(data, bs, n, level, blk, base, i);
        if !good {
          SubNeeds(data, bs, budget, u0, v0, n, level, blk, base, i + 1);
          return false;
        }
        AtJoin(data, bs, budget, u0, v0, p0, t, c, used, visited, pairs);
        i := i + 1;
      }
      return true;
    }

    /** The direct entries. */
    method RunDirect(iblock: seq<byte>) returns (ok: bool)
      requires Valid() && |iblock| == 60 && used == 0 && visited == [] && pairs == []
      modifies this
      ensures Bounded()
      ensures ok ==> Valid() && At(data, bs, budget, 0, [], [], Direct(n, iblock, 12), used, visited, pairs)
      ensures !ok ==> !Allowed(data, bs, budget, 0, [], Levels(data, bs, n, iblock, 3))
    {
      hide Readable, Coalesced, Distinct, Allowed, Ptrs, Ptr, Span, Level;
      var i := 0;
      NothingAllowed(data, bs, budget, 0, []);
      while i < 12 && i < n
        invariant 0 <= i <= 12 && Valid()
        invariant At(data, bs, budget, 0, [], [], Direct(n, iblock, i), used, visited, pairs)
      {
        var p := Ptr(iblock, i);
        if p != 0 {
          AllowedJoin(data, bs, budget, 0, [], Direct(n, iblock, i), Trace([], [Pair(i, p)]));
          ok := Emit(i, p);
          if !ok {
            DirectNeeds(data, bs, budget, n, iblock, i + 1, 12);
            LevelsNeed(data, bs, budget, n, iblock, 0);
            return;
          }
          AtJoin(data, bs, budget, 0, [], [], Direct(n, iblock, i), Trace([], [Pair(i, p)]), used, visited, pairs);
        }
        i := i + 1;
      }
      DirectStops(n, iblock, i, 12);
      ok := true;
    }

    /** The direct entries, then the three indirect levels. */
    method Run(iblock: seq<byte>) returns (ok: bool)
      requires Valid() && |iblock| == 60 && used == 0 && visited == [] && pairs == []
      modifies this
      ensures var t := Levels(data, bs, n, iblock, 3);
              && (ok <==> Allowed(data, bs, budget, 0, [], t))
              && Bounded()
              && (ok ==> Valid() && used == |t.visits| + |t.pairs| && visited == t.visits && pairs == t.pairs)
    {
      hide Readable, Coalesced, Distinct, Allowed, Ptrs, Ptr, Raw, Span, Sub, Direct;
      ok := RunDirect(iblock);
      if !ok {
        return;
      }
      var base, level := 12, 1;
      while level <= 3
        invariant 1 <= level <= 4 && Valid() && base == Base(bs, level)
        invariant At(data, bs, budget, 0, [], [], Levels(data, bs, n, iblock, level - 1), used, visited, pairs)
        decreases 4 - level
      {
        if base >= n {
          LevelsStop(data, bs, n, iblock, level);
          return true;
        }
        ghost var t, c := Levels(data, bs, n, iblock, level - 1), Level(data, bs, n, iblock, level);
        AllowedJoin(data, bs, budget, 0, [], t, c);
        var p := Ptr(iblock, 11 + level);
        ok := true;
        if p != 0 {
          ok := Walk(level, p, base);
        } else {
          NothingAllowed(data, bs, budget, used, visited) by { WithinBudget(data, bs, budget, 0, [], t); }
        }
        if !ok {
          LevelsNeed(data, bs, budget, n, iblock, level);
          return;
        }
        AtJoin(data, bs, budget, 0, [], [], t, c, used, visited, pairs);
        base := base + Span(bs, level);
        level := level + 1;
      }
      return true;
    }
  }

  lemma EmitAllowed(data: seq<byte>, bs: nat, budget: nat, used: nat, visited: seq<nat>, lbn: nat, phys: nat)
    requires Distinct(visited)
    ensures Allowed(data, bs, budget, used, visited, Trace([], [Pair(lbn, phys)])) <==> used + 1 <= budget && lbn < U32
  {
    var t := Trace([], [Pair(lbn, phys)]);
    assert visited + t.visits == visited;
    assert t.pairs[0].log == lbn;
  }

  lemma CoalescedNext(ps: seq<Pair>, x: Pair)
    ensures Coalesced(ps + [x]) == EmitStep(Coalesced(ps), x)
  {
    assert (ps + [x])[..|ps|] == ps;
  }

  /** The walk has followed exactly trace t since it started from (u0, v0, p0). */
  ghost predicate At(data: seq<byte>, bs: nat, budget: nat, u0: nat, v0: seq<nat>, p0: seq<Pair>, t: Trace, used: nat, visited: seq<nat>, pairs: seq<Pair>) {
    && Allowed(data, bs, budget, u0, v0, t)
    && used == u0 + |t.visits| + |t.pairs| && visited == v0 + t.visits && pairs == p0 + t.pairs
  }

  lemma AtJoin(data: seq<byte>, bs: nat, budget: nat, u0: nat, v0: seq<nat>, p0: seq<Pair>, t: Trace, c: Trace, used: nat, visited: seq<nat>, pairs: seq<Pair>)
    requires Allowed(data, bs, budget, u0, v0, Join(t, c))
    requires used == u0 + |t.visits| + |t.pairs| + |c.visits| + |c.pairs|
    requires visited == v0 + t.visits + c.visits && pairs == p0 + t.pairs + c.pairs
    ensures At(data, bs, budget, u0, v0, p0, Join(t, c), used, visited, pairs)
  {
    hide Allowed;
    assert v0 + t.visits + c.visits == v0 + (t.visits + c.visits);
    assert p0 + t.pairs + c.pairs == p0 + (t.pairs + c.pairs);
  }

  lemma NothingAllowed(data: seq<byte>, bs: nat, budget: nat, used: nat, visited: seq<nat>)
    requires used <= budget && Distinct(visited)
    ensures Allowed(data, bs, budget, used, visited, NOTHING) && visited + [] == visited
  {
    assert visited + [] == visited;
  }

  lemma WithinBudget(data: seq<byte>, bs: nat, budget: nat, used: nat, visited: seq<nat>, t: Trace)
    requires Allowed(data, bs, budget, used, visited, t)
    ensures used + |t.visits| + |t.pairs| <= budget
  {
  }

  lemma SubStart(data: seq<byte>, bs: nat, n: nat, level: nat, blk: nat, base: nat)
    requires bs >= 4 && level >= 1
    ensures Sub(data, bs, n, level, blk, base, 0) == Trace([blk], [])
  {
  }

  lemma SubNext(data: seq<byte>, bs: nat, n: nat, level: nat, blk: nat, base: nat, i: nat)
    requires bs >= 4 && level >= 1 && i < Ptrs(bs)
    ensures Sub(data, bs, n, level, blk, base, i + 1) == Join(Sub(data, bs, n, level, blk, base, i), Child(data, bs, n, level, blk, base, i))
  {
  }

  lemma ChildIs(data: seq<byte>, bs: nat, n: nat, level: nat, blk: nat, base: nat, i: nat)
    requires bs >= 4 && level >= 1 && i < Ptrs(bs)
    ensures var lbn, p := base + i * Span(bs, level - 1), Ptr(Raw(data, bs, blk), i);
            && (lbn < n && p == 0 ==> Child(data, bs, n, level, blk, base, i) == NOTHING)
            && (lbn < n && p != 0 && level == 1 ==> Child(data, bs, n, level, blk, base, i) == Trace([], [Pair(lbn, p)]))
            && (lbn < n && p != 0 && level > 1 ==> Child(data, bs, n, level, blk, base, i) == Sub(data, bs, n, level - 1, p, lbn, Ptrs(bs)))
  {
  }

  /** A prefix that is not allowed sinks the whole subtree. */
  lemma SubNeeds(data: seq<byte>, bs: nat, budget: nat, used: nat, visited: seq<nat>, n: nat, level: nat, blk: nat, base: nat, i: nat)
    requires bs >= 4 && level >= 1 && i <= Ptrs(bs) && !Allowed(data, bs, budget, used, visited, Sub(data, bs, n, level, blk, base, i))
    ensures !Allowed(data, bs, budget, used, visited, Sub(data, bs, n, level, blk, base, Ptrs(bs)))
  {
    hide Allowed, Sub;
    if Allowed(data, bs, budget, used, visited, Sub(data, bs, n, level, blk, base, Ptrs(bs))) {
      AllowedPrefix(data, bs, budget, used, visited, n, level, blk, base, i, Ptrs(bs));
    }
  }

  lemma {:induction false} DirectNeeds(data: seq<byte>, bs: nat, budget: nat, n: nat, iblock: seq<byte>, i: nat, j: nat)
    requires |iblock| == 60 && i <= j <= 12 && !Allowed(data, bs, budget, 0, [], Direct(n, iblock, i))
    ensures !Allowed(data, bs, budget, 0, [], Direct(n, iblock, j))
    decreases j
  {
    hide Allowed, Ptr;
    if i < j {
      DirectNeeds(data, bs, budget, n, iblock, i, j - 1);
      AllowedJoin(data, bs, budget, 0, [], Direct(n, iblock, j - 1), Trace([], [Pair(j - 1, Ptr(iblock, j - 1))]));
    }
  }

  lemma {:induction false} DirectStops(n: nat, iblock: seq<byte>, i: nat, j: nat)
    requires |iblock| == 60 && i <= j <= 12 && (i == j || i >= n)
    ensures Direct(n, iblock, j) == Direct(n, iblock, i)
    decreases j
  {
    if i < j {
      DirectStops(n, iblock, i, j - 1);
    }
  }

  lemma LevelsNeed(data: seq<byte>, bs: nat, budget: nat, n: nat, iblock: seq<byte>, l: nat)
    requires bs >= 4 && |iblock| == 60 && l <= 3 && !Allowed(data, bs, budget, 0, [], Levels(data, bs, n, iblock, l))
    ensures !Allowed(data, bs, budget, 0, [], Levels(data, bs, n, iblock, 3))
    decreases 3 - l
  {
    hide Allowed, Level;
    if l < 3 {
      AllowedJoin(data, bs, budget, 0, [], Levels(data, bs, n, iblock, l), Level(data, bs, n, iblock, l + 1));
      LevelsNeed(data, bs, budget, n, iblock, l + 1);
    }
  }

  lemma LevelsStop(data: seq<byte>, bs: nat, n: nat, iblock: seq<byte>, level: nat)
    requires bs >= 4 && |iblock| == 60 && 1 <= level <= 3 && Base(bs, level) >= n
    ensures Levels(data, bs, n, iblock, 3) == Levels(data, bs, n, iblock, level - 1)
    decreases 3 - level
  {
    hide Span, Ptr;
    var t := Levels(data, bs, n, iblock, level - 1);
    assert Join(t, NOTHING) == t;
    if level < 3 {
      LevelsStop(data, bs, n, iblock, level + 1);
    }
  }

  lemma Reused(v: seq<nat>, b: nat)
    requires b in v
    ensures !Distinct(v + [b])
  {
    var i :| 0 <= i < |v| && v[i] == b;
    assert (v + [b])[i] == (v + [b])[|v|];
  }

  lemma NewBlock(v: seq<nat>, b: nat)
    requires Distinct(v) && b !in v
    ensures Distinct(v + [b])
  {
  }

  lemma Unreadable(data: seq<byte>, bs: nat, b: nat)
    ensures Readable(data, bs, b) <==> b * bs + bs <= |data|
  {
  }

  /** `blockMapExtents`: fails exactly when the tree breaks a bound; else its leaves are
      tidy and map each block below the size to what the lookup gives. */
  method BlockMapExtents(data: seq<byte>, bs: nat, size: nat, iblock: seq<byte>, budget: nat) returns (ok: bool, out: seq<Leaf>)
    requires |iblock| == 60
    ensures bs < 4 ==> !ok
    ensures bs >= 4 ==> (ok <==> size == 0 || Allowed(data, bs, budget, 0, [], Levels(data, bs, FileBlocks(bs, size), iblock, 3)))
    ensures ok ==> Tidy(out)
    ensures ok ==> forall b: nat, p: nat :: Maps(out, b, p) <==> b < FileBlocks(bs, size) && p != 0 && Lookup(data, bs, iblock, b) == p
  {
    hide Allowed, Tidy, Maps, Lookup, Levels;
    out := [];
    if bs < 4 {
      return false, out;
    }
    if size == 0 {
      NoLeaves();
      NoBlocks(bs);
      return true, out;
    }
    FileBlocksIs(bs, size);
    var nblocks := size / bs;
    if size % bs != 0 {
      nblocks := nblocks + 1;
    }
    var w := new Walker(data, bs, nblocks, budget);
    ok := w.Run(iblock);
    if ok {
      out := w.out;
      ghost var ps := Levels(data, bs, nblocks, iblock, 3).pairs;
      LevelsPairs(data, bs, nblocks, iblock, 0, 0);
      CoalescedIs(ps);
      forall b: nat, p: nat ensures Maps(out, b, p) <==> b < nblocks && p != 0 && Lookup(data, bs, iblock, b) == p {
        LevelsPairs(data, bs, nblocks, iblock, b, p);
      }
    }
  }

  /** Blocks a file of that size spans. */
  function FileBlocks(bs: nat, size: nat): nat
    requires bs > 0
  {
    (size + bs - 1) / bs
  }

  lemma FileBlocksIs(bs: nat, size: nat)
    requires bs > 0
    ensures 0 <= size / bs && FileBlocks(bs, size) == if size % bs != 0 then size / bs + 1 else size / bs
  {
    var q, r := size / bs, size % bs;
    if r != 0 {
      DivModUnique(size + bs - 1, bs, q + 1, r - 1);
    } else {
      DivModUnique(size + bs - 1, bs, q, bs - 1);
    }
  }

  lemma NoBlocks(bs: nat)
    requires bs > 0
    ensures FileBlocks(bs, 0) == 0
  {
    DivModUnique(bs - 1, bs, 0, bs - 1);
  }

  // ---------------------------------------------------------------- reading the data

  function ByteAt(data: seq<byte>, x: nat): byte {
    if x < |data| then data[x] else 0
  }

  /** Byte w of logical block b under a leaf list; holes are zero. */
  function LeafAt(data: seq<byte>, bs: nat, ls: seq<Leaf>, b: nat, w: nat): byte {
    if ls == [] then 0
    else
      var e := ls[|ls| - 1];
      if Covers(e, b) then ByteAt(data, (e.phys + (b - e.log)) * bs + w) else LeafAt(data, bs, ls[..|ls| - 1], b, w)
  }

  function BlockNo(bs: nat, o: nat): nat
    requires bs > 0
  {
    o / bs
  }

  function OffIn(bs: nat, o: nat): nat
    requires bs > 0
  {
    o % bs
  }

  function LeafByte(data: seq<byte>, bs: nat, ls: seq<Leaf>, o: nat): byte
    requires bs > 0
  {
    LeafAt(data, bs, ls, BlockNo(bs, o), OffIn(bs, o))
  }

  /** Byte w of physical block p, where 0 stands for a hole. */
  function PhysByte(data: seq<byte>, bs: nat, p: nat, w: nat): byte {
    if p == 0 then 0 else ByteAt(data, p * bs + w)
  }

  /** Byte o of the file, through the lookup of its block. */
  function MapByte(data: seq<byte>, bs: nat, iblock: seq<byte>, o: nat): byte
    requires bs >= 4 && |iblock| == 60
  {
    PhysByte(data, bs, Lookup(data, bs, iblock, BlockNo(bs, o)), OffIn(bs, o))
  }

  lemma {:induction false} LeafAtHole(data: seq<byte>, bs: nat, ls: seq<Leaf>, b: nat, w: nat)
    requires forall q: nat :: !Maps(ls, b, q)
    ensures LeafAt(data, bs, ls, b, w) == 0
    decreases |ls|
  {
    hide Maps, ByteAt;
    if ls != [] {
      var pre, e := ls[..|ls| - 1], ls[|ls| - 1];
      assert ls == pre + [e];
      forall q: nat ensures !Maps(pre, b, q) { MapsAppend(pre, [e], b, q); }
      LeafAtHole(data, bs, pre, b, w);
      LastMaps(pre, e, b);
    }
  }

  lemma LastMaps(pre: seq<Leaf>, e: Leaf, b: nat)
    ensures Covers(e, b) ==> Maps(pre + [e], b, e.phys + (b - e.log))
  {
    assert (pre + [e])[|pre|] == e;
  }

  lemma {:induction false} LeafAtMapped(data: seq<byte>, bs: nat, ls: seq<Leaf>, b: nat, w: nat, p: nat)
    requires Functional(ls) && Maps(ls, b, p)
    ensures LeafAt(data, bs, ls, b, w) == ByteAt(data, p * bs + w)
    decreases |ls|
  {
    hide Maps, ByteAt;
    if ls == [] {
      NoLeaves();
    } else {
      var pre, e := ls[..|ls| - 1], ls[|ls| - 1];
      assert ls == pre + [e];
      LastMaps(pre, e, b);
      MapsAppend(pre, [e], b, p);
      MapsSingle(e, b, p);
      if !Covers(e, b) {
        forall c: nat, q: nat | Maps(pre, c, q) ensures Maps(ls, c, q) { MapsAppend(pre, [e], c, q); }
        LeafAtMapped(data, bs, pre, b, w, p);
      }
    }
  }

  /** Where a run read lands: byte o of the run is byte o of the file. */
  lemma RunByte(bs: nat, e: Leaf, o: nat)
    requires bs > 0
    ensures Covers(e, BlockNo(bs, o)) <==> e.log * bs <= o < e.log * bs + e.count * bs
    ensures Covers(e, BlockNo(bs, o)) ==> (e.phys + (BlockNo(bs, o) - e.log)) * bs + OffIn(bs, o) == e.phys * bs + (o - e.log * bs)
  {
    hide BlockNo, OffIn;
    var b := BlockNo(bs, o);
    SplitOffset(bs, o);
    assert e.log * bs + e.count * bs == (e.log + e.count) * bs;
    if b < e.log { MulMono(b + 1, e.log, bs); }
    if b >= e.log { MulMono(e.log, b, bs); }
    if b >= e.log + e.count { MulMono(e.log + e.count, b, bs); }
    if b < e.log + e.count { MulMono(b + 1, e.log + e.count, bs); }
  }

  lemma SplitOffset(bs: nat, o: nat)
    requires bs > 0
    ensures o == BlockNo(bs, o) * bs + OffIn(bs, o) && OffIn(bs, o) < bs
  {
  }

  /** A run read that stays inside the image. */
  ghost predicate RunIn(data: seq<byte>, bs: nat, size: nat, e: Leaf) {
    e.log * bs < size ==> e.phys * bs + Min(e.count * bs, size - e.log * bs) <= |data|
  }

  /** Byte o of the file is a hole or inside the image. */
  ghost predicate Present(data: seq<byte>, bs: nat, iblock: seq<byte>, o: nat)
    requires bs >= 4 && |iblock| == 60
  {
    var p := Lookup(data, bs, iblock, BlockNo(bs, o));
    p == 0 || p * bs + OffIn(bs, o) < |data|
  }

  /** `copyLeaves`: one read per run, clipped to the file. */
  method CopyLeaves(data: seq<byte>, bs: nat, leaves: seq<Leaf>, out: array<byte>) returns (ok: bool)
    requires bs > 0 && forall o :: 0 <= o < out.Length ==> out[o] == 0
    modifies out
    ensures ok <==> forall k :: 0 <= k < |leaves| ==> RunIn(data, bs, out.Length, leaves[k])
    ensures ok ==> forall o :: 0 <= o < out.Length ==> out[o] == LeafByte(data, bs, leaves, o)
  {
    hide LeafByte, ByteAt, RunIn;
    var k := 0;
    forall o | 0 <= o < out.Length ensures out[o] == LeafByte(data, bs, leaves[..0], o) { NoLeafByte(data, bs, o); }
    while k < |leaves|
      invariant 0 <= k <= |leaves| && forall i :: 0 <= i < k ==> RunIn(data, bs, out.Length, leaves[i])
      invariant forall o :: 0 <= o < out.Length ==> out[o] == LeafByte(data, bs, leaves[..k], o)
    {
      ok := CopyLeaf(data, bs, leaves, k, out);
      if !ok {
        return;
      }
      k := k + 1;
    }
    assert leaves[..k] == leaves;
    return true;
  }

  lemma NoLeafByte(data: seq<byte>, bs: nat, o: nat)
    requires bs > 0
    ensures forall ls: seq<Leaf> :: LeafByte(data, bs, ls[..0], o) == 0
  {
  }

  method CopyLeaf(data: seq<byte>, bs: nat, leaves: seq<Leaf>, k: nat, out: array<byte>) returns (ok: bool)
    requires bs > 0 && k < |leaves| && forall o :: 0 <= o < out.Length ==> out[o] == LeafByte(data, bs, leaves[..k], o)
    modifies out
    ensures ok <==> RunIn(data, bs, out.Length, leaves[k])
    ensures ok ==> forall o :: 0 <= o < out.Length ==> out[o] == LeafByte(data, bs, leaves[..k + 1], o)
  {
    hide LeafByte;
    var e := leaves[k];
    var logOff := e.log * bs;
    var n := if logOff >= out.Length then 0 else Min(e.count * bs, out.Length - logOff);
    if logOff < out.Length {
      if e.phys * bs + n > |data| {
        return false;
      }
      forall j | logOff <= j < logOff + n { out[j] := data[e.phys * bs + (j - logOff)]; }
    }
    forall o | 0 <= o < out.Length ensures out[o] == LeafByte(data, bs, leaves[..k + 1], o) {
      NextLeafByte(data, bs, leaves, k, o);
    }
    return true;
  }

  lemma NextLeafByte(data: seq<byte>, bs: nat, leaves: seq<Leaf>, k: nat, o: nat)
    requires bs > 0 && k < |leaves|
    ensures var e := leaves[k];
            LeafByte(data, bs, leaves[..k + 1], o)
            == if e.log * bs <= o < e.log * bs + e.count * bs then ByteAt(data, e.phys * bs + (o - e.log * bs)) else LeafByte(data, bs, leaves[..k], o)
  {
    hide BlockNo, OffIn, ByteAt;
    assert leaves[..k + 1][..k] == leaves[..k];
    RunByte(bs, leaves[k], o);
  }

  /** The last byte of a run is the one that decides whether its read stays inside. */
  lemma RunPresent(data: seq<byte>, bs: nat, size: nat, iblock: seq<byte>, leaves: seq<Leaf>, k: nat)
    requires |iblock| == 60 && bs >= 4 && Tidy(leaves) && k < |leaves|
    requires forall b: nat, p: nat :: Maps(leaves, b, p) <==> b < FileBlocks(bs, size) && p != 0 && Lookup(data, bs, iblock, b) == p
    requires !RunIn(data, bs, size, leaves[k])
    ensures exists o :: 0 <= o < size && !Present(data, bs, iblock, o)
  {
    hide Lookup, BlockNo, OffIn, FileBlocks;
    var e := leaves[k];
    MulMono(1, e.count, bs);
    var o := e.log * bs + Min(e.count * bs, size - e.log * bs) - 1;
    RunByte(bs, e, o);
    var b := BlockNo(bs, o);
    assert Maps(leaves, b, e.phys + (b - e.log));
    assert !Present(data, bs, iblock, o);
  }

  lemma BytePresent(data: seq<byte>, bs: nat, size: nat, iblock: seq<byte>, leaves: seq<Leaf>, o: nat)
    requires |iblock| == 60 && bs >= 4 && o < size
    requires forall b: nat, p: nat :: Maps(leaves, b, p) <==> b < FileBlocks(bs, size) && p != 0 && Lookup(data, bs, iblock, b) == p
    requires forall k :: 0 <= k < |leaves| ==> RunIn(data, bs, size, leaves[k])
    ensures Present(data, bs, iblock, o)
  {
    hide Lookup, BlockNo, OffIn, FileBlocks;
    var b := BlockNo(bs, o);
    var p := Lookup(data, bs, iblock, b);
    InFile(bs, size, o);
    if p != 0 {
      assert Maps(leaves, b, p);
      var e :| e in leaves && Covers(e, b) && p == e.phys + (b - e.log);
      RunByte(bs, e, o);
      assert RunIn(data, bs, size, e);
    }
  }

  /** `blockMapData`: the file's bytes, block by block, with holes as zeros. */
  method BlockMapData(data: seq<byte>, bs: nat, size: nat, iblock: seq<byte>, budget: nat, max: nat) returns (ok: bool, out: array<byte>)
    requires |iblock| == 60 && bs >= 4
    ensures ok <==> && size <= max
                    && (size == 0 || Allowed(data, bs, budget, 0, [], Levels(data, bs, FileBlocks(bs, size), iblock, 3)))
                    && forall o :: 0 <= o < size ==> Present(data, bs, iblock, o)
    ensures ok ==> out.Length == size <= max && forall o :: 0 <= o < size ==> out[o] == MapByte(data, bs, iblock, o)
  {
    hide LeafByte, MapByte, Tidy, Maps, Allowed, Lookup, Levels, Present, RunIn, FileBlocks;
    if size > max {
      out := new byte[0];
      return false, out;
    }
    out := new byte[size](_ => 0);
    if size == 0 {
      return true, out;
    }
    var leaves;
    ok, leaves := BlockMapExtents(data, bs, size, iblock, budget);
    if !ok {
      return;
    }
    ok := CopyLeaves(data, bs, leaves, out);
    if ok {
      forall o | 0 <= o < size ensures out[o] == MapByte(data, bs, iblock, o) && Present(data, bs, iblock, o) {
        LeafIsMap(data, bs, size, iblock, leaves, o);
        BytePresent(data, bs, size, iblock, leaves, o);
      }
    } else {
      ghost var k :| 0 <= k < |leaves| && !RunIn(data, bs, size, leaves[k]);
      RunPresent(data, bs, size, iblock, leaves, k);
    }
  }

  lemma LeafIsMap(data: seq<byte>, bs: nat, size: nat, iblock: seq<byte>, leaves: seq<Leaf>, o: nat)
    requires |iblock| == 60 && bs >= 4 && o < size && Tidy(leaves)
    requires forall b: nat, p: nat :: Maps(leaves, b, p) <==> b < FileBlocks(bs, size) && p != 0 && Lookup(data, bs, iblock, b) == p
    ensures LeafByte(data, bs, leaves, o) == MapByte(data, bs, iblock, o)
  {
    hide Lookup, Maps, BlockNo, OffIn, FileBlocks, LeafAt;
    var b, w := BlockNo(bs, o), OffIn(bs, o);
    var p := Lookup(data, bs, iblock, b);
    InFile(bs, size, o);
    if p == 0 {
      LeafAtHole(data, bs, leaves, b, w);
    } else {
      SortedIsFunctional(leaves);
      LeafAtMapped(data, bs, leaves, b, w, p);
    }
  }

  lemma InFile(bs: nat, size: nat, o: nat)
    requires bs > 0 && o < size
    ensures BlockNo(bs, o) < FileBlocks(bs, size)
  {
    var q := (size + bs - 1) / bs;
    if o / bs >= q {
      MulMono(q, o / bs, bs);
    }
  }
}
