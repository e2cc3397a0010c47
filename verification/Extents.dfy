/** Extent leaves: runs of logically and physically consecutive blocks, and the
    list operations the driver performs on them. */
module Extents {
  import opened Bytes

  /** Blocks [log, log + count) of the file live in blocks [phys, phys + count) of the image. */
  datatype Leaf = Leaf(log: nat, phys: nat, count: nat)

  const MAX_RUN: nat := 0x7FFF

  // ---------------------------------------------------------------- the map a list denotes

  predicate Covers(l: Leaf, b: nat) {
    l.log <= b < l.log + l.count
  }

  /** Logical block b is stored in physical block p. */
  ghost predicate Maps(ls: seq<Leaf>, b: nat, p: nat) {
    exists l :: l in ls && Covers(l, b) && p == l.phys + (b - l.log)
  }

  ghost predicate Mapped(ls: seq<Leaf>, b: nat) {
    exists p: nat :: Maps(ls, b, p)
  }

  ghost predicate Functional(ls: seq<Leaf>) {
    forall b: nat, p: nat, q: nat :: Maps(ls, b, p) && Maps(ls, b, q) ==> p == q
  }

  ghost predicate Injective(ls: seq<Leaf>) {
    forall b: nat, c: nat, p: nat :: Maps(ls, b, p) && Maps(ls, c, p) ==> b == c
  }

  ghost predicate SameMap(ls: seq<Leaf>, ms: seq<Leaf>) {
    forall b: nat, p: nat :: Maps(ls, b, p) <==> Maps(ms, b, p)
  }

  /** Where block b is stored, for a list that maps each block at most once. */
  ghost function Phys(ls: seq<Leaf>, b: nat): (r: Option<nat>)
    ensures r.Some? ==> Maps(ls, b, r.value)
    ensures r.None? ==> !Mapped(ls, b)
  {
    if Mapped(ls, b) then
      var p: nat :| Maps(ls, b, p);
      Some(p)
    else None
  }

  /** The physical blocks of one run, in order. */
  function Run(l: Leaf): (r: seq<nat>)
    ensures |r| == l.count
    ensures forall p :: p in r <==> l.phys <= p < l.phys + l.count
  {
    var r := seq(l.count, k requires 0 <= k => l.phys + k);
    assert forall p | l.phys <= p < l.phys + l.count :: p in r by {
      forall p | l.phys <= p < l.phys + l.count ensures p in r { assert r[p - l.phys] == p; }
    }
    r
  }

  /** The physical blocks a list occupies. */
  ghost function Blocks(ls: seq<Leaf>): (s: set<nat>)
    ensures forall p :: p in s <==> exists b: nat :: Maps(ls, b, p)
  {
    if ls == [] then {}
    else
      var l := ls[0];
      var s := (set p | p in Run(l)) + Blocks(ls[1..]);
      assert forall p: nat :: p in s <==> exists b: nat :: Maps(ls, b, p) by {
        forall p: nat ensures p in s <==> exists b: nat :: Maps(ls, b, p) {
          BlocksStep(ls, p);
        }
      }
      s
  }

  lemma BlocksStep(ls: seq<Leaf>, p: nat)
    requires ls != []
    ensures (exists b: nat :: Maps(ls, b, p))
       <==> (ls[0].phys <= p < ls[0].phys + ls[0].count || exists b: nat :: Maps(ls[1..], b, p))
  {
    var l := ls[0];
    if b: nat :| Maps(ls, b, p) {
      var m :| m in ls && Covers(m, b) && p == m.phys + (b - m.log);
      if m != l {
        assert m in ls[1..];
        assert Maps(ls[1..], b, p);
      }
    }
    if l.phys <= p < l.phys + l.count {
      assert Maps(ls, l.log + (p - l.phys), p) by { assert l in ls; }
    }
    if b: nat :| Maps(ls[1..], b, p) {
      assert Maps(ls, b, p);
    }
  }

  // ---------------------------------------------------------------- sorted maps

  /** Ascending, non-empty, logically disjoint leaves: what binary search needs. */
  ghost predicate SortedMap(ls: seq<Leaf>) {
    && (forall i :: 0 <= i < |ls| ==> ls[i].count >= 1)
    && (forall i, j :: 0 <= i < j < |ls| ==> ls[i].log + ls[i].count <= ls[j].log)
  }

  lemma SortedIsFunctional(ls: seq<Leaf>)
    requires SortedMap(ls)
    ensures Functional(ls)
  {
    forall b: nat, p: nat, q: nat | Maps(ls, b, p) && Maps(ls, b, q)
      ensures p == q
    {
      var l :| l in ls && Covers(l, b) && p == l.phys + (b - l.log);
      var m :| m in ls && Covers(m, b) && q == m.phys + (b - m.log);
      var i :| 0 <= i < |ls| && ls[i] == l;
      var j :| 0 <= j < |ls| && ls[j] == m;
    }
  }

  // ---------------------------------------------------------------- sorting and overlap

  datatype Axis = Logical | Physical

  function Start(ax: Axis, l: Leaf): nat {
    match ax case Logical => l.log case Physical => l.phys
  }

  /** Two leaves do not overlap along an axis; an empty leaf overlaps nothing. */
  predicate Apart(ax: Axis, a: Leaf, b: Leaf) {
    || a.count == 0 || b.count == 0
    || Start(ax, a) + a.count <= Start(ax, b)
    || Start(ax, b) + b.count <= Start(ax, a)
  }

  /** No two leaves of the list overlap along the axis. */
  predicate AllApart(ax: Axis, ls: seq<Leaf>) {
    forall i, j :: 0 <= i < j < |ls| ==> Apart(ax, ls[i], ls[j])
  }

  /** No leaf of one list overlaps one of the other. */
  ghost predicate Across(ax: Axis, a: seq<Leaf>, b: seq<Leaf>) {
    forall x, y :: x in a && y in b ==> Apart(ax, x, y)
  }

  ghost predicate ApartFrom(ax: Axis, x: Leaf, s: seq<Leaf>) {
    forall y :: y in s ==> Apart(ax, x, y)
  }

  lemma AllApartHead(ax: Axis, ls: seq<Leaf>)
    requires ls != []
    ensures AllApart(ax, ls) <==> ApartFrom(ax, ls[0], ls[1..]) && AllApart(ax, ls[1..])
  {
    var t := ls[1..];
    if AllApart(ax, ls) {
      forall i, j | 0 <= i < j < |t| ensures Apart(ax, t[i], t[j]) {
        assert t[i] == ls[i + 1] && t[j] == ls[j + 1];
      }
    }
    if ApartFrom(ax, ls[0], t) && AllApart(ax, t) {
      forall i, j | 0 <= i < j < |ls| ensures Apart(ax, ls[i], ls[j]) {
        assert ls[j] == t[j - 1];
        if i > 0 { assert ls[i] == t[i - 1]; }
      }
    }
  }

  function Insert(ax: Axis, x: Leaf, s: seq<Leaf>): (r: seq<Leaf>)
    ensures |r| == |s| + 1
    ensures forall y :: y in r <==> y == x || y in s
  {
    if s == [] || Start(ax, x) <= Start(ax, s[0]) then [x] + s
    else
      assert s == [s[0]] + s[1..];
      [s[0]] + Insert(ax, x, s[1..])
  }

  /** `sort.Slice` by a leaf's start along an axis. */
  function Sort(ax: Axis, ls: seq<Leaf>): (r: seq<Leaf>)
    ensures |r| == |ls|
    ensures forall y :: y in r <==> y in ls
  {
    if ls == [] then []
    else
      assert ls == [ls[0]] + ls[1..];
      Insert(ax, ls[0], Sort(ax, ls[1..]))
  }

  ghost predicate Ascending(ax: Axis, ls: seq<Leaf>) {
    forall i, j :: 0 <= i < j < |ls| ==> Start(ax, ls[i]) <= Start(ax, ls[j])
  }

  /** Sorting a list that is already in order changes nothing. */
  lemma {:induction false} SortAscending(ax: Axis, ls: seq<Leaf>)
    requires Ascending(ax, ls)
    ensures Sort(ax, ls) == ls
  {
    if ls != [] {
      SortAscending(ax, ls[1..]);
      assert ls == [ls[0]] + ls[1..];
    }
  }

  lemma {:induction false} InsertAscending(key: Axis, x: Leaf, s: seq<Leaf>)
    requires Ascending(key, s)
    ensures Ascending(key, Insert(key, x, s))
  {
    if s != [] && Start(key, x) > Start(key, s[0]) {
      var t := s[1..];
      assert Ascending(key, t) by {
        forall i, j | 0 <= i < j < |t| ensures Start(key, t[i]) <= Start(key, t[j]) {
          assert t[i] == s[i + 1] && t[j] == s[j + 1];
        }
      }
      InsertAscending(key, x, t);
      var u := Insert(key, x, t);
      forall y | y in u ensures Start(key, s[0]) <= Start(key, y) {
        if y != x { var k :| 0 <= k < |t| && t[k] == y; assert y == s[k + 1]; }
      }
    }
  }

  lemma ApartFromInsert(ax: Axis, key: Axis, z: Leaf, x: Leaf, s: seq<Leaf>)
    ensures ApartFrom(ax, z, Insert(key, x, s)) <==> Apart(ax, z, x) && ApartFrom(ax, z, s)
  {
    assert x in Insert(key, x, s);
  }

  lemma {:induction false} InsertApart(ax: Axis, key: Axis, x: Leaf, s: seq<Leaf>)
    ensures AllApart(ax, Insert(key, x, s)) <==> ApartFrom(ax, x, s) && AllApart(ax, s)
  {
    var r := Insert(key, x, s);
    AllApartHead(ax, r);
    if s == [] || Start(key, x) <= Start(key, s[0]) {
      assert r[1..] == s;
    } else {
      var h, t := s[0], s[1..];
      InsertApart(ax, key, x, t);
      assert r[0] == h && r[1..] == Insert(key, x, t);
      AllApartHead(ax, s);
      ApartFromInsert(ax, key, h, x, t);
      assert ApartFrom(ax, x, s) <==> Apart(ax, x, h) && ApartFrom(ax, x, t) by {
        assert s == [h] + t;
      }
    }
  }

  /** Sorting orders the leaves and neither creates nor hides an overlap. */
  lemma {:induction false} SortProps(ax: Axis, key: Axis, ls: seq<Leaf>)
    ensures Ascending(key, Sort(key, ls))
    ensures AllApart(ax, Sort(key, ls)) <==> AllApart(ax, ls)
  {
    if ls != [] {
      SortProps(ax, key, ls[1..]);
      InsertAscending(key, ls[0], Sort(key, ls[1..]));
      InsertApart(ax, key, ls[0], Sort(key, ls[1..]));
      AllApartHead(ax, ls);
    }
  }

  lemma SortSameMap(ls: seq<Leaf>)
    ensures SameMap(ls, Sort(Logical, ls))
  {
    forall b: nat, p: nat ensures Maps(ls, b, p) <==> Maps(Sort(Logical, ls), b, p) {
    }
  }

  // ---------------------------------------------------------------- binary search (open.go, writeat.go)

  function LeafEnd(l: Leaf): nat { l.log + l.count }

  /** Starts and ends in order and no overlap; empty leaves are allowed. */
  ghost predicate Searchable(ls: seq<Leaf>) {
    && (forall i, j :: 0 <= i < j < |ls| ==> ls[i].log <= ls[j].log && LeafEnd(ls[i]) <= LeafEnd(ls[j]))
    && AllApart(Logical, ls)
  }

  lemma SortedIsSearchable(ls: seq<Leaf>)
    requires SortedMap(ls)
    ensures Searchable(ls)
  {
  }

  /** The probes of `sort.Search` between i and j. */
  function Bisect(ls: seq<Leaf>, b: nat, i: nat, j: nat): (r: nat)
    requires i <= j <= |ls|
    ensures i <= r <= j
    decreases j - i
  {
    if i == j then i
    else
      var h := (i + j) / 2;
      if LeafEnd(ls[h]) <= b then Bisect(ls, b, h + 1, j) else Bisect(ls, b, i, h)
  }

  /** `sort.Search` over the leaf ends. On any list the leaf found ends after block b
      and the one before it does not; on a searchable one it is the first such leaf
      and decides the block. */
  method SearchLeaf(ls: seq<Leaf>, b: nat) returns (i: nat)
    ensures i <= |ls| && i == Bisect(ls, b, 0, |ls|)
    ensures i < |ls| ==> b < LeafEnd(ls[i])
    ensures i > 0 ==> LeafEnd(ls[i - 1]) <= b
    ensures Searchable(ls) ==> forall k :: 0 <= k < i ==> LeafEnd(ls[k]) <= b
    ensures Searchable(ls) ==> forall p: nat :: Maps(ls, b, p) <==> i < |ls| && Covers(ls[i], b) && p == ls[i].phys + (b - ls[i].log)
  {
    hide Searchable, Maps, Covers, Bisect, LeafEnd;
    i := 0;
    var j := |ls|;
    while i < j
      invariant 0 <= i <= j <= |ls| && Bisect(ls, b, 0, |ls|) == Bisect(ls, b, i, j)
      invariant i > 0 ==> LeafEnd(ls[i - 1]) <= b
      invariant j < |ls| ==> b < LeafEnd(ls[j])
    {
      var h := (i + j) / 2;
      Probe(ls, b, i, j);
      if !(ls[h].log + ls[h].count > b) {
        i := h + 1;
      } else {
        j := h;
      }
    }
    NothingLeft(ls, b, i);
    if Searchable(ls) { SearchDecides(ls, b, i); }
  }

  lemma Probe(ls: seq<Leaf>, b: nat, i: nat, j: nat)
    requires i < j <= |ls|
    ensures var h := (i + j) / 2;
            LeafEnd(ls[h]) == ls[h].log + ls[h].count
            && Bisect(ls, b, i, j) == if LeafEnd(ls[h]) <= b then Bisect(ls, b, h + 1, j) else Bisect(ls, b, i, h)
  {
  }

  lemma NothingLeft(ls: seq<Leaf>, b: nat, i: nat)
    requires i <= |ls|
    ensures Bisect(ls, b, i, i) == i
  {
  }

  /** The leaf a search stops at decides the block: covered by it, or a hole. */
  lemma SearchDecides(ls: seq<Leaf>, b: nat, i: nat)
    requires Searchable(ls) && i <= |ls|
    requires i > 0 ==> LeafEnd(ls[i - 1]) <= b
    requires i < |ls| ==> b < LeafEnd(ls[i])
    ensures forall k :: 0 <= k < i ==> LeafEnd(ls[k]) <= b
    ensures forall p: nat :: Maps(ls, b, p) <==> i < |ls| && Covers(ls[i], b) && p == ls[i].phys + (b - ls[i].log)
  {
    hide Maps, Covers;
    forall k | 0 <= k < i ensures LeafEnd(ls[k]) <= b {
      assert k < i - 1 ==> LeafEnd(ls[k]) <= LeafEnd(ls[i - 1]);
    }
    forall p: nat
      ensures Maps(ls, b, p) <==> i < |ls| && Covers(ls[i], b) && p == ls[i].phys + (b - ls[i].log)
    {
      StopDecides(ls, b, i, p);
    }
  }

  lemma StopDecides(ls: seq<Leaf>, b: nat, i: nat, p: nat)
    requires Searchable(ls) && i <= |ls| && forall k :: 0 <= k < i ==> LeafEnd(ls[k]) <= b
    requires i < |ls| ==> b < LeafEnd(ls[i])
    ensures Maps(ls, b, p) <==> i < |ls| && Covers(ls[i], b) && p == ls[i].phys + (b - ls[i].log)
  {
    if Maps(ls, b, p) {
      var l :| l in ls && Covers(l, b) && p == l.phys + (b - l.log);
      var k :| 0 <= k < |ls| && ls[k] == l;
      assert k >= i;
      assert k > i ==> ls[i].log <= ls[k].log && Apart(Logical, ls[i], ls[k]);
    }
    if i < |ls| && Covers(ls[i], b) {
      assert ls[i] in ls;
    }
  }

  /** An empty leaf inside another puts the ends out of order, and the search then
      misses a mapped block. */
  lemma EmptyLeafHides(p: nat, q: nat)
    ensures var ls := [Leaf(3, q, 4), Leaf(5, p, 0)];
            AllApart(Logical, ls) && Ascending(Logical, ls) && Bisect(ls, 6, 0, 2) == 2 && Maps(ls, 6, q + 3)
  {
    var ls := [Leaf(3, q, 4), Leaf(5, p, 0)];
    assert ls[0] in ls && Covers(ls[0], 6);
    assert Bisect(ls, 6, 2, 2) == 2;
  }

  // ---------------------------------------------------------------- overlap check (limits.go)

  function NonEmpty(ls: seq<Leaf>): (r: seq<Leaf>)
    ensures forall y :: y in r <==> y in ls && y.count != 0
  {
    if ls == [] then []
    else
      assert ls == ls[..|ls| - 1] + [ls[|ls| - 1]];
      var t := NonEmpty(ls[..|ls| - 1]);
      if ls[|ls| - 1].count != 0 then t + [ls[|ls| - 1]] else t
  }

  /** Skipping empty leaves does not change whether leaves overlap. */
  lemma {:induction false} NonEmptyApart(ax: Axis, ls: seq<Leaf>)
    ensures AllApart(ax, NonEmpty(ls)) <==> AllApart(ax, ls)
  {
    hide AllApart, ApartFrom, Apart;
    if ls != [] {
      var n := |ls| - 1;
      var pre, x := ls[..n], ls[n];
      NonEmptyApart(ax, pre);
      AllApartLast(ax, pre, x);
      AllApartLast(ax, NonEmpty(pre), x);
      ApartNonEmpty(ax, x, pre);
      assert ls == pre + [x];
    }
  }

  /** Empty leaves are apart from everything. */
  lemma ApartNonEmpty(ax: Axis, x: Leaf, pre: seq<Leaf>)
    ensures ApartFrom(ax, x, NonEmpty(pre)) <==> ApartFrom(ax, x, pre)
    ensures x.count == 0 ==> ApartFrom(ax, x, pre)
  {
    hide NonEmpty;
    if ApartFrom(ax, x, NonEmpty(pre)) {
      forall y | y in pre ensures Apart(ax, x, y) {
        if y.count != 0 { assert y in NonEmpty(pre); }
      }
    }
  }

  lemma AllApartLast(ax: Axis, pre: seq<Leaf>, x: Leaf)
    ensures AllApart(ax, pre + [x]) <==> ApartFrom(ax, x, pre) && AllApart(ax, pre)
  {
    var ls := pre + [x];
    if AllApart(ax, ls) {
      forall y | y in pre ensures Apart(ax, x, y) {
        var i :| 0 <= i < |pre| && pre[i] == y;
        assert ls[i] == y && ls[|pre|] == x;
      }
      forall i, j | 0 <= i < j < |pre| ensures Apart(ax, pre[i], pre[j]) {
        assert ls[i] == pre[i] && ls[j] == pre[j];
      }
    }
    if ApartFrom(ax, x, pre) && AllApart(ax, pre) {
      forall i, j | 0 <= i < j < |ls| ensures Apart(ax, ls[i], ls[j]) {
        assert ls[i] == pre[i] && ls[i] in pre;
        assert j < |pre| ==> ls[j] == pre[j];
      }
    }
  }

  /** The allocation-free pass: leaves already ascending along the axis. */
  method InOrder(leaves: seq<Leaf>, ax: Axis) returns (ordered: bool)
    ensures ordered ==> AllApart(ax, leaves)
  {
    var prevEnd, have := 0, false;
    var n := 0;
    while n < |leaves|
      invariant n <= |leaves|
      invariant forall k :: 0 <= k < n && leaves[k].count != 0 ==> have && Start(ax, leaves[k]) + leaves[k].count <= prevEnd
      invariant forall i, j :: 0 <= i < j < n ==> Apart(ax, leaves[i], leaves[j])
    {
      var l := leaves[n];
      if l.count != 0 {
        var s := Start(ax, l);
        if have && s < prevEnd {
          return false;
        }
        prevEnd, have := s + l.count, true;
      }
      n := n + 1;
    }
    return true;
  }

  /** One axis of the overlap check: an in-order pass, then a sort of a copy and
      an adjacent comparison. */
  method CheckRuns(leaves: seq<Leaf>, ax: Axis) returns (ok: bool)
    ensures ok <==> AllApart(ax, leaves)
  {
    var ordered := InOrder(leaves, ax);
    if ordered {
      return true;
    }
    var cp := Sort(ax, NonEmpty(leaves));
    SortProps(ax, ax, NonEmpty(leaves));
    NonEmptyApart(ax, leaves);
    ok := AdjacentPass(cp, ax);
  }

  /** The comparison of neighbours in a sorted copy without empty leaves. */
  method AdjacentPass(cp: seq<Leaf>, ax: Axis) returns (ok: bool)
    requires Ascending(ax, cp)
    requires forall y :: y in cp ==> y.count != 0
    ensures ok <==> AllApart(ax, cp)
  {
    var i := 1;
    while i < |cp|
      invariant 1 <= i
      invariant forall k :: 1 <= k < i && k < |cp| ==> Start(ax, cp[k - 1]) + cp[k - 1].count <= Start(ax, cp[k])
    {
      if Start(ax, cp[i]) < Start(ax, cp[i - 1]) + cp[i - 1].count {
        assert cp[i] in cp;
        assert !Apart(ax, cp[i - 1], cp[i]);
        return false;
      }
      i := i + 1;
    }
    AdjacentApart(ax, cp);
    return true;
  }

  lemma AdjacentApart(ax: Axis, cp: seq<Leaf>)
    requires Ascending(ax, cp)
    requires forall k :: 1 <= k < |cp| ==> Start(ax, cp[k - 1]) + cp[k - 1].count <= Start(ax, cp[k])
    ensures AllApart(ax, cp)
  {
    forall i, j | 0 <= i < j < |cp| ensures Apart(ax, cp[i], cp[j]) {
      assert Start(ax, cp[i + 1 - 1]) + cp[i + 1 - 1].count <= Start(ax, cp[i + 1]);
    }
  }

  /** `validateExtents` accepts a list exactly when no two non-empty leaves overlap,
      logically or physically. */
  method ValidateExtents(leaves: seq<Leaf>) returns (ok: bool)
    ensures ok <==> AllApart(Logical, leaves) && AllApart(Physical, leaves)
  {
    if |leaves| < 2 {
      return true;
    }
    ok := CheckRuns(leaves, Logical);
    if ok {
      ok := CheckRuns(leaves, Physical);
    }
  }

  /** A sorted map that never stores two logical blocks in one physical block passes the check. */
  lemma SortedInjectiveApart(ls: seq<Leaf>)
    requires SortedMap(ls) && Injective(ls)
    ensures AllApart(Logical, ls) && AllApart(Physical, ls)
  {
    forall i, j | 0 <= i < j < |ls| ensures Apart(Physical, ls[i], ls[j]) {
      var a, b := ls[i], ls[j];
      if !Apart(Physical, a, b) {
        var p := Max(a.phys, b.phys);
        assert Maps(ls, a.log + (p - a.phys), p) by { assert a in ls; }
        assert Maps(ls, b.log + (p - b.phys), p) by { assert b in ls; }
        assert false;
      }
    }
  }

  /** Conversely a list that passes it, once sorted, is a sorted injective map. */
  lemma ApartSorted(ls: seq<Leaf>)
    requires AllApart(Logical, ls) && AllApart(Physical, ls)
    requires forall i :: 0 <= i < |ls| ==> ls[i].count >= 1
    ensures SortedMap(Sort(Logical, ls)) && Injective(Sort(Logical, ls))
  {
    var s := Sort(Logical, ls);
    SortProps(Logical, Logical, ls);
    SortProps(Physical, Logical, ls);
    forall i | 0 <= i < |s| ensures s[i].count >= 1 {
      assert s[i] in ls;
    }
    ApartIsInjective(s);
  }

  lemma ApartIsInjective(s: seq<Leaf>)
    requires AllApart(Physical, s)
    ensures Injective(s)
  {
    hide AllApart, Maps;
    forall b: nat, c: nat, p: nat | Maps(s, b, p) && Maps(s, c, p) ensures b == c {
      ApartOnce(s, b, c, p);
    }
  }

  lemma ApartOnce(s: seq<Leaf>, b: nat, c: nat, p: nat)
    requires AllApart(Physical, s) && Maps(s, b, p) && Maps(s, c, p)
    ensures b == c
  {
    var l :| l in s && Covers(l, b) && p == l.phys + (b - l.log);
    var m :| m in s && Covers(m, c) && p == m.phys + (c - m.log);
    var i :| 0 <= i < |s| && s[i] == l;
    var j :| 0 <= j < |s| && s[j] == m;
  }

  // ---------------------------------------------------------------- coalescing (writeat.go)

  predicate Adjacent(last: Leaf, e: Leaf) {
    && last.log + last.count == e.log
    && last.phys + last.count == e.phys
    && last.count + e.count <= MAX_RUN
  }

  function MergeStep(out: seq<Leaf>, e: Leaf): seq<Leaf> {
    if out != [] && Adjacent(out[|out| - 1], e) then
      out[..|out| - 1] + [out[|out| - 1].(count := out[|out| - 1].count + e.count)]
    else out + [e]
  }

  /** Folding each leaf into its predecessor when the two are adjacent. */
  function Merge(s: seq<Leaf>): (r: seq<Leaf>)
    ensures |r| <= |s|
    ensures s != [] ==> r != []
  {
    if s == [] then [] else MergeStep(Merge(s[..|s| - 1]), s[|s| - 1])
  }

  /** `coalesceExtents`: sorts, then compacts the array over itself. */
  method CoalesceExtents(a: array<Leaf>) returns (m: nat)
    modifies a
    ensures m <= a.Length
    ensures a[..m] == Merge(Sort(Logical, old(a[..])))
  {
    hide Sort, Merge, MergeStep, Adjacent;
    if a.Length < 2 {
      ShortMerge(a[..]);
      return a.Length;
    }
    var s := Sort(Logical, a[..]);
    forall i | 0 <= i < a.Length { a[i] := s[i]; }
    assert a[..] == s;
    m := 1;
    MergeFirst(s);
    var i := 1;
    while i < a.Length
      invariant 1 <= m <= i <= a.Length
      invariant a[..m] == Merge(s[..i])
      invariant a[i..] == s[i..]
    {
      var e := a[i];
      assert e == s[i] by { assert e == a[i..][0]; }
      ghost var done := a[..m];
      MergeNext(s, i);
      StepIs(done, e);
      var last := a[m - 1];
      assert done[m - 1] == last;
      assert a[i + 1..] == s[i + 1..] by { assert a[i + 1..] == a[i..][1..]; }
      if Adjacent(last, e) {
        a[m - 1] := last.(count := last.count + e.count);
        assert a[..m] == done[..m - 1] + [a[m - 1]];
      } else {
        a[m] := e;
        m := m + 1;
        assert a[..m] == done + [e];
      }
      i := i + 1;
    }
    assert s[..i] == s;
  }

  lemma StepIs(out: seq<Leaf>, e: Leaf)
    requires out != []
    ensures var n := |out| - 1;
            MergeStep(out, e) == if Adjacent(out[n], e) then out[..n] + [out[n].(count := out[n].count + e.count)] else out + [e]
  {
  }

  /** Fewer than two leaves are their own coalesced form. */
  lemma ShortMerge(s: seq<Leaf>)
    requires |s| < 2
    ensures Merge(Sort(Logical, s)) == s[..|s|]
  {
    if |s| == 1 {
      SortAscending(Logical, s);
      MergeFirst(s);
    }
  }

  lemma MergeFirst(s: seq<Leaf>)
    requires s != []
    ensures Merge(s[..1]) == s[..1]
  {
    assert s[..1] == [s[0]] && s[..1][..0] == [];
  }

  lemma MergeNext(s: seq<Leaf>, i: nat)
    requires i < |s|
    ensures Merge(s[..i + 1]) == MergeStep(Merge(s[..i]), s[i])
  {
    assert s[..i + 1][..i] == s[..i] && s[..i + 1][i] == s[i];
  }

  predicate ShortRuns(ls: seq<Leaf>) {
    forall i :: 0 <= i < |ls| ==> 1 <= ls[i].count <= 0x8000
  }

  lemma MapsAppend(ls: seq<Leaf>, ms: seq<Leaf>, b: nat, p: nat)
    ensures Maps(ls + ms, b, p) <==> Maps(ls, b, p) || Maps(ms, b, p)
  {
  }

  lemma MapsSingle(l: Leaf, b: nat, p: nat)
    ensures Maps([l], b, p) <==> Covers(l, b) && p == l.phys + (b - l.log)
  {
    assert l in [l];
  }

  lemma MergeStepMaps(out: seq<Leaf>, e: Leaf)
    ensures SameMap(MergeStep(out, e), out + [e])
  {
    forall b: nat, p: nat
      ensures Maps(MergeStep(out, e), b, p) <==> Maps(out + [e], b, p)
    {
      MapsAppend(out, [e], b, p);
      if out != [] && Adjacent(out[|out| - 1], e) {
        var n := |out| - 1;
        var last := out[n];
        var fat := last.(count := last.count + e.count);
        assert out == out[..n] + [last];
        MapsAppend(out[..n], [last], b, p);
        MapsAppend(out[..n], [fat], b, p);
        MapsSingle(last, b, p);
        MapsSingle(e, b, p);
        MapsSingle(fat, b, p);
      }
    }
  }

  lemma {:induction false} MergeSameMap(s: seq<Leaf>)
    ensures SameMap(Merge(s), s)
  {
    if s != [] {
      var n := |s| - 1;
      var pre, e := s[..n], s[n];
      assert s == pre + [e];
      MergeSameMap(pre);
      var out := Merge(pre);
      MergeStepMaps(out, e);
      forall b: nat, p: nat ensures Maps(Merge(s), b, p) <==> Maps(s, b, p) {
        MapsAppend(out, [e], b, p);
        MapsAppend(pre, [e], b, p);
        assert Maps(out, b, p) <==> Maps(pre, b, p);
        assert Maps(Merge(s), b, p) <==> Maps(out + [e], b, p);
      }
    }
  }

  lemma MergeStepSorted(out: seq<Leaf>, e: Leaf)
    requires SortedMap(out) && End(out) <= e.log && e.count >= 1
    ensures SortedMap(MergeStep(out, e)) && End(MergeStep(out, e)) == e.log + e.count
    ensures ShortRuns(out) && e.count <= 0x8000 ==> ShortRuns(MergeStep(out, e))
  {
    var r := MergeStep(out, e);
    if out != [] {
      var n := |out| - 1;
      forall i | 0 <= i < |out| ensures out[i].log + out[i].count <= e.log {
        if i < n { assert out[i].log + out[i].count <= out[n].log; }
      }
    }
  }

  /** Compaction keeps the order and the run limit of the on-disk field. */
  lemma {:induction false} MergeSorted(s: seq<Leaf>)
    requires SortedMap(s)
    ensures SortedMap(Merge(s)) && End(Merge(s)) == End(s)
    ensures ShortRuns(s) ==> ShortRuns(Merge(s))
  {
    hide SortedMap, ShortRuns, End, MergeStep;
    if s == [] {
      EmptySorted();
    } else {
      var n := |s| - 1;
      SortedFront(s);
      MergeSorted(s[..n]);
      MergeStepSorted(Merge(s[..n]), s[n]);
    }
  }

  lemma EmptySorted()
    ensures SortedMap([]) && ShortRuns([]) && Merge([]) == []
  {
  }

  /** What dropping the last leaf of a sorted list leaves. */
  lemma SortedFront(s: seq<Leaf>)
    requires SortedMap(s) && s != []
    ensures var n := |s| - 1;
            && SortedMap(s[..n]) && End(s[..n]) <= s[n].log && s[n].count >= 1 && End(s) == s[n].log + s[n].count
            && (ShortRuns(s) ==> ShortRuns(s[..n]) && s[n].count <= 0x8000)
  {
    var n := |s| - 1;
    if n > 0 { assert s[..n][n - 1] == s[n - 1]; }
  }

  /** Folding two adjacent leaves into one neither creates nor hides an overlap. */
  lemma MergeStepApart(ax: Axis, out: seq<Leaf>, e: Leaf, rest: seq<Leaf>)
    requires (forall x :: x in out ==> x.count >= 1) && e.count >= 1
    ensures AllApart(ax, MergeStep(out, e) + rest) <==> AllApart(ax, out + [e] + rest)
    ensures forall x :: x in MergeStep(out, e) ==> x.count >= 1
  {
    if out != [] && Adjacent(out[|out| - 1], e) {
      var n := |out| - 1;
      var pre, last := out[..n], out[n];
      var fat := last.(count := last.count + e.count);
      assert out == pre + [last] && MergeStep(out, e) == pre + [fat];
      ApartMiddle(ax, pre, [fat], rest);
      ApartMiddle(ax, pre, [last, e], rest);
      assert MergeStep(out, e) + rest == pre + [fat] + rest && out + [e] + rest == pre + [last, e] + rest;
      assert Apart(ax, last, e);
      assert forall x: Leaf :: x.count >= 1 ==> (Apart(ax, fat, x) <==> Apart(ax, last, x) && Apart(ax, e, x));
      assert forall x: Leaf :: x.count == 0 ==> Apart(ax, fat, x) && Apart(ax, last, x) && Apart(ax, e, x);
      FoldApart(ax, fat, last, e, pre + rest);
    }
  }

  lemma FoldApart(ax: Axis, fat: Leaf, last: Leaf, e: Leaf, s: seq<Leaf>)
    requires Apart(ax, last, e) && forall x: Leaf :: Apart(ax, fat, x) <==> Apart(ax, last, x) && Apart(ax, e, x)
    ensures AllApart(ax, [fat]) && AllApart(ax, [last, e])
    ensures Across(ax, [fat], s) <==> Across(ax, [last, e], s)
  {
    if Across(ax, [fat], s) {
      forall x, y | x in [last, e] && y in s ensures Apart(ax, x, y) {
        assert fat in [fat] && Apart(ax, fat, y);
      }
    }
    if Across(ax, [last, e], s) {
      forall x, y | x in [fat] && y in s ensures Apart(ax, x, y) {
        assert last in [last, e] && e in [last, e];
      }
    }
  }

  lemma ApartSym(ax: Axis, a: Leaf, b: Leaf)
    ensures Apart(ax, a, b) <==> Apart(ax, b, a)
  {
  }

  /** A list with a middle part: disjoint inside each part and across. */
  lemma ApartMiddle(ax: Axis, pre: seq<Leaf>, mid: seq<Leaf>, rest: seq<Leaf>)
    ensures AllApart(ax, pre + mid + rest)
       <==> AllApart(ax, pre + rest) && AllApart(ax, mid) && Across(ax, mid, pre + rest)
  {
    hide AllApart, Across;
    if AllApart(ax, pre + mid + rest) {
      ApartParts(ax, pre, mid, rest);
    }
    if AllApart(ax, pre + rest) && AllApart(ax, mid) && Across(ax, mid, pre + rest) {
      PartsApart(ax, pre, mid, rest);
    }
  }

  lemma ApartParts(ax: Axis, pre: seq<Leaf>, mid: seq<Leaf>, rest: seq<Leaf>)
    requires AllApart(ax, pre + mid + rest)
    ensures AllApart(ax, pre + rest) && AllApart(ax, mid) && Across(ax, mid, pre + rest)
  {
    hide Apart;
    var s, t, m, k := pre + mid + rest, pre + rest, |pre|, |mid|;
    forall i, j | 0 <= i < j < |t| ensures Apart(ax, t[i], t[j]) {
      var i', j' := if i < m then i else i + k, if j < m then j else j + k;
      assert t[i] == s[i'] && t[j] == s[j'];
    }
    forall i, j | 0 <= i < j < k ensures Apart(ax, mid[i], mid[j]) {
      assert mid[i] == s[m + i] && mid[j] == s[m + j];
    }
    forall x, y | x in mid && y in t ensures Apart(ax, x, y) {
      var i :| 0 <= i < k && mid[i] == x;
      var j :| 0 <= j < |t| && t[j] == y;
      var j' := if j < m then j else j + k;
      assert x == s[m + i] && y == s[j'];
      ApartSym(ax, x, y);
    }
  }

  lemma PartsApart(ax: Axis, pre: seq<Leaf>, mid: seq<Leaf>, rest: seq<Leaf>)
    requires AllApart(ax, pre + rest) && AllApart(ax, mid) && Across(ax, mid, pre + rest)
    ensures AllApart(ax, pre + mid + rest)
  {
    hide Apart;
    var s, t, m, k := pre + mid + rest, pre + rest, |pre|, |mid|;
    forall i, j | 0 <= i < j < |s| ensures Apart(ax, s[i], s[j]) {
      if m <= i < m + k && m <= j < m + k {
        assert s[i] == mid[i - m] && s[j] == mid[j - m];
      } else if m <= i < m + k {
        assert s[i] == mid[i - m] && s[j] == t[j - k];
      } else if m <= j < m + k {
        assert s[j] == mid[j - m] && s[i] == t[i];
        ApartSym(ax, s[j], s[i]);
      } else {
        var i', j' := if i < m then i else i - k, if j < m then j else j - k;
        assert s[i] == t[i'] && s[j] == t[j'];
      }
    }
  }

  /** Coalescing neither creates nor hides an overlap. */
  lemma {:induction false} MergeApart(ax: Axis, s: seq<Leaf>, rest: seq<Leaf>)
    requires forall x :: x in s ==> x.count >= 1
    ensures AllApart(ax, Merge(s) + rest) <==> AllApart(ax, s + rest)
    ensures forall x :: x in Merge(s) ==> x.count >= 1
    decreases |s|
  {
    hide AllApart, MergeStep;
    if s != [] {
      var n := |s| - 1;
      MergeApart(ax, s[..n], [s[n]] + rest);
      MergeStepApart(ax, Merge(s[..n]), s[n], rest);
      assert Merge(s[..n]) + [s[n]] + rest == Merge(s[..n]) + ([s[n]] + rest);
      assert s[..n] + ([s[n]] + rest) == s + rest;
    }
  }

  /** First block past the last leaf. */
  function End(ls: seq<Leaf>): nat {
    if ls == [] then 0 else ls[|ls| - 1].log + ls[|ls| - 1].count
  }

  /** A leaf is as it was, or within the limit at which merging stops. */
  lemma {:induction false} MergedRuns(s: seq<Leaf>)
    ensures forall l :: l in Merge(s) ==> l in s || l.count <= MAX_RUN
    decreases |s|
  {
    if s != [] {
      MergedRuns(s[..|s| - 1]);
    }
  }

  /** What coalescing guarantees about any list of disjoint non-empty leaves. */
  lemma CoalesceProps(ls: seq<Leaf>)
    requires AllApart(Logical, ls) && AllApart(Physical, ls) && ShortRuns(ls)
    ensures var r := Merge(Sort(Logical, ls));
            SortedMap(r) && Injective(r) && SameMap(r, ls) && ShortRuns(r) && forall l :: l in r ==> l in ls || l.count <= MAX_RUN
  {
    var s := Sort(Logical, ls);
    ApartSorted(ls);
    MergedRuns(s);
    assert ShortRuns(s) by {
      forall i | 0 <= i < |s| ensures 1 <= s[i].count <= 0x8000 { assert s[i] in ls; }
    }
    MergeSameMap(s);
    MergeSorted(s);
    SortSameMap(ls);
    var r := Merge(s);
    forall b: nat, p: nat ensures Maps(r, b, p) <==> Maps(ls, b, p) {
      assert Maps(r, b, p) <==> Maps(s, b, p);
    }
    forall b: nat, c: nat, p: nat | Maps(r, b, p) && Maps(r, c, p) ensures b == c {
      assert Maps(s, b, p) && Maps(s, c, p);
    }
  }

  // ---------------------------------------------------------------- building from a block list (write.go)

  /** The physical block list a leaf list spells out. */
  function Flatten(ls: seq<Leaf>): (r: seq<nat>) {
    if ls == [] then [] else Flatten(ls[..|ls| - 1]) + Run(ls[|ls| - 1])
  }

  /** Logical numbering starts at 0 and continues without gaps, in the 32-bit field. */
  ghost predicate GapFree(ls: seq<Leaf>) {
    forall i :: 0 <= i < |ls| ==> ls[i].log == |Flatten(ls[..i])| % U32
  }

  lemma FlattenAppend(ls: seq<Leaf>, l: Leaf)
    requires GapFree(ls) && l.log == |Flatten(ls)| % U32
    ensures Flatten(ls + [l]) == Flatten(ls) + Run(l)
    ensures GapFree(ls + [l])
  {
    var t := ls + [l];
    assert t[..|t| - 1] == ls;
    forall i | 0 <= i < |t| ensures t[i].log == |Flatten(t[..i])| % U32 {
      if i < |ls| { assert t[..i] == ls[..i]; } else { assert t[..i] == ls; }
    }
  }

  /** exts spells out the first n blocks of the list, in legal runs. */
  ghost predicate Spells(exts: seq<Leaf>, blocks: seq<nat>, n: nat)
    requires n <= |blocks|
  {
    && GapFree(exts)
    && Flatten(exts) == blocks[..n]
    && forall i :: 0 <= i < |exts| ==> 1 <= exts[i].count <= MAX_RUN
  }

  /** The blocks from index n on start with the run of l. */
  ghost predicate RunAt(blocks: seq<nat>, n: nat, l: Leaf) {
    n + l.count <= |blocks| && blocks[n..n + l.count] == Run(l)
  }

  lemma RunGrows(blocks: seq<nat>, n: nat, l: Leaf)
    requires RunAt(blocks, n, l) && 1 <= l.count && n + l.count < |blocks|
    requires blocks[n + l.count] == blocks[n + l.count - 1] + 1
    ensures RunAt(blocks, n, l.(count := l.count + 1))
  {
    var i := n + l.count;
    assert blocks[i - 1] == Run(l)[l.count - 1];
    assert blocks[n..i + 1] == Run(l) + [blocks[i]];
  }

  lemma RunOne(blocks: seq<nat>, n: nat, log: nat)
    requires n < |blocks|
    ensures RunAt(blocks, n, Leaf(log, blocks[n], 1))
  {
    assert blocks[n..n + 1] == [blocks[n]];
  }

  lemma WrapAdd(n: nat, k: nat)
    ensures (n % U32 + k) % U32 == (n + k) % U32
  {
    var q := n / U32;
    assert n + k == (n % U32 + k) + q * U32;
  }

  /** Closing a run extends the blocks spelled out so far. */
  lemma CloseRun(exts: seq<Leaf>, l: Leaf, blocks: seq<nat>, n: nat)
    requires n <= |blocks| && 1 <= l.count <= MAX_RUN && RunAt(blocks, n, l)
    requires Spells(exts, blocks, n) && l.log == n % U32
    ensures Spells(exts + [l], blocks, n + l.count)
    ensures (l.log + l.count) % U32 == (n + l.count) % U32
  {
    WrapAdd(n, l.count);
    hide GapFree;
    assert |Flatten(exts)| == n;
    FlattenAppend(exts, l);
    assert blocks[..n + l.count] == blocks[..n] + blocks[n..n + l.count];
  }

  lemma SpellsAll(exts: seq<Leaf>, blocks: seq<nat>)
    requires Spells(exts, blocks, |blocks|)
    ensures Flatten(exts) == blocks && GapFree(exts)
    ensures forall i :: 0 <= i < |exts| ==> 1 <= exts[i].count <= MAX_RUN
  {
    assert blocks[..|blocks|] == blocks;
  }

  lemma SpellsNone(blocks: seq<nat>)
    ensures Spells([], blocks, 0)
    ensures Flatten([]) == [] && GapFree([])
  {
  }

  /** `buildExtents`: merges consecutive physical blocks into runs. */
  method BuildExtents(blocks: seq<nat>) returns (exts: seq<Leaf>)
    ensures Flatten(exts) == blocks
    ensures GapFree(exts)
    ensures forall i :: 0 <= i < |exts| ==> 1 <= exts[i].count <= MAX_RUN
  {
    hide Spells, RunAt, Flatten, GapFree;
    SpellsNone(blocks);
    if |blocks| == 0 {
      return [];
    }
    exts := [];
    var start: nat, count: nat, logBase: nat := blocks[0], 1, 0;
    ghost var n: nat := 0;
    var i := 1;
    RunOne(blocks, 0, 0);
    while i < |blocks|
      invariant 1 <= i <= |blocks| && n + count == i
      invariant 1 <= count <= MAX_RUN
      invariant Spells(exts, blocks, n)
      invariant logBase == n % U32
      invariant RunAt(blocks, n, Leaf(logBase, start, count))
    {
      var l := Leaf(logBase, start, count);
      if blocks[i] == blocks[i - 1] + 1 && count < MAX_RUN {
        RunGrows(blocks, n, l);
        count := count + 1;
      } else {
        CloseRun(exts, l, blocks, n);
        exts := exts + [l];
        logBase := (l.log + l.count) % U32;
        start := blocks[i];
        count := 1;
        n := n + l.count;
        RunOne(blocks, i, logBase);
      }
      i := i + 1;
    }
    assert n + count == |blocks|;
    CloseRun(exts, Leaf(logBase, start, count), blocks, n);
    exts := exts + [Leaf(logBase, start, count)];
    SpellsAll(exts, blocks);
  }
}
