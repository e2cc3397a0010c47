/** Allocation bitmaps: single bits, the free-run search and its
    transaction-aware variant. */
module Bitmap {
  import opened Bytes

  // ---------------------------------------------------------------- bits of a byte buffer

  /** 1 << k. */
  function Mask(k: nat): bv8
    requires k < 8
  {
    if k == 0 then 0x01 else if k == 1 then 0x02 else if k == 2 then 0x04 else if k == 3 then 0x08
    else if k == 4 then 0x10 else if k == 5 then 0x20 else if k == 6 then 0x40 else 0x80
  }

  predicate BitOf(b: bv8, k: nat)
    requires k < 8
  {
    b & Mask(k) != 0
  }

  lemma SetMask(b: bv8, k: nat, j: nat)
    requires k < 8 && j < 8
    ensures BitOf(b | Mask(k), j) <==> j == k || BitOf(b, j)
  {
  }

  lemma ClearMask(b: bv8, k: nat, j: nat)
    requires k < 8 && j < 8
    ensures BitOf(b & !Mask(k), j) <==> j != k && BitOf(b, j)
  {
  }

  predicate Bit(m: seq<bv8>, i: nat)
    requires i < 8 * |m|
  {
    BitOf(m[i / 8], i % 8)
  }

  /** The first max bits of a bitmap. */
  function Bits(m: seq<bv8>, max: nat): (r: seq<bool>)
    requires max <= 8 * |m|
    ensures |r| == max
    ensures forall i :: 0 <= i < max ==> r[i] == Bit(m, i)
  {
    seq(max, i requires 0 <= i < max => Bit(m, i))
  }

  method SetBit(m: array<bv8>, i: nat)
    requires i < 8 * m.Length
    modifies m
    ensures forall j :: 0 <= j < 8 * m.Length ==> Bit(m[..], j) == (j == i || Bit(old(m[..]), j))
  {
    m[i / 8] := m[i / 8] | Mask(i % 8);
    forall j | 0 <= j < 8 * m.Length ensures Bit(m[..], j) == (j == i || Bit(old(m[..]), j)) {
      if j / 8 == i / 8 { SetMask(old(m[i / 8]), i % 8, j % 8); }
    }
  }

  method ClearBit(m: array<bv8>, i: nat)
    requires i < 8 * m.Length
    modifies m
    ensures forall j :: 0 <= j < 8 * m.Length ==> Bit(m[..], j) == (j != i && Bit(old(m[..]), j))
  {
    m[i / 8] := m[i / 8] & !Mask(i % 8);
    forall j | 0 <= j < 8 * m.Length ensures Bit(m[..], j) == (j != i && Bit(old(m[..]), j)) {
      if j / 8 == i / 8 { ClearMask(old(m[i / 8]), i % 8, j % 8); }
    }
  }

  // ---------------------------------------------------------------- free bits

  /** The clear bits, ascending. */
  function FreeBits(bits: seq<bool>): (r: seq<nat>)
    ensures forall x :: x in r <==> 0 <= x < |bits| && !bits[x]
    ensures forall i :: 0 <= i < |r| ==> r[i] < |bits| && !bits[r[i]]
    ensures forall i, j :: 0 <= i < j < |r| ==> r[i] < r[j]
  {
    if bits == [] then []
    else
      var n := |bits| - 1;
      var t := FreeBits(bits[..n]);
      if bits[n] then t else t + [n]
  }

  lemma FreeBitsStep(bits: seq<bool>, i: nat)
    requires i < |bits|
    ensures FreeBits(bits[..i + 1]) == FreeBits(bits[..i]) + (if bits[i] then [] else [i])
  {
    assert bits[..i + 1][..i] == bits[..i];
  }

  lemma NoFree(bits: seq<bool>)
    ensures FreeBits(bits[..0]) == []
  {
  }

  lemma FreeLast(bits: seq<bool>)
    requires bits != []
    ensures |FreeBits(bits)| == |FreeBits(bits[..|bits| - 1])| + if bits[|bits| - 1] then 0 else 1
  {
  }

  predicate RunAt(bits: seq<bool>, s: nat, n: nat) {
    s + n <= |bits| && forall k :: s <= k < s + n ==> !bits[k]
  }

  function Consecutive(s: nat, n: nat): (r: seq<nat>)
    ensures |r| == n
    ensures forall k :: 0 <= k < n ==> r[k] == s + k
  {
    seq(n, k requires 0 <= k => s + k)
  }

  /** r is n distinct clear bits in ascending order. */
  ghost predicate Picks(bits: seq<bool>, n: nat, r: seq<nat>) {
    && |r| == n
    && (forall i :: 0 <= i < n ==> r[i] < |bits| && !bits[r[i]])
    && (forall i, j :: 0 <= i < j < n ==> r[i] < r[j])
  }

  /** r is the leftmost contiguous run if there is one, else the n lowest clear bits. */
  ghost predicate BestPick(bits: seq<bool>, n: nat, r: seq<nat>) {
    || (exists s :: 0 <= s && RunAt(bits, s, n) && r == Consecutive(s, n) && forall t :: 0 <= t < s ==> !RunAt(bits, t, n))
    || ((forall s :: 0 <= s ==> !RunAt(bits, s, n)) && n <= |FreeBits(bits)| && r == FreeBits(bits)[..n])
  }

  /** A contiguous run is a witness that there are at least n clear bits. */
  lemma {:induction false} RunCount(bits: seq<bool>, s: nat, n: nat)
    requires RunAt(bits, s, n)
    ensures |FreeBits(bits)| >= n
    decreases |bits|
  {
    if n > 0 {
      var m := |bits| - 1;
      var shorter := bits[..m];
      if s + n <= m {
        RunCount(shorter, s, n);
      } else {
        RunCount(shorter, s, n - 1);
      }
    }
  }

  lemma BestPickPicks(bits: seq<bool>, n: nat, r: seq<nat>)
    requires BestPick(bits, n, r)
    ensures Picks(bits, n, r) && n <= |FreeBits(bits)|
  {
    if s :| 0 <= s && RunAt(bits, s, n) && r == Consecutive(s, n) && forall t :: 0 <= t < s ==> !RunAt(bits, t, n) {
      RunCount(bits, s, n);
    } else {
      forall i | 0 <= i < n ensures r[i] < |bits| && !bits[r[i]] {
        assert r[i] in FreeBits(bits);
      }
    }
  }

  /** Any n distinct clear bits fit among the free bits. */
  lemma {:induction false} PicksCount(bits: seq<bool>, n: nat, r: seq<nat>)
    requires Picks(bits, n, r)
    ensures n <= |FreeBits(bits)|
    decreases |bits|
  {
    hide FreeBits;
    if n > 0 {
      assert r[0] < |bits|;
      FreeLast(bits);
      var m := |bits| - 1;
      var shorter := bits[..m];
      if r[n - 1] == m {
        assert Picks(shorter, n - 1, r[..n - 1]);
        PicksCount(shorter, n - 1, r[..n - 1]);
      } else {
        forall i | 0 <= i < n ensures r[i] < m {
          if i < n - 1 { assert r[i] < r[n - 1]; }
        }
        PicksCount(shorter, n, r);
      }
    }
  }

  /** `findFreeBit`: the lowest clear bit. */
  method FindFreeBit(m: seq<bv8>, max: nat) returns (i: nat, ok: bool)
    requires max <= 8 * |m|
    ensures ok ==> i < max && !Bit(m, i) && forall j :: 0 <= j < i ==> Bit(m, j)
    ensures !ok ==> forall j :: 0 <= j < max ==> Bit(m, j)
  {
    i := 0;
    while i < max
      invariant i <= max
      invariant forall j :: 0 <= j < i ==> Bit(m, j)
    {
      if !Bit(m, i) {
        return i, true;
      }
      i := i + 1;
    }
    return 0, false;
  }

  /** `countZeroBits`. */
  method CountZeroBits(m: seq<bv8>, max: nat) returns (count: nat)
    requires max <= 8 * |m|
    ensures count == |FreeBits(Bits(m, max))|
  {
    hide FreeBits, Bit;
    count := 0;
    var i := 0;
    ghost var bits := Bits(m, max);
    NoFree(bits);
    while i < max
      invariant i <= max
      invariant count == |FreeBits(bits[..i])|
    {
      FreeBitsStep(bits, i);
      if !Bit(m, i) {
        count := count + 1;
      }
      i := i + 1;
    }
    assert bits[..i] == bits;
  }

  lemma RunHere(bits: seq<bool>, s: nat, n: nat)
    requires s + n <= |bits| && forall k :: s <= k < s + n ==> !bits[k]
    ensures RunAt(bits, s, n)
  {
  }

  lemma RunBlocked(bits: seq<bool>, s: nat, n: nat, k: nat)
    requires s <= k < s + n && k < |bits| && bits[k]
    ensures !RunAt(bits, s, n)
  {
  }

  lemma RunInside(bits: seq<bool>, s: nat, n: nat)
    ensures RunAt(bits, s, n) ==> s + n <= |bits|
  {
  }

  /** The contiguous pass of `findFreeRun`. */
  method ContiguousPass(m: seq<bv8>, max: nat, n: nat) returns (start: nat, ok: bool)
    requires max <= 8 * |m| && n > 0
    ensures ok ==> RunAt(Bits(m, max), start, n) && forall t :: 0 <= t < start ==> !RunAt(Bits(m, max), t, n)
    ensures !ok ==> forall t :: 0 <= t ==> !RunAt(Bits(m, max), t, n)
  {
    hide RunAt, Bit;
    ghost var bits := Bits(m, max);
    var runStart, runLen := -1, 0;
    var i := 0;
    while i < max
      invariant 0 <= i <= max
      invariant 0 <= runLen < n && runLen <= i
      invariant runLen > 0 ==> runStart == i - runLen
      invariant forall k :: i - runLen <= k < i ==> !bits[k]
      invariant runLen < i ==> bits[i - runLen - 1]
      invariant forall t :: 0 <= t && t + n <= i ==> !RunAt(bits, t, n)
    {
      if !Bit(m, i) {
        assert !bits[i];
        if runLen == 0 {
          runStart := i;
        }
        runLen := runLen + 1;
        if runLen == n {
          RunHere(bits, runStart, n);
          return runStart, true;
        }
        if n <= i + 1 { RunBlocked(bits, i + 1 - n, n, i - runLen); }
      } else {
        assert bits[i];
        if n <= i + 1 { RunBlocked(bits, i + 1 - n, n, i); }
        runLen := 0;
        runStart := -1;
      }
      i := i + 1;
    }
    forall t | 0 <= t ensures !RunAt(bits, t, n) {
      if t + n > max { RunInside(bits, t, n); }
    }
    return 0, false;
  }

  /** The fallback pass: the n lowest clear bits, if there are that many. */
  method ScatteredPass(m: seq<bv8>, max: nat, n: nat) returns (r: seq<nat>, ok: bool)
    requires max <= 8 * |m|
    ensures ok <==> n <= |FreeBits(Bits(m, max))|
    ensures ok ==> r == FreeBits(Bits(m, max))[..n]
  {
    ghost var bits := Bits(m, max);
    r := [];
    var i := 0;
    while i < max && |r| < n
      invariant 0 <= i <= max && |r| <= n
      invariant r == FreeBits(bits[..i])
    {
      FreeBitsStep(bits, i);
      if !Bit(m, i) {
        r := r + [i];
      }
      i := i + 1;
    }
    FreeBitsPrefix(bits, i);
    if i == max { assert bits[..i] == bits; }
    ok := |r| == n;
  }

  lemma {:induction false} FreeBitsPrefix(bits: seq<bool>, i: nat)
    requires i <= |bits|
    ensures FreeBits(bits[..i]) <= FreeBits(bits)
    decreases |bits| - i
  {
    hide FreeBits;
    if i == |bits| {
      assert bits[..i] == bits;
    } else {
      FreeBitsStep(bits, i);
      FreeBitsPrefix(bits, i + 1);
    }
  }

  /** `findFreeRun`: succeeds exactly when n bits are clear. */
  method FindFreeRun(m: seq<bv8>, max: nat, n: nat) returns (r: seq<nat>, ok: bool)
    requires max <= 8 * |m|
    ensures ok <==> n <= |FreeBits(Bits(m, max))|
    ensures ok ==> BestPick(Bits(m, max), n, r) && Picks(Bits(m, max), n, r)
  {
    ghost var bits := Bits(m, max);
    if n == 0 {
      assert RunAt(bits, 0, 0) && [] == Consecutive(0, 0);
      return [], true;
    }
    var s, found := ContiguousPass(m, max, n);
    if found {
      r := seq(n, j requires 0 <= j => s + j);
      assert r == Consecutive(s, n);
      BestPickPicks(bits, n, r);
      return r, true;
    }
    r, ok := ScatteredPass(m, max, n);
    if ok {
      BestPickPicks(bits, n, r);
    }
  }

  /** Marks the chosen bits that the transaction has staged. */
  method MarkStaged(search: array<bv8>, r: seq<nat>, staged: set<nat>) returns (conflict: bool)
    requires forall k :: 0 <= k < |r| ==> r[k] < 8 * search.Length
    modifies search
    ensures forall j :: 0 <= j < 8 * search.Length ==> Bit(search[..], j) == (Bit(old(search[..]), j) || (j in r && j in staged))
    ensures conflict <==> exists k :: 0 <= k < |r| && r[k] in staged
  {
    conflict := false;
    var i := 0;
    while i < |r|
      invariant 0 <= i <= |r|
      invariant forall j :: 0 <= j < 8 * search.Length ==> Bit(search[..], j) == (Bit(old(search[..]), j) || (j in r[..i] && j in staged))
      invariant conflict <==> exists k :: 0 <= k < i && r[k] in staged
    {
      assert r[..i + 1] == r[..i] + [r[i]];
      if r[i] in staged {
        SetBit(search, r[i]);
        conflict := true;
      }
      i := i + 1;
    }
    assert r[..i] == r;
  }

  lemma BetweenStart(bits: seq<bool>, staged: set<nat>)
    ensures Between(bits, bits, staged)
  {
  }

  lemma NoneLeft(bits: seq<bool>, open: seq<bool>, staged: set<nat>, n: nat)
    requires Between(bits, open, staged) && |FreeBits(open)| < n
    ensures |FreeBits(Avoiding(bits, staged))| < n
  {
    hide FreeBits;
    FewerFree(Avoiding(bits, staged), open);
  }

  lemma PicksInside(m: seq<bv8>, max: nat, n: nat, r: seq<nat>)
    requires max <= 8 * |m| && Picks(Bits(m, max), n, r)
    ensures |r| == n && forall k :: 0 <= k < |r| ==> r[k] < max
  {
  }

  /** Marking the staged picks keeps the search between the two bitmaps and removes at least one free bit. */
  lemma BetweenStep(bits: seq<bool>, was: seq<bv8>, now: seq<bv8>, max: nat, staged: set<nat>, n: nat, r: seq<nat>, k: nat)
    requires |now| == |was| && max <= 8 * |was| && Between(bits, Bits(was, max), staged) && Picks(Bits(was, max), n, r)
    requires forall j :: 0 <= j < 8 * |was| ==> Bit(now, j) == (Bit(was, j) || (j in r && j in staged))
    requires k < |r| && r[k] in staged
    ensures Between(bits, Bits(now, max), staged)
    ensures |FreeBits(Bits(now, max))| < |FreeBits(Bits(was, max))|
  {
    hide FreeBits, Bit;
    assert r[k] in r;
    FewerFreeStrict(Bits(was, max), Bits(now, max), r[k]);
  }

  /** `findFreeRunForTx`: n bits that are clear on disk and not staged in the
      transaction; each conflict removes a bit, so the search ends. */
  method FindFreeRunForTx(m: seq<bv8>, max: nat, n: nat, staged: set<nat>) returns (r: seq<nat>, ok: bool)
    requires max <= 8 * |m|
    ensures ok <==> n <= |FreeBits(Avoiding(Bits(m, max), staged))|
    ensures ok ==> Picks(Avoiding(Bits(m, max), staged), n, r)
  {
    hide FreeBits, Bit, Bits, BestPick, Picks, Avoiding, Between;
    var search := new bv8[|m|](i requires 0 <= i < |m| => m[i]);
    ghost var bits := Bits(m, max);
    assert search[..] == m;
    BetweenStart(bits, staged);
    while true
      invariant search.Length == |m| && fresh(search)
      invariant Between(bits, Bits(search[..], max), staged)
      decreases |FreeBits(Bits(search[..], max))|
    {
      ghost var was := search[..];
      r, ok := FindFreeRun(search[..], max, n);
      if !ok {
        NoneLeft(bits, Bits(was, max), staged, n);
        return [], false;
      }
      PicksInside(was, max, n, r);
      var conflict := MarkStaged(search, r, staged);
      if !conflict {
        PicksAvoid(bits, Bits(was, max), staged, n, r);
        return r, true;
      }
      ghost var k :| 0 <= k < |r| && r[k] in staged;
      BetweenStep(bits, was, search[..], max, staged, n, r, k);
    }
  }

  /** The bitmap with staged bits counted as used. */
  function Avoiding(bits: seq<bool>, staged: set<nat>): (r: seq<bool>)
    ensures |r| == |bits|
    ensures forall i :: 0 <= i < |bits| ==> r[i] == (bits[i] || i in staged)
  {
    seq(|bits|, i requires 0 <= i < |bits| => bits[i] || i in staged)
  }

  /** The working copy marks the used bits and, besides them, only staged ones. */
  ghost predicate Between(bits: seq<bool>, open: seq<bool>, staged: set<nat>) {
    |open| == |bits| && forall i :: 0 <= i < |bits| ==> (bits[i] ==> open[i]) && (open[i] ==> bits[i] || i in staged)
  }

  lemma {:induction false} FewerFree(a: seq<bool>, b: seq<bool>)
    requires |a| == |b| && forall i :: 0 <= i < |a| ==> (b[i] ==> a[i])
    ensures |FreeBits(a)| <= |FreeBits(b)|
  {
    if a != [] {
      FewerFree(a[..|a| - 1], b[..|b| - 1]);
    }
  }

  lemma {:induction false} FewerFreeStrict(a: seq<bool>, b: seq<bool>, k: nat)
    requires |a| == |b| && k < |a| && !a[k] && b[k]
    requires forall i :: 0 <= i < |a| ==> (a[i] ==> b[i])
    ensures |FreeBits(b)| < |FreeBits(a)|
  {
    var n := |a| - 1;
    if k == n {
      FewerFree(b[..n], a[..n]);
    } else {
      FewerFreeStrict(a[..n], b[..n], k);
    }
  }

  lemma PicksAvoid(bits: seq<bool>, open: seq<bool>, staged: set<nat>, n: nat, r: seq<nat>)
    requires Between(bits, open, staged) && Picks(open, n, r)
    requires forall k :: 0 <= k < |r| ==> r[k] !in staged
    ensures Picks(Avoiding(bits, staged), n, r) && n <= |FreeBits(Avoiding(bits, staged))|
  {
    PicksCount(Avoiding(bits, staged), n, r);
  }
}
