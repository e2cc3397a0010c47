/** The on-disk extent tree: how a leaf list is encoded in the inode and in one
    leaf block, and how any tree is parsed back. */
module ExtentTree {
  import opened Bytes
  import opened Extents

  const EXTENT_MAGIC: nat := 0xF30A
  const MAX_DEPTH: nat := 5
  const INLINE_CAP: nat := 4
  const IBLOCK: nat := 60

  /** Block size, block count and the block-group layout of a volume. */
  datatype Geo = Geo(bs: nat, blocks: nat, first: nat, perGroup: nat) {
    predicate Valid() {
      && 1024 <= bs <= 65536
      && 0 < blocks <= U48
      && first <= 1
      && perGroup >= 1
    }
    /** Leaf entries that fit in one block. */
    function LeafCap(): nat
      requires Valid()
    {
      (bs - 12) / 12
    }
  }

  /** The image bytes of a volume. */
  predicate Sized(data: seq<byte>, geo: Geo) {
    |data| == geo.blocks * geo.bs
  }

  lemma BlockFits(geo: Geo, b: nat)
    requires b < geo.blocks
    ensures 0 <= b * geo.bs <= b * geo.bs + geo.bs <= geo.blocks * geo.bs
  {
    MulMono(b + 1, geo.blocks, geo.bs);
  }

  /** `readRawBlock`. */
  function BlockAt(data: seq<byte>, geo: Geo, b: nat): (r: seq<byte>)
    requires Sized(data, geo) && b < geo.blocks
    ensures |r| == geo.bs
  {
    BlockFits(geo, b);
    data[b * geo.bs..b * geo.bs + geo.bs]
  }

  // ---------------------------------------------------------------- entries

  /** Field widths of a leaf entry; lengths above 32768 would read back masked. */
  predicate Encodable(l: Leaf) {
    l.log < U32 && l.count <= 0x8000 && l.phys < U48
  }

  function EncodeLeaf(l: Leaf): (e: seq<byte>)
    ensures |e| == 12
  {
    LE(l.log, 4) + LE(l.count, 2) + LE(l.phys / U32, 2) + LE(l.phys % U32, 4)
  }

  function DecodeLeaf(e: seq<byte>): Leaf
    requires |e| == 12
  {
    var count := UnLE(e[4..6]);
    Leaf(UnLE(e[0..4]),
         UnLE(e[6..8]) * U32 + UnLE(e[8..12]),
         if count > 0x8000 then count % 0x8000 else count)
  }

  function DecodeIndex(e: seq<byte>): nat
    requires |e| == 12
  {
    UnLE(e[8..10]) * U32 + UnLE(e[4..8])
  }

  lemma EntrySlices(a: seq<byte>, b: seq<byte>, c: seq<byte>, d: seq<byte>)
    requires |a| == 4 && |b| == 2 && |c| == 2 && |d| == 4
    ensures var e := a + b + c + d;
            e[0..4] == a && e[4..6] == b && e[6..8] == c && e[8..12] == d
  {
  }

  lemma LeafRoundTrip(l: Leaf)
    requires Encodable(l)
    ensures DecodeLeaf(EncodeLeaf(l)) == l
  {
    EntrySlices(LE(l.log, 4), LE(l.count, 2), LE(l.phys / U32, 2), LE(l.phys % U32, 4));
    Field32(l.log);
    Field16(l.count);
    Field16(l.phys / U32);
    Field32(l.phys % U32);
  }

  function Header(entries: nat, max: nat, depth: nat): (h: seq<byte>)
    ensures |h| == 12
  {
    LE(EXTENT_MAGIC, 2) + LE(entries, 2) + LE(max, 2) + LE(depth, 2) + LE(0, 4)
  }

  predicate HeaderIs(buf: seq<byte>, entries: nat, depth: nat) {
    && |buf| >= 12
    && UnLE(buf[0..2]) == EXTENT_MAGIC
    && UnLE(buf[2..4]) == entries
    && UnLE(buf[6..8]) == depth
  }

  lemma HeaderRoundTrip(entries: nat, max: nat, depth: nat, tail: seq<byte>)
    requires entries < U16 && depth < U16
    ensures HeaderIs(Header(entries, max, depth) + tail, entries, depth)
  {
    var buf := Header(entries, max, depth) + tail;
    Field16(EXTENT_MAGIC);
    Field16(entries);
    Field16(depth);
    assert buf[0..2] == LE(EXTENT_MAGIC, 2);
    assert buf[2..4] == LE(entries, 2);
    assert buf[6..8] == LE(depth, 2);
  }

  // ---------------------------------------------------------------- parsing (inode.go)

  /** The index blocks read, in the order they were read, and unless the parse is
      refused the leaves in tree order. */
  datatype Parsed = Failed(seen: seq<nat>) | Parsed(leaves: seq<Leaf>, seen: seq<nat>)

  /** The entry loop of `parseExtentNode`, from entry i on. */
  function ParseEntries(data: seq<byte>, geo: Geo, buf: seq<byte>, entries: nat, depth: nat, i: nat, seen: seq<nat>): Parsed
    requires Sized(data, geo) && entries < U16
    decreases depth, entries - i
  {
    if i >= entries || 24 + 12 * i > |buf| then Parsed([], seen)
    else
      var e := buf[12 + 12 * i..24 + 12 * i];
      if depth == 0 then
        var rest := ParseEntries(data, geo, buf, entries, depth, i + 1, seen);
        if rest.Failed? then rest else Parsed([DecodeLeaf(e)] + rest.leaves, rest.seen)
      else
        var child := DecodeIndex(e);
        if child == 0 || child >= geo.blocks || child in seen then Failed(seen)
        else
          var sub := ParseNode(data, geo, BlockAt(data, geo, child), depth - 1, seen + [child]);
          if sub.Failed? then sub
          else
            var rest := ParseEntries(data, geo, buf, entries, depth, i + 1, sub.seen);
            if rest.Failed? then rest else Parsed(sub.leaves + rest.leaves, rest.seen)
  }

  /** `parseExtentNode`: the header checks, then the entries. */
  function ParseNode(data: seq<byte>, geo: Geo, buf: seq<byte>, want: nat, seen: seq<nat>): Parsed
    requires Sized(data, geo)
    decreases want, U16
  {
    if |buf| < 12 then Failed(seen)
    else if UnLE(buf[0..2]) != EXTENT_MAGIC then Failed(seen)
    else if UnLE(buf[6..8]) != want || want > MAX_DEPTH then Failed(seen)
    else
      EntriesFit(buf);
      ParseEntries(data, geo, buf, UnLE(buf[2..4]), want, 0, seen)
  }

  lemma EntriesFit(buf: seq<byte>)
    requires |buf| >= 12
    ensures UnLE(buf[2..4]) < U16
  {
    Pow256Values();
  }

  /** `parseExtentRoot`: bounds the depth, walks the tree, refuses overlaps. */
  function ParseRoot(data: seq<byte>, geo: Geo, buf: seq<byte>): Parsed
    requires Sized(data, geo)
  {
    if |buf| < 12 then Failed([])
    else if UnLE(buf[6..8]) > MAX_DEPTH then Failed([])
    else
      var r := ParseNode(data, geo, buf, UnLE(buf[6..8]), []);
      if r.Failed? then r
      else if AllApart(Logical, r.leaves) && AllApart(Physical, r.leaves) then r
      else Failed(r.seen)
  }

  /** Distinct index blocks inside the filesystem. */
  predicate CleanReads(s: seq<nat>, geo: Geo) {
    Distinct(s) && forall i :: 0 <= i < |s| ==> 0 < s[i] < geo.blocks
  }

  /** Block b lies at most d index entries below a node. */
  ghost predicate Below(data: seq<byte>, geo: Geo, buf: seq<byte>, d: nat, b: nat)
    requires Sized(data, geo)
    decreases d, 1
  {
    d > 0 && exists i :: 0 <= i && BelowEntry(data, geo, buf, d, i, b)
  }

  /** ... through entry i. */
  ghost predicate BelowEntry(data: seq<byte>, geo: Geo, buf: seq<byte>, d: nat, i: nat, b: nat)
    requires Sized(data, geo) && d > 0
    decreases d, 0
  {
    && 24 + 12 * i <= |buf|
    && var c := DecodeIndex(buf[12 + 12 * i..24 + 12 * i]);
       0 < c < geo.blocks && (b == c || Below(data, geo, BlockAt(data, geo, c), d - 1, b))
  }

  /** Every read beyond those already made is of a block below the node. */
  ghost predicate ReadsBelow(data: seq<byte>, geo: Geo, buf: seq<byte>, d: nat, seen: seq<nat>, now: seq<nat>)
    requires Sized(data, geo)
  {
    forall b :: b in now ==> b in seen || Below(data, geo, buf, d, b)
  }

  lemma ChildReads(data: seq<byte>, geo: Geo, buf: seq<byte>, d: nat, i: nat, seen: seq<nat>, now: seq<nat>)
    requires Sized(data, geo) && d > 0 && 24 + 12 * i <= |buf|
    requires 0 < DecodeIndex(buf[12 + 12 * i..24 + 12 * i]) < geo.blocks
    requires var c := DecodeIndex(buf[12 + 12 * i..24 + 12 * i]);
             ReadsBelow(data, geo, BlockAt(data, geo, c), d - 1, seen + [c], now)
    ensures ReadsBelow(data, geo, buf, d, seen, now)
  {
    hide DecodeIndex, BlockAt;
    forall b | b in now && b !in seen ensures Below(data, geo, buf, d, b) {
      assert BelowEntry(data, geo, buf, d, i, b);
    }
  }

  lemma MoreReads(data: seq<byte>, geo: Geo, buf: seq<byte>, d: nat, a: seq<nat>, b: seq<nat>, c: seq<nat>)
    requires Sized(data, geo) && ReadsBelow(data, geo, buf, d, a, b) && ReadsBelow(data, geo, buf, d, b, c)
    ensures ReadsBelow(data, geo, buf, d, a, c)
  {
    hide Below;
  }

  lemma {:induction false} EntriesReadOnce(data: seq<byte>, geo: Geo, buf: seq<byte>, entries: nat, depth: nat, i: nat, seen: seq<nat>)
    requires Sized(data, geo) && entries < U16 && CleanReads(seen, geo)
    ensures var r := ParseEntries(data, geo, buf, entries, depth, i, seen);
            CleanReads(r.seen, geo) && seen <= r.seen && ReadsBelow(data, geo, buf, depth, seen, r.seen)
    decreases depth, entries - i
  {
    hide DecodeIndex, DecodeLeaf, BlockAt, ParseNode, Below, ReadsBelow;
    ReadNothing(data, geo, buf, depth, seen);
    if i < entries && 24 + 12 * i <= |buf| {
      var e := buf[12 + 12 * i..24 + 12 * i];
      if depth == 0 {
        EntriesReadOnce(data, geo, buf, entries, depth, i + 1, seen);
      } else {
        var child := DecodeIndex(e);
        if 0 < child < geo.blocks && child !in seen {
          NodeReadOnce(data, geo, BlockAt(data, geo, child), depth - 1, seen + [child]);
          var sub := ParseNode(data, geo, BlockAt(data, geo, child), depth - 1, seen + [child]);
          ChildReads(data, geo, buf, depth, i, seen, sub.seen);
          if sub.Parsed? {
            EntriesReadOnce(data, geo, buf, entries, depth, i + 1, sub.seen);
            MoreReads(data, geo, buf, depth, seen, sub.seen, ParseEntries(data, geo, buf, entries, depth, i + 1, sub.seen).seen);
          }
        }
      }
    }
  }

  lemma ReadNothing(data: seq<byte>, geo: Geo, buf: seq<byte>, d: nat, seen: seq<nat>)
    requires Sized(data, geo)
    ensures ReadsBelow(data, geo, buf, d, seen, seen)
  {
  }

  lemma {:induction false} NodeReadOnce(data: seq<byte>, geo: Geo, buf: seq<byte>, want: nat, seen: seq<nat>)
    requires Sized(data, geo) && CleanReads(seen, geo)
    ensures var r := ParseNode(data, geo, buf, want, seen);
            CleanReads(r.seen, geo) && seen <= r.seen && ReadsBelow(data, geo, buf, want, seen, r.seen)
    decreases want, U16
  {
    hide ParseEntries, ReadsBelow;
    ReadNothing(data, geo, buf, want, seen);
    if |buf| >= 12 {
      EntriesFit(buf);
      EntriesReadOnce(data, geo, buf, UnLE(buf[2..4]), want, 0, seen);
    }
  }

  /** On every image, accepted or refused, the walk ends having read each index block
      at most once, so never more blocks than the filesystem has, and none of them
      more than five index entries below the root; the leaves it returns are disjoint. */
  lemma ParseRootReadsOnce(data: seq<byte>, geo: Geo, buf: seq<byte>)
    requires Sized(data, geo) && geo.blocks > 0
    ensures var r := ParseRoot(data, geo, buf);
            && CleanReads(r.seen, geo) && |r.seen| < geo.blocks
            && (forall b :: b in r.seen ==> |buf| >= 12 && UnLE(buf[6..8]) <= MAX_DEPTH && Below(data, geo, buf, UnLE(buf[6..8]), b))
            && (r.Parsed? ==> AllApart(Logical, r.leaves) && AllApart(Physical, r.leaves))
  {
    hide ParseNode, Below;
    if |buf| >= 12 && UnLE(buf[6..8]) <= MAX_DEPTH {
      NodeReadOnce(data, geo, buf, UnLE(buf[6..8]), []);
    }
    Pigeonhole(ParseRoot(data, geo, buf).seen, geo.blocks - 1);
  }

  /** n distinct numbers between 1 and m force n <= m. */
  lemma {:induction false} Pigeonhole(s: seq<nat>, m: nat)
    requires Distinct(s) && forall i :: 0 <= i < |s| ==> 0 < s[i] <= m
    ensures |s| <= m
    decreases m
  {
    if m in s {
      var k :| 0 <= k < |s| && s[k] == m;
      var t := s[..k] + s[k + 1..];
      if m > 0 { Pigeonhole(t, m - 1); }
    } else if s != [] {
      assert s[0] in s;
      Pigeonhole(s, m - 1);
    }
  }

  // ---------------------------------------------------------------- writing (inode.go, write.go)

  function LeafBytes(ls: seq<Leaf>): (s: seq<byte>)
    ensures |s| == 12 * |ls|
  {
    if ls == [] then [] else LeafBytes(ls[..|ls| - 1]) + EncodeLeaf(ls[|ls| - 1])
  }

  /** A depth-0 node: header, entries, zero padding to the node's size. */
  function NodeBytes(ls: seq<Leaf>, max: nat, size: nat): (s: seq<byte>)
    requires 12 + 12 * |ls| <= size
    ensures |s| == size
  {
    Header(|ls|, max, 0) + LeafBytes(ls) + Zeros(size - 12 - 12 * |ls|)
  }

  /** The inode root of a one-level tree: a single index entry. */
  function IndexRoot(log: nat, child: nat): (s: seq<byte>)
    ensures |s| == IBLOCK
  {
    Header(1, INLINE_CAP, 1) + (LE(log, 4) + LE(child % U32, 4) + LE(child / U32, 2) + Zeros(2)) + Zeros(36)
  }

  /** `singleExtentChild`: the leaf block of a tree of the shape this driver writes. */
  function SingleChild(buf: seq<byte>): Option<nat>
    requires |buf| == IBLOCK
  {
    if UnLE(buf[0..2]) != EXTENT_MAGIC then None
    else if UnLE(buf[6..8]) != 1 || UnLE(buf[2..4]) != 1 then None
    else Some(UnLE(buf[16..20]) + UnLE(buf[20..22]) * U32)
  }

  lemma {:induction false} LeafBytesAt(ls: seq<Leaf>, i: nat)
    requires i < |ls|
    ensures LeafBytes(ls)[12 * i..12 * i + 12] == EncodeLeaf(ls[i])
  {
    var n := |ls| - 1;
    var s := LeafBytes(ls);
    assert s == LeafBytes(ls[..n]) + EncodeLeaf(ls[n]);
    if i < n {
      LeafBytesAt(ls[..n], i);
      assert s[12 * i..12 * i + 12] == LeafBytes(ls[..n])[12 * i..12 * i + 12];
    }
  }

  /** Buffer `buf` carries exactly the entries of ls. */
  predicate HoldsLeaves(buf: seq<byte>, ls: seq<Leaf>) {
    && HeaderIs(buf, |ls|, 0)
    && 12 + 12 * |ls| <= |buf|
    && forall i :: 0 <= i < |ls| ==> buf[12 + 12 * i..24 + 12 * i] == EncodeLeaf(ls[i])
  }

  lemma NodeHoldsLeaves(ls: seq<Leaf>, max: nat, size: nat)
    requires 12 + 12 * |ls| <= size && |ls| < U16
    ensures HoldsLeaves(NodeBytes(ls, max, size), ls)
  {
    hide Header, HeaderIs, LeafBytes, EncodeLeaf;
    var z := Zeros(size - 12 - 12 * |ls|);
    assert NodeBytes(ls, max, size) == Header(|ls|, max, 0) + (LeafBytes(ls) + z);
    HeaderRoundTrip(|ls|, max, 0, LeafBytes(ls) + z);
    forall i | 0 <= i < |ls| ensures NodeBytes(ls, max, size)[12 + 12 * i..24 + 12 * i] == EncodeLeaf(ls[i]) {
      LeafBytesAt(ls, i);
      MiddleSlice(Header(|ls|, max, 0), LeafBytes(ls), z, 12 * i);
    }
  }

  lemma MiddleSlice(a: seq<byte>, b: seq<byte>, c: seq<byte>, i: nat)
    requires i + 12 <= |b|
    ensures (a + (b + c))[|a| + i..|a| + i + 12] == b[i..i + 12]
  {
  }

  ghost predicate AllEncodable(ls: seq<Leaf>) {
    forall i :: 0 <= i < |ls| ==> Encodable(ls[i])
  }

  lemma {:induction false} EntriesRoundTrip(data: seq<byte>, geo: Geo, buf: seq<byte>, ls: seq<Leaf>, i: nat, seen: seq<nat>)
    requires Sized(data, geo) && HoldsLeaves(buf, ls) && AllEncodable(ls) && |ls| < U16 && i <= |ls|
    ensures ParseEntries(data, geo, buf, |ls|, 0, i, seen) == Parsed(ls[i..], seen)
    decreases |ls| - i
  {
    if i < |ls| {
      EntriesRoundTrip(data, geo, buf, ls, i + 1, seen);
      LeafRoundTrip(ls[i]);
      assert ls[i..] == [ls[i]] + ls[i + 1..];
    }
  }

  lemma LeafNodeRoundTrip(data: seq<byte>, geo: Geo, buf: seq<byte>, ls: seq<Leaf>, seen: seq<nat>)
    requires Sized(data, geo) && HoldsLeaves(buf, ls) && AllEncodable(ls)
    ensures ParseNode(data, geo, buf, 0, seen) == Parsed(ls, seen)
  {
    EntriesFit(buf);
    EntriesRoundTrip(data, geo, buf, ls, 0, seen);
    assert ls[0..] == ls;
  }

  /** What the parser makes of a tree of these leaves: exactly the disjoint ones come back. */
  function Verdict(ls: seq<Leaf>, seen: seq<nat>): Parsed {
    if AllApart(Logical, ls) && AllApart(Physical, ls) then Parsed(ls, seen) else Failed(seen)
  }

  /** Round trip of a tree that fits in the inode. */
  lemma InlineRoundTrip(data: seq<byte>, geo: Geo, ls: seq<Leaf>)
    requires Sized(data, geo) && |ls| <= INLINE_CAP && AllEncodable(ls)
    ensures ParseRoot(data, geo, NodeBytes(ls, INLINE_CAP, IBLOCK)) == Verdict(ls, [])
    ensures SingleChild(NodeBytes(ls, INLINE_CAP, IBLOCK)) == None
  {
    NodeHoldsLeaves(ls, INLINE_CAP, IBLOCK);
    LeafNodeRoundTrip(data, geo, NodeBytes(ls, INLINE_CAP, IBLOCK), ls, []);
  }

  lemma IndexRootFields(log: nat, child: nat)
    requires child < U48
    ensures var buf := IndexRoot(log, child);
            HeaderIs(buf, 1, 1) && DecodeIndex(buf[12..24]) == child && SingleChild(buf) == Some(child)
  {
    var buf := IndexRoot(log, child);
    var entry := LE(log, 4) + LE(child % U32, 4) + LE(child / U32, 2) + Zeros(2);
    assert buf == Header(1, INLINE_CAP, 1) + (entry + Zeros(36));
    HeaderRoundTrip(1, INLINE_CAP, 1, entry + Zeros(36));
    assert buf[12..24] == entry;
    Field32(child % U32);
    Field16(child / U32);
    assert entry[4..8] == LE(child % U32, 4) && entry[8..10] == LE(child / U32, 2);
    assert buf[16..20] == entry[4..8] && buf[20..22] == entry[8..10];
  }

  /** Round trip of a one-level tree whose leaf block holds the list. */
  lemma IndexRoundTrip(data: seq<byte>, geo: Geo, ls: seq<Leaf>, log: nat, child: nat)
    requires Sized(data, geo) && AllEncodable(ls) && 0 < child < geo.blocks <= U48
    requires HoldsLeaves(BlockAt(data, geo, child), ls)
    ensures ParseRoot(data, geo, IndexRoot(log, child)) == Verdict(ls, [child])
    ensures SingleChild(IndexRoot(log, child)) == Some(child)
  {
    var buf := IndexRoot(log, child);
    IndexRootFields(log, child);
    LeafNodeRoundTrip(data, geo, BlockAt(data, geo, child), ls, [child]);
    assert [] + [child] == [child];
    var rest := ParseEntries(data, geo, buf, 1, 1, 1, [child]);
    assert rest == Parsed([], [child]);
    assert ls + [] == ls;
    assert ParseEntries(data, geo, buf, 1, 1, 0, []) == Parsed(ls, [child]);
  }

  /** `PutUintN` into a buffer. */
  method PutField(buf: array<byte>, off: nat, v: nat, k: nat)
    requires off + k <= buf.Length
    modifies buf
    ensures buf[..] == Put(old(buf[..]), off, LE(v, k))
  {
    var s := LE(v, k);
    var i := 0;
    while i < k
      invariant 0 <= i <= k
      invariant forall j :: 0 <= j < buf.Length ==> buf[j] == if off <= j < off + i then s[j - off] else old(buf[j])
    {
      buf[off + i] := s[i];
      i := i + 1;
    }
  }

  method PutHeader(buf: array<byte>, entries: nat, max: nat, depth: nat)
    requires 12 <= buf.Length
    modifies buf
    ensures buf[..] == Put(old(buf[..]), 0, Header(entries, max, depth))
  {
    PutField(buf, 0, EXTENT_MAGIC, 2);
    PutField(buf, 2, entries, 2);
    PutField(buf, 4, max, 2);
    PutField(buf, 6, depth, 2);
    PutField(buf, 8, 0, 4);
  }

  method PutLeaf(buf: array<byte>, off: nat, e: Leaf)
    requires off + 12 <= buf.Length
    modifies buf
    ensures buf[..] == Put(old(buf[..]), off, EncodeLeaf(e))
  {
    hide LE, Put;
    ghost var b := buf[..];
    PutField(buf, off, e.log, 4);
    PutField(buf, off + 4, e.count, 2);
    PutField(buf, off + 6, e.phys / U32, 2);
    PutField(buf, off + 8, e.phys % U32, 4);
    PutPut(b, off, LE(e.log, 4), LE(e.count, 2));
    PutPut(b, off, LE(e.log, 4) + LE(e.count, 2), LE(e.phys / U32, 2));
    PutPut(b, off, LE(e.log, 4) + LE(e.count, 2) + LE(e.phys / U32, 2), LE(e.phys % U32, 4));
  }

  /** The buffer `writeExtentTree` fills: header, then one entry per leaf. */
  method BuildNode(ls: seq<Leaf>, max: nat, size: nat) returns (buf: array<byte>)
    requires 12 + 12 * |ls| <= size
    ensures fresh(buf)
    ensures buf[..] == NodeBytes(ls, max, size)
  {
    buf := new byte[size](i => 0);
    PutHeader(buf, |ls|, max, 0);
    assert ls[..0] == [];
    var i := 0;
    while i < |ls|
      invariant 0 <= i <= |ls|
      invariant buf.Length == size
      invariant buf[..] == PartialNode(ls, max, size, i)
    {
      PutLeaf(buf, 12 + i * 12, ls[i]);
      PartialNodeStep(ls, max, size, i);
      i := i + 1;
    }
    assert ls[..i] == ls;
  }

  /** The node with only the first n entries stored. */
  ghost function PartialNode(ls: seq<Leaf>, max: nat, size: nat, n: nat): (s: seq<byte>)
    requires 12 + 12 * |ls| <= size && n <= |ls|
    ensures |s| == size
  {
    Header(|ls|, max, 0) + LeafBytes(ls[..n]) + Zeros(size - 12 - 12 * n)
  }

  lemma PartialNodeStep(ls: seq<Leaf>, max: nat, size: nat, n: nat)
    requires 12 + 12 * |ls| <= size && n < |ls|
    ensures Put(PartialNode(ls, max, size, n), 12 + n * 12, EncodeLeaf(ls[n])) == PartialNode(ls, max, size, n + 1)
  {
    hide Header, EncodeLeaf, Put;
    assert ls[..n + 1][..n] == ls[..n];
    PutAfter(Header(|ls|, max, 0) + LeafBytes(ls[..n]), size - 12 - 12 * n, EncodeLeaf(ls[n]));
    assert Header(|ls|, max, 0) + LeafBytes(ls[..n]) + EncodeLeaf(ls[n]) == Header(|ls|, max, 0) + LeafBytes(ls[..n + 1]);
  }

  lemma PutAfter(a: seq<byte>, n: nat, e: seq<byte>)
    requires |e| <= n
    ensures Put(a + Zeros(n), |a|, e) == a + e + Zeros(n - |e|)
  {
  }
}
