/** Whole-block overlays: what a transaction's entries mean as a change to the image. */
module Overlay {
  import opened Bytes
  import opened JournalLog
  import opened JournalRecovery

  /** The in-transaction copy of block b, if it has one. */
  function Lookup(es: seq<Entry>, b: nat): Option<seq<byte>> {
    if es == [] then None
    else if es[0].block == b then Some(es[0].data)
    else Lookup(es[1..], b)
  }

  /** Replaces the entry of block b, or appends one. */
  function Upsert(es: seq<Entry>, b: nat, data: seq<byte>): seq<Entry> {
    if es == [] then [Entry(b, data)]
    else if es[0].block == b then [Entry(b, data)] + es[1..]
    else [es[0]] + Upsert(es[1..], b, data)
  }

  /** What `addRangeToTx` keeps: one whole, readable block per entry, no block twice. */
  ghost predicate Prepared(bs: nat, size: nat, es: seq<Entry>) {
    && (forall i :: 0 <= i < |es| ==> Whole(bs, size, es[i]))
    && (forall i, j :: 0 <= i < j < |es| ==> es[i].block != es[j].block)
  }

  ghost predicate Whole(bs: nat, size: nat, e: Entry) {
    |e.data| == bs && e.block * bs + bs <= size
  }

  /** The image as the transaction would leave it. */
  function View(bs: nat, img: seq<byte>, es: seq<Entry>): seq<byte> {
    ApplyAll(bs, img, es)
  }

  // ---------------------------------------------------------------- the entry list as a map

  /** After an upsert, block b reads back and every other block is as before. */
  lemma {:induction false} LookupUpsert(es: seq<Entry>, b: nat, data: seq<byte>, c: nat)
    ensures Lookup(Upsert(es, b, data), c) == if c == b then Some(data) else Lookup(es, c)
    decreases |es|
  {
    if es != [] && es[0].block != b {
      LookupUpsert(es[1..], b, data, c);
      assert Upsert(es, b, data)[1..] == Upsert(es[1..], b, data);
    }
  }

  lemma {:induction false} LookupAbsent(es: seq<Entry>, b: nat)
    ensures Lookup(es, b) == None <==> forall i :: 0 <= i < |es| ==> es[i].block != b
    decreases |es|
  {
    if es != [] {
      LookupAbsent(es[1..], b);
      assert es == [es[0]] + es[1..];
    }
  }

  lemma {:induction false} LookupLast(es: seq<Entry>, e: Entry, b: nat)
    ensures Lookup(es + [e], b) == if Lookup(es, b).Some? then Lookup(es, b) else if e.block == b then Some(e.data) else None
    decreases |es|
  {
    if es != [] {
      assert (es + [e])[1..] == es[1..] + [e];
      LookupLast(es[1..], e, b);
    } else {
      assert (es + [e])[1..] == [];
    }
  }

  /** No entry names c before an upsert of another block, none does after it. */
  lemma UpsertAbsent(es: seq<Entry>, b: nat, data: seq<byte>, c: nat)
    requires c != b && forall i :: 0 <= i < |es| ==> es[i].block != c
    ensures forall i :: 0 <= i < |Upsert(es, b, data)| ==> Upsert(es, b, data)[i].block != c
  {
    LookupAbsent(es, c);
    LookupUpsert(es, b, data, c);
    LookupAbsent(Upsert(es, b, data), c);
  }

  lemma {:induction false} UpsertPrepared(bs: nat, size: nat, es: seq<Entry>, b: nat, data: seq<byte>)
    requires Prepared(bs, size, es) && Whole(bs, size, Entry(b, data))
    ensures Prepared(bs, size, Upsert(es, b, data))
    decreases |es|
  {
    hide Whole;
    if es != [] && es[0].block != b {
      assert Prepared(bs, size, es[1..]);
      UpsertPrepared(bs, size, es[1..], b, data);
      UpsertAbsent(es[1..], b, data, es[0].block);
    }
  }

  // ---------------------------------------------------------------- the entry list as an image

  lemma {:induction false} ViewLength(bs: nat, img: seq<byte>, es: seq<Entry>)
    requires Prepared(bs, |img|, es)
    ensures |View(bs, img, es)| == |img|
    decreases |es|
  {
    if es != [] {
      ViewLength(bs, img, es[..|es| - 1]);
      assert Whole(bs, |img|, es[|es| - 1]);
    }
  }

  /** Byte k of block b. */
  function BlockByte(bs: nat, v: seq<byte>, b: nat, k: nat): byte {
    At(v, b * bs + k)
  }

  lemma BlockNumber(bs: nat, b: nat, c: nat, k: nat)
    requires k < bs
    ensures c * bs <= b * bs + k < c * bs + bs <==> b == c
  {
    if b < c { MulMono(b + 1, c, bs); }
    if c < b { MulMono(c + 1, b, bs); }
  }

  /** A prepared block reads from its entry, every other block from the image. */
  lemma {:induction false} ViewAt(bs: nat, img: seq<byte>, es: seq<Entry>, b: nat, k: nat)
    requires Prepared(bs, |img|, es) && k < bs
    ensures match Lookup(es, b)
            case Some(d) => |d| == bs && BlockByte(bs, View(bs, img, es), b, k) == d[k]
            case None => BlockByte(bs, View(bs, img, es), b, k) == BlockByte(bs, img, b, k)
    decreases |es|
  {
    if es != [] {
      var pre, e := es[..|es| - 1], es[|es| - 1];
      ViewAt(bs, img, pre, b, k);
      assert es == pre + [e];
      LookupLast(pre, e, b);
      LookupAbsent(pre, b);
      assert Whole(bs, |img|, e);
      BlockNumber(bs, b, e.block, k);
    }
  }

  lemma ByBlocks(bs: nat, v: seq<byte>, w: seq<byte>)
    requires bs > 0 && |v| == |w|
    requires forall b: nat, k: nat :: k < bs ==> BlockByte(bs, v, b, k) == BlockByte(bs, w, b, k)
    ensures v == w
  {
    forall x: nat ensures At(v, x) == At(w, x) {
      var b, k := x / bs, x % bs;
      assert x == b * bs + k;
      assert BlockByte(bs, v, b, k) == BlockByte(bs, w, b, k);
    }
    SameBytes(v, w);
  }

  lemma PutBlockByte(bs: nat, img: seq<byte>, b: nat, s: seq<byte>, c: nat, k: nat)
    requires k < bs == |s| && b * bs + bs <= |img|
    ensures BlockByte(bs, Put(img, b * bs, s), c, k) == if c == b then s[k] else BlockByte(bs, img, c, k)
  {
    BlockNumber(bs, c, b, k);
  }

  /** Storing a block in the transaction is writing it to the view. */
  lemma UpsertView(bs: nat, img: seq<byte>, es: seq<Entry>, b: nat, data: seq<byte>)
    requires bs > 0 && Prepared(bs, |img|, es) && |data| == bs && b * bs + bs <= |img|
    ensures Prepared(bs, |img|, Upsert(es, b, data)) && |View(bs, img, es)| == |img|
    ensures View(bs, img, Upsert(es, b, data)) == Put(View(bs, img, es), b * bs, data)
  {
    UpsertPrepared(bs, |img|, es, b, data);
    hide Upsert, View, Prepared, Lookup, BlockByte, Put;
    ViewLength(bs, img, es);
    ViewLength(bs, img, Upsert(es, b, data));
    var v, u := View(bs, img, Upsert(es, b, data)), View(bs, img, es);
    var w := Put(u, b * bs, data);
    forall c: nat, k: nat | k < bs ensures BlockByte(bs, v, c, k) == BlockByte(bs, w, c, k) {
      ViewAt(bs, img, es, c, k);
      ViewAt(bs, img, Upsert(es, b, data), c, k);
      LookupUpsert(es, b, data, c);
      PutBlockByte(bs, u, b, data, c, k);
    }
    ByBlocks(bs, v, w);
  }

  /** The bytes of block b. */
  function BlockIn(bs: nat, v: seq<byte>, b: nat): (r: seq<byte>)
    requires b * bs + bs <= |v|
    ensures |r| == bs && forall k :: 0 <= k < bs ==> r[k] == BlockByte(bs, v, b, k)
  {
    v[b * bs..b * bs + bs]
  }

  /** The block the overlay starts from is the view's own. */
  lemma ViewBlock(bs: nat, img: seq<byte>, es: seq<Entry>, b: nat)
    requires Prepared(bs, |img|, es) && b * bs + bs <= |img| && |View(bs, img, es)| == |img|
    ensures BlockIn(bs, View(bs, img, es), b) == match Lookup(es, b) case Some(d) => d case None => BlockIn(bs, img, b)
  {
    hide View, Prepared, Lookup, BlockByte, BlockIn;
    LookupWhole(bs, |img|, es, b);
    var v := BlockIn(bs, View(bs, img, es), b);
    var w := match Lookup(es, b) case Some(d) => d case None => BlockIn(bs, img, b);
    forall k | 0 <= k < bs ensures v[k] == w[k] {
      ViewAt(bs, img, es, b, k);
    }
  }

  lemma LookupWhole(bs: nat, size: nat, es: seq<Entry>, b: nat)
    requires Prepared(bs, size, es)
    ensures Lookup(es, b).Some? ==> |Lookup(es, b).value| == bs
    decreases |es|
  {
    if es != [] && es[0].block != b {
      LookupWhole(bs, size, es[1..], b);
    } else if es != [] {
      assert Whole(bs, size, es[0]);
    }
  }

  /** One iteration of the overlay loop: base block, merged bytes, stored block. */
  lemma OverlayStep(bs: nat, img: seq<byte>, es: seq<Entry>, b: nat, lo: nat, off: nat, chunk: seq<byte>, base: seq<byte>)
    requires bs > 0 && lo == b * bs && lo + bs <= |img| && off + |chunk| <= bs && Prepared(bs, |img|, es)
    requires base == match Lookup(es, b) case Some(d) => d case None => BlockIn(bs, img, b)
    ensures |base| == bs && |View(bs, img, es)| == |img|
    ensures Prepared(bs, |img|, Upsert(es, b, Put(base, off, chunk)))
    ensures View(bs, img, Upsert(es, b, Put(base, off, chunk))) == Put(View(bs, img, es), lo + off, chunk)
  {
    hide View, Upsert, Prepared, Lookup, Put;
    ViewLength(bs, img, es);
    ViewBlock(bs, img, es, b);
    UpsertView(bs, img, es, b, Put(base, off, chunk));
    PutInside(View(bs, img, es), lo, bs, off, chunk);
  }

  /** Rewriting a stretch with one part changed changes that part. */
  lemma PutInside(v: seq<byte>, lo: nat, n: nat, off: nat, chunk: seq<byte>)
    requires lo + n <= |v| && off + |chunk| <= n
    ensures Put(v, lo, Put(v[lo..lo + n], off, chunk)) == Put(v, lo + off, chunk)
  {
  }
}
