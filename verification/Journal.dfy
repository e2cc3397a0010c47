/** Transactions and the journal that commits, replays and reopens them (journal.go). */
module Journal {
  import opened Bytes
  import opened JournalLog
  import opened JournalRecovery
  import opened Overlay

  // ---------------------------------------------------------------- transactions

  class Transaction {
    var entries: seq<Entry>
    var committed: bool

    constructor ()
      ensures entries == [] && !committed
    {
      entries, committed := [], false;
    }

    /** `AddBlock`: upserts the image of a block; refused once committed. */
    method AddBlock(b: nat, data: seq<byte>) returns (ok: bool)
      modifies this
      ensures ok <==> !old(committed)
      ensures committed == old(committed)
      ensures entries == if ok then Upsert(old(entries), b, data) else old(entries)
    {
      hide Upsert;
      if committed {
        return false;
      }
      var i := 0;
      assert entries[0..] == entries;
      while i < |entries|
        invariant 0 <= i <= |entries| && entries == old(entries) && !committed
        invariant Upsert(entries, b, data) == entries[..i] + Upsert(entries[i..], b, data)
      {
        UpsertAt(entries, b, data, i);
        if entries[i].block == b {
          entries := entries[..i] + [Entry(b, data)] + entries[i + 1..];
          return true;
        }
        i := i + 1;
      }
      UpsertAt(entries, b, data, i);
      entries := entries + [Entry(b, data)];
      return true;
    }

    /** `GetBlock`: the in-transaction image of a block. */
    method GetBlock(b: nat) returns (r: Option<seq<byte>>)
      ensures r == Lookup(entries, b)
    {
      var i := 0;
      while i < |entries|
        invariant 0 <= i <= |entries|
        invariant Lookup(entries, b) == Lookup(entries[i..], b)
      {
        if entries[i].block == b {
          return Some(entries[i].data);
        }
        i := i + 1;
      }
      return None;
    }

    /** One block of `addRangeToTx`: merges chunk into block b, starting from its
        in-transaction copy or from the image. */
    method AddPiece(bs: nat, img: seq<byte>, b: nat, off: nat, chunk: seq<byte>) returns (ok: bool)
      requires bs > 0 && Prepared(bs, |img|, entries) && off + |chunk| <= bs
      modifies this
      ensures committed == old(committed) && Prepared(bs, |img|, entries)
      ensures ok <==> !committed && b * bs + bs <= |img|
      ensures !ok ==> entries == old(entries)
      ensures ok ==> b * bs + off + |chunk| <= |View(bs, img, old(entries))|
      ensures ok ==> View(bs, img, entries) == Put(View(bs, img, old(entries)), b * bs + off, chunk)
    {
      hide Prepared, View, Lookup, Upsert, BlockByte, BlockIn;
      var blockBuf;
      var inTx := GetBlock(b);
      PreparedInside(bs, |img|, entries, b);
      if inTx.Some? {
        blockBuf := inTx.value;
      } else {
        if b * bs + bs > |img| {
          return false;
        }
        blockBuf := BlockIn(bs, img, b);
      }
      OverlayStep(bs, img, entries, b, b * bs, off, chunk, blockBuf);
      ok := AddBlock(b, Put(blockBuf, off, chunk));
    }

    /** `addRangeToTx`: overlays data at byte offset start, block by block. */
    method AddRange(bs: nat, img: seq<byte>, start: int, data: seq<byte>) returns (ok: bool)
      requires bs > 0 && Prepared(bs, |img|, entries)
      modifies this
      ensures committed == old(committed) && Prepared(bs, |img|, entries)
      ensures ok <==> start >= 0 && (|data| == 0 || (!committed && Readable(bs, |img|, start, |data|)))
      ensures ok ==> Overlaid(bs, img, old(entries), entries, start, data)
    {
      hide Prepared, View, Readable;
      if start < 0 {
        return false;
      }
      StartBlock(bs, start);
      var bnum: nat, offInBlock: nat, idx: nat := start / bs, start % bs, 0;
      while idx < |data|
        invariant 0 <= idx <= |data| && committed == old(committed)
        invariant idx > 0 ==> !committed
        invariant idx < |data| ==> bnum * bs + offInBlock == start + idx && offInBlock < bs
        invariant Prepared(bs, |img|, entries)
        invariant Overlaid(bs, img, old(entries), entries, start, data[..idx])
        invariant idx == |data| && idx > 0 ==> Readable(bs, |img|, start, |data|)
      {
        ghost var es := entries;
        var copyLen := Min(bs - offInBlock, |data| - idx);
        PieceReadable(bs, |img|, bnum, offInBlock, start, idx, |data|);
        var added := AddPiece(bs, img, bnum, offInBlock, data[idx..idx + copyLen]);
        if !added {
          return false;
        }
        OverlayGrows(bs, img, old(entries), es, entries, start, data, idx, copyLen);
        NextBlock(bs, |img|, bnum, offInBlock, start, idx, |data|, copyLen);
        idx := idx + copyLen;
        bnum, offInBlock := bnum + 1, 0;
      }
      assert data[..idx] == data;
      return true;
    }
  }

  /** The upsert scan at entry i. */
  lemma UpsertAt(es: seq<Entry>, b: nat, data: seq<byte>, i: nat)
    requires i <= |es|
    ensures Upsert(es[i..], b, data)
         == if i == |es| then [Entry(b, data)]
            else if es[i].block == b then [Entry(b, data)] + es[i + 1..]
            else [es[i]] + Upsert(es[i + 1..], b, data)
  {
    if i < |es| {
      assert es[i..][1..] == es[i + 1..];
    }
  }

  /** Every block the byte range touches lies inside the image. */
  predicate Readable(bs: nat, size: nat, start: nat, len: nat)
    requires bs > 0 && len > 0
  {
    ((start + len - 1) / bs + 1) * bs <= size
  }

  /** The view has had s written at start. */
  ghost predicate Overlaid(bs: nat, img: seq<byte>, es0: seq<Entry>, es: seq<Entry>, start: nat, s: seq<byte>) {
    if s == [] then es == es0
    else start + |s| <= |View(bs, img, es0)| && View(bs, img, es) == Put(View(bs, img, es0), start, s)
  }

  lemma StartBlock(bs: nat, start: nat)
    requires bs > 0
    ensures start / bs >= 0 && 0 <= start % bs < bs && start / bs * bs + start % bs == start
  {
  }

  /** If a block of the range is not inside the image, the range is unreadable. */
  lemma PieceReadable(bs: nat, size: nat, b: nat, off: nat, start: nat, idx: nat, len: nat)
    requires bs > 0 && idx < len && b * bs + off == start + idx && off < bs
    ensures Readable(bs, size, start, len) ==> b * bs + bs <= size
  {
    var q := (start + len - 1) / bs;
    BlockAtMost(bs, b, off, start + len - 1);
    MulMono(b + 1, q + 1, bs);
  }

  lemma PreparedInside(bs: nat, size: nat, es: seq<Entry>, b: nat)
    requires Prepared(bs, size, es)
    ensures Lookup(es, b).Some? ==> b * bs + bs <= size
  {
    LookupAbsent(es, b);
    if i :| 0 <= i < |es| && es[i].block == b {
      assert Whole(bs, size, es[i]);
    }
  }

  lemma BlockAtMost(bs: nat, b: nat, off: nat, x: nat)
    requires bs > 0 && b * bs + off <= x
    ensures b <= x / bs
  {
    if x / bs < b {
      MulMono(x / bs + 1, b, bs);
    }
  }

  lemma NextBlock(bs: nat, size: nat, b: nat, off: nat, start: nat, idx: nat, len: nat, n: nat)
    requires bs > 0 && idx < len && b * bs + off == start + idx && off < bs && n == Min(bs - off, len - idx) && b * bs + bs <= size
    ensures idx + n < len ==> (b + 1) * bs == start + idx + n
    ensures idx + n == len ==> Readable(bs, size, start, len)
  {
    if idx + n == len {
      DivModUnique(start + len - 1, bs, b, off + n - 1);
    }
  }

  lemma OverlayGrows(bs: nat, img: seq<byte>, es0: seq<Entry>, es: seq<Entry>, es': seq<Entry>, start: nat, data: seq<byte>, idx: nat, n: nat)
    requires 0 < n && idx + n <= |data| && start + idx + n <= |View(bs, img, es)|
    requires Overlaid(bs, img, es0, es, start, data[..idx])
    requires View(bs, img, es') == Put(View(bs, img, es), start + idx, data[idx..idx + n])
    ensures Overlaid(bs, img, es0, es', start, data[..idx + n])
  {
    hide View;
    assert data[..idx + n] == data[..idx] + data[idx..idx + n];
  }

  // ---------------------------------------------------------------- serialising

  function DescBytes(e: Entry): seq<byte> {
    LE(e.block, 8) + LE(|e.data|, 4)
  }

  lemma {:induction false} DescsAppend(es: seq<Entry>, e: Entry)
    ensures Descs(es + [e]) == Descs(es) + DescBytes(e)
    decreases |es|
  {
    var all := es + [e];
    if es == [] {
      assert all[1..] == [];
      assert Descs(all) == DescBytes(e) + Descs([]);
    } else {
      assert all[1..] == es[1..] + [e];
      DescsAppend(es[1..], e);
      assert Descs(all) == DescBytes(es[0]) + Descs(all[1..]);
      assert Descs(es) == DescBytes(es[0]) + Descs(es[1..]);
      hide Descs, DescBytes;
    }
  }

  lemma {:induction false} BlobsAppend(es: seq<Entry>, e: Entry)
    ensures Blobs(es + [e]) == Blobs(es) + e.data
    decreases |es|
  {
    var all := es + [e];
    if es == [] {
      assert all[1..] == [];
    } else {
      assert all[1..] == es[1..] + [e];
      BlobsAppend(es[1..], e);
    }
  }

  method AppendDescs(head: seq<byte>, entries: seq<Entry>) returns (buf: seq<byte>)
    ensures buf == head + Descs(entries)
  {
    hide LE, Descs;
    buf := head;
    NoEntries();
    assert entries[..0] == [] && head + [] == head;
    var i := 0;
    while i < |entries|
      invariant 0 <= i <= |entries|
      invariant buf == head + Descs(entries[..i])
    {
      DescsAppend(entries[..i], entries[i]);
      assert entries[..i] + [entries[i]] == entries[..i + 1];
      buf := buf + LE(entries[i].block, 8) + LE(|entries[i].data|, 4);
      i := i + 1;
    }
    assert entries[..i] == entries;
  }

  method AppendBlobs(front: seq<byte>, entries: seq<Entry>) returns (buf: seq<byte>)
    ensures buf == front + Blobs(entries)
  {
    hide Blobs;
    buf := front;
    NoEntries();
    assert entries[..0] == [] && front + [] == front;
    var i := 0;
    while i < |entries|
      invariant 0 <= i <= |entries|
      invariant buf == front + Blobs(entries[..i])
    {
      BlobsAppend(entries[..i], entries[i]);
      assert entries[..i] + [entries[i]] == entries[..i + 1];
      buf := buf + entries[i].data;
      i := i + 1;
    }
    assert entries[..i] == entries;
  }

  lemma NoEntries()
    ensures Descs([]) == [] && Blobs([]) == []
  {
  }

  /** The record bytes `Commit` builds: header, descriptors, data; then the commit record. */
  method Serialize(crc: Crc, seqNo: nat, entries: seq<Entry>) returns (buf: seq<byte>, cbuf: seq<byte>)
    ensures buf == Payload(Rec(seqNo, entries)) && cbuf == Trailer(crc, Rec(seqNo, entries))
  {
    hide LE, Descs, Blobs;
    buf := AppendDescs(LE(JOURNAL_MAGIC, 4) + LE(seqNo, 8) + LE(|entries|, 4), entries);
    buf := AppendBlobs(buf, entries);
    cbuf := LE(COMMIT_MAGIC, 4) + LE(seqNo, 8) + LE(crc(buf), 4);
  }

  // ---------------------------------------------------------------- scanning

  method ScanDescs(s: seq<byte>, n: nat) returns (ds: seq<Desc>)
    requires DESC_SIZE * n <= |s|
    ensures ds == ReadDescs(s, n)
  {
    ds := [];
    var i := 0;
    while i < n
      invariant 0 <= i <= n
      invariant ReadDescs(s, n) == ds + ReadDescs(s[DESC_SIZE * i..], n - i)
    {
      var t := s[DESC_SIZE * i..];
      assert t[..8] == s[DESC_SIZE * i..DESC_SIZE * i + 8] && t[8..12] == s[DESC_SIZE * i + 8..DESC_SIZE * i + 12];
      assert t[12..] == s[DESC_SIZE * (i + 1)..];
      ds := ds + [Desc(UnLE(t[..8]), UnLE(t[8..12]))];
      i := i + 1;
    }
  }

  function Behind(es: seq<Entry>, r: Option<seq<Entry>>): Option<seq<Entry>> {
    match r case None => None case Some(t) => Some(es + t)
  }

  lemma BehindOne(es: seq<Entry>, e: Entry, r: Option<seq<Entry>>)
    ensures Behind(es + [e], r) == Behind(es, Behind([e], r))
  {
    if r.Some? { assert es + [e] + r.value == es + ([e] + r.value); }
  }

  lemma BehindEdge(r: Option<seq<Entry>>, es: seq<Entry>)
    ensures Behind([], r) == r && Behind(es, Some([])) == Some(es)
  {
    if r.Some? { assert [] + r.value == r.value; }
    assert es + [] == es;
  }

  method ScanBlobs(s: seq<byte>, ds: seq<Desc>) returns (r: Option<seq<Entry>>)
    ensures r == ReadBlobs(s, ds)
  {
    hide Behind, ReadBlobs;
    var es: seq<Entry>, i, pos := [], 0, 0;
    assert s[0..] == s && ds[0..] == ds;
    BehindEdge(ReadBlobs(s, ds), es);
    while i < |ds|
      invariant 0 <= i <= |ds| && 0 <= pos <= |s|
      invariant ReadBlobs(s, ds) == Behind(es, ReadBlobs(s[pos..], ds[i..]))
    {
      var l := ds[i].len;
      BlobNext(es, s, pos, ds, i);
      if l > |s| - pos {
        return None;
      }
      es := es + [Entry(ds[i].block, s[pos..pos + l])];
      i, pos := i + 1, pos + l;
    }
    BlobsDone(es, s[pos..], ds[i..]);
    return Some(es);
  }

  lemma BlobNext(es: seq<Entry>, s: seq<byte>, pos: nat, ds: seq<Desc>, i: nat)
    requires i < |ds| && pos <= |s|
    ensures var l := ds[i].len;
            Behind(es, ReadBlobs(s[pos..], ds[i..])) ==
            if l > |s| - pos then None
            else Behind(es + [Entry(ds[i].block, s[pos..pos + l])], ReadBlobs(s[pos + l..], ds[i + 1..]))
  {
    var l := ds[i].len;
    if l <= |s| - pos {
      assert s[pos..][l..] == s[pos + l..] && s[pos..][..l] == s[pos..pos + l];
      assert ds[i..][1..] == ds[i + 1..];
      BehindOne(es, Entry(ds[i].block, s[pos..pos + l]), ReadBlobs(s[pos + l..], ds[i + 1..]));
    }
  }

  lemma BlobsDone(es: seq<Entry>, s: seq<byte>, ds: seq<Desc>)
    requires ds == []
    ensures Behind(es, ReadBlobs(s, ds)) == Some(es)
  {
    BehindEdge(None, es);
  }

  /** One round of `ReplayOnOpen` over the unread bytes. */
  method ReplayRound(crc: Crc, s: seq<byte>) returns (r: Step)
    ensures r == ReplayNext(crc, s)
  {
    hide ReadDescs, ReadBlobs, Payload, Blobs, UnLE;
    if |s| == 0 {
      return Stop;
    }
    if |s| < 4 {
      return Fail;
    }
    if UnLE(s[..4]) != JOURNAL_MAGIC {
      return Stop;
    }
    if |s| < 16 {
      return Fail;
    }
    var seqNo, nDesc := UnLE(s[4..12]), UnLE(s[12..16]);
    if DESC_SIZE * nDesc > |s| - 16 {
      return Fail;
    }
    var descs := ScanDescs(s[16..], nDesc);
    var body := s[16 + DESC_SIZE * nDesc..];
    var datas := ScanBlobs(body, descs);
    if datas.None? {
      return Fail;
    }
    var c := body[|Blobs(datas.value)|..];
    if |c| < 4 || UnLE(c[..4]) != COMMIT_MAGIC {
      return Stop;
    }
    if |c| < 16 {
      return Fail;
    }
    var buf, _ := Serialize(crc, seqNo, datas.value);
    if crc(buf) % U32 != UnLE(c[12..16]) {
      return Stop;
    }
    return Got(Rec(seqNo, datas.value), |buf| + 16);
  }

  /** One round of `initNextSeq` over the unread bytes. */
  method InitRound(crc: Crc, s: seq<byte>) returns (r: Step)
    ensures r == InitNext(crc, s)
  {
    hide ReadDescs, ReadBlobs, Payload, Blobs, UnLE;
    if |s| == 0 {
      return Stop;
    }
    if |s| < 4 {
      return Fail;
    }
    if UnLE(s[..4]) != JOURNAL_MAGIC {
      return Stop;
    }
    if |s| < 16 {
      return Fail;
    }
    var seqNo, nDesc := UnLE(s[4..12]), UnLE(s[12..16]);
    if DESC_SIZE * nDesc > |s| - 16 {
      return Stop;
    }
    var descs := ScanDescs(s[16..], nDesc);
    var body := s[16 + DESC_SIZE * nDesc..];
    var datas := ScanBlobs(body, descs);
    if datas.None? {
      return Stop;
    }
    var c := body[|Blobs(datas.value)|..];
    if |c| == 0 {
      return Stop;
    }
    if |c| < 4 {
      return Fail;
    }
    if UnLE(c[..4]) != COMMIT_MAGIC {
      return Stop;
    }
    if |c| < 16 {
      return Fail;
    }
    var buf, _ := Serialize(crc, seqNo, datas.value);
    if crc(buf) % U32 == UnLE(c[12..16]) {
      return Got(Rec(seqNo, datas.value), |buf| + 16);
    }
    return Stop;
  }

  // ---------------------------------------------------------------- the journal

  /** The image and the sidecar file as a crash would leave them. */
  datatype DiskState = DiskState(img: seq<byte>, log: seq<byte>)

  /** The device states of one commit after the other: payload, record, then each block. */
  ghost function CommitStates(crc: Crc, bs: nat, img: seq<byte>, log: seq<byte>, r: Rec, n: nat): seq<DiskState>
    requires n <= |r.entries|
  {
    if n == 0 then [DiskState(img, log + Payload(r)), DiskState(img, log + Record(crc, r))]
    else CommitStates(crc, bs, img, log, r, n - 1) + [DiskState(ApplyAll(bs, img, r.entries[..n]), log + Record(crc, r))]
  }

  class Journal {
    const crc: Crc
    const bs: nat
    const blocks: nat
    var enabled: bool
    var js: seq<byte>
    var img: seq<byte>
    var nextSeq: nat
    var applySeq: nat
    var appendOff: nat
    ghost var history: seq<DiskState>

    /** Nobody else is committing: the next number is the one to apply. */
    ghost predicate Idle()
      reads this
    {
      enabled ==> applySeq == nextSeq < U64 && appendOff <= |js|
    }

    constructor (crc: Crc, bs: nat, blocks: nat, img: seq<byte>, js: seq<byte>)
      ensures this.crc == crc && this.bs == bs && this.blocks == blocks && this.img == img && this.js == js
      ensures enabled && history == []
    {
      this.crc, this.bs, this.blocks, this.img, this.js := crc, bs, blocks, img, js;
      this.enabled, this.nextSeq, this.applySeq, this.appendOff, this.history := true, 0, 0, 0, [];
    }

    method WriteImage(off: nat, s: seq<byte>)
      modifies this`img, this`history
      ensures img == Store(old(img), off, s) && history == old(history) + [DiskState(img, js)]
    {
      img := Store(img, off, s);
      history := history + [DiskState(img, js)];
    }

    method WriteLog(off: nat, s: seq<byte>)
      modifies this`js, this`history
      ensures js == Store(old(js), off, s) && history == old(history) + [DiskState(img, js)]
    {
      js := Store(js, off, s);
      history := history + [DiskState(img, js)];
    }

    /** `initNextSeq`. */
    method InitNextSeq() returns (ok: bool)
      modifies this`nextSeq, this`appendOff
      ensures ok <==> InitFrom(crc, js, 0).Some?
      ensures ok ==> nextSeq == InitFrom(crc, js, 0).value && appendOff == |js|
    {
      hide InitNext;
      var pos, lastSeq: nat := 0, 0;
      assert js[0..] == js;
      while true
        invariant 0 <= pos <= |js|
        invariant InitFrom(crc, js, 0) == InitFrom(crc, js[pos..], lastSeq)
        decreases |js| - pos
      {
        var round := InitRound(crc, js[pos..]);
        match round {
          case Stop => break;
          case Fail => return false;
          case Got(rec, size) =>
            if rec.seqNo > lastSeq {
              lastSeq := rec.seqNo;
            }
            assert js[pos..][size..] == js[pos + size..];
            pos := pos + size;
        }
      }
      nextSeq := (lastSeq + 1) % U64;
      appendOff := |js|;
      return true;
    }

    /** `ReplayOnOpen`. */
    method ReplayOnOpen() returns (ok: bool)
      modifies this`img, this`nextSeq, this`history
      ensures enabled ==> Outcome(ok, img, nextSeq) == ReplayFrom(crc, bs, blocks, js, old(img), old(nextSeq))
      ensures !enabled ==> ok && img == old(img) && nextSeq == old(nextSeq)
    {
      hide ReplayNext;
      if !enabled {
        return true;
      }
      var pos := 0;
      assert js[0..] == js;
      while true
        invariant 0 <= pos <= |js|
        invariant ReplayFrom(crc, bs, blocks, js, old(img), old(nextSeq)) == ReplayFrom(crc, bs, blocks, js[pos..], img, nextSeq)
        decreases |js| - pos
      {
        var round := ReplayRound(crc, js[pos..]);
        match round {
          case Stop => return true;
          case Fail => return false;
          case Got(rec, size) =>
            var applied := ApplyEntries(rec.entries);
            if !applied {
              return false;
            }
            assert rec.entries[..|rec.entries|] == rec.entries;
            if rec.seqNo >= nextSeq {
              nextSeq := (rec.seqNo + 1) % U64;
            }
            assert js[pos..][size..] == js[pos + size..];
            pos := pos + size;
        }
      }
    }

    /** The apply loop of replay, which stops at a block outside the filesystem. */
    method ApplyEntries(es: seq<Entry>) returns (ok: bool)
      modifies this`img, this`history
      ensures ok <==> GoodEntries(blocks, es) == |es|
      ensures img == ApplyAll(bs, old(img), es[..GoodEntries(blocks, es)])
    {
      var i := 0;
      assert es[..0] == [];
      while i < |es|
        invariant 0 <= i <= |es| && i <= GoodEntries(blocks, es)
        invariant img == ApplyAll(bs, old(img), es[..i])
      {
        if es[i].block >= blocks {
          return false;
        }
        assert es[..i + 1][..i] == es[..i];
        WriteImage(es[i].block * bs, es[i].data);
        i := i + 1;
      }
      return true;
    }

    /** `OpenJournal` followed by the replay of `Open`. */
    method Open() returns (ok: bool)
      requires enabled
      modifies this
      ensures match OpenFs(crc, bs, blocks, old(js), old(img))
              case Disabled(i) => ok && !enabled && img == i
              case Refused(i) => !ok && img == i
              case Enabled(i, next, apply) => ok && enabled && img == i && nextSeq == next && applySeq == apply && appendOff == |js|
      ensures js == old(js)
    {
      hide InitFrom, ReplayFrom;
      var scanned := InitNextSeq();
      if !scanned {
        enabled := false;
        return true;
      }
      applySeq := nextSeq;
      ok := ReplayOnOpen();
    }

    /** `reserveAppend`: a fresh range at the end of the log. */
    method ReserveAppend(n: nat) returns (off: nat)
      modifies this`appendOff
      ensures off == Max(old(appendOff), |js|) && appendOff == off + n
    {
      if appendOff < |js| {
        appendOff := |js|;
      }
      off := appendOff;
      appendOff := appendOff + n;
    }

    /** `Commit`: logs the transaction, then applies it in sequence order. */
    method Commit(tx: Transaction) returns (ok: bool)
      requires Idle()
      modifies this, tx
      ensures Idle() && enabled == old(enabled) && tx.committed && tx.entries == old(tx.entries)
      ensures ok <==> !old(tx.committed)
      ensures ok && enabled ==>
                var r := Rec(old(nextSeq), tx.entries);
                && js == old(js) + Record(crc, r) && img == ApplyAll(bs, old(img), tx.entries)
                && nextSeq == (old(nextSeq) + 1) % U64
                && history == old(history) + CommitStates(crc, bs, old(img), old(js), r, |tx.entries|)
      ensures !ok || !enabled ==> img == old(img) && js == old(js) && nextSeq == old(nextSeq) && history == old(history)
    {
      hide Payload, Trailer, Store, LE;
      if tx.committed {
        return false;
      }
      var entries := tx.entries;
      tx.committed := true;
      if !enabled {
        return true;
      }
      var seqNo := nextSeq;
      nextSeq := (nextSeq + 1) % U64;
      ghost var r := Rec(seqNo, entries);
      var buf, cbuf := Serialize(crc, seqNo, entries);
      var off := ReserveAppend(|buf| + |cbuf|);
      StoreEnd(js, buf);
      WriteLog(off, buf);
      StoreEnd(js, cbuf);
      WriteLog(off + |buf|, cbuf);
      assert js == old(js) + Record(crc, r);
      ApplyOwn(entries, r, old(img), old(js));
      if applySeq == seqNo {
        applySeq := (seqNo + 1) % U64;
      }
      return true;
    }

    /** The apply loop of `Commit`. */
    method ApplyOwn(entries: seq<Entry>, ghost r: Rec, ghost img0: seq<byte>, ghost log: seq<byte>)
      requires r.entries == entries && img == img0 && js == log + Record(crc, r)
      requires |history| >= 2 && history[|history| - 2..] == CommitStates(crc, bs, img0, log, r, 0)
      modifies this`img, this`history
      ensures img == ApplyAll(bs, img0, entries)
      ensures history == old(history)[..|old(history)| - 2] + CommitStates(crc, bs, img0, log, r, |entries|)
    {
      hide Payload, Record, Store;
      var i := 0;
      assert entries[..0] == [];
      while i < |entries|
        invariant 0 <= i <= |entries|
        invariant img == ApplyAll(bs, img0, entries[..i])
        invariant history == old(history)[..|old(history)| - 2] + CommitStates(crc, bs, img0, log, r, i)
      {
        assert entries[..i + 1][..i] == entries[..i];
        WriteImage(entries[i].block * bs, entries[i].data);
        i := i + 1;
      }
      assert entries[..i] == entries;
    }
  }

  lemma StoreEnd(s: seq<byte>, t: seq<byte>)
    ensures Store(s, |s|, t) == s + t
  {
  }

  // ---------------------------------------------------------------- ranges and sessions

  /** A byte-range write. */
  datatype Range = Range(start: int, data: seq<byte>)

  /** The image after writing the ranges directly, in order. */
  function DirectAll(img: seq<byte>, rs: seq<Range>): seq<byte>
    decreases |rs|
  {
    if rs == [] then img
    else
      var n := |rs| - 1;
      if rs[n].start < 0 then DirectAll(img, rs[..n])
      else Store(DirectAll(img, rs[..n]), rs[n].start, rs[n].data)
  }

  lemma OverlaidIsStore(bs: nat, img: seq<byte>, es0: seq<Entry>, es: seq<Entry>, start: nat, data: seq<byte>)
    requires Overlaid(bs, img, es0, es, start, data)
    ensures View(bs, img, es) == Store(View(bs, img, es0), start, data)
  {
  }

  /** Any list of `addRangeToTx` calls on one transaction, then `Commit`: the image
      ends as if the ranges had been written directly, in order. */
  method CommitRanges(j: Journal, rs: seq<Range>) returns (ok: bool)
    requires j.bs > 0 && j.Idle() && j.enabled
    modifies j
    ensures ok <==> forall k :: 0 <= k < |rs| ==> rs[k].start >= 0 && (|rs[k].data| == 0 || Readable(j.bs, |old(j.img)|, rs[k].start, |rs[k].data|))
    ensures ok ==> j.img == DirectAll(old(j.img), rs)
    ensures !ok ==> j.img == old(j.img) && j.js == old(j.js)
  {
    hide Prepared, View, Readable, Overlaid, Store, Record;
    var tx := new Transaction();
    ghost var img := j.img;
    PreparedEmpty(j.bs, img);
    var k := 0;
    while k < |rs|
      invariant 0 <= k <= |rs| && !tx.committed && fresh(tx)
      invariant j.img == img && j.js == old(j.js) && j.Idle() && j.enabled
      invariant Prepared(j.bs, |img|, tx.entries)
      invariant forall i :: 0 <= i < k ==> rs[i].start >= 0 && (|rs[i].data| == 0 || Readable(j.bs, |img|, rs[i].start, |rs[i].data|))
      invariant View(j.bs, img, tx.entries) == DirectAll(img, rs[..k])
    {
      ghost var es := tx.entries;
      var added := tx.AddRange(j.bs, j.img, rs[k].start, rs[k].data);
      if !added {
        return false;
      }
      OverlaidIsStore(j.bs, img, es, tx.entries, rs[k].start, rs[k].data);
      assert rs[..k + 1][..k] == rs[..k];
      k := k + 1;
    }
    assert rs[..k] == rs;
    ok := j.Commit(tx);
    ViewIs(j.bs, img, tx.entries);
  }

  lemma PreparedEmpty(bs: nat, img: seq<byte>)
    ensures Prepared(bs, |img|, []) && View(bs, img, []) == img
  {
  }

  lemma ViewIs(bs: nat, img: seq<byte>, es: seq<Entry>)
    ensures View(bs, img, es) == ApplyAll(bs, img, es)
  {
  }

  /** `applyOrJournalWrite`: with the journal on, the touched blocks are merged from
      the image into one transaction and committed. */
  method ApplyOrJournalWrite(j: Journal, start: int, data: seq<byte>) returns (ok: bool)
    requires j.bs > 0 && j.Idle()
    modifies j
    ensures j.enabled == old(j.enabled) && j.Idle()
    ensures ok ==> start >= 0 && j.img == Store(old(j.img), start, data)
    ensures !ok ==> j.img == old(j.img) && j.js == old(j.js)
    ensures !j.enabled ==> (ok <==> start >= 0)
    ensures j.enabled ==> (ok <==> start >= 0 && (|data| == 0 || Readable(j.bs, |old(j.img)|, start, |data|)))
  {
    hide Prepared, View, Readable, Overlaid, Store, Record;
    if !j.enabled {
      if start < 0 {
        return false;
      }
      j.WriteImage(start, data);
      return true;
    }
    var tx := new Transaction();
    if start < 0 {
      return false;
    }
    ok := StageBlocks(tx, j.bs, j.img, start, data);
    if ok {
      ghost var img := j.img;
      var done := j.Commit(tx);
      ViewIs(j.bs, img, tx.entries);
    }
  }

  /** The staging loop of `applyOrJournalWrite`. */
  method StageBlocks(tx: Transaction, bs: nat, img: seq<byte>, start: nat, data: seq<byte>) returns (ok: bool)
    requires bs > 0 && tx.entries == [] && !tx.committed
    modifies tx
    ensures !tx.committed
    ensures ok <==> |data| == 0 || Readable(bs, |img|, start, |data|)
    ensures ok ==> View(bs, img, tx.entries) == Store(img, start, data)
  {
    hide Prepared, View, Readable, BlockIn, Store, Staged, Overlaid;
    StageStart(bs, img, start);
    StartBlock(bs, start);
    var bnum: nat, offInBlock: nat, idx: nat := start / bs, start % bs, 0;
    while idx < |data|
      invariant 0 <= idx <= |data| && !tx.committed
      invariant idx < |data| ==> bnum * bs + offInBlock == start + idx && offInBlock < bs
      invariant idx > 0 && idx < |data| ==> offInBlock == 0
      invariant Prepared(bs, |img|, tx.entries)
      invariant Staged(bs, img, tx.entries, start, data[..idx])
      invariant idx == |data| && idx > 0 ==> Readable(bs, |img|, start, |data|)
    {
      ghost var es := tx.entries;
      var copyLen := Min(bs - offInBlock, |data| - idx);
      PieceReadable(bs, |img|, bnum, offInBlock, start, idx, |data|);
      WholeBlock(bs, |img|, bnum);
      var staged := StageOne(tx, bs, img, bnum, offInBlock, data[idx..idx + copyLen]);
      if !staged {
        return false;
      }
      StageStep(bs, img, es, tx.entries, bnum, offInBlock, start, data, idx, copyLen);
      NextBlock(bs, |img|, bnum, offInBlock, start, idx, |data|, copyLen);
      idx := idx + copyLen;
      bnum, offInBlock := bnum + 1, 0;
    }
    assert data[..idx] == data;
    StagedAll(bs, img, tx.entries, start, data);
    return true;
  }

  /** Reads one block of the image, merges chunk into it and stages the whole block. */
  method StageOne(tx: Transaction, bs: nat, img: seq<byte>, b: nat, off: nat, chunk: seq<byte>) returns (ok: bool)
    requires bs > 0 && Prepared(bs, |img|, tx.entries) && !tx.committed && off + |chunk| <= bs
    modifies tx
    ensures !tx.committed && Prepared(bs, |img|, tx.entries)
    ensures ok <==> b * bs + bs <= |img|
    ensures ok ==> Overlaid(bs, img, old(tx.entries), tx.entries, b * bs, Put(BlockIn(bs, img, b), off, chunk))
  {
    hide Prepared, Readable, BlockIn, Overlaid;
    if b * bs + bs > |img| {
      return false;
    }
    WholeBlock(bs, |img|, b);
    ok := tx.AddRange(bs, img, b * bs, Put(BlockIn(bs, img, b), off, chunk));
  }

  lemma WholeBlock(bs: nat, size: nat, b: nat)
    requires bs > 0
    ensures Readable(bs, size, b * bs, bs) <==> b * bs + bs <= size
  {
    DivModUnique(b * bs + bs - 1, bs, b, bs - 1);
  }

  lemma StageStart(bs: nat, img: seq<byte>, start: nat)
    ensures Prepared(bs, |img|, []) && Staged(bs, img, [], start, [])
  {
  }

  /** The view is the image with s written at start. */
  ghost predicate Staged(bs: nat, img: seq<byte>, es: seq<Entry>, start: nat, s: seq<byte>) {
    if s == [] then View(bs, img, es) == img
    else start + |s| <= |img| && View(bs, img, es) == Put(img, start, s)
  }

  lemma StageStep(bs: nat, img: seq<byte>, es: seq<Entry>, es': seq<Entry>, b: nat, off: nat, start: nat, data: seq<byte>, idx: nat, n: nat)
    requires 0 < n && idx + n <= |data| && off + n <= bs && b * bs + off == start + idx && (idx > 0 ==> off == 0) && b * bs + bs <= |img|
    requires Staged(bs, img, es, start, data[..idx])
    requires Overlaid(bs, img, es, es', b * bs, Put(BlockIn(bs, img, b), off, data[idx..idx + n]))
    ensures Staged(bs, img, es', start, data[..idx + n])
  {
    hide View, BlockIn, Put;
    MergedBlock(bs, img, View(bs, img, es), b, start, data[..idx], off, data[idx..idx + n]);
    assert data[..idx + n] == data[..idx] + data[idx..idx + n];
  }

  /** Writing back a whole block read from the image extends the bytes written so far. */
  lemma MergedBlock(bs: nat, img: seq<byte>, v: seq<byte>, b: nat, start: nat, s: seq<byte>, off: nat, chunk: seq<byte>)
    requires b * bs + bs <= |img| && b * bs + off == start + |s| && off + |chunk| <= bs && (s != [] ==> off == 0)
    requires if s == [] then v == img else v == Put(img, start, s)
    ensures |v| == |img| && start + |s| + |chunk| <= |img|
    ensures Put(v, b * bs, Put(BlockIn(bs, img, b), off, chunk)) == Put(img, start, s + chunk)
  {
    hide Put;
    MergedRange(img, v, b * bs, bs, start, s, off, chunk);
  }

  lemma MergedRange(img: seq<byte>, v: seq<byte>, lo: nat, bs: nat, start: nat, s: seq<byte>, off: nat, chunk: seq<byte>)
    requires lo + bs <= |img| && lo + off == start + |s| && off + |chunk| <= bs && (s != [] ==> off == 0)
    requires if s == [] then v == img else v == Put(img, start, s)
    ensures |v| == |img| && start + |s| + |chunk| <= |img|
    ensures Put(v, lo, Put(img[lo..lo + bs], off, chunk)) == Put(img, start, s + chunk)
  {
  }

  lemma StagedAll(bs: nat, img: seq<byte>, es: seq<Entry>, start: nat, s: seq<byte>)
    requires Staged(bs, img, es, start, s)
    ensures View(bs, img, es) == Store(img, start, s)
  {
    hide View;
  }

  // ---------------------------------------------------------------- a session from an empty log

  /** Reopening after a crash in state h yields the first k transactions, ready to commit the next. */
  ghost predicate RecoversTo(crc: Crc, bs: nat, blocks: nat, img0: seq<byte>, recs: seq<Rec>, h: DiskState, k: nat) {
    k <= |recs| && OpenFs(crc, bs, blocks, h.log, h.img) == Enabled(Recovered(bs, img0, recs, k), k + 1, k + 1)
  }

  ghost predicate Recovers(crc: Crc, bs: nat, blocks: nat, img0: seq<byte>, recs: seq<Rec>, h: DiskState) {
    exists k: nat :: RecoversTo(crc, bs, blocks, img0, recs, h, k)
  }

  ghost predicate AllRecover(crc: Crc, bs: nat, blocks: nat, img0: seq<byte>, recs: seq<Rec>, hs: seq<DiskState>) {
    forall i :: 0 <= i < |hs| ==> Recovers(crc, bs, blocks, img0, recs, hs[i])
  }

  /** Every device state of commit k recovers to the transactions before it, or with it. */
  lemma CommitRecovers(crc: Crc, bs: nat, blocks: nat, img0: seq<byte>, recs: seq<Rec>, k: nat, n: nat)
    requires Session(blocks, recs) && k < |recs| && n <= |recs[k].entries|
    ensures AllRecover(crc, bs, blocks, img0, recs, CommitStates(crc, bs, Recovered(bs, img0, recs, k), Log(crc, recs[..k]), recs[k], n))
  {
    hide OpenFs, Recovered, ApplyAll, Log, Record, Payload, Session;
    var img, log, r := Recovered(bs, img0, recs, k), Log(crc, recs[..k]), recs[k];
    if n == 0 {
      TornAtPayload(crc, r);
      CommitCrashPoints(crc, bs, img0, recs, k, 0, |Payload(r)|);
      CrashRecovery(crc, bs, blocks, img0, recs, k, |Payload(r)|, |AllEntries(recs[..k])|, img, log + Payload(r));
      assert RecoversTo(crc, bs, blocks, img0, recs, DiskState(img, log + Payload(r)), k);
      assert r.entries[..0] == [];
      ApplyNone(bs, img);
    } else {
      CommitRecovers(crc, bs, blocks, img0, recs, k, n - 1);
      CommitCrashPoints(crc, bs, img0, recs, k, n, 0) by { assert |Record(crc, r)| >= 16; }
    }
    var now := DiskState(ApplyAll(bs, img, r.entries[..n]), log + Record(crc, r));
    CommitCrashPoints(crc, bs, img0, recs, k, n, 0) by { assert |Record(crc, r)| >= 16; }
    CrashRecovery(crc, bs, blocks, img0, recs, k + 1, 0, |AllEntries(recs[..k])| + n, now.img, now.log);
    assert RecoversTo(crc, bs, blocks, img0, recs, now, k + 1);
  }

  lemma ApplyNone(bs: nat, img: seq<byte>)
    ensures ApplyAll(bs, img, []) == img
  {
  }

  lemma TornAtPayload(crc: Crc, r: Rec)
    ensures |Payload(r)| < |Record(crc, r)| && Record(crc, r)[..|Payload(r)|] == Payload(r) && |Payload(r)| >= 16
  {
  }

  /** The records of a session that commits these transactions one after the other. */
  function Numbered(txs: seq<seq<Entry>>): (recs: seq<Rec>)
    ensures |recs| == |txs|
  {
    seq(|txs|, i requires 0 <= i < |txs| => Rec(i + 1, txs[i]))
  }

  /** One transaction, filled and committed. */
  method CommitEntries(j: Journal, es: seq<Entry>)
    requires j.Idle() && j.enabled
    modifies j
    ensures j.Idle() && j.enabled && j.nextSeq == (old(j.nextSeq) + 1) % U64
    ensures var r := Rec(old(j.nextSeq), es);
            && j.js == old(j.js) + Record(j.crc, r) && j.img == ApplyAll(j.bs, old(j.img), es)
            && j.history == old(j.history) + CommitStates(j.crc, j.bs, old(j.img), old(j.js), r, |es|)
  {
    hide Record, ApplyAll, CommitStates;
    var tx := new Transaction();
    tx.entries := es;
    var done := j.Commit(tx);
  }

  /** Commits from an empty log: the image is the fold of the transactions, and a
      crash after any device write recovers a whole number of them. */
  method RunSession(j: Journal, txs: seq<seq<Entry>>)
    requires j.enabled && j.js == [] && j.nextSeq == 1 && j.applySeq == 1 && j.appendOff == 0
    requires Session(j.blocks, Numbered(txs))
    modifies j
    ensures j.js == Log(j.crc, Numbered(txs)) && j.img == Recovered(j.bs, old(j.img), Numbered(txs), |txs|)
    ensures old(j.history) <= j.history
    ensures AllRecover(j.crc, j.bs, j.blocks, old(j.img), Numbered(txs), j.history[|old(j.history)|..])
  {
    hide AllRecover, Recovered, Log, Record, Session, CommitStates, ApplyAll, SessionAt, Numbered;
    ghost var img0, past, steps := j.img, j.history, [];
    SessionStart(j.crc, j.bs, j.blocks, img0, txs);
    var k := 0;
    while k < |txs|
      invariant 0 <= k <= |txs| && j.Idle() && j.enabled && j.nextSeq == k + 1
      invariant SessionAt(j.crc, j.bs, j.blocks, img0, txs, k, j.img, j.js, steps)
      invariant j.history == past + steps
    {
      ghost var cs := CommitStates(j.crc, j.bs, j.img, j.js, Rec(k + 1, txs[k]), |txs[k]|);
      SessionNext(j.crc, j.bs, j.blocks, img0, txs, k, j.img, j.js, steps);
      CommitEntries(j, txs[k]);
      assert past + steps + cs == past + (steps + cs);
      steps := steps + cs;
      k := k + 1;
    }
    SessionEnd(j.crc, j.bs, j.blocks, img0, txs, j.img, j.js, steps);
    assert (past + steps)[|past|..] == steps;
  }

  ghost predicate SessionAt(crc: Crc, bs: nat, blocks: nat, img0: seq<byte>, txs: seq<seq<Entry>>, k: nat, img: seq<byte>, js: seq<byte>, steps: seq<DiskState>)
    requires k <= |txs|
  {
    && js == Log(crc, Numbered(txs)[..k]) && img == Recovered(bs, img0, Numbered(txs), k)
    && AllRecover(crc, bs, blocks, img0, Numbered(txs), steps)
  }

  lemma RecoverJoin(crc: Crc, bs: nat, blocks: nat, img0: seq<byte>, recs: seq<Rec>, hs: seq<DiskState>, ts: seq<DiskState>)
    requires AllRecover(crc, bs, blocks, img0, recs, hs) && AllRecover(crc, bs, blocks, img0, recs, ts)
    ensures AllRecover(crc, bs, blocks, img0, recs, hs + ts)
  {
    hide Recovers;
  }

  lemma SessionStart(crc: Crc, bs: nat, blocks: nat, img0: seq<byte>, txs: seq<seq<Entry>>)
    ensures SessionAt(crc, bs, blocks, img0, txs, 0, img0, [], [])
  {
  }

  lemma SessionEnd(crc: Crc, bs: nat, blocks: nat, img0: seq<byte>, txs: seq<seq<Entry>>, img: seq<byte>, js: seq<byte>, steps: seq<DiskState>)
    requires SessionAt(crc, bs, blocks, img0, txs, |txs|, img, js, steps)
    ensures js == Log(crc, Numbered(txs)) && img == Recovered(bs, img0, Numbered(txs), |txs|)
    ensures AllRecover(crc, bs, blocks, img0, Numbered(txs), steps)
  {
    hide AllRecover, Log, Recovered;
    assert Numbered(txs)[..|txs|] == Numbered(txs);
  }

  lemma SessionNext(crc: Crc, bs: nat, blocks: nat, img0: seq<byte>, txs: seq<seq<Entry>>, k: nat, img: seq<byte>, js: seq<byte>, steps: seq<DiskState>)
    requires k < |txs| && SessionAt(crc, bs, blocks, img0, txs, k, img, js, steps) && Session(blocks, Numbered(txs))
    ensures (k + 2) % U64 == k + 2
    ensures SessionAt(crc, bs, blocks, img0, txs, k + 1, ApplyAll(bs, img, txs[k]), js + Record(crc, Rec(k + 1, txs[k])),
                      steps + CommitStates(crc, bs, img, js, Rec(k + 1, txs[k]), |txs[k]|))
  {
    hide Record, CommitStates, AllRecover, ApplyAll, Recovered, Log, Session, Numbered;
    var recs := Numbered(txs);
    NumberedAt(txs, k);
    SessionRoom(blocks, recs, k);
    CommitRecovers(crc, bs, blocks, img0, recs, k, |txs[k]|);
    RecoveredNext(crc, bs, img0, recs, k);
    RecoverJoin(crc, bs, blocks, img0, recs, steps, CommitStates(crc, bs, img, js, recs[k], |txs[k]|));
  }

  lemma NumberedAt(txs: seq<seq<Entry>>, k: nat)
    requires k < |txs|
    ensures Numbered(txs)[k] == Rec(k + 1, txs[k])
  {
  }

  lemma SessionRoom(blocks: nat, recs: seq<Rec>, k: nat)
    requires Session(blocks, recs) && k < |recs|
    ensures (k + 2) % U64 == k + 2
  {
  }

  lemma RecoveredNext(crc: Crc, bs: nat, img0: seq<byte>, recs: seq<Rec>, k: nat)
    requires k < |recs|
    ensures Recovered(bs, img0, recs, k + 1) == ApplyAll(bs, Recovered(bs, img0, recs, k), recs[k].entries)
    ensures Log(crc, recs[..k + 1]) == Log(crc, recs[..k]) + Record(crc, recs[k])
  {
    hide ApplyAll, Record;
    assert recs[..k + 1] == recs[..k] + [recs[k]];
    LogAppend(crc, recs[..k], recs[k]);
    ApplyAppend(bs, img0, AllEntries(recs[..k]), recs[k].entries);
  }

  /** A torn log write between the device states of a session is recovered too. */
  lemma TornCommitRecovers(crc: Crc, bs: nat, blocks: nat, img0: seq<byte>, recs: seq<Rec>, k: nat, n: nat)
    requires Session(blocks, recs) && k < |recs| && n < |Record(crc, recs[k])|
    ensures OpenFs(crc, bs, blocks, Log(crc, recs[..k]) + Record(crc, recs[k])[..n], Recovered(bs, img0, recs, k)).img == Recovered(bs, img0, recs, k)
  {
    hide OpenFs, ApplyAll, Log, Record, Session;
    CommitCrashPoints(crc, bs, img0, recs, k, 0, n);
    SequentialRecovery(crc, bs, blocks, img0, recs, k, n, |AllEntries(recs[..k])|, Recovered(bs, img0, recs, k), Log(crc, recs[..k]) + Record(crc, recs[k])[..n]);
  }
}
