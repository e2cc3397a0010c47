/** The sidecar redo log (journal.go): its record format, and the two scanners that
    read it when a filesystem is opened. */
module JournalLog {
  import opened Bytes

  const JOURNAL_MAGIC: nat := 0x4A424432
  const COMMIT_MAGIC: nat := 0x434D4954
  const DESC_SIZE: nat := 12

  /** A block image held by a transaction. */
  datatype Entry = Entry(block: nat, data: seq<byte>)

  /** One logged transaction. */
  datatype Rec = Rec(seqNo: nat, entries: seq<Entry>)

  /** The checksum is any function of the bytes; the record keeps its low 32 bits. */
  type Crc = seq<byte> -> nat

  // ---------------------------------------------------------------- writing

  function Descs(es: seq<Entry>): (s: seq<byte>)
    ensures |s| == DESC_SIZE * |es|
  {
    if es == [] then [] else LE(es[0].block, 8) + LE(|es[0].data|, 4) + Descs(es[1..])
  }

  function Blobs(es: seq<Entry>): seq<byte> {
    if es == [] then [] else es[0].data + Blobs(es[1..])
  }

  /** Header, descriptors and data: everything the checksum covers. */
  function Payload(r: Rec): (s: seq<byte>)
    ensures |s| == 16 + DESC_SIZE * |r.entries| + |Blobs(r.entries)|
  {
    LE(JOURNAL_MAGIC, 4) + LE(r.seqNo, 8) + LE(|r.entries|, 4) + Descs(r.entries) + Blobs(r.entries)
  }

  function Trailer(crc: Crc, r: Rec): (s: seq<byte>)
    ensures |s| == 16
  {
    LE(COMMIT_MAGIC, 4) + LE(r.seqNo, 8) + LE(crc(Payload(r)), 4)
  }

  function Record(crc: Crc, r: Rec): (s: seq<byte>)
    ensures |s| == |Payload(r)| + 16
  {
    Payload(r) + Trailer(crc, r)
  }

  /** A transaction whose fields fit the record format. */
  predicate Loggable(r: Rec) {
    && r.seqNo < U64 && |r.entries| < U32
    && forall i :: 0 <= i < |r.entries| ==> r.entries[i].block < U64 && |r.entries[i].data| < U32
  }

  // ---------------------------------------------------------------- reading

  datatype Desc = Desc(block: nat, len: nat)

  function ReadDescs(s: seq<byte>, n: nat): (ds: seq<Desc>)
    requires DESC_SIZE * n <= |s|
    ensures |ds| == n
    decreases n
  {
    if n == 0 then [] else [Desc(UnLE(s[..8]), UnLE(s[8..12]))] + ReadDescs(s[12..], n - 1)
  }

  /** The data blobs, unless a descriptor claims more bytes than remain. */
  function ReadBlobs(s: seq<byte>, ds: seq<Desc>): (r: Option<seq<Entry>>)
    ensures r.Some? ==> |r.value| == |ds| && |Blobs(r.value)| <= |s|
    decreases |ds|
  {
    if ds == [] then Some([])
    else if ds[0].len > |s| then None
    else
      var rest := ReadBlobs(s[ds[0].len..], ds[1..]);
      if rest.None? then None
      else
        var e := Entry(ds[0].block, s[..ds[0].len]);
        assert ([e] + rest.value)[1..] == rest.value;
        Some([e] + rest.value)
  }

  /** What a scanner makes of the bytes at its cursor. */
  datatype Step = Stop | Fail | Got(rec: Rec, size: nat)

  /** The commit record of rec, as `ReplayOnOpen` reads it. */
  function ReplayCommit(crc: Crc, rec: Rec, c: seq<byte>): (r: Step)
    ensures r.Got? ==> |c| >= 16 && r == Got(rec, |Payload(rec)| + 16)
  {
    if |c| < 4 then Stop
    else if UnLE(c[..4]) != COMMIT_MAGIC then Stop
    else if |c| < 16 then Fail
    else if UnLE(c[12..16]) != crc(Payload(rec)) % U32 then Stop
    else Got(rec, |Payload(rec)| + 16)
  }

  /** The commit record of rec, as `initNextSeq` reads it. */
  function InitCommit(crc: Crc, rec: Rec, c: seq<byte>): (r: Step)
    ensures r.Got? ==> |c| >= 16 && r == Got(rec, |Payload(rec)| + 16)
  {
    if |c| == 0 then Stop
    else if |c| < 4 then Fail
    else if UnLE(c[..4]) != COMMIT_MAGIC then Stop
    else if |c| < 16 then Fail
    else if UnLE(c[12..16]) == crc(Payload(rec)) % U32 then Got(rec, |Payload(rec)| + 16)
    else Stop
  }

  /** One round of the loop in `ReplayOnOpen`. */
  function ReplayNext(crc: Crc, s: seq<byte>): (r: Step)
    ensures r.Got? ==> 32 <= r.size <= |s|
  {
    if |s| == 0 then Stop
    else if |s| < 4 then Fail
    else if UnLE(s[..4]) != JOURNAL_MAGIC then Stop
    else if |s| < 16 then Fail
    else
      var nDesc := UnLE(s[12..16]);
      if DESC_SIZE * nDesc > |s| - 16 then Fail
      else
        var ds := ReadDescs(s[16..], nDesc);
        var body := s[16 + DESC_SIZE * nDesc..];
        var blobs := ReadBlobs(body, ds);
        if blobs.None? then Fail
        else
          var rec := Rec(UnLE(s[4..12]), blobs.value);
          ReplayCommit(crc, rec, body[|Blobs(blobs.value)|..])
  }

  /** One round of the loop in `initNextSeq`: an oversized claim ends the scan and a
      torn commit record is an error, the reverse of the replay loop. */
  function InitNext(crc: Crc, s: seq<byte>): (r: Step)
    ensures r.Got? ==> 32 <= r.size <= |s|
  {
    if |s| == 0 then Stop
    else if |s| < 4 then Fail
    else if UnLE(s[..4]) != JOURNAL_MAGIC then Stop
    else if |s| < 16 then Fail
    else
      var nDesc := UnLE(s[12..16]);
      if DESC_SIZE * nDesc > |s| - 16 then Stop
      else
        var ds := ReadDescs(s[16..], nDesc);
        var body := s[16 + DESC_SIZE * nDesc..];
        var blobs := ReadBlobs(body, ds);
        if blobs.None? then Stop
        else
          var rec := Rec(UnLE(s[4..12]), blobs.value);
          InitCommit(crc, rec, body[|Blobs(blobs.value)|..])
  }

  /** Both scanners accept the same records. */
  lemma SameAcceptance(crc: Crc, s: seq<byte>)
    ensures ReplayNext(crc, s).Got? || InitNext(crc, s).Got? ==> ReplayNext(crc, s) == InitNext(crc, s)
  {
  }

  // ---------------------------------------------------------------- round trip

  function DescList(es: seq<Entry>): (ds: seq<Desc>)
    ensures |ds| == |es|
  {
    seq(|es|, i requires 0 <= i < |es| => Desc(es[i].block, |es[i].data|))
  }

  lemma {:induction false} DescsRoundTrip(es: seq<Entry>, t: seq<byte>)
    requires forall i :: 0 <= i < |es| ==> es[i].block < U64 && |es[i].data| < U32
    ensures ReadDescs(Descs(es) + t, |es|) == DescList(es)
    decreases |es|
  {
    hide LE, UnLE;
    if es != [] {
      var s := Descs(es) + t;
      assert s[..8] == LE(es[0].block, 8);
      assert s[8..12] == LE(|es[0].data|, 4);
      assert s[12..] == Descs(es[1..]) + t;
      Field64(es[0].block);
      Field32(|es[0].data|);
      DescsRoundTrip(es[1..], t);
      assert DescList(es) == [Desc(es[0].block, |es[0].data|)] + DescList(es[1..]);
    }
  }

  lemma {:induction false} BlobsRoundTrip(es: seq<Entry>, t: seq<byte>)
    ensures ReadBlobs(Blobs(es) + t, DescList(es)) == Some(es)
    decreases |es|
  {
    hide ReadBlobs, DescList, Blobs;
    BlobsEdge(es, t);
    if es != [] {
      BlobsRoundTrip(es[1..], t);
      ReadBlob(es[0], Blobs(es[1..]) + t, DescList(es[1..]));
      assert es == [es[0]] + es[1..];
    }
  }

  lemma BlobsEdge(es: seq<Entry>, t: seq<byte>)
    ensures es == [] ==> ReadBlobs(Blobs(es) + t, DescList(es)) == Some([])
    ensures es != [] ==> Blobs(es) + t == es[0].data + (Blobs(es[1..]) + t)
    ensures es != [] ==> DescList(es) == [Desc(es[0].block, |es[0].data|)] + DescList(es[1..])
  {
    hide ReadBlobs;
    if es == [] { NoBlobs(Blobs(es) + t, DescList(es)); }
  }

  lemma NoBlobs(s: seq<byte>, ds: seq<Desc>)
    requires ds == []
    ensures ReadBlobs(s, ds) == Some([])
  {
  }

  lemma ReadBlob(e: Entry, u: seq<byte>, ds: seq<Desc>)
    ensures ReadBlobs(e.data + u, [Desc(e.block, |e.data|)] + ds) ==
            match ReadBlobs(u, ds) case None => None case Some(es) => Some([e] + es)
  {
    assert (e.data + u)[..|e.data|] == e.data && (e.data + u)[|e.data|..] == u;
    assert ([Desc(e.block, |e.data|)] + ds)[1..] == ds;
  }

  /** Cut anywhere inside the data, some blob is short. */
  lemma {:induction false} BlobsTorn(es: seq<Entry>, k: nat)
    requires k < |Blobs(es)|
    ensures ReadBlobs(Blobs(es)[..k], DescList(es)) == None
    decreases |es|
  {
    var s, ds := Blobs(es)[..k], DescList(es);
    var l := |es[0].data|;
    assert ds[1..] == DescList(es[1..]);
    if l <= k {
      assert s[l..] == Blobs(es[1..])[..k - l];
      BlobsTorn(es[1..], k - l);
    }
  }

  /** The fields of a log that starts with a header. */
  lemma HeaderFields(r: Rec, s: seq<byte>)
    requires Loggable(r) && 16 <= |s|
    requires s[..16] == LE(JOURNAL_MAGIC, 4) + LE(r.seqNo, 8) + LE(|r.entries|, 4)
    ensures UnLE(s[..4]) == JOURNAL_MAGIC && UnLE(s[4..12]) == r.seqNo && UnLE(s[12..16]) == |r.entries|
  {
    var h := s[..16];
    assert s[..4] == h[..4] == LE(JOURNAL_MAGIC, 4);
    assert s[4..12] == h[4..12] == LE(r.seqNo, 8);
    assert s[12..16] == h[12..16] == LE(|r.entries|, 4);
    Field32(JOURNAL_MAGIC);
    Field64(r.seqNo);
    Field32(|r.entries|);
  }

  lemma HeadSplit(h: seq<byte>, d: seq<byte>, b: seq<byte>, t: seq<byte>)
    ensures var s, n := h + d + b + t, |h| + |d|;
            s[..|h|] == h && s[|h|..] == d + (b + t) && s[n..] == b + t && s[n..][|b|..] == t
  {
  }

  /** The parts of a log that starts with the payload of r. */
  lemma PayloadSplit(r: Rec, t: seq<byte>)
    ensures var s, n := Payload(r) + t, DESC_SIZE * |r.entries|;
            && s[..16] == LE(JOURNAL_MAGIC, 4) + LE(r.seqNo, 8) + LE(|r.entries|, 4)
            && s[16..] == Descs(r.entries) + (Blobs(r.entries) + t)
            && s[16 + n..] == Blobs(r.entries) + t
            && s[16 + n..][|Blobs(r.entries)|..] == t
  {
    hide LE, Descs, Blobs;
    HeadSplit(LE(JOURNAL_MAGIC, 4) + LE(r.seqNo, 8) + LE(|r.entries|, 4), Descs(r.entries), Blobs(r.entries), t);
  }

  /** What both scanners have read once the payload of r is behind them. */
  lemma PayloadRead(r: Rec, t: seq<byte>)
    requires Loggable(r)
    ensures var s := Payload(r) + t;
            && UnLE(s[..4]) == JOURNAL_MAGIC && UnLE(s[4..12]) == r.seqNo && UnLE(s[12..16]) == |r.entries|
            && ReadDescs(s[16..], |r.entries|) == DescList(r.entries)
            && ReadBlobs(s[16 + DESC_SIZE * |r.entries|..], DescList(r.entries)) == Some(r.entries)
            && s[16 + DESC_SIZE * |r.entries|..][|Blobs(r.entries)|..] == t
  {
    var s := Payload(r) + t;
    PayloadSplit(r, t);
    HeaderFields(r, s);
    DescsRoundTrip(r.entries, Blobs(r.entries) + t);
    BlobsRoundTrip(r.entries, t);
  }

  /** Behind a whole payload, the commit record decides. */
  lemma AfterPayload(crc: Crc, r: Rec, t: seq<byte>)
    requires Loggable(r)
    ensures ReplayNext(crc, Payload(r) + t) == ReplayCommit(crc, r, t)
    ensures InitNext(crc, Payload(r) + t) == InitCommit(crc, r, t)
  {
    hide Payload, ReadDescs, ReadBlobs, Blobs, UnLE, ReplayCommit, InitCommit, DescList, LE;
    PayloadRead(r, t);
  }

  /** A complete record is accepted by both scanners, whatever follows it. */
  lemma RecordAccepted(crc: Crc, r: Rec, t: seq<byte>)
    requires Loggable(r)
    ensures ReplayNext(crc, Record(crc, r) + t) == Got(r, |Record(crc, r)|)
    ensures InitNext(crc, Record(crc, r) + t) == Got(r, |Record(crc, r)|)
  {
    hide ReplayNext, InitNext, Payload, LE, UnLE;
    var c := Trailer(crc, r) + t;
    assert Record(crc, r) + t == Payload(r) + c;
    AfterPayload(crc, r, c);
    assert c[..4] == LE(COMMIT_MAGIC, 4);
    assert c[12..16] == LE(crc(Payload(r)), 4);
    Field32(COMMIT_MAGIC);
    Pow256Values();
    LERoundTrip(crc(Payload(r)), 4);
  }

  /** A payload whose commit record is missing or zero ends both scans cleanly. */
  lemma PayloadOnly(crc: Crc, r: Rec, t: seq<byte>)
    requires Loggable(r) && (t == [] || (|t| >= 4 && UnLE(t[..4]) != COMMIT_MAGIC))
    ensures ReplayNext(crc, Payload(r) + t) == Stop && InitNext(crc, Payload(r) + t) == Stop
  {
    hide ReplayNext, InitNext, Payload;
    AfterPayload(crc, r, t);
  }

  // ---------------------------------------------------------------- torn records

  lemma TornHeader(crc: Crc, r: Rec, n: nat)
    requires Loggable(r) && 0 < n < 16
    ensures ReplayNext(crc, Record(crc, r)[..n]) == Fail && InitNext(crc, Record(crc, r)[..n]) == Fail
  {
    var s := Record(crc, r)[..n];
    if n >= 4 {
      assert s[..4] == LE(JOURNAL_MAGIC, 4);
      Field32(JOURNAL_MAGIC);
    }
  }

  lemma TornIsPayload(crc: Crc, r: Rec, n: nat)
    requires n <= |Payload(r)|
    ensures Record(crc, r)[..n] == Payload(r)[..n]
  {
  }

  lemma TornBody(crc: Crc, r: Rec, n: nat)
    requires Loggable(r) && 16 <= n < |Payload(r)|
    ensures ReplayNext(crc, Record(crc, r)[..n]) == Fail && InitNext(crc, Record(crc, r)[..n]) == Stop
  {
    hide Record, Payload, ReadDescs, ReadBlobs, UnLE, DescList, LE, Loggable, ReplayNext, InitNext;
    TornIsPayload(crc, r, n);
    BodyRead(r, n);
    ShortBody(crc, Payload(r)[..n], DescList(r.entries));
  }

  /** Neither scanner gets past a body that is shorter than its header claims. */
  lemma ShortBody(crc: Crc, s: seq<byte>, ds: seq<Desc>)
    requires 16 <= |s| && UnLE(s[..4]) == JOURNAL_MAGIC && UnLE(s[12..16]) == |ds|
    requires var d := DESC_SIZE * |ds|;
             d <= |s| - 16 ==> ReadDescs(s[16..], |ds|) == ds && ReadBlobs(s[16 + d..], ds) == None
    ensures ReplayNext(crc, s) == Fail && InitNext(crc, s) == Stop
  {
    hide ReadDescs, ReadBlobs, Blobs, UnLE, ReplayCommit, InitCommit;
  }

  /** Cut inside the payload, the descriptors or the data they promise are short. */
  lemma BodyRead(r: Rec, n: nat)
    requires Loggable(r) && 16 <= n < |Payload(r)|
    ensures var s, d := Payload(r)[..n], DESC_SIZE * |r.entries|;
            && UnLE(s[..4]) == JOURNAL_MAGIC && UnLE(s[12..16]) == |r.entries|
            && (d <= n - 16 ==> && ReadDescs(s[16..], |r.entries|) == DescList(r.entries)
                                && ReadBlobs(s[16 + d..], DescList(r.entries)) == None)
  {
    hide Payload, LE, UnLE, ReadDescs, ReadBlobs, DescList;
    var s, d := Payload(r)[..n], DESC_SIZE * |r.entries|;
    PayloadSplit(r, []);
    assert Payload(r) + [] == Payload(r);
    assert s[..16] == Payload(r)[..16];
    HeaderFields(r, s);
    if d <= n - 16 {
      assert s[16..] == Payload(r)[16..][..n - 16] == Descs(r.entries) + Blobs(r.entries)[..n - 16 - d];
      assert s[16 + d..] == Payload(r)[16 + d..][..n - 16 - d] == Blobs(r.entries)[..n - 16 - d];
      DescsRoundTrip(r.entries, Blobs(r.entries)[..n - 16 - d]);
      BlobsTorn(r.entries, n - 16 - d);
    }
  }

  lemma TornTrailer(crc: Crc, r: Rec, n: nat)
    requires Loggable(r) && |Payload(r)| <= n < |Record(crc, r)|
    ensures ReplayNext(crc, Record(crc, r)[..n]) == if n < |Payload(r)| + 4 then Stop else Fail
    ensures InitNext(crc, Record(crc, r)[..n]) == if n == |Payload(r)| then Stop else Fail
  {
    hide ReplayNext, InitNext, Payload, LE, UnLE;
    var c := Trailer(crc, r)[..n - |Payload(r)|];
    assert Record(crc, r)[..n] == Payload(r) + c;
    AfterPayload(crc, r, c);
    if |c| >= 4 {
      assert c[..4] == LE(COMMIT_MAGIC, 4);
      Field32(COMMIT_MAGIC);
    }
  }
}
