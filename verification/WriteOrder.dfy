/** When two orders of the same block writes leave the same image, whatever the bytes
    written: exactly if every byte has the same last writer in both. */
module WriteOrder {
  import opened Bytes
  import opened JournalLog
  import opened JournalRecovery

  /** Entry `entry` of transaction `rec`. */
  datatype Id = Id(rec: nat, entry: nat)

  function EntryOf(recs: seq<Rec>, id: Id): Entry {
    if id.rec < |recs| && id.entry < |recs[id.rec].entries| then recs[id.rec].entries[id.entry] else Entry(0, [])
  }

  /** The writes the ids stand for. */
  function Pick(recs: seq<Rec>, ids: seq<Id>): (es: seq<Entry>)
    ensures |es| == |ids| && forall i :: 0 <= i < |ids| ==> es[i] == EntryOf(recs, ids[i])
  {
    seq(|ids|, i requires 0 <= i < |ids| => EntryOf(recs, ids[i]))
  }

  function Fold(bs: nat, img0: seq<byte>, recs: seq<Rec>, ids: seq<Id>): seq<byte> {
    ApplyAll(bs, img0, Pick(recs, ids))
  }

  // ---------------------------------------------------------------- last writers

  /** The last of the writes that reaches byte x. */
  function LastWriter(bs: nat, recs: seq<Rec>, ids: seq<Id>, x: nat): (w: Option<Id>)
    ensures w.Some? ==> w.value in ids && Touches(bs, EntryOf(recs, w.value), x)
    decreases |ids|
  {
    if ids == [] then None
    else
      var n := |ids| - 1;
      if Touches(bs, EntryOf(recs, ids[n]), x) then Some(ids[n]) else LastWriter(bs, recs, ids[..n], x)
  }

  ghost predicate SameWriters(bs: nat, recs: seq<Rec>, u: seq<Id>, v: seq<Id>) {
    forall x: nat :: LastWriter(bs, recs, u, x) == LastWriter(bs, recs, v, x)
  }

  /** What byte x holds in the end. */
  function FinalByte(bs: nat, img0: seq<byte>, recs: seq<Rec>, w: Option<Id>, x: nat): byte
    requires w.Some? ==> Touches(bs, EntryOf(recs, w.value), x)
  {
    if w.Some? then var e := EntryOf(recs, w.value); e.data[x - e.block * bs] else At(img0, x)
  }

  lemma {:induction false} LastByte(bs: nat, img0: seq<byte>, recs: seq<Rec>, ids: seq<Id>, x: nat)
    ensures At(Fold(bs, img0, recs, ids), x) == FinalByte(bs, img0, recs, LastWriter(bs, recs, ids, x), x)
    decreases |ids|
  {
    hide EntryOf, At;
    if ids != [] {
      var n := |ids| - 1;
      LastByte(bs, img0, recs, ids[..n], x);
      assert Pick(recs, ids)[..n] == Pick(recs, ids[..n]);
    }
  }

  lemma {:induction false} WriterReaches(bs: nat, recs: seq<Rec>, ids: seq<Id>, x: nat)
    ensures LastWriter(bs, recs, ids, x).Some? ==> x < Reach(bs, Pick(recs, ids))
    decreases |ids|
  {
    hide EntryOf;
    if ids != [] {
      var n := |ids| - 1;
      WriterReaches(bs, recs, ids[..n], x);
      assert Pick(recs, ids)[..n] == Pick(recs, ids[..n]);
    }
  }

  lemma {:induction false} ReachWritten(bs: nat, recs: seq<Rec>, ids: seq<Id>)
    ensures var r := Reach(bs, Pick(recs, ids));
            r > 0 ==> LastWriter(bs, recs, ids, r - 1).Some?
    decreases |ids|
  {
    hide EntryOf;
    if ids != [] {
      var n := |ids| - 1;
      ReachWritten(bs, recs, ids[..n]);
      assert Pick(recs, ids)[..n] == Pick(recs, ids[..n]);
    }
  }

  lemma SameReach(bs: nat, recs: seq<Rec>, u: seq<Id>, v: seq<Id>)
    requires SameWriters(bs, recs, u, v)
    ensures Reach(bs, Pick(recs, u)) <= Reach(bs, Pick(recs, v))
  {
    hide LastWriter, Reach, Pick;
    var r := Reach(bs, Pick(recs, u));
    ReachWritten(bs, recs, u);
    if r > 0 { WriterReaches(bs, recs, v, r - 1); }
  }

  /** Same last writers, same image. */
  lemma SameFold(bs: nat, img0: seq<byte>, recs: seq<Rec>, u: seq<Id>, v: seq<Id>)
    requires SameWriters(bs, recs, u, v)
    ensures Fold(bs, img0, recs, u) == Fold(bs, img0, recs, v)
  {
    hide LastWriter, Reach, Pick, ApplyAll, At, FinalByte;
    ApplyLength(bs, img0, Pick(recs, u));
    ApplyLength(bs, img0, Pick(recs, v));
    SameReach(bs, recs, u, v);
    SameReach(bs, recs, v, u);
    forall x: nat ensures At(Fold(bs, img0, recs, u), x) == At(Fold(bs, img0, recs, v), x) {
      LastByte(bs, img0, recs, u, x);
      LastByte(bs, img0, recs, v, x);
    }
    SameBytes(Fold(bs, img0, recs, u), Fold(bs, img0, recs, v));
  }

  // ---------------------------------------------------------------- other bytes, same writes

  /** Same blocks and lengths; the bytes may differ. */
  predicate SameEntries(a: seq<Entry>, b: seq<Entry>) {
    |a| == |b| && forall i :: 0 <= i < |a| ==> a[i].block == b[i].block && |a[i].data| == |b[i].data|
  }

  predicate SameShape(a: seq<Rec>, b: seq<Rec>) {
    |a| == |b| && forall i :: 0 <= i < |a| ==> a[i].seqNo == b[i].seqNo && SameEntries(a[i].entries, b[i].entries)
  }

  lemma EntryShape(a: seq<Rec>, b: seq<Rec>, id: Id)
    requires SameShape(a, b)
    ensures EntryOf(a, id).block == EntryOf(b, id).block && |EntryOf(a, id).data| == |EntryOf(b, id).data|
  {
  }

  lemma {:induction false} ShapeWriter(bs: nat, a: seq<Rec>, b: seq<Rec>, ids: seq<Id>, x: nat)
    requires SameShape(a, b)
    ensures LastWriter(bs, a, ids, x) == LastWriter(bs, b, ids, x)
    decreases |ids|
  {
    hide EntryOf, SameShape;
    if ids != [] {
      EntryShape(a, b, ids[|ids| - 1]);
      ShapeWriter(bs, a, b, ids[..|ids| - 1], x);
    }
  }

  /** One byte of one entry replaced. */
  function Poke(recs: seq<Rec>, id: Id, i: nat, v: byte): (r: seq<Rec>)
    requires id.rec < |recs| && id.entry < |recs[id.rec].entries| && i < |recs[id.rec].entries[id.entry].data|
  {
    var rec := recs[id.rec];
    var e := rec.entries[id.entry];
    recs[id.rec := rec.(entries := rec.entries[id.entry := e.(data := e.data[i := v])])]
  }

  lemma PokeIs(recs: seq<Rec>, id: Id, i: nat, v: byte)
    requires id.rec < |recs| && id.entry < |recs[id.rec].entries| && i < |recs[id.rec].entries[id.entry].data|
    ensures SameShape(recs, Poke(recs, id, i, v))
    ensures EntryOf(Poke(recs, id, i, v), id).data[i] == v
    ensures forall id' :: id' != id ==> EntryOf(Poke(recs, id, i, v), id') == EntryOf(recs, id')
  {
    var r := Poke(recs, id, i, v);
    assert SameEntries(recs[id.rec].entries, r[id.rec].entries);
    forall k | 0 <= k < |recs| ensures recs[k].seqNo == r[k].seqNo && SameEntries(recs[k].entries, r[k].entries) {
      if k != id.rec { assert r[k] == recs[k]; }
    }
  }

  /** A writer can be told from any other by the byte it leaves. */
  lemma TellApart(bs: nat, img0: seq<byte>, recs: seq<Rec>, u: seq<Id>, v: seq<Id>, x: nat)
    requires LastWriter(bs, recs, v, x).Some? && LastWriter(bs, recs, u, x) != LastWriter(bs, recs, v, x)
    ensures exists recs' :: SameShape(recs, recs') && Fold(bs, img0, recs', u) != Fold(bs, img0, recs', v)
  {
    hide LastWriter, Fold, SameShape, Poke;
    var a, b := LastWriter(bs, recs, u, x), LastWriter(bs, recs, v, x).value;
    var i := x - EntryOf(recs, b).block * bs;
    var w := FinalByte(bs, img0, recs, a, x);
    var recs' := Poke(recs, b, i, if w == 0 then 1 else 0);
    PokeIs(recs, b, i, if w == 0 then 1 else 0);
    EntryShape(recs, recs', b);
    ShapeWriter(bs, recs, recs', u, x);
    ShapeWriter(bs, recs, recs', v, x);
    LastByte(bs, img0, recs', u, x);
    LastByte(bs, img0, recs', v, x);
    assert At(Fold(bs, img0, recs', u), x) != At(Fold(bs, img0, recs', v), x);
  }

  ghost predicate AlwaysSame(bs: nat, img0: seq<byte>, recs: seq<Rec>, u: seq<Id>, v: seq<Id>) {
    forall recs' :: SameShape(recs, recs') ==> Fold(bs, img0, recs', u) == Fold(bs, img0, recs', v)
  }

  /** Two orders agree on every content exactly if every byte has the same last writer. */
  lemma OrderExact(bs: nat, img0: seq<byte>, recs: seq<Rec>, u: seq<Id>, v: seq<Id>)
    ensures AlwaysSame(bs, img0, recs, u, v) <==> SameWriters(bs, recs, u, v)
  {
    hide LastWriter, Fold, SameShape;
    if SameWriters(bs, recs, u, v) {
      forall recs' | SameShape(recs, recs') ensures Fold(bs, img0, recs', u) == Fold(bs, img0, recs', v) {
        ShapeWriters(bs, recs, recs', u, v);
        SameFold(bs, img0, recs', u, v);
      }
    } else {
      var x: nat :| LastWriter(bs, recs, u, x) != LastWriter(bs, recs, v, x);
      if LastWriter(bs, recs, v, x).Some? {
        TellApart(bs, img0, recs, u, v, x);
      } else {
        TellApart(bs, img0, recs, v, u, x);
      }
    }
  }

  lemma ShapeWriters(bs: nat, a: seq<Rec>, b: seq<Rec>, u: seq<Id>, v: seq<Id>)
    requires SameShape(a, b) && SameWriters(bs, a, u, v)
    ensures SameWriters(bs, b, u, v)
  {
    hide LastWriter, SameShape;
    forall x: nat ensures LastWriter(bs, b, u, x) == LastWriter(bs, b, v, x) {
      ShapeWriter(bs, a, b, u, x);
      ShapeWriter(bs, a, b, v, x);
    }
  }

  // ---------------------------------------------------------------- whole transactions

  function RecIds(recs: seq<Rec>, k: nat): (ids: seq<Id>)
    requires k < |recs|
    ensures |ids| == |recs[k].entries| && forall i :: 0 <= i < |ids| ==> ids[i] == Id(k, i)
  {
    seq(|recs[k].entries|, i requires 0 <= i => Id(k, i))
  }

  ghost predicate AllIn(recs: seq<Rec>, ks: seq<nat>) {
    forall i :: 0 <= i < |ks| ==> ks[i] < |recs|
  }

  /** All writes of the listed transactions, in the listed order. */
  ghost function IdsOf(recs: seq<Rec>, ks: seq<nat>): seq<Id>
    requires AllIn(recs, ks)
    decreases |ks|
  {
    if ks == [] then [] else IdsOf(recs, ks[..|ks| - 1]) + RecIds(recs, ks[|ks| - 1])
  }

  ghost function Sub(recs: seq<Rec>, ks: seq<nat>): (r: seq<Rec>)
    requires AllIn(recs, ks)
    ensures |r| == |ks| && forall i :: 0 <= i < |ks| ==> r[i] == recs[ks[i]]
  {
    seq(|ks|, i requires 0 <= i < |ks| => recs[ks[i]])
  }

  lemma PickRec(recs: seq<Rec>, k: nat, d: nat)
    requires k < |recs| && d <= |recs[k].entries|
    ensures Pick(recs, RecIds(recs, k)[..d]) == recs[k].entries[..d]
  {
  }

  lemma PickCat(recs: seq<Rec>, a: seq<Id>, b: seq<Id>)
    ensures Pick(recs, a + b) == Pick(recs, a) + Pick(recs, b)
  {
  }

  lemma PickNone(recs: seq<Rec>)
    ensures Pick(recs, []) == [] && Sub(recs, []) == [] && AllEntries([]) == []
  {
  }

  lemma PickWhole(recs: seq<Rec>, k: nat)
    requires k < |recs|
    ensures Pick(recs, RecIds(recs, k)) == recs[k].entries
  {
    var n := |recs[k].entries|;
    PickRec(recs, k, n);
    assert RecIds(recs, k)[..n] == RecIds(recs, k) && recs[k].entries[..n] == recs[k].entries;
  }

  lemma SubLast(recs: seq<Rec>, ks: seq<nat>)
    requires AllIn(recs, ks) && ks != []
    ensures Sub(recs, ks) == Sub(recs, ks[..|ks| - 1]) + [recs[ks[|ks| - 1]]]
  {
  }

  lemma {:induction false} PickIds(recs: seq<Rec>, ks: seq<nat>)
    requires AllIn(recs, ks)
    ensures Pick(recs, IdsOf(recs, ks)) == AllEntries(Sub(recs, ks))
    decreases |ks|
  {
    hide EntryOf, Pick, Sub, RecIds, AllEntries;
    if ks == [] {
      PickNone(recs);
    } else {
      var n := |ks| - 1;
      PickIds(recs, ks[..n]);
      PickCat(recs, IdsOf(recs, ks[..n]), RecIds(recs, ks[n]));
      PickWhole(recs, ks[n]);
      SubLast(recs, ks);
      LogAppend(x => 0, Sub(recs, ks[..n]), recs[ks[n]]);
    }
  }

  /** The writers of transaction lists depend on shapes only. */
  lemma {:induction false} ShapeIds(a: seq<Rec>, b: seq<Rec>, ks: seq<nat>)
    requires SameShape(a, b) && AllIn(a, ks)
    ensures IdsOf(a, ks) == IdsOf(b, ks)
    decreases |ks|
  {
    if ks != [] {
      ShapeIds(a, b, ks[..|ks| - 1]);
      assert RecIds(a, ks[|ks| - 1]) == RecIds(b, ks[|ks| - 1]);
    }
  }

  lemma {:induction false} WriterCat(bs: nat, recs: seq<Rec>, a: seq<Id>, b: seq<Id>, x: nat)
    ensures LastWriter(bs, recs, a + b, x) == if LastWriter(bs, recs, b, x).Some? then LastWriter(bs, recs, b, x) else LastWriter(bs, recs, a, x)
    decreases |b|
  {
    hide EntryOf;
    if b == [] {
      assert a + b == a;
    } else {
      var n := |b| - 1;
      assert (a + b)[..|a| + n] == a + b[..n];
      WriterCat(bs, recs, a, b[..n], x);
    }
  }

  ghost predicate Reaches(bs: nat, recs: seq<Rec>, k: nat, x: nat)
    requires k < |recs|
  {
    LastWriter(bs, recs, RecIds(recs, k), x).Some?
  }

  /** In a list of transactions the last one that reaches byte x decides it. */
  lemma {:induction false} WriterOf(bs: nat, recs: seq<Rec>, ks: seq<nat>, i: nat, x: nat)
    requires AllIn(recs, ks) && i < |ks| && Reaches(bs, recs, ks[i], x)
    requires forall j :: i < j < |ks| ==> !Reaches(bs, recs, ks[j], x)
    ensures LastWriter(bs, recs, IdsOf(recs, ks), x) == LastWriter(bs, recs, RecIds(recs, ks[i]), x)
    decreases |ks|
  {
    hide LastWriter;
    var n := |ks| - 1;
    WriterCat(bs, recs, IdsOf(recs, ks[..n]), RecIds(recs, ks[n]), x);
    if i < n {
      WriterOf(bs, recs, ks[..n], i, x);
      assert !Reaches(bs, recs, ks[n], x);
    }
  }

  lemma {:induction false} NoWriter(bs: nat, recs: seq<Rec>, ks: seq<nat>, x: nat)
    requires AllIn(recs, ks) && forall j :: 0 <= j < |ks| ==> !Reaches(bs, recs, ks[j], x)
    ensures LastWriter(bs, recs, IdsOf(recs, ks), x) == None
    decreases |ks|
  {
    hide LastWriter;
    if ks == [] {
      assert LastWriter(bs, recs, [], x) == None by { NoIds(bs, recs, x); }
    } else {
      var n := |ks| - 1;
      NoWriter(bs, recs, ks[..n], x);
      WriterCat(bs, recs, IdsOf(recs, ks[..n]), RecIds(recs, ks[n]), x);
      assert !Reaches(bs, recs, ks[n], x);
    }
  }

  lemma NoIds(bs: nat, recs: seq<Rec>, x: nat)
    ensures LastWriter(bs, recs, [], x) == None
  {
  }

  // ---------------------------------------------------------------- a torn tail, exactly

  /** The first n transactions in order. */
  function Upto(n: nat): (ks: seq<nat>)
    ensures |ks| == n && forall i :: 0 <= i < n ==> ks[i] == i
  {
    seq(n, i requires 0 <= i => i)
  }

  lemma SubUpto(recs: seq<Rec>, n: nat)
    requires n <= |recs|
    ensures AllIn(recs, Upto(n)) && Sub(recs, Upto(n)) == recs[..n]
  {
  }

  lemma {:induction false} IdsRising(recs: seq<Rec>, n: nat, i: nat, j: nat)
    requires n <= |recs| && i < j < |IdsOf(recs, Upto(n))|
    ensures var ids := IdsOf(recs, Upto(n));
            ids[i] != ids[j] && ids[j].rec < n && ids[i].rec < n
    decreases n
  {
    if n > 0 {
      assert Upto(n)[..n - 1] == Upto(n - 1);
      var pre := IdsOf(recs, Upto(n - 1));
      if j < |pre| {
        IdsRising(recs, n - 1, i, j);
      } else if i < |pre| {
        IdsBelow(recs, n - 1, i);
      }
    }
  }

  lemma {:induction false} IdsBelow(recs: seq<Rec>, n: nat, i: nat)
    requires n <= |recs| && i < |IdsOf(recs, Upto(n))|
    ensures IdsOf(recs, Upto(n))[i].rec < n
    decreases n
  {
    if n > 0 {
      assert Upto(n)[..n - 1] == Upto(n - 1);
      if i < |IdsOf(recs, Upto(n - 1))| { IdsBelow(recs, n - 1, i); }
    }
  }

  lemma {:induction false} NoBytes(bs: nat, recs: seq<Rec>, ids: seq<Id>, x: nat)
    requires forall h :: 0 <= h < |ids| ==> EntryOf(recs, ids[h]).data == []
    ensures LastWriter(bs, recs, ids, x) == None
    decreases |ids|
  {
    hide EntryOf;
    if ids != [] { NoBytes(bs, recs, ids[..|ids| - 1], x); }
  }

  lemma LateBytes(bs: nat, recs: seq<Rec>, n: nat, j: nat, i: nat)
    requires n <= |recs| && j <= i < |IdsOf(recs, Upto(n))| && EntryOf(recs, IdsOf(recs, Upto(n))[i]).data != []
    ensures var ids := IdsOf(recs, Upto(n));
            !SameWriters(bs, recs, ids[..j], ids)
  {
    hide IdsOf, EntryOf, LastWriter;
    var ids := IdsOf(recs, Upto(n));
    var x := EntryOf(recs, ids[i]).block * bs;
    assert ids == ids[..j] + ids[j..] && ids[j..][i - j] == ids[i];
    WriterCat(bs, recs, ids[..j], ids[j..], x);
    LaterWriter(bs, recs, ids[j..], i - j, x);
    var w := LastWriter(bs, recs, ids[j..], x).value;
    var k :| 0 <= k < |ids[j..]| && ids[j..][k] == w;
    forall h | 0 <= h < j ensures ids[..j][h] != w { IdsRising(recs, n, h, j + k); }
    assert LastWriter(bs, recs, ids[..j], x) != LastWriter(bs, recs, ids, x);
  }

  /** Stopping after j of the writes leaves every byte its last writer exactly if no
      later write has any bytes. */
  lemma PrefixExact(bs: nat, recs: seq<Rec>, n: nat, j: nat)
    requires n <= |recs| && j <= |IdsOf(recs, Upto(n))|
    ensures var ids := IdsOf(recs, Upto(n));
            SameWriters(bs, recs, ids[..j], ids) <==> forall i :: j <= i < |ids| ==> Pick(recs, ids)[i].data == []
  {
    hide IdsOf, EntryOf, LastWriter;
    var ids := IdsOf(recs, Upto(n));
    if i :| j <= i < |ids| && Pick(recs, ids)[i].data != [] {
      LateBytes(bs, recs, n, j, i);
    } else {
      forall x: nat ensures LastWriter(bs, recs, ids[..j], x) == LastWriter(bs, recs, ids, x) {
        assert ids == ids[..j] + ids[j..];
        WriterCat(bs, recs, ids[..j], ids[j..], x);
        forall h | 0 <= h < |ids[j..]| ensures EntryOf(recs, ids[j..][h]).data == [] {
          assert Pick(recs, ids)[j + h].data == [];
        }
        NoBytes(bs, recs, ids[j..], x);
      }
    }
  }

  lemma {:induction false} LaterWriter(bs: nat, recs: seq<Rec>, ids: seq<Id>, i: nat, x: nat)
    requires i < |ids| && Touches(bs, EntryOf(recs, ids[i]), x)
    ensures LastWriter(bs, recs, ids, x).Some?
    decreases |ids|
  {
    hide EntryOf;
    if i < |ids| - 1 { LaterWriter(bs, recs, ids[..|ids| - 1], i, x); }
  }

  /** Every crash at this point of the session, whatever was written, is recovered. */
  ghost predicate Recovers(crc: Crc, bs: nat, blocks: nat, img0: seq<byte>, recs: seq<Rec>, k: nat, n: nat, j: nat) {
    forall recs' :: SameShape(recs, recs') ==> RecoversOne(crc, bs, blocks, img0, recs', k, n, j)
  }

  ghost predicate RecoversOne(crc: Crc, bs: nat, blocks: nat, img0: seq<byte>, recs: seq<Rec>, k: nat, n: nat, j: nat) {
    forall img, log :: Crashed(crc, bs, img0, recs, k, n, j, img, log) ==> OpenFs(crc, bs, blocks, log, img).img == Recovered(bs, img0, recs, k)
  }

  /** A point k transactions and n bytes into the log, j block writes into the image. */
  ghost predicate Point(crc: Crc, recs: seq<Rec>, k: nat, n: nat, j: nat) {
    && k <= |recs| && j <= |AllEntries(recs[..k])|
    && (n > 0 ==> k < |recs| && n < |Record(crc, recs[k])|)
  }

  lemma ShapeSession(blocks: nat, a: seq<Rec>, b: seq<Rec>)
    requires SameShape(a, b) && Session(blocks, a)
    ensures Session(blocks, b)
  {
    forall i | 0 <= i < |b|
      ensures Loggable(b[i]) && b[i].seqNo == i + 1 && forall e :: e in b[i].entries ==> e.block < blocks
    {
      forall e | e in b[i].entries ensures e.block < blocks {
        var h :| 0 <= h < |b[i].entries| && b[i].entries[h] == e;
        assert a[i].entries[h] in a[i].entries;
      }
    }
  }

  lemma {:induction false} BlobsShape(a: seq<Entry>, b: seq<Entry>)
    requires SameEntries(a, b)
    ensures |Blobs(a)| == |Blobs(b)|
  {
    if a != [] { BlobsShape(a[1..], b[1..]); }
  }

  lemma RecordShape(crc: Crc, a: Rec, b: Rec)
    requires SameEntries(a.entries, b.entries)
    ensures |Payload(a)| == |Payload(b)| && |Record(crc, a)| == |Record(crc, b)|
  {
    BlobsShape(a.entries, b.entries);
  }

  lemma FoldsAre(bs: nat, img0: seq<byte>, recs: seq<Rec>, recs': seq<Rec>, k: nat, j: nat)
    requires SameShape(recs, recs') && k <= |recs| && j <= |AllEntries(recs[..k])|
    ensures var ids := IdsOf(recs, Upto(k));
            && |ids| == |AllEntries(recs[..k])| && Pick(recs, ids) == AllEntries(recs[..k])
            && j <= |AllEntries(recs'[..k])|
            && Fold(bs, img0, recs', ids) == Recovered(bs, img0, recs', k)
            && Fold(bs, img0, recs', ids[..j]) == ApplyAll(bs, img0, AllEntries(recs'[..k])[..j])
  {
    hide EntryOf, ApplyAll, SameShape, IdsOf;
    var ids := IdsOf(recs, Upto(k));
    ShapeLength(recs, recs');
    SubUpto(recs, k);
    SubUpto(recs', k);
    PickIds(recs, Upto(k));
    PickIds(recs', Upto(k));
    ShapeIds(recs, recs', Upto(k));
    assert Pick(recs', ids[..j]) == Pick(recs', ids)[..j];
  }

  lemma ShapeLength(a: seq<Rec>, b: seq<Rec>)
    requires SameShape(a, b)
    ensures |a| == |b|
  {
  }

  /** At every crash point, whatever was written: recovered if and only if the tear does
      not blind the scan or no write that had not reached the image has any bytes. */
  lemma RecoveredExactly(crc: Crc, bs: nat, blocks: nat, img0: seq<byte>, recs: seq<Rec>, k: nat, n: nat, j: nat)
    requires Session(blocks, recs) && Point(crc, recs, k, n, j)
    ensures Recovers(crc, bs, blocks, img0, recs, k, n, j)
       <==> (n > 0 && Blind(recs[k], n) ==> forall i :: j <= i < |AllEntries(recs[..k])| ==> AllEntries(recs[..k])[i].data == [])
  {
    hide EntryOf, ApplyAll, SameShape, IdsOf, AllEntries, Session, OpenFs, Payload, Record, Log, Fold, Pick, SameWriters;
    var ids := IdsOf(recs, Upto(k));
    SelfShape(recs);
    FoldsAre(bs, img0, recs, recs, k, j);
    if n > 0 && Blind(recs[k], n) {
      PrefixExact(bs, recs, k, j);
      OrderExact(bs, img0, recs, ids[..j], ids);
      forall recs' | SameShape(recs, recs')
        ensures RecoversOne(crc, bs, blocks, img0, recs', k, n, j) <==> Fold(bs, img0, recs', ids[..j]) == Fold(bs, img0, recs', ids)
      {
        BlindImage(crc, bs, blocks, img0, recs, recs', k, n, j);
        FoldsAre(bs, img0, recs, recs', k, j);
      }
    } else {
      forall recs' | SameShape(recs, recs') ensures RecoversOne(crc, bs, blocks, img0, recs', k, n, j) {
        SightedImage(crc, bs, blocks, img0, recs, recs', k, n, j);
      }
    }
  }

  lemma SelfShape(recs: seq<Rec>)
    ensures SameShape(recs, recs)
  {
  }

  lemma BlindImage(crc: Crc, bs: nat, blocks: nat, img0: seq<byte>, recs: seq<Rec>, recs': seq<Rec>, k: nat, n: nat, j: nat)
    requires Session(blocks, recs) && Point(crc, recs, k, n, j) && SameShape(recs, recs') && n > 0 && Blind(recs[k], n)
    ensures k <= |recs'| && j <= |AllEntries(recs'[..k])|
    ensures RecoversOne(crc, bs, blocks, img0, recs', k, n, j) <==> ApplyAll(bs, img0, AllEntries(recs'[..k])[..j]) == Recovered(bs, img0, recs', k)
  {
    hide ApplyAll, AllEntries, Session, OpenFs, Payload, Record, Log;
    FoldsAre(bs, img0, recs, recs', k, j);
    ShapeSession(blocks, recs, recs');
    RecordShape(crc, recs[k], recs'[k]);
    var img, log := ApplyAll(bs, img0, AllEntries(recs'[..k])[..j]), Log(crc, recs'[..k]) + Record(crc, recs'[k])[..n];
    assert Crashed(crc, bs, img0, recs', k, n, j, img, log);
    forall img, log | Crashed(crc, bs, img0, recs', k, n, j, img, log) ensures OpenFs(crc, bs, blocks, log, img).img == img {
      CrashRecovery(crc, bs, blocks, img0, recs', k, n, j, img, log);
    }
  }

  lemma SightedImage(crc: Crc, bs: nat, blocks: nat, img0: seq<byte>, recs: seq<Rec>, recs': seq<Rec>, k: nat, n: nat, j: nat)
    requires Session(blocks, recs) && Point(crc, recs, k, n, j) && SameShape(recs, recs') && !(n > 0 && Blind(recs[k], n))
    ensures RecoversOne(crc, bs, blocks, img0, recs', k, n, j)
  {
    hide ApplyAll, AllEntries, Session, OpenFs, Payload, Record, Log;
    ShapeSession(blocks, recs, recs');
    if n > 0 { RecordShape(crc, recs[k], recs'[k]); }
    forall img, log | Crashed(crc, bs, img0, recs', k, n, j, img, log) ensures OpenFs(crc, bs, blocks, log, img).img == Recovered(bs, img0, recs', k) {
      CrashRecovery(crc, bs, blocks, img0, recs', k, n, j, img, log);
    }
  }
}
