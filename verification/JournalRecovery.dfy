/** Crash recovery: what opening a filesystem makes of an image and a log that a
    crash cut short at any byte (fs.go, journal.go). */
module JournalRecovery {
  import opened Bytes
  import opened JournalLog

  // ---------------------------------------------------------------- image writes

  /** `WriteAt` on the image file: past the end it extends the file with zeros. */
  function Store(img: seq<byte>, off: nat, s: seq<byte>): (r: seq<byte>)
    ensures |r| == if s == [] then |img| else Max(|img|, off + |s|)
    ensures forall x: nat :: At(r, x) == if off <= x < off + |s| then s[x - off] else At(img, x)
  {
    if s == [] then img
    else if off + |s| <= |img| then Put(img, off, s)
    else Put(img + Zeros(off + |s| - |img|), off, s)
  }

  /** Byte x of the image; zero past its end. */
  function At(img: seq<byte>, x: nat): byte {
    if x < |img| then img[x] else 0
  }

  lemma SameBytes(a: seq<byte>, b: seq<byte>)
    requires |a| == |b| && forall x: nat :: At(a, x) == At(b, x)
    ensures a == b
  {
    forall i | 0 <= i < |a| ensures a[i] == b[i] {
      assert At(a, i) == At(b, i);
    }
  }

  /** The image after the entries have been written in order. */
  function ApplyAll(bs: nat, img: seq<byte>, es: seq<Entry>): seq<byte>
    decreases |es|
  {
    if es == [] then img
    else
      var n := |es| - 1;
      Store(ApplyAll(bs, img, es[..n]), es[n].block * bs, es[n].data)
  }

  lemma {:induction false} ApplyAppend(bs: nat, img: seq<byte>, a: seq<Entry>, b: seq<Entry>)
    ensures ApplyAll(bs, img, a + b) == ApplyAll(bs, ApplyAll(bs, img, a), b)
    decreases |b|
  {
    hide Store;
    if b == [] {
      assert a + b == a;
    } else {
      var n := |b| - 1;
      ApplyAppend(bs, img, a, b[..n]);
      assert (a + b)[..|a| + n] == a + b[..n];
    }
  }

  predicate Touches(bs: nat, e: Entry, x: nat) {
    e.block * bs <= x < e.block * bs + |e.data|
  }

  ghost predicate Touched(bs: nat, es: seq<Entry>, x: nat) {
    exists i :: 0 <= i < |es| && Touches(bs, es[i], x)
  }

  /** End of the furthest byte written, 0 if none is. */
  function Reach(bs: nat, es: seq<Entry>): nat
    decreases |es|
  {
    if es == [] then 0
    else
      var n := |es| - 1;
      Max(Reach(bs, es[..n]), if es[n].data == [] then 0 else es[n].block * bs + |es[n].data|)
  }

  lemma {:induction false} ApplyLength(bs: nat, img: seq<byte>, es: seq<Entry>)
    ensures |ApplyAll(bs, img, es)| == Max(|img|, Reach(bs, es))
    decreases |es|
  {
    if es != [] {
      ApplyLength(bs, img, es[..|es| - 1]);
    }
  }

  lemma {:induction false} ReachPrefix(bs: nat, es: seq<Entry>, j: nat)
    requires j <= |es|
    ensures Reach(bs, es[..j]) <= Reach(bs, es)
    decreases |es|
  {
    if j < |es| {
      ReachPrefix(bs, es[..|es| - 1], j);
      assert es[..|es| - 1][..j] == es[..j];
    } else {
      assert es[..j] == es;
    }
  }

  /** A written byte depends only on the entries, an unwritten one only on the image. */
  lemma {:induction false} ApplyAt(bs: nat, img: seq<byte>, img': seq<byte>, es: seq<Entry>, x: nat)
    ensures Touched(bs, es, x) ==> At(ApplyAll(bs, img, es), x) == At(ApplyAll(bs, img', es), x)
    ensures !Touched(bs, es, x) ==> At(ApplyAll(bs, img, es), x) == At(img, x)
    decreases |es|
  {
    if es != [] {
      var n := |es| - 1;
      var pre := es[..n];
      ApplyAt(bs, img, img', pre, x);
      if !Touches(bs, es[n], x) && Touched(bs, es, x) {
        var i :| 0 <= i < |es| && Touches(bs, es[i], x);
        assert Touches(bs, pre[i], x);
      }
      if Touched(bs, pre, x) {
        var i :| 0 <= i < |pre| && Touches(bs, pre[i], x);
        assert Touches(bs, es[i], x);
      }
    }
  }

  lemma TouchedPrefix(bs: nat, es: seq<Entry>, j: nat, x: nat)
    requires j <= |es|
    ensures Touched(bs, es[..j], x) ==> Touched(bs, es, x)
  {
    if i :| 0 <= i < j && Touches(bs, es[..j][i], x) {
      assert Touches(bs, es[i], x);
    }
  }

  /** Replaying a whole list over an image that already has some prefix of it
      gives the image with the list applied once. */
  lemma ReplayHeals(bs: nat, img: seq<byte>, es: seq<Entry>, j: nat)
    requires j <= |es|
    ensures ApplyAll(bs, ApplyAll(bs, img, es[..j]), es) == ApplyAll(bs, img, es)
  {
    var part := ApplyAll(bs, img, es[..j]);
    var a, b := ApplyAll(bs, part, es), ApplyAll(bs, img, es);
    ApplyLength(bs, img, es);
    ApplyLength(bs, img, es[..j]);
    ApplyLength(bs, part, es);
    ReachPrefix(bs, es, j);
    forall x: nat ensures At(a, x) == At(b, x) {
      ApplyAt(bs, part, img, es, x);
      ApplyAt(bs, img, img, es, x);
      if !Touched(bs, es, x) {
        TouchedPrefix(bs, es, j, x);
        ApplyAt(bs, img, img, es[..j], x);
      }
    }
    SameBytes(a, b);
  }

  // ---------------------------------------------------------------- the scanners

  /** How many leading entries name a block of the filesystem. */
  function GoodEntries(blocks: nat, es: seq<Entry>): (k: nat)
    ensures k <= |es|
    ensures forall i :: 0 <= i < k ==> es[i].block < blocks
    ensures k < |es| ==> es[k].block >= blocks
    decreases |es|
  {
    if es == [] then 0
    else
      var k := GoodEntries(blocks, es[..|es| - 1]);
      if k == |es| - 1 && es[k].block < blocks then |es| else k
  }

  datatype Outcome = Outcome(ok: bool, img: seq<byte>, nextSeq: nat)

  function Bump(next: nat, seqNo: nat): nat {
    if seqNo >= next then (seqNo + 1) % U64 else next
  }

  /** `ReplayOnOpen` from the bytes at its cursor. */
  function ReplayFrom(crc: Crc, bs: nat, blocks: nat, s: seq<byte>, img: seq<byte>, next: nat): Outcome
    decreases |s|
  {
    match ReplayNext(crc, s)
    case Stop => Outcome(true, img, next)
    case Fail => Outcome(false, img, next)
    case Got(rec, size) =>
      var k := GoodEntries(blocks, rec.entries);
      var img' := ApplyAll(bs, img, rec.entries[..k]);
      if k < |rec.entries| then Outcome(false, img', next)
      else ReplayFrom(crc, bs, blocks, s[size..], img', Bump(next, rec.seqNo))
  }

  /** `initNextSeq` from the bytes at its cursor: the next sequence number, or an error. */
  function InitFrom(crc: Crc, s: seq<byte>, last: nat): Option<nat>
    decreases |s|
  {
    match InitNext(crc, s)
    case Stop => Some((last + 1) % U64)
    case Fail => None
    case Got(rec, size) => InitFrom(crc, s[size..], Max(last, rec.seqNo))
  }

  /** What opening the filesystem leaves behind. */
  datatype Opened =
    | Disabled(img: seq<byte>)
    | Refused(img: seq<byte>)
    | Enabled(img: seq<byte>, nextSeq: nat, applySeq: nat)

  /** `Open`: the log is scanned for its next number, then replayed; a scan error
      switches the journal off, a replay error fails the open. */
  function OpenFs(crc: Crc, bs: nat, blocks: nat, log: seq<byte>, img: seq<byte>): Opened {
    match InitFrom(crc, log, 0)
    case None => Disabled(img)
    case Some(next) =>
      var r := ReplayFrom(crc, bs, blocks, log, img, next);
      if r.ok then Enabled(r.img, r.nextSeq, next) else Refused(r.img)
  }

  // ---------------------------------------------------------------- every log

  /** The records the scanners accept, in order. */
  function Accepted(crc: Crc, s: seq<byte>): seq<Rec>
    decreases |s|
  {
    match ReplayNext(crc, s)
    case Got(rec, size) => [rec] + Accepted(crc, s[size..])
    case _ => []
  }

  /** The writes replay performs: all accepted ones, up to the first out of range. */
  function Replayed(blocks: nat, recs: seq<Rec>): (es: seq<Entry>)
  {
    if recs == [] then []
    else
      var k := GoodEntries(blocks, recs[0].entries);
      if k < |recs[0].entries| then recs[0].entries[..k]
      else recs[0].entries + Replayed(blocks, recs[1..])
  }

  lemma {:induction false} ReplayWrites(crc: Crc, bs: nat, blocks: nat, s: seq<byte>, img: seq<byte>, next: nat)
    ensures ReplayFrom(crc, bs, blocks, s, img, next).img == ApplyAll(bs, img, Replayed(blocks, Accepted(crc, s)))
    decreases |s|
  {
    hide ReplayNext, GoodEntries, Bump;
    match ReplayNext(crc, s)
    case Got(rec, size) =>
      var k := GoodEntries(blocks, rec.entries);
      var rest := Accepted(crc, s[size..]);
      assert Accepted(crc, s) == [rec] + rest && Accepted(crc, s)[1..] == rest;
      if k == |rec.entries| {
        assert rec.entries[..k] == rec.entries;
        ReplayWrites(crc, bs, blocks, s[size..], ApplyAll(bs, img, rec.entries), Bump(next, rec.seqNo));
        ApplyAppend(bs, img, rec.entries, Replayed(blocks, rest));
      }
    case _ =>
  }

  lemma {:induction false} ReplayVerdict(crc: Crc, bs: nat, blocks: nat, s: seq<byte>, img: seq<byte>, img': seq<byte>, next: nat)
    ensures ReplayFrom(crc, bs, blocks, s, img', next).ok == ReplayFrom(crc, bs, blocks, s, img, next).ok
    ensures ReplayFrom(crc, bs, blocks, s, img', next).nextSeq == ReplayFrom(crc, bs, blocks, s, img, next).nextSeq
    decreases |s|
  {
    match ReplayNext(crc, s)
    case Got(rec, size) =>
      var es := rec.entries[..GoodEntries(blocks, rec.entries)];
      ReplayVerdict(crc, bs, blocks, s[size..], ApplyAll(bs, img, es), ApplyAll(bs, img', es), Bump(next, rec.seqNo));
    case _ =>
  }

  /** Opening again changes nothing, for every log and every image. */
  lemma OpenIdempotent(crc: Crc, bs: nat, blocks: nat, log: seq<byte>, img: seq<byte>)
    ensures var r := OpenFs(crc, bs, blocks, log, img);
            OpenFs(crc, bs, blocks, log, r.img) == r
  {
    match InitFrom(crc, log, 0)
    case None =>
    case Some(next) =>
      var es := Replayed(blocks, Accepted(crc, log));
      var once := ApplyAll(bs, img, es);
      ReplayWrites(crc, bs, blocks, log, img, next);
      ReplayWrites(crc, bs, blocks, log, once, next);
      ReplayVerdict(crc, bs, blocks, log, img, once, next);
      assert es[..|es|] == es;
      ReplayHeals(bs, img, es, |es|);
  }

  // ---------------------------------------------------------------- the two scanners agree

  function LastBump(next: nat, recs: seq<Rec>): nat
    decreases |recs|
  {
    if recs == [] then next else LastBump(Bump(next, recs[0].seqNo), recs[1..])
  }

  function MaxSeq(last: nat, recs: seq<Rec>): (m: nat)
    ensures m >= last
    ensures forall i :: 0 <= i < |recs| ==> recs[i].seqNo <= m
    ensures m == last || exists i :: 0 <= i < |recs| && recs[i].seqNo == m
    decreases |recs|
  {
    if recs == [] then last
    else
      var m := MaxSeq(Max(last, recs[0].seqNo), recs[1..]);
      assert forall i :: 0 < i < |recs| ==> recs[i] == recs[1..][i - 1];
      assert m == last || exists i :: 0 <= i < |recs| && recs[i].seqNo == m by {
        if m != last && m != recs[0].seqNo {
          var i :| 0 <= i < |recs[1..]| && recs[1..][i].seqNo == m;
          assert recs[i + 1].seqNo == m;
        }
      }
      m
  }

  lemma {:induction false} ReplaySeq(crc: Crc, bs: nat, blocks: nat, s: seq<byte>, img: seq<byte>, next: nat)
    requires ReplayFrom(crc, bs, blocks, s, img, next).ok
    ensures ReplayFrom(crc, bs, blocks, s, img, next).nextSeq == LastBump(next, Accepted(crc, s))
    decreases |s|
  {
    match ReplayNext(crc, s)
    case Got(rec, size) =>
      ReplaySeq(crc, bs, blocks, s[size..], ApplyAll(bs, img, rec.entries[..GoodEntries(blocks, rec.entries)]), Bump(next, rec.seqNo));
      assert Accepted(crc, s)[1..] == Accepted(crc, s[size..]);
    case _ =>
  }

  lemma {:induction false} InitSeq(crc: Crc, s: seq<byte>, last: nat)
    requires InitFrom(crc, s, last).Some?
    ensures InitFrom(crc, s, last).value == (MaxSeq(last, Accepted(crc, s)) + 1) % U64
    decreases |s|
  {
    hide ReplayNext, InitNext;
    SameAcceptance(crc, s);
    match InitNext(crc, s)
    case Got(rec, size) =>
      InitSeq(crc, s[size..], Max(last, rec.seqNo));
      assert Accepted(crc, s)[1..] == Accepted(crc, s[size..]);
    case _ =>
  }

  lemma {:induction false} AcceptedFit(crc: Crc, s: seq<byte>)
    ensures forall i :: 0 <= i < |Accepted(crc, s)| ==> Accepted(crc, s)[i].seqNo < U64
    decreases |s|
  {
    match ReplayNext(crc, s)
    case Got(rec, size) =>
      Pow256Values();
      AcceptedFit(crc, s[size..]);
    case _ =>
  }

  const TOP: nat := U64 - 1

  /** Below the top number, replay never moves nextSeq. */
  lemma {:induction false} BumpStays(next: nat, recs: seq<Rec>)
    requires forall i :: 0 <= i < |recs| ==> recs[i].seqNo < next
    ensures LastBump(next, recs) == next
    decreases |recs|
  {
    if recs != [] {
      BumpStays(next, recs[1..]);
    }
  }

  /** Once it has wrapped, the last record decides. */
  lemma {:induction false} BumpWrapped(next: nat, recs: seq<Rec>)
    requires next < U64 && recs != [] && forall i :: 0 <= i < |recs| ==> recs[i].seqNo < U64
    requires next == 0 || exists i :: 0 <= i < |recs| && recs[i].seqNo == TOP
    ensures LastBump(next, recs) == 0 <==> recs[|recs| - 1].seqNo == TOP
    decreases |recs|
  {
    var b := Bump(next, recs[0].seqNo);
    if |recs| == 1 {
      assert LastBump(b, recs[1..]) == b;
    } else {
      var rest := recs[1..];
      assert rest[|rest| - 1] == recs[|recs| - 1];
      if b == 0 || exists i :: 0 <= i < |rest| && rest[i].seqNo == TOP {
        BumpWrapped(b, rest);
      } else {
        BumpNonZero(b, rest);
      }
    }
  }

  lemma {:induction false} BumpNonZero(next: nat, recs: seq<Rec>)
    requires 0 < next < U64 && forall i :: 0 <= i < |recs| ==> recs[i].seqNo < TOP
    ensures LastBump(next, recs) != 0
    decreases |recs|
  {
    if recs != [] {
      BumpNonZero(Bump(next, recs[0].seqNo), recs[1..]);
    }
  }

  /** After an open that replays, the first commit can apply at once exactly when no
      accepted record carries the top 64-bit number, or the last one does. */
  lemma ScannersAgree(crc: Crc, bs: nat, blocks: nat, log: seq<byte>, img: seq<byte>)
    requires OpenFs(crc, bs, blocks, log, img).Enabled?
    ensures var r, recs := OpenFs(crc, bs, blocks, log, img), Accepted(crc, log);
            && (r.applySeq == r.nextSeq <==>
                  (forall i :: 0 <= i < |recs| ==> recs[i].seqNo != TOP) || (recs != [] && recs[|recs| - 1].seqNo == TOP))
            && ((forall i :: 0 <= i < |recs| ==> recs[i].seqNo != TOP) ==>
                  forall i :: 0 <= i < |recs| ==> recs[i].seqNo < r.nextSeq)
  {
    hide InitFrom, ReplayFrom, LastBump, Accepted, MaxSeq;
    var recs := Accepted(crc, log);
    var next := InitFrom(crc, log, 0).value;
    InitSeq(crc, log, 0);
    ReplaySeq(crc, bs, blocks, log, img, next);
    AcceptedFit(crc, log);
    var m := MaxSeq(0, recs);
    assert m < U64;
    if forall i :: 0 <= i < |recs| ==> recs[i].seqNo != TOP {
      assert m < TOP && next == m + 1;
      BumpStays(next, recs);
    } else {
      assert m == TOP && next == 0;
      BumpWrapped(next, recs);
    }
  }

  /** A record with the top number, then another: the numbering scan wraps to 0, replay
      goes on to 6, and no commit of the new session ever gets its turn. */
  lemma ScannersPart(crc: Crc, bs: nat, blocks: nat, img: seq<byte>)
    ensures OpenFs(crc, bs, blocks, Log(crc, [Rec(TOP, []), Rec(5, [])]), img) == Enabled(img, 6, 0)
  {
    hide ReplayNext, InitNext, Record;
    var a, b := Rec(TOP, []), Rec(5, []);
    var tail := Record(crc, b) + [];
    var log := Record(crc, a) + tail;
    assert [a, b][1..] == [b] && [b][1..] == [];
    assert Log(crc, [b]) == Record(crc, b) + [] && Log(crc, [a, b]) == log;
    RecordAccepted(crc, a, tail);
    RecordAccepted(crc, b, []);
    assert log[|Record(crc, a)|..] == tail && tail[|Record(crc, b)|..] == [];
    InitEnd(crc, TOP);
    assert InitFrom(crc, tail, TOP) == InitFrom(crc, [], TOP);
    assert InitFrom(crc, log, 0) == InitFrom(crc, tail, TOP) == Some(0);
    ReplayEnd(crc, bs, blocks, img, 6);
    assert GoodEntries(blocks, []) == 0 && ApplyAll(bs, img, []) == img;
    var none: seq<Entry> := [];
    assert none[..0] == none;
    assert ReplayFrom(crc, bs, blocks, tail, img, 0) == Outcome(true, img, 6);
    assert ReplayFrom(crc, bs, blocks, log, img, 0) == ReplayFrom(crc, bs, blocks, tail, img, 0);
  }

  // ---------------------------------------------------------------- crash points

  /** The log holding the given records. */
  function Log(crc: Crc, recs: seq<Rec>): seq<byte> {
    if recs == [] then [] else Record(crc, recs[0]) + Log(crc, recs[1..])
  }

  function AllEntries(recs: seq<Rec>): seq<Entry> {
    if recs == [] then [] else recs[0].entries + AllEntries(recs[1..])
  }

  /** Transactions a session may have committed: loggable, on existing blocks, numbered from 1. */
  ghost predicate Session(blocks: nat, recs: seq<Rec>) {
    && |recs| < TOP
    && forall i :: 0 <= i < |recs| ==>
         Loggable(recs[i]) && recs[i].seqNo == i + 1 && forall e :: e in recs[i].entries ==> e.block < blocks
  }

  ghost predicate InRange(blocks: nat, recs: seq<Rec>) {
    forall i :: 0 <= i < |recs| ==> Loggable(recs[i]) && recs[i].seqNo < TOP && forall e :: e in recs[i].entries ==> e.block < blocks
  }

  /** Scanning a log of whole records followed by t. */
  lemma {:induction false} ScanLog(crc: Crc, bs: nat, blocks: nat, recs: seq<Rec>, t: seq<byte>, img: seq<byte>, next: nat, last: nat)
    requires InRange(blocks, recs)
    ensures InitFrom(crc, Log(crc, recs) + t, last) == InitFrom(crc, t, MaxSeq(last, recs))
    ensures ReplayFrom(crc, bs, blocks, Log(crc, recs) + t, img, next)
         == ReplayFrom(crc, bs, blocks, t, ApplyAll(bs, img, AllEntries(recs)), LastBump(next, recs))
    decreases |recs|
  {
    hide ReplayNext, InitNext, Record, Loggable, GoodEntries, Bump;
    if recs == [] {
      assert Log(crc, recs) + t == t;
    } else {
      var r, rest := recs[0], recs[1..];
      var s, u := Log(crc, recs) + t, Log(crc, rest) + t;
      assert s == Record(crc, r) + u;
      RecordAccepted(crc, r, u);
      assert s[|Record(crc, r)|..] == u;
      AllGood(blocks, r.entries);
      assert r.entries[..|r.entries|] == r.entries;
      ScanLog(crc, bs, blocks, rest, t, ApplyAll(bs, img, r.entries), Bump(next, r.seqNo), Max(last, r.seqNo));
      ApplyAppend(bs, img, r.entries, AllEntries(rest));
    }
  }

  lemma {:induction false} AllGood(blocks: nat, es: seq<Entry>)
    requires forall e :: e in es ==> e.block < blocks
    ensures GoodEntries(blocks, es) == |es|
    decreases |es|
  {
    if es != [] {
      AllGood(blocks, es[..|es| - 1]);
    }
  }

  /** A crash with k whole records logged, n bytes of the next one, and the first j
      block writes of the logged records on the image. */
  ghost predicate Crashed(crc: Crc, bs: nat, img0: seq<byte>, recs: seq<Rec>, k: nat, n: nat, j: nat, img: seq<byte>, log: seq<byte>) {
    && k <= |recs| && j <= |AllEntries(recs[..k])|
    && (n > 0 ==> k < |recs| && n < |Record(crc, recs[k])|)
    && log == Log(crc, recs[..k]) + (if n > 0 then Record(crc, recs[k])[..n] else [])
    && img == ApplyAll(bs, img0, AllEntries(recs[..k])[..j])
  }

  /** The image with exactly the fully logged transactions applied, in order. */
  function Recovered(bs: nat, img0: seq<byte>, recs: seq<Rec>, k: nat): seq<byte>
    requires k <= |recs|
  {
    ApplyAll(bs, img0, AllEntries(recs[..k]))
  }

  /** Tears that switch the journal off: inside the header or the commit record. */
  predicate Blind(r: Rec, n: nat) {
    0 < n < 16 || |Payload(r)| < n < |Payload(r)| + 16
  }

  /** What each scanner makes of a torn tail. */
  lemma TornTail(crc: Crc, r: Rec, n: nat)
    requires Loggable(r) && 0 < n < |Record(crc, r)|
    ensures InitNext(crc, Record(crc, r)[..n]) == if Blind(r, n) then Fail else Stop
    ensures !Blind(r, n) ==> ReplayNext(crc, Record(crc, r)[..n]) == if n < |Payload(r)| then Fail else Stop
  {
    if n < 16 {
      TornHeader(crc, r, n);
    } else if n < |Payload(r)| {
      TornBody(crc, r, n);
    } else {
      TornTrailer(crc, r, n);
    }
  }

  /** Recovery at every crash point, byte by byte: the open yields exactly the fully
      logged transactions unless the tear blinds the scan; then the image is left
      as the crash left it. The open is refused exactly when the payload is torn. */
  lemma CrashRecovery(crc: Crc, bs: nat, blocks: nat, img0: seq<byte>, recs: seq<Rec>, k: nat, n: nat, j: nat, img: seq<byte>, log: seq<byte>)
    requires Session(blocks, recs) && Crashed(crc, bs, img0, recs, k, n, j, img, log)
    ensures var r := OpenFs(crc, bs, blocks, log, img);
            && (n == 0 || n == |Payload(recs[k])| ==> r == Enabled(Recovered(bs, img0, recs, k), k + 1, k + 1))
            && (n > 0 && 16 <= n < |Payload(recs[k])| ==> r == Refused(Recovered(bs, img0, recs, k)))
            && (n > 0 && Blind(recs[k], n) ==> r == Disabled(img))
  {
    hide ReplayNext, InitNext, ApplyAll, Log, AllEntries, MaxSeq, LastBump, Payload, Record, Session;
    assert |recs| < TOP && (k < |recs| ==> Loggable(recs[k])) by { SessionMeans(blocks, recs, k); }
    var pre := recs[..k];
    var t := if n > 0 then Record(crc, recs[k])[..n] else [];
    var es := AllEntries(pre);
    SessionPrefix(blocks, recs, k);
    ScanLog(crc, bs, blocks, pre, t, img, k + 1, 0);
    SessionMax(blocks, pre, 0);
    BumpStays(k + 1, pre);
    ReplayHeals(bs, img0, es, j);
    if n > 0 {
      TornTail(crc, recs[k], n);
    } else {
      EndOfLog(crc);
    }
    assert (k + 1) % U64 == k + 1;
  }

  /** Whole records, then anything at which both scanners stop. */
  lemma StopRecovery(crc: Crc, bs: nat, blocks: nat, img0: seq<byte>, recs: seq<Rec>, k: nat, j: nat, t: seq<byte>)
    requires Session(blocks, recs) && k <= |recs| && j <= |AllEntries(recs[..k])|
    requires ReplayNext(crc, t) == Stop && InitNext(crc, t) == Stop
    ensures OpenFs(crc, bs, blocks, Log(crc, recs[..k]) + t, ApplyAll(bs, img0, AllEntries(recs[..k])[..j]))
         == Enabled(Recovered(bs, img0, recs, k), k + 1, k + 1)
  {
    hide ReplayNext, InitNext, ApplyAll, Log, AllEntries, MaxSeq, LastBump, Session;
    SessionMeans(blocks, recs, k);
    var pre := recs[..k];
    SessionPrefix(blocks, recs, k);
    ScanLog(crc, bs, blocks, pre, t, ApplyAll(bs, img0, AllEntries(pre)[..j]), k + 1, 0);
    SessionMax(blocks, pre, 0);
    BumpStays(k + 1, pre);
    ReplayHeals(bs, img0, AllEntries(pre), j);
    assert (k + 1) % U64 == k + 1;
  }

  lemma EndOfLog(crc: Crc)
    ensures ReplayNext(crc, []) == Stop && InitNext(crc, []) == Stop
  {
  }

  lemma SessionMeans(blocks: nat, recs: seq<Rec>, k: nat)
    requires Session(blocks, recs)
    ensures |recs| < TOP && (k < |recs| ==> Loggable(recs[k]))
  {
  }

  lemma SessionPrefix(blocks: nat, recs: seq<Rec>, k: nat)
    requires Session(blocks, recs) && k <= |recs|
    ensures InRange(blocks, recs[..k]) && forall i :: 0 <= i < k ==> recs[..k][i].seqNo == i + 1
  {
  }

  lemma SessionMax(blocks: nat, recs: seq<Rec>, last: nat)
    requires forall i :: 0 <= i < |recs| ==> recs[i].seqNo == i + 1
    ensures MaxSeq(0, recs) == |recs|
  {
    if recs != [] {
      assert recs[|recs| - 1].seqNo == |recs|;
    }
  }

  /** In a run that applies each transaction before logging the next, every tear is
      recovered exactly, however the open ends. */
  lemma SequentialRecovery(crc: Crc, bs: nat, blocks: nat, img0: seq<byte>, recs: seq<Rec>, k: nat, n: nat, j: nat, img: seq<byte>, log: seq<byte>)
    requires Session(blocks, recs) && Crashed(crc, bs, img0, recs, k, n, j, img, log)
    requires n > 0 ==> j == |AllEntries(recs[..k])|
    ensures OpenFs(crc, bs, blocks, log, img).img == Recovered(bs, img0, recs, k)
  {
    CrashRecovery(crc, bs, blocks, img0, recs, k, n, j, img, log);
    assert AllEntries(recs[..k])[..|AllEntries(recs[..k])|] == AllEntries(recs[..k]);
  }

  /** Two transactions in flight: the first is logged but not yet applied when one
      byte of the second record reaches the log. Reopening then loses the first. */
  lemma TornHeaderLosesTransaction(crc: Crc)
    ensures var recs := [Rec(1, [Entry(0, [7])]), Rec(2, [])];
            && Crashed(crc, 1024, [0], recs, 1, 1, 0, [0], Log(crc, recs[..1]) + Record(crc, recs[1])[..1])
            && OpenFs(crc, 1024, 1, Log(crc, recs[..1]) + Record(crc, recs[1])[..1], [0]) == Disabled([0])
            && Recovered(1024, [0], recs, 1) == [7]
  {
    var recs := [Rec(1, [Entry(0, [7])]), Rec(2, [])];
    var log := Log(crc, recs[..1]) + Record(crc, recs[1])[..1];
    assert recs[..1] == [recs[0]] && recs[..1][1..] == [];
    assert AllEntries(recs[..1]) == recs[0].entries + [] == [Entry(0, [7])];
    var es := [Entry(0, [7])];
    assert es[..0] == [];
    CrashRecovery(crc, 1024, 1, [0], recs, 1, 1, 0, [0], log);
  }

  lemma ApplyTwo(img: seq<byte>, a: byte, b: byte)
    requires |img| == 1
    ensures ApplyAll(1024, img, [Entry(0, [a]), Entry(0, [b])]) == [b]
  {
    var es := [Entry(0, [a]), Entry(0, [b])];
    assert es[..1] == [Entry(0, [a])] && es[..1][..0] == [];
    assert ApplyAll(1024, img, es[..1]) == Store(img, 0, [a]);
  }

  lemma InitEnd(crc: Crc, last: nat)
    ensures InitFrom(crc, [], last) == Some((last + 1) % U64)
  {
    EndOfLog(crc);
  }

  lemma ReplayEnd(crc: Crc, bs: nat, blocks: nat, img: seq<byte>, next: nat)
    ensures ReplayFrom(crc, bs, blocks, [], img, next) == Outcome(true, img, next)
  {
    EndOfLog(crc);
  }

  // ---------------------------------------------------------------- a sequential session

  /** While transaction k of a session is being committed, a torn log write and every
      partly applied image are crash points of the session. */
  lemma CommitCrashPoints(crc: Crc, bs: nat, img0: seq<byte>, recs: seq<Rec>, k: nat, i: nat, n: nat)
    requires k < |recs| && i <= |recs[k].entries| && n < |Record(crc, recs[k])|
    ensures Crashed(crc, bs, img0, recs, k, n, |AllEntries(recs[..k])|, Recovered(bs, img0, recs, k), Log(crc, recs[..k]) + Record(crc, recs[k])[..n])
    ensures Crashed(crc, bs, img0, recs, k + 1, 0, |AllEntries(recs[..k])| + i,
                    ApplyAll(bs, Recovered(bs, img0, recs, k), recs[k].entries[..i]), Log(crc, recs[..k]) + Record(crc, recs[k]))
  {
    hide ApplyAll, Record, Log, AllEntries;
    var pre, r := recs[..k], recs[k];
    var es := AllEntries(pre);
    assert es[..|es|] == es;
    assert Record(crc, r)[..0] == [];
    assert recs[..k + 1] == pre + [r];
    LogAppend(crc, pre, r);
    assert Log(crc, pre) + [] == Log(crc, pre);
    assert Log(crc, pre + [r]) + [] == Log(crc, pre) + Record(crc, r);
    assert (es + r.entries)[..|es| + i] == es + r.entries[..i];
    ApplyAppend(bs, img0, es, r.entries[..i]);
  }

  lemma {:induction false} LogAppend(crc: Crc, recs: seq<Rec>, r: Rec)
    ensures Log(crc, recs + [r]) == Log(crc, recs) + Record(crc, r)
    ensures AllEntries(recs + [r]) == AllEntries(recs) + r.entries
    decreases |recs|
  {
    var all := recs + [r];
    if recs == [] {
      assert all[1..] == [];
    } else {
      assert all[1..] == recs[1..] + [r];
      LogAppend(crc, recs[1..], r);
    }
  }
}
