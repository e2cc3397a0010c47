/** A crash in the middle of concurrent commits, in whatever order their log slots were
    taken: what reopening makes of it, and when that is the number-order result. */
module JournalCrash {
  import opened Bytes
  import opened JournalLog
  import opened JournalRecovery
  import opened WriteOrder
  import opened JournalProtocol

  // ---------------------------------------------------------------- every reachable state

  /** Every record that has a slot fits the format and the filesystem. */
  ghost predicate Fits(blocks: nat, s: State) {
    AllTaken(s) && InRange(blocks, SlotRecs(s))
  }

  /** The records replay will find: the complete leading slots, in slot order. */
  ghost function LeadRecs(s: State): seq<Rec>
    requires AllTaken(s)
  {
    SlotRecs(s)[..LeadSlots(s)]
  }

  ghost function LeadSlots(s: State): (l: nat)
    requires AllTaken(s)
    ensures l <= |s.slots| && forall i :: 0 <= i < l ==> s.slots[i] < |s.threads| && IsLogged(s.threads[s.slots[i]].pc)
    ensures l < |s.slots| ==> s.slots[l] < |s.threads| && !IsLogged(s.threads[s.slots[l]].pc)
  {
    assert forall i :: 0 <= i < |s.slots| ==> SlotTaken(s, i);
    Lead(s, 0)
  }

  /** A crash inside log writes of any interleaving, however many are torn: reopening
      stops at the first slot that is not complete, unless its bytes pass for a record.
      What comes before is replayed, except that a blinded scan leaves the image alone. */
  lemma ReopenTorn(crc: Crc, bs: nat, blocks: nat, img0: seq<byte>, s: State, log: seq<byte>)
    requires Inv(crc, bs, img0, s) && Fits(blocks, s) && LoggedIntact(crc, s, log)
    ensures SlotOff(crc, s, LeadSlots(s)) <= |log|
    ensures var t, m, healed := log[SlotOff(crc, s, LeadSlots(s))..], MaxSeq(0, LeadRecs(s)), ApplyAll(bs, s.img, AllEntries(LeadRecs(s)));
            !ReplayNext(crc, t).Got? ==>
              OpenFs(crc, bs, blocks, log, s.img) ==
              if InitNext(crc, t) == Fail then Disabled(s.img)
              else if ReplayNext(crc, t) == Fail then Refused(healed)
              else Enabled(healed, m + 1, m + 1)
  {
    hide Log, Record, Payload, Stored, Tiled, Imaged, Turns, ApplyAll, AllEntries, ReplayNext, InitNext, LastBump, MaxSeq, Loggable, LoggedIntact;
    var lead := LeadRecs(s);
    var m := MaxSeq(0, lead);
    IntactPrefix(crc, s, log, LeadSlots(s));
    var off := SlotOff(crc, s, LeadSlots(s));
    assert log == log[..off] + log[off..];
    assert InRange(blocks, lead);
    ScanLog(crc, bs, blocks, lead, log[off..], s.img, m + 1, 0);
    SameAcceptance(crc, log[off..]);
    assert m < TOP by { MaxBelow(lead); }
    BumpStays(m + 1, lead);
    assert (m + 1) % U64 == m + 1;
  }

  /** A crash between any two device writes of any interleaving: reopening replays the
      complete leading slots, in slot order, over the image as it stood. */
  lemma ReopenAnyOrder(crc: Crc, bs: nat, blocks: nat, img0: seq<byte>, s: State)
    requires Inv(crc, bs, img0, s) && Fits(blocks, s)
    ensures var m := MaxSeq(0, LeadRecs(s));
            OpenFs(crc, bs, blocks, s.log, s.img) == Enabled(ApplyAll(bs, s.img, AllEntries(LeadRecs(s))), m + 1, m + 1)
  {
    hide Log, Record, Payload, Stored, Tiled, Imaged, Turns, ApplyAll, AllEntries, ReplayNext, InitNext, MaxSeq, Loggable, LoggedIntact, OpenFs, InRange;
    StoredIntact(crc, s);
    ReopenTorn(crc, bs, blocks, img0, s, s.log);
    NextFits(blocks, s);
    TailStops(crc, s, LeadSlots(s));
  }

  lemma NextFits(blocks: nat, s: State)
    requires Fits(blocks, s)
    ensures var l := LeadSlots(s);
            l < |s.slots| ==> Loggable(RecOf(s.threads[s.slots[l]]))
  {
    hide Loggable;
    var l := LeadSlots(s);
    if l < |s.slots| { assert SlotRecs(s)[l] == RecOf(s.threads[s.slots[l]]); }
  }

  lemma MaxBelow(recs: seq<Rec>)
    requires forall i :: 0 <= i < |recs| ==> recs[i].seqNo < TOP
    ensures MaxSeq(0, recs) < TOP
  {
    hide MaxSeq;
  }

  // ---------------------------------------------------------------- slots in number order

  lemma InOrderLead(crc: Crc, s: State)
    requires Turns(s) && Tiled(crc, s) && InOrder(s)
    ensures LeadSlots(s) <= |s.order| && LeadRecs(s) == OrderRecs(s)[..LeadSlots(s)]
  {
    hide Log;
    InOrderRecs(crc, s);
  }

  /** With slots taken in number order the result is exactly the transactions whose
      records are complete without a gap, among them every one that had returned or
      had touched the image. */
  lemma ConcurrentCrash(crc: Crc, bs: nat, blocks: nat, img0: seq<byte>, s: State)
    requires Inv(crc, bs, img0, s) && InOrder(s) && Session(blocks, OrderRecs(s))
    ensures AllTaken(s) && LeadSlots(s) <= |s.order|
    ensures var l := LeadSlots(s);
            && OpenFs(crc, bs, blocks, s.log, s.img) == Enabled(Recovered(bs, img0, OrderRecs(s), l), l + 1, l + 1)
            && forall t :: 0 <= t < |s.threads| && (s.threads[t].pc.Applying? || s.threads[t].pc.Finished?) ==> s.threads[t].pc.no <= l
  {
    hide Log, Record, Payload, Stored, Tiled, ApplyAll, AllEntries, OpenFs, Session, MaxSeq;
    TiledTaken(crc, s);
    InOrderLead(crc, s);
    var l, recs := LeadSlots(s), OrderRecs(s);
    forall t | 0 <= t < |s.threads| && (s.threads[t].pc.Applying? || s.threads[t].pc.Finished?) ensures s.threads[t].pc.no <= l {
      AppliedAreLogged(crc, s, t);
    }
    assert Fits(blocks, s) by {
      InOrderRecs(crc, s);
      SessionPrefix(blocks, recs, |s.slots|);
    }
    ReopenAnyOrder(crc, bs, blocks, img0, s);
    AppliedBound(crc, s, l);
    AppliedPrefix(s, l);
    var done := AllEntries(recs[..s.applySeq - 1]) + Current(s);
    var all := AllEntries(recs[..l]);
    assert done == all[..|done|];
    ReplayHeals(bs, img0, all, |done|);
    SessionPrefix(blocks, recs, l);
    SessionMax(blocks, recs[..l], 0);
  }

  // ---------------------------------------------------------------- any order

  /** The commits in number order. */
  ghost function Recs(s: State): (r: seq<Rec>)
    requires Turns(s)
    ensures |r| == |s.order|
  {
    OrderRecs(s)
  }

  /** The numbers of the commits in the complete leading slots, counted from 0. */
  ghost function LeadNos(s: State): (ks: seq<nat>)
    requires Turns(s) && AllTaken(s)
    ensures |ks| == LeadSlots(s)
    ensures forall i :: 0 <= i < |ks| ==> s.slots[i] < |s.threads| && !s.threads[s.slots[i]].pc.Start? && ks[i] == s.threads[s.slots[i]].pc.no - 1 && ks[i] < |s.order|
  {
    assert forall i :: 0 <= i < |s.slots| ==> SlotTaken(s, i) && TurnOf(s, s.slots[i]);
    seq(LeadSlots(s), i requires 0 <= i < LeadSlots(s) => s.threads[s.slots[i]].pc.no - 1)
  }

  lemma LeadSub(s: State)
    requires Turns(s) && AllTaken(s)
    ensures AllIn(Recs(s), LeadNos(s)) && Sub(Recs(s), LeadNos(s)) == LeadRecs(s)
  {
    forall i | 0 <= i < |LeadNos(s)| ensures Recs(s)[LeadNos(s)[i]] == LeadRecs(s)[i] {
      assert TurnOf(s, s.slots[i]) && OrderAt(s, LeadNos(s)[i]);
    }
  }

  /** The block writes made so far, in the order they were made. */
  ghost function AppliedIds(s: State): seq<Id>
    requires Turns(s)
  {
    var recs, a := Recs(s), s.applySeq - 1;
    IdsOf(recs, Upto(a)) + (if a < |recs| && |Current(s)| <= |recs[a].entries| then RecIds(recs, a)[..|Current(s)|] else [])
  }

  lemma AppliedIs(s: State)
    requires Turns(s)
    ensures Pick(Recs(s), AppliedIds(s)) == AllEntries(Recs(s)[..s.applySeq - 1]) + Current(s)
  {
    hide IdsOf, EntryOf, AllEntries;
    var recs, a := Recs(s), s.applySeq - 1;
    SubUpto(recs, a);
    PickIds(recs, Upto(a));
    CurrentIs(s);
    if a < |recs| {
      PickRec(recs, a, |Current(s)|);
      PickCat(recs, IdsOf(recs, Upto(a)), RecIds(recs, a)[..|Current(s)|]);
    } else {
      PickCat(recs, IdsOf(recs, Upto(a)), []);
    }
  }

  lemma CurrentIs(s: State)
    requires Turns(s)
    ensures var recs, a := Recs(s), s.applySeq - 1;
            if a < |recs| then |Current(s)| <= |recs[a].entries| && Current(s) == recs[a].entries[..|Current(s)|] else Current(s) == []
  {
    if s.applySeq <= |s.order| {
      assert OrderAt(s, s.applySeq - 1) && TurnOf(s, s.order[s.applySeq - 1]);
    }
  }

  /** Those and the ones replay makes. */
  ghost function PerformedIds(s: State): seq<Id>
    requires Turns(s) && AllTaken(s)
  {
    LeadSub(s);
    AppliedIds(s) + IdsOf(Recs(s), LeadNos(s))
  }

  lemma ReopenFold(crc: Crc, bs: nat, blocks: nat, img0: seq<byte>, s: State)
    requires Inv(crc, bs, img0, s) && Fits(blocks, s)
    ensures OpenFs(crc, bs, blocks, s.log, s.img).img == Fold(bs, img0, Recs(s), PerformedIds(s))
  {
    hide Tiled, Stored, ApplyAll, AllEntries, OpenFs, IdsOf, Pick, AppliedIds, MaxSeq;
    var recs := Recs(s);
    ReopenAnyOrder(crc, bs, blocks, img0, s);
    AppliedIs(s);
    LeadSub(s);
    PickIds(recs, LeadNos(s));
    PickCat(recs, AppliedIds(s), IdsOf(recs, LeadNos(s)));
    ApplyAppend(bs, img0, Pick(recs, AppliedIds(s)), Pick(recs, IdsOf(recs, LeadNos(s))));
  }

  /** Commit k has begun to apply, or replay will find its record. */
  ghost predicate Kept(s: State, k: nat)
    requires Turns(s) && AllTaken(s) && k < |s.order|
  {
    Begun(s, k) || k in LeadNos(s)
  }

  ghost predicate Begun(s: State, k: nat)
    requires Turns(s) && k < |s.order|
  {
    assert OrderAt(s, k);
    s.threads[s.order[k]].pc.Applying? || s.threads[s.order[k]].pc.Finished?
  }

  /** The commits among the first n that must survive the crash whole, in number order. */
  ghost function Survivors(s: State, n: nat): (ks: seq<nat>)
    requires Turns(s) && AllTaken(s) && n <= |s.order|
    ensures forall i :: 0 <= i < |ks| ==> ks[i] < n && Kept(s, ks[i])
    ensures forall i, j :: 0 <= i < j < |ks| ==> ks[i] < ks[j]
    ensures forall k :: 0 <= k < n && Kept(s, k) ==> k in ks
  {
    if n == 0 then [] else Survivors(s, n - 1) + (if Kept(s, n - 1) then [n - 1] else [])
  }

  ghost function SurvivorIds(s: State): seq<Id>
    requires Turns(s) && AllTaken(s)
  {
    IdsOf(Recs(s), Survivors(s, |s.order|))
  }

  /** The image with the survivors applied whole, in number order. */
  ghost function Whole(bs: nat, img0: seq<byte>, s: State): seq<byte>
    requires Turns(s) && AllTaken(s)
  {
    ApplyAll(bs, img0, AllEntries(Sub(Recs(s), Survivors(s, |s.order|))))
  }

  lemma WholeIs(bs: nat, img0: seq<byte>, s: State)
    requires Turns(s) && AllTaken(s)
    ensures Whole(bs, img0, s) == Fold(bs, img0, Recs(s), SurvivorIds(s))
  {
    hide ApplyAll, AllEntries, IdsOf, Pick, Survivors;
    PickIds(Recs(s), Survivors(s, |s.order|));
  }

  /** Reopening after a crash in this state gives exactly that image. */
  ghost predicate Intact(crc: Crc, bs: nat, blocks: nat, img0: seq<byte>, s: State) {
    Turns(s) && AllTaken(s) && OpenFs(crc, bs, blocks, s.log, s.img).img == Whole(bs, img0, s)
  }

  /** No byte has changed its last writer: the writes made before the crash and during
      replay end, byte by byte, with the write number order ends with. */
  ghost predicate Settled(bs: nat, s: State) {
    Turns(s) && AllTaken(s) && SameWriters(bs, Recs(s), PerformedIds(s), SurvivorIds(s))
  }

  lemma SettledIntact(crc: Crc, bs: nat, blocks: nat, img0: seq<byte>, s: State)
    requires Inv(crc, bs, img0, s) && Fits(blocks, s)
    ensures Intact(crc, bs, blocks, img0, s) <==> Fold(bs, img0, Recs(s), PerformedIds(s)) == Fold(bs, img0, Recs(s), SurvivorIds(s))
    ensures Settled(bs, s) ==> Intact(crc, bs, blocks, img0, s)
  {
    hide Tiled, Stored, ApplyAll, AllEntries, OpenFs, IdsOf, Pick, AppliedIds, Survivors, Fold, SameWriters, PerformedIds, SurvivorIds, Whole;
    ReopenFold(crc, bs, blocks, img0, s);
    WholeIs(bs, img0, s);
    if Settled(bs, s) { SameFold(bs, img0, Recs(s), PerformedIds(s), SurvivorIds(s)); }
  }
}
