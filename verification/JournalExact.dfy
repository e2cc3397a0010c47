/** Exactly which crashes of concurrent commits are recovered: the same schedule with
    other data, the condition on last writers, and two runs in which it fails. */
module JournalExact {
  import opened Bytes
  import opened JournalLog
  import opened JournalRecovery
  import opened WriteOrder
  import opened JournalProtocol
  import opened JournalCrash

  // ---------------------------------------------------------------- the same run with other bytes

  ghost predicate TwinThread(a: Thread, b: Thread, es: seq<Entry>) {
    b.pc == a.pc && b.failed == a.failed && b.entries == es && SameEntries(a.entries, es)
  }

  /** The same state up to the bytes being written, which are E in the second. */
  ghost predicate Twin(s: State, s': State, E: seq<seq<Entry>>) {
    && s'.nextSeq == s.nextSeq && s'.applySeq == s.applySeq && s'.appendOff == s.appendOff && |s'.log| == |s.log|
    && s'.order == s.order && s'.slots == s.slots && |s'.threads| == |s.threads| == |E|
    && forall t :: 0 <= t < |E| ==> TwinThread(s.threads[t], s'.threads[t], E[t])
  }

  /** A step of one is a step of the other. */
  lemma TwinNext(crc: Crc, bs: nat, s: State, s1: State, s': State, E: seq<seq<Entry>>, t: nat)
    requires Twin(s, s', E) && Next(crc, bs, s, s1, t)
    ensures exists s1' :: Next(crc, bs, s', s1', t) && Twin(s1, s1', E)
  {
    hide Record, Payload, Trailer, Store, SameEntries;
    assert TwinThread(s.threads[t], s'.threads[t], E[t]);
    if CanNumber(s, t) && s1 == Number(s, t) {
      assert Next(crc, bs, s', Number(s', t), t) && Twin(s1, Number(s', t), E);
    } else if CanReserve(s, t) && s1 == Reserve(crc, s, t) {
      RecordShape(crc, RecOf(s.threads[t]), RecOf(s'.threads[t]));
      assert Next(crc, bs, s', Reserve(crc, s', t), t) && Twin(s1, Reserve(crc, s', t), E);
    } else if CanBody(s, t) && s1 == WriteBody(s, t) {
      TwinBody(crc, s, s', E, t);
      assert Next(crc, bs, s', WriteBody(s', t), t);
    } else if CanTrailer(s, t) && s1 == WriteTrailer(crc, s, t) {
      TwinTrailer(crc, s, s', E, t);
      assert Next(crc, bs, s', WriteTrailer(crc, s', t), t);
    } else if CanBegin(s, t) && s1 == Begin(s, t) {
      assert Next(crc, bs, s', Begin(s', t), t) && Twin(s1, Begin(s', t), E);
    } else if CanApply(s, t) && s1 == Apply(bs, s, t) {
      TwinApply(bs, s, s', E, t);
      assert Next(crc, bs, s', Apply(bs, s', t), t);
    } else if CanFinish(s, t) && s1 == Finish(s, t) {
      TwinFinish(s, s', E, t);
      assert Next(crc, bs, s', Finish(s', t), t);
    } else {
      assert Next(crc, bs, s', Err(s', t), t) && Twin(s1, Err(s', t), E);
    }
  }

  lemma TwinBody(crc: Crc, s: State, s': State, E: seq<seq<Entry>>, t: nat)
    requires Twin(s, s', E) && CanBody(s, t)
    ensures CanBody(s', t) && Twin(WriteBody(s, t), WriteBody(s', t), E)
  {
    hide Record, Payload, SameEntries;
    assert TwinThread(s.threads[t], s'.threads[t], E[t]);
    RecordShape(crc, RecOf(s.threads[t]), RecOf(s'.threads[t]));
  }

  lemma TwinTrailer(crc: Crc, s: State, s': State, E: seq<seq<Entry>>, t: nat)
    requires Twin(s, s', E) && CanTrailer(s, t)
    ensures CanTrailer(s', t) && Twin(WriteTrailer(crc, s, t), WriteTrailer(crc, s', t), E)
  {
    hide Record, Payload, Trailer, SameEntries;
    assert TwinThread(s.threads[t], s'.threads[t], E[t]);
    RecordShape(crc, RecOf(s.threads[t]), RecOf(s'.threads[t]));
  }

  lemma TwinApply(bs: nat, s: State, s': State, E: seq<seq<Entry>>, t: nat)
    requires Twin(s, s', E) && CanApply(s, t)
    ensures CanApply(s', t) && Twin(Apply(bs, s, t), Apply(bs, s', t), E)
  {
    hide Store;
    assert TwinThread(s.threads[t], s'.threads[t], E[t]);
  }

  lemma TwinFinish(s: State, s': State, E: seq<seq<Entry>>, t: nat)
    requires Twin(s, s', E) && CanFinish(s, t)
    ensures CanFinish(s', t) && Twin(Finish(s, t), Finish(s', t), E)
  {
    assert TwinThread(s.threads[t], s'.threads[t], E[t]);
  }

  ghost predicate Twins(ss: seq<State>, ss': seq<State>, E: seq<seq<Entry>>) {
    |ss'| == |ss| && forall i :: 0 <= i < |ss| ==> Twin(ss[i], ss'[i], E)
  }

  /** Every schedule can be run with other bytes of the same shape. */
  lemma {:induction false} TwinRun(crc: Crc, bs: nat, img0: seq<byte>, ss: seq<State>, E: seq<seq<Entry>>)
    requires Run(crc, bs, img0, ss) && |E| == |ss[0].threads| && forall t :: 0 <= t < |E| ==> SameEntries(ss[0].threads[t].entries, E[t])
    ensures exists ss' :: Run(crc, bs, img0, ss') && Twins(ss, ss', E)
    decreases |ss|
  {
    hide Next, SameEntries;
    var n := |ss| - 1;
    if n == 0 {
      var s := ss[0];
      var s' := s.(threads := seq(|E|, t requires 0 <= t < |E| => s.threads[t].(entries := E[t])));
      assert Run(crc, bs, img0, [s']) && Twins(ss, [s'], E);
    } else {
      RunFront(crc, bs, img0, ss);
      TwinRun(crc, bs, img0, ss[..n], E);
      var pre :| Run(crc, bs, img0, pre) && Twins(ss[..n], pre, E);
      assert StepAt(crc, bs, ss, n - 1);
      var t: nat :| Next(crc, bs, ss[n - 1], ss[n], t);
      assert Twin(ss[..n][n - 1], pre[n - 1], E);
      TwinNext(crc, bs, ss[n - 1], ss[n], pre[n - 1], E, t);
      var s' :| Next(crc, bs, pre[n - 1], s', t) && Twin(ss[n], s', E);
      RunOn(crc, bs, img0, pre, s', t);
      TwinsOn(ss, pre, s', E);
    }
  }

  lemma TwinsOn(ss: seq<State>, pre: seq<State>, s': State, E: seq<seq<Entry>>)
    requires |ss| > 0 && Twins(ss[..|ss| - 1], pre, E) && Twin(ss[|ss| - 1], s', E)
    ensures Twins(ss, pre + [s'], E)
  {
    hide Twin;
    forall i | 0 <= i < |ss| ensures Twin(ss[i], (pre + [s'])[i], E) {
      if i < |ss| - 1 { assert Twin(ss[..|ss| - 1][i], pre[i], E); }
    }
  }

  lemma RunFront(crc: Crc, bs: nat, img0: seq<byte>, ss: seq<State>)
    requires Run(crc, bs, img0, ss) && |ss| > 1
    ensures Run(crc, bs, img0, ss[..|ss| - 1])
  {
    hide Next, Init;
    var pre := ss[..|ss| - 1];
    forall i | 0 <= i < |pre| - 1 ensures StepAt(crc, bs, pre, i) { assert StepAt(crc, bs, ss, i); }
  }

  lemma RunOn(crc: Crc, bs: nat, img0: seq<byte>, ss: seq<State>, s: State, t: nat)
    requires Run(crc, bs, img0, ss) && Next(crc, bs, ss[|ss| - 1], s, t)
    ensures Run(crc, bs, img0, ss + [s])
  {
    hide Next, Init;
    var all := ss + [s];
    forall i | 0 <= i < |all| - 1 ensures StepAt(crc, bs, all, i) {
      if i < |ss| - 1 { assert StepAt(crc, bs, ss, i); } else { assert StepFrom(crc, bs, all[i], all[i + 1]); }
    }
  }

  /** What a commit writes is fixed when it starts. */
  lemma {:induction false} EntriesFixed(crc: Crc, bs: nat, img0: seq<byte>, ss: seq<State>, i: nat)
    requires Run(crc, bs, img0, ss) && i < |ss|
    ensures |ss[i].threads| == |ss[0].threads| && forall t :: 0 <= t < |ss[0].threads| ==> ss[i].threads[t].entries == ss[0].threads[t].entries
    decreases i
  {
    hide Init, Next;
    if i > 0 {
      EntriesFixed(crc, bs, img0, ss, i - 1);
      assert StepAt(crc, bs, ss, i - 1);
      var t: nat :| Next(crc, bs, ss[i - 1], ss[i], t);
      EntriesStep(crc, bs, ss[i - 1], ss[i], t);
    }
  }

  lemma EntriesStep(crc: Crc, bs: nat, s: State, s': State, t: nat)
    requires Next(crc, bs, s, s', t)
    ensures |s'.threads| == |s.threads| && forall u :: 0 <= u < |s.threads| ==> s'.threads[u].entries == s.threads[u].entries
  {
    hide Store, Record, Payload, Trailer;
  }

  // ---------------------------------------------------------------- what twins share

  lemma TwinShapes(s: State, s': State, E: seq<seq<Entry>>)
    requires Twin(s, s', E) && Turns(s) && Turns(s')
    ensures SameShape(Recs(s), Recs(s')) && |Current(s')| == |Current(s)|
  {
    hide SameEntries;
    forall k | 0 <= k < |s.order|
      ensures Recs(s)[k].seqNo == Recs(s')[k].seqNo && SameEntries(Recs(s)[k].entries, Recs(s')[k].entries)
    {
      assert OrderAt(s, k) && OrderAt(s', k);
      assert TwinThread(s.threads[s.order[k]], s'.threads[s.order[k]], E[s.order[k]]);
    }
    if s.applySeq <= |s.order| {
      var t := s.order[s.applySeq - 1];
      assert OrderAt(s, s.applySeq - 1) && TurnOf(s, t) && TurnOf(s', t);
      assert TwinThread(s.threads[t], s'.threads[t], E[t]);
    }
  }

  lemma {:induction false} LeadTwin(s: State, s': State, k: nat)
    requires k <= |s.slots| && s'.slots == s.slots && |s'.threads| == |s.threads| && forall i :: 0 <= i < |s.slots| ==> s.slots[i] < |s.threads|
    requires forall t :: 0 <= t < |s.threads| ==> s'.threads[t].pc == s.threads[t].pc
    ensures Lead(s', k) == Lead(s, k)
    decreases |s.slots| - k
  {
    if k < |s.slots| && IsLogged(s.threads[s.slots[k]].pc) { LeadTwin(s, s', k + 1); }
  }

  lemma TwinLead(s: State, s': State, E: seq<seq<Entry>>)
    requires Twin(s, s', E) && AllTaken(s)
    ensures AllTaken(s') && LeadSlots(s') == LeadSlots(s)
  {
    hide SameEntries;
    forall t | 0 <= t < |E| ensures s'.threads[t].pc == s.threads[t].pc { assert TwinThread(s.threads[t], s'.threads[t], E[t]); }
    forall i | 0 <= i < |s'.slots| ensures SlotTaken(s', i) { assert SlotTaken(s, i); }
    assert forall i :: 0 <= i < |s.slots| ==> SlotTaken(s, i);
    LeadTwin(s, s', 0);
  }

  lemma TwinNos(s: State, s': State, E: seq<seq<Entry>>)
    requires Twin(s, s', E) && Turns(s) && Turns(s') && AllTaken(s) && AllTaken(s')
    ensures LeadNos(s') == LeadNos(s)
    ensures forall k :: 0 <= k < |s.order| ==> Kept(s', k) == Kept(s, k)
  {
    hide SameEntries, Turns;
    TwinLead(s, s', E);
    forall i | 0 <= i < |LeadNos(s)| ensures LeadNos(s')[i] == LeadNos(s)[i] {
      assert TwinThread(s.threads[s.slots[i]], s'.threads[s.slots[i]], E[s.slots[i]]);
    }
    forall k | 0 <= k < |s.order| ensures Begun(s', k) == Begun(s, k) {
      TwinOrder(s, k);
      assert TwinThread(s.threads[s.order[k]], s'.threads[s.order[k]], E[s.order[k]]);
    }
  }

  lemma TwinOrder(s: State, k: nat)
    requires Turns(s) && k < |s.order|
    ensures s.order[k] < |s.threads|
  {
    assert OrderAt(s, k);
  }

  lemma {:induction false} SameSurvivors(s: State, s': State, n: nat)
    requires Turns(s) && Turns(s') && AllTaken(s) && AllTaken(s') && s'.order == s.order && n <= |s.order|
    requires forall k :: 0 <= k < |s.order| ==> Kept(s', k) == Kept(s, k)
    ensures Survivors(s', n) == Survivors(s, n)
    decreases n
  {
    hide Turns, Kept, AllTaken;
    if n > 0 { SameSurvivors(s, s', n - 1); }
  }

  lemma TwinIds(s: State, s': State, E: seq<seq<Entry>>)
    requires Twin(s, s', E) && Turns(s) && Turns(s') && AllTaken(s) && AllTaken(s')
    ensures SameShape(Recs(s), Recs(s')) && PerformedIds(s') == PerformedIds(s) && SurvivorIds(s') == SurvivorIds(s)
  {
    hide SameEntries, Turns, AllTaken, Survivors, Kept, IdsOf;
    var recs, recs' := Recs(s), Recs(s');
    TwinShapes(s, s', E);
    TwinNos(s, s', E);
    SameSurvivors(s, s', |s.order|);
    LeadSub(s);
    ShapeIds(recs, recs', LeadNos(s));
    ShapeIds(recs, recs', Survivors(s, |s.order|));
    TwinApplied(s, s');
  }

  lemma TwinApplied(s: State, s': State)
    requires Turns(s) && Turns(s') && s'.applySeq == s.applySeq && s'.order == s.order && |Current(s')| == |Current(s)|
    requires SameShape(Recs(s), Recs(s'))
    ensures AppliedIds(s') == AppliedIds(s)
  {
    hide IdsOf, Current;
    var recs, recs', a := Recs(s), Recs(s'), s.applySeq - 1;
    SubUpto(recs, a);
    ShapeIds(recs, recs', Upto(a));
    if a < |recs| { assert RecIds(recs, a) == RecIds(recs', a); }
  }

  lemma TwinFits(blocks: nat, s: State, s': State, E: seq<seq<Entry>>)
    requires Twin(s, s', E) && Fits(blocks, s)
    ensures Fits(blocks, s')
  {
    TwinLead(s, s', E);
    forall i | 0 <= i < |s.slots|
      ensures Loggable(SlotRecs(s')[i]) && SlotRecs(s')[i].seqNo < TOP && forall e :: e in SlotRecs(s')[i].entries ==> e.block < blocks
    {
      var t := s.slots[i];
      assert SlotTaken(s, i) && SlotTaken(s', i);
      assert TwinThread(s.threads[t], s'.threads[t], E[t]);
      FitShape(blocks, SlotRecs(s)[i], SlotRecs(s')[i]);
    }
  }

  lemma FitShape(blocks: nat, a: Rec, b: Rec)
    requires SameEntries(a.entries, b.entries) && a.seqNo == b.seqNo && Loggable(a) && forall e :: e in a.entries ==> e.block < blocks
    ensures Loggable(b) && forall e :: e in b.entries ==> e.block < blocks
  {
    forall e | e in b.entries ensures e.block < blocks {
      var h :| 0 <= h < |b.entries| && b.entries[h] == e;
      assert a.entries[h] in a.entries;
    }
  }

  // ---------------------------------------------------------------- the exact condition

  /** However the bytes of this run are chosen, a crash in its last state is recovered. */
  ghost predicate AlwaysIntact(crc: Crc, bs: nat, blocks: nat, img0: seq<byte>, ss: seq<State>)
    requires ss != []
  {
    forall ss', E :: Run(crc, bs, img0, ss') && Twins(ss, ss', E) ==> Intact(crc, bs, blocks, img0, ss'[|ss| - 1])
  }

  /** A crash at the end of a run of concurrent commits, in any schedule: whatever bytes
      are written, reopening gives the begun and the replayed transactions whole and in
      number order if and only if no byte has changed its last writer. */
  lemma ReopenExactly(crc: Crc, bs: nat, blocks: nat, img0: seq<byte>, ss: seq<State>)
    requires Run(crc, bs, img0, ss) && Fits(blocks, ss[|ss| - 1])
    ensures AlwaysIntact(crc, bs, blocks, img0, ss) <==> Settled(bs, ss[|ss| - 1])
  {
    hide Run, Inv, Intact, Twin, Settled, Fits;
    RunStarts(crc, bs, img0, ss);
    var n := |ss| - 1;
    var s := ss[n];
    if Settled(bs, s) {
      forall ss', E | Run(crc, bs, img0, ss') && Twins(ss, ss', E) ensures Intact(crc, bs, blocks, img0, ss'[n]) {
        SettledTwin(crc, bs, blocks, img0, ss, ss', E);
      }
    } else {
      UnsettledTwin(crc, bs, blocks, img0, ss);
    }
  }

  lemma SettledTwin(crc: Crc, bs: nat, blocks: nat, img0: seq<byte>, ss: seq<State>, ss': seq<State>, E: seq<seq<Entry>>)
    requires Run(crc, bs, img0, ss) && Run(crc, bs, img0, ss') && Twins(ss, ss', E)
    requires Fits(blocks, ss[|ss| - 1]) && Settled(bs, ss[|ss| - 1])
    ensures Intact(crc, bs, blocks, img0, ss'[|ss| - 1])
  {
    hide Run, Intact, Fits, Tiled, Stored, Imaged, Turns, SameWriters, PerformedIds, SurvivorIds, SameShape, Twin, AllTaken;
    RunStarts(crc, bs, img0, ss);
    var n := |ss| - 1;
    var s, s' := ss[n], ss'[n];
    InvAlways(crc, bs, img0, ss', n);
    assert Twin(s, s', E);
    TwinFits(blocks, s, s', E);
    FitsTaken(blocks, s');
    TwinIds(s, s', E);
    ShapeWriters(bs, Recs(s), Recs(s'), PerformedIds(s), SurvivorIds(s));
    SettledIntact(crc, bs, blocks, img0, s');
  }

  lemma FitsTaken(blocks: nat, s: State)
    requires Fits(blocks, s)
    ensures AllTaken(s)
  {
  }

  /** The bytes of recs handed to the commits that have them. */
  ghost function Dealt(s: State, recs: seq<Rec>): (E: seq<seq<Entry>>)
    requires Turns(s) && |recs| == |s.order|
    ensures |E| == |s.threads|
  {
    seq(|s.threads|, t requires 0 <= t < |s.threads| => assert TurnOf(s, t); if s.threads[t].pc.Start? then s.threads[t].entries else recs[s.threads[t].pc.no - 1].entries)
  }

  lemma RecsAt(s: State, t: nat)
    requires Turns(s) && t < |s.threads| && !s.threads[t].pc.Start?
    ensures 1 <= s.threads[t].pc.no <= |s.order| && Recs(s)[s.threads[t].pc.no - 1] == RecOf(s.threads[t])
  {
    assert TurnOf(s, t);
    assert OrderAt(s, s.threads[t].pc.no - 1);
  }

  lemma DealtOne(s: State, recs: seq<Rec>, t: nat)
    requires Turns(s) && |recs| == |s.order| && SameShape(Recs(s), recs) && t < |s.threads|
    ensures SameEntries(s.threads[t].entries, Dealt(s, recs)[t])
  {
    hide SameEntries, Turns, Recs;
    if s.threads[t].pc.Start? {
      SameSelf(s.threads[t].entries);
    } else {
      RecsAt(s, t);
    }
  }

  lemma DealtShape(s: State, recs: seq<Rec>)
    requires Turns(s) && |recs| == |s.order| && SameShape(Recs(s), recs)
    ensures forall t :: 0 <= t < |s.threads| ==> SameEntries(s.threads[t].entries, Dealt(s, recs)[t])
  {
    hide SameEntries, Turns, SameShape, Dealt;
    forall t | 0 <= t < |s.threads| ensures SameEntries(s.threads[t].entries, Dealt(s, recs)[t]) {
      DealtOne(s, recs, t);
    }
  }

  lemma SameSelf(es: seq<Entry>)
    ensures SameEntries(es, es)
  {
  }

  lemma DealtRecs(s: State, s': State, recs: seq<Rec>)
    requires Turns(s) && Turns(s') && SameShape(Recs(s), recs) && Twin(s, s', Dealt(s, recs))
    ensures Recs(s') == recs
  {
    hide SameEntries;
    forall k | 0 <= k < |s.order| ensures Recs(s')[k] == recs[k] {
      var t := s.order[k];
      assert OrderAt(s, k) && OrderAt(s', k);
      assert TwinThread(s.threads[t], s'.threads[t], Dealt(s, recs)[t]);
    }
  }

  lemma UnsettledTwin(crc: Crc, bs: nat, blocks: nat, img0: seq<byte>, ss: seq<State>)
    requires Run(crc, bs, img0, ss) && Fits(blocks, ss[|ss| - 1]) && !Settled(bs, ss[|ss| - 1])
    ensures exists ss', E :: Run(crc, bs, img0, ss') && Twins(ss, ss', E) && !Intact(crc, bs, blocks, img0, ss'[|ss| - 1])
  {
    hide Run, Intact, Fits, Tiled, Stored, Imaged, Turns, SameWriters, PerformedIds, SurvivorIds, SameShape, Twin, AllTaken, Fold, Dealt, SameEntries;
    RunStarts(crc, bs, img0, ss);
    var n := |ss| - 1;
    var s := ss[n];
    InvAlways(crc, bs, img0, ss, n);
    FitsTaken(blocks, s);
    var recs := Recs(s);
    OrderExact(bs, img0, recs, PerformedIds(s), SurvivorIds(s));
    var recs' :| SameShape(recs, recs') && Fold(bs, img0, recs', PerformedIds(s)) != Fold(bs, img0, recs', SurvivorIds(s));
    ShapeLength(recs, recs');
    var E := Dealt(s, recs');
    DealtShape(s, recs');
    EntriesFixed(crc, bs, img0, ss, n);
    TwinRun(crc, bs, img0, ss, E);
    var ss' :| Run(crc, bs, img0, ss') && Twins(ss, ss', E);
    var s' := ss'[n];
    assert Twin(s, s', E);
    InvAlways(crc, bs, img0, ss', n);
    TwinFits(blocks, s, s', E);
    FitsTaken(blocks, s');
    DealtRecs(s, s', recs');
    TwinIds(s, s', E);
    SettledIntact(crc, bs, blocks, img0, s');
  }

  lemma RunStarts(crc: Crc, bs: nat, img0: seq<byte>, ss: seq<State>)
    requires Run(crc, bs, img0, ss)
    ensures ss != []
  {
  }

  // ---------------------------------------------------------------- a condition to check

  /** Every commit that has begun has its record in the complete leading slots, and
      leading commits in inverted slots reach no byte in common. */
  ghost predicate Orderly(bs: nat, s: State)
    requires Turns(s) && AllTaken(s)
  {
    var ks := LeadNos(s);
    && (forall k :: 0 <= k < |s.order| && Begun(s, k) ==> k in ks)
    && forall i, j, x: nat :: 0 <= i < j < |ks| && ks[i] > ks[j] && Reaches(bs, Recs(s), ks[i], x) ==> !Reaches(bs, Recs(s), ks[j], x)
  }

  lemma OrderlySettles(bs: nat, s: State)
    requires Turns(s) && AllTaken(s) && Orderly(bs, s)
    ensures Settled(bs, s)
  {
    hide LastWriter, Turns, AllTaken, PerformedIds, SurvivorIds;
    forall x: nat ensures LastWriter(bs, Recs(s), PerformedIds(s), x) == LastWriter(bs, Recs(s), SurvivorIds(s), x) {
      OrderlyByte(bs, s, x);
    }
  }

  lemma OrderlyByte(bs: nat, s: State, x: nat)
    requires Turns(s) && AllTaken(s) && Orderly(bs, s)
    ensures LastWriter(bs, Recs(s), PerformedIds(s), x) == LastWriter(bs, Recs(s), SurvivorIds(s), x)
  {
    hide LastWriter, Turns, AllTaken, Orderly, Survivors, AppliedIds, IdsOf, Reaches;
    var recs, ks := Recs(s), LeadNos(s);
    LeadSub(s);
    WriterCat(bs, recs, AppliedIds(s), IdsOf(recs, ks), x);
    var i := LastReach(bs, recs, ks, x, |ks|);
    if i < |ks| {
      OrderlyReached(bs, s, x, i);
    } else {
      OrderlyUntouched(bs, s, x);
    }
  }

  /** The last leading slot that reaches byte x holds its last survivor. */
  lemma OrderlyReached(bs: nat, s: State, x: nat, i: nat)
    requires Turns(s) && AllTaken(s) && Orderly(bs, s) && AllIn(Recs(s), LeadNos(s))
    requires i < |LeadNos(s)| && Reaches(bs, Recs(s), LeadNos(s)[i], x)
    requires forall h :: i < h < |LeadNos(s)| ==> !Reaches(bs, Recs(s), LeadNos(s)[h], x)
    ensures LastWriter(bs, Recs(s), IdsOf(Recs(s), LeadNos(s)), x).Some?
    ensures LastWriter(bs, Recs(s), IdsOf(Recs(s), LeadNos(s)), x) == LastWriter(bs, Recs(s), SurvivorIds(s), x)
  {
    hide LastWriter, Turns, AllTaken, Survivors, AppliedIds, IdsOf, Reaches;
    var recs, ks, vs := Recs(s), LeadNos(s), Survivors(s, |s.order|);
    WriterOf(bs, recs, ks, i, x);
    ReachesSome(bs, recs, ks[i], x);
    assert Kept(s, ks[i]) && ks[i] in vs;
    var p :| 0 <= p < |vs| && vs[p] == ks[i];
    forall q | p < q < |vs| ensures !Reaches(bs, recs, vs[q], x) {
      assert Kept(s, vs[q]) && vs[q] in ks;
      var h :| 0 <= h < |ks| && ks[h] == vs[q];
      if h < i { assert ks[h] > ks[i]; }
    }
    WriterOf(bs, recs, vs, p, x);
  }

  lemma OrderlyUntouched(bs: nat, s: State, x: nat)
    requires Turns(s) && AllTaken(s) && Orderly(bs, s) && AllIn(Recs(s), LeadNos(s))
    requires forall h :: 0 <= h < |LeadNos(s)| ==> !Reaches(bs, Recs(s), LeadNos(s)[h], x)
    ensures LastWriter(bs, Recs(s), PerformedIds(s), x) == LastWriter(bs, Recs(s), SurvivorIds(s), x)
  {
    hide LastWriter, Turns, AllTaken, Survivors, AppliedIds, IdsOf, Reaches;
    var recs, ks, vs := Recs(s), LeadNos(s), Survivors(s, |s.order|);
    WriterCat(bs, recs, AppliedIds(s), IdsOf(recs, ks), x);
    NoWriter(bs, recs, ks, x);
    forall q | 0 <= q < |vs| ensures !Reaches(bs, recs, vs[q], x) { assert Kept(s, vs[q]) && vs[q] in ks; }
    NoWriter(bs, recs, vs, x);
    forall k | 0 <= k < |s.order| && Begun(s, k) ensures !Reaches(bs, recs, k, x) { assert k in ks; }
    NothingApplied(bs, s, x);
  }

  lemma ReachesSome(bs: nat, recs: seq<Rec>, k: nat, x: nat)
    requires k < |recs| && Reaches(bs, recs, k, x)
    ensures LastWriter(bs, recs, RecIds(recs, k), x).Some?
  {
  }

  /** The last of the first n listed transactions that reaches byte x, or none. */
  ghost function LastReach(bs: nat, recs: seq<Rec>, ks: seq<nat>, x: nat, n: nat): (i: nat)
    requires AllIn(recs, ks) && n <= |ks| && forall j :: n <= j < |ks| ==> !Reaches(bs, recs, ks[j], x)
    ensures i <= |ks| && (i < |ks| ==> Reaches(bs, recs, ks[i], x) && forall j :: i < j < |ks| ==> !Reaches(bs, recs, ks[j], x))
    ensures i == |ks| ==> forall j :: 0 <= j < |ks| ==> !Reaches(bs, recs, ks[j], x)
  {
    if n == 0 then |ks|
    else if Reaches(bs, recs, ks[n - 1], x) then n - 1
    else LastReach(bs, recs, ks, x, n - 1)
  }

  /** No begun commit reaches the byte, so it has not been written. */
  lemma NothingApplied(bs: nat, s: State, x: nat)
    requires Turns(s) && forall k :: 0 <= k < |s.order| && Begun(s, k) ==> !Reaches(bs, Recs(s), k, x)
    ensures LastWriter(bs, Recs(s), AppliedIds(s), x) == None
  {
    hide LastWriter, IdsOf, Current;
    var recs, a := Recs(s), s.applySeq - 1;
    SubUpto(recs, a);
    forall k | 0 <= k < a ensures !Reaches(bs, recs, k, x) {
      assert OrderAt(s, k) && TurnOf(s, s.order[k]);
      assert Begun(s, k);
    }
    NoWriter(bs, recs, Upto(a), x);
    NoIds(bs, recs, x);
    CurrentIs(s);
    if a < |recs| {
      var cur := RecIds(recs, a)[..|Current(s)|];
      WriterCat(bs, recs, IdsOf(recs, Upto(a)), cur, x);
      if cur != [] {
        CurrentBegun(s);
        assert RecIds(recs, a) == cur + RecIds(recs, a)[|Current(s)|..];
        WriterCat(bs, recs, cur, RecIds(recs, a)[|Current(s)|..], x);
      }
    } else {
      WriterCat(bs, recs, IdsOf(recs, Upto(a)), [], x);
    }
  }

  lemma CurrentBegun(s: State)
    requires Turns(s) && Current(s) != []
    ensures s.applySeq - 1 < |s.order| && Begun(s, s.applySeq - 1)
  {
    assert OrderAt(s, s.applySeq - 1);
  }

  /** A crash in an orderly state is recovered, whatever was written. */
  lemma OrderlyRecovers(crc: Crc, bs: nat, blocks: nat, img0: seq<byte>, s: State)
    requires Inv(crc, bs, img0, s) && Fits(blocks, s) && Orderly(bs, s)
    ensures Intact(crc, bs, blocks, img0, s)
  {
    hide Settled, Intact, Tiled, Stored, Imaged;
    OrderlySettles(bs, s);
    SettledIntact(crc, bs, blocks, img0, s);
  }

  // ---------------------------------------------------------------- two runs that go wrong

  ghost predicate Reachable(crc: Crc, bs: nat, img0: seq<byte>, s: State) {
    exists ss :: Run(crc, bs, img0, ss) && ss[|ss| - 1] == s
  }

  lemma ReachNext(crc: Crc, bs: nat, img0: seq<byte>, s: State, s': State, t: nat)
    requires Reachable(crc, bs, img0, s) && Next(crc, bs, s, s', t)
    ensures Reachable(crc, bs, img0, s')
  {
    hide Next;
    var ss :| Run(crc, bs, img0, ss) && ss[|ss| - 1] == s;
    RunOn(crc, bs, img0, ss, s', t);
    assert (ss + [s'])[|ss|] == s';
  }

  lemma ReachInv(crc: Crc, bs: nat, img0: seq<byte>, s: State)
    requires Reachable(crc, bs, img0, s)
    ensures Inv(crc, bs, img0, s)
  {
    hide Inv;
    var ss :| Run(crc, bs, img0, ss) && ss[|ss| - 1] == s;
    InvAlways(crc, bs, img0, ss, |ss| - 1);
  }

  const BS: nat := 1024

  /** Two commits, as far as their programs and the shared counters go. */
  function Two(a: seq<Entry>, b: seq<Entry>, p: Pc, q: Pc, apply: nat, app: nat, log: seq<byte>, img: seq<byte>, next: nat, order: seq<nat>, slots: seq<nat>): State {
    State(next, apply, app, log, img, [Thread(a, p, false), Thread(b, q, false)], order, slots)
  }

  lemma NumberedBoth(crc: Crc, img0: seq<byte>, a: seq<Entry>, b: seq<Entry>)
    ensures Reachable(crc, BS, img0, Two(a, b, Numbered(1), Numbered(2), 1, 0, [], img0, 3, [0, 1], []))
  {
    hide Reserve, WriteBody, WriteTrailer, Begin, Apply, Finish, Err;
    var s0 := Two(a, b, Start, Start, 1, 0, [], img0, 1, [], []);
    var s1 := Two(a, b, Numbered(1), Start, 1, 0, [], img0, 2, [0], []);
    var s2 := Two(a, b, Numbered(1), Numbered(2), 1, 0, [], img0, 3, [0, 1], []);
    assert Run(crc, BS, img0, [s0]) && [s0][0] == s0;
    assert Reachable(crc, BS, img0, s0);
    assert s1 == Number(s0, 0);
    ReachNext(crc, BS, img0, s0, s1, 0);
    assert s2 == Number(s1, 1);
    ReachNext(crc, BS, img0, s1, s2, 1);
  }

  /** The first commit takes number 1, the second number 2, but the second reserves its
      slot first. */
  lemma Swapped(crc: Crc, img0: seq<byte>, a: seq<Entry>, b: seq<Entry>, m: nat)
    requires m == |Record(crc, Rec(2, b))|
    ensures Gets(crc, img0, a, b, Reserved(1, m), Reserved(2, 0), 1, img0)
  {
    hide Record, Payload, Reachable;
    var e := m + |Record(crc, Rec(1, a))|;
    NumberedBoth(crc, img0, a, b);
    var s2 := Two(a, b, Numbered(1), Numbered(2), 1, 0, [], img0, 3, [0, 1], []);
    var s3 := Two(a, b, Numbered(1), Reserved(2, 0), 1, m, [], img0, 3, [0, 1], [1]);
    var s4 := Two(a, b, Reserved(1, m), Reserved(2, 0), 1, e, [], img0, 3, [0, 1], [1, 0]);
    assert s3 == Reserve(crc, s2, 1);
    ReachNext(crc, BS, img0, s2, s3, 1);
    assert s4 == Reserve(crc, s3, 0);
    ReachNext(crc, BS, img0, s3, s4, 0);
  }

  /** Some run of two commits with swapped slots arrives at these program positions,
      with this turn counter and this image. */
  ghost predicate Gets(crc: Crc, img0: seq<byte>, a: seq<Entry>, b: seq<Entry>, p: Pc, q: Pc, apply: nat, img: seq<byte>) {
    exists app: nat, log :: Reachable(crc, BS, img0, Two(a, b, p, q, apply, app, log, img, 3, [0, 1], [1, 0]))
  }

  lemma LogFirst(crc: Crc, img0: seq<byte>, a: seq<Entry>, b: seq<Entry>, m: nat, q: Pc)
    requires Gets(crc, img0, a, b, Reserved(1, m), q, 1, img0)
    ensures Gets(crc, img0, a, b, Logged(1, m), q, 1, img0)
  {
    hide Record, Payload, Trailer, Store;
    var app: nat, log :| Reachable(crc, BS, img0, Two(a, b, Reserved(1, m), q, 1, app, log, img0, 3, [0, 1], [1, 0]));
    var s := Two(a, b, Reserved(1, m), q, 1, app, log, img0, 3, [0, 1], [1, 0]);
    var s1 := WriteBody(s, 0);
    assert s1 == Two(a, b, Body(1, m), q, 1, app, s1.log, img0, 3, [0, 1], [1, 0]);
    ReachNext(crc, BS, img0, s, s1, 0);
    var s2 := WriteTrailer(crc, s1, 0);
    assert s2 == Two(a, b, Logged(1, m), q, 1, app, s2.log, img0, 3, [0, 1], [1, 0]);
    ReachNext(crc, BS, img0, s1, s2, 0);
  }

  lemma LogSecond(crc: Crc, img0: seq<byte>, a: seq<Entry>, b: seq<Entry>, p: Pc)
    requires Gets(crc, img0, a, b, p, Reserved(2, 0), 1, img0)
    ensures Gets(crc, img0, a, b, p, Logged(2, 0), 1, img0)
  {
    hide Record, Payload, Trailer, Store;
    var app: nat, log :| Reachable(crc, BS, img0, Two(a, b, p, Reserved(2, 0), 1, app, log, img0, 3, [0, 1], [1, 0]));
    var s := Two(a, b, p, Reserved(2, 0), 1, app, log, img0, 3, [0, 1], [1, 0]);
    var s1 := WriteBody(s, 1);
    assert s1 == Two(a, b, p, Body(2, 0), 1, app, s1.log, img0, 3, [0, 1], [1, 0]);
    ReachNext(crc, BS, img0, s, s1, 1);
    var s2 := WriteTrailer(crc, s1, 1);
    assert s2 == Two(a, b, p, Logged(2, 0), 1, app, s2.log, img0, 3, [0, 1], [1, 0]);
    ReachNext(crc, BS, img0, s1, s2, 1);
  }

  /** The first commit applies its first entry. */
  lemma ApplyFirst(crc: Crc, img0: seq<byte>, a: seq<Entry>, b: seq<Entry>, m: nat, q: Pc)
    requires a != [] && Gets(crc, img0, a, b, Logged(1, m), q, 1, img0)
    ensures Gets(crc, img0, a, b, Applying(1, m, 1), q, 1, Store(img0, a[0].block * BS, a[0].data))
  {
    hide Record, Payload, Trailer, Store;
    var app: nat, log :| Reachable(crc, BS, img0, Two(a, b, Logged(1, m), q, 1, app, log, img0, 3, [0, 1], [1, 0]));
    var s := Two(a, b, Logged(1, m), q, 1, app, log, img0, 3, [0, 1], [1, 0]);
    var s1 := Begin(s, 0);
    assert s1 == Two(a, b, Applying(1, m, 0), q, 1, app, log, img0, 3, [0, 1], [1, 0]);
    ReachNext(crc, BS, img0, s, s1, 0);
    var s2 := Apply(BS, s1, 0);
    assert s2 == Two(a, b, Applying(1, m, 1), q, 1, app, log, Store(img0, a[0].block * BS, a[0].data), 3, [0, 1], [1, 0]);
    ReachNext(crc, BS, img0, s1, s2, 0);
  }

  /** It finishes, and the second applies its only entry and finishes too. */
  lemma FinishBoth(crc: Crc, img0: seq<byte>, a: seq<Entry>, b: seq<Entry>, m: nat, img: seq<byte>)
    requires |a| == 1 && |b| == 1 && Gets(crc, img0, a, b, Applying(1, m, 1), Logged(2, 0), 1, img)
    ensures Gets(crc, img0, a, b, Finished(1, m), Finished(2, 0), 3, Store(img, b[0].block * BS, b[0].data))
  {
    hide Record, Payload, Trailer, Store;
    var app: nat, log :| Reachable(crc, BS, img0, Two(a, b, Applying(1, m, 1), Logged(2, 0), 1, app, log, img, 3, [0, 1], [1, 0]));
    var s := Two(a, b, Applying(1, m, 1), Logged(2, 0), 1, app, log, img, 3, [0, 1], [1, 0]);
    var img' := Store(img, b[0].block * BS, b[0].data);
    var s1 := Two(a, b, Finished(1, m), Logged(2, 0), 2, app, log, img, 3, [0, 1], [1, 0]);
    assert s1 == Finish(s, 0);
    ReachNext(crc, BS, img0, s, s1, 0);
    var s2 := Two(a, b, Finished(1, m), Applying(2, 0, 0), 2, app, log, img, 3, [0, 1], [1, 0]);
    assert s2 == Begin(s1, 1);
    ReachNext(crc, BS, img0, s1, s2, 1);
    var s3 := Two(a, b, Finished(1, m), Applying(2, 0, 1), 2, app, log, img', 3, [0, 1], [1, 0]);
    assert s3 == Apply(BS, s2, 1);
    ReachNext(crc, BS, img0, s2, s3, 1);
    var s4 := Two(a, b, Finished(1, m), Finished(2, 0), 3, app, log, img', 3, [0, 1], [1, 0]);
    assert s4 == Finish(s3, 1);
    ReachNext(crc, BS, img0, s3, s4, 1);
  }

  /** What reopening does when both swapped records are complete. */
  lemma BothReplayed(crc: Crc, blocks: nat, img0: seq<byte>, s: State)
    requires Inv(crc, BS, img0, s) && |s.threads| == 2 && s.slots == [1, 0] && IsLogged(s.threads[0].pc) && IsLogged(s.threads[1].pc)
    requires InRange(blocks, [RecOf(s.threads[1]), RecOf(s.threads[0])])
    ensures OpenFs(crc, BS, blocks, s.log, s.img).img == ApplyAll(BS, s.img, s.threads[1].entries + s.threads[0].entries)
  {
    hide Inv, OpenFs, ApplyAll, InRange, AllEntries, MaxSeq;
    TwoTaken(s);
    BothLead(s);
    ReopenAnyOrder(crc, BS, blocks, img0, s);
    TwoEntries(RecOf(s.threads[1]), RecOf(s.threads[0]));
  }

  lemma RevertRun(crc: Crc, a: seq<Entry>, b: seq<Entry>, m: nat)
    requires a == [Entry(0, [1])] && b == [Entry(0, [2])] && m == |Record(crc, Rec(2, b))|
    ensures Gets(crc, [0], a, b, Finished(1, m), Finished(2, 0), 3, [2])
  {
    hide Record, Payload, Gets;
    Swapped(crc, [0], a, b, m);
    LogFirst(crc, [0], a, b, m, Reserved(2, 0));
    LogSecond(crc, [0], a, b, Logged(1, m));
    ApplyFirst(crc, [0], a, b, m, Logged(2, 0));
    FinishBoth(crc, [0], a, b, m, Store([0], 0, [1]));
    assert Store([0], 0, [1]) == [1] && Store([1], 0, [2]) == [2];
  }

  /** A run in which commits 1 and 2 write the same byte and both finish, so the image
      holds 2; a crash after it brings back 1. */
  lemma SwappedSlotsRevert(crc: Crc)
    ensures exists s :: && Reachable(crc, BS, [0], s) && AllFinished(s) && s.img == [2]
                        && OpenFs(crc, BS, 1, s.log, s.img).img == [1]
  {
    hide Record, Payload, Reachable, OpenFs, ApplyAll, Inv;
    var a, b := [Entry(0, [1])], [Entry(0, [2])];
    var m := |Record(crc, Rec(2, b))|;
    RevertRun(crc, a, b, m);
    var app: nat, log :| Reachable(crc, BS, [0], Two(a, b, Finished(1, m), Finished(2, 0), 3, app, log, [2], 3, [0, 1], [1, 0]));
    var s := Two(a, b, Finished(1, m), Finished(2, 0), 3, app, log, [2], 3, [0, 1], [1, 0]);
    ReachInv(crc, BS, [0], s);
    BothReplayed(crc, 1, [0], s);
    assert b + a == [Entry(0, [2]), Entry(0, [1])];
    ApplyTwo([2], 2, 1);
  }

  lemma TwoTaken(s: State)
    requires |s.threads| == 2 && s.slots == [1, 0] && HasSlot(s.threads[0].pc) && HasSlot(s.threads[1].pc)
    ensures AllTaken(s) && SlotRecs(s) == [RecOf(s.threads[1]), RecOf(s.threads[0])]
  {
    forall i | 0 <= i < |s.slots| ensures SlotTaken(s, i) { assert i == 0 || i == 1; }
  }

  lemma BothLead(s: State)
    requires AllTaken(s) && s.slots == [1, 0] && |s.threads| == 2 && IsLogged(s.threads[0].pc) && IsLogged(s.threads[1].pc)
    ensures LeadRecs(s) == SlotRecs(s)
  {
    assert LeadSlots(s) == 2;
  }

  lemma TwoEntries(p: Rec, q: Rec)
    ensures AllEntries([p, q]) == p.entries + q.entries
  {
    assert [p, q][1..] == [q] && [q][1..] == [];
    assert AllEntries([q]) == q.entries + [] == q.entries;
  }

  lemma NoneReplayed(crc: Crc, blocks: nat, img0: seq<byte>, s: State)
    requires Inv(crc, BS, img0, s) && |s.threads| == 2 && s.slots == [1, 0] && HasSlot(s.threads[0].pc) && HasSlot(s.threads[1].pc)
    requires !IsLogged(s.threads[1].pc) && InRange(blocks, [RecOf(s.threads[1]), RecOf(s.threads[0])])
    ensures OpenFs(crc, BS, blocks, s.log, s.img).img == s.img
  {
    hide Inv, OpenFs, ApplyAll, InRange, AllEntries, MaxSeq;
    TwoTaken(s);
    ReopenAnyOrder(crc, BS, blocks, img0, s);
    assert LeadSlots(s) == 0;
    assert LeadRecs(s) == [];
    NothingReplayed(s.img);
  }

  lemma TearRun(crc: Crc, img0: seq<byte>, a: seq<Entry>, m: nat)
    requires a != [] && m == |Record(crc, Rec(2, []))|
    ensures Gets(crc, img0, a, [], Applying(1, m, 1), Reserved(2, 0), 1, Store(img0, a[0].block * BS, a[0].data))
  {
    hide Record, Payload, Gets, Store;
    Swapped(crc, img0, a, [], m);
    LogFirst(crc, img0, a, [], m, Reserved(2, 0));
    ApplyFirst(crc, img0, a, [], m, Reserved(2, 0));
  }

  /** The first of two writes is on the image, the second is not. */
  predicate Torn(img: seq<byte>) {
    |img| == 2048 && img[0] == 1 && img[1024] == 0
  }

  /** A run in which commit 2 holds the first slot and has not written it, while commit 1
      behind it is logged and half applied. A crash then leaves the transaction torn: it
      is neither replayed nor undone. */
  lemma UnwrittenSlotTears(crc: Crc)
    ensures exists s :: && Reachable(crc, BS, Zeros(2048), s) && |s.threads| == 2 && s.threads[0].pc.Applying?
                        && s.threads[0].entries == [Entry(0, [1]), Entry(1, [1])]
                        && Torn(OpenFs(crc, BS, 2, s.log, s.img).img)
  {
    hide Record, Payload, Reachable, OpenFs, ApplyAll, Inv, Store, Zeros;
    var img0 := Zeros(2048);
    var a := [Entry(0, [1]), Entry(1, [1])];
    var m := |Record(crc, Rec(2, []))|;
    TearRun(crc, img0, a, m);
    var img := Store(img0, 0, [1]);
    var app: nat, log :| Reachable(crc, BS, img0, Two(a, [], Applying(1, m, 1), Reserved(2, 0), 1, app, log, img, 3, [0, 1], [1, 0]));
    var s := Two(a, [], Applying(1, m, 1), Reserved(2, 0), 1, app, log, img, 3, [0, 1], [1, 0]);
    ReachInv(crc, BS, img0, s);
    NoneReplayed(crc, 2, img0, s);
    TornIs();
  }

  lemma TornIs()
    ensures Torn(Store(Zeros(2048), 0, [1]))
  {
    var img := Store(Zeros(2048), 0, [1]);
    assert At(img, 0) == 1 && At(img, 1024) == 0;
  }

  lemma NothingReplayed(img: seq<byte>)
    ensures ApplyAll(BS, img, AllEntries([])) == img
  {
  }
}
