/** Concurrent commits as interleaved steps: numbering, slot reservation, the two log
    writes and the ordered apply (journal.go `Commit`, `reserveAppend`). */
module JournalProtocol {
  import opened Bytes
  import opened JournalLog
  import opened JournalRecovery

  /** Where a commit stands, with its sequence number and log slot once it has them. */
  datatype Pc =
    | Start
    | Numbered(no: nat)
    | Reserved(no: nat, off: nat)
    | Body(no: nat, off: nat)
    | Logged(no: nat, off: nat)
    | Applying(no: nat, off: nat, done: nat)
    | Finished(no: nat, off: nat)

  /** One commit. A log-write error leaves it failed where it stood. */
  datatype Thread = Thread(entries: seq<Entry>, pc: Pc, failed: bool)

  /** Shared state; `order` and `slots` list the commits as they took their numbers
      and their log slots. */
  datatype State = State(
    nextSeq: nat, applySeq: nat, appendOff: nat, log: seq<byte>, img: seq<byte>,
    threads: seq<Thread>, order: seq<nat>, slots: seq<nat>)

  function RecOf(th: Thread): Rec
    requires !th.pc.Start?
  {
    Rec(th.pc.no, th.entries)
  }

  predicate HasSlot(pc: Pc) {
    !pc.Start? && !pc.Numbered?
  }

  // ---------------------------------------------------------------- steps

  function WithPc(s: State, t: nat, pc: Pc): State
    requires t < |s.threads|
  {
    s.(threads := s.threads[t := s.threads[t].(pc := pc)])
  }

  predicate Live(s: State, t: nat) {
    t < |s.threads| && !s.threads[t].failed
  }

  /** Atomic fetch-and-add of nextSeq. */
  predicate CanNumber(s: State, t: nat) { Live(s, t) && s.threads[t].pc.Start? }

  function Number(s: State, t: nat): State
    requires CanNumber(s, t)
  {
    WithPc(s, t, Numbered(s.nextSeq)).(nextSeq := s.nextSeq + 1, order := s.order + [t])
  }

  predicate CanReserve(s: State, t: nat) { Live(s, t) && s.threads[t].pc.Numbered? }

  /** `reserveAppend` under the journal mutex. */
  function Reserve(crc: Crc, s: State, t: nat): State
    requires CanReserve(s, t)
  {
    var off := Max(s.appendOff, |s.log|);
    WithPc(s, t, Reserved(s.threads[t].pc.no, off)).(appendOff := off + |Record(crc, RecOf(s.threads[t]))|, slots := s.slots + [t])
  }

  predicate CanBody(s: State, t: nat) { Live(s, t) && s.threads[t].pc.Reserved? }

  function WriteBody(s: State, t: nat): State
    requires CanBody(s, t)
  {
    var pc := s.threads[t].pc;
    WithPc(s, t, Body(pc.no, pc.off)).(log := Store(s.log, pc.off, Payload(RecOf(s.threads[t]))))
  }

  predicate CanTrailer(s: State, t: nat) { Live(s, t) && s.threads[t].pc.Body? }

  function WriteTrailer(crc: Crc, s: State, t: nat): State
    requires CanTrailer(s, t)
  {
    var pc, r := s.threads[t].pc, RecOf(s.threads[t]);
    WithPc(s, t, Logged(pc.no, pc.off)).(log := Store(s.log, pc.off + |Payload(r)|, Trailer(crc, r)))
  }

  /** The wait loop lets a commit through when applySeq reaches its number. */
  predicate CanBegin(s: State, t: nat) { Live(s, t) && s.threads[t].pc.Logged? && s.applySeq == s.threads[t].pc.no }

  function Begin(s: State, t: nat): State
    requires CanBegin(s, t)
  {
    WithPc(s, t, Applying(s.threads[t].pc.no, s.threads[t].pc.off, 0))
  }

  predicate CanApply(s: State, t: nat) { Live(s, t) && s.threads[t].pc.Applying? && s.threads[t].pc.done < |s.threads[t].entries| }

  function Apply(bs: nat, s: State, t: nat): State
    requires CanApply(s, t)
  {
    var pc := s.threads[t].pc;
    var e := s.threads[t].entries[pc.done];
    WithPc(s, t, Applying(pc.no, pc.off, pc.done + 1)).(img := Store(s.img, e.block * bs, e.data))
  }

  predicate CanFinish(s: State, t: nat) { Live(s, t) && s.threads[t].pc.Applying? && s.threads[t].pc.done == |s.threads[t].entries| }

  function Finish(s: State, t: nat): State
    requires CanFinish(s, t)
  {
    var pc := s.threads[t].pc;
    WithPc(s, t, Finished(pc.no, pc.off)).(applySeq := if s.applySeq == pc.no then pc.no + 1 else s.applySeq)
  }

  /** An error before the wait: the commit returns and keeps its number. */
  predicate CanFail(s: State, t: nat) { Live(s, t) && (s.threads[t].pc.Numbered? || s.threads[t].pc.Reserved? || s.threads[t].pc.Body?) }

  function Err(s: State, t: nat): State
    requires CanFail(s, t)
  {
    s.(threads := s.threads[t := s.threads[t].(failed := true)])
  }

  /** Commit t moves on without error. */
  ghost predicate Moves(crc: Crc, bs: nat, s: State, s': State, t: nat) {
    || (CanNumber(s, t) && s' == Number(s, t))
    || (CanReserve(s, t) && s' == Reserve(crc, s, t))
    || (CanBody(s, t) && s' == WriteBody(s, t))
    || (CanTrailer(s, t) && s' == WriteTrailer(crc, s, t))
    || (CanBegin(s, t) && s' == Begin(s, t))
    || (CanApply(s, t) && s' == Apply(bs, s, t))
    || (CanFinish(s, t) && s' == Finish(s, t))
  }

  ghost predicate Next(crc: Crc, bs: nat, s: State, s': State, t: nat) {
    Moves(crc, bs, s, s', t) || (CanFail(s, t) && s' == Err(s, t))
  }

  ghost predicate Init(img0: seq<byte>, s: State) {
    && s.nextSeq == 1 && s.applySeq == 1 && s.appendOff == 0 && s.log == [] && s.img == img0
    && s.order == [] && s.slots == []
    && forall t :: 0 <= t < |s.threads| ==> s.threads[t].pc == Start && !s.threads[t].failed
  }

  // ---------------------------------------------------------------- numbers and turns

  /** Numbers are handed out once each, in `order`; exactly those below applySeq have finished. */
  ghost predicate Turns(s: State) {
    && |s.order| + 1 == s.nextSeq && 1 <= s.applySeq <= s.nextSeq
    && (forall k :: 0 <= k < |s.order| ==> OrderAt(s, k))
    && (forall t :: 0 <= t < |s.threads| ==> TurnOf(s, t))
  }

  ghost predicate OrderAt(s: State, k: nat)
    requires k < |s.order|
  {
    s.order[k] < |s.threads| && !s.threads[s.order[k]].pc.Start? && s.threads[s.order[k]].pc.no == k + 1
  }

  ghost predicate TurnOf(s: State, t: nat)
    requires t < |s.threads|
  {
    var th := s.threads[t];
    && (th.pc.Start? ==> !th.failed)
    && (!th.pc.Start? ==> && 1 <= th.pc.no <= |s.order| && s.order[th.pc.no - 1] == t
                          && (th.pc.Finished? <==> th.pc.no < s.applySeq)
                          && (th.pc.Applying? ==> th.pc.no == s.applySeq && th.pc.done <= |th.entries|))
    && (th.failed ==> th.pc.Numbered? || th.pc.Reserved? || th.pc.Body?)
  }

  lemma TurnsNext(crc: Crc, bs: nat, s: State, s': State, t: nat)
    requires Turns(s) && Next(crc, bs, s, s', t)
    ensures Turns(s')
  {
    hide Store, Record, Payload, Trailer, Turns, TurnOf;
    if CanNumber(s, t) {
      TurnsNumber(s, t);
    } else if CanFinish(s, t) {
      TurnsFinish(s, t);
    } else {
      TurnsAt(s, t);
      Advances(crc, bs, s, s', t);
      TurnsAdvance(s, s', t);
    }
  }

  lemma Advances(crc: Crc, bs: nat, s: State, s': State, t: nat)
    requires Next(crc, bs, s, s', t) && !CanNumber(s, t) && !CanFinish(s, t) && TurnOf(s, t)
    ensures |s'.threads| == |s.threads| && s'.order == s.order && s'.nextSeq == s.nextSeq && s'.applySeq == s.applySeq
    ensures forall u :: 0 <= u < |s.threads| && u != t ==> s'.threads[u] == s.threads[u]
    ensures !s.threads[t].pc.Start? && !s'.threads[t].pc.Start? && s'.threads[t].pc.no == s.threads[t].pc.no && TurnOf(s', t)
  {
    hide Store, Record, Payload, Trailer;
  }

  lemma TurnsAt(s: State, t: nat)
    requires Turns(s) && t < |s.threads|
    ensures TurnOf(s, t)
  {
  }

  lemma TurnsNumber(s: State, t: nat)
    requires Turns(s) && CanNumber(s, t)
    ensures Turns(Number(s, t))
  {
    var s' := Number(s, t);
    assert TurnOf(s, t);
    forall k | 0 <= k < |s'.order| ensures OrderAt(s', k) {
      if k < |s.order| { assert OrderAt(s, k); }
    }
    forall u | 0 <= u < |s'.threads| ensures TurnOf(s', u) {
      assert TurnOf(s, u);
    }
  }

  lemma TurnsFinish(s: State, t: nat)
    requires Turns(s) && CanFinish(s, t)
    ensures Turns(Finish(s, t))
  {
    var s' := Finish(s, t);
    assert TurnOf(s, t);
    forall k | 0 <= k < |s'.order| ensures OrderAt(s', k) { assert OrderAt(s, k); }
    forall u | 0 <= u < |s'.threads| ensures TurnOf(s', u) {
      assert TurnOf(s, u);
    }
  }

  /** A step that keeps the number and does not finish. */
  lemma TurnsAdvance(s: State, s': State, t: nat)
    requires Turns(s) && t < |s.threads| && |s'.threads| == |s.threads|
    requires s'.order == s.order && s'.nextSeq == s.nextSeq && s'.applySeq == s.applySeq
    requires forall u :: 0 <= u < |s.threads| && u != t ==> s'.threads[u] == s.threads[u]
    requires !s.threads[t].pc.Start? && !s'.threads[t].pc.Start? && s'.threads[t].pc.no == s.threads[t].pc.no && TurnOf(s', t)
    ensures Turns(s')
  {
    forall k | 0 <= k < |s'.order| ensures OrderAt(s', k) { assert OrderAt(s, k); }
    forall u | 0 <= u < |s'.threads| ensures TurnOf(s', u) {
      assert TurnOf(s, u);
    }
  }

  /** Numbers are distinct and at most one commit is applying. */
  lemma TurnsMean(s: State, t: nat, u: nat)
    requires Turns(s) && t < |s.threads| && u < |s.threads| && t != u
    ensures !s.threads[t].pc.Start? && !s.threads[u].pc.Start? ==> s.threads[t].pc.no != s.threads[u].pc.no
    ensures !(s.threads[t].pc.Applying? && s.threads[u].pc.Applying?)
  {
    assert TurnOf(s, t) && TurnOf(s, u);
  }

  // ---------------------------------------------------------------- log slots

  ghost predicate AllTaken(s: State) {
    forall i {:trigger SlotTaken(s, i)} {:trigger s.slots[i]} :: 0 <= i < |s.slots| ==> SlotTaken(s, i)
  }

  /** The records in the order their slots were reserved. */
  ghost function SlotRecs(s: State): (r: seq<Rec>)
    requires AllTaken(s)
    ensures |r| == |s.slots| && forall i :: 0 <= i < |r| ==> r[i] == RecOf(s.threads[s.slots[i]])
  {
    seq(|s.slots|, i requires 0 <= i < |s.slots| => assert SlotTaken(s, i); RecOf(s.threads[s.slots[i]]))
  }

  ghost predicate SlotTaken(s: State, i: nat)
    requires i < |s.slots|
  {
    s.slots[i] < |s.threads| && HasSlot(s.threads[s.slots[i]].pc)
  }

  /** Start of slot i: the records before it, back to back. */
  ghost function SlotOff(crc: Crc, s: State, i: nat): nat
    requires i <= |s.slots| && AllTaken(s)
  {
    |Log(crc, SlotRecs(s)[..i])|
  }

  /** Slots tile the log from its start, one per commit that has reserved. */
  ghost predicate Tiled(crc: Crc, s: State) {
    && AllTaken(s)
    && (forall i :: 0 <= i < |s.slots| ==> s.threads[s.slots[i]].pc.off == SlotOff(crc, s, i))
    && (forall i, j :: 0 <= i < j < |s.slots| ==> s.slots[i] != s.slots[j])
    && (forall t :: 0 <= t < |s.threads| && HasSlot(s.threads[t].pc) ==> t in s.slots)
    && s.appendOff == SlotOff(crc, s, |s.slots|) && |s.log| <= s.appendOff
  }

  lemma {:induction false} LogGrows(crc: Crc, recs: seq<Rec>, i: nat, j: nat)
    requires i < j <= |recs|
    ensures |Log(crc, recs[..i])| + |Record(crc, recs[i])| <= |Log(crc, recs[..j])|
    ensures j == i + 1 ==> Log(crc, recs[..j]) == Log(crc, recs[..i]) + Record(crc, recs[i])
    decreases j
  {
    hide Log, Record;
    assert recs[..j] == recs[..j - 1] + [recs[j - 1]];
    LogAppend(crc, recs[..j - 1], recs[j - 1]);
    if i < j - 1 {
      LogGrows(crc, recs, i, j - 1);
    }
  }

  /** Two slots never overlap. */
  lemma SlotsDisjoint(crc: Crc, s: State, t: nat, u: nat)
    requires Tiled(crc, s) && t < |s.threads| && u < |s.threads| && t != u
    requires HasSlot(s.threads[t].pc) && HasSlot(s.threads[u].pc)
    ensures var a, b := s.threads[t], s.threads[u];
            || a.pc.off + |Record(crc, RecOf(a))| <= b.pc.off
            || b.pc.off + |Record(crc, RecOf(b))| <= a.pc.off
  {
    hide Record, Log;
    var i :| 0 <= i < |s.slots| && s.slots[i] == t;
    var j :| 0 <= j < |s.slots| && s.slots[j] == u;
    LogGrows(crc, SlotRecs(s), Min(i, j), Max(i, j));
  }

  /** A slot ends at or before the append cursor. */
  lemma SlotInside(crc: Crc, s: State, t: nat)
    requires Tiled(crc, s) && t < |s.threads| && HasSlot(s.threads[t].pc)
    ensures s.threads[t].pc.off + |Record(crc, RecOf(s.threads[t]))| <= s.appendOff
  {
    hide Record, Log;
    var i :| 0 <= i < |s.slots| && s.slots[i] == t;
    LogGrows(crc, SlotRecs(s), i, |s.slots|);
  }

  lemma NotInSlots(crc: Crc, s: State, t: nat)
    requires Tiled(crc, s) && t < |s.threads| && !HasSlot(s.threads[t].pc)
    ensures t !in s.slots
  {
  }

  /** The new slot follows all others. */
  lemma ReserveRecs(crc: Crc, s: State, t: nat)
    requires Tiled(crc, s) && CanReserve(s, t)
    ensures var s' := Reserve(crc, s, t);
            && AllTaken(s')
            && SlotRecs(s') == SlotRecs(s) + [RecOf(s.threads[t])]
  {
    hide Record, Log;
    NotInSlots(crc, s, t);
    var s' := Reserve(crc, s, t);
    forall i | 0 <= i < |s'.slots| ensures SlotTaken(s', i) && (i < |s.slots| ==> s'.threads[s'.slots[i]] == s.threads[s.slots[i]]) {
      if i < |s.slots| { assert s.slots[i] in s.slots; }
    }
  }

  lemma ReserveOffs(crc: Crc, s: State, t: nat)
    requires Tiled(crc, s) && CanReserve(s, t)
    ensures var s' := Reserve(crc, s, t);
            && AllTaken(s') && s'.appendOff == SlotOff(crc, s', |s'.slots|)
            && forall i :: 0 <= i < |s'.slots| ==> s'.threads[s'.slots[i]].pc.off == SlotOff(crc, s', i)
  {
    hide Record, Log;
    var s' := Reserve(crc, s, t);
    var r, old' := RecOf(s.threads[t]), SlotRecs(s);
    NotInSlots(crc, s, t);
    ReserveRecs(crc, s, t);
    LogAppend(crc, old', r);
    assert SlotRecs(s')[..|s'.slots|] == old' + [r] && old'[..|s.slots|] == old';
    forall i | 0 <= i < |s'.slots| ensures s'.threads[s'.slots[i]].pc.off == SlotOff(crc, s', i) {
      assert SlotRecs(s')[..i] == old'[..i];
      if i < |s.slots| { assert s.slots[i] in s.slots; }
    }
  }

  lemma TiledReserve(crc: Crc, s: State, t: nat)
    requires Tiled(crc, s) && CanReserve(s, t)
    ensures Tiled(crc, Reserve(crc, s, t))
  {
    hide Record, Log, SlotRecs, SlotOff, AllTaken;
    var s' := Reserve(crc, s, t);
    TiledTaken(crc, s);
    NotInSlots(crc, s, t);
    ReserveRecs(crc, s, t);
    ReserveOffs(crc, s, t);
    forall u | 0 <= u < |s'.threads| && HasSlot(s'.threads[u].pc) ensures u in s'.slots {
      if u == t { assert s'.slots[|s.slots|] == t; } else { assert u in s.slots; }
    }
  }

  /** A step that moves nobody's slot. */
  lemma TiledKeeps(crc: Crc, s: State, s': State, t: nat)
    requires Tiled(crc, s) && t < |s.threads| && |s'.threads| == |s.threads|
    requires s'.slots == s.slots && s'.appendOff == s.appendOff && |s'.log| <= s.appendOff
    requires forall u :: 0 <= u < |s.threads| && u != t ==> s'.threads[u] == s.threads[u]
    requires HasSlot(s'.threads[t].pc) <==> HasSlot(s.threads[t].pc)
    requires HasSlot(s.threads[t].pc) ==> s'.threads[t].pc.off == s.threads[t].pc.off && RecOf(s'.threads[t]) == RecOf(s.threads[t])
    ensures Tiled(crc, s')
  {
    hide Record, Log;
    forall i | 0 <= i < |s'.slots| ensures SlotTaken(s', i) && RecOf(s'.threads[s'.slots[i]]) == RecOf(s.threads[s.slots[i]]) {
      assert SlotTaken(s, i);
    }
    assert SlotRecs(s') == SlotRecs(s);
    forall i | 0 <= i < |s'.slots| ensures s'.threads[s'.slots[i]].pc.off == SlotOff(crc, s', i) {
      assert SlotTaken(s, i);
    }
  }

  // ---------------------------------------------------------------- log contents

  /** Bytes of its record a commit has written. */
  function Written(crc: Crc, th: Thread): (w: nat)
    requires !th.pc.Start?
    ensures w <= |Record(crc, RecOf(th))|
  {
    if th.pc.Numbered? || th.pc.Reserved? then 0
    else if th.pc.Body? then |Payload(RecOf(th))|
    else |Record(crc, RecOf(th))|
  }

  /** A slot holds the written part of its record and zeros (or nothing) behind it. */
  ghost predicate SlotBytes(crc: Crc, log: seq<byte>, th: Thread)
    requires HasSlot(th.pc)
  {
    var r, w := Record(crc, RecOf(th)), Written(crc, th);
    && (w > 0 ==> th.pc.off + w <= |log|)
    && forall y: nat :: y < |r| ==> SlotByte(log, th.pc.off, y) == if y < w then r[y] else 0
  }

  ghost function SlotByte(log: seq<byte>, off: nat, y: nat): byte {
    At(log, off + y)
  }

  /** Every slot is as written, and the log ends where some commit's writing ends. */
  ghost predicate Stored(crc: Crc, s: State) {
    && (forall t {:trigger s.threads[t]} :: 0 <= t < |s.threads| && HasSlot(s.threads[t].pc) ==> SlotBytes(crc, s.log, s.threads[t]))
    && (s.log == [] || exists t :: EndsAt(crc, s, t))
  }

  ghost predicate EndsAt(crc: Crc, s: State, t: nat) {
    && t < |s.threads| && HasSlot(s.threads[t].pc) && Written(crc, s.threads[t]) > 0
    && |s.log| == s.threads[t].pc.off + Written(crc, s.threads[t])
  }

  /** Extending the written part of one slot. */
  lemma WriteOwn(crc: Crc, log: seq<byte>, th: Thread, th': Thread)
    requires HasSlot(th.pc) && HasSlot(th'.pc) && th'.pc.off == th.pc.off && RecOf(th') == RecOf(th)
    requires Written(crc, th) < Written(crc, th') && SlotBytes(crc, log, th)
    ensures SlotBytes(crc, Store(log, th.pc.off + Written(crc, th), Record(crc, RecOf(th))[Written(crc, th)..Written(crc, th')]), th')
  {
    hide Record, Payload, Store, Written;
    var r, w, w' := Record(crc, RecOf(th)), Written(crc, th), Written(crc, th');
    var log' := Store(log, th.pc.off + w, r[w..w']);
    forall y: nat | y < |r| ensures SlotByte(log', th.pc.off, y) == if y < w' then r[y] else 0 {
      assert SlotByte(log, th.pc.off, y) == if y < w then r[y] else 0;
    }
  }

  /** A write into one slot leaves a disjoint slot alone. */
  lemma WriteOther(crc: Crc, log: seq<byte>, off: nat, s: seq<byte>, lo: nat, hi: nat, th: Thread)
    requires HasSlot(th.pc) && SlotBytes(crc, log, th) && lo <= off && off + |s| <= hi
    requires hi <= th.pc.off || th.pc.off + |Record(crc, RecOf(th))| <= lo
    ensures SlotBytes(crc, Store(log, off, s), th)
  {
    hide Record, Payload, Store, Written;
    var r, w := Record(crc, RecOf(th)), Written(crc, th);
    forall y: nat | y < |r| ensures SlotByte(Store(log, off, s), th.pc.off, y) == if y < w then r[y] else 0 {
      assert SlotByte(log, th.pc.off, y) == if y < w then r[y] else 0;
    }
  }

  /** The two log writes. */
  lemma StoredWrite(crc: Crc, s: State, s': State, t: nat)
    requires Tiled(crc, s) && Stored(crc, s) && t < |s.threads| && HasSlot(s.threads[t].pc)
    requires |s'.threads| == |s.threads| && s'.threads == s.threads[t := s'.threads[t]]
    requires HasSlot(s'.threads[t].pc) && s'.threads[t].pc.off == s.threads[t].pc.off && RecOf(s'.threads[t]) == RecOf(s.threads[t])
    requires Written(crc, s.threads[t]) < Written(crc, s'.threads[t])
    requires var w, w' := Written(crc, s.threads[t]), Written(crc, s'.threads[t]);
             s'.log == Store(s.log, s.threads[t].pc.off + w, Record(crc, RecOf(s.threads[t]))[w..w'])
    ensures Stored(crc, s') && |s'.log| <= s.appendOff
  {
    hide Record, Payload, Store, Written, SlotBytes, Tiled;
    var th, th' := s.threads[t], s'.threads[t];
    WriteOwn(crc, s.log, th, th');
    SlotInside(crc, s, t);
    LogInside(crc, s);
    forall u | 0 <= u < |s'.threads| && HasSlot(s'.threads[u].pc) ensures SlotBytes(crc, s'.log, s'.threads[u]) {
      if u != t {
        SlotsDisjoint(crc, s, t, u);
        WriteOther(crc, s.log, th.pc.off + Written(crc, th), Record(crc, RecOf(th))[Written(crc, th)..Written(crc, th')],
                   th.pc.off, th.pc.off + |Record(crc, RecOf(th))|, s.threads[u]);
      }
    }
    if |s'.log| == th'.pc.off + Written(crc, th') {
      assert EndsAt(crc, s', t);
    } else {
      var u :| EndsAt(crc, s, u);
      assert u != t ==> EndsAt(crc, s', u);
    }
  }

  lemma LogInside(crc: Crc, s: State)
    requires Tiled(crc, s)
    ensures |s.log| <= s.appendOff
  {
  }

  /** A step that writes nothing to the log. */
  lemma StoredKeeps(crc: Crc, s: State, s': State, t: nat)
    requires Stored(crc, s) && t < |s.threads| && |s'.threads| == |s.threads| && s'.log == s.log
    requires forall u :: 0 <= u < |s.threads| && u != t ==> s'.threads[u] == s.threads[u]
    requires HasSlot(s'.threads[t].pc) <==> HasSlot(s.threads[t].pc)
    requires HasSlot(s.threads[t].pc) ==>
               && s'.threads[t].pc.off == s.threads[t].pc.off && RecOf(s'.threads[t]) == RecOf(s.threads[t])
               && Written(crc, s'.threads[t]) == Written(crc, s.threads[t])
    ensures Stored(crc, s')
  {
    hide Record, Payload, Written;
    if s.log != [] {
      var u :| EndsAt(crc, s, u);
      assert EndsAt(crc, s', u);
    }
  }

  lemma StoredReserve(crc: Crc, s: State, t: nat)
    requires Stored(crc, s) && CanReserve(s, t)
    ensures Stored(crc, Reserve(crc, s, t))
  {
    hide Record, Payload;
    var s' := Reserve(crc, s, t);
    if s.log != [] {
      var u :| EndsAt(crc, s, u);
      assert EndsAt(crc, s', u);
    }
  }

  // ---------------------------------------------------------------- the image

  /** The records in number order. */
  ghost function OrderRecs(s: State): (r: seq<Rec>)
    requires forall k :: 0 <= k < |s.order| ==> OrderAt(s, k)
    ensures |r| == |s.order| && forall k :: 0 <= k < |r| ==> OrderAt(s, k) && r[k] == RecOf(s.threads[s.order[k]])
  {
    seq(|s.order|, k requires 0 <= k < |s.order| => assert OrderAt(s, k); RecOf(s.threads[s.order[k]]))
  }

  /** What the commit whose turn it is has applied so far. */
  ghost function Current(s: State): seq<Entry>
    requires Turns(s)
  {
    if s.applySeq <= |s.order| then
      assert OrderAt(s, s.applySeq - 1);
      var th := s.threads[s.order[s.applySeq - 1]];
      if th.pc.Applying? then assert TurnOf(s, s.order[s.applySeq - 1]); th.entries[..th.pc.done] else []
    else []
  }

  /** The image is the fold of the finished commits in number order, plus a prefix of the current one. */
  ghost predicate Imaged(bs: nat, img0: seq<byte>, s: State) {
    Turns(s) && s.img == ApplyAll(bs, img0, AllEntries(OrderRecs(s)[..s.applySeq - 1]) + Current(s))
  }

  lemma ImagedNumber(bs: nat, img0: seq<byte>, s: State, t: nat)
    requires Imaged(bs, img0, s) && CanNumber(s, t)
    ensures Imaged(bs, img0, Number(s, t))
  {
    hide ApplyAll, AllEntries;
    TurnsNumber(s, t);
    var s' := Number(s, t);
    assert OrderRecs(s')[..s'.applySeq - 1] == OrderRecs(s)[..s.applySeq - 1] by {
      forall k | 0 <= k < |s.order| ensures OrderRecs(s')[k] == OrderRecs(s)[k] { assert OrderAt(s, k) && OrderAt(s', k); }
    }
    assert Current(s') == Current(s) by {
      if s.applySeq <= |s.order| { assert OrderAt(s, s.applySeq - 1); }
    }
  }

  lemma SameOrderRecs(s: State, s': State, t: nat)
    requires Turns(s) && Turns(s') && s'.order == s.order && t < |s.threads| && |s'.threads| == |s.threads|
    requires forall u :: 0 <= u < |s.threads| && u != t ==> s'.threads[u] == s.threads[u]
    requires s'.threads[t].entries == s.threads[t].entries
    ensures OrderRecs(s') == OrderRecs(s)
  {
    forall k | 0 <= k < |s.order| ensures OrderRecs(s')[k] == OrderRecs(s)[k] {
      assert OrderAt(s, k) && OrderAt(s', k);
    }
  }

  /** A step that neither applies nor finishes. */
  lemma ImagedKeeps(bs: nat, img0: seq<byte>, s: State, s': State, t: nat)
    requires Imaged(bs, img0, s) && Turns(s') && s'.order == s.order && s'.applySeq == s.applySeq && s'.img == s.img
    requires t < |s.threads| && |s'.threads| == |s.threads| && s'.threads[t].entries == s.threads[t].entries
    requires forall u :: 0 <= u < |s.threads| && u != t ==> s'.threads[u] == s.threads[u]
    requires s.threads[t].pc.Applying? ==> s'.threads[t].pc == s.threads[t].pc
    requires s'.threads[t].pc.Applying? && !s.threads[t].pc.Applying? ==> s'.threads[t].pc.done == 0
    ensures Imaged(bs, img0, s')
  {
    hide ApplyAll, AllEntries;
    SameOrderRecs(s, s', t);
    assert Current(s') == Current(s) by {
      if s.applySeq <= |s.order| { assert OrderAt(s, s.applySeq - 1); }
    }
  }

  lemma TurnIsCurrent(s: State, t: nat)
    requires Turns(s) && t < |s.threads| && s.threads[t].pc.Applying?
    ensures s.applySeq <= |s.order| && s.order[s.applySeq - 1] == t && s.threads[t].pc.done <= |s.threads[t].entries|
    ensures Current(s) == s.threads[t].entries[..s.threads[t].pc.done]
  {
    assert TurnOf(s, t);
  }

  lemma ImagedApply(bs: nat, img0: seq<byte>, s: State, t: nat)
    requires Imaged(bs, img0, s) && CanApply(s, t) && Turns(Apply(bs, s, t))
    ensures Imaged(bs, img0, Apply(bs, s, t))
  {
    hide ApplyAll, AllEntries, Store;
    var s' := Apply(bs, s, t);
    var th := s.threads[t];
    SameOrderRecs(s, s', t);
    TurnIsCurrent(s, t);
    TurnIsCurrent(s', t);
    var pre, cur, e := AllEntries(OrderRecs(s)[..s.applySeq - 1]), Current(s), th.entries[th.pc.done];
    assert Current(s') == cur + [e];
    assert pre + (cur + [e]) == (pre + cur) + [e];
    ApplyAppend(bs, img0, pre + cur, [e]);
    ApplyOne(bs, s.img, e);
  }

  lemma ApplyOne(bs: nat, img: seq<byte>, e: Entry)
    ensures ApplyAll(bs, img, [e]) == Store(img, e.block * bs, e.data)
  {
    assert [e][..0] == [];
  }

  /** The finishing commit has applied all its entries, and the next one none. */
  lemma FinishedAll(s: State, t: nat)
    requires Turns(s) && CanFinish(s, t) && Turns(Finish(s, t))
    ensures Finish(s, t).applySeq == s.applySeq + 1 && 1 <= s.applySeq <= |s.order|
    ensures Current(s) == OrderRecs(s)[s.applySeq - 1].entries && Current(Finish(s, t)) == []
  {
    var s' := Finish(s, t);
    assert TurnOf(s, t) && OrderAt(s, s.applySeq - 1);
    assert s.threads[t].entries[..|s.threads[t].entries|] == s.threads[t].entries;
    if s'.applySeq <= |s'.order| {
      var u := s'.order[s'.applySeq - 1];
      assert OrderAt(s', s'.applySeq - 1) && OrderAt(s, s'.applySeq - 1);
      assert TurnOf(s, u);
    }
  }

  lemma ImagedFinish(bs: nat, img0: seq<byte>, s: State, t: nat)
    requires Imaged(bs, img0, s) && CanFinish(s, t)
    ensures Imaged(bs, img0, Finish(s, t))
  {
    hide ApplyAll, AllEntries, Turns;
    TurnsFinish(s, t);
    var s' := Finish(s, t);
    var k, recs := s.applySeq - 1, OrderRecs(s);
    SameOrderRecs(s, s', t);
    TurnIsCurrent(s, t);
    FinishedAll(s, t);
    assert recs[..k + 1] == recs[..k] + [recs[k]];
    LogAppend(x => 0, recs[..k], recs[k]);
    assert AllEntries(recs[..k + 1]) + [] == AllEntries(recs[..k + 1]);
  }

  // ---------------------------------------------------------------- the invariant, over every run

  ghost predicate Inv(crc: Crc, bs: nat, img0: seq<byte>, s: State) {
    Turns(s) && Tiled(crc, s) && Stored(crc, s) && Imaged(bs, img0, s)
  }

  lemma InvInit(crc: Crc, bs: nat, img0: seq<byte>, s: State)
    requires Init(img0, s)
    ensures Inv(crc, bs, img0, s)
  {
    hide Record, Payload, Written;
    assert AllEntries([]) + [] == [];
    assert OrderRecs(s)[..0] == [];
    assert SlotRecs(s)[..0] == [];
  }

  lemma InvNext(crc: Crc, bs: nat, img0: seq<byte>, s: State, s': State, t: nat)
    requires Inv(crc, bs, img0, s) && Next(crc, bs, s, s', t)
    ensures Inv(crc, bs, img0, s')
  {
    hide Inv, Number, Reserve, WriteBody, WriteTrailer, Begin, Apply, Finish, Err;
    if CanNumber(s, t) && s' == Number(s, t) {
      InvNumber(crc, bs, img0, s, t);
    } else if CanReserve(s, t) && s' == Reserve(crc, s, t) {
      InvReserve(crc, bs, img0, s, t);
    } else if CanBody(s, t) && s' == WriteBody(s, t) {
      InvBody(crc, bs, img0, s, t);
    } else if CanTrailer(s, t) && s' == WriteTrailer(crc, s, t) {
      InvTrailer(crc, bs, img0, s, t);
    } else if CanApply(s, t) && s' == Apply(bs, s, t) {
      InvApply(crc, bs, img0, s, t);
    } else if CanFinish(s, t) && s' == Finish(s, t) {
      InvFinish(crc, bs, img0, s, t);
    } else {
      InvQuiet(crc, bs, img0, s, s', t);
    }
  }

  lemma InvNumber(crc: Crc, bs: nat, img0: seq<byte>, s: State, t: nat)
    requires Inv(crc, bs, img0, s) && CanNumber(s, t)
    ensures Inv(crc, bs, img0, Number(s, t))
  {
    hide Turns, Tiled, Stored, Imaged, Record, Payload;
    TurnsNumber(s, t);
    LogInside(crc, s);
    TiledKeeps(crc, s, Number(s, t), t);
    StoredKeeps(crc, s, Number(s, t), t);
    ImagedNumber(bs, img0, s, t);
  }

  lemma InvReserve(crc: Crc, bs: nat, img0: seq<byte>, s: State, t: nat)
    requires Inv(crc, bs, img0, s) && CanReserve(s, t)
    ensures Inv(crc, bs, img0, Reserve(crc, s, t))
  {
    hide Turns, Tiled, Stored, Imaged, Record, Payload;
    TurnsNext(crc, bs, s, Reserve(crc, s, t), t);
    TiledReserve(crc, s, t);
    StoredReserve(crc, s, t);
    ImagedKeeps(bs, img0, s, Reserve(crc, s, t), t);
  }

  lemma InvBody(crc: Crc, bs: nat, img0: seq<byte>, s: State, t: nat)
    requires Inv(crc, bs, img0, s) && CanBody(s, t)
    ensures Inv(crc, bs, img0, WriteBody(s, t))
  {
    hide Turns, Tiled, Stored, Imaged, Record, Payload, Trailer, Store;
    var s' := WriteBody(s, t);
    TurnsNext(crc, bs, s, s', t);
    BodyPiece(crc, RecOf(s.threads[t]));
    StoredWrite(crc, s, s', t);
    TiledKeeps(crc, s, s', t);
    ImagedKeeps(bs, img0, s, s', t);
  }

  lemma InvTrailer(crc: Crc, bs: nat, img0: seq<byte>, s: State, t: nat)
    requires Inv(crc, bs, img0, s) && CanTrailer(s, t)
    ensures Inv(crc, bs, img0, WriteTrailer(crc, s, t))
  {
    hide Turns, Tiled, Stored, Imaged, Record, Payload, Trailer, Store;
    var s' := WriteTrailer(crc, s, t);
    TurnsNext(crc, bs, s, s', t);
    TrailerPiece(crc, RecOf(s.threads[t]));
    StoredWrite(crc, s, s', t);
    TiledKeeps(crc, s, s', t);
    ImagedKeeps(bs, img0, s, s', t);
  }

  lemma InvApply(crc: Crc, bs: nat, img0: seq<byte>, s: State, t: nat)
    requires Inv(crc, bs, img0, s) && CanApply(s, t)
    ensures Inv(crc, bs, img0, Apply(bs, s, t))
  {
    hide Turns, Tiled, Stored, Imaged, Record, Payload, Store;
    var s' := Apply(bs, s, t);
    TurnsNext(crc, bs, s, s', t);
    LogInside(crc, s);
    TiledKeeps(crc, s, s', t);
    StoredKeeps(crc, s, s', t);
    ImagedApply(bs, img0, s, t);
  }

  lemma InvFinish(crc: Crc, bs: nat, img0: seq<byte>, s: State, t: nat)
    requires Inv(crc, bs, img0, s) && CanFinish(s, t)
    ensures Inv(crc, bs, img0, Finish(s, t))
  {
    hide Turns, Tiled, Stored, Imaged, Record, Payload;
    var s' := Finish(s, t);
    TurnsFinish(s, t);
    LogInside(crc, s);
    TiledKeeps(crc, s, s', t);
    StoredKeeps(crc, s, s', t);
    ImagedFinish(bs, img0, s, t);
  }

  /** Taking the turn and failing touch neither the log nor the image. */
  lemma InvQuiet(crc: Crc, bs: nat, img0: seq<byte>, s: State, s': State, t: nat)
    requires Inv(crc, bs, img0, s) && ((CanBegin(s, t) && s' == Begin(s, t)) || (CanFail(s, t) && s' == Err(s, t)))
    ensures Inv(crc, bs, img0, s')
  {
    hide Turns, Tiled, Stored, Imaged, Record, Payload;
    TurnsNext(crc, bs, s, s', t);
    LogInside(crc, s);
    TiledKeeps(crc, s, s', t);
    StoredKeeps(crc, s, s', t);
    ImagedKeeps(bs, img0, s, s', t);
  }

  lemma BodyPiece(crc: Crc, r: Rec)
    ensures Record(crc, r)[0..|Payload(r)|] == Payload(r) && |Payload(r)| > 0
  {
  }

  lemma TrailerPiece(crc: Crc, r: Rec)
    ensures Record(crc, r)[|Payload(r)|..|Record(crc, r)|] == Trailer(crc, r) && |Payload(r)| < |Record(crc, r)|
  {
  }

  /** A run: each state follows from the one before by a step of some commit. */
  ghost predicate Run(crc: Crc, bs: nat, img0: seq<byte>, ss: seq<State>) {
    && ss != [] && Init(img0, ss[0])
    && forall i :: 0 <= i < |ss| - 1 ==> StepAt(crc, bs, ss, i)
  }

  ghost predicate StepAt(crc: Crc, bs: nat, ss: seq<State>, i: nat)
    requires i + 1 < |ss|
  {
    StepFrom(crc, bs, ss[i], ss[i + 1])
  }

  ghost predicate StepFrom(crc: Crc, bs: nat, s: State, s': State) {
    exists t: nat :: Next(crc, bs, s, s', t)
  }

  /** The invariant holds in every state of every run. */
  lemma {:induction false} InvAlways(crc: Crc, bs: nat, img0: seq<byte>, ss: seq<State>, i: nat)
    requires Run(crc, bs, img0, ss) && i < |ss|
    ensures Inv(crc, bs, img0, ss[i])
    decreases i
  {
    hide Inv, Next, Init;
    if i == 0 {
      InvInit(crc, bs, img0, ss[0]);
    } else {
      InvAlways(crc, bs, img0, ss, i - 1);
      assert StepAt(crc, bs, ss, i - 1);
      var t: nat :| Next(crc, bs, ss[i - 1], ss[i], t);
      InvNext(crc, bs, img0, ss[i - 1], ss[i], t);
    }
  }

  // ---------------------------------------------------------------- what the invariant means

  /** No block is touched before its record is in the log. */
  lemma LoggedBeforeApplied(crc: Crc, bs: nat, img0: seq<byte>, s: State, t: nat)
    requires Inv(crc, bs, img0, s) && t < |s.threads| && (s.threads[t].pc.Applying? || s.threads[t].pc.Finished?)
    ensures var off, r := s.threads[t].pc.off, Record(crc, RecOf(s.threads[t]));
            off + |r| <= |s.log| && s.log[off..off + |r|] == r
  {
    hide Record, Payload, Turns, Tiled, Stored, Imaged, SlotIs;
    RecordNonEmpty(crc, RecOf(s.threads[t]));
    WrittenInside(crc, s, t);
    SlotHolds(crc, s, t, |Record(crc, RecOf(s.threads[t]))|);
  }

  // ---------------------------------------------------------------- progress

  ghost predicate CanMove(crc: Crc, bs: nat, s: State) {
    exists t: nat, s': State :: Moves(crc, bs, s, s', t)
  }

  ghost predicate AllFinished(s: State) {
    forall t :: 0 <= t < |s.threads| ==> s.threads[t].pc.Finished?
  }

  /** A commit that failed stays as it was. */
  lemma FailedStays(crc: Crc, bs: nat, s: State, s': State, t: nat, u: nat)
    requires Next(crc, bs, s, s', u) && t < |s.threads| && s.threads[t].failed
    ensures |s'.threads| == |s.threads| && s'.threads[t] == s.threads[t]
  {
    hide Record, Payload, Trailer, Store;
  }

  /** Behind it in number nobody has begun. */
  lemma NobodyBegun(s: State, t: nat, u: nat)
    requires Turns(s) && t < |s.threads| && u < |s.threads| && s.threads[t].failed && !s.threads[u].pc.Start?
    ensures !s.threads[t].pc.Start?
    ensures s.threads[u].pc.no > s.threads[t].pc.no ==> !s.threads[u].pc.Applying? && !s.threads[u].pc.Finished?
  {
    assert TurnOf(s, t) && TurnOf(s, u);
  }

  /** A failed log write stops the queue for good: in every later state of the run the
      commit stands where it failed, and none with a larger number has begun to apply. */
  lemma {:induction false} StuckBehindFailure(crc: Crc, bs: nat, img0: seq<byte>, ss: seq<State>, i: nat, j: nat, t: nat)
    requires Run(crc, bs, img0, ss) && i <= j < |ss| && t < |ss[i].threads| && ss[i].threads[t].failed
    ensures t < |ss[j].threads| && ss[j].threads[t] == ss[i].threads[t] && !ss[j].threads[t].pc.Start?
    ensures forall u :: 0 <= u < |ss[j].threads| && !ss[j].threads[u].pc.Start? && ss[j].threads[u].pc.no > ss[i].threads[t].pc.no ==>
              !ss[j].threads[u].pc.Applying? && !ss[j].threads[u].pc.Finished?
    decreases j
  {
    hide Next, Turns, Tiled, Stored, Imaged, Init;
    InvAlways(crc, bs, img0, ss, j);
    if i < j {
      StuckBehindFailure(crc, bs, img0, ss, i, j - 1, t);
      assert StepAt(crc, bs, ss, j - 1);
      var w: nat :| Next(crc, bs, ss[j - 1], ss[j], w);
      FailedStays(crc, bs, ss[j - 1], ss[j], t, w);
    }
    NobodyBegun(ss[j], t, t) by { FailedStarted(ss[j], t); }
    forall u | 0 <= u < |ss[j].threads| && !ss[j].threads[u].pc.Start? && ss[j].threads[u].pc.no > ss[i].threads[t].pc.no
      ensures !ss[j].threads[u].pc.Applying? && !ss[j].threads[u].pc.Finished?
    {
      NobodyBegun(ss[j], t, u);
    }
  }

  lemma FailedStarted(s: State, t: nat)
    requires Turns(s) && t < |s.threads| && s.threads[t].failed
    ensures !s.threads[t].pc.Start?
  {
    assert TurnOf(s, t);
  }

  /** A commit with nothing to do: finished, failed, or logged and not yet its turn. */
  predicate AtRest(s: State, t: nat)
    requires t < |s.threads|
  {
    var th := s.threads[t];
    th.pc.Finished? || th.failed || (th.pc.Logged? && th.pc.no > s.applySeq)
  }

  /** Nobody can move exactly if every commit is at rest. */
  lemma StandstillExactly(crc: Crc, bs: nat, s: State)
    requires Turns(s)
    ensures !CanMove(crc, bs, s) <==> forall t :: 0 <= t < |s.threads| ==> AtRest(s, t)
  {
    hide Record, Payload, Trailer, Store;
    if t :| 0 <= t < |s.threads| && !AtRest(s, t) {
      assert TurnOf(s, t);
      MoverMoves(crc, bs, s, t);
    } else {
      forall u: nat, s': State ensures !Moves(crc, bs, s, s', u) {
        if u < |s.threads| {
          assert AtRest(s, u) && TurnOf(s, u);
        }
      }
    }
  }

  lemma MoverMoves(crc: Crc, bs: nat, s: State, t: nat)
    requires t < |s.threads| && TurnOf(s, t) && !AtRest(s, t)
    ensures CanMove(crc, bs, s)
  {
    hide Record, Payload, Trailer, Store;
    var pc := s.threads[t].pc;
    if pc.Start? { assert Moves(crc, bs, s, Number(s, t), t); }
    else if pc.Numbered? { assert Moves(crc, bs, s, Reserve(crc, s, t), t); }
    else if pc.Reserved? { assert Moves(crc, bs, s, WriteBody(s, t), t); }
    else if pc.Body? { assert Moves(crc, bs, s, WriteTrailer(crc, s, t), t); }
    else if pc.Logged? { assert Moves(crc, bs, s, Begin(s, t), t); }
    else if pc.done < |s.threads[t].entries| { assert Moves(crc, bs, s, Apply(bs, s, t), t); }
    else { assert Moves(crc, bs, s, Finish(s, t), t); }
  }

  /** A standstill before the end is always a failed log write's doing. */
  lemma StandstillCause(crc: Crc, bs: nat, s: State)
    requires Turns(s) && !CanMove(crc, bs, s) && !AllFinished(s)
    ensures exists t :: 0 <= t < |s.threads| && s.threads[t].failed && !s.threads[t].pc.Start? && s.threads[t].pc.no == s.applySeq
  {
    hide Record, Payload, Trailer, Store;
    StandstillExactly(crc, bs, s);
    var u :| 0 <= u < |s.threads| && !s.threads[u].pc.Finished?;
    assert AtRest(s, u) && TurnOf(s, u);
    assert OrderAt(s, s.applySeq - 1);
    var t := s.order[s.applySeq - 1];
    assert AtRest(s, t) && TurnOf(s, t);
  }

  /** With no log-write error, some commit can step until all have finished. */
  lemma Progress(crc: Crc, bs: nat, s: State)
    requires Turns(s) && forall t :: 0 <= t < |s.threads| ==> !s.threads[t].failed
    ensures AllFinished(s) || CanMove(crc, bs, s)
  {
    hide CanMove, Turns;
    if !AllFinished(s) && !CanMove(crc, bs, s) {
      StandstillCause(crc, bs, s);
    }
  }

  /** Steps a commit still has to make. */
  function Left(th: Thread): nat {
    var n := |th.entries|;
    match th.pc
    case Start => n + 6
    case Numbered(_) => n + 5
    case Reserved(_, _) => n + 4
    case Body(_, _) => n + 3
    case Logged(_, _) => n + 2
    case Applying(_, _, d) => if d <= n then n - d + 1 else 0
    case Finished(_, _) => 0
  }

  function TotalLeft(ths: seq<Thread>): nat {
    if ths == [] then 0 else TotalLeft(ths[..|ths| - 1]) + Left(ths[|ths| - 1])
  }

  lemma {:induction false} TotalUpdate(ths: seq<Thread>, t: nat, th: Thread)
    requires t < |ths|
    ensures TotalLeft(ths[t := th]) == TotalLeft(ths) - Left(ths[t]) + Left(th)
    decreases |ths|
  {
    var n := |ths| - 1;
    if t < n {
      assert ths[t := th][..n] == ths[..n][t := th];
      TotalUpdate(ths[..n], t, th);
    } else {
      assert ths[t := th][..n] == ths[..n];
    }
  }

  lemma OneStepLess(crc: Crc, bs: nat, s: State, s': State, t: nat)
    requires Moves(crc, bs, s, s', t)
    ensures |s'.threads| == |s.threads| && t < |s.threads| && s'.threads == s.threads[t := s'.threads[t]]
    ensures Left(s'.threads[t]) == Left(s.threads[t]) - 1
  {
    hide Record, Payload, Trailer, Store;
    match s.threads[t].pc
    case Start => assert s' == Number(s, t);
    case Numbered(_) => assert s' == Reserve(crc, s, t);
    case Reserved(_, _) => assert s' == WriteBody(s, t);
    case Body(_, _) => assert s' == WriteTrailer(crc, s, t);
    case Logged(_, _) => assert s' == Begin(s, t);
    case Applying(_, _, d) => assert if d < |s.threads[t].entries| then s' == Apply(bs, s, t) else s' == Finish(s, t);
  }

  /** Every step brings the commits closer to the end, whatever the schedule. */
  lemma EveryStepCounts(crc: Crc, bs: nat, s: State, s': State, t: nat)
    requires Moves(crc, bs, s, s', t)
    ensures TotalLeft(s'.threads) == TotalLeft(s.threads) - 1
  {
    hide Record, Payload, Trailer, Store, TotalLeft;
    TotalUpdate(s.threads, t, s'.threads[t]);
    OneStepLess(crc, bs, s, s', t);
  }

  // ---------------------------------------------------------------- crash during concurrent commits

  /** Slots were reserved in number order. */
  predicate InOrder(s: State) {
    |s.slots| <= |s.order| && s.slots == s.order[..|s.slots|]
  }

  predicate IsLogged(pc: Pc) {
    pc.Logged? || pc.Applying? || pc.Finished?
  }

  /** How many leading slots hold a complete record, counting from slot k. */
  function Lead(s: State, k: nat): (l: nat)
    requires k <= |s.slots| && forall i :: 0 <= i < |s.slots| ==> s.slots[i] < |s.threads|
    ensures k <= l <= |s.slots|
    ensures forall i :: k <= i < l ==> IsLogged(s.threads[s.slots[i]].pc)
    ensures l < |s.slots| ==> !IsLogged(s.threads[s.slots[l]].pc)
    decreases |s.slots| - k
  {
    if k < |s.slots| && IsLogged(s.threads[s.slots[k]].pc) then Lead(s, k + 1) else k
  }

  /** A stretch of the log from the start of a slot: the written bytes, then zeros. */
  ghost predicate SlotIs(crc: Crc, th: Thread, s: seq<byte>)
    requires HasSlot(th.pc)
  {
    && |s| <= |Record(crc, RecOf(th))|
    && forall y :: 0 <= y < |s| ==> s[y] == if y < Written(crc, th) then Record(crc, RecOf(th))[y] else 0
  }

  /** The first n bytes of a slot, when they lie inside the log. */
  lemma SlotHolds(crc: Crc, s: State, t: nat, n: nat)
    requires Stored(crc, s) && t < |s.threads| && HasSlot(s.threads[t].pc)
    requires n <= |Record(crc, RecOf(s.threads[t]))| && s.threads[t].pc.off + n <= |s.log|
    ensures var th := s.threads[t];
            && SlotIs(crc, th, s.log[th.pc.off..th.pc.off + n])
            && (n <= Written(crc, th) ==> s.log[th.pc.off..th.pc.off + n] == Record(crc, RecOf(th))[..n])
  {
    hide Record, Payload, Written;
    var th := s.threads[t];
    var r, off := Record(crc, RecOf(th)), th.pc.off;
    assert SlotBytes(crc, s.log, th);
    var piece := s.log[off..off + n];
    forall y | 0 <= y < n ensures piece[y] == if y < Written(crc, th) then r[y] else 0 {
      assert SlotByte(s.log, off, y) == if y < Written(crc, th) then r[y] else 0;
    }
  }

  lemma WrittenInside(crc: Crc, s: State, t: nat)
    requires Stored(crc, s) && t < |s.threads| && HasSlot(s.threads[t].pc) && Written(crc, s.threads[t]) > 0
    ensures s.threads[t].pc.off + Written(crc, s.threads[t]) <= |s.log|
  {
    hide Record, Payload, Written;
    assert SlotBytes(crc, s.log, s.threads[t]);
  }

  /** The log holds every logged record in its slot; the other slots hold any bytes. */
  ghost predicate LoggedIntact(crc: Crc, s: State, log: seq<byte>) {
    forall t {:trigger s.threads[t]} :: 0 <= t < |s.threads| && IsLogged(s.threads[t].pc) ==>
      Keeps(log, s.threads[t].pc.off, Record(crc, RecOf(s.threads[t])))
  }

  ghost predicate Keeps(log: seq<byte>, off: nat, r: seq<byte>) {
    off + |r| <= |log| && log[off..off + |r|] == r
  }

  lemma StoredIntact(crc: Crc, s: State)
    requires Stored(crc, s)
    ensures LoggedIntact(crc, s, s.log)
  {
    hide Record, Payload, Stored;
    forall t | 0 <= t < |s.threads| && IsLogged(s.threads[t].pc) ensures Keeps(s.log, s.threads[t].pc.off, Record(crc, RecOf(s.threads[t]))) {
      var r := Record(crc, RecOf(s.threads[t]));
      RecordNonEmpty(crc, RecOf(s.threads[t]));
      WrittenInside(crc, s, t);
      SlotHolds(crc, s, t, |r|);
      assert r[..|r|] == r;
    }
  }

  /** The complete leading slots are the records of the first commits, back to back. */
  lemma {:induction false} IntactPrefix(crc: Crc, s: State, log: seq<byte>, k: nat)
    requires Tiled(crc, s) && LoggedIntact(crc, s, log) && k <= |s.slots|
    requires forall i :: 0 <= i < k ==> IsLogged(s.threads[s.slots[i]].pc)
    ensures SlotOff(crc, s, k) <= |log| && log[..SlotOff(crc, s, k)] == Log(crc, SlotRecs(s)[..k])
    decreases k
  {
    hide Record, Log, Tiled, LoggedIntact, SlotRecs;
    TiledTaken(crc, s);
    if k == 0 {
      assert SlotRecs(s)[..0] == [];
      EmptyLog(crc);
    } else {
      IntactPrefix(crc, s, log, k - 1);
      LogGrows(crc, SlotRecs(s), k - 1, k);
      IntactAt(crc, s, log, k - 1);
      var r, off := Record(crc, SlotRecs(s)[k - 1]), SlotOff(crc, s, k - 1);
      assert log[..off + |r|] == log[..off] + log[off..off + |r|];
    }
  }

  lemma IntactAt(crc: Crc, s: State, log: seq<byte>, i: nat)
    requires Tiled(crc, s) && LoggedIntact(crc, s, log) && i < |s.slots| && IsLogged(s.threads[s.slots[i]].pc)
    ensures Keeps(log, SlotOff(crc, s, i), Record(crc, SlotRecs(s)[i]))
  {
    hide Record, Log, Keeps;
  }

  lemma LogPrefix(crc: Crc, s: State, k: nat)
    requires Tiled(crc, s) && Stored(crc, s) && k <= |s.slots|
    requires forall i :: 0 <= i < k ==> IsLogged(s.threads[s.slots[i]].pc)
    ensures SlotOff(crc, s, k) <= |s.log| && s.log[..SlotOff(crc, s, k)] == Log(crc, SlotRecs(s)[..k])
  {
    hide Stored, LoggedIntact, Tiled, SlotOff, Log;
    StoredIntact(crc, s);
    IntactPrefix(crc, s, s.log, k);
  }

  lemma EmptyLog(crc: Crc)
    ensures Log(crc, []) == []
  {
  }

  lemma RecordNonEmpty(crc: Crc, r: Rec)
    ensures |Record(crc, r)| >= 32
  {
  }

  /** If the log goes past what slot l has written, it covers the whole slot. */
  lemma LogCovers(crc: Crc, s: State, l: nat)
    requires Tiled(crc, s) && Stored(crc, s) && l < |s.slots| && !IsLogged(s.threads[s.slots[l]].pc)
    requires forall i :: 0 <= i < l ==> IsLogged(s.threads[s.slots[i]].pc)
    requires |s.log| > SlotOff(crc, s, l) + Written(crc, s.threads[s.slots[l]])
    ensures |s.log| >= SlotOff(crc, s, l) + |Record(crc, RecOf(s.threads[s.slots[l]]))|
  {
    hide Record, Payload, Log, SlotBytes;
    var u: nat :| EndsAt(crc, s, u);
    assert u in s.slots;
    var i :| 0 <= i < |s.slots| && s.slots[i] == u;
    if i < l {
      LogGrows(crc, SlotRecs(s), i, l);
    } else if i > l {
      LogGrows(crc, SlotRecs(s), l, i);
    }
  }

  /** Behind the complete leading slots both scanners stop. */
  lemma TailStops(crc: Crc, s: State, l: nat)
    requires Tiled(crc, s) && Stored(crc, s) && l <= |s.slots|
    requires forall i :: 0 <= i < l ==> IsLogged(s.threads[s.slots[i]].pc)
    requires l < |s.slots| ==> !IsLogged(s.threads[s.slots[l]].pc) && Loggable(RecOf(s.threads[s.slots[l]]))
    ensures SlotOff(crc, s, l) <= |s.log|
    ensures ReplayNext(crc, s.log[SlotOff(crc, s, l)..]) == Stop && InitNext(crc, s.log[SlotOff(crc, s, l)..]) == Stop
  {
    hide Record, Payload, Stored, ReplayNext, InitNext, Log, Loggable, SlotIs;
    LogPrefix(crc, s, l);
    var off := SlotOff(crc, s, l);
    var tail := s.log[off..];
    EndOfLog(crc);
    if l == |s.slots| {
      assert tail == [];
    } else {
      var t := s.slots[l];
      var th := s.threads[t];
      var w, n := Written(crc, th), |Record(crc, RecOf(th))|;
      if w > 0 { WrittenInside(crc, s, t); }
      if |s.log| == off + w {
        SlotHolds(crc, s, t, w);
        UnfinishedTail(crc, th, tail);
      } else {
        LogCovers(crc, s, l);
        SlotHolds(crc, s, t, n);
        assert tail[..n] == s.log[off..off + n];
        ZeroedTail(crc, th, tail);
      }
    }
  }

  /** The log ends with what an unfinished commit has written. */
  lemma UnfinishedTail(crc: Crc, th: Thread, tail: seq<byte>)
    requires HasSlot(th.pc) && !IsLogged(th.pc) && Loggable(RecOf(th)) && tail == Record(crc, RecOf(th))[..Written(crc, th)]
    ensures ReplayNext(crc, tail) == Stop && InitNext(crc, tail) == Stop
  {
    hide ReplayNext, InitNext, Loggable;
    EndOfLog(crc);
    if th.pc.Body? {
      BodyPiece(crc, RecOf(th));
      hide Payload, Record;
      assert tail == Payload(RecOf(th)) + [];
      PayloadOnly(crc, RecOf(th), []);
    }
  }

  /** The log goes on past an unfinished slot, whose unwritten part is zero. */
  lemma ZeroedTail(crc: Crc, th: Thread, tail: seq<byte>)
    requires HasSlot(th.pc) && !IsLogged(th.pc) && Loggable(RecOf(th)) && |tail| >= |Record(crc, RecOf(th))|
    requires SlotIs(crc, th, tail[..|Record(crc, RecOf(th))|])
    ensures ReplayNext(crc, tail) == Stop && InitNext(crc, tail) == Stop
  {
    var r, n, p := Record(crc, RecOf(th)), |Record(crc, RecOf(th))|, |Payload(RecOf(th))|;
    assert n == p + 16 && p >= 16;
    hide ReplayNext, InitNext, Loggable, Payload, Record;
    var slot := tail[..n];
    if th.pc.Body? {
      BodyPiece(crc, RecOf(th));
      assert slot[..p] == r[0..p];
      assert tail == Payload(RecOf(th)) + tail[p..] by { assert tail[..p] == slot[..p]; }
      assert tail[p..][0] == slot[p] && tail[p..][1] == slot[p + 1] && tail[p..][2] == slot[p + 2] && tail[p..][3] == slot[p + 3];
      FourZeros(tail[p..]);
      PayloadOnly(crc, RecOf(th), tail[p..]);
    } else {
      assert tail[0] == slot[0] && tail[1] == slot[1] && tail[2] == slot[2] && tail[3] == slot[3];
      FourZeros(tail);
      NoMagic(crc, tail);
    }
  }

  lemma FourZeros(t: seq<byte>)
    requires |t| >= 4 && t[0] == 0 && t[1] == 0 && t[2] == 0 && t[3] == 0
    ensures UnLE(t[..4]) == 0
  {
    assert t[..4] == [0, 0, 0, 0];
    assert [0, 0, 0, 0][1..] == [0, 0, 0] && [0, 0, 0][1..] == [0, 0] && [0, 0][1..] == [0] && [0][1..] == [];
    assert UnLE([0, 0]) == 0 && UnLE([0, 0, 0]) == 0;
  }

  lemma NoMagic(crc: Crc, t: seq<byte>)
    requires |t| >= 4 && UnLE(t[..4]) == 0
    ensures ReplayNext(crc, t) == Stop && InitNext(crc, t) == Stop
  {
  }

  /** What has been applied is a prefix of the first l transactions' writes. */
  lemma AppliedPrefix(s: State, l: nat)
    requires Turns(s) && s.applySeq - 1 <= l <= |s.order| && (Current(s) != [] ==> s.applySeq <= l)
    ensures AllEntries(OrderRecs(s)[..s.applySeq - 1]) + Current(s) <= AllEntries(OrderRecs(s)[..l])
  {
    hide AllEntries;
    var recs, a := OrderRecs(s), s.applySeq - 1;
    EntriesPrefix(recs, a, l);
    if Current(s) != [] {
      var d := |Current(s)|;
      assert OrderAt(s, a) && TurnOf(s, s.order[a]);
      assert d <= |recs[a].entries| && Current(s) == recs[a].entries[..d];
      EntriesPrefix(recs, a + 1, l);
      assert recs[..a + 1] == recs[..a] + [recs[a]];
      LogAppend(x => 0, recs[..a], recs[a]);
      PrefixChain(AllEntries(recs[..a]), recs[a].entries, d, AllEntries(recs[..l]));
    }
  }

  lemma PrefixChain(a: seq<Entry>, b: seq<Entry>, d: nat, c: seq<Entry>)
    requires a + b <= c && d <= |b|
    ensures a + b[..d] <= c
  {
  }

  lemma {:induction false} EntriesPrefix(recs: seq<Rec>, a: nat, l: nat)
    requires a <= l <= |recs|
    ensures AllEntries(recs[..a]) <= AllEntries(recs[..l])
    decreases l
  {
    if a < l {
      assert recs[..l] == recs[..l - 1] + [recs[l - 1]];
      LogAppend(x => 0, recs[..l - 1], recs[l - 1]);
      EntriesPrefix(recs, a, l - 1);
    }
  }

  lemma InOrderRecs(crc: Crc, s: State)
    requires Turns(s) && Tiled(crc, s) && InOrder(s)
    ensures SlotRecs(s) == OrderRecs(s)[..|s.slots|]
  {
    forall i | 0 <= i < |s.slots| ensures SlotRecs(s)[i] == OrderRecs(s)[i] {
      assert s.slots[i] == s.order[i];
    }
  }

  /** Every commit that has finished or begun to apply is among the complete leading slots. */
  lemma AppliedAreLogged(crc: Crc, s: State, t: nat)
    requires Turns(s) && Tiled(crc, s) && InOrder(s) && t < |s.threads| && (s.threads[t].pc.Applying? || s.threads[t].pc.Finished?)
    ensures s.threads[t].pc.no <= Lead(s, 0)
  {
    hide Log, SlotOff;
    var k := s.threads[t].pc.no - 1;
    assert TurnOf(s, t);
    var i :| 0 <= i < |s.slots| && s.slots[i] == t;
    assert OrderAt(s, i) && s.order[i] == t;
    forall j | 0 <= j <= k ensures IsLogged(s.threads[s.slots[j]].pc) {
      assert s.slots[j] == s.order[j] && OrderAt(s, j);
      assert TurnOf(s, s.slots[j]);
    }
  }

  lemma TiledTaken(crc: Crc, s: State)
    requires Tiled(crc, s)
    ensures AllTaken(s) && forall i :: 0 <= i < |s.slots| ==> s.slots[i] < |s.threads|
  {
  }

  lemma AppliedBound(crc: Crc, s: State, l: nat)
    requires Turns(s) && Tiled(crc, s) && InOrder(s) && AllTaken(s) && l == Lead(s, 0)
    ensures s.applySeq - 1 <= l <= |s.order| && (Current(s) != [] ==> s.applySeq <= l)
  {
    if s.applySeq > 1 {
      var k := s.applySeq - 2;
      assert OrderAt(s, k);
      assert TurnOf(s, s.order[k]);
      AppliedAreLogged(crc, s, s.order[k]);
    }
    if Current(s) != [] {
      assert OrderAt(s, s.applySeq - 1);
      AppliedAreLogged(crc, s, s.order[s.applySeq - 1]);
    }
  }
}
