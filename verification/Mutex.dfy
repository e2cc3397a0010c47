/** The owner-token re-entrant mutex (locks.go) as interleaved atomic steps. */
module Mutex {
  import opened Bytes

  /** The next atomic access a thread makes inside LockOwner or UnlockOwner. */
  datatype Pc =
    | Outside
    | LockLoad      // compare owner with the token
    | LockAgain     // recursion + 1
    | LockWait      // acquire the inner mutex
    | LockOwn       // owner := token
    | LockCount     // recursion := 1
    | FreeLoad      // compare owner with the token
    | FreeCount     // recursion - 1
    | FreeOwner     // owner := 0
    | FreeInner     // release the inner mutex
    | Panicked      // unlock from non-owner

  /** A thread and how many of its locks are unmatched. */
  datatype Thread = Thread(pc: Pc, depth: nat)

  /** Shared words and threads; thread t uses token t + 1, and 0 is no token. */
  datatype State = State(inner: Option<nat>, owner: nat, recursion: int, threads: seq<Thread>)

  function Token(t: nat): nat {
    t + 1
  }

  function Goto(s: State, t: nat, pc: Pc): State
    requires t < |s.threads|
  {
    s.(threads := s.threads[t := s.threads[t].(pc := pc)])
  }

  function Count(s: State, t: nat, pc: Pc, depth: nat): State
    requires t < |s.threads|
  {
    s.(threads := s.threads[t := Thread(pc, depth)])
  }

  /** One atomic step of thread t; lock says which call an idle thread makes. */
  function Step(s: State, t: nat, lock: bool): (r: Option<State>)
    requires t < |s.threads|
  {
    var th := s.threads[t];
    match th.pc
    case Outside => Some(Goto(s, t, if lock then LockLoad else FreeLoad))
    case LockLoad => Some(Goto(s, t, if s.owner == Token(t) then LockAgain else LockWait))
    case LockAgain => Some(Count(s, t, Outside, th.depth + 1).(recursion := s.recursion + 1))
    case LockWait => if s.inner.None? then Some(Goto(s, t, LockOwn).(inner := Some(t))) else None
    case LockOwn => Some(Goto(s, t, LockCount).(owner := Token(t)))
    case LockCount => Some(Count(s, t, Outside, 1).(recursion := 1))
    case FreeLoad => Some(Goto(s, t, if s.owner == Token(t) then FreeCount else Panicked))
    case FreeCount =>
      var n := s.recursion - 1;
      Some(Count(s, t, if n == 0 then FreeOwner else Outside, if th.depth > 0 then th.depth - 1 else 0).(recursion := n))
    case FreeOwner => Some(Goto(s, t, FreeInner).(owner := 0))
    case FreeInner => Some(Goto(s, t, Outside).(inner := None))
    case Panicked => None
  }

  ghost predicate Init(s: State) {
    && s.inner == None && s.owner == 0 && s.recursion == 0
    && forall t :: 0 <= t < |s.threads| ==> s.threads[t] == Thread(Outside, 0)
  }

  // ---------------------------------------------------------------- the invariant

  predicate Acquiring(pc: Pc) {
    pc == LockOwn || pc == LockCount
  }

  predicate Releasing(pc: Pc) {
    pc == FreeOwner || pc == FreeInner
  }

  /** A thread that owns the inner mutex: inside, or on its way in or out. */
  predicate Holds(th: Thread) {
    th.depth > 0 || Acquiring(th.pc) || Releasing(th.pc)
  }

  /** The steps a thread can be at for its depth. */
  predicate Sane(th: Thread) {
    && (Acquiring(th.pc) || Releasing(th.pc) || th.pc == LockWait || th.pc == Panicked ==> th.depth == 0)
    && (th.pc == LockAgain || th.pc == FreeCount ==> th.depth > 0)
  }

  /** The shared words as thread t, which holds the inner mutex, has left them. */
  predicate Words(s: State, t: nat)
    requires t < |s.threads|
  {
    var th := s.threads[t];
    && s.owner == (if th.pc == LockOwn || th.pc == FreeInner then 0 else Token(t))
    && s.recursion == th.depth
  }

  ghost predicate Inv(s: State) {
    && (forall t :: 0 <= t < |s.threads| ==> Sane(s.threads[t]) && (Holds(s.threads[t]) <==> s.inner == Some(t)))
    && match s.inner
       case None => s.owner == 0 && s.recursion == 0
       case Some(h) => h < |s.threads| && Words(s, h)
  }

  lemma InvInit(s: State)
    requires Init(s)
    ensures Inv(s)
  {
  }

  lemma InvStep(s: State, t: nat, lock: bool)
    requires Inv(s) && t < |s.threads| && Step(s, t, lock).Some?
    ensures Inv(Step(s, t, lock).value)
  {
    hide Step, Words, Sane, Holds;
    StepOwn(s, t, lock);
    StepWords(s, t, lock);
  }

  /** The stepping thread stays sane, no other moves, and only it enters or leaves. */
  lemma StepOwn(s: State, t: nat, lock: bool)
    requires Inv(s) && t < |s.threads| && Step(s, t, lock).Some?
    ensures var s' := Step(s, t, lock).value;
            && |s'.threads| == |s.threads| && (forall u :: 0 <= u < |s.threads| && u != t ==> s'.threads[u] == s.threads[u])
            && (s'.inner == s.inner || (s.inner == None && s'.inner == Some(t)) || (s.inner == Some(t) && s'.inner == None))
            && Sane(s'.threads[t]) && (Holds(s'.threads[t]) <==> s'.inner == Some(t))
  {
    assert Sane(s.threads[t]) && (Holds(s.threads[t]) <==> s.inner == Some(t));
  }

  lemma StepWords(s: State, t: nat, lock: bool)
    requires Inv(s) && t < |s.threads| && Step(s, t, lock).Some?
    ensures var s' := Step(s, t, lock).value;
            match s'.inner
            case None => s'.owner == 0 && s'.recursion == 0
            case Some(h) => h < |s'.threads| && Words(s', h)
  {
    assert Sane(s.threads[t]) && (Holds(s.threads[t]) <==> s.inner == Some(t));
    if s.inner.Some? { assert Sane(s.threads[s.inner.value]); }
  }

  // ---------------------------------------------------------------- every interleaving

  datatype Move = Move(t: nat, lock: bool)

  /** The state after a schedule of moves; a blocked or missing thread just stays put. */
  function After(s: State, ms: seq<Move>): State
    decreases |ms|
  {
    if ms == [] then s
    else
      var r, m := After(s, ms[..|ms| - 1]), ms[|ms| - 1];
      if m.t < |r.threads| && Step(r, m.t, m.lock).Some? then Step(r, m.t, m.lock).value else r
  }

  lemma {:induction false} InvAlways(s: State, ms: seq<Move>)
    requires Init(s)
    ensures Inv(After(s, ms)) && |After(s, ms).threads| == |s.threads|
    decreases |ms|
  {
    hide Inv, Step, Init;
    if ms == [] {
      InvInit(s);
    } else {
      InvAlways(s, ms[..|ms| - 1]);
      var r, m := After(s, ms[..|ms| - 1]), ms[|ms| - 1];
      if m.t < |r.threads| && Step(r, m.t, m.lock).Some? {
        InvStep(r, m.t, m.lock);
        SameThreads(r, m.t, m.lock);
      }
    }
  }

  lemma SameThreads(s: State, t: nat, lock: bool)
    requires t < |s.threads| && Step(s, t, lock).Some?
    ensures |Step(s, t, lock).value.threads| == |s.threads|
  {
  }

  /** Over every interleaving: at most one token is inside, the recursion word is its
      number of unmatched locks, and the inner mutex is held for as long as that is
      positive. */
  lemma Exclusion(s: State, ms: seq<Move>, t: nat)
    requires Init(s) && t < |s.threads|
    ensures var r := After(s, ms);
            && |r.threads| == |s.threads|
            && (r.threads[t].depth > 0 ==> && r.inner == Some(t) && r.recursion == r.threads[t].depth && r.owner == Token(t)
                                           && forall u :: 0 <= u < |r.threads| && u != t ==> r.threads[u].depth == 0)
            && (r.threads[t].pc == Panicked ==> r.threads[t].depth == 0)
  {
    InvAlways(s, ms);
    var r := After(s, ms);
    hide After, Init;
    assert Sane(r.threads[t]) && (Holds(r.threads[t]) <==> r.inner == Some(t));
    forall u | 0 <= u < |r.threads| && u != t && r.threads[t].depth > 0 ensures r.threads[u].depth == 0 {
      assert Holds(r.threads[u]) <==> r.inner == Some(u);
    }
  }

  /** The inner mutex is released only by a thread whose last lock has been matched,
      and a matching unlock that leaves none unmatched leads straight to the release. */
  lemma ReleasedAtLastUnlock(s: State, t: nat, lock: bool)
    requires Inv(s) && t < |s.threads| && Step(s, t, lock).Some?
    ensures var s' := Step(s, t, lock).value;
            && (s.inner.Some? && s'.inner.None? ==> s.threads[t].pc == FreeInner && s.inner == Some(t) && s.threads[t].depth == 0)
            && (s.threads[t].pc == FreeCount ==> (s'.threads[t].pc == FreeOwner <==> s.threads[t].depth == 1))
            && (s.threads[t].pc == FreeOwner ==> s'.threads[t].pc == FreeInner)
            && (s.threads[t].pc == FreeInner ==> s'.inner == None && s'.owner == 0 && s'.recursion == 0)
  {
    assert Sane(s.threads[t]) && (Holds(s.threads[t]) <==> s.inner == Some(t));
  }

  /** A thread panics exactly when it unlocks without holding the lock. */
  lemma PanicIffNotHeld(s: State, t: nat, lock: bool)
    requires Inv(s) && t < |s.threads| && s.threads[t].pc == FreeLoad
    ensures Step(s, t, lock).value.threads[t].pc == Panicked <==> s.threads[t].depth == 0
    ensures s.threads[t].depth == 0 ==> Step(s, t, lock).value == Goto(s, t, Panicked)
  {
    assert Sane(s.threads[t]) && (Holds(s.threads[t]) <==> s.inner == Some(t));
    if s.inner.Some? { assert Sane(s.threads[s.inner.value]); }
  }

  /** A waiter is let in as soon as nobody holds the inner mutex, and otherwise the
      holder itself can always step. */
  lemma NobodyStuck(s: State, t: nat)
    requires Inv(s) && t < |s.threads| && s.threads[t].pc == LockWait
    ensures match s.inner
            case None => Step(s, t, true).Some?
            case Some(h) => h < |s.threads| && h != t && Step(s, h, false).Some?
  {
    assert Sane(s.threads[t]) && (Holds(s.threads[t]) <==> s.inner == Some(t));
    if s.inner.Some? {
      var h := s.inner.value;
      assert Sane(s.threads[h]) && (Holds(s.threads[h]) <==> s.inner == Some(h));
    }
  }
}
