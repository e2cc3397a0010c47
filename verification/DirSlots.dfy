/** A directory as the list of its record slots: what first-fit insertion and
    deletion by name do to the set of names it holds. */
module DirSlots {
  import opened Bytes

  const TAIL: nat := 0xDE

  /** One directory record: a freed one has inode 0 and keeps its old name. */
  datatype Slot = Slot(ino: nat, recLen: nat, name: seq<byte>, ftype: nat)

  /** What a name maps to. */
  datatype Ent = Ent(ino: nat, ftype: nat)

  datatype DirEntry = DirEntry(ino: nat, name: seq<byte>, ftype: nat)

  /** `minDirentSize`: header and name, rounded up to 4 bytes. */
  function MinSize(n: nat): (r: nat)
    ensures 8 + n <= r < 12 + n
  {
    (8 + n + 3) / 4 * 4
  }

  predicate Live(s: Slot) {
    s.ino != 0
  }

  /** A live record with a name: what lookups and listings see. */
  predicate Shown(s: Slot) {
    Live(s) && s.name != []
  }

  predicate SlotOk(s: Slot) {
    s.recLen >= MinSize(|s.name|) && s.ftype != TAIL
  }

  ghost predicate AllOk(ss: seq<Slot>) {
    forall i :: 0 <= i < |ss| ==> SlotOk(ss[i])
  }

  /** The entry a lookup by name finds. */
  function Find(ss: seq<Slot>, n: seq<byte>): Option<Ent> {
    if ss == [] then None
    else if Shown(ss[0]) && ss[0].name == n then Some(Ent(ss[0].ino, ss[0].ftype))
    else Find(ss[1..], n)
  }

  lemma {:induction false} FindCat(a: seq<Slot>, b: seq<Slot>, n: seq<byte>)
    ensures Find(a + b, n) == if Find(a, n).Some? then Find(a, n) else Find(b, n)
    decreases |a|
  {
    if a == [] {
      assert a + b == b;
    } else {
      assert (a + b)[1..] == a[1..] + b;
      FindCat(a[1..], b, n);
    }
  }

  lemma FindOne(s: Slot, n: seq<byte>)
    ensures Find([s], n) == if Shown(s) && s.name == n then Some(Ent(s.ino, s.ftype)) else None
  {
    assert [s][1..] == [];
  }

  lemma {:induction false} FindNone(ss: seq<Slot>, n: seq<byte>)
    ensures Find(ss, n).None? <==> forall i :: 0 <= i < |ss| ==> !(Shown(ss[i]) && ss[i].name == n)
    decreases |ss|
  {
    if ss != [] {
      FindNone(ss[1..], n);
      assert ss == [ss[0]] + ss[1..];
    }
  }

  // ---------------------------------------------------------------- the history invariant

  ghost predicate NoName(ss: seq<Slot>, n: seq<byte>) {
    forall i :: 0 <= i < |ss| ==> ss[i].name != n
  }

  /** Only the first slot that carries a name can be shown: a live name precedes
      every freed slot still holding it, and no name is live twice. */
  ghost predicate Ordered(ss: seq<Slot>) {
    forall i, j :: 0 <= i < j < |ss| && Shown(ss[j]) ==> ss[i].name != ss[j].name
  }

  /** Nothing live in b has a name that a carries. */
  ghost predicate After(a: seq<Slot>, b: seq<Slot>) {
    forall j :: 0 <= j < |b| && Shown(b[j]) ==> NoName(a, b[j].name)
  }

  lemma OrderedCat(a: seq<Slot>, b: seq<Slot>)
    ensures Ordered(a + b) <==> Ordered(a) && Ordered(b) && After(a, b)
  {
    var c := a + b;
    if Ordered(c) {
      forall i, j | 0 <= i < j < |a| && Shown(a[j]) ensures a[i].name != a[j].name { assert c[i] == a[i] && c[j] == a[j]; }
      forall i, j | 0 <= i < j < |b| && Shown(b[j]) ensures b[i].name != b[j].name { assert c[|a| + i] == b[i] && c[|a| + j] == b[j]; }
      forall j | 0 <= j < |b| && Shown(b[j]) ensures NoName(a, b[j].name) {
        forall i | 0 <= i < |a| ensures a[i].name != b[j].name { assert c[i] == a[i] && c[|a| + j] == b[j]; }
      }
    }
  }

  lemma AfterOne(a: seq<Slot>, s: Slot, b: seq<Slot>)
    ensures After(a, [s] + b) <==> (Shown(s) ==> NoName(a, s.name)) && After(a, b)
  {
    var c := [s] + b;
    if After(a, c) {
      assert c[0] == s;
      forall j | 0 <= j < |b| && Shown(b[j]) ensures NoName(a, b[j].name) { assert c[j + 1] == b[j]; }
    }
  }

  lemma OrderedSplit(a: seq<Slot>, s: Slot, b: seq<Slot>)
    ensures Ordered(a + [s] + b) <==>
              && Ordered(a) && Ordered(b) && After(a, b) && (Shown(s) ==> NoName(a, s.name))
              && forall j :: 0 <= j < |b| && Shown(b[j]) ==> b[j].name != s.name
  {
    assert a + [s] + b == a + ([s] + b);
    OrderedCat(a, [s] + b);
    OrderedCat([s], b);
    AfterOne(a, s, b);
    if Ordered([s] + b) {
      forall j | 0 <= j < |b| && Shown(b[j]) ensures b[j].name != s.name { assert NoName([s], b[j].name); assert [s][0] == s; }
    }
  }

  // ---------------------------------------------------------------- insertion

  /** Room for a record of the given size: a freed slot, or a live one's slack. */
  predicate Fits(s: Slot, needed: nat) {
    if Live(s) then s.recLen >= MinSize(|s.name|) + needed else s.recLen >= needed
  }

  /** The first slot with room, or |ss|. */
  function FirstFit(ss: seq<Slot>, needed: nat): (i: nat)
    ensures i <= |ss| && (i < |ss| ==> Fits(ss[i], needed))
    ensures forall k :: 0 <= k < i ==> !Fits(ss[k], needed)
  {
    if ss == [] then 0
    else if Fits(ss[0], needed) then 0
    else
      var i := FirstFit(ss[1..], needed);
      assert forall k :: 0 < k < i + 1 ==> ss[k] == ss[1..][k - 1];
      i + 1
  }

  /** The slots that replace slot s when a record is put into it. */
  function Filled(s: Slot, ino: nat, name: seq<byte>, ftype: nat): seq<Slot>
    requires Fits(s, MinSize(|name|))
  {
    if Live(s) then [s.(recLen := MinSize(|s.name|)), Slot(ino, s.recLen - MinSize(|s.name|), name, ftype)]
    else [Slot(ino, s.recLen, name, ftype)]
  }

  /** A record put into slot i. */
  function Inserted(ss: seq<Slot>, i: nat, ino: nat, name: seq<byte>, ftype: nat): seq<Slot>
    requires i < |ss| && Fits(ss[i], MinSize(|name|))
  {
    ss[..i] + Filled(ss[i], ino, name, ftype) + ss[i + 1..]
  }

  /** Slots before the first fit do not carry the name, not even as a stale one. */
  lemma NoStaleBefore(ss: seq<Slot>, i: nat, name: seq<byte>)
    requires AllOk(ss) && Find(ss, name).None? && i <= |ss| && name != []
    requires forall k :: 0 <= k < i ==> !Fits(ss[k], MinSize(|name|))
    ensures NoName(ss[..i], name)
  {
    FindNone(ss, name);
    forall k | 0 <= k < i ensures ss[..i][k].name != name {
      assert SlotOk(ss[k]);
    }
  }

  lemma FindSplit(a: seq<Slot>, s: seq<Slot>, b: seq<Slot>, n: seq<byte>)
    ensures Find(a + s + b, n) == if Find(a, n).Some? then Find(a, n) else if Find(s, n).Some? then Find(s, n) else Find(b, n)
  {
    FindCat(a + s, b, n);
    FindCat(a, s, n);
  }

  lemma FindFilled(s: Slot, ino: nat, name: seq<byte>, ftype: nat, n: seq<byte>)
    requires Fits(s, MinSize(|name|)) && ino != 0 && name != [] && !(Live(s) && s.name == name)
    ensures Find(Filled(s, ino, name, ftype), n) == if n == name then Some(Ent(ino, ftype)) else Find([s], n)
  {
    FindOne(s, n);
    if Live(s) {
      var h, new' := s.(recLen := MinSize(|s.name|)), Slot(ino, s.recLen - MinSize(|s.name|), name, ftype);
      assert Filled(s, ino, name, ftype) == [h] + [new'];
      FindCat([h], [new'], n);
      FindOne(h, n);
      FindOne(new', n);
    } else {
      FindOne(Slot(ino, s.recLen, name, ftype), n);
    }
  }

  lemma NotHere(ss: seq<Slot>, i: nat, name: seq<byte>)
    requires Find(ss, name).None? && i < |ss| && name != []
    ensures !(Live(ss[i]) && ss[i].name == name)
  {
    FindNone(ss, name);
  }

  lemma NoneNamed(a: seq<Slot>, name: seq<byte>)
    requires NoName(a, name)
    ensures Find(a, name).None?
  {
    FindNone(a, name);
  }

  /** A record that cannot be shown changes nothing that is. */
  lemma InsertHidden(ss: seq<Slot>, i: nat, ino: nat, ftype: nat)
    requires AllOk(ss) && Ordered(ss) && ftype != TAIL && i < |ss| && Fits(ss[i], MinSize(0))
    ensures var ts := Inserted(ss, i, ino, [], ftype);
            && AllOk(ts) && Ordered(ts) && forall n :: Find(ts, n) == Find(ss, n)
  {
    hide Ordered, AllOk, MinSize, Find, Fits;
    var a, s, b := ss[..i], ss[i], ss[i + 1..];
    var f := Filled(s, ino, [], ftype);
    assert ss == a + [s] + b;
    forall n ensures Find(a + f + b, n) == Find(ss, n) {
      FindSplit(a, [s], b, n);
      FindSplit(a, f, b, n);
      FindHidden(s, ino, ftype, n);
    }
    HiddenOrdered(a, s, b, ino, ftype);
    InsertOk(a, s, b, ino, [], ftype);
  }

  lemma FindHidden(s: Slot, ino: nat, ftype: nat, n: seq<byte>)
    requires Fits(s, MinSize(0))
    ensures Find(Filled(s, ino, [], ftype), n) == Find([s], n)
  {
    FindOne(s, n);
    if Live(s) {
      var h, new' := s.(recLen := MinSize(|s.name|)), Slot(ino, s.recLen - MinSize(|s.name|), [], ftype);
      assert Filled(s, ino, [], ftype) == [h] + [new'];
      FindCat([h], [new'], n);
      FindOne(h, n);
      FindOne(new', n);
    } else {
      FindOne(Slot(ino, s.recLen, [], ftype), n);
    }
  }

  lemma HiddenOrdered(a: seq<Slot>, s: Slot, b: seq<Slot>, ino: nat, ftype: nat)
    requires Ordered(a + [s] + b) && Fits(s, MinSize(0))
    ensures Ordered(a + Filled(s, ino, [], ftype) + b)
  {
    OrderedSplit(a, s, b);
    if Live(s) {
      var h, new' := s.(recLen := MinSize(|s.name|)), Slot(ino, s.recLen - MinSize(|s.name|), [], ftype);
      OrderedSplit(a, h, b);
      var ah := a + [h];
      assert Ordered(ah + b);
      OrderedCat(ah, b);
      OrderedSplit(ah, new', b);
      assert a + Filled(s, ino, [], ftype) + b == ah + [new'] + b;
    } else {
      OrderedSplit(a, Slot(ino, s.recLen, [], ftype), b);
    }
  }

  /** Adding an absent name by first fit adds exactly that name and keeps the invariant. */
  lemma InsertKeeps(ss: seq<Slot>, i: nat, ino: nat, name: seq<byte>, ftype: nat)
    requires AllOk(ss) && Ordered(ss) && Find(ss, name).None?
    requires ino != 0 && name != [] && ftype != TAIL
    requires i < |ss| && Fits(ss[i], MinSize(|name|)) && forall k :: 0 <= k < i ==> !Fits(ss[k], MinSize(|name|))
    ensures var ts := Inserted(ss, i, ino, name, ftype);
            && AllOk(ts) && Ordered(ts)
            && forall n :: Find(ts, n) == if n == name then Some(Ent(ino, ftype)) else Find(ss, n)
  {
    hide Find, Ordered, AllOk, Fits, MinSize, Filled, NoName;
    var a, s, b := ss[..i], ss[i], ss[i + 1..];
    var f := Filled(s, ino, name, ftype);
    assert ss == a + [s] + b;
    NoStaleBefore(ss, i, name);
    NotHere(ss, i, name);
    NoneNamed(a, name);
    forall n ensures Find(a + f + b, n) == if n == name then Some(Ent(ino, ftype)) else Find(ss, n) {
      FindSplit(a, [s], b, n);
      FindSplit(a, f, b, n);
      FindFilled(s, ino, name, ftype, n);
    }
    InsertOrdered(a, s, b, ino, name, ftype);
    InsertOk(a, s, b, ino, name, ftype);
  }

  lemma InsertOk(a: seq<Slot>, s: Slot, b: seq<Slot>, ino: nat, name: seq<byte>, ftype: nat)
    requires AllOk(a + [s] + b) && ftype != TAIL && Fits(s, MinSize(|name|))
    ensures AllOk(a + Filled(s, ino, name, ftype) + b)
  {
    var ss := a + [s] + b;
    assert ss[|a|] == s && SlotOk(s);
    forall k | 0 <= k < |a| ensures SlotOk(a[k]) { assert ss[k] == a[k]; }
    forall k | 0 <= k < |b| ensures SlotOk(b[k]) { assert ss[|a| + 1 + k] == b[k]; }
  }

  lemma InsertOrdered(a: seq<Slot>, s: Slot, b: seq<Slot>, ino: nat, name: seq<byte>, ftype: nat)
    requires Ordered(a + [s] + b) && Find(a + [s] + b, name).None? && NoName(a, name) && name != [] && Fits(s, MinSize(|name|))
    ensures Ordered(a + Filled(s, ino, name, ftype) + b)
  {
    hide Ordered, After, Find, MinSize, NoName;
    OrderedSplit(a, s, b);
    NoneNear(a, s, b, name);
    if Live(s) {
      var h, new' := s.(recLen := MinSize(|s.name|)), Slot(ino, s.recLen - MinSize(|s.name|), name, ftype);
      OrderedSplit(a, h, b);
      OrderedCat(a + [h], b);
      NotNamed(a, h, name);
      OrderedSplit(a + [h], new', b);
      assert a + Filled(s, ino, name, ftype) + b == a + [h] + [new'] + b;
    } else {
      OrderedSplit(a, Slot(ino, s.recLen, name, ftype), b);
    }
  }

  lemma NoneNear(a: seq<Slot>, s: Slot, b: seq<Slot>, name: seq<byte>)
    requires Find(a + [s] + b, name).None? && name != []
    ensures Live(s) ==> s.name != name
    ensures forall j :: 0 <= j < |b| && Shown(b[j]) ==> b[j].name != name
  {
    var c := a + [s] + b;
    FindNone(c, name);
    assert c[|a|] == s;
    forall j | 0 <= j < |b| && Shown(b[j]) ensures b[j].name != name {
      assert c[|a| + 1 + j] == b[j];
    }
  }

  lemma NotNamed(a: seq<Slot>, s: Slot, name: seq<byte>)
    requires NoName(a, name) && s.name != name
    ensures NoName(a + [s], name)
  {
  }

  /** A name in a new last slot. */
  lemma AppendKeeps(ss: seq<Slot>, s: Slot)
    requires AllOk(ss) && Ordered(ss) && SlotOk(s) && Shown(s) && Find(ss, s.name).None?
    requires forall k :: 0 <= k < |ss| ==> !Fits(ss[k], MinSize(|s.name|))
    ensures AllOk(ss + [s]) && Ordered(ss + [s])
    ensures forall n :: Find(ss + [s], n) == if n == s.name then Some(Ent(s.ino, s.ftype)) else Find(ss, n)
  {
    NoStaleBefore(ss, |ss|, s.name);
    assert ss[..|ss|] == ss;
    OrderedSplit(ss, s, []);
    assert ss + [s] + [] == ss + [s];
    forall n ensures Find(ss + [s], n) == if n == s.name then Some(Ent(s.ino, s.ftype)) else Find(ss, n) {
      FindCat(ss, [s], n);
      FindOne(s, n);
    }
  }

  lemma AppendHidden(ss: seq<Slot>, s: Slot)
    requires AllOk(ss) && Ordered(ss) && SlotOk(s) && s.name == []
    ensures AllOk(ss + [s]) && Ordered(ss + [s]) && forall n :: Find(ss + [s], n) == Find(ss, n)
  {
    OrderedSplit(ss, s, []);
    assert ss + [s] + [] == ss + [s];
    forall n ensures Find(ss + [s], n) == Find(ss, n) {
      FindCat(ss, [s], n);
      FindOne(s, n);
    }
  }

  // ---------------------------------------------------------------- deletion

  /** The first slot carrying the name, live or stale, or |ss|. */
  function FirstNamed(ss: seq<Slot>, n: seq<byte>): (i: nat)
    ensures i <= |ss| && (i < |ss| ==> ss[i].name == n)
    ensures NoName(ss[..i], n)
  {
    if ss == [] then 0
    else if ss[0].name == n then 0
    else
      var i := FirstNamed(ss[1..], n);
      assert ss[..i + 1] == [ss[0]] + ss[1..][..i];
      i + 1
  }

  /** The slots after deleting a name. */
  function Deleted(ss: seq<Slot>, n: seq<byte>): seq<Slot> {
    var i := FirstNamed(ss, n);
    if i < |ss| then ss[i := ss[i].(ino := 0)] else ss
  }

  /** Deleting by name alone removes exactly that name and keeps the invariant. */
  lemma DeleteKeeps(ss: seq<Slot>, n: seq<byte>)
    requires AllOk(ss) && Ordered(ss)
    ensures AllOk(Deleted(ss, n)) && Ordered(Deleted(ss, n))
    ensures forall m :: Find(Deleted(ss, n), m) == if m == n then None else Find(ss, m)
  {
    var i := FirstNamed(ss, n);
    if i < |ss| {
      var a, s, b := ss[..i], ss[i], ss[i + 1..];
      var z := s.(ino := 0);
      assert ss == a + [s] + b && Deleted(ss, n) == a + [z] + b;
      OrderedSplit(a, s, b);
      OrderedSplit(a, z, b);
      FindNone(a, n);
      FindNone(b, n);
      assert AllOk(Deleted(ss, n)) by {
        forall k | 0 <= k < |ss| ensures SlotOk(Deleted(ss, n)[k]) { assert SlotOk(ss[k]); }
      }
      forall m ensures Find(a + [z] + b, m) == if m == n then None else Find(ss, m) {
        FindSplit(a, [s], b, m);
        FindSplit(a, [z], b, m);
        FindOne(s, m);
        FindOne(z, m);
      }
    } else {
      assert ss[..i] == ss;
      FindNone(ss, n);
    }
  }

  // ---------------------------------------------------------------- listing

  /** The shown entries in slot order. */
  function Entries(ss: seq<Slot>): seq<DirEntry> {
    if ss == [] then []
    else if Shown(ss[|ss| - 1]) then Entries(ss[..|ss| - 1]) + [DirEntry(ss[|ss| - 1].ino, ss[|ss| - 1].name, ss[|ss| - 1].ftype)]
    else Entries(ss[..|ss| - 1])
  }

  lemma {:induction false} EntriesCat(a: seq<Slot>, b: seq<Slot>)
    ensures Entries(a + b) == Entries(a) + Entries(b)
    decreases |b|
  {
    if b == [] {
      assert a + b == a;
    } else {
      var n := |b| - 1;
      assert (a + b)[..|a| + n] == a + b[..n];
      EntriesCat(a, b[..n]);
    }
  }

  /** What a new record adds to the listing: its entry, if it can be shown. */
  function Extra(ino: nat, name: seq<byte>, ftype: nat): multiset<DirEntry> {
    if ino != 0 && name != [] then multiset{DirEntry(ino, name, ftype)} else multiset{}
  }

  lemma EntriesOne(s: Slot)
    ensures multiset(Entries([s])) == Extra(s.ino, s.name, s.ftype)
  {
    assert [s][..0] == [];
    assert Entries([s]) == if Shown(s) then [DirEntry(s.ino, s.name, s.ftype)] else [];
  }

  /** Putting a record into any slot adds its entry to the listing and loses none. */
  lemma InsertListed(ss: seq<Slot>, i: nat, ino: nat, name: seq<byte>, ftype: nat)
    requires i < |ss| && Fits(ss[i], MinSize(|name|))
    ensures multiset(Entries(Inserted(ss, i, ino, name, ftype))) == multiset(Entries(ss)) + Extra(ino, name, ftype)
  {
    hide Entries, MinSize, Extra;
    var a, s, b := ss[..i], ss[i], ss[i + 1..];
    var f := Filled(s, ino, name, ftype);
    assert ss == a + [s] + b;
    EntriesCat(a + [s], b);
    EntriesCat(a, [s]);
    EntriesCat(a + f, b);
    EntriesCat(a, f);
    FilledListed(s, ino, name, ftype);
  }

  lemma FilledListed(s: Slot, ino: nat, name: seq<byte>, ftype: nat)
    requires Fits(s, MinSize(|name|))
    ensures multiset(Entries(Filled(s, ino, name, ftype))) == multiset(Entries([s])) + Extra(ino, name, ftype)
  {
    hide Entries, MinSize;
    EntriesOne(s);
    if Live(s) {
      var h, new' := s.(recLen := MinSize(|s.name|)), Slot(ino, s.recLen - MinSize(|s.name|), name, ftype);
      assert Filled(s, ino, name, ftype) == [h] + [new'];
      EntriesCat([h], [new']);
      EntriesOne(h);
      EntriesOne(new');
    } else {
      EntriesOne(Slot(ino, s.recLen, name, ftype));
    }
  }

  /** Listing agrees with lookup: each live name once, with its entry. */
  lemma {:induction false} ListingIsFind(ss: seq<Slot>)
    requires Ordered(ss)
    ensures forall e :: e in Entries(ss) <==> Find(ss, e.name) == Some(Ent(e.ino, e.ftype))
    ensures forall i, j :: 0 <= i < j < |Entries(ss)| ==> Entries(ss)[i].name != Entries(ss)[j].name
    decreases |ss|
  {
    if ss != [] {
      var a, s := ss[..|ss| - 1], ss[|ss| - 1];
      assert ss == a + [s];
      OrderedSplit(a, s, []);
      assert a + [s] + [] == ss;
      ListingIsFind(a);
      FindNone(a, s.name);
      forall e: DirEntry ensures e in Entries(ss) <==> Find(ss, e.name) == Some(Ent(e.ino, e.ftype)) {
        FindCat(a, [s], e.name);
        FindOne(s, e.name);
      }
    }
  }
}
