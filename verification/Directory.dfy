/** A linear directory: blocks of records behind a map from names to inodes. */
module Directory {
  import opened Bytes
  import opened DirSlots
  import opened DirBlock

  type Names = map<seq<byte>, Ent>

  function Get(m: Names, n: seq<byte>): Option<Ent> {
    if n in m then Some(m[n]) else None
  }

  // ---------------------------------------------------------------- all blocks as one slot list

  function AllSlots(tiles: seq<seq<Slot>>): seq<Slot> {
    if tiles == [] then [] else AllSlots(tiles[..|tiles| - 1]) + tiles[|tiles| - 1]
  }

  lemma {:induction false} AllSlotsCat(a: seq<seq<Slot>>, b: seq<seq<Slot>>)
    ensures AllSlots(a + b) == AllSlots(a) + AllSlots(b)
    decreases |b|
  {
    if b == [] {
      assert a + b == a;
    } else {
      var n := |b| - 1;
      assert (a + b)[..|a| + n] == a + b[..n];
      AllSlotsCat(a, b[..n]);
    }
  }

  lemma AllSlotsOne(t: seq<Slot>)
    ensures AllSlots([t]) == t
  {
    assert [t][..0] == [];
  }

  lemma AllSlotsAt(tiles: seq<seq<Slot>>, b: nat, t: seq<Slot>)
    requires b < |tiles|
    ensures AllSlots(tiles) == AllSlots(tiles[..b]) + tiles[b] + AllSlots(tiles[b + 1..])
    ensures AllSlots(tiles[b := t]) == AllSlots(tiles[..b]) + t + AllSlots(tiles[b + 1..])
  {
    hide AllSlots;
    var a, c := tiles[..b], tiles[b + 1..];
    assert tiles == a + [tiles[b]] + c && tiles[b := t] == a + [t] + c;
    AllSlotsCat(a + [tiles[b]], c);
    AllSlotsCat(a, [tiles[b]]);
    AllSlotsCat(a + [t], c);
    AllSlotsCat(a, [t]);
    AllSlotsOne(tiles[b]);
    AllSlotsOne(t);
  }

  // ---------------------------------------------------------------- names and slots

  /** The slots hold exactly these names, under the history invariant. */
  ghost predicate Holds(ss: seq<Slot>, names: Names) {
    AllOk(ss) && Ordered(ss) && forall n :: Find(ss, n) == Get(names, n)
  }

  /** First fit over all blocks is first fit in the first block that has room. */
  lemma HoldsInsert(tiles: seq<seq<Slot>>, names: Names, b: nat, ino: nat, name: seq<byte>, ftype: nat)
    requires Holds(AllSlots(tiles), names) && b < |tiles| && name !in names && name != [] && ino != 0 && ftype != TAIL
    requires FirstFit(tiles[b], MinSize(|name|)) < |tiles[b]| && NoFit(AllSlots(tiles[..b]), MinSize(|name|))
    ensures Holds(AllSlots(tiles[b := Inserted(tiles[b], FirstFit(tiles[b], MinSize(|name|)), ino, name, ftype)]), names[name := Ent(ino, ftype)])
  {
    hide MinSize, FirstFit, AllSlots, Fits, Filled;
    var i := FirstFit(tiles[b], MinSize(|name|));
    var t := Inserted(tiles[b], i, ino, name, ftype);
    AllSlotsAt(tiles, b, t);
    var a, s, c := AllSlots(tiles[..b]), tiles[b], AllSlots(tiles[b + 1..]);
    var ss, g := a + s + c, |AllSlots(tiles[..b])| + i;
    assert ss[g] == s[i];
    assert ss[..g] == a + s[..i] && ss[g + 1..] == s[i + 1..] + c;
    assert Inserted(ss, g, ino, name, ftype) == a + t + c;
    forall k | 0 <= k < g ensures !Fits(ss[k], MinSize(|name|)) {
      if k >= |a| { assert ss[k] == s[k - |a|]; } else { assert ss[k] == a[k]; }
    }
    assert Find(ss, name) == Get(names, name);
    InsertKeeps(ss, g, ino, name, ftype);
  }

  ghost predicate NoFit(ss: seq<Slot>, needed: nat) {
    forall k :: 0 <= k < |ss| ==> !Fits(ss[k], needed)
  }

  lemma NoFitCat(a: seq<Slot>, b: seq<Slot>, needed: nat)
    requires NoFit(a, needed) && FirstFit(b, needed) == |b|
    ensures NoFit(a + b, needed)
  {
  }

  /** A name in a new block of its own. */
  lemma HoldsAppend(tiles: seq<seq<Slot>>, names: Names, s: Slot)
    requires Holds(AllSlots(tiles), names) && s.name !in names && SlotOk(s) && Shown(s) && NoFit(AllSlots(tiles), MinSize(|s.name|))
    ensures Holds(AllSlots(tiles + [[s]]), names[s.name := Ent(s.ino, s.ftype)])
  {
    hide MinSize, AllSlots, Fits, SlotOk;
    AllSlotsCat(tiles, [[s]]);
    AllSlotsOne([s]);
    assert Find(AllSlots(tiles), s.name) == Get(names, s.name);
    AppendKeeps(AllSlots(tiles), s);
  }

  /** Deleting in the first block that carries the name is deleting it from the list. */
  lemma HoldsDelete(tiles: seq<seq<Slot>>, names: Names, b: nat, name: seq<byte>)
    requires Holds(AllSlots(tiles), names) && b < |tiles| && NoName(AllSlots(tiles[..b]), name) && FirstNamed(tiles[b], name) < |tiles[b]|
    ensures Holds(AllSlots(tiles[b := Deleted(tiles[b], name)]), names - {name})
  {
    hide AllSlots, FirstNamed;
    var t, i := Deleted(tiles[b], name), FirstNamed(tiles[b], name);
    AllSlotsAt(tiles, b, t);
    var a, s, c := AllSlots(tiles[..b]), tiles[b], AllSlots(tiles[b + 1..]);
    var ss, g := a + s + c, |a| + i;
    forall k | 0 <= k < g ensures ss[k].name != name {
      if k >= |a| { assert ss[k] == s[..i][k - |a|]; } else { assert ss[k] == a[k]; }
    }
    FirstNamedIs(ss, name, g);
    assert Deleted(ss, name) == a + t + c;
    DeleteKeeps(ss, name);
  }

  lemma HoldsAbsent(ss: seq<Slot>, names: Names, name: seq<byte>)
    requires Holds(ss, names) && NoName(ss, name)
    ensures names - {name} == names
  {
    FindNone(ss, name);
    assert Find(ss, name) == Get(names, name);
  }

  lemma NoNameCat(a: seq<Slot>, b: seq<Slot>, name: seq<byte>)
    requires NoName(a, name) && FirstNamed(b, name) == |b|
    ensures NoName(a + b, name)
  {
    assert b[..|b|] == b;
  }

  // ---------------------------------------------------------------- the directory

  /** The listing is the map: every name once, with its inode and type. */
  ghost predicate Lists(entries: seq<DirEntry>, names: Names) {
    && (forall e :: e in entries <==> e.name in names && names[e.name] == Ent(e.ino, e.ftype))
    && (forall i, j :: 0 <= i < j < |entries| ==> entries[i].name != entries[j].name)
  }

  lemma HoldsLists(ss: seq<Slot>, names: Names)
    requires Holds(ss, names)
    ensures Lists(Entries(ss), names)
  {
    ListingIsFind(ss);
    forall e: DirEntry ensures e in Entries(ss) <==> e.name in names && names[e.name] == Ent(e.ino, e.ftype) {
      assert Find(ss, e.name) == Get(names, e.name);
    }
  }

  /** Block bytes and the slots that tile them, with the tail free where checksums need it. */
  ghost predicate BlockOk(bs: nat, csum: bool, b: seq<byte>, ss: seq<Slot>) {
    |b| == bs && Tiles(b, ss) && (csum ==> Off(ss, |ss|) + 12 == bs)
  }

  ghost predicate BlocksOk(bs: nat, csum: bool, blocks: seq<seq<byte>>, tiles: seq<seq<Slot>>) {
    |tiles| == |blocks| && forall i :: 0 <= i < |blocks| ==> BlockOk(bs, csum, blocks[i], tiles[i])
  }

  lemma NothingBefore(tiles: seq<seq<Slot>>, needed: nat)
    ensures NoFit(AllSlots(tiles[..0]), needed)
  {
  }

  lemma NoneBefore(tiles: seq<seq<Slot>>, name: seq<byte>)
    ensures NoName(AllSlots(tiles[..0]), name)
  {
  }

  lemma PassBlock(tiles: seq<seq<Slot>>, i: nat, needed: nat)
    requires i < |tiles| && NoFit(AllSlots(tiles[..i]), needed) && FirstFit(tiles[i], needed) == |tiles[i]|
    ensures NoFit(AllSlots(tiles[..i + 1]), needed)
  {
    assert tiles[..i + 1][..i] == tiles[..i];
    NoFitCat(AllSlots(tiles[..i]), tiles[i], needed);
  }

  lemma SomeFit(tiles: seq<seq<Slot>>, i: nat, needed: nat)
    requires i < |tiles| && FirstFit(tiles[i], needed) < |tiles[i]|
    ensures !NoFit(AllSlots(tiles), needed)
  {
    hide AllSlots, FirstFit, Fits;
    AllSlotsAt(tiles, i, tiles[i]);
    var a, s, c, k := AllSlots(tiles[..i]), tiles[i], AllSlots(tiles[i + 1..]), FirstFit(tiles[i], needed);
    assert (a + s + c)[|a| + k] == s[k];
  }

  lemma PassName(tiles: seq<seq<Slot>>, i: nat, name: seq<byte>)
    requires i < |tiles| && NoName(AllSlots(tiles[..i]), name) && FirstNamed(tiles[i], name) == |tiles[i]|
    ensures NoName(AllSlots(tiles[..i + 1]), name)
  {
    assert tiles[..i + 1][..i] == tiles[..i];
    NoNameCat(AllSlots(tiles[..i]), tiles[i], name);
  }

  /** The empty name is never found. */
  lemma NoEmptyName(ss: seq<Slot>, names: Names)
    requires Holds(ss, names)
    ensures names - {[]} == names
  {
    FindNone(ss, []);
    assert Find(ss, []) == Get(names, []);
  }

  /** Inserting and deleting do not move the end of the records. */
  lemma InsertedEnd(ss: seq<Slot>, i: nat, ino: nat, name: seq<byte>, ftype: nat)
    requires i < |ss| && Fits(ss[i], MinSize(|name|))
    ensures var t := Inserted(ss, i, ino, name, ftype);
            Off(t, |t|) == Off(ss, |ss|)
  {
    hide Off, MinSize;
    var f := Filled(ss[i], ino, name, ftype);
    if Live(ss[i]) { TwoOff(f[0], f[1]); } else { OneOff(f[0]); }
    OffBehind(ss, i, f, |ss|);
  }

  lemma DeletedEnd(ss: seq<Slot>, name: seq<byte>)
    requires FirstNamed(ss, name) < |ss|
    ensures Off(Deleted(ss, name), |Deleted(ss, name)|) == Off(ss, |ss|)
  {
    hide Off, FirstNamed;
    var i := FirstNamed(ss, name);
    var z := ss[i].(ino := 0);
    OneOff(z);
    OffBehind(ss, i, [z], |ss|);
    assert Spliced(ss, i, [z]) == Deleted(ss, name);
  }

  lemma GrownIs(ss: seq<Slot>, i: nat, ino: nat, name: seq<byte>, ftype: nat)
    requires i < |ss| && Fits(ss[i], MinSize(|name|))
    ensures Fits(ss[i], MinSize(|Short(name)|)) && Grown(ss, i, ino, name, ftype) == Inserted(ss, i, ino, Short(name), ftype)
    ensures Short(name) == [] ==> Fits(ss[i], MinSize(0))
  {
    MinSizeMono(|Short(name)|, |name|);
  }

  /** The block after an insertion: its end, and what it lists. */
  lemma GrownListed(ss: seq<Slot>, i: nat, ino: nat, name: seq<byte>, ftype: nat)
    requires i < |ss| && Fits(ss[i], MinSize(|name|))
    ensures var t := Grown(ss, i, ino, name, ftype);
            Off(t, |t|) == Off(ss, |ss|) && multiset(Entries(t)) == multiset(Entries(ss)) + Extra(ino, Short(name), ftype)
  {
    hide Off, MinSize, Entries, Short, Fits, Inserted, Extra;
    GrownIs(ss, i, ino, name, ftype);
    InsertedEnd(ss, i, ino, Short(name), ftype);
    InsertListed(ss, i, ino, Short(name), ftype);
  }

  /** The listing of a directory, one block of which lists more. */
  lemma ListedAt(tiles: seq<seq<Slot>>, b: nat, t: seq<Slot>, x: multiset<DirEntry>)
    requires b < |tiles| && multiset(Entries(t)) == multiset(Entries(tiles[b])) + x
    ensures multiset(Entries(AllSlots(tiles[b := t]))) == multiset(Entries(AllSlots(tiles))) + x
  {
    hide Entries, AllSlots;
    AllSlotsAt(tiles, b, t);
    var a, c := AllSlots(tiles[..b]), AllSlots(tiles[b + 1..]);
    EntriesCat(a + tiles[b], c);
    EntriesCat(a, tiles[b]);
    EntriesCat(a + t, c);
    EntriesCat(a, t);
  }

  lemma ListedAppend(tiles: seq<seq<Slot>>, s: Slot)
    ensures multiset(Entries(AllSlots(tiles + [[s]]))) == multiset(Entries(AllSlots(tiles))) + Extra(s.ino, s.name, s.ftype)
  {
    hide Entries, AllSlots, Extra;
    AllSlotsCat(tiles, [[s]]);
    AllSlotsOne([s]);
    EntriesCat(AllSlots(tiles), [s]);
    EntriesOne(s);
  }

  /** A record stored without a name leaves the map as it was. */
  lemma HoldsHidden(tiles: seq<seq<Slot>>, names: Names, b: nat, i: nat, ino: nat, ftype: nat)
    requires Holds(AllSlots(tiles), names) && b < |tiles| && i < |tiles[b]| && Fits(tiles[b][i], MinSize(0)) && ftype != TAIL
    ensures Holds(AllSlots(tiles[b := Inserted(tiles[b], i, ino, [], ftype)]), names)
  {
    hide MinSize, AllSlots, Fits, Filled, Ordered, AllOk, Find;
    var t := Inserted(tiles[b], i, ino, [], ftype);
    AllSlotsAt(tiles, b, t);
    var a, s, c := AllSlots(tiles[..b]), tiles[b], AllSlots(tiles[b + 1..]);
    var ss, g := a + s + c, |AllSlots(tiles[..b])| + i;
    assert ss[g] == s[i];
    assert ss[..g] == a + s[..i] && ss[g + 1..] == s[i + 1..] + c;
    assert Inserted(ss, g, ino, [], ftype) == a + t + c;
    InsertHidden(ss, g, ino, ftype);
  }

  lemma HoldsHiddenAppend(tiles: seq<seq<Slot>>, names: Names, s: Slot)
    requires Holds(AllSlots(tiles), names) && SlotOk(s) && s.name == []
    ensures Holds(AllSlots(tiles + [[s]]), names)
  {
    hide AllSlots, SlotOk, Ordered, AllOk, Find;
    AllSlotsCat(tiles, [[s]]);
    AllSlotsOne([s]);
    AppendHidden(AllSlots(tiles), s);
  }

  /** A zeroed block with one record up to its tail. */
  lemma FreshBlock(bs: nat, csum: bool, ino: nat, name: seq<byte>, ftype: byte)
    requires 1024 <= bs <= 65536 && 0 < ino < U32 && ftype != TAIL && |name| + 20 <= bs
    ensures var s := Slot(ino, bs - 12, Short(name), ftype);
            SlotOk(s) && BlockOk(bs, csum, Put(Zeros(bs), 0, RecordBytes(ino, bs - 12, name, ftype, bs - 8)), [s])
  {
    hide LE, UnLE, MinSize, Off, RecordAt, RecordBytes, Put, Short;
    var s := Slot(ino, bs - 12, Short(name), ftype);
    var b := Put(Zeros(bs), 0, RecordBytes(ino, bs - 12, name, ftype, bs - 8));
    WrittenRecord(Zeros(bs), 0, ino, bs - 12, name, ftype);
    OneOff(s);
    assert TileAt(b, [s], 0);
    ZeroTail(b, bs - 12);
  }

  lemma ZeroTail(b: seq<byte>, e: nat)
    requires e + 12 == |b| && b[e + 4] == 0 && b[e + 5] == 0
    ensures Terminated(b, e)
  {
    hide UnLE;
    assert b[e + 4..e + 6] == [0, 0];
    TwoZeros();
  }

  lemma TwoZeros()
    ensures UnLE([0, 0]) == 0
  {
    assert [0, 0][1..] == [0] && [0][1..] == [];
  }

  lemma NothingListed(tiles: seq<seq<Slot>>)
    ensures Entries(AllSlots(tiles[..0])) == []
  {
  }

  lemma ListedNext(tiles: seq<seq<Slot>>, i: nat)
    requires i < |tiles|
    ensures Entries(AllSlots(tiles[..i + 1])) == Entries(AllSlots(tiles[..i])) + Entries(tiles[i])
  {
    hide Entries;
    assert tiles[..i + 1][..i] == tiles[..i];
    EntriesCat(AllSlots(tiles[..i]), tiles[i]);
  }

  method ReadRawBlock(b: seq<byte>) returns (buf: array<byte>)
    ensures fresh(buf) && buf[..] == b
  {
    buf := new byte[|b|](k requires 0 <= k < |b| => b[k]);
    assert buf[..] == b;
  }

  /** A non-hashed directory, with the names it holds. */
  class Dir {
    const bs: nat
    const csum: bool
    const crc: seq<byte> -> nat
    var blocks: seq<seq<byte>>
    ghost var tiles: seq<seq<Slot>>
    ghost var names: Names

    ghost predicate Valid()
      reads this
    {
      1024 <= bs <= 65536 && BlocksOk(bs, csum, blocks, tiles) && Holds(AllSlots(tiles), names)
    }

    /** Every block is tiled, whatever the names. */
    ghost predicate Sound()
      reads this
    {
      1024 <= bs <= 65536 && BlocksOk(bs, csum, blocks, tiles)
    }

    /** The entries a listing shows. */
    ghost function Listing(): seq<DirEntry>
      reads this
    {
      Entries(AllSlots(tiles))
    }

    /** A directory with no blocks yet. */
    constructor (bs: nat, csum: bool, crc: seq<byte> -> nat)
      requires 1024 <= bs <= 65536
      ensures Valid() && names == map[] && this.bs == bs && this.csum == csum
    {
      this.bs, this.csum, this.crc, this.blocks, this.tiles, this.names := bs, csum, crc, [], [], map[];
    }

    /** `readDir`. */
    method ReadDir() returns (entries: seq<DirEntry>)
      ensures Sound() ==> entries == Listing()
      ensures Valid() ==> Lists(entries, names)
      ensures forall e :: e in entries ==> 1 <= |e.name| <= 255
    {
      hide Tiles, Holds, Off, Entries, AllSlots;
      ghost var good := Sound();
      NothingListed(tiles);
      entries := [];
      var i := 0;
      while i < |blocks|
        invariant 0 <= i <= |blocks|
        invariant good ==> entries == Entries(AllSlots(tiles[..i]))
        invariant forall e :: e in entries ==> 1 <= |e.name| <= 255
      {
        var buf := ReadRawBlock(blocks[i]);
        var es := ParseDirBlock(buf, if good then tiles[i] else []);
        if good {
          assert BlockOk(bs, csum, blocks[i], tiles[i]);
          ListedNext(tiles, i);
        }
        entries := entries + es;
        i := i + 1;
      }
      if good {
        assert tiles[..i] == tiles;
      }
      if Valid() { HoldsLists(AllSlots(tiles), names); }
    }

    /** What a path lookup finds under a name. */
    method Lookup(name: seq<byte>) returns (r: Option<Ent>)
      requires Valid()
      ensures r == Get(names, name)
    {
      hide BlocksOk, Holds;
      var entries := ReadDir();
      var i := 0;
      while i < |entries|
        invariant 0 <= i <= |entries|
        invariant forall k :: 0 <= k < i ==> entries[k].name != name
      {
        if entries[i].name == name {
          assert entries[i] in entries;
          return Some(Ent(entries[i].ino, entries[i].ftype));
        }
        i := i + 1;
      }
      ghost var e := if name in names then DirEntry(names[name].ino, name, names[name].ftype) else DirEntry(0, [], 0);
      assert name in names ==> e in entries;
      return None;
    }

    /** Rewrites the checksum tail where the filesystem keeps one. */
    method Seal(buf: array<byte>, ghost ss: seq<Slot>)
      requires buf.Length == bs && BlockOk(bs, csum, buf[..], ss) && bs >= 12
      modifies buf
      ensures BlockOk(bs, csum, buf[..], ss)
    {
      hide Tiles, Off;
      if csum {
        UpdateTail(buf, crc, ss);
      }
    }

    /** The block scan of `addDirEntryWithTx`, then a new block if none has room. Whatever
        the length of the name, one entry is added to the listing, under the name the
        length byte lets through, and none is lost. */
    method Add(ino: nat, name: seq<byte>, ftype: byte, haveSpace: bool) returns (ok: bool)
      requires Valid() && 0 < ino < U32 && ftype != TAIL && name !in names
      modifies this
      ensures ok <==> haveSpace || old(!NoFit(AllSlots(tiles), MinSize(|name|)))
      ensures !ok ==> blocks == old(blocks) && Valid() && names == old(names)
      ensures ok && 1 <= |name| <= 255 ==> Valid() && names == old(names)[name := Ent(ino, ftype)]
      ensures ok && Short(name) == [] && |name| + 20 <= bs ==> Valid() && names == old(names)
      ensures ok && |name| + 20 <= bs ==> Sound() && multiset(Listing()) == old(multiset(Listing())) + Extra(ino, Short(name), ftype)
    {
      hide Tiles, Holds, Off, MinSize, AllSlots, FirstFit, Short, Entries, Extra, Grown, Lists;
      var needed := MinSize(|name|);
      var i := 0;
      NothingBefore(tiles, needed);
      while i < |blocks|
        invariant 0 <= i <= |blocks| && blocks == old(blocks) && tiles == old(tiles) && names == old(names)
        invariant NoFit(AllSlots(tiles[..i]), needed)
      {
        assert BlockOk(bs, csum, blocks[i], tiles[i]);
        var buf := ReadRawBlock(blocks[i]);
        var inserted := TryInsertDirEntry(buf, ino, name, ftype, needed, tiles[i]);
        if inserted {
          SomeFit(tiles, i, needed);
          AddInto(i, buf, ino, name, ftype);
          return true;
        }
        PassBlock(tiles, i, needed);
        i := i + 1;
      }
      assert tiles[..i] == tiles;
      if !haveSpace {
        return false;
      }
      AddBlock(ino, name, ftype);
      return true;
    }

    /** Stores block i with the record in its first fitting slot. */
    method AddInto(i: nat, buf: array<byte>, ino: nat, name: seq<byte>, ftype: byte)
      requires Valid() && 0 < ino < U32 && ftype != TAIL && name !in names && i < |blocks| && i < |tiles|
      requires FirstFit(tiles[i], MinSize(|name|)) < |tiles[i]| && NoFit(AllSlots(tiles[..i]), MinSize(|name|))
      requires buf.Length == bs && Tiles(buf[..], Grown(tiles[i], FirstFit(tiles[i], MinSize(|name|)), ino, name, ftype))
      modifies this, buf
      ensures 1 <= |name| <= 255 ==> Valid() && names == old(names)[name := Ent(ino, ftype)]
      ensures Short(name) == [] ==> Valid() && names == old(names)
      ensures Sound() && multiset(Listing()) == old(multiset(Listing())) + Extra(ino, Short(name), ftype)
    {
      hide Tiles, Holds, Off, MinSize, AllSlots, FirstFit, Short, Entries, Extra, Grown, Inserted, Fits;
      assert BlockOk(bs, csum, blocks[i], tiles[i]);
      ghost var fit := FirstFit(tiles[i], MinSize(|name|));
      ghost var t := Grown(tiles[i], fit, ino, name, ftype);
      GrownListed(tiles[i], fit, ino, name, ftype);
      GrownIs(tiles[i], fit, ino, name, ftype);
      Seal(buf, t);
      ListedAt(tiles, i, t, Extra(ino, Short(name), ftype));
      if 1 <= |name| <= 255 {
        HoldsInsert(tiles, names, i, ino, name, ftype);
        names := names[name := Ent(ino, ftype)];
      } else if Short(name) == [] {
        HoldsHidden(tiles, names, i, fit, ino, ftype);
      }
      tiles := tiles[i := t];
      blocks := blocks[i := buf[..]];
    }

    /** A fresh block holding one record up to its tail. */
    method AddBlock(ino: nat, name: seq<byte>, ftype: byte)
      requires Valid() && 0 < ino < U32 && ftype != TAIL && name !in names && NoFit(AllSlots(tiles), MinSize(|name|))
      modifies this
      ensures 1 <= |name| <= 255 ==> Valid() && names == old(names)[name := Ent(ino, ftype)]
      ensures Short(name) == [] && |name| + 20 <= bs ==> Valid() && names == old(names)
      ensures |name| + 20 <= bs ==> Sound() && multiset(Listing()) == old(multiset(Listing())) + Extra(ino, Short(name), ftype)
    {
      hide Tiles, Holds, Off, MinSize, AllSlots, RecordBytes, Put, Short, Entries, Extra;
      var buf := new byte[bs](_ => 0);
      assert buf[..] == Zeros(bs);
      WriteDirEntry(buf, 0, ino, bs - 12, name, ftype);
      if |name| + 20 <= bs {
        ghost var s := Slot(ino, bs - 12, Short(name), ftype);
        FreshBlock(bs, csum, ino, name, ftype);
        Seal(buf, [s]);
        ListedAppend(tiles, s);
        if 1 <= |name| <= 255 {
          HoldsAppend(tiles, names, s);
          names := names[name := Ent(ino, ftype)];
        } else if Short(name) == [] {
          HoldsHiddenAppend(tiles, names, s);
        }
        tiles := tiles + [[s]];
      } else {
        if csum { UpdateTail(buf, crc, []); }
      }
      blocks := blocks + [buf[..]];
    }

    /** `zeroDirEntry`: frees the first record that carries the name. */
    method Delete(name: seq<byte>)
      requires Valid()
      modifies this
      ensures Valid() && names == old(names) - {name}
    {
      hide Tiles, Holds, Off, AllSlots, FirstNamed, Deleted;
      var i := 0;
      NoneBefore(tiles, name);
      while i < |blocks|
        invariant 0 <= i <= |blocks| && blocks == old(blocks) && tiles == old(tiles) && names == old(names)
        invariant name != [] ==> NoName(AllSlots(tiles[..i]), name)
      {
        assert BlockOk(bs, csum, blocks[i], tiles[i]);
        var buf := ReadRawBlock(blocks[i]);
        var zeroed, _ := ZeroEntryInBlock(buf, name, tiles[i]);
        if zeroed {
          DeletedEnd(tiles[i], name);
          ghost var t := Deleted(tiles[i], name);
          Seal(buf, t);
          HoldsDelete(tiles, names, i, name);
          tiles := tiles[i := t];
          names := names - {name};
          blocks := blocks[i := buf[..]];
          return;
        }
        if name != [] { PassName(tiles, i, name); }
        i := i + 1;
      }
      assert tiles[..i] == tiles;
      if name != [] {
        HoldsAbsent(AllSlots(tiles), names, name);
      } else {
        NoEmptyName(AllSlots(tiles), names);
      }
    }
  }

  // ---------------------------------------------------------------- runs

  datatype Op = Link(ino: nat, name: seq<byte>, ftype: byte, haveSpace: bool) | Unlink(name: seq<byte>)

  predicate OpOk(op: Op) {
    op.Link? ==> 0 < op.ino < U32 && op.ftype != TAIL && 1 <= |op.name| <= 255
  }

  /** The map after one operation; done says whether a link found room. */
  function Next(m: Names, op: Op, done: bool): Names {
    match op
    case Link(ino, name, ftype, _) => if done && name !in m then m[name := Ent(ino, ftype)] else m
    case Unlink(name) => m - {name}
  }

  function NextAll(m: Names, ops: seq<Op>, done: seq<bool>): Names
    requires |ops| == |done|
    decreases |ops|
  {
    if ops == [] then m
    else
      var n := |ops| - 1;
      Next(NextAll(m, ops[..n], done[..n]), ops[n], done[n])
  }

  lemma NextStep(m: Names, ops: seq<Op>, done: seq<bool>, k: nat, ok: bool)
    requires k < |ops| && |done| == k
    ensures NextAll(m, ops[..k + 1], done + [ok]) == Next(NextAll(m, ops[..k], done), ops[k], ok)
  {
    hide Next;
    assert ops[..k + 1][..k] == ops[..k] && (done + [ok])[..k] == done;
  }

  /** One operation. */
  method Perform(d: Dir, op: Op) returns (ok: bool)
    requires d.Valid() && OpOk(op)
    modifies d
    ensures d.Valid() && d.names == Next(old(d.names), op, ok)
    ensures op.Link? && op.haveSpace ==> ok
  {
    hide BlocksOk, Holds, Extra, Short, NoFit;
    ok := true;
    match op {
      case Link(ino, name, ftype, haveSpace) =>
        var there := d.Lookup(name);
        if there.None? {
          ok := d.Add(ino, name, ftype, haveSpace);
        }
      case Unlink(name) =>
        d.Delete(name);
    }
  }

  /** Any run of links of absent names and unlinks: the listing is the map throughout. */
  method RunOps(d: Dir, ops: seq<Op>) returns (done: seq<bool>, entries: seq<DirEntry>)
    requires d.Valid() && forall k :: 0 <= k < |ops| ==> OpOk(ops[k])
    modifies d
    ensures d.Valid() && |done| == |ops| && d.names == NextAll(old(d.names), ops, done)
    ensures Lists(entries, d.names)
    ensures forall k :: 0 <= k < |ops| && ops[k].Link? && ops[k].haveSpace ==> done[k]
  {
    hide BlocksOk, Holds, Lists, Next, NextAll, OpOk;
    done := [];
    NextNone(d.names);
    assert ops[..0] == [];
    var k := 0;
    while k < |ops|
      invariant 0 <= k <= |ops| && d.Valid() && |done| == k
      invariant d.names == NextAll(old(d.names), ops[..k], done)
      invariant forall i :: 0 <= i < k && ops[i].Link? && ops[i].haveSpace ==> done[i]
    {
      var ok := Perform(d, ops[k]);
      NextStep(old(d.names), ops, done, k, ok);
      done := done + [ok];
      k := k + 1;
    }
    assert ops[..k] == ops;
    entries := d.ReadDir();
  }

  lemma NextNone(m: Names)
    ensures NextAll(m, [], []) == m
  {
  }

  // ---------------------------------------------------------------- names the length byte cannot hold

  /** Adding an absent name of any length that fits a block: exactly one entry joins the
      listing, under the name cut to its length byte, and nothing if that is empty. So the
      name itself is listed exactly if it has 1 to 255 bytes, and an entry that already
      carries the cut name stays and is listed beside the new one. */
  method AddThenList(d: Dir, ino: nat, name: seq<byte>, ftype: byte, haveSpace: bool) returns (before: seq<DirEntry>, ok: bool, entries: seq<DirEntry>)
    requires d.Valid() && 0 < ino < U32 && ftype != TAIL && name !in d.names
    modifies d
    ensures ok ==> (1 <= |name| <= 255 <==> exists e :: e in entries && e.name == name)
    ensures ok && |name| + 20 <= d.bs ==> multiset(entries) == multiset(before) + Extra(ino, Short(name), ftype)
    ensures Lists(before, old(d.names))
  {
    hide BlocksOk, Holds, Lists, Extra, Short, Entries, NoFit;
    before := d.ReadDir();
    ok := d.Add(ino, name, ftype, haveSpace);
    entries := d.ReadDir();
    if ok && 1 <= |name| <= 255 {
      ListsHas(entries, d.names, name);
    }
  }

  lemma ListsHas(entries: seq<DirEntry>, names: Names, name: seq<byte>)
    requires Lists(entries, names) && name in names
    ensures exists e :: e in entries && e.name == name
  {
    var e := DirEntry(names[name].ino, name, names[name].ftype);
    assert e in entries && e.name == name;
  }

  /** A 256-byte name is stored with length 0: the record is live but names nothing. */
  lemma LongNameVanishes(name: seq<byte>, ino: nat)
    requires |name| == 256 && 0 < ino < U32
    ensures RecordAt(Put(Zeros(1024), 0, RecordBytes(ino, 1012, name, 1, 1016)), 0, Slot(ino, 1012, [], 1))
  {
    hide LE, UnLE, RecordAt, RecordBytes, Put;
    WrittenRecord(Zeros(1024), 0, ino, 1012, name, 1);
    ShortOf256(name);
  }

  lemma ShortOf256(name: seq<byte>)
    requires |name| == 256
    ensures Short(name) == []
  {
  }
}
