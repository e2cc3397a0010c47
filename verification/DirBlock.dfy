/** Directory blocks as bytes (dir.go, delete.go): records that tile a buffer, and the
    in-place scans that list, insert and free them. */
module DirBlock {
  import opened Bytes
  import opened DirSlots

  function InoAt(b: seq<byte>, off: nat): nat
    requires off + 8 <= |b|
  {
    UnLE(b[off..off + 4])
  }

  function RecLenAt(b: seq<byte>, off: nat): nat
    requires off + 8 <= |b|
  {
    UnLE(b[off + 4..off + 6])
  }

  /** The bytes at off spell out slot s. */
  ghost predicate RecordAt(b: seq<byte>, off: nat, s: Slot) {
    && off + s.recLen <= |b| && 8 + |s.name| <= s.recLen
    && InoAt(b, off) == s.ino && RecLenAt(b, off) == s.recLen
    && b[off + 6] == |s.name| && b[off + 7] == s.ftype
    && b[off + 8..off + 8 + |s.name|] == s.name
  }

  /** Offset of slot i. */
  function Off(ss: seq<Slot>, i: nat): nat
    requires i <= |ss|
  {
    if i == 0 then 0 else Off(ss, i - 1) + ss[i - 1].recLen
  }

  /** Where the records end: at the end of the block, or at its 12-byte tail, which is
      empty or a checksum record. */
  ghost predicate Terminated(b: seq<byte>, e: nat) {
    || e == |b|
    || (e + 12 == |b| && RecLenAt(b, e) == 0)
    || (e + 12 == |b| && RecLenAt(b, e) == 12 && b[e + 7] == TAIL && InoAt(b, e) == 0)
  }

  /** The slots tile the block. */
  ghost predicate Tiles(b: seq<byte>, ss: seq<Slot>) {
    && AllOk(ss)
    && (forall i :: 0 <= i < |ss| ==> TileAt(b, ss, i))
    && Terminated(b, Off(ss, |ss|))
  }

  ghost predicate TileAt(b: seq<byte>, ss: seq<Slot>, i: nat)
    requires i < |ss|
  {
    RecordAt(b, Off(ss, i), ss[i])
  }

  // ---------------------------------------------------------------- offsets

  lemma {:induction false} OffPrefix(a: seq<Slot>, b: seq<Slot>, i: nat)
    requires i <= |a|
    ensures Off(a + b, i) == Off(a, i)
    decreases i
  {
    if i > 0 {
      OffPrefix(a, b, i - 1);
    }
  }

  lemma {:induction false} OffCat(a: seq<Slot>, b: seq<Slot>, i: nat)
    requires i <= |b|
    ensures Off(a + b, |a| + i) == Off(a, |a|) + Off(b, i)
    decreases i
  {
    if i == 0 {
      OffPrefix(a, b, |a|);
    } else {
      OffCat(a, b, i - 1);
    }
  }

  lemma {:induction false} OffMono(ss: seq<Slot>, i: nat, j: nat)
    requires i < j <= |ss|
    ensures Off(ss, i) + ss[i].recLen <= Off(ss, j)
    decreases j
  {
    if i < j - 1 {
      OffMono(ss, i, j - 1);
    }
  }

  /** A record survives any change outside its own range. */
  lemma RecordFrame(b: seq<byte>, b': seq<byte>, off: nat, s: Slot)
    requires RecordAt(b, off, s) && |b'| == |b| && forall x :: off <= x < off + s.recLen ==> b'[x] == b[x]
    ensures RecordAt(b', off, s)
  {
    assert b'[off..off + 4] == b[off..off + 4];
    assert b'[off + 4..off + 6] == b[off + 4..off + 6];
    assert b'[off + 8..off + 8 + |s.name|] == b[off + 8..off + 8 + |s.name|];
  }

  lemma TermFrame(b: seq<byte>, b': seq<byte>, e: nat)
    requires Terminated(b, e) && |b'| == |b| && forall x :: e <= x < |b| ==> b'[x] == b[x]
    ensures Terminated(b', e)
  {
    if e + 12 == |b| {
      assert b'[e..e + 4] == b[e..e + 4];
      assert b'[e + 4..e + 6] == b[e + 4..e + 6];
    }
  }

  /** Bytes outside [lo, hi) are the same. */
  ghost predicate Within(b: seq<byte>, b': seq<byte>, lo: nat, hi: nat) {
    |b'| == |b| && forall x :: 0 <= x < |b| && !(lo <= x < hi) ==> b'[x] == b[x]
  }

  /** The slots with slot i giving way to f. */
  function Spliced(ss: seq<Slot>, i: nat, f: seq<Slot>): seq<Slot>
    requires i < |ss|
  {
    ss[..i] + f + ss[i + 1..]
  }

  /** Slot i gives way to f, which fills exactly its range. */
  lemma TilesSplice(b: seq<byte>, b': seq<byte>, ss: seq<Slot>, i: nat, f: seq<Slot>)
    requires i < |ss| && Tiles(b, ss) && Within(b, b', Off(ss, i), Off(ss, i) + ss[i].recLen)
    requires Off(f, |f|) == ss[i].recLen && AllOk(f)
    requires forall k :: 0 <= k < |f| ==> RecordAt(b', Off(ss, i) + Off(f, k), f[k])
    ensures Tiles(b', Spliced(ss, i, f))
  {
    hide RecordAt, Terminated, SlotOk, Off, TileAt, Within, Spliced, AllOk;
    var ts := Spliced(ss, i, f);
    SplicedOk(ss, i, f);
    forall k | 0 <= k < |ts| ensures TileAt(b', ts, k) {
      SplicedTile(b, b', ss, i, f, k);
    }
    SplicedEnd(b, b', ss, i, f);
  }

  lemma SplicedTile(b: seq<byte>, b': seq<byte>, ss: seq<Slot>, i: nat, f: seq<Slot>, k: nat)
    requires i < |ss| && (forall j :: 0 <= j < |ss| ==> TileAt(b, ss, j)) && Within(b, b', Off(ss, i), Off(ss, i) + ss[i].recLen)
    requires Off(f, |f|) == ss[i].recLen && k < |Spliced(ss, i, f)|
    requires forall k :: 0 <= k < |f| ==> RecordAt(b', Off(ss, i) + Off(f, k), f[k])
    ensures TileAt(b', Spliced(ss, i, f), k)
  {
    hide RecordAt, Off, Within, Spliced;
    SplicedAt(ss, i, f, k);
    if k < i {
      assert TileAt(b, ss, k);
      TileBefore(b, b', ss, i, f, k);
    } else if k < i + |f| {
      OffInside(ss, i, f, k - i);
    } else {
      assert TileAt(b, ss, k - |f| + 1);
      TileBehind(b, b', ss, i, f, k - |f| + 1);
    }
  }

  lemma SplicedAt(ss: seq<Slot>, i: nat, f: seq<Slot>, k: nat)
    requires i < |ss| && k < |Spliced(ss, i, f)|
    ensures |Spliced(ss, i, f)| == |ss| - 1 + |f|
    ensures i <= k < i + |f| ==> Spliced(ss, i, f)[k] == f[k - i]
  {
  }

  lemma SplicedEnd(b: seq<byte>, b': seq<byte>, ss: seq<Slot>, i: nat, f: seq<Slot>)
    requires i < |ss| && Terminated(b, Off(ss, |ss|)) && Within(b, b', Off(ss, i), Off(ss, i) + ss[i].recLen) && Off(f, |f|) == ss[i].recLen
    ensures Terminated(b', Off(Spliced(ss, i, f), |Spliced(ss, i, f)|))
  {
    hide Terminated, Off;
    OffBehind(ss, i, f, |ss|);
    OffMono(ss, i, |ss|);
    TermFrame(b, b', Off(ss, |ss|));
  }

  lemma SplicedOk(ss: seq<Slot>, i: nat, f: seq<Slot>)
    requires i < |ss| && AllOk(ss) && AllOk(f)
    ensures AllOk(Spliced(ss, i, f))
  {
    hide SlotOk;
    var ts := Spliced(ss, i, f);
    forall k | 0 <= k < |ts| ensures SlotOk(ts[k]) {
      if k < i { assert ts[k] == ss[k]; } else if k >= i + |f| { assert ts[k] == ss[k - |f| + 1]; } else { assert ts[k] == f[k - i]; }
    }
  }

  lemma TileBefore(b: seq<byte>, b': seq<byte>, ss: seq<Slot>, i: nat, f: seq<Slot>, k: nat)
    requires k < i < |ss| && TileAt(b, ss, k) && Within(b, b', Off(ss, i), Off(ss, i) + ss[i].recLen)
    ensures TileAt(b', Spliced(ss, i, f), k)
  {
    hide RecordAt, Off;
    RecordInside(b, Off(ss, k), ss[k]);
    OffMono(ss, k, i);
    RecordFrame(b, b', Off(ss, k), ss[k]);
    OffFront(ss, i, f, k);
    assert Spliced(ss, i, f)[k] == ss[k];
  }

  lemma TileBehind(b: seq<byte>, b': seq<byte>, ss: seq<Slot>, i: nat, f: seq<Slot>, k: nat)
    requires i < k < |ss| && TileAt(b, ss, k) && Within(b, b', Off(ss, i), Off(ss, i) + ss[i].recLen) && Off(f, |f|) == ss[i].recLen
    ensures TileAt(b', Spliced(ss, i, f), k - 1 + |f|)
  {
    hide RecordAt, Off;
    RecordInside(b, Off(ss, k), ss[k]);
    OffMono(ss, i, k);
    RecordFrame(b, b', Off(ss, k), ss[k]);
    OffBehind(ss, i, f, k);
    assert Spliced(ss, i, f)[k - 1 + |f|] == ss[k];
  }

  lemma RecordInside(b: seq<byte>, o: nat, s: Slot)
    requires RecordAt(b, o, s)
    ensures o + s.recLen <= |b| && 8 + |s.name| <= s.recLen < U16
  {
    Pow256Values();
  }

  lemma TileIs(b: seq<byte>, ss: seq<Slot>, i: nat)
    requires Tiles(b, ss) && i < |ss|
    ensures RecordAt(b, Off(ss, i), ss[i]) && SlotOk(ss[i])
    ensures Off(ss, i) + ss[i].recLen <= |b| && 8 + |ss[i].name| <= ss[i].recLen < U16
  {
    hide RecordAt, Off, SlotOk;
    assert TileAt(b, ss, i);
    RecordInside(b, Off(ss, i), ss[i]);
  }

  lemma OffFront(ss: seq<Slot>, i: nat, f: seq<Slot>, k: nat)
    requires k <= i < |ss|
    ensures Off(Spliced(ss, i, f), k) == Off(ss, k)
  {
    hide Off;
    var a := ss[..i];
    assert Spliced(ss, i, f) == a + (f + ss[i + 1..]);
    assert ss == a + ss[i..];
    OffPrefix(a, f + ss[i + 1..], k);
    OffPrefix(a, ss[i..], k);
  }

  lemma OffInside(ss: seq<Slot>, i: nat, f: seq<Slot>, k: nat)
    requires i < |ss| && k <= |f|
    ensures Off(Spliced(ss, i, f), i + k) == Off(ss, i) + Off(f, k)
  {
    hide Off;
    var a, c := ss[..i], ss[i + 1..];
    assert Spliced(ss, i, f) == a + (f + c);
    assert ss == a + ss[i..];
    OffPrefix(a, ss[i..], i);
    OffCat(a, f + c, k);
    OffPrefix(f, c, k);
  }

  lemma OffBehind(ss: seq<Slot>, i: nat, f: seq<Slot>, k: nat)
    requires i < k <= |ss| && Off(f, |f|) == ss[i].recLen
    ensures Off(Spliced(ss, i, f), k - 1 + |f|) == Off(ss, k)
  {
    hide Off;
    OneOff(ss[i]);
    var a, s, c := ss[..i], ss[i], ss[i + 1..];
    assert Spliced(ss, i, f) == (a + f) + c;
    assert ss == (a + [s]) + c;
    OffCat(a + f, c, k - 1 - i);
    OffCat(a + [s], c, k - 1 - i);
    OffCat(a, f, |f|);
    OffCat(a, [s], 1);
  }

  lemma OffStart(ss: seq<Slot>)
    ensures Off(ss, 0) == 0
  {
  }

  lemma OffNext(ss: seq<Slot>, k: nat)
    requires k < |ss|
    ensures Off(ss, k + 1) == Off(ss, k) + ss[k].recLen
  {
  }

  lemma OneOff(s: Slot)
    ensures Off([s], 0) == 0 && Off([s], 1) == s.recLen
  {
    assert Off([s], 0) == 0;
  }

  lemma TwoOff(s: Slot, t: Slot)
    ensures Off([s, t], 0) == 0 && Off([s, t], 1) == s.recLen && Off([s, t], 2) == s.recLen + t.recLen
  {
    assert Off([s, t], 0) == 0;
  }

  // ---------------------------------------------------------------- listing

  /** `parseDirBlock`: safe on any bytes, whose entries all have a name of 1 to 255
      bytes; on tiled ones, the live entries. */
  method ParseDirBlock(buf: array<byte>, ghost ss: seq<Slot>) returns (entries: seq<DirEntry>)
    ensures Tiles(buf[..], ss) ==> entries == Entries(ss)
    ensures forall e :: e in entries ==> 1 <= |e.name| <= 255 && e.ino != 0 && e.ftype != TAIL
  {
    hide Tiles, RecordAt, Terminated, UnLE, MinSize;
    ghost var b, good, k: nat := buf[..], Tiles(buf[..], ss), 0;
    entries := [];
    var off := 0;
    if good { assert ss[..0] == []; }
    while off + 8 <= buf.Length
      invariant 0 <= off
      invariant good ==> k <= |ss| && (off == Off(ss, k) || (k == |ss| && off == |b|)) && entries == Entries(ss[..k])
      invariant forall e :: e in entries ==> 1 <= |e.name| <= 255 && e.ino != 0 && e.ftype != TAIL
      decreases buf.Length - off
    {
      var ino, recLen, nameLen, fileType := UnLE(buf[off..off + 4]), UnLE(buf[off + 4..off + 6]), buf[off + 6], buf[off + 7];
      if good { ScanStep(b, ss, k); }
      if recLen < 8 || off + recLen > buf.Length {
        break;
      }
      if ino != 0 && fileType != TAIL && nameLen > 0 && nameLen <= recLen - 8 && off + 8 + nameLen <= buf.Length {
        entries := entries + [DirEntry(ino, buf[off + 8..off + 8 + nameLen], fileType)];
      }
      if good && k < |ss| {
        assert ss[..k + 1][..k] == ss[..k];
        k := k + 1;
      }
      off := off + recLen;
    }
    if good { ScanEnd(b, ss, k); }
  }

  /** What a scan sees at slot k, or at the end of the slots. */
  lemma ScanStep(b: seq<byte>, ss: seq<Slot>, k: nat)
    requires Tiles(b, ss) && k <= |ss| && Off(ss, k) + 8 <= |b|
    ensures var o := Off(ss, k);
            if k < |ss| then
              && o + ss[k].recLen <= |b| && 8 + |ss[k].name| <= ss[k].recLen && SlotOk(ss[k])
              && UnLE(b[o..o + 4]) == ss[k].ino && UnLE(b[o + 4..o + 6]) == ss[k].recLen
              && b[o + 6] == |ss[k].name| && b[o + 7] == ss[k].ftype && b[o + 8..o + 8 + |ss[k].name|] == ss[k].name
            else
              && o + 12 == |b|
              && (UnLE(b[o + 4..o + 6]) == 0 || (UnLE(b[o + 4..o + 6]) == 12 && b[o + 7] == TAIL && UnLE(b[o..o + 4]) == 0))
  {
    if k < |ss| {
      assert TileAt(b, ss, k);
    }
  }

  /** A scan that runs off the block has seen every slot. */
  lemma ScanEnd(b: seq<byte>, ss: seq<Slot>, k: nat)
    requires Tiles(b, ss) && k <= |ss| && (k == |ss| || Off(ss, k) + 8 > |b|)
    ensures k == |ss| && ss[..k] == ss
  {
    hide Tiles, RecordAt, Off;
    SlotFits(b, ss, k);
  }

  lemma SlotFits(b: seq<byte>, ss: seq<Slot>, k: nat)
    requires Tiles(b, ss) && k <= |ss|
    ensures k < |ss| ==> Off(ss, k) + 8 <= |b|
  {
    hide Tiles, RecordAt, Off;
    if k < |ss| {
      TileIs(b, ss, k);
    }
  }

  // ---------------------------------------------------------------- writing a record

  /** The name as the one-byte length field lets it be read back. */
  function Short(name: seq<byte>): (r: seq<byte>)
    ensures |name| <= 255 ==> r == name
    ensures |r| <= 255 && |r| <= |name|
  {
    name[..|name| % 256]
  }

  method Store(buf: array<byte>, off: nat, s: seq<byte>)
    requires off + |s| <= buf.Length
    modifies buf
    ensures buf[..] == Put(old(buf[..]), off, s)
  {
    forall j | off <= j < off + |s| { buf[j] := s[j - off]; }
  }

  /** The bytes of a record: header, then as much of the name as the buffer holds. */
  function RecordBytes(ino: nat, recLen: nat, name: seq<byte>, ftype: byte, room: nat): (r: seq<byte>)
    ensures |r| == 8 + Min(|name|, room)
  {
    LE(ino, 4) + LE(recLen, 2) + [|name| % 256, ftype] + name[..Min(|name|, room)]
  }

  /** `writeDirEntry`. */
  method WriteDirEntry(buf: array<byte>, off: nat, ino: nat, recLen: nat, name: seq<byte>, ftype: byte)
    requires off + 8 <= buf.Length
    modifies buf
    ensures buf[..] == Put(old(buf[..]), off, RecordBytes(ino, recLen, name, ftype, buf.Length - off - 8))
  {
    hide LE, Put;
    ghost var b := buf[..];
    ghost var n := Min(|name|, buf.Length - off - 8);
    Store(buf, off, LE(ino, 4));
    Store(buf, off + 4, LE(recLen, 2));
    Store(buf, off + 6, [|name| % 256, ftype]);
    Store(buf, off + 8, name[..Min(|name|, buf.Length - off - 8)]);
    PutPut(b, off, LE(ino, 4), LE(recLen, 2));
    PutPut(b, off, LE(ino, 4) + LE(recLen, 2), [|name| % 256, ftype]);
    PutPut(b, off, LE(ino, 4) + LE(recLen, 2) + [|name| % 256, ftype], name[..n]);
  }

  /** A written record that fits its range reads back as a slot. */
  lemma WrittenRecord(b: seq<byte>, off: nat, ino: nat, recLen: nat, name: seq<byte>, ftype: byte)
    requires off + recLen <= |b| && 8 + |name| <= recLen < U16 && ino < U32
    ensures RecordAt(Put(b, off, RecordBytes(ino, recLen, name, ftype, |b| - off - 8)), off, Slot(ino, recLen, Short(name), ftype))
  {
    hide LE, UnLE;
    var r := RecordBytes(ino, recLen, name, ftype, |b| - off - 8);
    var c := Put(b, off, r);
    assert c[off..off + 4] == r[..4] == LE(ino, 4);
    assert c[off + 4..off + 6] == r[4..6] == LE(recLen, 2);
    assert c[off + 6] == r[6] && c[off + 7] == r[7];
    assert c[off + 8..off + 8 + |Short(name)|] == r[8..8 + |Short(name)|] == Short(name);
    Field32(ino);
    Field16(recLen);
  }

  /** Shortening a record in place. */
  lemma ShortenedRecord(b: seq<byte>, off: nat, s: Slot, recLen: nat)
    requires RecordAt(b, off, s) && 8 + |s.name| <= recLen <= s.recLen && recLen < U16 && off + 8 <= |b|
    ensures RecordAt(Put(b, off + 4, LE(recLen, 2)), off, s.(recLen := recLen))
  {
    hide LE, UnLE;
    var c := Put(b, off + 4, LE(recLen, 2));
    assert c[off..off + 4] == b[off..off + 4];
    assert c[off + 4..off + 6] == LE(recLen, 2);
    assert c[off + 8..off + 8 + |s.name|] == b[off + 8..off + 8 + |s.name|];
    Field16(recLen);
  }

  // ---------------------------------------------------------------- insertion

  /** The block after inserting into slot i. */
  ghost function Grown(ss: seq<Slot>, i: nat, ino: nat, name: seq<byte>, ftype: nat): seq<Slot>
    requires i < |ss| && Fits(ss[i], MinSize(|name|))
  {
    Inserted(ss, i, ino, Short(name), ftype)
  }

  lemma ReuseSlot(b: seq<byte>, ss: seq<Slot>, i: nat, ino: nat, name: seq<byte>, ftype: byte)
    requires Tiles(b, ss) && i < |ss| && !Live(ss[i]) && Fits(ss[i], MinSize(|name|)) && 0 < ino < U32 && ftype != TAIL
    ensures Off(ss, i) + 8 <= |b|
    ensures Tiles(Put(b, Off(ss, i), RecordBytes(ino, ss[i].recLen, name, ftype, |b| - Off(ss, i) - 8)), Grown(ss, i, ino, name, ftype))
  {
    hide Off, MinSize, RecordBytes, Short, Tiles, Grown, RecordAt, Put;
    TileIs(b, ss, i);
    var o, s := Off(ss, i), ss[i];
    WrittenRecord(b, o, ino, s.recLen, name, ftype);
    var b' := Put(b, o, RecordBytes(ino, s.recLen, name, ftype, |b| - o - 8));
    MinSizeMono(|Short(name)|, |name|);
    OneTile(b, b', ss, i, Slot(ino, s.recLen, Short(name), ftype));
    GrownReuse(ss, i, ino, name, ftype);
  }

  lemma GrownReuse(ss: seq<Slot>, i: nat, ino: nat, name: seq<byte>, ftype: nat)
    requires i < |ss| && Fits(ss[i], MinSize(|name|)) && !Live(ss[i])
    ensures Grown(ss, i, ino, name, ftype) == Spliced(ss, i, [Slot(ino, ss[i].recLen, Short(name), ftype)])
  {
  }

  lemma GrownSplit(ss: seq<Slot>, i: nat, ino: nat, name: seq<byte>, ftype: nat)
    requires i < |ss| && Fits(ss[i], MinSize(|name|)) && Live(ss[i])
    ensures Grown(ss, i, ino, name, ftype)
         == Spliced(ss, i, [ss[i].(recLen := MinSize(|ss[i].name|)), Slot(ino, ss[i].recLen - MinSize(|ss[i].name|), Short(name), ftype)])
  {
  }

  lemma MinSizeMono(a: nat, b: nat)
    requires a <= b
    ensures MinSize(a) <= MinSize(b)
  {
  }

  /** One slot replaced by another over the same range. */
  lemma OneTile(b: seq<byte>, b': seq<byte>, ss: seq<Slot>, i: nat, f: Slot)
    requires i < |ss| && Tiles(b, ss) && Within(b, b', Off(ss, i), Off(ss, i) + ss[i].recLen)
    requires f.recLen == ss[i].recLen && SlotOk(f) && RecordAt(b', Off(ss, i), f)
    ensures Tiles(b', Spliced(ss, i, [f]))
  {
    hide RecordAt, Off, Tiles, SlotOk;
    OneOff(f);
    forall k | 0 <= k < 1 ensures RecordAt(b', Off(ss, i) + Off([f], k), [f][k]) {
      assert k == 0;
    }
    TilesSplice(b, b', ss, i, [f]);
  }

  /** One slot replaced by two over the same range. */
  lemma TwoTiles(b: seq<byte>, b': seq<byte>, ss: seq<Slot>, i: nat, h: Slot, t: Slot)
    requires i < |ss| && Tiles(b, ss) && Within(b, b', Off(ss, i), Off(ss, i) + ss[i].recLen)
    requires h.recLen + t.recLen == ss[i].recLen && SlotOk(h) && SlotOk(t)
    requires RecordAt(b', Off(ss, i), h) && RecordAt(b', Off(ss, i) + h.recLen, t)
    ensures Tiles(b', Spliced(ss, i, [h, t]))
  {
    hide RecordAt, Off, Tiles, SlotOk;
    TwoOff(h, t);
    forall k | 0 <= k < 2 ensures RecordAt(b', Off(ss, i) + Off([h, t], k), [h, t][k]) {
      assert k == 0 || k == 1;
    }
    TilesSplice(b, b', ss, i, [h, t]);
  }

  lemma SplitSlot(b: seq<byte>, ss: seq<Slot>, i: nat, ino: nat, name: seq<byte>, ftype: byte)
    requires Tiles(b, ss) && i < |ss| && Live(ss[i]) && Fits(ss[i], MinSize(|name|)) && 0 < ino < U32 && ftype != TAIL
    ensures var o, m := Off(ss, i), MinSize(|ss[i].name|);
            o + 8 <= |b| && o + m + 8 + |name| <= o + ss[i].recLen <= |b|
    ensures var o, m := Off(ss, i), MinSize(|ss[i].name|);
            Tiles(Put(Put(b, o + 4, LE(m, 2)), o + m, RecordBytes(ino, ss[i].recLen - m, name, ftype, |b| - (o + m) - 8)), Grown(ss, i, ino, name, ftype))
  {
    hide LE, UnLE, Off, MinSize, RecordBytes, Short, Tiles, Grown, RecordAt, Put;
    TileIs(b, ss, i);
    var o, s := Off(ss, i), ss[i];
    var m := MinSize(|s.name|);
    ShortenedRecord(b, o, s, m);
    var b1 := Put(b, o + 4, LE(m, 2));
    WrittenRecord(b1, o + m, ino, s.recLen - m, name, ftype);
    var b2 := Put(b1, o + m, RecordBytes(ino, s.recLen - m, name, ftype, |b| - (o + m) - 8));
    var h, new' := s.(recLen := m), Slot(ino, s.recLen - m, Short(name), ftype);
    RecordFrame(b1, b2, o, h);
    MinSizeMono(|Short(name)|, |name|);
    TwoTiles(b, b2, ss, i, h, new');
    GrownSplit(ss, i, ino, name, ftype);
  }

  /** `tryInsertDirEntry`: first fit, reusing a freed record or splitting off slack. */
  method TryInsertDirEntry(buf: array<byte>, ino: nat, name: seq<byte>, ftype: byte, needed: nat, ghost ss: seq<Slot>) returns (ok: bool)
    requires needed == MinSize(|name|) && 0 < ino < U32 && ftype != TAIL
    modifies buf
    ensures Tiles(old(buf[..]), ss) ==> (ok <==> FirstFit(ss, needed) < |ss|)
    ensures ok && Tiles(old(buf[..]), ss) ==> Tiles(buf[..], Grown(ss, FirstFit(ss, needed), ino, name, ftype))
    ensures !ok ==> buf[..] == old(buf[..])
  {
    hide Tiles, RecordAt, Terminated, UnLE, LE, RecordBytes, Grown, Off, MinSize, Short, Put, FirstFit;
    ghost var b, good, k: nat := buf[..], Tiles(buf[..], ss), 0;
    var off := 0;
    OffStart(ss);
    while off + 8 <= buf.Length
      invariant 0 <= off && buf[..] == b
      invariant good ==> k <= |ss| && off == Off(ss, k) && forall j :: 0 <= j < k ==> !Fits(ss[j], needed)
      decreases buf.Length - off
    {
      var was, recLen := UnLE(buf[off..off + 4]), UnLE(buf[off + 4..off + 6]);
      if good { ScanStep(b, ss, k); }
      if recLen < 8 || off + recLen > buf.Length {
        break;
      }
      if buf[off + 7] == TAIL {
        break;
      }
      if was == 0 {
        if recLen >= needed {
          if good {
            FirstFitIs(ss, needed, k);
            ReuseSlot(b, ss, k, ino, name, ftype);
          }
          WriteDirEntry(buf, off, ino, recLen, name, ftype);
          return true;
        }
        if good { OffNext(ss, k); k := k + 1; }
        off := off + recLen;
        continue;
      }
      var minLen := MinSize(buf[off + 6]);
      if minLen > recLen {
        break;
      }
      var slack := recLen - minLen;
      if slack >= needed {
        var newOff := off + minLen;
        if newOff + 8 > buf.Length || newOff + slack > buf.Length || newOff + 8 + |name| > buf.Length {
          return false;
        }
        if good {
          FirstFitIs(ss, needed, k);
          SplitSlot(b, ss, k, ino, name, ftype);
        }
        Store(buf, off + 4, LE(minLen, 2));
        WriteDirEntry(buf, newOff, ino, slack, name, ftype);
        return true;
      }
      if good { OffNext(ss, k); k := k + 1; }
      off := off + recLen;
    }
    if good { FitEnd(b, ss, k, needed); }
    return false;
  }

  lemma FirstFitIs(ss: seq<Slot>, needed: nat, k: nat)
    requires k < |ss| && Fits(ss[k], needed) && forall j :: 0 <= j < k ==> !Fits(ss[j], needed)
    ensures FirstFit(ss, needed) == k
  {
  }

  /** A scan that has passed every slot without a fit has none. */
  lemma FitEnd(b: seq<byte>, ss: seq<Slot>, k: nat, needed: nat)
    requires Tiles(b, ss) && k <= |ss| && (k == |ss| || Off(ss, k) + 8 > |b|)
    requires forall j :: 0 <= j < k ==> !Fits(ss[j], needed)
    ensures FirstFit(ss, needed) == |ss|
  {
    ScanEnd(b, ss, k);
  }

  // ---------------------------------------------------------------- deletion

  lemma ZeroedRecord(b: seq<byte>, o: nat, s: Slot)
    requires RecordAt(b, o, s)
    ensures RecordAt(Put(b, o, LE(0, 4)), o, s.(ino := 0))
  {
    hide LE, UnLE;
    var b' := Put(b, o, LE(0, 4));
    assert b'[o..o + 4] == LE(0, 4);
    Field32(0);
    assert b'[o + 4..o + 6] == b[o + 4..o + 6];
    assert b'[o + 8..o + 8 + |s.name|] == b[o + 8..o + 8 + |s.name|];
  }

  lemma ZeroedSlot(b: seq<byte>, ss: seq<Slot>, i: nat)
    requires Tiles(b, ss) && i < |ss|
    ensures Off(ss, i) + 4 <= |b|
    ensures Tiles(Put(b, Off(ss, i), LE(0, 4)), ss[i := ss[i].(ino := 0)])
  {
    hide LE, UnLE, Off, MinSize, Tiles, RecordAt, Put;
    TileIs(b, ss, i);
    var o, s := Off(ss, i), ss[i];
    ZeroedRecord(b, o, s);
    OneTile(b, Put(b, o, LE(0, 4)), ss, i, s.(ino := 0));
    assert Spliced(ss, i, [s.(ino := 0)]) == ss[i := s.(ino := 0)];
  }

  /** A record at off whose name field spells the name. */
  predicate Spelled(b: seq<byte>, off: nat, name: seq<byte>) {
    off + 8 + |name| <= |b| && b[off + 6] == |name| && b[off + 8..off + 8 + |name|] == name
  }

  /** `zeroEntryInBlock`: clears the inode of the first record with this name. A name
      field that reaches past the block makes the source panic; in a tiled block none does. */
  method ZeroEntryInBlock(buf: array<byte>, name: seq<byte>, ghost ss: seq<Slot>) returns (ok: bool, panicked: bool)
    modifies buf
    ensures Tiles(old(buf[..]), ss) ==> !panicked && (ok <==> name != [] && FirstNamed(ss, name) < |ss|)
    ensures Tiles(old(buf[..]), ss) && name != [] ==> Tiles(buf[..], Deleted(ss, name))
    ensures ok ==> !panicked && exists off: nat :: Spelled(old(buf[..]), off, name) && buf[..] == Put(old(buf[..]), off, LE(0, 4))
    ensures !ok ==> buf[..] == old(buf[..])
  {
    hide Tiles, RecordAt, Terminated, UnLE, LE, Off, MinSize;
    ghost var b, good, k: nat := buf[..], Tiles(buf[..], ss), 0;
    var off := 0;
    OffStart(ss);
    while off + 8 <= buf.Length
      invariant 0 <= off && buf[..] == b
      invariant good ==> k <= |ss| && off == Off(ss, k) && (name != [] ==> forall j :: 0 <= j < k ==> ss[j].name != name)
      decreases buf.Length - off
    {
      if good { ScanStep(b, ss, k); }
      var recLen := UnLE(buf[off + 4..off + 6]);
      if recLen < 8 {
        break;
      }
      if buf[off + 7] == TAIL {
        break;
      }
      var nameLen := buf[off + 6];
      if nameLen > 0 {
        if off + 8 + nameLen > buf.Length {
          return false, true;
        }
        if buf[off + 8..off + 8 + nameLen] == name {
          if good {
            FirstNamedIs(ss, name, k);
            ZeroedSlot(b, ss, k);
          }
          assert Spelled(b, off, name);
          Store(buf, off, LE(0, 4));
          return true, false;
        }
      }
      if good {
        OffNext(ss, k);
        k := k + 1;
      }
      off := off + recLen;
    }
    if good {
      ScanEnd(b, ss, k);
      if name != [] { FirstNamedIs(ss, name, k); }
    }
    return false, false;
  }

  lemma FirstNamedIs(ss: seq<Slot>, name: seq<byte>, k: nat)
    requires k <= |ss| && (forall j :: 0 <= j < k ==> ss[j].name != name) && (k < |ss| ==> ss[k].name == name)
    ensures FirstNamed(ss, name) == k
  {
    var i := FirstNamed(ss, name);
    assert NoName(ss[..i], name);
    assert forall j :: 0 <= j < i ==> ss[..i][j] == ss[j];
  }

  // ---------------------------------------------------------------- the checksum tail

  /** `updateDirBlockCsum` with checksums on: rewrites the 12-byte tail record. */
  method UpdateTail(buf: array<byte>, crc: seq<byte> -> nat, ghost ss: seq<Slot>)
    requires buf.Length >= 12
    modifies buf
    ensures Within(old(buf[..]), buf[..], buf.Length - 12, buf.Length)
    ensures buf[buf.Length - 12..buf.Length - 4] == LE(0, 4) + LE(12, 2) + [0, TAIL]
    ensures buf[buf.Length - 4..] == LE(crc(buf[..buf.Length - 4]), 4)
    ensures Tiles(old(buf[..]), ss) && Off(ss, |ss|) + 12 == buf.Length ==> Tiles(buf[..], ss)
  {
    hide LE, UnLE, Put, Within, Tiles, Off;
    var e := buf.Length - 12;
    ghost var b := buf[..];
    var head := LE(0, 4) + LE(12, 2) + [0, TAIL];
    Store(buf, e, head + LE(0, 4));
    var sum := LE(crc(buf[..e + 8]), 4);
    TailBytes(b, head, LE(0, 4), sum);
    Store(buf, e + 8, sum);
    if Tiles(b, ss) && Off(ss, |ss|) == e {
      TailTiles(b, buf[..], ss);
    }
  }

  lemma TailBytes(b: seq<byte>, head: seq<byte>, none: seq<byte>, sum: seq<byte>)
    requires |b| >= 12 && |head| == 8 && |none| == 4 && |sum| == 4
    ensures var b1 := Put(b, |b| - 12, head + none);
            var r := Put(b1, |b| - 4, sum);
            && Within(b, r, |b| - 12, |b|) && r[|b| - 12..|b| - 4] == head && r[|b| - 4..] == sum && r[..|b| - 4] == b1[..|b| - 4]
  {
    var b1 := Put(b, |b| - 12, head + none);
    assert Put(b1, |b| - 4, sum) == b[..|b| - 12] + head + sum;
  }

  lemma TailTiles(b: seq<byte>, b': seq<byte>, ss: seq<Slot>)
    requires Tiles(b, ss) && Off(ss, |ss|) + 12 == |b| && Within(b, b', |b| - 12, |b|)
    requires b'[|b| - 12..|b| - 4] == LE(0, 4) + LE(12, 2) + [0, TAIL]
    ensures Tiles(b', ss)
  {
    hide RecordAt, Terminated, Off, UnLE, LE, AllOk;
    TailRecord(b', |b| - 12);
    forall i | 0 <= i < |ss| ensures TileAt(b', ss, i) {
      assert TileAt(b, ss, i);
      OffMono(ss, i, |ss|);
      RecordInside(b, Off(ss, i), ss[i]);
      RecordFrame(b, b', Off(ss, i), ss[i]);
    }
  }

  lemma SubSeq(b: seq<byte>, e: nat, n: nat, i: nat, j: nat)
    requires e + n <= |b| && i <= j <= n
    ensures b[e + i..e + j] == b[e..e + n][i..j]
  {
    var s, t := b[e + i..e + j], b[e..e + n];
    forall k | 0 <= k < j - i ensures s[k] == t[i..j][k] {
      assert t[i..j][k] == t[i + k] == b[e + (i + k)];
    }
  }

  lemma TailRecord(b: seq<byte>, e: nat)
    requires e + 12 == |b| && b[e..e + 8] == LE(0, 4) + LE(12, 2) + [0, TAIL]
    ensures Terminated(b, e)
  {
    hide LE, UnLE;
    var l := LE(0, 4) + LE(12, 2) + [0, TAIL];
    SubSeq(b, e, 8, 0, 4);
    SubSeq(b, e, 8, 4, 6);
    assert l[0..4] == LE(0, 4) && l[4..6] == LE(12, 2) && l[7] == TAIL;
    assert b[e + 7] == b[e..e + 8][7];
    Field32(0);
    Field16(12);
  }
}
