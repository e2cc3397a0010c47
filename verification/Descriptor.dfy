/** Block group descriptors (bgd.go): the free and used counters, split into low and
    high halves when the descriptor is wide. */
module Descriptor {
  import opened Bytes

  /** The counters a descriptor holds. */
  datatype Counts = Counts(blocks: nat, inodes: nat, dirs: nat)

  predicate DescOk(raw: seq<byte>, wide: bool) {
    |raw| >= 32 && (wide ==> |raw| >= 64)
  }

  /** A counter at its low offset, joined with its high half when wide. */
  function Counter(raw: seq<byte>, wide: bool, lo: nat, hi: nat): nat
    requires lo + 2 <= |raw| && (wide ==> hi + 2 <= |raw|)
  {
    UnLE(raw[lo..lo + 2]) + if wide then UnLE(raw[hi..hi + 2]) * U16 else 0
  }

  /** `decodeBGD`. */
  function Decode(raw: seq<byte>, wide: bool): Counts
    requires DescOk(raw, wide)
  {
    Counts(Counter(raw, wide, 12, 44), Counter(raw, wide, 14, 46), Counter(raw, wide, 16, 48))
  }

  /** The largest count a field can hold. */
  function FieldMax(wide: bool): nat {
    if wide then U32 - 1 else U16 - 1
  }

  predicate Fit(c: Counts, wide: bool) {
    c.blocks <= FieldMax(wide) && c.inodes <= FieldMax(wide) && c.dirs <= FieldMax(wide)
  }

  method Store16(buf: array<byte>, off: nat, v: nat)
    requires off + 2 <= buf.Length
    modifies buf
    ensures buf[..] == Put(old(buf[..]), off, LE(v, 2))
  {
    var s := LE(v, 2);
    buf[off], buf[off + 1] := s[0], s[1];
  }

  /** The bytes `encode` leaves behind. */
  function Encoded(raw: seq<byte>, wide: bool, c: Counts): (r: seq<byte>)
    requires DescOk(raw, wide)
    ensures |r| == |raw|
  {
    if wide then
      Put(Put(Put(Put(Put(Put(raw, 12, LE(c.blocks % U16, 2)), 44, LE(c.blocks / U16, 2)), 14, LE(c.inodes % U16, 2)), 46, LE(c.inodes / U16, 2)), 16, LE(c.dirs % U16, 2)), 48, LE(c.dirs / U16, 2))
    else
      Put(Put(Put(raw, 12, LE(c.blocks, 2)), 14, LE(c.inodes, 2)), 16, LE(c.dirs, 2))
  }

  /** `encode`: writes the counters into the raw bytes in place. */
  method Encode(raw: array<byte>, wide: bool, c: Counts)
    requires DescOk(raw[..], wide)
    modifies raw
    ensures raw[..] == Encoded(old(raw[..]), wide, c)
  {
    hide LE, Put;
    if wide {
      Store16(raw, 12, c.blocks % U16);
      Store16(raw, 44, c.blocks / U16);
      Store16(raw, 14, c.inodes % U16);
      Store16(raw, 46, c.inodes / U16);
      Store16(raw, 16, c.dirs % U16);
      Store16(raw, 48, c.dirs / U16);
    } else {
      Store16(raw, 12, c.blocks);
      Store16(raw, 14, c.inodes);
      Store16(raw, 16, c.dirs);
    }
  }

  lemma HalfRoundTrip(raw: seq<byte>, off: nat, v: nat)
    requires off + 2 <= |raw| && v < U16 && raw[off..off + 2] == LE(v, 2)
    ensures UnLE(raw[off..off + 2]) == v
  {
    hide LE, UnLE;
    Field16(v);
  }

  lemma Halves(v: nat)
    requires v < U32
    ensures v % U16 < U16 && 0 <= v / U16 < U16 && v % U16 + v / U16 * U16 == v
  {
  }

  /** Counters that fit read back, and nothing else in the descriptor changes. */
  lemma EncodeRoundTrip(raw: seq<byte>, wide: bool, c: Counts)
    requires DescOk(raw, wide) && Fit(c, wide)
    ensures Decode(Encoded(raw, wide, c), wide) == c
    ensures forall i :: 0 <= i < |raw| && !(12 <= i < 18) && !(wide && 44 <= i < 50) ==> Encoded(raw, wide, c)[i] == raw[i]
  {
    hide LE, UnLE;
    var r := Encoded(raw, wide, c);
    if wide {
      Halves(c.blocks);
      Halves(c.inodes);
      Halves(c.dirs);
      assert r[12..14] == LE(c.blocks % U16, 2) && r[44..46] == LE(c.blocks / U16, 2);
      assert r[14..16] == LE(c.inodes % U16, 2) && r[46..48] == LE(c.inodes / U16, 2);
      assert r[16..18] == LE(c.dirs % U16, 2) && r[48..50] == LE(c.dirs / U16, 2);
      HalfRoundTrip(r, 12, c.blocks % U16);
      HalfRoundTrip(r, 44, c.blocks / U16);
      HalfRoundTrip(r, 14, c.inodes % U16);
      HalfRoundTrip(r, 46, c.inodes / U16);
      HalfRoundTrip(r, 16, c.dirs % U16);
      HalfRoundTrip(r, 48, c.dirs / U16);
    } else {
      assert r[12..14] == LE(c.blocks, 2) && r[14..16] == LE(c.inodes, 2) && r[16..18] == LE(c.dirs, 2);
      HalfRoundTrip(r, 12, c.blocks);
      HalfRoundTrip(r, 14, c.inodes);
      HalfRoundTrip(r, 16, c.dirs);
    }
  }

  /** A descriptor that differs at most in its two free counts. */
  ghost predicate OnlyFree(raw: seq<byte>, r: seq<byte>, wide: bool) {
    && DescOk(raw, wide) && |r| == |raw| && Decode(r, wide).dirs == Decode(raw, wide).dirs
    && forall i :: 0 <= i < |raw| && !(12 <= i < 18) && !(wide && 44 <= i < 50) ==> r[i] == raw[i]
  }

  lemma EncodeOnlyFree(raw: seq<byte>, wide: bool, c: Counts)
    requires DescOk(raw, wide) && Fit(c, wide) && c.dirs == Decode(raw, wide).dirs
    ensures OnlyFree(raw, Encoded(raw, wide, c), wide)
  {
    hide Encoded, Decode, Fit;
    EncodeRoundTrip(raw, wide, c);
  }
}
