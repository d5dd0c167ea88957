/** The 32-byte on-disk inode, and its place among the 32 of a block. */
module InodeCodec {
  import opened Bytes

  const PER_BLOCK: nat := 32
  const SIZE: nat := 32

  datatype DInode = DInode(mode: nat, uid: nat, size: nat, time: nat, gid: nat, nlinks: nat, zones: seq<nat>) {
    /** Every field fits its width. */
    ghost predicate Fits() {
      && mode < 0x1_0000 && uid < 0x1_0000 && size < 0x1_0000_0000 && time < 0x1_0000_0000
      && gid < 0x100 && nlinks < 0x100 && |zones| == 9 && forall i | 0 <= i < 9 :: zones[i] < 0x1_0000
    }
  }

  function Blank(): DInode { DInode(0, 0, 0, 0, 0, 0, [0, 0, 0, 0, 0, 0, 0, 0, 0]) }

  function Short(v: nat): (r: seq<byte>)
    requires v < 0x1_0000
    ensures |r| == 2 && ReadShort(r, 0) == v
  {
    [v % 0x100, v / 0x100]
  }

  function Long(v: nat): (r: seq<byte>)
    requires v < 0x1_0000_0000
    ensures |r| == 4 && ReadLong(r, 0) == v
  {
    Short(v % 0x1_0000) + Short(v / 0x1_0000)
  }

  function ReadShort(b: seq<byte>, i: nat): (v: nat)
    requires i + 2 <= |b|
    ensures v < 0x1_0000
  {
    (b[i] as int) + 0x100 * (b[i+1] as int)
  }

  function ReadLong(b: seq<byte>, i: nat): (v: nat)
    requires i + 4 <= |b|
    ensures v < 0x1_0000_0000
  {
    ReadShort(b, i) + 0x1_0000 * ReadShort(b, i + 2)
  }

  function Encode(d: DInode): (r: seq<byte>)
    requires d.Fits()
    ensures |r| == SIZE
  {
    var byte1: byte, byte2: byte := d.gid, d.nlinks;
    Short(d.mode) + Short(d.uid) + Long(d.size) + Long(d.time) + [byte1, byte2] + EncodeZones(d.zones)
  }

  function EncodeZones(z: seq<nat>): (r: seq<byte>)
    requires forall i | 0 <= i < |z| :: z[i] < 0x1_0000
    ensures |r| == 2 * |z| && forall i | 0 <= i < |z| :: ReadShort(r, 2 * i) == z[i]
  {
    if z == [] then [] else Short(z[0]) + EncodeZones(z[1..])
  }

  function Decode(b: seq<byte>): (d: DInode)
    requires |b| == SIZE
    ensures d.Fits()
  {
    DInode(ReadShort(b, 0), ReadShort(b, 2), ReadLong(b, 4), ReadLong(b, 8), b[12], b[13],
           seq(9, i requires 0 <= i < 9 => ReadShort(b, 14 + 2 * i)))
  }

  lemma DecodeEncode(d: DInode)
    requires d.Fits()
    ensures Decode(Encode(d)) == d
  {
  }

  /** Where each field lies, every number with its low byte first: mode, owner, size, time, group, links, nine zones. */
  lemma DecodeMeans(b: seq<byte>)
    requires |b| == 32
    ensures var d := Decode(b);
            && d.mode == (b[0] as int) + 0x100 * (b[1] as int) && d.uid == (b[2] as int) + 0x100 * (b[3] as int)
            && d.size == (b[4] as int) + 0x100 * (b[5] as int) + 0x1_0000 * (b[6] as int) + 0x100_0000 * (b[7] as int)
            && d.time == (b[8] as int) + 0x100 * (b[9] as int) + 0x1_0000 * (b[10] as int) + 0x100_0000 * (b[11] as int)
            && d.gid == b[12] && d.nlinks == b[13] && |d.zones| == 9
            && forall i | 0 <= i < 9 :: d.zones[i] == (b[14 + 2 * i] as int) + 0x100 * (b[15 + 2 * i] as int)
  {
  }

  lemma ReadsDetermine(a: seq<byte>, b: seq<byte>, i: nat)
    requires i + 2 <= |a| == |b| && ReadShort(a, i) == ReadShort(b, i)
    ensures a[i] == b[i] && a[i+1] == b[i+1]
  {
  }

  lemma HalvesDetermine(lo: nat, hi: nat, lo': nat, hi': nat)
    requires lo < 0x1_0000 && lo' < 0x1_0000 && lo + 0x1_0000 * hi == lo' + 0x1_0000 * hi'
    ensures lo == lo' && hi == hi'
  {
  }

  lemma LongsDetermine(a: seq<byte>, b: seq<byte>, i: nat)
    requires i + 4 <= |a| == |b| && ReadLong(a, i) == ReadLong(b, i)
    ensures a[i] == b[i] && a[i+1] == b[i+1] && a[i+2] == b[i+2] && a[i+3] == b[i+3]
  {
    HalvesDetermine(ReadShort(a, i), ReadShort(a, i + 2), ReadShort(b, i), ReadShort(b, i + 2));
    ReadsDetermine(a, b, i);
    ReadsDetermine(a, b, i + 2);
  }

  /** No two byte patterns stand for the same inode. */
  lemma DecodeInjective(a: seq<byte>, b: seq<byte>)
    requires |a| == |b| == SIZE && Decode(a) == Decode(b)
    ensures a == b
  {
    ReadsDetermine(a, b, 0);
    ReadsDetermine(a, b, 2);
    LongsDetermine(a, b, 4);
    LongsDetermine(a, b, 8);
    forall i | 0 <= i < 9 ensures a[14 + 2 * i] == b[14 + 2 * i] && a[14 + 2 * i + 1] == b[14 + 2 * i + 1] {
      assert Decode(a).zones[i] == Decode(b).zones[i];
      ReadsDetermine(a, b, 14 + 2 * i);
    }
    forall i | 0 <= i < SIZE ensures a[i] == b[i] {
      if i >= 14 { assert i == 14 + 2 * ((i - 14) / 2) + (i - 14) % 2; }
    }
  }

  // ------------------------------------------------------------------ slots of a block

  function SlotBytes(b: Block, k: nat): (r: seq<byte>)
    requires k < PER_BLOCK
    ensures |r| == SIZE
  {
    b[SIZE * k..SIZE * k + SIZE]
  }

  function PutSlot(b: Block, k: nat, bytes: seq<byte>): (r: Block)
    requires k < PER_BLOCK && |bytes| == SIZE
    ensures SlotBytes(r, k) == bytes
    ensures forall j | 0 <= j < PER_BLOCK && j != k :: SlotBytes(r, j) == SlotBytes(b, j)
  {
    var r: Block := b[..SIZE * k] + bytes + b[SIZE * k + SIZE..];
    r
  }

  lemma SlotBytesMeans(b: Block, k: nat)
    requires k < PER_BLOCK
    ensures SlotBytes(b, k) == b[32 * k..32 * k + 32]
  {
  }

  lemma PutSlotBytes(b: Block, k: nat, bytes: seq<byte>)
    requires k < PER_BLOCK && |bytes| == SIZE
    ensures var r, at := PutSlot(b, k, bytes), 32 * k;
            r[..at] == b[..at] && r[at..at + 32] == bytes && r[at + 32..] == b[at + 32..]
  {
  }
}
