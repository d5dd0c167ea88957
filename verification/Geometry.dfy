/** Cylinder/head/sector arithmetic of blk/hd.c, partitions, and the bound test made before a command is issued. */
module Geometry {
  import opened Devices

  datatype Drive = Drive(heads: nat, sects: nat, cyls: nat) {
    /** What the controller accepts: hd_out refuses heads above 15, and the counts are byte, byte and short. */
    ghost predicate Ok() {
      0 < heads <= 16 && 0 < sects < 256 && 0 < cyls < 0x1_0000
    }
    function Capacity(): nat { heads * sects * cyls }
  }

  /** The largest disk such a drive can be. */
  const MAX_SECTORS: nat := 16 * 255 * 0xFFFF

  datatype Partition = Partition(start: nat, count: nat)

  datatype Chs = Chs(cyl: nat, head: nat, sec: nat)

  /** The two `divl` instructions and the increment of `sec`. */
  function ToChs(d: Drive, lba: nat): (c: Chs)
    requires d.heads > 0 && d.sects > 0
  {
    var track := lba / d.sects;
    Chs(track / d.heads, track % d.heads, lba % d.sects + 1)
  }

  /** The controller's reading of a cylinder/head/sector address. */
  function ToLba(d: Drive, c: Chs): int {
    (c.cyl * d.heads + c.head) * d.sects + c.sec - 1
  }

  lemma MulLess(a: nat, b: nat, c: nat, r: nat)
    requires a * c + r < b * c
    ensures a < b
  {
    if a >= b {
      assert a * c >= b * c by { MulMono(b, a, c); }
    }
  }

  /** The address sent to the controller names exactly the wanted sector and is within the geometry. */
  lemma ChsRoundTrip(d: Drive, lba: nat)
    requires d.Ok() && lba < d.Capacity()
    ensures ToLba(d, ToChs(d, lba)) == lba
    ensures var c := ToChs(d, lba); 1 <= c.sec <= d.sects && c.head < d.heads && c.cyl < d.cyls
  {
    var c := ToChs(d, lba);
    var track := lba / d.sects;
    DivMod(lba, d.sects);
    DivMod(track, d.heads);
    assert c.cyl * d.heads + c.head == track;
    assert track < d.heads * d.cyls by {
      assert d.Capacity() == (d.heads * d.cyls) * d.sects;
      MulLess(track, d.heads * d.cyls, d.sects, lba % d.sects);
    }
    assert d.heads * d.cyls == d.cyls * d.heads;
    MulLess(c.cyl, d.cyls, d.heads, c.head);
  }

  /** Two different sectors are never sent to the same place. */
  lemma ChsInjective(d: Drive, x: nat, y: nat)
    requires d.Ok() && x < d.Capacity() && y < d.Capacity()
    requires ToChs(d, x) == ToChs(d, y)
    ensures x == y
  {
    ChsRoundTrip(d, x);
    ChsRoundTrip(d, y);
  }

  /** do_hd_request's test, in 32-bit arithmetic: it always asks for room for two sectors. */
  predicate Admits(p: Partition, sector: nat) {
    (sector + 2) % U32 <= p.count
  }

  /** The `block += start_sect` that follows it, also in 32 bits. */
  function Absolute(p: Partition, sector: nat): nat {
    (sector + p.start) % U32
  }

  ghost predicate Within(p: Partition, lba: nat, n: nat) {
    p.start <= lba && lba + n <= p.start + p.count
  }

  /** An admitted request stays in its partition exactly when adding 2 to its sector does not wrap;
      for the two top values the test passes and the command would go elsewhere. */
  lemma AdmittedIsContained(p: Partition, sector: nat, n: nat)
    requires p.start + p.count <= MAX_SECTORS && sector < U32 && 1 <= n <= 2
    requires Admits(p, sector)
    ensures Within(p, Absolute(p, sector), n) <==> sector + 2 < U32
    ensures sector + 2 < U32 ==> Absolute(p, sector) == p.start + sector
  {
    if sector + 2 >= U32 {
      if p.start + sector < U32 {
        assert Absolute(p, sector) == p.start + sector;
      } else {
        assert Absolute(p, sector) == p.start + sector - U32;
      }
    }
  }

  /** As long as nothing wraps, the test passes exactly when two sectors from this one on are in the partition. */
  lemma AdmitsInside(p: Partition, sector: nat)
    requires sector + 2 < U32
    ensures Admits(p, sector) <==> sector + 2 <= p.count
  {
  }

  /** The retry of a block's second sector asks for one sector too many, so it is refused
      exactly on the last block of a partition that ends with that block. */
  lemma RetryRefused(p: Partition, block: nat)
    requires 2 * block + 3 < U32
    requires Admits(p, 2 * block)
    ensures !Admits(p, 2 * block + 1) <==> p.count == 2 * block + 2
  {
  }

  /** `bh->b_blocknr<<1`, in 32 bits. */
  function Shifted(block: nat): (sector: nat)
    ensures sector < U32
  {
    2 * block % U32
  }

  /** The shift names the block's own sectors exactly below 2^31. From there on it names those of a block 2^31 lower. */
  lemma ShiftNamesBlock(block: nat)
    requires block < U32
    ensures Shifted(block) == 2 * block <==> block < 0x8000_0000
    ensures block >= 0x8000_0000 ==> Shifted(block) == 2 * (block - 0x8000_0000)
  {
  }

  /** Both wraps together: a request that passes the test goes to its own block of its own partition exactly when
      the block number is below 2^31 - 1. */
  lemma AdmittedIsOwnBlock(p: Partition, block: nat)
    requires p.start + p.count <= MAX_SECTORS && block < U32 && Admits(p, Shifted(block))
    ensures Within(p, Absolute(p, Shifted(block)), 2) && Absolute(p, Shifted(block)) == p.start + 2 * block
            <==> block < 0x7FFF_FFFF
  {
    ShiftNamesBlock(block);
    AdmittedIsContained(p, Shifted(block), 2);
  }
}
