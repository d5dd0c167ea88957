/** What the cache takes from the driver: a request that ends well is completed, in the cache's sense, on the disk seen
    as a map from blocks to bytes. The condition is that the partitions in use do not overlap - minor number 0 of each
    drive stands for the whole of it. */
module Completion {
  import opened Bytes
  import opened Devices
  import opened Geometry
  import Driver
  import Cache

  /** No two of the partitions in use share a sector. */
  ghost predicate Apart(parts: seq<Partition>, used: set<nat>) {
    forall p, q | p in used && q in used && p != q && p < |parts| && q < |parts| && p / 5 == q / 5 ::
      parts[p].start + parts[p].count <= parts[q].start || parts[q].start + parts[q].count <= parts[p].start
  }

  ghost function HeadOf(k: Cache.Key): Driver.Head {
    Driver.Head(k.dev, k.block, false, false, false, Zeros())
  }

  function Zeros(): Block { seq(1024, _ => 0) }

  /** A block of a partition in use. */
  ghost predicate Mapped(parts: seq<Partition>, used: set<nat>, k: Cache.Key) {
    HasDriver(k.dev) && k.dev % 256 in used && Driver.Addressable(HeadOf(k), parts)
  }

  ghost predicate Wired(drives: seq<Drive>, parts: seq<Partition>, disk: seq<seq<Sector>>) {
    Driver.Configured(drives, parts) && Driver.DiskOk(drives, disk)
  }

  ghost function BlockOf(drives: seq<Drive>, parts: seq<Partition>, disk: seq<seq<Sector>>, used: set<nat>,
                         k: Cache.Key): Block
    requires Wired(drives, parts, disk)
  {
    if Mapped(parts, used, k) then Driver.OnDisk(HeadOf(k), drives, parts, disk) else Zeros()
  }

  /** The disk as the cache sees it. */
  ghost function Contents(drives: seq<Drive>, parts: seq<Partition>, disk: seq<seq<Sector>>,
                          used: set<nat>): Cache.Store
    requires Wired(drives, parts, disk)
  {
    imap k: Cache.Key :: BlockOf(drives, parts, disk, used, k)
  }

  /** Writing a sector of one block changes no other block. */
  lemma OtherBlocks(drives: seq<Drive>, parts: seq<Partition>, d0: seq<seq<Sector>>, d1: seq<seq<Sector>>,
                    used: set<nat>,
                    k: Cache.Key, lba: int)
    requires Wired(drives, parts, d0) && Wired(drives, parts, d1) && Apart(parts, used) && Mapped(parts, used, k)
    requires var at := Driver.Home(HeadOf(k), parts); at <= lba <= at + 1
    requires Driver.OnlySectorChanged(d0, d1, k.dev % 256 / 5, lba)
    ensures Contents(drives, parts, d1, used)
            == Contents(drives, parts, d0, used)[k := BlockOf(drives, parts, d1, used, k)]
  {
    forall x: Cache.Key | x != k ensures BlockOf(drives, parts, d1, used, x) == BlockOf(drives, parts, d0, used, x) {
      if Mapped(parts, used, x) { OtherBlock(drives, parts, d0, d1, used, k, lba, x); }
    }
  }

  lemma OtherBlock(drives: seq<Drive>, parts: seq<Partition>, d0: seq<seq<Sector>>, d1: seq<seq<Sector>>,
                   used: set<nat>,
                   k: Cache.Key, lba: int, x: Cache.Key)
    requires Wired(drives, parts, d0) && Wired(drives, parts, d1) && Apart(parts, used)
    requires Mapped(parts, used, k) && Mapped(parts, used, x) && x != k
    requires var at := Driver.Home(HeadOf(k), parts); at <= lba <= at + 1
    requires Driver.OnlySectorChanged(d0, d1, k.dev % 256 / 5, lba)
    ensures Driver.OnDisk(HeadOf(x), drives, parts, d1) == Driver.OnDisk(HeadOf(x), drives, parts, d0)
  {
    var p, q, at := k.dev % 256, x.dev % 256, Driver.Home(HeadOf(x), parts);
    assert p == q ==> k.dev == x.dev && k.block != x.block;
    assert p / 5 == q / 5 ==> lba != at && lba != at + 1;
    assert d1[q / 5][at] == d0[q / 5][at] && d1[q / 5][at + 1] == d0[q / 5][at + 1];
  }

  /** A header of the driver as the cache has it; a store since submission counts as dirt, as Store leaves it. */
  ghost function BufOf(h: Driver.Head, stored: bool): Cache.Buf {
    Cache.Buf(Cache.Key(h.dev, h.block), h.uptodate, h.dirt || stored, 0, h.lock, h.data)
  }

  ghost function Seen(hd: Driver.HardDisk, used: set<nat>): Cache.Store
    reads hd
    requires Wired(hd.drives, hd.parts, hd.disk)
  {
    Contents(hd.drives, hd.parts, hd.disk, used)
  }

  /** A good answer to the last sector of the head, whose buffer `b` was submitted as the cache does it - for reading
      when it is not valid, for writing when it is: the cache's request for `b` is completed. */
  method LastAnswer(hd: Driver.HardDisk, used: set<nat>) returns (ghost b: nat)
    requires hd.Valid() && hd.pool.q != [] && hd.handler != Driver.OnRecal && hd.pool.q[0].nrSectors == 1
    requires Apart(hd.parts, used) && hd.pool.q[0].dev % 256 in used
    requires hd.pool.q[0].bh < |hd.heads| && (hd.heads[hd.pool.q[0].bh].uptodate <==> hd.pool.q[0].cmd == WRITE)
    modifies hd`heads, hd`faults, hd`tick, hd`reset, hd`recalibrate, hd`handler, hd`command, hd`disk, hd`sent,
             hd.pool
    ensures hd.Valid() && b == old(hd.pool.q[0].bh) && b < |hd.heads| == |old(hd.heads)| && hd.stored == old(hd.stored)
    ensures Cache.Completes(BufOf(old(hd.heads)[b], b in hd.stored), old(Seen(hd, used)),
              BufOf(hd.heads[b], b in hd.stored), Seen(hd, used))
  {
    b := hd.pool.q[0].bh;
    assert Driver.ReqOk(hd.pool.q[0], hd.heads);
    if hd.handler == Driver.OnRead { LastRead(hd, used, b); } else { LastWrite(hd, used, b); }
  }

  method LastRead(hd: Driver.HardDisk, used: set<nat>, ghost b: nat)
    requires Last(hd, used, b) && hd.handler == Driver.OnRead && !hd.heads[b].uptodate
    modifies hd`heads, hd`faults, hd`tick, hd`reset, hd`recalibrate, hd`handler, hd`command, hd`disk, hd`sent,
             hd.pool
    ensures hd.Valid() && b < |hd.heads| == |old(hd.heads)| && hd.stored == old(hd.stored)
    ensures Cache.Completes(BufOf(old(hd.heads)[b], b in hd.stored), old(Seen(hd, used)),
              BufOf(hd.heads[b], b in hd.stored), Seen(hd, used))
  {
    ghost var h := hd.heads[b];
    assert Driver.ReqOk(hd.pool.q[0], hd.heads);
    hd.Interrupt(true);
    assert Driver.OnDisk(hd.heads[b], hd.drives, hd.parts, hd.disk) == BlockOf(hd.drives, hd.parts, hd.disk, used,
             Cache.Key(h.dev, h.block));
  }

  method LastWrite(hd: Driver.HardDisk, used: set<nat>, ghost b: nat)
    requires Last(hd, used, b) && hd.handler == Driver.OnWrite && hd.heads[b].uptodate
    modifies hd`heads, hd`faults, hd`tick, hd`reset, hd`recalibrate, hd`handler, hd`command, hd`disk, hd`sent,
             hd.pool
    ensures hd.Valid() && b < |hd.heads| == |old(hd.heads)| && hd.stored == old(hd.stored)
    ensures Cache.Completes(BufOf(old(hd.heads)[b], b in hd.stored), old(Seen(hd, used)),
              BufOf(hd.heads[b], b in hd.stored), Seen(hd, used))
  {
    ghost var h, d0, lba := hd.heads[b], hd.disk, hd.command.lba;
    ghost var k := Cache.Key(h.dev, h.block);
    assert Driver.ReqOk(hd.pool.q[0], hd.heads);
    hd.Interrupt(true);
    OtherBlocks(hd.drives, hd.parts, d0, hd.disk, used, k, lba);
    assert Driver.OnDisk(hd.heads[b], hd.drives, hd.parts, hd.disk) == BlockOf(hd.drives, hd.parts, hd.disk, used, k);
  }

  /** The head, of buffer `b`, waits for its last sector. */
  ghost predicate Last(hd: Driver.HardDisk, used: set<nat>, b: nat)
    reads hd, hd.pool
  {
    && hd.Valid() && hd.pool.q != [] && hd.pool.q[0].nrSectors == 1 && b == hd.pool.q[0].bh && b < |hd.heads|
    && Apart(hd.parts, used) && hd.pool.q[0].dev % 256 in used
  }

  /** Any answer to a write changes, of all that the cache sees on the disk, only the block that is being written,
      which matters to it as little as Cache.TornWrite says. */
  method WriteAnswered(hd: Driver.HardDisk, used: set<nat>, ok: bool)
    requires hd.Valid() && hd.pool.q != [] && hd.handler == Driver.OnWrite
    requires Apart(hd.parts, used) && hd.pool.q[0].dev % 256 in used && hd.pool.q[0].bh < |hd.heads|
    modifies hd`heads, hd`faults, hd`tick, hd`reset, hd`recalibrate, hd`handler, hd`command, hd`disk, hd`sent,
             hd.pool
    ensures hd.Valid()
    ensures var h := old(hd.heads[hd.pool.q[0].bh]);
            var k := Cache.Key(h.dev, h.block);
            Seen(hd, used) == old(Seen(hd, used))[k := Seen(hd, used)[k]]
  {
    ghost var h, d0, lba := hd.heads[hd.pool.q[0].bh], hd.disk, hd.command.lba;
    assert Driver.ReqOk(hd.pool.q[0], hd.heads);
    hd.Interrupt(ok);
    OtherBlocks(hd.drives, hd.parts, d0, hd.disk, used, Cache.Key(h.dev, h.block), lba);
  }
}
