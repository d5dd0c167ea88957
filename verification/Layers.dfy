/** What the file system takes from the buffer cache, on one device: the bytes that each block shows and the holders
    of its buffer. Each cache operation the file system calls acts on these two maps as FileSystem has it. */
module Layers {
  import opened Bytes
  import opened Devices
  import Cache
  import ZoneTree
  import FileSystem

  ghost function Shown(c: Cache.BufferCache, dev: nat): ZoneTree.Blocks
    reads c
    requires Cache.Total(c.view)
  {
    imap z: nat :: c.view[Cache.Key(dev, z)]
  }

  ghost function Holders(c: Cache.BufferCache, dev: nat): FileSystem.Refs
    reads c
  {
    imap z: nat :: Cache.CountOf(c.heads, c.at, Cache.Key(dev, z))
  }

  /** Block `z` can have one more holder, and there is a buffer for it: its own, or one that nobody holds. */
  ghost predicate Room(c: Cache.BufferCache, dev: nat, z: nat)
    reads c
  {
    && Holders(c, dev)[z] < 255
    && (Cache.Key(dev, z) in c.at || exists h :: 0 <= h < |c.heads| && c.heads[h].count == 0)
  }

  /** Since (h0, at0), block `z` has `d` holders more and every other block of the device as many as before. */
  lemma CountsToHolders(c: Cache.BufferCache, h0: seq<Cache.Buf>, at0: map<Cache.Key, nat>, dev: nat, z: nat, d: int)
    requires Cache.OnlyCount(h0, at0, c.heads, c.at, Cache.Key(dev, z), d)
    ensures Holders(c, dev)[z] == Cache.CountOf(h0, at0, Cache.Key(dev, z)) + d
    ensures Holders(c, dev) == (imap x: nat :: Cache.CountOf(h0, at0, Cache.Key(dev, x)))[z := Holders(c, dev)[z]]
  {
    forall x: nat | x != z ensures Holders(c, dev)[x] == Cache.CountOf(h0, at0, Cache.Key(dev, x)) {
      assert Cache.SameCount(h0, at0, c.heads, c.at, Cache.Key(dev, x));
    }
  }

  /** read_buff, as FileSystem.ReadBuff has it; on a device with a driver it does not fail. */
  method ReadBuff(c: Cache.BufferCache, dev: nat, z: nat) returns (b: nat)
    requires c.Valid() && HasDriver(dev) && Room(c, dev, z)
    modifies c`heads, c`disk, c`view, c`now, c`at, c.links
    ensures c.Valid() && b < |c.heads| && c.heads[b].key == Cache.Key(dev, z) && c.heads[b].count > 0
    ensures c.heads[b].uptodate && c.heads[b].data == Shown(c, dev)[z] && Shown(c, dev) == old(Shown(c, dev))
    ensures Holders(c, dev) == old(Holders(c, dev))[z := old(Holders(c, dev))[z] + 1]
  {
    var r := c.ReadBuff(Cache.Key(dev, z));
    CountsToHolders(c, old(c.heads), old(c.at), dev, z, 1);
    assert Cache.Indexed(c.heads, c.at, r);
    b := r;
  }

  /** put_buff, as FileSystem.PutBuff has it. */
  method PutBuff(c: Cache.BufferCache, ghost dev: nat, ghost z: nat, b: nat)
    requires c.Valid() && dev != 0 && b < |c.heads| && c.heads[b].key == Cache.Key(dev, z) && c.heads[b].count > 0
    modifies c`heads, c`disk, c`view, c`now
    ensures c.Valid() && Shown(c, dev) == old(Shown(c, dev))
    ensures Holders(c, dev)[z] + 1 == old(Holders(c, dev))[z]
            && Holders(c, dev) == old(Holders(c, dev))[z := Holders(c, dev)[z]]
  {
    c.PutBuff(b);
    CountsToHolders(c, old(c.heads), c.at, dev, z, -1);
  }

  /** get_buff: as read_buff, but the buffer's own bytes may not be valid yet. */
  method GetBuff(c: Cache.BufferCache, dev: nat, z: nat) returns (b: nat)
    requires c.Valid() && HasDriver(dev) && Room(c, dev, z)
    modifies c`heads, c`disk, c`view, c`now, c`at, c.links
    ensures c.Valid() && b < |c.heads| && c.heads[b].key == Cache.Key(dev, z) && c.heads[b].count > 0
            && !c.heads[b].lock
    ensures Shown(c, dev) == old(Shown(c, dev))
    ensures Holders(c, dev) == old(Holders(c, dev))[z := old(Holders(c, dev))[z] + 1]
  {
    b := c.GetBuff(Cache.Key(dev, z));
    CountsToHolders(c, old(c.heads), old(c.at), dev, z, 1);
    assert Cache.Indexed(c.heads, c.at, b);
  }

  /** get_buff, and zeros written over whatever the buffer has. */
  method TakeZeroed(c: Cache.BufferCache, dev: nat, z: nat) returns (b: nat)
    requires c.Valid() && HasDriver(dev) && Room(c, dev, z)
    modifies c`heads, c`disk, c`view, c`now, c`at, c.links
    ensures c.Valid() && b < |c.heads| && c.heads[b].key == Cache.Key(dev, z) && c.heads[b].count > 0
    ensures Shown(c, dev) == old(Shown(c, dev))[z := ZoneTree.Zeroed()]
    ensures Holders(c, dev) == old(Holders(c, dev))[z := old(Holders(c, dev))[z] + 1]
  {
    b := GetBuff(c, dev, z);
    StoreBlock(c, dev, z, b, ZoneTree.Zeroed());
  }

  /** The buffer's part of create_block: the block shows zeros, and no holder is left behind. */
  method ZeroBlock(c: Cache.BufferCache, dev: nat, z: nat)
    requires c.Valid() && HasDriver(dev) && Room(c, dev, z)
    modifies c`heads, c`disk, c`view, c`now, c`at, c.links
    ensures c.Valid() && Holders(c, dev) == old(Holders(c, dev))
    ensures Shown(c, dev) == old(Shown(c, dev))[z := ZoneTree.Zeroed()]
  {
    ghost var before := Holders(c, dev);
    var b := TakeZeroed(c, dev, z);
    PutBuff(c, dev, z, b);
    UpAndDown(before, Holders(c, dev), z);
  }

  lemma UpAndDown(a: FileSystem.Refs, b: FileSystem.Refs, z: nat)
    requires FileSystem.Counted(a) && z in b && b[z] == a[z] && b == a[z := a[z] + 1][z := b[z]]
    ensures b == a
  {
  }

  /** New bytes in a held buffer, marked dirty: what FileSystem.Write and the index-block updates do. */
  method StoreBlock(c: Cache.BufferCache, ghost dev: nat, ghost z: nat, b: nat, data: Block)
    requires c.Valid() && HasDriver(dev) && b < |c.heads| && c.heads[b].key == Cache.Key(dev, z)
    requires c.heads[b].count > 0 && (c.heads[b].lock ==> c.heads[b].uptodate)
    modifies c`heads, c`disk, c`view, c`now
    ensures c.Valid() && c.heads[b].key == old(c.heads[b]).key && c.heads[b].count == old(c.heads[b]).count
            && |c.heads| == |old(c.heads)|
    ensures Holders(c, dev) == old(Holders(c, dev)) && Shown(c, dev) == old(Shown(c, dev))[z := data]
  {
    c.Store(b, data);
    forall x: nat ensures Holders(c, dev)[x] == old(Holders(c, dev))[x] { }
  }

  /** invalidate_buff, as FileSystem.DeleteBlock has it: without holders the block shows whatever the disk has;
      with holders its bytes stay and a reference is lost. No other block is affected. */
  method InvalidateBuff(c: Cache.BufferCache, dev: nat, z: nat)
    requires c.Valid() && dev != 0 && Holders(c, dev)[z] < 255
    modifies c`heads, c`disk, c`view, c`now
    ensures c.Valid()
    ensures if old(Holders(c, dev))[z] == 0 then
              Holders(c, dev) == old(Holders(c, dev)) && Shown(c, dev) == old(Shown(c, dev))[z := Shown(c, dev)[z]]
            else
              Holders(c, dev) == old(Holders(c, dev))[z := old(Holders(c, dev))[z] + 1]
                && Shown(c, dev) == old(Shown(c, dev))
  {
    ghost var d := if Holders(c, dev)[z] == 0 then 0 else 1;
    c.InvalidateBuff(Cache.Key(dev, z));
    CountsToHolders(c, old(c.heads), c.at, dev, z, d);
  }
}
