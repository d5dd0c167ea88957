/** The in-memory inode table of fs/inode.c over the blocks that the buffer cache shows. Its locks are never taken:
    lock_inode sets the flag only when it is set already. */
module InodeCache {
  import opened Bytes
  import opened InodeCodec

  const NR_INODE: nat := 32
  const ROOT_INO: nat := 1

  datatype Id = Id(dev: nat, num: nat)
  datatype Place = Place(dev: nat, block: nat)
  type Blocks = imap<Place, Block>
  type View = imap<Id, DInode>

  datatype MInode = MInode(id: Id, d: DInode, count: nat, dirt: bool, mount: bool)
  datatype Mount = Mount(dev: nat, imapBlocks: nat, zmapBlocks: nat, imount: int)

  // ------------------------------------------------------------------ the inode table on disk

  ghost predicate AllBlocks(blocks: Blocks) { forall p: Place :: p in blocks }

  ghost predicate AllIds(view: View) { forall id: Id :: id in view }

  /** find_super: the first entry for the device. */
  function FindSuper(supers: seq<Mount>, dev: nat): (k: nat)
    ensures k <= |supers| && (k < |supers| ==> supers[k].dev == dev) && forall j | 0 <= j < k :: supers[j].dev != dev
  {
    if supers == [] || supers[0].dev == dev then 0 else 1 + FindSuper(supers[1..], dev)
  }

  predicate OnDisk(supers: seq<Mount>, id: Id) {
    id.dev != 0 && id.num >= 1 && FindSuper(supers, id.dev) < |supers|
  }

  function Home(supers: seq<Mount>, id: Id): Place
    requires OnDisk(supers, id)
  {
    var s := supers[FindSuper(supers, id.dev)];
    Place(id.dev, 2 + s.imapBlocks + s.zmapBlocks + (id.num - 1) / PER_BLOCK)
  }

  ghost function DiskInode(supers: seq<Mount>, blocks: Blocks, id: Id): (d: DInode)
    requires AllBlocks(blocks)
    ensures d.Fits()
  {
    if OnDisk(supers, id) then Decode(SlotBytes(blocks[Home(supers, id)], (id.num - 1) % PER_BLOCK)) else Blank()
  }

  /** The block of an inode: behind the boot block, the superblock and both maps, 32 inodes to a block. */
  ghost function InodePlace(s: Mount, id: Id): Place
    requires id.num >= 1
  {
    Place(id.dev, 2 + s.imapBlocks + s.zmapBlocks + (id.num - 1) / 32)
  }

  /** Its first byte there. */
  ghost function InodeByte(id: Id): nat
    requires id.num >= 1
  {
    32 * ((id.num - 1) % 32)
  }

  /** The inode on disk is that of its 32 bytes. */
  lemma DiskInodeMeans(supers: seq<Mount>, blocks: Blocks, id: Id)
    requires AllBlocks(blocks) && id.dev != 0 && id.num >= 1 && FindSuper(supers, id.dev) < |supers|
    ensures DiskInode(supers, blocks, id) == InodeOf(supers[FindSuper(supers, id.dev)], blocks, id)
  {
    var p := Home(supers, id);
    assert p == InodePlace(supers[FindSuper(supers, id.dev)], id);
    SlotBytesMeans(blocks[p], (id.num - 1) % PER_BLOCK);
  }

  ghost function InodeOf(s: Mount, blocks: Blocks, id: Id): DInode
    requires AllBlocks(blocks) && id.num >= 1
  {
    Decode(blocks[InodePlace(s, id)][InodeByte(id)..InodeByte(id) + 32])
  }

  /** Since `before`, of all bytes on all disks only the inode's own 32 were written, with the inode. The blocks in
      front of the inodes - the boot block, the superblock and the maps - are untouched. */
  ghost predicate WrittenAt(s: Mount, id: Id, d: DInode, before: Blocks, after: Blocks) {
    && AllBlocks(before) && AllBlocks(after) && id.num >= 1 && d.Fits()
    && var p, at := InodePlace(s, id), InodeByte(id);
       && (forall q: Place | q != p :: after[q] == before[q])
       && (forall b: nat | b < 2 + s.imapBlocks + s.zmapBlocks :: after[Place(id.dev, b)] == before[Place(id.dev, b)])
       && after[p][..at] == before[p][..at] && after[p][at..at + 32] == Encode(d)
       && after[p][at + 32..] == before[p][at + 32..]
  }

  lemma SlotWritten(supers: seq<Mount>, id: Id, d: DInode, before: Blocks)
    requires AllBlocks(before) && OnDisk(supers, id) && d.Fits()
    ensures var p := Home(supers, id);
            WrittenAt(supers[FindSuper(supers, id.dev)], id, d, before,
                      before[p := PutSlot(before[p], (id.num - 1) % PER_BLOCK, Encode(d))])
  {
    PutSlotBytes(before[Home(supers, id)], (id.num - 1) % PER_BLOCK, Encode(d));
  }

  /** Writing one inode back changes no other inode on the disk, whichever block it shares. */
  lemma WriteBackFrame(supers: seq<Mount>, blocks: Blocks, id: Id, d: DInode, other: Id)
    requires AllBlocks(blocks) && OnDisk(supers, id) && d.Fits()
    ensures var p := Home(supers, id);
            var after := blocks[p := PutSlot(blocks[p], (id.num - 1) % PER_BLOCK, Encode(d))];
            DiskInode(supers, after, other) == if other == id then d else DiskInode(supers, blocks, other)
  {
    DecodeEncode(d);
    if OnDisk(supers, other) && other != id && Home(supers, other) == Home(supers, id) {
      assert (other.num - 1) % PER_BLOCK != (id.num - 1) % PER_BLOCK;
    }
  }

  // ------------------------------------------------------------------ the table in memory

  /** What a file's inode is: the slot's copy when it is loaded or changed, else the copy on disk. */
  ghost predicate SlotOk(supers: seq<Mount>, blocks: Blocks, view: View, m: MInode)
    requires AllBlocks(blocks) && AllIds(view)
  {
    && m.d.Fits() && (m.dirt ==> OnDisk(supers, m.id)) && (m.id.dev != 0 ==> m.id.num >= 1)
    && (m.id.dev != 0 && (m.dirt || m.d.nlinks != 0) ==> view[m.id] == m.d)
    && (m.id.dev != 0 && !m.dirt ==> view[m.id] == DiskInode(supers, blocks, m.id))
  }

  ghost predicate Indexed(slots: seq<MInode>, at: map<Id, nat>, i: int) {
    0 <= i < |slots| && slots[i].id.dev != 0 ==> slots[i].id in at && at[slots[i].id] == i
  }

  ghost predicate Names(slots: seq<MInode>, at: map<Id, nat>, id: Id) {
    id in at ==> id.dev != 0 && at[id] < |slots| && slots[at[id]].id == id
  }

  ghost predicate Absent(supers: seq<Mount>, blocks: Blocks, view: View, at: map<Id, nat>, id: Id)
    requires AllBlocks(blocks) && AllIds(view)
  {
    id !in at ==> view[id] == DiskInode(supers, blocks, id)
  }

  /** `at` gives the only slot of each cached inode; `view` is what every inode is. */
  ghost predicate Coherent(slots: seq<MInode>, at: map<Id, nat>, view: View, supers: seq<Mount>, blocks: Blocks) {
    && AllBlocks(blocks) && AllIds(view) && |slots| == NR_INODE
    && (forall i {:trigger SlotOk(supers, blocks, view, slots[i])} | 0 <= i < |slots| :: SlotOk(supers, blocks, view,
        slots[i]))
    && (forall i :: Indexed(slots, at, i))
    && (forall id :: Names(slots, at, id))
    && (forall id :: Absent(supers, blocks, view, at, id))
  }

  /** One slot changes under its identity, with what the inode is and what the disk has for it. */
  lemma CoherentUpdate(slots: seq<MInode>, at: map<Id, nat>, view: View, supers: seq<Mount>, blocks: Blocks,
                       i: nat, m: MInode, v: DInode, blocks': Blocks)
    requires Coherent(slots, at, view, supers, blocks) && i < |slots| && m.id == slots[i].id
    requires AllBlocks(blocks') && SlotOk(supers, blocks', view[m.id := v], m)
    requires m.id.dev == 0 ==> v == view[m.id] && blocks' == blocks
    requires forall id | id != m.id :: DiskInode(supers, blocks', id) == DiskInode(supers, blocks, id)
    ensures Coherent(slots[i := m], at, view[m.id := v], supers, blocks')
  {
    var slots', view' := slots[i := m], view[m.id := v];
    assert Indexed(slots, at, i);
    forall j | 0 <= j < |slots| ensures SlotOk(supers, blocks', view', slots'[j]) {
      assert SlotOk(supers, blocks, view, slots[j]) && Indexed(slots, at, j);
    }
    forall j ensures Indexed(slots', at, j) { assert Indexed(slots, at, j); }
    forall id ensures Names(slots', at, id) { assert Names(slots, at, id); }
    forall id ensures Absent(supers, blocks', view', at, id) { assert Absent(supers, blocks, view, at, id); }
  }

  /** A clean slot may be emptied or take on an inode that has none. */
  lemma CoherentReuse(slots: seq<MInode>, at: map<Id, nat>, view: View, supers: seq<Mount>, blocks: Blocks, i: nat,
                      id: Id, count: nat)
    requires Coherent(slots, at, view, supers, blocks) && i < |slots| && !slots[i].dirt
    requires id.dev != 0 ==> id !in at && id.num >= 1
    ensures Coherent(slots[i := MInode(id, Blank(), count, false, false)],
                     if id.dev != 0 then (at - {slots[i].id})[id := i] else at - {slots[i].id}, view, supers, blocks)
  {
    var slots' := slots[i := MInode(id, Blank(), count, false, false)];
    var at' := if id.dev != 0 then (at - {slots[i].id})[id := i] else at - {slots[i].id};
    assert Indexed(slots, at, i) && SlotOk(supers, blocks, view, slots[i]);
    assert Absent(supers, blocks, view, at, id);
    forall j | 0 <= j < |slots| ensures SlotOk(supers, blocks, view, slots'[j]) {
      assert SlotOk(supers, blocks, view, slots[j]);
    }
    forall j ensures Indexed(slots', at', j) { assert Indexed(slots, at, j); }
    forall x ensures Names(slots', at', x) { assert Names(slots, at, x); }
    forall x ensures Absent(supers, blocks, view, at', x) {
      assert Absent(supers, blocks, view, at, x) && Names(slots, at, x);
    }
  }

  // ------------------------------------------------------------------ mounts

  /** The first superblock mounted on slot `i`, or the number of superblocks. */
  function MountOf(supers: seq<Mount>, i: nat): (k: nat)
    ensures k <= |supers| && (k < |supers| ==> supers[k].imount == i) && forall j | 0 <= j < k :: supers[j].imount != i
  {
    if supers == [] || supers[0].imount == i then 0 else 1 + MountOf(supers[1..], i)
  }

  ghost predicate Covered(slots: seq<MInode>, supers: seq<Mount>, at: map<Id, nat>, id: Id) {
    id in at && at[id] < |slots| && slots[at[id]].mount && MountOf(supers, at[id]) < |supers|
  }

  /** The root inode of what is mounted there. */
  ghost function Under(slots: seq<MInode>, supers: seq<Mount>, at: map<Id, nat>, id: Id): Id
    requires Covered(slots, supers, at, id)
  {
    Id(supers[MountOf(supers, at[id])].dev, ROOT_INO)
  }

  ghost predicate Downward(slots: seq<MInode>, supers: seq<Mount>, at: map<Id, nat>, height: nat -> nat, id: Id) {
    Covered(slots, supers, at, id) ==>
      Under(slots, supers, at, id).dev != 0
      && height(Under(slots, supers, at, id).dev) < height(id.dev)
  }

  /** No device is mounted, through any chain, on itself: `height` falls at every mount. */
  ghost predicate Acyclic(slots: seq<MInode>, supers: seq<Mount>, at: map<Id, nat>, height: nat -> nat) {
    forall id :: Downward(slots, supers, at, height, id)
  }

  /** Where a walk through the mounts ends. */
  ghost function Resolve(slots: seq<MInode>, supers: seq<Mount>, at: map<Id, nat>, height: nat -> nat, id: Id): (r: Id)
    requires Acyclic(slots, supers, at, height)
    ensures !Covered(slots, supers, at, r) && (id.dev != 0 ==> r.dev != 0) && (r == id || r.num == 1)
    decreases height(id.dev)
  {
    assert Downward(slots, supers, at, height, id);
    if Covered(slots, supers, at, id) then Resolve(slots, supers, at, height, Under(slots, supers, at, id)) else id
  }

  /** The walk depends only on which slots are mount points. */
  lemma {:induction false} ResolveFrame(a: seq<MInode>, b: seq<MInode>, supers: seq<Mount>, at: map<Id, nat>,
                                        height: nat -> nat, id: Id)
    requires |a| == |b| && Acyclic(a, supers, at, height) && forall i | 0 <= i < |a| :: b[i].mount == a[i].mount
    ensures Acyclic(b, supers, at, height) && Resolve(b, supers, at, height, id) == Resolve(a, supers, at, height, id)
    decreases height(id.dev)
  {
    forall x ensures Downward(b, supers, at, height, x) { assert Downward(a, supers, at, height, x); }
    if Covered(a, supers, at, id) {
      assert Downward(a, supers, at, height, id);
      ResolveFrame(a, b, supers, at, height, Under(a, supers, at, id));
    }
  }

  /** Two devices, the second mounted on slot 0, which holds inode 5 of the first: looking that inode up leads to
      the root of the second. */
  lemma MountedDevice(blocks: Blocks)
    returns (slots: seq<MInode>, supers: seq<Mount>, at: map<Id, nat>, view: View, height: nat -> nat)
    requires AllBlocks(blocks)
    ensures Coherent(slots, at, view, supers, blocks) && Acyclic(slots, supers, at, height)
    ensures Covered(slots, supers, at, Id(0x301, 5))
            && Resolve(slots, supers, at, height, Id(0x301, 5)) == Id(0x302, ROOT_INO)
  {
    supers := [Mount(0x301, 1, 1, -1), Mount(0x302, 1, 1, 0)];
    height := dev => if dev == 0x301 then 1 else 0;
    var id := Id(0x301, 5);
    var empty := MInode(Id(0, 0), Blank(), 0, false, false);
    slots := seq(NR_INODE, i => if i == 0 then MInode(id, DiskInode(supers, blocks, id), 1, false, true) else empty);
    at := map[id := 0];
    view := imap x: Id :: DiskInode(supers, blocks, x);
    assert MountOf(supers, 0) == 1;
    forall x ensures Downward(slots, supers, at, height, x) { }
  }

  class Table {
    const height: nat -> nat
    var slots: seq<MInode>
    var supers: seq<Mount>
    var last: nat
    var blocks: Blocks
    ghost var at: map<Id, nat>
    ghost var view: View

    ghost predicate Valid()
      reads this
    {
      Coherent(slots, at, view, supers, blocks) && Acyclic(slots, supers, at, height) && last < NR_INODE
    }

    ghost function Goal(id: Id): Id
      reads this
      requires Valid()
    {
      Resolve(slots, supers, at, height, id)
    }

    /** The table at boot, every slot zero. */
    constructor (supers: seq<Mount>, blocks: Blocks, height: nat -> nat, ghost view: View)
      requires AllBlocks(blocks) && AllIds(view) && forall id :: view[id] == DiskInode(supers, blocks, id)
      ensures Valid() && this.view == view && at == map[] && forall i | 0 <= i < NR_INODE :: slots[i].count == 0
    {
      this.height, this.supers, this.blocks, this.view := height, supers, blocks, view;
      slots := seq(NR_INODE, _ => MInode(Id(0, 0), Blank(), 0, false, false));
      last, at := 0, map[];
    }

    /** A table in use, with devices mounted on some of its inodes. */
    constructor Mounted(slots: seq<MInode>, supers: seq<Mount>, blocks: Blocks, height: nat -> nat, ghost at: map<Id,
                        nat>, ghost view: View)
      requires Coherent(slots, at, view, supers, blocks) && Acyclic(slots, supers, at, height)
      ensures Valid() && this.slots == slots && this.supers == supers && this.blocks == blocks && this.height == height
      ensures this.at == at && this.view == view
    {
      this.slots, this.supers, this.blocks, this.height, this.at, this.view, last := slots, supers, blocks, height, at,
          view, 0;
    }

    /** find_super */
    method SuperOf(dev: nat) returns (k: nat)
      ensures k == FindSuper(supers, dev)
    {
      k := 0;
      while k < |supers| && supers[k].dev != dev
        invariant k <= |supers| && forall j | 0 <= j < k :: supers[j].dev != dev
      {
        k := k + 1;
      }
    }

    /** sync_inode_to_buff: only this slot's own 32 bytes change, to what the slot says. */
    method SyncInode(i: nat)
      requires Valid() && i < NR_INODE
      modifies this`slots, this`blocks, this`view
      ensures Valid() && view == old(view) && !slots[i].dirt
      ensures slots == old(slots)[i := old(slots[i]).(dirt := false)]
      ensures Flushed(old(slots[i]), old(blocks)) && forall id :: Goal(id) == old(Goal(id))
      ensures var m := old(slots[i]);
              if m.dirt && m.id.dev != 0 then
                && FindSuper(supers, m.id.dev) < |supers|
                && WrittenAt(supers[FindSuper(supers, m.id.dev)], m.id, m.d, old(blocks), blocks)
              else blocks == old(blocks)
    {
      var m := slots[i];
      assert SlotOk(supers, blocks, view, m);
      if !m.dirt || m.id.dev == 0 {
        assert slots == slots[i := m.(dirt := false)];
        return;
      }
      ghost var before := blocks;
      WriteBack(i, m);
      SlotWritten(supers, m.id, m.d, before);
    }

    /** The write in it. */
    method WriteBack(i: nat, m: MInode)
      requires Valid() && i < NR_INODE && m == slots[i] && m.dirt && m.id.dev != 0
      modifies this`slots, this`blocks, this`view
      ensures Valid() && view == old(view) && slots == old(slots)[i := m.(dirt := false)]
      ensures Flushed(m, old(blocks)) && forall id :: Goal(id) == old(Goal(id))
      ensures OnDisk(supers, m.id) && m.d.Fits()
      ensures var p := Home(supers, m.id);
              blocks == old(blocks)[p := PutSlot(old(blocks)[p], (m.id.num - 1) % PER_BLOCK, Encode(m.d))]
    {
      assert SlotOk(supers, blocks, view, m);
      var sb := SuperOf(m.id.dev);
      assert sb < |supers|;           // so the panic for a missing superblock cannot happen
      var p := Place(m.id.dev, 2 + supers[sb].imapBlocks + supers[sb].zmapBlocks + (m.id.num - 1) / PER_BLOCK);
      FlushFrame(m, p);
      Replace(i, m.(dirt := false), m.d, blocks[p := PutSlot(blocks[p], (m.id.num - 1) % PER_BLOCK, Encode(m.d))]);
      assert view == old(view);
    }

    /** Since `before`, the inode of a dirty slot was written to the disk, and no other. */
    ghost predicate Flushed(m: MInode, before: Blocks)
      reads this
      requires AllBlocks(before) && AllBlocks(blocks)
    {
      forall id :: DiskInode(supers, blocks, id) == if m.dirt && id == m.id then m.d else DiskInode(supers, before, id)
    }

    lemma FlushFrame(m: MInode, p: Place)
      requires Valid() && OnDisk(supers, m.id) && p == Home(supers, m.id) && m.d.Fits() && view[m.id] == m.d
      ensures var after := blocks[p := PutSlot(blocks[p], (m.id.num - 1) % PER_BLOCK, Encode(m.d))];
              && SlotOk(supers, after, view[m.id := m.d], m.(dirt := false))
              && forall id :: DiskInode(supers, after, id) == if id == m.id then m.d else DiskInode(supers, blocks, id)
    {
      var after := blocks[p := PutSlot(blocks[p], (m.id.num - 1) % PER_BLOCK, Encode(m.d))];
      forall id ensures DiskInode(supers, after, id) == if id == m.id then m.d else DiskInode(supers, blocks, id) {
        WriteBackFrame(supers, blocks, m.id, m.d, id);
      }
    }

    /** One slot, and what the disk holds for its inode, change. */
    method Replace(i: nat, m: MInode, ghost v: DInode, blocks': Blocks)
      requires Valid() && i < NR_INODE && m.id == slots[i].id && m.mount == slots[i].mount
      requires AllBlocks(blocks') && SlotOk(supers, blocks', view[m.id := v], m)
      requires m.id.dev == 0 ==> v == view[m.id] && blocks' == blocks
      requires forall id | id != m.id :: DiskInode(supers, blocks', id) == DiskInode(supers, blocks, id)
      modifies this`slots, this`blocks, this`view
      ensures Valid() && slots == old(slots)[i := m] && view == old(view)[m.id := v] && blocks == blocks'
      ensures forall id :: Goal(id) == old(Goal(id))
    {
      CoherentUpdate(slots, at, view, supers, blocks, i, m, v, blocks');
      ResolveFrame(slots, slots[i := m], supers, at, height, m.id);
      forall id ensures Acyclic(slots[i := m], supers, at, height)
        && Resolve(slots[i := m], supers, at, height, id) == Resolve(slots, supers, at, height, id) {
        ResolveFrame(slots, slots[i := m], supers, at, height, id);
      }
      slots, blocks, view := slots[i := m], blocks', view[m.id := v];
    }

    /** find_inode: through the mounts to the end of the walk, and the slot that holds that inode, if any. */
    method FindInode(id: Id) returns (r: int, goal: Id)
      requires Valid() && id.dev != 0
      ensures goal == Goal(id)
      ensures r == if goal in at then at[goal] else -1
    {
      goal := id;
      var i := 0;
      while i < NR_INODE
        invariant goal.dev != 0 && Goal(goal) == Goal(id)
        invariant 0 <= i <= NR_INODE && forall j | 0 <= j < i :: slots[j].id != goal
        decreases height(goal.dev), NR_INODE - i
      {
        if slots[i].id != goal {
          i := i + 1;
          continue;
        }
        assert Indexed(slots, at, i) && Names(slots, at, goal) && Downward(slots, supers, at, height, goal);
        if !slots[i].mount { return i, goal; }
        var k := 0;
        while k < |supers| && supers[k].imount != i
          invariant 0 <= k <= |supers| && forall j | 0 <= j < k :: supers[j].imount != i
        {
          k := k + 1;
        }
        assert k == MountOf(supers, i);
        if k >= |supers| { return i, goal; }
        goal := Id(supers[k].dev, ROOT_INO);
        i := 0;
      }
      assert Names(slots, at, goal);
      r := -1;
    }

    /** How far ahead of the hand a slot is. */
    ghost function Turns(start: nat, i: nat): int { if i > start then i - start else i + NR_INODE - start }

    /** The slot that new_inode reuses: unheld, and clean if any unheld slot is. The search starts after the last one
        taken. */
    method Victim() returns (v: nat)
      requires Valid() && exists i :: 0 <= i < NR_INODE && slots[i].count == 0
      modifies this`last
      ensures Valid() && v < NR_INODE && slots[v].count == 0
      ensures slots[v].dirt ==> forall i | 0 <= i < NR_INODE && slots[i].count == 0 :: slots[i].dirt
      ensures forall i | 0 <= i < NR_INODE && Turns(old(last), i) < Turns(old(last), v)
              && slots[i].count == 0 :: slots[i].dirt && !slots[v].dirt
    {
      var best := -1;
      ghost var start := last;
      for t := 0 to NR_INODE
        invariant last < NR_INODE && last == (if start + t < NR_INODE then start + t else start + t - NR_INODE)
        invariant best == -1 || (0 <= best < NR_INODE && slots[best].count == 0 && slots[best].dirt
                  && Turns(start, best) <= t
                                 && forall i | 0 <= i < NR_INODE
                                   && Turns(start, i) < Turns(start, best) :: slots[i].count != 0)
        invariant forall i | 0 <= i < NR_INODE && Turns(start, i) <= t && slots[i].count == 0 ::
                  slots[i].dirt
                  && best != -1
      {
        last := last + 1;
        if last >= NR_INODE { last := 0; }
        if slots[last].count == 0 && (best == -1 || (!slots[last].dirt && slots[best].dirt)) {
          best := last;
          if !slots[best].dirt { return best; }
        }
      }
      v := best;
    }

    /** new_inode: a dirty victim is written back first; then, unless the inode turns out to be there already,
        the slot is zeroed and given to it. */
    method NewInode(id: Id) returns (r: int)
      requires Valid() && id.dev != 0 && id.num >= 1 && exists i :: 0 <= i < NR_INODE && slots[i].count == 0
      modifies this`slots, this`blocks, this`view, this`last, this`at
      ensures Valid() && view == old(view)
      ensures r == -1 <==> old(Goal(id)) in old(at)
      ensures r != -1 ==>
                && 0 <= r < NR_INODE && old(slots)[r].count == 0
                  && slots == old(slots)[r := MInode(old(Goal(id)), Blank(), 1, false, false)]
                && at == (old(at) - {old(slots)[r].id})[old(Goal(id)) := r]
      ensures r == -1 ==>
              at == old(at) && |slots| == |old(slots)|
              && forall i | 0 <= i < NR_INODE :: slots[i] == old(slots)[i].(dirt := slots[i].dirt)
    {
      ghost var goal0 := Goal(id);
      var v := Victim();
      assert Goal(id) == goal0;
      Clean(v);
      var other, goal := FindInode(id);
      if other != -1 { return -1; }
      Reuse(v, goal, 1);
      r := v;
    }

    /** The write-back loop. */
    method Clean(v: nat)
      requires Valid() && v < NR_INODE
      modifies this`slots, this`blocks, this`view
      ensures Valid() && view == old(view) && slots == old(slots)[v := old(slots[v]).(dirt := false)]
      ensures forall id :: Goal(id) == old(Goal(id))
    {
      while slots[v].dirt
        invariant Valid() && view == old(view) && slots == old(slots)[v := old(slots[v]).(dirt := slots[v].dirt)]
        invariant forall id :: Goal(id) == old(Goal(id))
        decreases if slots[v].dirt then 1 else 0
      {
        SyncInode(v);
      }
    }

    /** memset and, if `id` has a device, the new identity. */
    method Reuse(v: nat, id: Id, count: nat)
      requires Valid() && v < NR_INODE && !slots[v].dirt && (id.dev != 0 ==> id !in at && id.num >= 1)
      modifies this`slots, this`at
      ensures Valid() && slots == old(slots)[v := MInode(id, Blank(), count, false, false)]
      ensures at == if id.dev != 0 then (old(at) - {old(slots[v]).id})[id := v] else old(at) - {old(slots[v]).id}
    {
      CoherentReuse(slots, at, view, supers, blocks, v, id, count);
      ghost var s0, at0 := slots, at;
      assert Indexed(s0, at0, v);
      slots := slots[v := MInode(id, Blank(), count, false, false)];
      at := if id.dev != 0 then (at - {s0[v].id})[id := v] else at - {s0[v].id};
      forall x ensures Downward(slots, supers, at, height, x) {
        assert Downward(s0, supers, at0, height, x) && Names(s0, at0, x);
      }
    }

    /** retain_inode: one more holder of the inode at the end of the walk, if it is in memory. */
    method RetainInode(id: Id) returns (r: int, goal: Id)
      requires Valid() && id.dev != 0
      modifies this`slots, this`blocks, this`view
      ensures Valid() && view == old(view) && goal == old(Goal(id)) && blocks == old(blocks)
      ensures r == if goal in at then at[goal] else -1
      ensures if r == -1 then slots == old(slots)
              else 0 <= r < NR_INODE && slots[r].id == goal
                   && slots == old(slots)[r := old(slots[r]).(count := old(slots[r]).count + 1)]
      ensures forall x :: Goal(x) == old(Goal(x))
    {
      r, goal := FindInode(id);
      if r != -1 {
        assert Names(slots, at, goal);
        var m := slots[r];
        assert SlotOk(supers, blocks, view, m);
        Replace(r, m.(count := m.count + 1), view[goal], blocks);
        assert view == old(view);
      }
    }

    /** get_inode: the one slot of the inode at the end of the walk, held once more than before; a zeroed one
        if it was not in memory. No other slot gains or loses a holder, and no inode changes. */
    method GetInode(id: Id) returns (r: nat)
      requires Valid() && id.dev != 0 && id.num >= 1
      requires Goal(id) in at || exists i :: 0 <= i < NR_INODE && slots[i].count == 0
      modifies this`slots, this`blocks, this`view, this`last, this`at
      ensures Valid() && view == old(view) && r < NR_INODE && slots[r].id == old(Goal(id))
      ensures old(Goal(id)) in old(at) ==>
              r == old(at)[old(Goal(id))]
              && slots == old(slots)[r := old(slots)[r].(count := old(slots)[r].count + 1)]
      ensures old(Goal(id)) !in old(at) ==>
              old(slots)[r].count == 0
              && slots == old(slots)[r := MInode(old(Goal(id)), Blank(), 1, false, false)]
    {
      var i, goal := RetainInode(id);
      if i == -1 {
        assert slots == old(slots) && at == old(at) && !Covered(slots, supers, at, goal);
        assert Goal(goal) == goal;
        i := NewInode(goal);
      }
      r := i;
    }

    /** What read_inode_from_buff loads. */
    method ReadFromBuff(r: nat)
      requires Valid() && r < NR_INODE && OnDisk(supers, slots[r].id)
      modifies this`slots, this`blocks, this`view
      ensures Valid() && slots == old(slots)[r := old(slots[r]).(d := slots[r].d)]
              && slots[r].d == DiskInode(supers, blocks, slots[r].id)
      ensures blocks == old(blocks) && view == old(view)[slots[r].id := slots[r].d]
    {
      var m := slots[r];
      var sb := SuperOf(m.id.dev);
      var p := Place(m.id.dev, 2 + supers[sb].imapBlocks + supers[sb].zmapBlocks + (m.id.num - 1) / PER_BLOCK);
      var d := Decode(SlotBytes(blocks[p], (m.id.num - 1) % PER_BLOCK));
      assert SlotOk(supers, blocks, view, m);
      Replace(r, m.(d := d), d, blocks);
    }

    /** read_inode hands out the inode as it is, unless it is in memory, changed, and without links: then the copy on
        disk is loaded over the changes, and they are lost exactly when the two differ. */
    method ReadInode(id: Id) returns (r: nat)
      requires Valid() && id.dev != 0 && id.num >= 1 && OnDisk(supers, Goal(id))
      requires Goal(id) in at || exists i :: 0 <= i < NR_INODE && slots[i].count == 0
      modifies this`slots, this`blocks, this`view, this`last, this`at
      ensures Valid() && r < NR_INODE && slots[r].id == old(Goal(id)) && slots[r].count > 0
      ensures slots[r].d == view[slots[r].id]
      ensures var goal := old(Goal(id));
              FindSuper(supers, goal.dev) < |supers| && goal.num >= 1
              && (goal !in old(at) || (old(at)[goal] < NR_INODE && old(slots)[old(at)[goal]].d.nlinks == 0) ==>
                    slots[r].d == InodeOf(supers[FindSuper(supers, goal.dev)], blocks, goal))
      ensures var goal := old(Goal(id));
              var stale := goal in old(at) && old(at)[goal] < NR_INODE && old(slots)[old(at)[goal]].dirt
                && old(slots)[old(at)[goal]].d.nlinks == 0;
              view == old(view) <==> !stale || old(view)[goal] == DiskInode(supers, blocks, goal)
    {
      r := GetInode(id);
      var m := slots[r];
      assert SlotOk(supers, blocks, view, m) && Indexed(slots, at, r);
      if m.d.nlinks == 0 {
        ghost var v0 := view;
        ReadFromBuff(r);
        DiskInodeMeans(supers, blocks, m.id);
        assert m.dirt || view == v0;
      }
    }

    /** A holder changes its inode and marks it dirty. */
    method Change(r: nat, d: DInode)
      requires Valid() && r < NR_INODE && slots[r].count > 0 && OnDisk(supers, slots[r].id) && d.Fits()
      modifies this`slots, this`blocks, this`view
      ensures Valid() && slots == old(slots)[r := old(slots[r]).(d := d, dirt := true)]
              && view == old(view)[slots[r].id := d] && blocks == old(blocks)
    {
      var m := slots[r];
      Replace(r, m.(d := d, dirt := true), d, blocks);
    }

    /** put_inode while links remain: the last holder leaves a clean slot behind. Without links the last holder's
        inode is deleted (`gone`): its slot is zeroed, and what is left of it is on the disk. */
    method PutInode(r: nat) returns (gone: bool)
      requires Valid() && r < NR_INODE && slots[r].count > 0 && slots[r].id.dev != 0
      modifies this`slots, this`blocks, this`view, this`at
      ensures Valid() && (gone <==> old(slots[r]).count == 1 && old(slots[r]).d.nlinks == 0)
      ensures !gone ==>
                && view == old(view) && at == old(at)
                && slots == old(slots)[r := old(slots[r]).(count := old(slots[r]).count - 1,
                    dirt := old(slots[r]).dirt && old(slots[r]).count > 1)]
      ensures gone ==>
                && slots == old(slots)[r := MInode(Id(0, 0), Blank(), 0, false, false)]
                  && at == old(at) - {old(slots[r]).id}
                && view == old(view)[old(slots[r]).id := DiskInode(supers, blocks, old(slots[r]).id)]
    {
      gone := false;
      if slots[r].count == 1 {
        if slots[r].d.nlinks == 0 {
          Delete(r);
          return true;
        }
        Clean(r);
      }
      var m := slots[r];
      assert SlotOk(supers, blocks, view, m);
      Replace(r, m.(count := m.count - 1), view[m.id], blocks);
      assert view == old(view);
    }

    /** The memset of delete_inode. */
    method Delete(r: nat)
      requires Valid() && r < NR_INODE && slots[r].id.dev != 0
      modifies this`slots, this`blocks, this`view, this`at
      ensures Valid() && slots == old(slots)[r := MInode(Id(0, 0), Blank(), 0, false, false)]
              && at == old(at) - {old(slots[r]).id}
      ensures blocks == old(blocks)
              && view == old(view)[old(slots[r]).id := DiskInode(supers, blocks, old(slots[r]).id)]
    {
      var m := slots[r];
      assert SlotOk(supers, blocks, view, m);
      Replace(r, m.(dirt := false, d := Blank()), DiskInode(supers, blocks, m.id), blocks);
      Reuse(r, Id(0, 0), 0);
    }

    /** sync_all_inodes_to_buff: afterwards every inode is on the disk as it is. */
    method SyncAll()
      requires Valid()
      modifies this`slots, this`blocks, this`view
      ensures Valid() && view == old(view)
      ensures forall id :: DiskInode(supers, blocks, id) == view[id]
    {
      for i := 0 to NR_INODE
        invariant Valid() && view == old(view) && forall j | 0 <= j < i :: !slots[j].dirt
      {
        if slots[i].dirt { SyncInode(i); }
      }
      forall id ensures DiskInode(supers, blocks, id) == view[id] {
        assert Absent(supers, blocks, view, at, id) && Names(slots, at, id);
        if id in at { assert SlotOk(supers, blocks, view, slots[at[id]]); }
      }
    }

    /** At every moment no two slots hold the same inode. */
    lemma NoTwins(i: nat, j: nat)
      requires Valid() && i < NR_INODE && j < NR_INODE && slots[i].id == slots[j].id && slots[i].id.dev != 0
      ensures i == j
    {
      assert Indexed(slots, at, i) && Indexed(slots, at, j);
    }
  }
}
