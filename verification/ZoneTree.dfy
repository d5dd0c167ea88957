/** The shape of a file: where the zone numbers of an inode live, and which block each logical index leads to. */
module ZoneTree {
  import opened Bytes

  const DIRECT: nat := 7
  const PER_BLOCK: nat := 512
  const MAX_BLOCKS: nat := 7 + 512 + 512 * 512
  const S_IFMT: bv16 := 0xF000
  const S_IFREG: bv16 := 0x8000
  const S_IFDIR: bv16 := 0x4000

  type Blocks = imap<nat, Block>

  datatype Inode = Inode(mode: bv16, nlinks: nat, size: nat, zones: seq<nat>, dirt: bool)

  predicate Shrinkable(mode: bv16) {
    mode & S_IFMT == S_IFREG || mode & S_IFMT == S_IFDIR
  }

  // ------------------------------------------------------------------ 16-bit words in a block

  function Word(b: Block, i: nat): (v: nat)
    requires i < PER_BLOCK
    ensures v < 0x1_0000
  {
    (b[2 * i] as int) + 0x100 * (b[2 * i + 1] as int)
  }

  function SetWord(b: Block, i: nat, v: nat): (r: Block)
    requires i < PER_BLOCK && v < 0x1_0000
    ensures Word(r, i) == v && forall j | 0 <= j < PER_BLOCK && j != i :: Word(r, j) == Word(b, j)
  {
    var lo: byte, hi: byte := v % 0x100, v / 0x100;
    b[..2 * i] + [lo, hi] + b[2 * i + 2..]
  }

  function Zeroed(): (b: Block)
    ensures forall i | 0 <= i < PER_BLOCK :: Word(b, i) == 0
  {
    seq(1024, _ => 0)
  }

  // ------------------------------------------------------------------ slots

  /** Every place that can hold a zone number of one file. */
  datatype Slot =
    | Direct(i: nat)
    | Single
    | SingleEntry(i: nat)
    | Double
    | DoubleEntry(i: nat)
    | DoubleLeaf(i: nat, j: nat)
  {
    predicate Exists() {
      match this
      case Direct(i) => i < DIRECT
      case SingleEntry(i) => i < PER_BLOCK
      case DoubleEntry(i) => i < PER_BLOCK
      case DoubleLeaf(i, j) => i < PER_BLOCK && j < PER_BLOCK
      case _ => true
    }
  }

  function Entry(blocks: Blocks, m: nat, i: nat): nat
    requires i < PER_BLOCK && m in blocks
  {
    if m == 0 then 0 else Word(blocks[m], i)
  }

  ghost predicate Total(blocks: Blocks) { forall z: nat :: z in blocks }

  ghost function ZoneAt(zones: seq<nat>, blocks: Blocks, s: Slot): nat
    requires |zones| == 9 && Total(blocks) && s.Exists()
  {
    match s
    case Direct(i) => zones[i]
    case Single => zones[7]
    case SingleEntry(i) => Entry(blocks, zones[7], i)
    case Double => zones[8]
    case DoubleEntry(i) => Entry(blocks, zones[8], i)
    case DoubleLeaf(i, j) => Entry(blocks, Entry(blocks, zones[8], i), j)
  }

  /** The data slot of a logical block. */
  function SlotOf(block: nat): (s: Slot)
    requires block < MAX_BLOCKS
    ensures s.Exists()
  {
    if block < DIRECT then Direct(block)
    else if block < DIRECT + PER_BLOCK then SingleEntry(block - DIRECT)
    else DoubleLeaf((block - DIRECT - PER_BLOCK) / PER_BLOCK, (block - DIRECT - PER_BLOCK) % PER_BLOCK)
  }

  lemma SlotOfInjective(a: nat, b: nat)
    requires a < MAX_BLOCKS && b < MAX_BLOCKS && SlotOf(a) == SlotOf(b)
    ensures a == b
  {
  }

  // ------------------------------------------------------------------ all files together

  datatype Loc = Loc(n: nat, s: Slot)

  ghost predicate Shaped(inodes: map<nat, Inode>) {
    forall n | n in inodes :: |inodes[n].zones| == 9
  }

  /** The zone number held at a place, 0 when there is none. */
  ghost function At(inodes: map<nat, Inode>, blocks: Blocks, a: Loc): nat
    requires Shaped(inodes) && Total(blocks)
  {
    if a.n in inodes && a.s.Exists() then ZoneAt(inodes[a.n].zones, blocks, a.s) else 0
  }

  ghost predicate Shares(inodes: map<nat, Inode>, blocks: Blocks, a: Loc, b: Loc)
    requires Shaped(inodes) && Total(blocks)
  {
    a != b && At(inodes, blocks, a) != 0 && At(inodes, blocks, a) == At(inodes, blocks, b)
  }

  /** No zone is reachable in two ways. */
  ghost predicate Disjoint(inodes: map<nat, Inode>, blocks: Blocks)
    requires Shaped(inodes) && Total(blocks)
  {
    forall a, b :: !Shares(inodes, blocks, a, b)
  }

  ghost predicate Owned(inodes: map<nat, Inode>, blocks: Blocks, z: nat)
    requires Shaped(inodes) && Total(blocks)
  {
    exists a: Loc :: z == At(inodes, blocks, a) != 0
  }

  /** Both states hold the same zone everywhere except at `at`, where the second holds `z`. */
  ghost predicate OnlyAt(i0: map<nat, Inode>, b0: Blocks, i1: map<nat, Inode>, b1: Blocks, at: Loc, z: nat)
    requires Shaped(i0) && Total(b0) && Shaped(i1) && Total(b1)
  {
    forall a: Loc :: SetAt(i0, b0, i1, b1, at, z, a)
  }

  ghost predicate SetAt(i0: map<nat, Inode>, b0: Blocks, i1: map<nat, Inode>, b1: Blocks, at: Loc, z: nat, a: Loc)
    requires Shaped(i0) && Total(b0) && Shaped(i1) && Total(b1)
  {
    At(i1, b1, a) == if a == at then z else At(i0, b0, a)
  }

  /** Rewriting a block that is no file's leaves every place as it was. */
  lemma UnownedBlock(inodes: map<nat, Inode>, blocks: Blocks, z: nat, b: Block, a: Loc)
    requires Shaped(inodes) && Total(blocks) && !Owned(inodes, blocks, z)
    ensures At(inodes, blocks[z := b], a) == At(inodes, blocks, a)
  {
    if a.n in inodes && a.s.Exists() {
      match a.s
      case SingleEntry(i) =>
        assert At(inodes, blocks, Loc(a.n, Single)) == inodes[a.n].zones[7];
      case DoubleEntry(i) =>
        assert At(inodes, blocks, Loc(a.n, Double)) == inodes[a.n].zones[8];
      case DoubleLeaf(i, j) =>
        assert At(inodes, blocks, Loc(a.n, Double)) == inodes[a.n].zones[8];
        assert At(inodes, blocks, Loc(a.n, DoubleEntry(i))) == Entry(blocks, inodes[a.n].zones[8], i);
      case _ =>
    }
  }

  /** Moving no zone first and then setting one place sets just that place. */
  lemma OnlyAtAfter(i0: map<nat, Inode>, b0: Blocks, b1: Blocks, i2: map<nat, Inode>, b2: Blocks, at: Loc, z: nat)
    requires Shaped(i0) && Total(b0) && Total(b1) && Shaped(i2) && Total(b2)
    requires (forall a :: At(i0, b1, a) == At(i0, b0, a)) && OnlyAt(i0, b1, i2, b2, at, z)
    ensures OnlyAt(i0, b0, i2, b2, at, z)
  {
    forall a: Loc ensures SetAt(i0, b0, i2, b2, at, z, a) { assert SetAt(i0, b1, i2, b2, at, z, a); }
  }

  lemma OnlyAtNothing(i0: map<nat, Inode>, b0: Blocks, b1: Blocks, at: Loc)
    requires Shaped(i0) && Total(b0) && Total(b1)
    requires (forall a :: At(i0, b1, a) == At(i0, b0, a)) && At(i0, b0, at) == 0
    ensures OnlyAt(i0, b0, i0, b1, at, 0)
  {
  }

  /** The place of the inode's own zone number `k`. */
  function InodeSlot(k: nat): Slot
    requires k < 9
  {
    if k < 7 then Direct(k) else if k == 7 then Single else Double
  }

  /** Setting an empty zone number of the inode itself to a zeroed zone. */
  lemma LinkInInode(inodes: map<nat, Inode>, blocks: Blocks, n: nat, k: nat, z: nat, ino: Inode)
    requires Shaped(inodes) && Total(blocks) && n in inodes && k < 9 && inodes[n].zones[k] == 0
    requires ino.zones == inodes[n].zones[k := z] && blocks[z] == Zeroed()
    ensures Shaped(inodes[n := ino])
    ensures OnlyAt(inodes, blocks, inodes[n := ino], blocks, Loc(n, InodeSlot(k)), z)
  {
    var at := Loc(n, InodeSlot(k));
    var inodes' := inodes[n := ino];
    forall a: Loc ensures SetAt(inodes, blocks, inodes', blocks, at, z, a) {
      if a.n == n && a.s.DoubleLeaf? && a.s.Exists() {
        assert Entry(blocks, ino.zones[8], a.s.i) == Entry(blocks, inodes[n].zones[8], a.s.i);
      }
    }
  }

  /** The index block behind a place, and the place that its entry `i` is. */
  predicate Child(parent: Slot, i: nat, child: Slot) {
    i < PER_BLOCK && match parent
                     case Single => child == SingleEntry(i)
                     case Double => child == DoubleEntry(i)
                     case DoubleEntry(k) => k < PER_BLOCK && child == DoubleLeaf(k, i)
                     case _ => false
  }

  /** A place behind an index block holds that block's entry. */
  lemma EntryPlace(inodes: map<nat, Inode>, blocks: Blocks, n: nat, parent: Slot, i: nat, child: Slot)
    requires Shaped(inodes) && Total(blocks) && n in inodes && Child(parent, i, child)
    ensures At(inodes, blocks, Loc(n, child)) == Entry(blocks, At(inodes, blocks, Loc(n, parent)), i)
  {
  }

  /** Setting an empty entry of an index block to a zeroed zone. */
  lemma LinkInBlock(inodes: map<nat, Inode>, blocks: Blocks, n: nat, parent: Slot, i: nat, child: Slot, z: nat)
    requires Shaped(inodes) && Total(blocks) && Disjoint(inodes, blocks)
    requires n in inodes && Child(parent, i, child) && z < 0x1_0000
    requires var m := At(inodes, blocks, Loc(n, parent)); m != 0 && m != z && Word(blocks[m], i) == 0
    requires blocks[z] == Zeroed()
    ensures var m := At(inodes, blocks, Loc(n, parent));
            OnlyAt(inodes, blocks, inodes, blocks[m := SetWord(blocks[m], i, z)], Loc(n, child), z)
  {
    var m := At(inodes, blocks, Loc(n, parent));
    var blocks' := blocks[m := SetWord(blocks[m], i, z)];
    forall a: Loc ensures SetAt(inodes, blocks, inodes, blocks', Loc(n, child), z, a) {
      if a.n in inodes && a.s.Exists() {
        var zones := inodes[a.n].zones;
        match a.s
        case SingleEntry(_) => assert !Shares(inodes, blocks, Loc(a.n, Single), Loc(n, parent));
        case DoubleEntry(_) => assert !Shares(inodes, blocks, Loc(a.n, Double), Loc(n, parent));
        case DoubleLeaf(k, j) =>
          assert !Shares(inodes, blocks, Loc(a.n, Double), Loc(n, parent));
          assert !Shares(inodes, blocks, Loc(a.n, DoubleEntry(k)), Loc(n, parent));
          assert At(inodes, blocks, Loc(a.n, DoubleEntry(k))) == Entry(blocks, zones[8], k);
        case _ =>
      }
    }
  }

  /** Giving a place that was empty a zone that nobody owned keeps all zones apart. */
  lemma FreshStaysDisjoint(i0: map<nat, Inode>, b0: Blocks, i1: map<nat, Inode>, b1: Blocks, at: Loc, z: nat)
    requires Shaped(i0) && Total(b0) && Shaped(i1) && Total(b1)
    requires Disjoint(i0, b0) && !Owned(i0, b0, z) && OnlyAt(i0, b0, i1, b1, at, z)
    ensures Disjoint(i1, b1)
  {
    forall a, b ensures !Shares(i1, b1, a, b) {
      assert SetAt(i0, b0, i1, b1, at, z, a) && SetAt(i0, b0, i1, b1, at, z, b) && !Shares(i0, b0, a, b);
    }
  }

  /** Rewriting a data block of a file leaves every place as it was. */
  lemma DataBlock(inodes: map<nat, Inode>, blocks: Blocks, at: Loc, b: Block, a: Loc)
    requires Shaped(inodes) && Total(blocks) && Disjoint(inodes, blocks)
    requires (at.s.Direct? || at.s.SingleEntry? || at.s.DoubleLeaf?) && At(inodes, blocks, at) != 0
    ensures At(inodes, blocks[At(inodes, blocks, at) := b], a) == At(inodes, blocks, a)
  {
    if a.n in inodes && a.s.Exists() {
      match a.s
      case SingleEntry(_) => assert !Shares(inodes, blocks, at, Loc(a.n, Single));
      case DoubleEntry(_) => assert !Shares(inodes, blocks, at, Loc(a.n, Double));
      case DoubleLeaf(i, _) =>
        assert !Shares(inodes, blocks, at, Loc(a.n, Double)) && !Shares(inodes, blocks, at, Loc(a.n, DoubleEntry(i)));
        assert At(inodes, blocks, Loc(a.n, DoubleEntry(i))) == Entry(blocks, inodes[a.n].zones[8], i);
      case _ =>
    }
  }
}
