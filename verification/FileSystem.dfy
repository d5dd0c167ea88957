/** Zones and files of fs/zone.c and fs/inode.c, on one device. The buffer cache below is seen through what it
    promises: `blocks` is what each block shows, `refs` how many holders its buffer has. */
module FileSystem {
  import opened Bytes
  import opened ZoneTree
  import opened Bitmaps
  import opened Reach

  type Refs = imap<nat, nat>

  ghost predicate Counted(refs: Refs) { forall z: nat :: z in refs }

  ghost predicate Taken(sb: Super, zbits: seq<bool>, z: nat) {
    sb.first <= z < sb.nzones && z - sb.first + 1 < |zbits| && zbits[z - sb.first + 1]
  }

  /** A zone in a file is one that exists and is marked. */
  ghost predicate Marked(sb: Super, zbits: seq<bool>, inodes: map<nat, Inode>, blocks: Blocks, a: Loc)
    requires Shaped(inodes) && Total(blocks)
  {
    At(inodes, blocks, a) != 0 ==> Taken(sb, zbits, At(inodes, blocks, a))
  }

  /** Nobody holds a free zone, nor block 0. */
  ghost predicate Quiet(sb: Super, zbits: seq<bool>, refs: Refs, z: nat)
    requires Counted(refs)
  {
    z == 0 || (sb.first <= z < sb.nzones && !Taken(sb, zbits, z)) ==> refs[z] == 0
  }

  /** The ownership invariant. */
  ghost predicate Sound(sb: Super, zbits: seq<bool>, inodes: map<nat, Inode>, blocks: Blocks, refs: Refs) {
    && Shaped(inodes) && Total(blocks) && Counted(refs)
    && Disjoint(inodes, blocks)
    && (forall a :: Marked(sb, zbits, inodes, blocks, a))
    && (forall z :: Quiet(sb, zbits, refs, z))
  }

  /** Linking a fresh zone into an empty place keeps the ownership invariant. */
  lemma LinkSound(sb: Super, zbits: seq<bool>, i0: map<nat, Inode>, b0: Blocks, i1: map<nat, Inode>, b1: Blocks,
                  refs: Refs, at: Loc, z: nat)
    requires Sound(sb, zbits, i0, b0, refs) && Shaped(i1) && Total(b1)
    requires !Owned(i0, b0, z) && OnlyAt(i0, b0, i1, b1, at, z) && (z != 0 ==> Taken(sb, zbits, z))
    ensures Sound(sb, zbits, i1, b1, refs)
  {
    FreshStaysDisjoint(i0, b0, i1, b1, at, z);
    forall a ensures Marked(sb, zbits, i1, b1, a) {
      assert SetAt(i0, b0, i1, b1, at, z, a) && Marked(sb, zbits, i0, b0, a);
    }
  }

  lemma LinkInodeSound(sb: Super, zbits: seq<bool>, inodes: map<nat, Inode>, blocks: Blocks, refs: Refs, n: nat, k: nat,
                       s: Slot, z: nat, ino: Inode)
    requires Sound(sb, zbits, inodes, blocks, refs) && n in inodes && k < 9 && inodes[n].zones[k] == 0
    requires s == InodeSlot(k)
    requires ino.zones == inodes[n].zones[k := z] && blocks[z] == Zeroed() && !Owned(inodes, blocks, z)
             && (z != 0 ==> Taken(sb, zbits, z))
    ensures Sound(sb, zbits, inodes[n := ino], blocks, refs)
            && OnlyAt(inodes, blocks, inodes[n := ino], blocks, Loc(n, s), z)
  {
    LinkInInode(inodes, blocks, n, k, z, ino);
    LinkSound(sb, zbits, inodes, blocks, inodes[n := ino], blocks, refs, Loc(n, s), z);
  }

  /** Holding or releasing a zone that is in use keeps the ownership invariant. */
  lemma HoldSound(sb: Super, zbits: seq<bool>, inodes: map<nat, Inode>, blocks: Blocks, refs: Refs, m: nat, c: nat)
    requires Sound(sb, zbits, inodes, blocks, refs) && m != 0 && Taken(sb, zbits, m)
    ensures Sound(sb, zbits, inodes, blocks, refs[m := c])
  {
    var refs' := refs[m := c];
    forall x ensures Quiet(sb, zbits, refs', x) { assert Quiet(sb, zbits, refs, x); }
  }

  // ------------------------------------------------------------------ growth

  ghost predicate IsIndex(s: Slot) { s.Single? || s.Double? || s.DoubleEntry? }

  /** The places that logical block `b` may need: its own and those of the index blocks before it. */
  function Path(b: nat): set<Slot>
    requires b < MAX_BLOCKS
  {
    match SlotOf(b)
    case SingleEntry(i) => {Single, SingleEntry(i)}
    case DoubleLeaf(i, j) => {Double, DoubleEntry(i), DoubleLeaf(i, j)}
    case s => {s}
  }

  datatype Image = Image(inodes: map<nat, Inode>, blocks: Blocks, zbits: seq<bool>) {
    ghost predicate Ok() { Shaped(inodes) && Total(blocks) }
    ghost function Zone(a: Loc): nat requires Ok() { At(inodes, blocks, a) }
  }

  ghost predicate SamePlace(s0: Image, s1: Image, n: nat, places: set<Slot>, a: Loc)
    requires s0.Ok() && s1.Ok()
  {
    s1.Zone(a) == s0.Zone(a) || (a.n == n && a.s in places && s0.Zone(a) == 0)
  }

  ghost predicate SameBlock(s0: Image, s1: Image, n: nat, got: set<nat>, x: nat)
    requires s0.Ok() && s1.Ok()
  {
    x == 0 || x in got || s1.blocks[x] == s0.blocks[x] || exists p: Slot :: IsIndex(p) && s1.Zone(Loc(n, p)) == x
  }

  ghost predicate SameBit(first: nat, z0: seq<bool>, z1: seq<bool>, got: set<nat>, p: nat) {
    p < |z0| == |z1| ==> (z1[p] <==> z0[p] || p + first - 1 in got)
  }

  /** From s0 to s1 only empty places of file `n` among `places` were filled, with the zones `got`, none of them
      taken before; blocks outside these, block 0 and the file's index blocks are untouched. */
  ghost predicate Grows(first: nat, s0: Image, s1: Image, n: nat, places: set<Slot>, got: set<nat>) {
    && s0.Ok() && s1.Ok() && |s1.zbits| == |s0.zbits|
    && s1.inodes.Keys == s0.inodes.Keys
    && (forall k | k in s0.inodes && k != n :: s1.inodes[k] == s0.inodes[k])
    && (n in s0.inodes ==> var i0, i1 := s0.inodes[n], s1.inodes[n];
          i1 == i0.(zones := i1.zones, dirt := i1.dirt) && (i1.zones != i0.zones || i0.dirt ==> i1.dirt))
    && (forall a :: SamePlace(s0, s1, n, places, a))
    && (forall x :: SameBlock(s0, s1, n, got, x))
    && (forall p :: SameBit(first, s0.zbits, s1.zbits, got, p))
    && (forall z | z in got :: first <= z && z - first + 1 < |s0.zbits| && !s0.zbits[z - first + 1])
  }

  lemma GrowsTrans(first: nat, s0: Image, s1: Image, s2: Image, n: nat, p1: set<Slot>, p2: set<Slot>, g1: set<nat>,
                   g2: set<nat>)
    requires Grows(first, s0, s1, n, p1, g1) && Grows(first, s1, s2, n, p2, g2)
    ensures Grows(first, s0, s2, n, p1 + p2, g1 + g2)
  {
    forall a ensures SamePlace(s0, s2, n, p1 + p2, a) {
      assert SamePlace(s0, s1, n, p1, a) && SamePlace(s1, s2, n, p2, a);
    }
    forall x ensures SameBlock(s0, s2, n, g1 + g2, x) {
      assert SameBlock(s0, s1, n, g1, x) && SameBlock(s1, s2, n, g2, x);
      if p: Slot :| IsIndex(p) && s1.Zone(Loc(n, p)) == x && x != 0 { assert SamePlace(s1, s2, n, p2, Loc(n, p)); }
    }
    forall p ensures SameBit(first, s0.zbits, s2.zbits, g1 + g2, p) {
      assert SameBit(first, s0.zbits, s1.zbits, g1, p) && SameBit(first, s1.zbits, s2.zbits, g2, p);
    }
    forall z | z in g2 ensures !s0.zbits[z - first + 1] {
      assert SameBit(first, s0.zbits, s1.zbits, g1, z - first + 1);
    }
  }

  lemma GrowsNot(first: nat, s: Image, n: nat, places: set<Slot>)
    requires s.Ok()
    ensures Grows(first, s, s, n, places, {})
  {
    forall x ensures SameBlock(s, s, n, {}, x) { }
  }

  lemma UnionSize<T>(a: set<T>, b: set<T>)
    ensures |a + b| <= |a| + |b|
  {
    assert a + b == a + (b - a);
  }

  lemma GrowsMore(first: nat, s0: Image, s1: Image, n: nat, places: set<Slot>, more: set<Slot>, got: set<nat>)
    requires Grows(first, s0, s1, n, places, got) && places <= more
    ensures Grows(first, s0, s1, n, more, got)
  {
    forall a ensures SamePlace(s0, s1, n, more, a) { assert SamePlace(s0, s1, n, places, a); }
  }

  /** The file as a flat map from logical blocks to zones. */
  ghost function Lookup(s: Image, n: nat, b: nat): nat
    requires s.Ok() && b < MAX_BLOCKS
  {
    s.Zone(Loc(n, SlotOf(b)))
  }

  /** Entry `i` of the index block in zone `m`: a little-endian 16-bit number, or 0 when there is no such block. */
  ghost function Pair(blocks: Blocks, m: nat, i: nat): nat
    requires Total(blocks) && i < 512
  {
    if m == 0 then 0 else (blocks[m][2 * i] as int) + 0x100 * (blocks[m][2 * i + 1] as int)
  }

  /** Where the zone of each logical block is found: the first seven in the inode, the next 512 in the block named by
      the eighth number there, and the rest, 512 times 512, in the blocks named in the block named by the ninth. */
  lemma LookupMeans(s: Image, n: nat, b: nat)
    requires s.Ok() && n in s.inodes && b < 7 + 512 + 512 * 512
    ensures Lookup(s, n, b) == FlatZone(s.inodes[n].zones, s.blocks, b)
    ensures s.Zone(Loc(n, Single)) == s.inodes[n].zones[7] && s.Zone(Loc(n, Double)) == s.inodes[n].zones[8]
    ensures forall i | 0 <= i < 512 :: s.Zone(Loc(n, DoubleEntry(i))) == Pair(s.blocks, s.inodes[n].zones[8], i)
  {
  }

  ghost function FlatZone(zones: seq<nat>, blocks: Blocks, b: nat): nat
    requires |zones| == 9 && Total(blocks) && b < 7 + 512 + 512 * 512
  {
    if b < 7 then zones[b]
    else if b < 519 then Pair(blocks, zones[7], b - 7)
    else Pair(blocks, Pair(blocks, zones[8], (b - 519) / 512), (b - 519) % 512)
  }

  /** Seen as flat maps, only file `n`'s entry `b` can have changed, and every block of every file kept its bytes. */
  lemma GrowsFlat(first: nat, s0: Image, s1: Image, n: nat, b: nat, got: set<nat>, n': nat, b': nat)
    requires b < MAX_BLOCKS && b' < MAX_BLOCKS && Grows(first, s0, s1, n, Path(b), got)
    requires Disjoint(s1.inodes, s1.blocks) && forall z | z in got :: !Owned(s0.inodes, s0.blocks, z)
    ensures (n', b') != (n, b) ==> Lookup(s1, n', b') == Lookup(s0, n', b')
    ensures Lookup(s0, n', b') != 0 ==>
            Lookup(s1, n', b') == Lookup(s0, n', b')
            && s1.blocks[Lookup(s0, n', b')] == s0.blocks[Lookup(s0, n', b')]
  {
    if SlotOf(b') == SlotOf(b) { SlotOfInjective(b, b'); }
    assert SamePlace(s0, s1, n, Path(b), Loc(n', SlotOf(b')));
    if Lookup(s0, n', b') != 0 { GrowsKeeps(first, s0, s1, n, Path(b), got, n', b'); }
  }

  // ------------------------------------------------------------------ release

  ghost predicate FreedBit(first: nat, z0: seq<bool>, z1: seq<bool>, gone: set<nat>, p: nat) {
    p < |z0| == |z1| ==> (z1[p] <==> z0[p] && p + first - 1 !in gone)
  }

  ghost predicate FreedRef(r0: Refs, r1: Refs, gone: set<nat>, x: nat)
    requires Counted(r0) && Counted(r1)
  {
    r1[x] == r0[x] + (if x in gone && r0[x] > 0 then 1 else 0)
  }

  ghost predicate FreedBlock(b0: Blocks, b1: Blocks, gone: set<nat>, x: nat)
    requires Total(b0) && Total(b1)
  {
    x !in gone ==> b1[x] == b0[x]
  }

  datatype Usage = Usage(zbits: seq<bool>, blocks: Blocks, refs: Refs) {
    ghost predicate Ok() { Total(blocks) && Counted(refs) }
  }

  /** Exactly the zones in `gone` were given back: their bits are clear, the bytes of all other blocks are the same,
      and a reference was lost on just those of them that somebody held. */
  ghost predicate Freed(first: nat, u0: Usage, u1: Usage, gone: set<nat>) {
    && u0.Ok() && u1.Ok() && |u1.zbits| == |u0.zbits|
    && (forall p :: FreedBit(first, u0.zbits, u1.zbits, gone, p))
    && (forall x :: FreedRef(u0.refs, u1.refs, gone, x))
    && (forall x :: FreedBlock(u0.blocks, u1.blocks, gone, x))
  }

  lemma FreedTrans(first: nat, u0: Usage, u1: Usage, u2: Usage, g1: set<nat>, g2: set<nat>)
    requires Freed(first, u0, u1, g1) && Freed(first, u1, u2, g2) && g1 !! g2
    ensures Freed(first, u0, u2, g1 + g2)
  {
    forall p ensures FreedBit(first, u0.zbits, u2.zbits, g1 + g2, p) {
      assert FreedBit(first, u0.zbits, u1.zbits, g1, p) && FreedBit(first, u1.zbits, u2.zbits, g2, p);
    }
    forall x ensures FreedRef(u0.refs, u2.refs, g1 + g2, x) {
      assert FreedRef(u0.refs, u1.refs, g1, x) && FreedRef(u1.refs, u2.refs, g2, x);
    }
    forall x ensures FreedBlock(u0.blocks, u2.blocks, g1 + g2, x) {
      assert FreedBlock(u0.blocks, u1.blocks, g1, x) && FreedBlock(u1.blocks, u2.blocks, g2, x);
    }
  }

  /** Holding a zone while others are given back makes no difference. */
  lemma FreedHeld(first: nat, u0: Usage, u1: Usage, gone: set<nat>, m: nat)
    requires u0.Ok() && Freed(first, u0.(refs := u0.refs[m := u0.refs[m] + 1]), u1, gone) && m !in gone
    ensures u1.refs[m] > 0 && Freed(first, u0, u1.(refs := u1.refs[m := u1.refs[m] - 1]), gone)
  {
    var r0, r1 := u0.refs[m := u0.refs[m] + 1], u1.refs;
    assert FreedRef(r0, r1, gone, m);
    var r2 := r1[m := r1[m] - 1];
    forall x ensures FreedRef(u0.refs, r2, gone, x) { assert FreedRef(r0, r1, gone, x); }
  }

  lemma FreedNothing(first: nat, u: Usage)
    requires u.Ok()
    ensures Freed(first, u, u, {})
  {
    forall p ensures FreedBit(first, u.zbits, u.zbits, {}, p) { }
    forall x ensures FreedRef(u.refs, u.refs, {}, x) { }
    forall x ensures FreedBlock(u.blocks, u.blocks, {}, x) { }
  }

  /** The zone numbers with the first `k` cleared. */
  function Cleared(zones: seq<nat>, k: nat): (r: seq<nat>)
    ensures |r| == |zones| && forall i | 0 <= i < |zones| :: r[i] == if i < k then 0 else zones[i]
  {
    seq(|zones|, i requires 0 <= i < |zones| => if i < k then 0 else zones[i])
  }

  lemma ClearedStep(zones: seq<nat>, k: nat)
    requires k < |zones|
    ensures Cleared(zones, k)[k := 0] == Cleared(zones, k + 1) && Cleared(zones, 0) == zones
    ensures zones[k] == 0 ==> Cleared(zones, k) == Cleared(zones, k + 1)
  {
  }

  /** What new_inode and create_inode leave in the slot. */
  function NewInode(): Inode { Inode(0, 1, 0, [0, 0, 0, 0, 0, 0, 0, 0, 0], true) }

  lemma NoPlaces(i0: map<nat, Inode>, blocks: Blocks, n: nat, a: Loc)
    requires Shaped(i0) && Total(blocks) && n !in i0
    ensures Shaped(i0[n := NewInode()]) && At(i0[n := NewInode()], blocks, a) == At(i0, blocks, a)
  {
  }

  function Emptied(i: Inode): Inode { i.(zones := Cleared(i.zones, 9), size := 0, dirt := true) }

  /** After file `n` gave back all it reached and was emptied, it holds nothing and every other file what it held. */
  lemma EmptiedPlaces(i0: map<nat, Inode>, b0: Blocks, b1: Blocks, n: nat, a: Loc)
    requires Shaped(i0) && Total(b0) && Total(b1) && Disjoint(i0, b0) && n in i0
    requires forall x :: FreedBlock(b0, b1, Reachable(i0[n].zones, b0), x)
    ensures At(i0[n := Emptied(i0[n])], b1, a) == if a.n == n then 0 else At(i0, b0, a)
  {
    if a.n != n && a.n in i0 && a.s.Exists() {
      forall p: Slot | IsIndex(p)
        && p.Exists() ensures FreedBlock(b0, b1, Reachable(i0[n].zones, b0), At(i0, b0, Loc(a.n, p)))
        && (At(i0, b0, Loc(a.n, p)) != 0 ==> b1[At(i0, b0, Loc(a.n, p))] == b0[At(i0, b0, Loc(a.n, p))])
      {
        var z := At(i0, b0, Loc(a.n, p));
        ReachableIsHeld(i0[n].zones, b0, z);
        if z != 0 {
          forall s: Slot ensures !ReachedAt(i0[n].zones, b0, z, s) { assert !Shares(i0, b0, Loc(a.n, p), Loc(n, s)); }
        }
      }
      match a.s
      case SingleEntry(i) => assert At(i0, b0, Loc(a.n, Single)) == i0[a.n].zones[7];
      case DoubleEntry(i) => assert At(i0, b0, Loc(a.n, Double)) == i0[a.n].zones[8];
      case DoubleLeaf(i, j) =>
        assert At(i0, b0, Loc(a.n, Double)) == i0[a.n].zones[8];
        assert At(i0, b0, Loc(a.n, DoubleEntry(i))) == Entry(b0, i0[a.n].zones[8], i);
      case _ =>
    }
  }

  /** The number of free zones goes up by the number of zones given back. */
  lemma {:induction false} FreedZeros(first: nat, z0: seq<bool>, z1: seq<bool>, gone: set<nat>, n: nat)
    requires n <= |z0| == |z1| && 1 <= first && forall p :: FreedBit(first, z0, z1, gone, p)
    requires forall z | z in gone :: first <= z && z - first + 1 < |z0| && z0[z - first + 1]
    ensures Zeros(z1, n) == Zeros(z0, n) + |set z | z in gone && z - first + 1 < n|
  {
    var below := set z | z in gone && z - first + 1 < n;
    if n == 0 {
      assert below == {};
    } else {
      FreedZeros(first, z0, z1, gone, n - 1);
      assert FreedBit(first, z0, z1, gone, n - 1);
      var rest := set z | z in gone && z - first + 1 < n - 1;
      if n + first - 2 in gone {
        assert below == rest + {n + first - 2};
      } else {
        assert below == rest;
      }
    }
  }

  /** What was not given back is still there to be walked. */
  lemma FreedIndirect(first: nat, u0: Usage, u1: Usage, gone: set<nat>, m: nat)
    requires Freed(first, u0, u1, gone) && gone !! Indirect(u0.blocks, m) && OnceInIndirect(u0.blocks, m)
    ensures Indirect(u1.blocks, m) == Indirect(u0.blocks, m) && OnceInIndirect(u1.blocks, m)
  {
    if m != 0 {
      assert m in Indirect(u0.blocks, m) && FreedBlock(u0.blocks, u1.blocks, gone, m);
    }
  }

  lemma FreedDouble(first: nat, u0: Usage, u1: Usage, gone: set<nat>, m: nat)
    requires Freed(first, u0, u1, gone) && gone !! DoubleIndirect(u0.blocks, m) && OnceInDouble(u0.blocks, m)
    ensures DoubleIndirect(u1.blocks, m) == DoubleIndirect(u0.blocks, m) && OnceInDouble(u1.blocks, m)
  {
    forall x | x in DoubleIndirect(u0.blocks, m) ensures u1.blocks[x] == u0.blocks[x] {
      assert FreedBlock(u0.blocks, u1.blocks, gone, x);
    }
    DoubleFrame(u0.blocks, u1.blocks, m);
  }

  /** A block that a file had keeps its zone and its bytes while files grow. */
  lemma GrowsKeeps(first: nat, s0: Image, s1: Image, n: nat, places: set<Slot>, got: set<nat>, n': nat, b': nat)
    requires b' < MAX_BLOCKS && Grows(first, s0, s1, n, places, got)
    requires Disjoint(s1.inodes, s1.blocks) && forall z | z in got :: !Owned(s0.inodes, s0.blocks, z)
    requires Lookup(s0, n', b') != 0
    ensures Lookup(s1, n', b') == Lookup(s0, n', b') && s1.blocks[Lookup(s0, n', b')] == s0.blocks[Lookup(s0, n', b')]
  {
    var a := Loc(n', SlotOf(b'));
    assert SamePlace(s0, s1, n, places, a) && SameBlock(s0, s1, n, got, s0.Zone(a));
    forall p: Slot | IsIndex(p) ensures s1.Zone(Loc(n, p)) != s0.Zone(a) {
      assert !Shares(s1.inodes, s1.blocks, a, Loc(n, p));
    }
  }

  /** A device as mkfs leaves it, with one directory of one block, is sound whatever its other blocks hold. */
  lemma FormattedSound(sb: Super, z: nat, blocks: Blocks, refs: Refs)
    requires sb.Valid() && Taken(sb, sb.zbits, z) && Total(blocks) && Counted(refs) && forall x: nat :: refs[x] == 0
    ensures Sound(sb, sb.zbits, Formatted(z), blocks, refs) && Shrinkable(Formatted(z)[1].mode)
  {
    forall a ensures At(Formatted(z), blocks, a) == if a == Loc(1, Direct(0)) then z else 0 { }
  }

  function Formatted(z: nat): map<nat, Inode> {
    map[1 := Inode(S_IFDIR, 2, 64, [z, 0, 0, 0, 0, 0, 0, 0, 0], false)]
  }

  class FileSystem {
    const sb: Super
    var inodes: map<nat, Inode>
    var blocks: Blocks
    var refs: Refs

    ghost predicate Valid()
      reads this, sb
    {
      && sb.Valid() && sb.Padded()
      && Sound(sb, sb.zbits, inodes, blocks, refs)
      && Live()
    }

    /** Every file has a number of its own that is marked as used. */
    ghost predicate Live()
      reads this, sb
    {
      forall n | n in inodes :: 1 <= n <= sb.ninodes < |sb.ibits| && sb.ibits[n]
    }

    /** A device as it is mounted: any image whose files satisfy the ownership invariant. */
    constructor (sb: Super, inodes: map<nat, Inode>, blocks: Blocks, refs: Refs)
      requires sb.Valid() && sb.Padded() && Sound(sb, sb.zbits, inodes, blocks, refs)
      requires forall n | n in inodes :: 1 <= n <= sb.ninodes && sb.ibits[n]
      ensures Valid() && this.sb == sb && this.inodes == inodes && this.blocks == blocks && this.refs == refs
    {
      this.sb, this.inodes, this.blocks, this.refs := sb, inodes, blocks, refs;
    }

    // ---------------------------------------------------------------- zone.c

    method ReadBuff(z: nat)
      requires Counted(refs)
      modifies this`refs
      ensures Counted(refs) && refs == old(refs)[z := old(refs)[z] + 1]
    {
      refs := refs[z := refs[z] + 1];
    }

    method PutBuff(z: nat)
      requires Counted(refs) && refs[z] > 0
      modifies this`refs
      ensures Counted(refs) && refs == old(refs)[z := old(refs)[z] - 1]
    {
      refs := refs[z := refs[z] - 1];
    }

    /** create_block: takes the lowest free zone and zeroes it. On a full device it returns 0,
        having zeroed what block 0 shows. No reference is left behind. */
    method CreateBlock() returns (z: nat)
      requires Valid()
      modifies this`blocks, this`refs, sb`zbits, sb`zmaps
      ensures Valid() && refs == old(refs) && blocks == old(blocks)[z := Zeroed()]
      ensures if z == 0 then sb.zbits == old(sb.zbits) && forall x | sb.first <= x < sb.nzones :: Taken(sb, sb.zbits, x)
              else sb.first <= z < sb.nzones && !old(Taken(sb, sb.zbits, z))
                   && sb.zbits == old(sb.zbits)[z - sb.first + 1 := true]
                   && forall x | sb.first <= x < z :: old(Taken(sb, sb.zbits, x))
      ensures forall a :: At(inodes, blocks, a) == At(inodes, old(blocks), a)
      ensures !Owned(inodes, blocks, z)
    {
      z := sb.AddZoneBitmap();
      assert !Owned(inodes, blocks, z) by {
        forall a: Loc ensures !(z == At(inodes, blocks, a) != 0) {
          assert Marked(sb, old(sb.zbits), inodes, blocks, a);
        }
      }
      assert Quiet(sb, old(sb.zbits), refs, z);
      ReadBuff(z);                      // get_buff
      assert refs[z] == 1;              // so its panic cannot happen
      blocks := blocks[z := Zeroed()];
      PutBuff(z);
      assert refs == old(refs);
      forall a ensures At(inodes, blocks, a) == At(inodes, old(blocks), a) {
        UnownedBlock(inodes, old(blocks), z, Zeroed(), a);
      }
      forall a ensures Marked(sb, sb.zbits, inodes, blocks, a) {
        assert Marked(sb, old(sb.zbits), inodes, old(blocks), a);
      }
      forall a, b ensures !Shares(inodes, blocks, a, b) { assert !Shares(inodes, old(blocks), a, b); }
      forall x ensures Quiet(sb, sb.zbits, refs, x) { assert Quiet(sb, old(sb.zbits), refs, x); }
    }

    // ---------------------------------------------------------------- growing a file

    ghost function Now(): Image
      reads this, sb
    {
      Image(inodes, blocks, sb.zbits)
    }

    /** What supplying a zone number at place `s` of file `n` came to: nothing when there was one or none was wanted;
        otherwise a zone nobody had is marked, zeroed and put there and nowhere else; or, on a full device,
        nothing but zeroing block 0. */
    ghost predicate Supplied(s0: Image, create: bool, n: nat, s: Slot, z: nat, got: set<nat>)
      reads this, sb
    {
      && Grows(sb.first, s0, Now(), n, {s}, got)
      && z == At(inodes, blocks, Loc(n, s))
      && if !create || s0.Zone(Loc(n, s)) != 0 then got == {} && Now() == s0
         else if z == 0 then
           got == {} && inodes == s0.inodes && sb.zbits == s0.zbits
             && forall x | sb.first <= x < sb.nzones :: Taken(sb, sb.zbits, x)
         else
           got == {z} && blocks[z] == Zeroed() && sb.first <= z < sb.nzones
    }

    lemma SuppliedGrows(s0: Image, n: nat, s: Slot, z: nat, got: set<nat>, m: nat)
      requires s0.Ok() && Now().Ok() && sb.Valid() && n in s0.inodes && n in inodes
      requires inodes == s0.inodes || inodes == s0.inodes[n := s0.inodes[n].(zones := inodes[n].zones, dirt := true)]
      requires OnlyAt(s0.inodes, s0.blocks, inodes, blocks, Loc(n, s), z) && s0.Zone(Loc(n, s)) == 0
      requires forall x: nat | x != z && x != 0 && x != m :: blocks[x] == s0.blocks[x]
      requires m != 0 ==> exists p: Slot :: IsIndex(p) && At(inodes, blocks, Loc(n, p)) == m
      requires z == 0 ==> sb.zbits == s0.zbits && got == {}
      requires z != 0 ==> got == {z} && sb.first <= z && |s0.zbits| == |sb.zbits| && z - sb.first + 1 < |sb.zbits|
                          && !s0.zbits[z - sb.first + 1] && sb.zbits == s0.zbits[z - sb.first + 1 := true]
      ensures Grows(sb.first, s0, Now(), n, {s}, got) && z == At(inodes, blocks, Loc(n, s))
    {
      assert SetAt(s0.inodes, s0.blocks, inodes, blocks, Loc(n, s), z, Loc(n, s));
      forall a ensures SamePlace(s0, Now(), n, {s}, a) {
        assert SetAt(s0.inodes, s0.blocks, inodes, blocks, Loc(n, s), z, a);
      }
      forall x ensures SameBlock(s0, Now(), n, got, x) { }
      forall p ensures SameBit(sb.first, s0.zbits, sb.zbits, got, p) { }
    }

    /** Puts a fresh zeroed zone into an empty zone number of the inode. */
    method LinkZone(n: nat, k: nat, s: Slot, z: nat)
      requires Valid() && n in inodes && k < 9 && s == InodeSlot(k) && inodes[n].zones[k] == 0
      requires z != 0 && blocks[z] == Zeroed() && !Owned(inodes, blocks, z) && Taken(sb, sb.zbits, z)
      modifies this`inodes
      ensures Valid() && n in inodes
              && inodes == old(inodes)[n := old(inodes)[n].(zones := inodes[n].zones, dirt := true)]
      ensures OnlyAt(old(inodes), blocks, inodes, blocks, Loc(n, s), z)
    {
      var ino := inodes[n].(zones := inodes[n].zones[k := z], dirt := true);
      LinkInodeSound(sb, sb.zbits, inodes, blocks, refs, n, k, s, z, ino);
      inodes := inodes[n := ino];
    }

    /** Fills an empty zone number of the inode. */
    method FillInInode(n: nat, k: nat, s: Slot) returns (z: nat, ghost got: set<nat>)
      requires Valid() && n in inodes && k < 9 && s == InodeSlot(k) && inodes[n].zones[k] == 0
      modifies this`inodes, this`blocks, this`refs, sb`zbits, sb`zmaps
      ensures Valid() && refs == old(refs) && Supplied(old(Now()), true, n, s, z, got)
    {
      got := {};
      ghost var s0 := Now();
      z := CreateBlock();
      ghost var mid := blocks;
      if z != 0 {
        got := {z};
        LinkZone(n, k, s, z);
        OnlyAtAfter(s0.inodes, s0.blocks, mid, inodes, mid, Loc(n, s), z);
      } else {
        OnlyAtNothing(s0.inodes, s0.blocks, mid, Loc(n, s));
      }
      SuppliedGrows(s0, n, s, z, got, 0);
    }

    /** One of the nine zone numbers in the inode. */
    method SupplyInInode(n: nat, k: nat, s: Slot, create: bool) returns (z: nat, ghost got: set<nat>)
      requires Valid() && n in inodes && k < 9 && s == InodeSlot(k)
      modifies this`inodes, this`blocks, this`refs, sb`zbits, sb`zmaps
      ensures Valid() && refs == old(refs) && Supplied(old(Now()), create, n, s, z, got)
    {
      if create && inodes[n].zones[k] == 0 {
        z, got := FillInInode(n, k, s);
      } else {
        got := {};
        z := inodes[n].zones[k];
        GrowsNot(sb.first, Now(), n, {s});
      }
    }

    /** Fills an empty entry of the index block at place `parent`, which is held meanwhile. */
    method FillEntry(n: nat, parent: Slot, i: nat, child: Slot, m: nat) returns (z: nat, ghost got: set<nat>)
      requires Valid() && n in inodes && Child(parent, i, child)
      requires m == At(inodes, blocks, Loc(n, parent)) != 0 && Word(blocks[m], i) == 0
      modifies this`blocks, this`refs, sb`zbits, sb`zmaps
      ensures Valid() && refs == old(refs) && Supplied(old(Now()), true, n, child, z, got)
    {
      got := {};
      ghost var s0 := Now();
      EntryPlace(inodes, blocks, n, parent, i, child);
      z := CreateBlock();
      ghost var mid := blocks;
      assert m == At(inodes, blocks, Loc(n, parent));
      if z != 0 {
        got := {z};
        LinkInBlock(inodes, blocks, n, parent, i, child, z);
        LinkSound(sb, sb.zbits, inodes, blocks, inodes, blocks[m := SetWord(blocks[m], i, z)], refs, Loc(n, child), z);
        blocks := blocks[m := SetWord(blocks[m], i, z)];
        assert SetAt(inodes, mid, inodes, blocks, Loc(n, child), z, Loc(n, parent));
      }
      if z != 0 {
        OnlyAtAfter(inodes, s0.blocks, mid, inodes, blocks, Loc(n, child), z);
      } else {
        OnlyAtNothing(inodes, s0.blocks, mid, Loc(n, child));
      }
      SuppliedGrows(s0, n, child, z, got, m);
    }

    /** One entry of the held index block at place `parent`: read it, and set it if it is wanted and missing. */
    method SupplyEntry(n: nat, parent: Slot, i: nat, child: Slot, m: nat, create: bool)
      returns (z: nat, ghost got: set<nat>)
      requires Valid() && n in inodes && Child(parent, i, child)
      requires m == At(inodes, blocks, Loc(n, parent)) != 0
      modifies this`blocks, this`refs, sb`zbits, sb`zmaps
      ensures Valid() && refs == old(refs) && Supplied(old(Now()), create, n, child, z, got)
      ensures m == At(inodes, blocks, Loc(n, parent))
    {
      got := {};
      EntryPlace(inodes, blocks, n, parent, i, child);
      z := Word(blocks[m], i);
      if create && z == 0 {
        z, got := FillEntry(n, parent, i, child, m);
        assert SamePlace(old(Now()), Now(), n, {child}, Loc(n, parent));
      } else {
        GrowsNot(sb.first, Now(), n, {child});
      }
    }

    /** The same, getting hold of the index block and letting it go. */
    method SupplyInBlock(n: nat, parent: Slot, i: nat, child: Slot, m: nat, create: bool)
      returns (z: nat, ghost got: set<nat>)
      requires Valid() && n in inodes && Child(parent, i, child)
      requires m == At(inodes, blocks, Loc(n, parent)) != 0
      modifies this`blocks, this`refs, sb`zbits, sb`zmaps
      ensures Valid() && refs == old(refs) && Supplied(old(Now()), create, n, child, z, got)
    {
      Hold(m, Loc(n, parent));
      z, got := SupplyEntry(n, parent, i, child, m, create);
      LetGo(m, Loc(n, parent));
      assert refs == old(refs);
    }

    /** A block behind the single indirect block. */
    method LocateSingle(n: nat, i: nat, create: bool) returns (z: nat, ghost got: set<nat>)
      requires Valid() && n in inodes && i < 512
      modifies this`inodes, this`blocks, this`refs, sb`zbits, sb`zmaps
      ensures Located(old(Now()), old(refs), n, SingleEntry(i), {Single, SingleEntry(i)}, 2, create, z, got)
    {
      ghost var s0 := Now();
      EntryPlace(inodes, blocks, n, Single, i, SingleEntry(i));
      var m;
      m, got := SupplyInInode(n, 7, Single, create);
      EntryPlace(inodes, blocks, n, Single, i, SingleEntry(i));
      GrowsMore(sb.first, s0, Now(), n, {Single}, {Single, SingleEntry(i)}, got);
      z := 0;
      if m != 0 {
        ghost var s1, g1 := Now(), got;
        assert SamePlace(s0, s1, n, {Single}, Loc(n, SingleEntry(i)));
        z, got := SupplyInBlock(n, Single, i, SingleEntry(i), m, create);
        GrowsTrans(sb.first, s0, s1, Now(), n, {Single, SingleEntry(i)}, {SingleEntry(i)}, g1, got);
        assert {Single, SingleEntry(i)} + {SingleEntry(i)} == {Single, SingleEntry(i)};
        UnionSize(g1, got);
        got := g1 + got;
      }
    }

    /** What locate_by_inode promises, from the state s0: `z` is what place `s` of file `n` now holds, which is never
        changed once there; it was looked for only, or supplied zeroed with the index blocks in `places` that lead to
        it, `most` zones at the most; if that failed the device is full. Nothing else moved. */
    ghost predicate Located(s0: Image, refs0: Refs, n: nat, s: Slot, places: set<Slot>, most: nat, create: bool, z: nat,
                            got: set<nat>)
      reads this, sb
    {
      && Valid() && refs == refs0 && n in inodes && s0.Ok()
      && z == Now().Zone(Loc(n, s))
      && Grows(sb.first, s0, Now(), n, places, got) && |got| <= most
      && (!create || s0.Zone(Loc(n, s)) != 0 ==> Now() == s0 && got == {})
      && (create && s0.Zone(Loc(n, s)) == 0 && z != 0 ==> z in got && blocks[z] == Zeroed())
      && (create && z == 0 ==> forall x | sb.first <= x < sb.nzones :: Taken(sb, sb.zbits, x))
    }

    /** The last two steps towards a block behind the double indirect block `m8`. */
    method LocateBehind(n: nat, i: nat, j: nat, m8: nat, create: bool) returns (z: nat, ghost got: set<nat>)
      requires Valid() && n in inodes && i < 512 && j < 512 && m8 == At(inodes, blocks, Loc(n, Double)) != 0
      modifies this`inodes, this`blocks, this`refs, sb`zbits, sb`zmaps
      ensures Located(old(Now()), old(refs), n, DoubleLeaf(i, j), {DoubleEntry(i), DoubleLeaf(i, j)}, 2, create, z, got)
    {
      ghost var s0 := Now();
      EntryPlace(inodes, blocks, n, DoubleEntry(i), j, DoubleLeaf(i, j));
      var m;
      m, got := SupplyInBlock(n, Double, i, DoubleEntry(i), m8, create);
      EntryPlace(inodes, blocks, n, DoubleEntry(i), j, DoubleLeaf(i, j));
      GrowsMore(sb.first, s0, Now(), n, {DoubleEntry(i)}, {DoubleEntry(i), DoubleLeaf(i, j)}, got);
      z := 0;
      if m != 0 {
        ghost var s1, g1 := Now(), got;
        assert SamePlace(s0, s1, n, {DoubleEntry(i)}, Loc(n, DoubleLeaf(i, j)));
        z, got := SupplyInBlock(n, DoubleEntry(i), j, DoubleLeaf(i, j), m, create);
        GrowsTrans(sb.first, s0, s1, Now(), n, {DoubleEntry(i), DoubleLeaf(i, j)}, {DoubleLeaf(i, j)}, g1, got);
        assert {DoubleEntry(i), DoubleLeaf(i, j)} + {DoubleLeaf(i, j)} == {DoubleEntry(i), DoubleLeaf(i, j)};
        UnionSize(g1, got);
        got := g1 + got;
      }
    }

    /** A block behind the double indirect block. */
    method LocateDouble(n: nat, i: nat, j: nat, create: bool) returns (z: nat, ghost got: set<nat>)
      requires Valid() && n in inodes && i < 512 && j < 512
      modifies this`inodes, this`blocks, this`refs, sb`zbits, sb`zmaps
      ensures Located(old(Now()), old(refs), n, DoubleLeaf(i, j), {Double, DoubleEntry(i), DoubleLeaf(i, j)}, 3, create,
                z, got)
    {
      ghost var s0 := Now();
      ghost var places := {Double, DoubleEntry(i), DoubleLeaf(i, j)};
      EntryPlace(inodes, blocks, n, Double, i, DoubleEntry(i));
      EntryPlace(inodes, blocks, n, DoubleEntry(i), j, DoubleLeaf(i, j));
      var m8;
      m8, got := SupplyInInode(n, 8, Double, create);
      EntryPlace(inodes, blocks, n, Double, i, DoubleEntry(i));
      EntryPlace(inodes, blocks, n, DoubleEntry(i), j, DoubleLeaf(i, j));
      GrowsMore(sb.first, s0, Now(), n, {Double}, places, got);
      z := 0;
      if m8 != 0 {
        ghost var s1, g1 := Now(), got;
        assert SamePlace(s0, s1, n, {Double}, Loc(n, DoubleLeaf(i, j)));
        z, got := LocateBehind(n, i, j, m8, create);
        GrowsTrans(sb.first, s0, s1, Now(), n, places, {DoubleEntry(i), DoubleLeaf(i, j)}, g1, got);
        assert places + {DoubleEntry(i), DoubleLeaf(i, j)} == places;
        UnionSize(g1, got);
        got := g1 + got;
      }
    }

    /** A block whose zone number is in the inode itself. */
    method LocateDirect(n: nat, i: nat, create: bool) returns (z: nat, ghost got: set<nat>)
      requires Valid() && n in inodes && i < 7
      modifies this`inodes, this`blocks, this`refs, sb`zbits, sb`zmaps
      ensures Located(old(Now()), old(refs), n, Direct(i), {Direct(i)}, 1, create, z, got)
    {
      z, got := SupplyInInode(n, i, Direct(i), create);
    }

    /** locate_by_inode on a logical block of a file. Without `create`, or when the block is there, it only looks;
        otherwise it supplies the block and whatever index blocks it needs, three zones at the most,
        and gives 0 only when the device is full. */
    method LocateByInode(n: nat, block: nat, create: bool) returns (z: nat, ghost got: set<nat>)
      requires Valid() && n in inodes && block < MAX_BLOCKS
      modifies this`inodes, this`blocks, this`refs, sb`zbits, sb`zmaps
      ensures Located(old(Now()), old(refs), n, SlotOf(block), Path(block), 3, create, z, got)
      ensures z == FlatZone(inodes[n].zones, blocks, block)
      ensures !create || old(FlatZone(inodes[n].zones, blocks, block)) != 0 ==>
              Now() == old(Now()) && z == old(FlatZone(inodes[n].zones, blocks, block))
    {
      LookupMeans(Now(), n, block);
      z, got := Locate(n, block, create);
      LookupMeans(Now(), n, block);
    }

    /** The same, in terms of places. */
    method Locate(n: nat, block: nat, create: bool) returns (z: nat, ghost got: set<nat>)
      requires Valid() && n in inodes && block < MAX_BLOCKS
      modifies this`inodes, this`blocks, this`refs, sb`zbits, sb`zmaps
      ensures Located(old(Now()), old(refs), n, SlotOf(block), Path(block), 3, create, z, got)
    {
      if block < 7 {
        z, got := LocateDirect(n, block, create);
      } else if block - 7 < 512 {
        z, got := LocateSingle(n, block - 7, create);
      } else {
        var b := block - 7 - 512;
        z, got := LocateDouble(n, b / 512, b % 512, create);
      }
    }

    // ---------------------------------------------------------------- giving zones back

    ghost predicate Freeable(z: nat) { sb.first <= z < sb.nzones }

    ghost predicate AllFreeable(s: set<nat>) { forall z | z in s :: Freeable(z) }

    ghost function InUse(): Usage
      reads this, sb
    {
      Usage(sb.zbits, blocks, refs)
    }

    /** delete_block: drop the cached bytes if nobody holds them (else leave a reference behind), and clear the bit. */
    method DeleteBlock(z: nat)
      requires sb.Valid() && InUse().Ok() && Freeable(z)
      modifies this`blocks, this`refs, sb`zbits, sb`zmaps
      ensures sb.Valid() && Freed(sb.first, old(InUse()), InUse(), {z})
    {
      if refs[z] == 0 {
        var b: Block := *;
        blocks := blocks[z := b];
      } else {
        refs := refs[z := refs[z] + 1];
      }
      sb.FreeZoneBitmap(z);
      forall p ensures FreedBit(sb.first, old(sb.zbits), sb.zbits, {z}, p) { }
      forall x ensures FreedRef(old(refs), refs, {z}, x) { }
      forall x ensures FreedBlock(old(blocks), blocks, {z}, x) { }
    }

    /** The loop of delete_indirecte_block over the entries of block `m`. */
    method DeleteEntries(m: nat)
      requires sb.Valid() && InUse().Ok() && m != 0
      requires OnceInIndirect(blocks, m) && AllFreeable(Indirect(blocks, m))
      modifies this`blocks, this`refs, sb`zbits, sb`zmaps
      ensures sb.Valid() && Freed(sb.first, old(InUse()), InUse(), Entries(old(blocks)[m], PER_BLOCK))
              && m !in Entries(old(blocks)[m], PER_BLOCK)
    {
      ghost var u0 := InUse();
      FreedNothing(sb.first, u0);
      for i := 0 to 512
        invariant sb.Valid() && Freed(sb.first, u0, InUse(), Entries(u0.blocks[m], i)) && m !in Entries(u0.blocks[m], i)
      {
        DeleteEntry(u0, m, i);
      }
    }

    /** One turn of that loop, `u0` being the state before the first. */
    method DeleteEntry(ghost u0: Usage, m: nat, i: nat)
      requires sb.Valid() && u0.Ok() && m != 0 && i < PER_BLOCK
      requires OnceInIndirect(u0.blocks, m) && AllFreeable(Indirect(u0.blocks, m))
      requires Freed(sb.first, u0, InUse(), Entries(u0.blocks[m], i)) && m !in Entries(u0.blocks[m], i)
      modifies this`blocks, this`refs, sb`zbits, sb`zmaps
      ensures sb.Valid() && Freed(sb.first, u0, InUse(), Entries(u0.blocks[m], i + 1))
              && m !in Entries(u0.blocks[m], i + 1)
    {
      ghost var b, u1 := u0.blocks[m], InUse();
      assert FreedBlock(u0.blocks, blocks, Entries(b, i), m) && EntryOnce(b, m, i);
      var p := Word(blocks[m], i);
      if p != 0 {
        EntriesMembers(b, PER_BLOCK, p);
        assert p in Indirect(u0.blocks, m);
        DeleteBlock(p);
        FreedTrans(sb.first, u0, u1, InUse(), Entries(b, i), {p});
        assert Entries(b, i + 1) == Entries(b, i) + {p};
      }
    }

    /** delete_indirecte_block */
    method DeleteIndirecteBlock(m: nat)
      requires sb.Valid() && InUse().Ok()
      requires OnceInIndirect(blocks, m) && AllFreeable(Indirect(blocks, m))
      modifies this`blocks, this`refs, sb`zbits, sb`zmaps
      ensures sb.Valid() && Freed(sb.first, old(InUse()), InUse(), Indirect(old(blocks), m))
    {
      ghost var u0 := InUse();
      FreedNothing(sb.first, u0);
      if m == 0 { return; }
      ReadBuff(m);
      DeleteEntries(m);
      FreedHeld(sb.first, u0, InUse(), Entries(u0.blocks[m], 512), m);
      PutBuff(m);
      ghost var u1 := InUse();
      DeleteBlock(m);
      FreedTrans(sb.first, u0, u1, InUse(), Entries(u0.blocks[m], 512), {m});
    }

    /** The loop of delete_double_indirecte_block over the entries of block `m`. */
    method DeleteGroups(m: nat)
      requires sb.Valid() && InUse().Ok() && m != 0
      requires OnceInDouble(blocks, m) && AllFreeable(DoubleIndirect(blocks, m))
      modifies this`blocks, this`refs, sb`zbits, sb`zmaps
      ensures sb.Valid() && Freed(sb.first, old(InUse()), InUse(), Groups(old(blocks), old(blocks)[m], PER_BLOCK))
      ensures m !in Groups(old(blocks), old(blocks)[m], PER_BLOCK)
    {
      ghost var u0 := InUse();
      FreedNothing(sb.first, u0);
      for i := 0 to 512
        invariant sb.Valid() && Freed(sb.first, u0, InUse(), Groups(u0.blocks, u0.blocks[m], i))
        invariant m !in Groups(u0.blocks, u0.blocks[m], i)
      {
        DeleteGroup(u0, m, i);
      }
    }

    /** One turn of that loop, `u0` being the state before the first. */
    method DeleteGroup(ghost u0: Usage, m: nat, i: nat)
      requires sb.Valid() && u0.Ok() && m != 0 && i < PER_BLOCK
      requires OnceInDouble(u0.blocks, m) && AllFreeable(DoubleIndirect(u0.blocks, m))
      requires Freed(sb.first, u0, InUse(), Groups(u0.blocks, u0.blocks[m], i))
               && m !in Groups(u0.blocks, u0.blocks[m], i)
      modifies this`blocks, this`refs, sb`zbits, sb`zmaps
      ensures sb.Valid() && Freed(sb.first, u0, InUse(), Groups(u0.blocks, u0.blocks[m], i + 1))
              && m !in Groups(u0.blocks, u0.blocks[m], i + 1)
    {
      ghost var b, u1 := u0.blocks[m], InUse();
      ghost var done := Groups(u0.blocks, b, i);
      assert FreedBlock(u0.blocks, blocks, done, m) && GroupOnce(u0.blocks, b, m, i);
      var p := Word(blocks[m], i);
      assert Groups(u0.blocks, b, i + 1) == done + Indirect(u0.blocks, p);
      if p != 0 {
        assert p in Indirect(u0.blocks, p) && FreedBlock(u0.blocks, blocks, done, p);
        forall z | z in Indirect(u0.blocks, p) ensures Freeable(z) {
          assert InGroup(u0.blocks, b, i, z);
          GroupsMembers(u0.blocks, b, PER_BLOCK, z);
        }
        DeleteIndirecteBlock(p);
        FreedTrans(sb.first, u0, u1, InUse(), done, Indirect(u0.blocks, p));
      } else {
        assert Groups(u0.blocks, b, i + 1) == done;
      }
    }

    /** delete_double_indirecte_block */
    method DeleteDoubleIndirecteBlock(m: nat)
      requires sb.Valid() && InUse().Ok()
      requires OnceInDouble(blocks, m) && AllFreeable(DoubleIndirect(blocks, m))
      modifies this`blocks, this`refs, sb`zbits, sb`zmaps
      ensures sb.Valid() && Freed(sb.first, old(InUse()), InUse(), DoubleIndirect(old(blocks), m))
    {
      ghost var u0 := InUse();
      FreedNothing(sb.first, u0);
      if m == 0 { return; }
      ReadBuff(m);
      DeleteGroups(m);
      FreedHeld(sb.first, u0, InUse(), Groups(u0.blocks, u0.blocks[m], 512), m);
      PutBuff(m);
      ghost var u1 := InUse();
      DeleteBlock(m);
      FreedTrans(sb.first, u0, u1, InUse(), Groups(u0.blocks, u0.blocks[m], 512), {m});
    }

    /** The first loop of truncate. */
    method DeleteDirects(n: nat)
      requires sb.Valid() && InUse().Ok() && n in inodes && |inodes[n].zones| == 9
      requires OnceInDirects(inodes[n].zones) && AllFreeable(Directs(inodes[n].zones, DIRECT))
      modifies this`inodes, this`blocks, this`refs, sb`zbits, sb`zmaps
      ensures sb.Valid() && Freed(sb.first, old(InUse()), InUse(), Directs(old(inodes)[n].zones, DIRECT))
      ensures inodes == old(inodes)[n := old(inodes)[n].(zones := Cleared(old(inodes)[n].zones, 7))]
    {
      ghost var u0, i0 := InUse(), inodes[n];
      FreedNothing(sb.first, u0);
      ClearedStep(i0.zones, 0);
      for i := 0 to 7
        invariant sb.Valid() && Freed(sb.first, u0, InUse(), Directs(i0.zones, i))
        invariant inodes == old(inodes)[n := i0.(zones := Cleared(i0.zones, i))]
      {
        DirectsMembers(i0.zones, DIRECT, i0.zones[i]);
        DeleteDirect(u0, i0, n, i);
      }
    }

    /** One turn of that loop, from the state `u0` before the first and with the file as `i0` at that time. */
    method DeleteDirect(ghost u0: Usage, ghost i0: Inode, n: nat, i: nat)
      requires sb.Valid() && n in inodes && i < 7 && |i0.zones| == 9 && inodes[n] == i0.(zones := Cleared(i0.zones, i))
      requires Freed(sb.first, u0, InUse(), Directs(i0.zones, i))
      requires i0.zones[i] != 0 ==> i0.zones[i] !in Directs(i0.zones, i) && Freeable(i0.zones[i])
      modifies this`inodes, this`blocks, this`refs, sb`zbits, sb`zmaps
      ensures sb.Valid() && Freed(sb.first, u0, InUse(), Directs(i0.zones, i + 1))
      ensures inodes == old(inodes)[n := i0.(zones := Cleared(i0.zones, i + 1))]
    {
      var p := inodes[n].zones[i];
      assert Directs(i0.zones, i + 1) == if p == 0 then Directs(i0.zones, i) else Directs(i0.zones, i) + {p};
      ClearedStep(i0.zones, i);
      if p != 0 {
        ghost var u1 := InUse();
        DeleteBlock(p);
        FreedTrans(sb.first, u0, u1, InUse(), Directs(i0.zones, i), {p});
        inodes := inodes[n := inodes[n].(zones := inodes[n].zones[i := 0])];
      } else {
        assert inodes == inodes[n := inodes[n]];
      }
    }

    /** The walk of truncate over a whole file. */
    method DeleteAll(n: nat)
      requires sb.Valid() && InUse().Ok() && n in inodes && |inodes[n].zones| == 9 && Walkable(inodes[n].zones, blocks)
      requires AllFreeable(Reachable(inodes[n].zones, blocks))
      modifies this`inodes, this`blocks, this`refs, sb`zbits, sb`zmaps
      ensures sb.Valid() && inodes == old(inodes)[n := Emptied(old(inodes)[n])]
      ensures Freed(sb.first, old(InUse()), InUse(), Reachable(old(inodes)[n].zones, old(blocks)))
    {
      ghost var u0, i0 := InUse(), inodes[n];
      DeleteDirects(n);
      DeleteIndexes(u0, i0, Directs(i0.zones, DIRECT), n);
    }

    /** The rest of truncate, once the direct zones `done` are gone; `u0` and `i0` are from before. */
    method DeleteIndexes(ghost u0: Usage, ghost i0: Inode, ghost done: set<nat>, n: nat)
      requires sb.Valid() && n in inodes && |i0.zones| == 9 && inodes[n] == i0.(zones := Cleared(i0.zones, 7))
      requires Freed(sb.first, u0, InUse(), done) && OnceInIndirect(u0.blocks, i0.zones[7])
               && OnceInDouble(u0.blocks, i0.zones[8])
      requires done !! Indirect(u0.blocks, i0.zones[7])
               && done + Indirect(u0.blocks, i0.zones[7]) !! DoubleIndirect(u0.blocks, i0.zones[8])
      requires AllFreeable(Indirect(u0.blocks, i0.zones[7])) && AllFreeable(DoubleIndirect(u0.blocks, i0.zones[8]))
      modifies this`inodes, this`blocks, this`refs, sb`zbits, sb`zmaps
      ensures sb.Valid() && inodes == old(inodes)[n := Emptied(i0)]
      ensures Freed(sb.first, u0, InUse(),
                done + Indirect(u0.blocks, i0.zones[7]) + DoubleIndirect(u0.blocks, i0.zones[8]))
    {
      ghost var u1, m7, m8 := InUse(), i0.zones[7], i0.zones[8];
      FreedIndirect(sb.first, u0, u1, done, m7);
      DeleteIndirecteBlock(inodes[n].zones[7]);
      FreedTrans(sb.first, u0, u1, InUse(), done, Indirect(u0.blocks, m7));
      ghost var u2 := InUse();
      FreedDouble(sb.first, u0, u2, done + Indirect(u0.blocks, m7), m8);
      DeleteDoubleIndirecteBlock(inodes[n].zones[8]);
      FreedTrans(sb.first, u0, u2, InUse(), done + Indirect(u0.blocks, m7), DoubleIndirect(u0.blocks, m8));
      ClearedStep(i0.zones, 7);
      ClearedStep(i0.zones, 8);
      inodes := inodes[n := inodes[n].(zones := inodes[n].zones[7 := 0][8 := 0], size := 0, dirt := true)];
    }

    lemma ReachableFreeable(n: nat)
      requires Valid() && n in inodes
      ensures forall z | z in Reachable(inodes[n].zones, blocks) :: Freeable(z) && Taken(sb, sb.zbits, z)
    {
      forall z | z in Reachable(inodes[n].zones, blocks) ensures Freeable(z) && Taken(sb, sb.zbits, z) {
        ReachableIsHeld(inodes[n].zones, blocks, z);
        var s: Slot :| ReachedAt(inodes[n].zones, blocks, z, s);
        assert Marked(sb, sb.zbits, inodes, blocks, Loc(n, s));
      }
    }

    /** What truncate does to a regular file or a directory: it gives back exactly the zones that the file reaches,
        each once, and empties it. The ownership invariant survives exactly when nobody held one of those zones. */
    method TruncateFile(n: nat)
      requires Valid() && n in inodes && Shrinkable(inodes[n].mode)
      modifies this`inodes, this`blocks, this`refs, sb`zbits, sb`zmaps
      ensures sb.Valid() && inodes == old(inodes)[n := Emptied(old(inodes)[n])]
      ensures Truncated(old(Reachable(inodes[n].zones, blocks)), old(InUse()), InUse())
      ensures Gone(old(inodes), old(InUse()), n)
      ensures Valid() <==> forall z | z in old(Reachable(inodes[n].zones, blocks)) :: old(refs)[z] == 0
    {
      ghost var i0, u0 := inodes, InUse();
      WalkReady(n);
      DeleteAll(n);
      TruncateDone(i0, u0, n);
      NothingLeft(i0, u0, n);
    }

    lemma WalkReady(n: nat)
      requires Valid() && n in inodes
      ensures Walkable(inodes[n].zones, blocks) && AllFreeable(Reachable(inodes[n].zones, blocks))
    {
      ReachableFreeable(n);
      WalkOnce(inodes, blocks, n);
    }

    /** The state (i0, u0) was valid. */
    ghost predicate WasValid(i0: map<nat, Inode>, u0: Usage)
      reads this, sb
    {
      && sb.Valid() && Sound(sb, u0.zbits, i0, u0.blocks, u0.refs) && |u0.zbits| == |sb.zbits|
      && sb.first <= sb.nzones && AllSet(u0.zbits, sb.nzones - sb.first + 1)
      && forall n | n in i0 :: 1 <= n <= sb.ninodes < |sb.ibits| && sb.ibits[n]
    }

    /** The zone that file `n` held at place `s`, if any, is free. */
    ghost predicate GivenBack(i0: map<nat, Inode>, u0: Usage, n: nat, s: Slot)
      reads this, sb
      requires Shaped(i0) && Total(u0.blocks)
    {
      var z := At(i0, u0.blocks, Loc(n, s));
      z != 0 ==> sb.first <= z && z - sb.first + 1 < |sb.zbits| && !sb.zbits[z - sb.first + 1]
    }

    /** File `n` is empty: its nine numbers and its size are 0, no place of it holds a zone, and every zone it held is
        free. The rest of its inode, and every other inode, is as it was. */
    ghost predicate Gone(i0: map<nat, Inode>, u0: Usage, n: nat)
      reads this, sb
    {
      && Shaped(i0) && u0.Ok() && n in i0 && n in inodes && Shaped(inodes) && Total(blocks)
      && inodes == i0[n := inodes[n]] && inodes[n] == i0[n].(zones := inodes[n].zones, size := 0, dirt := true)
      && (forall k | 0 <= k < 9 :: inodes[n].zones[k] == 0)
      && (forall s :: At(inodes, blocks, Loc(n, s)) == 0)
      && (forall s :: GivenBack(i0, u0, n, s))
    }

    lemma NothingLeft(i0: map<nat, Inode>, u0: Usage, n: nat)
      requires WasValid(i0, u0) && n in i0 && inodes == i0[n := Emptied(i0[n])]
      requires Freed(sb.first, u0, InUse(), Reachable(i0[n].zones, u0.blocks))
      ensures Gone(i0, u0, n)
    {
      var gone := Reachable(i0[n].zones, u0.blocks);
      forall s ensures At(inodes, blocks, Loc(n, s)) == 0 { EmptiedPlaces(i0, u0.blocks, blocks, n, Loc(n, s)); }
      forall s ensures GivenBack(i0, u0, n, s) {
        var z := At(i0, u0.blocks, Loc(n, s));
        if z != 0 {
          assert ReachedAt(i0[n].zones, u0.blocks, z, s) && Marked(sb, u0.zbits, i0, u0.blocks, Loc(n, s));
          HeldIsReachable(i0[n].zones, u0.blocks, z, s);
          assert FreedBit(sb.first, u0.zbits, sb.zbits, gone, z - sb.first + 1);
        }
      }
    }

    lemma TruncateDone(i0: map<nat, Inode>, u0: Usage, n: nat)
      requires WasValid(i0, u0) && n in i0 && inodes == i0[n := Emptied(i0[n])]
      requires Freed(sb.first, u0, InUse(), Reachable(i0[n].zones, u0.blocks))
      ensures Truncated(Reachable(i0[n].zones, u0.blocks), u0, InUse())
      ensures Valid() <==> forall z | z in Reachable(i0[n].zones, u0.blocks) :: u0.refs[z] == 0
    {
      var gone := Reachable(i0[n].zones, u0.blocks);
      forall z | z in gone ensures Freeable(z) && Taken(sb, u0.zbits, z) {
        ReachableIsHeld(i0[n].zones, u0.blocks, z);
        var s: Slot :| ReachedAt(i0[n].zones, u0.blocks, z, s);
        assert Marked(sb, u0.zbits, i0, u0.blocks, Loc(n, s));
      }
      TruncateCounts(u0, gone);
      TruncateSound(i0, u0, n);
    }

    ghost predicate Truncated(gone: set<nat>, u0: Usage, u1: Usage) {
      && Freed(sb.first, u0, u1, gone)
      && sb.nzones <= |u0.zbits| && Zeros(u1.zbits, sb.nzones) == Zeros(u0.zbits, sb.nzones) + |gone|
      && (u1.refs == u0.refs <==> forall z | z in gone :: u0.refs[z] == 0)
    }

    /** truncate leaves every other kind of inode alone. */
    method Truncate(n: nat)
      requires Valid() && n in inodes
      modifies this`inodes, this`blocks, this`refs, sb`zbits, sb`zmaps
      ensures if old(inodes)[n].mode & 0xF000 == 0x8000 || old(inodes)[n].mode & 0xF000 == 0x4000 then
                && Gone(old(inodes), old(InUse()), n)
                && Truncated(old(Reachable(inodes[n].zones, blocks)), old(InUse()), InUse())
                && (Valid() <==> forall z | z in old(Reachable(inodes[n].zones, blocks)) :: old(refs)[z] == 0)
              else Valid() && inodes == old(inodes) && InUse() == old(InUse())
    {
      if !Shrinkable(inodes[n].mode) { return; }
      TruncateFile(n);
    }

    lemma TruncateCounts(u0: Usage, gone: set<nat>)
      requires sb.Valid() && Freed(sb.first, u0, InUse(), gone) && |u0.zbits| == |sb.zbits|
      requires forall z | z in gone :: Freeable(z) && Taken(sb, u0.zbits, z)
      ensures Zeros(sb.zbits, sb.nzones) == Zeros(u0.zbits, sb.nzones) + |gone|
      ensures refs == u0.refs <==> forall z | z in gone :: u0.refs[z] == 0
    {
      FreedZeros(sb.first, u0.zbits, sb.zbits, gone, sb.nzones);
      assert (set z | z in gone && z - sb.first + 1 < sb.nzones) == gone;
      if forall z | z in gone :: u0.refs[z] == 0 {
        forall x: nat ensures refs[x] == u0.refs[x] { assert FreedRef(u0.refs, refs, gone, x); }
      } else {
        var z :| z in gone && u0.refs[z] != 0;
        assert FreedRef(u0.refs, refs, gone, z);
      }
    }

    lemma TruncateSound(i0: map<nat, Inode>, u0: Usage, n: nat)
      requires sb.Valid() && Sound(sb, u0.zbits, i0, u0.blocks, u0.refs) && n in i0 && |u0.zbits| == |sb.zbits|
      requires inodes == i0[n := Emptied(i0[n])] && Freed(sb.first, u0, InUse(), Reachable(i0[n].zones, u0.blocks))
      requires forall z | z in Reachable(i0[n].zones, u0.blocks) :: Freeable(z) && Taken(sb, u0.zbits, z)
      requires sb.first <= sb.nzones && AllSet(u0.zbits, sb.nzones - sb.first + 1) && Live()
      ensures Valid() <==> forall z | z in Reachable(i0[n].zones, u0.blocks) :: u0.refs[z] == 0
    {
      var gone := Reachable(i0[n].zones, u0.blocks);
      forall p | sb.nzones - sb.first + 1 <= p < |sb.zbits| ensures sb.zbits[p] {
        assert FreedBit(sb.first, u0.zbits, sb.zbits, gone, p);
      }
      forall a ensures At(inodes, blocks, a) == if a.n == n then 0 else At(i0, u0.blocks, a) {
        EmptiedPlaces(i0, u0.blocks, blocks, n, a);
      }
      forall a, b ensures !Shares(inodes, blocks, a, b) { assert !Shares(i0, u0.blocks, a, b); }
      forall a ensures Marked(sb, sb.zbits, inodes, blocks, a) {
        var z := At(inodes, blocks, a);
        if z != 0 {
          assert Marked(sb, u0.zbits, i0, u0.blocks, a)
                 && FreedBit(sb.first, u0.zbits, sb.zbits, gone, z - sb.first + 1);
          ReachableIsHeld(i0[n].zones, u0.blocks, z);
          forall s: Slot ensures !ReachedAt(i0[n].zones, u0.blocks, z, s) {
            assert !Shares(i0, u0.blocks, a, Loc(n, s));
          }
        }
      }
      QuietAfter(u0, gone);
    }

    lemma QuietAfter(u0: Usage, gone: set<nat>)
      requires sb.Valid() && Freed(sb.first, u0, InUse(), gone) && |u0.zbits| == |sb.zbits|
      requires forall z :: Quiet(sb, u0.zbits, u0.refs, z)
      requires forall z | z in gone :: Freeable(z) && Taken(sb, u0.zbits, z)
      ensures (forall z :: Quiet(sb, sb.zbits, refs, z)) <==> forall z | z in gone :: u0.refs[z] == 0
    {
      forall z: nat ensures FreedRef(u0.refs, refs, gone, z)
        && (Freeable(z) ==> FreedBit(sb.first, u0.zbits, sb.zbits, gone, z - sb.first + 1)) { }
      if forall z | z in gone :: u0.refs[z] == 0 {
        forall z: nat ensures Quiet(sb, sb.zbits, refs, z) {
          assert Quiet(sb, u0.zbits, u0.refs, z) && FreedRef(u0.refs, refs, gone, z);
          assert Freeable(z) ==> FreedBit(sb.first, u0.zbits, sb.zbits, gone, z - sb.first + 1);
        }
      } else {
        var z :| z in gone && u0.refs[z] != 0;
        assert !Quiet(sb, sb.zbits, refs, z);
      }
    }

    // ---------------------------------------------------------------- files coming and going

    /** The lowest free number, if there is one, is in the inode table already. */
    ghost predicate Clash(ibits: seq<bool>, loaded: set<nat>)
      reads this
    {
      exists p | p in loaded :: 1 <= p <= sb.ninodes && IsFirstZero(ibits, p)
    }

    /** create_inode: the lowest free inode number becomes an empty file with one link and no mode. `loaded` are the
        numbers that the inode table holds, of files or not: when new_inode finds the number among them
        it fails, and the number stays marked. 0 also when no number is free. */
    method CreateInode(loaded: set<nat>) returns (n: nat)
      requires Valid()
      modifies this`inodes, sb`ibits, sb`imaps
      ensures Valid()
      ensures n == 0 ==>
              inodes == old(inodes)
              && (Clash(old(sb.ibits), loaded) || forall p | 0 <= p <= sb.ninodes :: old(sb.ibits)[p])
      ensures n != 0 ==> n !in old(inodes) && n <= sb.ninodes && inodes == old(inodes)[n := NewInode()]
      ensures n != 0 ==>
              var i := inodes[n];
              i.mode == 0 && i.nlinks == 1 && i.size == 0 && i.dirt && i.zones == [0, 0, 0, 0, 0, 0, 0, 0, 0]
      ensures n != 0 ==> n !in loaded && IsFirstZero(old(sb.ibits), n)
      ensures sb.ibits == old(sb.ibits) || exists p: nat ::
              IsFirstZero(old(sb.ibits), p)
              && sb.ibits == old(sb.ibits)[p := true] && (n != 0 ==> n == p)
      ensures forall a :: At(inodes, blocks, a) == At(old(inodes), blocks, a)
    {
      n := sb.AddInodeBitmap();
      if n in loaded { return 0; }
      if n != 0 {
        var i0 := inodes;
        inodes := inodes[n := NewInode()];
        forall a ensures At(inodes, blocks, a) == At(i0, blocks, a) { NoPlaces(i0, blocks, n, a); }
        forall a, b ensures !Shares(inodes, blocks, a, b) { assert !Shares(i0, blocks, a, b); }
        forall a ensures Marked(sb, sb.zbits, inodes, blocks, a) { assert Marked(sb, sb.zbits, i0, blocks, a); }
      }
    }

    /** What the last put_inode of file `n` gives back. */
    ghost function Shed(n: nat): set<nat>
      reads this
      requires n in inodes && |inodes[n].zones| == 9 && Total(blocks)
    {
      if Shrinkable(inodes[n].mode) then Reachable(inodes[n].zones, blocks) else {}
    }

    /** The last put_inode of an unlinked file: truncate, then delete_inode. The file is gone, its number is free, and
        what truncate gives back is given back; the ownership invariant survives exactly when nobody held any of it. */
    method DropFile(n: nat)
      requires Valid() && n in inodes && inodes[n].nlinks == 0
      modifies this`inodes, this`blocks, this`refs, sb`zbits, sb`zmaps, sb`ibits, sb`imaps
      ensures inodes == old(inodes) - {n} && sb.ibits == old(sb.ibits)[n := false]
      ensures Freed(sb.first, old(InUse()), InUse(), old(Shed(n)))
      ensures if old(inodes)[n].mode & 0xF000 == 0x8000 || old(inodes)[n].mode & 0xF000 == 0x4000 then
                forall s :: GivenBack(old(inodes), old(InUse()), n, s)
              else InUse() == old(InUse())
      ensures Valid() <==> forall z | z in old(Shed(n)) :: old(refs)[z] == 0
    {
      ghost var i0, u0, gone := inodes, InUse(), Shed(n);
      GiveBack(n);
      ghost var i1 := inodes;
      label given:
      DeleteInode(n);
      forall s ensures GivenBack(i0, u0, n, s) == old@given(GivenBack(i0, u0, n, s)) { }
      assert i1 - {n} == i0 - {n};
      if z :| Leaked(z) { assert !Quiet(sb, sb.zbits, refs, z); }
    }

    /** The truncate in it. */
    method GiveBack(n: nat)
      requires Valid() && n in inodes
      modifies this`inodes, this`blocks, this`refs, sb`zbits, sb`zmaps
      ensures sb.Valid() && Live() && n in inodes && inodes == old(inodes)[n := inodes[n]]
      ensures inodes[n].nlinks == old(inodes)[n].nlinks && Freed(sb.first, old(InUse()), InUse(), old(Shed(n)))
      ensures if old(inodes)[n].mode & 0xF000 == 0x8000 || old(inodes)[n].mode & 0xF000 == 0x4000 then
                forall s :: GivenBack(old(inodes), old(InUse()), n, s)
              else InUse() == old(InUse())
      ensures if forall z | z in old(Shed(n)) :: old(refs)[z] == 0 then Valid() else exists z :: Leaked(z)
    {
      ghost var i0, u0, gone := inodes, InUse(), Shed(n);
      if !Shrinkable(inodes[n].mode) {
        FreedNothing(sb.first, u0);
        assert inodes == inodes[n := inodes[n]];
        return;
      }
      ReachableFreeable(n);
      TruncateFile(n);
      assert i0[n := Emptied(i0[n])] == i0[n := inodes[n]];
      if z :| z in gone && u0.refs[z] != 0 {
        assert FreedRef(u0.refs, refs, gone, z) && FreedBit(sb.first, u0.zbits, sb.zbits, gone, z - sb.first + 1);
        assert Leaked(z);
      }
    }

    /** A zone that is free and held. */
    ghost predicate Leaked(z: nat)
      reads this, sb
    {
      Counted(refs) && sb.first <= z < sb.nzones && !Taken(sb, sb.zbits, z) && refs[z] != 0
    }

    /** delete_inode; a number with links left is a panic. */
    method DeleteInode(n: nat)
      requires sb.Valid() && Live() && n in inodes && inodes[n].nlinks == 0
      modifies this`inodes, sb`ibits, sb`imaps
      ensures sb.Valid() && (old(Valid()) ==> Valid())
      ensures forall z :: Leaked(z) == old(Leaked(z))
      ensures inodes == old(inodes) - {n} && sb.ibits == old(sb.ibits)[n := false]
    {
      sb.FreeInodeBitmap(n);
      ghost var i0 := inodes;
      inodes := inodes - {n};
      if old(Valid()) {
        forall a, b ensures !Shares(inodes, blocks, a, b) { assert !Shares(i0, blocks, a, b); }
        forall a ensures Marked(sb, sb.zbits, inodes, blocks, a) { assert Marked(sb, sb.zbits, i0, blocks, a); }
      }
    }

    // ---------------------------------------------------------------- reading and writing a file's blocks

    /** Getting hold of a zone of some file. */
    method Hold(z: nat, ghost a: Loc)
      requires Valid() && z == At(inodes, blocks, a) != 0
      modifies this`refs
      ensures Valid() && refs == old(refs)[z := old(refs)[z] + 1]
    {
      assert Marked(sb, sb.zbits, inodes, blocks, a);
      HoldSound(sb, sb.zbits, inodes, blocks, refs, z, refs[z] + 1);
      ReadBuff(z);
    }

    method LetGo(z: nat, ghost a: Loc)
      requires Valid() && z == At(inodes, blocks, a) != 0 && refs[z] > 0
      modifies this`refs
      ensures Valid() && refs == old(refs)[z := old(refs)[z] - 1]
    {
      assert Marked(sb, sb.zbits, inodes, blocks, a);
      HoldSound(sb, sb.zbits, inodes, blocks, refs, z, refs[z] - 1);
      PutBuff(z);
    }

    /** New bytes for a data block. */
    method Write(n: nat, ghost block: nat, z: nat, b: Block)
      requires Valid() && n in inodes && block < MAX_BLOCKS && z == Lookup(Now(), n, block) != 0
      modifies this`blocks
      ensures Valid() && blocks == old(blocks)[z := b]
      ensures forall a :: At(inodes, blocks, a) == At(inodes, old(blocks), a)
    {
      ghost var b0 := blocks;
      ghost var at := Loc(n, SlotOf(block));
      blocks := blocks[z := b];
      forall a ensures At(inodes, blocks, a) == At(inodes, b0, a) { DataBlock(inodes, b0, at, b, a); }
      forall a, c ensures !Shares(inodes, blocks, a, c) { assert !Shares(inodes, b0, a, c); }
      forall a ensures Marked(sb, sb.zbits, inodes, blocks, a) { assert Marked(sb, sb.zbits, inodes, b0, a); }
    }

    /** Setting a file's size. */
    method SetSize(n: nat, size: nat)
      requires Valid() && n in inodes
      modifies this`inodes
      ensures Valid() && inodes == old(inodes)[n := old(inodes)[n].(size := size, dirt := true)]
      ensures forall a :: At(inodes, blocks, a) == At(old(inodes), blocks, a)
    {
      ghost var i0 := inodes;
      inodes := inodes[n := inodes[n].(size := size, dirt := true)];
      assert forall a :: At(inodes, blocks, a) == At(i0, blocks, a);
      forall a, b ensures !Shares(inodes, blocks, a, b) { assert !Shares(i0, blocks, a, b); }
      forall a ensures Marked(sb, sb.zbits, inodes, blocks, a) { assert Marked(sb, sb.zbits, i0, blocks, a); }
    }
  }
}
