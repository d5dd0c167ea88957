/** read_super of fs/super.c: checking a device's superblock and loading its maps, with the references this takes. */
module Mounting {
  import opened Bitmaps

  const SUPER_MAGIC: nat := 0x138F
  const MAP_SLOTS: nat := 8

  /** What block 1 says. */
  datatype DSuper = DSuper(ninodes: nat, nzones: nat, imapBlocks: nat, zmapBlocks: nat, first: nat, magic: nat) {
    /** The maps fit the slots and cover the inodes and zones, which read_super takes on trust. */
    ghost predicate Sane() {
      && 1 <= imapBlocks <= MAP_SLOTS && 1 <= zmapBlocks <= MAP_SLOTS && 2 + imapBlocks + zmapBlocks <= first
      && ninodes < BLOCK_BITS * imapBlocks && nzones <= BLOCK_BITS * zmapBlocks
      && nzones < 0x1_0000 && ninodes < 0x1_0000
    }
  }

  /** The blocks of a device: which can be read, and their bits. */
  datatype Device = Device(readable: nat -> bool, bits: nat -> seq<bool>) {
    ghost predicate Ok() { forall b :: |bits(b)| == BLOCK_BITS }
  }

  type Holders = imap<nat, nat>

  ghost predicate Total(refs: Holders) { forall b: nat :: b in refs }

  /** From r0 to r1 each of `n` blocks from `block` on has `d` holders more, and every other block as many. */
  ghost predicate HeldMore(r0: Holders, r1: Holders, block: nat, n: nat, d: int) {
    Total(r0) && Total(r1) && forall b: nat :: r1[b] == r0[b] + (if block <= b < block + n then d else 0)
  }

  /** A loading loop of read_super: it stops at the first block that cannot be read, and holds those it read. */
  method LoadMap(d: Device, block: nat, n: nat, refs: Holders) returns (m: seq<seq<bool>>, refs': Holders)
    requires d.Ok() && Total(refs)
    ensures |m| <= n && (|m| < n ==> !d.readable(block + |m|)) && Whole(m)
    ensures forall b | block <= b < block + |m| :: d.readable(b) && m[b - block] == d.bits(b)
    ensures HeldMore(refs, refs', block, |m|, 1)
  {
    m, refs' := [], refs;
    while |m| < n
      invariant |m| <= n && Whole(m) && HeldMore(refs, refs', block, |m|, 1)
      invariant forall b | block <= b < block + |m| :: d.readable(b) && m[b - block] == d.bits(b)
    {
      var b := block + |m|;
      if !d.readable(b) { break; }
      refs' := refs'[b := refs'[b] + 1];
      m := m + [d.bits(b)];
    }
  }

  /** put_buff on every block that was read. */
  method Release(block: nat, n: nat, refs: Holders) returns (refs': Holders)
    requires Total(refs) && forall b | block <= b < block + n :: refs[b] > 0
    ensures HeldMore(refs, refs', block, n, -1)
  {
    refs' := refs;
    for i := 0 to n
      invariant HeldMore(refs, refs', block, i, -1)
    {
      refs' := refs'[block + i := refs'[block + i] - 1];
    }
  }

  /** Both put_buff loops of a failed read_super, which had the references `refs0`. */
  method ReleaseAll(m: nat, n: nat, refs: Holders, ghost refs0: Holders) returns (refs': Holders)
    requires HeldMore(refs0, refs, 2, m + n, 1)
    ensures refs' == refs0
  {
    refs' := Release(2, m, refs);
    refs' := Release(2 + m, n, refs');
    assert forall b: nat :: refs'[b] == refs0[b];
  }

  lemma HeldTogether(r0: Holders, r1: Holders, r2: Holders, block: nat, m: nat, n: nat)
    requires HeldMore(r0, r1, block, m, 1) && HeldMore(r1, r2, block + m, n, 1)
    ensures HeldMore(r0, r2, block, m + n, 1)
  {
  }

  /** The blocks of `m` are those of the device from `block` on. */
  ghost predicate Loaded(d: Device, m: seq<seq<bool>>, block: nat) {
    Whole(m) && forall b | block <= b < block + |m| :: m[b - block] == d.bits(b)
  }

  ghost predicate AllReadable(d: Device, block: nat, n: nat) {
    forall b | block <= b < block + n :: d.readable(b)
  }

  /** Both loops, and the release of everything if a block could not be read. */
  method LoadMaps(d: Device, s: DSuper, refs: Holders)
    returns (ok: bool, imaps: seq<seq<bool>>, zmaps: seq<seq<bool>>, refs': Holders)
    requires d.Ok() && Total(refs)
    ensures ok <==> AllReadable(d, 2, s.imapBlocks + s.zmapBlocks)
    ensures if ok then HeldMore(refs, refs', 2, s.imapBlocks + s.zmapBlocks, 1) else refs' == refs
    ensures ok ==>
            |imaps| == s.imapBlocks && |zmaps| == s.zmapBlocks && Loaded(d, imaps, 2)
            && Loaded(d, zmaps, 2 + |imaps|)
  {
    imaps, refs' := LoadMap(d, 2, s.imapBlocks, refs);
    ghost var refs1 := refs';
    zmaps, refs' := LoadMap(d, 2 + |imaps|, s.zmapBlocks, refs');
    HeldTogether(refs, refs1, refs', 2, |imaps|, |zmaps|);
    ok := 2 + |imaps| + |zmaps| == 2 + s.imapBlocks + s.zmapBlocks;
    if !ok {
      refs' := ReleaseAll(|imaps|, |zmaps|, refs', refs);
    }
  }

  lemma LoadedBit(d: Device, m: seq<seq<bool>>, block: nat, p: nat)
    requires Loaded(d, m, block) && d.Ok() && p < BLOCK_BITS * |m|
    ensures Flat(m)[p] == d.bits(block + p / BLOCK_BITS)[p % BLOCK_BITS]
  {
    assert m[p / BLOCK_BITS] == m[block + p / BLOCK_BITS - block];
  }

  /** Bit 0 of the map at `block` is set, every other bit is what the device has. */
  ghost predicate MapOf(d: Device, block: nat, bits: seq<bool>) {
    d.Ok() && |bits| > 0 && bits[0]
      && forall p | 1 <= p < |bits| :: bits[p] == d.bits(block + p / BLOCK_BITS)[p % BLOCK_BITS]
  }

  lemma LoadedMap(d: Device, m: seq<seq<bool>>, block: nat)
    requires Loaded(d, m, block) && d.Ok() && |m| > 0
    ensures MapOf(d, block, Flat(m)[0 := true])
  {
    forall p | 1 <= p < BLOCK_BITS * |m| ensures Flat(m)[p] == d.bits(block + p / BLOCK_BITS)[p % BLOCK_BITS] {
      LoadedBit(d, m, block, p);
    }
  }

  /** read_super of a device that is not mounted yet: it succeeds exactly when the magic number is right and every block
      can be read. Then each block of both maps is held once; otherwise no reference is left behind. */
  method ReadSuper(d: Device, s: DSuper, refs: Holders) returns (sb: Super?, refs': Holders)
    requires d.Ok() && s.Sane() && Total(refs)
    ensures sb != null <==> s.magic == 0x138F && d.readable(1) && AllReadable(d, 2, s.imapBlocks + s.zmapBlocks)
    ensures if sb == null then refs' == refs else HeldMore(refs, refs', 2, s.imapBlocks + s.zmapBlocks, 1)
    ensures sb != null ==>
              && fresh(sb) && sb.Valid() && sb.ninodes == s.ninodes && sb.nzones == s.nzones && sb.first == s.first
              && MapOf(d, 2, sb.ibits) && MapOf(d, 2 + s.imapBlocks, sb.zbits)
  {
    sb, refs' := null, refs;
    if !d.readable(1) { return; }
    if s.magic != SUPER_MAGIC { return; }
    var ok, imaps, zmaps;
    ok, imaps, zmaps, refs' := LoadMaps(d, s, refs);
    if ok {
      sb := new Super(s.ninodes, s.nzones, s.first, imaps, zmaps);
      LoadedMap(d, imaps, 2);
      LoadedMap(d, zmaps, 2 + |imaps|);
    }
  }
}
