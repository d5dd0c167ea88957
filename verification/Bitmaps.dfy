/** The bitmap allocators of fs/super.c and the boot-time counts of fs/sys_fs.c. A map is the bits of its
    8192-bit blocks laid end to end; the machine scans it in 32-bit words. */
module Bitmaps {

  const BLOCK_BITS: nat := 8192

  // ------------------------------------------------------------------ one word

  function Not(w: seq<bool>): (r: seq<bool>)
    ensures |r| == |w| && forall i | 0 <= i < |w| :: r[i] == !w[i]
  {
    seq(|w|, i requires 0 <= i < |w| => !w[i])
  }

  /** The bit-scan instruction: the lowest set bit, or the width of the word when there is none. */
  function Bsf(w: seq<bool>): (p: nat)
    ensures p <= |w| && (p < |w| ==> w[p]) && forall i | 0 <= i < p :: !w[i]
  {
    if w == [] || w[0] then 0 else 1 + Bsf(w[1..])
  }

  // ------------------------------------------------------------------ specification on the whole map

  /** `p` is the lowest clear bit. */
  ghost predicate IsFirstZero(bits: seq<bool>, p: nat) {
    p < |bits| && !bits[p] && forall i | 0 <= i < p :: bits[i]
  }

  ghost predicate AllSet(bits: seq<bool>, from: nat) {
    forall i | from <= i < |bits| :: bits[i]
  }

  ghost function Zeros(bits: seq<bool>, n: nat): nat
    requires n <= |bits|
  {
    if n == 0 then 0 else Zeros(bits, n - 1) + (if bits[n-1] then 0 else 1)
  }

  lemma {:induction false} ZerosSet(bits: seq<bool>, n: nat, p: nat)
    requires n <= |bits| && p < |bits| && !bits[p]
    ensures Zeros(bits[p := true], n) == Zeros(bits, n) - (if p < n then 1 else 0)
  {
    if n > 0 { ZerosSet(bits, n - 1, p); }
  }

  lemma {:induction false} ZerosFull(bits: seq<bool>, m: nat, n: nat)
    requires m <= n <= |bits| && forall i | m <= i < n :: bits[i]
    ensures Zeros(bits, n) == Zeros(bits, m)
  {
    if m < n { ZerosFull(bits, m, n - 1); }
  }

  lemma {:induction false} ZerosPositive(bits: seq<bool>, n: nat, p: nat)
    requires p < n <= |bits| && !bits[p]
    ensures Zeros(bits, n) > 0
  {
    if p < n - 1 { ZerosPositive(bits, n - 1, p); }
  }

  lemma OneLess(bits: seq<bool>, n: nat, p: nat)
    requires p < n <= |bits| && !bits[p]
    ensures 0 <= Zeros(bits[p := true], n) < Zeros(bits, n) == Zeros(bits[p := true], n) + 1
  {
    ZerosSet(bits, n, p);
    ZerosPositive(bits, n, p);
  }

  // ------------------------------------------------------------------ the scans

  /** find_first_zero: load a word, invert it, scan it, and go on with the next while it was full. */
  method FindFirstZero(bits: seq<bool>) returns (ecx: nat)
    requires |bits| == BLOCK_BITS
    ensures ecx <= BLOCK_BITS && (ecx < BLOCK_BITS ==> !bits[ecx])
    ensures forall i | 0 <= i < ecx :: bits[i]
  {
    ecx := 0;
    while true
      invariant ecx % 32 == 0 && ecx < BLOCK_BITS
      invariant forall i | 0 <= i < ecx :: bits[i]
      decreases BLOCK_BITS - ecx
    {
      var eax := Not(bits[ecx..ecx + 32]);
      var edx := Bsf(eax);
      forall i | ecx <= i < ecx + edx ensures bits[i] { assert !eax[i - ecx]; }
      if edx < 32 {
        ecx := ecx + edx;
        return;
      }
      ecx := ecx + 32;
      if ecx >= BLOCK_BITS { return; }
    }
  }

  /** A map is kept as whole blocks of bits. */
  ghost predicate Whole(m: seq<seq<bool>>) {
    forall b | 0 <= b < |m| :: |m[b]| == BLOCK_BITS
  }

  /** The blocks laid end to end. */
  ghost function Flat(m: seq<seq<bool>>): (r: seq<bool>)
    requires Whole(m)
    ensures |r| == BLOCK_BITS * |m| && forall p | 0 <= p < |r| :: r[p] == m[p / BLOCK_BITS][p % BLOCK_BITS]
  {
    seq(BLOCK_BITS * |m|, p requires 0 <= p < BLOCK_BITS * |m| => m[p / BLOCK_BITS][p % BLOCK_BITS])
  }

  ghost predicate BitAt(m: seq<seq<bool>>, bits: seq<bool>, p: int) {
    0 <= p < |bits| == BLOCK_BITS * |m| ==>
      |m[p / BLOCK_BITS]| == BLOCK_BITS && bits[p] == m[p / BLOCK_BITS][p % BLOCK_BITS]
  }

  /** `bits` are the bits of `m`, end to end. */
  ghost predicate IsFlat(m: seq<seq<bool>>, bits: seq<bool>) {
    |bits| == BLOCK_BITS * |m| && forall p :: BitAt(m, bits, p)
  }

  lemma FlatIs(m: seq<seq<bool>>, bits: seq<bool>)
    ensures IsFlat(m, bits) <==> Whole(m) && bits == Flat(m)
  {
    if IsFlat(m, bits) {
      forall b | 0 <= b < |m| ensures |m[b]| == BLOCK_BITS { assert BitAt(m, bits, BLOCK_BITS * b); }
      forall p | 0 <= p < |bits| ensures bits[p] == Flat(m)[p] { assert BitAt(m, bits, p); }
    }
  }

  /** set_bit and clear_bit on bit `j` of block `i` act on bit 8192 * i + j of the map and on no other. */
  lemma FlatSet(m: seq<seq<bool>>, bits: seq<bool>, i: nat, j: nat, v: bool)
    requires IsFlat(m, bits) && i < |m| && j < BLOCK_BITS
    ensures BLOCK_BITS * i + j < |bits| && |m[i]| == BLOCK_BITS
    ensures IsFlat(m[i := m[i][j := v]], bits[BLOCK_BITS * i + j := v])
  {
    FlatIs(m, bits);
    var at, m', bits' := BLOCK_BITS * i + j, m[i := m[i][j := v]], bits[BLOCK_BITS * i + j := v];
    forall p ensures BitAt(m', bits', p) {
      if 0 <= p < |bits| { assert BitAt(m, bits, p) && (p == at <==> p / BLOCK_BITS == i && p % BLOCK_BITS == j); }
    }
  }

  /** The block loop shared by add_inode_bitmap and add_zone_bitmap: the position of the first clear bit,
      with `j` = 8192 when there is none. */
  method ScanBlocks(m: seq<seq<bool>>) returns (i: nat, j: nat)
    requires Whole(m)
    ensures j <= BLOCK_BITS && i <= |m| && (j == BLOCK_BITS <==> AllSet(Flat(m), 0))
    ensures j < BLOCK_BITS ==> i < |m| && IsFirstZero(Flat(m), BLOCK_BITS * i + j)
  {
    i, j := 0, BLOCK_BITS;
    ghost var bits := Flat(m);
    while i < |m|
      invariant i <= |m| && j == BLOCK_BITS
      invariant forall k | 0 <= k < BLOCK_BITS * i :: bits[k]
    {
      j := FindFirstZero(m[i]);
      forall k | BLOCK_BITS * i <= k < BLOCK_BITS * i + j ensures bits[k] {
        assert k / BLOCK_BITS == i && m[i][k - BLOCK_BITS * i];
      }
      if j < BLOCK_BITS {
        assert (BLOCK_BITS * i + j) / BLOCK_BITS == i;
        break;
      }
      i := i + 1;
    }
  }

  /** The counting loops of sys_setup, from the top bit down. */
  method CountFree(m: seq<seq<bool>>, n: nat) returns (free: nat)
    requires Whole(m) && n <= BLOCK_BITS * |m|
    ensures free == Zeros(Flat(m), n)
  {
    free := 0;
    var i := n;
    while i > 0
      invariant 0 <= i <= n && free + Zeros(Flat(m), i) == Zeros(Flat(m), n)
    {
      i := i - 1;
      if !m[i / BLOCK_BITS][i % BLOCK_BITS] { free := free + 1; }
    }
  }

  // ------------------------------------------------------------------ allocation

  class Super {
    const ninodes: nat
    const nzones: nat
    const first: nat          // s_firstdatazone
    const imapBlocks: nat
    const zmapBlocks: nat
    /** The blocks behind s_imap and s_zmap. */
    var imaps: seq<seq<bool>>
    var zmaps: seq<seq<bool>>
    /** The same as single sequences of bits. */
    ghost var ibits: seq<bool>
    ghost var zbits: seq<bool>

    /** What read_super sets up: whole blocks of bits, enough of them, and bit 0 of either map set. */
    ghost predicate Valid()
      reads this
    {
      && 1 <= imapBlocks <= 8 && 1 <= zmapBlocks <= 8 && 2 + imapBlocks + zmapBlocks <= first
      && IsFlat(imaps, ibits) && IsFlat(zmaps, zbits) && |imaps| == imapBlocks && |zmaps| == zmapBlocks
      && |ibits| == BLOCK_BITS * imapBlocks && |zbits| == BLOCK_BITS * zmapBlocks
      && ninodes < |ibits| && nzones <= |zbits| && nzones < 0x1_0000 && ninodes < 0x1_0000
      && ibits[0] && zbits[0]
    }

    /** What mkfs writes: no clear bit stands for a zone that does not exist. */
    ghost predicate Padded()
      reads this
    {
      first <= nzones && AllSet(zbits, nzones - first + 1)
    }

    /** The last part of read_super, once both maps are loaded: bit 0 of either map is set. */
    constructor (ninodes: nat, nzones: nat, first: nat, imaps: seq<seq<bool>>, zmaps: seq<seq<bool>>)
      requires 1 <= |imaps| <= 8 && 1 <= |zmaps| <= 8 && 2 + |imaps| + |zmaps| <= first && Whole(imaps) && Whole(zmaps)
      requires ninodes < BLOCK_BITS * |imaps| && nzones <= BLOCK_BITS * |zmaps| && nzones < 0x1_0000
               && ninodes < 0x1_0000
      ensures Valid() && ibits == Flat(imaps)[0 := true] && zbits == Flat(zmaps)[0 := true]
      ensures this.ninodes == ninodes && this.nzones == nzones && this.first == first
      ensures imapBlocks == |imaps| && zmapBlocks == |zmaps|
    {
      this.ninodes, this.nzones, this.first, this.imapBlocks, this.zmapBlocks := ninodes, nzones, first, |imaps|,
          |zmaps|;
      this.imaps, this.zmaps := imaps[0 := imaps[0][0 := true]], zmaps[0 := zmaps[0][0 := true]];
      this.ibits, this.zbits := Flat(imaps)[0 := true], Flat(zmaps)[0 := true];
      new;
      FlatIs(imaps, Flat(imaps));
      FlatIs(zmaps, Flat(zmaps));
      FlatSet(imaps, Flat(imaps), 0, 0, true);
      FlatSet(zmaps, Flat(zmaps), 0, 0, true);
    }

    /** add_inode_bitmap: the lowest free inode number from 1 to s_ninodes, or 0 when there is none. */
    method AddInodeBitmap() returns (r: nat)
      requires Valid()
      modifies this`ibits, this`imaps
      ensures Valid()
      ensures r == 0 ==> ibits == old(ibits) && forall p | 0 <= p <= ninodes :: ibits[p]
      ensures r != 0 ==> r <= ninodes && IsFirstZero(old(ibits), r) && ibits == old(ibits)[r := true]
    {
      FlatIs(imaps, ibits);
      var i, j := ScanBlocks(imaps);
      var pos := j + i * BLOCK_BITS;
      if j >= BLOCK_BITS || pos > ninodes { return 0; }
      FlatSet(imaps, ibits, i, j, true);
      imaps := imaps[i := imaps[i][j := true]];
      ibits := ibits[pos := true];
      r := pos;
    }

    /** free_inode_bitmap; numbers outside 1..s_ninodes are a panic. */
    method FreeInodeBitmap(num: nat)
      requires Valid() && 1 <= num <= ninodes
      modifies this`ibits, this`imaps
      ensures Valid() && ibits == old(ibits)[num := false]
    {
      var slot, bit := num / 8192, num % 8192;
      FlatSet(imaps, ibits, slot, bit, false);
      imaps := imaps[slot := imaps[slot][bit := false]];
      ibits := ibits[num := false];
    }

    /** add_zone_bitmap: the zone of the lowest clear bit, or 0 when that lies beyond `nzones` - not at it. */
    method AddZoneBitmap() returns (r: nat)
      requires Valid()
      modifies this`zbits, this`zmaps
      ensures Valid()
      ensures r == 0 ==> zbits == old(zbits) && forall p | 0 <= p < |zbits| && p - 1 + first <= nzones :: zbits[p]
      ensures r != 0 ==> first <= r <= nzones && IsFirstZero(old(zbits), r - first + 1)
                         && zbits == old(zbits)[r - first + 1 := true]
    {
      FlatIs(zmaps, zbits);
      var i, j := ScanBlocks(zmaps);
      var block := j + i * BLOCK_BITS - 1 + first;
      if j >= BLOCK_BITS || block > nzones { return 0; }
      FlatSet(zmaps, zbits, i, j, true);
      zmaps := zmaps[i := zmaps[i][j := true]];
      zbits := zbits[j + i * BLOCK_BITS := true];
      r := block;
    }

    /** free_zone_bitmap; zones outside firstdatazone..nzones-1 are a panic. */
    method FreeZoneBitmap(block: nat)
      requires Valid() && first <= block < nzones
      modifies this`zbits, this`zmaps
      ensures Valid() && zbits == old(zbits)[block - first + 1 := false]
    {
      var pos := block - (first - 1);
      var slot, bit := pos / 8192, pos % 8192;
      FlatSet(zmaps, zbits, slot, bit, false);
      zmaps := zmaps[slot := zmaps[slot][bit := false]];
      zbits := zbits[pos := false];
    }

    /** The two bounds differ by one. Zone `nzones`, which does not exist and which free_zone_bitmap refuses,
        is handed out exactly when every existing zone is taken and the bit after theirs is clear. */
    lemma OffByOne(p: nat)
      requires Valid() && first <= nzones && IsFirstZero(zbits, p)
      ensures p - 1 + first == nzones <==>
              (forall q | 0 <= q <= nzones - first :: zbits[q])
              && !zbits[nzones - first + 1]
      ensures Padded() ==> first <= p - 1 + first < nzones
    {
    }

    /** Allocating, and at once giving back what was allocated, changes nothing - unless what was handed out
        is zone `nzones`, which cannot be given back. */
    method TakeAndReturnZone() returns (r: nat)
      requires Valid()
      modifies this`zbits, this`zmaps
      ensures Valid() && (zbits == old(zbits) <==> r == 0 || r != nzones)
      ensures old(Padded()) ==> zbits == old(zbits)
    {
      r := AddZoneBitmap();
      if r != 0 && r < nzones {
        ghost var taken := zbits;
        FreeZoneBitmap(r);
        assert taken[r - first + 1];
      }
    }

    /** Allocation after allocation until one fails: as many succeed as sys_setup counts free zones. */
    method TakeAllZones() returns (n: nat)
      requires Valid() && Padded()
      modifies this`zbits, this`zmaps
      ensures Valid() && Padded() && n == old(Zeros(zbits, nzones)) && AllSet(zbits, 0)
    {
      n := 0;
      while true
        invariant Valid() && Padded() && n + Zeros(zbits, nzones) == old(Zeros(zbits, nzones))
        decreases Zeros(zbits, nzones)
      {
        ghost var before := zbits;
        var r := AddZoneBitmap();
        if r == 0 {
          ZerosFull(zbits, 0, nzones);
          return;
        }
        OneLess(before, nzones, r - first + 1);
        n := n + 1;
      }
    }

    /** Likewise for inodes, where no padding is needed. */
    method TakeAllInodes() returns (n: nat)
      requires Valid()
      modifies this`ibits, this`imaps
      ensures Valid() && n == old(Zeros(ibits, ninodes + 1)) && forall p | 0 <= p <= ninodes :: ibits[p]
    {
      n := 0;
      while true
        invariant Valid() && n + Zeros(ibits, ninodes + 1) == old(Zeros(ibits, ninodes + 1))
        decreases Zeros(ibits, ninodes + 1)
      {
        ghost var before := ibits;
        var r := AddInodeBitmap();
        if r == 0 {
          ZerosFull(ibits, 0, ninodes + 1);
          return;
        }
        OneLess(before, ninodes + 1, r);
        n := n + 1;
      }
    }
  }
}
