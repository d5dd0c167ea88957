/** The hard-disk driver of blk/hd.c and the submission path of blk/blk_main.c: an interrupt-driven
    machine over the request pool. The disk answers each command with success or failure, and each
    write command with or without DRQ, as it pleases. */
module Driver {
  import opened Bytes
  import opened Devices
  import opened Elevator
  import opened Geometry
  import opened RequestPool

  const MAX_ERRORS: nat := 7
  /** Exactly below this block number a request that passes the bound test goes to its own block. */
  const BLOCK_LIMIT: nat := 0x7FFF_FFFF
  /** More than one request can ever cost, in interrupts. */
  const REQUEST_COST: nat := 45

  datatype Head = Head(dev: nat, block: nat, lock: bool, dirt: bool, uptodate: bool, data: Block)

  /** What the controller is doing. `lba` is its own reading of the address it was sent;
      `latch` is the sector that port_write handed over. */
  datatype Command =
    | Idle
    | Specify
    | Restore
    | Reading(drive: nat, lba: int, left: nat)
    | Writing(drive: nat, lba: int, left: nat, latch: Sector)

  datatype Handler = NoHandler | OnRecal | OnRead | OnWrite

  function Put(b: Block, at: nat, s: Sector): (r: Block)
    requires at <= 512
    ensures r[at..at+512] == s && r[..at] == b[..at] && r[at+512..] == b[at+512..]
  {
    b[..at] + s + b[at+512..]
  }

  // ------------------------------------------------------------------ the queue against the buffers

  /** A waiting request is the rest of the transfer of one whole block, and its buffer is locked. */
  ghost predicate ReqOk(r: Request, heads: seq<Head>) {
    && r.bh < |heads|
    && var h := heads[r.bh];
       && r.dev == h.dev && h.dev / 256 == MAJOR_HD && h.block < BLOCK_LIMIT
       && (r.cmd == READ || r.cmd == WRITE)
       && 1 <= r.nrSectors <= 2 && r.errors < MAX_ERRORS
       && r.sector + r.nrSectors == 2 * h.block + 2
       && r.buffer == 512 * (r.sector - 2 * h.block)
       && h.lock && (r.cmd == READ ==> !h.uptodate)
  }

  ghost predicate Owns(q: seq<Request>, b: int) {
    exists i :: 0 <= i < |q| && q[i].bh == b
  }

  /** Locked means: queued, or in the hands of ll_rw_block on its way into the queue (`entering`, or -1). */
  ghost predicate LockAgrees(q: seq<Request>, heads: seq<Head>, entering: int, b: int) {
    0 <= b < |heads| ==> (heads[b].lock <==> b == entering || Owns(q, b))
  }

  ghost predicate WriteQueued(q: seq<Request>, b: int) {
    exists i :: 0 <= i < |q| && q[i].bh == b && q[i].cmd == WRITE
  }

  ghost predicate SameBuffer(q: seq<Request>, i: int, j: int) {
    0 <= i < j < |q| && q[i].bh == q[j].bh
  }

  ghost predicate Untouched(q: seq<Request>, i: int) {
    0 < i < |q| ==> q[i].nrSectors == 2 && q[i].errors == 0
  }

  ghost predicate QueueOk(q: seq<Request>, heads: seq<Head>, entering: int) {
    && (forall i {:trigger ReqOk(q[i], heads)} | 0 <= i < |q| :: ReqOk(q[i], heads))
    && (forall i :: Untouched(q, i))
    && (forall i, j :: !SameBuffer(q, i, j))
    && (forall b :: LockAgrees(q, heads, entering, b))
    && (0 <= entering ==> entering < |heads| && !Owns(q, entering))
  }

  ghost predicate SameBlock(heads: seq<Head>, b: int, c: int) {
    && 0 <= b < |heads| && 0 <= c < |heads| && b != c && heads[b].dev / 256 == MAJOR_HD
    && heads[b].dev == heads[c].dev && heads[b].block == heads[c].block
  }

  /** The buffer cache's promise: no two headers hold the same block of a hard disk. */
  ghost predicate UniqueKeys(heads: seq<Head>) {
    forall b, c :: !SameBlock(heads, b, c)
  }

  /** Everything about the queue that has to survive every step. */
  ghost predicate Orderly(q: seq<Request>, heads: seq<Head>, entering: int) {
    QueueOk(q, heads, entering) && UniqueKeys(heads) && OneDescent(Keys(q))
  }

  lemma PopKeeps(q: seq<Request>, heads: seq<Head>, entering: int, uptodate: bool)
    requires q != [] && Orderly(q, heads, entering)
    ensures q[0].bh < |heads|
            && Orderly(q[1..], heads[q[0].bh := heads[q[0].bh].(uptodate := uptodate, lock := false)], entering)
  {
    assert ReqOk(q[0], heads);
    var heads', q' := heads[q[0].bh := heads[q[0].bh].(uptodate := uptodate, lock := false)], q[1..];
    forall i | 0 <= i < |q'| ensures ReqOk(q'[i], heads') {
      assert ReqOk(q[i+1], heads) && !SameBuffer(q, 0, i + 1);
    }
    forall i ensures Untouched(q', i) { assert Untouched(q, i + 1); }
    forall i, j ensures !SameBuffer(q', i, j) { assert !SameBuffer(q, i + 1, j + 1); }
    forall b ensures LockAgrees(q', heads', entering, b) && (Owns(q', b) <==> b != q[0].bh && Owns(q, b)) {
      assert LockAgrees(q, heads, entering, b);
      if i :| 0 <= i < |q| && q[i].bh == b && b != q[0].bh { assert q'[i-1].bh == b; }
      if i :| 0 <= i < |q'| && q'[i].bh == b { assert q[i+1].bh == b && !SameBuffer(q, 0, i + 1); }
      assert q[0].bh == q[0].bh && Owns(q, q[0].bh);
    }
    forall b, c ensures !SameBlock(heads', b, c) { assert !SameBlock(heads, b, c); }
    forall i: nat, j: nat | DescentAt(Keys(q'), i) && DescentAt(Keys(q'), j) ensures i == j {
      assert DescentAt(Keys(q), i + 1) && DescentAt(Keys(q), j + 1);
    }
  }

  lemma HeadKeepsOrder(q: seq<Request>, heads: seq<Head>, entering: int, r: Request)
    requires q != [] && Orderly(q, heads, entering)
    requires ReqOk(r, heads) && r.bh == q[0].bh && r.cmd == q[0].cmd && r.nrSectors == q[0].nrSectors - 1
    ensures OneDescent(Keys(q[0 := r]))
  {
    var k := Keys(q);
    forall i | 0 <= i < |q| ensures k[i].sector % 2 == 0 { assert ReqOk(q[i], heads) && Untouched(q, i); }
    forall i | 0 < i < |q| ensures k[i] != k[0] {
      assert ReqOk(q[i], heads) && ReqOk(q[0], heads) && Untouched(q, i);
      assert !SameBuffer(q, 0, i) && !SameBlock(heads, q[0].bh, q[i].bh);
    }
    assert ReqOk(q[0], heads);
    HeadAdvanceKeepsOrder(k);
    assert Keys(q[0 := r]) == k[0 := k[0].(sector := k[0].sector + 1)];
  }

  /** Progress of the head: fewer sectors or more errors, the same block. */
  lemma HeadKeeps(q: seq<Request>, heads: seq<Head>, entering: int, r: Request)
    requires q != [] && Orderly(q, heads, entering)
    requires ReqOk(r, heads) && r.bh == q[0].bh && r.cmd == q[0].cmd
    requires r.nrSectors == q[0].nrSectors || r.nrSectors == q[0].nrSectors - 1
    ensures Orderly(q[0 := r], heads, entering)
  {
    var q' := q[0 := r];
    assert ReqOk(q[0], heads);
    assert forall i | 0 <= i < |q| :: q'[i].bh == q[i].bh;
    forall i | 0 <= i < |q| ensures ReqOk(q'[i], heads) { assert ReqOk(q[i], heads); }
    forall i ensures Untouched(q', i) { assert Untouched(q, i); }
    forall i, j ensures !SameBuffer(q', i, j) { assert !SameBuffer(q, i, j); }
    forall b ensures LockAgrees(q', heads, entering, b) && (Owns(q', b) <==> Owns(q, b)) {
      assert LockAgrees(q, heads, entering, b);
    }
    if r.nrSectors == q[0].nrSectors {
      assert Keys(q') == Keys(q);
    } else {
      HeadKeepsOrder(q, heads, entering, r);
    }
  }

  /** A new request for the entering buffer has a key of its own. */
  lemma FreshKey(q: seq<Request>, heads: seq<Head>, r: Request)
    requires Orderly(q, heads, r.bh) && ReqOk(r, heads) && r.nrSectors == 2
    ensures r.Order() !in Keys(q)
  {
    forall i | 0 <= i < |q| ensures Keys(q)[i] != r.Order() {
      assert Owns(q, q[i].bh) && ReqOk(q[i], heads) && !SameBlock(heads, q[i].bh, r.bh);
    }
  }

  lemma InsertOwns(q: seq<Request>, r: Request, p: nat, b: int)
    requires p < |q|
    ensures Owns(Insert(q, r, p), b) <==> b == r.bh || Owns(q, b)
  {
    var q' := Insert(q, r, p);
    if i :| 0 <= i < |q| && q[i].bh == b { assert q'[if i <= p then i else i + 1].bh == b; }
    if i :| 0 <= i < |q'| && q'[i].bh == b && i != p + 1 { assert q[if i <= p then i else i - 1].bh == b; }
    assert q'[p+1].bh == r.bh;
  }

  lemma InsertBuffers(q: seq<Request>, r: Request, p: nat)
    requires p < |q| && !Owns(q, r.bh) && forall i, j :: !SameBuffer(q, i, j)
    ensures forall i, j :: !SameBuffer(Insert(q, r, p), i, j)
  {
    var q' := Insert(q, r, p);
    forall i, j ensures !SameBuffer(q', i, j) {
      if 0 <= i < j < |q'| {
        var i0, j0 := if i <= p then i else i - 1, if j <= p then j else j - 1;
        assert !SameBuffer(q, i0, j0);
        assert i != p + 1 ==> q[i0].bh == q'[i].bh;
        assert j != p + 1 ==> q[j0].bh == q'[j].bh;
      }
    }
  }

  /** So the elevator keeps its order when that request goes in. */
  lemma InsertKeeps(q: seq<Request>, heads: seq<Head>, r: Request, p: nat)
    requires Orderly(q, heads, r.bh) && ReqOk(r, heads) && r.nrSectors == 2 && r.errors == 0
    requires StopsAt(Keys(q), r.Order(), p)
    ensures Orderly(Insert(q, r, p), heads, -1)
  {
    var q' := Insert(q, r, p);
    FreshKey(q, heads, r);
    DistinctInsertKeepsOneDescent(Keys(q), r.Order(), p);
    assert Keys(q') == Insert(Keys(q), r.Order(), p);
    forall i | 0 <= i < |q'| ensures ReqOk(q'[i], heads) {
      assert i != p + 1 ==> ReqOk(q[if i <= p then i else i - 1], heads);
    }
    forall i ensures Untouched(q', i) { assert Untouched(q, if i <= p then i else i - 1); }
    InsertBuffers(q, r, p);
    forall b ensures LockAgrees(q', heads, -1, b) {
      assert LockAgrees(q, heads, r.bh, b);
      InsertOwns(q, r, p, b);
    }
  }

  lemma SingleKeeps(heads: seq<Head>, r: Request)
    requires Orderly([], heads, r.bh) && ReqOk(r, heads)
    ensures Orderly([r], heads, -1)
  {
    forall b ensures LockAgrees([r], heads, -1, b) {
      assert LockAgrees([], heads, r.bh, b);
      assert [r][0].bh == r.bh;
    }
  }

  // ------------------------------------------------------------------ blocks on the disk

  ghost predicate Configured(drives: seq<Drive>, parts: seq<Partition>) {
    && |drives| <= 2 && |parts| == 5 * |drives|
    && (forall d | 0 <= d < |drives| :: drives[d].Ok())
    && (forall p | 0 <= p < |parts| :: parts[p].start + parts[p].count <= drives[p / 5].Capacity())
  }

  ghost predicate DiskOk(drives: seq<Drive>, disk: seq<seq<Sector>>) {
    |disk| == |drives| && forall d | 0 <= d < |drives| :: |disk[d]| == drives[d].Capacity()
  }

  /** The block of `h` lies inside its partition. */
  ghost predicate Addressable(h: Head, parts: seq<Partition>) {
    h.dev % 256 < |parts| && 2 * h.block + 2 <= parts[h.dev % 256].count
  }

  ghost function Home(h: Head, parts: seq<Partition>): nat
    requires Addressable(h, parts)
  {
    parts[h.dev % 256].start + 2 * h.block
  }

  /** The two sectors of the block of `h`, first and second. */
  ghost function OnDisk(h: Head, drives: seq<Drive>, parts: seq<Partition>, disk: seq<seq<Sector>>): (b: seq<byte>)
    requires Configured(drives, parts) && DiskOk(drives, disk) && Addressable(h, parts)
  {
    var unit, at := disk[h.dev % 256 / 5], Home(h, parts);
    unit[at][..] + unit[at + 1][..]
  }

  lemma CapacityBound(d: Drive)
    requires d.Ok()
    ensures d.Capacity() <= MAX_SECTORS
  {
    MulMono(d.heads, 16, d.sects);
    assert d.heads * d.sects <= 16 * 255;
    MulMono(d.heads * d.sects, 16 * 255, d.cyls);
  }

  /** An admitted request is addressed, in cylinders, heads and sectors, at its own place in its partition. */
  lemma AdmittedTarget(drives: seq<Drive>, parts: seq<Partition>, heads: seq<Head>, r: Request)
    requires Configured(drives, parts) && ReqOk(r, heads)
    requires r.dev % 256 < 5 * |drives| && Admits(parts[r.dev % 256], r.sector)
    ensures var p := r.dev % 256;
            var chs := ToChs(drives[p / 5], Absolute(parts[p], r.sector));
            && chs.head < 16
            && ToLba(drives[p / 5], chs) == parts[p].start + r.sector
            && Within(parts[p], parts[p].start + r.sector, r.nrSectors)
            && Addressable(heads[r.bh], parts)
  {
    var p := r.dev % 256;
    CapacityBound(drives[p / 5]);
    AdmittedIsContained(parts[p], r.sector, 2);
    ChsRoundTrip(drives[p / 5], Absolute(parts[p], r.sector));
  }

  /** Only the bytes or the dirty flag of a header change. */
  lemma DataKeeps(q: seq<Request>, heads: seq<Head>, entering: int, b: nat, h: Head)
    requires Orderly(q, heads, entering) && b < |heads|
    requires h == heads[b].(data := h.data, dirt := h.dirt)
    ensures Orderly(q, heads[b := h], entering)
  {
    var heads' := heads[b := h];
    forall i | 0 <= i < |q| ensures ReqOk(q[i], heads') { assert ReqOk(q[i], heads); }
    forall c ensures LockAgrees(q, heads', entering, c) { assert LockAgrees(q, heads, entering, c); }
    forall c, d ensures !SameBlock(heads', c, d) { assert !SameBlock(heads, c, d); }
  }

  /** The cache may do as it likes with an unlocked buffer, as long as no two headers get the same block. */
  lemma ReuseKeeps(q: seq<Request>, heads: seq<Head>, entering: int, b: nat, h: Head)
    requires Orderly(q, heads, entering) && b < |heads| && !heads[b].lock && !h.lock && b != entering
    requires h.dev / 256 == MAJOR_HD ==>
               forall c | 0 <= c < |heads| && c != b :: heads[c].dev != h.dev || heads[c].block != h.block
    ensures Orderly(q, heads[b := h], entering) && !Owns(q, b)
  {
    var heads' := heads[b := h];
    assert LockAgrees(q, heads, entering, b);
    forall i | 0 <= i < |q| ensures ReqOk(q[i], heads') { assert ReqOk(q[i], heads) && Owns(q, q[i].bh); }
    forall c ensures LockAgrees(q, heads', entering, c) { assert LockAgrees(q, heads, entering, c); }
    forall c, d ensures !SameBlock(heads', c, d) { assert !SameBlock(heads, c, d); }
  }

  /** Locking an unlocked buffer makes it the entering one; unlocking the entering one undoes that. */
  lemma EnterKeeps(q: seq<Request>, heads: seq<Head>, b: nat, lock: bool)
    requires b < |heads| && Orderly(q, heads, if lock then -1 else b) && heads[b].lock == !lock
    ensures Orderly(q, heads[b := heads[b].(lock := lock)], if lock then b else -1)
    ensures !Owns(q, b)
  {
    var heads' := heads[b := heads[b].(lock := lock)];
    var before, after := if lock then -1 else b, if lock then b else -1;
    assert LockAgrees(q, heads, before, b);
    forall i | 0 <= i < |q| ensures ReqOk(q[i], heads') { assert ReqOk(q[i], heads) && Owns(q, q[i].bh); }
    forall c ensures LockAgrees(q, heads', after, c) { assert LockAgrees(q, heads, before, c); }
    forall c, d ensures !SameBlock(heads', c, d) { assert !SameBlock(heads, c, d); }
  }

  ghost predicate KeptOrFailed(h0: seq<Head>, h1: seq<Head>, b: int) {
    0 <= b < |h0| == |h1| ==> h1[b] == h0[b] || (h0[b].lock && h1[b] == h0[b].(lock := false, uptodate := false))
  }

  /** The disk cannot serve `r`: no such partition, or not two sectors left in it. */
  predicate Refusable(parts: seq<Partition>, r: Request) {
    r.dev % 256 >= |parts| || !Admits(parts[r.dev % 256], r.sector)
  }

  /** How many of the write commands issued at moments `from` up to `to` got no DRQ. */
  ghost function Misses(drq: nat -> bool, from: nat, to: nat): nat {
    if to <= from then 0 else Misses(drq, from, to - 1) + (if drq(to - 1) then 0 else 1)
  }

  /** How many of the first `n` answers are failures. */
  ghost function Fails(answers: seq<bool>, n: nat): nat
    requires n <= |answers|
  {
    if n == 0 then 0 else Fails(answers, n - 1) + (if answers[n - 1] then 0 else 1)
  }

  lemma {:induction false} MissesTrans(drq: nat -> bool, a: nat, b: nat, c: nat)
    requires a <= b <= c
    ensures Misses(drq, a, c) == Misses(drq, a, b) + Misses(drq, b, c)
  {
    if b < c { MissesTrans(drq, a, b, c - 1); }
  }

  /** How many more errors a request takes before it is given up: none if it cannot be served anyway. */
  ghost function Price(parts: seq<Partition>, r: Request): int {
    if Refusable(parts, r) then 0 else MAX_ERRORS - r.errors
  }

  ghost function Cost(parts: seq<Partition>, q: seq<Request>, d: nat): int
    requires d <= |q|
  {
    if d == 0 then 0 else Cost(parts, q, d - 1) + Price(parts, q[d - 1])
  }

  /** A request is refused exactly when there is no such partition, or not two sectors of it from the request's on. */
  lemma RefusedOutside(parts: seq<Partition>, heads: seq<Head>, r: Request)
    requires ReqOk(r, heads)
    ensures Refusable(parts, r) <==> r.dev % 256 >= |parts| || r.sector + 2 > parts[r.dev % 256].count
  {
    if r.dev % 256 < |parts| { AdmitsInside(parts[r.dev % 256], r.sector); }
  }

  ghost predicate Unserved(parts: seq<Partition>, q0: seq<Request>, q1: seq<Request>, i: int) {
    0 <= i < |q0| - |q1| ==> Refusable(parts, q0[i]) || q0[i].cmd == WRITE
  }

  /** Only the first of the remaining requests can have more errors than before, and only a write that can be served. */
  ghost predicate SameRequest(parts: seq<Partition>, q0: seq<Request>, q1: seq<Request>, i: int) {
    0 <= i < |q1| <= |q0| ==>
      var r := q0[i + |q0| - |q1|];
      && q1[i] == r.(errors := q1[i].errors) && r.errors <= q1[i].errors
      && (i > 0 || r.cmd != WRITE || Refusable(parts, r) ==> q1[i] == r)
  }

  /** The errors that the first of the remaining requests has more. */
  ghost function Extra(q0: seq<Request>, q1: seq<Request>): int
    requires |q1| <= |q0|
  {
    if q1 == [] then 0 else q1[0].errors - q0[|q0| - |q1|].errors
  }

  /** From (q0, h0) to (q1, h1) nothing happened but that some of the first requests were given up: those that cannot be
      served, and writes that lacked DRQ until they had their seven errors; `missed` is exactly how often that was. */
  ghost predicate Dropped(parts: seq<Partition>, q0: seq<Request>, h0: seq<Head>, q1: seq<Request>, h1: seq<Head>,
                          missed: int) {
    && |q1| <= |q0| && |h1| == |h0|
    && (forall i :: SameRequest(parts, q0, q1, i))
    && (forall b :: KeptOrFailed(h0, h1, b))
    && (|q1| == |q0| ==> h1 == h0)
    && (forall i :: Unserved(parts, q0, q1, i))
    && missed == Cost(parts, q0, |q0| - |q1|) + Extra(q0, q1)
  }

  lemma {:induction false} CostSplit(parts: seq<Partition>, q0: seq<Request>, q1: seq<Request>, d: nat)
    requires |q1| <= |q0| && d <= |q1| && forall i :: SameRequest(parts, q0, q1, i)
    ensures Cost(parts, q0, |q0| - |q1| + d)
            == Cost(parts, q0, |q0| - |q1|) + Cost(parts, q1, d) + (if d == 0 then 0 else Extra(q0, q1))
  {
    if d > 0 {
      CostSplit(parts, q0, q1, d - 1);
      assert SameRequest(parts, q0, q1, d - 1);
    }
  }

  lemma DroppedTrans(parts: seq<Partition>, q0: seq<Request>, h0: seq<Head>, q1: seq<Request>, h1: seq<Head>,
                     q2: seq<Request>, h2: seq<Head>, a: int, b: int)
    requires Dropped(parts, q0, h0, q1, h1, a) && Dropped(parts, q1, h1, q2, h2, b)
    ensures Dropped(parts, q0, h0, q2, h2, a + b)
  {
    var d := |q0| - |q1|;
    forall i ensures SameRequest(parts, q0, q2, i) {
      assert SameRequest(parts, q1, q2, i) && SameRequest(parts, q0, q1, i + |q1| - |q2|);
    }
    forall c ensures KeptOrFailed(h0, h2, c) { assert KeptOrFailed(h0, h1, c) && KeptOrFailed(h1, h2, c); }
    forall i ensures Unserved(parts, q0, q2, i) {
      assert Unserved(parts, q0, q1, i) && Unserved(parts, q1, q2, i - d) && SameRequest(parts, q0, q1, i - d);
    }
    CostSplit(parts, q0, q1, |q1| - |q2|);
    assert SameRequest(parts, q0, q1, |q1| - |q2|) && SameRequest(parts, q1, q2, 0);
  }

  ghost predicate Few(q: seq<Request>, i: int) {
    0 <= i < |q| ==> q[i].errors < MAX_ERRORS
  }

  /** Prices are not negative, so the first `d` requests cost at least as much as any one of them. */
  lemma {:induction false} CostCovers(parts: seq<Partition>, q: seq<Request>, d: nat, i: nat)
    requires d <= |q| && forall j :: Few(q, j)
    ensures Cost(parts, q, d) >= 0 && (i < d ==> Cost(parts, q, d) >= Price(parts, q[i]))
  {
    if d > 0 {
      CostCovers(parts, q, d - 1, i);
      assert Few(q, d - 1);
    }
  }

  /** A request that could be served and was given up is a write, and its errors and its own misses made seven. */
  lemma GivenUpHasSeven(parts: seq<Partition>, q0: seq<Request>, h0: seq<Head>, q1: seq<Request>, h1: seq<Head>,
                        missed: int, i: nat)
    requires Dropped(parts, q0, h0, q1, h1, missed) && (forall j :: Few(q0, j))
    requires i < |q0| - |q1| && !Refusable(parts, q0[i])
    ensures q0[i].cmd == WRITE && q0[i].errors + missed >= 7
  {
    assert Unserved(parts, q0, q1, i) && SameRequest(parts, q0, q1, 0);
    CostCovers(parts, q0, |q0| - |q1|, i);
  }

  /** The first request stays if it can be served and is a read or misses too few DRQs; then nothing else happened. */
  lemma HeadStays(parts: seq<Partition>, q0: seq<Request>, h0: seq<Head>, q1: seq<Request>, h1: seq<Head>, missed: int)
    requires Dropped(parts, q0, h0, q1, h1, missed) && (forall j :: Few(q0, j))
    requires q0 != [] && !Refusable(parts, q0[0]) && (q0[0].cmd == READ || q0[0].errors + missed < 7)
    ensures |q1| == |q0| && h1 == h0 && missed >= 0 && (q0[0].cmd == READ ==> missed == 0)
    ensures q1 == q0[0 := q0[0].(errors := q0[0].errors + missed)]
  {
    if |q1| < |q0| { GivenUpHasSeven(parts, q0, h0, q1, h1, missed, 0); }
    assert Cost(parts, q0, 0) == 0 && SameRequest(parts, q0, q1, 0);
    forall i | 0 <= i < |q1| ensures q1[i] == q0[0 := q0[0].(errors := q0[0].errors + missed)][i] {
      assert SameRequest(parts, q0, q1, i);
    }
  }

  lemma DroppedNothing(parts: seq<Partition>, q: seq<Request>, h: seq<Head>)
    ensures Dropped(parts, q, h, q, h, 0)
  {
  }

  /** One more error for the head; at the seventh it goes, and its buffer is unlocked as failed. */
  ghost function Erred(q: seq<Request>): seq<Request>
    requires q != []
  {
    if q[0].errors + 1 < 7 then q[0 := q[0].(errors := q[0].errors + 1)] else q[1..]
  }

  ghost function ErredHeads(q: seq<Request>, h: seq<Head>): seq<Head>
    requires q != []
  {
    if q[0].errors + 1 < 7 || q[0].bh >= |h| then h else h[q[0].bh := h[q[0].bh].(lock := false, uptodate := false)]
  }

  lemma ErredKeeps(q: seq<Request>, h0: seq<Head>, h1: seq<Head>, b: int)
    requires q != [] && q[0].bh < |h0| == |h1| && h0[q[0].bh].lock && KeptOrFailed(ErredHeads(q, h0), h1, b)
    ensures KeptOrFailed(h0, h1, b)
  {
  }

  /** An error from a missed DRQ is one missed DRQ. */
  lemma MissDropped(parts: seq<Partition>, q: seq<Request>, h: seq<Head>)
    requires q != [] && q[0].cmd == WRITE && !Refusable(parts, q[0]) && q[0].errors < MAX_ERRORS
    requires q[0].bh < |h| && h[q[0].bh].lock
    ensures Dropped(parts, q, h, Erred(q), ErredHeads(q, h), 1)
  {
    assert Cost(parts, q, 0) == 0 && Cost(parts, q, 1) == Price(parts, q[0]);
  }

  /** The faults charged to the first request, `n` of them since (q0, f0); one that has become first starts anew. */
  ghost predicate Tallied(q0: seq<Request>, f0: nat, q1: seq<Request>, f1: nat, n: int) {
    if q1 == [] then f1 == 0 else if |q1| == |q0| then f1 == f0 + n else f1 == q1[0].errors
  }

  function Advanced(r: Request, errors: nat): Request {
    r.(errors := errors, sector := r.sector + 1, nrSectors := 1, buffer := r.buffer + 512)
  }

  /** The head `r` of q0 moved on by one sector, or, having had one sector left, ended as good;
      apart from that only later requests may have been given up. */
  ghost predicate Delivered(parts: seq<Partition>, r: Request, q0: seq<Request>, h0: seq<Head>, q1: seq<Request>,
                            h1: seq<Head>, missed: int) {
    && q0 != [] && r.bh < |h0| == |h1|
    && if r.nrSectors == 2 then
         && q1 == q0[0 := Advanced(r, if r.cmd == READ then 0 else r.errors)] && missed == 0
         && h1 == h0[r.bh := h0[r.bh].(data := h1[r.bh].data)]
       else
         && h1[r.bh] == h0[r.bh].(lock := false, uptodate := true, data := h1[r.bh].data)
         && Dropped(parts, q0[1..], h0[r.bh := h1[r.bh]], q1, h1, missed)
  }

  lemma DeliveredAfter(parts: seq<Partition>, r: Request, q0: seq<Request>, h0: seq<Head>, h: seq<Head>,
                       q1: seq<Request>, h1: seq<Head>, missed: int)
    requires r.bh < |h0| == |h| && h == h0[r.bh := h0[r.bh].(data := h[r.bh].data)]
    requires Delivered(parts, r, q0, h, q1, h1, missed)
    ensures Delivered(parts, r, q0, h0, q1, h1, missed)
  {
    assert h0[r.bh := h1[r.bh]] == h[r.bh := h1[r.bh]];
    assert h0[r.bh := h0[r.bh].(data := h1[r.bh].data)] == h[r.bh := h[r.bh].(data := h1[r.bh].data)];
  }

  ghost predicate OnlySectorChanged(d0: seq<seq<Sector>>, d1: seq<seq<Sector>>, drive: nat, lba: int) {
    && |d1| == |d0|
    && (forall d | 0 <= d < |d0| && d != drive :: d1[d] == d0[d])
    && drive < |d0| && |d1[drive]| == |d0[drive]|
    && forall l | 0 <= l < |d0[drive]| && l != lba :: d1[drive][l] == d0[drive][l]
  }

  class HardDisk {
    const drives: seq<Drive>
    const parts: seq<Partition>
    const pool: Pool

    var heads: seq<Head>
    ghost var entering: int
    /** Whether the write command issued at a given moment gets DRQ, and how many were issued. */
    const drq: nat -> bool
    var tick: nat
    /** Failed answers and missed DRQs of the head since it was submitted. */
    ghost var faults: nat
    /** The buffers that were stored into since their request was added, and, while the head is a write with one sector
        to go, the bytes handed over for the other. */
    ghost var stored: set<nat>
    ghost var sent: Sector
    var reset: bool
    var recalibrate: bool
    var handler: Handler
    var command: Command
    var disk: seq<seq<Sector>>

    /** The driver between commands: pool, queue, locks and order agree. */
    ghost predicate Struct()
      reads this, pool
    {
      && Configured(drives, parts) && DiskOk(drives, disk)
      && pool.Valid()
      && Orderly(pool.q, heads, entering)
      && (pool.q != [] ==> ReqOk(pool.q[0], heads) && HalfDone(pool.q[0]))
      && if pool.q == [] then faults == 0 else pool.q[0].errors <= faults
    }

    /** Once one of the two sectors is through, the disk has the first half of a buffer that is read, and of one that
        is written what was handed over, which is that half unless the buffer was stored into. */
    ghost predicate HalfDone(r: Request)
      reads this
      requires Configured(drives, parts) && DiskOk(drives, disk) && r.bh < |heads|
    {
      r.nrSectors == 1 ==>
        var h := heads[r.bh];
        && Addressable(h, parts)
        && (r.cmd == WRITE ==> sent == disk[h.dev % 256 / 5][Home(h, parts)])
        && (r.cmd == READ || r.bh !in stored ==> h.data[..512] == disk[h.dev % 256 / 5][Home(h, parts)])
    }

    /** The transfer names exactly the remaining sectors of `r`, inside its partition. */
    ghost predicate Targets(r: Request, drive: nat, lba: int, left: nat)
      reads this
    {
      && r.bh < |heads| && Addressable(heads[r.bh], parts)
      && var p := heads[r.bh].dev % 256;
         drive == p / 5 && left == r.nrSectors && lba == parts[p].start + r.sector && Within(parts[p], lba, left)
    }

    /** The outstanding command and the installed handler serve request `r`. */
    ghost predicate InService(r: Request)
      reads this
    {
      && !reset
      && match command
         case Idle => false
         case Specify => handler == OnRecal && recalibrate
         case Restore => handler == OnRecal && !recalibrate
         case Reading(drive, lba, left) =>
           handler == OnRead && !recalibrate && r.cmd == READ && Targets(r, drive, lba, left)
         case Writing(drive, lba, left, latch) =>
           && handler == OnWrite && !recalibrate && r.cmd == WRITE && Targets(r, drive, lba, left)
           && r.buffer <= 512 && (r.bh !in stored ==> latch == heads[r.bh].data[r.buffer..r.buffer+512])
    }

    /** With `r` two sectors from its end, the first half of the buffer is the block's first sector on disk;
        with one sector to go, the whole buffer is the whole block. A write promises it only for a buffer that
        was not stored into. */
    ghost predicate HasSector(r: Request)
      reads this
    {
      && Configured(drives, parts) && DiskOk(drives, disk) && r.bh < |heads| && Addressable(heads[r.bh], parts)
      && var h := heads[r.bh];
         r.cmd == READ || r.bh !in stored ==>
           if r.nrSectors == 2 then h.data[..512] == disk[h.dev % 256 / 5][Home(h, parts)]
           else h.data == OnDisk(h, drives, parts, disk)
    }

    /** What a write puts on the disk in any case: the sectors that were handed over, `latch` last. */
    ghost predicate Carried(r: Request, first: Sector, latch: Sector)
      reads this
    {
      && Configured(drives, parts) && DiskOk(drives, disk) && r.bh < |heads| && Addressable(heads[r.bh], parts)
      && var h := heads[r.bh];
         if r.nrSectors == 2 then sent == latch == disk[h.dev % 256 / 5][Home(h, parts)]
         else OnDisk(h, drives, parts, disk) == first[..] + latch[..]
    }

    ghost predicate Valid()
      reads this, pool
    {
      Struct() && (pool.q != [] ==> InService(pool.q[0]))
    }

    /** Work left, not counting a reset in progress: requests, sectors, and errors still allowed. */
    ghost function Core(): nat
      reads this, pool
      requires Struct()
    {
      if pool.q == [] then 0 else
        var r := pool.q[0];
        REQUEST_COST * (|pool.q| - 1) + 3 * (MAX_ERRORS * (r.nrSectors - 1) + (MAX_ERRORS - r.errors))
    }

    ghost function Potential(): nat
      reads this, pool
      requires Struct()
    {
      if pool.q == [] then 0
      else Core() + (if command.Specify? then 2 else if command.Restore? then 1 else 0)
    }

    /** The state at boot: an idle pool, and a reset owed before the first transfer. */
    constructor (drives: seq<Drive>, parts: seq<Partition>, heads: seq<Head>, disk: seq<seq<Sector>>, drq: nat -> bool)
      requires Configured(drives, parts) && DiskOk(drives, disk) && UniqueKeys(heads)
      requires forall b | 0 <= b < |heads| :: !heads[b].lock
      ensures Valid() && fresh(pool) && pool.q == [] && entering == -1
      ensures this.drives == drives && this.parts == parts && this.heads == heads && this.disk == disk
      ensures reset && recalibrate && this.drq == drq
    {
      this.drives, this.parts, this.heads, this.disk := drives, parts, heads, disk;
      pool := new Pool();
      entering, faults, tick, reset, recalibrate, handler, command := -1, 0, 0, true, true, NoHandler, Idle;
      this.drq := drq;
      stored, sent := {}, seq(512, _ => 0);
    }

    /** end_request; it is never called for a failure but on a request that cannot be served or has had seven faults. */
    method EndRequest(uptodate: bool)
      requires Struct() && pool.q != []
      requires uptodate || Refusable(parts, pool.q[0]) || faults >= 7
      modifies this`heads, this`faults, pool
      ensures Struct()
      ensures pool.q == old(pool.q)[1..]
      ensures var b := old(pool.q[0].bh); heads == old(heads)[b := old(heads[b]).(uptodate := uptodate, lock := false)]
      ensures Core() == if pool.q == [] then 0 else REQUEST_COST * |pool.q| - 3
      ensures faults == 0 && (pool.q != [] ==> pool.q[0].errors == 0)
    {
      pool.EmptyIffNull();
      PopKeeps(pool.q, heads, entering, uptodate);
      assert Untouched(pool.q, 1);
      var b := pool.slots[pool.current].bh;
      heads := heads[b := heads[b].(uptodate := uptodate, lock := false)];
      faults := 0;
      pool.Pop();
    }

    /** One more error: give the request up at the seventh, ask for a reset from the fourth on. */
    method BadRwIntr()
      requires Struct() && pool.q != []
      modifies this`heads, this`faults, this`reset, pool
      ensures Struct()
      ensures pool.q == Erred(old(pool.q)) && heads == ErredHeads(old(pool.q), old(heads))
      ensures reset <==> old(reset) || 4 <= old(pool.q[0].errors) + 1 < 7
      ensures Core() + 3 <= old(Core()) && Tallied(old(pool.q), old(faults), pool.q, faults, 1)
    {
      faults := faults + 1;
      pool.EmptyIffNull();
      var r := pool.slots[pool.current];
      if r.errors + 1 < MAX_ERRORS {
        HeadKeeps(pool.q, heads, entering, r.(errors := r.errors + 1));
        pool.SetHead(r.(errors := r.errors + 1));
      } else {
        EndRequest(false);
      }
      pool.EmptyIffNull();
      if pool.current != -1 && pool.slots[pool.current].errors > MAX_ERRORS / 2 {
        reset := true;
      }
    }

    /** A write that missed its DRQ. */
    method MissDrq()
      requires Struct() && pool.q != [] && pool.q[0].cmd == WRITE && !Refusable(parts, pool.q[0])
      modifies this`heads, this`faults, this`reset, pool
      ensures Struct() && Core() + 3 <= old(Core())
      ensures Dropped(parts, old(pool.q), old(heads), pool.q, heads, 1)
              && Tallied(old(pool.q), old(faults), pool.q, faults, 1)
    {
      assert ReqOk(pool.q[0], heads);
      MissDropped(parts, pool.q, heads);
      BadRwIntr();
    }

    /** Since (q0, h0, f0, t0) requests were at most given up, and every missed DRQ was charged to its request. */
    ghost predicate Stepped(q0: seq<Request>, h0: seq<Head>, f0: nat, t0: nat)
      reads this, pool
    {
      && t0 <= tick && Dropped(parts, q0, h0, pool.q, heads, Misses(drq, t0, tick))
      && Tallied(q0, f0, pool.q, faults, Misses(drq, t0, tick))
    }

    /** The outstanding command: a reset if one was owed, else a recalibration if one was owed, else a transfer. */
    ghost predicate Issued(reset: bool, recalibrate: bool)
      reads this
    {
      && (command.Specify? <==> reset) && (command.Restore? <==> !reset && recalibrate)
      && (command.Reading? || command.Writing? <==> !reset && !recalibrate)
    }

    /** One pass of do_hd_request over the head of the queue: refuse it, reset, recalibrate, or issue its transfer.
        When nothing was started the head was refused, or lacked DRQ and took an error. */
    method StartHead() returns (started: bool)
      requires Struct() && pool.q != []
      modifies this`heads, this`faults, this`tick, this`reset, this`recalibrate, this`handler, this`command, pool
      ensures Struct()
      ensures started ==>
              pool.q == old(pool.q) && heads == old(heads) && InService(pool.q[0])
                && Issued(old(reset), old(recalibrate))
      ensures started ==> Potential() == Core() + (if old(reset) then 2 else if old(recalibrate) then 1 else 0)
      ensures !started ==> Core() + 3 <= old(Core()) && recalibrate == old(recalibrate)
      ensures !started && Misses(drq, old(tick), tick) == 0 ==> reset == old(reset)
      ensures Stepped(old(pool.q), old(heads), old(faults), old(tick))
    {
      pool.EmptyIffNull();
      var r := pool.slots[pool.current];
      started := true;
      assert ReqOk(r, heads);
      assert r.dev / 256 == MAJOR_HD && heads[r.bh].lock;   // the two panics cannot happen
      var partition := r.dev % 256;
      if partition >= 5 * |drives| || !Admits(parts[partition], r.sector) {
        assert Cost(parts, pool.q, 1) == Cost(parts, pool.q, 0) + Price(parts, pool.q[0]);
        EndRequest(false);
        started := false;
      } else {
        started := StartAdmitted(r, partition);
      }
    }

    /** The rest of that pass, for a head whose sectors lie in its partition. */
    method StartAdmitted(r: Request, partition: nat) returns (started: bool)
      requires Struct() && pool.q != [] && r == pool.q[0] && partition == r.dev % 256
      requires partition < 5 * |drives| && Admits(parts[partition], r.sector)
      modifies this`heads, this`faults, this`tick, this`reset, this`recalibrate, this`handler, this`command, pool
      ensures Struct()
      ensures started ==>
              pool.q == old(pool.q) && heads == old(heads) && InService(pool.q[0])
                && Issued(old(reset), old(recalibrate))
      ensures started ==> Potential() == Core() + (if old(reset) then 2 else if old(recalibrate) then 1 else 0)
      ensures !started ==> Core() + 3 <= old(Core()) && recalibrate == old(recalibrate)
      ensures !started && Misses(drq, old(tick), tick) == 0 ==> reset == old(reset)
      ensures Stepped(old(pool.q), old(heads), old(faults), old(tick))
    {
      started := true;
      var drive := partition / 5;
      var chs := ToChs(drives[drive], Absolute(parts[partition], r.sector));
      AdmittedTarget(drives, parts, heads, r);
      DroppedNothing(parts, pool.q, heads);
      if reset {
        reset, recalibrate := false, true;
        command, handler := Specify, OnRecal;
      } else if recalibrate {
        recalibrate := false;
        command, handler := Restore, OnRecal;
      } else {
        assert drive <= 1 && chs.head <= 15;                  // so hd_out's panic cannot happen either
        started := StartTransfer(r, drive, ToLba(drives[drive], chs));
      }
    }

    /** Issues the head's read or write command; a write waits for DRQ and then hands over its first sector. */
    method StartTransfer(r: Request, drive: nat, lba: int) returns (started: bool)
      requires Struct() && pool.q != [] && r == pool.q[0] && !reset && !recalibrate
      requires Targets(r, drive, lba, r.nrSectors) && !Refusable(parts, r)
      modifies this`heads, this`faults, this`tick, this`reset, this`handler, this`command, pool
      ensures Struct()
      ensures started ==>
              pool.q == old(pool.q) && heads == old(heads) && InService(pool.q[0]) && Potential() == Core()
              && !command.Specify? && !command.Restore?
      ensures !started ==> Core() + 3 <= old(Core()) && Misses(drq, old(tick), tick) > 0
      ensures Stepped(old(pool.q), old(heads), old(faults), old(tick))
    {
      assert ReqOk(r, heads);
      started := true;
      if r.cmd == WRITE {
        handler := OnWrite;
        ghost var t := tick;
        tick := tick + 1;
        assert Misses(drq, t, t) == 0 && Misses(drq, t, tick) == if drq(t) then 0 else 1;
        if drq(tick - 1) {
          DroppedNothing(parts, pool.q, heads);
          command := Writing(drive, lba, r.nrSectors, heads[r.bh].data[r.buffer..r.buffer+512]);
        } else {
          MissDrq();
          started := false;
        }
      } else {
        DroppedNothing(parts, pool.q, heads);
        handler := OnRead;
        command := Reading(drive, lba, r.nrSectors);
      }
    }

    /** Works through the queue until a command is outstanding or nothing is left. */
    method DoHdRequest()
      requires Struct()
      modifies this`heads, this`faults, this`tick, this`reset, this`recalibrate, this`handler, this`command, pool
      ensures Valid() && Stepped(old(pool.q), old(heads), old(faults), old(tick))
      ensures Potential() <= old(Core()) + (if old(reset) then 2 else if old(recalibrate) then 1 else 0)
      ensures pool.q != [] && Misses(drq, old(tick), tick) == 0 ==> Issued(old(reset), old(recalibrate))
    {
      pool.EmptyIffNull();
      DroppedNothing(parts, pool.q, heads);
      while pool.current != -1
        invariant Struct() && (pool.current == -1 <==> pool.q == [])
        invariant Stepped(old(pool.q), old(heads), old(faults), old(tick))
        invariant Core() + 3 <= old(Core()) || (Core() == old(Core()) && reset == old(reset))
        invariant recalibrate == old(recalibrate) && (Misses(drq, old(tick), tick) == 0 ==> reset == old(reset))
        decreases Core()
      {
        var started := Pass(old(pool.q), old(heads), old(faults), old(tick));
        pool.EmptyIffNull();
        if started { return; }
      }
    }

    /** One pass after others, which began at (q0, h0, f0, t0). */
    method Pass(ghost q0: seq<Request>, ghost h0: seq<Head>, ghost f0: nat, ghost t0: nat) returns (started: bool)
      requires Struct() && pool.q != [] && Stepped(q0, h0, f0, t0)
      modifies this`heads, this`faults, this`tick, this`reset, this`recalibrate, this`handler, this`command, pool
      ensures Struct() && Stepped(q0, h0, f0, t0)
      ensures started ==> pool.q != [] && InService(pool.q[0]) && Issued(old(reset), old(recalibrate))
      ensures started ==> Core() == old(Core())
      ensures started ==> Potential() == Core() + (if old(reset) then 2 else if old(recalibrate) then 1 else 0)
      ensures !started ==> Core() + 3 <= old(Core()) && recalibrate == old(recalibrate)
      ensures Misses(drq, t0, tick) == 0 ==> Misses(drq, t0, old(tick)) == 0 && (!started ==> reset == old(reset))
    {
      ghost var q1, h1, f1, t1 := pool.q, heads, faults, tick;
      started := StartHead();
      SteppedTrans(q0, h0, f0, t0, q1, h1, f1, t1);
    }

    lemma SteppedTrans(q0: seq<Request>, h0: seq<Head>, f0: nat, t0: nat, q1: seq<Request>, h1: seq<Head>, f1: nat,
                       t1: nat)
      requires t0 <= t1 && Dropped(parts, q0, h0, q1, h1, Misses(drq, t0, t1))
               && Tallied(q0, f0, q1, f1, Misses(drq, t0, t1))
      requires Stepped(q1, h1, f1, t1)
      ensures Stepped(q0, h0, f0, t0) && Misses(drq, t0, tick) == Misses(drq, t0, t1) + Misses(drq, t1, tick)
    {
      MissesTrans(drq, t0, t1, tick);
      DroppedTrans(parts, q0, h0, q1, h1, pool.q, heads, Misses(drq, t0, t1), Misses(drq, t1, tick));
      if pool.q != [] && |pool.q| == |q1| < |q0| { assert Cost(parts, q1, 0) == 0; }
    }

    // ---------------------------------------------------------------- interrupts

    /** Since (q0, h0, f0, t0) the head has had exactly one error, and then requests were at most given up; the next
        command is a reset if that was the head's fourth, fifth or sixth. */
    ghost predicate Failed(q0: seq<Request>, h0: seq<Head>, f0: nat, t0: nat, recalibrate0: bool)
      reads this, pool
    {
      && q0 != [] && t0 <= tick
      && Dropped(parts, Erred(q0), ErredHeads(q0, h0), pool.q, heads, Misses(drq, t0, tick))
      && Tallied(q0, f0, pool.q, faults, 1 + Misses(drq, t0, tick))
      && (pool.q != [] && Misses(drq, t0, tick) == 0 ==> Issued(4 <= q0[0].errors + 1 < 7, recalibrate0))
    }

    /** All that a failed command comes to. */
    ghost predicate Failure(q0: seq<Request>, h0: seq<Head>, f0: nat, t0: nat, recalibrate0: bool)
      reads this, pool
    {
      && Failed(q0, h0, f0, t0, recalibrate0) && OneError(q0, h0, f0, Misses(drq, t0, tick))
      && |heads| == |h0| && (forall b :: KeptOrFailed(h0, heads, b))
    }

    /** The common answer to a failed command: count the error, then carry on with whatever is first. */
    method Fail()
      requires Valid() && pool.q != []
      modifies this`heads, this`faults, this`tick, this`reset, this`recalibrate, this`handler, this`command, pool
      ensures Valid() && Potential() < old(Potential())
      ensures Failure(old(pool.q), old(heads), old(faults), old(tick), old(recalibrate))
    {
      ghost var q0, h0, f0, t0, rc := pool.q, heads, faults, tick, recalibrate;
      assert ReqOk(q0[0], h0);
      forall j ensures Few(q0, j) { assert 0 <= j < |q0| ==> ReqOk(q0[j], h0); }
      CountAndGoOn();
      FailedMeans(q0, h0, f0, t0, rc);
      forall b ensures KeptOrFailed(h0, heads, b) {
        assert KeptOrFailed(ErredHeads(q0, h0), heads, b);
        ErredKeeps(q0, h0, heads, b);
      }
    }

    method CountAndGoOn()
      requires Valid() && pool.q != []
      modifies this`heads, this`faults, this`tick, this`reset, this`recalibrate, this`handler, this`command, pool
      ensures Valid() && Potential() < old(Potential())
      ensures Failed(old(pool.q), old(heads), old(faults), old(tick), old(recalibrate))
    {
      BadRwIntr();
      ghost var q1, h1, f1 := pool.q, heads, faults;
      DoHdRequest();
      FailedIs(old(pool.q), old(heads), old(faults), old(tick), old(recalibrate), q1, h1, f1);
    }

    lemma FailedIs(q0: seq<Request>, h0: seq<Head>, f0: nat, t0: nat, rc: bool, q1: seq<Request>, h1: seq<Head>,
                   f1: nat)
      requires q0 != [] && q1 == Erred(q0) && h1 == ErredHeads(q0, h0) && Tallied(q0, f0, q1, f1, 1)
      requires Stepped(q1, h1, f1, t0)
      requires pool.q != [] && Misses(drq, t0, tick) == 0 ==> Issued(4 <= q0[0].errors + 1 < 7, rc)
      ensures Failed(q0, h0, f0, t0, rc)
    {
      FailedTally(q0, f0, q1, f1, pool.q, faults, Misses(drq, t0, tick));
    }

    /** A failed command has cost the head exactly one error, `n` DRQs having been missed since: the head stays, with a
        reset from the fourth error on, or at the seventh it goes, alone; with fewer than
        seven faults it stays. */
    ghost predicate OneError(q0: seq<Request>, h0: seq<Head>, f0: nat, n: nat)
      reads this, pool
    {
      && q0 != [] && q0[0].bh < |h0|
      && var r := q0[0];
         && (!Refusable(parts, r) && r.errors + 1 < 7 && (r.cmd == READ || n == 0) ==>
               && pool.q == q0[0 := r.(errors := r.errors + 1)] && heads == h0
               && (command.Specify? <==> r.errors + 1 >= 4))
         && (r.errors + 1 == 7 && (|q0| == 1 || (!Refusable(parts, q0[1]) && (q0[1].cmd == READ || n == 0))) ==>
               && pool.q == q0[1..]
               && heads == h0[r.bh := h0[r.bh].(lock := false, uptodate := false)])
         && (|pool.q| < |q0| && !Refusable(parts, r) ==> f0 + 1 + n >= 7)
    }

    /** What that means for the head: it stays, with one error more, unless it has had seven faults. */
    lemma FailedMeans(q0: seq<Request>, h0: seq<Head>, f0: nat, t0: nat, rc: bool)
      requires Failed(q0, h0, f0, t0, rc) && (forall j :: Few(q0, j)) && q0[0].errors <= f0 && q0[0].bh < |h0|
      ensures OneError(q0, h0, f0, Misses(drq, t0, tick))
    {
      var r, n, q1, h1 := q0[0], Misses(drq, t0, tick), Erred(q0), ErredHeads(q0, h0);
      forall j ensures Few(q1, j) { assert Few(q0, j) && Few(q0, j + 1); }
      if r.errors + 1 < 7 {
        if !Refusable(parts, r) && (r.cmd == READ || r.errors + 1 + n < 7) {
          HeadStays(parts, q1, h1, pool.q, heads, n);
        }
        assert n == 0 ==> r.errors + 1 + n < 7;
      } else if |q0| > 1 && !Refusable(parts, q0[1]) && Few(q0, 1) && (q0[1].cmd == READ || n == 0) {
        HeadStays(parts, q1, h1, pool.q, heads, n);
      }
    }

    lemma FailedTally(q0: seq<Request>, f0: nat, q1: seq<Request>, f1: nat, q2: seq<Request>, f2: nat, n: int)
      requires q0 != [] && q1 == Erred(q0) && Tallied(q0, f0, q1, f1, 1) && Tallied(q1, f1, q2, f2, n) && |q2| <= |q1|
      requires q2 != [] && |q2| == |q1| ==> n == q2[0].errors - q1[0].errors
      ensures Tallied(q0, f0, q2, f2, 1 + n)
    {
    }

    /** Since (q0, h0, f0, t0) the head `r` has had a good transfer, which was no fault. */
    ghost predicate Delivers(r: Request, q0: seq<Request>, h0: seq<Head>, f0: nat, t0: nat)
      reads this, pool
    {
      && t0 <= tick && Delivered(parts, r, q0, h0, pool.q, heads, Misses(drq, t0, tick))
      && Tallied(q0, f0, pool.q, faults, 0)
    }

    /** The last sector is through: end the request as good and go on with the next. */
    method Finish()
      requires Struct() && pool.q != [] && pool.q[0].nrSectors == 1 && !reset && !recalibrate
      modifies this`heads, this`faults, this`tick, this`reset, this`recalibrate, this`handler, this`command, pool
      ensures Valid() && Potential() < old(Core())
      ensures Delivers(old(pool.q[0]), old(pool.q), old(heads), old(faults), old(tick))
      ensures heads[old(pool.q[0].bh)].data == old(heads[pool.q[0].bh].data)
    {
      EndRequest(true);
      DoHdRequest();
      assert KeptOrFailed(old(heads)[old(pool.q[0].bh) := old(heads[pool.q[0].bh]).(uptodate := true, lock := false)],
               heads, old(pool.q[0].bh));
    }

    /** One of the head's two sectors is through. */
    method AdvanceHead(r: Request, errors: nat)
      requires Struct() && pool.q != [] && r == pool.q[0] && r.nrSectors == 2 && errors <= r.errors
      requires HalfDone(Advanced(r, errors))
      modifies pool
      ensures Struct() && Core() < old(Core())
      ensures pool.q == old(pool.q)[0 := Advanced(r, errors)]
    {
      HeadKeeps(pool.q, heads, entering, Advanced(r, errors));
      pool.SetHead(Advanced(r, errors));
    }

    /** port_read: the controller's sector goes to the half of the block that `buffer` points at. */
    method PortRead(r: Request)
      requires Valid() && pool.q != [] && r == pool.q[0] && command.Reading?
      modifies this`heads
      ensures Struct() && HasSector(r) && Targets(r, command.drive, command.lba, command.left)
      ensures heads == old(heads)[r.bh := old(heads[r.bh]).(data := heads[r.bh].data)]
    {
      assert ReqOk(r, heads);
      var data := Put(heads[r.bh].data, r.buffer, disk[command.drive][command.lba]);
      DataKeeps(pool.q, heads, entering, r.bh, heads[r.bh].(data := data));
      assert r.buffer == 512 ==> data == data[..512] + data[512..1024];
      heads := heads[r.bh := heads[r.bh].(data := data)];
    }

    /** read_intr: one sector is in the controller. */
    method ReadIntr(ok: bool)
      requires Valid() && pool.q != [] && handler == OnRead
      modifies this`heads, this`faults, this`tick, this`reset, this`recalibrate, this`handler, this`command, pool
      ensures Valid() && Potential() < old(Potential())
      ensures !ok ==> Failure(old(pool.q), old(heads), old(faults), old(tick), old(recalibrate))
      ensures ok ==>
              Delivers(old(pool.q[0]), old(pool.q), old(heads), old(faults), old(tick))
              && HasSector(old(pool.q[0]))
    {
      pool.EmptyIffNull();
      var r := pool.slots[pool.current];
      if !ok {
        Fail();
      } else {
        PortRead(r);
        ghost var h1 := heads;
        ReadOn(r);
        DeliveredAfter(parts, r, old(pool.q), old(heads), h1, pool.q, heads, Misses(drq, old(tick), tick));
      }
    }

    /** With the sector in the buffer: wait for the next, or end the request. */
    method ReadOn(r: Request)
      requires Struct() && pool.q != [] && r == pool.q[0] && r.cmd == READ && HasSector(r)
      requires !reset && !recalibrate && command.Reading? && Targets(r, command.drive, command.lba, command.left)
      modifies this`heads, this`faults, this`tick, this`reset, this`recalibrate, this`handler, this`command, pool
      ensures Valid() && Potential() < old(Core()) && HasSector(r)
      ensures Delivers(r, old(pool.q), old(heads), old(faults), old(tick))
    {
      assert ReqOk(r, heads);
      if r.nrSectors - 1 != 0 {
        AdvanceHead(r, 0);
        handler := OnRead;
        command := Reading(command.drive, command.lba + 1, command.left - 1);
      } else {
        Finish();
      }
    }

    /** The disk itself: a successful write command stores its latch, a failed one may leave anything there. */
    method DiskStores(ok: bool)
      requires Valid() && pool.q != [] && command.Writing?
      modifies this`disk
      ensures Valid() && (ok ==> command.lba >= 0 && Landed(command.drive, command.lba, command.latch))
      ensures DiskOk(drives, disk) && OnlySectorChanged(old(disk), disk, command.drive, command.lba)
    {
      assert ReqOk(pool.q[0], heads);
      var sector: Sector := *;
      if ok { sector := command.latch; }
      var unit := disk[command.drive];
      disk := disk[command.drive := unit[..command.lba] + [sector] + unit[command.lba+1..]];
    }

    ghost predicate Landed(drive: nat, lba: nat, latch: Sector)
      reads this
    {
      drive < |disk| && lba < |disk[drive]| && disk[drive][lba] == latch
    }

    /** What the good answer to a write means for the head. */
    lemma WriteLanded(r: Request)
      requires Valid() && pool.q != [] && r == pool.q[0] && command.Writing? && command.lba >= 0
      requires Landed(command.drive, command.lba, command.latch)
      ensures HasSector(r) && (r.nrSectors == 1 ==> Carried(r, sent, command.latch))
      ensures r.nrSectors == 2 ==> disk[heads[r.bh].dev % 256 / 5][Home(heads[r.bh], parts)] == command.latch
    {
      assert ReqOk(r, heads);
      var data := heads[r.bh].data;
      assert r.buffer == 512 ==> data == data[..512] + data[512..1024];
    }

    /** write_intr: the sector that was handed over has been stored, or not. */
    method WriteIntr(ok: bool)
      requires Valid() && pool.q != [] && handler == OnWrite
      requires ok ==> command.lba >= 0 && Landed(command.drive, command.lba, command.latch)
      modifies this`heads, this`faults, this`tick, this`reset, this`recalibrate, this`handler, this`command,
               this`sent, pool
      ensures Valid() && Potential() < old(Potential())
      ensures !ok ==> Failure(old(pool.q), old(heads), old(faults), old(tick), old(recalibrate))
      ensures ok ==> Delivers(old(pool.q[0]), old(pool.q), old(heads), old(faults), old(tick))
      ensures ok ==> HasSector(old(pool.q[0])) && Carried(old(pool.q[0]), old(sent), old(command.latch))
      ensures ok ==> heads[old(pool.q[0].bh)].data == old(heads[pool.q[0].bh].data)
    {
      pool.EmptyIffNull();
      if !ok {
        Fail();
      } else {
        WriteOn(pool.slots[pool.current]);
      }
    }

    /** With the sector on the disk: hand over the next, or end the request. */
    method WriteOn(r: Request)
      requires Valid() && pool.q != [] && r == pool.q[0] && handler == OnWrite
      requires command.lba >= 0 && Landed(command.drive, command.lba, command.latch)
      modifies this`heads, this`faults, this`tick, this`reset, this`recalibrate, this`handler, this`command,
               this`sent, pool
      ensures Valid() && Potential() < old(Potential())
      ensures Delivers(r, old(pool.q), old(heads), old(faults), old(tick))
      ensures HasSector(r) && Carried(r, old(sent), old(command.latch)) && heads[r.bh].data == old(heads[r.bh].data)
    {
      assert ReqOk(r, heads);
      WriteLanded(r);
      if r.nrSectors - 1 != 0 {
        NextSector(r);
      } else {
        Finish();
      }
    }

    /** The first sector of a write is through: the second is handed over. */
    method NextSector(r: Request)
      requires Valid() && pool.q != [] && r == pool.q[0] && r.nrSectors == 2 && handler == OnWrite
      requires HasSector(r) && disk[heads[r.bh].dev % 256 / 5][Home(heads[r.bh], parts)] == command.latch
      modifies this`handler, this`command, this`sent, pool
      ensures Valid() && Potential() < old(Potential()) && sent == old(command.latch)
      ensures pool.q == old(pool.q)[0 := Advanced(r, r.errors)]
    {
      assert ReqOk(r, heads);
      sent := command.latch;
      AdvanceHead(r, r.errors);
      handler := OnWrite;
      command := Writing(command.drive, command.lba + 1, command.left - 1,
          heads[r.bh].data[r.buffer+512..r.buffer+1024]);
    }

    /** A reset or recalibration is done: the next command is under way, a recalibration if one is still owed, else a
        transfer; a request that can be served and was given up had had seven faults. */
    ghost predicate Resumed(q0: seq<Request>, h0: seq<Head>, f0: nat, t0: nat, recalibrate0: bool)
      reads this, pool
    {
      && Stepped(q0, h0, f0, t0) && q0 != []
      && (pool.q != [] && Misses(drq, t0, tick) == 0 ==> Issued(false, recalibrate0))
      && (|pool.q| < |q0| && !Refusable(parts, q0[0]) ==> f0 + Misses(drq, t0, tick) >= 7)
    }

    /** recal_intr: a reset or a recalibration has been answered. */
    method RecalIntr(ok: bool)
      requires Valid() && pool.q != [] && handler == OnRecal
      modifies this`heads, this`faults, this`tick, this`reset, this`recalibrate, this`handler, this`command, pool
      ensures Valid() && Potential() < old(Potential())
      ensures !ok ==> Failure(old(pool.q), old(heads), old(faults), old(tick), old(recalibrate))
      ensures ok ==> Resumed(old(pool.q), old(heads), old(faults), old(tick), old(recalibrate))
      ensures |heads| == |old(heads)| && forall b :: KeptOrFailed(old(heads), heads, b)
    {
      if !ok {
        Fail();
      } else {
        ghost var q0, h0, t0 := pool.q, heads, tick;
        forall j ensures Few(q0, j) { assert 0 <= j < |q0| ==> ReqOk(q0[j], h0); }
        DoHdRequest();
        if |pool.q| < |q0| && !Refusable(parts, q0[0]) {
          GivenUpHasSeven(parts, q0, h0, pool.q, heads, Misses(drq, t0, tick), 0);
        }
      }
    }

    /** One IRQ 14, with the disk's answer. Whatever the answer, the machine stays valid and comes closer to idle, and
        the disk changes in at most the sector being written. A good transfer moves the head on by a sector whose bytes
        agree in buffer and on disk, or ends it with the whole block the same in both; it does not count as a fault. A
        failed command costs the head exactly one error: it stays, and is reset from the fourth on, or goes at the
        seventh. A request that can be served is given up only when its failed answers and missed DRQs are seven. */
    method Interrupt(ok: bool)
      requires Valid() && pool.q != []
      modifies this`heads, this`faults, this`tick, this`reset, this`recalibrate, this`handler, this`command,
               this`disk, this`sent, pool
      ensures Valid() && Potential() < old(Potential())
      ensures !ok ==> Failure(old(pool.q), old(heads), old(faults), old(tick), old(recalibrate))
      ensures ok && old(handler) == OnRecal ==>
              Resumed(old(pool.q), old(heads), old(faults), old(tick), old(recalibrate))
      ensures ok && old(handler) != OnRecal ==>
              Delivers(old(pool.q[0]), old(pool.q), old(heads), old(faults), old(tick))
              && HasSector(old(pool.q[0]))
      ensures ok && old(handler) == OnWrite ==> Carried(old(pool.q[0]), old(sent), old(command.latch))
      ensures old(handler) != OnWrite ==> disk == old(disk)
      ensures old(handler) == OnWrite ==> OnlySectorChanged(old(disk), disk, old(command.drive), old(command.lba))
      ensures old(pool.q[0].cmd) == WRITE ==> heads[old(pool.q[0].bh)].data == old(heads[pool.q[0].bh].data)
    {
      assert ReqOk(pool.q[0], heads);
      if handler == OnRecal {
        RecalIntr(ok);
        assert KeptOrFailed(old(heads), heads, old(pool.q[0].bh));
      } else {
        TransferIntr(ok);
      }
    }

    /** The two handlers of a transfer. */
    method TransferIntr(ok: bool)
      requires Valid() && pool.q != [] && handler != OnRecal
      modifies this`heads, this`faults, this`tick, this`reset, this`recalibrate, this`handler, this`command,
               this`disk, this`sent, pool
      ensures Valid() && Potential() < old(Potential())
      ensures !ok ==> Failure(old(pool.q), old(heads), old(faults), old(tick), old(recalibrate))
      ensures ok ==>
              Delivers(old(pool.q[0]), old(pool.q), old(heads), old(faults), old(tick))
              && HasSector(old(pool.q[0]))
      ensures if old(handler) == OnWrite then
                && (ok ==> Carried(old(pool.q[0]), old(sent), old(command.latch)))
                && OnlySectorChanged(old(disk), disk, old(command.drive), old(command.lba))
                && heads[old(pool.q[0].bh)].data == old(heads[pool.q[0].bh].data)
              else disk == old(disk) && old(pool.q[0].cmd) == READ
    {
      assert ReqOk(pool.q[0], heads);
      if handler == OnRead {
        ReadIntr(ok);
      } else {
        WriteAnswer(ok);
      }
    }

    /** The disk's part and the driver's part of a write interrupt. */
    method WriteAnswer(ok: bool)
      requires Valid() && pool.q != [] && handler == OnWrite
      modifies this`heads, this`faults, this`tick, this`reset, this`recalibrate, this`handler, this`command,
               this`disk, this`sent, pool
      ensures Valid() && Potential() < old(Potential())
      ensures !ok ==> Failure(old(pool.q), old(heads), old(faults), old(tick), old(recalibrate))
      ensures ok ==> Delivers(old(pool.q[0]), old(pool.q), old(heads), old(faults), old(tick))
      ensures ok ==> HasSector(old(pool.q[0])) && Carried(old(pool.q[0]), old(sent), old(command.latch))
      ensures OnlySectorChanged(old(disk), disk, old(command.drive), old(command.lba))
      ensures heads[old(pool.q[0].bh)].data == old(heads[pool.q[0].bh].data)
    {
      assert ReqOk(pool.q[0], heads);
      DiskStores(ok);
      WriteIntr(ok);
      assert !ok ==> KeptOrFailed(old(heads), heads, old(pool.q[0].bh));
    }

    /** With no new submissions, any sequence of answers runs the queue dry, within 45 interrupts a request. */
    method Drain() returns (steps: nat)
      requires Valid()
      modifies this`heads, this`faults, this`tick, this`reset, this`recalibrate, this`handler, this`command,
               this`disk, this`sent, pool
      ensures Valid() && pool.q == []
      ensures steps <= REQUEST_COST * old(|pool.q|)
      ensures forall b | 0 <= b < |heads| && b != entering :: !heads[b].lock
    {
      steps := 0;
      pool.EmptyIffNull();
      while pool.current != -1
        invariant Valid() && (pool.current == -1 <==> pool.q == [])
        invariant steps + Potential() <= REQUEST_COST * old(|pool.q|)
        decreases Potential()
      {
        var ok: bool := *;
        Interrupt(ok);
        steps := steps + 1;
        pool.EmptyIffNull();
      }
      forall b | 0 <= b < |heads| && b != entering ensures !heads[b].lock {
        assert LockAgrees(pool.q, heads, entering, b);
      }
    }

    /** The partition goes on for a sector behind the block of `h`, so that not even a retry of its second sector is
        refused. */
    ghost predicate Roomy(h: Head) {
      h.dev % 256 < |parts| && 2 * h.block + 3 <= parts[h.dev % 256].count && 2 * h.block + 3 < U32
    }

    /** What became of the request of buffer `b` that was first of `n` and has `f` faults now: it is still first, and is
        charged with exactly these; or it has ended well; or it has had seven faults. */
    ghost predicate Outcome(n: nat, f: nat, b: nat)
      reads this, pool
    {
      && b < |heads|
      && if |pool.q| == n then pool.q != [] && pool.q[0].bh == b && Roomy(heads[b]) && faults == f
         else (pool.q == [] || pool.q[0].bh != b) && ((heads[b].uptodate && !heads[b].lock) || f >= 7)
    }

    /** The state before: `b` is the buffer of the first request, and of no other. */
    ghost predicate First(q0: seq<Request>, h0: seq<Head>, b: nat) {
      && q0 != [] && b == q0[0].bh < |h0| && h0[b].lock && Roomy(h0[b]) && !Refusable(parts, q0[0])
      && forall i, j :: !SameBuffer(q0, i, j)
    }

    lemma OutcomeOfFailure(q0: seq<Request>, h0: seq<Head>, f0: nat, t0: nat, rc: bool, b: nat)
      requires First(q0, h0, b) && Failure(q0, h0, f0, t0, rc)
      ensures Outcome(|q0|, f0 + 1 + Misses(drq, t0, tick), b)
    {
      assert KeptOrFailed(h0, heads, b) && SameRequest(parts, Erred(q0), pool.q, 0);
      assert !SameBuffer(q0, 0, |q0| - |pool.q|);
    }

    lemma OutcomeOfReset(q0: seq<Request>, h0: seq<Head>, f0: nat, t0: nat, rc: bool, b: nat)
      requires First(q0, h0, b) && Resumed(q0, h0, f0, t0, rc)
      ensures Outcome(|q0|, f0 + Misses(drq, t0, tick), b)
    {
      assert KeptOrFailed(h0, heads, b) && SameRequest(parts, q0, pool.q, 0);
      assert !SameBuffer(q0, 0, |q0| - |pool.q|);
    }

    lemma OutcomeOfTransfer(q0: seq<Request>, h0: seq<Head>, f0: nat, t0: nat, b: nat)
      requires First(q0, h0, b) && Delivers(q0[0], q0, h0, f0, t0)
      ensures Outcome(|q0|, f0 + Misses(drq, t0, tick), b)
    {
      if q0[0].nrSectors != 2 {
        assert KeptOrFailed(h0[b := heads[b]], heads, b) && SameRequest(parts, q0[1..], pool.q, 0);
        assert !SameBuffer(q0, 0, |q0| - |pool.q|);
      }
    }

    /** One interrupt in the life of the head, whose buffer is `b`. */
    method ServeOnce(ok: bool, b: nat)
      requires Valid() && pool.q != [] && pool.q[0].bh == b && b < |heads| && Roomy(heads[b])
      modifies this`heads, this`faults, this`tick, this`reset, this`recalibrate, this`handler, this`command,
               this`disk, this`sent, pool
      ensures Valid() && old(tick) <= tick
      ensures Outcome(old(|pool.q|), old(faults) + (if ok then 0 else 1) + Misses(drq, old(tick), tick), b)
    {
      ghost var q0, h0, f0, t0, rc, recal := pool.q, heads, faults, tick, recalibrate, handler == OnRecal;
      assert ReqOk(q0[0], h0);
      assert First(q0, h0, b);
      Interrupt(ok);
      if !ok {
        OutcomeOfFailure(q0, h0, f0, t0, rc, b);
      } else if recal {
        OutcomeOfReset(q0, h0, f0, t0, rc, b);
      } else {
        OutcomeOfTransfer(q0, h0, f0, t0, b);
      }
    }

    /** A request is never given up before it has had seven failed answers and missed DRQs: over any answers, the head
        is still served, or has ended well, as long as all that went wrong since it was submitted is less. */
    method Serve(answers: seq<bool>, b: nat) returns (used: nat)
      requires Valid() && pool.q != [] && pool.q[0].bh == b && b < |heads| && Roomy(heads[b])
      modifies this`heads, this`faults, this`tick, this`reset, this`recalibrate, this`handler, this`command,
               this`disk, this`sent, pool
      ensures Valid() && used <= |answers| && old(tick) <= tick && b < |heads|
      ensures old(faults) + Fails(answers, used) + Misses(drq, old(tick), tick) < 7 ==>
              || (used == |answers| && pool.q != [] && pool.q[0].bh == b)
              || (heads[b].uptodate && !heads[b].lock)
    {
      used := 0;
      ghost var n := |pool.q|;
      pool.EmptyIffNull();
      while used < |answers|
        invariant Valid() && 0 <= used <= |answers| && b < |heads| && old(tick) <= tick
        invariant pool.q != [] && |pool.q| == n && pool.q[0].bh == b && Roomy(heads[b])
        invariant faults == old(faults) + Fails(answers, used) + Misses(drq, old(tick), tick)
      {
        ghost var t1 := tick;
        ServeOnce(answers[used], b);
        used := used + 1;
        MissesTrans(drq, old(tick), t1, tick);
        pool.EmptyIffNull();
        if pool.current == -1 || pool.slots[pool.current].bh != b { return; }
      }
    }

    // ---------------------------------------------------------------- submission

    /** add_request: the buffer counts as clean from here on. A stopped drive is started at once,
        otherwise the elevator places the request behind the one in service. */
    method AddRequest(s: nat, r: Request)
      requires Valid() && s < NR_REQUEST && pool.slots[s].dev < 0
      requires s >= WRITE_SLOTS ==> r.cmd != WRITE
      requires ReqOk(r, heads) && r.nrSectors == 2 && r.errors == 0 && entering == r.bh
      modifies this, pool
      ensures Valid() && entering == -1 && disk == old(disk)
      ensures var h := old(heads)[r.bh := old(heads[r.bh]).(dirt := false)];
              if old(pool.q) == [] then Dropped(parts, [r], h, pool.q, heads, Misses(drq, old(tick), tick))
              else heads == h && exists p ::
                StopsAt(Keys(old(pool.q)), r.Order(), p)
                && pool.q == Insert(old(pool.q), r, p)
    {
      var running := Enlist(s, r);
      if !running {
        DoHdRequest();
      }
    }

    /** The request on the list, before a stopped drive is started. */
    method Enlist(s: nat, r: Request) returns (running: bool)
      requires Valid() && s < NR_REQUEST && pool.slots[s].dev < 0
      requires s >= WRITE_SLOTS ==> r.cmd != WRITE
      requires ReqOk(r, heads) && r.nrSectors == 2 && r.errors == 0 && entering == r.bh
      modifies this`heads, this`entering, this`stored, pool
      ensures Struct() && entering == -1 && running == (old(pool.q) != [])
      ensures heads == old(heads)[r.bh := old(heads[r.bh]).(dirt := false)]
      ensures if running then Valid() && exists p ::
              StopsAt(Keys(old(pool.q)), r.Order(), p)
              && pool.q == Insert(old(pool.q), r, p)
              else pool.q == [r]
    {
      pool.EmptyIffNull();
      var h := heads[r.bh].(dirt := false);
      DataKeeps(pool.q, heads, entering, r.bh, h);
      assert ReqOk(r, heads[r.bh := h]);
      assert pool.q != [] ==> Owns(pool.q, pool.q[0].bh);
      heads := heads[r.bh := h];
      running := pool.current != -1;
      ghost var q0 := pool.q;
      ghost var p := pool.Add(s, r);
      entering := -1;
      stored := stored - {r.bh};
      if running {
        InsertKeeps(q0, heads, r, p);
      } else {
        SingleKeeps(heads, r);
      }
    }

    /** Between requests the cache fills, dirties and re-keys unlocked buffers; the driver is not disturbed. */
    method Reuse(b: nat, h: Head)
      requires Valid() && b < |heads| && !heads[b].lock && !h.lock && entering == -1
      requires h.dev / 256 == MAJOR_HD ==>
                 forall c | 0 <= c < |heads| && c != b :: heads[c].dev != h.dev || heads[c].block != h.block
      modifies this`heads
      ensures Valid() && heads == old(heads)[b := h]
    {
      ReuseKeeps(pool.q, heads, entering, b, h);
      assert pool.q != [] ==> Owns(pool.q, pool.q[0].bh);
      heads := heads[b := h];
    }

    /** A holder stores into a buffer whose write is queued or in flight, and marks it dirty: the driver's invariant
        and the work left do not change, and nothing but that buffer's bytes does. */
    method Store(b: nat, data: Block)
      requires Valid() && b < |heads| && WriteQueued(pool.q, b)
      modifies this`heads, this`stored
      ensures Valid() && Potential() == old(Potential()) && stored == old(stored) + {b}
      ensures heads == old(heads)[b := old(heads[b]).(data := data, dirt := true)]
    {
      DataKeeps(pool.q, heads, entering, b, heads[b].(data := data, dirt := true));
      ghost var i :| 0 <= i < |pool.q| && pool.q[i].bh == b && pool.q[i].cmd == WRITE;
      assert !SameBuffer(pool.q, 0, i);
      heads := heads[b := heads[b].(data := data, dirt := true)];
      stored := stored + {b};
    }

    /** A store after the last sector was handed over: the write that then ends well has put the buffer's bytes on the
        disk if and only if the store changed nothing. The buffer is left dirty, for the next write-back. */
    method Overtake(data: Block)
      requires Valid() && pool.q != [] && handler == OnWrite && pool.q[0].nrSectors == 1 && pool.q[0].bh !in stored
      modifies this`heads, this`faults, this`tick, this`reset, this`recalibrate, this`handler, this`command,
               this`disk, this`sent, this`stored, pool
      ensures Valid() && |heads| == |old(heads)| && old(pool.q[0].bh) < |heads|
      ensures Matched(heads[old(pool.q[0].bh)]) <==> data == old(heads[pool.q[0].bh].data)
      ensures var h := heads[old(pool.q[0].bh)]; h.data == data && h.dirt && !h.lock
    {
      ghost var r, before := pool.q[0], heads[pool.q[0].bh].data;
      assert ReqOk(r, heads);
      assert before == before[..512] + before[512..1024] == sent[..] + command.latch[..];
      pool.EmptyIffNull();
      Store(pool.slots[pool.current].bh, data);
      Interrupt(true);
      assert KeptOrFailed(old(heads)[r.bh := heads[r.bh]], heads, r.bh);
    }

    /** The disk has the bytes of buffer `h`. */
    ghost predicate Matched(h: Head)
      reads this
    {
      Configured(drives, parts) && DiskOk(drives, disk) && Addressable(h, parts)
        && h.data == OnDisk(h, drives, parts, disk)
    }

    /** lock_buff and unlock_buff around the way into the queue. */
    method Enter(b: nat, lock: bool)
      requires Valid() && b < |heads| && heads[b].lock == !lock && entering == if lock then -1 else b
      modifies this`heads, this`entering
      ensures Valid() && entering == if lock then b else -1
      ensures heads == old(heads)[b := old(heads[b]).(lock := lock)]
    {
      EnterKeeps(pool.q, heads, b, lock);
      assert pool.q != [] ==> Owns(pool.q, pool.q[0].bh);
      heads := heads[b := heads[b].(lock := lock)];
      entering := if lock then b else -1;
    }

    /** An interrupt while `b` waits for a slot leaves `b` alone. */
    method Wait(b: nat, ok: bool)
      requires Valid() && pool.q != [] && entering == b
      modifies this`heads, this`faults, this`tick, this`reset, this`recalibrate, this`handler, this`command,
               this`disk, this`sent, pool
      ensures Valid() && Potential() < old(Potential())
      ensures |heads| == |old(heads)| && heads[b] == old(heads[b])
    {
      assert Owns(pool.q, pool.q[0].bh) && LockAgrees(pool.q, heads, entering, b);
      Interrupt(ok);
      assert LockAgrees(pool.q, heads, entering, b);
      ghost var c := old(pool.q[0].bh);
      if ok && old(handler) != OnRecal {
        assert old(pool.q[0].nrSectors) != 2 ==> KeptOrFailed(old(heads)[c := heads[c]], heads, b);
      } else {
        assert KeptOrFailed(old(heads), heads, b);
      }
    }

    /** Every slot that such a command may take is busy. */
    ghost predicate Full(cmd: int)
      reads pool
    {
      forall s | 0 <= s < (if cmd == 0 then 32 else 21) :: s < |pool.slots| && pool.slots[s].dev >= 0
    }

    /** The `goto repeat` loop: waits, one interrupt at a time, until a slot is free. */
    method AwaitSlot(cmd: int, b: nat) returns (s: nat, ghost waits: nat)
      requires Valid() && entering == b && b < |heads| && (cmd == READ || cmd == WRITE)
      modifies this`heads, this`faults, this`tick, this`reset, this`recalibrate, this`handler, this`command,
               this`disk, this`sent, pool
      ensures Valid() && |heads| == |old(heads)| && heads[b] == old(heads[b])
      ensures s < NR_REQUEST && pool.slots[s].dev < 0 && (s >= WRITE_SLOTS ==> cmd == READ)
      ensures if waits == 0 then pool.q == old(pool.q) && heads == old(heads) && disk == old(disk) else old(Full(cmd))
    {
      var i := pool.FindSlot(cmd);
      waits := 0;
      while i < 0
        invariant Valid() && -1 <= i < NR_REQUEST
        invariant |heads| == |old(heads)| && heads[b] == old(heads[b])
        invariant if waits == 0 then pool.q == old(pool.q) && heads == old(heads) && disk == old(disk)
                  else old(Full(cmd))
        invariant if i < 0 then Full(cmd) && (waits == 0 ==> old(Full(cmd)))
                  else pool.slots[i].dev < 0 && (i >= WRITE_SLOTS ==> cmd == READ)
        decreases Potential()
      {
        pool.BusyIsQueued(0);
        var ok: bool := *;
        Wait(b, ok);
        waits := waits + 1;
        i := pool.FindSlot(cmd);
      }
      s := i;
    }

    /** Nothing is to be queued: no driver, a read-ahead or write-ahead of a busy buffer, or nothing to do. */
    ghost predicate Ignored(rw: int, b: nat)
      reads this
      requires b < |heads|
    {
      var h := heads[b];
      || h.dev / 256 != 3
      || (rw in {2, 3} && h.lock)
      || (if rw in {1, 3} then !h.dirt else h.uptodate)
    }

    /** ll_rw_block. (q1, h1, t1) is the machine at the moment the request goes in, after `waits` interrupts.
        A submission that is not ignored and does not decline to wait goes in exactly once, for exactly its block. */
    method LlRwBlock(rw: int, b: nat)
      returns (declined: bool, ghost waits: nat, ghost q1: seq<Request>, ghost h1: seq<Head>, ghost t1: nat)
      requires Valid() && entering == -1 && b < |heads| && 0 <= rw <= 3
      requires heads[b].dev / 256 == MAJOR_HD ==> heads[b].block < BLOCK_LIMIT
      requires rw in {READ, WRITE} ==> !heads[b].lock
      modifies this, pool
      ensures Valid() && entering == -1
      ensures old(Ignored(rw, b)) || declined ==> heads == old(heads) && pool.q == old(pool.q) && disk == old(disk)
      ensures waits > 0 || declined ==> old(Full(if rw in {0, 2} then 0 else 1))
      ensures declined ==> rw in {2, 3}
      ensures !old(Ignored(rw, b)) && !declined ==>
                && |h1| == |old(heads)| && h1[b] == old(heads[b]).(lock := true)
                && (waits == 0 ==> q1 == old(pool.q) && h1 == old(heads)[b := h1[b]] && disk == old(disk))
                && Submitted(q1, h1, t1, b, if rw in {0, 2} then 0 else 1)
    {
      declined, waits, q1, h1, t1 := false, 0, pool.q, heads, tick;
      var cmd := if rw == READ || rw == READA then READ else WRITE;
      var wanted := LockForTransfer(rw, cmd, b);
      if wanted {
        if rw == READA || rw == WRITEA {
          var s := pool.FindSlot(cmd);
          declined := s < 0;
        }
        if declined {
          Enter(b, false);
        } else {
          waits, q1, h1, t1 := Submit(cmd, b);
        }
      }
    }

    /** The tests at the top of ll_rw_block; the buffer stays locked only when there is something to do. */
    method LockForTransfer(rw: int, cmd: int, b: nat) returns (wanted: bool)
      requires Valid() && entering == -1 && b < |heads| && 0 <= rw <= 3
      requires cmd == if rw in {READ, READA} then READ else WRITE
      requires rw in {READ, WRITE} ==> !heads[b].lock
      modifies this`heads, this`entering
      ensures Valid() && wanted == !old(Ignored(rw, b))
      ensures if wanted then entering == b && !old(heads[b].lock)
              && heads == old(heads)[b := old(heads[b]).(lock := true)]
              else entering == -1 && heads == old(heads)
    {
      wanted := false;
      if heads[b].dev / 256 != MAJOR_HD { return; }
      if (rw == READA || rw == WRITEA) && heads[b].lock { return; }
      Enter(b, true);
      if (cmd == WRITE && !heads[b].dirt) || (cmd == READ && heads[b].uptodate) {
        Enter(b, false);
        return;
      }
      wanted := true;
    }

    /** Fills a free slot, waiting for one if it must, and adds it. */
    method Submit(cmd: int, b: nat)
      returns (ghost waits: nat, ghost q1: seq<Request>, ghost h1: seq<Head>, ghost t1: nat)
      requires Valid() && entering == b && b < |heads| && (cmd == READ || (cmd == WRITE && heads[b].dirt))
      requires heads[b].dev / 256 == MAJOR_HD && heads[b].block < BLOCK_LIMIT && heads[b].lock
      requires cmd == READ ==> !heads[b].uptodate
      modifies this, pool
      ensures Valid() && entering == -1
      ensures |h1| == |old(heads)| && h1[b] == old(heads[b])
      ensures if waits == 0 then q1 == old(pool.q) && h1 == old(heads) && disk == old(disk) else old(Full(cmd))
      ensures Submitted(q1, h1, t1, b, cmd)
    {
      var s;
      s, waits := AwaitSlot(cmd, b);
      q1, h1, t1 := pool.q, heads, tick;
      ShiftNamesBlock(heads[b].block);
      AddRequest(s, Request(heads[b].dev, cmd, 0, Shifted(heads[b].block), 2, 0, b));
    }

    /** From (q1, h1, t1), with `b` locked, the request for the whole of its block was added. */
    ghost predicate Submitted(q1: seq<Request>, h1: seq<Head>, t1: nat, b: nat, cmd: int)
      reads this, pool
    {
      && b < |h1|
      && var r := Request(h1[b].dev, cmd, 0, 2 * h1[b].block, 2, 0, b);
         var h := h1[b := h1[b].(dirt := false)];
         if q1 == [] then Dropped(parts, [r], h, pool.q, heads, Misses(drq, t1, tick))
         else heads == h && exists p :: StopsAt(Keys(q1), r.Order(), p) && pool.q == Insert(q1, r, p)
    }
  }
}
