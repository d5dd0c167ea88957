/** The buffer cache of blk/buffer.c. Requests to the driver are asynchronous: a locked buffer has one
    in flight, a write when it is up to date and a read when it is not. The disk may answer any locked
    buffer at any time: when it does is an arbitrary parameter. Every request succeeds. */
module Cache {
  import opened Bytes
  import opened Lists
  import opened Devices
  import opened Queues

  datatype Key = Key(dev: nat, block: nat)

  datatype Buf = Buf(key: Key, uptodate: bool, dirt: bool, count: nat, lock: bool, data: Block) {
    function Badness(): nat { (if dirt then 2 else 0) + (if lock then 1 else 0) }
  }

  function Xor(a: nat, b: nat): nat {
    if a == 0 && b == 0 then 0 else 2 * Xor(a / 2, b / 2) + (if a % 2 == b % 2 then 0 else 1)
  }

  /** It differs exactly in the bits in which its arguments differ. */
  lemma {:induction false} XorBits(a: nat, b: nat, i: nat)
    ensures Bit(Xor(a, b), i) <==> Bit(a, i) != Bit(b, i)
    decreases i
  {
    if i > 0 && !(a == 0 && b == 0) { XorBits(a / 2, b / 2, i - 1); } else if i > 0 { ZeroBits(i); }
  }

  lemma {:induction false} ZeroBits(i: nat)
    ensures !Bit(0, i)
  {
    if i > 0 { ZeroBits(i - 1); }
  }

  ghost predicate Bit(a: nat, i: nat)
    decreases i
  {
    if i == 0 then a % 2 == 1 else Bit(a / 2, i - 1)
  }

  function Bucket(k: Key): (r: nat)
    ensures r < NR_HASH
  {
    Xor(k.dev, k.block) % NR_HASH
  }

  type Store = imap<Key, Block>

  // ------------------------------------------------------------------ the cache against the disk

  ghost predicate Total(s: Store) { forall k: Key :: k in s }

  /** An up-to-date buffer shows its block's contents; one that is clean and idle agrees with the disk. */
  ghost predicate BufOk(h: Buf, view: Store, disk: Store)
    requires Total(view) && Total(disk)
  {
    && (h.dirt ==> h.uptodate && HasDriver(h.key.dev)) && (h.lock ==> HasDriver(h.key.dev))
    && (h.key.dev != 0 && h.uptodate ==> view[h.key] == h.data)
    && (h.key.dev != 0 && !(h.uptodate && (h.dirt || h.lock)) ==> view[h.key] == disk[h.key])
  }

  ghost predicate Indexed(heads: seq<Buf>, at: map<Key, nat>, h: int) {
    0 <= h < |heads| && heads[h].key.dev != 0 ==> heads[h].key in at && at[heads[h].key] == h
  }

  ghost predicate Names(heads: seq<Buf>, at: map<Key, nat>, k: Key) {
    k in at ==> k.dev != 0 && at[k] < |heads| && heads[at[k]].key == k
  }

  ghost predicate Uncached(at: map<Key, nat>, view: Store, disk: Store, k: Key)
    requires Total(view) && Total(disk)
  {
    k !in at ==> view[k] == disk[k]
  }

  /** `at` gives the only head of each cached key; `view` is what a reader of the cache must get. */
  ghost predicate Coherent(heads: seq<Buf>, at: map<Key, nat>, view: Store, disk: Store) {
    && Total(view) && Total(disk)
    && (forall h {:trigger BufOk(heads[h], view, disk)} | 0 <= h < |heads| :: BufOk(heads[h], view, disk))
    && (forall h :: Indexed(heads, at, h))
    && (forall k :: Names(heads, at, k))
    && (forall k :: Uncached(at, view, disk, k))
  }

  /** One head changes under its key, together with what the disk holds and the cache shows there. */
  lemma CoherentUpdate(heads: seq<Buf>, at: map<Key, nat>, view: Store, disk: Store, h: nat, buf: Buf, v: Block,
                       d: Block)
    requires Coherent(heads, at, view, disk) && h < |heads| && buf.key == heads[h].key
    requires var k := buf.key; BufOk(buf, view[k := v], disk[k := d])
    requires heads[h].key.dev == 0 ==> v == view[buf.key] && d == disk[buf.key]
    ensures Coherent(heads[h := buf], at, view[buf.key := v], disk[buf.key := d])
  {
    var k, heads', view', disk' := buf.key, heads[h := buf], view[buf.key := v], disk[buf.key := d];
    assert Indexed(heads, at, h);
    forall i | 0 <= i < |heads| ensures BufOk(heads'[i], view', disk') {
      assert BufOk(heads[i], view, disk) && Indexed(heads, at, i);
    }
    forall i ensures Indexed(heads', at, i) { assert Indexed(heads, at, i); }
    forall x ensures Names(heads', at, x) { assert Names(heads, at, x); }
    forall x ensures Uncached(at, view', disk', x) { assert Uncached(at, view, disk, x); }
  }

  /** A clean, idle head may forget its old key and take one that is nowhere in the cache. */
  lemma CoherentRekey(heads: seq<Buf>, at: map<Key, nat>, view: Store, disk: Store, h: nat, k: Key)
    requires Coherent(heads, at, view, disk) && h < |heads| && !heads[h].dirt && !heads[h].lock
    requires k !in at && k.dev != 0
    ensures Coherent(heads[h := heads[h].(key := k, uptodate := false, count := 1)], (at - {heads[h].key})[k := h],
              view, disk)
  {
    var heads', at' := heads[h := heads[h].(key := k, uptodate := false, count := 1)], (at - {heads[h].key})[k := h];
    assert Indexed(heads, at, h) && BufOk(heads[h], view, disk) && Uncached(at, view, disk, k)
           && Uncached(at, view, disk, heads[h].key);
    forall i | 0 <= i < |heads| ensures BufOk(heads'[i], view, disk) { assert BufOk(heads[i], view, disk); }
    forall i ensures Indexed(heads', at', i) { assert Indexed(heads, at, i); }
    forall x ensures Names(heads', at', x) { assert Names(heads, at, x); }
    forall x ensures Uncached(at', view, disk, x) { assert Uncached(at, view, disk, x) && Names(heads, at, x); }
  }

  // ------------------------------------------------------------------ what interrupts may do

  /** How the disk answers: whether the request of head `h` is answered at moment `t` though nobody waits for it,
      and what a write has stored whose buffer, now holding `b`, was dirtied while it was in flight. */
  datatype Answers = Answers(early: (nat, nat) -> bool, stored: (nat, nat, Block) -> Block) {
    /** Nothing is answered before somebody waits for it, and a write that was overtaken stored something else. */
    ghost predicate Worst() {
      && (forall t, h :: !early(t, h))
      && forall t, h, b :: stored(t, h, b) != b
    }
  }

  function Other(b: Block): (r: Block)
    ensures r != b
  {
    b[0 := 255 - b[0]]
  }

  function WorstAnswers(): (a: Answers)
    ensures a.Worst()
  {
    Answers((t, h) => false, (t, h, b) => Other(b))
  }

  /** The answer to the request of a locked buffer: a read has brought the disk's bytes, a write has put the buffer's on
      the disk - or anything, if the buffer was dirtied while the write was in flight. */
  ghost predicate Completes(b: Buf, d: Store, b': Buf, d': Store) {
    && b.lock && b.key in d && b.key in d' && d' == d[b.key := d'[b.key]]
    && if !b.uptodate then d' == d && b' == b.(lock := false, uptodate := true, data := d[b.key])
       else b' == b.(lock := false) && (!b.dirt ==> d'[b.key] == b.data)
  }

  /** What the disk has of a block whose write is in flight does not matter. */
  lemma TornWrite(heads: seq<Buf>, at: map<Key, nat>, view: Store, disk: Store, h: nat, torn: Block)
    requires Coherent(heads, at, view, disk) && h < |heads| && heads[h].lock && heads[h].uptodate
    ensures Coherent(heads, at, view, disk[heads[h].key := torn])
  {
    var k := heads[h].key;
    assert BufOk(heads[h], view, disk);
    CoherentUpdate(heads, at, view, disk, h, heads[h], view[k], torn);
    assert heads[h := heads[h]] == heads && view[k := view[k]] == view;
  }

  /** Between d0 and d1 the disk's copy of `k` is the same or has become what the cache shows - or its write
      was overtaken by a change of the buffer. */
  ghost predicate Steady(h0: seq<Buf>, at: map<Key, nat>, d0: Store, d1: Store, view: Store, k: Key)
    requires Total(d0) && Total(d1) && Total(view)
  {
    || (k in at && at[k] < |h0| && h0[at[k]].dirt && h0[at[k]].lock)
    || d1[k] == d0[k] || d1[k] == view[k]
  }

  /** The head as it was, or its request answered: unlocked, up to date, and a written buffer's bytes untouched. */
  ghost predicate Answered(a: seq<Buf>, b: seq<Buf>, h: int) {
    0 <= h < |a| == |b| ==>
      b[h] == a[h] || (a[h].lock && b[h] == a[h].(lock := false, uptodate := true, data := b[h].data)
        && (a[h].uptodate ==> b[h].data == a[h].data))
  }

  ghost predicate Settled(a: seq<Buf>, b: seq<Buf>) {
    |a| == |b| && forall h :: Answered(a, b, h)
  }

  /** A buffer whose write is not overtaken in `a` is not in `b` either. */
  ghost predicate Calmer(a: seq<Buf>, b: seq<Buf>, h: int) {
    0 <= h < |a| == |b| && b[h].dirt && b[h].lock ==> a[h].dirt && a[h].lock
  }

  ghost predicate Untouched(a: seq<Buf>, b: seq<Buf>, h: int) {
    0 <= h < |a| == |b| ==> b[h].key == a[h].key && b[h].dirt == a[h].dirt && (b[h].lock ==> a[h].lock)
  }

  /** The heads with the request of head `b` in flight, if there is anything to do. */
  ghost function Requested(a: seq<Buf>, rw: int, b: nat): seq<Buf>
    requires b < |a|
  {
    if !HasDriver(a[b].key.dev) || (if rw == WRITE then !a[b].dirt else a[b].uptodate) then a
    else a[b := a[b].(lock := true, dirt := false)]
  }

  lemma SettledTrans(a: seq<Buf>, b: seq<Buf>, c: seq<Buf>)
    requires Settled(a, b) && Settled(b, c)
    ensures Settled(a, c)
  {
    forall h ensures Answered(a, c, h) { assert Answered(a, b, h) && Answered(b, c, h); }
  }

  /** A head with a device is chained in the bucket of its key, a head without one is in no chain. */
  ghost predicate Homed(heads: seq<Buf>, home: seq<int>, h: int) {
    0 <= h < |heads| == |home| ==> home[h] == if heads[h].key.dev == 0 then -1 else Bucket(heads[h].key)
  }

  lemma HomedUpdate(heads: seq<Buf>, heads': seq<Buf>, home: seq<int>, h: nat)
    requires (forall i :: Homed(heads, home, i)) && h < |heads| == |home|
    requires |heads'| == |heads| && heads' == heads[h := heads'[h]] && heads'[h].key == heads[h].key
    ensures forall i :: Homed(heads', home, i)
  {
    forall i ensures Homed(heads', home, i) { assert Homed(heads, home, i); }
  }

  /** What any I/O leaves as it was: keys, holders and valid bytes; and it dirties nothing. */
  ghost predicate Kept(a: seq<Buf>, b: seq<Buf>, h: int) {
    0 <= h < |a| == |b| ==>
      && b[h].key == a[h].key && b[h].count == a[h].count && (b[h].dirt ==> a[h].dirt)
      && (a[h].uptodate ==> b[h].uptodate && b[h].data == a[h].data)
  }

  ghost predicate AllKept(a: seq<Buf>, b: seq<Buf>) {
    |a| == |b| && forall h :: Kept(a, b, h)
  }

  lemma SettledKeeps(a: seq<Buf>, b: seq<Buf>, c: seq<Buf>)
    requires AllKept(a, b) && Settled(b, c)
    ensures AllKept(a, c)
  {
    forall h ensures Kept(a, c, h) { assert Kept(a, b, h) && Answered(b, c, h); }
  }

  lemma SubmitKeeps(a: seq<Buf>, b: seq<Buf>, h: nat)
    requires AllKept(a, b) && h < |b|
    ensures AllKept(a, b[h := b[h].(lock := true, dirt := false)])
  {
    var b' := b[h := b[h].(lock := true, dirt := false)];
    forall i ensures Kept(a, b', i) { assert Kept(a, b, i); }
  }

  /** The victim is unheld. It is dirty only if every unheld buffer is; among those as clean as it, it is locked only if
      all of them are; and it is the first of its kind on the free ring. */
  ghost predicate IsVictim(heads: seq<Buf>, ring: seq<nat>, r: int) {
    exists p | 0 <= p < |ring| :: ring[p] == r && BestOf(heads, ring, |ring|, p)
  }

  ghost predicate BestOf(heads: seq<Buf>, ring: seq<nat>, n: nat, p: nat) {
    && p < n <= |ring| && ring[p] < |heads| && heads[ring[p]].count == 0
    && forall i :: Beats(heads, ring, n, p, i)
  }

  ghost predicate Beats(heads: seq<Buf>, ring: seq<nat>, n: nat, p: nat, i: int)
    requires p < n <= |ring| && ring[p] < |heads|
  {
    0 <= i < n && ring[i] < |heads| && heads[ring[i]].count == 0 ==>
      var v, x := heads[ring[p]], heads[ring[i]];
      && (v.dirt ==> x.dirt) && (v.dirt == x.dirt && v.lock ==> x.lock)
      && (v.dirt == x.dirt && v.lock == x.lock ==> p <= i)
  }

  /** How many holders a block's buffer has. */
  ghost function CountOf(heads: seq<Buf>, at: map<Key, nat>, k: Key): nat {
    if k in at && at[k] < |heads| then heads[at[k]].count else 0
  }

  ghost predicate SameCount(h0: seq<Buf>, at0: map<Key, nat>, h1: seq<Buf>, at1: map<Key, nat>, x: Key) {
    CountOf(h1, at1, x) == CountOf(h0, at0, x)
  }

  ghost predicate HeldKept(h0: seq<Buf>, h1: seq<Buf>, k: Key, h: int) {
    0 <= h < |h0| == |h1| && h0[h].count > 0 && h0[h].key != k ==> Kept(h0, h1, h)
  }

  /** Exactly the holders of `k` changed, by `d`; every other held head kept its key, holders and valid bytes. */
  ghost predicate OnlyCount(h0: seq<Buf>, at0: map<Key, nat>, h1: seq<Buf>, at1: map<Key, nat>, k: Key, d: int) {
    && |h1| == |h0|
    && CountOf(h1, at1, k) == CountOf(h0, at0, k) + d
    && (forall x: Key | x != k :: SameCount(h0, at0, h1, at1, x))
    && (forall h :: HeldKept(h0, h1, k, h))
  }

  /** Heads that were only kept, except that the one of `k` took its holders up or down. */
  lemma KeptCounts(h0: seq<Buf>, at: map<Key, nat>, h1: seq<Buf>, b: nat, k: Key, d: int)
    requires |h0| == |h1| && b < |h0| && k in at && at[k] == b && h0[b].key == k && h1[b].count == h0[b].count + d
    requires forall x :: Names(h0, at, x)
    requires forall h :: h == b || Kept(h0, h1, h)
    ensures OnlyCount(h0, at, h1, at, k, d)
  {
    forall x: Key | x != k ensures SameCount(h0, at, h1, at, x) {
      assert Names(h0, at, x);
      if x in at { assert at[x] == b || Kept(h0, h1, at[x]); }
    }
    forall h ensures HeldKept(h0, h1, k, h) { assert h == b || Kept(h0, h1, h); }
  }

  /** The victim had no holders, so nobody's count but the new key's has changed. */
  lemma RekeyCounts(h0: seq<Buf>, at0: map<Key, nat>, h1: seq<Buf>, at1: map<Key, nat>, r: nat, k: Key)
    requires |h0| == |h1| && r < |h0| && h0[r].count == 0 && h1[r].count == 1 && k !in at0
    requires at1 == (at0 - {h0[r].key})[k := r]
    requires forall x :: Names(h0, at0, x)
    requires Indexed(h0, at0, r)
    requires forall h | 0 <= h < |h1| && h != r :: Kept(h0, h1, h)
    ensures OnlyCount(h0, at0, h1, at1, k, 1)
  {
    forall x: Key | x != k ensures SameCount(h0, at0, h1, at1, x) {
      assert Names(h0, at0, x);
      if x in at0 && at0[x] != r { assert Kept(h0, h1, at0[x]); }
    }
    forall h ensures HeldKept(h0, h1, k, h) { }
  }

  lemma OnlyCountKept(h0: seq<Buf>, at0: map<Key, nat>, h1: seq<Buf>, h2: seq<Buf>, at: map<Key, nat>, k: Key, d: int)
    requires OnlyCount(h0, at0, h1, at, k, d) && AllKept(h1, h2)
    ensures OnlyCount(h0, at0, h2, at, k, d)
  {
    forall x: Key ensures CountOf(h2, at, x) == CountOf(h1, at, x) { if x in at { assert Kept(h1, h2, at[x]); } }
    forall x: Key | x != k ensures SameCount(h0, at0, h2, at, x) { assert SameCount(h0, at0, h1, at, x); }
    forall h ensures HeldKept(h0, h2, k, h) { assert HeldKept(h0, h1, k, h) && Kept(h1, h2, h); }
  }

  lemma OnlyCountThen(h0: seq<Buf>, at0: map<Key, nat>, h1: seq<Buf>, h2: seq<Buf>, at: map<Key, nat>, k: Key, d: int,
                      e: int)
    requires OnlyCount(h0, at0, h1, at, k, d) && OnlyCount(h1, at, h2, at, k, e)
    ensures OnlyCount(h0, at0, h2, at, k, d + e)
  {
    forall x: Key | x != k ensures SameCount(h0, at0, h2, at, x) {
      assert SameCount(h0, at0, h1, at, x) && SameCount(h1, at, h2, at, x);
    }
    forall h ensures HeldKept(h0, h2, k, h) { assert HeldKept(h0, h1, k, h) && HeldKept(h1, h2, k, h); }
  }

  class BufferCache {
    const links: Links
    const answers: Answers
    /** How often the disk has been looked at. */
    var now: nat
    var heads: seq<Buf>
    var disk: Store
    ghost var at: map<Key, nat>
    ghost var view: Store

    ghost predicate Valid()
      reads this, links
    {
      && links.Valid() && |heads| == links.n
      && (forall h :: Homed(heads, links.home, h))
      && Coherent(heads, at, view, disk)
    }

    /** init_buff over `n` heads. */
    constructor (n: nat, disk: Store, answers: Answers)
      requires n > 0 && Total(disk)
      ensures Valid() && fresh(links) && view == disk && at == map[] && this.answers == answers && this.disk == disk
      ensures |heads| == n && forall h | 0 <= h < n :: heads[h].count == 0
    {
      links := new Links(n);
      heads := seq(n, _ => Buf(Key(0, 0), false, false, 0, false, seq(1024, _ => 0)));
      this.disk, view, at, now, this.answers := disk, disk, map[], 0, answers;
    }

    // ---------------------------------------------------------------- requests and waiting

    /** One head changes under its key. */
    method SetHead(h: nat, buf: Buf, ghost v: Block, d: Block)
      requires Valid() && h < |heads| && buf.key == heads[h].key
      requires BufOk(buf, view[buf.key := v], disk[buf.key := d])
      requires buf.key.dev == 0 ==> v == view[buf.key] && d == disk[buf.key]
      modifies this`heads, this`disk, this`view
      ensures Valid() && heads == old(heads)[h := buf]
      ensures view == old(view)[buf.key := v] && disk == old(disk)[buf.key := d]
    {
      CoherentUpdate(heads, at, view, disk, h, buf, v, d);
      HomedUpdate(heads, heads[h := buf], links.home, h);
      heads, disk, view := heads[h := buf], disk[buf.key := d], view[buf.key := v];
    }

    /** The disk answers the request in flight for head `h`. A write whose buffer was dirtied again
        meanwhile may have stored anything. */
    method Complete(h: nat)
      requires Valid() && h < |heads| && heads[h].lock
      modifies this`heads, this`disk, this`view
      ensures Valid() && Settled(old(heads), heads) && !heads[h].lock && view == old(view)
      ensures Answer(old(heads), old(disk), h) && Completes(old(heads)[h], old(disk), heads[h], disk)
    {
      var b := heads[h];
      assert BufOk(b, view, disk);
      if !b.uptodate {
        SetHead(h, b.(lock := false, uptodate := true, data := disk[b.key]), view[b.key], disk[b.key]);
      } else if !b.dirt {
        SetHead(h, b.(lock := false), view[b.key], b.data);
      } else {
        SetHead(h, b.(lock := false), view[b.key], answers.stored(now, h, b.data));
      }
    }

    /** Only head `h` was answered since (h0, d0). */
    ghost predicate Answer(h0: seq<Buf>, d0: Store, h: nat)
      reads this
    {
      && h < |h0| == |heads| && Total(d0) && Total(disk) && Total(view)
      && heads == h0[h := heads[h]] && disk == d0[h0[h].key := disk[h0[h].key]]
      && (!(h0[h].dirt && h0[h].uptodate) ==> disk[h0[h].key] == d0[h0[h].key] || disk[h0[h].key] == view[h0[h].key])
      && (answers.Worst() && h0[h].dirt && h0[h].uptodate ==> disk[h0[h].key] != h0[h].data)
    }

    /** Since (h0, d0) no block but such as were overtaken came to differ from what the cache shows. */
    ghost predicate AllSteady(h0: seq<Buf>, d0: Store)
      reads this
    {
      Total(d0) && Total(disk) && Total(view) && forall k :: Steady(h0, at, d0, disk, view, k)
    }

    lemma SteadyTrans(h0: seq<Buf>, d0: Store, h1: seq<Buf>, d1: Store)
      requires Total(d0) && Total(d1) && AllSteady(h1, d1)
      requires forall k :: Steady(h0, at, d0, d1, view, k)
      requires |h0| == |h1| && forall h :: Calmer(h0, h1, h)
      ensures AllSteady(h0, d0)
    {
      forall k ensures Steady(h0, at, d0, disk, view, k) {
        assert Steady(h1, at, d1, disk, view, k) && Steady(h0, at, d0, d1, view, k);
        if k in at { assert Calmer(h0, h1, at[k]); }
      }
    }

    /** Interrupts come: any of the requests in flight may be answered, that of head `b` (if any) surely is. */
    method Interrupts(b: int)
      requires Valid()
      modifies this`heads, this`disk, this`view, this`now
      ensures Valid() && Settled(old(heads), heads) && view == old(view)
      ensures 0 <= b < |heads| ==> !heads[b].lock
      ensures AllSteady(old(heads), old(disk))
      ensures answers.Worst() ==>
                if 0 <= b < |old(heads)| && old(heads)[b].lock then Answer(old(heads), old(disk), b)
                else heads == old(heads) && disk == old(disk)
    {
      ghost var h0, d0 := heads, disk;
      forall k ensures Steady(h0, at, d0, disk, view, k) { }
      for h := 0 to |heads|
        invariant Valid() && Settled(h0, heads) && view == old(view)
        invariant 0 <= b < h ==> !heads[b].lock
        invariant AllSteady(h0, d0)
        invariant answers.Worst() ==>
                    if 0 <= b < h && h0[b].lock then Answer(h0, d0, b) else heads == h0 && disk == d0
      {
        if heads[h].lock && (h == b || answers.early(now, h)) {
          AnswerOne(h0, d0, h);
          assert Answered(old(heads), heads, b);
        }
      }
      now := now + 1;
    }

    /** One answer more since (h0, d0). */
    method AnswerOne(ghost h0: seq<Buf>, ghost d0: Store, h: nat)
      requires Valid() && h < |heads| && heads[h].lock && Settled(h0, heads) && AllSteady(h0, d0)
      modifies this`heads, this`disk, this`view
      ensures Valid() && Settled(h0, heads) && Settled(old(heads), heads) && view == old(view) && !heads[h].lock
      ensures AllSteady(h0, d0) && Answer(old(heads), old(disk), h)
    {
      ghost var h1, d1 := heads, disk;
      Complete(h);
      SettledTrans(h0, h1, heads);
      assert Indexed(h1, at, h) && BufOk(h1[h], view, d1);
      forall k ensures Steady(h1, at, d1, disk, view, k) { assert Names(h1, at, k); }
      forall i ensures Calmer(h0, h1, i) { assert Answered(h0, h1, i); }
      SteadyTrans(h0, d0, h1, d1);
    }

    /** wait_on_buff */
    method WaitOn(b: nat)
      requires Valid() && b < |heads|
      modifies this`heads, this`disk, this`view, this`now
      ensures Valid() && Settled(old(heads), heads) && view == old(view) && !heads[b].lock
      ensures !old(heads[b]).lock ==> disk == old(disk) && heads == old(heads)
      ensures AllSteady(old(heads), old(disk))
      ensures answers.Worst() && old(heads[b]).lock ==> Answer(old(heads), old(disk), b)
    {
      forall k ensures Steady(heads, at, disk, disk, view, k) { }
      if heads[b].lock {
        Interrupts(b);
      }
    }

    /** ll_rw_block on an unlocked buffer: the request is in flight, its buffer locked and counted as clean,
        when this returns - or has already been answered. */
    method LlRwBlock(rw: int, b: nat)
      requires Valid() && b < |heads| && !heads[b].lock && (rw == READ || rw == WRITE)
      modifies this`heads, this`disk, this`view, this`now
      ensures Valid() && view == old(view)
      ensures Settled(Requested(old(heads), rw, b), heads)
      ensures AllSteady(old(heads), old(disk))
      ensures answers.Worst() ==> heads == Requested(old(heads), rw, b) && disk == old(disk)
    {
      ghost var h0, d0 := heads, disk;
      forall k ensures Steady(h0, at, d0, disk, view, k) { }
      var h := heads[b];
      if HasDriver(h.key.dev) && !((rw == WRITE && !h.dirt) || (rw == READ && h.uptodate)) {
        assert BufOk(h, view, disk);
        SetHead(b, h.(lock := true, dirt := false), view[h.key], disk[h.key]);
        assert disk == d0;
      }
      ghost var h1 := heads;
      Interrupts(-1);
      forall i ensures Calmer(h0, h1, i) { }
      SteadyTrans(h0, d0, h1, d0);
    }

    // ---------------------------------------------------------------- lookup

    /** A cached head is on the chain that its key hashes to. */
    lemma OnChain(k: Key)
      requires Valid() && k in at
      ensures at[k] < |heads| && at[k] in links.chains[Bucket(k)]
    {
      assert Names(heads, at, k) && Homed(heads, links.home, at[k]);
      assert AtHome(links.next, links.prev, links.chains, links.home, at[k]);
    }

    /** find_buff finds the head of a key exactly when there is one. */
    method FindBuff(k: Key) returns (r: int)
      requires Valid() && k.dev != 0
      ensures r == if k in at then at[k] else -1
    {
      ghost var c, i := links.chains[Bucket(k)], 0;
      if k in at {
        OnChain(k);
        assert Names(heads, at, k);
      }
      r := links.hash[Bucket(k)];
      while r != -1
        invariant 0 <= i <= |c| && r == if i < |c| then c[i] else -1
        invariant forall j | 0 <= j < i :: c[j] < |heads| && heads[c[j]].key != k
        decreases |c| - i
      {
        assert ChainAt(links.next, links.prev, c, i);
        if heads[r].key == k {
          assert Indexed(heads, at, r);
          return;
        }
        r := links.next[r];
        i := i + 1;
      }
    }

    // ---------------------------------------------------------------- writing back

    /** The disk has what the cache shows of device `dev`. */
    ghost predicate InSync(dev: nat)
      reads this
    {
      Total(view) && Total(disk) && forall k: Key | k.dev == dev :: view[k] == disk[k]
    }

    /** Head `h` is one that sync_dev may leave different from the disk: it was changed since the disk last had it. */
    ghost predicate Behind(heads: seq<Buf>, disk: Store, dev: nat, h: int) {
      && 0 <= h < |heads| && heads[h].key.dev == dev && heads[h].dirt && heads[h].key in disk
      && (heads[h].lock || heads[h].data != disk[heads[h].key])
    }

    /** One turn of sync_dev's loop. */
    method SyncOne(i: nat, dev: nat)
      requires Valid() && i < |heads| && heads[i].key.dev == dev
      modifies this`heads, this`disk, this`view, this`now
      ensures Valid() && view == old(view) && AllKept(old(heads), heads)
      ensures !heads[i].dirt && (!old(heads[i]).dirt ==> !heads[i].lock)
      ensures AllSteady(old(heads), old(disk))
      ensures forall h :: h != i ==> Untouched(old(heads), heads, h)
      ensures answers.Worst() ==>
              heads == old(heads)[i := heads[i]]
              && disk == old(disk)[heads[i].key := disk[heads[i].key]]
      ensures answers.Worst() && dev != 0 && old(Behind(heads, disk, dev, i)) ==>
              disk[heads[i].key] != view[heads[i].key]
    {
      ghost var h0, d0 := heads, disk;
      assert BufOk(h0[i], view, disk);
      WaitOn(i);
      ghost var h1, d1 := heads, disk;
      SettledKeeps(h0, h0, h1);
      assert Answered(h0, h1, i);
      forall h ensures h != i ==> Untouched(h0, h1, h) { assert Answered(h0, h1, h); }
      if heads[i].dirt {
        assert BufOk(heads[i], view, disk);
        LlRwBlock(WRITE, i);
        ghost var h2 := h1[i := h1[i].(lock := true, dirt := false)];
        SubmitKeeps(h0, h1, i);
        SettledKeeps(h0, h2, heads);
        forall h ensures h != i ==> Untouched(h0, heads, h) {
          assert Answered(h2, heads, h) && (h != i ==> Untouched(h0, h1, h));
        }
        assert Answered(h2, heads, i);
        forall h ensures Calmer(h0, h1, h) { assert Answered(h0, h1, h); }
        SteadyTrans(h0, d0, h1, d1);
      }
    }

    /** What holds of each head of the device while sync_dev is at head `i`, if none was behind at the start. */
    ghost predicate Even(dev: nat, i: nat, h: int)
      reads this
      requires Total(view) && Total(disk)
    {
      0 <= h < |heads| && heads[h].key.dev == dev ==>
        && (heads[h].dirt ==> !heads[h].lock && view[heads[h].key] == disk[heads[h].key])
        && (h < i ==> view[heads[h].key] == disk[heads[h].key])
    }

    ghost predicate AllEven(dev: nat, i: nat)
      reads this
      requires Total(view) && Total(disk)
    {
      forall h :: Even(dev, i, h)
    }

    lemma EvenStep(h0: seq<Buf>, d0: Store, dev: nat, i: nat, h: int)
      requires Valid() && dev != 0 && i < |h0| == |heads| && Total(d0) && AllSteady(h0, d0) && AllKept(h0, heads)
      requires !heads[i].dirt && (!h0[i].dirt ==> !heads[i].lock)
      requires h != i ==> Untouched(h0, heads, h)
      requires 0 <= h < |h0| && h0[h].key.dev == dev ==>
                 && (h0[h].dirt ==> !h0[h].lock && view[h0[h].key] == d0[h0[h].key])
                 && (h < i ==> view[h0[h].key] == d0[h0[h].key])
      ensures Even(dev, i + 1, h)
    {
      if 0 <= h < |heads| && heads[h].key.dev == dev {
        assert Kept(h0, heads, h) && Indexed(heads, at, h) && BufOk(heads[h], view, disk);
        assert Steady(h0, at, d0, disk, view, heads[h].key);
      }
    }

    /** What the loop of sync_dev keeps about a head `w` that was behind at the start (h0, d0). */
    ghost predicate StillBehind(h0: seq<Buf>, d0: Store, i: nat, w: int)
      reads this
    {
      0 <= w < |h0| == |heads| && Total(d0) && Total(disk) && Total(view) && heads[w].key == h0[w].key
      && if i <= w then heads[w] == h0[w] && disk[h0[w].key] == d0[h0[w].key] else disk[h0[w].key] != view[h0[w].key]
    }

    /** A whole turn: the head, if it is of the device, is cleaned, and the loop's invariants go on. */
    method SyncTurn(ghost h0: seq<Buf>, ghost d0: Store, dev: nat, i: nat, ghost even: bool, ghost w: int)
      requires Valid() && i < |heads| == |h0| && Total(d0)
      requires forall h | 0 <= h < i && heads[h].key.dev == dev :: !heads[h].dirt
      requires even ==> dev != 0 && AllEven(dev, i)
      requires w >= 0 ==> dev != 0 && Behind(h0, d0, dev, w) && (answers.Worst() ==> StillBehind(h0, d0, i, w))
      modifies this`heads, this`disk, this`view, this`now
      ensures Valid() && view == old(view) && AllKept(old(heads), heads)
      ensures forall h | 0 <= h < i + 1 && heads[h].key.dev == dev :: !heads[h].dirt
      ensures even ==> AllEven(dev, i + 1)
      ensures w >= 0 && answers.Worst() ==> StillBehind(h0, d0, i + 1, w)
    {
      ghost var h1, d1 := heads, disk;
      if heads[i].key.dev == dev {
        SyncOne(i, dev);
        forall h | 0 <= h < i + 1 && heads[h].key.dev == dev ensures !heads[h].dirt {
          assert h != i ==> Untouched(h1, heads, h);
        }
        var next := i + 1;
        forall h ensures even ==> Even(dev, next, h) {
          if even {
            assert old(Even(dev, i, h)) && (h != i ==> Untouched(h1, heads, h));
            EvenStep(h1, d1, dev, i, h);
          }
        }
        if w >= 0 && answers.Worst() {
          assert Indexed(heads, at, i) && Indexed(heads, at, w) && Kept(h1, heads, w);
          assert i == w ==> old(Behind(heads, disk, dev, i));
        }
      } else {
        var next := i + 1;
        forall h ensures even ==> Even(dev, next, h) { assert even ==> Even(dev, i, h); }
        forall h ensures Kept(h1, heads, h) { }
      }
    }

    /** sync_dev leaves no dirty buffer of the device, and what its blocks show is on the disk but for buffers whose
        write is still in flight. Whatever the disk's answers, the device is in sync afterwards if no buffer of it was
        behind before; and if one was, the worst answers leave it out of sync. */
    method SyncDev(dev: nat)
      requires Valid()
      modifies this`heads, this`disk, this`view, this`now
      ensures Valid() && view == old(view) && AllKept(old(heads), heads)
      ensures forall h | 0 <= h < |heads| && heads[h].key.dev == dev :: !heads[h].dirt
      ensures forall k: Key | k.dev == dev && dev != 0 && view[k] != disk[k] ::
              k in at && at[k] < |heads|
              && heads[at[k]].lock
      ensures dev != 0 && (forall h :: !old(Behind(heads, disk, dev, h))) ==> InSync(dev)
      ensures dev != 0 && answers.Worst() ==> (InSync(dev) <==> forall h :: !old(Behind(heads, disk, dev, h)))
    {
      ghost var h0, d0 := heads, disk;
      ghost var even := dev != 0 && forall h :: !Behind(h0, d0, dev, h);
      ghost var w: int := -1;
      if dev != 0 && !even { w :| Behind(h0, d0, dev, w); }
      forall h ensures even ==> Even(dev, 0, h) {
        if even && 0 <= h < |heads| { assert !Behind(h0, d0, dev, h) && BufOk(heads[h], view, disk); }
      }
      for i := 0 to |heads|
        invariant Valid() && view == old(view) && AllKept(h0, heads)
        invariant forall h | 0 <= h < i && heads[h].key.dev == dev :: !heads[h].dirt
        invariant even ==> AllEven(dev, i)
        invariant w >= 0 && answers.Worst() ==> StillBehind(h0, d0, i, w)
      {
        ghost var h1 := heads;
        SyncTurn(h0, d0, dev, i, even, w);
        forall h ensures Kept(h0, heads, h) { assert Kept(h0, h1, h) && Kept(h1, heads, h); }
      }
      forall k: Key | k.dev == dev && dev != 0
        ensures view[k] != disk[k] ==> k in at && at[k] < |heads| && heads[at[k]].lock
        ensures even ==> view[k] == disk[k]
      {
        assert Uncached(at, view, disk, k) && Names(heads, at, k);
        if k in at { assert BufOk(heads[at[k]], view, disk) && (even ==> Even(dev, |heads|, at[k])); }
      }
      if w >= 0 { assert h0[w].key.dev == dev; }
    }

    /** A second sync_dev waits for what the first has submitted, so after it the device is in sync. */
    method SyncTwice(dev: nat)
      requires Valid() && dev != 0
      modifies this`heads, this`disk, this`view, this`now
      ensures Valid() && view == old(view) && AllKept(old(heads), heads) && InSync(dev)
    {
      SyncDev(dev);
      ghost var h1 := heads;
      SyncDev(dev);
      forall h ensures Kept(old(heads), heads, h) { assert Kept(old(heads), h1, h) && Kept(h1, heads, h); }
    }

    // ---------------------------------------------------------------- finding a head for a new key

    /** The walk round the free ring for the head to reuse; -1 when every head is held. */
    method Victim() returns (bh: int)
      requires Valid()
      ensures bh == -1 ==> forall h | 0 <= h < |heads| :: heads[h].count != 0
      ensures bh != -1 ==> 0 <= bh < |heads| && IsVictim(heads, links.ring, bh)
    {
      bh := -1;
      var tmp := links.freeList;
      ghost var i, p := 0, 0;
      assert RingAt(links.nextFree, links.prevFree, links.ring, 0);
      while true
        invariant 0 <= i < links.n && tmp == links.ring[i] < links.n
        invariant bh == -1 ==> forall j | 0 <= j < i :: links.ring[j] < links.n && heads[links.ring[j]].count != 0
        invariant bh != -1 ==> 0 <= p < i && bh == links.ring[p] && BestOf(heads, links.ring, i, p)
        decreases links.n - i
      {
        ghost var m := i + 1;
        if heads[tmp].count == 0 && (bh == -1 || heads[tmp].Badness() < heads[bh].Badness()) {
          forall j ensures Beats(heads, links.ring, m, i, j) { assert bh != -1 ==> Beats(heads, links.ring, i, p, j); }
          bh, p := tmp, i;
          if heads[tmp].Badness() == 0 {
            forall j ensures Beats(heads, links.ring, links.n, i, j) { assert Beats(heads, links.ring, m, i, j); }
            assert BestOf(heads, links.ring, links.n, p);
            return;
          }
        } else if bh != -1 {
          forall j ensures Beats(heads, links.ring, m, p, j) { assert Beats(heads, links.ring, i, p, j); }
        }
        assert RingAt(links.nextFree, links.prevFree, links.ring, i);
        tmp := links.nextFree[tmp];
        i := i + 1;
        if i < links.n {
          DistinctAt(links.ring, i, 0);
          assert RingAt(links.nextFree, links.prevFree, links.ring, i);
        }
        if tmp == links.freeList { break; }
      }
      forall h | 0 <= h < |heads| && bh == -1 ensures heads[h].count != 0 { assert Member(links.ring, links.n, h); }
      assert bh != -1 ==> BestOf(heads, links.ring, links.n, p);
    }

    /** Takes over head `r`, unheld, clean and idle, for key `k`. */
    method Rekey(r: nat, k: Key)
      requires Valid() && r < |heads| && heads[r].count == 0 && !heads[r].dirt && !heads[r].lock
      requires k !in at && k.dev != 0
      modifies this`heads, this`at, links
      ensures Valid() && heads == old(heads)[r := old(heads[r]).(key := k, uptodate := false, count := 1)]
      ensures at == (old(at) - {old(heads[r].key)})[k := r]
      ensures r in old(links.ring) && links.ring == Without(old(links.ring), Position(old(links.ring), r)) + [r]
    {
      var b := heads[r];
      assert Homed(heads, links.home, r);
      ghost var home := links.home;
      CoherentRekey(heads, at, view, disk, r, k);
      links.RemoveFromQueues(r, Bucket(b.key));
      ghost var heads' := heads[r := b.(key := k, uptodate := false, count := 1)];
      links.InsertIntoQueues(r, Bucket(k));
      forall i ensures Homed(heads', links.home, i) { assert Homed(heads, home, i); }
      heads := heads[r := b.(key := k, uptodate := false, count := 1)];
      at := (at - {b.key})[k := r];
    }

    /** new_buff: waits for the victim, writes it back if it is dirty, and re-keys it. */
    method NewBuff(k: Key) returns (r: int)
      requires Valid() && k.dev != 0
      modifies this`heads, this`disk, this`view, this`now, this`at, links
      ensures Valid() && view == old(view)
      ensures r == -1 ==> at == old(at) && AllKept(old(heads), heads) && links.ring == old(links.ring)
      ensures r == -1 ==> k in at || forall h | 0 <= h < |heads| :: old(heads)[h].count != 0
      ensures r != -1 ==>
                && 0 <= r < |heads| == |old(heads)| && k !in old(at) && IsVictim(old(heads), old(links.ring), r)
                && at == (old(at) - {old(heads)[r].key})[k := r]
                && heads[r] == Buf(k, false, false, 1, false, heads[r].data)
                && (forall h | 0 <= h < |heads| && h != r :: Kept(old(heads), heads, h))
                && r in old(links.ring) && links.ring == Without(old(links.ring), Position(old(links.ring), r)) + [r]
    {
      r := Victim();
      if r == -1 { return; }
      ghost var h0 := heads;
      var lost := CleanVictim(r);
      if lost { return -1; }
      var other := FindBuff(k);
      if other != -1 { return -1; }
      ghost var h1 := heads;
      assert Kept(h0, h1, r);
      Rekey(r, k);
      forall h | 0 <= h < |heads| && h != r ensures Kept(h0, heads, h) { assert Kept(h0, h1, h); }
    }

    /** Waits for the victim and writes it back until it is clean; nobody can take hold of it meanwhile. */
    method CleanVictim(r: nat) returns (lost: bool)
      requires Valid() && r < |heads| && heads[r].count == 0
      modifies this`heads, this`disk, this`view, this`now
      ensures Valid() && view == old(view) && AllKept(old(heads), heads)
      ensures !lost && !heads[r].lock && !heads[r].dirt && heads[r].count == 0
    {
      ghost var h0 := heads;
      WaitOn(r);
      SettledKeeps(h0, h0, heads);
      assert Kept(h0, heads, r);
      if heads[r].count != 0 { return true; }
      while heads[r].dirt
        invariant Valid() && view == old(view) && AllKept(h0, heads) && !heads[r].lock && heads[r].count == 0
        decreases if heads[r].dirt then 1 else 0
        modifies this`heads, this`disk, this`view, this`now
      {
        WriteBack(r, h0);
        assert Kept(h0, heads, r);
        if heads[r].count != 0 { return true; }
      }
      lost := false;
    }

    /** One turn of the loop that cleans a dirty victim. */
    method WriteBack(r: nat, ghost h0: seq<Buf>)
      requires Valid() && r < |heads| && AllKept(h0, heads)
      modifies this`heads, this`disk, this`view, this`now
      ensures Valid() && view == old(view) && AllKept(h0, heads) && !heads[r].lock && !heads[r].dirt
    {
      ghost var h1 := heads;
      SyncDev(heads[r].key.dev);
      assert Kept(h1, heads, r);
      forall h ensures Kept(h0, heads, h) { assert Kept(h0, h1, h) && Kept(h1, heads, h); }
      ghost var h2 := heads;
      WaitOn(r);
      SettledKeeps(h0, h2, heads);
      assert Answered(h2, heads, r);
    }

    // ---------------------------------------------------------------- holding and releasing

    /** retain_buff: one more holder for a cached block, or -1. */
    method RetainBuff(k: Key) returns (r: int)
      requires Valid() && k.dev != 0 && CountOf(heads, at, k) < 255
      modifies this`heads, this`disk, this`view, this`now
      ensures Valid() && view == old(view)
      ensures if k in at then r == at[k] else r == -1 && heads == old(heads)
      ensures r != -1 ==>
              r < |heads| && heads[r].key == k && !heads[r].lock
              && OnlyCount(old(heads), at, heads, at, k, 1)
    {
      r := FindBuff(k);
      if r != -1 {
        assert Names(heads, at, k);
        ghost var h0 := heads;
        WaitOn(r);
        ghost var h1 := heads;
        SettledKeeps(h0, h0, h1);
        assert Answered(h0, h1, r) && BufOk(h1[r], view, disk);
        SetHead(r, heads[r].(count := heads[r].count + 1), view[k], disk[k]);
        forall h ensures h == r || Kept(h0, heads, h) { assert Kept(h0, h1, h); }
        KeptCounts(h0, at, heads, r, k, 1);
      }
    }

    /** get_buff: a held head for `k`, found or made. Callers may ask for a new one only while some head is unheld:
        otherwise the source waits for ever. */
    method GetBuff(k: Key) returns (r: nat)
      requires Valid() && k.dev != 0 && CountOf(heads, at, k) < 255
      requires k in at || exists h :: 0 <= h < |heads| && heads[h].count == 0
      modifies this`heads, this`disk, this`view, this`now, this`at, links
      ensures Valid() && view == old(view)
      ensures r < |heads| && heads[r].key == k && !heads[r].lock
      ensures OnlyCount(old(heads), old(at), heads, at, k, 1)
      ensures k !in old(at) ==> IsVictim(old(heads), old(links.ring), r)
      ensures k in old(at) ==> r == old(at)[k] && at == old(at)
    {
      var bh := RetainBuff(k);
      if bh == -1 {
        ghost var h0, at0 := heads, at;
        assert view == old(view) && h0 == old(heads) && at0 == old(at);
        bh := NewBuff(k);
        assert exists h :: 0 <= h < |h0| && h0[h].count == 0;
        assert bh != -1;
        RekeyCounts(h0, at0, heads, at, bh, k);
      }
      r := bh;
    }

    /** put_buff; releasing a buffer that nobody holds is a panic. */
    method PutBuff(b: int)
      requires Valid() && b < |heads| && (b >= 0 ==> heads[b].count > 0 && heads[b].key.dev != 0)
      modifies this`heads, this`disk, this`view, this`now
      ensures Valid() && view == old(view)
      ensures b < 0 ==> heads == old(heads)
      ensures b >= 0 && !old(heads[b]).lock ==> disk == old(disk)
      ensures b >= 0 ==> OnlyCount(old(heads), at, heads, at, old(heads[b]).key, -1)
    {
      if b < 0 { return; }
      var k := heads[b].key;
      ghost var h0 := heads;
      WaitOn(b);
      ghost var h1 := heads;
      SettledKeeps(h0, h0, h1);
      assert Answered(h0, h1, b) && BufOk(h1[b], view, disk) && Indexed(h0, at, b);
      SetHead(b, heads[b].(count := heads[b].count - 1), view[k], disk[k]);
      assert disk == old(disk)[k := old(disk)[k]] || h0[b].lock;
      forall h ensures h == b || Kept(h0, heads, h) { assert Kept(h0, h1, h); }
      assert forall x :: Names(h0, at, x);
      KeptCounts(h0, at, heads, b, k, -1);
    }

    /** The read and the wait inside read_buff. */
    method Fetch(r: nat)
      requires Valid() && r < |heads| && !heads[r].lock && !heads[r].uptodate
      modifies this`heads, this`disk, this`view, this`now
      ensures Valid() && view == old(view) && AllKept(old(heads), heads)
      ensures !heads[r].lock && (heads[r].uptodate <==> HasDriver(heads[r].key.dev))
    {
      ghost var h0 := heads;
      LlRwBlock(READ, r);
      ghost var h1 := heads;
      if HasDriver(h0[r].key.dev) {
        assert BufOk(h0[r], view, old(disk));
        SubmitKeeps(h0, h0, r);
        ghost var h := h0[r := h0[r].(lock := true, dirt := false)];
        SettledKeeps(h0, h, h1);
        assert Answered(h, h1, r);
      } else {
        SettledKeeps(h0, h0, h1);
        assert Answered(h0, h1, r);
      }
      WaitOn(r);
      SettledKeeps(h0, h1, heads);
      assert Answered(h1, heads, r);
    }

    /** read_buff returns a held buffer with exactly what the block shows; only a missing driver makes it fail. */
    method ReadBuff(k: Key) returns (r: int)
      requires Valid() && k.dev != 0 && CountOf(heads, at, k) < 255
      requires k in at || exists h :: 0 <= h < |heads| && heads[h].count == 0
      modifies this`heads, this`disk, this`view, this`now, this`at, links
      ensures Valid() && view == old(view)
      ensures r == -1 ==> !HasDriver(k.dev) && OnlyCount(old(heads), old(at), heads, at, k, 0)
      ensures r != -1 ==> 0 <= r < |heads| && heads[r].key == k && heads[r].uptodate && heads[r].data == view[k]
                          && OnlyCount(old(heads), old(at), heads, at, k, 1)
    {
      r := GetBuff(k);
      assert BufOk(heads[r], view, disk) && Indexed(heads, at, r);
      if heads[r].uptodate { return; }
      ghost var h1 := heads;
      Fetch(r);
      OnlyCountKept(old(heads), old(at), h1, heads, at, k, 1);
      assert Kept(h1, heads, r) && BufOk(heads[r], view, disk);
      if !heads[r].uptodate {
        ghost var h2 := heads;
        PutBuff(r);
        OnlyCountThen(old(heads), old(at), h2, heads, at, k, 1, -1);
        r := -1;
      }
    }

    /** A holder replaces the bytes of its block and marks it dirty; create_block also makes it valid this way. */
    method Store(b: nat, data: Block)
      requires Valid() && b < |heads| && heads[b].count > 0 && HasDriver(heads[b].key.dev)
      requires heads[b].lock ==> heads[b].uptodate
      modifies this`heads, this`disk, this`view
      ensures Valid() && view == old(view)[old(heads[b]).key := data] && disk == old(disk)
      ensures heads == old(heads)[b := old(heads[b]).(data := data, uptodate := true, dirt := true)]
    {
      var h := heads[b];
      assert BufOk(h, view, disk);
      SetHead(b, h.(data := data, uptodate := true, dirt := true), data, disk[h.key]);
      assert disk == old(disk);
    }

    /** invalidate_buff: an unheld buffer of the block loses its contents, so the block shows what the disk has.
        A held one is left alone, and keeps a reference that nobody will release. */
    method InvalidateBuff(k: Key)
      requires Valid() && k.dev != 0 && CountOf(heads, at, k) < 255
      modifies this`heads, this`disk, this`view, this`now
      ensures Valid()
      ensures old(CountOf(heads, at, k)) == 0 ==>
              OnlyCount(old(heads), at, heads, at, k, 0)
              && view == old(view)[k := disk[k]]
      ensures old(CountOf(heads, at, k)) > 0 ==> OnlyCount(old(heads), at, heads, at, k, 1) && view == old(view)
    {
      var b := RetainBuff(k);
      if b == -1 {
        assert Uncached(at, view, disk, k);
        assert view[k := disk[k]] == view;
        forall x: Key | x != k ensures SameCount(old(heads), at, heads, at, x) { }
        forall h ensures HeldKept(old(heads), heads, k, h) { }
        return;
      }
      assert Indexed(heads, at, b) && BufOk(heads[b], view, disk);
      if heads[b].count != 1 { return; }
      ghost var h1 := heads;
      SetHead(b, heads[b].(uptodate := false, dirt := false), disk[k], disk[k]);
      ghost var h2, v2 := heads, view;
      assert v2 == old(view)[k := disk[k]];
      forall h ensures h == b || Kept(h1, h2, h) { }
      assert forall x :: Names(h1, at, x);
      KeptCounts(h1, at, h2, b, k, 0);
      OnlyCountThen(old(heads), at, h1, h2, at, k, 1, 0);
      assert disk == disk[k := disk[k]];
      PutBuff(b);
      OnlyCountThen(old(heads), at, h2, heads, at, k, 1, -1);
      assert BufOk(heads[b], view, disk);
    }
  }

  /** A run in which sync_dev returns before the disk has the block that was changed. */
  method UnsyncedRun(disk: Store, k: Key) returns (c: BufferCache)
    requires Total(disk) && HasDriver(k.dev)
    ensures fresh(c) && c.Valid() && !c.InSync(k.dev)
  {
    c := new BufferCache(1, disk, WorstAnswers());
    assert c.heads[0].count == 0;
    var r := c.ReadBuff(k);
    assert Indexed(c.heads, c.at, r);
    c.Store(r, Other(c.disk[k]));
    assert c.Behind(c.heads, c.disk, k.dev, r);
    c.SyncDev(k.dev);
  }
}
