/** The two link structures of blk/buffer.c: the circular free ring that holds every buffer head,
    and the hash chains. Heads are numbered by their place in the array at `start_buffer`; -1 is NULL. */
module Queues {
  import opened Lists

  const NR_HASH: nat := 307

  function Without(q: seq<nat>, p: nat): (r: seq<nat>)
    requires p < |q|
    ensures |r| == |q| - 1 && forall i | 0 <= i < |r| :: r[i] == if i < p then q[i] else q[i+1]
  {
    q[..p] + q[p+1..]
  }

  lemma WithoutMembers(q: seq<nat>, p: nat, x: nat)
    requires p < |q| && Distinct(q)
    ensures x in Without(q, p) <==> x in q && x != q[p]
  {
    var r := Without(q, p);
    if i :| 0 <= i < |q| && q[i] == x && i != p { assert r[if i < p then i else i - 1] == x; }
    if i :| 0 <= i < |r| && r[i] == x { assert !Equal(q, if i < p then i else p, if i < p then p else i + 1); }
  }

  lemma WithoutDistinct(q: seq<nat>, p: nat)
    requires p < |q| && Distinct(q)
    ensures Distinct(Without(q, p))
  {
    forall i, j ensures !Equal(Without(q, p), i, j) {
      assert !Equal(q, if i < p then i else i + 1, if j < p then j else j + 1);
    }
  }

  // ------------------------------------------------------------------ the free ring

  function Succ(i: nat, n: nat): nat { if i + 1 == n then 0 else i + 1 }

  ghost predicate RingAt(nf: seq<int>, pf: seq<int>, ring: seq<nat>, i: int) {
    0 <= i < |ring| ==>
      && ring[i] < |nf| && ring[i] < |pf|
      && nf[ring[i]] == ring[Succ(i, |ring|)]
      && ring[Succ(i, |ring|)] < |pf| && pf[ring[Succ(i, |ring|)]] == ring[i]
  }

  /** Forward and backward links go round `ring`, which starts at the free-list head. */
  ghost predicate RingOk(nf: seq<int>, pf: seq<int>, first: int, ring: seq<nat>) {
    ring != [] && first == ring[0] && Distinct(ring) && forall i :: RingAt(nf, pf, ring, i)
  }

  /** The ring while `bh` is out of it; a ring of one is left pointing at itself. */
  ghost predicate RingOut(nf: seq<int>, pf: seq<int>, first: int, ring: seq<nat>, bh: nat) {
    && bh !in ring && bh < |nf| == |pf|
    && if ring == [] then first == bh && nf[bh] == bh && pf[bh] == bh else RingOk(nf, pf, first, ring)
  }

  lemma RingUnlink(nf: seq<int>, pf: seq<int>, first: int, ring: seq<nat>, p: nat)
    requires RingOk(nf, pf, first, ring) && |nf| == |pf| && p < |ring|
    ensures ring[p] < |nf|
    ensures var bh := ring[p];
            && 0 <= nf[bh] < |nf| && 0 <= pf[bh] < |nf|
            && var nf' := nf[pf[bh] := nf[bh]];
               var pf' := pf[nf[bh] := pf[bh]];
               RingOut(nf', pf', if first == bh then nf'[bh] else first, Without(ring, p), bh)
  {
    var n := |ring|;
    var bh := ring[p];
    var before := if p == 0 then n - 1 else p - 1;
    assert RingAt(nf, pf, ring, p) && RingAt(nf, pf, ring, before);
    assert nf[bh] == ring[Succ(p, n)] && pf[bh] == ring[before];
    var nf', pf', ring' := nf[pf[bh] := nf[bh]], pf[nf[bh] := pf[bh]], Without(ring, p);
    WithoutDistinct(ring, p);
    WithoutMembers(ring, p, bh);
    if n > 1 {
      forall i ensures RingAt(nf', pf', ring', i) {
        if 0 <= i < |ring'| { RingUnlinkAt(nf, pf, first, ring, p, i); }
      }
      if p != 0 { DistinctAt(ring, 0, p); }
    }
  }

  lemma RingUnlinkAt(nf: seq<int>, pf: seq<int>, first: int, ring: seq<nat>, p: nat, i: nat)
    requires RingOk(nf, pf, first, ring) && |nf| == |pf| && p < |ring| && i < |ring| - 1
    requires ring[p] < |nf| && 0 <= nf[ring[p]] < |nf| && 0 <= pf[ring[p]] < |nf|
    ensures RingAt(nf[pf[ring[p]] := nf[ring[p]]], pf[nf[ring[p]] := pf[ring[p]]], Without(ring, p), i)
  {
    var n := |ring|;
    var before := if p == 0 then n - 1 else p - 1;
    assert RingAt(nf, pf, ring, p) && RingAt(nf, pf, ring, before);
    var j := if i < p then i else i + 1;                // where that element was
    assert RingAt(nf, pf, ring, j);
    if j != before { DistinctAt(ring, j, before); }
    if Succ(j, n) != Succ(p, n) { DistinctAt(ring, Succ(j, n), Succ(p, n)); }
  }

  lemma RingAppend(nf: seq<int>, pf: seq<int>, first: int, ring: seq<nat>, bh: nat)
    requires RingOut(nf, pf, first, ring, bh)
    ensures 0 <= first < |nf| && 0 <= pf[first] < |nf|
    ensures var pf1 := pf[bh := pf[first]];
            var nf1 := nf[bh := first];
            0 <= pf1[first] < |nf| && RingOk(nf1[pf1[first] := bh], pf1[first := bh], first, ring + [bh])
  {
    if ring == [] {
      forall i ensures RingAt(nf, pf, [bh], i) { }
      assert nf[bh := bh] == nf && pf[bh := bh] == pf;
      assert forall i, j :: !Equal([bh], i, j);
    } else {
      var n := |ring|;
      assert RingAt(nf, pf, ring, n - 1);
      assert first < |nf|;
      var pf1, nf1 := pf[bh := pf[first]], nf[bh := first];
      var nf', pf', ring' := nf1[pf1[first] := bh], pf1[first := bh], ring + [bh];
      forall i, j ensures !Equal(ring', i, j) { assert !Equal(ring, i, j); }
      forall i ensures RingAt(nf', pf', ring', i) {
        assert RingAt(nf, pf, ring, i);
        if 0 <= i < n - 1 {
          DistinctAt(ring, i, n - 1);
          DistinctAt(ring, i + 1, 0);
        }
      }
    }
  }

  // ------------------------------------------------------------------ the hash chains

  ghost predicate ChainAt(next: seq<int>, prev: seq<int>, c: seq<nat>, i: int) {
    0 <= i < |c| ==>
      && c[i] < |next| && c[i] < |prev|
      && next[c[i]] == (if i + 1 < |c| then c[i+1] else -1)
      && prev[c[i]] == (if i > 0 then c[i-1] else -1)
  }

  ghost predicate ChainOk(next: seq<int>, prev: seq<int>, first: int, c: seq<nat>) {
    first == (if c == [] then -1 else c[0]) && Distinct(c) && forall i :: ChainAt(next, prev, c, i)
  }

  /** A change of links outside a chain does not touch it. */
  lemma ChainFrame(next: seq<int>, prev: seq<int>, first: int, c: seq<nat>, next': seq<int>, prev': seq<int>)
    requires ChainOk(next, prev, first, c) && |next'| == |next| && |prev'| == |prev|
    requires forall x | x in c && x < |next| :: next'[x] == next[x]
    requires forall x | x in c && x < |prev| :: prev'[x] == prev[x]
    ensures ChainOk(next', prev', first, c)
  {
    forall i ensures ChainAt(next', prev', c, i) { assert ChainAt(next, prev, c, i); }
  }

  function Skip(links: seq<int>, at: int, to: int): (r: seq<int>)
    ensures |r| == |links|
  {
    if 0 <= at < |links| then links[at := to] else links
  }

  lemma ChainUnlink(next: seq<int>, prev: seq<int>, first: int, c: seq<nat>, p: nat)
    requires ChainOk(next, prev, first, c) && |next| == |prev| && p < |c|
    ensures c[p] < |next|
    ensures var bh := c[p];
            ChainOk(Skip(next, prev[bh], next[bh]), Skip(prev, next[bh], prev[bh]),
                if first == bh then next[bh] else first, Without(c, p))
  {
    var bh := c[p];
    assert ChainAt(next, prev, c, p);
    assert ChainAt(next, prev, c, p - 1) && ChainAt(next, prev, c, p + 1);
    WithoutDistinct(c, p);
    if p > 0 { DistinctAt(c, 0, p); }
    var next', prev' := Skip(next, prev[bh], next[bh]), Skip(prev, next[bh], prev[bh]);
    forall i ensures ChainAt(next', prev', Without(c, p), i) {
      if 0 <= i < |c| - 1 {
        var j := if i < p then i else i + 1;
        assert ChainAt(next, prev, c, j);
        if p > 0 && j != p - 1 { DistinctAt(c, j, p - 1); }
        if p + 1 < |c| && j != p + 1 { DistinctAt(c, j, p + 1); }
      }
    }
  }

  lemma ChainPush(next: seq<int>, prev: seq<int>, first: int, c: seq<nat>, bh: nat)
    requires ChainOk(next, prev, first, c) && |next| == |prev| && bh < |next| && bh !in c
    ensures ChainOk(next[bh := first], Skip(prev[bh := -1], first, bh), bh, [bh] + c)
  {
    var next', prev', c' := next[bh := first], Skip(prev[bh := -1], first, bh), [bh] + c;
    assert ChainAt(next, prev, c, 0);
    forall i, j ensures !Equal(c', i, j) { assert !Equal(c, i - 1, j - 1); }
    forall i ensures ChainAt(next', prev', c', i) {
      assert ChainAt(next, prev, c, i - 1);
      if 1 < i < |c'| { DistinctAt(c, i - 1, 0); }
    }
  }

  // ------------------------------------------------------------------ all the chains

  /** A head is in the chain of its own bucket and in no other, and outside the chains it has no links. */
  ghost predicate AtHome(next: seq<int>, prev: seq<int>, chains: seq<seq<nat>>, home: seq<int>, h: int) {
    0 <= h < |home| && |next| == |prev| == |home| ==>
      && -1 <= home[h] < |chains|
      && (home[h] == -1 ==> next[h] == -1 && prev[h] == -1)
      && forall k | 0 <= k < |chains| :: h in chains[k] <==> home[h] == k
  }

  /** Every chain is well linked and every head except possibly `out` is at home. */
  ghost predicate ChainsOk(next: seq<int>, prev: seq<int>, hash: seq<int>, chains: seq<seq<nat>>, home: seq<int>,
                           out: int) {
    && |next| == |prev| == |home| && |hash| == |chains|
    && (forall k | 0 <= k < |chains| :: ChainOk(next, prev, hash[k], chains[k]))
    && (forall h :: h != out ==> AtHome(next, prev, chains, home, h))
    && (0 <= out ==> forall k | 0 <= k < |chains| :: out !in chains[k])
  }

  /** The hash half of remove_from_queues; `k` is the bucket of the head's key, whether or not it is chained there. */
  lemma UnchainKeeps(next: seq<int>, prev: seq<int>, hash: seq<int>, chains: seq<seq<nat>>, home: seq<int>, bh: nat,
                     k: nat)
    returns (chains': seq<seq<nat>>)
    requires ChainsOk(next, prev, hash, chains, home, -1) && bh < |home| && k < |chains|
             && (home[bh] == -1 || home[bh] == k)
    ensures |chains'| == |chains| && ChainsOk(Skip(next, prev[bh], next[bh]), Skip(prev, next[bh], prev[bh]),
              if hash[k] == bh then hash[k := next[bh]] else hash, chains', home, bh)
  {
    assert AtHome(next, prev, chains, home, bh);
    chains' := chains;
    var c := chains[k];
    var next', prev' := Skip(next, prev[bh], next[bh]), Skip(prev, next[bh], prev[bh]);
    if home[bh] == k {
      var p := Position(c, bh);
      chains' := chains[k := Without(c, p)];
      ChainUnlink(next, prev, hash[k], c, p);
      assert ChainAt(next, prev, c, p);
      assert prev[bh] != -1 ==> prev[bh] in c by { if p > 0 { assert c[p-1] in c; } }
      assert next[bh] != -1 ==> next[bh] in c by { if p + 1 < |c| { assert c[p+1] in c; } }
      forall j | 0 <= j < |chains| && j != k ensures ChainOk(next', prev', hash[j], chains[j]) {
        forall x | x in chains[j] && x < |next| ensures x !in c { assert AtHome(next, prev, chains, home, x); }
        ChainFrame(next, prev, hash[j], chains[j], next', prev');
      }
      forall h ensures h != bh ==> AtHome(next', prev', chains', home, h) {
        assert AtHome(next, prev, chains, home, h);
        if h >= 0 { WithoutMembers(c, p, h); }
      }
      forall j | 0 <= j < |chains'| ensures bh !in chains'[j] { WithoutMembers(c, p, bh); }
    } else {
      assert hash[k] != bh by { if c != [] { assert c[0] in c; } }
    }
  }

  /** The hash half of insert_into_queues. */
  lemma ChainInKeeps(next: seq<int>, prev: seq<int>, hash: seq<int>, chains: seq<seq<nat>>, home: seq<int>, bh: nat,
                     k: int)
    returns (chains': seq<seq<nat>>)
    requires ChainsOk(next, prev, hash, chains, home, bh) && bh < |home| && -1 <= k < |chains|
    ensures |chains'| == |chains|
    ensures if k == -1 then ChainsOk(next[bh := -1], prev[bh := -1], hash, chains', home[bh := k], -1)
            else ChainsOk(next[bh := hash[k]], Skip(prev[bh := -1], hash[k], bh), hash[k := bh], chains', home[bh := k],
                -1)
  {
    chains' := chains;
    var first := if k == -1 then -1 else hash[k];
    var next', prev' := next[bh := first], Skip(prev[bh := -1], first, bh);
    if k != -1 {
      var c := chains[k];
      chains' := chains[k := [bh] + c];
      ChainPush(next, prev, first, c, bh);
      assert first != -1 ==> first == c[0] && c[0] in c;
    }
    forall j | 0 <= j < |chains| && j != k ensures ChainOk(next', prev', hash[j], chains[j]) {
      forall x | x in chains[j] && x < |next| ensures x != bh && x != first {
        assert AtHome(next, prev, chains, home, x);
      }
      ChainFrame(next, prev, hash[j], chains[j], next', prev');
    }
    var home' := home[bh := k];
    forall h ensures AtHome(next', prev', chains', home', h) {
      assert h == bh || AtHome(next, prev, chains, home, h);
      assert 0 <= h && k != -1 && first == h ==> h in chains[k];
    }
  }

  // ------------------------------------------------------------------ both together

  ghost function Position(q: seq<nat>, x: nat): (p: nat)
    requires x in q
    ensures p < |q| && q[p] == x
  {
    var p :| 0 <= p < |q| && q[p] == x;
    p
  }

  ghost predicate Member(ring: seq<nat>, n: nat, h: int) {
    0 <= h < n <==> h in ring
  }

  class Links {
    const n: nat
    var nextFree: seq<int>
    var prevFree: seq<int>
    var next: seq<int>
    var prev: seq<int>
    var hash: seq<int>
    var freeList: int
    /** The free ring from its head, the chain of each bucket, and each head's bucket or -1. */
    ghost var ring: seq<nat>
    ghost var chains: seq<seq<nat>>
    ghost var home: seq<int>

    ghost predicate Valid()
      reads this
    {
      && |nextFree| == |prevFree| == n > 0
      && RingOk(nextFree, prevFree, freeList, ring) && |ring| == n
      && (forall h :: Member(ring, n, h))
      && |home| == n && |chains| == NR_HASH
      && ChainsOk(next, prev, hash, chains, home, -1)
    }

    /** Between removal and insertion: `bh` is in neither structure. */
    ghost predicate Out(bh: nat)
      reads this
    {
      && |nextFree| == |prevFree| == n > 0
      && RingOut(nextFree, prevFree, freeList, ring, bh) && |ring| == n - 1
      && (forall h :: h == bh || Member(ring, n, h))
      && |home| == n && |chains| == NR_HASH
      && ChainsOk(next, prev, hash, chains, home, bh)
    }

    /** init_buff: the heads linked in array order, first and last joined, every chain empty. */
    constructor (n: nat)
      requires n > 0
      ensures Valid() && this.n == n && ring == seq(n, i requires 0 <= i < n => i) && home == seq(n, _ => -1)
    {
      this.n := n;
      nextFree, prevFree := seq(n, i => i + 1), seq(n, i => i - 1);
      next, prev := seq(n, _ => -1), seq(n, _ => -1);
      hash := seq(NR_HASH, _ => -1);
      freeList := 0;
      ring, chains, home := seq(n, i requires 0 <= i < n => i), seq(NR_HASH, _ => []), seq(n, _ => -1);
      new;
      prevFree := prevFree[freeList := n - 1];
      nextFree := nextFree[n - 1 := freeList];
      forall h: int ensures Member(ring, n, h) { if 0 <= h < n { assert ring[h] == h; } }
    }

    /** remove_from_queues, first from the hash chain, then from the free ring. */
    method RemoveFromQueues(bh: nat, k: nat)
      requires Valid() && bh < n && k < NR_HASH && (home[bh] == -1 || home[bh] == k)
      modifies this
      ensures Out(bh) && home == old(home)
      ensures bh in old(ring) && ring == Without(old(ring), Position(old(ring), bh))
    {
      Unchain(bh, k);
      Unring(bh);
    }

    method Unchain(bh: nat, k: nat)
      requires |home| == n && |chains| == NR_HASH && ChainsOk(next, prev, hash, chains, home, -1)
      requires bh < n && k < NR_HASH && (home[bh] == -1 || home[bh] == k)
      modifies this`next, this`prev, this`hash, this`chains
      ensures |chains| == NR_HASH && ChainsOk(next, prev, hash, chains, home, bh)
    {
      chains := UnchainKeeps(next, prev, hash, chains, home, bh, k);
      var nx, pv := next[bh], prev[bh];
      if nx != -1 { prev := Skip(prev, nx, pv); }
      if pv != -1 { next := Skip(next, pv, nx); }
      if hash[k] == bh { hash := hash[k := nx]; }
    }

    method Unring(bh: nat)
      requires |nextFree| == |prevFree| == n > 0 && bh < n
      requires RingOk(nextFree, prevFree, freeList, ring) && |ring| == n && forall h :: Member(ring, n, h)
      modifies this`nextFree, this`prevFree, this`freeList, this`ring
      ensures |nextFree| == |prevFree| == n && RingOut(nextFree, prevFree, freeList, ring, bh)
      ensures bh in old(ring) && ring == Without(old(ring), Position(old(ring), bh))
      ensures forall h :: h == bh || Member(ring, n, h)
    {
      assert Member(ring, n, bh);
      ghost var p := Position(ring, bh);
      RingUnlink(nextFree, prevFree, freeList, ring, p);
      nextFree := nextFree[prevFree[bh] := nextFree[bh]];
      prevFree := prevFree[nextFree[bh] := prevFree[bh]];
      if freeList == bh {
        freeList := nextFree[bh];
      }
      forall h ensures h == bh || Member(Without(ring, p), n, h) {
        assert Member(ring, n, h);
        if h >= 0 { WithoutMembers(ring, p, h); }
      }
      ring := Without(ring, p);
    }

    /** insert_into_queues: at the end of the ring, and in front of its chain if it has a device (`k` >= 0). */
    method InsertIntoQueues(bh: nat, k: int)
      requires Out(bh) && -1 <= k < NR_HASH
      modifies this
      ensures Valid() && ring == old(ring) + [bh] && home == old(home)[bh := k]
    {
      Enring(bh);
      Enchain(bh, k);
    }

    method Enring(bh: nat)
      requires |nextFree| == |prevFree| == n && bh < n && |ring| == n - 1
               && RingOut(nextFree, prevFree, freeList, ring, bh)
      requires forall h :: h == bh || Member(ring, n, h)
      modifies this`nextFree, this`prevFree, this`ring
      ensures |nextFree| == |prevFree| == n && RingOk(nextFree, prevFree, freeList, ring)
      ensures ring == old(ring) + [bh] && forall h :: Member(ring, n, h)
    {
      RingAppend(nextFree, prevFree, freeList, ring, bh);
      nextFree := nextFree[bh := freeList];
      prevFree := prevFree[bh := prevFree[freeList]];
      nextFree := nextFree[prevFree[freeList] := bh];
      prevFree := prevFree[freeList := bh];
      forall h ensures Member(ring + [bh], n, h) {
        assert h == bh || Member(ring, n, h);
      }
      ring := ring + [bh];
    }

    /** The back link of the chain's old front is only written when there is one. */
    method Enchain(bh: nat, k: int)
      requires |home| == n && |chains| == NR_HASH && ChainsOk(next, prev, hash, chains, home, bh)
      requires bh < n && -1 <= k < NR_HASH
      modifies this`next, this`prev, this`hash, this`chains, this`home
      ensures home == old(home)[bh := k]
      ensures |chains| == NR_HASH && ChainsOk(next, prev, hash, chains, home, -1)
    {
      chains := ChainInKeeps(next, prev, hash, chains, home, bh, k);
      prev := prev[bh := -1];
      next := next[bh := -1];
      home := home[bh := k];
      if k != -1 {
        next := next[bh := hash[k]];
        assert next == old(next)[bh := hash[k]];
        hash := hash[k := bh];
        if next[bh] != -1 { prev := Skip(prev, next[bh], bh); }
      }
    }
  }
}
