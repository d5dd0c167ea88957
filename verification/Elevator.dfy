/** Request ordering: the IN_ORDER comparison and the elevator insertion of
    blk/blk_main.c, on the sequence of keys that the linked list carries. */
module Elevator {
  import opened Devices

  datatype Key = Key(cmd: int, dev: int, sector: int)

  predicate InOrder(a: Key, b: Key) {
    || a.cmd < b.cmd
    || (a.cmd == b.cmd && (a.dev < b.dev || (a.dev == b.dev && a.sector < b.sector)))
  }

  /** What the order is: reads before writes, then by device, then by sector. */
  lemma OrderMeans(a: Key, b: Key)
    ensures a.cmd == 0 && b.cmd == 1 ==> InOrder(a, b) && !InOrder(b, a)
    ensures a.cmd == b.cmd && a.dev < b.dev ==> InOrder(a, b) && !InOrder(b, a)
    ensures a.cmd == b.cmd && a.dev == b.dev ==> (InOrder(a, b) <==> a.sector < b.sector)
  {
  }

  /** It is a strict total order. */
  lemma OrderTotal(a: Key, b: Key, c: Key)
    ensures !(InOrder(a, b) && InOrder(b, a)) && (a == b || InOrder(a, b) || InOrder(b, a))
    ensures InOrder(a, b) && InOrder(b, c) ==> InOrder(a, c)
  {
  }

  /** The loop's exit test at position `i`: the new key goes between `q[i]` and `q[i+1]`. */
  predicate FitsAfter(q: seq<Key>, k: Key, i: nat)
    requires i + 1 < |q|
  {
    (InOrder(q[i], k) || !InOrder(q[i], q[i+1])) && InOrder(k, q[i+1])
  }

  /** `p` is where the scan stops: the first position that fits, or the last one. */
  ghost predicate StopsAt(q: seq<Key>, k: Key, p: nat) {
    && p < |q|
    && (forall i: nat | i < p :: !FitsAfter(q, k, i))
    && (p + 1 < |q| ==> FitsAfter(q, k, p))
  }

  function Insert<T>(q: seq<T>, x: T, p: nat): (r: seq<T>)
    requires p < |q|
    ensures |r| == |q| + 1 && r[p+1] == x
    ensures forall i | 0 <= i <= p :: r[i] == q[i]
    ensures forall i | p + 1 < i < |r| :: r[i] == q[i-1]
  {
    q[..p+1] + [x] + q[p+1..]
  }

  /** A descent is a neighbouring pair that is not in order: the sweep of the arm starts over there. */
  ghost predicate DescentAt(q: seq<Key>, i: nat) {
    i + 1 < |q| && !InOrder(q[i], q[i+1])
  }

  ghost predicate OneDescent(q: seq<Key>) {
    forall i: nat, j: nat | DescentAt(q, i) && DescentAt(q, j) :: i == j
  }

  ghost predicate Ascending(q: seq<Key>) {
    forall i: nat :: !DescentAt(q, i)
  }

  /** When the scan runs to the end past a descent, every key behind that descent is below a new distinct key. */
  lemma {:induction false} TailBelow(q: seq<Key>, k: Key, p: nat, d: nat, j: nat)
    requires StopsAt(q, k, p) && p + 1 == |q| && k !in q
    requires DescentAt(q, d) && d < j < |q|
    ensures InOrder(q[j], k)
  {
    assert !FitsAfter(q, k, j - 1);
    assert q[j] != k;
    if j > d + 1 {
      TailBelow(q, k, p, d, j - 1);
    }
  }

  /** Where the descents of the extended queue lie. */
  lemma InsertDescents(q: seq<Key>, k: Key, p: nat, i: nat)
    requires p < |q|
    ensures i < p ==> (DescentAt(Insert(q, k, p), i) <==> DescentAt(q, i))
    ensures i == p ==> (DescentAt(Insert(q, k, p), i) <==> !InOrder(q[p], k))
    ensures i == p + 1 ==> (DescentAt(Insert(q, k, p), i) <==> p + 1 < |q| && !InOrder(k, q[p+1]))
    ensures i > p + 1 ==> (DescentAt(Insert(q, k, p), i) <==> DescentAt(q, i - 1))
  {
  }

  /** The elevator keeps at most one descent, except in one case that a caller can see beforehand:
      the scan reaches the end of a queue that already descends and the last key is not below the new one. */
  lemma InsertKeepsOneDescent(q: seq<Key>, k: Key, p: nat)
    requires OneDescent(q) && StopsAt(q, k, p)
    ensures OneDescent(Insert(q, k, p)) <==> (p + 1 < |q| || InOrder(q[p], k) || Ascending(q))
  {
    var r := Insert(q, k, p);
    forall i: nat, j: nat | DescentAt(r, i) && DescentAt(r, j) && (p + 1 < |q| || InOrder(q[p], k) || Ascending(q))
      ensures i == j
    {
      InsertDescents(q, k, p, i);
      InsertDescents(q, k, p, j);
      assert p + 1 < |q| && !InOrder(q[p], k) ==> DescentAt(q, p);
      assert DescentAt(q, if i <= p then i else i - 1) || Ascending(q) || i == p;
      assert DescentAt(q, if j <= p then j else j - 1) || Ascending(q) || j == p;
    }
    if p + 1 == |q| && !InOrder(q[p], k) && !Ascending(q) {
      var d: nat :| DescentAt(q, d);
      InsertDescents(q, k, p, d);
      InsertDescents(q, k, p, p);
      assert DescentAt(r, d) && DescentAt(r, p);
    }
  }

  /** The exception needs a queued request with the same key: distinct keys always keep one descent. */
  lemma DistinctInsertKeepsOneDescent(q: seq<Key>, k: Key, p: nat)
    requires OneDescent(q) && StopsAt(q, k, p) && k !in q
    ensures OneDescent(Insert(q, k, p))
  {
    if p + 1 == |q| && !Ascending(q) {
      var d: nat :| DescentAt(q, d);
      TailBelow(q, k, p, d, p);
    }
    InsertKeepsOneDescent(q, k, p);
  }

  /** In an ascending queue, a key behind the head goes to its sorted place: reads of a device in front of its writes,
      and each sweep by ascending sector. */
  lemma {:induction false} AscendingInsert(q: seq<Key>, k: Key, p: nat)
    requires Ascending(q) && StopsAt(q, k, p) && InOrder(q[0], k) && k !in q
    ensures Ascending(Insert(q, k, p))
    ensures forall i | 0 <= i <= p :: InOrder(q[i], k)
    ensures forall i | p < i < |q| :: InOrder(k, q[i])
  {
    forall i: nat | i <= p ensures InOrder(q[i], k) { BelowUntilStop(q, k, p, i); }
    forall i: nat | p < i < |q| ensures InOrder(k, q[i]) { AboveAfterStop(q, k, p, i); }
    forall i: nat ensures !DescentAt(Insert(q, k, p), i) {
      InsertDescents(q, k, p, i);
      assert !DescentAt(q, i) && !DescentAt(q, if i > 0 then i - 1 else 0);
    }
  }

  lemma {:induction false} BelowUntilStop(q: seq<Key>, k: Key, p: nat, i: nat)
    requires Ascending(q) && StopsAt(q, k, p) && InOrder(q[0], k) && k !in q && i <= p
    ensures InOrder(q[i], k)
  {
    if i > 0 {
      BelowUntilStop(q, k, p, i - 1);
      assert !FitsAfter(q, k, i - 1);
      OrderTotal(q[i], k, k);
    }
  }

  lemma {:induction false} AboveAfterStop(q: seq<Key>, k: Key, p: nat, i: nat)
    requires Ascending(q) && StopsAt(q, k, p) && p < i < |q|
    ensures InOrder(k, q[i])
  {
    if i > p + 1 {
      AboveAfterStop(q, k, p, i - 1);
      assert !DescentAt(q, i - 1);
      OrderTotal(k, q[i - 1], q[i]);
    }
  }

  /** The exception is real: a second request with an equal key can make a second descent. */
  lemma EqualKeysBreakOneDescent(q: seq<Key>, k: Key)
    requires q == [Key(READ, 0x301, 4), Key(READ, 0x301, 8), Key(READ, 0x301, 4)] && k == q[0]
    ensures OneDescent(q) && StopsAt(q, k, 2) && !OneDescent(Insert(q, k, 2))
  {
    assert DescentAt(q, 1);
    InsertKeepsOneDescent(q, k, 2);
  }

  /** A head that has moved on by one sector compares as before with every other even-sector request. */
  lemma HeadAdvance(a: Key, b: Key)
    requires a.sector % 2 == 0 && b.sector % 2 == 0 && a != b
    ensures InOrder(a.(sector := a.sector + 1), b) <==> InOrder(a, b)
    ensures InOrder(b, a.(sector := a.sector + 1)) <==> InOrder(b, a)
  {
  }

  /** Hence advancing the head in service changes neither the descents nor where a later request goes. */
  lemma HeadAdvanceKeepsOrder(q: seq<Key>)
    requires 0 < |q| && forall i | 0 <= i < |q| :: q[i].sector % 2 == 0
    requires forall i | 0 < i < |q| :: q[i] != q[0]
    ensures var r := q[0 := q[0].(sector := q[0].sector + 1)];
            && (OneDescent(r) <==> OneDescent(q))
            && forall k: Key, p: nat | k.sector % 2 == 0 && k != q[0] :: StopsAt(r, k, p) <==> StopsAt(q, k, p)
  {
    var r := q[0 := q[0].(sector := q[0].sector + 1)];
    forall i: nat ensures DescentAt(r, i) <==> DescentAt(q, i) {
      if 1 < |q| { HeadAdvance(q[0], q[1]); }
    }
    forall k: Key, p: nat | k.sector % 2 == 0 && k != q[0] ensures StopsAt(r, k, p) <==> StopsAt(q, k, p) {
      forall i: nat | i + 1 < |q| ensures FitsAfter(r, k, i) <==> FitsAfter(q, k, i) {
        HeadAdvance(q[0], k);
        HeadAdvance(q[0], q[1]);
      }
    }
  }
}
