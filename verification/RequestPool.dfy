/** The request pool of blk/blk_main.c: a fixed table of slots threaded into one elevator-ordered list. */
module RequestPool {
  import opened Lists
  import opened Devices
  import opened Elevator

  const NR_REQUEST: nat := 32
  /** Writes may only use the first two thirds of the slots. */
  const WRITE_SLOTS: nat := NR_REQUEST * 2 / 3

  /** `dev` is -1 in a free slot; `buffer` is the offset of the transfer inside the block of `bh`. */
  datatype Request = Request(dev: int, cmd: int, errors: nat, sector: nat, nrSectors: nat, buffer: nat, bh: nat) {
    function Order(): Key { Key(cmd, dev, sector) }
  }

  ghost function Keys(q: seq<Request>): (r: seq<Key>)
    ensures |r| == |q| && forall i | 0 <= i < |q| :: r[i] == q[i].Order()
  {
    seq(|q|, i requires 0 <= i < |q| => q[i].Order())
  }

  ghost predicate LinkAt(next: seq<int>, order: seq<nat>, i: int) {
    0 <= i < |order| ==> order[i] < |next| && next[order[i]] == if i + 1 < |order| then order[i+1] else -1
  }

  /** Following `next` from `first` visits the slots of `order` and then ends. */
  ghost predicate Linked(next: seq<int>, order: seq<nat>, first: int) {
    first == (if order == [] then -1 else order[0]) && forall i :: LinkAt(next, order, i)
  }

  lemma LinkedInsert(next: seq<int>, order: seq<nat>, first: int, p: nat, s: nat)
    requires Linked(next, order, first) && Distinct(order) && p < |order| && s < |next| && s !in order
    ensures order[p] < |next| && Linked(next[s := next[order[p]]][order[p] := s], Insert(order, s, p), first)
    ensures Distinct(Insert(order, s, p))
  {
    assert LinkAt(next, order, p);
    var next', order' := next[s := next[order[p]]][order[p] := s], Insert(order, s, p);
    forall i ensures LinkAt(next', order', i) {
      assert LinkAt(next, order, if i <= p then i else i - 1);
      assert !Equal(order, i, p) && !Equal(order, p, i - 1);
    }
    forall i, j ensures !Equal(order', i, j) {
      assert !Equal(order, if i <= p then i else i - 1, if j <= p then j else j - 1);
      assert 0 <= i < |order'| && i != p + 1 ==> order'[i] in order;
      assert 0 <= j < |order'| && j != p + 1 ==> order'[j] in order;
    }
  }

  lemma InsertMembers(q: seq<nat>, x: nat, p: nat, y: nat)
    requires p < |q|
    ensures y in Insert(q, x, p) <==> y == x || y in q
  {
    var r := Insert(q, x, p);
    if y in q {
      var i :| 0 <= i < |q| && q[i] == y;
      assert r[if i <= p then i else i + 1] == y;
    }
    assert r[p+1] == x;
  }

  ghost predicate Filled(slots: seq<Request>, order: seq<nat>, q: seq<Request>, i: int) {
    0 <= i < |q| == |order| ==> order[i] < |slots| && q[i] == slots[order[i]]
  }

  /** The busy slots are the listed ones, and those of the last third hold no write. */
  ghost predicate Busy(slots: seq<Request>, order: seq<nat>, s: int) {
    0 <= s < |slots| ==>
      (s in order <==> slots[s].dev >= 0)
      && (s >= WRITE_SLOTS && slots[s].dev >= 0 ==> slots[s].cmd != WRITE)
  }

  class Pool {
    var slots: seq<Request>
    var next: seq<int>
    var current: int
    /** The busy slots in list order, and the requests in them. */
    ghost var order: seq<nat>
    ghost var q: seq<Request>

    ghost predicate Valid()
      reads this
    {
      && |slots| == |next| == NR_REQUEST && |q| == |order|
      && Linked(next, order, current) && Distinct(order)
      && (forall i :: Filled(slots, order, q, i))
      && (forall s :: Busy(slots, order, s))
    }

    /** init_request_queue */
    constructor ()
      ensures Valid() && q == []
    {
      slots := seq(NR_REQUEST, _ => Request(-1, 0, 0, 0, 0, 0, 0));
      next := seq(NR_REQUEST, _ => -1);
      current, order, q := -1, [], [];
    }

    lemma EmptyIffNull()
      requires Valid()
      ensures current == -1 <==> q == []
      ensures q != [] ==>
              0 <= current < NR_REQUEST && slots[current] == q[0] && slots[current].dev >= 0
              && order[0] == current
    {
      if q != [] {
        assert LinkAt(next, order, 0) && Filled(slots, order, q, 0) && Busy(slots, order, order[0]);
      }
    }

    /** A busy slot is somewhere in the list. */
    lemma BusyIsQueued(s: nat)
      requires Valid() && s < NR_REQUEST && slots[s].dev >= 0
      ensures q != []
    {
      assert Busy(slots, order, s);
    }

    /** The downward search for a free slot; -1 when every slot open to this command is busy. */
    method FindSlot(cmd: int) returns (s: int)
      requires Valid()
      ensures var top := if cmd == 0 then 32 else 21;
              -1 <= s < top && (forall t | s < t < top :: slots[t].dev >= 0)
      ensures s >= 0 ==> slots[s].dev < 0
    {
      var top := if cmd == READ then NR_REQUEST else WRITE_SLOTS;
      s := top - 1;
      while s >= 0
        invariant -1 <= s < top
        invariant forall t | s < t < top :: slots[t].dev >= 0
      {
        if slots[s].dev < 0 { return; }
        s := s - 1;
      }
    }

    /** The elevator scan: from the head, the first request after which key `k` fits. */
    method Scan(k: Key) returns (tmp: nat, ghost p: nat)
      requires Valid() && q != []
      ensures StopsAt(Keys(q), k, p) && tmp == order[p]
    {
      EmptyIffNull();
      tmp, p := current, 0;
      assert LinkAt(next, order, 0);
      while next[tmp] != -1
        invariant p < |order| && tmp == order[p] < |next| && LinkAt(next, order, p)
        invariant forall i: nat | i < p :: !FitsAfter(Keys(q), k, i)
        decreases |order| - p
      {
        assert LinkAt(next, order, p) && LinkAt(next, order, p + 1) && Filled(slots, order, q, p)
               && Filled(slots, order, q, p + 1);
        var after := slots[next[tmp]].Order();
        if (InOrder(slots[tmp].Order(), k) || !InOrder(slots[tmp].Order(), after)) && InOrder(k, after) {
          assert FitsAfter(Keys(q), k, p);
          return;
        }
        tmp, p := next[tmp], p + 1;
      }
    }

    /** Puts a filled slot on the list: alone when the drive is stopped, else by the elevator,
        never in front of the request being served. */
    method Add(s: nat, r: Request) returns (ghost p: nat)
      requires Valid() && s < NR_REQUEST && slots[s].dev < 0 <= r.dev
      requires s >= WRITE_SLOTS ==> r.cmd != WRITE
      modifies this
      ensures Valid()
      ensures slots == old(slots)[s := r]
      ensures old(q) == [] ==> q == [r]
      ensures old(q) != [] ==> StopsAt(Keys(old(q)), r.Order(), p) && q == Insert(old(q), r, p)
    {
      EmptyIffNull();
      p := 0;
      ghost var order0, slots0, q0 := order, slots, q;
      assert Busy(slots, order, s);
      if current == -1 {
        slots, next, current := slots[s := r], next[s := -1], s;
        order, q := [s], [r];
        assert s in order;
      } else {
        var tmp;
        tmp, p := Scan(r.Order());
        LinkedInsert(next, order, current, p, s);
        slots := slots[s := r];
        next := next[s := next[tmp]];
        next := next[tmp := s];
        order, q := Insert(order, s, p), Insert(q, r, p);
      }
      forall i ensures Filled(slots, order, q, i) {
        assert order0 == [] || Filled(slots0, order0, q0, if i <= p then i else i - 1);
        assert 0 <= i < |order| && order[i] != s ==> order[i] in order0;
      }
      forall t ensures Busy(slots, order, t) {
        assert Busy(slots0, order0, t);
        if order0 != [] && t >= 0 { InsertMembers(order0, s, p, t); }
      }
    }

    /** Frees the head's slot and moves on. */
    method Pop()
      requires Valid() && q != []
      modifies this
      ensures Valid() && q == old(q)[1..]
    {
      EmptyIffNull();
      ghost var order0, slots0, q0 := order, slots, q;
      assert LinkAt(next, order, 0);
      forall i ensures LinkAt(next, order[1..], i) { assert LinkAt(next, order, i + 1); }
      forall i, j ensures !Equal(order[1..], i, j) { assert !Equal(order, i + 1, j + 1); }
      slots := slots[current := slots[current].(dev := -1)];
      current := next[current];
      order, q := order[1..], q[1..];
      forall i ensures Filled(slots, order, q, i) {
        assert Filled(slots0, order0, q0, i + 1) && !Equal(order0, 0, i + 1);
      }
      forall t ensures Busy(slots, order, t) {
        assert Busy(slots0, order0, t);
        assert t in order0 <==> t == order0[0] || t in order;
        if i :| 0 <= i < |order| && order[i] == t { assert !Equal(order0, 0, i + 1); }
      }
    }

    /** Updates the progress fields of the head in place. */
    method SetHead(r: Request)
      requires Valid() && q != [] && r.dev >= 0 && r.cmd == q[0].cmd
      modifies this
      ensures Valid() && q == old(q)[0 := r]
    {
      EmptyIffNull();
      ghost var slots0, q0 := slots, q;
      slots := slots[current := r];
      q := q[0 := r];
      forall i ensures Filled(slots, order, q, i) { assert Filled(slots0, order, q0, i) && !Equal(order, 0, i); }
      forall t ensures Busy(slots, order, t) { assert Busy(slots0, order, t); }
    }
  }
}
