/** The zones that a file reaches, collected in the order in which truncate walks over them. */
module Reach {
  import opened Bytes
  import opened ZoneTree

  /** The entries of an index block, up to entry `k`. */
  ghost function Entries(b: Block, k: nat): set<nat>
    requires k <= PER_BLOCK
  {
    if k == 0 then {}
    else if Word(b, k - 1) == 0 then Entries(b, k - 1)
    else Entries(b, k - 1) + {Word(b, k - 1)}
  }

  lemma {:induction false} EntriesMembers(b: Block, k: nat, z: nat)
    requires k <= PER_BLOCK
    ensures z in Entries(b, k) <==> z != 0 && exists i | 0 <= i < k :: Word(b, i) == z
  {
    if k > 0 { EntriesMembers(b, k - 1, z); }
  }

  /** An index block and what it lists. */
  ghost function Indirect(blocks: Blocks, m: nat): set<nat>
    requires Total(blocks)
  {
    if m == 0 then {} else Entries(blocks[m], PER_BLOCK) + {m}
  }

  /** The first `k` entries of a double indirect block, each with what lies behind it. */
  ghost function Groups(blocks: Blocks, b: Block, k: nat): set<nat>
    requires Total(blocks) && k <= PER_BLOCK
  {
    if k == 0 then {} else Groups(blocks, b, k - 1) + Indirect(blocks, Word(b, k - 1))
  }

  ghost predicate InGroup(blocks: Blocks, b: Block, i: int, z: nat)
    requires Total(blocks)
  {
    0 <= i < PER_BLOCK && z in Indirect(blocks, Word(b, i))
  }

  lemma {:induction false} GroupsMembers(blocks: Blocks, b: Block, k: nat, z: nat)
    requires Total(blocks) && k <= PER_BLOCK
    ensures z in Groups(blocks, b, k) <==> exists i | 0 <= i < k :: InGroup(blocks, b, i, z)
  {
    if k > 0 {
      GroupsMembers(blocks, b, k - 1, z);
      var here := InGroup(blocks, b, k - 1, z);
      assert z in Groups(blocks, b, k) <==> z in Groups(blocks, b, k - 1) || here;
    }
  }

  ghost function DoubleIndirect(blocks: Blocks, m: nat): set<nat>
    requires Total(blocks)
  {
    if m == 0 then {} else Groups(blocks, blocks[m], PER_BLOCK) + {m}
  }

  ghost function Directs(zones: seq<nat>, k: nat): set<nat>
    requires k <= |zones|
  {
    if k == 0 then {} else Directs(zones, k - 1) + (if zones[k-1] != 0 then {zones[k-1]} else {})
  }

  lemma {:induction false} DirectsMembers(zones: seq<nat>, k: nat, z: nat)
    requires k <= |zones|
    ensures z in Directs(zones, k) <==> z != 0 && z in zones[..k]
  {
    if k > 0 {
      DirectsMembers(zones, k - 1, z);
      assert zones[..k] == zones[..k-1] + [zones[k-1]];
    }
  }

  ghost function Reachable(zones: seq<nat>, blocks: Blocks): set<nat>
    requires |zones| == 9 && Total(blocks)
  {
    Directs(zones, DIRECT) + Indirect(blocks, zones[7]) + DoubleIndirect(blocks, zones[8])
  }

  ghost predicate ReachedAt(zones: seq<nat>, blocks: Blocks, z: nat, s: Slot)
    requires |zones| == 9 && Total(blocks)
  {
    s.Exists() && z == ZoneAt(zones, blocks, s) != 0
  }

  /** It is exactly the set of zones held at the file's places. */
  lemma ReachableIsHeld(zones: seq<nat>, blocks: Blocks, z: nat)
    requires |zones| == 9 && Total(blocks)
    ensures z in Reachable(zones, blocks) <==> exists s: Slot :: ReachedAt(zones, blocks, z, s)
  {
    if z in Reachable(zones, blocks) {
      var part := if z in Directs(zones, DIRECT) then 0 else if z in Indirect(blocks, zones[7]) then 1 else 2;
      var s := PartSlot(zones, blocks, part, z);
      assert ReachedAt(zones, blocks, z, s);
    }
    if s: Slot :| ReachedAt(zones, blocks, z, s) {
      HeldIsReachable(zones, blocks, z, s);
    }
  }

  lemma HeldIsReachable(zones: seq<nat>, blocks: Blocks, z: nat, s: Slot)
    requires |zones| == 9 && Total(blocks) && ReachedAt(zones, blocks, z, s)
    ensures z in Reachable(zones, blocks)
  {
    match s
    case Direct(i) =>
      DirectsMembers(zones, DIRECT, z);
      assert zones[..DIRECT][i] == z;
    case SingleEntry(i) =>
      EntriesMembers(blocks[zones[7]], PER_BLOCK, z);
    case DoubleEntry(i) =>
      GroupsMembers(blocks, blocks[zones[8]], PER_BLOCK, z);
      assert InGroup(blocks, blocks[zones[8]], i, z);
    case DoubleLeaf(i, j) =>
      EntriesMembers(blocks[Word(blocks[zones[8]], i)], PER_BLOCK, z);
      GroupsMembers(blocks, blocks[zones[8]], PER_BLOCK, z);
      assert InGroup(blocks, blocks[zones[8]], i, z);
    case _ =>
  }

  /** The place of a zone that is behind entry `i` of the double indirect block. */
  lemma GroupSlot(zones: seq<nat>, blocks: Blocks, i: nat, z: nat) returns (s: Slot)
    requires |zones| == 9 && Total(blocks) && zones[8] != 0 && InGroup(blocks, blocks[zones[8]], i, z)
    ensures s.Exists() && (s == DoubleEntry(i) || (s.DoubleLeaf? && s.i == i)) && ZoneAt(zones, blocks, s) == z != 0
  {
    var m := Word(blocks[zones[8]], i);
    if z == m {
      s := DoubleEntry(i);
    } else {
      EntriesMembers(blocks[m], PER_BLOCK, z);
      var j :| 0 <= j < PER_BLOCK && Word(blocks[m], j) == z;
      s := DoubleLeaf(i, j);
    }
  }

  /** The three parts of the walk. */
  ghost function Part(zones: seq<nat>, blocks: Blocks, part: nat): set<nat>
    requires |zones| == 9 && Total(blocks)
  {
    if part == 0 then Directs(zones, DIRECT)
    else if part == 1 then Indirect(blocks, zones[7])
    else DoubleIndirect(blocks, zones[8])
  }

  /** The place of a zone in one of the three parts of the walk. */
  lemma PartSlot(zones: seq<nat>, blocks: Blocks, part: nat, z: nat) returns (s: Slot)
    requires |zones| == 9 && Total(blocks)
    requires z in Part(zones, blocks, part)
    ensures s.Exists() && ZoneAt(zones, blocks, s) == z != 0
    ensures if part == 0 then s.Direct?
            else if part == 1 then s.Single? || s.SingleEntry?
            else s.Double? || s.DoubleEntry? || s.DoubleLeaf?
  {
    if part == 0 {
      DirectsMembers(zones, DIRECT, z);
      var i :| 0 <= i < DIRECT && zones[i] == z;
      s := Direct(i);
    } else if part == 1 {
      if z == zones[7] { s := Single; } else {
        EntriesMembers(blocks[zones[7]], PER_BLOCK, z);
        var i :| 0 <= i < PER_BLOCK && Word(blocks[zones[7]], i) == z;
        s := SingleEntry(i);
      }
    } else if z == zones[8] {
      s := Double;
    } else {
      GroupsMembers(blocks, blocks[zones[8]], PER_BLOCK, z);
      var i :| 0 <= i < PER_BLOCK && InGroup(blocks, blocks[zones[8]], i, z);
      s := GroupSlot(zones, blocks, i, z);
    }
  }

  // ------------------------------------------------------------------ every zone once

  ghost predicate EntryOnce(b: Block, m: nat, i: nat) {
    i < PER_BLOCK && Word(b, i) != 0 ==> Word(b, i) !in Entries(b, i) && Word(b, i) != m
  }

  ghost predicate OnceInIndirect(blocks: Blocks, m: nat)
    requires Total(blocks)
  {
    m != 0 ==> forall i :: EntryOnce(blocks[m], m, i)
  }

  ghost predicate GroupOnce(blocks: Blocks, b: Block, m: nat, i: nat)
    requires Total(blocks)
  {
    i < PER_BLOCK ==>
      && OnceInIndirect(blocks, Word(b, i))
      && Indirect(blocks, Word(b, i)) !! Groups(blocks, b, i)
      && m !in Indirect(blocks, Word(b, i))
  }

  ghost predicate OnceInDouble(blocks: Blocks, m: nat)
    requires Total(blocks)
  {
    m != 0 ==> forall i :: GroupOnce(blocks, blocks[m], m, i)
  }

  lemma Apart(inodes: map<nat, Inode>, blocks: Blocks, n: nat, s: Slot, t: Slot)
    requires Shaped(inodes) && Total(blocks) && Disjoint(inodes, blocks) && n in inodes
    requires s.Exists() && t.Exists() && s != t
    ensures var zones := inodes[n].zones; ZoneAt(zones, blocks, s) != 0 ==>
            ZoneAt(zones, blocks, s) != ZoneAt(zones, blocks, t)
  {
    assert !Shares(inodes, blocks, Loc(n, s), Loc(n, t));
  }

  lemma SingleOnce(inodes: map<nat, Inode>, blocks: Blocks, n: nat)
    requires Shaped(inodes) && Total(blocks) && Disjoint(inodes, blocks) && n in inodes
    ensures OnceInIndirect(blocks, inodes[n].zones[7])
  {
    var m := inodes[n].zones[7];
    if m != 0 {
      forall i: nat ensures EntryOnce(blocks[m], m, i) {
        if i < PER_BLOCK {
          Apart(inodes, blocks, n, SingleEntry(i), Single);
          EntriesMembers(blocks[m], i, Word(blocks[m], i));
          forall j: nat | j < i && Word(blocks[m], i) != 0 ensures Word(blocks[m], j) != Word(blocks[m], i) {
            Apart(inodes, blocks, n, SingleEntry(i), SingleEntry(j));
          }
        }
      }
    }
  }

  lemma GroupIsOnce(inodes: map<nat, Inode>, blocks: Blocks, n: nat, i: nat)
    requires Shaped(inodes) && Total(blocks) && Disjoint(inodes, blocks) && n in inodes
    requires inodes[n].zones[8] != 0 && i < PER_BLOCK
    ensures var m := inodes[n].zones[8]; GroupOnce(blocks, blocks[m], m, i)
  {
    var m := inodes[n].zones[8];
    var b, w := blocks[m], Word(blocks[m], i);
    if w != 0 {
      forall j: nat ensures EntryOnce(blocks[w], w, j) {
        if j < PER_BLOCK {
          Apart(inodes, blocks, n, DoubleLeaf(i, j), DoubleEntry(i));
          EntriesMembers(blocks[w], j, Word(blocks[w], j));
          forall k: nat | k < j && Word(blocks[w], j) != 0 ensures Word(blocks[w], k) != Word(blocks[w], j) {
            Apart(inodes, blocks, n, DoubleLeaf(i, j), DoubleLeaf(i, k));
          }
        }
      }
    }
    forall z | z in Indirect(blocks, w) ensures z != m && z !in Groups(blocks, b, i) {
      var s := GroupSlot(inodes[n].zones, blocks, i, z);
      Apart(inodes, blocks, n, s, Double);
      GroupsMembers(blocks, b, i, z);
      if k :| 0 <= k < i && InGroup(blocks, b, k, z) {
        var t := GroupSlot(inodes[n].zones, blocks, k, z);
        Apart(inodes, blocks, n, s, t);
      }
    }
  }

  lemma PartsApart(inodes: map<nat, Inode>, blocks: Blocks, n: nat, p: nat, q: nat, z: nat)
    requires Shaped(inodes) && Total(blocks) && Disjoint(inodes, blocks) && n in inodes && p < q < 3
    requires z in Part(inodes[n].zones, blocks, p)
    ensures z !in Part(inodes[n].zones, blocks, q)
  {
    var zones := inodes[n].zones;
    if z in Part(zones, blocks, q) {
      var s := PartSlot(zones, blocks, p, z);
      var t := PartSlot(zones, blocks, q, z);
      Apart(inodes, blocks, n, s, t);
    }
  }

  ghost predicate OnceInDirects(zones: seq<nat>)
    requires |zones| == 9
  {
    forall i | 0 <= i < DIRECT && zones[i] != 0 :: zones[i] !in Directs(zones, i)
  }

  ghost predicate Walkable(zones: seq<nat>, blocks: Blocks)
    requires |zones| == 9 && Total(blocks)
  {
    && OnceInDirects(zones) && OnceInIndirect(blocks, zones[7]) && OnceInDouble(blocks, zones[8])
    && Directs(zones, DIRECT) !! Indirect(blocks, zones[7])
    && Directs(zones, DIRECT) + Indirect(blocks, zones[7]) !! DoubleIndirect(blocks, zones[8])
  }

  /** In a disjoint file system every zone of a file is met once on the walk. */
  lemma WalkOnce(inodes: map<nat, Inode>, blocks: Blocks, n: nat)
    requires Shaped(inodes) && Total(blocks) && Disjoint(inodes, blocks) && n in inodes
    ensures Walkable(inodes[n].zones, blocks)
  {
    var zones := inodes[n].zones;
    forall i | 0 <= i < DIRECT && zones[i] != 0 ensures zones[i] !in Directs(zones, i) {
      DirectsMembers(zones, i, zones[i]);
      forall j: nat | j < i ensures zones[j] != zones[i] { Apart(inodes, blocks, n, Direct(i), Direct(j)); }
    }
    SingleOnce(inodes, blocks, n);
    if zones[8] != 0 {
      forall i: nat ensures GroupOnce(blocks, blocks[zones[8]], zones[8], i) {
        if i < PER_BLOCK { GroupIsOnce(inodes, blocks, n, i); }
      }
    }
    forall z | z in Directs(zones, DIRECT) ensures z !in Indirect(blocks, zones[7])
      && z !in DoubleIndirect(blocks, zones[8]) {
      PartsApart(inodes, blocks, n, 0, 1, z);
      PartsApart(inodes, blocks, n, 0, 2, z);
    }
    forall z | z in Indirect(blocks, zones[7]) ensures z !in DoubleIndirect(blocks, zones[8]) {
      PartsApart(inodes, blocks, n, 1, 2, z);
    }
  }

  // ------------------------------------------------------------------ the sets depend on index blocks only

  lemma {:induction false} GroupsFrame(blocks: Blocks, blocks': Blocks, b: Block, k: nat)
    requires Total(blocks) && Total(blocks') && k <= PER_BLOCK
    requires forall x | x in Groups(blocks, b, k) :: blocks'[x] == blocks[x]
    ensures Groups(blocks', b, k) == Groups(blocks, b, k)
  {
    if k > 0 { GroupsFrame(blocks, blocks', b, k - 1); }
  }

  /** Blocks outside a double indirect tree may change without changing the tree. */
  lemma DoubleFrame(blocks: Blocks, blocks': Blocks, m: nat)
    requires Total(blocks) && Total(blocks') && forall x | x in DoubleIndirect(blocks, m) :: blocks'[x] == blocks[x]
    ensures DoubleIndirect(blocks', m) == DoubleIndirect(blocks, m)
    ensures OnceInDouble(blocks, m) ==> OnceInDouble(blocks', m)
  {
    if m != 0 {
      GroupsFrame(blocks, blocks', blocks[m], PER_BLOCK);
      if OnceInDouble(blocks, m) {
        forall i: nat ensures GroupOnce(blocks', blocks'[m], m, i) {
          assert GroupOnce(blocks, blocks[m], m, i);
          if i < PER_BLOCK {
            var w := Word(blocks[m], i);
            forall x | x in Indirect(blocks, w) || x in Groups(blocks, blocks[m], i) ensures blocks'[x] == blocks[x] {
              GroupsMembers(blocks, blocks[m], PER_BLOCK, x);
              GroupsMembers(blocks, blocks[m], i, x);
              assert x in Indirect(blocks, w) ==> InGroup(blocks, blocks[m], i, x);
            }
            GroupsFrame(blocks, blocks', blocks[m], i);
          }
        }
      }
    }
  }
}
