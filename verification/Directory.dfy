/** Directories of fs/inode.c: entries of 32 bytes, searched by name and filled first-free-first. */
module Directory {
  import opened Bytes
  import opened ZoneTree
  import opened Bitmaps
  import opened FileSystem

  const NAME_LEN: nat := 30
  const PER: nat := 32           // DIR_ENTRIES_PER_BLOCK

  // ------------------------------------------------------------------ entries

  function Ino(b: Block, k: nat): nat
    requires k < PER
  {
    Word(b, 16 * k)
  }

  function Name(b: Block, k: nat): (r: seq<byte>)
    requires k < PER
    ensures |r| == NAME_LEN
  {
    b[32 * k + 2..32 * k + 32]
  }

  function Pad(name: seq<byte>): (r: seq<byte>)
    ensures |r| == 30 && forall i | 0 <= i < 30 :: r[i] == if i < |name| then name[i] else 0
  {
    seq(NAME_LEN, i requires 0 <= i < NAME_LEN => if i < |name| then name[i] else 0)
  }

  /** The first 30 bytes. */
  function Clip(name: seq<byte>): (r: seq<byte>)
    ensures r <= name && |r| <= 30 && (|r| < 30 ==> r == name)
  {
    if |name| > NAME_LEN then name[..NAME_LEN] else name
  }

  /** `match`: as many bytes as the searched name has, and no more, are compared. */
  predicate Matches(name: seq<byte>, entry: seq<byte>) {
    |name| <= |entry| && entry[..|name|] == name
  }

  function PutEntry(b: Block, k: nat, ino: nat, name: seq<byte>): (r: Block)
    requires k < PER && ino < 0x1_0000 && |name| == NAME_LEN
    ensures Ino(r, k) == ino && Name(r, k) == name
    ensures forall j | 0 <= j < PER && j != k :: Ino(r, j) == Ino(b, j) && Name(r, j) == Name(b, j)
  {
    var c := SetWord(b, 16 * k, ino);
    var r: Block := c[..32 * k + 2] + name + c[32 * k + 32..];
    EntryFrame(b, c, r, k, name);
    r
  }

  lemma EntryFrame(b: Block, c: Block, r: Block, k: nat, name: seq<byte>)
    requires k < PER && |name| == NAME_LEN && r == c[..32 * k + 2] + name + c[32 * k + 32..]
    requires forall j | 0 <= j < 1024 && j / 2 != 16 * k :: c[j] == b[j]
    ensures Word(r, 16 * k) == Word(c, 16 * k) && Name(r, k) == name
    ensures forall j | 0 <= j < PER && j != k :: Ino(r, j) == Ino(b, j) && Name(r, j) == Name(b, j)
  {
    forall j | 0 <= j < PER && j != k ensures Ino(r, j) == Ino(b, j) && Name(r, j) == Name(b, j) {
      forall i | 32 * j <= i < 32 * j + 32 ensures r[i] == b[i] { }
    }
  }

  // ------------------------------------------------------------------ a directory as a list of entries

  /** The block that holds entry `e`. */
  ghost function Page(s: Image, n: nat, e: nat): Block
    requires s.Ok() && e / PER < MAX_BLOCKS
  {
    s.blocks[Lookup(s, n, e / PER)]
  }

  /** Entry `e`, as it lies in its block: 32 bytes, of which the first two are the inode's number, low byte first,
      and the others the name. */
  ghost function InoAt(s: Image, n: nat, e: nat): nat
    requires s.Ok() && e / PER < MAX_BLOCKS
  {
    var b, at := Page(s, n, e), 32 * (e % 32);
    (b[at] as int) + 0x100 * (b[at + 1] as int)
  }

  ghost function NameAt(s: Image, n: nat, e: nat): (r: seq<byte>)
    requires s.Ok() && e / PER < MAX_BLOCKS
    ensures |r| == 30
  {
    var at := 32 * (e % 32);
    Page(s, n, e)[at + 2..at + 32]
  }

  lemma EntryAt(s: Image, n: nat, e: nat)
    requires s.Ok() && e / PER < MAX_BLOCKS
    ensures InoAt(s, n, e) == Ino(Page(s, n, e), e % PER) && NameAt(s, n, e) == Name(Page(s, n, e), e % PER)
  {
  }

  /** The first `m` logical blocks are there. */
  ghost predicate Dense(s: Image, n: nat, m: nat)
    requires s.Ok()
  {
    m <= MAX_BLOCKS && forall b | 0 <= b < m :: Lookup(s, n, b) != 0
  }

  /** A directory without holes up to its size. */
  ghost predicate DirOk(s: Image, n: nat)
    requires s.Ok()
  {
    n in s.inodes && Dense(s, n, (s.inodes[n].size + 1023) / 1024)
  }

  ghost function Below(m: nat): (r: set<nat>)
    ensures |r| == m && forall z: nat :: z in r <==> z < m
  {
    if m == 0 then {} else Below(m - 1) + {m - 1}
  }

  lemma {:induction false} DenseCount(s: Image, n: nat, m: nat) returns (zs: set<nat>)
    requires s.Ok() && Disjoint(s.inodes, s.blocks) && Dense(s, n, m)
    ensures |zs| == m && forall z | z in zs :: exists b: nat | b < m :: z == Lookup(s, n, b)
  {
    if m == 0 {
      zs := {};
    } else {
      var rest := DenseCount(s, n, m - 1);
      var z := Lookup(s, n, m - 1);
      assert z !in rest by {
        forall b: nat | b < m - 1 ensures z != Lookup(s, n, b) {
          if SlotOf(b) == SlotOf(m - 1) { SlotOfInjective(b, m - 1); }
          assert !Shares(s.inodes, s.blocks, Loc(n, SlotOf(b)), Loc(n, SlotOf(m - 1)));
        }
      }
      zs := rest + {z};
    }
  }

  lemma SubsetSize(a: set<nat>, b: set<nat>)
    requires a <= b
    ensures |a| <= |b|
  {
    assert b == a + (b - a);
  }

  /** A file cannot have more blocks than the device has zones, so a walk over blocks that are all there
      never meets locate_by_inode's upper bound. */
  lemma DenseBound(fs: FileSystem, n: nat, m: nat)
    requires fs.Valid() && Dense(fs.Now(), n, m)
    ensures m <= fs.sb.nzones < MAX_BLOCKS
  {
    var zs := DenseCount(fs.Now(), n, m);
    forall z | z in zs ensures z in Below(fs.sb.nzones) {
      var b: nat :| b < m && z == Lookup(fs.Now(), n, b);
      assert Marked(fs.sb, fs.sb.zbits, fs.inodes, fs.blocks, Loc(n, SlotOf(b)));
    }
    SubsetSize(zs, Below(fs.sb.nzones));
  }

  // ------------------------------------------------------------------ lookup

  /** The name of entry `e` begins with the bytes of `name`. */
  ghost predicate MatchAt(s: Image, n: nat, name: seq<byte>, e: nat)
    requires s.Ok()
  {
    e / PER < MAX_BLOCKS && |name| <= 30 && NameAt(s, n, e)[..|name|] == name
  }

  /** The buffer of logical block `page` is held once more than in `r0`. */
  ghost predicate Holding(fs: FileSystem, r0: Refs, n: nat, page: nat, z: nat)
    reads fs, fs.sb
  {
    fs.Valid() && page < MAX_BLOCKS && z == Lookup(fs.Now(), n, page) != 0 && Counted(r0)
      && fs.refs == r0[z := r0[z] + 1]
  }

  /** The step to the next block; 0, with nothing held, when it is not there. */
  method TurnPage(fs: FileSystem, ghost r0: Refs, n: nat, page: nat, z: nat) returns (z': nat)
    requires Holding(fs, r0, n, page, z) && n in fs.inodes && page + 1 < MAX_BLOCKS
    modifies fs`inodes, fs`blocks, fs`refs, fs.sb`zbits, fs.sb`zmaps
    ensures fs.Now() == old(fs.Now()) && z' == Lookup(fs.Now(), n, page + 1)
    ensures if z' == 0 then fs.Valid() && fs.refs == r0 else Holding(fs, r0, n, page + 1, z')
  {
    fs.LetGo(z, Loc(n, SlotOf(page)));
    assert fs.refs == r0;
    ghost var got;
    z', got := fs.LocateByInode(n, page + 1, false);
    if z' != 0 {
      fs.Hold(z', Loc(n, SlotOf(page + 1)));
    }
  }

  /** What a lookup came to. `Fault`: it met a hole in the directory, skipped it, and went on to read an entry
      through the NULL buffer that this left. */
  datatype Outcome = Hit(ino: nat) | Miss | Fault

  /** The search passed entries 0 up to `at`, all in blocks that are there, none of which begins with `name`. */
  ghost predicate NoneBefore(s: Image, n: nat, name: seq<byte>, at: nat)
    requires s.Ok()
  {
    Dense(s, n, (at + PER - 1) / PER) && forall e: nat | e < at :: !MatchAt(s, n, name, e)
  }

  /** The result of searching `entries` entries: the first that begins with the name, whose inode number may be 0;
      or nothing, at the end or at a hole in the last block; or a fault, at a hole in any block before the last. */
  ghost predicate Found(s: Image, n: nat, name: seq<byte>, entries: nat, out: Outcome, at: nat)
    requires s.Ok()
  {
    if name == [] || Lookup(s, n, 0) == 0 then out == Miss
    else
      && at <= entries && NoneBefore(s, n, name, at)
      && match out
         case Hit(ino) => at < entries && Dense(s, n, at / PER + 1) && MatchAt(s, n, name, at) && ino == InoAt(s, n, at)
         case _ => (at == entries || HoleAt(s, n, at)) && (out.Fault? <==> at + PER < entries)
  }

  ghost predicate HoleAt(s: Image, n: nat, e: nat)
    requires s.Ok()
  {
    e % PER == 0 && e / PER < MAX_BLOCKS && Lookup(s, n, e / PER) == 0
  }

  /** A directory without holes never faults. */
  lemma DenseNeverFaults(s: Image, n: nat, name: seq<byte>, out: Outcome, at: nat)
    requires s.Ok() && DirOk(s, n) && Found(s, n, name, s.inodes[n].size / 32, out, at)
    ensures !out.Fault?
  {
    if s.inodes[n].size > 0 && Lookup(s, n, 0) != 0 && at + PER < s.inodes[n].size / 32 {
      assert at / PER < (s.inodes[n].size + 1023) / 1024;
    }
  }

  const ROOT_INO: nat := 1
  const DOTDOT: seq<byte> := [0x2E, 0x2E]

  /** Where a device is mounted, if it is: a directory of this or another device. */
  datatype MountPoint = Nowhere | On(fs: FileSystem, n: nat)

  /** ".." in the root of a mounted device is looked up in the directory it is mounted on. */
  predicate Crosses(n: nat, name: seq<byte>, mount: MountPoint) {
    name == [0x2E, 0x2E] && n == 1 && mount.On?
  }

  /** The file system of the mount point. */
  function Host(fs: FileSystem, mount: MountPoint): FileSystem {
    match mount
    case Nowhere => fs
    case On(up, _) => up
  }

  /** retain_inode_by_name. It leaves the file systems as they were. */
  method RetainInodeByName(fs: FileSystem, n: nat, fullName: seq<byte>, mount: MountPoint)
    returns (out: Outcome, ghost at: nat)
    requires fs.Valid() && n in fs.inodes
    requires mount.On? ==> mount.fs.Valid() && mount.n in mount.fs.inodes && (mount.fs == fs || mount.fs.sb != fs.sb)
    modifies fs`inodes, fs`blocks, fs`refs, fs.sb`zbits, fs.sb`zmaps
    modifies Host(fs, mount)`inodes, Host(fs, mount)`blocks, Host(fs, mount)`refs
    modifies Host(fs, mount).sb`zbits, Host(fs, mount).sb`zmaps
    ensures fs.Valid() && fs.Now() == old(fs.Now()) && fs.refs == old(fs.refs)
    ensures Host(fs, mount).Valid() && Host(fs, mount).Now() == old(Host(fs, mount).Now())
            && Host(fs, mount).refs == old(Host(fs, mount).refs)
    ensures if Crosses(n, Clip(fullName), mount) then
              Found(mount.fs.Now(), mount.n, Clip(fullName), mount.fs.inodes[mount.n].size / 32, out, at)
            else Found(fs.Now(), n, Clip(fullName), fs.inodes[n].size / 32, out, at)
  {
    var name := Clip(fullName);
    if name == DOTDOT && n == ROOT_INO && mount.On? {
      out, at := Search(mount.fs, mount.n, name);
    } else {
      out, at := Search(fs, n, name);
    }
  }

  /** The search in one directory. */
  method Search(fs: FileSystem, n: nat, name: seq<byte>) returns (out: Outcome, ghost at: nat)
    requires fs.Valid() && n in fs.inodes
    modifies fs`inodes, fs`blocks, fs`refs, fs.sb`zbits, fs.sb`zmaps
    ensures fs.Valid() && fs.Now() == old(fs.Now()) && fs.refs == old(fs.refs)
    ensures Found(fs.Now(), n, name, fs.inodes[n].size / 32, out, at)
  {
    out, at := Miss, 0;
    var entries := fs.inodes[n].size / 32;
    if name == [] { return; }
    var z := fs.inodes[n].zones[0];
    assert z == Lookup(fs.Now(), n, 0);
    if z == 0 { return; }
    ghost var r0 := fs.refs;
    fs.Hold(z, Loc(n, Direct(0)));
    ghost var page;
    out, at, z, page := Scan(fs, r0, n, name, entries, z);
    if z != 0 {
      fs.LetGo(z, Loc(n, SlotOf(page)));
      assert fs.refs == r0;
    }
  }

  /** The search stands at entry `i`, the blocks up to `page` are there, and nothing before the entry matched. */
  ghost predicate Seen(s: Image, n: nat, name: seq<byte>, i: nat, page: nat) {
    s.Ok() && Dense(s, n, page + 1) && forall e: nat | e < i :: !MatchAt(s, n, name, e)
  }

  lemma SeenOne(s: Image, n: nat, name: seq<byte>, i: nat, page: nat)
    requires Seen(s, n, name, i, page) && !MatchAt(s, n, name, i)
    ensures Seen(s, n, name, i + 1, page)
  {
  }

  lemma SeenPage(s: Image, n: nat, name: seq<byte>, i: nat, page: nat)
    requires Seen(s, n, name, i, page) && page + 1 < MAX_BLOCKS && Lookup(s, n, page + 1) != 0
    ensures Seen(s, n, name, i, page + 1)
  {
  }

  /** Looks at entry `i`, at place `k` of the held block. */
  method Look(fs: FileSystem, ghost r0: Refs, n: nat, name: seq<byte>, page: nat, z: nat, i: nat, k: nat)
    returns (hit: bool, ino: nat)
    requires Holding(fs, r0, n, page, z) && k < PER && i == PER * page + k
    ensures i / PER == page && hit == MatchAt(fs.Now(), n, name, i) && ino == InoAt(fs.Now(), n, i)
  {
    assert i / PER == page && i % PER == k;
    hit, ino := Matches(name, Name(fs.blocks[z], k)), Ino(fs.blocks[z], k);
  }

  lemma SeenIsFound(s: Image, n: nat, name: seq<byte>, entries: nat, page: nat, out: Outcome, at: nat)
    requires Seen(s, n, name, at, page) && name != [] && at <= entries && PER * page <= at <= PER * (page + 1)
    requires match out
             case Hit(ino) => at < entries && at / PER == page && MatchAt(s, n, name, at) && ino == InoAt(s, n, at)
             case _ => (at == entries || HoleAt(s, n, at)) && (out.Fault? <==> at + PER < entries)
    ensures Found(s, n, name, entries, out, at)
  {
  }

  /** The search loop, from the first block, already held as `first`; it ends with a block held, or with none (0). */
  method Scan(fs: FileSystem, ghost r0: Refs, n: nat, name: seq<byte>, entries: nat, first: nat)
    returns (out: Outcome, ghost at: nat, z: nat, ghost page: nat)
    requires Holding(fs, r0, n, 0, first) && name != [] && n in fs.inodes && entries == fs.inodes[n].size / 32
    modifies fs`inodes, fs`blocks, fs`refs, fs.sb`zbits, fs.sb`zmaps
    ensures fs.Now() == old(fs.Now()) && Left(fs, r0, n, page, z)
    ensures Found(fs.Now(), n, name, entries, out, at)
  {
    out, at := Miss, entries;
    var i, k := 0, 0;
    z, page := first, 0;
    var pg: nat := 0;
    ghost var s0 := fs.Now();
    while i < entries
      invariant fs.Now() == s0 && Holding(fs, r0, n, pg, z) && page == pg
      invariant 0 <= i <= entries && 0 <= k <= PER && i == PER * pg + k
      invariant Seen(s0, n, name, i, pg)
      decreases entries - i
    {
      var stop;
      stop, out, pg, z, k := ScanEntry(fs, r0, n, name, entries, pg, z, i, k);
      page := pg;
      if stop { at := i; return; }
      k := k + 1;
      i := i + 1;
    }
    out := Miss;
    SeenIsFound(s0, n, name, entries, pg, out, at);
  }

  /** A block is held, or none (0). */
  ghost predicate Left(fs: FileSystem, r0: Refs, n: nat, page: nat, z: nat)
    reads fs, fs.sb
  {
    if z == 0 then fs.Valid() && fs.refs == r0 else Holding(fs, r0, n, page, z)
  }

  /** One turn of that loop: at entry `i` the search ends, or the entry does not match. */
  method ScanEntry(fs: FileSystem, ghost r0: Refs, n: nat, name: seq<byte>, entries: nat, page: nat, z: nat, i: nat,
                   k: nat)
    returns (stop: bool, out: Outcome, page': nat, z': nat, k': nat)
    requires Holding(fs, r0, n, page, z) && Seen(fs.Now(), n, name, i, page) && name != []
    requires i < entries && k <= PER && i == PER * page + k && n in fs.inodes
    modifies fs`inodes, fs`blocks, fs`refs, fs.sb`zbits, fs.sb`zmaps
    ensures fs.Now() == old(fs.Now())
    ensures if stop then Left(fs, r0, n, page', z') && Found(fs.Now(), n, name, entries, out, i)
            else
              && Holding(fs, r0, n, page', z') && Seen(fs.Now(), n, name, i + 1, page')
              && k' < PER && i == PER * page' + k'
  {
    stop, out, page', z', k' := true, Miss, page, z, k;
    ghost var s0 := fs.Now();
    if k >= PER {
      assert i / PER == page + 1;
      DenseBound(fs, n, page + 1);
      z' := TurnPage(fs, r0, n, i / PER - 1, z);
      if z' == 0 {
        // the hole is skipped; if entries follow, the next one is read through NULL
        out := if i + PER < entries then Fault else Miss;
        SeenIsFound(s0, n, name, entries, page, out, i);
        return;
      }
      SeenPage(s0, n, name, i, page);
      page', k' := i / PER, 0;
    }
    var hit, ino := Look(fs, r0, n, name, page', z', i, k');
    if hit {
      out := Hit(ino);
      SeenIsFound(s0, n, name, entries, page', out, i);
      return;
    }
    SeenOne(s0, n, name, i, page');
    stop := false;
  }

  // ------------------------------------------------------------------ creation

  /** The directory as it was, apart from blocks that were supplied where there were none: every block it had, of this
      and any other file, has its zone and its bytes; sizes and the other files are the same. */
  ghost predicate Grown(s0: Image, s1: Image, n: nat)
  {
    && s0.Ok() && s1.Ok() && s1.inodes.Keys == s0.inodes.Keys && n in s0.inodes
    && (forall k | k in s0.inodes && k != n :: s1.inodes[k] == s0.inodes[k])
    && s1.inodes[n] == s0.inodes[n].(zones := s1.inodes[n].zones, dirt := s1.inodes[n].dirt)
    && (s0.inodes[n].dirt ==> s1.inodes[n].dirt)
    && forall f, b :: KeptBlock(s0, s1, f, b)
  }

  ghost predicate KeptBlock(s0: Image, s1: Image, f: nat, b: nat)
    requires s0.Ok() && s1.Ok()
  {
    b < MAX_BLOCKS && Lookup(s0, f, b) != 0 ==>
      Lookup(s1, f, b) == Lookup(s0, f, b) && s1.blocks[Lookup(s0, f, b)] == s0.blocks[Lookup(s0, f, b)]
  }

  lemma GrownTrans(s0: Image, s1: Image, s2: Image, n: nat)
    requires Grown(s0, s1, n) && Grown(s1, s2, n)
    ensures Grown(s0, s2, n)
  {
    forall f, b ensures KeptBlock(s0, s2, f, b) { assert KeptBlock(s0, s1, f, b) && KeptBlock(s1, s2, f, b); }
  }

  lemma UntakenUnowned(sb: Super, s: Image, refs: Refs, z: nat)
    requires Sound(sb, s.zbits, s.inodes, s.blocks, refs) && !Taken(sb, s.zbits, z)
    ensures !Owned(s.inodes, s.blocks, z)
  {
    forall a: Loc ensures !(z == At(s.inodes, s.blocks, a) != 0) { assert Marked(sb, s.zbits, s.inodes, s.blocks, a); }
  }

  /** Growing a file leaves every block that was there. */
  lemma GrowsGrown(sb: Super, s0: Image, s1: Image, refs: Refs, n: nat, places: set<Slot>, got: set<nat>)
    requires Sound(sb, s0.zbits, s0.inodes, s0.blocks, refs) && n in s0.inodes
    requires Grows(sb.first, s0, s1, n, places, got) && Disjoint(s1.inodes, s1.blocks)
    ensures Grown(s0, s1, n)
  {
    forall x | x in got ensures !Owned(s0.inodes, s0.blocks, x) { UntakenUnowned(sb, s0, refs, x); }
    forall f: nat, b: nat ensures KeptBlock(s0, s1, f, b) {
      if b < MAX_BLOCKS && Lookup(s0, f, b) != 0 { GrowsKeeps(sb.first, s0, s1, n, places, got, f, b); }
    }
  }

  /** Every zone of the device is in use. */
  ghost predicate FullDevice(fs: FileSystem)
    reads fs.sb
  {
    forall x | fs.sb.first <= x < fs.sb.nzones :: Taken(fs.sb, fs.sb.zbits, x)
  }

  /** locate_by_inode with `create` on the next block, and getting hold of it; 0, with nothing held, when there is no
      room. */
  method AddPage(fs: FileSystem, ghost r0: Refs, n: nat, page: nat, z: nat) returns (z': nat)
    requires Holding(fs, r0, n, page, z) && n in fs.inodes && page + 1 < MAX_BLOCKS
    modifies fs`inodes, fs`blocks, fs`refs, fs.sb`zbits, fs.sb`zmaps
    ensures Grown(old(fs.Now()), fs.Now(), n)
    ensures if z' == 0 then fs.Valid() && fs.refs == r0 && FullDevice(fs) else Holding(fs, r0, n, page + 1, z')
  {
    fs.LetGo(z, Loc(n, SlotOf(page)));
    assert fs.refs == r0;
    ghost var s0 := fs.Now();
    ghost var got;
    z', got := fs.LocateByInode(n, page + 1, true);
    GrowsGrown(fs.sb, s0, fs.Now(), r0, n, Path(page + 1), got);
    if z' != 0 {
      fs.Hold(z', Loc(n, SlotOf(page + 1)));
    }
  }

  /** Entry `e` is unused: past the end, or without an inode. */
  ghost predicate FreeAt(s: Image, n: nat, e: nat)
    requires s.Ok() && n in s.inodes
  {
    32 * e >= s.inodes[n].size || (e / PER < MAX_BLOCKS && InoAt(s, n, e) == 0)
  }

  ghost predicate PassedAt(s: Image, n: nat, e: nat)
    requires s.Ok() && n in s.inodes
  {
    e / PER < MAX_BLOCKS && !FreeAt(s, n, e)
  }

  /** The search stands at entry `i` in block `page`, everything before which is there and in use. */
  ghost predicate Passed(s0: Image, s: Image, n: nat, i: nat, page: nat) {
    && Grown(s0, s, n) && Dense(s, n, page)
    && (forall e: nat | e < i :: PassedAt(s, n, e))
  }

  /** Growing by a block disturbs none of the entries already passed. */
  lemma GrownKeepsPassed(s0: Image, s1: Image, s2: Image, n: nat, page: nat)
    requires Passed(s0, s1, n, PER * page, page) && Grown(s1, s2, n)
    ensures Passed(s0, s2, n, PER * page, page)
  {
    GrownTrans(s0, s1, s2, n);
    forall b: nat | b < page ensures Lookup(s2, n, b) != 0 { assert KeptBlock(s1, s2, n, b); }
    forall e: nat | e < PER * page ensures PassedAt(s2, n, e) {
      assert PassedAt(s1, n, e) && KeptBlock(s1, s2, n, e / PER);
    }
  }

  /** The search of create_inode_by_name for the first unused entry, going on into new blocks if it has to.
      It ends with that entry's block held, or with nothing held when there was no room for a block. */
  method FindFree(fs: FileSystem, ghost r0: Refs, n: nat, first: nat) returns (z: nat, i: nat, k: nat)
    requires Holding(fs, r0, n, 0, first) && n in fs.inodes
    modifies fs`inodes, fs`blocks, fs`refs, fs.sb`zbits, fs.sb`zmaps
    ensures Passed(old(fs.Now()), fs.Now(), n, i, i / PER)
    ensures if z == 0 then fs.Valid() && fs.refs == r0 && FullDevice(fs)
            else Holding(fs, r0, n, i / PER, z) && k == i % PER && FreeAt(fs.Now(), n, i)
  {
    ghost var s0 := fs.Now();
    z, i, k := first, 0, 0;
    var page: nat := 0;
    var stop := false;
    forall f, b ensures KeptBlock(s0, s0, f, b) { }
    while true
      invariant Holding(fs, r0, n, page, z) && Passed(s0, fs.Now(), n, i, page)
      invariant k <= PER && i == PER * page + k && n in fs.inodes
      decreases s0.inodes[n].size - 32 * i
    {
      stop, page, z, k := TryEntry(fs, s0, r0, n, page, z, i, k);
      if stop { return; }
      k := k + 1;
      i := i + 1;
    }
  }

  /** One turn of that search: at entry `i` it stops, or the entry is in use. */
  method TryEntry(fs: FileSystem, ghost s0: Image, ghost r0: Refs, n: nat, page: nat, z: nat, i: nat, k: nat)
    returns (stop: bool, page': nat, z': nat, k': nat)
    requires Holding(fs, r0, n, page, z) && Passed(s0, fs.Now(), n, i, page)
    requires k <= PER && i == PER * page + k && n in fs.inodes
    modifies fs`inodes, fs`blocks, fs`refs, fs.sb`zbits, fs.sb`zmaps
    ensures n in fs.inodes && page' == i / PER
    ensures !stop ==> Holding(fs, r0, n, page', z') && Passed(s0, fs.Now(), n, i + 1, page')
    ensures !stop ==> k' == i % PER && 32 * i < s0.inodes[n].size
    ensures stop ==> Passed(s0, fs.Now(), n, i, page')
    ensures stop ==>
              if z' == 0 then fs.Valid() && fs.refs == r0 && FullDevice(fs)
              else Holding(fs, r0, n, page', z') && k' == i % PER && FreeAt(fs.Now(), n, i)
  {
    stop, page', z', k' := true, page, z, k;
    if k >= PER {
      assert i == PER * (page + 1);
      z' := NextPage(fs, s0, r0, n, page, z);
      page', k' := page + 1, 0;
      if z' == 0 { return; }
    }
    stop := IsFree(fs, r0, n, page', z', i, k');
    if !stop { PassOne(s0, fs.Now(), n, i, page'); }
  }

  /** The two tests on an entry. */
  method IsFree(fs: FileSystem, ghost r0: Refs, n: nat, ghost page: nat, z: nat, i: nat, k: nat) returns (free: bool)
    requires Holding(fs, r0, n, page, z) && n in fs.inodes && k < PER && i == PER * page + k
    ensures i / PER == page && i % PER == k && free == FreeAt(fs.Now(), n, i)
  {
    free := 32 * i >= fs.inodes[n].size || Ino(fs.blocks[z], k) == 0;
  }

  lemma PassOne(s0: Image, s: Image, n: nat, i: nat, page: nat)
    requires Passed(s0, s, n, i, page) && i / PER < MAX_BLOCKS && !FreeAt(s, n, i)
    ensures Passed(s0, s, n, i + 1, page)
  {
  }

  /** The block boundary in that search. */
  method NextPage(fs: FileSystem, ghost s0: Image, ghost r0: Refs, n: nat, page: nat, z: nat) returns (z': nat)
    requires Holding(fs, r0, n, page, z) && n in fs.inodes && Passed(s0, fs.Now(), n, PER * (page + 1), page)
    modifies fs`inodes, fs`blocks, fs`refs, fs.sb`zbits, fs.sb`zmaps
    ensures Passed(s0, fs.Now(), n, PER * (page + 1), page + 1) && n in fs.inodes
            && fs.inodes[n].size == old(fs.inodes[n].size)
    ensures if z' == 0 then fs.Valid() && fs.refs == r0 && FullDevice(fs) else Holding(fs, r0, n, page + 1, z')
  {
    DenseBound(fs, n, page + 1);
    ghost var s1 := fs.Now();
    z' := AddPage(fs, r0, n, page, z);
    GrownKeepsPassed(s0, s1, fs.Now(), n, page + 1);
  }

  ghost predicate KeptEntry(s0: Image, s1: Image, n: nat, e: nat)
    requires s0.Ok() && s1.Ok()
  {
    e / PER < MAX_BLOCKS && Lookup(s0, n, e / PER) != 0 ==>
      Lookup(s1, n, e / PER) == Lookup(s0, n, e / PER) && InoAt(s1, n, e) == InoAt(s0, n, e)
        && NameAt(s1, n, e) == NameAt(s0, n, e)
  }

  /** Only entry `at` of directory `n` was written; every other entry, and every other file, is as it was. */
  ghost predicate Edited(s0: Image, s1: Image, n: nat, at: nat) {
    && s0.Ok() && s1.Ok()
    && (forall e | e != at :: KeptEntry(s0, s1, n, e))
    && (forall f, b | f != n :: KeptBlock(s0, s1, f, b))
    && forall b: nat :: KeptPlace(s0, s1, n, b)
  }

  ghost predicate KeptPlace(s0: Image, s1: Image, n: nat, b: nat)
    requires s0.Ok() && s1.Ok()
  {
    b < MAX_BLOCKS && Lookup(s0, n, b) != 0 ==> Lookup(s1, n, b) == Lookup(s0, n, b)
  }

  lemma GrownEdited(s0: Image, s1: Image, n: nat, at: nat)
    requires Grown(s0, s1, n)
    ensures Edited(s0, s1, n, at)
  {
    forall e: nat ensures KeptEntry(s0, s1, n, e) { assert KeptBlock(s0, s1, n, e / PER); }
    forall b: nat ensures KeptPlace(s0, s1, n, b) { assert KeptBlock(s0, s1, n, b); }
  }

  lemma EditedTrans(s0: Image, s1: Image, s2: Image, n: nat, at: nat)
    requires Edited(s0, s1, n, at) && Edited(s1, s2, n, at)
    ensures Edited(s0, s2, n, at)
  {
    forall e | e != at ensures KeptEntry(s0, s2, n, e) { assert KeptEntry(s0, s1, n, e) && KeptEntry(s1, s2, n, e); }
    forall f, b | f != n ensures KeptBlock(s0, s2, f, b) { assert KeptBlock(s0, s1, f, b) && KeptBlock(s1, s2, f, b); }
    forall b: nat ensures KeptPlace(s0, s2, n, b) { assert KeptPlace(s0, s1, n, b) && KeptPlace(s1, s2, n, b); }
  }

  /** Inodes changed, and no zone moved. */
  lemma SamePlacesEdited(s0: Image, s1: Image, n: nat, at: nat)
    requires s0.Ok() && s1.Ok() && s1.blocks == s0.blocks && forall a :: s1.Zone(a) == s0.Zone(a)
    ensures Edited(s0, s1, n, at)
  {
  }

  /** Entry `at` was written, and no inode changed. */
  ghost predicate Written(s0: Image, s1: Image, n: nat, at: nat, ino: nat, name: seq<byte>) {
    && s0.Ok() && s1.Ok() && s1.inodes == s0.inodes && at / PER < MAX_BLOCKS && Edited(s0, s1, n, at)
    && InoAt(s1, n, at) == ino && NameAt(s1, n, at) == name
  }

  /** The directory has been extended, if need be, to contain entry `i`, and nothing else changed. */
  ghost predicate Extended(s0: Image, s1: Image, n: nat, i: nat) {
    && s0.Ok() && s1.Ok() && n in s0.inodes && n in s1.inodes && s1.inodes == s0.inodes[n := s1.inodes[n]]
    && s1.inodes[n].size == (if 32 * i >= s0.inodes[n].size then 32 * (i + 1) else s0.inodes[n].size)
    && Edited(s0, s1, n, i)
  }

  /** Writing one entry of a held directory block. */
  method WriteEntry(fs: FileSystem, ghost r0: Refs, n: nat, ghost page: nat, z: nat, k: nat, ino: nat, name: seq<byte>)
    requires Holding(fs, r0, n, page, z) && n in fs.inodes && k < PER && ino < 0x1_0000 && |name| == NAME_LEN
    modifies fs`blocks
    ensures Holding(fs, r0, n, page, z) && Written(old(fs.Now()), fs.Now(), n, PER * page + k, ino, name)
  {
    ghost var s0 := fs.Now();
    fs.Write(n, page, z, PutEntry(fs.blocks[z], k, ino, name));
    OneEntry(s0, fs.Now(), n, page, k, ino, name);
  }

  lemma OneEntry(s0: Image, s1: Image, n: nat, page: nat, k: nat, ino: nat, name: seq<byte>)
    requires s0.Ok() && s1.Ok() && Disjoint(s0.inodes, s0.blocks) && page < MAX_BLOCKS && k < PER
    requires Lookup(s0, n, page) != 0 && ino < 0x1_0000 && |name| == NAME_LEN
    requires forall a :: s1.Zone(a) == s0.Zone(a)
    requires s1.blocks == s0.blocks[Lookup(s0, n, page) := PutEntry(s0.blocks[Lookup(s0, n, page)], k, ino, name)]
    ensures Edited(s0, s1, n, PER * page + k)
    ensures InoAt(s1, n, PER * page + k) == ino && NameAt(s1, n, PER * page + k) == name
  {
    var at := PER * page + k;
    assert at / PER == page && at % PER == k;
    forall f: nat, b: nat | f != n || b != page ensures KeptBlock(s0, s1, f, b) {
      if b < MAX_BLOCKS {
        if SlotOf(b) == SlotOf(page) { SlotOfInjective(b, page); }
        assert !Shares(s0.inodes, s0.blocks, Loc(f, SlotOf(b)), Loc(n, SlotOf(page)));
      }
    }
    forall e: nat | e != at ensures KeptEntry(s0, s1, n, e) {
      if e / PER < MAX_BLOCKS {
        EntryAt(s0, n, e);
        EntryAt(s1, n, e);
      }
      if e / PER != page { assert KeptBlock(s0, s1, n, e / PER); } else { assert e % PER != k; }
    }
  }

  /** No inode number is to be had: all are in use, or the lowest free one is in the inode table. */
  ghost predicate NoNumber(fs: FileSystem, ibits: seq<bool>, loaded: set<nat>)
    reads fs
  {
    fs.Clash(ibits, loaded) || forall p | 0 <= p <= fs.sb.ninodes :: p < |ibits| && ibits[p]
  }

  /** What a failed create_inode_by_name leaves: no new file, and at most entry `e` of the directory different. */
  ghost predicate NotCreated(s0: Image, s1: Image, n: nat, e: nat) {
    && s0.Ok() && s1.Ok() && n in s0.inodes && s1.inodes.Keys == s0.inodes.Keys
    && (forall f | f in s0.inodes && f != n :: s1.inodes[f] == s0.inodes[f])
    && Edited(s0, s1, n, e)
  }

  /** What a successful create_inode_by_name leaves: the new, empty file `r` named in the first entry `e` that was
      unused, and nothing else different in this or any other directory. */
  ghost predicate Created(s0: Image, s1: Image, n: nat, name: seq<byte>, r: nat, e: nat) {
    && s0.Ok() && s1.Ok() && n in s0.inodes && n in s1.inodes
    && r !in s0.inodes && s1.inodes.Keys == s0.inodes.Keys + {r} && s1.inodes[r] == NewInode()
    && (forall f | f in s0.inodes && f != n :: s1.inodes[f] == s0.inodes[f])
    && e / PER < MAX_BLOCKS && InoAt(s1, n, e) == r && NameAt(s1, n, e) == Pad(name)
    && Dense(s1, n, e / PER + 1)
    && s1.inodes[n].size == (if 32 * e >= s0.inodes[n].size then 32 * (e + 1) else s0.inodes[n].size)
    && (32 * e >= s0.inodes[n].size || Lookup(s0, n, e / PER) == 0 || InoAt(s0, n, e) == 0)
    && (forall i: nat | i < e :: UsedEntry(s0, s1, n, i))
    && Edited(s0, s1, n, e)
  }

  /** An entry before the one that was filled: in use, within the size. */
  ghost predicate UsedEntry(s0: Image, s1: Image, n: nat, i: nat)
    requires s0.Ok() && s1.Ok() && n in s0.inodes
  {
    i / PER < MAX_BLOCKS && 32 * i < s0.inodes[n].size && InoAt(s1, n, i) != 0
  }

  /** create_inode_by_name: 0 when the name is empty, the directory has no first block, or room or inodes are out. */
  method CreateInodeByName(fs: FileSystem, n: nat, fullName: seq<byte>, loaded: set<nat>) returns (r: nat, ghost e: nat)
    requires fs.Valid() && n in fs.inodes
    modifies fs`inodes, fs`blocks, fs`refs, fs.sb`zbits, fs.sb`zmaps, fs.sb`ibits, fs.sb`imaps
    ensures fs.Valid() && fs.refs == old(fs.refs)
    ensures r != 0 ==> fullName != [] && Created(old(fs.Now()), fs.Now(), n, Clip(fullName), r, e)
    ensures r == 0 ==> fullName == [] || old(Lookup(fs.Now(), n, 0)) == 0 || FullDevice(fs)
                       || NoNumber(fs, old(fs.sb.ibits), loaded)
    ensures r == 0 ==> NotCreated(old(fs.Now()), fs.Now(), n, e)
  {
    r, e := 0, 0;
    var name := Clip(fullName);
    SamePlacesEdited(fs.Now(), fs.Now(), n, 0);
    if name == [] { return; }
    var z := fs.inodes[n].zones[0];
    assert z == Lookup(fs.Now(), n, 0);
    if z == 0 { return; }
    fs.Hold(z, Loc(n, Direct(0)));
    r, e := CreateFrom(fs, old(fs.refs), n, z, name, loaded);
  }

  /** The same, from the directory's first block `first`, which is held and let go. */
  method CreateFrom(fs: FileSystem, ghost r0: Refs, n: nat, first: nat, name: seq<byte>, loaded: set<nat>)
    returns (r: nat, ghost e: nat)
    requires Holding(fs, r0, n, 0, first) && n in fs.inodes
    modifies fs`inodes, fs`blocks, fs`refs, fs.sb`zbits, fs.sb`zmaps, fs.sb`ibits, fs.sb`imaps
    ensures fs.Valid() && fs.refs == r0
    ensures if r != 0 then Created(old(fs.Now()), fs.Now(), n, name, r, e)
            else NotCreated(old(fs.Now()), fs.Now(), n, e) && (FullDevice(fs) || NoNumber(fs, old(fs.sb.ibits), loaded))
  {
    ghost var s0 := fs.Now();
    var z, i, k := FindFree(fs, r0, n, first);
    e, r := i, 0;
    GrownEdited(s0, fs.Now(), n, i);
    if z != 0 {
      r := Fill(fs, s0, r0, n, i, z, k, name, loaded);
      fs.LetGo(z, Loc(n, SlotOf(i / PER)));
      assert fs.refs == r0;
    }
  }

  /** The rest, once the unused entry `i` is found at place `k` of the held block `z`. */
  method Fill(fs: FileSystem, ghost s0: Image, ghost r0: Refs, n: nat, i: nat, z: nat, k: nat, name: seq<byte>,
              loaded: set<nat>) returns (r: nat)
    requires Holding(fs, r0, n, i / PER, z) && Passed(s0, fs.Now(), n, i, i / PER) && k == i % PER
             && FreeAt(fs.Now(), n, i)
    modifies fs`inodes, fs`blocks, fs.sb`ibits, fs.sb`imaps
    ensures Holding(fs, r0, n, i / PER, z)
    ensures if r != 0 then Created(s0, fs.Now(), n, name, r, i)
            else NotCreated(s0, fs.Now(), n, i) && NoNumber(fs, old(fs.sb.ibits), loaded)
  {
    ghost var s1 := fs.Now();
    Extend(fs, r0, n, i, z, k);
    ghost var s2 := fs.Now();
    r := MakeInode(fs, r0, n, i / PER, z, loaded);
    if r != 0 {
      ghost var s3 := fs.Now();
      WriteEntry(fs, r0, n, i / PER, z, k, r, Pad(name));
      assert PER * (i / PER) + k == i;
      FilledIsCreated(s0, s1, s2, s3, fs.Now(), n, name, r, i);
    } else {
      ExtendedIsNotCreated(s0, s1, s2, fs.Now(), n, i);
    }
  }

  /** create_inode with the directory block held. */
  method MakeInode(fs: FileSystem, ghost r0: Refs, n: nat, ghost page: nat, z: nat, loaded: set<nat>) returns (r: nat)
    requires Holding(fs, r0, n, page, z) && n in fs.inodes
    modifies fs`inodes, fs.sb`ibits, fs.sb`imaps
    ensures Holding(fs, r0, n, page, z) && n in fs.inodes && r < 0x1_0000
    ensures if r != 0 then Added(old(fs.Now()), fs.Now(), r)
            else fs.inodes == old(fs.inodes) && NoNumber(fs, old(fs.sb.ibits), loaded)
  {
    r := fs.CreateInode(loaded);
    if r != 0 {
      assert forall a :: fs.Now().Zone(a) == old(fs.Now()).Zone(a);
    }
  }

  /** File `r` is new and empty; otherwise nothing changed. */
  ghost predicate Added(s0: Image, s1: Image, r: nat) {
    s0.Ok() && s1.Ok() && r !in s0.inodes && s1.inodes == s0.inodes[r := NewInode()] && s1.blocks == s0.blocks
      && forall a :: s1.Zone(a) == s0.Zone(a)
  }

  /** Past the end, the directory grows by one entry, without an inode yet. */
  method Extend(fs: FileSystem, ghost r0: Refs, n: nat, i: nat, z: nat, k: nat)
    requires Holding(fs, r0, n, i / PER, z) && n in fs.inodes && k == i % PER
    modifies fs`inodes, fs`blocks
    ensures Holding(fs, r0, n, i / PER, z) && Extended(old(fs.Now()), fs.Now(), n, i)
  {
    ghost var s0 := fs.Now();
    GrownEdited(s0, s0, n, i) by { forall f, b ensures KeptBlock(s0, s0, f, b) { } }
    if 32 * i >= fs.inodes[n].size {
      WriteEntry(fs, r0, n, i / PER, z, k, 0, Name(fs.blocks[z], k));
      assert PER * (i / PER) + k == i;
      ghost var s1 := fs.Now();
      fs.SetSize(n, 32 * (i + 1));
      SamePlacesEdited(s1, fs.Now(), n, i);
      EditedTrans(s0, s1, fs.Now(), n, i);
    } else {
      assert fs.inodes == fs.inodes[n := fs.inodes[n]];
    }
  }

  lemma ExtendedIsNotCreated(s0: Image, s1: Image, s2: Image, s3: Image, n: nat, i: nat)
    requires Grown(s0, s1, n) && Extended(s1, s2, n, i)
    requires s3.inodes == s2.inodes && s3.blocks == s2.blocks
    ensures NotCreated(s0, s3, n, i)
  {
    GrownEdited(s0, s1, n, i);
    SamePlacesEdited(s2, s3, n, i);
    EditedTrans(s1, s2, s3, n, i);
    EditedTrans(s0, s1, s3, n, i);
  }

  lemma FilledIsCreated(s0: Image, s1: Image, s2: Image, s3: Image, s4: Image, n: nat, name: seq<byte>, r: nat, i: nat)
    requires Passed(s0, s1, n, i, i / PER) && FreeAt(s1, n, i) && i / PER < MAX_BLOCKS && Lookup(s1, n, i / PER) != 0
    requires Extended(s1, s2, n, i) && Added(s2, s3, r) && Written(s3, s4, n, i, r, Pad(name))
    ensures Created(s0, s4, n, name, r, i)
  {
    GrownEdited(s0, s1, n, i);
    SamePlacesEdited(s2, s3, n, i);
    EditedTrans(s1, s2, s3, n, i);
    EditedTrans(s1, s3, s4, n, i);
    EditedTrans(s0, s1, s4, n, i);
    forall e: nat | e < i ensures UsedEntry(s0, s4, n, e) {
      assert PassedAt(s1, n, e) && KeptEntry(s1, s4, n, e);
    }
    forall b: nat | b < i / PER + 1 ensures Lookup(s4, n, b) != 0 { assert KeptPlace(s1, s4, n, b); }
    if 32 * i < s0.inodes[n].size && Lookup(s0, n, i / PER) != 0 {
      assert KeptBlock(s0, s1, n, i / PER);
    }
  }

  // ------------------------------------------------------------------ creation, then lookup

  lemma CreatedDirOk(s0: Image, s1: Image, n: nat, name: seq<byte>, r: nat, e: nat)
    requires Created(s0, s1, n, name, r, e) && DirOk(s0, n)
    ensures DirOk(s1, n)
  {
    forall b: nat | b < (s0.inodes[n].size + 1023) / 1024 ensures Lookup(s1, n, b) != 0 {
      assert KeptPlace(s0, s1, n, b);
    }
    assert 32 * e >= s0.inodes[n].size ==> (s1.inodes[n].size + 1023) / 1024 == e / PER + 1;
  }

  /** No earlier entry begins with the name, and entry `e` is within the size. */
  ghost predicate Visible(s: Image, n: nat, name: seq<byte>, e: nat) {
    s.Ok() && n in s.inodes && (forall i: nat | i < e :: !MatchAt(s, n, name, i)) && 32 * (e + 1) <= s.inodes[n].size
  }

  /** A lookup of the created name ends at the new entry exactly when no earlier entry begins with the name and the
      entry is within the size - as it is whenever the size is a whole number of entries. If an earlier entry does,
      the lookup ends there. */
  lemma CreatedIsFound(s0: Image, s1: Image, n: nat, name: seq<byte>, r: nat, e: nat, out: Outcome, at: nat)
    requires Created(s0, s1, n, name, r, e) && 0 < |name| <= NAME_LEN
    requires Found(s1, n, name, s1.inodes[n].size / 32, out, at)
    ensures out.Hit? && at == e <==> Visible(s1, n, name, e)
    ensures out.Hit? && at == e ==> out.ino == r
    ensures s0.inodes[n].size % 32 == 0 ==> 32 * (e + 1) <= s1.inodes[n].size
    ensures (exists i: nat | i < e :: MatchAt(s1, n, name, i)) ==> out.Hit? && at < e
  {
    assert Pad(name)[..|name|] == name;
    assert MatchAt(s1, n, name, e);
    assert forall i: nat | i < e :: UsedEntry(s0, s1, n, i) && i < s1.inodes[n].size / 32;
    assert Lookup(s1, n, 0) != 0;
    if at <= e { assert at / PER < e / PER + 1; }
  }

  /** A lookup right after the creation. */
  method FindCreated(fs: FileSystem, n: nat, name: seq<byte>, mount: MountPoint, ghost s0: Image, ghost r: nat,
                     ghost e: nat)
    returns (out: Outcome, ghost at: nat)
    requires fs.Valid() && Created(s0, fs.Now(), n, Clip(name), r, e) && name != []
    requires mount.On? ==> mount.fs.Valid() && mount.n in mount.fs.inodes && (mount.fs == fs || mount.fs.sb != fs.sb)
    modifies fs`inodes, fs`blocks, fs`refs, fs.sb`zbits, fs.sb`zmaps
    modifies Host(fs, mount)`inodes, Host(fs, mount)`blocks, Host(fs, mount)`refs
    modifies Host(fs, mount).sb`zbits, Host(fs, mount).sb`zmaps
    ensures fs.Valid() && fs.refs == old(fs.refs) && fs.Now() == old(fs.Now())
    ensures Stays(fs, n, Clip(name), mount) ==> (out == Hit(r) && at == e <==> Visible(fs.Now(), n, Clip(name), e))
  {
    out, at := RetainInodeByName(fs, n, name, mount);
    if Stays(fs, n, Clip(name), mount) { CreatedIsFound(s0, fs.Now(), n, Clip(name), r, e, out, at); }
  }

  /** The lookup does not lead to another directory. */
  ghost predicate Stays(fs: FileSystem, n: nat, name: seq<byte>, mount: MountPoint) {
    Crosses(n, name, mount) ==> mount == On(fs, n)
  }

  /** The two operations one after the other: the new inode is found, unless ".." leads away, exactly when no earlier
      entry begins with the name, and the new entry is within the size. */
  method CreateThenFind(fs: FileSystem, n: nat, name: seq<byte>, loaded: set<nat>, mount: MountPoint)
    returns (r: nat, out: Outcome, ghost e: nat, ghost at: nat)
    requires fs.Valid() && n in fs.inodes
    requires mount.On? ==> mount.fs.Valid() && mount.n in mount.fs.inodes && (mount.fs == fs || mount.fs.sb != fs.sb)
    modifies fs`inodes, fs`blocks, fs`refs, fs.sb`zbits, fs.sb`zmaps, fs.sb`ibits, fs.sb`imaps
    modifies Host(fs, mount)`inodes, Host(fs, mount)`blocks, Host(fs, mount)`refs
    modifies Host(fs, mount).sb`zbits, Host(fs, mount).sb`zmaps
    ensures fs.Valid() && fs.refs == old(fs.refs)
    ensures r != 0 ==> Created(old(fs.Now()), fs.Now(), n, Clip(name), r, e)
    ensures r != 0 && Stays(fs, n, Clip(name), mount) ==>
              (out == Hit(r) && at == e <==> Visible(fs.Now(), n, Clip(name), e))
  {
    out, at := Miss, 0;
    ghost var s0 := fs.Now();
    r, e := CreateInodeByName(fs, n, name, loaded);
    if r != 0 {
      out, at := FindCreated(fs, n, name, mount, s0, r, e);
    }
  }

  /** Two names of which the first begins with the second: looking the second up finds the first. */
  lemma PrefixIsFound(s: Image, n: nat, a: seq<byte>, b: seq<byte>, e: nat)
    requires s.Ok() && e / PER < MAX_BLOCKS && NameAt(s, n, e) == Pad(a) && |a| <= NAME_LEN && b <= a
    ensures MatchAt(s, n, b, e)
  {
    assert Pad(a)[..|b|] == b;
  }
}
