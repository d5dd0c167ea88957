/** The text screen of scrn.c with the copying loops of util.c, against a terminal that never scrolls:
    an ever longer list of rows of which the screen shows the last 25. */
module Screen {
  import opened Bytes

  const COLS: nat := 80
  const ROWS: nat := 25
  const BLANK: byte := 0x20

  // ------------------------------------------------------------------ the unbounded terminal

  datatype Cell = Cell(glyph: byte, attr: byte)

  /** `row` counts from the very first line. */
  datatype Term = Term(rows: seq<seq<Cell>>, row: nat, col: nat) {
    ghost predicate Ok() {
      && |rows| >= ROWS && |rows| - ROWS <= row < |rows| && col < COLS
      && forall r | 0 <= r < |rows| :: |rows[r]| == COLS
    }
  }

  function BlankRow(attr: byte): (r: seq<Cell>)
    ensures |r| == COLS && forall x | 0 <= x < COLS :: r[x] == Cell(BLANK, attr)
  {
    seq(COLS, _ => Cell(BLANK, attr))
  }

  function Clear(attr: byte): (t: Term)
    ensures t.Ok()
  {
    Term(seq(ROWS, _ => BlankRow(attr)), 0, 0)
  }

  /** What one character does before line ends are looked at: the column may reach 80, the row may leave the rows. */
  function Strike(t: Term, c: byte, attr: byte): (r: Term)
    requires t.Ok()
    ensures |r.rows| == |t.rows| && r.row <= t.row + 1 && r.row >= t.row && r.col <= COLS
    ensures (forall i | 0 <= i < |r.rows| :: |r.rows[i]| == COLS) && (r.row > t.row ==> r.col == 0)
  {
    if c == 0x08 then t.(col := if t.col != 0 then t.col - 1 else 0)
    else if c == 0x09 then t.(col := (t.col + 8) / 8 * 8)
    else if c == 0x0D then t.(col := 0)
    else if c == 0x0A then t.(col := 0, row := t.row + 1)
    else if c >= 0x20 then t.(rows := t.rows[t.row := t.rows[t.row][t.col := Cell(c, attr)]], col := t.col + 1)
    else t
  }

  function Wrap(t: Term): Term {
    if t.col >= COLS then t.(col := 0, row := t.row + 1) else t
  }

  /** One character on the terminal; a new row appears only when the cursor needs it. */
  function Type(t: Term, c: byte, attr: byte): (r: Term)
    requires t.Ok()
    ensures r.Ok() && |t.rows| <= |r.rows| <= |t.rows| + 1
  {
    var u := Wrap(Strike(t, c, attr));
    if u.row >= |u.rows| then u.(rows := u.rows + [BlankRow(attr)]) else u
  }

  function TypeAll(t: Term, text: seq<byte>, attr: byte): (r: Term)
    requires t.Ok()
    ensures r.Ok()
  {
    if text == [] then t else Type(TypeAll(t, text[..|text|-1], attr), text[|text|-1], attr)
  }

  // ------------------------------------------------------------------ util.c

  /** memcpy, one byte at a time from the front: right whenever the destination is not ahead of the source
      inside the copied range. */
  method MemCpy(a: array<byte>, dest: nat, src: nat, count: nat)
    requires dest + count <= a.Length && src + count <= a.Length && (dest <= src || src + count <= dest)
    modifies a
    ensures forall i | 0 <= i < a.Length ::
                a[i] == if dest <= i < dest + count then old(a[src + i - dest]) else old(a[i])
  {
    var n := 0;
    while n < count
      invariant n <= count
      invariant forall i | 0 <= i < a.Length ::
                a[i] == if dest <= i < dest + n then old(a[src + i - dest]) else old(a[i])
    {
      a[dest + n] := a[src + n];
      n := n + 1;
    }
  }

  /** memsetw on the 16-bit cells from cell `at`. */
  method MemSetW(a: array<byte>, at: nat, glyph: byte, attr: byte, count: nat)
    requires 2 * (at + count) <= a.Length
    modifies a
    ensures forall i | 0 <= i < a.Length ::
                a[i] == if 2 * at <= i < 2 * (at + count) then (if i % 2 == 0 then glyph else attr) else old(a[i])
  {
    var n := 0;
    while n < count
      invariant n <= count
      invariant forall i | 0 <= i < a.Length ::
                a[i] == if 2 * at <= i < 2 * (at + n) then (if i % 2 == 0 then glyph else attr) else old(a[i])
    {
      a[2 * (at + n)], a[2 * (at + n) + 1] := glyph, attr;
      n := n + 1;
    }
  }

  // ------------------------------------------------------------------ memory against terminal

  function At(py: int, px: int): int { 2 * (py * COLS + px) }

  /** Memory `m` shows, in row `py` and column `px`, what the last 25 rows have there. */
  ghost predicate ShowsAt(m: seq<byte>, rows: seq<seq<Cell>>, py: int, px: int) {
    0 <= py < ROWS <= |rows| && 0 <= px < COLS == |rows[|rows| - ROWS + py]| && |m| == 2 * ROWS * COLS ==>
      Cell(m[At(py, px)], m[At(py, px) + 1]) == rows[|rows| - ROWS + py][px]
  }

  ghost predicate Shown(m: seq<byte>, rows: seq<seq<Cell>>) {
    && |m| == 2 * ROWS * COLS && |rows| >= ROWS && (forall r | 0 <= r < |rows| :: |rows[r]| == COLS)
    && forall py, px :: ShowsAt(m, rows, py, px)
  }

  lemma PokeShown(m: seq<byte>, rows: seq<seq<Cell>>, y: nat, x: nat, c: Cell)
    requires Shown(m, rows) && y < ROWS && x < COLS
    ensures var r := |rows| - ROWS + y;
            Shown(m[At(y, x) := c.glyph][At(y, x) + 1 := c.attr], rows[r := rows[r][x := c]])
  {
    var r := |rows| - ROWS + y;
    var m', rows' := m[At(y, x) := c.glyph][At(y, x) + 1 := c.attr], rows[r := rows[r][x := c]];
    forall py, px ensures ShowsAt(m', rows', py, px) {
      assert ShowsAt(m, rows, py, px);
      if 0 <= py < ROWS && 0 <= px < COLS {
        assert At(py, px) == At(y, x) <==> py == y && px == x;
      }
    }
  }

  /** Everything moved up one row, with a blank row below, shows one more row of the terminal. */
  lemma ScrollShown(m: seq<byte>, m': seq<byte>, rows: seq<seq<Cell>>, attr: byte)
    requires Shown(m, rows) && |m'| == |m|
    requires forall i | 0 <= i < 2 * (ROWS - 1) * COLS :: m'[i] == m[i + 2 * COLS]
    requires forall i | 2 * (ROWS - 1) * COLS <= i < |m'| :: m'[i] == if i % 2 == 0 then BLANK else attr
    ensures Shown(m', rows + [BlankRow(attr)])
  {
    var rows' := rows + [BlankRow(attr)];
    forall py, px ensures ShowsAt(m', rows', py, px) {
      if 0 <= py < ROWS && 0 <= px < COLS {
        assert ShowsAt(m, rows, py + 1, px);
        assert At(py + 1, px) == At(py, px) + 2 * COLS && At(py, px) % 2 == 0;
      }
    }
  }

  // ------------------------------------------------------------------ what a character does, in memory

  /** Where the cursor would go on a screen without edges: back space, tab stop, line start, next line, next cell. */
  ghost function Goes(x: int, y: int, c: byte): (int, int) {
    if c == 8 then (if x > 0 then x - 1 else 0, y)
    else if c == 9 then (x - x % 8 + 8, y)
    else if c == 10 then (0, y + 1)
    else if c == 13 then (0, y)
    else if c >= 32 then (x + 1, y)
    else (x, y)
  }

  /** The cursor wraps behind column 79, and stays in row 24 while the screen scrolls. */
  ghost predicate CursorMoves(x: int, y: int, c: byte, x': int, y': int) {
    var (nx, ny) := Goes(x, y, c);
    && x' == (if nx >= 80 then 0 else nx)
    && y' == (if Scrolls(x, y, c) then 24 else if nx >= 80 then ny + 1 else ny)
  }

  ghost predicate Scrolls(x: int, y: int, c: byte) {
    var (nx, ny) := Goes(x, y, c);
    (if nx >= 80 then ny + 1 else ny) == 25
  }

  /** A printable character is written under the cursor with the attribute, nothing else is; and if the screen scrolls,
      every row moves up by one and the last becomes spaces. */
  ghost predicate MemoryChanges(m: seq<byte>, x: int, y: int, c: byte, attr: byte, m': seq<byte>) {
    && |m| == |m'| == 4000 && 0 <= x < 80 && 0 <= y < 25
    && var at := 2 * (80 * y + x);
       var w := if c >= 32 then m[at := c][at + 1 := attr] else m;
       if Scrolls(x, y, c) then
         && (forall i | 0 <= i < 3840 :: m'[i] == w[i + 160])
         && forall i | 3840 <= i < 4000 :: m'[i] == if i % 2 == 0 then 0x20 else attr
       else m' == w
  }

  // ------------------------------------------------------------------ scrn.c

  class Screen {
    const mem: array<byte>
    var x: int
    var y: int
    var attrib: byte
    ghost var term: Term

    /** The memory is the last 25 rows of the terminal, and the cursors agree. */
    ghost predicate Valid()
      reads this, mem
    {
      && term.Ok() && Shown(mem[..], term.rows)
      && x == term.col && y == term.row - (|term.rows| - ROWS)
    }

    /** cls */
    method Cls()
      requires mem.Length == 2 * ROWS * COLS
      modifies this`x, this`y, this`term, mem
      ensures Valid() && term == Clear(attrib)
      ensures x == 0 && y == 0 && forall k | 0 <= k < 4000 :: mem[..][k] == if k % 2 == 0 then 0x20 else attrib
    {
      for i := 0 to ROWS
        invariant forall k | 0 <= k < 2 * i * COLS :: mem[k] == if k % 2 == 0 then BLANK else attrib
      {
        MemSetW(mem, i * COLS, BLANK, attrib, COLS);
      }
      x, y := 0, 0;
      term := Clear(attrib);
      forall py, px ensures ShowsAt(mem[..], term.rows, py, px) {
        if 0 <= py < ROWS && 0 <= px < COLS { assert At(py, px) % 2 == 0; }
      }
    }

    constructor (attrib: byte)
      ensures Valid() && fresh(mem) && term == Clear(attrib) && this.attrib == attrib
    {
      mem := new byte[2 * ROWS * COLS];
      this.attrib := attrib;
      new;
      Cls();
    }

    /** scroll: when the cursor has left the last row, everything moves up one row and a blank one comes in. */
    method Scroll(ghost rows: seq<seq<Cell>>)
      requires 0 <= y <= ROWS && Shown(mem[..], rows)
      modifies this`y, mem
      ensures if old(y) == ROWS then y == ROWS - 1 && Shown(mem[..], rows + [BlankRow(attrib)])
              else y == old(y) && mem[..] == old(mem[..])
      ensures old(y) == ROWS ==>
                && (forall i | 0 <= i < 3840 :: mem[..][i] == old(mem[..])[i + 160])
                && forall i | 3840 <= i < 4000 :: mem[..][i] == if i % 2 == 0 then 0x20 else attrib
    {
      if y >= ROWS {
        var temp := y - ROWS + 1;
        ghost var m0 := mem[..];
        MemCpy(mem, 0, temp * COLS * 2, (ROWS - temp) * COLS * 2);
        MemSetW(mem, (ROWS - temp) * COLS, BLANK, attrib, COLS);
        ghost var m1 := mem[..];
        forall i | 0 <= i < 2 * (ROWS - 1) * COLS ensures m1[i] == m0[i + 2 * COLS] { }
        ScrollShown(m0, m1, rows, attrib);
        y := ROWS - 1;
      }
    }

    /** The write at the cursor. */
    method Poke(c: byte)
      requires Valid()
      modifies mem
      ensures Shown(mem[..], Strike(term, c, attrib).rows) || c < 0x20
      ensures mem[..] == old(mem[..])[2 * (80 * y + x) := c][2 * (80 * y + x) + 1 := attrib]
    {
      PokeShown(mem[..], term.rows, y, x, Cell(c, attrib));
      ghost var m := mem[..][At(y, x) := c][At(y, x) + 1 := attrib];
      var where_ := y * COLS + x;
      mem[2 * where_], mem[2 * where_ + 1] := c, attrib;
      assert mem[..] == m;
    }

    /** The first part of putch: the cursor and the cell under it, before line ends are looked at. */
    method Stroke(c: byte)
      requires Valid()
      modifies this`x, this`y, mem
      ensures (x, y) == Goes(old(x), old(y), c) && mem.Length == 4000
      ensures var at := 2 * (80 * old(y) + old(x));
              mem[..] == if c >= 32 then old(mem[..])[at := c][at + 1 := attrib] else old(mem[..])
      ensures var t := Strike(term, c, attrib); Shown(mem[..], t.rows) && x == t.col && y == t.row - (|t.rows| - ROWS)
    {
      if c == 0x08 {
        if x != 0 { x := x - 1; }
      } else if c == 0x09 {
        x := (x + 8) / 8 * 8;
      } else if c == 0x0D {
        x := 0;
      } else if c == 0x0A {
        x := 0;
        y := y + 1;
      } else if c >= 0x20 {
        Poke(c);
        x := x + 1;
      }
    }

    /** putch */
    method PutCh(c: byte)
      requires Valid()
      modifies this`x, this`y, this`term, mem
      ensures Valid() && term == Type(old(term), c, attrib)
      ensures CursorMoves(old(x), old(y), c, x, y) && MemoryChanges(old(mem[..]), old(x), old(y), c, attrib, mem[..])
    {
      Stroke(c);
      if x >= COLS {
        x := 0;
        y := y + 1;
      }
      ghost var u := Wrap(Strike(term, c, attrib));
      Scroll(u.rows);
      term := Type(term, c, attrib);
    }

    /** puts: up to the terminating zero. */
    method Puts(text: seq<byte>)
      requires Valid() && |text| > 0 && text[|text| - 1] == 0
      modifies this`x, this`y, this`term, mem
      ensures Valid() && exists n: nat | n < |text| && text[n] == 0
              && 0 !in text[..n] :: term == TypeAll(old(term), text[..n], attrib)
    {
      var i := 0;
      while text[i] != 0
        invariant 0 <= i < |text| && 0 !in text[..i]
        invariant Valid() && term == TypeAll(old(term), text[..i], attrib)
        decreases |text| - i
      {
        PutCh(text[i]);
        assert text[..i + 1][..i] == text[..i];
        i := i + 1;
      }
    }
  }
}
