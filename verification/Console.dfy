/** The console: an ideal terminal that keeps every row ever written, and the kernel's ring of
    512 rows with a 25-row window onto it. */
module ConsoleModule {
  import opened Bytes

  const WIDTH := 80
  const HEIGHT := 25
  const RING := 512

  const NEWLINE: byte := 10
  const RETURN: byte := 13
  const BACKSPACE: byte := 8
  const TAB: byte := 9
  const SPACE: byte := 32

  type Row = r: seq<u16> | |r| == WIDTH witness seq(WIDTH, _ => 0)

  function Cell(attr: byte, c: byte): u16 {
    (attr as int) * 0x100 + c as int
  }

  function Blank(attr: byte): Row {
    seq(WIDTH, _ => Cell(attr, SPACE))
  }

  // ---------------------------------------------------------------------------------------
  // The ideal terminal
  // ---------------------------------------------------------------------------------------

  /** All rows from the first to the highest reached, and the cursor. */
  datatype Term = Term(lines: seq<Row>, row: nat, col: nat, attr: byte)

  predicate Proper(t: Term) {
    t.row < |t.lines| && t.col < WIDTH
  }

  function Fresh(attr: byte): (t: Term)
    ensures Proper(t)
  {
    Term([Blank(attr)], 0, 0, attr)
  }

  function NewLine(t: Term): (r: Term)
    requires t.row < |t.lines|
    ensures Proper(r)
  {
    var lines := if t.row + 1 < |t.lines| then t.lines[t.row + 1 := Blank(t.attr)] else t.lines + [Blank(t.attr)];
    Term(lines, t.row + 1, 0, t.attr)
  }

  function Poke(t: Term, c: byte): (r: Term)
    requires Proper(t)
    ensures Proper(r) && |r.lines| == |t.lines|
  {
    t.(lines := t.lines[t.row := t.lines[t.row][t.col := Cell(t.attr, c)]])
  }

  function Show(t: Term, c: byte): (r: Term)
    requires Proper(t)
    ensures Proper(r)
  {
    var p := Poke(t, c);
    if t.col + 1 >= WIDTH then NewLine(p) else p.(col := t.col + 1)
  }

  function Erase(t: Term): (r: Term)
    requires Proper(t)
    ensures Proper(r)
  {
    if t.col > 0 then Poke(t.(col := t.col - 1), SPACE)
    else if t.row > 0 then Poke(t.(row := t.row - 1, col := WIDTH - 1), SPACE)
    else t
  }

  function Spaces(t: Term, n: nat): (r: Term)
    requires Proper(t)
    ensures Proper(r)
    decreases n
  {
    if n == 0 then t else Show(Spaces(t, n - 1), SPACE)
  }

  /** What one character does. */
  function Type(t: Term, c: byte): (r: Term)
    requires Proper(t)
    ensures Proper(r)
  {
    if c == RETURN then t.(col := 0)
    else if c == NEWLINE then NewLine(t)
    else if c == BACKSPACE then Erase(t)
    else if c == TAB then Spaces(t, 4 - t.col % 4)
    else if c >= SPACE then Show(t, c)
    else t
  }

  function TypeAll(t: Term, s: Str): (r: Term)
    requires Proper(t)
    ensures Proper(r)
  {
    if s == [] then t else Type(TypeAll(t, DropLast(s)), Last(s))
  }

  /** A cleared terminal: one blank row, the cursor at its start. */
  lemma FreshIsBlank(attr: byte)
    ensures Fresh(attr) == Term([seq(80, _ => 0x100 * attr as int + 32)], 0, 0, attr)
  {
  }

  /** Plain text typed on a fresh terminal appears in reading order, 80 columns to a row. */
  lemma {:induction false} TextInReadingOrder(attr: byte, s: Str, i: nat)
    requires forall j :: 0 <= j < |s| ==> s[j] >= SPACE
    ensures var t := TypeAll(Fresh(attr), s);
            && t.attr == attr && t.row * 80 + t.col == |s| && t.col < 80 && |t.lines| == t.row + 1
            && (i < |s| ==>
                  i / 80 < |t.lines| && t.lines[i / 80][i % 80] == 0x100 * attr as int + s[i] as int)
    decreases |s|
  {
    if s != [] {
      var r, n := DropLast(s), |s| - 1;
      assert forall j :: 0 <= j < |r| ==> r[j] == s[j];
      TextInReadingOrder(attr, r, i);
      var t := TypeAll(Fresh(attr), r);
      Position(t.row, t.col);
      if i == n {
        assert i / WIDTH == t.row && i % WIDTH == t.col;
      }
      if i < n {
        Position(i / WIDTH, i % WIDTH);
        assert i / WIDTH <= t.row;
      }
    }
  }

  /** Plain text that fits the rest of a row is stored there, cell by cell, and moves nothing else. */
  lemma {:induction false} TextOnRow(t: Term, s: Str)
    requires Proper(t) && t.col + |s| < 80 && forall j :: 0 <= j < |s| ==> s[j] >= 32
    ensures var u := TypeAll(t, s);
            && u.row == t.row && u.col == t.col + |s| && u.attr == t.attr && |u.lines| == |t.lines|
            && (forall r :: 0 <= r < |t.lines| && r != t.row ==> u.lines[r] == t.lines[r])
            && forall c :: 0 <= c < 80 ==>
                 u.lines[t.row][c]
                 == if t.col <= c < t.col + |s| then 0x100 * t.attr as int + s[c - t.col] as int else t.lines[t.row][c]
    decreases |s|
  {
    if s != [] {
      assert forall j :: 0 <= j < |s| - 1 ==> DropLast(s)[j] == s[j];
      TextOnRow(t, DropLast(s));
    }
  }

  /** A carriage return goes back to the start of the row: text after it overwrites the row from
      column 0, and the rest of the row and all other rows stay. */
  lemma ReturnOverwrites(t: Term, s: Str)
    requires Proper(t) && |s| < 80 && forall j :: 0 <= j < |s| ==> s[j] >= 32
    ensures var u := TypeAll(t, [13] + s);
            && u.row == t.row && u.col == |s| && u.attr == t.attr && |u.lines| == |t.lines|
            && (forall r :: 0 <= r < |t.lines| && r != t.row ==> u.lines[r] == t.lines[r])
            && forall c :: 0 <= c < 80 ==>
                 u.lines[t.row][c] == if c < |s| then 0x100 * t.attr as int + s[c] as int else t.lines[t.row][c]
  {
    hide Type;
    TypeConcat(t, [13], s);
    Returned(t);
    TextOnRow(t.(col := 0), s);
  }

  lemma Returned(t: Term)
    requires Proper(t)
    ensures TypeAll(t, [13]) == t.(col := 0)
  {
    assert DropLast([13]) == [];
  }

  lemma {:induction false} TypeConcat(t: Term, a: Str, b: Str)
    requires Proper(t)
    ensures TypeAll(t, a + b) == TypeAll(TypeAll(t, a), b)
    decreases |b|
  {
    hide Type;
    if b == [] {
      assert a + b == a;
    } else {
      assert DropLast(a + b) == a + DropLast(b) && Last(a + b) == Last(b);
      TypeConcat(t, a, DropLast(b));
    }
  }

  /** A line feed goes to the start of the next row, which it blanks; other rows stay. */
  lemma FeedBlanks(t: Term)
    requires Proper(t)
    ensures var u := Type(t, 10);
            && u.row == t.row + 1 && u.col == 0 && u.attr == t.attr
            && u.lines[t.row + 1] == seq(80, _ => 0x100 * t.attr as int + 32)
            && |u.lines| == (if t.row + 1 < |t.lines| then |t.lines| else |t.lines| + 1)
            && forall r :: 0 <= r < |t.lines| && r != t.row + 1 ==> u.lines[r] == t.lines[r]
  {
  }

  /** The other control bytes do nothing, and backspace does nothing at the very start. */
  lemma ControlsIgnored(t: Term, c: byte)
    requires Proper(t)
    ensures c < 32 && c !in {8, 9, 10, 13} ==> Type(t, c) == t
    ensures t.row == 0 && t.col == 0 ==> Type(t, 8) == t
    ensures t.row > 0 || t.col > 0 ==> Type(t, 8) == Erase(t)
  {
  }

  lemma Position(row: nat, col: nat)
    requires col < WIDTH
    ensures (row * WIDTH + col) / WIDTH == row && (row * WIDTH + col) % WIDTH == col
  {
  }

  /** Backspace undoes a character: the cursor returns to where it was typed, even across a
      line wrap, and leaves a blank there. Nothing else changes, except that a wrap has blanked
      the row below. */
  lemma EraseUndoesShow(t: Term, c: byte)
    requires Proper(t)
    ensures var u := Erase(Show(t, c));
            var erased := t.lines[t.row := t.lines[t.row][t.col := 0x100 * t.attr as int + 32]];
            u == t.(lines := if t.col + 1 < 80 then erased
                             else if t.row + 1 < |t.lines| then erased[t.row + 1 := Blank(t.attr)]
                             else erased + [Blank(t.attr)])
  {
    hide Blank;
    var x := t.lines[t.row];
    assert x[t.col := Cell(t.attr, c)][t.col := Cell(t.attr, SPACE)] == x[t.col := Cell(t.attr, SPACE)];
    var u := Erase(Show(t, c));
    assert u.lines == (if t.col + 1 < WIDTH then t.lines[t.row := x[t.col := Cell(t.attr, SPACE)]]
                       else if t.row + 1 < |t.lines|
                       then t.lines[t.row := x[t.col := Cell(t.attr, SPACE)]][t.row + 1 := Blank(t.attr)]
                       else t.lines[t.row := x[t.col := Cell(t.attr, SPACE)]] + [Blank(t.attr)]);
  }

  /** A tab blanks up to the next multiple of four, wrapping a full row, and changes nothing else. */
  lemma TabStops(t: Term)
    requires Proper(t)
    ensures var u := Type(t, 9);
            var stop := t.col / 4 * 4 + 4;
            && u.attr == t.attr && |u.lines| >= |t.lines|
            && (if stop < 80 then u.row == t.row && u.col == stop && |u.lines| == |t.lines|
                else u.row == t.row + 1 && u.col == 0 && u.lines[t.row + 1] == Blank(t.attr))
            && (forall c :: 0 <= c < 80 ==>
                  u.lines[t.row][c] == if t.col <= c < stop then 0x100 * t.attr as int + 32 else t.lines[t.row][c])
            && forall r :: 0 <= r < |t.lines| && r != t.row && (r != t.row + 1 || stop < 80) ==>
                 u.lines[r] == t.lines[r]
  {
    hide Blank;
    SpacesAdvance(t, 4 - t.col % 4);
  }

  lemma {:induction false} SpacesAdvance(t: Term, n: nat)
    requires Proper(t) && t.col + n <= WIDTH && n <= 4
    ensures var u := Spaces(t, n);
            && u.attr == t.attr && |u.lines| >= |t.lines|
            && (if t.col + n < WIDTH then u.row == t.row && u.col == t.col + n && |u.lines| == |t.lines|
                else n > 0 && u.row == t.row + 1 && u.col == 0 && u.lines[t.row + 1] == Blank(t.attr))
            && (forall c :: 0 <= c < WIDTH ==>
                  u.lines[t.row][c] == if t.col <= c < t.col + n then Cell(t.attr, SPACE) else t.lines[t.row][c])
            && forall r :: 0 <= r < |t.lines| && r != t.row && (r != t.row + 1 || t.col + n < WIDTH) ==>
                 u.lines[r] == t.lines[r]
    decreases n
  {
    hide Blank;
    if n > 0 {
      SpacesAdvance(t, n - 1);
    }
  }

  // ---------------------------------------------------------------------------------------
  // The ring
  // ---------------------------------------------------------------------------------------

  function MinRow(row: nat): nat {
    if row + 1 > RING then row + 1 - RING else 0
  }

  function MaxStart(row: nat): nat {
    if row >= HEIGHT - 1 then row - (HEIGHT - 1) else 0
  }

  /** Every row less than 512 behind the highest one, up to the current row, is in its slot. */
  ghost predicate Mirrors(ring: seq<Row>, t: Term) {
    && |ring| == RING && Proper(t)
    && forall r :: 0 <= r <= t.row && r > |t.lines| - 1 - RING ==> ring[r % RING] == t.lines[r]
  }

  lemma SlotsDiffer(r: nat, q: nat)
    requires r < q < r + RING
    ensures r % RING != q % RING
  {
  }

  lemma PokeMirrors(ring: seq<Row>, t: Term, c: byte)
    requires Mirrors(ring, t)
    ensures var slot := t.row % RING; Mirrors(ring[slot := ring[slot][t.col := Cell(t.attr, c)]], Poke(t, c))
  {
    var slot := t.row % RING;
    var ring' := ring[slot := ring[slot][t.col := Cell(t.attr, c)]];
    forall r | 0 <= r <= t.row && r > |t.lines| - 1 - RING ensures ring'[r % RING] == Poke(t, c).lines[r] {
      if r < t.row {
        SlotsDiffer(r, t.row);
      }
    }
  }

  lemma NewLineMirrors(ring: seq<Row>, t: Term)
    requires Mirrors(ring, t)
    ensures Mirrors(ring[(t.row + 1) % RING := Blank(t.attr)], NewLine(t))
  {
    hide Blank;
    var n := NewLine(t);
    var ring' := ring[(t.row + 1) % RING := Blank(t.attr)];
    forall r | 0 <= r <= n.row && r > |n.lines| - 1 - RING ensures ring'[r % RING] == n.lines[r] {
      if r < n.row {
        SlotsDiffer(r, n.row);
      }
    }
  }

  /** Stepping the cursor back onto an earlier row keeps the picture. */
  lemma BackMirrors(ring: seq<Row>, t: Term, row: nat, col: nat)
    requires Mirrors(ring, t) && row <= t.row && col < WIDTH
    ensures Mirrors(ring, t.(row := row, col := col))
  {
  }

  /** What the 25 visible rows show when the window starts at `start`. */
  function Visible(ring: seq<Row>, row: nat, start: nat, attr: byte, k: nat): Row
    requires |ring| == RING
  {
    if start + k < MinRow(row) || start + k > row then Blank(attr) else ring[(start + k) % RING]
  }

  /** A visible row less than 512 behind the highest one shows exactly what the ideal terminal
      holds there, and rows below the cursor are blank. While the cursor is on the highest row
      that covers the whole window. */
  lemma VisibleIsIdeal(ring: seq<Row>, t: Term, start: nat, k: nat)
    requires Mirrors(ring, t)
    ensures start + k > t.row ==> Visible(ring, t.row, start, t.attr, k) == Blank(t.attr)
    ensures start + k <= t.row && start + k > |t.lines| - 1 - RING ==>
              Visible(ring, t.row, start, t.attr, k) == t.lines[start + k]
    ensures t.row == |t.lines| - 1 && MinRow(t.row) <= start ==> start + k > |t.lines| - 1 - RING
  {
  }

  /** The window at the bottom shows the cursor's row last, or starts at row 0 while there are no
      25 rows yet; the oldest row it may start at is 511 above the cursor's. */
  lemma WindowBounds(row: nat)
    ensures MaxStart(row) == if row < 24 then 0 else row - 24
    ensures MinRow(row) == if row < 512 then 0 else row - 511
  {
  }

  /** Stepping back from the first row that overwrote the ring, the kernel keeps showing row 0,
      with the contents of row 512. */
  lemma SteppedBack(ring: seq<Row>, t: Term)
    requires Mirrors(ring, t) && t.row == RING && |t.lines| == RING + 1 && t.col == 0
    ensures var u, slot := Erase(t), (RING - 1) % RING;
            var ring' := ring[slot := ring[slot][WIDTH - 1 := Cell(t.attr, SPACE)]];
            && Mirrors(ring', u) && u.row == RING - 1 && MinRow(u.row) == 0
            && Visible(ring', u.row, 0, u.attr, 0) == t.lines[RING] && u.lines[0] == t.lines[0]
  {
    hide Blank;
    BackMirrors(ring, t, RING - 1, WIDTH - 1);
    PokeMirrors(ring, t.(row := RING - 1, col := WIDTH - 1), SPACE);
    assert RING % RING == 0;
  }

  /** One letter and 512 line feeds: a backspace then brings back a blank where the letter was. */
  lemma LetterIsLost(attr: byte, ring: seq<Row>)
    requires Mirrors(ring, Feeds(attr, RING))
    ensures var t := Feeds(attr, RING);
            var u, slot := Erase(t), (RING - 1) % RING;
            var ring' := ring[slot := ring[slot][WIDTH - 1 := Cell(attr, SPACE)]];
            Visible(ring', u.row, 0, attr, 0) != u.lines[0]
  {
    hide Mirrors, Blank, Feeds, Visible;
    FeedsForm(attr, RING);
    SteppedBack(ring, Feeds(attr, RING));
    BlankCells(attr);
  }

  /** "A" and `n` line feeds on a fresh terminal. */
  function Feeds(attr: byte, n: nat): (t: Term)
    ensures Proper(t)
  {
    if n == 0 then Type(Fresh(attr), 65) else Type(Feeds(attr, n - 1), NEWLINE)
  }

  lemma {:induction false} FeedsForm(attr: byte, n: nat)
    ensures var t := Feeds(attr, n);
            && t.row == n && |t.lines| == n + 1 && t.attr == attr && t.lines[0][0] == Cell(attr, 65)
            && (n > 0 ==> t.col == 0 && t.lines[n] == Blank(attr))
  {
    hide Blank;
    if n > 0 {
      FeedsForm(attr, n - 1);
    }
  }

  lemma BlankCells(attr: byte)
    ensures Blank(attr)[0] == Cell(attr, SPACE) && Cell(attr, SPACE) != Cell(attr, 65)
  {
  }

  class Console {
    const ring: array<Row>
    const vga: array<u16>
    var row: nat
    var col: nat
    var attr: byte
    var viewStart: nat
    var followTail: bool
    /** What an ideal terminal would hold by now. */
    ghost var term: Term

    ghost predicate Valid()
      reads this, ring
    {
      && ring.Length == 512 && vga.Length == 80 * 25
      && Mirrors(ring[..], term) && term.row == row && term.col == col && term.attr == attr
    }

    /** The window lies within the kept rows, and at the bottom while following. */
    predicate InView()
      reads this
    {
      MinRow(row) <= viewStart <= MaxStart(row) && (followTail ==> viewStart == MaxStart(row))
    }

    ghost predicate Rendered()
      reads this, ring, vga
      requires ring.Length == RING && vga.Length == WIDTH * HEIGHT
    {
      forall k :: 0 <= k < 25 ==> vga[k * 80..k * 80 + 80] == Visible(ring[..], row, viewStart, attr, k)
    }

    /** `console_clear`, for the given colours. */
    constructor (attr: byte)
      ensures Valid() && InView() && term == Fresh(attr)
      ensures fresh(ring) && fresh(vga)
    {
      hide Blank;
      ring := new Row[RING](_ => Blank(attr));
      vga := new u16[WIDTH * HEIGHT](_ => 0);
      row, col, viewStart, followTail := 0, 0, 0, true;
      this.attr := attr;
      term := Fresh(attr);
    }

    method CopyRow(k: nat, cells: Row)
      requires vga.Length == WIDTH * HEIGHT && k < HEIGHT
      modifies vga
      ensures vga[k * WIDTH..k * WIDTH + WIDTH] == cells
      ensures forall j :: 0 <= j < k * WIDTH || k * WIDTH + WIDTH <= j < vga.Length ==> vga[j] == old(vga[j])
    {
      var c := 0;
      while c < WIDTH
        invariant 0 <= c <= WIDTH
        invariant forall j :: 0 <= j < c ==> vga[k * WIDTH + j] == cells[j]
        invariant forall j :: 0 <= j < k * WIDTH || k * WIDTH + WIDTH <= j < vga.Length ==> vga[j] == old(vga[j])
      {
        vga[k * WIDTH + c] := cells[c];
        c := c + 1;
      }
    }

    method RenderView()
      requires Valid()
      modifies vga
      ensures Valid() && Rendered()
      ensures forall k :: 0 <= k < 25 ==> vga[k * 80..k * 80 + 80] == Visible(ring[..], row, viewStart, attr, k)
    {
      hide Visible, Blank, Mirrors;
      var k := 0;
      while k < HEIGHT
        invariant 0 <= k <= HEIGHT
        invariant forall j :: 0 <= j < k ==>
                  vga[j * WIDTH..j * WIDTH + WIDTH] == Visible(ring[..], row, viewStart, attr, j)
      {
        ghost var before := vga[..];
        VisibleRow(ring[..], row, viewStart, attr, k);
        if viewStart + k < MinRow(row) || viewStart + k > row {
          CopyRow(k, Blank(attr));
        } else {
          CopyRow(k, ring[(viewStart + k) % RING]);
        }
        forall j | 0 <= j < k ensures vga[j * WIDTH..j * WIDTH + WIDTH] == Visible(ring[..], row, viewStart, attr, j) {
          assert vga[j * WIDTH..j * WIDTH + WIDTH] == before[j * WIDTH..j * WIDTH + WIDTH];
        }
        k := k + 1;
      }
    }

    method SetCell(r: nat, c: nat, ch: byte)
      requires ring.Length == RING && c < WIDTH
      modifies ring
      ensures ring[..] == old(ring[..])[r % RING := old(ring[..])[r % RING][c := Cell(attr, ch)]]
    {
      ring[r % RING] := ring[r % RING][c := Cell(attr, ch)];
    }

    method AdvanceNewLine()
      requires ring.Length == RING && vga.Length == WIDTH * HEIGHT && Mirrors(ring[..], term)
      requires term.row == row && term.attr == attr
      modifies this`row, this`col, this`term, ring
      ensures Valid() && term == NewLine(old(term))
    {
      hide Blank, Mirrors;
      NewLineMirrors(ring[..], term);
      row := row + 1;
      col := 0;
      ghost var before := ring[..];
      ring[row % RING] := Blank(attr);
      assert ring[..] == before[row % RING := Blank(attr)];
      term := NewLine(term);
    }

    method WriteVisible(c: byte)
      requires Valid()
      modifies this`row, this`col, this`term, ring
      ensures Valid() && term == Show(old(term), c)
    {
      hide Blank, Mirrors, NewLine;
      MirrorsProper(ring[..], term);
      PokeMirrors(ring[..], term, c);
      SetCell(row, col, c);
      term := Poke(term, c);
      col := col + 1;
      if col >= WIDTH {
        AdvanceNewLine();
      } else {
        BackMirrors(ring[..], term, row, col);
        term := term.(col := col);
      }
    }

    /** Backspace blanks the cell before the cursor, across the start of a row if need be. */
    method EraseBack()
      requires Valid()
      modifies this`row, this`col, this`term, ring
      ensures Valid() && term == Erase(old(term))
    {
      hide Blank, Mirrors;
      MirrorsProper(ring[..], term);
      if col > 0 {
        col := col - 1;
      } else if row > 0 {
        row := row - 1;
        col := WIDTH - 1;
      } else {
        return;
      }
      BackMirrors(ring[..], term, row, col);
      ghost var moved := term.(row := row, col := col);
      PokeMirrors(ring[..], moved, SPACE);
      SetCell(row, col, SPACE);
      term := Poke(moved, SPACE);
    }

    method WriteSpaces(n: nat)
      requires Valid()
      modifies this`row, this`col, this`term, ring
      ensures Valid() && old(Proper(term)) && term == Spaces(old(term), n)
    {
      hide Blank, Mirrors, Show;
      MirrorsProper(ring[..], term);
      ghost var start := term;
      var i := 0;
      while i < n
        invariant 0 <= i <= n && Valid() && term == Spaces(start, i)
      {
        WriteVisible(SPACE);
        i := i + 1;
      }
    }

    method ViewportClamp()
      modifies this`viewStart
      ensures viewStart == if old(viewStart) < MinRow(row) then MinRow(row)
                           else if old(viewStart) > MaxStart(row) then MaxStart(row)
                           else old(viewStart)
    {
      var minStart, maxStart := MinRow(row), MaxStart(row);
      if viewStart < minStart {
        viewStart := minStart;
      }
      if viewStart > maxStart {
        viewStart := maxStart;
      }
    }

    method AfterOutput()
      modifies this`viewStart
      ensures InView()
    {
      if followTail {
        viewStart := MaxStart(row);
      } else {
        ViewportClamp();
      }
    }

    /** `console_putc`: the ring follows the ideal terminal, the window stays in bounds, and the
        screen shows what it should. */
    method Putc(c: byte)
      requires Valid()
      modifies this`row, this`col, this`term, this`viewStart, ring, vga
      ensures Valid() && InView() && Rendered()
      ensures MinRow(row) <= viewStart <= MaxStart(row) && (followTail ==> viewStart == MaxStart(row))
      ensures old(Proper(term)) && term == Type(old(term), c)
    {
      hide Blank, Mirrors, NewLine, Show, Erase, Spaces, MaxStart, MinRow, Visible;
      MirrorsProper(ring[..], term);
      if c == RETURN {
        BackMirrors(ring[..], term, row, 0);
        col := 0;
        term := term.(col := 0);
      } else if c == NEWLINE {
        AdvanceNewLine();
      } else if c == BACKSPACE {
        EraseBack();
      } else if c == TAB {
        WriteSpaces(4 - col % 4);
      } else if c >= SPACE {
        WriteVisible(c);
      }
      AfterOutput();
      RenderView();
    }

    /** `console_scroll_view`: up for positive, down for negative; following resumes exactly at
        the bottom. */
    method ScrollView(delta: int)
      requires Valid() && InView()
      modifies this`viewStart, this`followTail, vga
      ensures Valid() && InView()
      ensures delta == 0 ==> viewStart == old(viewStart) && followTail == old(followTail) && vga[..] == old(vga[..])
      ensures delta != 0 ==> Rendered() && (followTail <==> viewStart == MaxStart(row))
      ensures delta > 0 ==>
              viewStart == if old(viewStart) - delta < MinRow(row) then MinRow(row) else old(viewStart) - delta
      ensures delta < 0 ==>
              viewStart == if old(viewStart) - delta > MaxStart(row) then MaxStart(row) else old(viewStart) - delta
    {
      hide Blank, Mirrors, Visible;
      if delta == 0 {
        return;
      }
      var minStart, maxStart := MinRow(row), MaxStart(row);
      if delta > 0 {
        if delta > viewStart - minStart {
          viewStart := minStart;
        } else {
          viewStart := viewStart - delta;
        }
      } else {
        if viewStart - delta > maxStart {
          viewStart := maxStart;
        } else {
          viewStart := viewStart - delta;
        }
      }
      followTail := viewStart == maxStart;
      RenderView();
    }

    method ViewToBottom()
      requires Valid()
      modifies this`viewStart, this`followTail, vga
      ensures Valid() && InView() && Rendered() && followTail
    {
      hide Blank, Mirrors, Visible;
      viewStart := MaxStart(row);
      followTail := true;
      RenderView();
    }

    /** Write a string character by character. */
    method WriteN(s: Str)
      requires Valid() && InView()
      modifies this`row, this`col, this`term, this`viewStart, ring, vga
      ensures Valid() && InView() && old(Proper(term)) && term == TypeAll(old(term), s)
    {
      hide Blank, Mirrors, Type, MaxStart, MinRow, Visible;
      MirrorsProper(ring[..], term);
      ghost var start := term;
      var i := 0;
      assert s[..0] == [];
      while i < |s|
        invariant 0 <= i <= |s| && Valid() && InView()
        invariant term == TypeAll(start, s[..i])
      {
        assert DropLast(s[..i + 1]) == s[..i];
        Putc(s[i]);
        i := i + 1;
      }
      assert s[..i] == s;
    }

    /** Changing colours affects later output only. */
    method SetAttr(a: byte)
      requires Valid() && InView()
      modifies this`attr, this`term
      ensures Valid() && InView() && term == old(term).(attr := a)
    {
      attr := a;
      term := term.(attr := a);
    }
  }

  lemma MirrorsProper(ring: seq<Row>, t: Term)
    requires Mirrors(ring, t)
    ensures Proper(t) && |ring| == RING
  {
  }

  lemma VisibleRow(ring: seq<Row>, row: nat, start: nat, attr: byte, k: nat)
    requires |ring| == RING
    ensures Visible(ring, row, start, attr, k)
            == if start + k < MinRow(row) || start + k > row then Blank(attr) else ring[(start + k) % RING]
  {
  }
}
