/** The text console: a 25-row window onto an unbounded terminal. */
module Vga {
  import opened KString

  const WIDTH := 80
  const HEIGHT := 25

  type Char = bv8
  type Cell = bv16

  const NEWLINE: Char := 10
  const RETURN: Char := 13
  const TAB: Char := 9
  const SPACE: Char := 32

  const BLACK: bv16 := 0
  const WHITE: bv16 := 15

  /** `(uint16_t) ch`: chars are signed, so the top bit spreads. */
  function Widened(ch: Char): bv16 {
    ((ch as bv16) ^ 0x80) - 0x80
  }

  /** What vga_set_char stores: the character or'ed with the colour in the high byte. */
  function CellOf(ch: Char): Cell {
    Widened(ch) | ((WHITE | (BLACK << 4)) << 8)
  }

  const BLANK: Cell := CellOf(SPACE)

  // ---------------------------------------------------------------------------
  // The terminal: what a page without end would show
  // ---------------------------------------------------------------------------

  function Wrapped(r: nat, c: nat): (nat, nat) {
    if c >= WIDTH then (r + 1, 0) else (r, c)
  }

  predicate Printable(ch: Char) {
    ch != NEWLINE && ch != RETURN && ch != TAB
  }

  /** The cursor after printing s. */
  function Cursor(s: seq<Char>): (p: (nat, nat))
    ensures p.1 < WIDTH
  {
    if s == [] then (0, 0)
    else
      var (r, c) := Cursor(s[..|s| - 1]);
      var ch := s[|s| - 1];
      if ch == NEWLINE then (r + 1, c)
      else if ch == RETURN then (r, 0)
      else Wrapped(r, if ch == TAB then c + 4 else c + 1)
  }

  /** What stands in row r, column c after printing s. */
  function Shown(s: seq<Char>, r: nat, c: nat): Cell {
    if s == [] then BLANK
    else
      var t, ch := s[..|s| - 1], s[|s| - 1];
      if Printable(ch) && Cursor(t) == (r, c) then CellOf(ch) else Shown(t, r, c)
  }

  /** How many rows have scrolled away: the window keeps the cursor in row 23 or above. */
  function Scrolled(s: seq<Char>): nat {
    if Cursor(s).0 > HEIGHT - 2 then Cursor(s).0 - (HEIGHT - 2) else 0
  }

  /** Nothing stands below the cursor's row. */
  lemma {:induction false} BlankBelow(s: seq<Char>, r: nat, c: nat)
    requires r > Cursor(s).0
    ensures Shown(s, r, c) == BLANK
  {
    if s != [] {
      BlankBelow(s[..|s| - 1], r, c);
    }
  }

  /** The cursor never moves up. */
  lemma {:induction false} CursorDescends(s: seq<Char>, t: seq<Char>)
    ensures Cursor(s).0 <= Cursor(s + t).0
  {
    if t == [] {
      assert s + t == s;
    } else {
      assert (s + t)[..|s + t| - 1] == s + t[..|t| - 1];
      CursorDescends(s, t[..|t| - 1]);
    }
  }

  /** Rows above the cursor, and so all rows that have scrolled away, are final. */
  lemma {:induction false} RowsAboveAreFinal(s: seq<Char>, t: seq<Char>, r: nat, c: nat)
    requires r < Cursor(s).0
    ensures Shown(s + t, r, c) == Shown(s, r, c)
  {
    if t == [] {
      assert s + t == s;
    } else {
      assert (s + t)[..|s + t| - 1] == s + t[..|t| - 1];
      CursorDescends(s, t[..|t| - 1]);
      RowsAboveAreFinal(s, t[..|t| - 1], r, c);
    }
  }

  // ---------------------------------------------------------------------------
  // What the terminal does, in numbers
  // ---------------------------------------------------------------------------

  /** Characters that are no tab, newline or carriage return. */
  predicate Plain(s: seq<Char>) {
    forall k :: 0 <= k < |s| ==> s[k] != 9 && s[k] != 10 && s[k] != 13
  }

  lemma {:induction false} PlainCursor(s: seq<Char>)
    requires Plain(s)
    ensures Cursor(s) == (|s| / 80, |s| % 80)
  {
    if s != [] {
      PlainCursor(s[..|s| - 1]);
      NextColumn(|s| - 1);
    }
  }

  lemma NextColumn(n: nat)
    ensures ((n + 1) / 80, (n + 1) % 80) == Wrapped(n / 80, n % 80 + 1)
  {
  }

  /** Text fills rows of 80 from the top left corner, and the k-th character stands where it belongs. */
  lemma {:induction false} PlainText(s: seq<Char>, k: nat)
    requires Plain(s) && k < |s|
    ensures Cursor(s) == (|s| / 80, |s| % 80)
    ensures Shown(s, k / 80, k % 80) == CellOf(s[k])
  {
    hide CellOf, Cursor;
    PlainCursor(s);
    var n := |s| - 1;
    PlainCursor(s[..n]);
    if k < n {
      PlainText(s[..n], k);
      assert k / 80 == n / 80 && k % 80 == n % 80 ==> k == n;
    }
  }

  /** A newline keeps the column, a carriage return the row; together they start the next row, in either order. */
  lemma LineBreaks(s: seq<Char>)
    ensures Cursor(s + [10]) == (Cursor(s).0 + 1, Cursor(s).1) && Cursor(s + [13]) == (Cursor(s).0, 0)
    ensures Cursor(s + [10] + [13]) == Cursor(s + [13] + [10]) == (Cursor(s).0 + 1, 0)
  {
    hide Cursor;
    CursorStep(s, 10);
    CursorStep(s, 13);
    CursorStep(s + [10], 13);
    CursorStep(s + [13], 10);
  }

  /** A tab moves four columns without writing; it ends where four blanks would, exactly up to column 76. */
  lemma TabIsFourBlanks(s: seq<Char>)
    ensures Cursor(s + [9]) == if Cursor(s).1 < 76 then (Cursor(s).0, Cursor(s).1 + 4) else (Cursor(s).0 + 1, 0)
    ensures Cursor(s + [9]) == Cursor(s + [32] + [32] + [32] + [32]) <==> Cursor(s).1 <= 76
  {
    hide Cursor;
    CursorStep(s, 9);
    CursorStep(s, 32);
    CursorStep(s + [32], 32);
    CursorStep(s + [32] + [32], 32);
    CursorStep(s + [32] + [32] + [32], 32);
  }

  /** The control characters write nothing. */
  lemma ControlsWriteNothing(s: seq<Char>, ch: Char, r: nat, c: nat)
    requires ch == 9 || ch == 10 || ch == 13
    ensures Shown(s + [ch], r, c) == Shown(s, r, c)
  {
    hide CellOf, Cursor;
    assert (s + [ch])[..|s + [ch]| - 1] == s;
  }

  /**
   * White on black with its own code is what a character gets exactly when it is ASCII; the sign of
   * any other fills the colour byte with ones.
   */
  lemma AsciiIsWhiteOnBlack(ch: Char)
    ensures CellOf(ch) >> 8 == 0x0f && CellOf(ch) & 0xff == ch as bv16 <==> ch < 0x80
    ensures ch >= 0x80 ==> CellOf(ch) == 0xff00 | ch as bv16
  {
  }

  // ---------------------------------------------------------------------------
  // The console
  // ---------------------------------------------------------------------------

  class Console {
    const screen: array<Cell>
    var row: nat
    var col: nat
    ghost var printed: seq<Char>   // since the last vga_clear

    /** The screen is the window onto the terminal that starts at the first row not scrolled away. */
    ghost predicate Valid()
      reads this, screen
    {
      && screen.Length == WIDTH * HEIGHT
      && col == Cursor(printed).1
      && row + Scrolled(printed) == Cursor(printed).0 && row <= HEIGHT - 2
      && Window(screen[..], printed, Scrolled(printed))
    }

    constructor (screen: array<Cell>)
      requires screen.Length == WIDTH * HEIGHT
      ensures this.screen == screen
    {
      this.screen, row, col, printed := screen, 0, 0, [];
    }

    /** The screen in numbers: 25 rows of 80, from the row that brings the cursor into row 23 or above; blanks are 0x0f20. */
    lemma ScreenIs(r: nat, c: nat)
      requires Valid() && r < 25 && c < 80
      ensures var (cr, cc) := Cursor(printed); var top := if cr > 23 then cr - 23 else 0;
        && screen.Length == 2000 && (row, col) == (cr - top, cc)
        && screen[80 * r + c] == Shown(printed, top + r, c)
        && (top + r > cr ==> screen[80 * r + c] == 0x0f20)
    {
      hide Cursor, Shown;
      var top := Scrolled(printed);
      assert At(screen[..], r, c) == Shown(printed, top + r, c);
      if top + r > Cursor(printed).0 {
        BlankBelow(printed, top + r, c);
      }
    }

    /** The row below the cursor's lowest stays blank, though no scroll ever clears it. */
    lemma BottomRowBlank(c: nat)
      requires Valid() && c < WIDTH
      ensures row <= 23 && col <= 79 && At(screen[..], HEIGHT - 1, c) == BLANK
    {
      assert At(screen[..], HEIGHT - 1, c) == Shown(printed, Scrolled(printed) + HEIGHT - 1, c);
      BlankBelow(printed, Scrolled(printed) + HEIGHT - 1, c);
    }

    method SetChar(r: nat, c: nat, ch: Char)
      requires screen.Length == WIDTH * HEIGHT && r < HEIGHT && c < WIDTH
      modifies screen
      ensures screen[r * WIDTH + c] == CellOf(ch)
      ensures forall k :: 0 <= k < screen.Length && k != r * WIDTH + c ==> screen[k] == old(screen[k])
    {
      screen[r * WIDTH + c] := CellOf(ch);
    }

    method Clear()
      requires screen.Length == WIDTH * HEIGHT
      modifies this, screen
      ensures Valid() && printed == []
    {
      for r := 0 to HEIGHT
        invariant forall k :: 0 <= k < r * WIDTH ==> screen[k] == BLANK
      {
        for c := 0 to WIDTH
          invariant forall k :: 0 <= k < r * WIDTH + c ==> screen[k] == BLANK
        {
          SetChar(r, c, SPACE);
        }
      }
      row, col, printed := 0, 0, [];
    }

    method ScrollDown(rows: nat)
      requires screen.Length == WIDTH * HEIGHT && rows <= HEIGHT
      modifies screen
      ensures forall k :: 0 <= k < WIDTH * (HEIGHT - rows) ==> screen[k] == old(screen[k + WIDTH * rows])
      ensures forall k :: WIDTH * (HEIGHT - rows) <= k < WIDTH * HEIGHT ==> screen[k] == old(screen[k])
    {
      Memmove(screen, 0, WIDTH * rows, WIDTH * HEIGHT - WIDTH * rows);
    }

    method Putchar(ch: Char)
      requires Valid()
      modifies this, screen
      ensures Valid() && printed == old(printed) + [ch]
    {
      hide Cursor, Shown, Window;
      ghost var s, s', cells := printed, printed + [ch], screen[..];
      CursorStep(s, ch);
      if ch == NEWLINE {
        row := row + 1;
      } else if ch == RETURN {
        col := 0;
      } else if ch == TAB {
        col := col + 4;
      } else {
        SetChar(row, col, ch);
        col := col + 1;
      }
      PutWindow(cells, screen[..], s, ch, old(row), old(col));
      ghost var put := screen[..];
      if col >= WIDTH {
        col := 0;
        row := row + 1;
      }
      if row >= HEIGHT - 1 {
        ScrollDown(1);
        row := row - 1;
        ScrollWindow(put, screen[..], s, ch);
      }
      printed := s';
    }

    method Print(str: seq<Char>)
      requires Valid()
      modifies this, screen
      ensures Valid() && printed == old(printed) + UpToNul(str)
    {
      hide Console.Valid;
      var i := 0;
      while i < |str| && str[i] != 0
        invariant 0 <= i <= |str| && Valid()
        invariant printed == old(printed) + str[..i]
        invariant UpToNul(str) == str[..i] + UpToNul(str[i..])
        decreases |str| - i
      {
        Putchar(str[i]);
        assert str[i..][1..] == str[i + 1..];
        assert str[..i + 1] == str[..i] + [str[i]];
        i := i + 1;
      }
    }
  }

  lemma CursorStep(s: seq<Char>, ch: Char)
    ensures var (r, c) := Cursor(s);
      Cursor(s + [ch]) == if ch == NEWLINE then (r + 1, c) else if ch == RETURN then (r, 0)
                          else Wrapped(r, if ch == TAB then c + 4 else c + 1)
  {
    assert (s + [ch])[..|s + [ch]| - 1] == s;
  }

  /** A C string ends before its first NUL. */
  function UpToNul(str: seq<Char>): seq<Char> {
    if str == [] || str[0] == 0 then [] else [str[0]] + UpToNul(str[1..])
  }

  /** It is everything in front of the first NUL, and all of the string if there is none. */
  lemma {:induction false} UpToNulIs(str: seq<Char>)
    ensures var t := UpToNul(str);
      t <= str && 0 !in t && (t == str || str[|t|] == 0)
  {
    if str != [] && str[0] != 0 {
      UpToNulIs(str[1..]);
    }
  }

  lemma AtApart(cells: seq<Cell>, cells': seq<Cell>, r: nat, c: nat, ch: Char)
    requires |cells| == |cells'| == WIDTH * HEIGHT && r < HEIGHT && c < WIDTH
    requires cells'[r * WIDTH + c] == CellOf(ch)
    requires forall k :: 0 <= k < |cells| && k != r * WIDTH + c ==> cells'[k] == cells[k]
    ensures forall r': nat, c': nat :: r' < HEIGHT && c' < WIDTH ==>
              At(cells', r', c') == if r' == r && c' == c then CellOf(ch) else At(cells, r', c')
  {
  }

  /** What one more character changes on the terminal. */
  lemma ShownStep(s: seq<Char>, ch: Char, r: nat, c: nat)
    ensures Shown(s + [ch], r, c) == if Printable(ch) && Cursor(s) == (r, c) then CellOf(ch) else Shown(s, r, c)
  {
    hide CellOf, Cursor;
    assert (s + [ch])[..|s + [ch]| - 1] == s;
  }

  /** The cell under the cursor is all that printing a character changes, on the screen and on the terminal. */
  lemma PutWindow(cells: seq<Cell>, cells': seq<Cell>, s: seq<Char>, ch: Char, row: nat, col: nat)
    requires |cells| == |cells'| == WIDTH * HEIGHT && Window(cells, s, Scrolled(s))
    requires row < HEIGHT && col < WIDTH && Cursor(s) == (row + Scrolled(s), col)
    requires Printable(ch) ==> cells'[row * WIDTH + col] == CellOf(ch)
    requires forall j :: 0 <= j < |cells| && (Printable(ch) ==> j != row * WIDTH + col) ==> cells'[j] == cells[j]
    ensures Window(cells', s + [ch], Scrolled(s))
  {
    hide CellOf, Cursor, Shown, Printable, Scrolled;
    var from := Scrolled(s);
    if Printable(ch) {
      AtApart(cells, cells', row, col, ch);
    } else {
      assert cells' == cells;
    }
    forall r: nat, c: nat | r < HEIGHT && c < WIDTH
      ensures At(cells', r, c) == Shown(s + [ch], from + r, c)
    {
      assert At(cells, r, c) == Shown(s, from + r, c);
      ShownStep(s, ch, from + r, c);
    }
  }

  /** The cursor has just entered the bottom row: nothing stands there or below, so a scroll shows the next window. */
  lemma ScrollWindow(cells: seq<Cell>, cells': seq<Cell>, s: seq<Char>, ch: Char)
    requires |cells| == |cells'| == WIDTH * HEIGHT && Window(cells, s + [ch], Scrolled(s))
    requires Cursor(s + [ch]).0 == Cursor(s).0 + 1 == Scrolled(s) + HEIGHT - 1
    requires forall k :: 0 <= k < WIDTH * (HEIGHT - 1) ==> cells'[k] == cells[k + WIDTH]
    requires forall k :: WIDTH * (HEIGHT - 1) <= k < WIDTH * HEIGHT ==> cells'[k] == cells[k]
    ensures Scrolled(s + [ch]) == Scrolled(s) + 1
    ensures Window(cells', s + [ch], Scrolled(s) + 1)
  {
    var s' := s + [ch];
    assert s'[..|s'| - 1] == s;
    forall r: nat, c: nat | r < HEIGHT && c < WIDTH
      ensures At(cells', r, c) == Shown(s', Scrolled(s) + 1 + r, c)
    {
      if r < HEIGHT - 1 {
        assert At(cells', r, c) == At(cells, r + 1, c);
      } else {
        assert At(cells', r, c) == At(cells, r, c);
        BlankBelow(s, Scrolled(s) + r, c);
        BlankBelow(s', Scrolled(s) + 1 + r, c);
      }
    }
  }

  /** Rows `from` to from + 24 of the terminal are on the screen. */
  ghost predicate Window(cells: seq<Cell>, s: seq<Char>, from: nat)
    requires |cells| == WIDTH * HEIGHT
  {
    forall r: nat, c: nat :: r < HEIGHT && c < WIDTH ==> At(cells, r, c) == Shown(s, from + r, c)
  }

  function At(cells: seq<Cell>, r: nat, c: nat): Cell
    requires |cells| == WIDTH * HEIGHT && r < HEIGHT && c < WIDTH
  {
    cells[r * WIDTH + c]
  }
}
