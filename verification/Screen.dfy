// kernel/screen.c: the scrolling 80 x 25 text screen shows the end of an
// unbounded tape of cells written by the same characters.

module Screen {
  import opened Memory
  import KString

  const WIDTH: nat := 80
  const HEIGHT: nat := 25
  const CELLS: nat := 2000

  const NEWLINE: nat := 10
  const RETURN: nat := 13
  const TAB: nat := 9
  const BACKSPACE: nat := 8

  // make_vgaentry (kernel/screen.c:11-15): char is signed, so that a character
  // from 128 on is extended by eight one bits, which swallow the colour.
  function Cell(c: nat, color: nat): nat {
    if c < 128 then c + 256 * color else 0xFF00 + c
  }

  // The cell shows the character in the colour exactly for 7-bit characters -
  // and in the one colour that is all ones.
  lemma CellShows(c: nat, color: nat)
    requires c < 256 && color < 256
    ensures Cell(c, color) < 0x1_0000 && Cell(c, color) % 256 == c
    ensures Cell(c, color) / 256 == color <==> c < 128 || color == 255
  {
  }

  function Blanks(n: nat, color: nat): (r: seq<nat>)
    ensures |r| == n && forall i | 0 <= i < n :: r[i] == Cell(32, color)
  {
    seq(n, _ => Cell(32, color))
  }

  // ---------------------------------------------------------------- the tape

  // All cells ever written, row after row, and where the next one goes.
  datatype Tape = Tape(cells: seq<nat>, at: nat)

  ghost predicate TapeOk(t: Tape) {
    |t.cells| % WIDTH == 0 && |t.cells| >= CELLS && |t.cells| - CELLS <= t.at < |t.cells|
  }

  // A blank row is added when the end is reached.
  function Extended(t: Tape, color: nat): Tape {
    if t.at < |t.cells| then t else t.(cells := t.cells + Blanks(WIDTH, color))
  }

  // A buffer that shows the end of the tape, and the cursor on it.
  ghost predicate Shows(b: seq<nat>, t: Tape, x: nat, y: nat) {
    && |t.cells| % WIDTH == 0 && |t.cells| >= CELLS && b == t.cells[|t.cells| - CELLS..]
    && t.at == |t.cells| - CELLS + y * WIDTH + x
  }

  // Scrolling shows the tape after a blank row has been added.
  lemma ScrolledOn(b: seq<nat>, t: Tape, x: nat, color: nat)
    requires Shows(b, t, x, HEIGHT)
    ensures |b| == CELLS && Shows(b[WIDTH..] + Blanks(WIDTH, color), Extended(t, color), x, HEIGHT - 1)
  {
  }

  predicate IsControl(c: nat) {
    c == NEWLINE || c == RETURN || c == TAB || c == BACKSPACE
  }

  // Where a control character moves to; tab stops are multiples of 8, and so
  // are row starts.
  function Moved(at: nat, c: nat): nat {
    if c == NEWLINE then (at / WIDTH + 1) * WIDTH
    else if c == RETURN then at / WIDTH * WIDTH
    else if c == TAB then (at / 8 + 1) * 8
    else if at % WIDTH > 0 then at - 1 else at
  }

  lemma ControlAt(at: nat, c: nat)
    requires IsControl(c)
    ensures c == 10 ==> Moved(at, c) % 80 == 0 && Moved(at, c) / 80 == at / 80 + 1
    ensures c == 13 ==> Moved(at, c) % 80 == 0 && Moved(at, c) / 80 == at / 80
    ensures c == 9 ==> Moved(at, c) % 8 == 0 && at < Moved(at, c) <= at + 8 && Moved(at, c) <= 80 * (at / 80 + 1)
    ensures c == 8 ==> Moved(at, c) / 80 == at / 80 && Moved(at, c) % 80 == if at % 80 > 0 then at % 80 - 1 else 0
  {
  }

  function Struck(t: Tape, c: nat, color: nat): Tape
    requires TapeOk(t)
  {
    if IsControl(c) then t.(at := Moved(t.at, c)) else Tape(t.cells[t.at := Cell(c, color)], t.at + 1)
  }

  function Type(t: Tape, c: nat, color: nat): Tape
    requires TapeOk(t)
  {
    Extended(Struck(t, c, color), color)
  }

  lemma RowOf(base: nat, y: nat, x: nat)
    requires base % WIDTH == 0 && x < WIDTH
    ensures (base + y * WIDTH + x) % WIDTH == x && (base + y * WIDTH + x) / WIDTH * WIDTH == base + y * WIDTH
  {
    var rows := base / WIDTH + y;
    assert base + y * WIDTH == rows * WIDTH;
    assert (rows * WIDTH + x) / WIDTH == rows;
  }

  lemma StopOf(base: nat, y: nat, x: nat)
    requires base % WIDTH == 0
    ensures (base + y * WIDTH + x) / 8 * 8 == base + y * WIDTH + x / 8 * 8
  {
    var stops := base / WIDTH * 10 + y * 10;
    assert base + y * WIDTH == stops * 8;
    assert (stops * 8 + x) / 8 == stops + x / 8;
  }

  // The cursor after a character has been struck, before lines are wrapped.
  function ColumnAfter(x: nat, c: nat): nat {
    if c == NEWLINE || c == RETURN then 0
    else if c == TAB then (x + 8) / 8 * 8
    else if c == BACKSPACE then if x > 0 then x - 1 else 0
    else x + 1
  }

  function RowAfter(y: nat, c: nat): nat {
    if c == NEWLINE then y + 1 else y
  }

  // ... and once lines are wrapped and the screen is scrolled.
  function WrappedX(x: nat): nat {
    if x >= WIDTH then 0 else x
  }

  function WrappedY(x: nat, y: nat): nat {
    if x >= WIDTH && y < HEIGHT - 1 then y + 1 else if y >= HEIGHT then HEIGHT - 1 else y
  }

  lemma CursorGoes(x: nat, y: nat, c: nat)
    requires x < 80 && y < 25
    ensures var x', y' := ColumnAfter(x, c), RowAfter(y, c);
            var u, v := WrappedX(x'), WrappedY(x', y');
            && x' <= 80 && y' <= 25 && (y' == 25 ==> x' == 0) && u < 80 && v < 25
            && (c == 10 ==> u == 0 && v == if y == 24 then 24 else y + 1)
            && (c == 13 ==> u == 0 && v == y)
            && (c == 9 && x < 72 ==> u % 8 == 0 && x < u <= x + 8 && v == y)
            && (c == 8 ==> u == (if x > 0 then x - 1 else 0) && v == y)
            && ((c == 9 && x >= 72) || (!IsControl(c) && x == 79) ==> u == 0 && v == if y == 24 then 24 else y + 1)
            && (!IsControl(c) && x < 79 ==> u == x + 1 && v == y)
  {
    if c == 9 {
      assert (x + 8) / 8 * 8 <= x + 8 < (x + 8) / 8 * 8 + 8;
    }
  }

  // The buffer after it.
  function BufferAfter(b: seq<nat>, x: nat, y: nat, c: nat, color: nat): seq<nat> {
    if IsControl(c) || y * WIDTH + x >= |b| then b else b[y * WIDTH + x := Cell(c, color)]
  }

  // They show what has become of the tape.
  lemma StruckShows(b: seq<nat>, t: Tape, x: nat, y: nat, c: nat, color: nat)
    requires TapeOk(t) && Shows(b, t, x, y) && x < WIDTH && y < HEIGHT
    ensures Shows(BufferAfter(b, x, y, c, color), Struck(t, c, color), ColumnAfter(x, c), RowAfter(y, c))
  {
    if IsControl(c) {
      var base := |t.cells| - CELLS;
      RowOf(base, y, x);
      StopOf(base, y, x);
      assert (x + 8) / 8 == x / 8 + 1;
    }
  }

  // Rows begin at multiples of the width.
  lemma InRow(base: nat, at: nat, end: nat)
    requires base % WIDTH == 0 && end % WIDTH == 0 && base <= at < end
    ensures base <= at / WIDTH * WIDTH && at / WIDTH * WIDTH + WIDTH <= end
  {
    var b, e := base / WIDTH, end / WIDTH;
    assert base == b * WIDTH && end == e * WIDTH;
  }

  lemma MovedInRow(at: nat, c: nat)
    ensures at / WIDTH * WIDTH <= Moved(at, c) <= at / WIDTH * WIDTH + WIDTH
  {
  }

  lemma TypeOk(t: Tape, c: nat, color: nat)
    requires TapeOk(t)
    ensures TapeOk(Type(t, c, color))
  {
    InRow(|t.cells| - CELLS, t.at, |t.cells|);
    MovedInRow(t.at, c);
  }

  function TypeAll(t: Tape, s: seq<byte>, color: nat): (r: Tape)
    requires TapeOk(t)
    ensures TapeOk(r)
  {
    if s == [] then t
    else
      TypeOk(TypeAll(t, s[..|s| - 1], color), s[|s| - 1], color);
      Type(TypeAll(t, s[..|s| - 1], color), s[|s| - 1], color)
  }

  lemma TypeKeeps(t: Tape, c: nat, color: nat, row: nat)
    requires TapeOk(t) && row % WIDTH == 0 && row <= t.at
    ensures var r := Type(t, c, color);
            |t.cells| <= |r.cells| && row <= r.at && r.cells[..row] == t.cells[..row]
  {
    InRow(row, t.at, |t.cells|);
    MovedInRow(t.at, c);
  }

  // The tape only grows, and nothing above the row of the cursor ever changes.
  lemma {:induction false} AppendOnly(t: Tape, s: seq<byte>, color: nat)
    requires TapeOk(t)
    ensures var r, row := TypeAll(t, s, color), t.at / WIDTH * WIDTH;
            |t.cells| <= |r.cells| && row <= r.at && r.cells[..row] == t.cells[..row]
  {
    if s != [] {
      AppendOnly(t, s[..|s| - 1], color);
      TypeKeeps(TypeAll(t, s[..|s| - 1], color), s[|s| - 1], color, t.at / WIDTH * WIDTH);
    }
  }

  // The control characters write no cell. A newline goes to column 0 of the next
  // row, a return to column 0 of the row, a tab to the next multiple of 8, a
  // backspace one column back, but not beyond the row.
  lemma ControlMoves(t: Tape, c: nat, color: nat)
    requires TapeOk(t) && (c == 10 || c == 13 || c == 9 || c == 8)
    ensures var r, x, y := Type(t, c, color), t.at % 80, t.at / 80;
            && |t.cells| <= |r.cells| && r.cells[..|t.cells|] == t.cells
            && (c == 10 ==> r.at % 80 == 0 && r.at / 80 == y + 1)
            && (c == 13 ==> r.at % 80 == 0 && r.at / 80 == y)
            && (c == 9 ==> r.at % 8 == 0 && t.at < r.at <= t.at + 8 && r.at <= 80 * (y + 1))
            && (c == 8 ==> r.at / 80 == y && r.at % 80 == if x > 0 then x - 1 else 0)
  {
    ControlAt(t.at, c);
  }

  function CellsOf(s: seq<byte>, color: nat): (r: seq<nat>)
    ensures |r| == |s|
  {
    seq(|s|, i requires 0 <= i < |s| => Cell(s[i], color))
  }

  // Text without control characters stands on the tape as it was written.
  lemma {:induction false} TextStands(t: Tape, s: seq<byte>, color: nat)
    requires TapeOk(t) && forall i | 0 <= i < |s| :: !IsControl(s[i])
    ensures var r := TypeAll(t, s, color);
            r.at == t.at + |s| && r.cells[t.at..r.at] == CellsOf(s, color) && r.cells[..t.at] == t.cells[..t.at]
  {
    if s != [] {
      var h, c := s[..|s| - 1], s[|s| - 1];
      TextStands(t, h, color);
      var p, r := TypeAll(t, h, color), TypeAll(t, s, color);
      assert r.cells[..t.at] == p.cells[..t.at];
      assert r.cells[t.at..r.at] == p.cells[t.at..p.at] + [Cell(c, color)];
    }
  }

  lemma {:induction false} TypeAppend(t: Tape, a: seq<byte>, b: seq<byte>, color: nat)
    requires TapeOk(t)
    ensures TypeAll(TypeAll(t, a, color), b, color) == TypeAll(t, a + b, color)
    decreases |b|
  {
    if b == [] {
      assert a + b == a;
    } else {
      TypeAppend(t, a, b[..|b| - 1], color);
      assert (a + b)[..|a + b| - 1] == a + b[..|b| - 1];
    }
  }

  lemma TypeOne(t: Tape, c: byte, color: nat)
    requires TapeOk(t)
    ensures TypeAll(t, [c], color) == Type(t, c, color)
  {
    assert [c][..0] == [];
    assert TypeAll(t, [], color) == t;
  }

  lemma TypeNext(t: Tape, s: seq<byte>, i: nat, color: nat)
    requires TapeOk(t) && i < |s|
    ensures TypeAll(t, s[..i + 1], color) == Type(TypeAll(t, s[..i], color), s[i], color)
  {
    assert s[..i + 1][..i] == s[..i];
  }

  // The characters of a row of cells.
  function CharsOf(cells: seq<nat>): seq<byte> {
    seq(|cells|, i requires 0 <= i < |cells| => cells[i] % 256)
  }

  // Text of 7-bit characters can be read off the tape again.
  lemma ReadBack(t: Tape, s: seq<byte>, color: nat)
    requires TapeOk(t) && color < 256 && forall i | 0 <= i < |s| :: !IsControl(s[i]) && s[i] < 128
    ensures var r := TypeAll(t, s, color); t.at <= r.at <= |r.cells| && CharsOf(r.cells[t.at..r.at]) == s
  {
    TextStands(t, s, color);
    var r := TypeAll(t, s, color);
    forall i | 0 <= i < |s|
      ensures CharsOf(r.cells[t.at..r.at])[i] == s[i]
    {
      CellShows(s[i], color);
      assert r.cells[t.at..r.at][i] == CellsOf(s, color)[i];
    }
  }

  // ---------------------------------------------------------------- numbers

  // What a text of decimal digits means.
  function DecValue(s: seq<byte>): int {
    if s == [] then 0 else 10 * DecValue(s[..|s| - 1]) + s[|s| - 1] - 48
  }

  // The digits screen_putdec prints.
  function Decimal(n: nat): (r: seq<byte>)
    ensures r != []
  {
    if n < 10 then [48 + n] else Decimal(n / 10) + [48 + n % 10]
  }

  ghost predicate DecDigits(s: seq<byte>) {
    forall i | 0 <= i < |s| :: 48 <= s[i] <= 57
  }

  // They read back as n, without leading zeros.
  lemma {:induction false} DecimalReadsBack(n: nat)
    ensures DecDigits(Decimal(n)) && DecValue(Decimal(n)) == n
    ensures n > 0 ==> Decimal(n)[0] != 48
  {
    if n < 10 {
      assert Decimal(n)[..0] == [];
    } else {
      DecimalReadsBack(n / 10);
      assert Decimal(n)[..|Decimal(n)| - 1] == Decimal(n / 10);
    }
  }

  lemma DecimalLast(n: nat)
    requires n > 0
    ensures var d := Decimal(n);
            d[|d| - 1] == 48 + n % 10 && (n >= 10 ==> |d| > 1 && d[..|d| - 1] == Decimal(n / 10))
                && (n < 10 ==> |d| == 1)
  {
  }

  // After screen_putdec the tape shows the number.
  lemma DecimalOnTape(t: Tape, n: nat, color: nat)
    requires TapeOk(t) && color < 256
    ensures var r := TypeAll(t, Decimal(n), color);
            t.at <= r.at <= |r.cells| && DecValue(CharsOf(r.cells[t.at..r.at])) == n
  {
    DecimalReadsBack(n);
    ReadBack(t, Decimal(n), color);
  }

  lemma {:induction false} DecimalLength(n: nat, k: nat)
    requires n < Pow(10, k + 1)
    ensures |Decimal(n)| <= k + 1
  {
    if n >= 10 {
      DecimalLength(n / 10, k - 1);
    }
  }

  // A 32-bit number has at most ten digits; the buffer has twelve places.
  lemma TenDigits(n: nat)
    requires n < 0x1_0000_0000
    ensures |Decimal(n)| <= 10
  {
    assert Pow(10, 3) == 1000;
    assert Pow(10, 6) == 1000 * Pow(10, 3);
    assert Pow(10, 9) == 1000 * Pow(10, 6);
    assert Pow(10, 10) == 10 * Pow(10, 9);
    DecimalLength(n, 9);
  }

  // n >> k.
  function ShiftedRight(n: nat, k: nat): nat {
    if k == 0 then n else ShiftedRight(n, k - 1) / 2
  }

  function HexDigit(d: nat): byte
    requires d < 16
  {
    if d < 10 then 48 + d else 65 + d - 10
  }

  // The digit a character stands for; 16 if it is none.
  function DigitOf(c: byte): nat {
    if 48 <= c <= 57 then c - 48 else if 65 <= c <= 70 then c - 55 else 16
  }

  function HexValue(s: seq<byte>): int {
    if s == [] then 0 else 16 * HexValue(s[..|s| - 1]) + DigitOf(s[|s| - 1])
  }

  // The low k hexadecimal digits of n, most significant first.
  function Hex(n: nat, k: nat): (r: seq<byte>)
    ensures |r| == k
  {
    if k == 0 then [] else Hex(n / 16, k - 1) + [HexDigit(n % 16)]
  }

  lemma {:induction false} HexDigitsOnly(n: nat, k: nat)
    ensures forall i | 0 <= i < k :: DigitOf(Hex(n, k)[i]) < 16
  {
    if k > 0 {
      HexDigitsOnly(n / 16, k - 1);
    }
  }

  // k digits read back as n if n has no more.
  lemma {:induction false} HexReadsBack(n: nat, k: nat)
    requires n < Pow(16, k)
    ensures HexValue(Hex(n, k)) == n
  {
    if k > 0 {
      HexReadsBack(n / 16, k - 1);
      assert Hex(n, k)[..|Hex(n, k)| - 1] == Hex(n / 16, k - 1);
    }
  }

  // screen_puthex prints eight digits that read back as n.
  lemma EightHexDigits(n: nat)
    requires n < 0x1_0000_0000
    ensures |Hex(n, 8)| == 8 && HexValue(Hex(n, 8)) == n
    ensures forall i | 0 <= i < 8 :: DigitOf(Hex(n, 8)[i]) < 16
  {
    assert Pow(16, 4) == 0x1_0000;
    assert Pow(16, 8) == 0x1_0000 * Pow(16, 4);
    HexReadsBack(n, 8);
    HexDigitsOnly(n, 8);
  }

  lemma HexLast(n: nat, k: nat)
    requires k > 0
    ensures Hex(n, k)[k - 1] == HexDigit(n % 16) && Hex(n, k)[..k - 1] == Hex(n / 16, k - 1)
  {
  }

  lemma ShiftFour(n: nat, k: nat)
    ensures ShiftedRight(n, k + 4) == ShiftedRight(n, k) / 16
  {
    assert ShiftedRight(n, k + 4) == ShiftedRight(n, k + 3) / 2;
    assert ShiftedRight(n, k + 3) == ShiftedRight(n, k + 2) / 2;
    assert ShiftedRight(n, k + 2) == ShiftedRight(n, k + 1) / 2;
    assert ShiftedRight(n, k + 1) == ShiftedRight(n, k) / 2;
  }

  // The k digits of n from bit shift on are on the tape.
  function TypeHex(t: Tape, n: nat, shift: nat, k: nat, color: nat): Tape
    requires TapeOk(t)
  {
    TypeAll(t, Hex(ShiftedRight(n, shift), k), color)
  }

  lemma TypeHexNext(t: Tape, n: nat, shift: nat, k: nat, color: nat)
    requires TapeOk(t)
    ensures TypeHex(t, n, shift, k + 1, color)
         == Type(TypeHex(t, n, shift + 4, k, color), HexDigit(ShiftedRight(n, shift) % 16), color)
  {
    var m := ShiftedRight(n, shift);
    ShiftFour(n, shift);
    HexLast(m, k + 1);
    TypeNext(t, Hex(m, k + 1), k, color);
    assert Hex(m, k + 1)[..k + 1] == Hex(m, k + 1);
  }

  // ---------------------------------------------------------------- the screen

  class Screen {
    const buffer: array<nat>
    var color: nat
    var cursorX: nat
    var cursorY: nat
    ghost var tape: Tape

    // The buffer shows the last 25 rows of the tape.
    ghost predicate Valid()
      reads this, buffer
    {
      && buffer.Length == CELLS && color < 256 && cursorX < WIDTH && cursorY < HEIGHT
      && TapeOk(tape) && Shows(buffer[..], tape, cursorX, cursorY)
    }

    method SetColor(fg: nat, bg: nat)
      requires fg < 16 && bg < 16
      modifies this`color
      ensures color == fg + 16 * bg
    {
      color := fg + 16 * bg;
    }

    // The tape starts anew.
    method Clear()
      requires buffer.Length == CELLS && color < 256
      modifies this`cursorX, this`cursorY, this`tape, buffer
      ensures Valid() && tape == Tape(Blanks(CELLS, color), 0) && cursorX == cursorY == 0
      ensures buffer.Length == 2000 && forall i | 0 <= i < 2000 :: buffer[i] == 32 + 256 * color
    {
      var blank := Cell(32, color);
      for i := 0 to CELLS
        invariant forall j | 0 <= j < i :: buffer[j] == blank
      {
        buffer[i] := blank;
      }
      cursorX, cursorY, tape := 0, 0, Tape(Blanks(CELLS, color), 0);
    }

    // screen_init; the video memory is an array of its own.
    constructor ()
      ensures Valid() && fresh(buffer) && color == 7 && tape == Tape(Blanks(CELLS, 7), 0)
    {
      buffer := new nat[CELLS];
      new;
      SetColor(7, 0);
      Clear();
    }

    // kernel/screen.c:136-138.
    method BlankLastRow()
      requires buffer.Length == CELLS
      modifies buffer
      ensures forall i | 0 <= i < CELLS :: buffer[i] == if i < CELLS - WIDTH then old(buffer[i]) else Cell(32, color)
    {
      var blank := Cell(32, color);
      for x := 0 to WIDTH
        invariant forall i | 0 <= i < CELLS && !(CELLS - WIDTH <= i < CELLS - WIDTH + x) :: buffer[i] == old(buffer[i])
        invariant forall i | CELLS - WIDTH <= i < CELLS - WIDTH + x :: buffer[i] == blank
      {
        buffer[(HEIGHT - 1) * WIDTH + x] := blank;
      }
    }

    // kernel/screen.c:128-132: row y + 1 is copied to row y.
    method MoveRow(y: nat)
      requires buffer.Length == CELLS && y < HEIGHT - 1
      modifies buffer
      ensures forall i | 0 <= i < CELLS ::
                buffer[i] == if y * WIDTH <= i < y * WIDTH + WIDTH then old(buffer[i + WIDTH]) else old(buffer[i])
    {
      ghost var row := y * WIDTH;
      assert (y + 1) * WIDTH == row + WIDTH;
      for x := 0 to WIDTH
        invariant forall i | row <= i < row + x :: buffer[i] == old(buffer[i + WIDTH])
        invariant forall i | 0 <= i < CELLS && !(row <= i < row + x) :: buffer[i] == old(buffer[i])
      {
        buffer[y * WIDTH + x] := buffer[(y + 1) * WIDTH + x];
      }
    }

    method Scroll()
      requires buffer.Length == CELLS
      modifies buffer
      ensures buffer[..] == old(buffer[WIDTH..]) + Blanks(WIDTH, color)
      ensures forall i | 1920 <= i < 2000 :: buffer[i] == 32 + 256 * color
    {
      for y := 0 to HEIGHT - 1
        invariant forall i | 0 <= i < y * WIDTH :: buffer[i] == old(buffer[i + WIDTH])
        invariant forall i | y * WIDTH <= i < CELLS :: buffer[i] == old(buffer[i])
      {
        assert (y + 1) * WIDTH == y * WIDTH + WIDTH;
        MoveRow(y);
      }
      BlankLastRow();
    }

    method StoreCell(index: nat, cell: nat)
      requires index < buffer.Length
      modifies buffer
      ensures buffer[..] == old(buffer[..])[index := cell]
    {
      buffer[index] := cell;
    }

    // kernel/screen.c:45-61.
    method Strike(c: nat)
      requires Valid() && c < 256
      modifies this`cursorX, this`cursorY, buffer
      ensures buffer[..] == BufferAfter(old(buffer[..]), old(cursorX), old(cursorY), c, color)
      ensures cursorX == ColumnAfter(old(cursorX), c) && cursorY == RowAfter(old(cursorY), c)
    {
      if c == NEWLINE {
        cursorX := 0;
        cursorY := cursorY + 1;
      } else if c == RETURN {
        cursorX := 0;
      } else if c == TAB {
        cursorX := (cursorX + 8) / 8 * 8;
      } else if c == BACKSPACE {
        if cursorX > 0 {
          cursorX := cursorX - 1;
        }
      } else {
        StoreCell(cursorY * WIDTH + cursorX, Cell(c, color));
        cursorX := cursorX + 1;
      }
    }

    // kernel/screen.c:63-72.
    method Wrap(ghost t: Tape)
      requires buffer.Length == CELLS && color < 256 && Shows(buffer[..], t, cursorX, cursorY)
      requires cursorX <= WIDTH && cursorY <= HEIGHT && (cursorY == HEIGHT ==> cursorX == 0)
      modifies this`cursorX, this`cursorY, buffer
      ensures cursorX == WrappedX(old(cursorX)) && cursorY == WrappedY(old(cursorX), old(cursorY))
      ensures Shows(buffer[..], Extended(t, color), cursorX, cursorY)
    {
      if cursorX >= WIDTH {
        cursorX := 0;
        cursorY := cursorY + 1;
      }
      if cursorY >= HEIGHT {
        ScrolledOn(buffer[..], t, cursorX, color);
        Scroll();
        cursorY := HEIGHT - 1;
      }
    }

    method PutChar(c: nat)
      requires Valid() && c < 256
      modifies this`cursorX, this`cursorY, this`tape, buffer
      ensures Valid() && tape == Type(old(tape), c, color)
      // Where the cursor goes on the screen.
      ensures c == 10 ==> cursorX == 0 && cursorY == if old(cursorY) == 24 then 24 else old(cursorY) + 1
      ensures c == 13 ==> cursorX == 0 && cursorY == old(cursorY)
      ensures c == 9 && old(cursorX) < 72 ==>
                cursorX % 8 == 0 && old(cursorX) < cursorX <= old(cursorX) + 8 && cursorY == old(cursorY)
      ensures c == 8 ==> cursorX == (if old(cursorX) > 0 then old(cursorX) - 1 else 0) && cursorY == old(cursorY)
      ensures (c == 9 && old(cursorX) >= 72) || (!IsControl(c) && old(cursorX) == 79) ==>
                cursorX == 0 && cursorY == if old(cursorY) == 24 then 24 else old(cursorY) + 1
      ensures !IsControl(c) && old(cursorX) < 79 ==> cursorX == old(cursorX) + 1 && cursorY == old(cursorY)
    {
      ghost var t := tape;
      TypeOk(t, c, color);
      StruckShows(buffer[..], t, cursorX, cursorY, c, color);
      CursorGoes(cursorX, cursorY, c);
      Strike(c);
      Wrap(Struck(t, c, color));
      tape := Type(t, c, color);
    }

    // Up to the terminating 0, and not beyond it.
    method PutStr(s: seq<byte>)
      requires Valid() && KString.Terminated(s)
      modifies this`cursorX, this`cursorY, this`tape, buffer
      ensures Valid() && tape == TypeAll(old(tape), KString.Str(s), color)
    {
      var i := 0;
      ghost var t, text := tape, KString.Str(s);
      KString.InString(s, 0);
      while s[i] != 0
        invariant i <= |text| && i < |s| && (s[i] == 0 <==> i == |text|) && (i < |text| ==> s[i] == text[i])
        invariant Valid() && tape == TypeAll(t, text[..i], color)
        decreases |text| - i
      {
        TypeNext(t, text, i, color);
        PutChar(s[i]);
        i := i + 1;
        KString.InString(s, i);
      }
      assert text[..i] == text;
    }

    // kernel/screen.c:117-119.
    method PutBackwards(digits: array<byte>, i: nat, ghost d: seq<byte>)
      requires Valid() && digits as object != buffer && i == |d| <= digits.Length
      requires forall k | 0 <= k < i :: digits[k] == d[i - 1 - k] && digits[k] < 256
      modifies this`cursorX, this`cursorY, this`tape, buffer
      ensures Valid() && tape == TypeAll(old(tape), d, color)
    {
      ghost var t := tape;
      var j := i;
      while j > 0
        invariant 0 <= j <= i && Valid() && tape == TypeAll(t, d[..i - j], color)
      {
        j := j - 1;
        TypeNext(t, d, i - 1 - j, color);
        PutChar(digits[j]);
      }
      assert d[..i] == d;
    }

    // kernel/screen.c:111-114: the digits, last one first.
    method Digits(n: nat, digits: array<byte>) returns (i: nat)
      requires 0 < n < 0x1_0000_0000 && digits.Length == 12
      modifies digits
      ensures i == |Decimal(n)| && i <= 10 && DecDigits(Decimal(n))
      ensures forall j | 0 <= j < i :: digits[j] == Decimal(n)[i - 1 - j] && digits[j] < 256
    {
      TenDigits(n);
      DecimalReadsBack(n);
      var m: nat := n;
      i := 0;
      ghost var d := Decimal(n);
      assert d[..|d|] == d;
      while m > 0
        invariant i <= |d| <= 10 && (m > 0 ==> i < |d| && Decimal(m) == d[..|d| - i])
        invariant m == 0 ==> i == |d|
        invariant forall j | 0 <= j < i :: digits[j] == d[|d| - 1 - j] && digits[j] < 256
        decreases m
      {
        DecimalLast(m);
        assert d[..|d| - i][..|d| - i - 1] == d[..|d| - i - 1];
        digits[i] := 48 + m % 10;
        m := m / 10;
        i := i + 1;
      }
    }

    method PutDec(n: nat)
      requires Valid() && n < 0x1_0000_0000
      modifies this`cursorX, this`cursorY, this`tape, buffer
      ensures Valid() && tape == TypeAll(old(tape), Decimal(n), color)
    {
      ghost var t := tape;
      if n == 0 {
        TypeOne(t, 48, color);
        PutChar(48);
        return;
      }
      var digits := new byte[12];
      var i := Digits(n, digits);
      PutBackwards(digits, i, Decimal(n));
    }

    // kernel/screen.c:92-96.
    method PutDigit(digit: nat)
      requires Valid() && digit < 16
      modifies this`cursorX, this`cursorY, this`tape, buffer
      ensures Valid() && tape == Type(old(tape), HexDigit(digit), color)
    {
      if digit < 10 {
        PutChar(48 + digit);
      } else {
        PutChar(65 + digit - 10);
      }
    }

    // kernel/screen.c:89-98.
    method PutHexDigits(n: nat)
      requires Valid() && n < 0x1_0000_0000
      modifies this`cursorX, this`cursorY, this`tape, buffer
      ensures Valid() && tape == TypeHex(old(tape), n, 0, 8, color)
    {
      ghost var t := tape;
      var shift := 28;
      ghost var k: nat := 0;
      while shift >= 0
        invariant -4 <= shift <= 28 && shift == 28 - 4 * k
        invariant Valid() && tape == TypeHex(t, n, shift + 4, k, color)
      {
        TypeHexNext(t, n, shift, k, color);
        PutDigit(ShiftedRight(n, shift) % 16);
        shift := shift - 4;
        k := k + 1;
      }
    }

    method PutHex(n: nat)
      requires Valid() && n < 0x1_0000_0000
      modifies this`cursorX, this`cursorY, this`tape, buffer
      ensures Valid() && tape == TypeAll(old(tape), [48, 120] + Hex(n, 8), color)
    {
      KString.PrefixIs([48, 120, 0], 3, 2);
      assert [48, 120, 0][..2] == [48, 120];
      TypeAppend(tape, [48, 120], Hex(n, 8), color);
      PutStr([48, 120, 0]);
      PutHexDigits(n);
    }
  }
}
