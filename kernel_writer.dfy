/**
 * The behaviour of the `KernelWriter` trait as functions on a writer's
 * state: the cursor and colour (`KernelWriterInfos`) and the 25 x 80 grid.
 * The class in module VgaWriter is proved to follow these functions.
 */
module KernelWriter {
  import opened VgaBuffer

  /** `KernelWriterInfos`: the cursor and the current colour. */
  datatype Infos = Infos(columnPosition: nat, rowPosition: nat, colorCode: ColorCode)

  /** A writer's whole state: its infos and the contents of its grid. */
  datatype State = State(infos: Infos, chars: seq<seq<ScreenChar>>)

  /**
   * The invariant every operation keeps: the grid has its fixed shape and
   * the cursor row is on the screen. The column is not bounded: a tab may
   * push it beyond the last cell.
   */
  predicate Valid(s: State) {
    s.infos.rowPosition < BufferHeight && IsGrid(s.chars)
  }

  const Tab: Byte := 0x09
  const Newline: Byte := 0x0a
  const Space: Byte := 0x20
  /** The glyph stored in place of a byte the screen cannot show. */
  const Fallback: Byte := 0xfe

  /** Printable ASCII, `0x20..=0x7e`. */
  predicate IsPrintable(b: Byte) {
    0x20 <= b <= 0x7e
  }

  /**
   * The byte stored for `b`: kept when printable, tab or newline, `0xfe`
   * otherwise.
   */
  function Sanitize(b: Byte): (r: Byte)
    ensures r == b || r == Fallback
    ensures IsPrintable(b) ==> r == b
    ensures r == b <==> IsPrintable(b) || b == Tab || b == Newline || b == Fallback
  {
    if IsPrintable(b) || b == Tab || b == Newline then b else Fallback
  }

  /** The column a tab moves to: the least multiple of 4 above `column`. */
  function NextTabStop(column: nat): (next: nat)
    ensures next % 4 == 0
    ensures column < next <= column + 4
  {
    column + (4 - column % 4)
  }

  /** A space in the given colour: what a cleared cell holds. */
  function Blank(color: ColorCode): ScreenChar {
    ScreenChar(Space, color)
  }

  /** `write(row, col, x)` on a grid: only the cell at (row, col) becomes `x`. */
  function Put(chars: seq<seq<ScreenChar>>, row: nat, col: nat, x: ScreenChar): (r: seq<seq<ScreenChar>>)
    requires IsGrid(chars) && row < BufferHeight && col < BufferWidth
    ensures IsGrid(r)
    ensures r[row][col] == x
    ensures forall i, j :: 0 <= i < BufferHeight && 0 <= j < BufferWidth && (i != row || j != col) ==>
              r[i][j] == chars[i][j]
  {
    chars[row := chars[row][col := x]]
  }

  /** `clear_row(row)`: every cell of that row becomes a blank in the current colour. */
  function ClearRow(s: State, row: nat): (t: State)
    requires Valid(s) && row < BufferHeight
    ensures Valid(t) && t.infos == s.infos
    ensures forall c :: 0 <= c < BufferWidth ==> t.chars[row][c] == Blank(s.infos.colorCode)
    ensures forall r :: 0 <= r < BufferHeight && r != row ==> t.chars[r] == s.chars[r]
  {
    s.(chars := s.chars[row := seq(BufferWidth, _ => Blank(s.infos.colorCode))])
  }

  /** The grid after the scroll loop: rows 1..24 copied up by one, row 24 left as it was. */
  function ShiftRowsUp(chars: seq<seq<ScreenChar>>): (r: seq<seq<ScreenChar>>)
    requires IsGrid(chars)
    ensures IsGrid(r)
    ensures forall i :: 0 <= i < BufferHeight - 1 ==> r[i] == chars[i + 1]
    ensures r[BufferHeight - 1] == chars[BufferHeight - 1]
  {
    chars[1..] + [chars[BufferHeight - 1]]
  }

  /**
   * `new_line`: the column returns to 0; below the last row the row moves
   * down, on the last row the grid scrolls and the last row is cleared.
   */
  function NewLine(s: State): (t: State)
    requires Valid(s)
    ensures Valid(t)
  {
    var infos := s.infos.(columnPosition := 0);
    if s.infos.rowPosition < BufferHeight - 1 then
      State(infos.(rowPosition := s.infos.rowPosition + 1), s.chars)
    else
      ClearRow(State(infos, ShiftRowsUp(s.chars)), BufferHeight - 1)
  }

  /**
   * `write_byte`: a newline starts a new line; a tab moves to the next tab
   * stop without writing; any other byte first wraps when the column is
   * past the last cell, then stores its sanitised form at the cursor and
   * advances the column. Defined for every one of the 256 byte values.
   */
  function WriteByte(s: State, b: Byte): (t: State)
    requires Valid(s)
    ensures Valid(t)
  {
    if b == Newline then
      NewLine(s)
    else if b == Tab then
      s.(infos := s.infos.(columnPosition := NextTabStop(s.infos.columnPosition)))
    else
      var w := if s.infos.columnPosition >= BufferWidth then NewLine(s) else s;
      var row, col := w.infos.rowPosition, w.infos.columnPosition;
      State(w.infos.(columnPosition := col + 1),
            Put(w.chars, row, col, ScreenChar(Sanitize(b), w.infos.colorCode)))
  }

  /** `write_string`: `write_byte` applied to every byte, first to last. */
  function WriteString(s: State, bytes: seq<Byte>): (t: State)
    requires Valid(s)
    ensures Valid(t)
    decreases |bytes|
  {
    if bytes == [] then s else WriteString(WriteByte(s, bytes[0]), bytes[1..])
  }

  /** `println!` on an already rendered string: the bytes, then a newline. */
  function Println(s: State, bytes: seq<Byte>): (t: State)
    requires Valid(s)
    ensures Valid(t)
  {
    WriteString(s, bytes + [Newline])
  }

  /** The state of a freshly made test writer: cursor at (0, 0), white on black, all blank. */
  function Initial(): (s: State)
    ensures Valid(s)
    ensures s.infos.columnPosition == 0 && s.infos.rowPosition == 0
    ensures s.infos.colorCode.value == 0x0f
    ensures forall r, c :: 0 <= r < BufferHeight && 0 <= c < BufferWidth ==>
              s.chars[r][c] == ScreenChar(Space, DefaultColor)
  {
    State(Infos(0, 0, DefaultColor), FilledGrid(Blank(DefaultColor)))
  }

  /** Two grids with the same cells are the same grid. */
  lemma GridExtensionality(a: seq<seq<ScreenChar>>, b: seq<seq<ScreenChar>>)
    requires IsGrid(a) && IsGrid(b)
    requires forall r, c :: 0 <= r < BufferHeight && 0 <= c < BufferWidth ==> a[r][c] == b[r][c]
    ensures a == b
  {
    forall r | 0 <= r < BufferHeight
      ensures a[r] == b[r]
    {
      assert forall c :: 0 <= c < BufferWidth ==> a[r][c] == b[r][c];
    }
  }
}
