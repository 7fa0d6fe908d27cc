/**
 * What the `KernelWriter` operations promise, proved about the functions
 * of module KernelWriter: the tab-stop law, the one-cell frame of a
 * regular byte, wrapping, the scroll shift, and the laws of `write_string`.
 */
module KernelWriterLaws {
  import opened VgaBuffer
  import opened KernelWriter

  /** No multiple of 4 lies strictly between a column and its next tab stop. */
  lemma TabStopIsLeast(column: nat, m: nat)
    requires m % 4 == 0 && column < m
    ensures NextTabStop(column) <= m
  {
    var next := NextTabStop(column);
    assert next == 4 * (next / 4) && m == 4 * (m / 4);
    assert next / 4 <= m / 4;
  }

  /**
   * A tab moves the column to the next tab stop, even past the last cell,
   * and changes neither the row, the colour nor any cell.
   */
  lemma TabLaw(s: State)
    requires Valid(s)
    ensures var t := WriteByte(s, Tab);
      t.chars == s.chars &&
      t.infos.rowPosition == s.infos.rowPosition &&
      t.infos.colorCode == s.infos.colorCode &&
      t.infos.columnPosition % 4 == 0 &&
      s.infos.columnPosition < t.infos.columnPosition <= s.infos.columnPosition + 4
  {
  }

  /**
   * A byte other than tab and newline, with the column on the screen,
   * stores its sanitised form in the current colour at the cursor, moves
   * one column right and leaves every other cell untouched.
   */
  lemma RegularByteInRow(s: State, b: Byte)
    requires Valid(s) && b != Newline && b != Tab
    requires s.infos.columnPosition < BufferWidth
    ensures var t := WriteByte(s, b);
      var row, col := s.infos.rowPosition, s.infos.columnPosition;
      t.infos == s.infos.(columnPosition := col + 1) &&
      t.chars[row][col] == ScreenChar(Sanitize(b), s.infos.colorCode) &&
      forall r, c :: 0 <= r < BufferHeight && 0 <= c < BufferWidth && (r != row || c != col) ==>
        t.chars[r][c] == s.chars[r][c]
  {
  }

  /**
   * A byte other than tab and newline arriving with the column past the
   * last cell first starts a new line, then lands at column 0 of it.
   */
  lemma RegularByteWraps(s: State, b: Byte)
    requires Valid(s) && b != Newline && b != Tab
    requires s.infos.columnPosition >= BufferWidth
    ensures NewLine(s).infos.columnPosition == 0
    ensures WriteByte(s, b) == WriteByte(NewLine(s), b)
  {
  }

  /**
   * The character a regular byte stores is the byte itself when printable
   * and the fallback glyph otherwise, so it is always one the screen shows.
   */
  lemma StoredCharacter(s: State, b: Byte)
    requires Valid(s) && b != Newline && b != Tab
    ensures var w := if s.infos.columnPosition >= BufferWidth then NewLine(s) else s;
      var stored := WriteByte(s, b).chars[w.infos.rowPosition][w.infos.columnPosition].asciiCharacter;
      w.infos.columnPosition < BufferWidth &&
      stored == (if IsPrintable(b) then b else Fallback) &&
      (IsPrintable(stored) || stored == Fallback)
  {
  }

  /** Below the last row a new line only resets the column and moves down a row. */
  lemma NewLineBelowLastRow(s: State)
    requires Valid(s) && s.infos.rowPosition < BufferHeight - 1
    ensures var t := NewLine(s);
      t.chars == s.chars &&
      t.infos == Infos(0, s.infos.rowPosition + 1, s.infos.colorCode)
  {
  }

  /**
   * On the last row a new line scrolls: every row takes the contents of
   * the row below it, the old top row is gone, and the last row is blank
   * in the current colour; the cursor goes to column 0 of the last row.
   */
  lemma NewLineScrolls(s: State)
    requires Valid(s) && s.infos.rowPosition == BufferHeight - 1
    ensures var t := NewLine(s);
      t.infos == Infos(0, BufferHeight - 1, s.infos.colorCode) &&
      (forall r :: 0 <= r < BufferHeight - 1 ==> t.chars[r] == s.chars[r + 1]) &&
      var last := t.chars[BufferHeight - 1];
      (forall c :: 0 <= c < BufferWidth ==> last[c] == Blank(s.infos.colorCode))
  {
  }

  /** Writing two strings one after the other is writing their concatenation. */
  lemma {:induction false} WriteStringAppend(s: State, a: seq<Byte>, b: seq<Byte>)
    requires Valid(s)
    ensures WriteString(s, a + b) == WriteString(WriteString(s, a), b)
    decreases |a|
  {
    if a == [] {
      assert a + b == b;
    } else {
      assert (a + b)[0] == a[0];
      assert (a + b)[1..] == a[1..] + b;
      WriteStringAppend(WriteByte(s, a[0]), a[1..], b);
    }
  }

  /** Writing one more byte after a string is one more `write_byte`. */
  lemma WriteStringSnoc(s: State, bytes: seq<Byte>, b: Byte)
    requires Valid(s)
    ensures WriteString(s, bytes + [b]) == WriteByte(WriteString(s, bytes), b)
  {
    WriteStringAppend(s, bytes, [b]);
    var m := WriteString(s, bytes);
    assert WriteString(m, [b]) == WriteString(WriteByte(m, b), []);
  }

  /**
   * Printable bytes that fit in the rest of the row are stored left to
   * right from the cursor, in the current colour, with no wrap or scroll;
   * the column advances by their number and no other cell changes.
   */
  lemma {:induction false} WriteStringWithinRow(s: State, bytes: seq<Byte>)
    requires Valid(s)
    requires s.infos.columnPosition + |bytes| <= BufferWidth
    requires forall i :: 0 <= i < |bytes| ==> IsPrintable(bytes[i])
    ensures var t := WriteString(s, bytes);
      var row, col := s.infos.rowPosition, s.infos.columnPosition;
      t.infos == s.infos.(columnPosition := col + |bytes|) &&
      (forall i :: 0 <= i < |bytes| ==> t.chars[row][col + i] == ScreenChar(bytes[i], s.infos.colorCode)) &&
      (forall r, c :: 0 <= r < BufferHeight && 0 <= c < BufferWidth && (r != row || c < col || col + |bytes| <= c) ==>
         t.chars[r][c] == s.chars[r][c])
    decreases |bytes|
  {
    if bytes != [] {
      var s1 := WriteByte(s, bytes[0]);
      RegularByteInRow(s, bytes[0]);
      WriteStringWithinRow(s1, bytes[1..]);
      var t := WriteString(s, bytes);
      var row, col := s.infos.rowPosition, s.infos.columnPosition;
      assert t == WriteString(s1, bytes[1..]);
      forall i | 0 <= i < |bytes|
        ensures t.chars[row][col + i] == ScreenChar(bytes[i], s.infos.colorCode)
      {
        if i > 0 {
          assert bytes[1..][i - 1] == bytes[i];
          assert col + 1 + (i - 1) == col + i;
        }
      }
    }
  }

  /**
   * A full row of printable bytes written from column 0 leaves the column
   * just past the last cell on the same row; the next regular byte then
   * lands at column 0 of a new line, and the full row sits intact directly
   * above it (moved up by one when the screen scrolled).
   */
  lemma FullRowWrapsOnNextByte(s: State, bytes: seq<Byte>, b: Byte)
    requires Valid(s) && s.infos.columnPosition == 0
    requires |bytes| == BufferWidth
    requires forall i :: 0 <= i < |bytes| ==> IsPrintable(bytes[i])
    requires b != Newline && b != Tab
    ensures var m := WriteString(s, bytes);
      m.infos == s.infos.(columnPosition := BufferWidth)
    ensures var t := WriteString(s, bytes + [b]);
      var row := t.infos.rowPosition;
      row == (if s.infos.rowPosition < BufferHeight - 1 then s.infos.rowPosition + 1 else BufferHeight - 1) &&
      t.infos.columnPosition == 1 &&
      t.chars[row][0] == ScreenChar(Sanitize(b), s.infos.colorCode) &&
      forall c :: 0 <= c < BufferWidth ==> t.chars[row - 1][c] == ScreenChar(bytes[c], s.infos.colorCode)
  {
    WriteStringWithinRow(s, bytes);
    var m := WriteString(s, bytes);
    WriteStringSnoc(s, bytes, b);
    RegularByteWraps(m, b);
    var n := NewLine(m);
    RegularByteInRow(n, b);
    if s.infos.rowPosition < BufferHeight - 1 {
      NewLineBelowLastRow(m);
    } else {
      NewLineScrolls(m);
    }
    forall c | 0 <= c < BufferWidth
      ensures m.chars[s.infos.rowPosition][c] == ScreenChar(bytes[c], s.infos.colorCode)
    {
      assert 0 + c == c;
    }
  }

  /**
   * After `println!` of printable bytes that fit on a line, started at
   * column 0, the text is on the row directly above the cursor and the
   * cursor is at column 0; this holds with and without a scroll.
   */
  lemma PrintlnLeavesLineAbove(s: State, bytes: seq<Byte>)
    requires Valid(s) && s.infos.columnPosition == 0
    requires |bytes| <= BufferWidth
    requires forall i :: 0 <= i < |bytes| ==> IsPrintable(bytes[i])
    ensures var t := Println(s, bytes);
      1 <= t.infos.rowPosition &&
      t.infos.columnPosition == 0 &&
      forall i :: 0 <= i < |bytes| ==> t.chars[t.infos.rowPosition - 1][i] == ScreenChar(bytes[i], s.infos.colorCode)
  {
    WriteStringWithinRow(s, bytes);
    WriteStringSnoc(s, bytes, Newline);
    var m := WriteString(s, bytes);
    if s.infos.rowPosition < BufferHeight - 1 {
      NewLineBelowLastRow(m);
    } else {
      NewLineScrolls(m);
    }
    forall i | 0 <= i < |bytes|
      ensures m.chars[s.infos.rowPosition][i] == ScreenChar(bytes[i], s.infos.colorCode)
    {
      assert 0 + i == i;
    }
  }

  /**
   * What the println test reads: once the screen has scrolled, the row at
   * the cursor after `println!` is the freshly cleared one, so its first
   * cell holds a space and not the first byte of the text.
   */
  lemma PrintlnCursorRowIsBlank(s: State, bytes: seq<Byte>)
    requires Valid(s) && s.infos.columnPosition == 0
    requires s.infos.rowPosition == BufferHeight - 1
    requires 0 < |bytes| <= BufferWidth
    requires forall i :: 0 <= i < |bytes| ==> IsPrintable(bytes[i])
    requires bytes[0] != Space
    ensures var t := Println(s, bytes);
      t.chars[t.infos.rowPosition][0] == Blank(s.infos.colorCode) &&
      t.chars[t.infos.rowPosition][0].asciiCharacter != bytes[0]
  {
    WriteStringWithinRow(s, bytes);
    WriteStringSnoc(s, bytes, Newline);
    NewLineScrolls(WriteString(s, bytes));
  }

  /** The ASCII code of a printable character. */
  function CharByte(ch: char): (b: Byte)
    requires ' ' <= ch <= '~'
    ensures b == ch as int && IsPrintable(b)
  {
    ch as int
  }

  /** The ASCII bytes of a string of printable characters. */
  function AsciiBytes(text: string): (bytes: seq<Byte>)
    requires forall i :: 0 <= i < |text| ==> ' ' <= text[i] <= '~'
    ensures |bytes| == |text|
    ensures forall i :: 0 <= i < |text| ==> bytes[i] == text[i] as int && IsPrintable(bytes[i])
  {
    seq(|text|, i requires 0 <= i < |text| => CharByte(text[i]))
  }

  /** The test line of the println test. */
  const TestText: string := "Some test string that fits on a single line"

  /**
   * Writing the test line from column 0 stores its 43 characters, in
   * order, in the first 43 cells of the cursor row, with no wrap.
   */
  lemma TestLineFitsOnOneRow(s: State)
    requires Valid(s) && s.infos.columnPosition == 0
    ensures |TestText| == 43
    ensures forall i :: 0 <= i < |TestText| ==> ' ' <= TestText[i] <= '~'
    ensures var t := WriteString(s, AsciiBytes(TestText));
      t.infos.rowPosition == s.infos.rowPosition &&
      t.infos.columnPosition == 43 &&
      forall i :: 0 <= i < |TestText| ==>
        t.chars[s.infos.rowPosition][i].asciiCharacter == TestText[i] as int
  {
    assert |TestText| == 43 && forall ch :: ch in TestText ==> ' ' <= ch <= '~';
    forall i | 0 <= i < |TestText|
      ensures ' ' <= TestText[i] <= '~'
    {
      assert TestText[i] in TestText;
    }
    var bytes := AsciiBytes(TestText);
    WriteStringWithinRow(s, bytes);
    var t := WriteString(s, bytes);
    forall i | 0 <= i < |TestText|
      ensures t.chars[s.infos.rowPosition][i].asciiCharacter == TestText[i] as int
    {
      assert 0 + i == i;
    }
  }
}
