/**
 * The concrete writers: the hardware-backed `Writer` and the in-memory
 * `TestWriter` share all their behaviour through the `KernelWriter` trait
 * and differ only in where their grid lives, so one class models both.
 * Every method is proved to follow the function of module KernelWriter
 * with the same name.
 */
module VgaWriter {
  import opened VgaBuffer
  import KernelWriter
  import KernelWriterLaws

  /** `core::fmt::Result`. */
  datatype FmtResult = Ok | Error

  class Writer {
    var columnPosition: nat
    var rowPosition: nat
    var colorCode: ColorCode
    /** `Buffer::chars`, indexed `[row, col]`; the same grid for the writer's whole life. */
    const buffer: array2<ScreenChar>

    /** The grid has 25 rows of 80 cells. */
    ghost predicate HasScreenShape() {
      buffer.Length0 == BufferHeight && buffer.Length1 == BufferWidth
    }

    /** The grid has its fixed shape and the cursor row is on the screen. */
    ghost predicate Valid()
      reads this
    {
      HasScreenShape() && rowPosition < BufferHeight
    }

    /** The grid as rows of cells. */
    ghost function Chars(): (chars: seq<seq<ScreenChar>>)
      requires HasScreenShape()
      reads buffer
      ensures IsGrid(chars)
      ensures forall r, c :: 0 <= r < BufferHeight && 0 <= c < BufferWidth ==> chars[r][c] == buffer[r, c]
    {
      seq(BufferHeight, r requires 0 <= r < BufferHeight reads buffer =>
        seq(BufferWidth, c requires 0 <= c < BufferWidth reads buffer => buffer[r, c]))
    }

    /** The writer's state as the value the KernelWriter functions work on. */
    ghost function Model(): (s: KernelWriter.State)
      requires Valid()
      reads this, buffer
      ensures KernelWriter.Valid(s)
    {
      KernelWriter.State(KernelWriter.Infos(columnPosition, rowPosition, colorCode), Chars())
    }

    /**
     * The global `WRITER`: bound to the screen memory it is given, cursor
     * at (0, 0), white on black; the screen's contents are whatever the
     * memory already holds.
     */
    constructor Bind(screen: array2<ScreenChar>)
      requires screen.Length0 == BufferHeight && screen.Length1 == BufferWidth
      ensures Valid() && buffer == screen
      ensures columnPosition == 0 && rowPosition == 0 && colorCode == DefaultColor
    {
      columnPosition, rowPosition, colorCode := 0, 0, DefaultColor;
      buffer := screen;
    }

    /**
     * The `MOCK_WRITER` test writer: a grid of its own, all 25 x 80 cells
     * blank in white on black, cursor at (0, 0).
     */
    constructor ()
      ensures Valid() && fresh(buffer)
      ensures Model() == KernelWriter.Initial()
    {
      columnPosition, rowPosition, colorCode := 0, 0, DefaultColor;
      buffer := new ScreenChar[BufferHeight, BufferWidth]((r, c) => KernelWriter.Blank(DefaultColor));
      new;
      KernelWriter.GridExtensionality(Chars(), KernelWriter.Initial().chars);
    }

    /** `read(row, col)`: the cell at that position. */
    method Read(row: nat, col: nat) returns (x: ScreenChar)
      requires Valid() && row < BufferHeight && col < BufferWidth
      ensures x == buffer[row, col] && x == Chars()[row][col]
    {
      x := buffer[row, col];
    }

    /** `write(row, col, x)`: the cell at that position becomes `x`; nothing else changes. */
    method Write(row: nat, col: nat, x: ScreenChar)
      requires Valid() && row < BufferHeight && col < BufferWidth
      modifies buffer
      ensures buffer[row, col] == x
      ensures forall r, c :: 0 <= r < BufferHeight && 0 <= c < BufferWidth && (r != row || c != col) ==>
                buffer[r, c] == old(buffer[r, c])
      ensures Model() == old(Model()).(chars := KernelWriter.Put(old(Chars()), row, col, x))
    {
      buffer[row, col] := x;
      KernelWriter.GridExtensionality(Chars(), KernelWriter.Put(old(Chars()), row, col, x));
    }

    /**
     * The read-after-write round trip: `read` of the cell just written
     * returns the written value, and another cell reads the same before
     * and after the `write`.
     */
    method WriteThenRead(row: nat, col: nat, x: ScreenChar, otherRow: nat, otherCol: nat)
      returns (y: ScreenChar, before: ScreenChar, after: ScreenChar)
      requires Valid() && row < BufferHeight && col < BufferWidth
      requires otherRow < BufferHeight && otherCol < BufferWidth
      requires otherRow != row || otherCol != col
      modifies buffer
      ensures y == x && after == before
    {
      before := Read(otherRow, otherCol);
      Write(row, col, x);
      y := Read(row, col);
      after := Read(otherRow, otherCol);
    }

    /** `clear_row(row)`. */
    method ClearRow(row: nat)
      requires Valid() && row < BufferHeight
      modifies buffer
      ensures Model() == KernelWriter.ClearRow(old(Model()), row)
    {
      var blank := ScreenChar(KernelWriter.Space, colorCode);
      for col := 0 to BufferWidth
        invariant forall c :: 0 <= c < col ==> buffer[row, c] == blank
        invariant forall r, c :: 0 <= r < BufferHeight && 0 <= c < BufferWidth && (r != row || col <= c) ==>
                    buffer[r, c] == old(buffer[r, c])
      {
        Write(row, col, blank);
      }
      KernelWriter.GridExtensionality(Chars(), KernelWriter.ClearRow(old(Model()), row).chars);
    }

    /** `new_line`. */
    method NewLine()
      requires Valid()
      modifies this, buffer
      ensures Valid()
      ensures Model() == KernelWriter.NewLine(old(Model()))
    {
      columnPosition := 0;
      if rowPosition < BufferHeight - 1 {
        rowPosition := rowPosition + 1;
      } else {
        for row := 1 to BufferHeight
          modifies buffer
          invariant forall r, c :: 0 <= r < row - 1 && 0 <= c < BufferWidth ==> buffer[r, c] == old(buffer[r + 1, c])
          invariant forall r, c :: row - 1 <= r < BufferHeight && 0 <= c < BufferWidth ==> buffer[r, c] == old(buffer[r, c])
        {
          for col := 0 to BufferWidth
            modifies buffer
            invariant forall r, c :: 0 <= r < row - 1 && 0 <= c < BufferWidth ==> buffer[r, c] == old(buffer[r + 1, c])
            invariant forall c :: 0 <= c < col ==> buffer[row - 1, c] == old(buffer[row, c])
            invariant forall r, c :: row - 1 <= r < BufferHeight && 0 <= c < BufferWidth && (r != row - 1 || col <= c) ==>
                        buffer[r, c] == old(buffer[r, c])
          {
            var x := Read(row, col);
            Write(row - 1, col, x);
          }
        }
        KernelWriter.GridExtensionality(Chars(), KernelWriter.ShiftRowsUp(old(Chars())));
        ClearRow(BufferHeight - 1);
      }
    }

    /** `write_byte`. */
    method WriteByte(b: Byte)
      requires Valid()
      modifies this, buffer
      ensures Valid()
      ensures Model() == KernelWriter.WriteByte(old(Model()), b)
    {
      if b == KernelWriter.Newline {
        NewLine();
      } else if b == KernelWriter.Tab {
        columnPosition := columnPosition + (4 - columnPosition % 4);
      } else {
        if columnPosition >= BufferWidth {
          NewLine();
        }
        var row, col := rowPosition, columnPosition;
        Write(row, col, ScreenChar(KernelWriter.Sanitize(b), colorCode));
        columnPosition := columnPosition + 1;
      }
    }

    /** `write_string`: the bytes of the string, first to last. */
    method WriteString(bytes: seq<Byte>)
      requires Valid()
      modifies this, buffer
      ensures Valid()
      ensures Model() == KernelWriter.WriteString(old(Model()), bytes)
    {
      for i := 0 to |bytes|
        invariant Valid()
        invariant Model() == KernelWriter.WriteString(old(Model()), bytes[..i])
      {
        KernelWriterLaws.WriteStringSnoc(old(Model()), bytes[..i], bytes[i]);
        assert bytes[..i + 1] == bytes[..i] + [bytes[i]];
        WriteByte(bytes[i]);
      }
      assert bytes[..|bytes|] == bytes;
    }

    /** `core::fmt::Write::write_str`: writes the string and always succeeds. */
    method WriteStr(bytes: seq<Byte>) returns (result: FmtResult)
      requires Valid()
      modifies this, buffer
      ensures Valid()
      ensures result == Ok
      ensures Model() == KernelWriter.WriteString(old(Model()), bytes)
    {
      WriteString(bytes);
      result := Ok;
    }
  }
}
