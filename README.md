# VGA text-console writer, modelled in Dafny

This project models the text console of the babyOS kernel. The console
writes bytes into the 25 x 80 VGA text buffer. Each cell of that buffer
holds a character byte and a colour attribute byte. A writer keeps a
cursor (`column_position`, `row_position`) and a current `ColorCode`.
`write_byte` handles three kinds of byte:

- a newline starts a new line;
- a tab moves the column to the next multiple of 4;
- any other byte is sanitised and stored at the cursor, wrapping to a new
  line first when the column is past the last cell.

On the last row, a new line scrolls the screen up by one row and clears
the bottom row.

The model has four files:

- `buffer.dfy` (module `VgaBuffer`): the data model. It holds the `u8`
  byte type, `BUFFER_HEIGHT`/`BUFFER_WIDTH`, the 16 colours,
  `ColorCode::new` and `ScreenChar`. `ScreenChar` is a datatype with the
  character byte first and the attribute second. Dafny compares datatype
  values field by field, which is what the derived `PartialEq`/`Eq` do.
- `kernel_writer.dfy` (module `KernelWriter`): the behaviour of the
  `KernelWriter` trait as functions on a state value. The state holds the
  `KernelWriterInfos` fields and the grid as rows of cells.
- `kernel_writer_laws.dfy` (module `KernelWriterLaws`): lemmas about those
  functions. They cover the tab-stop law, the one-cell frame of a regular
  byte, wrapping, the scroll shift, and the laws of `write_string` and
  `println!`.
- `writer.dfy` (module `VgaWriter`): one class `Writer`. It stands for the
  hardware-backed `Writer` of `src/io/vga_buffer.rs` and `src/io/vga/writer.rs`,
  and also for the in-memory `TestWriter` of `tests/utils/mock_writer.rs`.
  All three run the same trait code and differ only in where the grid
  lives. The class keeps the cursor and colour as fields and the grid as
  an `array2<ScreenChar>`. `read`/`write` are plain array accesses. Each of
  `write_byte`, `new_line`, `clear_row` and `write_string` is a method with
  the source's loops. Each method is proved to leave the writer in the
  state the function of the same name in `KernelWriter` gives.

`src/io/vga_buffer.rs` and `src/io/vga/writer.rs` contain the same trait
code line for line, so one model serves both. In the table, each
behaviour cites one of the two files. The matching lines in the other
file are:

| vga_buffer.rs | vga/writer.rs |
|---|---|
| 57-60 | 31-34 |
| 63-91 | 37-65 |
| 96-100 | 70-74 |
| 104-121 | 78-95 |
| 125-136 | 99-110 |
| 161-169 | 135-143 |

Four behaviours of the code are worth stating up front:

- A tab can push the column past 80 (79 goes to 80, and 80 goes to 84).
  No cell is written in that state, and the next regular byte wraps. So
  the model bounds only the row, and `KernelWriterLaws.StoredCharacter`
  shows that every cell write is at a column below 80.
- 80 printable bytes written from column 0 leave the column at 80 on the
  same row. The wrap happens only when the next regular byte arrives
  (`KernelWriterLaws.FullRowWrapsOnNextByte`).
- The line of the println test has 43 characters and fits on one row
  (`KernelWriterLaws.TestLineFitsOnOneRow`).
- The sanitiser's keep-set also lists tab and newline (`Sanitize` models
  it as written). Those two bytes never reach it, because `write_byte`
  handles them first. So a stored character is always printable ASCII
  or `0xfe`.

## Model

| member | source | states |
|---|---|---|
| `VgaBuffer.Color.Value` | src/io/vga_buffer.rs:179-196 | each colour's `u8` discriminant is below 16 and `FromValue` gives the colour back |
| `VgaBuffer.NewColorCode` | src/io/vga_buffer.rs:202-206 | shifting the background left by 4 and or-ing in the foreground, on 8 bits, equals `bg * 16 + fg`, so it always fits in a byte |
| `VgaBuffer.ColorCodeDecodes` | src/io/vga_buffer.rs:203-205 | the background is the high nibble of the attribute and the foreground the low nibble |
| `VgaBuffer.ColorCodeInjective` | src/io/vga_buffer.rs:200-205 | two colour pairs with the same attribute byte are the same pair |
| `VgaBuffer.DefaultColorIsWhiteOnBlack` | tests/utils/mock_writer.rs:47 | `ColorCode::new(White, Black)` is the byte `0x0F` |
| `VgaBuffer.FilledGrid` | tests/utils/mock_writer.rs:50-58 | the `from_fn` grid has 25 rows of 80 cells, every cell equal to the fill cell |
| `VgaWriter.Writer.Chars` | src/io/vga/buffer.rs:15-18 | the writer's `array2` read row by row is a grid of exactly 25 rows of 80 cells, cell for cell |
| `KernelWriter.Sanitize` | src/io/vga_buffer.rs:75-79 | the stored byte is the input byte or `0xfe`; printable bytes are kept; the byte is kept exactly when it is printable, tab, newline or `0xfe` |
| `KernelWriter.NextTabStop` | src/io/vga_buffer.rs:57-60 | the new column is a multiple of 4, greater than the old column and at most 4 greater |
| `KernelWriter.Put` | src/io/vga/writer.rs:140-143 | after writing `x` at (row, col), that cell holds `x`, every other cell is unchanged, and the grid keeps its shape |
| `KernelWriter.ClearRow` | src/io/vga_buffer.rs:125-136 | every cell of the row becomes a space in the current colour; other rows and the cursor are untouched |
| `KernelWriter.ShiftRowsUp` | src/io/vga_buffer.rs:112-117 | after the copy loop, row r holds the old row r+1 for r < 24 and row 24 is as it was |
| `KernelWriter.NewLine` | src/io/vga_buffer.rs:104-121 | a new line keeps the grid shape and keeps the row on the screen, in both branches |
| `KernelWriter.WriteByte` | src/io/vga_buffer.rs:51-93 | `write_byte` is defined for all 256 byte values and keeps the row on the screen and the grid shape |
| `KernelWriter.WriteString` | src/io/vga_buffer.rs:96-100 | `write_string` of any byte sequence keeps the writer state valid |
| `KernelWriter.Println` | src/io/mod.rs:16-19 | `println!` on rendered text keeps the writer state valid |
| `KernelWriter.Initial` | tests/utils/mock_writer.rs:43-61 | the test writer starts at column 0, row 0, colour `0x0F`, with every one of the 25 x 80 cells a space in white on black |
| `KernelWriterLaws.TabStopIsLeast` | src/io/vga/writer.rs:31-34 | no multiple of 4 lies strictly between the old column and the tab stop (0 goes to 4, 3 to 4, 4 to 8) |
| `KernelWriterLaws.TabLaw` | src/io/vga_buffer.rs:57-60 | a tab changes no cell, not the row and not the colour, and moves the column to the next tab stop even past column 80 |
| `KernelWriterLaws.RegularByteInRow` | src/io/vga_buffer.rs:63-91 | with column < 80, a regular byte changes exactly the cell at the cursor to (sanitised byte, current colour) and increments the column; the row, the colour and every other cell are unchanged |
| `KernelWriterLaws.RegularByteWraps` | src/io/vga/writer.rs:37-40 | with column >= 80, a regular byte behaves as `new_line` followed by the same byte at column 0 |
| `KernelWriterLaws.StoredCharacter` | src/io/vga/writer.rs:49-53 | a regular byte is written at a column below 80, and what is stored is the byte when it is in `0x20..=0x7e` and `0xfe` otherwise |
| `KernelWriterLaws.NewLineBelowLastRow` | src/io/vga/writer.rs:78-84 | below the last row, a new line leaves the grid unchanged and sets the cursor to column 0 of the next row |
| `KernelWriterLaws.NewLineScrolls` | src/io/vga/writer.rs:85-94 | on the last row, each new row r < 24 equals the old row r+1, row 24 is all spaces in the current colour, and the cursor is column 0 of row 24 |
| `KernelWriterLaws.WriteStringAppend` | src/io/vga/writer.rs:70-74 | writing `a + b` equals writing `a` and then `b` |
| `KernelWriterLaws.WriteStringSnoc` | src/io/vga_buffer.rs:97-99 | writing one more byte after a string is one more `write_byte` on the result |
| `KernelWriterLaws.WriteStringWithinRow` | src/io/vga_buffer.rs:96-100 | printable bytes that fit in the rest of the row are stored left to right from the cursor in the current colour; the column advances by their number; no other cell and not the row changes |
| `KernelWriterLaws.FullRowWrapsOnNextByte` | src/io/vga_buffer.rs:64-66 | 80 printable bytes from column 0 leave column 80 on the same row; the next regular byte lands at column 0 of the next row (or of the scrolled last row), with the full row intact directly above it |
| `KernelWriterLaws.PrintlnLeavesLineAbove` | src/io/mod.rs:16-19 | after `println!` of printable text that fits, started at column 0, the text is on the row directly above the cursor and the column is 0, with or without a scroll |
| `KernelWriterLaws.PrintlnCursorRowIsBlank` | src/tests/io/vga.rs:18-22 | once the screen scrolls, after `println!` the cursor row is the freshly cleared one, so its first cell is a space and not the text's first character |
| `KernelWriterLaws.TestLineFitsOnOneRow` | src/tests/io/vga.rs:17-19 | the 43-character test line written from column 0 is stored character for character in the first 43 cells of the cursor row, with no wrap |
| `VgaWriter.Writer.Bind` | src/io/vga_buffer.rs:23-32 | the global writer is bound to the given screen memory, with the cursor at (0, 0) and colour white on black |
| `VgaWriter.Writer.constructor` | tests/utils/mock_writer.rs:43-61 | the test writer owns a fresh grid and its state is `KernelWriter.Initial()` |
| `VgaWriter.Writer.Read` | src/io/vga/writer.rs:135-138 | `read(r, c)` returns the cell stored at (r, c) |
| `VgaWriter.Writer.Write` | tests/utils/mock_writer.rs:31-33 | `write(r, c, x)` makes (r, c) hold `x`, so a following `read(r, c)` returns `x`; every other cell and the cursor are unchanged |
| `VgaWriter.Writer.WriteThenRead` | src/io/vga/writer.rs:135-143 | a `read` of a cell just written returns the written value, and a read of any other cell gives the same value before and after the `write` |
| `VgaWriter.Writer.ClearRow` | src/io/vga/writer.rs:99-110 | the 80-cell loop leaves the writer in the state `KernelWriter.ClearRow` gives |
| `VgaWriter.Writer.NewLine` | src/io/vga/writer.rs:78-95 | the nested scroll loop and the final `clear_row` leave the writer in the state `KernelWriter.NewLine` gives |
| `VgaWriter.Writer.WriteByte` | src/io/vga/writer.rs:25-67 | the writer ends in the state `KernelWriter.WriteByte` gives, for every byte value |
| `VgaWriter.Writer.WriteString` | src/io/vga/writer.rs:70-74 | the byte loop leaves the writer in the state `KernelWriter.WriteString` gives |
| `VgaWriter.Writer.WriteStr` | tests/utils/mock_writer.rs:15-20 | `write_str` always returns `Ok` and has the effect of `write_string` |

## Findings

| source | as written | input that shows it | evidently intended | confidence | as-written member | corrected member |
|---|---|---|---|---|---|---|
| src/tests/io/vga.rs:18-22 | `test_println_output` reads the test line back from row `row_position` after `println!`. The trailing newline has already moved the cursor past that row. | the cursor on the last row, as after the 200 lines of `test_println_many`, and the line "Some test string that fits on a single line": the cursor row is blank and holds a space where 'S' is expected | read the row directly above the cursor, where the line is in every case | medium; not executed | `KernelWriterLaws.PrintlnCursorRowIsBlank` | `KernelWriterLaws.PrintlnLeavesLineAbove` |

The same test also names `writer.row_position`, but that field lives
under `infos`. This model takes the field to be `infos.row_position`.
The test locks `crate::io::vga::WRITER`, while `println!` writes through
`crate::io::vga_buffer::_print` and the `WRITER` of that file. The model
reads the two as one writer, since `src/io/vga_buffer.rs` is the
authoritative variant and both run the same trait code.

## Left out

- The global `WRITER` and `MOCK_WRITER` are left out: their `lazy_static!` initialisation, the `spin::Mutex` around them, and the unsafe cast of `0xb8000` to the buffer. These are concurrency and hardware binding. The constructor `Bind` takes the screen memory as a parameter and states the initial field values. The mutual-exclusion property of the console is therefore not modelled.
- `Volatile` reads and writes are modelled as ordinary array accesses. Dafny cannot express compiler reordering, and it does not matter in a sequential model.
- `_print`, `core::fmt::Write::write_fmt`, `format_args!` and the `print!`/`println!` macros are left out. They are formatting code over a library outside this model. `Println` takes text that is already rendered and writes it followed by a newline.
- Strings are byte sequences, as `str.bytes()` yields them. UTF-8 encoding is not modelled.
- `column_position` is a `nat`. The `usize` overflow that unbounded tabs could cause after about 2^64 columns is not modelled.
- In the source, `read` and `write` panic on an index out of range. Here they require indices in range. Every call in the trait code passes such indices, and the model proves it.
- `src/io/vga/buffer.rs` imports a `color` module, and `src/io/mod.rs` declares an `interrupts` module. Neither module is part of this model. The colour types of `src/io/vga_buffer.rs` stand in for the first one.
- Kernel entry, the panic handlers, the test runners and the build scripts are left out. They are start-up, I/O and toolchain code.
