/**
 * The memory layout of the VGA text buffer: the 16 colours, the packed
 * colour attribute, the two-byte screen cell and the 25 x 80 grid shape.
 */
module VgaBuffer {

  /** An unsigned 8-bit value (Rust's `u8`). */
  type Byte = x: int | 0 <= x < 256

  /** Number of text rows of the screen. */
  const BufferHeight: nat := 25
  /** Number of cells in one row. */
  const BufferWidth: nat := 80

  /** The 16 colours of the VGA text palette, in discriminant order. */
  datatype Color =
    | Black | Blue | Green | Cyan | Red | Magenta | Brown | LightGray
    | DarkGray | LightBlue | LightGreen | LightCyan | LightRed | Pink | Yellow | White
  {
    /** The discriminant the colour has as a `u8` (`Black = 0` ... `White = 15`). */
    function Value(): (v: nat)
      ensures v < 16
      ensures FromValue(v) == this
    {
      match this
      case Black => 0
      case Blue => 1
      case Green => 2
      case Cyan => 3
      case Red => 4
      case Magenta => 5
      case Brown => 6
      case LightGray => 7
      case DarkGray => 8
      case LightBlue => 9
      case LightGreen => 10
      case LightCyan => 11
      case LightRed => 12
      case Pink => 13
      case Yellow => 14
      case White => 15
    }
  }

  /** The colour whose discriminant is `v`; the inverse of `Color.Value`. */
  function FromValue(v: nat): Color
    requires v < 16
  {
    match v
    case 0 => Black
    case 1 => Blue
    case 2 => Green
    case 3 => Cyan
    case 4 => Red
    case 5 => Magenta
    case 6 => Brown
    case 7 => LightGray
    case 8 => DarkGray
    case 9 => LightBlue
    case 10 => LightGreen
    case 11 => LightCyan
    case 12 => LightRed
    case 13 => Pink
    case 14 => Yellow
    case _ => White
  }

  /** The attribute byte of a cell: background in the high nibble, foreground in the low one. */
  datatype ColorCode = ColorCode(value: Byte)

  /**
   * `ColorCode::new`: the background discriminant shifted left by four,
   * or-ed with the foreground discriminant, computed on 8-bit values.
   */
  function NewColorCode(foreground: Color, background: Color): (code: ColorCode)
    ensures code.value == background.Value() * 16 + foreground.Value()
  {
    var bits := ((background.Value() as bv8) << 4) | (foreground.Value() as bv8);
    ColorCode(bits as int)
  }

  /** The colour every writer starts with: white on black. */
  const DefaultColor: ColorCode := NewColorCode(White, Black)

  /** One cell of the screen: the character byte first, then its attribute. */
  datatype ScreenChar = ScreenChar(asciiCharacter: Byte, colorCode: ColorCode)

  /** The shape of `Buffer::chars`: exactly 25 rows of exactly 80 cells. */
  predicate IsGrid(chars: seq<seq<ScreenChar>>) {
    |chars| == BufferHeight &&
    forall r :: 0 <= r < |chars| ==> |chars[r]| == BufferWidth
  }

  /** The grid in which every cell is `fill`. */
  function FilledGrid(fill: ScreenChar): (chars: seq<seq<ScreenChar>>)
    ensures IsGrid(chars)
    ensures forall r, c :: 0 <= r < BufferHeight && 0 <= c < BufferWidth ==> chars[r][c] == fill
  {
    seq(BufferHeight, _ => seq(BufferWidth, _ => fill))
  }

  /** Both colours can be read back from the attribute byte. */
  lemma ColorCodeDecodes(foreground: Color, background: Color)
    ensures NewColorCode(foreground, background).value / 16 == background.Value()
    ensures NewColorCode(foreground, background).value % 16 == foreground.Value()
  {
  }

  /** Distinct colour pairs give distinct attribute bytes. */
  lemma ColorCodeInjective(f1: Color, b1: Color, f2: Color, b2: Color)
    requires NewColorCode(f1, b1) == NewColorCode(f2, b2)
    ensures f1 == f2 && b1 == b2
  {
    ColorCodeDecodes(f1, b1);
    ColorCodeDecodes(f2, b2);
    assert FromValue(f1.Value()) == FromValue(f2.Value());
    assert FromValue(b1.Value()) == FromValue(b2.Value());
  }

  /** The default attribute is the byte 0x0F. */
  lemma DefaultColorIsWhiteOnBlack()
    ensures DefaultColor.value == 0x0f
  {
  }
}
