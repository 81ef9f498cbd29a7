/**
 * Colour resolution of the terminal control: the fixed 16-entry palette, the brushes built
 * from it, and the rules that pick a cell's foreground and background brush from its
 * attributes, the global reverse-video mode and the "selected" flag.
 */
module Attributes {
  import opened Wrappers

  /** The eight colour codes of the terminal engine (black, red, ..., white). */
  type ColorCode = c: int | 0 <= c < 8

  /** An opaque colour as the drawing layer sees it: every component is a byte. */
  datatype Color = Color(alpha: int, red: int, green: int, blue: int)

  /** An explicit 24-bit colour carried by an attribute; the engine stores plain ints. */
  datatype RgbColor = RgbColor(red: int, green: int, blue: int)

  /** The part of the engine's TerminalAttribute that the control reads. */
  datatype TerminalAttribute = TerminalAttribute(
    foregroundColor: ColorCode,
    backgroundColor: ColorCode,
    foregroundRgb: Option<RgbColor>,
    backgroundRgb: Option<RgbColor>,
    bright: bool,
    reverse: bool,
    underscore: bool,
    blink: bool)

  const PaletteSize: nat := 16
  const BrightOffset: nat := 8

  /** The control's colour table: eight normal colours followed by their bright variants. */
  const AttributeColors: seq<Color> := [
    Color(255, 0, 0, 0),        // black
    Color(255, 205, 0, 0),      // red
    Color(255, 0, 205, 0),      // green
    Color(255, 205, 205, 0),    // yellow
    Color(255, 0, 0, 205),      // blue
    Color(255, 205, 0, 205),    // magenta
    Color(255, 0, 205, 205),    // cyan
    Color(255, 205, 205, 205),  // white
    Color(255, 127, 127, 127),  // bright black
    Color(255, 255, 0, 0),      // bright red
    Color(255, 0, 255, 0),      // bright green
    Color(255, 255, 255, 0),    // bright yellow
    Color(255, 92, 92, 255),    // bright blue
    Color(255, 255, 0, 255),    // bright magenta
    Color(255, 0, 255, 255),    // bright cyan
    Color(255, 255, 255, 255)   // bright white
  ]

  /**
   * A brush handed to the drawing layer. Palette(i) stands for the shared static brush of
   * palette entry i; Solid stands for a freshly allocated brush, so no two of them are the
   * same object.
   */
  datatype Brush = Palette(index: nat) | Solid(color: Color)

  /** Reference identity of two brushes, which is what the span loops compare. */
  function SameBrush(a: Brush, b: Brush): (same: bool)
    ensures same <==> a.Palette? && a == b
  {
    a.Palette? && b.Palette? && a.index == b.index
  }

  /** The unchecked (byte) cast of the source: keep the low eight bits. */
  function ToByte(x: int): (b: int)
    ensures 0 <= b < 256
    ensures (x - b) % 256 == 0
  {
    x % 256
  }

  function SolidBrush(c: RgbColor): (b: Brush)
    ensures b.Solid? && b.color.alpha == 255
    ensures 0 <= b.color.red < 256 && (c.red - b.color.red) % 256 == 0
    ensures 0 <= b.color.green < 256 && (c.green - b.color.green) % 256 == 0
    ensures 0 <= b.color.blue < 256 && (c.blue - b.color.blue) % 256 == 0
    ensures 0 <= c.red < 256 && 0 <= c.green < 256 && 0 <= c.blue < 256 ==>
      b.color == Color(255, c.red, c.green, c.blue)
  {
    Solid(Color(255, ToByte(c.red), ToByte(c.green), ToByte(c.blue)))
  }

  /** The brush of the "foreground colour" role: RGB override, else palette with bright shift. */
  function ForegroundRole(a: TerminalAttribute): (b: Brush)
    ensures b.Palette? <==> a.foregroundRgb.None?
    ensures b.Solid? ==> b == SolidBrush(a.foregroundRgb.value)
    ensures b.Palette? ==> b.index < PaletteSize && b.index % BrightOffset == a.foregroundColor
    ensures b.Palette? ==> (b.index >= BrightOffset <==> a.bright)
  {
    if a.foregroundRgb.None? then
      if a.bright then Palette(a.foregroundColor + BrightOffset) else Palette(a.foregroundColor)
    else
      SolidBrush(a.foregroundRgb.value)
  }

  /** The brush of the "background colour" role: RGB override, else palette, never bright. */
  function BackgroundRole(a: TerminalAttribute): (b: Brush)
    ensures b.Palette? <==> a.backgroundRgb.None?
    ensures b.Solid? ==> b == SolidBrush(a.backgroundRgb.value)
    ensures b.Palette? ==> b.index == a.backgroundColor && b.index < BrightOffset
  {
    if a.backgroundRgb.None? then Palette(a.backgroundColor) else SolidBrush(a.backgroundRgb.value)
  }

  /** Whether the two roles are exchanged for this cell. */
  function Flip(reverseVideo: bool, a: TerminalAttribute, invert: bool): (flip: bool)
    ensures flip <==>
      ((if reverseVideo then 1 else 0) + (if a.reverse then 1 else 0) + (if invert then 1 else 0)) % 2 == 1
  {
    (reverseVideo != a.reverse) != invert
  }

  /** GetBackgroundBrush: the background role unless the roles are flipped. */
  function GetBackgroundBrush(reverseVideo: bool, a: TerminalAttribute, invert: bool): (b: Brush)
    ensures b.Palette? ==> b.index < PaletteSize
    ensures b.Solid? ==> b.color.alpha == 255
  {
    if Flip(reverseVideo, a, invert) then ForegroundRole(a) else BackgroundRole(a)
  }

  /** GetForegroundBrush: the foreground role unless the roles are flipped. */
  function GetForegroundBrush(reverseVideo: bool, a: TerminalAttribute, invert: bool): (b: Brush)
    ensures b.Palette? ==> b.index < PaletteSize
    ensures b.Solid? ==> b.color.alpha == 255
  {
    if Flip(reverseVideo, a, invert) then BackgroundRole(a) else ForegroundRole(a)
  }

  /** Without any flip the cell paints its own colours; with a flip it paints them exchanged. */
  lemma ResolvedRoles(reverseVideo: bool, a: TerminalAttribute, invert: bool)
    ensures !Flip(reverseVideo, a, invert) ==>
      GetForegroundBrush(reverseVideo, a, invert) == ForegroundRole(a) &&
      GetBackgroundBrush(reverseVideo, a, invert) == BackgroundRole(a)
    ensures Flip(reverseVideo, a, invert) ==>
      GetForegroundBrush(reverseVideo, a, invert) == BackgroundRole(a) &&
      GetBackgroundBrush(reverseVideo, a, invert) == ForegroundRole(a)
  {
  }

  /** The two resolvers are dual: the background of a cell is its foreground when inverted. */
  lemma ResolutionDuality(reverseVideo: bool, a: TerminalAttribute, invert: bool)
    ensures GetBackgroundBrush(reverseVideo, a, invert) == GetForegroundBrush(reverseVideo, a, !invert)
    ensures GetForegroundBrush(reverseVideo, a, invert) == GetBackgroundBrush(reverseVideo, a, !invert)
  {
  }

  /** Toggling any one of the three flags exchanges the roles... */
  lemma ToggleOneSwapsRoles(reverseVideo: bool, a: TerminalAttribute, invert: bool)
    ensures GetForegroundBrush(!reverseVideo, a, invert) == GetBackgroundBrush(reverseVideo, a, invert)
    ensures GetBackgroundBrush(!reverseVideo, a, invert) == GetForegroundBrush(reverseVideo, a, invert)
    ensures GetForegroundBrush(reverseVideo, a.(reverse := !a.reverse), invert) == GetBackgroundBrush(reverseVideo, a, invert)
    ensures GetBackgroundBrush(reverseVideo, a.(reverse := !a.reverse), invert) == GetForegroundBrush(reverseVideo, a, invert)
    ensures GetForegroundBrush(reverseVideo, a, !invert) == GetBackgroundBrush(reverseVideo, a, invert)
    ensures GetBackgroundBrush(reverseVideo, a, !invert) == GetForegroundBrush(reverseVideo, a, invert)
  {
  }

  /** ...and toggling any two of them restores them (reverse video of a selected cell). */
  lemma ToggleTwoRestoresRoles(reverseVideo: bool, a: TerminalAttribute, invert: bool)
    ensures GetForegroundBrush(!reverseVideo, a.(reverse := !a.reverse), invert) == GetForegroundBrush(reverseVideo, a, invert)
    ensures GetBackgroundBrush(!reverseVideo, a.(reverse := !a.reverse), invert) == GetBackgroundBrush(reverseVideo, a, invert)
    ensures GetForegroundBrush(!reverseVideo, a, !invert) == GetForegroundBrush(reverseVideo, a, invert)
    ensures GetBackgroundBrush(!reverseVideo, a, !invert) == GetBackgroundBrush(reverseVideo, a, invert)
    ensures GetForegroundBrush(reverseVideo, a.(reverse := !a.reverse), !invert) == GetForegroundBrush(reverseVideo, a, invert)
    ensures GetBackgroundBrush(reverseVideo, a.(reverse := !a.reverse), !invert) == GetBackgroundBrush(reverseVideo, a, invert)
  {
  }

  /** Every palette entry is opaque and each bright variant is at least as light as its base. */
  lemma PaletteShape()
    ensures |AttributeColors| == PaletteSize
    ensures forall i :: 0 <= i < PaletteSize ==> AttributeColors[i].alpha == 255
    ensures forall i :: 0 <= i < BrightOffset ==>
      AttributeColors[i].red <= AttributeColors[i + BrightOffset].red &&
      AttributeColors[i].green <= AttributeColors[i + BrightOffset].green &&
      AttributeColors[i].blue <= AttributeColors[i + BrightOffset].blue
  {
  }
}
