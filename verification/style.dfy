/** The cell style record and the colour-name table of the template language. */
module Styles {
  import opened Text

  /** Visual style of a cell; `color` and `bgColor` hold raw SGR escape strings. */
  datatype Style = Style(
    bold: bool, dim: bool, italic: bool, underline: bool, strike: bool,
    reverse: bool, blink: bool, color: string, bgColor: string)

  /** The zero value of the record: no attribute, no colour. */
  const Plain := Style(false, false, false, false, false, false, false, "", "")

  /** The Select Graphic Rendition sequence ESC `[` n `m`. */
  function Sgr(n: nat): string {
    CsiPrefix + Decimal(n) + "m"
  }

  /** `GetColorCode`: a colour name to its SGR foreground sequence, "" when unknown. */
  function GetColorCode(name: string): (code: string)
    ensures code == "" || code == Sgr(90) || exists n :: 30 <= n <= 37 && code == Sgr(n)
  {
    match name
    case "black" => Sgr(30)
    case "red" => Sgr(31)
    case "green" => Sgr(32)
    case "blue" => Sgr(34)
    case "magenta" => Sgr(35)
    case "cyan" => Sgr(36)
    case "white" => Sgr(37)
    case "yellow" => Sgr(33)
    case "grey" => Sgr(90)
    case _ => ""
  }

  /** The terminal palette: the SGR foreground parameter of each colour name. */
  const Palette: map<string, nat> := map[
    "black" := 30, "red" := 31, "green" := 32, "yellow" := 33, "blue" := 34,
    "magenta" := 35, "cyan" := 36, "white" := 37, "grey" := 90]

  /** The switch agrees with the palette, and every other name (other case included) gives "". */
  lemma GetColorCodeMatchesPalette(name: string)
    ensures name in Palette ==> GetColorCode(name) == Sgr(Palette[name])
    ensures name !in Palette ==> GetColorCode(name) == ""
  {
    if name == "black" || name == "red" || name == "green" || name == "yellow" || name == "blue" {
    } else if name == "magenta" || name == "cyan" || name == "white" || name == "grey" {
    } else {
      assert name !in Palette.Keys;
    }
  }

  /** Distinct parameters give distinct sequences. */
  lemma SgrInjective(m: nat, n: nat)
    ensures Sgr(m) == Sgr(n) ==> m == n
  {
    if Sgr(m) == Sgr(n) {
      assert Sgr(m)[2..|Sgr(m)| - 1] == Decimal(m);
      assert Sgr(n)[2..|Sgr(n)| - 1] == Decimal(n);
      DecimalRoundTrip(m);
      DecimalRoundTrip(n);
    }
  }

  /** The colour name each palette parameter belongs to. */
  function PaletteName(n: nat): string {
    match n
    case 30 => "black"
    case 31 => "red"
    case 32 => "green"
    case 33 => "yellow"
    case 34 => "blue"
    case 35 => "magenta"
    case 36 => "cyan"
    case 37 => "white"
    case _ => "grey"
  }

  /** The palette is one-to-one: each parameter names its colour back. */
  lemma PaletteNamesBack(name: string)
    requires name in Palette
    ensures PaletteName(Palette[name]) == name
  {
    if name == "black" || name == "red" || name == "green" || name == "yellow" || name == "blue" {
    } else if name == "magenta" || name == "cyan" || name == "white" || name == "grey" {
    } else {
      assert false;
    }
  }

  /** Distinct recognised names give distinct codes. */
  lemma GetColorCodeInjective(a: string, b: string)
    requires GetColorCode(a) != "" && a != b
    ensures GetColorCode(a) != GetColorCode(b)
  {
    GetColorCodeMatchesPalette(a);
    GetColorCodeMatchesPalette(b);
    if b in Palette {
      PaletteNamesBack(a);
      PaletteNamesBack(b);
      SgrInjective(Palette[a], Palette[b]);
    } else {
      assert |GetColorCode(a)| > 0;
    }
  }
}
