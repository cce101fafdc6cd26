/**
 * Coloured console output: on Linux the foreground colour is written as a
 * VT100 escape sequence (bold bright colours, dim dark ones), elsewhere the
 * console's colour properties are set. Each write restores the colours it
 * found.
 */
module ColorConsole {
  import opened Wrappers

  /** `ConsoleColor`, as the int32 the enum holds. */
  type ConsoleColor = int
  const Black: ConsoleColor := 0
  const DarkBlue: ConsoleColor := 1
  const DarkGreen: ConsoleColor := 2
  const DarkCyan: ConsoleColor := 3
  const DarkRed: ConsoleColor := 4
  const DarkMagenta: ConsoleColor := 5
  const DarkYellow: ConsoleColor := 6
  const Gray: ConsoleColor := 7
  const DarkGray: ConsoleColor := 8
  const Blue: ConsoleColor := 9
  const Green: ConsoleColor := 10
  const Cyan: ConsoleColor := 11
  const Red: ConsoleColor := 12
  const Magenta: ConsoleColor := 13
  const Yellow: ConsoleColor := 14
  const White: ConsoleColor := 15

  const Esc: char := 27 as char

  /** ESC "[<intensity>;3<colour>m". */
  function Code(intensity: char, hue: char): string
  {
    [Esc, '[', intensity, ';', '3', hue, 'm']
  }

  /** ESC "[0m", the reset sequence. */
  const Reset: string := [Esc, '[', '0', 'm']

  /** `GetLinuxVT100ForeColorCodes`: the escape sequence for a foreground colour. */
  function VT100ForeColorCode(color: ConsoleColor): (r: string)
    ensures |r| > 0 && r[0] == Esc
  {
    if color == Black then Code('1', '0')
    else if color == White then Code('1', '7')
    else if color == DarkBlue then Code('2', '4')
    else if color == DarkGreen then Code('2', '2')
    else if color == DarkCyan then Code('2', '6')
    else if color == DarkRed then Code('2', '1')
    else if color == DarkMagenta then Code('2', '5')
    else if color == DarkYellow then Code('2', '3')
    else if color == DarkGray then Code('2', '7')
    else if color == Blue then Code('1', '4')
    else if color == Green then Code('1', '2')
    else if color == Cyan then Code('1', '6')
    else if color == Red then Code('1', '1')
    else if color == Magenta then Code('1', '5')
    else if color == Yellow then Code('1', '3')
    else if color == Gray then Code('1', '7')
    else Reset
  }

  /**
   * The ANSI colour number (red 1, green 2, blue 4) of a console colour, whose
   * low three bits are blue 1, green 2 and red 4.
   */
  function AnsiHue(color: ConsoleColor): (r: int)
    ensures 0 <= r < 8
  {
    var v := color % 8;
    v / 4 + v / 2 % 2 * 2 + v % 2 * 4
  }

  function Digit(d: int): char
    requires 0 <= d < 10
  {
    ('0' as int + d) as char
  }

  /**
   * The colours named `Dark*` (DarkGray aside) are dim and the bright ones bold,
   * each in its own ANSI colour; black and gray are bold, and dark gray is dim
   * white, so gray and white give the same sequence.
   */
  lemma CodeStructure(color: ConsoleColor)
    ensures DarkBlue <= color <= DarkYellow ==> VT100ForeColorCode(color) == Code('2', Digit(AnsiHue(color)))
    ensures Blue <= color <= White ==> VT100ForeColorCode(color) == Code('1', Digit(AnsiHue(color)))
    ensures color == Black ==> VT100ForeColorCode(color) == Code('1', '0')
    ensures color == Gray || color == White ==> VT100ForeColorCode(color) == Code('1', '7')
    ensures color == DarkGray ==> VT100ForeColorCode(color) == Code('2', '7')
    ensures !(Black <= color <= White) ==> VT100ForeColorCode(color) == Reset
  {
    if DarkBlue <= color <= DarkYellow {
      DimCode(color);
    } else if Blue <= color <= White {
      BoldCode(color);
    }
  }

  lemma DimCode(color: ConsoleColor)
    requires DarkBlue <= color <= DarkYellow
    ensures VT100ForeColorCode(color) == Code('2', Digit(AnsiHue(color)))
  {
    if color == DarkBlue {
    } else if color == DarkGreen {
    } else if color == DarkCyan {
    } else if color == DarkRed {
    } else if color == DarkMagenta {
    }
  }

  lemma BoldCode(color: ConsoleColor)
    requires Blue <= color <= White
    ensures VT100ForeColorCode(color) == Code('1', Digit(AnsiHue(color)))
  {
    if color == Blue {
    } else if color == Green {
    } else if color == Cyan {
    } else if color == Red {
    } else if color == Magenta {
    } else if color == Yellow {
    }
  }

  /** Two listed colours share a sequence only when they are gray and white. */
  lemma CodesDistinct(a: ConsoleColor, b: ConsoleColor)
    requires Black <= a <= White && Black <= b <= White
    requires VT100ForeColorCode(a) == VT100ForeColorCode(b)
    ensures a == b || (a in {Gray, White} && b in {Gray, White})
  {
    var ca := VT100ForeColorCode(a);
    var cb := VT100ForeColorCode(b);
    assert ca[2] == cb[2] && ca[5] == cb[5];
  }

  /** The console's colour state and what has been written to it. */
  class Console {
    var foreground: ConsoleColor
    var background: ConsoleColor
    var output: string
    /** `Utils.RunningPlatform() == Platform.Linux`. */
    const isLinux: bool

    constructor (isLinux: bool, foreground: ConsoleColor, background: ConsoleColor)
      ensures this.isLinux == isLinux && this.foreground == foreground && this.background == background
      ensures output == ""
    {
      this.isLinux := isLinux;
      this.foreground := foreground;
      this.background := background;
      output := "";
    }

    /**
     * `ConsoleColorBegin`: switch to the given colours and return the colours
     * they replace (only for the ones given). On Linux the foreground is
     * written as an escape sequence and the console's property stays.
     */
    method ColorBegin(fore: Option<ConsoleColor>, back: Option<ConsoleColor>)
      returns (previous: (Option<ConsoleColor>, Option<ConsoleColor>))
      modifies this
      ensures previous.0 == (if fore.Some? then Some(old(foreground)) else None)
      ensures previous.1 == (if back.Some? then Some(old(background)) else None)
      ensures foreground == (if fore.Some? && !isLinux then fore.value else old(foreground))
      ensures background == (if back.Some? then back.value else old(background))
      ensures output == old(output) + (if fore.Some? && isLinux then VT100ForeColorCode(fore.value) else "")
    {
      var previousFore: Option<ConsoleColor> := None;
      var previousBack: Option<ConsoleColor> := None;
      if fore.Some? {
        previousFore := Some(foreground);
        if isLinux {
          output := output + VT100ForeColorCode(fore.value);
        } else {
          foreground := fore.value;
        }
      }
      if back.Some? {
        previousBack := Some(background);
        background := back.value;
      }
      previous := (previousFore, previousBack);
    }

    /** `ConsoleColorRestore`: switch back to the colours `ColorBegin` returned. */
    method ColorRestore(previous: (Option<ConsoleColor>, Option<ConsoleColor>))
      modifies this
      ensures foreground == (if previous.0.Some? && !isLinux then previous.0.value else old(foreground))
      ensures background == (if previous.1.Some? then previous.1.value else old(background))
      ensures output == old(output) + (if previous.0.Some? && isLinux then VT100ForeColorCode(previous.0.value) else "")
    {
      if previous.0.Some? {
        if isLinux {
          output := output + VT100ForeColorCode(previous.0.value);
        } else {
          foreground := previous.0.value;
        }
      }
      if previous.1.Some? {
        background := previous.1.value;
      }
    }

    /** The foreground sequence written on Linux for a given colour. */
    function ForeText(color: Option<ConsoleColor>): string
    {
      if color.Some? && isLinux then VT100ForeColorCode(color.value) else ""
    }

    /**
     * `Write`: the time stamp in the original colours, then the value in the
     * given colours, then the original colours again. `timeStamp` is the text
     * the clock gives.
     */
    method Write(fore: Option<ConsoleColor>, back: Option<ConsoleColor>, timeStamp: Option<string>,
                 useWriteLine: bool, value: string)
      modifies this
      ensures foreground == old(foreground) && background == old(background)
      ensures output == old(output) + (if timeStamp.Some? then timeStamp.value else "") + ForeText(fore)
        + (value + if useWriteLine then "\n" else "") + ForeText(if fore.Some? then Some(old(foreground)) else None)
    {
      ghost var stamp := if timeStamp.Some? then timeStamp.value else "";
      if timeStamp.Some? {
        output := output + timeStamp.value;
      }
      ghost var stamped := output;
      assert stamped == old(output) + stamp;
      var colors := ColorBegin(fore, back);
      ghost var colored := output;
      assert colored == stamped + ForeText(fore);
      var line := value + if useWriteLine then "\n" else "";
      output := output + line;
      ColorRestore(colors);
      assert output == colored + line + ForeText(colors.0);
    }
  }
}
