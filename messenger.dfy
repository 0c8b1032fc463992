/** The console messenger of `directory_bootstrap/shared/messenger.py`: shell
    escaping of announced command lines, ANSI colouring, and which messages
    each verbosity lets through to standard output and standard error. */
module Messaging {
  import opened Text

  // ---------------------------------------------------------------------------
  // `escape_shell`

  /** The characters `_NEEDS_ESCAPING` matches: ``!`"'$``, space, backslash,
      braces, parentheses and `?*&<>;`. */
  predicate NeedsEscaping(c: char) {
    c in {'!', '`', '"', '\'', '$', ' ', '\\', '{', '}', '(', ')', '?', '*', '&', '<', '>', ';'}
  }

  /** One character as `escape_shell` writes it. */
  function EscapedChar(c: char): string {
    if NeedsEscaping(c) then ['\\', c] else [c]
  }

  /** `escape_shell(text)`: a backslash before every character that needs escaping. */
  function EscapeShell(text: string): (r: string)
    ensures |r| >= |text|
    decreases |text|
  {
    if text == [] then []
    else EscapedChar(text[0]) + EscapeShell(text[1..])
  }

  /** Escaping works character by character. */
  lemma {:induction false} EscapeShellAppend(a: string, b: string)
    ensures EscapeShell(a + b) == EscapeShell(a) + EscapeShell(b)
    decreases |a|
  {
    if a == [] {
      assert a + b == b;
    } else {
      assert (a + b)[0] == a[0] && (a + b)[1..] == a[1..] + b;
      EscapeShellAppend(a[1..], b);
    }
  }

  /** How many characters of `text` need escaping. */
  function CountNeedsEscaping(text: string): nat
    decreases |text|
  {
    if text == [] then 0 else (if NeedsEscaping(text[0]) then 1 else 0) + CountNeedsEscaping(text[1..])
  }

  /** Exactly one backslash is added per character that needs escaping. */
  lemma {:induction false} EscapeShellLength(text: string)
    ensures |EscapeShell(text)| == |text| + CountNeedsEscaping(text)
    decreases |text|
  {
    if text != [] {
      EscapeShellLength(text[1..]);
    }
  }

  /** `text` with the backslash in front of each escaped character removed. */
  function RemoveEscapes(s: string): string
    decreases |s|
  {
    if s == [] then []
    else if s[0] == '\\' && |s| >= 2 then [s[1]] + RemoveEscapes(s[2..])
    else [s[0]] + RemoveEscapes(s[1..])
  }

  /** Removing the inserted backslashes gives the text back. */
  lemma {:induction false} RemoveEscapesOfEscapeShell(text: string)
    ensures RemoveEscapes(EscapeShell(text)) == text
    decreases |text|
  {
    if text != [] {
      var e := EscapeShell(text);
      var tail := EscapeShell(text[1..]);
      RemoveEscapesOfEscapeShell(text[1..]);
      if NeedsEscaping(text[0]) {
        assert e == ['\\', text[0]] + tail && e[2..] == tail;
      } else {
        assert e == [text[0]] + tail && e[1..] == tail;
      }
      assert [text[0]] + text[1..] == text;
    }
  }

  /** A word splitter that honours exactly the two characters the escaping is
      about: an unescaped space ends a word, and a backslash makes the next
      character literal. `cur` is the word read so far. This is not a POSIX
      shell: a shell also acts on `|`, tab, newline, `#`, `~`, `[` and `]`,
      which `escape_shell` leaves alone (see `UnescapedShellCharacters`). */
  function SplitWords(s: string, cur: string): seq<string>
    decreases |s|
  {
    if s == [] then [cur]
    else if s[0] == '\\' && |s| >= 2 then SplitWords(s[2..], cur + [s[1]])
    else if s[0] == ' ' then [cur] + SplitWords(s[1..], "")
    else SplitWords(s[1..], cur + [s[0]])
  }

  /** Reading an escaped text as part of a word gives back the text: the
      escaping leaves no character that would end the word or be lost. */
  lemma {:induction false} SplitWordsOfEscaped(text: string, rest: string, cur: string)
    ensures SplitWords(EscapeShell(text) + rest, cur) == SplitWords(rest, cur + text)
    decreases |text|
  {
    if text == [] {
      assert EscapeShell(text) + rest == rest;
      assert cur + text == cur;
    } else {
      var c := text[0];
      var tail := EscapeShell(text[1..]) + rest;
      calc {
        SplitWords(EscapeShell(text) + rest, cur);
        { EscapeShellFirst(text, rest); }
        SplitWords(EscapedChar(c) + tail, cur);
        { SplitWordsOfChar(c, tail, cur); }
        SplitWords(tail, cur + [c]);
        { SplitWordsOfEscaped(text[1..], rest, cur + [c]); }
        SplitWords(rest, cur + [c] + text[1..]);
        { assert cur + [c] + text[1..] == cur + text; }
        SplitWords(rest, cur + text);
      }
    }
  }

  /** The escaped text starts with its escaped first character. */
  lemma EscapeShellFirst(text: string, rest: string)
    requires text != []
    ensures EscapeShell(text) + rest == EscapedChar(text[0]) + (EscapeShell(text[1..]) + rest)
  {
  }

  /** An escaped character is read as itself, continuing the current word. */
  lemma SplitWordsOfChar(c: char, tail: string, cur: string)
    ensures SplitWords(EscapedChar(c) + tail, cur) == SplitWords(tail, cur + [c])
  {
    var s := EscapedChar(c) + tail;
    if NeedsEscaping(c) {
      assert s[0] == '\\' && s[1] == c && s[2..] == tail;
    } else {
      assert s[0] == c && c != '\\' && c != ' ' && s[1..] == tail;
    }
  }

  /** The command line `announce_command` shows for `argv`, after `# `. */
  function CommandWords(argv: seq<string>): string {
    JoinWith(" ", EscapeAll(argv))
  }

  function EscapeAll(argv: seq<string>): (r: seq<string>)
    ensures |r| == |argv| && forall k :: 0 <= k < |argv| ==> r[k] == EscapeShell(argv[k])
    decreases |argv|
  {
    if argv == [] then [] else [EscapeShell(argv[0])] + EscapeAll(argv[1..])
  }

  /** The line `announce_command` prints: `# ` and the escaped arguments
      separated by single spaces. */
  function AnnouncedLine(argv: seq<string>): (r: string)
    ensures StartsWith(r, "# ")
  {
    "# " + CommandWords(argv)
  }

  /** Splitting the announced command (after `# `) at unescaped spaces and
      removing the escaping backslashes gives back exactly the arguments, for
      every non-empty argument vector. */
  lemma {:induction false} AnnouncedCommandReadsBack(argv: seq<string>)
    requires |argv| >= 1
    ensures SplitWords(CommandWords(argv), "") == argv
    decreases |argv|
  {
    if |argv| == 1 {
      SplitWordsOfEscaped(argv[0], "", "");
      assert EscapeShell(argv[0]) + "" == EscapeShell(argv[0]);
      assert "" + argv[0] == argv[0];
    } else {
      AnnouncedCommandReadsBack(argv[1..]);
      ReadsBackFirstWord(argv);
    }
  }

  /** The inductive step: the first word is read back, then the rest as before. */
  lemma ReadsBackFirstWord(argv: seq<string>)
    requires |argv| >= 2
    requires SplitWords(CommandWords(argv[1..]), "") == argv[1..]
    ensures SplitWords(CommandWords(argv), "") == argv
  {
    var rest := CommandWords(argv[1..]);
    CommandWordsCons(argv);
    SplitWordsOfEscaped(argv[0], " " + rest, "");
    assert (" " + rest)[1..] == rest;
    assert "" + argv[0] == argv[0];
    assert [argv[0]] + argv[1..] == argv;
  }

  lemma CommandWordsCons(argv: seq<string>)
    requires |argv| >= 2
    ensures CommandWords(argv) == EscapeShell(argv[0]) + (" " + CommandWords(argv[1..]))
  {
    var es := EscapeAll(argv);
    assert es[1..] == EscapeAll(argv[1..]);
    assert JoinWith(" ", es) == es[0] + " " + JoinWith(" ", es[1..]);
  }

  /** What `escape_shell` does not protect: the pipe, tab, newline, `#`, `~`,
      `[` and `]` pass through unescaped. */
  lemma UnescapedShellCharacters(c: char)
    requires c in "|\t\n#~[]"
    ensures !NeedsEscaping(c) && EscapeShell([c]) == [c]
  {
    assert [c][1..] == [];
  }

  /** So a pipe reaches the announced line as it is ... */
  lemma PipeAnnouncedUnescaped()
    ensures CommandWords(["a|b"]) == "a|b"
  {
    var w := "a|b";
    assert w == [w[0]] + ([w[1]] + [w[2]]);
    EscapeShellAppend([w[0]], [w[1]] + [w[2]]);
    EscapeShellAppend([w[1]], [w[2]]);
    UnescapedShellCharacters('|');
    assert EscapeShell([w[0]]) == [w[0]] by { assert [w[0]][1..] == []; }
    assert EscapeShell([w[2]]) == [w[2]] by { assert [w[2]][1..] == []; }
  }

  /** ... and an empty argument leaves only its separating space, which a
      shell does not read as a word. */
  lemma EmptyArgumentAnnouncedAsSpace()
    ensures CommandWords(["x", ""]) == "x "
  {
    CommandWordsCons(["x", ""]);
    assert ["x", ""][1..] == [""];
    assert EscapeShell("x") == "x" by { assert "x"[1..] == []; }
  }

  // ---------------------------------------------------------------------------
  // Colours

  /** The colour and style sequences `colorama` supplies (`Fore.CYAN`,
      `Fore.GREEN`, `Fore.MAGENTA`, `Fore.RED`, `Style.BRIGHT`,
      `Style.RESET_ALL`). Their values belong to that library and are
      parameters here. */
  datatype Palette = Palette(cyan: string, green: string, magenta: string, red: string, bright: string, resetAll: string)

  const Esc: char := '\U{1B}'

  /** An ANSI colour code: escape, `[`, digits and semicolons, `m`. */
  predicate ColourCode(code: string) {
    && |code| >= 3 && code[0] == Esc && code[1] == '[' && code[|code| - 1] == 'm'
    && forall k :: 2 <= k < |code| - 1 ==> IsDigit(code[k]) || code[k] == ';'
  }

  /** What a terminal displays of `s`: `s` without its colour codes. */
  function Displayed(s: string): string
    decreases |s|
  {
    if s == [] then []
    else if s[0] == Esc then Displayed(SkipCode(s[1..]))
    else [s[0]] + Displayed(s[1..])
  }

  /** What follows the first `m`: the rest of a colour code is skipped. */
  function SkipCode(s: string): (r: string)
    ensures |r| <= |s|
    decreases |s|
  {
    if s == [] then [] else if s[0] == 'm' then s[1..] else SkipCode(s[1..])
  }

  lemma {:induction false} SkipCodeOf(x: string, t: string)
    requires 'm' !in x
    ensures SkipCode(x + "m" + t) == t
    decreases |x|
  {
    if x == [] {
      assert x + "m" + t == "m" + t;
    } else {
      assert (x + "m" + t)[1..] == x[1..] + "m" + t;
      assert x[0] in x;
      SkipCodeOf(x[1..], t);
    }
  }

  lemma DisplayedSkipsCode(code: string, t: string)
    requires ColourCode(code)
    ensures Displayed(code + t) == Displayed(t)
  {
    var x := code[1..|code| - 1];
    assert 'm' !in x by {
      forall k | 0 <= k < |x| ensures x[k] != 'm' {
        assert x[k] == code[k + 1];
      }
    }
    assert (code + t)[1..] == x + "m" + t;
    SkipCodeOf(x, t);
  }

  lemma {:induction false} DisplayedPlain(t: string)
    requires Esc !in t
    ensures Displayed(t) == t
    decreases |t|
  {
    if t != [] {
      assert t[0] in t;
      DisplayedPlain(t[1..]);
    }
  }

  /** The palette `colorama` prints on a terminal: ANSI codes throughout. */
  predicate AnsiPalette(p: Palette) {
    ColourCode(p.cyan) && ColourCode(p.green) && ColourCode(p.magenta) && ColourCode(p.red)
    && ColourCode(p.bright) && ColourCode(p.resetAll)
  }

  /** The verbosity the messenger is created with; anything but the two
      markers is the default level. */
  datatype Verbosity = Quiet | Normal | Verbose

  class Messenger {
    const infosWanted: bool
    const warningsWanted: bool
    const commandsWanted: bool
    const colorizing: bool
    const palette: Palette
    /** Everything printed to standard output and to standard error. */
    var stdout: string
    var stderr: string

    constructor (verbosity: Verbosity, colorize: bool, palette: Palette)
      ensures infosWanted == (verbosity != Quiet) && warningsWanted == (verbosity != Quiet)
      ensures commandsWanted == (verbosity == Verbose) && colorizing == colorize
      ensures this.palette == palette && stdout == "" && stderr == ""
    {
      this.palette := palette;
      infosWanted := verbosity != Quiet;
      warningsWanted := verbosity != Quiet;
      commandsWanted := verbosity == Verbose;
      colorizing := colorize;
      stdout := "";
      stderr := "";
    }

    /** `colorize(text, fore, style)`, an empty string standing for a missing
        colour or style. Colouring only wraps the text: a terminal shows
        exactly `text`, and with colouring switched off it is left alone. */
    function Colorize(text: string, fore: string, style: string): (r: string)
      ensures !colorizing ==> r == text
      ensures colorizing && fore == "" && style == "" ==> r == text
      ensures (Esc !in text && (fore == "" || ColourCode(fore)) && (style == "" || ColourCode(style))
        && ColourCode(palette.resetAll)) ==> Displayed(r) == text
      ensures colorizing && (fore != "" || style != "") ==>
        StartsWith(r, fore + style) && |r| == |fore| + |style| + |text| + |palette.resetAll|
    {
      if !colorizing then
        ColorizeDisplayed(text, "", "", palette.resetAll);
        assert "" + "" + text + "" == text;
        text
      else
        var r := fore + style + text + (if fore != "" || style != "" then palette.resetAll else "");
        ColorizeDisplayed(text, fore, style, palette.resetAll);
        r
    }

    /** `colorize(text, fore, style)` as the code computes it: the chunks
        are collected in a list and joined. */
    method ColorizeChunks(text: string, fore: string, style: string) returns (r: string)
      ensures r == Colorize(text, fore, style)
    {
      if !colorizing {
        return text;
      }
      var chunks: seq<string> := [];
      if fore != "" {
        chunks := chunks + [fore];
      }
      if style != "" {
        JoinEmptySnoc(chunks, style);
        chunks := chunks + [style];
      }
      JoinEmptySnoc(chunks, text);
      chunks := chunks + [text];
      if fore != "" || style != "" {
        JoinEmptySnoc(chunks, palette.resetAll);
        chunks := chunks + [palette.resetAll];
      }
      r := JoinWith("", chunks);
    }

    /** `print(line)` on standard output. */
    method PrintOut(line: string)
      modifies this
      ensures stdout == old(stdout) + line + "\n" && stderr == old(stderr)
    {
      stdout := stdout + line + "\n";
    }

    /** `print(line, file=sys.stderr)`. */
    method PrintErr(line: string)
      modifies this
      ensures stderr == old(stderr) + line + "\n" && stdout == old(stdout)
    {
      stderr := stderr + line + "\n";
    }

    /** `banner()`: the banner and an empty line, unless quiet. The banner's
        text, which carries the release metadata, is the parameter. */
    method Banner(bannerText: string)
      modifies this
      ensures stdout == old(stdout) + (if infosWanted then bannerText + "\n" + "\n" else "")
      ensures stderr == old(stderr)
    {
      if !infosWanted {
        return;
      }
      PrintOut(bannerText);
      PrintOut("");
    }

    /** `announce_command(argv)`: the escaped command line in cyan, in verbose mode only. */
    method AnnounceCommand(argv: seq<string>)
      modifies this
      ensures stdout == old(stdout) + (if commandsWanted then Colorize(AnnouncedLine(argv), palette.cyan, "") + "\n" else "")
      ensures stderr == old(stderr)
    {
      if !commandsWanted {
        return;
      }
      var text := AnnouncedLine(argv);
      PrintOut(Colorize(text, palette.cyan, ""));
    }

    /** `info(text)`: in green, unless quiet. */
    method Info(text: string)
      modifies this
      ensures stdout == old(stdout) + (if infosWanted then Colorize(text, palette.green, "") + "\n" else "")
      ensures stderr == old(stderr)
    {
      if !infosWanted {
        return;
      }
      PrintOut(Colorize(text, palette.green, ""));
    }

    /** `warn(text)`: `Warning: ` and the text in bright magenta, unless quiet. */
    method Warn(text: string)
      modifies this
      ensures stdout == old(stdout) + (if warningsWanted then Colorize("Warning: " + text, palette.magenta, palette.bright) + "\n" else "")
      ensures stderr == old(stderr)
    {
      if !warningsWanted {
        return;
      }
      PrintOut(Colorize("Warning: " + text, palette.magenta, palette.bright));
    }

    /** `error(text)`: `Error: ` and the text in bright red on standard error,
        whatever the verbosity. */
    method Error(text: string)
      modifies this
      ensures stderr == old(stderr) + Colorize("Error: " + text, palette.red, palette.bright) + "\n"
      ensures stdout == old(stdout)
    {
      PrintErr(Colorize("Error: " + text, palette.red, palette.bright));
    }

    /** `info_gap()`: an empty line, unless quiet. */
    method InfoGap()
      modifies this
      ensures stdout == old(stdout) + (if infosWanted then "\n" else "")
      ensures stderr == old(stderr)
    {
      if !infosWanted {
        return;
      }
      PrintOut("");
    }

    /** `encourage_bug_reports()`: a request to report bugs at the project's
        home page, on standard error. The address, release metadata, is the
        parameter. */
    method EncourageBugReports(homeUrl: string)
      modifies this
      ensures stderr == old(stderr) + "If this looks like a bug to you, please file a report at " + homeUrl + ".  Thank you!" + "\n"
      ensures stdout == old(stdout)
    {
      PrintErr("If this looks like a bug to you, please file a report at " + homeUrl + ".  Thank you!");
    }
  }

  lemma ColorizeDisplayed(text: string, fore: string, style: string, resetAll: string)
    ensures Esc !in text && (fore == "" || ColourCode(fore)) && (style == "" || ColourCode(style)) && ColourCode(resetAll) ==>
      Displayed(fore + style + text + (if fore != "" || style != "" then resetAll else "")) == text
  {
    if Esc !in text && (fore == "" || ColourCode(fore)) && (style == "" || ColourCode(style)) && ColourCode(resetAll) {
      var reset := if fore != "" || style != "" then resetAll else "";
      DisplayedAfterText(text, reset);
      var tail := text + reset;
      var mid := style + tail;
      if style != "" {
        DisplayedSkipsCode(style, tail);
      } else {
        assert mid == tail;
      }
      var all := fore + mid;
      if fore != "" {
        DisplayedSkipsCode(fore, mid);
      } else {
        assert all == mid;
      }
      assert fore + style + text + reset == all;
    }
  }

  /** Plain text followed by a reset code is displayed as the text. */
  lemma {:induction false} DisplayedAfterText(text: string, reset: string)
    requires Esc !in text && (reset == "" || ColourCode(reset))
    ensures Displayed(text + reset) == text
    decreases |text|
  {
    if text == [] {
      assert text + reset == reset;
      if reset != "" {
        DisplayedSkipsCode(reset, "");
        assert reset + "" == reset;
      }
    } else {
      assert text[0] in text;
      assert (text + reset)[1..] == text[1..] + reset;
      DisplayedAfterText(text[1..], reset);
      assert [text[0]] + text[1..] == text;
    }
  }

  /** The message kinds keep their wording under the colour: what a terminal
      shows is `Warning: `/`Error: ` and the text, or the text alone. */
  lemma MessagesDisplayed(m: Messenger, text: string)
    requires Esc !in text && AnsiPalette(m.palette)
    ensures Displayed(m.Colorize("Warning: " + text, m.palette.magenta, m.palette.bright)) == "Warning: " + text
    ensures Displayed(m.Colorize("Error: " + text, m.palette.red, m.palette.bright)) == "Error: " + text
    ensures Displayed(m.Colorize(text, m.palette.green, "")) == text
    ensures Displayed(m.Colorize(text, m.palette.cyan, "")) == text
  {
    assert Esc !in "Warning: " + text && Esc !in "Error: " + text;
  }
}
