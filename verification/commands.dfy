/** The line-oriented command extractor (`_parseCommands`): it cuts an accepted reply
    into commands, each a marker with its payload lines. */
module Commands {
  import opened Wrappers
  import opened Text
  import opened Markers

  /** One command: its marker and its payload lines (`{command, message}`). */
  datatype Command = Command(glyph: Glyph, message: seq<string>)

  predicate Opens(line: string)
  {
    Find(line).Some?
  }

  /** The first payload line of a command opened by `line`:
      `line.replace(glyph, '').trim()`. */
  function Payload(line: string, g: Glyph): string
  {
    Trim(ReplaceFirst(line, [Char(g)]))
  }

  /** What a line contributes to the payloads: the trimmed remainder after the glyph
      for an opening line, the line itself otherwise. */
  function Image(line: string): string
  {
    match Find(line)
    case Some(g) => Payload(line, g)
    case None => line
  }

  function Images(lines: seq<string>): (r: seq<string>)
    ensures |r| == |lines|
    ensures forall k :: 0 <= k < |lines| ==> r[k] == Image(lines[k])
  {
    if lines == [] then [] else Images(lines[..|lines| - 1]) + [Image(lines[|lines| - 1])]
  }

  /** Which lines open a command. */
  function OpenMarks(lines: seq<string>): (r: seq<bool>)
    ensures |r| == |lines|
    ensures forall k :: 0 <= k < |lines| ==> r[k] == Opens(lines[k])
  {
    if lines == [] then [] else OpenMarks(lines[..|lines| - 1]) + [Opens(lines[|lines| - 1])]
  }

  /** The markers of the opening lines, in line order. */
  function OpenerGlyphs(lines: seq<string>): seq<Glyph>
  {
    if lines == [] then []
    else
      var last := lines[|lines| - 1];
      OpenerGlyphs(lines[..|lines| - 1]) + (match Find(last) case Some(g) => [g] case None => [])
  }

  /** All payload lines of all commands, in order. */
  function Flatten(cmds: seq<Command>): seq<string>
  {
    if cmds == [] then [] else Flatten(cmds[..|cmds| - 1]) + cmds[|cmds| - 1].message
  }

  /** One mark per payload line: `true` for a command's first line, `false` for the rest. */
  function MarkOf(c: Command): seq<bool>
  {
    if c.message == [] then [] else [true] + seq(|c.message| - 1, _ => false)
  }

  function Marks(cmds: seq<Command>): seq<bool>
  {
    if cmds == [] then [] else Marks(cmds[..|cmds| - 1]) + MarkOf(cmds[|cmds| - 1])
  }

  function Glyphs(cmds: seq<Command>): (r: seq<Glyph>)
    ensures |r| == |cmds|
    ensures forall k :: 0 <= k < |cmds| ==> r[k] == cmds[k].glyph
  {
    if cmds == [] then [] else Glyphs(cmds[..|cmds| - 1]) + [cmds[|cmds| - 1].glyph]
  }

  predicate AllNonEmpty(cmds: seq<Command>)
  {
    forall k :: 0 <= k < |cmds| ==> cmds[k].message != []
  }

  /** One step of the `forEach`: an opening line starts a new command, any other line
      is appended to the latest one; with no command yet, reading `cmds[-1]` fails. */
  function Absorb(cmds: seq<Command>, line: string): Option<seq<Command>>
  {
    match Find(line)
    case Some(g) => Some(cmds + [Command(g, [Payload(line, g)])])
    case None =>
      if cmds == [] then None
      else
        var last := cmds[|cmds| - 1];
        Some(cmds[..|cmds| - 1] + [last.(message := last.message + [line])])
  }

  /** The views of a command list grow by those of a command appended to it. */
  lemma Snoc(cmds: seq<Command>, c: Command)
    ensures Flatten(cmds + [c]) == Flatten(cmds) + c.message
    ensures Marks(cmds + [c]) == Marks(cmds) + MarkOf(c)
    ensures Glyphs(cmds + [c]) == Glyphs(cmds) + [c.glyph]
  {
    var r := cmds + [c];
    assert r[..|r| - 1] == cmds && r[|r| - 1] == c;
  }

  lemma SnocNonEmpty(cmds: seq<Command>, c: Command)
    requires AllNonEmpty(cmds) && c.message != []
    ensures AllNonEmpty(cmds + [c])
  {
    var r := cmds + [c];
    forall k | 0 <= k < |r|
      ensures r[k].message != []
    {
      if k < |cmds| {
        assert r[k] == cmds[k];
      }
    }
  }

  lemma AbsorbOpen(cmds: seq<Command>, line: string, g: Glyph)
    requires AllNonEmpty(cmds)
    requires Find(line) == Some(g)
    ensures var r := cmds + [Command(g, [Payload(line, g)])];
      && AllNonEmpty(r)
      && Flatten(r) == Flatten(cmds) + [Image(line)]
      && Marks(r) == Marks(cmds) + [Opens(line)]
      && Glyphs(r) == Glyphs(cmds) + [g]
  {
    var c := Command(g, [Payload(line, g)]);
    Snoc(cmds, c);
    SnocNonEmpty(cmds, c);
    assert c.message == [Image(line)];
    assert MarkOf(c) == [true] && Opens(line);
  }

  lemma AbsorbExtend(cmds: seq<Command>, line: string)
    requires AllNonEmpty(cmds) && cmds != []
    requires Find(line).None?
    ensures var last := cmds[|cmds| - 1];
      var r := cmds[..|cmds| - 1] + [last.(message := last.message + [line])];
      && AllNonEmpty(r)
      && Flatten(r) == Flatten(cmds) + [Image(line)]
      && Marks(r) == Marks(cmds) + [Opens(line)]
      && Glyphs(r) == Glyphs(cmds)
  {
    var n := |cmds|;
    var init := cmds[..n - 1];
    var last := cmds[n - 1];
    var last' := last.(message := last.message + [line]);
    assert cmds == init + [last];
    assert AllNonEmpty(init) by {
      forall k | 0 <= k < |init|
        ensures init[k].message != []
      {
        assert init[k] == cmds[k];
      }
    }
    Snoc(init, last);
    Snoc(init, last');
    SnocNonEmpty(init, last');
    assert Image(line) == line;
    assert Flatten(init) + (last.message + [line]) == (Flatten(init) + last.message) + [line];
    assert MarkOf(last') == MarkOf(last) + [false];
    assert Marks(init) + (MarkOf(last) + [false]) == (Marks(init) + MarkOf(last)) + [false];
  }

  /** Absorbing a line extends the payloads by that line's image and the marks by
      whether it opens. */
  lemma AbsorbShape(cmds: seq<Command>, line: string)
    requires AllNonEmpty(cmds)
    requires Absorb(cmds, line).Some?
    ensures var r := Absorb(cmds, line).value;
      && AllNonEmpty(r)
      && Flatten(r) == Flatten(cmds) + [Image(line)]
      && Marks(r) == Marks(cmds) + [Opens(line)]
      && Glyphs(r) == Glyphs(cmds) + (match Find(line) case Some(g) => [g] case None => [])
  {
    match Find(line)
    case Some(g) => AbsorbOpen(cmds, line, g);
    case None => AbsorbExtend(cmds, line);
  }

  /** `_parseCommands` over a list of lines, folding `Absorb` from the first line on.
      It fails exactly when there is a first line and it does not open a command; on
      success every line lands in exactly one command, in order: opening lines start
      commands and give their trimmed remainder, other lines follow verbatim. */
  function ParseLines(lines: seq<string>): (r: Option<seq<Command>>)
    ensures r.Some? <==> lines == [] || Opens(lines[0])
    ensures r.Some? ==>
      && AllNonEmpty(r.value)
      && Flatten(r.value) == Images(lines)
      && Marks(r.value) == OpenMarks(lines)
      && Glyphs(r.value) == OpenerGlyphs(lines)
    decreases |lines|
  {
    if lines == [] then Some([])
    else
      var init := lines[..|lines| - 1];
      var line := lines[|lines| - 1];
      assert init != [] ==> init[0] == lines[0];
      match ParseLines(init)
      case None => None
      case Some(cmds) =>
        assert init != [] ==> cmds != [];
        var r := Absorb(cmds, line);
        if r.Some? then AbsorbShape(cmds, line); r else r
  }

  /** `_parseCommands(text, legalEmojis)`: split at `'\n'`, then fold. */
  function ParseCommands(text: string): Option<seq<Command>>
  {
    ParseLines(Split(text, '\n'))
  }

  /** Extraction fails exactly when the text does not begin with a glyph; it never
      drops a leading line silently. */
  lemma ParseCommandsDefined(text: string)
    ensures ParseCommands(text).Some? <==> text != [] && IsGlyphChar(text[0])
    ensures ParseCommands(text).Some? ==> |ParseCommands(text).value| >= 1
  {
    var lines := Split(text, '\n');
    var first := lines[0];
    FindFirstChar(first);
    FindFirstChar(text);
    if text != [] && IsGlyphChar(text[0]) {
      var g :| Char(g) == text[0];
      assert text[0] != '\n' by { assert Char(g) != '\n'; }
      SplitFirst(text, '\n');
    } else if text != [] && text[0] == '\n' {
      assert first == [];
    } else if text != [] {
      SplitFirst(text, '\n');
    }
    if ParseCommands(text).Some? {
      var cmds := ParseCommands(text).value;
      assert |Flatten(cmds)| == |lines| >= 1;
    }
  }

  /** A reply the grammar accepts always yields at least one command: the grammar
      establishes what the extractor needs of its first line. */
  lemma AcceptedReplyParses(reply: string)
    requires Accepts(reply)
    ensures ParseCommands(reply).Some? && |ParseCommands(reply).value| >= 1
  {
    AcceptsIff(reply);
    ParseCommandsDefined(reply);
  }

  /** There is one command per opening line. */
  lemma CommandCount(text: string)
    requires ParseCommands(text).Some?
    ensures |ParseCommands(text).value| == |OpenerGlyphs(Split(text, '\n'))|
  {
  }
}
