/** Three replies followed through `SemanticPrompt.execute`, for any clean file name and
    note: an update followed by an announcement, which completes the exchange; the same
    reply when the write fails; and a lone file request, which ends by calling again. */
module Scenarios {
  import opened Wrappers
  import opened Text
  import opened Messages
  import opened Markers
  import opened Commands
  import opened Dispatch
  import opened Exchange

  /** A name or note that `trim` leaves as it is and that stays on one line. */
  predicate CleanLine(s: string)
  {
    s != [] && '\n' !in s && !IsSpace(s[0]) && !IsSpace(s[|s| - 1])
  }

  /** An opening line `glyph + " " + payload` gives back the payload. */
  lemma OpeningLine(g: Glyph, payload: string)
    requires CleanLine(payload)
    ensures Find([Char(g)] + " " + payload) == Some(g)
    ensures Image([Char(g)] + " " + payload) == payload
    ensures '\n' !in [Char(g)] + " " + payload
  {
    var line := [Char(g)] + " " + payload;
    FindFirstChar(line);
    CharInjective(Find(line).value, g);
    assert StartsWith(line, [Char(g)]);
    assert ReplaceFirst(line, [Char(g)]) == " " + payload;
    TrimClean(payload);
    assert TrimStart(" " + payload) == TrimStart(payload) by {
      assert (" " + payload)[1..] == payload;
    }
    assert Char(g) != '\n';
  }

  /** A line that does not start with a glyph continues the command before it. */
  lemma PlainLine(line: string)
    requires line == [] || !IsGlyphChar(line[0])
    ensures Find(line).None?
  {
    FindFirstChar(line);
  }

  /** The lines of a reply that opens with `l1`, continues with `code` and ends with `l3`. */
  lemma ThreeLines(l1: string, code: string, l3: string)
    requires '\n' !in l1 && '\n' !in code && '\n' !in l3
    ensures Split(l1 + "\n" + code + "\n" + l3 + "\n", '\n') == [l1, code, l3, []]
  {
    SplitAtSep(l3, [], '\n');
    SplitAtSep(code, l3 + ['\n'] + [], '\n');
    SplitAtSep(l1, code + ['\n'] + (l3 + ['\n'] + []), '\n');
    assert l1 + "\n" + code + "\n" + l3 + "\n" == l1 + ['\n'] + (code + ['\n'] + (l3 + ['\n'] + []));
  }

  /** The lines of a reply of one line. */
  lemma OneLine(l1: string)
    requires '\n' !in l1
    ensures Split(l1 + "\n", '\n') == [l1, []]
  {
    SplitAtSep(l1, [], '\n');
    assert l1 + "\n" == l1 + ['\n'] + [];
  }

  /** Reading one more line that opens a command. */
  lemma ParseOpening(init: seq<string>, cmds: seq<Command>, line: string, g: Glyph, lines: seq<string>, r: seq<Command>)
    requires ParseLines(init) == Some(cmds) && Find(line) == Some(g)
    requires lines == init + [line] && r == cmds + [Command(g, [Image(line)])]
    ensures ParseLines(lines) == Some(r)
  {
    assert lines[..|lines| - 1] == init && lines[|lines| - 1] == line;
  }

  /** Reading one more line that continues the latest command. */
  lemma ParseContinuing(init: seq<string>, cmds: seq<Command>, last: Command, line: string, lines: seq<string>, r: seq<Command>)
    requires ParseLines(init) == Some(cmds + [last]) && Find(line).None?
    requires lines == init + [line] && r == cmds + [Command(last.glyph, last.message + [line])]
    ensures ParseLines(lines) == Some(r)
  {
    assert lines[..|lines| - 1] == init && lines[|lines| - 1] == line;
    var all := cmds + [last];
    assert all[..|all| - 1] == cmds && all[|all| - 1] == last;
  }

  /** Sequence displays kept apart from `ParseLines`: with both in one proof context
      the solver loses its way, so these equalities are proved on their own. */
  lemma Pair<T>(a: T, b: T)
    ensures [a] + [b] == [a, b]
  {
  }

  lemma FourAsTwoPairs<T>(a: T, b: T, c: T, d: T)
    ensures [a, b, c, d] == ([] + [a, b]) + [c, d]
  {
  }

  lemma Regroup<T>(s: seq<T>, a: T, b: T)
    ensures s + [a, b] == (s + [a]) + [b]
  {
  }

  /** Reading an opening line and one continuation adds a command of two payload lines. */
  lemma ParsePair(init: seq<string>, cmds: seq<Command>, open: string, cont: string, g: Glyph, lines: seq<string>, r: seq<Command>)
    requires ParseLines(init) == Some(cmds) && Find(open) == Some(g) && Find(cont).None?
    requires lines == init + [open, cont] && r == cmds + [Command(g, [Image(open), cont])]
    ensures ParseLines(lines) == Some(r)
  {
    var mid := init + [open];
    var c := Command(g, [Image(open)]);
    ParseOpening(init, cmds, open, g, mid, cmds + [c]);
    Regroup(init, open, cont);
    Pair(Image(open), cont);
    ParseContinuing(mid, cmds, c, cont, lines, r);
  }

  /** A reply of an opening line and one continuation gives one command of two
      payload lines. */
  lemma OpenerAlone(line: string, cont: string, g: Glyph, lines: seq<string>, r: seq<Command>)
    requires Find(line) == Some(g) && Find(cont).None?
    requires lines == [line, cont] && r == [Command(g, [Image(line), cont])]
    ensures ParseLines(lines) == Some(r)
  {
    var nothing: seq<string> := [];
    var none: seq<Command> := [];
    var c := Command(g, [Image(line), cont]);
    var pair := nothing + [line, cont];
    ParsePair(nothing, none, line, cont, g, pair, none + [c]);
    assert pair == lines;
    assert none + [c] == r;
  }

  /** An opening line, a continuation, another opening line and an empty line give
      two commands of two payload lines each. */
  lemma FourLines(l1: string, code: string, l3: string, g1: Glyph, g3: Glyph, lines: seq<string>)
    requires Find(l1) == Some(g1) && Find(code).None? && Find(l3) == Some(g3) && Find([]).None?
    requires lines == [l1, code, l3, []]
    ensures ParseLines(lines) == Some([Command(g1, [Image(l1), code]), Command(g3, [Image(l3), []])])
  {
    var nothing: seq<string> := [];
    var none: seq<Command> := [];
    var d1 := Command(g1, [Image(l1), code]);
    var half := nothing + [l1, code];
    ParsePair(nothing, none, l1, code, g1, half, none + [d1]);
    var d3 := Command(g3, [Image(l3), []]);
    FourAsTwoPairs(l1, code, l3, []);
    Pair(d1, d3);
    ParsePair(half, none + [d1], l3, [], g3, lines, [d1, d3]);
  }

  /** The commands of an update of `f` with one line of code, then an announcement. */
  lemma UpdateAndAnnounceParse(f: string, code: string, note: string)
    requires CleanLine(f) && CleanLine(note)
    requires '\n' !in code && (code == [] || !IsGlyphChar(code[0]))
    ensures var l1 := [Char(FileUpdate)] + " " + f;
      var l3 := [Char(Announcement)] + " " + note;
      ParseCommands(l1 + "\n" + code + "\n" + l3 + "\n") == Some([Command(FileUpdate, [f, code]), Command(Announcement, [note, []])])
  {
    var l1 := [Char(FileUpdate)] + " " + f;
    var l3 := [Char(Announcement)] + " " + note;
    OpeningLine(FileUpdate, f);
    OpeningLine(Announcement, note);
    PlainLine(code);
    PlainLine([]);
    ThreeLines(l1, code, l3);
    FourLines(l1, code, l3, FileUpdate, Announcement, Split(l1 + "\n" + code + "\n" + l3 + "\n", '\n'));
  }

  /** Processing that update and announcement writes the file and records both. */
  lemma UpdateAndAnnounceRun(f: string, code: string, note: string, s: Session)
    ensures var cmds := [Command(FileUpdate, [f, code]), Command(Announcement, [note, []])];
      && !HasFileRequest(cmds)
      && OnProcessMessages(cmds, s, {}).Done?
      && OnProcessMessages(cmds, s, {}).session.files == s.files[f := code]
      && RecordsOf(cmds) == [FileWritten(f, code), Announced(note)]
  {
    var c1 := Command(FileUpdate, [f, code]);
    var c2 := Command(Announcement, [note, []]);
    var cmds := [c1, c2];
    assert cmds[0] == c1 && cmds[1..] == [c2] && [c2][0] == c2 && [c2][1..] == [];
    assert UpdateContent(c1) == code by {
      assert c1.message[1..] == [code];
      assert Join([code], "\n") == code;
    }
    assert !HasFileRequest(cmds) by {
      forall k | 0 <= k < |cmds| ensures cmds[k].glyph != FileRequest {
      }
    }
    var h1 := Handle(c1, s, {});
    assert h1.Done? && h1.session.files == s.files[f := code];
    var s1 := h1.session.(completed := true);
    var h2 := Handle(c2, s1, {});
    assert h2.Done? && h2.session.files == s1.files;
    assert RunHandlers([c2], false, s1, {}) == RunHandlers([], false, h2.session.(completed := true), {});
    assert RunHandlers(cmds, false, s, {}) == RunHandlers([c2], false, s1, {});
    assert RecordsOf([c2]) == [Announced(note)];
  }

  /** An update of `f` with one line of code, then an announcement: one round trip
      writes the file, records both, and clears the state. */
  lemma UpdateAndAnnounce(f: string, code: string, note: string, s: Session, retries: nat, rest: seq<Backend>)
    requires CleanLine(f) && CleanLine(note)
    requires '\n' !in code && (code == [] || !IsGlyphChar(code[0]))
    requires retries <= MaxRetries && Tokens(s.messages) <= Ceiling
    ensures var reply := [Char(FileUpdate)] + " " + f + "\n" + code + "\n" + [Char(Announcement)] + " " + note;
      var e := CallLlm(s, retries, [Reply(reply)] + rest, {});
      && e.outcome == Returned(s.result + [FileWritten(f, code), Announced(note)])
      && e.session == Session([], [], false, s.files[f := code])
      && |e.requests| == 1
  {
    var l1 := [Char(FileUpdate)] + " " + f;
    var l3 := [Char(Announcement)] + " " + note;
    var reply := [Char(FileUpdate)] + " " + f + "\n" + code + "\n" + [Char(Announcement)] + " " + note;
    assert reply + "\n" == l1 + "\n" + code + "\n" + l3 + "\n";
    UpdateAndAnnounceParse(f, code, note);
    UpdateAndAnnounceRun(f, code, note, s);
    assert reply[0] == Char(FileUpdate);
    OneRoundTrip(s, retries, reply, rest, {}, [Command(FileUpdate, [f, code]), Command(Announcement, [note, []])]);
  }

  /** The update-then-announcement reply when the write of `f` raises, with the retry
      counter already at three: as written the fault is lost, the call is made again
      with the echo, the acknowledgement and a record of a write that never happened;
      the intended handling raises the fault. */
  lemma UpdateUnwritable(f: string, code: string, note: string, s: Session)
    requires CleanLine(f) && CleanLine(note)
    requires '\n' !in code && (code == [] || !IsGlyphChar(code[0]))
    requires !s.completed
    ensures var reply := [Char(FileUpdate)] + " " + f + "\n" + code + "\n" + [Char(Announcement)] + " " + note;
      var s1 := s.(messages := s.messages + [Message(Assistant, UpdateEcho(f, code)), Message(User, UpdateAck(f))],
                   result := s.result + [FileWritten(f, code)]);
      && RespondAsWritten(s, MaxRetries, reply, {f}) == Again(s1, MaxRetries)
      && Respond(s, MaxRetries, reply, {f}) == Stop(Thrown(WriteFailed(f)), s1)
  {
    var l1 := [Char(FileUpdate)] + " " + f;
    var l3 := [Char(Announcement)] + " " + note;
    var reply := [Char(FileUpdate)] + " " + f + "\n" + code + "\n" + [Char(Announcement)] + " " + note;
    assert reply + "\n" == l1 + "\n" + code + "\n" + l3 + "\n";
    UpdateAndAnnounceParse(f, code, note);
    assert reply[0] == Char(FileUpdate);
    AcceptsIff(reply + "\n");
    var c1 := Command(FileUpdate, [f, code]);
    var cmds := [c1, Command(Announcement, [note, []])];
    assert cmds[0] == c1;
    assert UpdateContent(c1) == code by {
      assert c1.message[1..] == [code];
      assert Join([code], "\n") == code;
    }
    var p := OnProcessMessages(cmds, s, {f});
    assert p == Handle(c1, s, {f});
    FaultSwallowed(s, MaxRetries, reply, {f});
  }

  /** The commands of a reply holding only a request for `f`. */
  lemma RequestOnlyParse(f: string)
    requires CleanLine(f)
    ensures ParseCommands([Char(FileRequest)] + " " + f + "\n") == Some([Command(FileRequest, [f, []])])
  {
    var l1 := [Char(FileRequest)] + " " + f;
    OpeningLine(FileRequest, f);
    PlainLine([]);
    OneLine(l1);
    OpenerAlone(l1, [], FileRequest, [l1, []], [Command(FileRequest, [f, []])]);
  }

  /** Processing that request appends its echo and the answer and leaves the rest. */
  lemma RequestOnlyRun(f: string, s: Session)
    ensures var cmds := [Command(FileRequest, [f, []])];
      var content := if f in s.files then s.files[f] else [];
      && HasFileRequest(cmds)
      && OnProcessMessages(cmds, s, {})
         == Done(s.(messages := s.messages + [Message(Assistant, RequestEcho(f)), Message(User, RequestAnswer(f, content))],
                    completed := false))
  {
    var c := Command(FileRequest, [f, []]);
    var cmds := [c];
    assert cmds[0] == c && cmds[1..] == [];
    assert HasFileRequest(cmds);
    var h := Handle(c, s, {});
    assert RunHandlers(cmds, true, s, {}) == RunHandlers([], true, h.session.(completed := false), {});
  }

  /** A reply holding only a request for `f`: nothing is written or recorded, the
      conversation gains the echo and a user turn with the glyph, the name and the
      file's contents, and the loop calls the backend again with it. */
  lemma RequestOnly(f: string, s: Session, retries: nat, rest: seq<Backend>)
    requires CleanLine(f)
    requires retries <= MaxRetries && Tokens(s.messages) <= Ceiling
    ensures var content := if f in s.files then s.files[f] else [];
      var s1 := s.(messages := s.messages + [Message(Assistant, RequestEcho(f)), Message(User, RequestAnswer(f, content))],
                   completed := false);
      CallLlm(s, retries, [Reply([Char(FileRequest)] + " " + f)] + rest, {})
      == Issued(Request(s.messages, MaxTokens(Tokens(s.messages))), CallLlm(s1, retries, rest, {}))
  {
    var l1 := [Char(FileRequest)] + " " + f;
    RequestOnlyParse(f);
    RequestOnlyRun(f, s);
    assert l1[0] == Char(FileRequest);
    FileRequestContinues(s, retries, l1, rest, {}, [Command(FileRequest, [f, []])]);
  }
}
