/** The per-marker handlers of `SemanticPrompt` and `onProcessMessages`, which runs them
    over one reply's commands and decides completion. The project files are a map from
    paths relative to the project root to contents. */
module Dispatch {
  import opened Wrappers
  import opened Text
  import opened Messages
  import opened Markers
  import opened Commands

  /** An entry of the accumulated result. */
  datatype Record = FileWritten(filename: string, content: string) | Announced(announcement: string)

  /** The mutable part of a `SemanticPrompt`, plus the project files. */
  datatype Session = Session(messages: seq<Message>, result: seq<Record>, completed: bool, files: map<string, string>)

  /** Why processing a reply raised: reading `cmds[-1]` with no command yet, or a file
      write that failed. */
  datatype Fault = NoOpenCommand | WriteFailed(path: string)

  /** The session after processing, and the fault if a handler raised part way. */
  datatype Processed = Done(session: Session) | Faulted(session: Session, fault: Fault)

  /** The assistant echo of an update, `📄 ${filename}\m${content}`: the template's `\m`
      is just `m`. */
  function UpdateEcho(filename: string, content: string): string
  {
    [Char(FileUpdate)] + " " + filename + "m" + content
  }

  function UpdateAck(filename: string): string
  {
    [Char(FileUpdate)] + " " + filename + " updated."
  }

  /** The announcement echo, with its stray closing brace. */
  function AnnouncementEcho(announcement: string): string
  {
    [Char(Announcement)] + " " + announcement + "}"
  }

  /** The file request echo, with its stray closing brace. */
  function RequestEcho(filename: string): string
  {
    [Char(FileRequest)] + " " + filename + "}"
  }

  /** The user turn answering a file request: the glyph, the name, then the contents. */
  function RequestAnswer(filename: string, content: string): string
  {
    [Char(FileRequest)] + " " + filename + "\n" + content
  }

  /** What an update writes: the payload lines after the file name, joined by newlines. */
  function UpdateContent(c: Command): string
    requires c.message != []
  {
    Join(c.message[1..], "\n")
  }

  /** How many messages each marker's handler appends. */
  function Appended(g: Glyph): nat
  {
    match g
    case FileUpdate => 2
    case Announcement => 1
    case FileRequest => 2
    case FileTree => 0
    case TaskIn => 0
  }

  /** The files after a successful handler: an update writes its path, nothing else
      writes. */
  function FilesAfter(c: Command, files: map<string, string>): map<string, string>
    requires c.message != []
  {
    if c.glyph == FileUpdate then files[c.message[0] := UpdateContent(c)] else files
  }

  /** The messages each marker's handler pushes, in order: the assistant echo, then for
      an update the user acknowledgement and for a file request the user turn carrying
      the file's contents (empty when the file does not exist). */
  function HandlerMessages(c: Command, files: map<string, string>): (r: seq<Message>)
    requires c.message != []
    ensures |r| == Appended(c.glyph)
    ensures r != [] ==> r[0].role == Assistant && forall k :: 1 <= k < |r| ==> r[k].role == User
  {
    var f := c.message[0];
    match c.glyph
    case FileUpdate => [Message(Assistant, UpdateEcho(f, UpdateContent(c))), Message(User, UpdateAck(f))]
    case Announcement => [Message(Assistant, AnnouncementEcho(f))]
    case FileRequest =>
      [Message(Assistant, RequestEcho(f)), Message(User, RequestAnswer(f, if f in files then files[f] else ""))]
    case FileTree => []
    case TaskIn => []
  }

  /** The record each marker's handler adds to the result, if any. */
  function RecordOf(c: Command): seq<Record>
    requires c.message != []
  {
    match c.glyph
    case FileUpdate => [FileWritten(c.message[0], UpdateContent(c))]
    case Announcement => [Announced(c.message[0])]
    case _ => []
  }

  /** The handler of one command. An update appends its echo and acknowledgement and
      its result record before writing, so a failed write leaves those in place. */
  function Handle(c: Command, s: Session, unwritable: set<string>): (p: Processed)
    requires c.message != []
    ensures p.session.completed == s.completed
    ensures p.session.messages == s.messages + HandlerMessages(c, s.files)
    ensures p.session.result == s.result + RecordOf(c)
    ensures p.Faulted? <==> c.glyph == FileUpdate && c.message[0] in unwritable
    ensures p.Done? ==> p.session.files == FilesAfter(c, s.files)
    ensures p.Faulted? || c.glyph != FileUpdate ==> p.session.files == s.files
  {
    var f := c.message[0];
    match c.glyph
    case FileUpdate =>
      var content := UpdateContent(c);
      var s1 := s.(messages := s.messages + [Message(Assistant, UpdateEcho(f, content)), Message(User, UpdateAck(f))],
                   result := s.result + [FileWritten(f, content)]);
      if f in unwritable then Faulted(s1, WriteFailed(f)) else Done(s1.(files := s.files[f := content]))
    case Announcement =>
      Done(s.(messages := s.messages + [Message(Assistant, AnnouncementEcho(f))],
              result := s.result + [Announced(f)]))
    case FileRequest =>
      var file := if f in s.files then s.files[f] else "";
      Done(s.(messages := s.messages + [Message(Assistant, RequestEcho(f)), Message(User, RequestAnswer(f, file))]))
    case FileTree => Done(s)
    case TaskIn => Done(s)
  }

  /** Some update among `cmds` names a path whose write raises. */
  predicate WriteFaults(cmds: seq<Command>, unwritable: set<string>)
    requires AllNonEmpty(cmds)
  {
    exists k :: 0 <= k < |cmds| && cmds[k].glyph == FileUpdate && cmds[k].message[0] in unwritable
  }

  predicate HasFileRequest(cmds: seq<Command>)
  {
    exists k :: 0 <= k < |cmds| && cmds[k].glyph == FileRequest
  }

  /** The loop of `onProcessMessages`: handlers run in command order, and after each
      command `completed` is set to whether the whole reply lacks a file request. */
  function RunHandlers(cmds: seq<Command>, hasRequest: bool, s: Session, unwritable: set<string>): (p: Processed)
    requires AllNonEmpty(cmds)
    ensures p.Faulted? <==> WriteFaults(cmds, unwritable)
    ensures p.Faulted? ==> p.fault.WriteFailed? && p.fault.path in unwritable
    decreases |cmds|
  {
    if cmds == [] then Done(s)
    else
      assert forall k :: 1 <= k < |cmds| ==> cmds[k] == cmds[1..][k - 1];
      match Handle(cmds[0], s, unwritable)
      case Faulted(s1, f) => Faulted(s1, f)
      case Done(s1) =>
        var p := RunHandlers(cmds[1..], hasRequest, s1.(completed := !hasRequest), unwritable);
        assert WriteFaults(cmds[1..], unwritable) ==> WriteFaults(cmds, unwritable) by {
          if WriteFaults(cmds[1..], unwritable) {
            var k :| 0 <= k < |cmds[1..]| && cmds[1..][k].glyph == FileUpdate && cmds[1..][k].message[0] in unwritable;
            assert cmds[k + 1] == cmds[1..][k];
          }
        }
        p
  }

  /** `onProcessMessages(messages)`: it faults exactly when an update's write raises;
      otherwise the log grows by the handlers' messages and the result by the reply's
      records, in command order, and a non-empty reply is complete exactly when it holds
      no file request. */
  function OnProcessMessages(cmds: seq<Command>, s: Session, unwritable: set<string>): (p: Processed)
    requires AllNonEmpty(cmds)
    ensures p.Faulted? <==> WriteFaults(cmds, unwritable)
    ensures p.Done? ==> p.session.messages == s.messages + MessagesOf(cmds, s.files)
    ensures p.Done? ==> p.session.result == s.result + RecordsOf(cmds)
    ensures p.Done? && cmds != [] ==> (p.session.completed <==> !HasFileRequest(cmds))
  {
    var hasRequest := HasFileRequest(cmds);
    var p := RunHandlers(cmds, hasRequest, s, unwritable);
    if p.Done? then
      RunHandlersCompletion(cmds, hasRequest, s, unwritable);
      RunHandlersMessages(cmds, hasRequest, s, unwritable);
      RunHandlersRecords(cmds, hasRequest, s, unwritable);
      p
    else p
  }

  /** The messages all of a reply's handlers append, in total. */
  function AppendedAll(cmds: seq<Command>): nat
  {
    if cmds == [] then 0 else Appended(cmds[0].glyph) + AppendedAll(cmds[1..])
  }

  /** The messages a reply's handlers push, in command order, each handler seeing the
      files as the updates before it left them. */
  function MessagesOf(cmds: seq<Command>, files: map<string, string>): (r: seq<Message>)
    requires AllNonEmpty(cmds)
    ensures |r| == AppendedAll(cmds)
    decreases |cmds|
  {
    if cmds == [] then []
    else HandlerMessages(cmds[0], files) + MessagesOf(cmds[1..], FilesAfter(cmds[0], files))
  }

  /** The files after the updates among `cmds` have been applied in command order. */
  function FilesThrough(cmds: seq<Command>, files: map<string, string>): map<string, string>
    requires AllNonEmpty(cmds)
    decreases |cmds|
  {
    if cmds == [] then files else FilesThrough(cmds[1..], FilesAfter(cmds[0], files))
  }

  /** The records a reply adds to the result, in command order. */
  function RecordsOf(cmds: seq<Command>): seq<Record>
    requires AllNonEmpty(cmds)
  {
    if cmds == [] then [] else RecordOf(cmds[0]) + RecordsOf(cmds[1..])
  }

  /** The content of the last update of `path` among `cmds`, if any. */
  function LastUpdate(cmds: seq<Command>, path: string): Option<string>
    requires AllNonEmpty(cmds)
  {
    if cmds == [] then None
    else
      match LastUpdate(cmds[1..], path)
      case Some(content) => Some(content)
      case None =>
        if cmds[0].glyph == FileUpdate && cmds[0].message[0] == path then Some(UpdateContent(cmds[0])) else None
  }

  /** Completion rule: after a non-empty reply is processed without fault, `completed`
      holds exactly when no command is a file request. An empty one changes nothing. */
  lemma {:induction false} RunHandlersCompletion(cmds: seq<Command>, hasRequest: bool, s: Session, unwritable: set<string>)
    requires AllNonEmpty(cmds)
    requires RunHandlers(cmds, hasRequest, s, unwritable).Done?
    ensures cmds == [] ==> RunHandlers(cmds, hasRequest, s, unwritable).session == s
    ensures cmds != [] ==> RunHandlers(cmds, hasRequest, s, unwritable).session.completed == !hasRequest
    decreases |cmds|
  {
    if cmds != [] {
      var s1 := Handle(cmds[0], s, unwritable).session;
      RunHandlersCompletion(cmds[1..], hasRequest, s1.(completed := !hasRequest), unwritable);
    }
  }

  /** One turn of the loop: a run without fault ran its first handler without fault and
      then the rest from the state that handler left, with `completed` set. */
  lemma RunHandlersStep(cmds: seq<Command>, hasRequest: bool, s: Session, unwritable: set<string>)
    requires AllNonEmpty(cmds) && cmds != []
    requires RunHandlers(cmds, hasRequest, s, unwritable).Done?
    ensures Handle(cmds[0], s, unwritable).Done?
    ensures AllNonEmpty(cmds[1..])
    ensures RunHandlers(cmds, hasRequest, s, unwritable)
      == RunHandlers(cmds[1..], hasRequest, Handle(cmds[0], s, unwritable).session.(completed := !hasRequest), unwritable)
  {
    assert forall k :: 1 <= k < |cmds| ==> cmds[k] == cmds[1..][k - 1];
  }

  /** Handlers run in command order: the log grows by exactly the messages of each
      command's handler, one after the other, so it only grows. */
  lemma RunHandlersMessages(cmds: seq<Command>, hasRequest: bool, s: Session, unwritable: set<string>)
    requires AllNonEmpty(cmds)
    requires RunHandlers(cmds, hasRequest, s, unwritable).Done?
    ensures var s' := RunHandlers(cmds, hasRequest, s, unwritable).session;
      && s'.messages == s.messages + MessagesOf(cmds, s.files)
      && |s'.messages| == |s.messages| + AppendedAll(cmds)
      && s'.messages[..|s.messages|] == s.messages
  {
    RunHandlersLog(cmds, hasRequest, s, unwritable);
  }

  /** The induction behind `RunHandlersMessages`: each handler's messages follow the
      ones before it. */
  lemma {:induction false} RunHandlersLog(cmds: seq<Command>, hasRequest: bool, s: Session, unwritable: set<string>)
    requires AllNonEmpty(cmds)
    requires RunHandlers(cmds, hasRequest, s, unwritable).Done?
    ensures RunHandlers(cmds, hasRequest, s, unwritable).session.messages == s.messages + MessagesOf(cmds, s.files)
    decreases |cmds|
  {
    if cmds != [] {
      var h := Handle(cmds[0], s, unwritable);
      RunHandlersStep(cmds, hasRequest, s, unwritable);
      var s1 := h.session.(completed := !hasRequest);
      RunHandlersLog(cmds[1..], hasRequest, s1, unwritable);
      var mine := HandlerMessages(cmds[0], s.files);
      var later := MessagesOf(cmds[1..], s1.files);
      assert s1.messages == s.messages + mine && s1.files == FilesAfter(cmds[0], s.files);
      assert MessagesOf(cmds, s.files) == mine + later;
      assert (s.messages + mine) + later == s.messages + (mine + later);
    }
  }

  /** The result grows by the reply's records, in command order. */
  lemma {:induction false} RunHandlersRecords(cmds: seq<Command>, hasRequest: bool, s: Session, unwritable: set<string>)
    requires AllNonEmpty(cmds)
    requires RunHandlers(cmds, hasRequest, s, unwritable).Done?
    ensures RunHandlers(cmds, hasRequest, s, unwritable).session.result == s.result + RecordsOf(cmds)
    decreases |cmds|
  {
    if cmds != [] {
      var h := Handle(cmds[0], s, unwritable);
      RunHandlersStep(cmds, hasRequest, s, unwritable);
      var s1 := h.session.(completed := !hasRequest);
      RunHandlersRecords(cmds[1..], hasRequest, s1, unwritable);
      var mine := RecordOf(cmds[0]);
      var later := RecordsOf(cmds[1..]);
      assert s1.result == s.result + mine;
      assert RecordsOf(cmds) == mine + later;
      assert (s.result + mine) + later == s.result + (mine + later);
    }
  }

  /** Command `j` is the first update among `cmds` whose write raises. */
  predicate FirstFault(cmds: seq<Command>, unwritable: set<string>, j: int)
    requires AllNonEmpty(cmds)
  {
    && 0 <= j < |cmds|
    && cmds[j].glyph == FileUpdate && cmds[j].message[0] in unwritable
    && !WriteFaults(cmds[..j], unwritable)
  }

  /** `p` is the loop stopped at the first faulting update, command `j`: the fault names
      its path; the log and the result hold everything the handlers up to and including
      that update pushed; the files hold the writes of the updates before it but not its
      own; and `completed` is what the last handler to finish left, or as it was when
      none finished. */
  predicate StoppedAt(cmds: seq<Command>, hasRequest: bool, s: Session, unwritable: set<string>, p: Processed, j: int)
    requires AllNonEmpty(cmds)
  {
    && FirstFault(cmds, unwritable, j)
    && p.Faulted? && p.fault == WriteFailed(cmds[j].message[0])
    && p.session.messages == s.messages + MessagesOf(cmds[..j + 1], s.files)
    && p.session.result == s.result + RecordsOf(cmds[..j + 1])
    && p.session.files == FilesThrough(cmds[..j], s.files)
    && p.session.completed == (if j == 0 then s.completed else !hasRequest)
  }

  /** A fault stops the loop at the first update whose write raises, keeping what the
      handlers up to and including it pushed and the writes before it. */
  lemma {:induction false} RunHandlersFault(cmds: seq<Command>, hasRequest: bool, s: Session, unwritable: set<string>)
    requires AllNonEmpty(cmds)
    requires RunHandlers(cmds, hasRequest, s, unwritable).Faulted?
    ensures exists j :: StoppedAt(cmds, hasRequest, s, unwritable, RunHandlers(cmds, hasRequest, s, unwritable), j)
    decreases |cmds|
  {
    var h := Handle(cmds[0], s, unwritable);
    var p := RunHandlers(cmds, hasRequest, s, unwritable);
    if h.Faulted? {
      FaultHere(cmds, hasRequest, s, unwritable);
    } else {
      var s1 := h.session.(completed := !hasRequest);
      RunHandlersUnfold(cmds, hasRequest, s, unwritable);
      RunHandlersFault(cmds[1..], hasRequest, s1, unwritable);
      var i :| StoppedAt(cmds[1..], hasRequest, s1, unwritable, p, i);
      StopShift(cmds, hasRequest, s, s1, unwritable, p, i);
    }
  }

  /** A fault in the first handler stops the loop there. */
  lemma FaultHere(cmds: seq<Command>, hasRequest: bool, s: Session, unwritable: set<string>)
    requires AllNonEmpty(cmds) && cmds != []
    requires Handle(cmds[0], s, unwritable).Faulted?
    ensures StoppedAt(cmds, hasRequest, s, unwritable, RunHandlers(cmds, hasRequest, s, unwritable), 0)
  {
    var c := cmds[0];
    assert RunHandlers(cmds, hasRequest, s, unwritable) == Handle(c, s, unwritable);
    assert cmds[..1] == [c] && [c][1..] == [];
    assert MessagesOf(cmds[..1], s.files) == HandlerMessages(c, s.files) + [];
    assert RecordsOf(cmds[..1]) == RecordOf(c) + [];
    assert cmds[..0] == [];
  }

  /** When the first handler finishes, where the rest stopped, one place further on, is
      where the whole loop stopped. */
  lemma StopShift(cmds: seq<Command>, hasRequest: bool, s: Session, s1: Session, unwritable: set<string>, p: Processed, i: int)
    requires AllNonEmpty(cmds) && cmds != [] && AllNonEmpty(cmds[1..])
    requires !(cmds[0].glyph == FileUpdate && cmds[0].message[0] in unwritable)
    requires s1.messages == s.messages + HandlerMessages(cmds[0], s.files)
    requires s1.result == s.result + RecordOf(cmds[0])
    requires s1.files == FilesAfter(cmds[0], s.files)
    requires s1.completed == !hasRequest
    requires StoppedAt(cmds[1..], hasRequest, s1, unwritable, p, i)
    ensures StoppedAt(cmds, hasRequest, s, unwritable, p, i + 1)
  {
    var rest := cmds[1..];
    FaultShift(cmds, unwritable, i, s.files, s1.files);
    Reassociate(p.session.messages, s.messages, HandlerMessages(cmds[0], s.files), MessagesOf(rest[..i + 1], s1.files));
    Reassociate(p.session.result, s.result, RecordOf(cmds[0]), RecordsOf(rest[..i + 1]));
  }

  lemma Reassociate<T>(x: seq<T>, a: seq<T>, b: seq<T>, c: seq<T>)
    requires x == (a + b) + c
    ensures x == a + (b + c)
  {
  }

  /** The first fault of the rest of the commands, one place further on, is the first
      fault of all of them when the first command does not fault; the messages and
      records up to it are the first command's followed by the rest's. */
  lemma FaultShift(cmds: seq<Command>, unwritable: set<string>, i: nat, files: map<string, string>, files1: map<string, string>)
    requires AllNonEmpty(cmds) && cmds != [] && AllNonEmpty(cmds[1..])
    requires !(cmds[0].glyph == FileUpdate && cmds[0].message[0] in unwritable)
    requires FirstFault(cmds[1..], unwritable, i)
    requires files1 == FilesAfter(cmds[0], files)
    ensures FirstFault(cmds, unwritable, i + 1)
    ensures cmds[i + 1] == cmds[1..][i]
    ensures MessagesOf(cmds[..i + 2], files) == HandlerMessages(cmds[0], files) + MessagesOf(cmds[1..][..i + 1], files1)
    ensures RecordsOf(cmds[..i + 2]) == RecordOf(cmds[0]) + RecordsOf(cmds[1..][..i + 1])
    ensures FilesThrough(cmds[..i + 1], files) == FilesThrough(cmds[1..][..i], files1)
  {
    var upto := cmds[..i + 2];
    assert upto[0] == cmds[0] && upto[1..] == cmds[1..][..i + 1];
    var before := cmds[..i + 1];
    assert before[0] == cmds[0] && before[1..] == cmds[1..][..i];
    NoFaultBefore(cmds, unwritable, i);
  }

  /** A loop turn whose handler finishes goes on with the rest of the commands. */
  lemma RunHandlersUnfold(cmds: seq<Command>, hasRequest: bool, s: Session, unwritable: set<string>)
    requires AllNonEmpty(cmds) && cmds != []
    requires Handle(cmds[0], s, unwritable).Done?
    ensures AllNonEmpty(cmds[1..])
    ensures RunHandlers(cmds, hasRequest, s, unwritable)
      == RunHandlers(cmds[1..], hasRequest, Handle(cmds[0], s, unwritable).session.(completed := !hasRequest), unwritable)
  {
    assert forall k :: 1 <= k < |cmds| ==> cmds[k] == cmds[1..][k - 1];
  }

  /** No write faults among the first `i + 1` commands when the first one succeeds and
      none of the next `i` faults. */
  lemma NoFaultBefore(cmds: seq<Command>, unwritable: set<string>, i: nat)
    requires AllNonEmpty(cmds) && i + 1 < |cmds|
    requires !(cmds[0].glyph == FileUpdate && cmds[0].message[0] in unwritable)
    requires !WriteFaults(cmds[1..][..i], unwritable)
    ensures !WriteFaults(cmds[..i + 1], unwritable)
  {
    var upto := cmds[..i + 1];
    forall k | 0 <= k < |upto|
      ensures !(upto[k].glyph == FileUpdate && upto[k].message[0] in unwritable)
    {
      if k > 0 {
        assert upto[k] == cmds[1..][..i][k - 1];
      }
    }
  }

  /** `onProcessMessages` faults at the first update whose write raises, keeping what the
      handlers up to and including it pushed and the writes before it, with `completed`
      as the last handler to finish left it. */
  lemma OnProcessMessagesFault(cmds: seq<Command>, s: Session, unwritable: set<string>)
    requires AllNonEmpty(cmds)
    requires OnProcessMessages(cmds, s, unwritable).Faulted?
    ensures exists j :: StoppedAt(cmds, HasFileRequest(cmds), s, unwritable, OnProcessMessages(cmds, s, unwritable), j)
  {
    RunHandlersFault(cmds, HasFileRequest(cmds), s, unwritable);
  }

  /** Updates apply in textual order, so the last update of a path wins, and a path no
      update names keeps its contents (or stays absent). */
  lemma {:induction false} LastWriteWins(cmds: seq<Command>, hasRequest: bool, s: Session, unwritable: set<string>, path: string)
    requires AllNonEmpty(cmds)
    requires RunHandlers(cmds, hasRequest, s, unwritable).Done?
    ensures var files := RunHandlers(cmds, hasRequest, s, unwritable).session.files;
      match LastUpdate(cmds, path)
      case Some(content) => path in files && files[path] == content
      case None => (path in files <==> path in s.files) && (path in files ==> files[path] == s.files[path])
    decreases |cmds|
  {
    if cmds != [] {
      var s1 := Handle(cmds[0], s, unwritable).session.(completed := !hasRequest);
      LastWriteWins(cmds[1..], hasRequest, s1, unwritable, path);
    }
  }

  /** A file written by an update and then requested comes back, in the user turn that
      answers the request, with exactly the contents written. */
  lemma UpdateThenRequest(f: string, lines: seq<string>, s: Session, unwritable: set<string>)
    requires f !in unwritable
    ensures var update := Handle(Command(FileUpdate, [f] + lines), s, unwritable);
      var request := Handle(Command(FileRequest, [f]), update.session, unwritable);
      && request.Done?
      && request.session.messages[|request.session.messages| - 1]
         == Message(User, RequestAnswer(f, Join(lines, "\n")))
  {
    assert ([f] + lines)[1..] == lines;
  }
}
