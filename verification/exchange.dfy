/** The exchange loop of `SemanticPrompt.execute`: budget check, one backend call,
    grammar check, extraction, dispatch, and the three ways round again (a refused reply,
    an outstanding file request, a fault while processing). The backend is an oracle:
    the sequence of answers it gives to successive calls. */
module Exchange {
  import opened Wrappers
  import opened Text
  import opened Messages
  import opened Markers
  import opened Commands
  import opened Dispatch

  /** The hard ceiling on the conversation's estimate. */
  const Ceiling: nat := 8192
  /** The most `max_tokens` one call may ask for. */
  const CallCap: nat := 2048
  /** How many times a fault while processing a reply is retried within one `execute`. */
  const MaxRetries: nat := 3

  const TooLong: string := "The message is too long. Please shorten it and try again."
  const InvalidFormat: string := "INVALID OUTPUT FORMAT. Please review the instructions and try again."

  /** `max_tokens` for a conversation estimated at `count`: what is left under the
      ceiling, capped at 2048. */
  function MaxTokens(count: nat): (m: nat)
    requires count <= Ceiling
    ensures m <= CallCap && m <= Ceiling - count
    ensures m == CallCap || m == Ceiling - count
  {
    var free := Ceiling - count;
    if free > CallCap then CallCap else free
  }

  /** One answer of the backend: the content of the last message it returns, or the
      error it raises. */
  datatype Backend = Reply(text: string) | Unavailable(error: string)

  /** What one `sendQuery` call is given. */
  datatype Request = Request(messages: seq<Message>, maxTokens: nat)

  /** How `execute` ends: with the accumulated result, with an `{error}` value, by
      raising, or (in the model only) waiting for an answer the oracle does not hold. */
  datatype Outcome = Returned(records: seq<Record>) | ErrorValue(error: string) | Thrown(fault: Fault) | AwaitingReply

  /** The outcome, the session left behind, every request sent, and the retry counter. */
  datatype Execution = Execution(outcome: Outcome, session: Session, requests: seq<Request>, retries: nat)

  predicate WithinBudget(r: Request)
  {
    Tokens(r.messages) <= Ceiling && r.maxTokens == MaxTokens(Tokens(r.messages))
  }

  /** The execution `e` of the later calls, preceded by the request of this one. */
  function Issued(req: Request, e: Execution): (r: Execution)
    ensures r.outcome == e.outcome && r.session == e.session && r.retries == e.retries
    ensures |r.requests| == |e.requests| + 1 && r.requests[0] == req
    ensures WithinBudget(req) && (forall k :: 0 <= k < |e.requests| ==> WithinBudget(e.requests[k])) ==>
      forall k :: 0 <= k < |r.requests| ==> WithinBudget(r.requests[k])
  {
    e.(requests := [req] + e.requests)
  }

  /** What one reply leads to: `execute` ends with an outcome, or `callLLM` is called
      again with this conversation and retry counter. */
  datatype Turn = Stop(outcome: Outcome, session: Session) | Again(session: Session, retries: nat)

  /** Extraction and dispatch of an accepted reply: `cmds[-1]` with no command yet
      faults, and so does a handler whose write raises. */
  function Process(response: string, s: Session, unwritable: set<string>): Processed
  {
    match ParseCommands(response)
    case None => Faulted(s, NoOpenCommand)
    case Some(cmds) => OnProcessMessages(cmds, s, unwritable)
  }

  /** The handling of one answered call: the grammar check, extraction and dispatch,
      and what each way out of them leads to, with a fault while processing caught by
      the `catch` of `callLLM` as its retry comment intends. */
  function Respond(s: Session, retries: nat, text: string, unwritable: set<string>): (t: Turn)
    requires retries <= MaxRetries
    ensures t.Again? ==> retries <= t.retries <= MaxRetries
    ensures t.Stop? ==> t.outcome.Returned? || (t.outcome.Thrown? && retries == MaxRetries)
    ensures t.Stop? && t.outcome.Returned? ==>
      t.session.messages == [] && t.session.result == [] && !t.session.completed
  {
    var response := text + "\n";
    if !Accepts(response) then Again(s.(messages := s.messages + [Message(System, InvalidFormat)]), retries)
    else
      match Process(response, s, unwritable)
      case Faulted(s1, fault) =>
        if retries < MaxRetries then Again(s1, retries + 1) else Stop(Thrown(fault), s1)
      case Done(s1) =>
        if s1.completed then Stop(Returned(s1.result), s1.(messages := [], result := [], completed := false))
        else Again(s1, retries)
  }

  /** The handling of one answered call as written. The handlers run inside the
      `async` `_iterator` action (src/prompt.ts:160-165), so an exception raised there
      rejects that action's promise and never reaches the `catch`: `callLLM` carries on
      with whatever the handlers had done by then, returning if `completed` was set and
      calling again otherwise, and the retry counter never moves. */
  function RespondAsWritten(s: Session, retries: nat, text: string, unwritable: set<string>): (t: Turn)
    requires retries <= MaxRetries
    ensures t.Stop? ==> t.outcome.Returned?
    ensures t.Again? ==> t.retries == retries
  {
    var response := text + "\n";
    if !Accepts(response) then Again(s.(messages := s.messages + [Message(System, InvalidFormat)]), retries)
    else
      var s1 := Process(response, s, unwritable).session;
      if s1.completed then Stop(Returned(s1.result), s1.(messages := [], result := [], completed := false))
      else Again(s1, retries)
  }

  /** Where the two readings part: on a fault while processing, the code as written goes
      on as though processing had finished, never raising the counter and never
      raising the fault, while the intended handling retries and raises at three. */
  lemma FaultSwallowed(s: Session, retries: nat, text: string, unwritable: set<string>)
    requires retries <= MaxRetries
    requires Accepts(text + "\n") && Process(text + "\n", s, unwritable).Faulted?
    ensures var p := Process(text + "\n", s, unwritable);
      && RespondAsWritten(s, retries, text, unwritable)
         == (if p.session.completed
             then Stop(Returned(p.session.result), p.session.(messages := [], result := [], completed := false))
             else Again(p.session, retries))
      && Respond(s, retries, text, unwritable)
         == (if retries < MaxRetries then Again(p.session, retries + 1) else Stop(Thrown(p.fault), p.session))
  {
  }

  /** One `callLLM` and the calls it makes in turn. `retries` is the counter shared by
      all of them within one `execute`. */
  function CallLlm(s: Session, retries: nat, replies: seq<Backend>, unwritable: set<string>): (e: Execution)
    requires retries <= MaxRetries
    ensures retries <= e.retries <= MaxRetries
    ensures e.outcome.Thrown? ==> e.retries == MaxRetries
    ensures e.requests == [] <==> Tokens(s.messages) > Ceiling
    ensures Tokens(s.messages) > Ceiling ==> e.outcome == ErrorValue(TooLong) && e.session == s
    ensures e.requests != [] ==> e.requests[0].messages == s.messages
    ensures forall k :: 0 <= k < |e.requests| ==> WithinBudget(e.requests[k])
    ensures |e.requests| <= |replies| + 1
    ensures e.outcome.Returned? ==> e.session.messages == [] && e.session.result == [] && !e.session.completed
    decreases |replies|
  {
    var count := Tokens(s.messages);
    if count > Ceiling then Execution(ErrorValue(TooLong), s, [], retries)
    else
      var req := Request(s.messages, MaxTokens(count));
      if replies == [] then Execution(AwaitingReply, s, [req], retries)
      else
        match replies[0]
        case Unavailable(error) => Execution(ErrorValue(error), s, [req], retries)
        case Reply(text) =>
          match Respond(s, retries, text, unwritable)
          case Stop(outcome, s1) => Execution(outcome, s1, [req], retries)
          case Again(s1, retries1) => Issued(req, CallLlm(s1, retries1, replies[1..], unwritable))
  }

  /** `execute()`: the retry counter starts at zero, so at most three faults are retried
      before one is raised. */
  function Execute(s: Session, replies: seq<Backend>, unwritable: set<string>): (e: Execution)
    ensures e.retries <= MaxRetries && (e.outcome.Thrown? ==> e.retries == MaxRetries)
    ensures e.requests == [] <==> Tokens(s.messages) > Ceiling
    ensures Tokens(s.messages) > Ceiling ==> e.outcome == ErrorValue(TooLong) && e.session == s
    ensures forall k :: 0 <= k < |e.requests| ==> WithinBudget(e.requests[k])
  {
    CallLlm(s, 0, replies, unwritable)
  }

  /** A backend error ends `execute` at once: its value is returned after the one
      request, with no retry and the state as it was. */
  lemma BackendErrorReturns(s: Session, retries: nat, error: string, rest: seq<Backend>, unwritable: set<string>)
    requires retries <= MaxRetries
    requires Tokens(s.messages) <= Ceiling
    ensures var e := CallLlm(s, retries, [Unavailable(error)] + rest, unwritable);
      && e.outcome == ErrorValue(error)
      && e.requests == [Request(s.messages, MaxTokens(Tokens(s.messages)))]
      && e.session == s && e.retries == retries
  {
    assert ([Unavailable(error)] + rest)[0] == Unavailable(error);
  }

  /** A reply the grammar refuses runs no handler: the conversation gains exactly the
      corrective system message, and the loop calls again with it. */
  lemma InvalidReplyRecalls(s: Session, retries: nat, text: string, rest: seq<Backend>, unwritable: set<string>)
    requires retries <= MaxRetries
    requires Tokens(s.messages) <= Ceiling
    requires !(text != [] && IsGlyphChar(text[0]))
    ensures CallLlm(s, retries, [Reply(text)] + rest, unwritable)
         == Issued(Request(s.messages, MaxTokens(Tokens(s.messages))),
                   CallLlm(s.(messages := s.messages + [Message(System, InvalidFormat)]), retries, rest, unwritable))
  {
    AcceptsIff(text + "\n");
    assert !Accepts(text + "\n");
    assert Respond(s, retries, text, unwritable) == Again(s.(messages := s.messages + [Message(System, InvalidFormat)]), retries);
    var replies := [Reply(text)] + rest;
    assert replies[0] == Reply(text) && replies[1..] == rest;
  }

  /** A reply of only ⛔ is such a refused reply. */
  lemma RejectReplyRecalls(s: Session, retries: nat, rest: seq<Backend>, unwritable: set<string>)
    requires retries <= MaxRetries
    requires Tokens(s.messages) <= Ceiling
    ensures CallLlm(s, retries, [Reply([RejectChar])] + rest, unwritable)
         == Issued(Request(s.messages, MaxTokens(Tokens(s.messages))),
                   CallLlm(s.(messages := s.messages + [Message(System, InvalidFormat)]), retries, rest, unwritable))
  {
    RejectRefused();
    InvalidReplyRecalls(s, retries, [RejectChar], rest, unwritable);
  }

  /** A fault while processing is retried while the shared counter is below three, and
      raised once it has reached three. */
  lemma FaultRetries(s: Session, retries: nat, text: string, rest: seq<Backend>, unwritable: set<string>, cmds: seq<Command>)
    requires retries <= MaxRetries
    requires Tokens(s.messages) <= Ceiling
    requires text != [] && IsGlyphChar(text[0])
    requires ParseCommands(text + "\n") == Some(cmds)
    requires OnProcessMessages(cmds, s, unwritable).Faulted?
    ensures var p := OnProcessMessages(cmds, s, unwritable);
      var req := Request(s.messages, MaxTokens(Tokens(s.messages)));
      CallLlm(s, retries, [Reply(text)] + rest, unwritable)
      == if retries < MaxRetries then Issued(req, CallLlm(p.session, retries + 1, rest, unwritable))
         else Execution(Thrown(p.fault), p.session, [req], retries)
  {
    AcceptsIff(text + "\n");
    var p := OnProcessMessages(cmds, s, unwritable);
    assert Respond(s, retries, text, unwritable)
        == if retries < MaxRetries then Again(p.session, retries + 1) else Stop(Thrown(p.fault), p.session);
    assert ([Reply(text)] + rest)[1..] == rest;
  }

  /** A reply without file requests whose handlers all succeed completes the exchange in
      that round trip: the result gathered so far plus this reply's records is returned,
      the files are as the handlers left them, and the state is cleared. */
  lemma OneRoundTrip(s: Session, retries: nat, text: string, rest: seq<Backend>, unwritable: set<string>, cmds: seq<Command>)
    requires retries <= MaxRetries
    requires Tokens(s.messages) <= Ceiling
    requires text != [] && IsGlyphChar(text[0])
    requires ParseCommands(text + "\n") == Some(cmds)
    requires !HasFileRequest(cmds)
    requires OnProcessMessages(cmds, s, unwritable).Done?
    ensures var e := CallLlm(s, retries, [Reply(text)] + rest, unwritable);
      && e.outcome == Returned(s.result + RecordsOf(cmds))
      && |e.requests| == 1
      && e.session == Session([], [], false, OnProcessMessages(cmds, s, unwritable).session.files)
  {
    AcceptsIff(text + "\n");
    var p := OnProcessMessages(cmds, s, unwritable);
    assert Process(text + "\n", s, unwritable) == p;
    assert Respond(s, retries, text, unwritable) == Stop(Returned(s.result + RecordsOf(cmds)), Session([], [], false, p.session.files));
    assert ([Reply(text)] + rest)[1..] == rest;
  }

  /** A reply with a file request whose handlers all succeed does not complete: the loop
      calls again with the conversation the handlers left. */
  lemma FileRequestContinues(s: Session, retries: nat, text: string, rest: seq<Backend>, unwritable: set<string>, cmds: seq<Command>)
    requires retries <= MaxRetries
    requires Tokens(s.messages) <= Ceiling
    requires text != [] && IsGlyphChar(text[0])
    requires ParseCommands(text + "\n") == Some(cmds)
    requires HasFileRequest(cmds)
    requires OnProcessMessages(cmds, s, unwritable).Done?
    ensures var s1 := OnProcessMessages(cmds, s, unwritable).session;
      && !s1.completed
      && CallLlm(s, retries, [Reply(text)] + rest, unwritable)
         == Issued(Request(s.messages, MaxTokens(Tokens(s.messages))), CallLlm(s1, retries, rest, unwritable))
  {
    AcceptsIff(text + "\n");
    AcceptedReplyParses(text + "\n");
    assert ([Reply(text)] + rest)[1..] == rest;
  }
}
