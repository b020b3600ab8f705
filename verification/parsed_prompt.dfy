/** The abstract `Agent` of the parsed-prompt variant: its character-wise
    `parseFromDelimiters`, its conversation and `reset`, the reply split in `request`,
    and its token count. The backend is an oracle: the messages its response holds. */
module ParsedPrompt {
  import opened Wrappers
  import opened Text
  import opened Messages
  import opened Delimited
  import opened Counting

  /** `delimiters.includes(char)`: a character is a delimiter when the one-character
      string it makes is in the list, so longer delimiters never match. */
  predicate IsDelimiter(ds: seq<string>, c: char)
  {
    [c] in ds
  }

  /** The delimiter characters of `s`, in order, each as a one-character string. */
  function DelimitersIn(ds: seq<string>, s: string): (r: seq<string>)
    ensures forall k :: 0 <= k < |r| ==> |r[k]| == 1 && r[k] in ds
  {
    if s == [] then []
    else
      var c := s[|s| - 1];
      DelimitersIn(ds, s[..|s| - 1]) + (if IsDelimiter(ds, c) then [[c]] else [])
  }

  /** `s` with its delimiter characters removed. */
  function Kept(ds: seq<string>, s: string): string
  {
    if s == [] then []
    else
      var c := s[|s| - 1];
      Kept(ds, s[..|s| - 1]) + (if IsDelimiter(ds, c) then [] else [c])
  }

  /** The text after the last delimiter character of `s` (all of `s` if it has none). */
  function Trailing(ds: seq<string>, s: string): string
  {
    if s == [] then []
    else
      var c := s[|s| - 1];
      if IsDelimiter(ds, c) then [] else Trailing(ds, s[..|s| - 1]) + [c]
  }

  predicate NoDelimiterChar(ds: seq<string>, v: string)
  {
    forall q :: 0 <= q < |v| ==> !IsDelimiter(ds, v[q])
  }

  /** Each character of `s` is either a delimiter or kept. */
  lemma {:induction false} KeptAndDelimiters(ds: seq<string>, s: string)
    ensures |Kept(ds, s)| + |DelimitersIn(ds, s)| == |s|
    ensures NoDelimiterChar(ds, Kept(ds, s)) && NoDelimiterChar(ds, Trailing(ds, s))
    decreases |s|
  {
    if s != [] {
      KeptAndDelimiters(ds, s[..|s| - 1]);
    }
  }

  /** What holds of the character scan before it reads `text[i]`: the records so far and
      the text being gathered join back to what was read, the records are labelled by
      the delimiters read, and the text being gathered follows the last of them. */
  predicate CharScan(ds: seq<string>, text: string, i: nat, result: seq<DelimiterValue>, current: string)
  {
    && i <= |text|
    && Joined(result) + current == text[..i]
    && Values(result) + current == Kept(ds, text[..i])
    && Labels(result) == DelimitersIn(ds, text[..i])
    && current == Trailing(ds, text[..i])
    && (forall k :: 0 <= k < |result| ==> NoDelimiterChar(ds, result[k].value))
    && NoDelimiterChar(ds, current)
  }

  /** A delimiter character closes a record with the text gathered so far. */
  lemma CloseStep(ds: seq<string>, text: string, i: nat, result: seq<DelimiterValue>, current: string,
                  result': seq<DelimiterValue>)
    requires CharScan(ds, text, i, result, current)
    requires i < |text| && IsDelimiter(ds, text[i])
    requires result' == result + [DelimiterValue([text[i]], current)]
    ensures CharScan(ds, text, i + 1, result', [])
  {
    var s := text[..i + 1];
    assert s == text[..i] + [text[i]];
    assert s[..i] == text[..i];
    AppendValue(result, DelimiterValue([text[i]], current));
    forall k | 0 <= k < |result'|
      ensures NoDelimiterChar(ds, result'[k].value)
    {
      if k < |result| {
        assert result'[k] == result[k];
      }
    }
  }

  /** Any other character joins the text being gathered. */
  lemma GatherStep(ds: seq<string>, text: string, i: nat, result: seq<DelimiterValue>, current: string)
    requires CharScan(ds, text, i, result, current)
    requires i < |text| && !IsDelimiter(ds, text[i])
    ensures CharScan(ds, text, i + 1, result, current + [text[i]])
  {
    var s := text[..i + 1];
    assert s == text[..i] + [text[i]];
    assert s[..i] == text[..i];
  }

  /** Before the first character nothing has been read. */
  lemma ScanStart(ds: seq<string>, text: string)
    ensures CharScan(ds, text, 0, [], [])
  {
    assert text[..0] == [];
  }

  /** One character read: a delimiter closes a record, anything else is gathered. */
  method ScanChar(ds: seq<string>, text: string, i: nat, result: seq<DelimiterValue>, current: string)
    returns (result': seq<DelimiterValue>, current': string)
    requires CharScan(ds, text, i, result, current) && i < |text|
    ensures CharScan(ds, text, i + 1, result', current')
  {
    var c := text[i];
    if IsDelimiter(ds, c) {
      result' := result + [DelimiterValue([c], current)];
      CloseStep(ds, text, i, result, current, result');
      current' := "";
    } else {
      GatherStep(ds, text, i, result, current);
      result' := result;
      current' := current + [c];
    }
  }

  /** At the end of the text the scan state speaks of the whole text. */
  lemma ScanDone(ds: seq<string>, text: string, result: seq<DelimiterValue>, current: string)
    requires CharScan(ds, text, |text|, result, current)
    ensures Joined(result) + current == text
    ensures Values(result) + current == Kept(ds, text)
    ensures Labels(result) == DelimitersIn(ds, text)
    ensures current == Trailing(ds, text)
    ensures forall k :: 0 <= k < |result| ==> NoDelimiterChar(ds, result[k].value)
    ensures NoDelimiterChar(ds, current)
  {
    assert text[..|text|] == text;
  }

  /** At the end of the text, the gathered text (if any) closes a record labelled `''`. */
  lemma CloseScan(ds: seq<string>, text: string, result: seq<DelimiterValue>, current: string,
                  result': seq<DelimiterValue>)
    requires Joined(result) + current == text
    requires Values(result) + current == Kept(ds, text)
    requires Labels(result) == DelimitersIn(ds, text)
    requires current == Trailing(ds, text)
    requires forall k :: 0 <= k < |result| ==> NoDelimiterChar(ds, result[k].value)
    requires NoDelimiterChar(ds, current)
    requires result' == if current != [] then result + [DelimiterValue([], current)] else result
    ensures Joined(result') == text
    ensures Values(result') == Kept(ds, text)
    ensures Labels(result') == DelimitersIn(ds, text) + (if Trailing(ds, text) == [] then [] else [[]])
    ensures forall k :: 0 <= k < |result'| ==> NoDelimiterChar(ds, result'[k].value)
    ensures Trailing(ds, text) != [] ==> result'[|result'| - 1] == DelimiterValue([], Trailing(ds, text))
  {
    if current != [] {
      CloseTrailing(ds, result, current, result');
      assert Joined(result) + current + [] == text;
    } else {
      assert Joined(result) + current == Joined(result);
      assert Values(result) + current == Values(result);
    }
  }

  /** The record closing the trailing text: it adds the text to the joined text and
      the values, and one `''` label. */
  lemma CloseTrailing(ds: seq<string>, result: seq<DelimiterValue>, current: string, result': seq<DelimiterValue>)
    requires forall k :: 0 <= k < |result| ==> NoDelimiterChar(ds, result[k].value)
    requires NoDelimiterChar(ds, current)
    requires result' == result + [DelimiterValue([], current)]
    ensures Joined(result') == Joined(result) + current + []
    ensures Values(result') == Values(result) + current
    ensures Labels(result') == Labels(result) + [[]]
    ensures forall k :: 0 <= k < |result'| ==> NoDelimiterChar(ds, result'[k].value)
  {
    AppendValue(result, DelimiterValue([], current));
    forall k | 0 <= k < |result'|
      ensures NoDelimiterChar(ds, result'[k].value)
    {
      if k < |result| {
        assert result'[k] == result[k];
      }
    }
  }

  /** `parseFromDelimiters(text, delimiters)`: every delimiter character closes a record
      holding the text before it; text after the last one closes a record labelled
      `''`, and only when there is some. */
  method ParseFromDelimiters(text: string, delimiters: seq<string>) returns (result: seq<DelimiterValue>)
    ensures Joined(result) == text
    ensures Values(result) == Kept(delimiters, text)
    ensures Labels(result) == DelimitersIn(delimiters, text) + (if Trailing(delimiters, text) == [] then [] else [[]])
    ensures forall k :: 0 <= k < |result| ==> NoDelimiterChar(delimiters, result[k].value)
    ensures Trailing(delimiters, text) != [] ==> result[|result| - 1] == DelimiterValue([], Trailing(delimiters, text))
  {
    result := [];
    var current := "";
    var i: nat := 0;
    ScanStart(delimiters, text);
    while i < |text|
      invariant CharScan(delimiters, text, i, result, current)
    {
      result, current := ScanChar(delimiters, text, i, result, current);
      i := i + 1;
    }
    ScanDone(delimiters, text, result, current);
    var result' := if current != [] then result + [DelimiterValue([], current)] else result;
    CloseScan(delimiters, text, result, current, result');
    result := result';
  }

  /** The `maxTokens` setting of every conversation the agent builds. */
  const SettingsMaxTokens: nat := 2048

  /** What `sendQuery` is given: the messages and the settings that matter here. */
  datatype Conversation = Conversation(messages: seq<Message>, maxTokens: nat)

  /** An agent: its own message list (`message`), the conversation it sends, and its file
      tree. The conversation shares the message list (`separate == None`) until `reset`
      gives it a list of its own. */
  datatype Agent = Agent(log: seq<Message>, separate: Option<Conversation>, fileTree: seq<(string, string)>)

  /** `this.conversation`. */
  function Sent(a: Agent): Conversation
  {
    match a.separate
    case None => Conversation(a.log, SettingsMaxTokens)
    case Some(c) => c
  }

  /** The message list always starts with the system message. */
  predicate Valid(a: Agent)
  {
    a.log != [] && a.log[0].role == System
  }

  /** The constructor: the system message is the only one, and the conversation shares
      the list. */
  function NewAgent(system: string, fileTree: seq<(string, string)>): (a: Agent)
    ensures Valid(a) && a.log[0].content == system
    ensures Sent(a) == Conversation([Message(System, system)], SettingsMaxTokens)
  {
    Agent([Message(System, system)], None, fileTree)
  }

  /** `reset()` as written: the conversation gets a fresh list holding only the system
      message; the agent's own list is left as it is. */
  function Reset(a: Agent): (r: Agent)
    requires Valid(a)
    ensures Valid(r) && r.log == a.log && r.fileTree == a.fileTree
    ensures Sent(r).messages == [a.log[0]] && Sent(r).maxTokens == SettingsMaxTokens
  {
    a.(separate := Some(Conversation([a.log[0]], SettingsMaxTokens)))
  }

  /** `reset()` as evidently intended: back to the system message alone, with the
      conversation still sharing the agent's list. */
  function ResetIntended(a: Agent): (r: Agent)
    requires Valid(a)
    ensures Valid(r) && r.separate.None? && r.fileTree == a.fileTree
    ensures Sent(r).messages == [a.log[0]] && Sent(r).maxTokens == SettingsMaxTokens
  {
    Agent([a.log[0]], None, a.fileTree)
  }

  /** The contents of the assistant messages among `msgs`, in order. */
  function AssistantContents(msgs: seq<Message>): (r: seq<string>)
    ensures |r| <= |msgs|
    ensures forall m :: m in r <==> exists j :: 0 <= j < |msgs| && msgs[j].role == Assistant && msgs[j].content == m
  {
    if msgs == [] then []
    else
      var last := msgs[|msgs| - 1];
      var init := AssistantContents(msgs[..|msgs| - 1]);
      assert forall j :: 0 <= j < |msgs| - 1 ==> msgs[..|msgs| - 1][j] == msgs[j];
      if last.role == Assistant then init + [last.content] else init
  }

  /** The contents keep the order and the multiplicity of the messages: a log read in
      two parts gives the two parts' contents one after the other, and a single message
      gives its content exactly when it is the assistant's. */
  lemma {:induction false} AssistantContentsConcat(a: seq<Message>, b: seq<Message>)
    ensures AssistantContents(a + b) == AssistantContents(a) + AssistantContents(b)
    ensures |b| == 1 ==> AssistantContents(b) == if b[0].role == Assistant then [b[0].content] else []
    decreases |b|
  {
    if b == [] {
      assert a + b == a;
    } else {
      var init := b[..|b| - 1];
      assert (a + b)[..|a + b| - 1] == a + init;
      assert (a + b)[|a + b| - 1] == b[|b| - 1];
      AssistantContentsConcat(a, init);
      if |b| == 1 {
        assert init == [];
      }
    }
  }

  /** One assistant reply split at its first space:
      `split(' ').slice(0, 1).join(' ')` and `split(' ').slice(1).join(' ')`. */
  function SplitReply(content: string): (r: DelimiterValue)
    ensures ' ' !in r.delimiter
    ensures ' ' in content ==> r.delimiter + " " + r.value == content
    ensures ' ' !in content ==> r.delimiter == content && r.value == []
  {
    var words := Split(content, ' ');
    SplitPiecesFree(content, ' ');
    JoinSplit(content, ' ');
    if ' ' in content then
      CountPresent(content, ' ');
      SplitCount(content, ' ');
      DelimiterValue(words[0], Join(words[1..], " "))
    else
      SplitOfFree(content, ' ');
      DelimiterValue(words[0], Join(words[1..], " "))
  }

  /** What `request` computes: the agent after the push, the conversation sent, the
      parsed replies, and the two maps it returns (which it never fills). */
  datatype Exchanged = Exchanged(agent: Agent, sent: Conversation, parsed: seq<DelimiterValue>,
                                 fileContents: map<string, string>, fileChanges: map<string, string>)

  /** `request(ask)`: push the task onto the agent's own list, send the conversation, and
      split each assistant message of the response from position `height` (the length
      of the agent's list after the push) on. */
  function Request(a: Agent, ask: string, response: seq<Message>): (r: Exchanged)
    requires Valid(a)
    ensures Valid(r.agent) && r.agent.log == a.log + [Message(User, ask)]
    ensures r.agent.separate == a.separate && r.agent.fileTree == a.fileTree
    ensures r.sent == Sent(r.agent)
    ensures var height := |a.log| + 1;
      var replies := AssistantContents(if height <= |response| then response[height..] else []);
      |r.parsed| == |replies| && forall k :: 0 <= k < |replies| ==> r.parsed[k] == SplitReply(replies[k])
    ensures r.fileContents == map[] && r.fileChanges == map[]
  {
    var log := a.log + [Message(User, ask)];
    var agent := a.(log := log);
    var height := |log|;
    var replies := AssistantContents(if height <= |response| then response[height..] else []);
    var parsed := seq(|replies|, k requires 0 <= k < |replies| => SplitReply(replies[k]));
    Exchanged(agent, Sent(agent), parsed, map[], map[])
  }

  /** While the conversation shares the agent's list, the task is sent after everything
      before it. */
  lemma RequestSendsAsk(a: Agent, ask: string, response: seq<Message>)
    requires Valid(a) && a.separate.None?
    ensures Request(a, ask, response).sent.messages == a.log + [Message(User, ask)]
  {
  }

  /** After `reset()` as written, the task never reaches the backend: the conversation
      sent is the system message alone, whatever was asked. */
  lemma ResetDropsAsk(a: Agent, ask: string, response: seq<Message>)
    requires Valid(a)
    ensures Request(Reset(a), ask, response).sent.messages == [a.log[0]]
    ensures Message(User, ask) !in Request(Reset(a), ask, response).sent.messages
  {
  }

  /** After the intended reset, the conversation sent is the system message and the task. */
  lemma ResetThenRequest(a: Agent, ask: string, response: seq<Message>)
    requires Valid(a)
    ensures Request(ResetIntended(a), ask, response).sent.messages == [a.log[0], Message(User, ask)]
  {
  }

  /** Resetting twice is resetting once, and a reset undoes any request made before it. */
  lemma ResetIdempotent(a: Agent, ask: string, response: seq<Message>)
    requires Valid(a)
    ensures ResetIntended(ResetIntended(a)) == ResetIntended(a)
    ensures ResetIntended(Request(a, ask, response).agent) == ResetIntended(a)
    ensures Sent(Reset(Reset(a))) == Sent(Reset(a))
    ensures Sent(Reset(Request(a, ask, response).agent)) == Sent(Reset(a))
  {
  }

  /** `countConversationTokens()`: the messages of the conversation plus the file tree. */
  function CountTokens(a: Agent): (n: nat)
    ensures n >= |Sent(a).messages| + 2 * |a.fileTree|
  {
    CountConversationTokens(Sent(a).messages, a.fileTree)
  }

  /** A request raises the count by the task's spaces plus one while the conversation
      shares the list, and leaves it unchanged once `reset()` as written has separated
      them. */
  lemma RequestCount(a: Agent, ask: string, response: seq<Message>)
    requires Valid(a)
    ensures a.separate.None? ==>
      CountTokens(Request(a, ask, response).agent) == CountTokens(a) + Count(ask, ' ') + 1
    ensures a.separate.Some? ==> CountTokens(Request(a, ask, response).agent) == CountTokens(a)
  {
    TokensAppend(a.log, Message(User, ask));
  }
}
