/** Conversation messages and the word-count token estimate shared by both agents. */
module Messages {
  import opened Text

  datatype Role = System | User | Assistant

  datatype Message = Message(role: Role, content: string)

  /** The estimate for one message: `content.split(" ").length`. */
  function WordCount(content: string): nat
  {
    |Split(content, ' ')|
  }

  /** The conversation estimate: the word counts of all messages, added up in order. */
  function Tokens(messages: seq<Message>): (n: nat)
    ensures n >= |messages|
  {
    if messages == [] then 0
    else Tokens(messages[..|messages| - 1]) + WordCount(messages[|messages| - 1].content)
  }

  /** A message is estimated at one more than the number of spaces in it. */
  lemma WordCountIsSpacesPlusOne(content: string)
    ensures WordCount(content) == Count(content, ' ') + 1
  {
    SplitCount(content, ' ');
  }

  /** Appending a message raises the estimate by that message's spaces plus one,
      so the estimate never falls as the conversation grows. */
  lemma TokensAppend(messages: seq<Message>, m: Message)
    ensures Tokens(messages + [m]) == Tokens(messages) + Count(m.content, ' ') + 1
    ensures Tokens(messages + [m]) > Tokens(messages)
  {
    assert (messages + [m])[..|messages|] == messages;
    WordCountIsSpacesPlusOne(m.content);
  }

  /** The estimate of two conversations placed end to end is the sum of their estimates. */
  lemma {:induction false} TokensConcat(a: seq<Message>, b: seq<Message>)
    ensures Tokens(a + b) == Tokens(a) + Tokens(b)
    decreases |b|
  {
    if b == [] {
      assert a + b == a;
    } else {
      var b' := b[..|b| - 1];
      assert (a + b)[..|a + b| - 1] == a + b';
      TokensConcat(a, b');
    }
  }
}
