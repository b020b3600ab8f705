/** The word-count estimate both agents give their file tree. The tree is a sequence of
    (key, contents) entries in the order `Object.keys` lists them. */
module Counting {
  import opened Text
  import opened Messages
  import opened Markers

  /** The estimate of one file-tree entry, `📄 ${fileName}\n${file}\n`. */
  function FileEntry(name: string, content: string): string
  {
    [Char(FileUpdate)] + " " + name + "\n" + content + "\n"
  }

  /** An entry is estimated at the spaces in its name and its contents plus two: the
      space after the glyph always splits it. */
  lemma FileEntryWords(name: string, content: string)
    ensures WordCount(FileEntry(name, content)) == Count(name, ' ') + Count(content, ' ') + 2
  {
    var glyph := [Char(FileUpdate)];
    WordCountIsSpacesPlusOne(FileEntry(name, content));
    CountConcat(glyph, " ", ' ');
    CountConcat(glyph + " ", name, ' ');
    CountConcat(glyph + " " + name, "\n", ' ');
    CountConcat(glyph + " " + name + "\n", content, ' ');
    CountConcat(glyph + " " + name + "\n" + content, "\n", ' ');
  }

  /** The file-tree term of the count: the word counts of all entries, in key order.
      Each entry weighs at least two. */
  function TreeTokens(tree: seq<(string, string)>): (n: nat)
    ensures n >= 2 * |tree|
  {
    if tree == [] then 0
    else
      var last := tree[|tree| - 1];
      FileEntryWords(last.0, last.1);
      TreeTokens(tree[..|tree| - 1]) + WordCount(FileEntry(last.0, last.1))
  }

  /** `countConversationTokens()`: the messages' estimate plus the file tree's, so at
      least one per message and two per file. */
  function CountConversationTokens(messages: seq<Message>, tree: seq<(string, string)>): (n: nat)
    ensures n >= |messages| + 2 * |tree|
  {
    Tokens(messages) + TreeTokens(tree)
  }
}
