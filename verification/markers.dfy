/** The marker catalog of the reply protocol and the grammar that replies must match
    before anything is done with them. */
module Markers {
  import opened Wrappers
  import opened Text

  /** The five markers, named as in the source's delimiter table. */
  datatype Glyph = FileUpdate | Announcement | FileRequest | FileTree | TaskIn

  /** Each marker's glyph, a single code point. */
  function Char(g: Glyph): char
  {
    match g
    case FileUpdate => '\U{1F4C4}'    // 📄
    case Announcement => '\U{1F4E2}'  // 📢
    case FileRequest => '\U{1F4E4}'   // 📤
    case FileTree => '\U{1F333}'      // 🌳
    case TaskIn => '\U{1F4EC}'        // 📬
  }

  /** The delimiter table, in the order lookups search it. */
  const Table: seq<Glyph> := [FileUpdate, Announcement, FileRequest, FileTree, TaskIn]

  /** ⛔: the instructions ask the backend to answer a bad request with it, but the
      table has no entry for it. */
  const RejectChar: char := '\U{26D4}'

  predicate IsGlyphChar(c: char)
  {
    exists g: Glyph :: Char(g) == c
  }

  /** Distinct markers have distinct glyphs, so no glyph is a prefix of another. */
  lemma CharInjective(g: Glyph, h: Glyph)
    ensures Char(g) == Char(h) ==> g == h
  {
  }

  lemma TableComplete(g: Glyph)
    ensures g in Table
  {
  }

  /** The first entry of `table` whose glyph starts `s`
      (`legalEmojis.find(emoji => line.startsWith(emoji))`). */
  function FindIn(s: string, table: seq<Glyph>): (r: Option<Glyph>)
    ensures r.Some? ==> r.value in table && StartsWith(s, [Char(r.value)])
    ensures r.None? ==> forall k :: 0 <= k < |table| ==> !StartsWith(s, [Char(table[k])])
  {
    if table == [] then None
    else if StartsWith(s, [Char(table[0])]) then Some(table[0])
    else FindIn(s, table[1..])
  }

  /** The marker a string starts with, looked up in the delimiter table. */
  function Find(s: string): Option<Glyph>
  {
    FindIn(s, Table)
  }

  /** A string starts with a marker exactly when its first character is a glyph,
      and the marker found is the one with that glyph. */
  lemma FindFirstChar(s: string)
    ensures Find(s).Some? <==> s != [] && IsGlyphChar(s[0])
    ensures Find(s).Some? ==> Char(Find(s).value) == s[0]
  {
    if s != [] && IsGlyphChar(s[0]) {
      var g :| Char(g) == s[0];
      TableComplete(g);
      var k :| 0 <= k < |Table| && Table[k] == g;
      assert StartsWith(s, [Char(Table[k])]);
    }
  }

  /** `Title = (~Delimiters any)*`: the length of the longest marker-free run at the
      head of `s`. */
  function TitleLength(s: string): (n: nat)
    ensures n <= |s|
    ensures forall k :: 0 <= k < n ==> Find(s[k..]).None?
    ensures n < |s| ==> Find(s[n..]).Some?
    decreases |s|
  {
    if s == [] || Find(s).Some? then 0
    else
      var n := 1 + TitleLength(s[1..]);
      assert forall k :: 1 <= k <= |s| ==> s[1..][k - 1..] == s[k..];
      n
  }

  /** How much `(Delimiters Title)*` consumes at the head of `s`, each repetition
      taking one glyph and the title after it. */
  function PairsLength(s: string): (n: nat)
    ensures n <= |s|
    decreases |s|
  {
    match Find(s)
    case None => 0
    case Some(_) =>
      var t := 1 + TitleLength(s[1..]);
      t + PairsLength(s[t..])
  }

  /** The reply grammar `ResponseParserMessage = (Delimiters Title)+`, matched
      against the whole reply. */
  predicate Accepts(reply: string)
  {
    Find(reply).Some? && PairsLength(reply) == |reply|
  }

  /** From a glyph (or the end), the repetition consumes everything. */
  lemma {:induction false} PairsConsumeAll(s: string)
    requires s == [] || Find(s).Some?
    ensures PairsLength(s) == |s|
    decreases |s|
  {
    if s != [] {
      var t := 1 + TitleLength(s[1..]);
      assert s[1..][t - 1..] == s[t..];
      PairsConsumeAll(s[t..]);
    }
  }

  /** The grammar accepts a reply exactly when it begins with one of the five glyphs:
      a title swallows everything up to the next glyph, so no other shape is refused. */
  lemma AcceptsIff(reply: string)
    ensures Accepts(reply) <==> reply != [] && IsGlyphChar(reply[0])
  {
    FindFirstChar(reply);
    if Find(reply).Some? {
      PairsConsumeAll(reply);
    }
  }

  /** A reply of only ⛔ (with or without the newline the loop appends) is refused. */
  lemma RejectRefused()
    ensures !IsGlyphChar(RejectChar)
    ensures !Accepts([RejectChar]) && !Accepts([RejectChar, '\n'])
  {
    AcceptsIff([RejectChar]);
    AcceptsIff([RejectChar, '\n']);
  }
}
