/** The two `parseFromDelimiters` compared: with one-character delimiters, the
    substring scan of `CodeUpdateAgent` and the character scan of `Agent` find the same
    delimiters and keep the same text. */
module Splitters {
  import opened Wrappers
  import opened Text
  import CodeUpdateAgent
  import ParsedPrompt

  predicate SingleChars(ds: seq<string>)
  {
    forall k :: 0 <= k < |ds| ==> |ds[k]| == 1
  }

  /** With one-character delimiters, `find` at a position returns that position's
      character exactly when it is in the list. */
  lemma {:induction false} FindPrefixSingle(ds: seq<string>, s: string)
    requires SingleChars(ds) && s != []
    ensures CodeUpdateAgent.FindPrefix(ds, s) == if ParsedPrompt.IsDelimiter(ds, s[0]) then Some([s[0]]) else None
    decreases |ds|
  {
    if ds != [] {
      assert |ds[0]| == 1;
      assert StartsWith(s, ds[0]) <==> ds[0] == [s[0]];
      FindPrefixSingle(ds[1..], s);
      assert ParsedPrompt.IsDelimiter(ds, s[0]) <==> ds[0] == [s[0]] || ParsedPrompt.IsDelimiter(ds[1..], s[0]);
    }
  }

  /** The character scan's reference definitions read from the front. */
  lemma {:induction false} FrontUnfold(ds: seq<string>, c: char, t: string)
    ensures ParsedPrompt.DelimitersIn(ds, [c] + t)
         == (if ParsedPrompt.IsDelimiter(ds, c) then [[c]] else []) + ParsedPrompt.DelimitersIn(ds, t)
    ensures ParsedPrompt.Kept(ds, [c] + t)
         == (if ParsedPrompt.IsDelimiter(ds, c) then [] else [c]) + ParsedPrompt.Kept(ds, t)
    decreases |t|
  {
    if t != [] {
      var t' := t[..|t| - 1];
      assert ([c] + t)[..|[c] + t| - 1] == [c] + t';
      assert ([c] + t)[|[c] + t| - 1] == t[|t| - 1];
      FrontUnfold(ds, c, t');
    }
  }

  /** With one-character delimiters, both scans match the same delimiters in the same
      order and strip the same characters. */
  lemma {:induction false} SameMatches(ds: seq<string>, s: string)
    requires SingleChars(ds)
    ensures CodeUpdateAgent.Matches(ds, s) == ParsedPrompt.DelimitersIn(ds, s)
    ensures CodeUpdateAgent.Stripped(ds, s) == ParsedPrompt.Kept(ds, s)
    decreases |s|
  {
    if s != [] {
      FindPrefixSingle(ds, s);
      SameMatches(ds, s[1..]);
      FrontUnfold(ds, s[0], s[1..]);
      assert [s[0]] + s[1..] == s;
    }
  }
}
