/** `CodeUpdateAgent`: its substring-scanning `parseFromDelimiters`, its token count,
    and how `request` assembles the prompt for a fresh `SemanticPrompt`. The project
    file tree is given as ordered (relative path, contents) entries. */
module CodeUpdateAgent {
  import opened Wrappers
  import opened Text
  import opened Delimited
  import opened Counting
  import opened Messages
  import opened Markers
  import opened Dispatch
  import opened Exchange

  predicate NonEmptyDelimiters(ds: seq<string>)
  {
    forall k :: 0 <= k < |ds| ==> ds[k] != []
  }

  /** `delimiters.find(d => s.startsWith(d))`: the first delimiter `s` starts with. */
  function FindPrefix(ds: seq<string>, s: string): (r: Option<string>)
    ensures r.Some? ==> r.value in ds && StartsWith(s, r.value)
    ensures (exists k :: 0 <= k < |ds| && StartsWith(s, ds[k])) ==> r.Some?
  {
    if ds == [] then None
    else if StartsWith(s, ds[0]) then Some(ds[0])
    else
      var r := FindPrefix(ds[1..], s);
      assert forall k :: 1 <= k < |ds| ==> ds[k] == ds[1..][k - 1];
      r
  }

  /** `d` is the first delimiter of the list, in list order, that `s` starts with. */
  predicate FirstPrefix(ds: seq<string>, s: string, d: string)
  {
    exists k :: 0 <= k < |ds| && ds[k] == d && StartsWith(s, d) && forall j :: 0 <= j < k ==> !StartsWith(s, ds[j])
  }

  /** `find` returns the first delimiter in list order that `s` starts with, so when two
      delimiters both match, the earlier one in the list wins. */
  lemma {:induction false} FindPrefixFirst(ds: seq<string>, s: string, d: string)
    ensures FindPrefix(ds, s) == Some(d) <==> FirstPrefix(ds, s, d)
  {
    FindPrefixFirstFound(ds, s);
    if FirstPrefix(ds, s, d) {
      var k :| 0 <= k < |ds| && ds[k] == d && StartsWith(s, d) && forall j :: 0 <= j < k ==> !StartsWith(s, ds[j]);
      var r := FindPrefix(ds, s).value;
      var k' :| 0 <= k' < |ds| && ds[k'] == r && StartsWith(s, r) && forall j :: 0 <= j < k' ==> !StartsWith(s, ds[j]);
      assert !(k' < k) && !(k < k');
    }
  }

  /** The direction from `find` to the list: what it returns is the first match. */
  lemma {:induction false} FindPrefixFirstFound(ds: seq<string>, s: string)
    ensures FindPrefix(ds, s).Some? ==> FirstPrefix(ds, s, FindPrefix(ds, s).value)
    decreases |ds|
  {
    if ds != [] && !StartsWith(s, ds[0]) {
      var rest := ds[1..];
      FindPrefixFirstFound(rest, s);
      if FindPrefix(rest, s).Some? {
        var d := FindPrefix(rest, s).value;
        var k :| 0 <= k < |rest| && rest[k] == d && StartsWith(s, d) && forall j :: 0 <= j < k ==> !StartsWith(s, rest[j]);
        assert ds[k + 1] == d;
        assert forall j :: 0 <= j < k + 1 ==> !StartsWith(s, ds[j]) by {
          forall j | 0 <= j < k + 1
            ensures !StartsWith(s, ds[j])
          {
            if j > 0 {
              assert ds[j] == rest[j - 1];
            }
          }
        }
      }
    }
  }

  /** `find` comes back empty exactly when `s` starts with none of the delimiters. */
  lemma FindPrefixNone(ds: seq<string>, s: string)
    ensures FindPrefix(ds, s).None? <==> forall k :: 0 <= k < |ds| ==> !StartsWith(s, ds[k])
  {
  }

  /** The test `if (matchedDelimiter)`: what `find` returns counts only when it is a
      non-empty string, since `''` is falsy. */
  function Matched(ds: seq<string>, s: string): (r: Option<string>)
    ensures r.Some? ==> r.value != [] && r.value in ds && StartsWith(s, r.value)
  {
    match FindPrefix(ds, s)
    case Some(d) => if d == [] then None else Some(d)
    case None => None
  }

  /** With no empty delimiter in the table, truthiness makes no difference. */
  lemma MatchedNonEmpty(ds: seq<string>, s: string)
    requires NonEmptyDelimiters(ds)
    ensures Matched(ds, s) == FindPrefix(ds, s)
  {
  }

  /** No delimiter occurs anywhere in `v`. */
  predicate NoOccurrence(ds: seq<string>, v: string)
  {
    forall q, k :: 0 <= q < |v| && 0 <= k < |ds| ==> !StartsWith(v[q..], ds[k])
  }

  /** The delimiter occurrences a left-to-right scan matches: at each position the
      first delimiter found is taken and the scan resumes after it. */
  function Matches(ds: seq<string>, s: string): seq<string>
    decreases |s|
  {
    if s == [] then []
    else
      match Matched(ds, s)
      case Some(d) => [d] + Matches(ds, s[|d|..])
      case None => Matches(ds, s[1..])
  }

  /** `s` with the occurrences the scan matches removed. */
  function Stripped(ds: seq<string>, s: string): string
    decreases |s|
  {
    if s == [] then []
    else
      match Matched(ds, s)
      case Some(d) => Stripped(ds, s[|d|..])
      case None => [s[0]] + Stripped(ds, s[1..])
  }

  /** No delimiter starts at position `p` of `input`. */
  predicate Free(ds: seq<string>, input: string, p: nat)
    requires p <= |input|
  {
    Matched(ds, input[p..]).None?
  }

  /** No delimiter starts anywhere in `input[a..b]`. */
  predicate FreeBetween(ds: seq<string>, input: string, a: nat, b: nat)
    requires b <= |input|
  {
    forall p :: a <= p < b ==> Free(ds, input, p)
  }

  /** A delimiter starting inside a stretch of the input starts there in the input too. */
  lemma StartsWithinStretch(input: string, a: nat, b: nat, q: nat, d: string)
    requires a + q <= b <= |input|
    requires StartsWith(input[a..b][q..], d)
    ensures StartsWith(input[a + q..], d)
  {
    assert input[a..b][q..] == input[a + q..b];
    assert input[a + q..][..|d|] == input[a + q..b][..|d|];
  }

  /** A stretch of the input at none of whose positions a delimiter starts contains no
      delimiter (and neither does an empty slice). */
  lemma FreeStretch(ds: seq<string>, input: string, a: nat, b: nat)
    requires NonEmptyDelimiters(ds)
    requires b <= |input|
    requires FreeBetween(ds, input, a, b)
    ensures NoOccurrence(ds, Slice(input, a, b))
  {
    if a <= b {
      var v := input[a..b];
      forall q, k | 0 <= q < |v| && 0 <= k < |ds|
        ensures !StartsWith(v[q..], ds[k])
      {
        assert Free(ds, input, a + q);
        if StartsWith(v[q..], ds[k]) {
          StartsWithinStretch(input, a, b, q, ds[k]);
          MatchedNonEmpty(ds, input[a + q..]);
          FindPrefixNone(ds, input[a + q..]);
        }
      }
    }
  }

  /** How the scan's reference definitions unfold at a position where a delimiter starts. */
  lemma MatchUnfold(ds: seq<string>, input: string, i: nat, d: string)
    requires i < |input| && Matched(ds, input[i..]) == Some(d)
    ensures i + |d| <= |input|
    ensures Matches(ds, input[i..]) == [d] + Matches(ds, input[i + |d|..])
    ensures Stripped(ds, input[i..]) == Stripped(ds, input[i + |d|..])
    ensures input[..i + |d|] == input[..i] + d
  {
    assert input[i..][|d|..] == input[i + |d|..];
  }

  /** How they unfold at a position where none does. */
  lemma SkipUnfold(ds: seq<string>, input: string, i: nat)
    requires i < |input| && Matched(ds, input[i..]).None?
    ensures Matches(ds, input[i..]) == Matches(ds, input[i + 1..])
    ensures Stripped(ds, input[i..]) == [input[i]] + Stripped(ds, input[i + 1..])
    ensures input[..i + 1] == input[..i] + [input[i]]
  {
    assert input[i..][1..] == input[i + 1..];
  }

  /** The labels recorded so far, followed by the matches still ahead, are all the matches. */
  predicate LabelsSoFar(ds: seq<string>, input: string, i: nat, result: seq<DelimiterValue>)
  {
    i <= |input| && Labels(result) + Matches(ds, input[i..]) == Matches(ds, input)
  }

  /** The values recorded so far, the pending text and what remains once stripped make up
      the whole stripped input. */
  predicate ValuesSoFar(ds: seq<string>, input: string, i: nat, start: nat, result: seq<DelimiterValue>)
  {
    i <= |input| && Values(result) + Slice(input, start, i) + Stripped(ds, input[i..]) == Stripped(ds, input)
  }

  /** The records so far and the pending text join back to the input scanned. */
  predicate JoinedSoFar(input: string, i: nat, start: nat, result: seq<DelimiterValue>)
  {
    i <= |input| && Joined(result) + Slice(input, start, i) == input[..i]
  }

  predicate AllClean(ds: seq<string>, result: seq<DelimiterValue>)
  {
    forall k :: 0 <= k < |result| ==> NoOccurrence(ds, result[k].value)
  }

  lemma ConcatAssoc<T>(a: seq<T>, b: seq<T>, c: seq<T>)
    ensures (a + b) + c == a + (b + c)
  {
  }

  lemma LabelsMatch(ds: seq<string>, input: string, i: nat, result: seq<DelimiterValue>, d: string, value: string)
    requires LabelsSoFar(ds, input, i, result)
    requires i < |input| && Matched(ds, input[i..]) == Some(d)
    ensures LabelsSoFar(ds, input, i + |d|, result + [DelimiterValue(d, value)])
  {
    MatchUnfold(ds, input, i, d);
    AppendValue(result, DelimiterValue(d, value));
    ConcatAssoc(Labels(result), [d], Matches(ds, input[i + |d|..]));
  }

  lemma LabelsSkip(ds: seq<string>, input: string, i: nat, result: seq<DelimiterValue>)
    requires LabelsSoFar(ds, input, i, result)
    requires i < |input| && Matched(ds, input[i..]).None?
    ensures LabelsSoFar(ds, input, i + 1, result)
  {
    SkipUnfold(ds, input, i);
  }

  lemma ValuesMatch(ds: seq<string>, input: string, i: nat, start: nat, result: seq<DelimiterValue>, d: string)
    requires ValuesSoFar(ds, input, i, start, result)
    requires i < |input| && Matched(ds, input[i..]) == Some(d)
    ensures ValuesSoFar(ds, input, i + |d|, i + |d|, result + [DelimiterValue(d, Slice(input, start, i))])
  {
    MatchUnfold(ds, input, i, d);
    var value := Slice(input, start, i);
    AppendValue(result, DelimiterValue(d, value));
    assert Slice(input, i + |d|, i + |d|) == [];
  }

  lemma ValuesSkip(ds: seq<string>, input: string, i: nat, start: nat, result: seq<DelimiterValue>)
    requires ValuesSoFar(ds, input, i, start, result)
    requires start <= i < |input| && Matched(ds, input[i..]).None?
    ensures ValuesSoFar(ds, input, i + 1, start, result)
  {
    SkipUnfold(ds, input, i);
    var pending := Slice(input, start, i);
    var rest := Stripped(ds, input[i + 1..]);
    assert Slice(input, start, i + 1) == pending + [input[i]];
    assert Values(result) + (pending + [input[i]]) + rest == Values(result) + pending + ([input[i]] + rest);
  }

  lemma JoinedMatch(input: string, i: nat, start: nat, result: seq<DelimiterValue>, d: string)
    requires JoinedSoFar(input, i, start, result)
    requires i + |d| <= |input| && input[i..i + |d|] == d
    ensures JoinedSoFar(input, i + |d|, i + |d|, result + [DelimiterValue(d, Slice(input, start, i))])
  {
    AppendValue(result, DelimiterValue(d, Slice(input, start, i)));
    assert Slice(input, i + |d|, i + |d|) == [];
    assert input[..i + |d|] == input[..i] + input[i..i + |d|];
  }

  /** Text that, after `prefix`, spells out `input` up to `i` still does so one
      character further on. */
  lemma GrowPrefix(prefix: string, input: string, start: nat, i: nat)
    requires start <= i < |input| && prefix + Slice(input, start, i) == input[..i]
    ensures prefix + Slice(input, start, i + 1) == input[..i + 1]
  {
    var pending := input[start..i];
    assert Slice(input, start, i + 1) == pending + [input[i]];
    assert input[..i + 1] == input[..i] + [input[i]];
    ConcatAssoc(prefix, pending, [input[i]]);
  }

  lemma JoinedSkip(input: string, i: nat, start: nat, result: seq<DelimiterValue>)
    requires JoinedSoFar(input, i, start, result)
    requires start <= i < |input|
    ensures JoinedSoFar(input, i + 1, start, result)
  {
    GrowPrefix(Joined(result), input, start, i);
  }

  lemma CleanAppend(ds: seq<string>, result: seq<DelimiterValue>, r: DelimiterValue)
    requires AllClean(ds, result) && NoOccurrence(ds, r.value)
    ensures AllClean(ds, result + [r])
  {
    forall k | 0 <= k < |result| + 1
      ensures NoOccurrence(ds, (result + [r])[k].value)
    {
      if k < |result| {
        assert (result + [r])[k] == result[k];
      }
    }
  }

  /** What holds of the scan in `parseFromDelimiters` before it looks at position `i`:
      `result` labels the matches found so far and joins back to the input scanned, the
      text since the last match is `Slice(input, start, i)` and holds no delimiter, and
      `delimiter` is the last delimiter matched (or `''`). */
  predicate ScanState(ds: seq<string>, input: string, i: nat, start: nat, first: Option<string>,
                      result: seq<DelimiterValue>, delimiter: string)
  {
    && i <= |input|
    && first == Matched(ds, input)
    && (start <= i || (i == 0 && first.Some?))
    && (i == 0 ==> result == [])
    && (i > 0 && first.Some? ==> result != [] && result[0] == DelimiterValue(first.value, []))
    && LabelsSoFar(ds, input, i, result)
    && ValuesSoFar(ds, input, i, start, result)
    && JoinedSoFar(input, i, start, result)
    && FreeBetween(ds, input, start, i)
    && (NonEmptyDelimiters(ds) ==> AllClean(ds, result))
    && (result != [] ==> delimiter == result[|result| - 1].delimiter)
    && (result == [] && first.None? ==> delimiter == [])
  }

  /** A match at `i` records the delimiter with the text since the last match and
      resumes after it. */
  lemma ScanMatch(ds: seq<string>, input: string, i: nat, start: nat, first: Option<string>,
                  result: seq<DelimiterValue>, delimiter: string, d: string, i': nat, result': seq<DelimiterValue>)
    requires ScanState(ds, input, i, start, first, result, delimiter)
    requires i < |input| && Matched(ds, input[i..]) == Some(d)
    requires i' == i + |d| && result' == result + [DelimiterValue(d, Slice(input, start, i))]
    ensures ScanState(ds, input, i', i', first, result', d)
  {
    var r := DelimiterValue(d, Slice(input, start, i));
    assert StartsWith(input[i..], d);
    assert input[i..i + |d|] == input[i..][..|d|];
    LabelsMatch(ds, input, i, result, d, r.value);
    ValuesMatch(ds, input, i, start, result, d);
    JoinedMatch(input, i, start, result, d);
    if NonEmptyDelimiters(ds) {
      FreeStretch(ds, input, start, i);
      CleanAppend(ds, result, r);
    }
    if i == 0 {
      assert input[0..] == input;
    } else if first.Some? {
      assert (result + [r])[0] == result[0];
    }
  }

  /** Without a match at `i`, the character at `i` joins the pending text. */
  lemma ScanSkip(ds: seq<string>, input: string, i: nat, start: nat, first: Option<string>,
                 result: seq<DelimiterValue>, delimiter: string)
    requires ScanState(ds, input, i, start, first, result, delimiter)
    requires i < |input| && Matched(ds, input[i..]).None?
    ensures ScanState(ds, input, i + 1, start, first, result, delimiter)
  {
    assert i == 0 ==> first.None? by { assert input[0..] == input; }
    LabelsSkip(ds, input, i, result);
    ValuesSkip(ds, input, i, start, result);
    JoinedSkip(input, i, start, result);
    assert Free(ds, input, i);
  }

  /** Before the first position, the state is as `parseFromDelimiters` sets it up. */
  lemma ScanStart(ds: seq<string>, input: string)
    ensures var first := Matched(ds, input);
      var start := if first.Some? then |first.value| else 0;
      var delimiter := if first.Some? then first.value[..1] else [];
      ScanState(ds, input, 0, start, first, [], delimiter)
  {
    assert input[0..] == input;
    var first := Matched(ds, input);
    var start := if first.Some? then |first.value| else 0;
    assert Slice(input, start, 0) == [];
    assert input[..0] == [];
  }

  /** The shape of a `parseFromDelimiters` result: one record per scanned match, each
      pairing the match with the text before it, plus at most one trailing record; all
      of it joins back to the input, and no value contains a delimiter. */
  predicate SplitShape(ds: seq<string>, input: string, result: seq<DelimiterValue>)
  {
    var n := |Matches(ds, input)|;
    && n <= |result| <= n + 1
    && Labels(result[..n]) == Matches(ds, input)
    && Joined(result[..n]) + Values(result[n..]) == input
    && (|result| == n + 1 ==>
          result[n].value != [] && result[n].delimiter == (if n == 0 then [] else result[n - 1].delimiter))
    && Values(result) == Stripped(ds, input)
    && (NonEmptyDelimiters(ds) ==> AllClean(ds, result))
    && (Matched(ds, input).Some? ==>
          result != [] && result[0] == DelimiterValue(Matched(ds, input).value, []))
  }

  /** The edge cases of the shape: an empty input gives no records, and an input with no
      delimiter in it gives one record holding all of it, labelled `''`. */
  lemma ShapeEdges(ds: seq<string>, input: string, result: seq<DelimiterValue>)
    requires SplitShape(ds, input, result)
    ensures input == [] ==> result == []
    ensures input != [] && Matches(ds, input) == [] ==> result == [DelimiterValue([], input)]
  {
    if Matches(ds, input) == [] {
      assert result[..0] == [];
      assert result[0..] == result;
      if result != [] {
        assert Joined(result[..0]) == [];
        assert result == [] + [result[0]];
        AppendValue([], result[0]);
        assert Values(result) == result[0].value;
        assert result[0].value == input;
      }
    }
  }

  /** What the scan leaves behind once it has looked at every position: one record per
      match, with the pending text completing both readings of the input. */
  lemma ScanEndText(ds: seq<string>, input: string, start: nat, first: Option<string>,
                    result: seq<DelimiterValue>, delimiter: string)
    requires ScanState(ds, input, |input|, start, first, result, delimiter)
    ensures Labels(result) == Matches(ds, input)
    ensures Values(result) + Slice(input, start, |input|) == Stripped(ds, input)
    ensures Joined(result) + Slice(input, start, |input|) == input
  {
    assert input[|input|..] == [];
    assert input[..|input|] == input;
  }

  /** The pending text left at the end holds no delimiter, and neither does any record. */
  lemma ScanEndClean(ds: seq<string>, input: string, start: nat, first: Option<string>,
                     result: seq<DelimiterValue>, delimiter: string)
    requires ScanState(ds, input, |input|, start, first, result, delimiter)
    requires NonEmptyDelimiters(ds)
    ensures AllClean(ds, result) && NoOccurrence(ds, Slice(input, start, |input|))
  {
    FreeStretch(ds, input, start, |input|);
  }

  /** At the end, a leading match has its empty record first, and `delimiter` is the
      label of the last record, or `''` when there is none. */
  lemma ScanEndLabels(ds: seq<string>, input: string, start: nat, first: Option<string>,
                      result: seq<DelimiterValue>, delimiter: string)
    requires ScanState(ds, input, |input|, start, first, result, delimiter)
    ensures first == Matched(ds, input)
    ensures first.Some? ==> result != [] && result[0] == DelimiterValue(first.value, [])
    ensures result != [] ==> delimiter == result[|result| - 1].delimiter
    ensures result == [] ==> delimiter == []
  {
  }

  /** With no pending text, the records are exactly one per match. */
  lemma FinishExact(ds: seq<string>, input: string, result: seq<DelimiterValue>)
    requires Labels(result) == Matches(ds, input)
    requires Values(result) == Stripped(ds, input)
    requires Joined(result) == input
    requires NonEmptyDelimiters(ds) ==> AllClean(ds, result)
    requires Matched(ds, input).Some? ==> result != [] && result[0] == DelimiterValue(Matched(ds, input).value, [])
    ensures SplitShape(ds, input, result)
  {
    var n := |Matches(ds, input)|;
    assert result[..n] == result;
    assert result[n..] == [];
  }

  /** Pending text after the last match becomes one more record, labelled with the last
      delimiter matched. */
  lemma FinishTrailing(ds: seq<string>, input: string, result: seq<DelimiterValue>, delimiter: string, pending: string)
    requires pending != []
    requires Labels(result) == Matches(ds, input)
    requires Values(result) + pending == Stripped(ds, input)
    requires Joined(result) + pending == input
    requires NonEmptyDelimiters(ds) ==> AllClean(ds, result) && NoOccurrence(ds, pending)
    requires Matched(ds, input).Some? ==> result != [] && result[0] == DelimiterValue(Matched(ds, input).value, [])
    requires result != [] ==> delimiter == result[|result| - 1].delimiter
    requires result == [] ==> delimiter == []
    ensures SplitShape(ds, input, result + [DelimiterValue(delimiter, pending)])
  {
    var n := |result|;
    var last := DelimiterValue(delimiter, pending);
    var final := result + [last];
    assert final[..n] == result;
    assert final[n..] == [last];
    assert Values([last]) == pending by {
      AppendValue([], last);
    }
    AppendValue(result, last);
    if NonEmptyDelimiters(ds) {
      CleanAppend(ds, result, last);
    }
    if result != [] {
      assert final[0] == result[0];
    }
  }

  /** After the scan: pending text, if any, becomes the trailing record. */
  method Finish(ds: seq<string>, input: string, start: nat, first: Option<string>,
                result: seq<DelimiterValue>, delimiter: string)
    returns (final: seq<DelimiterValue>)
    requires ScanState(ds, input, |input|, start, first, result, delimiter)
    ensures SplitShape(ds, input, final)
  {
    ScanEndText(ds, input, start, first, result, delimiter);
    ScanEndLabels(ds, input, start, first, result, delimiter);
    if NonEmptyDelimiters(ds) {
      ScanEndClean(ds, input, start, first, result, delimiter);
    }
    if start < |input| {
      final := result + [DelimiterValue(delimiter, input[start..])];
      FinishTrailing(ds, input, result, delimiter, input[start..]);
    } else {
      final := result;
      assert Values(result) + [] == Values(result) && Joined(result) + [] == Joined(result);
      FinishExact(ds, input, result);
    }
  }

  /** One turn of the scan loop at position `i`: on a match, record it and jump past it;
      otherwise move on by one character. */
  method ScanStep(ds: seq<string>, input: string, i: nat, start: nat, first: Option<string>,
                  result: seq<DelimiterValue>, delimiter: string)
    returns (i': nat, start': nat, result': seq<DelimiterValue>, delimiter': string)
    requires ScanState(ds, input, i, start, first, result, delimiter)
    requires i < |input|
    ensures ScanState(ds, input, i', start', first, result', delimiter')
    ensures i < i'
  {
    var matched := Matched(ds, input[i..]);
    if matched.Some? {
      i', start', result', delimiter' := MatchStep(ds, input, i, start, first, result, delimiter, matched.value);
    } else {
      i', start', result', delimiter' := SkipStep(ds, input, i, start, first, result, delimiter);
    }
  }

  /** No match at `i`: move on by one character. */
  method SkipStep(ds: seq<string>, input: string, i: nat, start: nat, first: Option<string>,
                  result: seq<DelimiterValue>, delimiter: string)
    returns (i': nat, start': nat, result': seq<DelimiterValue>, delimiter': string)
    requires ScanState(ds, input, i, start, first, result, delimiter)
    requires i < |input| && Matched(ds, input[i..]).None?
    ensures ScanState(ds, input, i', start', first, result', delimiter')
    ensures i < i'
  {
      ScanSkip(ds, input, i, start, first, result, delimiter);
      i', start', result', delimiter' := i + 1, start, result, delimiter;
  }

  /** A match at `i`: record it with the text since the last match and jump past it,
      `i += delimiter.length - 1` followed by the loop's own `i++`. */
  method MatchStep(ds: seq<string>, input: string, i: nat, start: nat, first: Option<string>,
                  result: seq<DelimiterValue>, delimiter: string, d: string)
    returns (i': nat, start': nat, result': seq<DelimiterValue>, delimiter': string)
    requires ScanState(ds, input, i, start, first, result, delimiter)
    requires i < |input| && Matched(ds, input[i..]) == Some(d)
    ensures ScanState(ds, input, i', start', first, result', delimiter')
    ensures i < i'
  {
      result' := result + [DelimiterValue(d, Slice(input, start, i))];
      delimiter' := d;
      i' := i + |d|;
      start' := i';
      ScanMatch(ds, input, i, start, first, result, delimiter, d, i', result');
  }

  /** `parseFromDelimiters(input, delimiters)`: a scan that, at each position where some
      delimiter starts, records that delimiter with the text since the previous match,
      then jumps past it; text after the last match becomes a final record labelled with
      the last delimiter matched, or `''` if none was. */
  method ParseFromDelimiters(input: string, delimiters: seq<string>) returns (result: seq<DelimiterValue>)
    ensures var n := |Matches(delimiters, input)|;
      && n <= |result| <= n + 1
      && Labels(result[..n]) == Matches(delimiters, input)
      && Joined(result[..n]) + Values(result[n..]) == input
      && (|result| == n + 1 ==>
            result[n].value != [] && result[n].delimiter == (if n == 0 then [] else result[n - 1].delimiter))
    ensures Values(result) == Stripped(delimiters, input)
    ensures NonEmptyDelimiters(delimiters) ==> forall k :: 0 <= k < |result| ==> NoOccurrence(delimiters, result[k].value)
    ensures Matched(delimiters, input).Some? ==>
      result != [] && result[0] == DelimiterValue(Matched(delimiters, input).value, [])
    ensures input == [] ==> result == []
    ensures input != [] && Matches(delimiters, input) == [] ==> result == [DelimiterValue([], input)]
  {
    result := [];
    var start: nat := 0;
    var delimiter := "";
    var first := Matched(delimiters, input);
    if first.Some? {
      delimiter := first.value[..1];
      start := |first.value|;
    }
    ScanStart(delimiters, input);
    var i: nat := 0;
    while i < |input|
      invariant ScanState(delimiters, input, i, start, first, result, delimiter)
      decreases |input| - i
    {
      i, start, result, delimiter := ScanStep(delimiters, input, i, start, first, result, delimiter);
    }
    result := Finish(delimiters, input, start, first, result, delimiter);
    ShapeEdges(delimiters, input, result);
  }

  /** One user message per file-tree entry, in key order. */
  function EntryMessages(tree: seq<(string, string)>): (r: seq<Message>)
    ensures |r| == |tree|
    ensures forall k :: 0 <= k < |tree| ==> r[k] == Message(User, FileEntry(tree[k].0, tree[k].1))
  {
    if tree == [] then []
    else EntryMessages(tree[..|tree| - 1]) + [Message(User, FileEntry(tree[|tree| - 1].0, tree[|tree| - 1].1))]
  }

  /** The file messages `request` adds are estimated exactly as `countConversationTokens`
      estimates the file tree. */
  lemma {:induction false} EntryMessagesTokens(tree: seq<(string, string)>)
    ensures Tokens(EntryMessages(tree)) == TreeTokens(tree)
    decreases |tree|
  {
    if tree != [] {
      var init := tree[..|tree| - 1];
      var last := tree[|tree| - 1];
      EntryMessagesTokens(init);
      TokensAppend(EntryMessages(init), Message(User, FileEntry(last.0, last.1)));
      WordCountIsSpacesPlusOne(FileEntry(last.0, last.1));
    }
  }

  function TaskMessage(ask: string): Message
  {
    Message(User, [Char(TaskIn)] + " " + ask)
  }

  function TreeMessage(names: seq<string>): Message
  {
    Message(User, [Char(FileTree)] + " " + Join(names, "\n"))
  }

  /** The conversation `request(ask)` gives a fresh `SemanticPrompt`: the task, the
      listing of file names, and one message per file-tree entry, all from the user and
      with no system message. A blank task gives nothing. */
  function Prompt(ask: string, names: seq<string>, tree: seq<(string, string)>): (r: Option<seq<Message>>)
    ensures r.None? <==> forall k :: 0 <= k < |ask| ==> IsSpace(ask[k])
    ensures r.Some? ==> |r.value| == 2 + |tree| && forall k :: 0 <= k < |r.value| ==> r.value[k].role == User
    ensures r.Some? ==> r.value[..2] == [TaskMessage(ask), TreeMessage(names)] && r.value[2..] == EntryMessages(tree)
  {
    TrimEmpty(ask);
    if Trim(ask) == [] then None
    else
      var prompt := [TaskMessage(ask), TreeMessage(names)] + EntryMessages(tree);
      assert prompt[2..] == EntryMessages(tree);
      Some(prompt)
  }

  /** The estimate the exchange loop checks first is `countConversationTokens` of the
      two leading messages and the file tree. */
  lemma PromptTokens(ask: string, names: seq<string>, tree: seq<(string, string)>)
    requires Prompt(ask, names, tree).Some?
    ensures Tokens(Prompt(ask, names, tree).value)
         == CountConversationTokens([TaskMessage(ask), TreeMessage(names)], tree)
  {
    var prompt := Prompt(ask, names, tree).value;
    assert prompt == prompt[..2] + prompt[2..];
    TokensConcat(prompt[..2], prompt[2..]);
    EntryMessagesTokens(tree);
  }

  /** `request(ask)`: build the prompt and run `execute()` on a fresh `SemanticPrompt`;
      a blank task returns without a call. The project files the handlers read and
      write are `files`. */
  function Request(ask: string, names: seq<string>, tree: seq<(string, string)>, files: map<string, string>,
                   replies: seq<Backend>, unwritable: set<string>): (r: Option<Execution>)
    ensures r.None? <==> forall k :: 0 <= k < |ask| ==> IsSpace(ask[k])
    ensures r.Some? ==>
      var count := CountConversationTokens([TaskMessage(ask), TreeMessage(names)], tree);
      && (r.value.requests == [] <==> count > Ceiling)
      && (count > Ceiling ==> r.value.outcome == ErrorValue(TooLong))
      && (r.value.requests != [] ==>
            r.value.requests[0].messages == Prompt(ask, names, tree).value
            && r.value.requests[0].maxTokens == MaxTokens(count))
  {
    match Prompt(ask, names, tree)
    case None => None
    case Some(prompt) =>
      PromptTokens(ask, names, tree);
      var e := Execute(Session(prompt, [], false, files), replies, unwritable);
      assert e.requests != [] ==> WithinBudget(e.requests[0]);
      Some(e)
  }

  /** However large the tree, a request never asks for more than the ceiling allows in
      all: prompt and answer together stay within 8192. */
  lemma RequestBudget(ask: string, names: seq<string>, tree: seq<(string, string)>, files: map<string, string>,
                      replies: seq<Backend>, unwritable: set<string>)
    requires Request(ask, names, tree, files, replies, unwritable).Some?
    ensures var e := Request(ask, names, tree, files, replies, unwritable).value;
      forall k :: 0 <= k < |e.requests| ==>
        Tokens(e.requests[k].messages) + e.requests[k].maxTokens <= Ceiling
  {
    var e := Request(ask, names, tree, files, replies, unwritable).value;
    forall k | 0 <= k < |e.requests|
      ensures Tokens(e.requests[k].messages) + e.requests[k].maxTokens <= Ceiling
    {
      assert WithinBudget(e.requests[k]);
    }
  }

  /** A scan whose first delimiter is `''` never matches: `find` always returns the
      falsy empty string, so the whole input is text. */
  lemma {:induction false} EmptyFirstDelimiter(ds: seq<string>, s: string)
    requires ds != [] && ds[0] == []
    ensures Matches(ds, s) == [] && Stripped(ds, s) == s
    decreases |s|
  {
    if s != [] {
      assert StartsWith(s, ds[0]);
      EmptyFirstDelimiter(ds, s[1..]);
      assert s == [s[0]] + s[1..];
    }
  }
}
