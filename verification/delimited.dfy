/** The `{delimiter, value}` records both agents' splitters produce, and how a list of
    them reads back as text. */
module Delimited {
  /** A piece of text and the delimiter it is labelled with. */
  datatype DelimiterValue = DelimiterValue(delimiter: string, value: string)

  /** The values, in order, run together. */
  function Values(rs: seq<DelimiterValue>): string
  {
    if rs == [] then [] else Values(rs[..|rs| - 1]) + rs[|rs| - 1].value
  }

  /** Each value followed by its delimiter, in order, run together. */
  function Joined(rs: seq<DelimiterValue>): string
  {
    if rs == [] then [] else Joined(rs[..|rs| - 1]) + rs[|rs| - 1].value + rs[|rs| - 1].delimiter
  }

  function Labels(rs: seq<DelimiterValue>): (r: seq<string>)
    ensures |r| == |rs|
  {
    if rs == [] then [] else Labels(rs[..|rs| - 1]) + [rs[|rs| - 1].delimiter]
  }

  lemma AppendValue(rs: seq<DelimiterValue>, r: DelimiterValue)
    ensures Values(rs + [r]) == Values(rs) + r.value
    ensures Joined(rs + [r]) == Joined(rs) + r.value + r.delimiter
    ensures Labels(rs + [r]) == Labels(rs) + [r.delimiter]
  {
    assert (rs + [r])[..|rs|] == rs;
  }
}
