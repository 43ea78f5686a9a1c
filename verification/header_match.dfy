/** The header-alias column match of the spreadsheet branch of
    `parse_single_file`: the column names are stripped, then every target
    field takes the first column that contains one of its aliases. */
module HeaderMatch {
  import opened TextUtil

  /** The column names as the loop sees them: `col.strip()`. */
  function StripAll(columns: seq<string>): (r: seq<string>)
    ensures |r| == |columns|
    ensures forall k :: 0 <= k < |r| ==> r[k] == Strip(columns[k])
  {
    seq(|columns|, k requires 0 <= k < |columns| => Strip(columns[k]))
  }

  /** `any(name in col for name in possible_names)` */
  predicate Qualifies(column: string, aliases: seq<string>)
  {
    ContainsAny(column, aliases)
  }

  /** The first column containing one of the aliases (the loop breaks there). */
  function MatchColumn(columns: seq<string>, aliases: seq<string>): (m: Option<string>)
    ensures m.None? <==> forall k :: 0 <= k < |columns| ==> !Qualifies(columns[k], aliases)
    ensures m.Some? ==> exists k :: 0 <= k < |columns| && m.value == columns[k]
                          && Qualifies(columns[k], aliases)
                          && forall j :: 0 <= j < k ==> !Qualifies(columns[j], aliases)
  {
    var k := FirstIndex(columns, (c: string) => Qualifies(c, aliases));
    if k < |columns| then Some(columns[k]) else None
  }

  /** `matched_cols`: every target with a qualifying column, mapped to the
      first such column.  The targets are the keys of a dict, so the order
      in which they are tried does not matter. */
  function MatchColumns(mapping: map<string, seq<string>>, rawColumns: seq<string>): (m: map<string, string>)
    ensures m.Keys <= mapping.Keys
    ensures forall t :: t in mapping ==>
              (t in m <==> exists k :: 0 <= k < |rawColumns| && Qualifies(Strip(rawColumns[k]), mapping[t]))
    ensures forall t :: t in m ==> MatchColumn(StripAll(rawColumns), mapping[t]) == Some(m[t])
  {
    var cols := StripAll(rawColumns);
    map t | t in mapping && MatchColumn(cols, mapping[t]).Some? :: MatchColumn(cols, mapping[t]).value
  }

  /** A column whose stripped name is itself an alias guarantees a match. */
  lemma AliasColumnMatches(rawColumns: seq<string>, aliases: seq<string>, k: nat)
    requires k < |rawColumns| && Strip(rawColumns[k]) in aliases
    ensures MatchColumn(StripAll(rawColumns), aliases).Some?
  {
    var cols := StripAll(rawColumns);
    var a :| a in aliases && a == cols[k];
    var i :| 0 <= i < |aliases| && aliases[i] == a;
    ContainsAt(cols[k], a, 0);
    assert cols[k][0..|a|] == a;
    assert Qualifies(cols[k], aliases);
  }
}
