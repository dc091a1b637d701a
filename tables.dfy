/** Helpers for reading a table whose column names vary between exports: choosing the
    first available column name (`_pick`) and the CSV reader's separator rule. */
module Tables {
  import opened Common

  /** `c` is the first of `opts` that is a column of the table. */
  predicate FirstPresent(columns: seq<string>, opts: seq<string>, c: string)
  {
    exists k :: 0 <= k < |opts| && opts[k] == c && c in columns
      && forall j :: 0 <= j < k ==> opts[j] !in columns
  }

  /** `_pick(df, opts)`: scans `opts` in order and returns the first name that is a column,
      or nothing when none is. */
  method Pick(columns: seq<string>, opts: seq<string>) returns (r: Option<string>)
    ensures r.None? <==> forall k :: 0 <= k < |opts| ==> opts[k] !in columns
    ensures r.Some? ==> FirstPresent(columns, opts, r.value)
  {
    for k := 0 to |opts|
      invariant forall j :: 0 <= j < k ==> opts[j] !in columns
    {
      if opts[k] in columns {
        return Some(opts[k]);
      }
    }
    return None;
  }

  /** Only one name can be the first present one. */
  lemma FirstPresentUnique(columns: seq<string>, opts: seq<string>, c: string, d: string)
    requires FirstPresent(columns, opts, c) && FirstPresent(columns, opts, d)
    ensures c == d
  {
    var k :| 0 <= k < |opts| && opts[k] == c && c in columns && forall j :: 0 <= j < k ==> opts[j] !in columns;
    var l :| 0 <= l < |opts| && opts[l] == d && d in columns && forall j :: 0 <= j < l ==> opts[j] !in columns;
  }

  /** The separator the CSV reader chooses from a file's first line: a semicolon when the
      line has semicolons and no comma, a comma otherwise. */
  function CsvSeparator(firstLine: string): (sep: char)
    ensures sep == ';' || sep == ','
    ensures ',' in firstLine ==> sep == ','
    ensures sep == ';' <==> ';' in firstLine && ',' !in firstLine
  {
    if ';' in firstLine && ',' !in firstLine then ';' else ','
  }
}
