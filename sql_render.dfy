/**
 * `format_sql` of `toscana_parser_unrelated_mod.py`: the SQL model (the
 * template file's contents, passed in) is expanded once per record with
 * `str_model.format(**row)`, and the expansions are joined with newlines.
 */
module SqlRender {
  import opened Strings
  import opened Projection
  import PyFormat

  /** `str_model.format(**row)`: keyword arguments only. */
  function Expand(template: string, row: Record): PyFormat.Result<string>
  {
    PyFormat.Format(template, [], row)
  }

  /** The expansions of the first `k` records, in order; the first record
      whose expansion raises stops it. */
  function ExpandAll(template: string, data: seq<Record>, k: nat): PyFormat.Result<seq<string>>
    requires k <= |data|
  {
    if k == 0 then PyFormat.Ok([])
    else match ExpandAll(template, data, k - 1)
      case Err(e) => PyFormat.Err(e)
      case Ok(parts) =>
        match Expand(template, data[k - 1])
        case Err(e) => PyFormat.Err(e)
        case Ok(p) => PyFormat.Ok(parts + [p])
  }

  /** What `format_sql` returns, or why it raises. */
  function FormatSqlSpec(template: string, data: seq<Record>): PyFormat.Result<string>
  {
    match ExpandAll(template, data, |data|)
    case Err(e) => PyFormat.Err(e)
    case Ok(parts) => PyFormat.Ok(Join("\n", parts))
  }

  lemma {:induction false} ExpandAllErrStays(template: string, data: seq<Record>, k: nat, m: nat)
    requires k <= m <= |data|
    requires ExpandAll(template, data, k).Err?
    ensures ExpandAll(template, data, m) == ExpandAll(template, data, k)
    decreases m - k
  {
    if k < m {
      ExpandAllErrStays(template, data, k, m - 1);
    }
  }

  /** `format_sql(sqlmodel, data)`, with the model's text given. */
  method FormatSql(template: string, data: seq<Record>) returns (r: PyFormat.Result<string>)
    ensures r == FormatSqlSpec(template, data)
  {
    var s: seq<string> := [];
    var i := 0;
    while i < |data|
      invariant i <= |data|
      invariant ExpandAll(template, data, i) == PyFormat.Ok(s)
    {
      var e := PyFormat.Format(template, [], data[i]);
      if e.Err? {
        r := PyFormat.Err(e.error);
        ExpandAllErrStays(template, data, i + 1, |data|);
        return;
      }
      s := s + [e.value];
      i := i + 1;
    }
    return PyFormat.Ok(Join("\n", s));
  }

  /** The expansions succeed exactly when every record's does; there is then
      one expansion per record, in order. */
  lemma {:induction false} ExpandAllOk(template: string, data: seq<Record>, k: nat)
    requires k <= |data|
    ensures ExpandAll(template, data, k).Ok? <==> forall i :: 0 <= i < k ==> Expand(template, data[i]).Ok?
    ensures ExpandAll(template, data, k).Ok? ==>
              |ExpandAll(template, data, k).value| == k &&
              forall i :: 0 <= i < k ==> ExpandAll(template, data, k).value[i] == Expand(template, data[i]).value
    decreases k
  {
    if k > 0 {
      ExpandAllOk(template, data, k - 1);
    }
  }

  /** One record's expansion succeeds exactly when the template is well
      formed, has no `{}` field, and every `{name}` it uses is a key of the
      record. */
  lemma ExpandOk(template: string, row: Record)
    ensures Expand(template, row).Ok? <==>
              PyFormat.Parse(template).stop.End? &&
              PyFormat.AutoCount(PyFormat.Parse(template).fields) == 0 &&
              PyFormat.NamesBound(PyFormat.Parse(template).fields, row)
  {
    PyFormat.FormatSucceeds(template, [], row);
  }

  /** An empty matrix gives the empty string, whatever the template. */
  lemma FormatSqlEmpty(template: string)
    ensures FormatSqlSpec(template, []) == PyFormat.Ok("")
  {
  }

  /** On success the output is the expansions, one per record, in matrix
      order, separated by single newlines; when no expansion holds
      a newline, splitting on newlines gives them back. */
  lemma FormatSqlShape(template: string, data: seq<Record>)
    requires FormatSqlSpec(template, data).Ok?
    ensures var parts := ExpandAll(template, data, |data|).value;
      |parts| == |data| &&
      (forall i :: 0 <= i < |data| ==> Expand(template, data[i]).Ok? && parts[i] == Expand(template, data[i]).value) &&
      FormatSqlSpec(template, data).value == Join("\n", parts) &&
      (data != [] && (forall i :: 0 <= i < |parts| ==> '\n' !in parts[i]) ==>
         Split(FormatSqlSpec(template, data).value, "\n") == parts)
  {
    ExpandAllOk(template, data, |data|);
    var parts := ExpandAll(template, data, |data|).value;
    if data != [] && (forall i :: 0 <= i < |parts| ==> '\n' !in parts[i]) {
      SplitJoinChar(parts, '\n');
    }
  }

  /** A template without braces is copied once per record. */
  lemma FormatSqlPlain(template: string, data: seq<Record>)
    requires '{' !in template && '}' !in template
    ensures FormatSqlSpec(template, data) == PyFormat.Ok(Join("\n", seq(|data|, _ => template)))
  {
    forall i | 0 <= i < |data| ensures Expand(template, data[i]) == PyFormat.Ok(template) {
      PyFormat.ParsePlain(template, [], data[i], 0);
    }
    ExpandAllOk(template, data, |data|);
    assert ExpandAll(template, data, |data|).value == seq(|data|, _ => template);
  }
}
