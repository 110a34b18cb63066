/**
 * Reading the source tables of `toscana_parser_unrelated_mod.py`:
 * `skip_head` finds the header, `projection_from_csv_row` turns one row
 * into a record keyed by the alias columns, and `parse_csv` projects every
 * row after the header. Rows arrive already split into fields (the CSV
 * reader is not part of this model); a record is a dictionary from column
 * alias to value.
 */
module Projection {
  import opened Strings

  type Row = seq<string>
  type Record = map<string, string>

  const PROJECTION: seq<string> := ["CODICEISTAT", "SIGLAPROV", "COMUNE", "LOCALITA", "INDIRIZZO", "LONG WGS84", "LAT WGS84"]
  const NEW_COLUMNS: seq<string> := ["codiceistat", "siglaprov", "comune", "localita", "indirizzo", "long", "lat"]

  datatype Option<T> = None | Some(value: T)

  /** Why a row cannot be projected: `head_columns.index(column)` finds no
      such column (`ValueError`), or the row has no field at that index
      (`IndexError`). */
  datatype ProjectionError =
    | ColumnMissing(column: string)
    | RowTooShort(column: string, index: nat, width: nat)

  datatype Result<T> = Ok(value: T) | Err(error: ProjectionError)

  // ---------------------------------------------------------------------
  // The header

  /** A header line has more than one field. */
  predicate IsHeader(row: Row)
  {
    |row| > 1
  }

  /** Position of the first header line, if any. */
  function HeaderPos(rows: seq<Row>): (r: Option<nat>)
    ensures r.Some? ==> r.value < |rows| && IsHeader(rows[r.value])
    ensures r.Some? ==> forall k :: 0 <= k < r.value ==> !IsHeader(rows[k])
    ensures r.None? ==> forall k :: 0 <= k < |rows| ==> !IsHeader(rows[k])
  {
    if rows == [] then None
    else if IsHeader(rows[0]) then Some(0)
    else match HeaderPos(rows[1..])
      case None => None
      case Some(k) => Some(k + 1)
  }

  /** `skip_head(csv_reader)`: consumes lines up to and including the first
      one with more than one field and returns it; `next` is where the reader
      stands afterwards. Without such a line the reader is exhausted and the
      result is `None`. */
  method SkipHead(rows: seq<Row>) returns (header: Option<Row>, next: nat)
    ensures next <= |rows|
    ensures header.Some? ==> 0 < next && header.value == rows[next - 1] && IsHeader(header.value)
    ensures header.Some? ==> forall k :: 0 <= k < next - 1 ==> !IsHeader(rows[k])
    ensures header.None? ==> next == |rows| && forall k :: 0 <= k < |rows| ==> !IsHeader(rows[k])
  {
    next := 0;
    while next < |rows|
      invariant next <= |rows|
      invariant forall k :: 0 <= k < next ==> !IsHeader(rows[k])
    {
      var line := rows[next];
      next := next + 1;
      if |line| > 1 {
        return Some(line), next;
      }
    }
    return None, next;
  }

  /** `SkipHead` stops right after the line `HeaderPos` finds. */
  lemma SkipHeadAgrees(rows: seq<Row>, header: Option<Row>, next: nat)
    requires next <= |rows|
    requires header.Some? ==> 0 < next && header.value == rows[next - 1] && IsHeader(header.value)
    requires header.Some? ==> forall k :: 0 <= k < next - 1 ==> !IsHeader(rows[k])
    requires header.None? ==> next == |rows| && forall k :: 0 <= k < |rows| ==> !IsHeader(rows[k])
    ensures HeaderPos(rows).None? <==> header.None?
    ensures header.Some? ==> HeaderPos(rows) == Some(next - 1)
  {
    if header.Some? {
      assert IsHeader(rows[next - 1]);
    }
  }

  // ---------------------------------------------------------------------
  // One row

  /** `head_columns.index(column)`: a position holding `column` (the first
      one, as `IndexOfFirst` shows). */
  function IndexOf(header: Row, column: string): (r: Option<nat>)
    ensures r.None? <==> column !in header
    ensures r.Some? ==> r.value < |header| && header[r.value] == column
  {
    if header == [] then None
    else if header[0] == column then Some(0)
    else match IndexOf(header[1..], column)
      case None => None
      case Some(k) => Some(k + 1)
  }

  /** No earlier position holds the column. */
  lemma {:induction false} IndexOfFirst(header: Row, column: string)
    requires column in header
    ensures column !in header[..IndexOf(header, column).value]
    decreases |header|
  {
    if header[0] != column {
      IndexOfFirst(header[1..], column);
      var k := IndexOf(header[1..], column).value;
      assert header[..k + 1] == [header[0]] + header[1..][..k];
    }
  }

  /** The value stored for a field: the `-` placeholder becomes empty, every
      other value has each `'` preceded by a backslash. */
  function Normalize(v: string): string
  {
    if v == "-" then "" else Replace(v, "'", "\\'")
  }

  /** Records for the first `k` projected columns, column by column, as the
      loop of `projection_from_csv_row` builds them; the first column that
      cannot be read stops it. */
  function ProjectPrefix(row: Row, header: Row, proj: seq<string>, alias: seq<string>, k: nat): Result<Record>
    requires k <= |proj| <= |alias|
  {
    if k == 0 then Ok(map[])
    else match ProjectPrefix(row, header, proj, alias, k - 1)
      case Err(e) => Err(e)
      case Ok(m) =>
        match IndexOf(header, proj[k - 1])
        case None => Err(ColumnMissing(proj[k - 1]))
        case Some(j) =>
          if j < |row| then Ok(m[alias[k - 1] := Normalize(row[j])])
          else Err(RowTooShort(proj[k - 1], j, |row|))
  }

  /** Once a column cannot be read, the later columns do not change the outcome. */
  lemma {:induction false} ProjectPrefixErrStays(row: Row, header: Row, proj: seq<string>, alias: seq<string>, k: nat, m: nat)
    requires k <= m <= |proj| <= |alias|
    requires ProjectPrefix(row, header, proj, alias, k).Err?
    ensures ProjectPrefix(row, header, proj, alias, m) == ProjectPrefix(row, header, proj, alias, k)
    decreases m - k
  {
    if k < m {
      ProjectPrefixErrStays(row, header, proj, alias, k, m - 1);
    }
  }

  /** One more column: read it, or fail on it. */
  lemma ProjectPrefixStep(row: Row, header: Row, proj: seq<string>, alias: seq<string>, k: nat, m: Record)
    requires k < |proj| <= |alias|
    requires ProjectPrefix(row, header, proj, alias, k) == Ok(m)
    ensures IndexOf(header, proj[k]).None? ==>
              ProjectPrefix(row, header, proj, alias, k + 1) == Err(ColumnMissing(proj[k]))
    ensures IndexOf(header, proj[k]).Some? && IndexOf(header, proj[k]).value >= |row| ==>
              ProjectPrefix(row, header, proj, alias, k + 1) == Err(RowTooShort(proj[k], IndexOf(header, proj[k]).value, |row|))
    ensures IndexOf(header, proj[k]).Some? && IndexOf(header, proj[k]).value < |row| ==>
              ProjectPrefix(row, header, proj, alias, k + 1) == Ok(m[alias[k] := Normalize(row[IndexOf(header, proj[k]).value])])
  {
  }

  /** The record `projection_from_csv_row` returns, or why it raises. */
  function Project(row: Row, header: Row, proj: seq<string>, alias: seq<string>): Result<Record>
    requires |proj| <= |alias|
  {
    ProjectPrefix(row, header, proj, alias, |proj|)
  }

  /** `projection_from_csv_row(row, head_columns, projection, alias_columns)`. */
  method ProjectionFromCsvRow(row: Row, header: Row, proj: seq<string>, alias: seq<string>) returns (r: Result<Record>)
    requires |proj| <= |alias|
    ensures r == Project(row, header, proj, alias)
  {
    var result: Record := map[];
    var i := 0;
    while i < |proj|
      invariant i <= |proj|
      invariant ProjectPrefix(row, header, proj, alias, i) == Ok(result)
    {
      var column := proj[i];
      var j := IndexOf(header, column);
      ProjectPrefixStep(row, header, proj, alias, i, result);
      if j.None? {
        r := Err(ColumnMissing(column));
        assert ProjectPrefix(row, header, proj, alias, i + 1) == r;
        ProjectPrefixErrStays(row, header, proj, alias, i + 1, |proj|);
        return;
      }
      if j.value >= |row| {
        r := Err(RowTooShort(column, j.value, |row|));
        assert ProjectPrefix(row, header, proj, alias, i + 1) == r;
        ProjectPrefixErrStays(row, header, proj, alias, i + 1, |proj|);
        return;
      }
      var value := row[j.value];
      result := result[alias[i] := Normalize(value)];
      i := i + 1;
    }
    return Ok(result);
  }

  /** Every projected column is in the header and indexes a field of the row. */
  predicate Readable(row: Row, header: Row, proj: seq<string>, k: nat)
    requires k <= |proj|
  {
    forall i :: 0 <= i < k ==> IndexOf(header, proj[i]).Some? && IndexOf(header, proj[i]).value < |row|
  }

  /** A row projects exactly when every projected column can be read; the
      record then has exactly the aliases of the projected columns as keys. */
  lemma {:induction false} ProjectPrefixOk(row: Row, header: Row, proj: seq<string>, alias: seq<string>, k: nat)
    requires k <= |proj| <= |alias|
    ensures ProjectPrefix(row, header, proj, alias, k).Ok? <==> Readable(row, header, proj, k)
    ensures ProjectPrefix(row, header, proj, alias, k).Ok? ==>
              forall a :: a in ProjectPrefix(row, header, proj, alias, k).value <==> a in alias[..k]
    decreases k
  {
    if k > 0 {
      ProjectPrefixOk(row, header, proj, alias, k - 1);
      assert alias[..k] == alias[..k - 1] + [alias[k - 1]];
      if Readable(row, header, proj, k) {
        assert Readable(row, header, proj, k - 1);
      }
    }
  }

  /** A failed projection names the first projected column that cannot be read. */
  lemma {:induction false} ProjectPrefixErr(row: Row, header: Row, proj: seq<string>, alias: seq<string>, k: nat)
    requires k <= |proj| <= |alias|
    requires ProjectPrefix(row, header, proj, alias, k).Err?
    ensures exists i :: 0 <= i < k && Readable(row, header, proj, i) &&
              ProjectPrefix(row, header, proj, alias, k).error ==
                (if IndexOf(header, proj[i]).None? then ColumnMissing(proj[i])
                 else RowTooShort(proj[i], IndexOf(header, proj[i]).value, |row|))
    decreases k
  {
    ProjectPrefixOk(row, header, proj, alias, k - 1);
    if ProjectPrefix(row, header, proj, alias, k - 1).Err? {
      ProjectPrefixErr(row, header, proj, alias, k - 1);
    } else {
      assert Readable(row, header, proj, k - 1);
    }
  }

  /** With distinct aliases, each alias holds the normalised value found at
      the first header position of its column. */
  lemma {:induction false} ProjectPrefixValues(row: Row, header: Row, proj: seq<string>, alias: seq<string>, k: nat)
    requires k <= |proj| <= |alias|
    requires forall i, j :: 0 <= i < j < |alias| ==> alias[i] != alias[j]
    requires ProjectPrefix(row, header, proj, alias, k).Ok?
    ensures forall i :: 0 <= i < k ==>
              IndexOf(header, proj[i]).Some? && IndexOf(header, proj[i]).value < |row| &&
              alias[i] in ProjectPrefix(row, header, proj, alias, k).value &&
              ProjectPrefix(row, header, proj, alias, k).value[alias[i]] == Normalize(row[IndexOf(header, proj[i]).value])
    decreases k
  {
    if k > 0 {
      ProjectPrefixValues(row, header, proj, alias, k - 1);
    }
  }

  /** `perm` and `inv` are mutually inverse reorderings of `n` positions. */
  predicate Bijection(perm: seq<nat>, inv: seq<nat>, n: nat)
  {
    |perm| == |inv| == n &&
    (forall q :: 0 <= q < n ==> perm[q] < n && inv[perm[q]] == q) &&
    (forall q :: 0 <= q < n ==> inv[q] < n && perm[inv[q]] == q)
  }

  /** Position `q` of the result holds position `perm[q]` of `s`. */
  function Permute(s: seq<string>, perm: seq<nat>): (r: seq<string>)
    requires forall q :: 0 <= q < |perm| ==> perm[q] < |s|
    ensures |r| == |perm| && forall q :: 0 <= q < |perm| ==> r[q] == s[perm[q]]
  {
    seq(|perm|, q requires 0 <= q < |perm| => s[perm[q]])
  }

  /** No column is named twice. */
  predicate Distinct(header: Row)
  {
    forall i, j :: 0 <= i < j < |header| ==> header[i] != header[j]
  }

  /** Reordering the header columns, and the row's fields the same way, gives
      the same record when the header names each column once. The reordering
      sends position `q` to position `perm[q]`; `inv` undoes it. */
  lemma {:induction false} ProjectPermuted(row: Row, header: Row, perm: seq<nat>, inv: seq<nat>,
                                           proj: seq<string>, alias: seq<string>, k: nat)
    requires k <= |proj| <= |alias|
    requires |row| == |header| && Bijection(perm, inv, |header|) && Distinct(header)
    ensures ProjectPrefix(Permute(row, perm), Permute(header, perm), proj, alias, k)
            == ProjectPrefix(row, header, proj, alias, k)
    decreases k
  {
    if k > 0 {
      var row', header' := Permute(row, perm), Permute(header, perm);
      ProjectPermuted(row, header, perm, inv, proj, alias, k - 1);
      PermutedColumn(row, header, perm, inv, proj[k - 1]);
      SameColumnStep(row, header, row', header', proj, alias, k - 1);
    }
  }

  /** The reordered row holds the same value for column `c` as the row. */
  lemma PermutedColumn(row: Row, header: Row, perm: seq<nat>, inv: seq<nat>, c: string)
    requires |row| == |header| && Bijection(perm, inv, |header|) && Distinct(header)
    ensures var row', header' := Permute(row, perm), Permute(header, perm);
      (IndexOf(header, c).None? <==> IndexOf(header', c).None?) &&
      (IndexOf(header, c).Some? ==>
         IndexOf(header, c).value < |row| && IndexOf(header', c).value < |row'| &&
         row'[IndexOf(header', c).value] == row[IndexOf(header, c).value])
  {
    IndexOfPermuted(header, perm, inv, c);
    if IndexOf(header, c).Some? {
      var j := IndexOf(header, c).value;
      assert Permute(row, perm)[inv[j]] == row[perm[inv[j]]];
    }
  }

  /** Two rows that agree so far and hold the same value for the next
      column agree one column further. */
  lemma SameColumnStep(row: Row, header: Row, row': Row, header': Row, proj: seq<string>, alias: seq<string>, k: nat)
    requires k < |proj| <= |alias|
    requires ProjectPrefix(row', header', proj, alias, k) == ProjectPrefix(row, header, proj, alias, k)
    requires IndexOf(header, proj[k]).None? <==> IndexOf(header', proj[k]).None?
    requires IndexOf(header, proj[k]).Some? ==>
               IndexOf(header, proj[k]).value < |row| && IndexOf(header', proj[k]).value < |row'| &&
               row'[IndexOf(header', proj[k]).value] == row[IndexOf(header, proj[k]).value]
    ensures ProjectPrefix(row', header', proj, alias, k + 1) == ProjectPrefix(row, header, proj, alias, k + 1)
  {
  }

  /** In a header naming each column once, the column at position `j` moves
      to position `inv[j]`. */
  lemma IndexOfPermuted(header: Row, perm: seq<nat>, inv: seq<nat>, c: string)
    requires Bijection(perm, inv, |header|) && Distinct(header)
    ensures var header' := Permute(header, perm);
      (IndexOf(header, c).None? <==> IndexOf(header', c).None?) &&
      (IndexOf(header, c).Some? ==> IndexOf(header', c) == Some(inv[IndexOf(header, c).value]))
  {
    var header' := Permute(header, perm);
    if c in header {
      var j := IndexOf(header, c).value;
      assert header'[inv[j]] == c;
      var j' := IndexOf(header', c).value;
      assert header[perm[j']] == header[j];
      assert perm[j'] == j;
    } else {
      forall q | 0 <= q < |header'| ensures header'[q] != c {
        assert header'[q] == header[perm[q]];
      }
    }
  }

  /** The stored value of a field that is not the placeholder is the field
      with each `'` written as `\'`, character by character. */
  lemma NormalizeCharwise(v: string)
    requires v != "-"
    ensures Normalize(v) == MapChar(v, '\'', "\\'")
  {
    ReplaceOneChar(v, '\'', "\\'");
  }

  /** Reading back a stored value: `\'` stands for `'`. */
  function UnescapeQuotes(s: string): string
  {
    if s == [] then []
    else if |s| > 1 && s[0] == '\\' && s[1] == '\'' then "'" + UnescapeQuotes(s[2..])
    else [s[0]] + UnescapeQuotes(s[1..])
  }

  lemma MapCharHead(v: string)
    ensures MapChar(v, '\'', "\\'") == [] || MapChar(v, '\'', "\\'")[0] != '\''
  {
  }

  /** Escaping the quotes loses nothing: reading back gives the field. */
  lemma {:induction false} UnescapeQuotesMapChar(v: string)
    ensures UnescapeQuotes(MapChar(v, '\'', "\\'")) == v
    decreases |v|
  {
    if v != [] {
      var t := MapChar(v[1..], '\'', "\\'");
      UnescapeQuotesMapChar(v[1..]);
      if v[0] == '\'' {
        assert MapChar(v, '\'', "\\'") == "\\'" + t;
        assert ("\\'" + t)[2..] == t;
      } else {
        MapCharHead(v[1..]);
        assert MapChar(v, '\'', "\\'") == [v[0]] + t;
        assert ([v[0]] + t)[1..] == t;
      }
      assert v == [v[0]] + v[1..];
    }
  }

  /** Every field other than the placeholder is recovered from its stored value. */
  lemma NormalizeRoundTrip(v: string)
    requires v != "-"
    ensures UnescapeQuotes(Normalize(v)) == v
  {
    NormalizeCharwise(v);
    UnescapeQuotesMapChar(v);
  }

  /** The stored value is empty exactly for the placeholder and the empty field. */
  lemma NormalizeEmpty(v: string)
    ensures Normalize(v) == "" <==> v == "-" || v == ""
  {
    if v != "-" {
      NormalizeCharwise(v);
      if v != "" {
        assert |MapChar(v, '\'', "\\'")| > 0 by {
          assert MapChar(v, '\'', "\\'") == (if v[0] == '\'' then "\\'" else [v[0]]) + MapChar(v[1..], '\'', "\\'");
        }
      }
    }
  }

  // ---------------------------------------------------------------------
  // The whole table

  /** The records of the first `k` rows, in order; the first row that cannot
      be projected stops the table. */
  function ProjectRows(rows: seq<Row>, header: Row, proj: seq<string>, alias: seq<string>, k: nat): Result<seq<Record>>
    requires k <= |rows| && |proj| <= |alias|
  {
    if k == 0 then Ok([])
    else match ProjectRows(rows, header, proj, alias, k - 1)
      case Err(e) => Err(e)
      case Ok(rs) =>
        match Project(rows[k - 1], header, proj, alias)
        case Err(e) => Err(e)
        case Ok(r) => Ok(rs + [r])
  }

  /** Once a row cannot be projected, the later rows do not change the outcome. */
  lemma {:induction false} ProjectRowsErrStays(rows: seq<Row>, header: Row, proj: seq<string>, alias: seq<string>, k: nat, m: nat)
    requires k <= m <= |rows| && |proj| <= |alias|
    requires ProjectRows(rows, header, proj, alias, k).Err?
    ensures ProjectRows(rows, header, proj, alias, m) == ProjectRows(rows, header, proj, alias, k)
    decreases m - k
  {
    if k < m {
      ProjectRowsErrStays(rows, header, proj, alias, k, m - 1);
    }
  }

  /** What `parse_csv` returns: nothing without a header, otherwise one
      record per row after the header. */
  function ParseCsvSpec(rows: seq<Row>, proj: seq<string>, alias: seq<string>): Result<seq<Record>>
    requires |proj| <= |alias|
  {
    match HeaderPos(rows)
    case None => Ok([])
    case Some(h) => ProjectRows(rows[h + 1..], rows[h], proj, alias, |rows| - h - 1)
  }

  /** `parse_csv(csv_reader, projection, alias_columns)`. */
  method ParseCsv(rows: seq<Row>, proj: seq<string>, alias: seq<string>) returns (r: Result<seq<Record>>)
    requires |proj| <= |alias|
    ensures r == ParseCsvSpec(rows, proj, alias)
  {
    var result: seq<Record> := [];
    var header, next := SkipHead(rows);
    SkipHeadAgrees(rows, header, next);
    if header.None? {
      return Ok(result);
    }
    var rest := rows[next..];
    var i := 0;
    while i < |rest|
      invariant i <= |rest|
      invariant ProjectRows(rest, header.value, proj, alias, i) == Ok(result)
    {
      var rec := ProjectionFromCsvRow(rest[i], header.value, proj, alias);
      if rec.Err? {
        r := Err(rec.error);
        ProjectRowsErrStays(rest, header.value, proj, alias, i + 1, |rest|);
        return;
      }
      result := result + [rec.value];
      i := i + 1;
    }
    return Ok(result);
  }

  /** The table succeeds exactly when every row does; it then holds one
      record per row, in row order. */
  lemma {:induction false} ProjectRowsOk(rows: seq<Row>, header: Row, proj: seq<string>, alias: seq<string>, k: nat)
    requires k <= |rows| && |proj| <= |alias|
    ensures ProjectRows(rows, header, proj, alias, k).Ok? <==>
              forall i :: 0 <= i < k ==> Project(rows[i], header, proj, alias).Ok?
    ensures ProjectRows(rows, header, proj, alias, k).Ok? ==>
              var rs := ProjectRows(rows, header, proj, alias, k).value;
              |rs| == k && forall i :: 0 <= i < k ==> rs[i] == Project(rows[i], header, proj, alias).value
    decreases k
  {
    if k > 0 {
      ProjectRowsOk(rows, header, proj, alias, k - 1);
    }
  }

  /** Without a header line `parse_csv` returns no records; with one, it
      returns one record per later row, in order, when all of them project. */
  lemma ParseCsvShape(rows: seq<Row>, proj: seq<string>, alias: seq<string>)
    requires |proj| <= |alias|
    ensures HeaderPos(rows).None? ==> ParseCsvSpec(rows, proj, alias) == Ok([])
    ensures HeaderPos(rows).Some? ==>
              var h := HeaderPos(rows).value;
              (ParseCsvSpec(rows, proj, alias).Ok? <==>
                 forall i :: h < i < |rows| ==> Project(rows[i], rows[h], proj, alias).Ok?) &&
              (ParseCsvSpec(rows, proj, alias).Ok? ==>
                 var rs := ParseCsvSpec(rows, proj, alias).value;
                 |rs| == |rows| - h - 1 &&
                 forall i :: 0 <= i < |rs| ==> rs[i] == Project(rows[h + 1 + i], rows[h], proj, alias).value)
  {
    if HeaderPos(rows).Some? {
      var h := HeaderPos(rows).value;
      ProjectRowsAfter(rows, h, proj, alias);
    }
  }

  lemma ProjectRowsAfter(rows: seq<Row>, h: nat, proj: seq<string>, alias: seq<string>)
    requires h < |rows| && |proj| <= |alias|
    ensures var t := ProjectRows(rows[h + 1..], rows[h], proj, alias, |rows| - h - 1);
      (t.Ok? <==> forall i :: h < i < |rows| ==> Project(rows[i], rows[h], proj, alias).Ok?) &&
      (t.Ok? ==> |t.value| == |rows| - h - 1 &&
                 forall i :: 0 <= i < |t.value| ==> t.value[i] == Project(rows[h + 1 + i], rows[h], proj, alias).value)
  {
    var rest := rows[h + 1..];
    ProjectRowsOk(rest, rows[h], proj, alias, |rest|);
    forall i | h < i < |rows| ensures rows[i] == rest[i - h - 1] { }
  }

  /** The projected records of a well-formed table have exactly the alias
      columns as keys. */
  lemma RecordKeys(row: Row, header: Row, proj: seq<string>, alias: seq<string>)
    requires |proj| == |alias|
    requires Project(row, header, proj, alias).Ok?
    ensures forall a :: a in Project(row, header, proj, alias).value <==> a in alias
  {
    ProjectPrefixOk(row, header, proj, alias, |proj|);
    assert alias[..|proj|] == alias;
  }

  /** Every record `parse_csv` returns has exactly the alias columns as keys. */
  lemma ParseCsvKeys(rows: seq<Row>, proj: seq<string>, alias: seq<string>)
    requires |proj| == |alias|
    requires ParseCsvSpec(rows, proj, alias).Ok?
    ensures forall i, a :: 0 <= i < |ParseCsvSpec(rows, proj, alias).value| ==>
              (a in ParseCsvSpec(rows, proj, alias).value[i] <==> a in alias)
  {
    ParseCsvShape(rows, proj, alias);
    var rs := ParseCsvSpec(rows, proj, alias).value;
    forall i | 0 <= i < |rs| ensures forall a :: a in rs[i] <==> a in alias {
      var h := HeaderPos(rows).value;
      RecordKeys(rows[h + 1 + i], rows[h], proj, alias);
    }
  }
}
