/**
 * The CAP join of `toscana_parser_unrelated_mod.py`: `pair_istatcode_cap`
 * reads the CAP table into `istat`/`cap` records, the dictionary
 * comprehension keeps the last CAP seen for each ISTAT code, and
 * `join_cap_to_matrix_by_istat` adds a `cap` field to every record of the
 * matrix whose `codiceistat` is known, in place, reporting the others.
 * The report goes through `alert`, modelled here both as written and as
 * evidently intended.
 */
module CapJoin {
  import opened Projection
  import PyFormat

  const KEY_CAP_ISTATCODE := "istat"
  const KEY_CAP_CAP := "cap"
  const CAP_PROJECTION: seq<string> := ["Istat", "CAP"]
  const CAP_ALIASES: seq<string> := [KEY_CAP_ISTATCODE, KEY_CAP_CAP]
  const CAP_EXTENSION := "cap"
  const KEY_CODICE_ISTAT := "codiceistat"

  // ---------------------------------------------------------------------
  // The CAP table

  /** `pair_istatcode_cap`: the CAP table's rows after its header, projected
      on `Istat` and `CAP` under the names `istat` and `cap`. */
  method PairIstatcodeCap(rows: seq<Row>) returns (r: Result<seq<Record>>)
    ensures r == ParseCsvSpec(rows, CAP_PROJECTION, CAP_ALIASES)
  {
    r := ParseCsv(rows, CAP_PROJECTION, CAP_ALIASES);
  }

  /** Every entry holds an ISTAT code and a CAP. */
  predicate HasPairKeys(pairs: seq<Record>)
  {
    forall i :: 0 <= i < |pairs| ==> KEY_CAP_ISTATCODE in pairs[i] && KEY_CAP_CAP in pairs[i]
  }

  /** The entries `pair_istatcode_cap` returns always hold both keys. */
  lemma PairsHaveKeys(rows: seq<Row>)
    requires ParseCsvSpec(rows, CAP_PROJECTION, CAP_ALIASES).Ok?
    ensures HasPairKeys(ParseCsvSpec(rows, CAP_PROJECTION, CAP_ALIASES).value)
  {
    var pairs := ParseCsvSpec(rows, CAP_PROJECTION, CAP_ALIASES).value;
    ParseCsvShape(rows, CAP_PROJECTION, CAP_ALIASES);
    forall i | 0 <= i < |pairs| ensures KEY_CAP_ISTATCODE in pairs[i] && KEY_CAP_CAP in pairs[i] {
      var h := HeaderPos(rows).value;
      RecordKeys(rows[h + 1 + i], rows[h], CAP_PROJECTION, CAP_ALIASES);
      assert CAP_ALIASES[0] == KEY_CAP_ISTATCODE && CAP_ALIASES[1] == KEY_CAP_CAP;
    }
  }

  /** `{entry['istat']: entry['cap'] for entry in istat_cap_pairs}`: entries
      are inserted in order, so a later entry overwrites an earlier one. */
  function CapsByIstat(pairs: seq<Record>): map<string, string>
    requires HasPairKeys(pairs)
  {
    if pairs == [] then map[]
    else
      var last := pairs[|pairs| - 1];
      CapsByIstat(pairs[..|pairs| - 1])[last[KEY_CAP_ISTATCODE] := last[KEY_CAP_CAP]]
  }

  /** A code is in the map exactly when some entry has it, and it maps to the
      CAP of the last such entry. */
  lemma {:induction false} CapsByIstatLastWins(pairs: seq<Record>, code: string)
    requires HasPairKeys(pairs)
    ensures code in CapsByIstat(pairs) <==> exists i :: 0 <= i < |pairs| && pairs[i][KEY_CAP_ISTATCODE] == code
    ensures forall i :: 0 <= i < |pairs| && pairs[i][KEY_CAP_ISTATCODE] == code &&
                        (forall j :: i < j < |pairs| ==> pairs[j][KEY_CAP_ISTATCODE] != code) ==>
              code in CapsByIstat(pairs) && CapsByIstat(pairs)[code] == pairs[i][KEY_CAP_CAP]
    decreases |pairs|
  {
    if pairs != [] {
      var init := pairs[..|pairs| - 1];
      var n := |pairs| - 1;
      CapsByIstatLastWins(init, code);
      if pairs[n][KEY_CAP_ISTATCODE] != code {
        if exists i :: 0 <= i < |pairs| && pairs[i][KEY_CAP_ISTATCODE] == code {
          var i :| 0 <= i < |pairs| && pairs[i][KEY_CAP_ISTATCODE] == code;
          assert init[i][KEY_CAP_ISTATCODE] == code;
        }
        forall i | 0 <= i < |pairs| && pairs[i][KEY_CAP_ISTATCODE] == code &&
                   (forall j :: i < j < |pairs| ==> pairs[j][KEY_CAP_ISTATCODE] != code)
          ensures code in CapsByIstat(pairs) && CapsByIstat(pairs)[code] == pairs[i][KEY_CAP_CAP]
        {
          assert init[i] == pairs[i];
          assert forall j :: i < j < |init| ==> init[j][KEY_CAP_ISTATCODE] != code;
        }
      }
    }
  }

  // ---------------------------------------------------------------------
  // The join

  /** One record after the join: `cap` added when its code is known,
      untouched otherwise. */
  function JoinRow(row: Record, caps: map<string, string>): (r: Record)
    requires KEY_CODICE_ISTAT in row
    ensures forall k :: k != CAP_EXTENSION ==> (k in r <==> k in row)
    ensures forall k :: k != CAP_EXTENSION && k in row ==> r[k] == row[k]
    ensures row[KEY_CODICE_ISTAT] in caps ==> CAP_EXTENSION in r && r[CAP_EXTENSION] == caps[row[KEY_CODICE_ISTAT]]
    ensures row[KEY_CODICE_ISTAT] !in caps ==> r == row
  {
    var code := row[KEY_CODICE_ISTAT];
    if code in caps then row[CAP_EXTENSION := caps[code]] else row
  }

  /** Every record carries its ISTAT code. */
  predicate HasCodes(rows: seq<Record>)
  {
    forall i :: 0 <= i < |rows| ==> KEY_CODICE_ISTAT in rows[i]
  }

  /** The codes of the records without a CAP, in matrix order. */
  function Misses(rows: seq<Record>, caps: map<string, string>): seq<string>
    requires HasCodes(rows)
  {
    if rows == [] then []
    else
      var init := rows[..|rows| - 1];
      var code := rows[|rows| - 1][KEY_CODICE_ISTAT];
      Misses(init, caps) + (if code in caps then [] else [code])
  }

  /** The misses are exactly the codes of the records the map does not know. */
  lemma {:induction false} MissesAreUnknown(rows: seq<Record>, caps: map<string, string>)
    requires HasCodes(rows)
    ensures |Misses(rows, caps)| <= |rows|
    ensures forall c :: c in Misses(rows, caps) <==>
              c !in caps && exists i :: 0 <= i < |rows| && rows[i][KEY_CODICE_ISTAT] == c
    decreases |rows|
  {
    if rows != [] {
      var init := rows[..|rows| - 1];
      MissesAreUnknown(init, caps);
      forall c ensures c in Misses(rows, caps) <==>
                       c !in caps && exists i :: 0 <= i < |rows| && rows[i][KEY_CODICE_ISTAT] == c
      {
        if c !in caps && exists i :: 0 <= i < |rows| && rows[i][KEY_CODICE_ISTAT] == c {
          var i :| 0 <= i < |rows| && rows[i][KEY_CODICE_ISTAT] == c;
          if i < |init| {
            assert init[i][KEY_CODICE_ISTAT] == c;
          }
        }
        if c in Misses(init, caps) {
          var i :| 0 <= i < |init| && init[i][KEY_CODICE_ISTAT] == c;
          assert rows[i][KEY_CODICE_ISTAT] == c;
        }
      }
    }
  }

  /** A matrix whose every code is known has no misses, and one whose every
      code is unknown misses all of them, in order. */
  lemma {:induction false} MissesExtremes(rows: seq<Record>, caps: map<string, string>)
    requires HasCodes(rows)
    ensures (forall i :: 0 <= i < |rows| ==> rows[i][KEY_CODICE_ISTAT] in caps) ==> Misses(rows, caps) == []
    ensures (forall i :: 0 <= i < |rows| ==> rows[i][KEY_CODICE_ISTAT] !in caps) ==>
              Misses(rows, caps) == seq(|rows|, i requires 0 <= i < |rows| => rows[i][KEY_CODICE_ISTAT])
    decreases |rows|
  {
    if rows != [] {
      var init := rows[..|rows| - 1];
      MissesExtremes(init, caps);
    }
  }

  /** The loop of `join_cap_to_matrix_by_istat`: each record of the matrix is
      joined in place; the codes without a CAP are returned in order. */
  method JoinCap(matrix: array<Record>, caps: map<string, string>) returns (misses: seq<string>)
    requires HasCodes(matrix[..])
    modifies matrix
    ensures HasCodes(old(matrix[..]))
    ensures forall i :: 0 <= i < matrix.Length ==> matrix[i] == JoinRow(old(matrix[i]), caps)
    ensures misses == Misses(old(matrix[..]), caps)
  {
    misses := [];
    var i := 0;
    while i < matrix.Length
      invariant i <= matrix.Length
      invariant forall k :: 0 <= k < i ==> matrix[k] == JoinRow(old(matrix[k]), caps)
      invariant forall k :: i <= k < matrix.Length ==> matrix[k] == old(matrix[k])
      invariant HasCodes(old(matrix[..])[..i])
      invariant misses == Misses(old(matrix[..])[..i], caps)
    {
      var row := matrix[i];
      assert old(matrix[..])[..i + 1][..i] == old(matrix[..])[..i];
      assert old(matrix[..])[..i + 1][i] == row;
      var code := row[KEY_CODICE_ISTAT];
      if code in caps {
        matrix[i] := row[CAP_EXTENSION := caps[code]];
      } else {
        misses := misses + [code];
      }
      i := i + 1;
    }
    assert old(matrix[..])[..matrix.Length] == old(matrix[..]);
  }

  /** `join_cap_to_matrix_by_istat(cap_csv_fname, main_matrix)`, with the CAP
      table's rows given: a CAP table that cannot be projected stops it
      before the matrix is touched. */
  method JoinCapToMatrixByIstat(capRows: seq<Row>, matrix: array<Record>) returns (r: Result<seq<string>>)
    requires HasCodes(matrix[..])
    modifies matrix
    ensures ParseCsvSpec(capRows, CAP_PROJECTION, CAP_ALIASES).Err? ==>
              r == Err(ParseCsvSpec(capRows, CAP_PROJECTION, CAP_ALIASES).error) && matrix[..] == old(matrix[..])
    ensures ParseCsvSpec(capRows, CAP_PROJECTION, CAP_ALIASES).Ok? ==>
              var pairs := ParseCsvSpec(capRows, CAP_PROJECTION, CAP_ALIASES).value;
              HasPairKeys(pairs) && HasCodes(old(matrix[..])) &&
              (forall i :: 0 <= i < matrix.Length ==> matrix[i] == JoinRow(old(matrix[i]), CapsByIstat(pairs))) &&
              r == Ok(Misses(old(matrix[..]), CapsByIstat(pairs)))
  {
    var pairs := PairIstatcodeCap(capRows);
    if pairs.Err? {
      return Err(pairs.error);
    }
    PairsHaveKeys(capRows);
    var capsByIstat := CapsByIstat(pairs.value);
    var misses := JoinCap(matrix, capsByIstat);
    return Ok(misses);
  }

  // ---------------------------------------------------------------------
  // Reporting a miss

  /** The message reported for a code without a CAP. */
  function MissMessage(code: string): string
  {
    "[ABORT]: could NOT find CAP for ISTAT " + code + "!!!"
  }

  /** `"=" * len(s)`. */
  function Border(s: string): (r: string)
    ensures |r| == |s| && forall i :: 0 <= i < |r| ==> r[i] == '='
  {
    seq(|s|, _ => '=')
  }

  const ALERT_TEMPLATE := "{}\n{}\n{}"

  /** A template of three `{}` fields separated by one plain character, as
      the alert's is by newlines, parses into three automatic fields with that
      character between them. */
  lemma ParseThreeAutoFields(c: char)
    requires c != '{' && c != '}'
    ensures PyFormat.Parse(['{', '}', c, '{', '}', c, '{', '}']) ==
              PyFormat.Parsed([PyFormat.Auto, PyFormat.Lit([c]), PyFormat.Auto, PyFormat.Lit([c]), PyFormat.Auto], PyFormat.End)
  {
    var t := ['{', '}', c, '{', '}', c, '{', '}'];
    var p := PyFormat.Parsed([], PyFormat.End);
    assert t[8..] == [];
    ParseAutoAt(t, 6, p);
    var p1 := PyFormat.Cons(PyFormat.Auto, p);
    ParseCharAt(t, 5, p1);
    var p2 := PyFormat.Cons(PyFormat.Lit([c]), p1);
    ParseAutoAt(t, 3, p2);
    var p3 := PyFormat.Cons(PyFormat.Auto, p2);
    ParseCharAt(t, 2, p3);
    var p4 := PyFormat.Cons(PyFormat.Lit([c]), p3);
    ParseAutoAt(t, 0, p4);
    assert t[0..] == t;
  }

  /** A `{}` at position `k` adds an automatic field in front of what follows. */
  lemma ParseAutoAt(t: string, k: nat, p: PyFormat.Parsed)
    requires k + 2 <= |t| && t[k] == '{' && t[k + 1] == '}'
    requires PyFormat.Parse(t[k + 2..]) == p
    ensures PyFormat.Parse(t[k..]) == PyFormat.Cons(PyFormat.Auto, p)
  {
    var u := t[k..];
    assert u[0] == '{' && u[1] == '}';
    assert PyFormat.FieldEnd(u[1..], 1) == 0;
    assert u[1..1] == "";
    assert u[2..] == t[k + 2..];
  }

  /** A plain character at position `k` adds a literal in front of what follows. */
  lemma ParseCharAt(t: string, k: nat, p: PyFormat.Parsed)
    requires k < |t| && t[k] != '{' && t[k] != '}'
    requires PyFormat.Parse(t[k + 1..]) == p
    ensures PyFormat.Parse(t[k..]) == PyFormat.Cons(PyFormat.Lit([t[k]]), p)
  {
    var u := t[k..];
    assert u[0] == t[k];
    assert u[1..] == t[k + 1..];
  }

  /** `alert(s)` as written: the template has three fields but is given two
      arguments. */
  function AlertAsWritten(s: string): PyFormat.Result<string>
  {
    PyFormat.Format(ALERT_TEMPLATE, [Border(s), s], map[])
  }

  /** Filling the alert fields from `args`: the third field needs a third
      argument. */
  lemma RenderAlertFields(nl: string, args: seq<string>)
    requires |args| == 2 || |args| == 3
    ensures var fs := [PyFormat.Auto, PyFormat.Lit(nl), PyFormat.Auto, PyFormat.Lit(nl), PyFormat.Auto];
      var none: map<string, string> := map[];
      (|args| == 2 ==> PyFormat.Render(fs, args, none, 0) == PyFormat.Err(PyFormat.IndexError(2))) &&
      (|args| == 3 ==> PyFormat.Render(fs, args, none, 0) == PyFormat.Ok(args[0] + nl + args[1] + nl + args[2]))
  {
    var fs := [PyFormat.Auto, PyFormat.Lit(nl), PyFormat.Auto, PyFormat.Lit(nl), PyFormat.Auto];
    var none: map<string, string> := map[];
    var empty: seq<PyFormat.Field> := [];
    assert fs[1..][1..][1..][1..][1..] == empty;
    var r5 := PyFormat.Render(empty, args, none, 3);
    assert r5 == PyFormat.Ok("");
    var r4 := PyFormat.Render(fs[1..][1..][1..][1..], args, none, 2);
    var r3 := PyFormat.Render(fs[1..][1..][1..], args, none, 2);
    var r2 := PyFormat.Render(fs[1..][1..], args, none, 1);
    var r1 := PyFormat.Render(fs[1..], args, none, 1);
    var r0 := PyFormat.Render(fs, args, none, 0);
    if |args| == 2 {
      assert r4 == PyFormat.Err(PyFormat.IndexError(2));
      assert r3 == r4;
      assert r2 == r4;
      assert r1 == r4;
      assert r0 == r4;
    } else {
      assert r4 == PyFormat.Ok(args[2] + "");
      assert r3 == PyFormat.Ok(nl + (args[2] + ""));
      assert r2 == PyFormat.Ok(args[1] + (nl + (args[2] + "")));
      assert r1 == PyFormat.Ok(nl + (args[1] + (nl + (args[2] + ""))));
      assert r0 == PyFormat.Ok(args[0] + (nl + (args[1] + (nl + (args[2] + "")))));
      assert args[0] + (nl + (args[1] + (nl + (args[2] + "")))) == args[0] + nl + args[1] + nl + args[2];
    }
  }

  /** As written, `alert` never prints: formatting always fails on the third
      field, whatever the message. */
  lemma AlertAsWrittenFails(s: string)
    ensures AlertAsWritten(s) == PyFormat.Err(PyFormat.IndexError(2))
  {
    ParseThreeAutoFields('\n');
    assert ALERT_TEMPLATE == ['{', '}', '\n', '{', '}', '\n', '{', '}'];
    RenderAlertFields("\n", [Border(s), s]);
  }

  /** The evidently intended alert: the message between two borders of its
      own length, on three lines. */
  function Alert(s: string): (r: string)
    ensures r == Border(s) + "\n" + s + "\n" + Border(s)
  {
    AlertIntended(s);
    PyFormat.Format(ALERT_TEMPLATE, [Border(s), s, Border(s)], map[]).value
  }

  /** With the border passed a second time the template fills all three
      fields: border, message, border. */
  lemma AlertIntended(s: string)
    ensures PyFormat.Format(ALERT_TEMPLATE, [Border(s), s, Border(s)], map[])
            == PyFormat.Ok(Border(s) + "\n" + s + "\n" + Border(s))
  {
    ParseThreeAutoFields('\n');
    assert ALERT_TEMPLATE == ['{', '}', '\n', '{', '}', '\n', '{', '}'];
    RenderAlertFields("\n", [Border(s), s, Border(s)]);
  }

  /** What the join prints, as intended, for its misses, in order. */
  function MissAlerts(misses: seq<string>): seq<string>
  {
    seq(|misses|, i requires 0 <= i < |misses| => Alert(MissMessage(misses[i])))
  }

  /** The join loop as written: a record without a CAP reaches `alert`,
      whose formatting raises, so the join stops there. */
  function JoinAsWritten(rows: seq<Record>, caps: map<string, string>): PyFormat.Result<seq<Record>>
    requires HasCodes(rows)
  {
    if rows == [] then PyFormat.Ok([])
    else match JoinAsWritten(rows[..|rows| - 1], caps)
      case Err(e) => PyFormat.Err(e)
      case Ok(done) =>
        var row := rows[|rows| - 1];
        var code := row[KEY_CODICE_ISTAT];
        if code in caps then PyFormat.Ok(done + [row[CAP_EXTENSION := caps[code]]])
        else match AlertAsWritten(MissMessage(code))
          case Err(e) => PyFormat.Err(e)
          case Ok(_) => PyFormat.Ok(done + [row])
  }

  /** As written, the join completes exactly when no record misses, and then
      agrees with the intended join; a single miss makes it raise. */
  lemma {:induction false} JoinAsWrittenAborts(rows: seq<Record>, caps: map<string, string>)
    requires HasCodes(rows)
    ensures JoinAsWritten(rows, caps).Ok? <==> Misses(rows, caps) == []
    ensures JoinAsWritten(rows, caps).Err? ==> JoinAsWritten(rows, caps).error == PyFormat.IndexError(2)
    ensures JoinAsWritten(rows, caps).Ok? ==>
              JoinAsWritten(rows, caps).value == seq(|rows|, i requires 0 <= i < |rows| => JoinRow(rows[i], caps))
    decreases |rows|
  {
    if rows != [] {
      var init := rows[..|rows| - 1];
      JoinAsWrittenAborts(init, caps);
      JoinAsWrittenStep(rows, caps);
      if JoinAsWritten(rows, caps).Ok? {
        var r := JoinAsWritten(rows, caps).value;
        forall i | 0 <= i < |rows| ensures r[i] == JoinRow(rows[i], caps) {
          if i < |init| { assert rows[i] == init[i]; }
        }
      }
    }
  }

  /** One more record: a known code joins it, an unknown one raises. */
  lemma JoinAsWrittenStep(rows: seq<Record>, caps: map<string, string>)
    requires HasCodes(rows) && rows != []
    ensures var init, row := rows[..|rows| - 1], rows[|rows| - 1];
      JoinAsWritten(rows, caps) ==
        if JoinAsWritten(init, caps).Err? then JoinAsWritten(init, caps)
        else if row[KEY_CODICE_ISTAT] in caps then PyFormat.Ok(JoinAsWritten(init, caps).value + [JoinRow(row, caps)])
        else PyFormat.Err(PyFormat.IndexError(2))
  {
    AlertAsWrittenFails(MissMessage(rows[|rows| - 1][KEY_CODICE_ISTAT]));
  }
}
