# Toscana petrol-station parser and SIRA configuration builder, in Dafny

This project models two Python 2 scripts that build an SQL load script of
Tuscan fuel-station records.

- `preprocess_sira.py` reads a small seed text file. The file holds two URLs
  on two lines, a blank line, and then one ISTAT municipality code per line.
  The script writes an XML configuration document from it: the fixed
  directory and SQL file names, the two URLs, and the codes as `<item>`
  elements. Every seed value is XML-escaped; the three fixed names `tmp`,
  `template.sql` and `output.sql` are written as they are.
- `toscana_parser_unrelated_mod.py` turns that configuration into downloads.
  It substitutes each code into the URL template at the `__CODICE_ISTAT_`
  marker and stages one `tmp_<code>.csv` file per code. It then reads every
  staged `.csv` file in sorted name order and projects each row onto seven
  canonical columns. It then joins a postal code (CAP) onto each record by its
  ISTAT code. The join always runs: `main` asks for the CAP file with
  `config.setdefault('--cap', CAP_COMUNI_CSV)` on the dictionary read from the
  XML configuration, which never holds `--cap`, so the default file is used.
  Finally it expands an SQL template once per record.

The Dafny modules follow that structure:

| module | file | models |
|---|---|---|
| `Strings` | `strings.dfy` | Python's `str.split`, `join`, `replace`, `strip` |
| `PyFormat` | `pyformat.dfy` | the part of `str.format` the scripts use: `{}`, `{name}`, `{{`, `}}` |
| `SiraXml` | `sira_xml.dfy` | `escape`, `xml_elem_for`, `xml_elem_for_dict_entry`, plus a reader for the elements they write |
| `SiraConfig` | `sira_config.dfy` | `serialize_txt` and the document framing of `main`, plus a reader for the whole document |
| `Paths` | `paths.dfy` | `abspath_here_if_not`, `tmp_csv_file`, `csv_already_downloaded`, the URL marker substitution |
| `Projection` | `projection.dfy` | `skip_head`, `projection_from_csv_row`, `parse_csv` |
| `CapJoin` | `cap_join.dfy` | `pair_istatcode_cap`, `join_cap_to_matrix_by_istat`, `alert` |
| `SqlRender` | `sql_render.dfy` | `format_sql` |
| `Pipeline` | `pipeline.dfy` | lines 92-97 of `main`: list, filter, sort and concatenate the staged files |

Errors that Python raises become values of a `Result` datatype:

- `list.index` on a missing column is `ColumnMissing`.
- Indexing past the end of a short row is `RowTooShort`.
- `str.format` errors are `IndexError`, `KeyError`, `SingleOpenBrace`,
  `SingleCloseBrace` and `UnmatchedOpenBrace`. As in Python 2.7, the template
  is read left to right and each field is filled as soon as it is read, so a
  missing argument before a stray brace is the error reported. A field runs to
  the `}` that balances its `{`, so a keyword name may hold balanced braces.
- Unpacking the wrong number of blocks or lines in `serialize_txt` is `NotTwoBlocks` or `NotTwoUrls`.

Loops that build a list (`parse_csv`, `format_sql`, the matrix loop of `main`)
are methods with loop invariants. Each is proved equal to a prefix-recursive
specification function, and the properties are lemmas about that function.
The CAP join updates an `array` of records in place. Its method is specified
record by record: each record becomes its `JoinRow` form, and the codes it
returns are `Misses` of the old records.

## Model

| member | source | states |
|---|---|---|
| Strings.ReplaceIsJoinSplit | preprocess_sira.py:55-59 | `s.replace(pat, rep)` equals `rep.join(s.split(pat))`: leftmost, non-overlapping occurrences are replaced |
| Strings.SplitFirstMatch | preprocess_sira.py:84 | splitting at the first occurrence of the separator gives the text before it, then the split of the rest |
| Strings.SplitJoinChar | toscana_parser_unrelated_mod.py:266 | for a one-character separator absent from every part, splitting the joined text gives back the parts |
| PyFormat.RenderSucceeds | toscana_parser_unrelated_mod.py:265 | substitution succeeds iff every `{name}` is a supplied keyword and there are enough positional arguments for the `{}` fields |
| PyFormat.ParsePlain | toscana_parser_unrelated_mod.py:265 | a template without braces formats to itself |
| PyFormat.FormatSucceeds | toscana_parser_unrelated_mod.py:265 | formatting succeeds iff the whole template reads without a brace error, every `{name}` is a supplied keyword and there are enough positional arguments |
| PyFormat.FieldBeforeStrayBrace | toscana_parser_unrelated_mod.py:265 | `"{x} }"` with no keyword `x` raises `KeyError('x')`: the field is filled before the stray `}` is reached |
| PyFormat.NestedBracesInName | toscana_parser_unrelated_mod.py:265 | `"{a{b}c}"` fills the field named `a{b}c`: a field runs to its balancing `}` |
| SiraXml.Escape | preprocess_sira.py:54-59 | escaped text holds no `<`, `>`, `"` or `'`, and every `&` in it starts one of the five entities |
| SiraXml.EscapeIsCharwise | preprocess_sira.py:54-59 | the five chained replacements, `&` first, equal a single pass that replaces each special character by its entity, so nothing is escaped twice |
| SiraXml.EscapeAppend | preprocess_sira.py:54-59 | escaping distributes over concatenation |
| SiraXml.EscapePlain | preprocess_sira.py:54-59 | text without special characters is unchanged |
| SiraXml.UnescapeEscape | preprocess_sira.py:54-59 | decoding the five entities of escaped text gives back the original text |
| SiraXml.EscapeNoLt | preprocess_sira.py:54-59 | escaped text holds no `<`, so no element can start inside an escaped value |
| SiraXml.ElemFor | preprocess_sira.py:61-66 | no contract of its own: `ElemForFramed` states its tags, `ElemForText` and `ListReadsBack` that what it writes reads back as the value |
| SiraXml.ElemForFramed | preprocess_sira.py:61-66 | every element, scalar or list, opens with `<tag>` and closes with `</tag>` and a newline |
| SiraXml.ElemForEscapedItems | preprocess_sira.py:62-64 | the elements of escaped list entries are exactly the `<item>` elements of the entries |
| SiraXml.ElemForText | preprocess_sira.py:65 | a scalar element, read back, yields its decoded value: the builder writes exactly the tags around the value |
| SiraXml.ReadItemElems | preprocess_sira.py:62-64 | a run of `<item>` elements of escaped strings reads back as exactly those strings, in order |
| SiraXml.DictEntryReadsBack | preprocess_sira.py:68-76 | a dictionary entry's element reads back as the entry: the scalar string, or the list of strings |
| SiraXml.DictEntry | preprocess_sira.py:68-76 | no contract of its own: `DictEntryFramed` states its tags, `DictEntryReadsBack` that it reads back as the entry |
| SiraXml.DictEntryFramed | preprocess_sira.py:68-76 | a dictionary entry's element opens and closes with the key's tags |
| SiraXml.ScalarReadsBack | preprocess_sira.py:73-76 | a scalar escaped once and wrapped reads back as itself |
| SiraXml.ListReadsBack | preprocess_sira.py:71-72 | a list entry's element is the tag around its `<item>` elements, and it reads back as the list |
| SiraConfig.SplitSeedBlocks | preprocess_sira.py:84 | a seed file splits at its single blank line into the URL block and the item block |
| SiraConfig.SplitUrlLines | preprocess_sira.py:85 | the URL block splits into exactly the two URLs |
| SiraConfig.StripItemBlock | preprocess_sira.py:86 | stripping newlines from the item block removes only an optional final newline |
| SiraConfig.SerializeTxtParts | preprocess_sira.py:82-93 | once the three splits are known, the output is the `<urls>` element around the two escaped URL elements, then the `<items>` element |
| SiraConfig.SerializeSeed | preprocess_sira.py:78-93 | a well-formed seed file serialises to the `<urls>` element and the `<items>` element, every value escaped |
| SiraConfig.SerializeNeedsBlankLine | preprocess_sira.py:84 | contents without a blank line fail to unpack into two blocks |
| SiraConfig.SerializeTxt | preprocess_sira.py:78-93 | no contract of its own: `SerializeSeed` and `SerializeTxtParts` state its output for a well-formed seed file, `SerializeNeedsBlankLine` its failure without a blank line |
| SiraConfig.ConfigDocument | preprocess_sira.py:95-101 | the document exists iff the seed serialises, and passes its error on; it starts with the XML declaration and `<root>`, ends with `</root>`, and holds the serialised seed just before the end |
| SiraConfig.ReadLeadingEscaped | preprocess_sira.py:89-91 | an element of an escaped value, followed by anything, reads back as the value and its length |
| SiraConfig.ReadFixedElem | preprocess_sira.py:97-99 | a fixed name with no `<` or `&` reads back unchanged |
| SiraConfig.ReadSerializedSeed | preprocess_sira.py:88-91 | the serialised seed reads back as the two URLs and the item list |
| SiraConfig.ConfigDocumentReadsBack | preprocess_sira.py:95-101 | the document of a well-formed seed file reads back as `tmp`, `template.sql`, `output.sql`, the two URLs and the items |
| SiraConfig.UnframeFrame | preprocess_sira.py:96-101 | removing the declaration with `<root>` and the closing `</root>` leaves the document body |
| Paths.PathJoin | toscana_parser_unrelated_mod.py:171 | `os.path.join` keeps an absolute second part, and otherwise ends with it |
| Paths.Basename | toscana_parser_unrelated_mod.py:189 | the base name is the slash-free suffix after the last `/` |
| Paths.AbsPathHereIfNot | toscana_parser_unrelated_mod.py:167-171 | the result is absolute; an absolute path is kept; a relative one is placed under the script directory |
| Paths.AbsPathIdempotent | toscana_parser_unrelated_mod.py:167-171 | resolving a resolved path changes nothing |
| Paths.TmpCsvFile | toscana_parser_unrelated_mod.py:201-202 | the staging path ends with the file name `tmp_<code><suffix>.csv`; `TmpCsvFileInjective` shows distinct codes get distinct paths |
| Paths.TmpCsvFileInjective | toscana_parser_unrelated_mod.py:201-202 | different codes give different staging files |
| Paths.BasenameTmpCsvFile | toscana_parser_unrelated_mod.py:189 | the base name of a staging file is its file name when code and suffix hold no `/` |
| Paths.CsvAlreadyDownloadedIff | toscana_parser_unrelated_mod.py:188-189 | a code counts as downloaded iff `tmp_<code>.csv` is in the directory listing |
| Paths.CsvAlreadyDownloaded | toscana_parser_unrelated_mod.py:188-189 | no contract of its own: `CsvAlreadyDownloadedIff` states it holds iff `tmp_<code>.csv` is listed |
| Paths.IstatUrlNoMarker | toscana_parser_unrelated_mod.py:207-211 | a URL without the marker is requested unchanged |
| Paths.IstatUrlOneMarker | toscana_parser_unrelated_mod.py:207-211 | a URL with one marker has the code in its place and nothing else changed |
| Paths.IstatUrl | toscana_parser_unrelated_mod.py:207-211 | no contract of its own: `IstatUrlNoMarker` and `IstatUrlOneMarker` state what it leaves and what it replaces |
| Projection.HeaderPos | toscana_parser_unrelated_mod.py:249-252 | the header is the first row with more than one field; no earlier row qualifies; none when no row qualifies |
| Projection.SkipHead | toscana_parser_unrelated_mod.py:249-252 | returns the first row with more than one field and the position after it, or nothing with all rows consumed |
| Projection.SkipHeadAgrees | toscana_parser_unrelated_mod.py:249-252 | the loop's result is the same header position as the specification function |
| Projection.IndexOf | toscana_parser_unrelated_mod.py:257 | `list.index` fails iff the column is absent; otherwise the position holds the column |
| Projection.IndexOfFirst | toscana_parser_unrelated_mod.py:257 | the position found is the first occurrence |
| Projection.Project | toscana_parser_unrelated_mod.py:254-259 | no contract of its own: `ProjectPrefixOk`, `ProjectPrefixErr` and `ProjectPrefixValues` state when it succeeds, which column it fails on and the values it holds |
| Projection.ProjectionFromCsvRow | toscana_parser_unrelated_mod.py:254-259 | the loop's result equals the projection specification, errors included |
| Projection.ProjectPrefixOk | toscana_parser_unrelated_mod.py:254-259 | projection succeeds iff every projected column is in the header and inside the row; the record's keys are then exactly the aliases |
| Projection.ProjectPrefixErr | toscana_parser_unrelated_mod.py:256-257 | a failure names the first unreadable column: missing from the header, or past the end of the row |
| Projection.ProjectPrefixValues | toscana_parser_unrelated_mod.py:256-258 | with distinct aliases, each alias holds the normalised value of its source column |
| Projection.RecordKeys | toscana_parser_unrelated_mod.py:254-259 | a projected record's keys are exactly the aliases |
| Projection.ProjectPermuted | toscana_parser_unrelated_mod.py:257 | reordering the columns of the header and of the row together does not change the record, when header names are distinct |
| Projection.NormalizeCharwise | toscana_parser_unrelated_mod.py:258 | any value except `-` has each `'` replaced by a backslash and `'` |
| Projection.NormalizeRoundTrip | toscana_parser_unrelated_mod.py:258 | removing the added backslashes gives back the original value, for any value except `-` |
| Projection.NormalizeEmpty | toscana_parser_unrelated_mod.py:258 | the normalised value is empty iff the source value is `-` or empty |
| Projection.Normalize | toscana_parser_unrelated_mod.py:258 | no contract of its own: `NormalizeCharwise`, `NormalizeRoundTrip` and `NormalizeEmpty` state what it does to each character and that it can be undone |
| Projection.ParseCsvSpec | toscana_parser_unrelated_mod.py:239-247 | no contract of its own: `ParseCsvShape` and `ParseCsvKeys` state its result; `ParseCsv` is proved equal to it |
| Projection.ParseCsv | toscana_parser_unrelated_mod.py:239-247 | the loop's result equals the table specification: the header found, then every later row projected |
| Projection.ProjectRowsOk | toscana_parser_unrelated_mod.py:245-246 | the rows project iff each row does; there is then one record per row, in order |
| Projection.ParseCsvShape | toscana_parser_unrelated_mod.py:239-247 | without a header the result is empty; otherwise it succeeds iff every row after the header projects, one record per row, in order |
| Projection.ParseCsvKeys | toscana_parser_unrelated_mod.py:239-247 | every parsed record has exactly the alias columns as keys |
| CapJoin.PairIstatcodeCap | toscana_parser_unrelated_mod.py:281-290 | the CAP file is parsed as a table projected on `Istat` and `CAP`, aliased `istat` and `cap` |
| CapJoin.PairsHaveKeys | toscana_parser_unrelated_mod.py:281-290 | every parsed pair has both the `istat` and `cap` keys |
| CapJoin.CapsByIstat | toscana_parser_unrelated_mod.py:271-272 | no contract of its own: `CapsByIstatLastWins` states its keys and that the last pair with a code wins |
| CapJoin.CapsByIstatLastWins | toscana_parser_unrelated_mod.py:271 | a code is a key iff some pair has it, and it maps to the CAP of the last pair with that code |
| CapJoin.JoinRow | toscana_parser_unrelated_mod.py:276 | a record with a known code gains `cap` set to its CAP; every other key and value is kept; an unknown code leaves the record unchanged |
| CapJoin.JoinCap | toscana_parser_unrelated_mod.py:274-278 | every record of the array is replaced by its joined form, and the unmatched codes are returned in matrix order |
| CapJoin.JoinCapToMatrixByIstat | toscana_parser_unrelated_mod.py:269-278 | a CAP file that fails to parse leaves the matrix unchanged; otherwise every record is joined against the last-wins lookup and the misses are returned |
| CapJoin.MissesAreUnknown | toscana_parser_unrelated_mod.py:274-278 | a code is reported iff some record has it and the lookup lacks it |
| CapJoin.MissesExtremes | toscana_parser_unrelated_mod.py:274-278 | no misses when every code is known; every record's code, in order, when none is |
| CapJoin.Misses | toscana_parser_unrelated_mod.py:274-278 | no contract of its own: `MissesAreUnknown` and `MissesExtremes` state which codes it reports; `JoinCap` returns it |
| CapJoin.ParseThreeAutoFields | toscana_parser_unrelated_mod.py:130 | a template of three `{}` fields separated by one plain character, as the alert's is by newlines, parses to three automatic fields with that character between them |
| CapJoin.RenderAlertFields | toscana_parser_unrelated_mod.py:130 | with two arguments the third field raises `IndexError`; with three the result is the arguments on three lines |
| CapJoin.AlertAsWrittenFails | toscana_parser_unrelated_mod.py:128-130 | the alert as written raises `IndexError` for every message |
| CapJoin.AlertAsWritten | toscana_parser_unrelated_mod.py:128-130 | no contract of its own: `AlertAsWrittenFails` states it always raises `IndexError` |
| CapJoin.AlertIntended | toscana_parser_unrelated_mod.py:128-130 | with the border passed again, the template gives border, message and border on three lines |
| CapJoin.Alert | toscana_parser_unrelated_mod.py:128-130 | the alert is the message between two borders of its length, on three lines |
| CapJoin.JoinAsWrittenAborts | toscana_parser_unrelated_mod.py:274-278 | the join as written completes iff no code misses, and then joins every record; otherwise it raises the alert's `IndexError` |
| CapJoin.JoinAsWritten | toscana_parser_unrelated_mod.py:274-278 | no contract of its own: `JoinAsWrittenAborts` states when it completes and what it raises |
| SqlRender.FormatSql | toscana_parser_unrelated_mod.py:261-266 | the loop's result equals the specification: the expansions joined by newlines, or the first expansion's error |
| SqlRender.ExpandAllOk | toscana_parser_unrelated_mod.py:264-265 | expansion succeeds iff each record's does, giving one expansion per record, in order |
| SqlRender.ExpandOk | toscana_parser_unrelated_mod.py:265 | a record's expansion succeeds iff the template parses, has no `{}` field and names only keys of the record |
| SqlRender.Expand | toscana_parser_unrelated_mod.py:265 | no contract of its own: `ExpandOk` states when it succeeds, `FormatSqlPlain` what a template without braces gives |
| SqlRender.FormatSqlEmpty | toscana_parser_unrelated_mod.py:266 | no records give the empty string |
| SqlRender.FormatSqlShape | toscana_parser_unrelated_mod.py:261-266 | the output is the expansions in matrix order separated by newlines; when no expansion holds a newline, splitting recovers them |
| SqlRender.FormatSqlPlain | toscana_parser_unrelated_mod.py:261-266 | a template without braces is copied once per record |
| SqlRender.FormatSqlSpec | toscana_parser_unrelated_mod.py:261-266 | no contract of its own: `FormatSqlEmpty`, `FormatSqlShape` and `ExpandAllOk` state its result; `FormatSql` is proved equal to it |
| Pipeline.LexTotal | toscana_parser_unrelated_mod.py:94 | the string order used by `sorted` is total |
| Pipeline.LexTrans | toscana_parser_unrelated_mod.py:94 | the string order is transitive |
| Pipeline.LexAntisym | toscana_parser_unrelated_mod.py:94 | the string order is antisymmetric |
| Pipeline.SortSortedPermutation | toscana_parser_unrelated_mod.py:94 | `sorted` returns an ordered permutation of its input |
| Pipeline.SortedUnique | toscana_parser_unrelated_mod.py:94 | two ordered permutations of the same strings are equal |
| Pipeline.SortOrderFree | toscana_parser_unrelated_mod.py:94 | sorting does not depend on the input order |
| Pipeline.Sort | toscana_parser_unrelated_mod.py:94 | no contract of its own: `SortSortedPermutation`, `SortedUnique` and `SortOrderFree` state it returns the unique ordered permutation |
| Pipeline.CsvPathsSelect | toscana_parser_unrelated_mod.py:93 | a path is selected iff it is the directory joined with a listed name ending in `.csv`; every selected path ends in `.csv` |
| Pipeline.CsvPathsAppend | toscana_parser_unrelated_mod.py:93 | selecting from two listings one after the other concatenates the selections |
| Pipeline.CsvPathsMultiset | toscana_parser_unrelated_mod.py:93 | listings with the same names select the same paths, up to order |
| Pipeline.CsvPaths | toscana_parser_unrelated_mod.py:93 | no contract of its own: `CsvPathsSelect`, `CsvPathsAppend` and `CsvPathsMultiset` state which paths it selects |
| Pipeline.CollectMatrix | toscana_parser_unrelated_mod.py:92-97 | the loop's result equals the matrix specification: the sorted `.csv` files parsed and appended in turn |
| Pipeline.ResultMatrixOrderFree | toscana_parser_unrelated_mod.py:92-97 | the matrix does not depend on the order in which the directory lists its files |
| Pipeline.ResultMatrix | toscana_parser_unrelated_mod.py:92-97 | no contract of its own: `CollectFilesConcat`, `CollectFilesKeys` and `ResultMatrixOrderFree` state its records; `CollectMatrix` is proved equal to it |
| Pipeline.CollectFilesConcat | toscana_parser_unrelated_mod.py:94-97 | the matrix succeeds iff every file parses; each file then appends exactly its own records after those of the earlier files |
| Pipeline.CollectFilesKeys | toscana_parser_unrelated_mod.py:92-97 | every record of the matrix has exactly the seven canonical columns as keys |

## Left out

- Network access is not modelled: `curl`, `urllib2.urlopen`, `read_as_zip`, `save_zip_temp` and the `download_zips` loop with its `KeyboardInterrupt` exit. Only the URL each code requests (`Paths.IstatUrl`) and the staging file name are modelled.
- The file system is a parameter. Directory listings are `seq<string>`. File contents are passed in: a staged file as its rows, the SQL template as text, the seed file as text after universal-newline reading. `mk_temp_dir`, file writes and the output file are left out.
- The CSV dialect is not modelled. A file is already a sequence of rows of fields, so tab and `;` delimiters and quoting belong to the `csv` module. `parse_csv_file` only opens the file, so it is the same as `Projection.ParseCsv` on its rows.
- `parse_source_xml` and `getElemValue` (minidom) are not modelled. Instead, `SiraConfig.ReadConfigDocument` reads back the document `preprocess_sira.py` writes, so that its round trip can be stated.
- PyFormat.Format: only literal text, `{{`, `}}`, `{}` and `{name}` are modelled. Conversions (`!r`), format specifications (`:>5`), numeric indices and attribute access are read as part of a keyword name. Neither script's templates use them.
- `log` and `print` output are not modelled. The join returns its unmatched codes instead; `CapJoin.MissAlerts` lists the alert each would print as intended.
- Command-line handling (`docopt`, `sys.exit`, `args.setdefault`) and the `__main__` block are not modelled. `main` always joins with the default CAP file, as described above; the CAP file's rows are a parameter of `CapJoin.JoinCapToMatrixByIstat`.
- `HERE_DIR` is a parameter of `Paths.AbsPathHereIfNot`, assumed absolute as `os.path.abspath` makes it.
- Python 2's `str`/`unicode` distinction is not modelled. Every string is a sequence of characters, and `str(x)` and `unicode(x)` of a string are the string itself.
- Projection.ProjectionFromCsvRow: requires at least as many aliases as projected columns. The source's callers always pass lists of equal length, and a shorter alias list would raise `IndexError` in the source.
- CapJoin.JoinCap: requires every record to carry `codiceistat`. Records from `parse_csv` always do (`Projection.ParseCsvKeys`, `Pipeline.CollectFilesKeys`). A record without the key would raise `KeyError` in the source's own `except` branch.
- `os.path.join` and `os.path.basename` follow POSIX rules; Windows paths are not modelled.

## Findings

| source | as written | input that shows it | evidently intended | confidence | as-written member | corrected member |
|---|---|---|---|---|---|---|
| toscana_parser_unrelated_mod.py:128-130 | `"{}\n{}\n{}".format(bord, s)` passes two arguments to a template with three fields, so `alert` raises `IndexError` instead of printing; the CAP join therefore stops at the first record whose code has no CAP | any message, e.g. the first record whose ISTAT code is missing from the CAP file | the message printed between two borders, and the join continuing with the next record | not executed | CapJoin.AlertAsWrittenFails, CapJoin.JoinAsWrittenAborts | CapJoin.AlertIntended, CapJoin.JoinCap |

The rest of the model uses the corrected behaviour: `CapJoin.JoinCap` completes the join and reports every miss.
