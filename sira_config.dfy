/**
 * Assembly of the XML configuration from the seed text (`serialize_txt` and
 * the document framing of `main` in `preprocess_sira.py`), with a reader
 * for the document it writes: what the configuration parser recovers from
 * it.
 */
module SiraConfig {
  import opened Strings
  import opened SiraXml

  datatype SeedError =
    | NotTwoBlocks(blocks: nat)   // `a, b = text.split('\n\n')` unpacks the wrong count
    | NotTwoUrls(lines: nat)      // `x, y = urls.split('\n')` unpacks the wrong count

  datatype Result<T> = Ok(value: T) | Err(error: SeedError)

  /** The seed dictionary `serialize_txt` builds from the file contents. */
  function SeedDict(urlForXml: string, urlForCsv: string, items: seq<string>): map<string, Entry>
  {
    map[KEY_URL_FOR_XML := Scalar(urlForXml), KEY_URL_FOR_CSV := Scalar(urlForCsv), KEY_ISTAT_VALUES := List(items)]
  }

  /** `serialize_txt`, on the contents of the seed file (newlines already
      normalised to `\n` by the universal-newline read). */
  function SerializeTxt(contents: string): Result<string>
  {
    var blocks := Split(contents, "\n\n");
    if |blocks| != 2 then Err(NotTwoBlocks(|blocks|))
    else
      var urls := Split(blocks[0], "\n");
      if |urls| != 2 then Err(NotTwoUrls(|urls|))
      else
        var d := SeedDict(urls[0], urls[1], Split(Strip(blocks[1], '\n'), "\n"));
        Ok(ElemFor(KEY_URLS, Text(DictEntry(d, KEY_URL_FOR_XML) + DictEntry(d, KEY_URL_FOR_CSV)), KEY_ISTAT_VALUE)
           + DictEntry(d, KEY_ISTAT_VALUES))
  }

  const XML_DECLARATION := "<?xml version=\"1.0\" encoding=\"utf-8\"?><root>\n"
  const ROOT_CLOSE := "</root>"

  /** The document `main` writes: declaration and `<root>`, the three fixed
      path elements, the serialised seed and `</root>`. */
  function ConfigDocument(contents: string): (r: Result<string>)
    ensures r.Ok? <==> SerializeTxt(contents).Ok?
    ensures r.Err? ==> r.error == SerializeTxt(contents).error
    ensures r.Ok? ==> Encloses(r.value, SerializeTxt(contents).value)
  {
    match SerializeTxt(contents)
    case Err(e) => Err(e)
    case Ok(serialized) =>
      var e1 := ElemFor(KEY_TEMP_DIR, Text("tmp"), KEY_ISTAT_VALUE);
      var e2 := ElemFor(KEY_SQL_MODEL, Text("template.sql"), KEY_ISTAT_VALUE);
      var e3 := ElemFor(KEY_SQL_OUTPUT, Text("output.sql"), KEY_ISTAT_VALUE);
      FramedParts(e1, e2, e3, serialized);
      Ok(XML_DECLARATION + e1 + e2 + e3 + serialized + ROOT_CLOSE)
  }

  /** `doc` starts with the declaration and `<root>`, ends with `</root>`, and
      holds `ser` just before its end. */
  predicate Encloses(doc: string, ser: string)
  {
    |doc| >= |XML_DECLARATION| + |ser| + |ROOT_CLOSE|
    && doc[..|XML_DECLARATION|] == XML_DECLARATION
    && doc[|doc| - |ROOT_CLOSE| - |ser|..|doc| - |ROOT_CLOSE|] == ser
    && doc[|doc| - |ROOT_CLOSE|..] == ROOT_CLOSE
  }

  lemma FramedParts(e1: string, e2: string, e3: string, ser: string)
    ensures Encloses(XML_DECLARATION + e1 + e2 + e3 + ser + ROOT_CLOSE, ser)
  {
    var a, b, d := XML_DECLARATION, e1 + e2 + e3, ROOT_CLOSE;
    var s := a + e1 + e2 + e3 + ser + d;
    assert s == a + (b + ser + d);
    assert s == (a + b) + ser + d;
    assert s == (a + b + ser) + d;
  }

  // ---------------------------------------------------------------------
  // Well-formed seed files

  /** Text with no line break. */
  predicate OneLine(s: string)
  {
    '\n' !in s
  }

  /** The items of a seed file: at least one, each a non-empty line. */
  predicate ItemLines(items: seq<string>)
  {
    items != [] && forall j :: 0 <= j < |items| ==> items[j] != [] && OneLine(items[j])
  }

  /** A seed file: the two URLs on their own lines, a blank line, then one item
      per line, optionally ending with a newline. */
  function Seed(urlForXml: string, urlForCsv: string, items: seq<string>, finalNewline: bool): string
  {
    urlForXml + "\n" + urlForCsv + "\n\n" + Join("\n", items) + (if finalNewline then "\n" else "")
  }

  /** Never two line breaks in a row. */
  predicate NoBlankLine(s: string)
  {
    forall i :: 0 <= i < |s| - 1 ==> !(s[i] == '\n' && s[i + 1] == '\n')
  }

  lemma NoBlankLineNoMatch(s: string)
    requires NoBlankLine(s)
    ensures NoMatchBefore(s, "\n\n", |s|)
  {
    forall i: nat | i < |s| ensures !MatchAt(s, "\n\n", i) {
      if i + 2 <= |s| {
        assert s[i..i + 2][0] == s[i] && s[i..i + 2][1] == s[i + 1];
      }
    }
  }

  /** The item block starts and ends with an item character and has no blank line. */
  lemma {:induction false} ItemBlockShape(items: seq<string>)
    requires ItemLines(items)
    ensures var b := Join("\n", items);
      b != [] && b[0] != '\n' && b[|b| - 1] != '\n' && NoBlankLine(b)
    decreases |items|
  {
    var p := items[0];
    assert p[0] in p;
    if |items| > 1 {
      ItemBlockShape(items[1..]);
      var t := Join("\n", items[1..]);
      JoinCons("\n", p, items[1..]);
      var b := p + "\n" + t;
      assert b == Join("\n", items);
      forall i | 0 <= i < |b| - 1 ensures !(b[i] == '\n' && b[i + 1] == '\n') {
        if i < |p| {
          assert b[i] == p[i];
        } else if i == |p| {
          assert b[i + 1] == t[0];
        } else {
          assert b[i] == t[i - |p| - 1] && b[i + 1] == t[i - |p|];
        }
      }
      assert b[|b| - 1] == t[|t| - 1];
    } else {
      assert p[|p| - 1] in p;
    }
  }

  /** Stripping newlines from the item block undoes the optional final newline. */
  lemma StripItemBlock(items: seq<string>, finalNewline: bool)
    requires ItemLines(items)
    ensures var b := Join("\n", items);
      Strip(b + (if finalNewline then "\n" else ""), '\n') == b &&
      NoBlankLine(b + (if finalNewline then "\n" else ""))
  {
    var b := Join("\n", items);
    ItemBlockShape(items);
    var s := b + (if finalNewline then "\n" else "");
    assert s[0] == b[0];
    assert StripLeft(s, '\n') == s;
    if finalNewline {
      assert s[..|s| - 1] == b;
      assert StripRight(b, '\n') == b;
      forall i | 0 <= i < |s| - 1 ensures !(s[i] == '\n' && s[i + 1] == '\n') {
        assert s[i] == b[i];
        if i < |b| - 1 { assert s[i + 1] == b[i + 1]; }
      }
    } else {
      assert s == b;
    }
  }

  /** The two URL lines split into exactly two lines. */
  lemma SplitUrlLines(u1: string, u2: string)
    requires OneLine(u1) && OneLine(u2)
    ensures Split(u1 + "\n" + u2, "\n") == [u1, u2]
  {
    JoinCons("\n", u1, [u2]);
    assert Join("\n", [u1, u2]) == u1 + "\n" + u2;
    SplitJoinChar([u1, u2], '\n');
  }

  /** A seed file splits into its URL block and its item block. */
  lemma SplitSeedBlocks(u1: string, u2: string, rest: string)
    requires OneLine(u1) && OneLine(u2) && u2 != []
    requires NoBlankLine(rest)
    ensures Split(u1 + "\n" + u2 + "\n\n" + rest, "\n\n") == [u1 + "\n" + u2, rest]
  {
    var head := u1 + "\n" + u2;
    var c := head + "\n\n" + rest;
    var k := |head|;
    forall i: nat | i < k ensures !MatchAt(c, "\n\n", i) {
      assert c[i..i + 2][0] == c[i] && c[i..i + 2][1] == c[i + 1];
      if i < |u1| {
        assert c[i] == u1[i];
      } else if i == |u1| {
        assert c[i + 1] == u2[0];
      } else {
        assert c[i] == u2[i - |u1| - 1];
      }
    }
    assert c[k..k + 2] == "\n\n";
    SplitFirstMatch(c, "\n\n", k);
    assert c[..k] == head;
    assert c[k + 2..] == rest;
    NoBlankLineNoMatch(rest);
    SplitNoMatch(rest, "\n\n");
  }

  /** A well-formed seed file is serialised into the `urls` element holding
      the two URL elements, followed by the `items` element, every text
      escaped. */
  lemma SerializeSeed(u1: string, u2: string, items: seq<string>, finalNewline: bool)
    requires OneLine(u1) && OneLine(u2) && u2 != [] && ItemLines(items)
    ensures SerializeTxt(Seed(u1, u2, items, finalNewline)) ==
              Ok(Wrap(KEY_URLS, Wrap(KEY_URL_FOR_XML, Escape(u1)) + Wrap(KEY_URL_FOR_CSV, Escape(u2)))
                 + Wrap(KEY_ISTAT_VALUES, ItemElems(items)))
  {
    var rest := Join("\n", items) + (if finalNewline then "\n" else "");
    StripItemBlock(items, finalNewline);
    assert Seed(u1, u2, items, finalNewline) == u1 + "\n" + u2 + "\n\n" + rest;
    SplitSeedBlocks(u1, u2, rest);
    SplitUrlLines(u1, u2);
    forall j | 0 <= j < |items| ensures '\n' !in items[j] {
      assert OneLine(items[j]);
    }
    SplitJoinChar(items, '\n');
    SerializeTxtParts(Seed(u1, u2, items, finalNewline), u1, u2, rest, items);
  }

  /** The seed dictionary maps each of its three keys to its own entry. */
  lemma SeedDictEntries(u1: string, u2: string, items: seq<string>)
    ensures SeedDict(u1, u2, items)[KEY_URL_FOR_XML] == Scalar(u1)
    ensures SeedDict(u1, u2, items)[KEY_URL_FOR_CSV] == Scalar(u2)
    ensures SeedDict(u1, u2, items)[KEY_ISTAT_VALUES] == List(items)
  {
    assert KEY_URL_FOR_XML[8] != KEY_URL_FOR_CSV[8];
    assert |KEY_ISTAT_VALUES| != |KEY_URL_FOR_XML| && |KEY_ISTAT_VALUES| != |KEY_URL_FOR_CSV|;
  }

  /** What `serialize_txt` writes once the seed text has been split into
      the two URLs and the items. */
  lemma SerializeTxtParts(contents: string, u1: string, u2: string, rest: string, items: seq<string>)
    requires Split(contents, "\n\n") == [u1 + "\n" + u2, rest]
    requires Split(u1 + "\n" + u2, "\n") == [u1, u2]
    requires Split(Strip(rest, '\n'), "\n") == items
    ensures SerializeTxt(contents) ==
              Ok(Wrap(KEY_URLS, Wrap(KEY_URL_FOR_XML, Escape(u1)) + Wrap(KEY_URL_FOR_CSV, Escape(u2)))
                 + Wrap(KEY_ISTAT_VALUES, ItemElems(items)))
  {
    var d := SeedDict(u1, u2, items);
    SeedDictEntries(u1, u2, items);
    assert DictEntry(d, KEY_URL_FOR_XML) == Wrap(KEY_URL_FOR_XML, Escape(u1));
    assert DictEntry(d, KEY_URL_FOR_CSV) == Wrap(KEY_URL_FOR_CSV, Escape(u2));
    ListReadsBack(KEY_ISTAT_VALUES, items);
    assert DictEntry(d, KEY_ISTAT_VALUES) == Wrap(KEY_ISTAT_VALUES, ItemElems(items));
  }

  /** Without a blank line there is only one block, and serialising fails. */
  lemma SerializeNeedsBlankLine(contents: string)
    requires NoBlankLine(contents)
    ensures SerializeTxt(contents) == Err(NotTwoBlocks(1))
  {
    NoBlankLineNoMatch(contents);
    SplitNoMatch(contents, "\n\n");
  }

  // ---------------------------------------------------------------------
  // Reading the document back

  /** Reads `<tag>text</tag>` and its newline at the start of `s`: the decoded
      text and the length read. */
  function ReadLeadingText(tag: string, s: string): Option<(string, nat)>
  {
    match ReadBetween("<" + tag + ">", "</" + tag + ">\n", s)
    case None => None
    case Some((raw, n)) => Some((Unescape(raw), n))
  }

  /** Reads `open`, a raw text without `<`, and `close` at the start of `s`:
      the raw text and the length read. */
  function ReadBetween(open: string, close: string, s: string): Option<(string, nat)>
  {
    if !StartsWith(s, open) then None
    else
      var rest := s[|open|..];
      var n := IndexOfChar(rest, '<');
      if !StartsWith(rest[n..], close) then None
      else Some((rest[..n], |open| + n + |close|))
  }

  lemma ReadBetweenAt(open: string, e: string, close: string, tail: string)
    requires '<' !in e && close != [] && close[0] == '<'
    ensures ReadBetween(open, close, open + e + close + tail) == Some((e, |open + e + close|))
  {
    var s := open + e + close + tail;
    var rest := e + (close + tail);
    SplitAfter(open, e, close, tail);
    FirstLt(e, close, tail);
    var n := IndexOfChar(rest, '<');
    assert s[|open|..] == rest && n == |e|;
    assert StartsWith(s, open) && StartsWith(rest[n..], close) && rest[..n] == e;
  }

  lemma SplitAfter(open: string, e: string, close: string, tail: string)
    ensures StartsWith(open + e + close + tail, open)
    ensures (open + e + close + tail)[|open|..] == e + (close + tail)
  {
    var s := open + e + close + tail;
    assert s == open + (e + (close + tail));
    assert s[..|open|] == open;
  }

  lemma FirstLt(e: string, close: string, tail: string)
    requires '<' !in e && close != [] && close[0] == '<'
    ensures IndexOfChar(e + (close + tail), '<') == |e|
    ensures StartsWith((e + (close + tail))[|e|..], close)
    ensures (e + (close + tail))[..|e|] == e
  {
    IndexOfCharAt(e, close + tail, '<');
    assert (e + (close + tail))[|e|..] == close + tail;
    assert (close + tail)[..|close|] == close;
  }

  lemma ReadLeadingWrap(tag: string, e: string, tail: string)
    requires '<' !in e
    ensures ReadLeadingText(tag, Wrap(tag, e) + tail) == Some((Unescape(e), |Wrap(tag, e)|))
  {
    var open, close := "<" + tag + ">", "</" + tag + ">\n";
    assert Wrap(tag, e) == open + e + close;
    assert close[0] == '<';
    ReadBetweenAt(open, e, close, tail);
  }

  /** The fields of the configuration as the pipeline reads them. */
  datatype Config = Config(directory: string, sqlModel: string, sqlOutput: string,
                           urlForXml: string, urlForCsv: string, items: seq<string>)

  /** The `urls` and `items` elements: both URLs and the item list. */
  function ReadSerialized(s: string): Option<(string, string, seq<string>)>
  {
    var open := "<" + KEY_URLS + ">";
    if !StartsWith(s, open) then None
    else
      match ReadLeadingText(KEY_URL_FOR_XML, s[|open|..])
      case None => None
      case Some((x, n)) => ReadAfterXmlUrl(x, s[|open|..][n..])
  }

  function ReadAfterXmlUrl(x: string, s: string): Option<(string, string, seq<string>)>
  {
    match ReadLeadingText(KEY_URL_FOR_CSV, s)
    case None => None
    case Some((c, n)) => ReadAfterUrls(x, c, s[n..])
  }

  function ReadAfterUrls(x: string, c: string, s: string): Option<(string, string, seq<string>)>
  {
    var close := "</" + KEY_URLS + ">\n";
    if !StartsWith(s, close) then None
    else
      match ReadListElem(KEY_ISTAT_VALUES, s[|close|..])
      case None => None
      case Some(items) => Some((x, c, items))
  }

  /** The configuration held by a whole document. */
  function ReadConfigDocument(doc: string): Option<Config>
  {
    match Unframe(XML_DECLARATION, ROOT_CLOSE, doc)
    case None => None
    case Some(body) => ReadConfigBody(body)
  }

  /** What lies between `head` and `foot` when `doc` starts and ends with them. */
  function Unframe(head: string, foot: string, doc: string): Option<string>
  {
    if !StartsWith(doc, head) || !EndsWith(doc, foot) || |doc| < |head| + |foot| then None
    else Some(doc[|head|..|doc| - |foot|])
  }

  /** The three path elements, then the URLs and items. */
  function ReadConfigBody(body: string): Option<Config>
  {
    match ReadLeadingText(KEY_TEMP_DIR, body)
    case None => None
    case Some((dir, n)) => ReadAfterDirectory(dir, body[n..])
  }

  function ReadAfterDirectory(dir: string, s: string): Option<Config>
  {
    match ReadLeadingText(KEY_SQL_MODEL, s)
    case None => None
    case Some((model, n)) => ReadAfterModel(dir, model, s[n..])
  }

  function ReadAfterModel(dir: string, model: string, s: string): Option<Config>
  {
    match ReadLeadingText(KEY_SQL_OUTPUT, s)
    case None => None
    case Some((output, n)) =>
      match ReadSerialized(s[n..])
      case None => None
      case Some((x, c, items)) => Some(Config(dir, model, output, x, c, items))
  }

  lemma {:induction false} UnescapePlain(s: string)
    requires '&' !in s
    ensures Unescape(s) == s
    decreases |s|
  {
    if s != [] {
      UnescapeOther(s);
      UnescapePlain(s[1..]);
      assert s == [s[0]] + s[1..];
    }
  }

  /** The serialised seed reads back as its two URLs and its items. */
  lemma ReadSerializedSeed(u1: string, u2: string, items: seq<string>)
    ensures ReadSerialized(Wrap(KEY_URLS, Wrap(KEY_URL_FOR_XML, Escape(u1)) + Wrap(KEY_URL_FOR_CSV, Escape(u2)))
                           + Wrap(KEY_ISTAT_VALUES, ItemElems(items)))
            == Some((u1, u2, items))
  {
    var w1, w2 := Wrap(KEY_URL_FOR_XML, Escape(u1)), Wrap(KEY_URL_FOR_CSV, Escape(u2));
    var wi := Wrap(KEY_ISTAT_VALUES, ItemElems(items));
    var close := "</" + KEY_URLS + ">\n";
    ReadLeadingEscaped(KEY_URL_FOR_XML, u1, w2 + (close + wi));
    ReadLeadingEscaped(KEY_URL_FOR_CSV, u2, close + wi);
    UnwrapWrap(KEY_ISTAT_VALUES, ItemElems(items));
    ReadItemElems(items);
    ReadSerializedParts(w1, w2, wi, u1, u2, items);
  }

  /** The `urls` element followed by the items element reads back as the
      texts its two children and the items element read back as. */
  lemma ReadSerializedParts(w1: string, w2: string, wi: string, x: string, c: string, items: seq<string>)
    requires ReadLeadingText(KEY_URL_FOR_XML, w1 + (w2 + ("</" + KEY_URLS + ">\n" + wi))) == Some((x, |w1|))
    requires ReadLeadingText(KEY_URL_FOR_CSV, w2 + ("</" + KEY_URLS + ">\n" + wi)) == Some((c, |w2|))
    requires ReadListElem(KEY_ISTAT_VALUES, wi) == Some(items)
    ensures ReadSerialized(Wrap(KEY_URLS, w1 + w2) + wi) == Some((x, c, items))
  {
    var open, close := "<" + KEY_URLS + ">", "</" + KEY_URLS + ">\n";
    var rest := w1 + (w2 + (close + wi));
    ReadAfterUrlsParts(x, c, close, wi, items);
    ReadAfterXmlUrlParts(x, c, w2, close + wi, items);
    assert rest[|w1|..] == w2 + (close + wi);
    UrlsOpen(w1, w2, wi);
    ReadSerializedFrom(Wrap(KEY_URLS, w1 + w2) + wi, rest, x, |w1|, Some((x, c, items)));
  }

  lemma UrlsOpen(w1: string, w2: string, wi: string)
    ensures StartsWith(Wrap(KEY_URLS, w1 + w2) + wi, "<" + KEY_URLS + ">")
    ensures (Wrap(KEY_URLS, w1 + w2) + wi)[|"<" + KEY_URLS + ">"|..] == w1 + (w2 + ("</" + KEY_URLS + ">\n" + wi))
  {
    var open := "<" + KEY_URLS + ">";
    assert Wrap(KEY_URLS, w1 + w2) + wi == open + (w1 + (w2 + ("</" + KEY_URLS + ">\n" + wi)));
  }

  lemma ReadSerializedFrom(s: string, rest: string, x: string, n: nat, r: Option<(string, string, seq<string>)>)
    requires StartsWith(s, "<" + KEY_URLS + ">") && s[|"<" + KEY_URLS + ">"|..] == rest
    requires ReadLeadingText(KEY_URL_FOR_XML, rest) == Some((x, n))
    requires ReadAfterXmlUrl(x, rest[n..]) == r
    ensures ReadSerialized(s) == r
  {
  }

  lemma ReadAfterXmlUrlParts(x: string, c: string, w2: string, tail: string, items: seq<string>)
    requires ReadLeadingText(KEY_URL_FOR_CSV, w2 + tail) == Some((c, |w2|))
    requires ReadAfterUrls(x, c, tail) == Some((x, c, items))
    ensures ReadAfterXmlUrl(x, w2 + tail) == Some((x, c, items))
  {
    assert (w2 + tail)[|w2|..] == tail;
  }

  lemma ReadAfterUrlsParts(x: string, c: string, close: string, wi: string, items: seq<string>)
    requires close == "</" + KEY_URLS + ">\n"
    requires ReadListElem(KEY_ISTAT_VALUES, wi) == Some(items)
    ensures ReadAfterUrls(x, c, close + wi) == Some((x, c, items))
  {
    assert (close + wi)[..|close|] == close;
    assert (close + wi)[|close|..] == wi;
  }

  /** An element holding escaped text reads back as the text. */
  lemma ReadLeadingEscaped(tag: string, u: string, tail: string)
    ensures ReadLeadingText(tag, Wrap(tag, Escape(u)) + tail) == Some((u, |Wrap(tag, Escape(u))|))
  {
    EscapeNoLt(u);
    ReadLeadingWrap(tag, Escape(u), tail);
    UnescapeEscape(u);
  }

  /** A fixed path element reads back as its text. */
  lemma ReadFixedElem(tag: string, v: string, tail: string)
    requires '<' !in v && '&' !in v
    ensures ReadLeadingText(tag, ElemFor(tag, Text(v), KEY_ISTAT_VALUE) + tail) == Some((v, |Wrap(tag, v)|))
  {
    ReadLeadingWrap(tag, v, tail);
    UnescapePlain(v);
  }

  /** For a well-formed seed file, `main` writes a document from which the
      configuration reader recovers the three fixed paths, both URLs and every
      item, in order. */
  lemma ConfigDocumentReadsBack(u1: string, u2: string, items: seq<string>, finalNewline: bool)
    requires OneLine(u1) && OneLine(u2) && u2 != [] && ItemLines(items)
    ensures ConfigDocument(Seed(u1, u2, items, finalNewline)).Ok?
    ensures ReadConfigDocument(ConfigDocument(Seed(u1, u2, items, finalNewline)).value)
            == Some(Config("tmp", "template.sql", "output.sql", u1, u2, items))
  {
    SerializeSeed(u1, u2, items, finalNewline);
    var ser := SerializeTxt(Seed(u1, u2, items, finalNewline)).value;
    var e1 := ElemFor(KEY_TEMP_DIR, Text("tmp"), KEY_ISTAT_VALUE);
    var e2 := ElemFor(KEY_SQL_MODEL, Text("template.sql"), KEY_ISTAT_VALUE);
    var e3 := ElemFor(KEY_SQL_OUTPUT, Text("output.sql"), KEY_ISTAT_VALUE);
    assert ConfigDocument(Seed(u1, u2, items, finalNewline)).value
           == XML_DECLARATION + e1 + e2 + e3 + ser + ROOT_CLOSE;
    PlainPaths();
    ReadFixedElem(KEY_TEMP_DIR, "tmp", e2 + (e3 + ser));
    ReadFixedElem(KEY_SQL_MODEL, "template.sql", e3 + ser);
    ReadFixedElem(KEY_SQL_OUTPUT, "output.sql", ser);
    ReadSerializedSeed(u1, u2, items);
    ReadBodyParts(e1, e2, e3, ser, "tmp", "template.sql", "output.sql", u1, u2, items);
    UnframeFrame(XML_DECLARATION, e1, e2, e3, ser, ROOT_CLOSE);
  }

  /** A body made of three leading elements and the serialised seed reads
      back as what each of its parts reads back as. */
  lemma ReadBodyParts(e1: string, e2: string, e3: string, ser: string,
                      dir: string, model: string, output: string,
                      x: string, c: string, items: seq<string>)
    requires ReadLeadingText(KEY_TEMP_DIR, e1 + (e2 + (e3 + ser))) == Some((dir, |e1|))
    requires ReadLeadingText(KEY_SQL_MODEL, e2 + (e3 + ser)) == Some((model, |e2|))
    requires ReadLeadingText(KEY_SQL_OUTPUT, e3 + ser) == Some((output, |e3|))
    requires ReadSerialized(ser) == Some((x, c, items))
    ensures ReadConfigBody(e1 + (e2 + (e3 + ser))) == Some(Config(dir, model, output, x, c, items))
  {
    ReadAfterModelParts(e3, ser, dir, model, output, x, c, items);
    ReadAfterDirectoryParts(e2, e3 + ser, dir, model, Some(Config(dir, model, output, x, c, items)));
    var body := e1 + (e2 + (e3 + ser));
    assert body[|e1|..] == e2 + (e3 + ser);
  }

  lemma ReadAfterDirectoryParts(e2: string, rest: string, dir: string, model: string, r: Option<Config>)
    requires ReadLeadingText(KEY_SQL_MODEL, e2 + rest) == Some((model, |e2|))
    requires ReadAfterModel(dir, model, rest) == r
    ensures ReadAfterDirectory(dir, e2 + rest) == r
  {
    assert (e2 + rest)[|e2|..] == rest;
  }

  lemma ReadAfterModelParts(e3: string, ser: string, dir: string, model: string, output: string,
                            x: string, c: string, items: seq<string>)
    requires ReadLeadingText(KEY_SQL_OUTPUT, e3 + ser) == Some((output, |e3|))
    requires ReadSerialized(ser) == Some((x, c, items))
    ensures ReadAfterModel(dir, model, e3 + ser) == Some(Config(dir, model, output, x, c, items))
  {
    assert (e3 + ser)[|e3|..] == ser;
  }

  /** Framing a body and taking the frame off again gives the body back. */
  lemma UnframeFrame(head: string, e1: string, e2: string, e3: string, ser: string, foot: string)
    ensures Unframe(head, foot, head + e1 + e2 + e3 + ser + foot) == Some(e1 + (e2 + (e3 + ser)))
  {
    var body := e1 + (e2 + (e3 + ser));
    var doc := head + e1 + e2 + e3 + ser + foot;
    assert doc == head + body + foot;
    assert doc[..|head|] == head;
    assert doc[|doc| - |foot|..] == foot;
    assert doc[|head|..|doc| - |foot|] == body;
  }

  lemma PlainPaths()
    ensures '<' !in "tmp" && '&' !in "tmp"
    ensures '<' !in "template.sql" && '&' !in "template.sql"
    ensures '<' !in "output.sql" && '&' !in "output.sql"
  {
  }
}
