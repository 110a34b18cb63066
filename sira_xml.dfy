/**
 * Serialisation of the seed text file into the XML configuration document
 * (`preprocess_sira.py`): character-entity escaping, the recursive element
 * builder over scalars and lists, and the assembly of the document.
 *
 * The readers at the end of the module (`ReadTextElem`, `ReadItems`,
 * `ReadListElem`) say what an XML reader recovers from the elements this
 * module produces: the text between the tags with the five references of
 * sections 4.1 and 4.6 of XML 1.0 decoded. The configuration reader of
 * `toscana_parser_unrelated_mod.py` consumes this document; the readers say
 * what it gets back, so that nothing the builder writes is lost or altered.
 */
module SiraXml {
  import opened Strings

  const KEY_URLS := "urls"
  const KEY_URL_FOR_XML := "url_for_xml"
  const KEY_URL_FOR_CSV := "url_for_csv"
  const KEY_ISTAT_VALUES := "items"
  const KEY_ISTAT_VALUE := "item"
  const KEY_TEMP_DIR := "directory"
  const KEY_SQL_MODEL := "sqlmodel"
  const KEY_SQL_OUTPUT := "sqloutput"

  // ---------------------------------------------------------------------
  // Escaping

  /** The five characters `escape` rewrites. */
  predicate IsSpecial(c: char)
  {
    c == '&' || c == '<' || c == '>' || c == '"' || c == '\''
  }

  /** What one character becomes once escaped. */
  function Entity(c: char): string
  {
    if c == '&' then "&amp;"
    else if c == '<' then "&lt;"
    else if c == '>' then "&gt;"
    else if c == '"' then "&quot;"
    else if c == '\'' then "&#39;"
    else [c]
  }

  /** Reference definition: every character replaced by its entity. */
  function EscapeChars(s: string): string
  {
    if s == [] then [] else Entity(s[0]) + EscapeChars(s[1..])
  }

  /** Text with none of `<`, `>`, `"`, `'`. */
  predicate NoMarkup(s: string)
  {
    forall i :: 0 <= i < |s| ==> s[i] != '<' && s[i] != '>' && s[i] != '"' && s[i] != '\''
  }

  predicate StartsEntity(s: string)
  {
    StartsWith(s, "&amp;") || StartsWith(s, "&lt;") || StartsWith(s, "&gt;") ||
    StartsWith(s, "&quot;") || StartsWith(s, "&#39;")
  }

  /** Every `&` of `s` opens one of the five references. */
  predicate AmpersandsStartEntities(s: string)
  {
    forall i :: 0 <= i < |s| && s[i] == '&' ==> StartsEntity(s[i..])
  }

  /** `escape(s)`: a chain of `replace` calls, `&` first. */
  function Escape(s: string): (r: string)
    ensures NoMarkup(r)
    ensures AmpersandsStartEntities(r)
  {
    EscapeIsCharwise(s);
    EscapeCharsClean(s);
    Replace(Replace(Replace(Replace(Replace(s, "&", "&amp;"), "<", "&lt;"), ">", "&gt;"), "\"", "&quot;"), "'", "&#39;")
  }

  /** The same chain, as character substitutions. */
  function Substituted(s: string): string
  {
    MapChar(MapChar(MapChar(MapChar(MapChar(s, '&', "&amp;"), '<', "&lt;"), '>', "&gt;"), '"', "&quot;"), '\'', "&#39;")
  }

  lemma SubstitutedAppend(a: string, b: string)
    ensures Substituted(a + b) == Substituted(a) + Substituted(b)
  {
    var a1, b1 := MapChar(a, '&', "&amp;"), MapChar(b, '&', "&amp;");
    MapCharAppend(a, b, '&', "&amp;");
    var a2, b2 := MapChar(a1, '<', "&lt;"), MapChar(b1, '<', "&lt;");
    MapCharAppend(a1, b1, '<', "&lt;");
    var a3, b3 := MapChar(a2, '>', "&gt;"), MapChar(b2, '>', "&gt;");
    MapCharAppend(a2, b2, '>', "&gt;");
    var a4, b4 := MapChar(a3, '"', "&quot;"), MapChar(b3, '"', "&quot;");
    MapCharAppend(a3, b3, '"', "&quot;");
    MapCharAppend(a4, b4, '\'', "&#39;");
  }

  lemma MapCharSingle(x: char, c: char, rep: string)
    ensures MapChar([x], c, rep) == if x == c then rep else [x]
  {
    assert [x][1..] == [];
  }

  /** A single character comes out of the chain as its entity: the stages
      after the one that rewrote it find none of their characters. */
  lemma SubstitutedOne(x: char)
    ensures Substituted([x]) == Entity(x)
  {
    MapCharSingle(x, '&', "&amp;");
    if x == '&' {
      KeptFromLt("&amp;");
    } else {
      MapCharSingle(x, '<', "&lt;");
      if x == '<' {
        KeptFromGt("&lt;");
      } else {
        MapCharSingle(x, '>', "&gt;");
        if x == '>' {
          KeptFromQuot("&gt;");
        } else {
          MapCharSingle(x, '"', "&quot;");
          if x == '"' {
            KeptFromApos("&quot;");
          } else {
            MapCharSingle(x, '\'', "&#39;");
          }
        }
      }
    }
  }

  lemma KeptFromLt(e: string)
    requires '<' !in e && '>' !in e && '"' !in e && '\'' !in e
    ensures MapChar(MapChar(MapChar(MapChar(e, '<', "&lt;"), '>', "&gt;"), '"', "&quot;"), '\'', "&#39;") == e
  {
    MapCharAbsent(e, '<', "&lt;");
    KeptFromGt(e);
  }

  lemma KeptFromGt(e: string)
    requires '>' !in e && '"' !in e && '\'' !in e
    ensures MapChar(MapChar(MapChar(e, '>', "&gt;"), '"', "&quot;"), '\'', "&#39;") == e
  {
    MapCharAbsent(e, '>', "&gt;");
    KeptFromQuot(e);
  }

  lemma KeptFromQuot(e: string)
    requires '"' !in e && '\'' !in e
    ensures MapChar(MapChar(e, '"', "&quot;"), '\'', "&#39;") == e
  {
    MapCharAbsent(e, '"', "&quot;");
    KeptFromApos(e);
  }

  lemma KeptFromApos(e: string)
    requires '\'' !in e
    ensures MapChar(e, '\'', "&#39;") == e
  {
    MapCharAbsent(e, '\'', "&#39;");
  }

  lemma {:induction false} SubstitutedCharwise(s: string)
    ensures Substituted(s) == EscapeChars(s)
    decreases |s|
  {
    if s != [] {
      assert s == [s[0]] + s[1..];
      SubstitutedAppend([s[0]], s[1..]);
      SubstitutedOne(s[0]);
      SubstitutedCharwise(s[1..]);
    }
  }

  /** The replace chain rewrites each character on its own: `&` goes first and
      no replacement text holds a character replaced later. */
  lemma EscapeIsCharwise(s: string)
    ensures Replace(Replace(Replace(Replace(Replace(s, "&", "&amp;"), "<", "&lt;"), ">", "&gt;"), "\"", "&quot;"), "'", "&#39;")
            == EscapeChars(s)
  {
    var s1 := MapChar(s, '&', "&amp;");
    ReplaceOneChar(s, '&', "&amp;");
    var s2 := MapChar(s1, '<', "&lt;");
    ReplaceOneChar(s1, '<', "&lt;");
    var s3 := MapChar(s2, '>', "&gt;");
    ReplaceOneChar(s2, '>', "&gt;");
    var s4 := MapChar(s3, '"', "&quot;");
    ReplaceOneChar(s3, '"', "&quot;");
    ReplaceOneChar(s4, '\'', "&#39;");
    SubstitutedCharwise(s);
  }

  lemma {:induction false} EscapeCharsClean(s: string)
    ensures NoMarkup(EscapeChars(s)) && AmpersandsStartEntities(EscapeChars(s))
    decreases |s|
  {
    if s != [] {
      EscapeCharsClean(s[1..]);
      var e, t := Entity(s[0]), EscapeChars(s[1..]);
      var r := e + t;
      EntityClean(s[0], t);
      forall i | 0 <= i < |r| && r[i] == '&' ensures StartsEntity(r[i..]) {
        if i < |e| {
          assert r[i] == e[i];
          assert i == 0 && r[i..] == e + t;
        } else {
          assert r[i] == t[i - |e|] && r[i..] == t[i - |e|..];
        }
      }
      forall i | 0 <= i < |r| ensures r[i] != '<' && r[i] != '>' && r[i] != '"' && r[i] != '\'' {
        if i >= |e| { assert r[i] == t[i - |e|]; } else { assert r[i] == e[i]; }
      }
    }
  }

  /** An entity holds no markup, and its only `&` is the first character,
      which opens a reference whatever follows. */
  lemma EntityClean(c: char, t: string)
    ensures NoMarkup(Entity(c))
    ensures forall i :: 0 <= i < |Entity(c)| && Entity(c)[i] == '&' ==> i == 0 && StartsEntity(Entity(c) + t)
  {
    var e := Entity(c);
    if IsSpecial(c) {
      assert (e + t)[..|e|] == e;
    }
  }

  lemma {:induction false} EscapeCharsAppend(a: string, b: string)
    ensures EscapeChars(a + b) == EscapeChars(a) + EscapeChars(b)
    decreases |a|
  {
    if a == [] {
      assert a + b == b;
    } else {
      assert (a + b)[1..] == a[1..] + b;
      EscapeCharsAppend(a[1..], b);
    }
  }

  /** `escape` distributes over concatenation. */
  lemma EscapeAppend(a: string, b: string)
    ensures Escape(a + b) == Escape(a) + Escape(b)
  {
    EscapeIsCharwise(a + b);
    EscapeIsCharwise(a);
    EscapeIsCharwise(b);
    EscapeCharsAppend(a, b);
  }

  lemma {:induction false} EscapeCharsPlain(s: string)
    requires forall i :: 0 <= i < |s| ==> !IsSpecial(s[i])
    ensures EscapeChars(s) == s
    decreases |s|
  {
    if s != [] {
      EscapeCharsPlain(s[1..]);
      assert s == [s[0]] + s[1..];
    }
  }

  /** Text free of `& < > " '` is returned unchanged. */
  lemma EscapePlain(s: string)
    requires forall i :: 0 <= i < |s| ==> !IsSpecial(s[i])
    ensures Escape(s) == s
  {
    EscapeIsCharwise(s);
    EscapeCharsPlain(s);
  }

  /** Decodes the five references `escape` produces, left to right. */
  function Unescape(s: string): string
    decreases |s|
  {
    if s == [] then []
    else
      var (h, k) := DecodeHead(s);
      h + Unescape(s[k..])
  }

  /** The decoded head of `s` and the number of characters it takes up: one
      of the five references, or else the first character as it is. */
  function DecodeHead(s: string): (r: (string, nat))
    requires s != []
    ensures 1 <= r.1 <= |s|
  {
    if s[0] != '&' then ([s[0]], 1)
    else if StartsWith(s, "&amp;") then ("&", 5)
    else if StartsWith(s, "&lt;") then ("<", 4)
    else if StartsWith(s, "&gt;") then (">", 4)
    else if StartsWith(s, "&quot;") then ("\"", 6)
    else if StartsWith(s, "&#39;") then ("'", 5)
    else ("&", 1)
  }

  /** Text that does not start with `&` loses nothing to decoding at its head. */
  lemma UnescapeOther(s: string)
    requires s != [] && s[0] != '&'
    ensures Unescape(s) == [s[0]] + Unescape(s[1..])
  {
  }

  lemma UnescapeEntity(x: char, t: string)
    ensures Unescape(Entity(x) + t) == [x] + Unescape(t)
  {
    var e := Entity(x);
    var s := e + t;
    assert s[..|e|] == e && s[|e|..] == t;
    assert DecodeHead(s) == ([x], |e|) by {
      if x == '&' {
        assert StartsWith(s, "&amp;");
      } else if x == '<' {
        assert !StartsWith(s, "&amp;") by { assert s[1] == 'l'; }
        assert StartsWith(s, "&lt;");
      } else if x == '>' {
        assert !StartsWith(s, "&amp;") && !StartsWith(s, "&lt;") by { assert s[1] == 'g'; }
        assert StartsWith(s, "&gt;");
      } else if x == '"' {
        assert !StartsWith(s, "&amp;") && !StartsWith(s, "&lt;") && !StartsWith(s, "&gt;") by { assert s[1] == 'q'; }
        assert StartsWith(s, "&quot;");
      } else if x == '\'' {
        assert !StartsWith(s, "&amp;") && !StartsWith(s, "&lt;") && !StartsWith(s, "&gt;")
          && !StartsWith(s, "&quot;") by { assert s[1] == '#'; }
        assert StartsWith(s, "&#39;");
      } else {
        assert s[0] == x;
      }
    }
  }

  lemma {:induction false} UnescapeEscapeChars(s: string)
    ensures Unescape(EscapeChars(s)) == s
    decreases |s|
  {
    if s != [] {
      UnescapeEntity(s[0], EscapeChars(s[1..]));
      UnescapeEscapeChars(s[1..]);
      assert s == [s[0]] + s[1..];
    }
  }

  /** Decoding the references recovers the escaped text. */
  lemma UnescapeEscape(s: string)
    ensures Unescape(Escape(s)) == s
  {
    EscapeIsCharwise(s);
    UnescapeEscapeChars(s);
  }

  // ---------------------------------------------------------------------
  // Elements

  /** A value handed to `xml_elem_for`: a scalar or a (nested) list. */
  datatype Value = Text(text: string) | Items(entries: seq<Value>)

  /** `<tag>content</tag>` and a newline. */
  function Wrap(tag: string, content: string): string
  {
    "<" + tag + ">" + content + "</" + tag + ">\n"
  }

  /** `s` opens with `<tag>` and closes with `</tag>` and a newline. */
  predicate Framed(tag: string, s: string)
  {
    |s| >= 2 * |tag| + 6
    && s[..|tag| + 2] == "<" + tag + ">"
    && s[|s| - |tag| - 4..] == "</" + tag + ">\n"
  }

  /** `xml_elem_for(tagname, value, sub_list_tagname)`: a scalar is written
      between the tags as it is; a list becomes one `sub_list_tagname` element
      per entry (entries that are lists again use `item`), concatenated and
      wrapped in turn. */
  function ElemFor(tag: string, value: Value, subTag: string): string
    decreases if value.Items? then 1 else 0, value
  {
    match value
    case Text(v) => Wrap(tag, v)
    case Items(es) =>
      var xmlForList := Concat(seq(|es|, i requires 0 <= i < |es| => ElemFor(subTag, es[i], KEY_ISTAT_VALUE)));
      ElemFor(tag, Text(xmlForList), subTag)
  }

  /** An entry of the seed dictionary: a scalar or a list of strings. */
  datatype Entry = Scalar(s: string) | List(xs: seq<string>)

  /** The escaped entries of a list, as scalar values. */
  function EscapedItems(xs: seq<string>): (r: seq<Value>)
    ensures |r| == |xs|
    ensures forall i :: 0 <= i < |xs| ==> r[i] == Text(Escape(xs[i]))
  {
    seq(|xs|, i requires 0 <= i < |xs| => Text(Escape(xs[i])))
  }

  /** `xml_elem_for_dict_entry(d, k)`: escapes the entry (each list entry on
      its own) and builds its element. */
  function DictEntry(d: map<string, Entry>, k: string): string
    requires k in d
  {
    match d[k]
    case List(xs) => ElemFor(k, Items(EscapedItems(xs)), KEY_ISTAT_VALUE)
    case Scalar(s) => ElemFor(k, Text(Escape(s)), KEY_ISTAT_VALUE)
  }

  /** Every element, scalar or list, is framed by its tag. */
  lemma ElemForFramed(tag: string, value: Value, subTag: string)
    ensures Framed(tag, ElemFor(tag, value, subTag))
  {
    var c := if value.Text? then value.text
             else Concat(seq(|value.entries|, i requires 0 <= i < |value.entries| => ElemFor(subTag, value.entries[i], KEY_ISTAT_VALUE)));
    assert ElemFor(tag, value, subTag) == Wrap(tag, c);
    WrapFramed(tag, c);
  }

  lemma WrapFramed(tag: string, content: string)
    ensures Framed(tag, Wrap(tag, content))
  {
    var s := Wrap(tag, content);
    assert s == ("<" + tag + ">") + (content + ("</" + tag + ">\n"));
    assert s == ("<" + tag + ">" + content) + ("</" + tag + ">\n");
  }

  /** A dictionary entry's element is framed by its key. */
  lemma DictEntryFramed(d: map<string, Entry>, k: string)
    requires k in d
    ensures Framed(k, DictEntry(d, k))
  {
    match d[k]
    case List(xs) => ElemForFramed(k, Items(EscapedItems(xs)), KEY_ISTAT_VALUE);
    case Scalar(x) => ElemForFramed(k, Text(Escape(x)), KEY_ISTAT_VALUE);
  }

  /** One `<item>` element per escaped string. */
  function ItemElems(xs: seq<string>): string
  {
    if xs == [] then "" else Wrap(KEY_ISTAT_VALUE, Escape(xs[0])) + ItemElems(xs[1..])
  }

  /** A list value becomes its entries' elements, in order, wrapped in the
      tag; nested lists use `item`; the empty list gives `<tag></tag>`. */
  lemma ElemForList(tag: string, es: seq<Value>, subTag: string)
    ensures ElemFor(tag, Items(es), subTag)
            == Wrap(tag, Concat(seq(|es|, i requires 0 <= i < |es| => ElemFor(subTag, es[i], KEY_ISTAT_VALUE))))
    ensures es == [] ==> ElemFor(tag, Items(es), subTag) == "<" + tag + "></" + tag + ">\n"
  {
  }

  lemma {:induction false} ElemForEscapedItems(xs: seq<string>)
    ensures Concat(seq(|xs|, i requires 0 <= i < |xs| => ElemFor(KEY_ISTAT_VALUE, EscapedItems(xs)[i], KEY_ISTAT_VALUE)))
            == ItemElems(xs)
    decreases |xs|
  {
    var es := EscapedItems(xs);
    var parts := seq(|xs|, i requires 0 <= i < |xs| => ElemFor(KEY_ISTAT_VALUE, es[i], KEY_ISTAT_VALUE));
    if xs != [] {
      ElemForEscapedItems(xs[1..]);
      var es' := EscapedItems(xs[1..]);
      var parts' := seq(|xs| - 1, i requires 0 <= i < |xs| - 1 => ElemFor(KEY_ISTAT_VALUE, es'[i], KEY_ISTAT_VALUE));
      assert parts[1..] == parts' by {
        forall i | 0 <= i < |xs| - 1 ensures parts[1..][i] == parts'[i] {
          assert es[i + 1] == es'[i];
        }
      }
      assert parts == [parts[0]] + parts[1..];
      ConcatCons(parts[0], parts[1..]);
    }
  }

  // ---------------------------------------------------------------------
  // Reading the elements back

  datatype Option<T> = None | Some(value: T)

  /** The decoded text of `s` when `s` is exactly one element `<tag>text</tag>`
      (and its newline) whose text holds no markup. */
  function ReadTextElem(tag: string, s: string): Option<string>
  {
    var open, close := "<" + tag + ">", "</" + tag + ">\n";
    if |open| + |close| <= |s| && StartsWith(s, open) && EndsWith(s, close) then
      var body := s[|open|..|s| - |close|];
      if '<' in body then None else Some(Unescape(body))
    else None
  }

  /** The decoded texts of a run of `<item>text</item>` elements. */
  function ReadItems(s: string): Option<seq<string>>
    decreases |s|
  {
    if s == [] then Some([])
    else if !StartsWith(s, "<item>") then None
    else
      var rest := s[6..];
      var n := IndexOfChar(rest, '<');
      if !StartsWith(rest[n..], "</item>\n") then None
      else
        match ReadItems(rest[n + 8..])
        case None => None
        case Some(xs) => Some([Unescape(rest[..n])] + xs)
  }

  /** The item texts of `<tag>…</tag>` holding a run of items. */
  function ReadListElem(tag: string, s: string): Option<seq<string>>
  {
    var open, close := "<" + tag + ">", "</" + tag + ">\n";
    if |open| + |close| <= |s| && StartsWith(s, open) && EndsWith(s, close) then
      ReadItems(s[|open|..|s| - |close|])
    else None
  }

  lemma UnwrapWrap(tag: string, content: string)
    ensures var s, open, close := Wrap(tag, content), "<" + tag + ">", "</" + tag + ">\n";
      |open| + |close| <= |s| && StartsWith(s, open) && EndsWith(s, close) &&
      s[|open|..|s| - |close|] == content
  {
  }

  /** A scalar element reads back as its text: what the builder writes is
      exactly the tags around the value. */
  lemma ElemForText(tag: string, v: string, subTag: string)
    requires '<' !in v
    ensures ReadTextElem(tag, ElemFor(tag, Text(v), subTag)) == Some(Unescape(v))
  {
    assert ElemFor(tag, Text(v), subTag) == Wrap(tag, v);
    ReadWrapText(tag, v);
  }

  lemma ReadWrapText(tag: string, v: string)
    requires '<' !in v
    ensures ReadTextElem(tag, Wrap(tag, v)) == Some(Unescape(v))
  {
    UnwrapWrap(tag, v);
  }

  lemma ReadItemsStep(e: string, tail: string)
    requires '<' !in e
    ensures ReadItems(Wrap(KEY_ISTAT_VALUE, e) + tail) ==
              match ReadItems(tail)
              case None => None
              case Some(xs) => Some([Unescape(e)] + xs)
  {
    var s := Wrap(KEY_ISTAT_VALUE, e) + tail;
    var close := "</item>\n";
    assert s == "<item>" + (e + (close + tail));
    assert StartsWith(s, "<item>");
    var rest := s[6..];
    assert rest == e + (close + tail);
    IndexOfCharAt(e, close + tail, '<');
    assert rest[..|e|] == e;
    assert rest[|e|..] == close + tail;
    assert StartsWith(rest[|e|..], close);
    assert rest[|e| + 8..] == tail;
  }

  lemma {:induction false} ReadItemElems(xs: seq<string>)
    ensures ReadItems(ItemElems(xs)) == Some(xs)
    decreases |xs|
  {
    if xs != [] {
      ReadItemElems(xs[1..]);
      ReadItemElemsCons(xs[0], xs[1..]);
      assert [xs[0]] + xs[1..] == xs;
    }
  }

  /** One more element in front reads back as one more string in front. */
  lemma ReadItemElemsCons(x: string, rest: seq<string>)
    requires ReadItems(ItemElems(rest)) == Some(rest)
    ensures ReadItems(ItemElems([x] + rest)) == Some([x] + rest)
  {
    var e := Escape(x);
    EscapeNoLt(x);
    assert ([x] + rest)[1..] == rest;
    assert ItemElems([x] + rest) == Wrap(KEY_ISTAT_VALUE, e) + ItemElems(rest);
    ReadItemsStep(e, ItemElems(rest));
    UnescapeEscape(x);
  }

  /** Escaped text holds no `<`, so no element can start inside it. */
  lemma EscapeNoLt(x: string)
    ensures '<' !in Escape(x)
  {
    var e := Escape(x);
    forall i | 0 <= i < |e| ensures e[i] != '<' { }
  }

  /** `xml_elem_for_dict_entry` writes text that reads back as the entry:
      each scalar or list entry is escaped exactly once, so its element's
      text holds no markup and decodes to the original string. */
  lemma DictEntryReadsBack(d: map<string, Entry>, k: string)
    requires k in d
    ensures d[k].Scalar? ==> ReadTextElem(k, DictEntry(d, k)) == Some(d[k].s)
    ensures d[k].List? ==> ReadListElem(k, DictEntry(d, k)) == Some(d[k].xs)
  {
    match d[k]
    case Scalar(s) =>
      assert DictEntry(d, k) == ElemFor(k, Text(Escape(s)), KEY_ISTAT_VALUE);
      ScalarReadsBack(k, s);
    case List(xs) =>
      assert DictEntry(d, k) == ElemFor(k, Items(EscapedItems(xs)), KEY_ISTAT_VALUE);
      ListReadsBack(k, xs);
  }

  lemma ScalarReadsBack(k: string, s: string)
    ensures ReadTextElem(k, ElemFor(k, Text(Escape(s)), KEY_ISTAT_VALUE)) == Some(s)
  {
    var e := Escape(s);
    assert '<' !in e by {
      forall i | 0 <= i < |e| ensures e[i] != '<' { }
    }
    ElemForText(k, e, KEY_ISTAT_VALUE);
    UnescapeEscape(s);
  }

  lemma ListReadsBack(k: string, xs: seq<string>)
    ensures ElemFor(k, Items(EscapedItems(xs)), KEY_ISTAT_VALUE) == Wrap(k, ItemElems(xs))
    ensures ReadListElem(k, ElemFor(k, Items(EscapedItems(xs)), KEY_ISTAT_VALUE)) == Some(xs)
  {
    ElemForList(k, EscapedItems(xs), KEY_ISTAT_VALUE);
    ElemForEscapedItems(xs);
    ReadWrappedItems(k, xs);
  }

  lemma ReadWrappedItems(k: string, xs: seq<string>)
    ensures ReadListElem(k, Wrap(k, ItemElems(xs))) == Some(xs)
  {
    UnwrapWrap(k, ItemElems(xs));
    ReadItemElems(xs);
  }
}
