/**
 * A minimal model of Python 2.7's `str.format`, as far as the two scripts
 * use it: literal text, `{{` and `}}` for literal braces, `{}` for the next
 * positional argument and `{name}` for a keyword argument. The template is
 * read left to right and each field is substituted as soon as it is read, so
 * a field that cannot be substituted raises before a malformed brace later
 * in the template does. A field runs from its `{` to the `}` that balances
 * it, so a field name may itself hold balanced braces. Conversions (`!r`),
 * format specifications (`:>5`), numeric indices and attribute or item
 * access are read as part of the keyword name.
 */
module PyFormat {

  datatype Field = Lit(text: string) | Auto | Named(name: string)

  datatype FormatError =
    | SingleOpenBrace      // "Single '{' encountered in format string"
    | UnmatchedOpenBrace   // "unmatched '{' in format"
    | SingleCloseBrace     // "Single '}' encountered in format string"
    | IndexError(index: nat)
    | KeyError(name: string)

  datatype Result<T> = Ok(value: T) | Err(error: FormatError)

  /** How reading a template ends: at its end, or at a malformed brace. */
  datatype Stop = End | Fail(error: FormatError)

  /** The fields read before the template ended or a malformed brace was met. */
  datatype Parsed = Parsed(fields: seq<Field>, stop: Stop)

  function Cons(f: Field, p: Parsed): Parsed
  {
    Parsed([f] + p.fields, p.stop)
  }

  /** Reads a template into literal pieces and replacement fields, up to the
      first malformed brace. */
  function Parse(t: string): Parsed
    decreases |t|
  {
    if t == [] then Parsed([], End)
    else if t[0] == '{' then
      if |t| == 1 then Parsed([], Fail(SingleOpenBrace))
      else if t[1] == '{' then Cons(Lit("{"), Parse(t[2..]))
      else
        var j := FieldEnd(t[1..], 1);
        if j == |t| - 1 then Parsed([], Fail(UnmatchedOpenBrace))
        else
          var name := t[1..1 + j];
          Cons(if name == "" then Auto else Named(name), Parse(t[j + 2..]))
    else if t[0] == '}' then
      if |t| > 1 && t[1] == '}' then Cons(Lit("}"), Parse(t[2..]))
      else Parsed([], Fail(SingleCloseBrace))
    else Cons(Lit([t[0]]), Parse(t[1..]))
  }

  /** Index of the `}` that closes a field with `depth` braces open, or `|s|`
      when the field is never closed. */
  function FieldEnd(s: string, depth: nat): (n: nat)
    requires depth >= 1
    ensures n <= |s|
    ensures n < |s| ==> s[n] == '}'
    decreases |s|
  {
    if s == [] then 0
    else if s[0] == '}' then (if depth == 1 then 0 else 1 + FieldEnd(s[1..], depth - 1))
    else if s[0] == '{' then 1 + FieldEnd(s[1..], depth + 1)
    else 1 + FieldEnd(s[1..], depth)
  }

  /** Substitutes the fields, taking positional arguments from index `next` on. */
  function Render(fs: seq<Field>, args: seq<string>, kwargs: map<string, string>, next: nat): Result<string>
    decreases |fs|
  {
    if fs == [] then Ok("")
    else
      var head: Result<string> :=
        match fs[0]
        case Lit(s) => Ok(s)
        case Auto => if next < |args| then Ok(args[next]) else Err(IndexError(next))
        case Named(n) => if n in kwargs then Ok(kwargs[n]) else Err(KeyError(n));
      var next' := if fs[0].Auto? then next + 1 else next;
      match head
      case Err(e) => Err(e)
      case Ok(h) =>
        match Render(fs[1..], args, kwargs, next')
        case Ok(rest) => Ok(h + rest)
        case Err(e) => Err(e)
  }

  /** `template.format(*args, **kwargs)`: every field read is substituted in
      order; a malformed brace raises only once the fields before it are. */
  function Format(template: string, args: seq<string>, kwargs: map<string, string>): Result<string>
  {
    var p := Parse(template);
    match Render(p.fields, args, kwargs, 0)
    case Err(e) => Err(e)
    case Ok(s) => if p.stop.Fail? then Err(p.stop.error) else Ok(s)
  }

  /** Number of `{}` fields. */
  function AutoCount(fs: seq<Field>): nat
  {
    if fs == [] then 0 else (if fs[0].Auto? then 1 else 0) + AutoCount(fs[1..])
  }

  /** Every keyword field names a key of `kwargs`. */
  predicate NamesBound(fs: seq<Field>, kwargs: map<string, string>)
  {
    forall i :: 0 <= i < |fs| && fs[i].Named? ==> fs[i].name in kwargs
  }

  /** Rendering succeeds exactly when every keyword field is bound and, if
      there are `{}` fields, enough positional arguments remain for them. */
  lemma {:induction false} RenderSucceeds(fs: seq<Field>, args: seq<string>, kwargs: map<string, string>, next: nat)
    ensures Render(fs, args, kwargs, next).Ok? <==>
              NamesBound(fs, kwargs) && (AutoCount(fs) == 0 || next + AutoCount(fs) <= |args|)
    decreases |fs|
  {
    if fs != [] {
      var next' := if fs[0].Auto? then next + 1 else next;
      RenderSucceeds(fs[1..], args, kwargs, next');
      var headOk := match fs[0]
        case Lit(_) => true
        case Auto => next < |args|
        case Named(n) => n in kwargs;
      assert Render(fs, args, kwargs, next).Ok? <==> headOk && Render(fs[1..], args, kwargs, next').Ok?;
      assert NamesBound(fs, kwargs) <==> (fs[0].Named? ==> fs[0].name in kwargs) && NamesBound(fs[1..], kwargs) by {
        if NamesBound(fs, kwargs) {
          forall i | 0 <= i < |fs[1..]| && fs[1..][i].Named? ensures fs[1..][i].name in kwargs {
            assert fs[1..][i] == fs[i + 1];
          }
        }
        if NamesBound(fs[1..], kwargs) && (fs[0].Named? ==> fs[0].name in kwargs) {
          forall i | 0 <= i < |fs| && fs[i].Named? ensures fs[i].name in kwargs {
            if i > 0 { assert fs[i] == fs[1..][i - 1]; }
          }
        }
      }
    }
  }

  /** Formatting succeeds exactly when the template is well formed, every
      keyword field is bound and there are positional arguments for the `{}`
      fields. */
  lemma FormatSucceeds(template: string, args: seq<string>, kwargs: map<string, string>)
    ensures var p := Parse(template);
      Format(template, args, kwargs).Ok? <==>
        p.stop.End? && NamesBound(p.fields, kwargs) && AutoCount(p.fields) <= |args|
  {
    RenderSucceeds(Parse(template).fields, args, kwargs, 0);
  }

  /** Text without braces parses into literal pieces only, and renders as
      itself whatever the arguments. */
  lemma {:induction false} ParsePlain(t: string, args: seq<string>, kwargs: map<string, string>, next: nat)
    requires '{' !in t && '}' !in t
    ensures Parse(t).stop.End? && AutoCount(Parse(t).fields) == 0 && NamesBound(Parse(t).fields, kwargs)
    ensures Render(Parse(t).fields, args, kwargs, next) == Ok(t)
    decreases |t|
  {
    if t != [] {
      ParsePlain(t[1..], args, kwargs, next);
      var fs := Parse(t[1..]).fields;
      var all := [Lit([t[0]])] + fs;
      assert Parse(t).fields == all;
      assert all[1..] == fs;
      assert [t[0]] + t[1..] == t;
      forall i | 0 <= i < |all| && all[i].Named? ensures all[i].name in kwargs {
        assert i > 0 && all[i] == fs[i - 1];
      }
    }
  }

  /** A field that cannot be substituted raises before a stray `}` after it. */
  lemma FieldBeforeStrayBrace()
    ensures Format("{x} }", [], map[]) == Err(KeyError("x"))
  {
    var t := "{x} }";
    assert FieldEnd(t[1..], 1) == 1;
    assert t[1..2] == "x";
    assert t[3..] == " }";
    assert Parse(" }") == Parsed([Lit(" ")], Fail(SingleCloseBrace));
    assert Parse(t) == Parsed([Named("x"), Lit(" ")], Fail(SingleCloseBrace));
  }

  /** Braces inside a field are counted, so they belong to its name. */
  lemma NestedBracesInName()
    ensures Format("{a{b}c}", [], map["a{b}c" := "v"]) == Ok("v")
  {
    ParseNestedField();
    var fs := [Named("a{b}c")];
    assert fs[1..] == [];
    var kw := map["a{b}c" := "v"];
    assert "a{b}c" in kw && kw["a{b}c"] == "v";
    assert Render(fs, [], kw, 0) == Ok("v" + "");
    assert "v" + "" == "v";
    assert Parse("{a{b}c}").fields == fs;
  }

  lemma ParseNestedField()
    ensures Parse("{a{b}c}") == Parsed([Named("a{b}c")], End)
  {
    var t := "{a{b}c}";
    FieldEndNested();
    assert t[1..6] == "a{b}c";
    assert t[7..] == [];
  }

  lemma FieldEndNested()
    ensures FieldEnd("a{b}c}", 1) == 5
  {
    var s := "a{b}c}";
    assert s[5..] == "}" && s[4..] == "c}" && s[3..] == "}c}" && s[2..] == "b}c}" && s[1..] == "{b}c}";
    assert FieldEnd(s[5..], 1) == 0;
    assert FieldEnd(s[4..], 1) == 1;
    assert FieldEnd(s[3..], 2) == 2;
    assert FieldEnd(s[2..], 2) == 3;
    assert FieldEnd(s[1..], 1) == 4;
  }
}
