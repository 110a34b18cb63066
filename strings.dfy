/**
 * The handful of Python string operations the two scripts are built from:
 * `str.split(sep)`, `sep.join(parts)`, `str.replace(old, new)`,
 * `str.strip(c)` and `str.endswith(x)`, each for a non-empty separator or
 * pattern, as Python defines them (leftmost, non-overlapping matches).
 */
module Strings {

  /** `p` occurs in `s` starting at index `i`. */
  predicate MatchAt(s: string, p: string, i: nat)
  {
    i + |p| <= |s| && s[i..i + |p|] == p
  }

  /** No occurrence of `p` starts in `s` before index `k`. */
  predicate NoMatchBefore(s: string, p: string, k: nat)
  {
    forall i: nat :: i < k ==> !MatchAt(s, p, i)
  }

  predicate StartsWith(s: string, p: string)
  {
    |p| <= |s| && s[..|p|] == p
  }

  predicate EndsWith(s: string, p: string)
  {
    |p| <= |s| && s[|s| - |p|..] == p
  }

  /** Python's `s.split(sep)`: the pieces between leftmost non-overlapping matches. */
  function Split(s: string, sep: string): (r: seq<string>)
    requires sep != []
    ensures |r| >= 1
    decreases |s|
  {
    if |s| < |sep| then [s]
    else if s[..|sep|] == sep then [""] + Split(s[|sep|..], sep)
    else
      var rest := Split(s[1..], sep);
      [[s[0]] + rest[0]] + rest[1..]
  }

  /** Python's `sep.join(parts)`. */
  function Join(sep: string, parts: seq<string>): string
  {
    if parts == [] then ""
    else if |parts| == 1 then parts[0]
    else parts[0] + sep + Join(sep, parts[1..])
  }

  /** Python's `''.join(parts)`. */
  function Concat(parts: seq<string>): string
  {
    if parts == [] then "" else parts[0] + Concat(parts[1..])
  }

  /** Python's `s.replace(pat, rep)` for a non-empty pattern. */
  function Replace(s: string, pat: string, rep: string): string
    requires pat != []
    decreases |s|
  {
    if |s| < |pat| then s
    else if s[..|pat|] == pat then rep + Replace(s[|pat|..], pat, rep)
    else [s[0]] + Replace(s[1..], pat, rep)
  }

  /** Character-by-character substitution of `c` by `rep`: the reference
      meaning of replacing a one-character pattern. */
  function MapChar(s: string, c: char, rep: string): string
  {
    if s == [] then [] else (if s[0] == c then rep else [s[0]]) + MapChar(s[1..], c, rep)
  }

  /** Python's `s.lstrip(c)` for one character. */
  function StripLeft(s: string, c: char): (r: string)
    ensures r == [] || r[0] != c
    ensures |r| <= |s| && r == s[|s| - |r|..]
  {
    if s != [] && s[0] == c then StripLeft(s[1..], c) else s
  }

  /** Python's `s.rstrip(c)` for one character. */
  function StripRight(s: string, c: char): (r: string)
    ensures r == [] || r[|r| - 1] != c
    ensures |r| <= |s| && r == s[..|r|]
  {
    if s != [] && s[|s| - 1] == c then StripRight(s[..|s| - 1], c) else s
  }

  /** Python's `s.strip(c)` for one character. */
  function Strip(s: string, c: char): string
  {
    StripRight(StripLeft(s, c), c)
  }

  /** Index of the first `c` in `s`, or `|s|` when there is none. */
  function IndexOfChar(s: string, c: char): (n: nat)
    ensures n <= |s|
    ensures c !in s[..n]
    ensures n < |s| ==> s[n] == c
  {
    if s == [] || s[0] == c then 0 else 1 + IndexOfChar(s[1..], c)
  }

  // ---------------------------------------------------------------------
  // Split and Join

  lemma JoinCons(sep: string, a: string, t: seq<string>)
    requires t != []
    ensures Join(sep, [a] + t) == a + sep + Join(sep, t)
  {
    assert ([a] + t)[1..] == t;
  }

  /** Splitting and joining again with the same separator gives back the string. */
  lemma {:induction false} JoinSplit(s: string, sep: string)
    requires sep != []
    ensures Join(sep, Split(s, sep)) == s
    decreases |s|
  {
    if |s| < |sep| {
    } else if s[..|sep|] == sep {
      var rest := Split(s[|sep|..], sep);
      assert Split(s, sep) == [""] + rest;
      JoinSplit(s[|sep|..], sep);
      JoinCons(sep, "", rest);
      assert s == s[..|sep|] + s[|sep|..];
    } else {
      var rest := Split(s[1..], sep);
      assert Split(s, sep) == [[s[0]] + rest[0]] + rest[1..];
      JoinSplit(s[1..], sep);
      assert s == [s[0]] + s[1..];
      JoinSplitStep(sep, s[0], rest);
    }
  }

  /** Joining after gluing a character onto the first part glues it onto the result. */
  lemma JoinSplitStep(sep: string, x: char, rest: seq<string>)
    requires |rest| >= 1
    ensures Join(sep, [[x] + rest[0]] + rest[1..]) == [x] + Join(sep, rest)
  {
    if |rest| > 1 {
      JoinCons(sep, [x] + rest[0], rest[1..]);
      assert [rest[0]] + rest[1..] == rest;
      JoinCons(sep, rest[0], rest[1..]);
    } else {
      assert [[x] + rest[0]] + rest[1..] == [[x] + rest[0]];
    }
  }

  lemma MatchAtShift(s: string, p: string, i: nat)
    requires |s| > 0
    ensures MatchAt(s[1..], p, i) <==> MatchAt(s, p, i + 1)
  {
    if i + 1 + |p| <= |s| {
      assert s[1..][i..i + |p|] == s[i + 1..i + 1 + |p|];
    }
  }

  /** The first match of `sep` at index `k` ends the first piece. */
  lemma {:induction false} SplitFirstMatch(s: string, sep: string, k: nat)
    requires sep != []
    requires NoMatchBefore(s, sep, k) && MatchAt(s, sep, k)
    ensures Split(s, sep) == [s[..k]] + Split(s[k + |sep|..], sep)
    decreases k
  {
    if k == 0 {
      assert s[..|sep|] == sep;
    } else {
      assert !MatchAt(s, sep, 0);
      assert s[..|sep|] != sep;
      forall i: nat | i < k - 1 ensures !MatchAt(s[1..], sep, i) {
        MatchAtShift(s, sep, i);
      }
      MatchAtShift(s, sep, k - 1);
      var tail := Split(s[k + |sep|..], sep);
      var rest := Split(s[1..], sep);
      assert Split(s, sep) == [[s[0]] + rest[0]] + rest[1..];
      SplitFirstMatch(s[1..], sep, k - 1);
      assert s[1..][k - 1 + |sep|..] == s[k + |sep|..];
      assert rest == [s[1..][..k - 1]] + tail;
      assert [s[0]] + s[1..][..k - 1] == s[..k];
    }
  }

  /** A string in which `sep` never occurs splits into itself alone. */
  lemma {:induction false} SplitNoMatch(s: string, sep: string)
    requires sep != []
    requires NoMatchBefore(s, sep, |s|)
    ensures Split(s, sep) == [s]
    decreases |s|
  {
    if |s| < |sep| {
    } else {
      assert !MatchAt(s, sep, 0);
      forall i: nat | i < |s| - 1 ensures !MatchAt(s[1..], sep, i) {
        MatchAtShift(s, sep, i);
      }
      SplitNoMatch(s[1..], sep);
      assert [s[0]] + s[1..] == s;
    }
  }

  /** For a one-character separator absent from every part, splitting undoes joining. */
  lemma {:induction false} SplitJoinChar(parts: seq<string>, c: char)
    requires parts != []
    requires forall j :: 0 <= j < |parts| ==> c !in parts[j]
    ensures Split(Join([c], parts), [c]) == parts
    decreases |parts|
  {
    var p := parts[0];
    if |parts| == 1 {
      forall i: nat | i < |p| ensures !MatchAt(p, [c], i) {
        assert p[i] != c;
      }
      SplitNoMatch(p, [c]);
    } else {
      var s := Join([c], parts);
      var tail := Join([c], parts[1..]);
      assert s == p + [c] + tail;
      forall i: nat | i < |p| ensures !MatchAt(s, [c], i) {
        assert s[i] == p[i];
      }
      assert s[|p|..|p| + 1] == [c];
      SplitFirstMatch(s, [c], |p|);
      assert s[..|p|] == p;
      assert s[|p| + 1..] == tail;
      SplitJoinChar(parts[1..], c);
      assert [p] + parts[1..] == parts;
    }
  }

  // ---------------------------------------------------------------------
  // Replace

  /** Python's identity `s.replace(p, r) == r.join(s.split(p))`. */
  lemma {:induction false} ReplaceIsJoinSplit(s: string, pat: string, rep: string)
    requires pat != []
    ensures Replace(s, pat, rep) == Join(rep, Split(s, pat))
    decreases |s|
  {
    if |s| < |pat| {
    } else if s[..|pat|] == pat {
      var rest := Split(s[|pat|..], pat);
      assert Split(s, pat) == [""] + rest;
      ReplaceIsJoinSplit(s[|pat|..], pat, rep);
      JoinCons(rep, "", rest);
    } else {
      var rest := Split(s[1..], pat);
      assert Split(s, pat) == [[s[0]] + rest[0]] + rest[1..];
      ReplaceIsJoinSplit(s[1..], pat, rep);
      JoinSplitStep(rep, s[0], rest);
    }
  }

  /** Replacing a one-character pattern is character-by-character substitution. */
  lemma {:induction false} ReplaceOneChar(s: string, c: char, rep: string)
    ensures Replace(s, [c], rep) == MapChar(s, c, rep)
    decreases |s|
  {
    if s != [] {
      assert s[..1] == [c] <==> s[0] == c;
      ReplaceOneChar(s[1..], c, rep);
    }
  }

  /** With no match before `k` and one at `k`, `Replace` copies the prefix,
      substitutes the match and carries on after it. */
  lemma ReplaceFirstMatch(s: string, pat: string, rep: string, k: nat)
    requires pat != []
    requires NoMatchBefore(s, pat, k) && MatchAt(s, pat, k)
    ensures Replace(s, pat, rep) == s[..k] + rep + Replace(s[k + |pat|..], pat, rep)
  {
    ReplaceIsJoinSplit(s, pat, rep);
    SplitFirstMatch(s, pat, k);
    ReplaceIsJoinSplit(s[k + |pat|..], pat, rep);
    JoinCons(rep, s[..k], Split(s[k + |pat|..], pat));
  }

  /** A string without the pattern is returned unchanged by `Replace`. */
  lemma ReplaceNoMatch(s: string, pat: string, rep: string)
    requires pat != []
    requires NoMatchBefore(s, pat, |s|)
    ensures Replace(s, pat, rep) == s
  {
    ReplaceIsJoinSplit(s, pat, rep);
    SplitNoMatch(s, pat);
  }

  lemma {:induction false} MapCharAppend(a: string, b: string, c: char, rep: string)
    ensures MapChar(a + b, c, rep) == MapChar(a, c, rep) + MapChar(b, c, rep)
    decreases |a|
  {
    if a != [] {
      assert (a + b)[1..] == a[1..] + b;
      MapCharAppend(a[1..], b, c, rep);
    } else {
      assert a + b == b;
    }
  }

  lemma {:induction false} MapCharAbsent(s: string, c: char, rep: string)
    requires c !in s
    ensures MapChar(s, c, rep) == s
    decreases |s|
  {
    if s != [] {
      MapCharAbsent(s[1..], c, rep);
      assert [s[0]] + s[1..] == s;
    }
  }

  lemma ConcatCons(a: string, t: seq<string>)
    ensures Concat([a] + t) == a + Concat(t)
  {
    assert ([a] + t)[1..] == t;
  }

  lemma IndexOfCharAt(a: string, b: string, c: char)
    requires c !in a && b != [] && b[0] == c
    ensures IndexOfChar(a + b, c) == |a|
  {
    assert (a + b)[|a|] == c;
    assert (a + b)[..|a|] == a;
  }
}
