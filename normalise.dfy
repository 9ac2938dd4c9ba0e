/**
 * Topic-safe identifiers: the expression `s.replace(/[.\s]+/g, '_')`, applied
 * to hub host names and to activity and device labels.  The global regular
 * expression replaces every maximal run of dots and whitespace by one `_`.
 */
module Normalise {

  /** JavaScript's `\s` class: the WhiteSpace and LineTerminator code points of ECMAScript. */
  const JsWhitespace: set<char> := {
    '\t', '\n', '\U{000B}', '\U{000C}', '\r', ' ', '\U{00A0}', '\U{1680}',
    '\U{2000}', '\U{2001}', '\U{2002}', '\U{2003}', '\U{2004}', '\U{2005}',
    '\U{2006}', '\U{2007}', '\U{2008}', '\U{2009}', '\U{200A}',
    '\U{2028}', '\U{2029}', '\U{202F}', '\U{205F}', '\U{3000}', '\U{FEFF}'
  }

  /** The character class `[.\s]`. */
  predicate IsSep(c: char) {
    c == '.' || c in JsWhitespace
  }

  /** Word characters, the replacement `_` among them, are never separators; the dot, space, tab and newline are. */
  lemma SepClass(c: char)
    ensures ('a' <= c <= 'z' || 'A' <= c <= 'Z' || '0' <= c <= '9' || c == '_') ==> !IsSep(c)
    ensures c == '.' || c == ' ' || c == '\t' || c == '\n' ==> IsSep(c)
  {
  }

  predicate NoSep(s: string) {
    forall i :: 0 <= i < |s| ==> !IsSep(s[i])
  }

  predicate AllSep(s: string) {
    forall i :: 0 <= i < |s| ==> IsSep(s[i])
  }

  /** What is left of `s` once its leading run of separators is consumed. */
  function SkipSeps(s: string): (r: string)
    ensures |r| <= |s|
    ensures r == [] || !IsSep(r[0])
  {
    if s != [] && IsSep(s[0]) then SkipSeps(s[1..]) else s
  }

  /**
   * `s.replace(/[.\s]+/g, '_')`, read one character at a time: a separator
   * becomes `_` when it opens a run and vanishes inside one; every other
   * character is copied.  `inRun` says whether the previous character was a
   * separator of the same run.
   */
  function Collapse(s: string, inRun: bool): (r: string)
    ensures |r| <= |s|
    ensures !inRun && s != [] ==> r != []
  {
    if s == [] then []
    else if IsSep(s[0]) then (if inRun then [] else ['_']) + Collapse(s[1..], true)
    else [s[0]] + Collapse(s[1..], false)
  }

  /** The identifier normalisation; never longer than its input, and empty only for the empty string. */
  function Norm(s: string): (r: string)
    ensures |r| <= |s|
    ensures r == [] <==> s == []
  {
    Collapse(s, false)
  }

  /**
   * The reading of the regular expression run by run: each maximal run of
   * separators is matched whole and replaced by one `_`.
   */
  function ByRuns(s: string): (r: string)
    ensures |r| <= |s|
    ensures r == [] <==> s == []
    ensures s != [] && IsSep(s[0]) ==> r[0] == '_'
    ensures s != [] && !IsSep(s[0]) ==> r[0] == s[0]
    decreases |s|
  {
    if s == [] then []
    else if IsSep(s[0]) then ['_'] + ByRuns(SkipSeps(s[1..]))
    else [s[0]] + ByRuns(s[1..])
  }

  /** Whether the scan is inside a run after reading `s` from state `inRun`. */
  function EndsInRun(s: string, inRun: bool): bool {
    if s == [] then inRun else IsSep(s[|s| - 1])
  }

  /** The scan of a concatenation is the scan of each part, the second starting in the state the first ends in. */
  lemma {:induction false} CollapseAppend(x: string, y: string, inRun: bool)
    ensures Collapse(x + y, inRun) == Collapse(x, inRun) + Collapse(y, EndsInRun(x, inRun))
    decreases |x|
  {
    if x == [] {
      assert x + y == y;
    } else {
      var sep := IsSep(x[0]);
      var head := if sep then (if inRun then [] else ['_']) else [x[0]];
      assert (x + y)[0] == x[0];
      assert (x + y)[1..] == x[1..] + y;
      var end := EndsInRun(x, inRun);
      if |x| > 1 {
        assert x[1..][|x| - 2] == x[|x| - 1];
      }
      assert EndsInRun(x[1..], sep) == end;
      var a, b := Collapse(x[1..], sep), Collapse(y, end);
      calc {
        Collapse(x + y, inRun);
        head + Collapse(x[1..] + y, sep);
        { CollapseAppend(x[1..], y, sep); }
        head + (a + b);
        (head + a) + b;
        Collapse(x, inRun) + b;
      }
    }
  }

  lemma {:induction false} CollapseSkipsRun(s: string)
    ensures Collapse(s, true) == Collapse(SkipSeps(s), true)
  {
    if s != [] && IsSep(s[0]) {
      CollapseSkipsRun(s[1..]);
    }
  }

  /** The character-by-character scan and the run-by-run replacement agree on every input. */
  lemma {:induction false} NormIsByRuns(s: string)
    ensures Norm(s) == ByRuns(s)
    decreases |s|
  {
    if s == [] {
    } else if IsSep(s[0]) {
      var rest := SkipSeps(s[1..]);
      NormIsByRuns(rest);
      CollapseSkipsRun(s[1..]);
      if rest != [] {
        assert !IsSep(rest[0]);
      }
      assert Collapse(rest, true) == Collapse(rest, false);
    } else {
      NormIsByRuns(s[1..]);
    }
  }

  /** The output contains no dot and no whitespace character. */
  lemma {:induction false} CollapseSepFree(s: string, inRun: bool)
    ensures NoSep(Collapse(s, inRun))
  {
    if s != [] {
      CollapseSepFree(s[1..], IsSep(s[0]));
    }
  }

  lemma NormSepFree(s: string)
    ensures NoSep(Norm(s))
  {
    CollapseSepFree(s, false);
  }

  /** A string with no dot and no whitespace comes back unchanged. */
  lemma {:induction false} CollapseFixesSepFree(s: string, inRun: bool)
    requires NoSep(s)
    ensures Collapse(s, inRun) == s
  {
    if s != [] {
      assert NoSep(s[1..]) by {
        forall i | 0 <= i < |s[1..]| ensures !IsSep(s[1..][i]) {
          assert s[1..][i] == s[i + 1];
        }
      }
      CollapseFixesSepFree(s[1..], false);
    }
  }

  lemma NormFixesSepFree(s: string)
    requires NoSep(s)
    ensures Norm(s) == s
  {
    CollapseFixesSepFree(s, false);
  }

  /** Normalising twice is normalising once: `_` is not a separator. */
  lemma NormIdempotent(s: string)
    ensures Norm(Norm(s)) == Norm(s)
  {
    NormSepFree(s);
    NormFixesSepFree(Norm(s));
  }

  lemma {:induction false} CollapseInsideRun(s: string)
    requires AllSep(s)
    ensures Collapse(s, true) == []
  {
    if s != [] {
      assert AllSep(s[1..]) by {
        forall i | 0 <= i < |s[1..]| ensures IsSep(s[1..][i]) {
          assert s[1..][i] == s[i + 1];
        }
      }
      CollapseInsideRun(s[1..]);
    }
  }

  /** A non-empty run made only of separators collapses to exactly one `_`. */
  lemma NormOfRun(s: string)
    requires s != [] && AllSep(s)
    ensures Norm(s) == "_"
  {
    CollapseInsideRun(s[1..]) by {
      forall i | 0 <= i < |s[1..]| ensures IsSep(s[1..][i]) {
        assert s[1..][i] == s[i + 1];
      }
    }
  }

  /**
   * A character that is not a separator is copied to the output, and the two
   * sides of it are normalised independently: characters keep their order and
   * runs never merge across a non-separator.
   */
  lemma NormAroundKept(x: string, c: char, y: string)
    requires !IsSep(c)
    ensures Norm(x + [c] + y) == Norm(x) + [c] + Norm(y)
  {
    CollapseAppend(x + [c], y, false);
    CollapseAppend(x, [c], false);
    assert EndsInRun(x + [c], false) == false;
  }

  /** One separator between non-separators becomes one `_`, the rest on either side unaffected. */
  lemma NormAroundSep(x: string, c: char, y: string)
    requires IsSep(c)
    requires x == [] || !IsSep(x[|x| - 1])
    requires y == [] || !IsSep(y[0])
    ensures Norm(x + [c] + y) == Norm(x) + "_" + Norm(y)
  {
    CollapseAppend(x + [c], y, false);
    CollapseAppend(x, [c], false);
    assert EndsInRun(x, false) == false;
    assert EndsInRun(x + [c], false) == true;
    if y != [] {
      assert Collapse(y, true) == Collapse(y, false);
    }
  }

  /** Two separator-free words around one separator are joined by `_`. */
  lemma NormTwoWords(x: string, c: char, y: string)
    requires NoSep(x) && NoSep(y) && IsSep(c) && x != [] && y != []
    ensures Norm(x + [c] + y) == x + "_" + y
  {
    NormFixesSepFree(x);
    NormFixesSepFree(y);
    NormAroundSep(x, c, y);
  }

  /** Host name `<a> <b>.<c>` normalises to `<a>_<b>_<c>`: the domain suffix stays in the name. */
  lemma HostNameWithDomain(a: string, b: string, c: string)
    requires NoSep(a) && NoSep(b) && NoSep(c) && a != [] && b != [] && c != []
    ensures Norm(a + [' '] + b + ['.'] + c) == a + "_" + b + "_" + c
  {
    NormTwoWords(a, ' ', b);
    NormFixesSepFree(c);
    var x := a + [' '] + b;
    assert x[|x| - 1] == b[|b| - 1];
    NormAroundSep(x, '.', c);
  }
}
