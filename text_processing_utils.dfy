/**
 * The static helpers: checking that a pattern compiles, deleting markup characters and
 * normalising whitespace. A null argument is None.
 */
module TextProcessingUtils {
  import opened JavaLang
  import opened Regex
  import opened FixedPatterns

  /** The class `[<>"'&]`. */
  predicate IsMarkup(c: char)
  {
    c == '<' || c == '>' || c == '"' || c == '\'' || c == '&'
  }

  const Markup: Matcher := CharAt(IsMarkup)

  /**
   * isValidRegexPattern: compiling inside a catch-all, so no argument makes it throw;
   * a null pattern fails to compile like a malformed one.
   */
  function IsValidRegexPattern(compiler: Compiler, pattern: Option<string>): (r: bool)
    ensures r <==> pattern.Some? && compiler(pattern.value).Compiled?
  {
    match pattern
    case None => false
    case Some(p) => Compile(compiler, p).Ok?
  }

  /** sanitizeInput: "" for null, otherwise every markup character deleted. */
  function SanitizeInput(input: Option<string>): (r: string)
    ensures input.None? ==> r == ""
    ensures input.Some? ==> r == Remove(input.value, IsMarkup)
  {
    match input
    case None => ""
    case Some(s) =>
      assert Markup == CharAt(IsMarkup);
      SpliceChars(s, 0, IsMarkup);
      assert s[0..] == s;
      ReplaceAllPlain(Markup, s, "")
  }

  /** Deleting keeps every other character as often as it occurred and drops every markup one. */
  lemma {:induction false} RemoveCounts(s: string, P: char -> bool, c: char)
    ensures multiset(Remove(s, P))[c] == if P(c) then 0 else multiset(s)[c]
  {
    if s != [] {
      var head := if P(s[0]) then [] else [s[0]];
      RemoveCounts(s[1..], P, c);
      assert Remove(s, P) == head + Remove(s[1..], P);
      assert multiset(Remove(s, P)) == multiset(head) + multiset(Remove(s[1..], P));
      assert s == [s[0]] + s[1..];
      assert multiset(s) == multiset([s[0]]) + multiset(s[1..]);
    }
  }

  /** `sub` is `s` with some characters left out, the others in their original order. */
  predicate IsSubsequence(sub: string, s: string)
  {
    sub == [] || (s != [] && ((sub[0] == s[0] && IsSubsequence(sub[1..], s[1..])) || IsSubsequence(sub, s[1..])))
  }

  lemma {:induction false} RemoveIsSubsequence(s: string, P: char -> bool)
    ensures IsSubsequence(Remove(s, P), s)
  {
    if s != [] {
      RemoveIsSubsequence(s[1..], P);
      if !P(s[0]) {
        assert Remove(s, P)[0] == s[0] && Remove(s, P)[1..] == Remove(s[1..], P);
      } else {
        assert Remove(s, P) == [] + Remove(s[1..], P) == Remove(s[1..], P);
      }
    }
  }

  /**
   * What sanitizeInput leaves: none of `< > " ' &`, every other character as often as
   * before, in the original order.
   */
  lemma SanitizeContent(s: string)
    ensures var r := SanitizeInput(Some(s));
      && (forall i :: 0 <= i < |r| ==> !IsMarkup(r[i]))
      && (forall c :: multiset(r)[c] == if IsMarkup(c) then 0 else multiset(s)[c])
      && IsSubsequence(r, s)
  {
    forall c ensures multiset(Remove(s, IsMarkup))[c] == if IsMarkup(c) then 0 else multiset(s)[c] {
      RemoveCounts(s, IsMarkup, c);
    }
    RemoveIsSubsequence(s, IsMarkup);
  }

  lemma SanitizeIdempotent(input: Option<string>)
    ensures SanitizeInput(Some(SanitizeInput(input))) == SanitizeInput(input)
  {
    RemoveNothing(SanitizeInput(input), IsMarkup);
  }

  /** normalizeWhitespace: "" for null, otherwise whitespace runs collapsed to one space, then trimmed. */
  function NormalizeWhitespace(input: Option<string>): (r: string)
    ensures input.None? ==> r == ""
    ensures input.Some? ==> r == Trim(CollapseSpaces(input.value))
  {
    match input
    case None => ""
    case Some(s) => Trim(ReplaceAllPlain(SpaceRun, s, " "))
  }

  /** A trimmed text is a slice of the original. */
  lemma {:induction false} TrimIsSlice(t: string)
    ensures exists a: nat, b: nat :: a <= b <= |t| && Trim(t) == t[a..b]
  {
    var u := TrimStart(t);
    var a := |t| - |u|;
    var r := TrimEnd(u);
    assert r == u[..|r|] && u == t[a..];
    assert r == t[a..a + |r|];
  }

  lemma {:induction false} SliceKeepsSpacing(t: string, a: nat, b: nat)
    requires a <= b <= |t| && OnlyPlainSpaces(t) && NoDoubleSpace(t)
    ensures OnlyPlainSpaces(t[a..b]) && NoDoubleSpace(t[a..b])
  {
    var u := t[a..b];
    forall i | 0 <= i < |u| - 1 ensures !(u[i] == ' ' && u[i + 1] == ' ') {
      assert u[i] == t[a + i] && u[i + 1] == t[a + i + 1];
    }
  }

  /**
   * What normalizeWhitespace leaves: no tab, newline, carriage return, form feed or vertical
   * tab, no two spaces in a row and nothing at or below U+0020 at either end.
   */
  lemma NormalizeContent(input: Option<string>)
    ensures var r := NormalizeWhitespace(input);
      && OnlyPlainSpaces(r) && NoDoubleSpace(r)
      && (r == [] || (!IsTrimmable(r[0]) && !IsTrimmable(r[|r| - 1])))
  {
    if input.Some? {
      var c := CollapseSpaces(input.value);
      CollapseShape(input.value, 0);
      TrimIsSlice(c);
      var a: nat, b: nat :| a <= b <= |c| && Trim(c) == c[a..b];
      SliceKeepsSpacing(c, a, b);
    }
  }

  lemma NormalizeIdempotent(input: Option<string>)
    ensures NormalizeWhitespace(Some(NormalizeWhitespace(input))) == NormalizeWhitespace(input)
  {
    var r := NormalizeWhitespace(input);
    NormalizeContent(input);
    CollapseIdentity(r, 0);
    assert r[0..] == r;
    TrimIdentity(r);
  }
}
