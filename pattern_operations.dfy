/**
 * The service operations that take a caller's regular expression: searching, extracting,
 * extracting between two patterns, validating, and replacing. The regular-expression
 * engine is the `compiler` parameter; everything above a single match attempt (the scan
 * order of `while (matcher.find())`, the exceptions and how they are wrapped, the
 * replacement expansion) is modelled exactly.
 */
module PatternOperations {
  import opened JavaLang
  import opened Regex
  import opened Documents

  /** The texts `matcher.group()` of every match, in scan order, or the compile error. */
  function MatchTexts(compiler: Compiler, content: string, pattern: string): (r: Result<seq<string>>)
    ensures r.Err? <==> compiler(pattern).SyntaxError?
    ensures r.Err? ==> r.error == PatternSyntax(compiler(pattern).description, pattern)
  {
    match Compile(compiler, pattern)
    case Err(e) => Err(e)
    case Ok(p) => Ok(Texts(content, FindAll(p.find, content)))
  }

  /** A failure re-thrown as TextProcessingException(message, cause). */
  function Wrap<T>(message: string, r: Result<T>): Result<T>
  {
    match r
    case Ok(v) => Ok(v)
    case Err(e) => Err(TextProcessing(message, e))
  }

  /**
   * `while (matcher.find()) matches.add(matcher.group())`: the texts of the scan's matches,
   * which are the leftmost non-overlapping matches in order (Regex.FindAllIsScan, Regex.ScanIsUnique).
   */
  method CollectMatches(m: Matcher, content: string) returns (matches: seq<string>)
    ensures matches == Texts(content, FindAll(m, content))
  {
    matches := [];
    var pos: nat := 0;
    var found := Find(m, content, pos);
    while found.Some?
      invariant pos <= |content| + 1
      invariant found == Find(m, content, pos)
      invariant matches + Texts(content, FindAllFrom(m, content, pos)) == Texts(content, FindAll(m, content))
      decreases |content| + 1 - pos
    {
      var sp := found.value;
      CollectStep(m, content, pos, sp, matches);
      matches := matches + [content[sp.start..sp.end]];
      pos := NextSearch(sp);
      found := Find(m, content, pos);
    }
    CollectDone(m, content, pos, matches);
  }

  /** Once the search finds nothing more, the matches collected are all of them. */
  lemma CollectDone(m: Matcher, content: string, pos: nat, matches: seq<string>)
    requires Find(m, content, pos) == None
    ensures matches + Texts(content, FindAllFrom(m, content, pos)) == matches
  {
    assert FindAllFrom(m, content, pos) == [];
    assert Texts(content, []) == [];
  }

  /** One more match: its text moves from the matches still to be found to those collected. */
  lemma CollectStep(m: Matcher, content: string, pos: nat, sp: Span, matches: seq<string>)
    requires Find(m, content, pos) == Some(sp)
    ensures sp.start <= sp.end <= |content| && NextSearch(sp) <= |content| + 1
    ensures matches + Texts(content, FindAllFrom(m, content, pos))
      == (matches + [content[sp.start..sp.end]]) + Texts(content, FindAllFrom(m, content, NextSearch(sp)))
  {
    var rest := FindAllFrom(m, content, NextSearch(sp));
    var text := content[sp.start..sp.end];
    calc {
      matches + Texts(content, FindAllFrom(m, content, pos));
      { FindAllFromStep(m, content, pos, sp); }
      matches + Texts(content, [sp] + rest);
      { TextsCons(content, sp, rest); }
      matches + ([text] + Texts(content, rest));
      (matches + [text]) + Texts(content, rest);
    }
  }

  /** searchPattern: a malformed pattern's PatternSyntaxException escapes unwrapped. */
  method SearchPattern(compiler: Compiler, document: TextDocument, pattern: string) returns (r: Result<seq<string>>)
    ensures r == MatchTexts(compiler, document.content, pattern)
  {
    var compiled := Compile(compiler, pattern);
    if compiled.Err? {
      return Err(compiled.error);
    }
    var matches := CollectMatches(compiled.value.find, document.content);
    return Ok(matches);
  }

  /** extractMatches: the same matches; any failure is wrapped as "Failed to extract matches". */
  method ExtractMatches(compiler: Compiler, document: TextDocument, pattern: string) returns (r: Result<seq<string>>)
    ensures r == Wrap("Failed to extract matches", MatchTexts(compiler, document.content, pattern))
  {
    var compiled := Compile(compiler, pattern);
    if compiled.Err? {
      return Err(TextProcessing("Failed to extract matches", compiled.error));
    }
    var matches := CollectMatches(compiled.value.find, document.content);
    return Ok(matches);
  }

  /**
   * searchPattern and extractMatches agree on every pattern that compiles; on one that does
   * not, the first throws the PatternSyntaxException and the second wraps exactly that one.
   */
  lemma SearchAndExtractAgree(compiler: Compiler, content: string, pattern: string)
    ensures var search := MatchTexts(compiler, content, pattern);
      var extract := Wrap("Failed to extract matches", search);
      && (compiler(pattern).Compiled? ==> extract == search && search.Ok?)
      && (compiler(pattern).SyntaxError? ==>
            search == Err(PatternSyntax(compiler(pattern).description, pattern))
            && extract == Err(TextProcessing("Failed to extract matches", search.error)))
  {
  }

  // ---------------------------------------------------------------------------
  // extractBetweenPatterns
  // ---------------------------------------------------------------------------

  /**
   * For each start match in turn, the text after it up to the first end match found in the
   * rest of the content; start matches with no end match after them give nothing.
   */
  function Between(endM: Matcher, content: string, starts: seq<Span>): (r: seq<string>)
    requires Within(starts, |content|)
    ensures |r| <= |starts|
    decreases starts
  {
    if starts == [] then []
    else
      assert Within(starts[1..], |content|) by {
        forall i | 0 <= i < |starts[1..]| ensures starts[1..][i] == starts[i + 1] { }
      }
      var rest := content[starts[0].end..];
      var tail := Between(endM, content, starts[1..]);
      match Find(endM, rest, 0)
      case Some(e) => [rest[..e.start]] + tail
      case None => tail
  }

  /** extractBetweenPatterns: the start pattern is compiled first, then the end pattern. */
  function BetweenTexts(compiler: Compiler, content: string, startPattern: string, endPattern: string): (r: Result<seq<string>>)
    ensures compiler(startPattern).SyntaxError? ==> r == Err(PatternSyntax(compiler(startPattern).description, startPattern))
    ensures compiler(startPattern).Compiled? && compiler(endPattern).SyntaxError? ==>
      r == Err(PatternSyntax(compiler(endPattern).description, endPattern))
  {
    match Compile(compiler, startPattern)
    case Err(e) => Err(e)
    case Ok(sp) =>
      match Compile(compiler, endPattern)
      case Err(e) => Err(e)
      case Ok(ep) => Ok(Between(ep.find, content, FindAll(sp.find, content)))
  }

  /** What one start match contributes, ahead of what the later ones contribute. */
  function Entry(endM: Matcher, content: string, sp: Span): seq<string>
    requires sp.end <= |content|
  {
    match Find(endM, content[sp.end..], 0)
    case Some(e) => [content[sp.end..][..e.start]]
    case None => []
  }

  lemma {:induction false} BetweenCons(endM: Matcher, content: string, sp: Span, rest: seq<Span>)
    requires Within([sp] + rest, |content|)
    ensures sp.end <= |content| && Within(rest, |content|)
    ensures Between(endM, content, [sp] + rest) == Entry(endM, content, sp) + Between(endM, content, rest)
  {
    var all := [sp] + rest;
    assert all[0] == sp && all[1..] == rest;
  }

  /** The loop of extractBetweenPatterns over the start matches. */
  method CollectBetween(startM: Matcher, endM: Matcher, content: string) returns (extracted: seq<string>)
    ensures extracted == Between(endM, content, FindAll(startM, content))
  {
    extracted := [];
    var pos: nat := 0;
    var found := Find(startM, content, pos);
    while found.Some?
      invariant pos <= |content| + 1
      invariant found == Find(startM, content, pos)
      invariant extracted + Between(endM, content, FindAllFrom(startM, content, pos))
        == Between(endM, content, FindAll(startM, content))
      decreases |content| + 1 - pos
    {
      var sp := found.value;
      var rest := FindAllFrom(startM, content, NextSearch(sp));
      FindAllFromStep(startM, content, pos, sp);
      BetweenCons(endM, content, sp, rest);
      var startIndex := sp.end;
      var remainingText := content[startIndex..];
      var endFound := Find(endM, remainingText, 0);
      if endFound.Some? {
        assert extracted + [remainingText[..endFound.value.start]] + Between(endM, content, rest)
          == extracted + ([remainingText[..endFound.value.start]] + Between(endM, content, rest));
        extracted := extracted + [remainingText[..endFound.value.start]];
      } else {
        assert Entry(endM, content, sp) == [];
        assert [] + Between(endM, content, rest) == Between(endM, content, rest);
      }
      pos := NextSearch(sp);
      found := Find(startM, content, pos);
    }
    assert FindAllFrom(startM, content, pos) == [];
  }

  method ExtractBetweenPatterns(compiler: Compiler, document: TextDocument, startPattern: string, endPattern: string)
    returns (r: Result<seq<string>>)
    ensures r == BetweenTexts(compiler, document.content, startPattern, endPattern)
  {
    var start := Compile(compiler, startPattern);
    if start.Err? {
      return Err(start.error);
    }
    var end := Compile(compiler, endPattern);
    if end.Err? {
      return Err(end.error);
    }
    var extracted := CollectBetween(start.value.find, end.value.find, document.content);
    return Ok(extracted);
  }

  /**
   * What each extracted entry is: the text a start match contributes, for some start match;
   * and every text a start match contributes is extracted. (Entry gives the content from the
   * start match's end to the beginning of the leftmost end match in the rest of the content.)
   */
  lemma {:induction false} BetweenEntries(endM: Matcher, content: string, starts: seq<Span>)
    requires Within(starts, |content|)
    ensures forall t :: t in Between(endM, content, starts) <==>
      exists i :: 0 <= i < |starts| && t in Entry(endM, content, starts[i])
    decreases starts
  {
    if starts != [] {
      var first, rest := starts[0], starts[1..];
      assert starts == [first] + rest;
      BetweenCons(endM, content, first, rest);
      BetweenEntries(endM, content, rest);
      forall t ensures t in Between(endM, content, starts) <==>
        exists i :: 0 <= i < |starts| && t in Entry(endM, content, starts[i])
      {
        if t in Between(endM, content, rest) {
          var j :| 0 <= j < |rest| && t in Entry(endM, content, rest[j]);
          assert rest[j] == starts[j + 1];
        }
        if exists i :: 1 <= i < |starts| && t in Entry(endM, content, starts[i]) {
          var i :| 1 <= i < |starts| && t in Entry(endM, content, starts[i]);
          assert rest[i - 1] == starts[i];
        }
      }
    }
  }

  // ---------------------------------------------------------------------------
  // validatePattern, isValidRegexPattern
  // ---------------------------------------------------------------------------

  /** validatePattern: false on a malformed pattern; otherwise whether the whole content matches. */
  function ValidatePattern(compiler: Compiler, document: TextDocument, pattern: string): (r: bool)
    reads document
    ensures compiler(pattern).SyntaxError? ==> !r
    ensures compiler(pattern).Compiled? ==> (r <==> compiler(pattern).pattern.matchesWhole(document.content))
  {
    match Compile(compiler, pattern)
    case Err(_) => false
    case Ok(p) => p.matchesWhole(document.content)
  }

  /** isValidRegexPattern: never throws; false exactly when compilation fails. */
  function IsValidRegexPattern(compiler: Compiler, pattern: string): (r: bool)
    ensures r <==> compiler(pattern).Compiled?
  {
    Compile(compiler, pattern).Ok?
  }

  // ---------------------------------------------------------------------------
  // replacePattern, replaceAllMatches
  // ---------------------------------------------------------------------------

  /** content.replaceAll(pattern, replacement) */
  function Replaced(compiler: Compiler, content: string, pattern: string, replacement: string): (r: Result<string>)
    ensures compiler(pattern).SyntaxError? ==> r == Err(PatternSyntax(compiler(pattern).description, pattern))
  {
    match Compile(compiler, pattern)
    case Err(e) => Err(e)
    case Ok(p) => StringReplaceAll(p.find, content, replacement)
  }

  /**
   * A replacement without `$` and `\` never fails on a pattern that compiles: the result is
   * the text cut at the matches and joined back with the replacement; with no match it is
   * the content itself.
   */
  lemma ReplacedPlain(compiler: Compiler, content: string, pattern: string, replacement: string)
    requires Plain(replacement) && compiler(pattern).Compiled?
    ensures var spans := FindAll(compiler(pattern).pattern.find, content);
      && Replaced(compiler, content, pattern, replacement) == Ok(Join(Pieces(content, 0, spans), replacement))
      && (spans == [] ==> Replaced(compiler, content, pattern, replacement) == Ok(content))
  {
    var m := compiler(pattern).pattern.find;
    var spans := FindAll(m, content);
    var r := ReplaceAllPlain(m, content, replacement);
    SpliceIsJoin(content, 0, spans, replacement);
    assert content[0..] == content;
  }

  /**
   * replacePattern: the document's content is overwritten with the replaced text and the
   * same object is returned; when compiling or expanding the replacement throws, the
   * document is left as it was.
   */
  method ReplacePattern(compiler: Compiler, document: TextDocument, pattern: string, replacement: string, now: Time)
    returns (r: Result<TextDocument>)
    modifies document
    ensures var expected := Replaced(compiler, old(document.content), pattern, replacement);
      && (expected.Ok? ==> r == Ok(document) && document.content == expected.value && document.modifiedAt == now)
      && (expected.Err? ==>
            r == Err(expected.error) && document.content == old(document.content)
            && document.modifiedAt == old(document.modifiedAt))
    ensures document.name == old(document.name)
  {
    var newContent := Replaced(compiler, document.content, pattern, replacement);
    if newContent.Err? {
      return Err(newContent.error);
    }
    document.SetContent(newContent.value, now);
    return Ok(document);
  }

  /** replaceAllMatches: the replaced text, returned without touching the document; failures wrapped. */
  function ReplaceAllMatches(compiler: Compiler, document: TextDocument, pattern: string, replacement: string)
    : (r: Result<string>)
    reads document
    ensures r.Err? ==> r.error.TextProcessing? && r.error.message == "Failed to replace matches"
  {
    Wrap("Failed to replace matches", Replaced(compiler, document.content, pattern, replacement))
  }

  /** Both replacing operations compute the same text; only the error differs by its wrapper. */
  lemma ReplaceOperationsAgree(compiler: Compiler, content: string, pattern: string, replacement: string)
    ensures var a := Replaced(compiler, content, pattern, replacement);
      var b := Wrap("Failed to replace matches", a);
      && (a.Ok? <==> b.Ok?)
      && (a.Ok? ==> a == b)
      && (a.Err? ==> b.error == TextProcessing("Failed to replace matches", a.error))
  {
  }

  // ---------------------------------------------------------------------------
  // Literal patterns
  // ---------------------------------------------------------------------------

  /** A one-character literal matches exactly where that character stands. */
  lemma LiteralCharAttempt(c: char, s: string, k: nat)
    ensures Literal([c])(s, k) == if k < |s| && s[k] == c then Some(k + 1) else None
  {
    if k < |s| {
      assert s[k..k + 1] == [s[k]];
    }
  }

  lemma {:induction false} TagScanExample()
    ensures FindAll(Literal("["), "[A][B]") == [Span(0, 1), Span(3, 4)]
  {
    var s := "[A][B]";
    var open := Literal("[");
    forall k | 0 <= k <= 6 ensures open(s, k) == if k < 6 && s[k] == '[' then Some(k + 1) else None {
      LiteralCharAttempt('[', s, k);
    }
    assert Find(open, s, 4) == None;
    assert Find(open, s, 1) == Some(Span(3, 4));
    assert Find(open, s, 0) == Some(Span(0, 1));
    FindAllFromStep(open, s, 1, Span(3, 4));
    FindAllFromStep(open, s, 0, Span(0, 1));
  }

  lemma CloseFindExample()
    ensures Find(Literal("]"), "A][B]", 0) == Some(Span(1, 2))
    ensures Find(Literal("]"), "B]", 0) == Some(Span(1, 2))
    ensures Find(Literal("]"), "A[B]", 0) == Some(Span(3, 4))
  {
    var close := Literal("]");
    LiteralCharAttempt(']', "A][B]", 0);
    LiteralCharAttempt(']', "A][B]", 1);
    LiteralCharAttempt(']', "B]", 0);
    LiteralCharAttempt(']', "B]", 1);
    forall k | 0 <= k <= 4 ensures close("A[B]", k) == if k < 4 && "A[B]"[k] == ']' then Some(k + 1) else None {
      LiteralCharAttempt(']', "A[B]", k);
    }
  }

  /** With literal tags, every start tag followed by an end tag contributes the text between. */
  lemma {:induction false} BetweenTagsExample()
    ensures Between(Literal("]"), "[A][B]", FindAll(Literal("["), "[A][B]")) == ["A", "B"]
  {
    var s := "[A][B]";
    var close := Literal("]");
    calc {
      Between(close, s, FindAll(Literal("["), s));
      { TagScanExample(); }
      Between(close, s, [Span(0, 1)] + [Span(3, 4)]);
      { BetweenCons(close, s, Span(0, 1), [Span(3, 4)]); }
      Entry(close, s, Span(0, 1)) + Between(close, s, [Span(3, 4)] + []);
      { BetweenCons(close, s, Span(3, 4), []); }
      Entry(close, s, Span(0, 1)) + (Entry(close, s, Span(3, 4)) + []);
      { TagEntriesExample(); }
      ["A", "B"];
    }
  }

  lemma TagEntriesExample()
    ensures Entry(Literal("]"), "[A][B]", Span(0, 1)) == ["A"]
    ensures Entry(Literal("]"), "[A][B]", Span(3, 4)) == ["B"]
  {
    var s := "[A][B]";
    assert s[1..] == "A][B]" && s[4..] == "B]";
    CloseFindExample();
    assert "A][B]"[..1] == "A" && "B]"[..1] == "B";
  }

  lemma {:induction false} OverlapScanExample()
    ensures FindAll(Literal("["), "[A[B]") == [Span(0, 1), Span(2, 3)]
  {
    var s := "[A[B]";
    var open := Literal("[");
    forall k | 0 <= k <= 5 ensures open(s, k) == if k < 5 && s[k] == '[' then Some(k + 1) else None {
      LiteralCharAttempt('[', s, k);
    }
    assert Find(open, s, 3) == None;
    assert Find(open, s, 1) == Some(Span(2, 3));
    assert Find(open, s, 0) == Some(Span(0, 1));
    FindAllFromStep(open, s, 1, Span(2, 3));
    FindAllFromStep(open, s, 0, Span(0, 1));
  }

  /** Entries of different start matches may overlap: "[A[B]" gives "A[B" and "B". */
  lemma {:induction false} BetweenOverlapExample()
    ensures Between(Literal("]"), "[A[B]", FindAll(Literal("["), "[A[B]")) == ["A[B", "B"]
  {
    var s := "[A[B]";
    var close := Literal("]");
    calc {
      Between(close, s, FindAll(Literal("["), s));
      { OverlapScanExample(); }
      Between(close, s, [Span(0, 1)] + [Span(2, 3)]);
      { BetweenCons(close, s, Span(0, 1), [Span(2, 3)]); }
      Entry(close, s, Span(0, 1)) + Between(close, s, [Span(2, 3)] + []);
      { BetweenCons(close, s, Span(2, 3), []); }
      Entry(close, s, Span(0, 1)) + (Entry(close, s, Span(2, 3)) + []);
      { OverlapEntriesExample(); }
      ["A[B", "B"];
    }
  }

  lemma OverlapEntriesExample()
    ensures Entry(Literal("]"), "[A[B]", Span(0, 1)) == ["A[B"]
    ensures Entry(Literal("]"), "[A[B]", Span(2, 3)) == ["B"]
  {
    var s := "[A[B]";
    assert s[1..] == "A[B]" && s[3..] == "B]";
    CloseFindExample();
    assert "A[B]"[..3] == "A[B" && "B]"[..1] == "B";
  }
}
