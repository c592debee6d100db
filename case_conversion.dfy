/**
 * convertCase: the four case modes. UPPER and LOWER map every character; TITLE splits at
 * whitespace runs and capitalises each token; SENTENCE rewrites every sentence match through
 * Matcher.replaceAll, so the rewritten text is read as a replacement string.
 */
module CaseConversion {
  import opened JavaLang
  import opened Regex
  import opened FixedPatterns
  import opened Documents

  datatype CaseMode = UPPER | LOWER | TITLE | SENTENCE

  // ---------------------------------------------------------------------------
  // The pieces between maximal runs
  // ---------------------------------------------------------------------------

  /** No character of t satisfies P. */
  predicate FreeOf(t: string, P: char -> bool)
  {
    forall j :: 0 <= j < |t| ==> !P(t[j])
  }

  /**
   * The shape of the pieces between the matches of a maximal-run pattern: none holds a run
   * character, the inner ones are never empty, and when the scan starts right after a run the
   * first piece is not empty either (unless it is the only one).
   */
  predicate RunPiecesShape(ps: seq<string>, P: char -> bool, afterRun: bool)
  {
    && (forall i :: 0 <= i < |ps| ==> FreeOf(ps[i], P))
    && (forall i :: 0 < i < |ps| - 1 ==> ps[i] != [])
    && (afterRun && |ps| > 1 ==> ps[0] != [])
  }

  lemma {:induction false} RunPieces(s: string, from: nat, P: char -> bool)
    requires from <= |s| && (from == 0 || from == |s| || !P(s[from]))
    ensures RunPiecesShape(Pieces(s, from, FindAllFrom(RunAt(P), s, from)), P, from > 0)
    decreases |s| - from
  {
    match Find(RunAt(P), s, from)
    case None =>
      assert FindAllFrom(RunAt(P), s, from) == [];
      forall j | from <= j < |s| ensures !P(s[j]) {
        RunAtAttempt(P, s, j);
      }
      var ps := Pieces(s, from, []);
      assert ps == [s[from..]];
    case Some(sp) =>
      RunAtAttempt(P, s, sp.start);
      forall j | from <= j < sp.start ensures !P(s[j]) {
        RunAtAttempt(P, s, j);
      }
      FindAllFromStep(RunAt(P), s, from, sp);
      RunPieces(s, sp.end, P);
      RunPiecesStep(s, from, P, sp, FindAllFrom(RunAt(P), s, sp.end));
  }

  lemma {:induction false} RunPiecesStep(s: string, from: nat, P: char -> bool, sp: Span, rest: seq<Span>)
    requires from <= sp.start < sp.end <= |s| && Ordered([sp] + rest, from, |s|)
    requires from == 0 || !P(s[from])
    requires forall j :: from <= j < sp.start ==> !P(s[j])
    requires P(s[sp.start])
    requires RunPiecesShape(Pieces(s, sp.end, rest), P, true)
    ensures RunPiecesShape(Pieces(s, from, [sp] + rest), P, from > 0)
  {
    assert ([sp] + rest)[0] == sp && ([sp] + rest)[1..] == rest;
    var tail := Pieces(s, sp.end, rest);
    var ps := Pieces(s, from, [sp] + rest);
    assert ps == [s[from..sp.start]] + tail;
    forall i | 0 <= i < |ps| ensures FreeOf(ps[i], P) {
      if i > 0 {
        assert ps[i] == tail[i - 1];
      }
    }
    forall i | 0 < i < |ps| - 1 ensures ps[i] != [] {
      assert ps[i] == tail[i - 1];
    }
    if from > 0 {
      assert from < sp.start;
    }
  }

  /** The last character of the joined text when the last part is not empty. */
  lemma {:induction false} JoinLast(parts: seq<string>, sep: string)
    requires parts != [] && parts[|parts| - 1] != []
    ensures var j := Join(parts, sep);
      j != [] && j[|j| - 1] == parts[|parts| - 1][|parts[|parts| - 1]| - 1]
    decreases |parts|
  {
    if |parts| > 1 {
      JoinLast(parts[1..], sep);
      assert parts[1..][|parts| - 2] == parts[|parts| - 1];
    }
  }

  /** A text less one space at its end, if it ends with one. */
  function DropFinalSpace(t: string): (r: string)
    ensures r == t || (t == r + " ")
  {
    if t != [] && t[|t| - 1] == ' ' then t[..|t| - 1] else t
  }

  /**
   * Dropping the trailing empty pieces before joining with a space only removes the final
   * space of the joined text, when the inner pieces are not empty and none holds a space.
   */
  lemma {:induction false} JoinDropTrailing(ps: seq<string>)
    requires |ps| >= 1 && RunPiecesShape(ps, IsSpace, false)
    ensures Join(DropTrailingEmpty(ps), " ") == DropFinalSpace(Join(ps, " "))
  {
    var n := |ps|;
    if ps[n - 1] != [] {
      JoinLast(ps, " ");
      assert DropTrailingEmpty(ps) == ps;
    } else if n == 1 {
      assert DropTrailingEmpty(ps) == DropTrailingEmpty([]);
    } else {
      var init := ps[..n - 1];
      assert ps == init + [""];
      JoinSnoc(init, "", " ");
      assert Join(ps, " ") == Join(init, " ") + " ";
      assert DropTrailingEmpty(ps) == DropTrailingEmpty(init);
      if init[n - 2] != [] {
        JoinLast(init, " ");
        assert DropTrailingEmpty(init) == init;
      } else {
        assert n == 2 && init == [""];
        assert DropTrailingEmpty(init) == DropTrailingEmpty([]);
      }
    }
  }

  /** The tokens of split("\\s+"). */
  function Tokens(s: string): seq<string>
  {
    Split(s, FindAll(SpaceRun, s))
  }

  /**
   * Joining the whitespace tokens with single spaces is replaceAll("\\s+", " ") less the
   * final space it leaves where the text ends in whitespace.
   */
  lemma {:induction false} TokensJoined(s: string)
    ensures Join(Tokens(s), " ") == DropFinalSpace(CollapseSpaces(s))
    ensures forall i :: 0 <= i < |Tokens(s)| ==> FreeOf(Tokens(s)[i], IsSpace)
  {
    assert SpaceRun == RunAt(IsSpace);
    var spans := FindAll(SpaceRun, s);
    var ps := Pieces(s, 0, spans);
    RunPieces(s, 0, IsSpace);
    assert CollapseSpaces(s) == Join(ps, " ") by {
      SpliceIsJoin(s, 0, spans, " ");
    }
    if spans == [] {
      assert ps == [s[0..]] && s[0..] == s;
      assert Tokens(s) == [s] && Join([s], " ") == s;
      if s != [] {
        assert FreeOf(ps[0], IsSpace);
        assert !IsSpace(s[|s| - 1]);
      }
    } else {
      RunAtAttempt(IsSpace, s, spans[0].start);
      assert spans[0] != Span(0, 0);
      assert Tokens(s) == DropTrailingEmpty(ps);
      JoinDropTrailing(ps);
    }
  }

  // ---------------------------------------------------------------------------
  // The conversions
  // ---------------------------------------------------------------------------

  /** A token in TITLE mode: its first character upper-cased, the rest lower-cased. */
  function TitleWord(w: string): (r: string)
    ensures |r| == |w|
    ensures r != [] ==> !IsLower(r[0]) && forall i :: 1 <= i < |r| ==> !IsUpper(r[i])
    ensures ToLower(r) == ToLower(w)
  {
    if w == [] then [] else [UpperChar(w[0])] + ToLower(w[1..])
  }

  function TitleAll(ws: seq<string>): (r: seq<string>)
    ensures |r| == |ws| && forall i :: 0 <= i < |ws| ==> r[i] == TitleWord(ws[i])
  {
    seq(|ws|, i requires 0 <= i < |ws| => TitleWord(ws[i]))
  }

  /**
   * A sentence match in SENTENCE mode, as the lambda builds it: the first character
   * upper-cased, all the others lower-cased. Matches are never empty.
   */
  function SentenceCase(t: string): (r: string)
    ensures |r| == |t|
    ensures t != [] ==> r[0] == UpperChar(t[0]) && forall i :: 1 <= i < |t| ==> r[i] == LowerChar(t[i])
    ensures ToLower(r) == ToLower(t)
  {
    if t == [] then [] else [UpperChar(t[0])] + ToLower(t[1..])
  }

  /** Every sentence match rewritten by SentenceCase, in order. */
  function SentenceCaseAll(ts: seq<string>): (r: seq<string>)
    ensures |r| == |ts| && forall i :: 0 <= i < |ts| ==> r[i] == SentenceCase(ts[i])
  {
    seq(|ts|, i requires 0 <= i < |ts| => SentenceCase(ts[i]))
  }

  /** The replacement the lambda of SENTENCE mode returns for one match, then expanded. */
  function SentenceReplacement(t: string): Result<string>
  {
    Expand(SentenceCase(t), t)
  }

  /** matcher.replaceAll(match -> ...): each sentence's new text expanded as a replacement. */
  function SentenceMode(s: string): Result<string>
  {
    ReplaceAll(s, FindAll(SentencePattern, s), SentenceReplacement)
  }

  /** The content convertCase computes for each mode. */
  function Converted(content: string, mode: CaseMode): Result<string>
  {
    match mode
    case UPPER => Ok(ToUpper(content))
    case LOWER => Ok(ToLower(content))
    case TITLE => Ok(Join(TitleAll(Tokens(content)), " "))
    case SENTENCE => SentenceMode(content)
  }

  /**
   * convertCase: the new content is stored in the same document, which is returned; an
   * exception from SENTENCE mode escapes before anything is stored.
   */
  method ConvertCase(document: TextDocument, mode: CaseMode, now: Time) returns (r: Result<TextDocument>)
    modifies document
    ensures Converted(old(document.content), mode).Ok? ==>
      r == Ok(document) && document.content == Converted(old(document.content), mode).value
      && document.modifiedAt == now
    ensures Converted(old(document.content), mode).Err? ==>
      r == Err(Converted(old(document.content), mode).error)
      && document.content == old(document.content) && document.modifiedAt == old(document.modifiedAt)
    ensures document.name == old(document.name)
  {
    var converted := Converted(document.content, mode);
    match converted
    case Err(e) =>
      r := Err(e);
    case Ok(c) =>
      document.SetContent(c, now);
      r := Ok(document);
  }

  // ---------------------------------------------------------------------------
  // What the conversions keep
  // ---------------------------------------------------------------------------

  lemma {:induction false} ToLowerJoin(ws: seq<string>, sep: string)
    ensures ToLower(Join(ws, sep)) == Join(LowerAll(ws), ToLower(sep))
    decreases |ws|
  {
    if |ws| > 1 {
      ToLowerJoin(ws[1..], sep);
      ToLowerAppend(ws[0] + sep, Join(ws[1..], sep));
      ToLowerAppend(ws[0], sep);
      assert LowerAll(ws)[1..] == LowerAll(ws[1..]);
    }
  }

  /** UPPER and LOWER change letters only: every character keeps its lower-case form. */
  lemma UpperLowerCaseOnly(content: string)
    ensures |ToUpper(content)| == |content| && ToLower(ToUpper(content)) == ToLower(content)
    ensures ToLower(ToLower(content)) == ToLower(content)
  {
    forall i | 0 <= i < |content| ensures LowerChar(UpperChar(content[i])) == LowerChar(content[i]) {
      CaseRoundTrip(content[i]);
    }
  }

  /**
   * TITLE is whitespace normalisation and a change of case: lower-cased, it is
   * replaceAll("\\s+", " ") of the content, lower-cased, less a space at the end.
   */
  lemma TitleIsCollapsedText(content: string)
    ensures ToLower(Join(TitleAll(Tokens(content)), " ")) == ToLower(DropFinalSpace(CollapseSpaces(content)))
  {
    var ts := Tokens(content);
    TokensJoined(content);
    ToLowerJoin(TitleAll(ts), " ");
    ToLowerJoin(ts, " ");
    assert LowerAll(TitleAll(ts)) == LowerAll(ts);
  }

  /** Two texts alike but for the case of letters have their spaces in the same places. */
  lemma {:induction false} CaseTwinSpacing(t: string, d: string)
    requires ToLower(t) == ToLower(d)
    requires OnlyPlainSpaces(d) && NoDoubleSpace(d) && (d == [] || d[|d| - 1] != ' ')
    ensures OnlyPlainSpaces(t) && NoDoubleSpace(t) && (t == [] || t[|t| - 1] != ' ')
  {
    assert |t| == |d|;
    forall i | 0 <= i < |t| ensures IsSpace(t[i]) <==> IsSpace(d[i]) {
      assert LowerChar(t[i]) == ToLower(t)[i] == ToLower(d)[i] == LowerChar(d[i]);
    }
    forall i | 0 <= i < |t| && IsSpace(t[i]) ensures t[i] == d[i] {
      assert LowerChar(t[i]) == ToLower(t)[i] == ToLower(d)[i] == LowerChar(d[i]);
    }
  }

  lemma {:induction false} DropFinalSpaceSpacing(c: string)
    requires OnlyPlainSpaces(c) && NoDoubleSpace(c)
    ensures var d := DropFinalSpace(c);
      OnlyPlainSpaces(d) && NoDoubleSpace(d) && (d == [] || d[|d| - 1] != ' ')
  {
    var d := DropFinalSpace(c);
    if d != c {
      assert c == d + " ";
      forall i | 0 <= i < |d| ensures d[i] == c[i] { }
      if d != [] {
        assert c[|c| - 2] == d[|d| - 1] && c[|c| - 1] == ' ';
      }
    }
  }

  /** The spacing of TITLE output: only plain spaces, never two in a row and none at the end. */
  lemma TitleSpacing(content: string)
    ensures var t := Join(TitleAll(Tokens(content)), " ");
      && OnlyPlainSpaces(t) && NoDoubleSpace(t) && (t == [] || t[|t| - 1] != ' ')
  {
    var c := CollapseSpaces(content);
    TitleIsCollapsedText(content);
    CollapseShape(content, 0);
    assert content[0..] == content;
    DropFinalSpaceSpacing(c);
    CaseTwinSpacing(Join(TitleAll(Tokens(content)), " "), DropFinalSpace(c));
  }

  /** Replacing each match by a text of the same lower-case form keeps the lower-case form. */
  lemma {:induction false} SpliceCaseOnly(s: string, from: nat, spans: seq<Span>, reps: seq<string>)
    requires from <= |s| && Ordered(spans, from, |s|) && Within(spans, |s|) && |reps| == |spans|
    requires forall i :: 0 <= i < |spans| ==> ToLower(reps[i]) == ToLower(s[spans[i].start..spans[i].end])
    ensures ToLower(Splice(s, from, spans, reps)) == ToLower(s[from..])
    decreases spans
  {
    if spans != [] {
      var sp := spans[0];
      var rest := spans[1..];
      assert spans == [sp] + rest;
      SpliceCons(s, from, sp, rest, reps);
      assert Within(rest, |s|) by {
        forall i | 0 <= i < |rest| ensures rest[i] == spans[i + 1] { }
      }
      forall i | 0 <= i < |rest|
        ensures ToLower(reps[1..][i]) == ToLower(s[rest[i].start..rest[i].end])
      {
        assert reps[1..][i] == reps[i + 1] && rest[i] == spans[i + 1];
      }
      SpliceCaseOnly(s, sp.end, rest, reps[1..]);
      ToLowerAppend(s[from..sp.start] + reps[0], Splice(s, sp.end, rest, reps[1..]));
      ToLowerAppend(s[from..sp.start], reps[0]);
      assert s[from..] == s[from..sp.start] + s[sp.start..sp.end] + s[sp.end..];
      ToLowerAppend(s[from..sp.start] + s[sp.start..sp.end], s[sp.end..]);
      ToLowerAppend(s[from..sp.start], s[sp.start..sp.end]);
    }
  }

  /** Case mapping turns no character into `$` or `\`. */
  lemma SentenceCasePlain(t: string)
    requires Plain(t)
    ensures Plain(SentenceCase(t))
  {
  }

  /**
   * SENTENCE mode on text without `$` and `\`: it succeeds; the text between sentence
   * matches is kept as it is and each match is rewritten by SentenceCase, so the length is
   * kept and nothing but the case of letters changes.
   */
  lemma SentenceCaseOnly(content: string)
    requires Plain(content)
    ensures var spans := FindAll(SentencePattern, content);
      SentenceMode(content) == Ok(Splice(content, 0, spans, SentenceCaseAll(Texts(content, spans))))
    ensures var r := SentenceMode(content).value;
      |r| == |content| && ToLower(r) == ToLower(content)
  {
    var spans := FindAll(SentencePattern, content);
    var texts := Texts(content, spans);
    forall i | 0 <= i < |texts| ensures SentenceReplacement(texts[i]) == Ok(SentenceCase(texts[i])) {
      PlainSlice(content, spans[i].start, spans[i].end);
      SentenceCasePlain(texts[i]);
      ExpandPlain(SentenceCase(texts[i]), texts[i]);
    }
    var reps := ExpandAll(texts, SentenceReplacement).value;
    assert reps == SentenceCaseAll(texts);
    SpliceCaseOnly(content, 0, spans, reps);
    assert content[0..] == content;
  }

  lemma PlainSlice(s: string, i: nat, j: nat)
    requires i <= j <= |s| && Plain(s)
    ensures Plain(s[i..j])
  {
    forall k | 0 <= k < j - i ensures s[i..j][k] == s[i + k] { }
  }

  /**
   * Text inside a sentence is read as a replacement string: "a$." makes SENTENCE mode throw
   * IllegalArgumentException("Illegal group reference").
   */
  lemma SentenceModeDollarExample()
    ensures SentenceMode("a$.") == Err(IllegalArgument("Illegal group reference"))
  {
    var s := "a$.";
    SentenceMatchesExample();
    assert Texts(s, [Span(0, 3)]) == [s] by {
      assert s[0..3] == s;
    }
    SentenceReplacementDollar();
    assert ExpandAll([s], SentenceReplacement) == Err(IllegalArgument("Illegal group reference"));
  }

  /** "a$." is one sentence: the run "a$" without terminators, then ".". */
  lemma SentenceMatchesExample()
    ensures FindAll(SentencePattern, "a$.") == [Span(0, 3)]
  {
    var s := "a$.";
    assert RunEnd(s, 0, IsNotTerminator) == 2 by {
      RunEndUnique(s, 0, IsNotTerminator, 2);
    }
    assert RunEnd(s, 2, IsTerminator) == 3 by {
      RunEndUnique(s, 2, IsTerminator, 3);
    }
    assert SentencePattern(s, 0) == Some(3);
    assert Find(SentencePattern, s, 0) == Some(Span(0, 3));
    assert Find(SentencePattern, s, 3) == None;
    FindAllFromStep(SentencePattern, s, 0, Span(0, 3));
  }

  /** The capitalised sentence "A$." read as a replacement holds the bad reference "$.". */
  lemma SentenceReplacementDollar()
    ensures SentenceReplacement("a$.") == Err(IllegalArgument("Illegal group reference"))
  {
    var s := "a$.";
    assert SentenceCase(s) == "A$." by {
      assert s[1..] == "$.";
      assert ToLower("$.") == "$.";
    }
    assert Expand("$.", s) == Err(IllegalArgument("Illegal group reference"));
    assert Expand("A$.", s) == Prepend("A", Expand("$.", s)) by {
      assert "A$."[1..] == "$.";
    }
  }
}
