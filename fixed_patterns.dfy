/**
 * The regular expressions the engine hard-codes, written out as matchers, and what the
 * generic find, split and replaceAll loops make of them: maximal runs of a character
 * class, lines, words and sentences.
 */
module FixedPatterns {
  import opened JavaLang
  import opened Regex

  // ---------------------------------------------------------------------------
  // Runs of a character class
  // ---------------------------------------------------------------------------

  /** The end of the maximal run of P-characters that starts at k. */
  function RunEnd(s: string, k: nat, P: char -> bool): (j: nat)
    requires k <= |s|
    ensures k <= j <= |s|
    ensures forall i :: k <= i < j ==> P(s[i])
    ensures j == |s| || !P(s[j])
    decreases |s| - k
  {
    if k < |s| && P(s[k]) then RunEnd(s, k + 1, P) else k
  }

  lemma {:induction false} RunEndUnique(s: string, k: nat, P: char -> bool, j: nat)
    requires k <= j <= |s|
    requires forall i :: k <= i < j ==> P(s[i])
    requires j == |s| || !P(s[j])
    ensures RunEnd(s, k, P) == j
  {
  }

  /** `[c]+` for a character class c: greedy, so it takes the whole run. */
  function RunAt(P: char -> bool): Matcher
  {
    (s: string, k: nat) => if k < |s| && P(s[k]) then Some(RunEnd(s, k, P)) else None
  }

  /** `[c]` for a character class c: one character. */
  function CharAt(P: char -> bool): Matcher
  {
    (s: string, k: nat) => if k < |s| && P(s[k]) then Some(k + 1) else None
  }

  lemma {:induction false} RunAtAttempt(P: char -> bool, s: string, k: nat)
    ensures RunAt(P)(s, k) == if k < |s| && P(s[k]) then Some(RunEnd(s, k, P)) else None
  {
  }

  lemma {:induction false} CharAtAttempt(P: char -> bool, s: string, k: nat)
    ensures CharAt(P)(s, k) == if k < |s| && P(s[k]) then Some(k + 1) else None
  {
  }

  predicate IsNewline(c: char) { c == '\n' }
  predicate IsNotNewline(c: char) { c != '\n' }

  /** `\s+` */
  const SpaceRun: Matcher := RunAt(IsSpace)
  /** `\W+` */
  const NonWordRun: Matcher := RunAt(IsNonWordChar)
  /** `"\n"`, the separator of split("\n") */
  const Newline: Matcher := CharAt(IsNewline)

  // ---------------------------------------------------------------------------
  // SENTENCE_PATTERN = [^.!?]+[.!?]+
  // ---------------------------------------------------------------------------

  predicate IsTerminator(c: char) { c == '.' || c == '!' || c == '?' }
  predicate IsNotTerminator(c: char) { !IsTerminator(c) }

  /**
   * An attempt of `[^.!?]+[.!?]+` at k: the non-terminators up to the first terminator,
   * then all the terminators that follow; no match when no terminator follows.
   */
  function SentenceEnd(s: string, k: nat): (r: Option<nat>)
    ensures r.Some? ==> k < r.value <= |s|
  {
    if k < |s| && IsNotTerminator(s[k]) then
      var j := RunEnd(s, k, IsNotTerminator);
      if j < |s| then Some(RunEnd(s, j, IsTerminator)) else None
    else None
  }

  const SentencePattern: Matcher := (s: string, k: nat) => SentenceEnd(s, k)

  // ---------------------------------------------------------------------------
  // WORD_PATTERN = \b\w+\b
  // ---------------------------------------------------------------------------

  /** An attempt of `\b\w+\b` at k: a word character with no word character before it. */
  function WordEnd(s: string, k: nat): (r: Option<nat>)
    ensures r.Some? ==> k < r.value <= |s|
  {
    if k < |s| && IsWordChar(s[k]) && (k == 0 || !IsWordChar(s[k - 1])) then
      Some(RunEnd(s, k, IsWordChar))
    else None
  }

  const WordPattern: Matcher := (s: string, k: nat) => WordEnd(s, k)

  // ---------------------------------------------------------------------------
  // The paragraph separator \n\s*\n
  // ---------------------------------------------------------------------------

  /** The last newline in s[lo..hi], if any. */
  function LastNewline(s: string, lo: nat, hi: nat): (r: Option<nat>)
    requires lo <= hi <= |s|
    ensures r.Some? ==> lo <= r.value < hi && s[r.value] == '\n'
    ensures r.Some? ==> forall q :: r.value < q < hi ==> s[q] != '\n'
    ensures r.None? ==> forall q :: lo <= q < hi ==> s[q] != '\n'
    decreases hi - lo
  {
    if hi == lo then None
    else if s[hi - 1] == '\n' then Some(hi - 1)
    else LastNewline(s, lo, hi - 1)
  }

  /**
   * An attempt of `\n\s*\n` at k: `\s*` first takes all the whitespace after the newline and
   * then gives back characters until a newline follows, so the match ends just after the
   * last newline of that whitespace.
   */
  function ParagraphBreakEnd(s: string, k: nat): (r: Option<nat>)
    ensures r.Some? ==> k < r.value <= |s|
  {
    if k < |s| && s[k] == '\n' then
      match LastNewline(s, k + 1, RunEnd(s, k + 1, IsSpace))
      case Some(q) => Some(q + 1)
      case None => None
    else None
  }

  const ParagraphBreak: Matcher := (s: string, k: nat) => ParagraphBreakEnd(s, k)

  /** With no newline in the text, `\n\s*\n` never matches, so replacing it changes nothing. */
  lemma {:induction false} NoParagraphBreak(s: string)
    requires forall i :: 0 <= i < |s| ==> s[i] != '\n'
    ensures FindAll(ParagraphBreak, s) == []
  {
    FindAllFromNone(ParagraphBreak, s, 0);
  }

  // ---------------------------------------------------------------------------
  // Lines: split("\n")
  // ---------------------------------------------------------------------------

  /** The text cut at every newline (no piece removed). */
  function Lines(s: string): (r: seq<string>)
    ensures |r| >= 1
    ensures forall i :: 0 <= i < |r| ==> '\n' !in r[i]
    decreases |s|
  {
    var j := RunEnd(s, 0, IsNotNewline);
    assert '\n' !in s[..j] by {
      forall i | 0 <= i < j ensures s[..j][i] != '\n' { assert IsNotNewline(s[i]); }
    }
    if j == |s| then
      assert s[..j] == s;
      [s]
    else [s[..j]] + Lines(s[j + 1..])
  }

  lemma {:induction false} LinesWhole(s: string, from: nat)
    requires from <= |s|
    requires forall i :: from <= i < |s| ==> s[i] != '\n'
    ensures Lines(s[from..]) == [s[from..]]
  {
    RunEndUnique(s[from..], 0, IsNotNewline, |s| - from);
  }

  lemma {:induction false} LinesFirst(s: string, from: nat, k: nat)
    requires from <= k < |s| && s[k] == '\n'
    requires forall i :: from <= i < k ==> s[i] != '\n'
    ensures Lines(s[from..]) == [s[from..k]] + Lines(s[k + 1..])
  {
    var t := s[from..];
    RunEndUnique(t, 0, IsNotNewline, k - from);
    assert t[..k - from] == s[from..k];
    assert t[k - from + 1..] == s[k + 1..];
  }

  /** The pieces split("\n") produces before trailing empty strings are removed. */
  lemma {:induction false} PiecesAtNewlines(s: string, from: nat)
    requires from <= |s|
    ensures Pieces(s, from, FindAllFrom(Newline, s, from)) == Lines(s[from..])
    decreases |s| - from
  {
    assert Newline == CharAt(IsNewline);
    match Find(Newline, s, from)
    case None =>
      assert FindAllFrom(Newline, s, from) == [];
      forall i | from <= i < |s| ensures s[i] != '\n' {
        CharAtAttempt(IsNewline, s, i);
      }
      LinesWhole(s, from);
    case Some(sp) =>
      CharAtAttempt(IsNewline, s, sp.start);
      FindAllFromStep(Newline, s, from, sp);
      forall i | from <= i < sp.start ensures s[i] != '\n' {
        CharAtAttempt(IsNewline, s, i);
      }
      PiecesAtNewlines(s, sp.end);
      PiecesAtNewlinesStep(s, from, sp, FindAllFrom(Newline, s, sp.end));
  }

  lemma {:induction false} PiecesAtNewlinesStep(s: string, from: nat, sp: Span, rest: seq<Span>)
    requires from <= sp.start < |s| && s[sp.start] == '\n' && sp.end == sp.start + 1
    requires Ordered([sp] + rest, from, |s|)
    requires forall i :: from <= i < sp.start ==> s[i] != '\n'
    requires Pieces(s, sp.end, rest) == Lines(s[sp.end..])
    ensures Pieces(s, from, [sp] + rest) == Lines(s[from..])
  {
    assert ([sp] + rest)[0] == sp && ([sp] + rest)[1..] == rest;
    LinesFirst(s, from, sp.start);
  }

  /** split("\n") */
  function SplitLines(s: string): (r: seq<string>)
  {
    Split(s, FindAll(Newline, s))
  }

  /**
   * split("\n") is the input itself when it holds no newline, and otherwise the
   * newline-separated lines less the trailing empty ones.
   */
  lemma {:induction false} SplitLinesSpec(s: string)
    ensures '\n' !in s ==> SplitLines(s) == [s]
    ensures '\n' in s ==> SplitLines(s) == DropTrailingEmpty(Lines(s))
  {
    assert Newline == CharAt(IsNewline);
    var spans := FindAll(Newline, s);
    if '\n' in s {
      var k :| 0 <= k < |s| && s[k] == '\n';
      CharAtAttempt(IsNewline, s, k);
      assert spans != [];
      CharAtAttempt(IsNewline, s, spans[0].start);
      PiecesAtNewlines(s, 0);
      assert s[0..] == s;
    } else {
      forall k | 0 <= k <= |s| ensures Newline(s, k) == None {
        CharAtAttempt(IsNewline, s, k);
      }
      FindAllFromNone(Newline, s, 0);
    }
  }

  /** Joining lines with "\n" and cutting at the newlines gives the lines back. */
  lemma {:induction false} LinesOfJoin(ls: seq<string>)
    requires |ls| >= 1 && forall i :: 0 <= i < |ls| ==> '\n' !in ls[i]
    ensures Lines(Join(ls, "\n")) == ls
  {
    var j := Join(ls, "\n");
    if |ls| == 1 {
      RunEndUnique(j, 0, IsNotNewline, |j|);
    } else {
      var rest := Join(ls[1..], "\n");
      assert j == ls[0] + "\n" + rest;
      RunEndUnique(j, 0, IsNotNewline, |ls[0]|);
      assert j[..|ls[0]|] == ls[0];
      assert j[|ls[0]| + 1..] == rest;
      LinesOfJoin(ls[1..]);
    }
  }

  /** The joined text holds a newline exactly when at least two lines were joined. */
  lemma {:induction false} NewlineInJoin(ls: seq<string>)
    requires forall i :: 0 <= i < |ls| ==> '\n' !in ls[i]
    ensures '\n' in Join(ls, "\n") <==> |ls| >= 2
  {
    if |ls| >= 2 {
      assert Join(ls, "\n") == ls[0] + "\n" + Join(ls[1..], "\n");
      assert Join(ls, "\n")[|ls[0]|] == '\n';
    }
  }

  // ---------------------------------------------------------------------------
  // Words: the maximal runs of word characters
  // ---------------------------------------------------------------------------

  /** The maximal runs of P-characters at or after `from`, in order. */
  function Runs(s: string, from: nat, P: char -> bool): (r: seq<string>)
    requires from <= |s|
    ensures forall i :: 0 <= i < |r| ==> r[i] != ""
    ensures forall i, j :: 0 <= i < |r| && 0 <= j < |r[i]| ==> P(r[i][j])
    decreases |s| - from
  {
    if from == |s| then []
    else if !P(s[from]) then Runs(s, from + 1, P)
    else
      var e := RunEnd(s, from, P);
      [s[from..e]] + Runs(s, e, P)
  }

  lemma {:induction false} RunsSkip(s: string, from: nat, k: nat, P: char -> bool)
    requires from <= k <= |s|
    requires forall i :: from <= i < k ==> !P(s[i])
    ensures Runs(s, from, P) == Runs(s, k, P)
    decreases k - from
  {
    if from < k {
      RunsSkip(s, from + 1, k, P);
    }
  }

  /** Not strictly inside a run of word characters. */
  predicate AtWordEdge(s: string, from: nat)
  {
    from == 0 || from >= |s| || !IsWordChar(s[from - 1]) || !IsWordChar(s[from])
  }

  /** Before the first attempt of `\b\w+\b` that succeeds, there is no word character. */
  lemma {:induction false} NoWordBefore(s: string, from: nat, k: nat)
    requires from <= k <= |s| && AtWordEdge(s, from)
    requires forall i :: from <= i < k ==> WordPattern(s, i) == None
    ensures forall i :: from <= i < k ==> !IsWordChar(s[i])
    decreases k - from
  {
    if from < k {
      assert WordPattern(s, from) == None;
      NoWordBefore(s, from + 1, k);
    }
  }

  /** The matches of `\b\w+\b` are exactly the maximal runs of word characters. */
  lemma {:induction false} WordMatchesAreRuns(s: string, from: nat)
    requires from <= |s| && AtWordEdge(s, from)
    ensures Texts(s, FindAllFrom(WordPattern, s, from)) == Runs(s, from, IsWordChar)
    decreases |s| - from
  {
    match Find(WordPattern, s, from)
    case None =>
      NoWordBefore(s, from, |s|);
      RunsSkip(s, from, |s|, IsWordChar);
    case Some(sp) =>
      var k := sp.start;
      NoWordBefore(s, from, k);
      RunsSkip(s, from, k, IsWordChar);
      assert WordEnd(s, k) == Some(sp.end);
      FindAllFromStep(WordPattern, s, from, sp);
      var rest := FindAllFrom(WordPattern, s, sp.end);
      WordMatchesAreRuns(s, sp.end);
      TextsCons(s, sp, rest);
  }

  /** split("\\W+") with the empty strings filtered out. */
  function Words(s: string): seq<string>
  {
    NonEmpty(Split(s, FindAll(NonWordRun, s)))
  }

  lemma {:induction false} PiecesAtNonWords(s: string, from: nat)
    requires from <= |s|
    ensures NonEmpty(Pieces(s, from, FindAllFrom(NonWordRun, s, from))) == Runs(s, from, IsWordChar)
    decreases |s| - from
  {
    assert NonWordRun == RunAt(IsNonWordChar);
    match Find(NonWordRun, s, from)
    case None =>
      assert FindAllFrom(NonWordRun, s, from) == [];
      forall i | from <= i < |s| ensures IsWordChar(s[i]) {
        RunAtAttempt(IsNonWordChar, s, i);
      }
      if from < |s| {
        RunEndUnique(s, from, IsWordChar, |s|);
        assert Runs(s, from, IsWordChar) == [s[from..|s|]] + Runs(s, |s|, IsWordChar);
        assert s[from..] == s[from..|s|];
      }
    case Some(sp) =>
      RunAtAttempt(IsNonWordChar, s, sp.start);
      forall i | from <= i < sp.start ensures IsWordChar(s[i]) {
        RunAtAttempt(IsNonWordChar, s, i);
      }
      FindAllFromStep(NonWordRun, s, from, sp);
      PiecesAtNonWords(s, sp.end);
      PiecesAtNonWordsStep(s, from, sp, FindAllFrom(NonWordRun, s, sp.end));
  }

  lemma {:induction false} PiecesAtNonWordsStep(s: string, from: nat, sp: Span, rest: seq<Span>)
    requires from <= sp.start < sp.end <= |s| && Ordered([sp] + rest, from, |s|)
    requires forall i :: from <= i < sp.start ==> IsWordChar(s[i])
    requires forall i :: sp.start <= i < sp.end ==> IsNonWordChar(s[i])
    requires NonEmpty(Pieces(s, sp.end, rest)) == Runs(s, sp.end, IsWordChar)
    ensures NonEmpty(Pieces(s, from, [sp] + rest)) == Runs(s, from, IsWordChar)
  {
    assert ([sp] + rest)[0] == sp && ([sp] + rest)[1..] == rest;
    var ps := Pieces(s, from, [sp] + rest);
    assert ps == [s[from..sp.start]] + Pieces(s, sp.end, rest);
    assert ps[0] == s[from..sp.start] && ps[1..] == Pieces(s, sp.end, rest);
    RunsSkip(s, sp.start, sp.end, IsWordChar);
    if from < sp.start {
      RunEndUnique(s, from, IsWordChar, sp.start);
    }
  }

  /** The words split("\\W+") leaves after filtering are the maximal runs of word characters. */
  lemma {:induction false} WordsAreRuns(s: string)
    ensures Words(s) == Runs(s, 0, IsWordChar)
  {
    assert NonWordRun == RunAt(IsNonWordChar);
    var spans := FindAll(NonWordRun, s);
    PiecesAtNonWords(s, 0);
    assert s[0..] == s;
    if spans != [] {
      RunAtAttempt(IsNonWordChar, s, spans[0].start);
      NonEmptyDropTrailing(Pieces(s, 0, spans));
    }
  }

  /** `\b\w+\b` finds as many words as split("\\W+") leaves after filtering. */
  lemma {:induction false} WordCountsAgree(s: string)
    ensures |FindAll(WordPattern, s)| == |Words(s)|
    ensures Texts(s, FindAll(WordPattern, s)) == Words(s)
  {
    WordMatchesAreRuns(s, 0);
    WordsAreRuns(s);
  }

  function LowerAll(xs: seq<string>): (r: seq<string>)
    ensures |r| == |xs| && forall i :: 0 <= i < |xs| ==> r[i] == ToLower(xs[i])
  {
    seq(|xs|, i requires 0 <= i < |xs| => ToLower(xs[i]))
  }

  /** ASCII lower-casing keeps every word where it was: toLowerCase().split commutes. */
  lemma {:induction false} RunsOfLower(s: string, from: nat)
    requires from <= |s|
    ensures Runs(ToLower(s), from, IsWordChar) == LowerAll(Runs(s, from, IsWordChar))
    decreases |s| - from
  {
    var t := ToLower(s);
    if from < |s| {
      if IsWordChar(s[from]) {
        var e := RunEnd(s, from, IsWordChar);
        RunEndUnique(t, from, IsWordChar, e);
        RunsOfLower(s, e);
        ToLowerSlice(s, from, e);
        assert LowerAll([s[from..e]] + Runs(s, e, IsWordChar))
          == [ToLower(s[from..e])] + LowerAll(Runs(s, e, IsWordChar));
      } else {
        RunsOfLower(s, from + 1);
      }
    }
  }

  // ---------------------------------------------------------------------------
  // replaceAll("\\s+", " "): collapsing runs
  // ---------------------------------------------------------------------------

  /** The text from `from` on with every maximal P-run replaced by r. */
  function CollapseFrom(s: string, from: nat, P: char -> bool, r: string): string
    requires from <= |s|
    decreases |s| - from
  {
    if from == |s| then ""
    else if P(s[from]) then r + CollapseFrom(s, RunEnd(s, from, P), P, r)
    else [s[from]] + CollapseFrom(s, from + 1, P, r)
  }

  lemma {:induction false} CollapseSkip(s: string, from: nat, k: nat, P: char -> bool, r: string)
    requires from <= k <= |s|
    requires forall i :: from <= i < k ==> !P(s[i])
    ensures CollapseFrom(s, from, P, r) == s[from..k] + CollapseFrom(s, k, P, r)
    decreases k - from
  {
    if from < k {
      CollapseSkip(s, from + 1, k, P, r);
      var rest := CollapseFrom(s, k, P, r);
      calc {
        CollapseFrom(s, from, P, r);
        [s[from]] + CollapseFrom(s, from + 1, P, r);
        [s[from]] + (s[from + 1..k] + rest);
        ([s[from]] + s[from + 1..k]) + rest;
        { assert s[from..k] == [s[from]] + s[from + 1..k]; }
        s[from..k] + rest;
      }
    }
  }

  /** replaceAll("[c]+", r) with a literal r replaces each maximal run by r. */
  lemma {:induction false} SpliceRuns(s: string, from: nat, P: char -> bool, r: string)
    requires from <= |s|
    ensures var spans := FindAllFrom(RunAt(P), s, from);
      Splice(s, from, spans, Const(|spans|, r)) == CollapseFrom(s, from, P, r)
    decreases |s| - from
  {
    var m := RunAt(P);
    match Find(m, s, from)
    case None =>
      assert FindAllFrom(m, s, from) == [];
      forall i | from <= i < |s| ensures !P(s[i]) {
        RunAtAttempt(P, s, i);
      }
      CollapseSkip(s, from, |s|, P, r);
    case Some(sp) =>
      RunAtAttempt(P, s, sp.start);
      forall i | from <= i < sp.start ensures !P(s[i]) {
        RunAtAttempt(P, s, i);
      }
      FindAllFromStep(m, s, from, sp);
      SpliceRuns(s, sp.end, P, r);
      SpliceRunsStep(s, from, P, r, sp, FindAllFrom(m, s, sp.end));
  }

  lemma {:induction false} SpliceRunsStep(s: string, from: nat, P: char -> bool, r: string, sp: Span, rest: seq<Span>)
    requires from <= sp.start < |s| && Ordered([sp] + rest, from, |s|)
    requires forall i :: from <= i < sp.start ==> !P(s[i])
    requires P(s[sp.start]) && sp.end == RunEnd(s, sp.start, P)
    requires Splice(s, sp.end, rest, Const(|rest|, r)) == CollapseFrom(s, sp.end, P, r)
    ensures Splice(s, from, [sp] + rest, Const(|rest| + 1, r)) == CollapseFrom(s, from, P, r)
  {
    var k := sp.start;
    var reps := Const(|rest| + 1, r);
    var tail := CollapseFrom(s, sp.end, P, r);
    calc {
      Splice(s, from, [sp] + rest, reps);
      { SpliceCons(s, from, sp, rest, reps); }
      s[from..k] + reps[0] + Splice(s, sp.end, rest, reps[1..]);
      { assert reps[1..] == Const(|rest|, r); }
      s[from..k] + r + tail;
      s[from..k] + (r + tail);
      { assert CollapseFrom(s, k, P, r) == r + tail; }
      s[from..k] + CollapseFrom(s, k, P, r);
      { CollapseSkip(s, from, k, P, r); }
      CollapseFrom(s, from, P, r);
    }
  }

  /** No whitespace other than the plain space. */
  predicate OnlyPlainSpaces(t: string)
  {
    forall i :: 0 <= i < |t| ==> IsSpace(t[i]) ==> t[i] == ' '
  }

  /** No two spaces in a row. */
  predicate NoDoubleSpace(t: string)
  {
    forall i :: 0 <= i < |t| - 1 ==> !(t[i] == ' ' && t[i + 1] == ' ')
  }

  /** What collapsing whitespace runs to single spaces leaves. */
  lemma {:induction false} CollapseShape(s: string, from: nat)
    requires from <= |s|
    ensures var out := CollapseFrom(s, from, IsSpace, " ");
      && OnlyPlainSpaces(out) && NoDoubleSpace(out)
      && (out != [] <==> from < |s|)
      && (from < |s| ==> (out[0] == ' ' <==> IsSpace(s[from])))
      && (from < |s| && !IsSpace(s[from]) ==> out[0] == s[from])
      && (from < |s| && !IsSpace(s[|s| - 1]) ==> out[|out| - 1] == s[|s| - 1])
    decreases |s| - from
  {
    if from < |s| {
      if IsSpace(s[from]) {
        var e := RunEnd(s, from, IsSpace);
        CollapseShape(s, e);
      } else {
        CollapseShape(s, from + 1);
      }
    }
  }

  /** A text that already has only single plain spaces collapses to itself. */
  lemma {:induction false} CollapseIdentity(t: string, from: nat)
    requires from <= |t| && OnlyPlainSpaces(t) && NoDoubleSpace(t)
    ensures CollapseFrom(t, from, IsSpace, " ") == t[from..]
    decreases |t| - from
  {
    if from < |t| {
      if IsSpace(t[from]) {
        assert t[from] == ' ';
        assert from + 1 == |t| || !IsSpace(t[from + 1]);
        RunEndUnique(t, from, IsSpace, from + 1);
      }
      CollapseIdentity(t, from + 1);
      assert t[from..] == [t[from]] + t[from + 1..];
    }
  }

  /** replaceAll("\\s+", " ") */
  function CollapseSpaces(s: string): (r: string)
    ensures r == ReplaceAllPlain(SpaceRun, s, " ")
  {
    var spans := FindAll(SpaceRun, s);
    SpliceRuns(s, 0, IsSpace, " ");
    CollapseFrom(s, 0, IsSpace, " ")
  }

  // ---------------------------------------------------------------------------
  // replaceAll("[c]", ""): deleting characters
  // ---------------------------------------------------------------------------

  /** The text with every P-character deleted, the others kept in order. */
  function Remove(t: string, P: char -> bool): (r: string)
    ensures |r| <= |t|
    ensures forall i :: 0 <= i < |r| ==> !P(r[i])
  {
    if t == [] then [] else (if P(t[0]) then [] else [t[0]]) + Remove(t[1..], P)
  }

  lemma {:induction false} RemoveAppend(a: string, b: string, P: char -> bool)
    ensures Remove(a + b, P) == Remove(a, P) + Remove(b, P)
  {
    if a == [] {
      assert a + b == b;
    } else {
      assert (a + b)[0] == a[0] && (a + b)[1..] == a[1..] + b;
      RemoveAppend(a[1..], b, P);
    }
  }

  lemma {:induction false} RemoveNothing(a: string, P: char -> bool)
    requires forall i :: 0 <= i < |a| ==> !P(a[i])
    ensures Remove(a, P) == a
  {
    if a != [] {
      RemoveNothing(a[1..], P);
      assert a == [a[0]] + a[1..];
    }
  }

  /** replaceAll("[c]", "") deletes exactly the characters of the class. */
  lemma {:induction false} SpliceChars(s: string, from: nat, P: char -> bool)
    requires from <= |s|
    ensures var spans := FindAllFrom(CharAt(P), s, from);
      Splice(s, from, spans, Const(|spans|, "")) == Remove(s[from..], P)
    decreases |s| - from
  {
    var m := CharAt(P);
    match Find(m, s, from)
    case None =>
      assert FindAllFrom(m, s, from) == [];
      forall i | 0 <= i < |s[from..]| ensures !P(s[from..][i]) {
        CharAtAttempt(P, s, from + i);
      }
      RemoveNothing(s[from..], P);
    case Some(sp) =>
      CharAtAttempt(P, s, sp.start);
      forall i | 0 <= i < |s[from..sp.start]| ensures !P(s[from..sp.start][i]) {
        CharAtAttempt(P, s, from + i);
      }
      FindAllFromStep(m, s, from, sp);
      SpliceChars(s, sp.end, P);
      SpliceCharsStep(s, from, P, sp, FindAllFrom(m, s, sp.end));
  }

  lemma {:induction false} SpliceCharsStep(s: string, from: nat, P: char -> bool, sp: Span, rest: seq<Span>)
    requires from <= sp.start < |s| && P(s[sp.start]) && sp.end == sp.start + 1
    requires Ordered([sp] + rest, from, |s|)
    requires forall i :: 0 <= i < |s[from..sp.start]| ==> !P(s[from..sp.start][i])
    requires Splice(s, sp.end, rest, Const(|rest|, "")) == Remove(s[sp.end..], P)
    ensures Splice(s, from, [sp] + rest, Const(|rest| + 1, "")) == Remove(s[from..], P)
  {
    var reps := Const(|rest| + 1, "");
    assert reps[1..] == Const(|rest|, "");
    SpliceCons(s, from, sp, rest, reps);
    RemoveSkip(s, from, sp.start, P);
    assert s[from..sp.start] + reps[0] == s[from..sp.start];
  }

  /** Deleting from `from` on: the kept prefix, then what follows the first deleted character. */
  lemma {:induction false} RemoveSkip(s: string, from: nat, k: nat, P: char -> bool)
    requires from <= k < |s| && P(s[k])
    requires forall i :: 0 <= i < |s[from..k]| ==> !P(s[from..k][i])
    ensures Remove(s[from..], P) == s[from..k] + Remove(s[k + 1..], P)
  {
    var after := s[k..];
    assert s[from..] == s[from..k] + after;
    RemoveAppend(s[from..k], after, P);
    RemoveNothing(s[from..k], P);
    assert after[0] == s[k] && after[1..] == s[k + 1..];
  }
}
