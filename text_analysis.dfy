/**
 * The analyses over the fixed patterns: word frequencies, the statistics record and the
 * summary made of the first sentences of a document.
 */
module TextAnalysis {
  import opened JavaLang
  import opened Regex
  import opened FixedPatterns
  import opened Documents

  // ---------------------------------------------------------------------------
  // Collectors.groupingBy(key, Collectors.counting())
  // ---------------------------------------------------------------------------

  /** One more element with key k, as the counting collector accumulates it. */
  function Tally<T>(m: map<T, nat>, k: T): map<T, nat>
  {
    if k in m then m[k := m[k] + 1] else m[k := 1]
  }

  /** The counting collector run over the keys of a stream, in stream order. */
  function Frequencies<T>(xs: seq<T>): map<T, nat>
    decreases |xs|
  {
    if xs == [] then map[] else Tally(Frequencies(xs[..|xs| - 1]), xs[|xs| - 1])
  }

  /** The keys are the elements seen, each counted as often as it occurs. */
  lemma {:induction false} FrequenciesCount<T>(xs: seq<T>)
    ensures forall k :: k in Frequencies(xs) <==> k in xs
    ensures forall k :: k in Frequencies(xs) ==> Frequencies(xs)[k] == multiset(xs)[k] >= 1
    decreases |xs|
  {
    if xs != [] {
      var init, last := xs[..|xs| - 1], xs[|xs| - 1];
      FrequenciesCount(init);
      assert xs == init + [last];
      assert multiset(xs) == multiset(init) + multiset{last};
    }
  }

  /** The sum of the counts of a map. */
  ghost function Total<T>(m: map<T, nat>): nat
    decreases |m|
  {
    if m == map[] then 0 else var k :| k in m; m[k] + Total(m - {k})
  }

  /** The sum does not depend on the key taken out first. */
  lemma {:induction false} TotalRemove<T>(m: map<T, nat>, j: T)
    requires j in m
    ensures Total(m) == m[j] + Total(m - {j})
    decreases |m|
  {
    var k :| k in m && Total(m) == m[k] + Total(m - {k});
    if k != j {
      var mk, mj := m - {k}, m - {j};
      assert |mk| < |m| && |mj| < |m|;
      TotalRemove(mk, j);
      TotalRemove(mj, k);
      assert mk - {j} == mj - {k};
    }
  }

  lemma {:induction false} TotalTally<T>(m: map<T, nat>, k: T)
    ensures Total(Tally(m, k)) == Total(m) + 1
  {
    var t := Tally(m, k);
    TotalRemove(t, k);
    if k in m {
      TotalRemove(m, k);
      assert t - {k} == m - {k};
    } else {
      assert t - {k} == m;
    }
  }

  /** Counting a stream counts every element once: the counts sum to its length. */
  lemma {:induction false} FrequenciesTotal<T>(xs: seq<T>)
    ensures Total(Frequencies(xs)) == |xs|
    decreases |xs|
  {
    if xs != [] {
      FrequenciesTotal(xs[..|xs| - 1]);
      TotalTally(Frequencies(xs[..|xs| - 1]), xs[|xs| - 1]);
    }
  }

  // ---------------------------------------------------------------------------
  // analyzeWordFrequency
  // ---------------------------------------------------------------------------

  /** A non-empty run of word characters without a capital letter. */
  predicate IsLowerWord(w: string)
  {
    w != [] && forall i :: 0 <= i < |w| ==> IsWordChar(w[i]) && !IsUpper(w[i])
  }

  /**
   * analyzeWordFrequency: the lower-cased content split at `\W+`, empty pieces dropped,
   * each word counted. Every key is a lower-case word, counted as often as it occurs
   * among the lower-cased words of the content.
   */
  function WordFrequency(content: string): (r: map<string, nat>)
    ensures forall w :: w in r ==> IsLowerWord(w) && r[w] >= 1
    ensures forall w :: w in r <==> w in LowerAll(Words(content))
    ensures forall w :: w in r ==> r[w] == multiset(LowerAll(Words(content)))[w]
  {
    var ws := Words(ToLower(content));
    LowerWords(content);
    FrequenciesCount(ws);
    Frequencies(ws)
  }

  /** The words of the lower-cased text are the lower-cased words of the text, all lower-case words. */
  lemma LowerWords(content: string)
    ensures Words(ToLower(content)) == LowerAll(Words(content))
    ensures forall w :: w in Words(ToLower(content)) ==> IsLowerWord(w)
  {
    WordsAreRuns(content);
    WordsAreRuns(ToLower(content));
    RunsOfLower(content, 0);
    var ws := Words(ToLower(content));
    forall w | w in ws ensures IsLowerWord(w) {
      var k :| 0 <= k < |ws| && ws[k] == w;
      assert w == ToLower(Words(content)[k]);
    }
  }

  // ---------------------------------------------------------------------------
  // getTextStatistics and its counting helpers
  // ---------------------------------------------------------------------------

  /** countWords: the number of `\b\w+\b` matches. */
  function CountWords(text: string): (r: nat)
    ensures r == |Words(text)|
  {
    WordCountsAgree(text);
    |FindAll(WordPattern, text)|
  }

  /** countSentences: the number of `[^.!?]+[.!?]+` matches. */
  function CountSentences(text: string): nat
  {
    |FindAll(SentencePattern, text)|
  }

  /** `.filter(para -> !para.trim().isEmpty())` */
  function NonBlank(xs: seq<string>): (r: seq<string>)
    ensures |r| <= |xs|
    ensures forall i :: 0 <= i < |r| ==> Trim(r[i]) != []
    ensures forall x :: x in r <==> x in xs && Trim(x) != []
  {
    if xs == [] then []
    else (if Trim(xs[0]) == [] then [] else [xs[0]]) + NonBlank(xs[1..])
  }

  /** The paragraphs: the text split at `\n\s*\n`. */
  function Paragraphs(text: string): seq<string>
  {
    Split(text, FindAll(ParagraphBreak, text))
  }

  /** countParagraphs: the paragraphs that are not blank. */
  function CountParagraphs(text: string): nat
  {
    |NonBlank(Paragraphs(text))|
  }

  /** A text without a newline is one paragraph, or none when it is blank. */
  lemma {:induction false} SingleLineParagraphs(text: string)
    requires forall i :: 0 <= i < |text| ==> text[i] != '\n'
    ensures Paragraphs(text) == [text]
    ensures CountParagraphs(text) == if Trim(text) == [] then 0 else 1
  {
    NoParagraphBreak(text);
    assert NonBlank([text]) == (if Trim(text) == [] then [] else [text]) + NonBlank([]);
  }

  /** The statistics map, one field per key. */
  datatype TextStatistics = TextStatistics(
    totalCharacters: nat,
    totalWords: nat,
    totalSentences: nat,
    totalParagraphs: nat,
    wordLengthDistribution: map<int, nat>,
    characterFrequency: map<char, nat>)

  /** The lengths of the words, in order. */
  function Lengths(ws: seq<string>): (r: seq<int>)
    ensures |r| == |ws| && forall i :: 0 <= i < |ws| ==> r[i] == |ws[i]|
  {
    seq(|ws|, i requires 0 <= i < |ws| => |ws[i]|)
  }

  /** The words of a text are never empty, so no word length is 0. */
  lemma LengthsPositive(ws: seq<string>)
    requires forall i :: 0 <= i < |ws| ==> ws[i] != ""
    ensures forall n :: n in Lengths(ws) ==> n >= 1
  {
    forall n | n in Lengths(ws)
      ensures n >= 1
    {
      var i :| 0 <= i < |ws| && Lengths(ws)[i] == n;
    }
  }

  /**
   * getTextStatistics. Each word length is counted as often as a word of that length
   * occurs among the words as split at `\W+` (so all are at least 1); each character is
   * counted, as often as it occurs, under its lower-case form.
   */
  function Statistics(content: string): (r: TextStatistics)
    ensures r.totalCharacters == |content| && r.totalWords == |Words(content)|
    ensures r.totalSentences == CountSentences(content) && r.totalParagraphs == CountParagraphs(content)
    ensures forall n :: n in r.wordLengthDistribution <==> n in Lengths(Words(content))
    ensures forall n :: n in r.wordLengthDistribution ==>
      n >= 1 && r.wordLengthDistribution[n] == multiset(Lengths(Words(content)))[n]
    ensures forall c :: c in r.characterFrequency <==> c in ToLower(content)
    ensures forall c :: c in r.characterFrequency ==> !IsUpper(c)
    ensures forall c :: c in r.characterFrequency ==> r.characterFrequency[c] == multiset(ToLower(content))[c]
  {
    var lengths := Lengths(Words(content));
    FrequenciesCount(lengths);
    LengthsPositive(Words(content));
    FrequenciesCount(ToLower(content));
    TextStatistics(
      |content|,
      CountWords(content),
      CountSentences(content),
      CountParagraphs(content),
      Frequencies(lengths),
      Frequencies(ToLower(content)))
  }

  /**
   * The totals agree: the word-length counts and the word-frequency counts both sum to
   * totalWords, and the character counts sum to totalCharacters.
   */
  lemma StatisticsTotals(content: string)
    ensures var st := Statistics(content);
      && Total(st.wordLengthDistribution) == st.totalWords
      && Total(st.characterFrequency) == st.totalCharacters
      && Total(WordFrequency(content)) == st.totalWords
  {
    FrequenciesTotal(Lengths(Words(content)));
    FrequenciesTotal(ToLower(content));
    LowerWords(content);
    FrequenciesTotal(Words(ToLower(content)));
  }

  // ---------------------------------------------------------------------------
  // generateSummary
  // ---------------------------------------------------------------------------

  function TrimAll(xs: seq<string>): (r: seq<string>)
    ensures |r| == |xs|
  {
    if xs == [] then [] else [Trim(xs[0])] + TrimAll(xs[1..])
  }

  lemma {:induction false} TrimAllAt(xs: seq<string>, i: nat)
    requires i < |xs|
    ensures TrimAll(xs)[i] == Trim(xs[i])
  {
    if i > 0 {
      TrimAllAt(xs[1..], i - 1);
    }
  }

  /** A non-empty text whose last character is `.`, `!` or `?`. */
  predicate EndsWithTerminator(t: string)
  {
    t != [] && IsTerminator(t[|t| - 1])
  }

  /** The text of a sentence match ends with a terminator, and trimming keeps it. */
  lemma SentenceEndsWithTerminator(s: string, sp: Span)
    requires sp.start <= sp.end <= |s| && SentencePattern(s, sp.start) == Some(sp.end)
    ensures EndsWithTerminator(Trim(s[sp.start..sp.end]))
  {
    var j := RunEnd(s, sp.start, IsNotTerminator);
    assert j < |s| && IsTerminator(s[j]);
    assert sp.end == RunEnd(s, j, IsTerminator);
    var t := s[sp.start..sp.end];
    assert t[|t| - 1] == s[sp.end - 1];
    TrimKeepsLast(t);
  }

  /** The sentences of a text, each trimmed, in order of occurrence. */
  function Sentences(content: string): (r: seq<string>)
    ensures |r| == CountSentences(content)
    ensures forall i :: 0 <= i < |r| ==> EndsWithTerminator(r[i])
  {
    var spans := FindAll(SentencePattern, content);
    var texts := Texts(content, spans);
    forall i | 0 <= i < |spans| ensures EndsWithTerminator(TrimAll(texts)[i]) {
      SentenceEndsWithTerminator(content, spans[i]);
      TrimAllAt(texts, i);
    }
    TrimAll(texts)
  }

  function Min(a: int, b: int): int
  {
    if a <= b then a else b
  }

  /**
   * generateSummary: Stream.limit refuses a negative count with
   * IllegalArgumentException(Long.toString(n)); otherwise the first n sentences, all of
   * them when there are fewer, joined by single spaces.
   */
  function Summary(content: string, maxSentences: int): (r: Result<string>)
    ensures r.Err? <==> maxSentences < 0
    ensures r.Err? ==> r.error == IllegalArgument(IntToString(maxSentences))
  {
    if maxSentences < 0 then Err(IllegalArgument(IntToString(maxSentences)))
    else
      var sentences := Sentences(content);
      Ok(Join(sentences[..Min(maxSentences, |sentences|)], " "))
  }

  /** The trimmed texts of the sentence matches found from pos on. */
  function SentencesFrom(content: string, pos: nat): seq<string>
  {
    TrimAll(Texts(content, FindAllFrom(SentencePattern, content, pos)))
  }

  lemma {:induction false} TrimmedTextsStep(m: Matcher, content: string, pos: nat, sp: Span)
    requires Find(m, content, pos) == Some(sp)
    ensures sp.start <= sp.end <= |content|
    ensures TrimAll(Texts(content, FindAllFrom(m, content, pos)))
      == [Trim(content[sp.start..sp.end])] + TrimAll(Texts(content, FindAllFrom(m, content, NextSearch(sp))))
  {
    var rest := FindAllFrom(m, content, NextSearch(sp));
    var text := content[sp.start..sp.end];
    calc {
      TrimAll(Texts(content, FindAllFrom(m, content, pos)));
      { FindAllFromStep(m, content, pos, sp); }
      TrimAll(Texts(content, [sp] + rest));
      { TextsCons(content, sp, rest); }
      TrimAll([text] + Texts(content, rest));
      { TrimAllCons(text, Texts(content, rest)); }
      [Trim(text)] + TrimAll(Texts(content, rest));
    }
  }

  lemma TrimAllCons(x: string, xs: seq<string>)
    ensures TrimAll([x] + xs) == [Trim(x)] + TrimAll(xs)
  {
    assert ([x] + xs)[1..] == xs;
  }

  /** An element moved from the front of what is left to the end of what is collected. */
  lemma MoveFront<T>(acc: seq<T>, x: T, left: seq<T>, rest: seq<T>)
    requires left == [x] + rest
    ensures acc + left == (acc + [x]) + rest
  {
  }

  /** Once the search finds nothing, no sentence is left. */
  lemma SentencesFromDone(content: string, pos: nat)
    requires Find(SentencePattern, content, pos).None?
    ensures SentencesFrom(content, pos) == []
  {
    assert FindAllFrom(SentencePattern, content, pos) == [];
  }

  /** The matcher loop of generateSummary: every sentence match, trimmed, in order. */
  method CollectSentences(content: string) returns (sentences: seq<string>)
    ensures sentences == Sentences(content)
  {
    sentences := [];
    var pos: nat := 0;
    var found := Find(SentencePattern, content, pos);
    while found.Some?
      invariant pos <= |content| + 1
      invariant found == Find(SentencePattern, content, pos)
      invariant sentences + SentencesFrom(content, pos) == SentencesFrom(content, 0)
      decreases |content| + 1 - pos
    {
      var sp := found.value;
      TrimmedTextsStep(SentencePattern, content, pos, sp);
      MoveFront(sentences, Trim(content[sp.start..sp.end]), SentencesFrom(content, pos), SentencesFrom(content, NextSearch(sp)));
      sentences := sentences + [Trim(content[sp.start..sp.end])];
      pos := NextSearch(sp);
      found := Find(SentencePattern, content, pos);
    }
    SentencesFromDone(content, pos);
    assert sentences + [] == sentences;
  }

  /** generateSummary: the sentences collected, then the limit and the join. */
  method GenerateSummary(document: TextDocument, maxSentences: int) returns (r: Result<string>)
    ensures r == Summary(document.content, maxSentences)
  {
    var sentences := CollectSentences(document.content);
    if maxSentences < 0 {
      r := Err(IllegalArgument(IntToString(maxSentences)));
    } else {
      r := Ok(Join(sentences[..Min(maxSentences, |sentences|)], " "));
    }
  }

  /** No sentence asked for gives the empty summary; as many as there are, or more, gives all. */
  lemma SummaryBounds(content: string, maxSentences: int)
    ensures maxSentences == 0 ==> Summary(content, maxSentences) == Ok("")
    ensures maxSentences >= CountSentences(content) ==>
      Summary(content, maxSentences) == Ok(Join(Sentences(content), " "))
  {
    var sentences := Sentences(content);
    assert sentences[..|sentences|] == sentences;
  }

  /** One more sentence asked for, while there is one, appends it after a space. */
  lemma SummaryGrows(content: string, n: nat)
    requires 0 < n < CountSentences(content)
    ensures Summary(content, n + 1) == Ok(Summary(content, n).value + " " + Sentences(content)[n])
  {
    JoinPrefixSnoc(Sentences(content), n);
  }

  /** Joining one sentence more adds a space and that sentence. */
  lemma JoinPrefixSnoc(xs: seq<string>, n: nat)
    requires 0 < n < |xs|
    ensures Join(xs[..n + 1], " ") == Join(xs[..n], " ") + " " + xs[n]
  {
    assert xs[..n + 1] == xs[..n] + [xs[n]];
    JoinSnoc(xs[..n], xs[n], " ");
  }
}
