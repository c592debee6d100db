/**
 * java.util.regex as the engine uses it. A compiled pattern is abstracted to a matcher:
 * the end of the match the engine reports when an attempt starts exactly at a position.
 * On top of that one notion this module defines, once, what Matcher.find does (the
 * leftmost attempt from the current position; after an empty match the next search
 * starts one character further), what Pattern.split does with limit 0, and what
 * Matcher.replaceAll does (appendReplacement with `$` and `\` expanded).
 */
module Regex {
  import opened JavaLang

  /** The half-open character range [start, end) of one match. */
  datatype Span = Span(start: nat, end: nat)

  /**
   * The match an engine reports for an attempt anchored at position k of text s:
   * None when no match starts there, Some(end) for the match [k, end).
   */
  type Matcher = m: (string, nat) -> Option<nat>
    | forall s: string, k: nat :: m(s, k).Some? ==> k <= m(s, k).value <= |s|
    witness (s: string, k: nat) => None

  /** What Pattern.compile yields: a pattern, or the description of a syntax error. */
  datatype Pattern = Pattern(find: Matcher, matchesWhole: string -> bool)
  datatype Compilation = Compiled(pattern: Pattern) | SyntaxError(description: string)

  /** The regular-expression engine behind Pattern.compile, for patterns supplied by callers. */
  type Compiler = string -> Compilation

  /** Pattern.compile: a syntax error surfaces as PatternSyntaxException. */
  function Compile(compiler: Compiler, pattern: string): (r: Result<Pattern>)
    ensures r.Ok? <==> compiler(pattern).Compiled?
    ensures r.Ok? ==> r.value == compiler(pattern).pattern
    ensures r.Err? ==> r.error == PatternSyntax(compiler(pattern).description, pattern)
  {
    match compiler(pattern)
    case Compiled(p) => Ok(p)
    case SyntaxError(d) => Err(PatternSyntax(d, pattern))
  }

  // ---------------------------------------------------------------------------
  // Matcher.find
  // ---------------------------------------------------------------------------

  /** One call of Matcher.find starting its search at `from`: the leftmost successful attempt. */
  function Find(m: Matcher, s: string, from: nat): (r: Option<Span>)
    ensures r.Some? ==> from <= r.value.start <= r.value.end <= |s|
    ensures r.Some? ==> m(s, r.value.start) == Some(r.value.end)
    ensures r.Some? ==> forall k :: from <= k < r.value.start ==> m(s, k) == None
    ensures r.None? ==> forall k :: from <= k <= |s| ==> m(s, k) == None
    decreases |s| + 1 - from
  {
    if from > |s| then None
    else match m(s, from)
      case Some(e) => Some(Span(from, e))
      case None => Find(m, s, from + 1)
  }

  /** Where the next find starts after a match: its end, or one further if it was empty. */
  function NextSearch(sp: Span): nat
  {
    if sp.end == sp.start then sp.end + 1 else sp.end
  }

  /** Spans in scan order, not overlapping, the first at or after `from`, none past n. */
  predicate Ordered(spans: seq<Span>, from: nat, n: nat)
  {
    spans == [] || (from <= spans[0].start <= spans[0].end <= n && Ordered(spans[1..], spans[0].end, n))
  }

  /** Every span lies inside a text of length n. */
  predicate Within(spans: seq<Span>, n: nat)
  {
    forall i :: 0 <= i < |spans| ==> spans[i].start <= spans[i].end <= n
  }

  /** The matches `while (matcher.find())` visits once the search position is `from`. */
  function FindAllFrom(m: Matcher, s: string, from: nat): (r: seq<Span>)
    ensures Ordered(r, from, |s|) && Within(r, |s|)
    ensures forall i :: 0 <= i < |r| ==> m(s, r[i].start) == Some(r[i].end)
    decreases |s| + 1 - from
  {
    match Find(m, s, from)
    case None => []
    case Some(sp) =>
      var rest := FindAllFrom(m, s, NextSearch(sp));
      OrderedWeaken(rest, NextSearch(sp), sp.end, |s|);
      [sp] + rest
  }

  /** One turn of the search loop: the match found, then the matches after it. */
  lemma FindAllFromStep(m: Matcher, s: string, from: nat, sp: Span)
    requires Find(m, s, from) == Some(sp)
    ensures FindAllFrom(m, s, from) == [sp] + FindAllFrom(m, s, NextSearch(sp))
  {
  }

  /** Every match of a fresh matcher, in scan order. */
  function FindAll(m: Matcher, s: string): (r: seq<Span>)
    ensures Ordered(r, 0, |s|) && Within(r, |s|)
  {
    FindAllFrom(m, s, 0)
  }

  /**
   * `spans` is what a left-to-right scan reports from `from`: each span is the first
   * successful attempt at or after the position where the previous search stopped, and
   * after the last one no attempt succeeds.
   */
  predicate IsScan(m: Matcher, s: string, from: nat, spans: seq<Span>)
    decreases spans
  {
    if spans == [] then forall k :: from <= k <= |s| ==> m(s, k) == None
    else
      && from <= spans[0].start
      && m(s, spans[0].start) == Some(spans[0].end)
      && (forall k :: from <= k < spans[0].start ==> m(s, k) == None)
      && IsScan(m, s, NextSearch(spans[0]), spans[1..])
  }

  /** The search loop's matches are a scan ... */
  lemma {:induction false} FindAllIsScan(m: Matcher, s: string, from: nat)
    ensures IsScan(m, s, from, FindAllFrom(m, s, from))
    decreases |s| + 1 - from
  {
    match Find(m, s, from)
    case None =>
    case Some(sp) =>
      FindAllFromStep(m, s, from, sp);
      FindAllIsScan(m, s, NextSearch(sp));
      assert ([sp] + FindAllFrom(m, s, NextSearch(sp)))[1..] == FindAllFrom(m, s, NextSearch(sp));
  }

  /** ... and the only one: any scan of the text is the search loop's list of matches. */
  lemma {:induction false} ScanIsUnique(m: Matcher, s: string, from: nat, spans: seq<Span>)
    requires IsScan(m, s, from, spans)
    ensures spans == FindAllFrom(m, s, from)
    decreases spans
  {
    if spans == [] {
      if from <= |s| {
        assert m(s, from) == None;
      }
    } else {
      var sp := spans[0];
      FindLeftmost(m, s, from, sp);
      FindAllFromStep(m, s, from, sp);
      ScanIsUnique(m, s, NextSearch(sp), spans[1..]);
    }
  }

  /** Find reports the first successful attempt. */
  lemma {:induction false} FindLeftmost(m: Matcher, s: string, from: nat, sp: Span)
    requires from <= sp.start && m(s, sp.start) == Some(sp.end)
    requires forall k :: from <= k < sp.start ==> m(s, k) == None
    ensures Find(m, s, from) == Some(sp)
    decreases sp.start - from
  {
    if from < sp.start {
      FindLeftmost(m, s, from + 1, sp);
    }
  }

  lemma OrderedWeaken(spans: seq<Span>, from: nat, from': nat, n: nat)
    requires Ordered(spans, from, n) && from' <= from
    ensures Ordered(spans, from', n)
  {
  }

  /** When no attempt at or after `from` succeeds, the search loop finds nothing. */
  lemma FindAllFromNone(m: Matcher, s: string, from: nat)
    requires forall k :: from <= k <= |s| ==> m(s, k) == None
    ensures FindAllFrom(m, s, from) == []
  {
    if from <= |s| {
      assert m(s, from) == None;
    }
  }

  /** The matched texts, `matcher.group()` for each match. */
  function Texts(s: string, spans: seq<Span>): (r: seq<string>)
    requires Within(spans, |s|)
    ensures |r| == |spans|
    ensures forall i :: 0 <= i < |spans| ==> r[i] == s[spans[i].start..spans[i].end]
  {
    seq(|spans|, i requires 0 <= i < |spans| => s[spans[i].start..spans[i].end])
  }

  lemma {:induction false} TextsCons(s: string, sp: Span, rest: seq<Span>)
    requires Within([sp] + rest, |s|)
    ensures sp.start <= sp.end <= |s| && Within(rest, |s|)
    ensures Texts(s, [sp] + rest) == [s[sp.start..sp.end]] + Texts(s, rest)
  {
    var all := [sp] + rest;
    assert all[0] == sp;
    assert Within(rest, |s|) by {
      forall i | 0 <= i < |rest| ensures rest[i].start <= rest[i].end <= |s| {
        assert rest[i] == all[i + 1];
      }
    }
    var l := Texts(s, all);
    var r := [s[sp.start..sp.end]] + Texts(s, rest);
    forall i | 0 <= i < |l| ensures l[i] == r[i] {
      if i > 0 {
        assert all[i] == rest[i - 1];
      }
    }
  }

  // ---------------------------------------------------------------------------
  // Pattern.split(input, 0)
  // ---------------------------------------------------------------------------

  /** The input cut at the matches: the text before each match and the text after the last. */
  function Pieces(s: string, from: nat, spans: seq<Span>): (r: seq<string>)
    requires from <= |s| && Ordered(spans, from, |s|)
    ensures |r| == |spans| + 1
    decreases spans
  {
    if spans == [] then [s[from..]]
    else [s[from..spans[0].start]] + Pieces(s, spans[0].end, spans[1..])
  }

  /** The last step of split with limit 0: trailing empty strings are removed. */
  function DropTrailingEmpty(xs: seq<string>): (r: seq<string>)
    ensures |r| <= |xs| && r == xs[..|r|]
    ensures r == [] || r[|r| - 1] != ""
    ensures forall i :: |r| <= i < |xs| ==> xs[i] == ""
  {
    if xs != [] && xs[|xs| - 1] == "" then DropTrailingEmpty(xs[..|xs| - 1]) else xs
  }

  /**
   * Pattern.split with limit 0, given the matches of the separator: a zero-width match at
   * index 0 produces no leading empty string; without any other match the result is the
   * input itself; otherwise the pieces, less trailing empty strings.
   */
  function Split(s: string, spans: seq<Span>): (r: seq<string>)
    requires Ordered(spans, 0, |s|)
  {
    var kept := if spans != [] && spans[0] == Span(0, 0) then spans[1..] else spans;
    if kept == [] then [s] else DropTrailingEmpty(Pieces(s, 0, kept))
  }

  /** `.filter(x -> !x.isEmpty())` */
  function NonEmpty(xs: seq<string>): (r: seq<string>)
    ensures forall i :: 0 <= i < |r| ==> r[i] != ""
    ensures forall x :: x in r <==> x in xs && x != ""
  {
    if xs == [] then []
    else (if xs[0] == "" then [] else [xs[0]]) + NonEmpty(xs[1..])
  }

  lemma NonEmptyDropTrailing(xs: seq<string>)
    ensures NonEmpty(DropTrailingEmpty(xs)) == NonEmpty(xs)
    decreases |xs|
  {
    if xs != [] && xs[|xs| - 1] == "" {
      var ys := xs[..|xs| - 1];
      NonEmptyDropTrailing(ys);
      NonEmptyAppend(ys, [""]);
      assert xs == ys + [""];
    }
  }

  lemma NonEmptyAppend(xs: seq<string>, ys: seq<string>)
    ensures NonEmpty(xs + ys) == NonEmpty(xs) + NonEmpty(ys)
  {
    if xs == [] {
      assert xs + ys == ys;
    } else {
      assert (xs + ys)[0] == xs[0] && (xs + ys)[1..] == xs[1..] + ys;
      NonEmptyAppend(xs[1..], ys);
    }
  }

  // ---------------------------------------------------------------------------
  // Matcher.replaceAll
  // ---------------------------------------------------------------------------

  /** The text with each match replaced: appendReplacement for every match, then appendTail. */
  function Splice(s: string, from: nat, spans: seq<Span>, reps: seq<string>): string
    requires from <= |s| && Ordered(spans, from, |s|) && |reps| == |spans|
    decreases spans
  {
    if spans == [] then s[from..]
    else s[from..spans[0].start] + reps[0] + Splice(s, spans[0].end, spans[1..], reps[1..])
  }

  lemma {:induction false} SpliceCons(s: string, from: nat, sp: Span, rest: seq<Span>, reps: seq<string>)
    requires from <= |s| && Ordered([sp] + rest, from, |s|) && |reps| == |rest| + 1
    ensures from <= sp.start <= sp.end <= |s| && Ordered(rest, sp.end, |s|)
    ensures Splice(s, from, [sp] + rest, reps) == s[from..sp.start] + reps[0] + Splice(s, sp.end, rest, reps[1..])
  {
    assert ([sp] + rest)[0] == sp && ([sp] + rest)[1..] == rest;
  }

  /**
   * Replacing every match by r is the same as cutting at the matches (keeping every piece)
   * and joining the pieces with r.
   */
  lemma {:induction false} SpliceIsJoin(s: string, from: nat, spans: seq<Span>, r: string)
    requires from <= |s| && Ordered(spans, from, |s|)
    ensures Splice(s, from, spans, Const(|spans|, r)) == Join(Pieces(s, from, spans), r)
    decreases spans
  {
    if spans != [] {
      var reps := Const(|spans|, r);
      assert reps[1..] == Const(|spans| - 1, r);
      SpliceIsJoin(s, spans[0].end, spans[1..], r);
      var rest := Pieces(s, spans[0].end, spans[1..]);
      assert Pieces(s, from, spans) == [s[from..spans[0].start]] + rest;
      assert ([s[from..spans[0].start]] + rest)[1..] == rest;
    }
  }

  /** A replacement string in which `$` and `\` have no special meaning. */
  predicate Plain(replacement: string)
  {
    forall i :: 0 <= i < |replacement| ==> replacement[i] != '$' && replacement[i] != '\\'
  }

  function Prepend(prefix: string, r: Result<string>): Result<string>
  {
    match r
    case Ok(t) => Ok(prefix + t)
    case Err(e) => Err(e)
  }

  function SkipZeros(s: string): (r: string)
    ensures |r| <= |s|
  {
    if s != [] && s[0] == '0' then SkipZeros(s[1..]) else s
  }

  function GroupName(s: string): (r: string)
    ensures |r| <= |s| && r == s[..|r|]
  {
    if s != [] && IsAsciiLetterOrDigit(s[0]) then [s[0]] + GroupName(s[1..]) else ""
  }

  /** Why a `${name}` reference fails for a pattern that has no named groups. */
  function NamedGroupError(afterBrace: string): string
  {
    var name := GroupName(afterBrace);
    if name == "" then "named capturing group has 0 length name"
    else if |name| == |afterBrace| || afterBrace[|name|] != '}' then "named capturing group is missing trailing '}'"
    else if IsDigit(name[0]) then "capturing group name {" + name + "} starts with digit character"
    else "No group with name {" + name + "}"
  }

  /**
   * Matcher.appendReplacement's expansion of a replacement string for a pattern without
   * capturing groups: `\x` stands for x, `$0` (with the zeros after it) for the whole match,
   * and every other `$` reference throws.
   */
  function Expand(replacement: string, whole: string): Result<string>
    decreases |replacement|
  {
    if replacement == [] then Ok([])
    else if replacement[0] == '\\' then
      if |replacement| == 1 then Err(IllegalArgument("character to be escaped is missing"))
      else Prepend([replacement[1]], Expand(replacement[2..], whole))
    else if replacement[0] == '$' then
      if |replacement| == 1 then Err(IllegalArgument("Illegal group reference: group index is missing"))
      else if replacement[1] == '{' then Err(IllegalArgument(NamedGroupError(replacement[2..])))
      else if !IsDigit(replacement[1]) then Err(IllegalArgument("Illegal group reference"))
      else if replacement[1] != '0' then Err(IndexOutOfBounds("No group " + [replacement[1]]))
      else Prepend(whole, Expand(SkipZeros(replacement[2..]), whole))
    else Prepend([replacement[0]], Expand(replacement[1..], whole))
  }

  /** A replacement without `$` and `\` is inserted literally. */
  lemma {:induction false} ExpandPlain(replacement: string, whole: string)
    requires Plain(replacement)
    ensures Expand(replacement, whole) == Ok(replacement)
    decreases |replacement|
  {
    if replacement != [] {
      assert Plain(replacement[1..]);
      ExpandPlain(replacement[1..], whole);
      assert replacement == [replacement[0]] + replacement[1..];
    }
  }

  /** The replacement of every match, in order, or the first exception an expansion throws. */
  function ExpandAll(texts: seq<string>, f: string -> Result<string>): (r: Result<seq<string>>)
    ensures r.Ok? ==> |r.value| == |texts|
    ensures r.Ok? ==> forall i :: 0 <= i < |texts| ==> f(texts[i]) == Ok(r.value[i])
    ensures r.Err? ==>
      exists i :: 0 <= i < |texts| && f(texts[i]) == Err(r.error) && forall j :: 0 <= j < i ==> f(texts[j]).Ok?
    ensures (forall i :: 0 <= i < |texts| ==> f(texts[i]).Ok?) ==> r.Ok?
  {
    if texts == [] then Ok([])
    else match f(texts[0])
      case Err(e) => Err(e)
      case Ok(t) =>
        match ExpandAll(texts[1..], f)
        case Err(e) =>
          assert exists i :: 1 <= i < |texts| && f(texts[i]) == Err(e) && forall j :: 0 <= j < i ==> f(texts[j]).Ok? by {
            var i :| 0 <= i < |texts[1..]| && f(texts[1..][i]) == Err(e)
              && forall j :: 0 <= j < i ==> f(texts[1..][j]).Ok?;
            assert f(texts[i + 1]) == Err(e);
            forall j | 0 <= j < i + 1 ensures f(texts[j]).Ok? {
              if j > 0 { assert texts[j] == texts[1..][j - 1]; }
            }
          }
          Err(e)
        case Ok(ts) => Ok([t] + ts)
  }

  lemma {:induction false} ExpandAllConst(texts: seq<string>, f: string -> Result<string>, r: string)
    requires forall i :: 0 <= i < |texts| ==> f(texts[i]) == Ok(r)
    ensures ExpandAll(texts, f) == Ok(Const(|texts|, r))
  {
    if texts != [] {
      forall i | 0 <= i < |texts[1..]|
        ensures f(texts[1..][i]) == Ok(r)
      {
        assert texts[1..][i] == texts[i + 1];
      }
      ExpandAllConst(texts[1..], f, r);
      assert [r] + Const(|texts| - 1, r) == Const(|texts|, r);
    }
  }

  /** Matcher.replaceAll, the replacement string of each match computed from its text by f. */
  function ReplaceAll(s: string, spans: seq<Span>, f: string -> Result<string>): (r: Result<string>)
    requires Ordered(spans, 0, |s|) && Within(spans, |s|)
    ensures spans == [] ==> r == Ok(s)
  {
    match ExpandAll(Texts(s, spans), f)
    case Err(e) => Err(e)
    case Ok(reps) => Ok(Splice(s, 0, spans, reps))
  }

  /** String.replaceAll(regex, replacement) for a pattern without capturing groups. */
  function StringReplaceAll(m: Matcher, s: string, replacement: string): Result<string>
  {
    ReplaceAll(s, FindAll(m, s), t => Expand(replacement, t))
  }

  function Const(n: nat, r: string): (c: seq<string>)
    ensures |c| == n && forall i :: 0 <= i < n ==> c[i] == r
  {
    seq(n, i => r)
  }

  /** String.replaceAll with a replacement that is inserted literally: it never throws. */
  function ReplaceAllPlain(m: Matcher, s: string, replacement: string): (r: string)
    requires Plain(replacement)
    ensures StringReplaceAll(m, s, replacement) == Ok(r)
  {
    var spans := FindAll(m, s);
    var texts := Texts(s, spans);
    assert forall i :: 0 <= i < |texts| ==> Expand(replacement, texts[i]) == Ok(replacement) by {
      forall i | 0 <= i < |texts| {
        ExpandPlain(replacement, texts[i]);
      }
    }
    ExpandAllConst(texts, t => Expand(replacement, t), replacement);
    Splice(s, 0, spans, Const(|spans|, replacement))
  }

  // ---------------------------------------------------------------------------
  // A pattern made of ordinary characters
  // ---------------------------------------------------------------------------

  /** The matcher of a pattern with no metacharacters: it matches its own text. */
  function Literal(p: string): Matcher
  {
    (s: string, k: nat) => if k + |p| <= |s| && s[k..k + |p|] == p then Some(k + |p|) else None
  }
}
