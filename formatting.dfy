/**
 * formatJSON and formatXML: two character-by-character loops over the trimmed content that
 * insert line breaks and two-space indentation, producing a new document. An indentation
 * count that would go negative makes String.repeat throw; the exception is wrapped and
 * rethrown, which the model returns as an Err.
 */
module Formatting {
  import opened JavaLang
  import opened FixedPatterns
  import opened Documents

  // ---------------------------------------------------------------------------
  // Whitespace helpers
  // ---------------------------------------------------------------------------

  /** The indentation for `n` levels is made of spaces only. */
  lemma {:induction false} PadIsSpaces(n: nat)
    ensures forall i :: 0 <= i < |Repeat("  ", n)| ==> Repeat("  ", n)[i] == ' '
  {
    if n > 0 {
      PadIsSpaces(n - 1);
      assert Repeat("  ", n) == "  " + Repeat("  ", n - 1);
    }
  }

  lemma {:induction false} RemoveAllSpace(a: string)
    requires forall i :: 0 <= i < |a| ==> IsSpace(a[i])
    ensures Remove(a, IsSpace) == ""
  {
    if a != [] {
      RemoveAllSpace(a[1..]);
    }
  }

  /** A line break followed by `n` levels of two-space indentation. */
  function Break(n: nat): string
  {
    "\n" + Repeat("  ", n)
  }

  /** A line break and its indentation disappear once whitespace is removed. */
  lemma BreakVanishes(n: nat)
    ensures Remove(Break(n), IsSpace) == ""
  {
    PadIsSpaces(n);
    RemoveAllSpace(Break(n));
  }

  // ---------------------------------------------------------------------------
  // formatJSON
  // ---------------------------------------------------------------------------

  predicate IsOpener(c: char) { c == '{' || c == '[' }

  predicate IsCloser(c: char) { c == '}' || c == ']' }

  /** How one character changes the nesting depth. */
  function Step(c: char): int
  {
    if IsOpener(c) then 1 else if IsCloser(c) then -1 else 0
  }

  /** The nesting depth after a text: openers less closers, with no regard to strings. */
  function Depth(s: string): int
  {
    if s == [] then 0 else Depth(s[..|s| - 1]) + Step(s[|s| - 1])
  }

  /**
   * What the loop appends for one character at depth `d`: an opener is followed by a line
   * break and the deeper indentation, a closer preceded by a line break and the shallower
   * one, a comma followed by a line break at the same depth.
   */
  function JsonPiece(c: char, d: nat): string
    requires IsCloser(c) ==> d > 0
  {
    if IsOpener(c) then [c] + Break(d + 1)
    else if IsCloser(c) then Break(d - 1) + [c]
    else if c == ',' then [c] + Break(d)
    else [c]
  }

  /**
   * The layout of a text, one character at a time; a closer at depth 0 asks String.repeat
   * for -1 copies, which throws.
   */
  function JsonLayout(s: string): (r: Result<string>)
    ensures r.Ok? ==> Depth(s) >= 0
    ensures r.Err? ==> r.error == IllegalArgument("count is negative: -1")
  {
    if s == [] then Ok("")
    else
      var init := s[..|s| - 1];
      var c := s[|s| - 1];
      var d := Depth(init);
      match JsonLayout(init)
      case Err(e) => Err(e)
      case Ok(f) =>
        if IsCloser(c) && d - 1 < 0 then
          MinusOne();
          Err(IllegalArgument("count is negative: " + IntToString(d - 1)))
        else Ok(f + JsonPiece(c, d))
  }

  lemma MinusOne()
    ensures IntToString(-1) == "-1"
    ensures "count is negative: " + IntToString(-1) == "count is negative: -1"
  {
    assert NatToString(1) == "1";
  }

  /** The layout of a text one character longer, as the loop extends it. */
  lemma JsonLayoutSnoc(s: string, c: char)
    ensures Depth(s + [c]) == Depth(s) + Step(c)
    ensures JsonLayout(s).Err? ==> JsonLayout(s + [c]) == JsonLayout(s)
    ensures JsonLayout(s).Ok? && IsCloser(c) && Depth(s) == 0 ==>
      JsonLayout(s + [c]) == Err(IllegalArgument("count is negative: -1"))
    ensures JsonLayout(s).Ok? && !(IsCloser(c) && Depth(s) == 0) ==>
      JsonLayout(s + [c]) == Ok(JsonLayout(s).value + JsonPiece(c, Depth(s)))
  {
    assert (s + [c])[..|s|] == s;
    MinusOne();
  }

  /** The formatting loop of formatJSON, building the layout in a StringBuilder. */
  method LayoutJson(content: string) returns (r: Result<string>)
    ensures r == JsonLayout(content)
  {
    var formatted := "";
    var indent := 0;
    var i := 0;
    while i < |content|
      invariant 0 <= i <= |content|
      invariant JsonLayout(content[..i]) == Ok(formatted)
      invariant indent == Depth(content[..i])
    {
      var c := content[i];
      assert content[..i + 1] == content[..i] + [c];
      JsonLayoutSnoc(content[..i], c);
      var step := JsonChar(c, indent);
      match step {
        case Err(e) =>
          JsonErrorPersists(content, i + 1);
          return Err(e);
        case Ok(piece) =>
          formatted := formatted + piece;
          indent := indent + Step(c);
      }
      i := i + 1;
    }
    assert content[..i] == content;
    r := Ok(formatted);
  }

  /**
   * The loop body of formatJSON for one character at the current indentation: what it
   * appends, or the exception String.repeat throws for a closer with nothing open.
   */
  method JsonChar(c: char, indent: nat) returns (r: Result<string>)
    ensures IsCloser(c) && indent == 0 ==> r == Err(IllegalArgument("count is negative: -1"))
    ensures !(IsCloser(c) && indent == 0) ==> r == Ok(JsonPiece(c, indent))
  {
    if c == '{' || c == '[' {
      r := Ok([c] + Break(indent + 1));
    } else if c == '}' || c == ']' {
      var pad := RepeatChecked("  ", indent - 1);
      if pad.Err? {
        MinusOne();
        return Err(pad.error);
      }
      r := Ok(("\n" + pad.value) + [c]);
    } else if c == ',' {
      r := Ok([c] + Break(indent));
    } else {
      r := Ok([c]);
    }
  }

  /**
   * formatJSON: the trimmed content laid out, as a new document named with the suffix
   * " (formatted JSON)"; a closer with nothing open makes the call throw
   * TextProcessingException("Failed to format JSON") around the IllegalArgumentException.
   */
  method FormatJson(document: TextDocument, origin: Creation) returns (r: Result<TextDocument>)
    ensures var layout := JsonLayout(Trim(document.content));
      && (layout.Err? ==> r == Err(TextProcessing("Failed to format JSON", layout.error)))
      && (layout.Ok? ==>
            r.Ok? && fresh(r.value) && r.value.CreatedBy(origin)
            && r.value.name == document.name + " (formatted JSON)"
            && r.value.content == layout.value)
  {
    var layout := LayoutJson(Trim(document.content));
    match layout
    case Err(e) =>
      r := Err(TextProcessing("Failed to format JSON", e));
    case Ok(formatted) =>
      var newDoc := new TextDocument(document.name + " (formatted JSON)", formatted, origin);
      r := Ok(newDoc);
  }

  /** Once a prefix fails, so does the whole text. */
  lemma JsonErrorPersists(s: string, k: nat)
    requires k <= |s| && JsonLayout(s[..k]).Err?
    ensures JsonLayout(s).Err?
  {
    JsonLayoutFails(s[..k]);
    var j :| 0 <= j <= k && Depth(s[..k][..j]) < 0;
    assert s[..k][..j] == s[..j];
    JsonLayoutFails(s);
  }

  /** The layout fails exactly when some prefix closes more than it opened. */
  lemma {:induction false} JsonLayoutFails(s: string)
    ensures JsonLayout(s).Ok? <==> (forall k :: 0 <= k <= |s| ==> Depth(s[..k]) >= 0)
  {
    if s != [] {
      var init := s[..|s| - 1];
      JsonLayoutFails(init);
      assert forall k :: 0 <= k <= |init| ==> s[..k] == init[..k];
      assert s[..|s|] == s;
    }
  }

  /** Each piece keeps its character and adds only whitespace. */
  lemma JsonPieceOnlyAddsSpace(c: char, d: nat)
    requires IsCloser(c) ==> d > 0
    ensures Remove(JsonPiece(c, d), IsSpace) == Remove([c], IsSpace)
  {
    if IsOpener(c) {
      BreakVanishes(d + 1);
      RemoveAppend([c], Break(d + 1), IsSpace);
    } else if IsCloser(c) {
      BreakVanishes(d - 1);
      RemoveAppend(Break(d - 1), [c], IsSpace);
    } else if c == ',' {
      BreakVanishes(d);
      RemoveAppend([c], Break(d), IsSpace);
    }
  }

  /** The layout only inserts whitespace: without whitespace, output and input agree. */
  lemma {:induction false} JsonLayoutOnlyAddsSpace(s: string)
    requires JsonLayout(s).Ok?
    ensures Remove(JsonLayout(s).value, IsSpace) == Remove(s, IsSpace)
  {
    if s != [] {
      var init := s[..|s| - 1];
      var c := s[|s| - 1];
      assert s == init + [c];
      JsonLayoutSnoc(init, c);
      JsonLayoutOnlyAddsSpace(init);
      JsonPieceOnlyAddsSpace(c, Depth(init));
      RemoveAppend(JsonLayout(init).value, JsonPiece(c, Depth(init)), IsSpace);
      RemoveAppend(init, [c], IsSpace);
    }
  }

  /** A text with no brackets and no commas comes back as it is. */
  lemma {:induction false} JsonLayoutPlain(s: string)
    requires forall i :: 0 <= i < |s| ==> !IsOpener(s[i]) && !IsCloser(s[i]) && s[i] != ','
    ensures JsonLayout(s) == Ok(s)
  {
    if s != [] {
      var init := s[..|s| - 1];
      assert forall i :: 0 <= i < |init| ==> init[i] == s[i];
      JsonLayoutPlain(init);
      assert s == init + [s[|s| - 1]];
      JsonLayoutSnoc(init, s[|s| - 1]);
    }
  }

  lemma JsonArrayExample()
    ensures JsonLayout("[1]") == Ok("[\n  1\n]")
  {
    JsonArrayItem();
    JsonLayoutSnoc("[1", ']');
    assert "[1" + [']'] == "[1]";
    assert JsonPiece(']', 1) == "\n]";
    assert "[\n  1" + JsonPiece(']', 1) == "[\n  1\n]";
  }

  lemma JsonArrayOpen()
    ensures JsonLayout("[") == Ok("[\n  ") && Depth("[") == 1
  {
    assert Repeat("  ", 1) == "  ";
    JsonLayoutSnoc("", '[');
    assert "" + ['['] == "[";
    assert JsonPiece('[', 0) == "[\n  ";
    assert "" + JsonPiece('[', 0) == JsonPiece('[', 0);
  }

  lemma JsonArrayItem()
    ensures JsonLayout("[1") == Ok("[\n  1") && Depth("[1") == 1
  {
    JsonArrayOpen();
    JsonLayoutSnoc("[", '1');
    assert "[" + ['1'] == "[1";
    assert "[\n  " + JsonPiece('1', 1) == "[\n  1";
  }

  lemma JsonUnbalancedExample()
    ensures JsonLayout("a}").Err?
  {
    JsonLayoutSnoc("", 'a');
    assert "" + ['a'] == "a";
    JsonLayoutSnoc("a", '}');
    assert "a" + ['}'] == "a}";
  }

  // ---------------------------------------------------------------------------
  // formatXML
  // ---------------------------------------------------------------------------

  /** String.indexOf(ch, fromIndex) for a non-negative fromIndex: -1 when absent. */
  function IndexOfFrom(s: string, c: char, from: nat): (r: int)
    ensures r == -1 <==> (forall i :: from <= i < |s| ==> s[i] != c)
    ensures r != -1 ==> from <= r < |s| && s[r] == c && forall i :: from <= i < r ==> s[i] != c
    decreases |s| - from
  {
    if from >= |s| then -1
    else if s[from] == c then from
    else IndexOfFrom(s, c, from + 1)
  }

  function IndexOf(s: string, c: char): int
  {
    IndexOfFrom(s, c, 0)
  }

  /**
   * The test applied to every '<': it looks up the FIRST '<' of the content, not the
   * current one, and asks for a '>' somewhere after it.
   */
  predicate Tagged(t: string)
  {
    var first := IndexOf(t, '<');
    first >= 0 && IndexOfFrom(t, '>', first) > 0
  }

  /** When tagged, the character after the first '<' exists. */
  lemma TaggedHasNext(t: string)
    requires Tagged(t)
    ensures IndexOf(t, '<') + 1 < |t|
  {
  }

  /** Whether the first tag of a tagged content is a closing one; it decides every '<'. */
  predicate ClosingFirst(t: string)
    requires Tagged(t)
  {
    TaggedHasNext(t);
    t[IndexOf(t, '<') + 1] == '/'
  }

  /** The number of occurrences of c in s. */
  function Count(s: string, c: char): nat
  {
    if s == [] then 0
    else Count(s[..|s| - 1], c) + (if s[|s| - 1] == c then 1 else 0)
  }

  /** What the loop appends for one character after `n` tags: a '<' starts a new line. */
  function TagPiece(c: char, n: nat): string
  {
    if c == '<' then Break(n) + [c] else [c]
  }

  /** Every '<' starts a new line, indented by the number of '<' before it. */
  function IndentTags(s: string): string
  {
    if s == [] then ""
    else
      var init := s[..|s| - 1];
      IndentTags(init) + TagPiece(s[|s| - 1], Count(init, '<'))
  }

  lemma IndentTagsSnoc(s: string, c: char)
    ensures IndentTags(s + [c]) == IndentTags(s) + TagPiece(c, Count(s, '<'))
    ensures Count(s + [c], '<') == Count(s, '<') + (if c == '<' then 1 else 0)
  {
    assert (s + [c])[..|s|] == s;
  }

  /**
   * The XML layout of a trimmed content: unchanged when it is not tagged, an error at the
   * first '<' when that starts a closing tag, every '<' indented one level deeper otherwise.
   */
  function XmlLayout(t: string): Result<string>
  {
    if !Tagged(t) then Ok(t)
    else if ClosingFirst(t) then Err(IllegalArgument("count is negative: " + IntToString(-1)))
    else Ok(IndentTags(t))
  }

  /** One more character of the content, in the order the loop appends it. */
  lemma IndentTagsStep(t: string, i: nat)
    requires i < |t|
    ensures t[..i + 1] == t[..i] + [t[i]]
    ensures var n := Count(t[..i], '<');
      && Count(t[..i + 1], '<') == n + (if t[i] == '<' then 1 else 0)
      && IndentTags(t[..i + 1])
         == if t[i] == '<' then (IndentTags(t[..i]) + Break(n)) + [t[i]] else IndentTags(t[..i]) + [t[i]]
  {
    assert t[..i + 1] == t[..i] + [t[i]];
    IndentTagsSnoc(t[..i], t[i]);
  }

  /** The test made at a '<' is the same for every '<': the content's own tagging. */
  lemma XmlDecision(content: string, i: nat)
    requires i < |content| && content[i] == '<'
    ensures IndexOf(content, content[i]) >= 0
    ensures IndexOfFrom(content, '>', IndexOf(content, content[i])) > 0 <==> Tagged(content)
    ensures Tagged(content) ==>
      IndexOf(content, content[i]) + 1 < |content|
      && (content[IndexOf(content, content[i]) + 1] == '/' <==> ClosingFirst(content))
  {
  }

  /** The formatting loop of formatXML, building the layout in a StringBuilder. */
  method LayoutXml(content: string) returns (r: Result<string>)
    ensures r == XmlLayout(content)
  {
    ghost var tagged := Tagged(content);
    ghost var closing := tagged && ClosingFirst(content);
    var formatted := "";
    var indent := 0;
    var i := 0;
    while i < |content|
      invariant 0 <= i <= |content|
      invariant !tagged ==> formatted == content[..i] && indent == 0
      invariant tagged && !closing ==>
        formatted == IndentTags(content[..i]) && indent == Count(content[..i], '<')
      invariant closing ==> formatted == content[..i] && '<' !in content[..i] && indent == 0
    {
      IndentTagsStep(content, i);
      var step := XmlChar(content, i, indent);
      match step {
        case Err(e) =>
          return Err(e);
        case Ok((piece, next)) =>
          formatted := formatted + piece;
          indent := next;
      }
      i := i + 1;
    }
    assert content[..i] == content;
    if closing {
      assert false;
    }
    r := Ok(formatted);
  }

  /**
   * The loop body of formatXML for the character at index i: what it appends and the new
   * indentation, or the exception String.repeat throws. Every '<' is judged by the first
   * '<' of the whole content, so a content whose first tag closes goes one level down at
   * its first '<' and fails there.
   */
  method XmlChar(content: string, i: nat, indent: nat) returns (r: Result<(string, int)>)
    requires i < |content|
    ensures var c := content[i];
      && (c != '<' || !Tagged(content) ==> r == Ok(([c], indent)))
      && (c == '<' && Tagged(content) && !ClosingFirst(content) ==>
            r == Ok((Break(indent) + [c], indent + 1)))
      && (c == '<' && Tagged(content) && ClosingFirst(content) ==>
            r == if indent == 0 then Err(IllegalArgument("count is negative: " + IntToString(-1)))
                 else Ok((("\n" + Repeat("  ", indent - 1)) + [c], indent - 1)))
  {
    var c := content[i];
    var opensTag := false;
    var closesTag := false;
    if c == '<' {
      XmlDecision(content, i);
      opensTag := IndexOfFrom(content, '>', IndexOf(content, c)) > 0;
      if opensTag {
        closesTag := content[IndexOf(content, c) + 1] == '/';
      }
    }
    var piece := "";
    var next: int := indent;
    if opensTag {
      if closesTag {
        next := indent - 1;
        var pad := RepeatChecked("  ", next);
        match pad {
          case Err(e) =>
            assert indent == 0 && Tagged(content) && ClosingFirst(content);
            assert e == IllegalArgument("count is negative: " + IntToString(-1));
            return Err(e);
          case Ok(p) =>
            piece := "\n" + p;
        }
      } else {
        piece := Break(indent);
        next := indent + 1;
      }
    }
    assert !opensTag ==> piece + [c] == [c];
    r := Ok((piece + [c], next));
  }

  /**
   * formatXML: the trimmed content laid out, as a new document named with the suffix
   * " (formatted XML)"; a content whose first tag closes makes the call throw
   * TextProcessingException("Failed to format XML") around the IllegalArgumentException.
   */
  method FormatXml(document: TextDocument, origin: Creation) returns (r: Result<TextDocument>)
    ensures var layout := XmlLayout(Trim(document.content));
      && (layout.Err? ==> r == Err(TextProcessing("Failed to format XML", layout.error)))
      && (layout.Ok? ==>
            r.Ok? && fresh(r.value) && r.value.CreatedBy(origin)
            && r.value.name == document.name + " (formatted XML)"
            && r.value.content == layout.value)
  {
    var layout := LayoutXml(Trim(document.content));
    match layout
    case Err(e) =>
      r := Err(TextProcessing("Failed to format XML", e));
    case Ok(formatted) =>
      var newDoc := new TextDocument(document.name + " (formatted XML)", formatted, origin);
      r := Ok(newDoc);
  }

  /** The XML layout only inserts whitespace: without whitespace, output and input agree. */
  lemma {:induction false} IndentTagsOnlyAddsSpace(s: string)
    ensures Remove(IndentTags(s), IsSpace) == Remove(s, IsSpace)
  {
    if s != [] {
      var init := s[..|s| - 1];
      var c := s[|s| - 1];
      assert s == init + [c];
      IndentTagsSnoc(init, c);
      IndentTagsOnlyAddsSpace(init);
      if c == '<' {
        BreakVanishes(Count(init, '<'));
        RemoveAppend(Break(Count(init, '<')), [c], IsSpace);
      }
      RemoveAppend(IndentTags(init), TagPiece(c, Count(init, '<')), IsSpace);
      RemoveAppend(init, [c], IsSpace);
    }
  }

  /**
   * Indentation only ever grows: the k-th '<' gets a line break and 2k spaces, so n tags
   * add n * n characters in all.
   */
  lemma {:induction false} IndentTagsLength(s: string)
    ensures |IndentTags(s)| == |s| + Count(s, '<') * Count(s, '<')
  {
    if s != [] {
      var init := s[..|s| - 1];
      var c := s[|s| - 1];
      var n := Count(init, '<');
      assert s == init + [c];
      IndentTagsSnoc(init, c);
      IndentTagsLength(init);
      if c == '<' {
        RepeatLength("  ", n);
        assert |TagPiece(c, n)| == 2 * n + 2;
        NextSquare(n);
      }
    }
  }

  lemma NextSquare(n: nat)
    ensures (n + 1) * (n + 1) == n * n + 2 * n + 1
  {
  }

  lemma XmlLayoutOnlyAddsSpace(t: string)
    requires XmlLayout(t).Ok?
    ensures Remove(XmlLayout(t).value, IsSpace) == Remove(t, IsSpace)
  {
    if Tagged(t) {
      IndentTagsOnlyAddsSpace(t);
    }
  }

  /** A content with no '<', or with no '>' after its first '<', comes back as it is. */
  lemma XmlUntagged(t: string)
    requires '<' !in t || '>' !in t[IndexOf(t, '<')..]
    ensures XmlLayout(t) == Ok(t)
  {
    if '<' in t {
      var first := IndexOf(t, '<');
      assert IndexOfFrom(t, '>', first) == -1 by {
        forall i | first <= i < |t| ensures t[i] != '>' {
          assert t[i] == t[first..][i - first];
        }
      }
    }
  }

  /** "<a></a>": the closing tag is indented deeper than the opening one. */
  lemma XmlNestedExample()
    ensures XmlLayout("<a></a>") == Ok("\n<a>\n  </a>")
  {
    var t := "<a></a>";
    assert IndexOf(t, '<') == 0 && t[1] == 'a';
    assert IndexOfFrom(t, '>', 0) == 2;
    XmlNestedTail();
  }

  lemma XmlNestedHead()
    ensures IndentTags("<a>") == "\n<a>" && Count("<a>", '<') == 1
  {
    assert Repeat("  ", 0) == "";
    IndentTagsSnoc("", '<');
    assert "" + ['<'] == "<";
    IndentTagsSnoc("<", 'a');
    assert "<" + ['a'] == "<a";
    IndentTagsSnoc("<a", '>');
    assert "<a" + ['>'] == "<a>";
  }

  lemma XmlNestedSecondTag()
    ensures IndentTags("<a><") == "\n<a>\n  <" && Count("<a><", '<') == 2
  {
    XmlNestedHead();
    assert Break(1) == "\n  " by {
      assert Repeat("  ", 1) == "  ";
    }
    IndentTagsSnoc("<a>", '<');
    assert "<a>" + ['<'] == "<a><";
  }

  lemma XmlNestedSlash()
    ensures IndentTags("<a></") == "\n<a>\n  </" && Count("<a></", '<') == 2
  {
    XmlNestedSecondTag();
    IndentTagsSnoc("<a><", '/');
    assert "<a><" + ['/'] == "<a></";
  }

  lemma XmlNestedName()
    ensures IndentTags("<a></a") == "\n<a>\n  </a" && Count("<a></a", '<') == 2
  {
    XmlNestedSlash();
    IndentTagsSnoc("<a></", 'a');
    assert "<a></" + ['a'] == "<a></a";
    assert "\n<a>\n  </" + TagPiece('a', 2) == "\n<a>\n  </a";
  }

  lemma XmlNestedTail()
    ensures IndentTags("<a></a>") == "\n<a>\n  </a>"
  {
    XmlNestedName();
    IndentTagsSnoc("<a></a", '>');
    assert "<a></a" + ['>'] == "<a></a>";
    assert "\n<a>\n  </a" + TagPiece('>', 2) == "\n<a>\n  </a>";
  }

  /** "</a>": the first tag closes, so the indentation would drop to -1. */
  lemma XmlClosingExample()
    ensures XmlLayout("</a>") == Err(IllegalArgument("count is negative: -1"))
  {
    var t := "</a>";
    assert IndexOf(t, '<') == 0;
    assert IndexOfFrom(t, '>', 0) == 3;
    MinusOne();
  }
}
