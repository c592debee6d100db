/**
 * processText, processBatch and the loop inside processBatchAsync. A list entry may be null
 * (None); the callbacks are caller code, modelled by what each invocation does: return
 * normally or throw. The asynchronous hand-off itself is not modelled; the loop runs as
 * written, and the callback invocations are recorded as a trace of events.
 */
module BatchProcessing {
  import opened JavaLang
  import opened Regex
  import opened FixedPatterns
  import opened Documents

  // ---------------------------------------------------------------------------
  // processText
  // ---------------------------------------------------------------------------

  /**
   * The text from `from` on with every maximal run of whitespace replaced by one space:
   * CollapseFrom specialised to the whitespace class, so that it can be unfolded without
   * applying a predicate passed as a value.
   */
  function SpaceCollapsed(s: string, from: nat): string
    requires from <= |s|
    decreases |s| - from
  {
    if from == |s| then ""
    else if IsSpace(s[from]) then " " + SpaceCollapsed(s, RunEnd(s, from, IsSpace))
    else [s[from]] + SpaceCollapsed(s, from + 1)
  }

  lemma {:induction false} SpaceCollapsedIsCollapse(s: string, from: nat)
    requires from <= |s|
    ensures SpaceCollapsed(s, from) == CollapseFrom(s, from, IsSpace, " ")
    decreases |s| - from
  {
    if from < |s| {
      if IsSpace(s[from]) {
        SpaceCollapsedIsCollapse(s, RunEnd(s, from, IsSpace));
      } else {
        SpaceCollapsedIsCollapse(s, from + 1);
      }
    }
  }

  /** What processText makes of a content: trimmed, then every whitespace run one space. */
  function ProcessedContent(content: string): string
  {
    SpaceCollapsed(Trim(content), 0)
  }

  /**
   * The content exactly as processText computes it: trimmed, every `\s+` replaced by one
   * space, then every `\n\s*\n` replaced by a blank line.
   */
  function ProcessedAsWritten(content: string): string
  {
    ReplaceAllPlain(ParagraphBreak, CollapseSpaces(Trim(content)), "\n\n")
  }

  /**
   * The second replacement is dead code: the first leaves no newline, so the content as
   * written is the trimmed, collapsed content.
   */
  lemma ProcessedIsCollapsed(content: string)
    ensures ProcessedAsWritten(content) == ProcessedContent(content) == CollapseSpaces(Trim(content))
  {
    ParagraphStepIsDead(Trim(content));
    SpaceCollapsedIsCollapse(Trim(content), 0);
  }

  /** Once whitespace runs are single spaces, no paragraph break is left to replace. */
  lemma ParagraphStepIsDead(t: string)
    ensures ReplaceAllPlain(ParagraphBreak, CollapseSpaces(t), "\n\n") == CollapseSpaces(t)
  {
    var c := CollapseSpaces(t);
    CollapseShape(t, 0);
    assert forall i :: 0 <= i < |c| ==> c[i] != '\n' by {
      assert IsSpace('\n');
    }
    NoParagraphBreak(c);
  }

  /**
   * The processed content has no whitespace but single spaces, never two in a row, and
   * nothing trimmable at either end.
   */
  lemma ProcessedShape(content: string)
    ensures var r := ProcessedContent(content);
      && OnlyPlainSpaces(r) && NoDoubleSpace(r)
      && (r == [] || (!IsTrimmable(r[0]) && !IsTrimmable(r[|r| - 1])))
  {
    var t := Trim(content);
    var r := ProcessedContent(content);
    SpaceCollapsedIsCollapse(t, 0);
    assert r == CollapseFrom(t, 0, IsSpace, " ");
    CollapseShape(t, 0);
    if t != [] {
      SpaceIsTrimmable(t[0]);
      SpaceIsTrimmable(t[|t| - 1]);
      assert r[0] == t[0] && r[|r| - 1] == t[|t| - 1];
    }
  }

  /** Processing twice is processing once. */
  lemma ProcessTextIdempotent(content: string)
    ensures ProcessedContent(ProcessedContent(content)) == ProcessedContent(content)
  {
    var r := ProcessedContent(content);
    ProcessedShape(content);
    TrimIdentity(r);
    assert Trim(r) == r;
    ProcessedIsCollapsed(r);
    assert ProcessedContent(r) == CollapseSpaces(r);
    CollapseFixpoint(r);
  }

  /** Text already in collapsed form is left alone by the collapse. */
  lemma CollapseFixpoint(t: string)
    requires OnlyPlainSpaces(t) && NoDoubleSpace(t)
    ensures CollapseSpaces(t) == t
  {
    CollapseIdentity(t, 0);
    assert t[0..] == t;
  }

  /**
   * processText: a new document named with the suffix " (processed)"; a null document
   * throws NullPointerException at getContent.
   */
  method ProcessText(document: Option<TextDocument>, origin: Creation) returns (r: Result<TextDocument>)
    ensures document.None? ==> r == Err(NullPointer)
    ensures document.Some? ==>
      r.Ok? && fresh(r.value) && r.value.CreatedBy(origin)
      && r.value.name == document.value.name + " (processed)"
      && r.value.content == ProcessedContent(document.value.content)
  {
    match document
    case None =>
      r := Err(NullPointer);
    case Some(d) =>
      var content := ProcessedAsWritten(d.content);
      ProcessedIsCollapsed(d.content);
      var processed := new TextDocument(d.name + " (processed)", content, origin);
      r := Ok(processed);
  }

  // ---------------------------------------------------------------------------
  // processBatch
  // ---------------------------------------------------------------------------

  /** Whether a list holds a null entry. */
  predicate HasNull(documents: seq<Option<TextDocument>>)
  {
    exists i :: 0 <= i < |documents| && documents[i].None?
  }

  /** A document holds what processText makes of the input: the suffixed name, the processed content. */
  predicate ProcessedCopy(out: TextDocument, input: TextDocument)
    reads out, input
  {
    out.name == input.name + " (processed)" && out.content == ProcessedContent(input.content)
  }

  /** The document at index i of a batch result is the processed input at index i. */
  predicate ProcessedFrom(out: TextDocument, input: TextDocument, origin: Creation)
    reads out, input
  {
    && out.id == origin.id && out.createdAt == origin.created && out.modifiedAt == origin.modified
    && ProcessedCopy(out, input)
  }

  /**
   * The function processBatch maps over the list: processText, with a failure logged by the
   * entry's id and rethrown wrapped. For a null entry that logging call itself throws
   * NullPointerException, which escapes unwrapped.
   */
  method ProcessEntry(document: Option<TextDocument>, origin: Creation) returns (r: Result<TextDocument>)
    ensures document.None? ==> r == Err(NullPointer)
    ensures document.Some? ==> r.Ok? && fresh(r.value) && ProcessedFrom(r.value, document.value, origin)
  {
    var processed := ProcessText(document, origin);
    match processed {
      case Err(e) =>
        match document {
          case None =>
            return Err(NullPointer);
          case Some(d) =>
            return Err(TextProcessing("Batch processing failed", e));
        }
      case Ok(p) =>
        return Ok(p);
    }
  }

  /**
   * processBatch: the documents processed one by one in input order, each result a new
   * document. A null entry aborts the batch; the catch clause then calls getId on the null
   * entry, so a bare NullPointerException escapes instead of the wrapping exception.
   */
  method ProcessBatch(documents: seq<Option<TextDocument>>, origins: seq<Creation>)
    returns (r: Result<seq<TextDocument>>)
    requires |origins| == |documents|
    ensures r.Err? <==> HasNull(documents)
    ensures r.Err? ==> r.error == NullPointer
    ensures r.Ok? ==>
      |r.value| == |documents|
      && forall i :: 0 <= i < |documents| ==>
        documents[i].Some? && fresh(r.value[i]) && ProcessedFrom(r.value[i], documents[i].value, origins[i])
  {
    var results: seq<TextDocument> := [];
    var i := 0;
    while i < |documents|
      invariant 0 <= i <= |documents| && |results| == i
      invariant forall k :: 0 <= k < i ==> documents[k].Some?
      invariant forall k :: 0 <= k < i ==> fresh(results[k])
      invariant forall k :: 0 <= k < i ==> ProcessedFrom(results[k], documents[k].value, origins[k])
    {
      var step := ProcessStep(documents, origins, i, results);
      if step.Err? {
        return Err(step.error);
      }
      results := step.value;
      i := i + 1;
    }
    r := Ok(results);
  }

  /** One pass of the loop of processBatch: the entry at index i processed and appended. */
  method ProcessStep(documents: seq<Option<TextDocument>>, origins: seq<Creation>, i: nat,
                     results: seq<TextDocument>)
    returns (r: Result<seq<TextDocument>>)
    requires i < |documents| == |origins| && |results| == i
    requires forall k :: 0 <= k < i ==> documents[k].Some?
    requires forall k :: 0 <= k < i ==> ProcessedFrom(results[k], documents[k].value, origins[k])
    ensures r.Err? <==> documents[i].None?
    ensures r.Err? ==> r.error == NullPointer
    ensures r.Ok? ==>
      |r.value| == i + 1 && r.value[..i] == results && fresh(r.value[i])
      && forall k :: 0 <= k <= i ==> documents[k].Some? && ProcessedFrom(r.value[k], documents[k].value, origins[k])
  {
    var processed := ProcessEntry(documents[i], origins[i]);
    if processed.Err? {
      return Err(processed.error);
    }
    r := Ok(results + [processed.value]);
  }

  // ---------------------------------------------------------------------------
  // processBatchAsync
  // ---------------------------------------------------------------------------

  /**
   * How a callback invocation ends: it returns, it throws an Exception (which the loop's
   * `catch (Exception e)` catches), or it throws a Throwable that is not an Exception, such
   * as an AssertionError, which no catch clause of the loop catches.
   */
  datatype Outcome = Returns | Throws(exception: Exception) | Escapes

  /**
   * What the caller's callback does on each invocation: onProgress(current, total) ends with
   * one of the three outcomes; onError(document, error) throws or returns. onError runs inside
   * the catch block, so anything it throws ends the task, whatever its class.
   */
  datatype Callback = Callback(
    progressThrows: (nat, nat) -> Outcome,
    errorThrows: (Option<TextDocument>, Exception) -> bool)

  /** One invocation of the callback, in the order the loop makes them. */
  datatype Event =
    | Progress(current: nat, total: nat)
    | Error(document: Option<TextDocument>, error: Exception)
    | Complete(results: seq<TextDocument>)

  /**
   * The invocations made for the entry at index i, and whether the run stops there because
   * onError threw or onProgress threw something that is not an Exception. A null entry fails
   * in processText; a document succeeds, and onProgress is told i + 1 whatever failed before;
   * when onProgress throws an Exception, onError is called for the same document although
   * its result is already kept; when it throws anything else, the task ends right there.
   */
  function ItemEvents(documents: seq<Option<TextDocument>>, cb: Callback, i: nat): (r: (seq<Event>, bool))
    requires i < |documents|
    ensures 1 <= |r.0| <= 2
  {
    var total := |documents|;
    match documents[i]
    case None => ([Error(None, NullPointer)], cb.errorThrows(None, NullPointer))
    case Some(d) =>
      match cb.progressThrows(i + 1, total)
      case Returns => ([Progress(i + 1, total)], false)
      case Throws(e) => ([Progress(i + 1, total), Error(Some(d), e)], cb.errorThrows(Some(d), e))
      case Escapes => ([Progress(i + 1, total)], true)
  }

  /** The invocations for the first n entries, and whether the run was stopped among them. */
  function EventsUpTo(documents: seq<Option<TextDocument>>, cb: Callback, n: nat): (r: (seq<Event>, bool))
    requires n <= |documents|
    ensures |r.0| <= 2 * n
  {
    if n == 0 then ([], false)
    else
      var (before, stopped) := EventsUpTo(documents, cb, n - 1);
      if stopped then (before, true)
      else
        var (now, stop) := ItemEvents(documents, cb, n - 1);
        (before + now, stop)
  }

  /** The documents that processText accepts, in input order. */
  function Present(documents: seq<Option<TextDocument>>): (r: seq<TextDocument>)
    ensures |r| <= |documents|
  {
    if documents == [] then []
    else
      var last := documents[|documents| - 1];
      Present(documents[..|documents| - 1]) + (if last.Some? then [last.value] else [])
  }

  /** The creation data of the documents that processText accepts, paired with Present. */
  function PresentOrigins(documents: seq<Option<TextDocument>>, origins: seq<Creation>): (r: seq<Creation>)
    requires |origins| == |documents|
    ensures |r| == |Present(documents)|
  {
    if documents == [] then []
    else
      var n := |documents| - 1;
      PresentOrigins(documents[..n], origins[..n]) + (if documents[n].Some? then [origins[n]] else [])
  }

  /**
   * The loop of processBatchAsync. The events are the callback invocations in order; when
   * no onError invocation throws, the last is onComplete with one new document per
   * non-null entry, in input order. When one throws, the exception ends the task and
   * onComplete is never called.
   */
  method RunBatch(documents: seq<Option<TextDocument>>, cb: Callback, origins: seq<Creation>)
    returns (events: seq<Event>)
    requires |origins| == |documents|
    ensures var (trace, stopped) := EventsUpTo(documents, cb, |documents|);
      && (stopped ==> events == trace)
      && (!stopped ==>
            |events| == |trace| + 1 && events[..|trace|] == trace
            && events[|trace|].Complete?
            && var results := events[|trace|].results;
               var inputs := Present(documents);
               |results| == |inputs|
               && (forall k :: 0 <= k < |results| ==> fresh(results[k]) && ProcessedCopy(results[k], inputs[k]))
               && forall k :: 0 <= k < |results| ==> results[k].CreatedBy(PresentOrigins(documents, origins)[k]))
  {
    var results: seq<TextDocument> := [];
    var total := |documents|;
    events := [];
    ghost var inputs: seq<TextDocument> := [];
    ghost var made: seq<Creation> := [];
    var stopped := false;
    var i := 0;
    while i < total && !stopped
      invariant 0 <= i <= total
      invariant EventsUpTo(documents, cb, i) == (events, stopped)
      invariant inputs == Present(documents[..i])
      invariant |results| == |inputs|
      invariant forall k :: 0 <= k < |inputs| ==> allocated(inputs[k])
      invariant forall k :: 0 <= k < |results| ==> fresh(results[k])
      invariant forall k :: 0 <= k < |results| ==> ProcessedCopy(results[k], inputs[k])
      invariant made == PresentOrigins(documents[..i], origins[..i])
      invariant forall k :: 0 <= k < |results| ==> results[k].CreatedBy(made[k])
    {
      events, results, inputs, made, stopped := RunRound(documents, cb, i, origins, events, results, inputs, made);
      i := i + 1;
    }
    if stopped {
      EventsStop(documents, cb, i, total);
    } else {
      assert documents[..total] == documents && origins[..total] == origins;
      events := events + [Complete(results)];
    }
  }

  /**
   * One pass of the loop with its bookkeeping: the entry's invocations appended to the
   * trace, and its new document appended to the results when the entry is not null.
   */
  method RunRound(documents: seq<Option<TextDocument>>, cb: Callback, i: nat, origins: seq<Creation>,
                  events: seq<Event>, results: seq<TextDocument>, ghost inputs: seq<TextDocument>,
                  ghost made: seq<Creation>)
    returns (events': seq<Event>, results': seq<TextDocument>, ghost inputs': seq<TextDocument>,
             ghost made': seq<Creation>, stop: bool)
    requires i < |documents| == |origins| && EventsUpTo(documents, cb, i) == (events, false)
    requires inputs == Present(documents[..i]) && |results| == |inputs|
    requires forall k :: 0 <= k < |inputs| ==> allocated(inputs[k])
    requires forall k :: 0 <= k < |results| ==> ProcessedCopy(results[k], inputs[k])
    requires made == PresentOrigins(documents[..i], origins[..i])
    requires forall k :: 0 <= k < |results| ==> results[k].CreatedBy(made[k])
    ensures EventsUpTo(documents, cb, i + 1) == (events', stop)
    ensures inputs' == Present(documents[..i + 1]) && |results'| == |inputs'|
    ensures forall k :: 0 <= k < |inputs'| ==> allocated(inputs'[k])
    ensures |results| <= |results'| && forall k :: 0 <= k < |results| ==> results'[k] == results[k]
    ensures forall k :: |results| <= k < |results'| ==> fresh(results'[k])
    ensures forall k :: 0 <= k < |results'| ==> ProcessedCopy(results'[k], inputs'[k])
    ensures made' == PresentOrigins(documents[..i + 1], origins[..i + 1])
    ensures forall k :: 0 <= k < |results'| ==> results'[k].CreatedBy(made'[k])
  {
    EventsStep(documents, cb, i);
    PresentStep(documents, i);
    PresentOriginsStep(documents, origins, i);
    var processed, item;
    processed, item, stop := RunItem(documents, cb, i, origins[i]);
    events' := events + item;
    if processed.Some? {
      results' := results + [processed.value];
      inputs' := inputs + [documents[i].value];
      made' := made + [origins[i]];
    } else {
      results' := results;
      inputs' := inputs;
      made' := made;
    }
  }

  /**
   * One pass of the loop body: processText on the entry at index i, then onProgress, and
   * onError if either threw. Returns the new document, the invocations made and whether
   * onError threw.
   */
  method RunItem(documents: seq<Option<TextDocument>>, cb: Callback, i: nat, origin: Creation)
    returns (processed: Option<TextDocument>, item: seq<Event>, stop: bool)
    requires i < |documents|
    ensures (item, stop) == ItemEvents(documents, cb, i)
    ensures processed.Some? <==> documents[i].Some?
    ensures processed.Some? ==>
      fresh(processed.value) && ProcessedCopy(processed.value, documents[i].value)
      && processed.value.CreatedBy(origin)
  {
    var total := |documents|;
    processed := None;
    var result := ProcessText(documents[i], origin);
    match result {
      case Ok(p) =>
        assert documents[i].Some?;
        processed := Some(p);
        var thrown := cb.progressThrows(i + 1, total);
        item := [Progress(i + 1, total)];
        match thrown {
          case Returns =>
            stop := false;
          case Throws(x) =>
            item := item + [Error(documents[i], x)];
            stop := cb.errorThrows(documents[i], x);
          case Escapes =>
            stop := true;
        }
      case Err(e) =>
        assert documents[i] == None && e == NullPointer;
        item := [Error(documents[i], e)];
        stop := cb.errorThrows(documents[i], e);
    }
    assert item == ItemEvents(documents, cb, i).0;
    assert stop == ItemEvents(documents, cb, i).1;
  }

  /** One more entry, while the run goes on, adds that entry's invocations. */
  lemma EventsStep(documents: seq<Option<TextDocument>>, cb: Callback, i: nat)
    requires i < |documents| && !EventsUpTo(documents, cb, i).1
    ensures EventsUpTo(documents, cb, i + 1)
      == (EventsUpTo(documents, cb, i).0 + ItemEvents(documents, cb, i).0, ItemEvents(documents, cb, i).1)
  {
  }

  /** One more entry adds its document when it is not null. */
  lemma PresentStep(documents: seq<Option<TextDocument>>, i: nat)
    requires i < |documents|
    ensures Present(documents[..i + 1])
      == Present(documents[..i]) + (if documents[i].Some? then [documents[i].value] else [])
  {
    assert documents[..i + 1][..i] == documents[..i];
  }

  lemma PresentOriginsStep(documents: seq<Option<TextDocument>>, origins: seq<Creation>, i: nat)
    requires i < |documents| == |origins|
    ensures PresentOrigins(documents[..i + 1], origins[..i + 1])
      == PresentOrigins(documents[..i], origins[..i]) + (if documents[i].Some? then [origins[i]] else [])
  {
    assert documents[..i + 1][..i] == documents[..i];
    assert origins[..i + 1][..i] == origins[..i];
  }

  /** Once the run has stopped, later entries add nothing. */
  lemma {:induction false} EventsStop(documents: seq<Option<TextDocument>>, cb: Callback, n: nat, m: nat)
    requires n <= m <= |documents| && EventsUpTo(documents, cb, n).1
    ensures EventsUpTo(documents, cb, m) == EventsUpTo(documents, cb, n)
    decreases m - n
  {
    if n < m {
      EventsStop(documents, cb, n, m - 1);
    }
  }

  /**
   * A callback whose onProgress never throws and whose onError returns when told of a null
   * entry: with onProgress quiet, those are the only onError invocations a run makes.
   */
  ghost predicate Quiet(cb: Callback)
  {
    && (forall current: nat, total: nat :: cb.progressThrows(current, total) == Returns)
    && (forall e: Exception :: !cb.errorThrows(None, e))
  }

  /**
   * With a callback that never throws, the run is never stopped and each entry gets exactly
   * one invocation: onProgress(i + 1, total) for a document, onError(null, NPE) for a null.
   */
  lemma {:induction false} QuietTrace(documents: seq<Option<TextDocument>>, cb: Callback, n: nat)
    requires Quiet(cb) && n <= |documents|
    ensures var (trace, stopped) := EventsUpTo(documents, cb, n);
      && !stopped && |trace| == n
      && forall i :: 0 <= i < n ==>
        trace[i] == if documents[i].Some? then Progress(i + 1, |documents|) else Error(None, NullPointer)
  {
    if n > 0 {
      QuietTrace(documents, cb, n - 1);
      var total := |documents|;
      assert cb.progressThrows(n, total) == Returns;
      assert !cb.errorThrows(None, NullPointer);
    }
  }

  /**
   * When onProgress throws for a document, that document is reported as failed right
   * after its progress report, yet it still counts among the results.
   */
  lemma ProgressThrowReported(documents: seq<Option<TextDocument>>, cb: Callback, i: nat, e: Exception)
    requires i < |documents| && documents[i].Some?
    requires cb.progressThrows(i + 1, |documents|) == Throws(e)
    ensures ItemEvents(documents, cb, i).0 == [Progress(i + 1, |documents|), Error(documents[i], e)]
    ensures documents[i].value in Present(documents)
  {
    PresentHas(documents, i);
  }

  /**
   * When onProgress throws something that is not an Exception, neither onError nor
   * onComplete is called: the trace ends with that progress report.
   */
  lemma ProgressEscapeEnds(documents: seq<Option<TextDocument>>, cb: Callback, i: nat)
    requires i < |documents| && documents[i].Some? && !EventsUpTo(documents, cb, i).1
    requires cb.progressThrows(i + 1, |documents|) == Escapes
    ensures EventsUpTo(documents, cb, |documents|)
      == (EventsUpTo(documents, cb, i).0 + [Progress(i + 1, |documents|)], true)
  {
    EventsStep(documents, cb, i);
    EventsStop(documents, cb, i + 1, |documents|);
  }

  lemma {:induction false} PresentHas(documents: seq<Option<TextDocument>>, i: nat)
    requires i < |documents| && documents[i].Some?
    ensures documents[i].value in Present(documents)
  {
    var init := documents[..|documents| - 1];
    if i < |documents| - 1 {
      PresentHas(init, i);
    }
  }

  /**
   * [d1, null, d3] with a quiet callback: two progress reports, telling 1 and 3 because the
   * count is the loop index, and one error for the null entry.
   */
  lemma NullInTheMiddle(d1: TextDocument, d3: TextDocument, cb: Callback)
    requires Quiet(cb)
    ensures EventsUpTo([Some(d1), None, Some(d3)], cb, 3)
      == ([Progress(1, 3), Error(None, NullPointer), Progress(3, 3)], false)
  {
    var docs := [Some(d1), None, Some(d3)];
    QuietTrace(docs, cb, 3);
    var trace := EventsUpTo(docs, cb, 3).0;
    assert trace[0] == Progress(1, 3) && trace[1] == Error(None, NullPointer) && trace[2] == Progress(3, 3);
    assert trace == [Progress(1, 3), Error(None, NullPointer), Progress(3, 3)];
  }
}
