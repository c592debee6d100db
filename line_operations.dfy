/**
 * removeDuplicates and sortLines: both cut the content at "\n", rearrange the lines and
 * join them back with "\n" into a new document; the input document is left as it was.
 */
module LineOperations {
  import opened JavaLang
  import opened Regex
  import opened FixedPatterns
  import opened Documents

  // ---------------------------------------------------------------------------
  // split("\n") and String.join("\n", ...)
  // ---------------------------------------------------------------------------

  /**
   * The lines split("\n") returns hold no newline, and at least two of them never end with
   * an empty one: the only way to end with "" is the empty text, read as [""].
   */
  lemma {:induction false} SplitLinesShape(s: string)
    ensures forall i :: 0 <= i < |SplitLines(s)| ==> '\n' !in SplitLines(s)[i]
    ensures var ls := SplitLines(s); ls == [] || ls[|ls| - 1] != "" || ls == [""]
  {
    SplitLinesSpec(s);
    if '\n' in s {
      var ls := Lines(s);
      var d := DropTrailingEmpty(ls);
      forall i | 0 <= i < |d| ensures '\n' !in d[i] {
        assert d[i] == ls[i];
      }
    }
  }

  /** Joining lines with "\n" and splitting again gives them back, unless the last is empty. */
  lemma {:induction false} SplitOfJoin(ls: seq<string>)
    requires ls != [] && (|ls| == 1 || ls[|ls| - 1] != "")
    requires forall i :: 0 <= i < |ls| ==> '\n' !in ls[i]
    ensures SplitLines(Join(ls, "\n")) == ls
  {
    var j := Join(ls, "\n");
    SplitLinesSpec(j);
    NewlineInJoin(ls);
    if |ls| >= 2 {
      LinesOfJoin(ls);
    } else {
      assert j == ls[0];
    }
  }

  // ---------------------------------------------------------------------------
  // removeDuplicates: new LinkedHashSet<>(Arrays.asList(lines))
  // ---------------------------------------------------------------------------

  predicate Distinct(xs: seq<string>)
  {
    forall i, j :: 0 <= i < j < |xs| ==> xs[i] != xs[j]
  }

  /** The position of the first occurrence of x. */
  function FirstIndex(xs: seq<string>, x: string): (r: nat)
    requires x in xs
    ensures r < |xs| && xs[r] == x && x !in xs[..r]
  {
    if xs[0] == x then 0 else 1 + FirstIndex(xs[1..], x)
  }

  lemma {:induction false} FirstIndexSnoc(xs: seq<string>, y: string, x: string)
    requires x in xs + [y]
    ensures x in xs ==> FirstIndex(xs + [y], x) == FirstIndex(xs, x)
    ensures x !in xs ==> FirstIndex(xs + [y], x) == |xs|
  {
    if x in xs {
      var k := FirstIndex(xs, x);
      assert (xs + [y])[k] == x;
    }
  }

  /** The set built by adding the lines in order, read back in insertion order. */
  function Dedup(xs: seq<string>): seq<string>
    decreases |xs|
  {
    if xs == [] then []
    else
      var d := Dedup(xs[..|xs| - 1]);
      if xs[|xs| - 1] in d then d else d + [xs[|xs| - 1]]
  }

  /**
   * The lines kept are pairwise distinct, are exactly the lines of the input, and appear
   * in the order of their first occurrences.
   */
  lemma {:induction false} DedupSpec(xs: seq<string>)
    ensures var r := Dedup(xs);
      && Distinct(r)
      && (forall x :: x in r <==> x in xs)
      && (forall i, j :: 0 <= i < j < |r| ==>
            r[i] in xs && r[j] in xs && FirstIndex(xs, r[i]) < FirstIndex(xs, r[j]))
    decreases |xs|
  {
    if xs != [] {
      var init, y := xs[..|xs| - 1], xs[|xs| - 1];
      assert xs == init + [y];
      DedupSpec(init);
      var d := Dedup(init);
      var r := Dedup(xs);
      forall k | 0 <= k < |d| ensures d[k] in init && FirstIndex(xs, d[k]) == FirstIndex(init, d[k]) {
        FirstIndexSnoc(init, y, d[k]);
      }
      if y !in d {
        assert r == d + [y];
        FirstIndexSnoc(init, y, y);
        forall i, j | 0 <= i < j < |r| ensures r[i] in xs && r[j] in xs && FirstIndex(xs, r[i]) < FirstIndex(xs, r[j]) {
          if j == |d| {
            assert r[i] == d[i];
          } else {
            assert r[i] == d[i] && r[j] == d[j];
          }
        }
      }
    }
  }

  /** A list without repeated lines is kept as it is. */
  lemma {:induction false} DedupDistinct(xs: seq<string>)
    requires Distinct(xs)
    ensures Dedup(xs) == xs
    decreases |xs|
  {
    if xs != [] {
      var init := xs[..|xs| - 1];
      DedupDistinct(init);
      assert xs[|xs| - 1] !in init;
      assert xs == init + [xs[|xs| - 1]];
    }
  }

  /** The content of the deduplicated document. */
  function Deduplicated(content: string): string
  {
    Join(Dedup(SplitLines(content)), "\n")
  }

  /**
   * removeDuplicates: a new document named with the suffix " (deduplicated)"; nothing in
   * the body throws, so the catch clause is never taken.
   */
  method RemoveDuplicates(document: TextDocument, origin: Creation) returns (newDoc: TextDocument)
    ensures fresh(newDoc)
    ensures newDoc.CreatedBy(origin) && newDoc.name == document.name + " (deduplicated)"
    ensures newDoc.content == Deduplicated(document.content)
  {
    var lines := SplitLines(document.content);
    var unique := Dedup(lines);
    newDoc := new TextDocument(document.name + " (deduplicated)", Join(unique, "\n"), origin);
  }

  /** The lines of the new content are the distinct lines of the old, in first-occurrence order. */
  lemma DeduplicatedLines(content: string)
    requires "" !in SplitLines(content) && SplitLines(content) != []
    ensures var ls := SplitLines(content);
      var out := SplitLines(Deduplicated(content));
      && Distinct(out) && (forall x :: x in out <==> x in ls)
      && (forall i, j :: 0 <= i < j < |out| ==> FirstIndex(ls, out[i]) < FirstIndex(ls, out[j]))
  {
    var ls := SplitLines(content);
    var d := Dedup(ls);
    DedupSpec(ls);
    SplitLinesShape(content);
    assert d != [] by {
      assert ls[0] in d;
    }
    forall i | 0 <= i < |d| ensures '\n' !in d[i] {
      assert d[i] in ls;
    }
    SplitOfJoin(d);
  }

  /** Without empty lines, deduplicating twice is deduplicating once. */
  lemma DeduplicatedIdempotent(content: string)
    requires "" !in SplitLines(content)
    ensures Deduplicated(Deduplicated(content)) == Deduplicated(content)
  {
    var ls := SplitLines(content);
    var d := Dedup(ls);
    DedupSpec(ls);
    SplitLinesShape(content);
    if d == [] {
      assert Deduplicated(content) == "";
      SplitOfJoin([""]);
      assert Dedup([""]) == Dedup([]) + [""];
    } else {
      forall i | 0 <= i < |d| ensures '\n' !in d[i] {
        assert d[i] in ls;
      }
      SplitOfJoin(d);
      DedupDistinct(d);
    }
  }

  /** A text ending in a newline splits into its lines, the empty one after the newline dropped. */
  lemma {:induction false} SplitOfJoinTrailing(ls: seq<string>)
    requires ls != [] && ls[|ls| - 1] != ""
    requires forall i :: 0 <= i < |ls| ==> '\n' !in ls[i]
    ensures SplitLines(Join(ls + [""], "\n")) == ls
  {
    var all := ls + [""];
    var j := Join(all, "\n");
    assert forall i :: 0 <= i < |all| ==> '\n' !in all[i] by {
      forall i | 0 <= i < |all| ensures '\n' !in all[i] {
        if i < |ls| {
          assert all[i] == ls[i];
        }
      }
    }
    NewlineInJoin(all);
    SplitLinesSpec(j);
    LinesOfJoin(all);
    assert DropTrailingEmpty(all) == DropTrailingEmpty(ls);
  }

  /**
   * With an empty line, the trailing empty line the first pass leaves is dropped by the
   * second: "a\n\na" gives "a\n", which gives "a".
   */
  lemma DeduplicatedNotIdempotent()
    ensures Deduplicated("a\n\na") == "a\n"
    ensures Deduplicated("a\n") == "a"
  {
    DedupFirstPass();
    DedupSecondPass();
  }

  /** "a\n\na" splits into ["a", "", "a"], which deduplicates to ["a", ""]. */
  lemma DedupFirstPass()
    ensures Deduplicated("a\n\na") == "a\n"
  {
    var ls := ["a", "", "a"];
    calc {
      Deduplicated("a\n\na");
      { JoinOfRepeatedLines(); }
      Join(Dedup(SplitLines(Join(ls, "\n"))), "\n");
      { SplitOfJoin(ls); }
      Join(Dedup(ls), "\n");
      { DedupOfRepeatedLines(); }
      Join(["a", ""], "\n");
      { assert ["a", ""][1..] == [""]; }
      "a\n";
    }
  }

  lemma JoinOfRepeatedLines()
    ensures Join(["a", "", "a"], "\n") == "a\n\na"
  {
    var ls := ["a", "", "a"];
    assert ls[1..] == ["", "a"] && ls[1..][1..] == ["a"];
  }

  lemma DedupOfRepeatedLines()
    ensures Dedup(["a", "", "a"]) == ["a", ""]
  {
    assert ["a", "", "a"][..2] == ["a", ""];
    assert ["a", ""][..1] == ["a"];
    assert ["a"][..0] == [];
  }

  /** "a\n" splits into ["a"]: the empty line after the newline is dropped. */
  lemma DedupSecondPass()
    ensures Deduplicated("a\n") == "a"
  {
    assert Join(["a"] + [""], "\n") == "a\n" by {
      assert (["a"] + [""])[1..] == [""];
    }
    SplitOfJoinTrailing(["a"]);
    assert Dedup(["a"]) == ["a"] by {
      assert ["a"][..0] == [];
    }
  }

  // ---------------------------------------------------------------------------
  // sortLines: Collections.sort with (a, b) -> ascending ? a.compareTo(b) : b.compareTo(a)
  // ---------------------------------------------------------------------------

  /** The comparator puts a before b, or calls them equal. */
  predicate Before(ascending: bool, a: string, b: string)
  {
    if ascending then CompareTo(a, b) <= 0 else CompareTo(b, a) <= 0
  }

  lemma BeforeTotal(ascending: bool, a: string, b: string)
    ensures Before(ascending, a, b) || Before(ascending, b, a)
  {
    CompareToAntisymmetric(a, b);
  }

  lemma BeforeAntisymmetric(ascending: bool, a: string, b: string)
    requires Before(ascending, a, b) && Before(ascending, b, a)
    ensures a == b
  {
    CompareToAntisymmetric(a, b);
    CompareToZero(a, b);
  }

  lemma BeforeReflexive(ascending: bool, a: string)
    ensures Before(ascending, a, a)
  {
    CompareToZero(a, a);
  }

  lemma BeforeTransitive(ascending: bool, a: string, b: string, c: string)
    requires Before(ascending, a, b) && Before(ascending, b, c)
    ensures Before(ascending, a, c)
  {
    if ascending {
      CompareToTransitive(a, b, c);
    } else {
      CompareToTransitive(c, b, a);
    }
  }

  predicate Sorted(xs: seq<string>, ascending: bool)
  {
    forall i, j :: 0 <= i < j < |xs| ==> Before(ascending, xs[i], xs[j])
  }

  /** The inserting step of a functional insertion sort, the reference ordering. */
  function Insert(x: string, ys: seq<string>, ascending: bool): seq<string>
    decreases |ys|
  {
    if ys == [] then [x]
    else if Before(ascending, x, ys[0]) then [x] + ys
    else [ys[0]] + Insert(x, ys[1..], ascending)
  }

  /** Inserting into a sorted list keeps it sorted and adds the one line. */
  lemma {:induction false} InsertSorted(x: string, ys: seq<string>, ascending: bool)
    requires Sorted(ys, ascending)
    ensures Sorted(Insert(x, ys, ascending), ascending)
    ensures multiset(Insert(x, ys, ascending)) == multiset(ys) + multiset{x}
    decreases |ys|
  {
    InsertPermutes(x, ys, ascending);
    if ys != [] {
      if Before(ascending, x, ys[0]) {
        forall k | 0 <= k < |ys| ensures Before(ascending, x, ys[k]) {
          if k > 0 {
            BeforeTransitive(ascending, x, ys[0], ys[k]);
          }
        }
        ConsSorted(x, ys, ascending);
      } else {
        BeforeTotal(ascending, x, ys[0]);
        var tail := ys[1..];
        InsertSorted(x, tail, ascending);
        var t := Insert(x, tail, ascending);
        forall k | 0 <= k < |t| ensures Before(ascending, ys[0], t[k]) {
          assert t[k] in multiset(tail) + multiset{x};
          if t[k] != x {
            assert t[k] in tail;
          }
        }
        ConsSorted(ys[0], t, ascending);
      }
    }
  }

  /** Inserting adds exactly the one line. */
  lemma {:induction false} InsertPermutes(x: string, ys: seq<string>, ascending: bool)
    ensures multiset(Insert(x, ys, ascending)) == multiset(ys) + multiset{x}
    decreases |ys|
  {
    if ys != [] && !Before(ascending, x, ys[0]) {
      InsertPermutes(x, ys[1..], ascending);
      assert ys == [ys[0]] + ys[1..];
    }
  }

  /** A sorted sequence stays sorted behind an element that comes before all of it. */
  lemma ConsSorted(y: string, t: seq<string>, ascending: bool)
    requires Sorted(t, ascending)
    requires forall k :: 0 <= k < |t| ==> Before(ascending, y, t[k])
    ensures Sorted([y] + t, ascending)
  {
    var r := [y] + t;
    forall i, j | 0 <= i < j < |r| ensures Before(ascending, r[i], r[j]) {
      assert r[j] == t[j - 1];
      if i > 0 {
        assert r[i] == t[i - 1];
      }
    }
  }

  /** The reference: each line inserted in turn into the sorted rest. */
  function Sort(xs: seq<string>, ascending: bool): seq<string>
    decreases |xs|
  {
    if xs == [] then [] else Insert(xs[0], Sort(xs[1..], ascending), ascending)
  }

  /** The reference ordering is sorted and a permutation of its input. */
  lemma {:induction false} SortSpec(xs: seq<string>, ascending: bool)
    ensures Sorted(Sort(xs, ascending), ascending)
    ensures multiset(Sort(xs, ascending)) == multiset(xs)
    decreases |xs|
  {
    if xs != [] {
      var rest := Sort(xs[1..], ascending);
      SortSpec(xs[1..], ascending);
      InsertSorted(xs[0], rest, ascending);
      calc {
        multiset(Sort(xs, ascending));
        multiset(Insert(xs[0], rest, ascending));
        multiset(rest) + multiset{xs[0]};
        multiset(xs[1..]) + multiset{xs[0]};
        { assert xs == [xs[0]] + xs[1..]; }
        multiset(xs);
      }
    }
  }

  /**
   * Lines that compare equal are equal strings, so there is one sorted arrangement of a
   * list: whichever algorithm sorts, stable or not, the result is the reference's.
   */
  lemma {:induction false} SortedUnique(xs: seq<string>, ys: seq<string>, ascending: bool)
    requires Sorted(xs, ascending) && Sorted(ys, ascending) && multiset(xs) == multiset(ys)
    ensures xs == ys
    decreases |xs|
  {
    if xs == [] {
      assert |multiset(ys)| == 0;
    } else {
      assert ys != [] by {
        assert xs[0] in multiset(ys);
      }
      SortedHeadIsLeast(xs, ys, ascending);
      SortedHeadIsLeast(ys, xs, ascending);
      BeforeAntisymmetric(ascending, xs[0], ys[0]);
      assert multiset(xs[1..]) == multiset(xs) - multiset{xs[0]} by {
        assert xs == [xs[0]] + xs[1..];
      }
      assert multiset(ys[1..]) == multiset(ys) - multiset{ys[0]} by {
        assert ys == [ys[0]] + ys[1..];
      }
      SortedTail(xs, ascending);
      SortedTail(ys, ascending);
      SortedUnique(xs[1..], ys[1..], ascending);
    }
  }

  /** The first element of a sorted list comes before every element of any permutation of it. */
  lemma SortedHeadIsLeast(xs: seq<string>, ys: seq<string>, ascending: bool)
    requires Sorted(ys, ascending) && multiset(xs) == multiset(ys) && xs != [] && ys != []
    ensures Before(ascending, ys[0], xs[0])
  {
    assert xs[0] in multiset(ys);
    var i :| 0 <= i < |ys| && ys[i] == xs[0];
    if i == 0 {
      BeforeReflexive(ascending, xs[0]);
    }
  }

  lemma SortedTail(xs: seq<string>, ascending: bool)
    requires Sorted(xs, ascending) && xs != []
    ensures Sorted(xs[1..], ascending)
  {
    forall i, j | 0 <= i < j < |xs| - 1 ensures Before(ascending, xs[1..][i], xs[1..][j]) {
      assert xs[1..][i] == xs[i + 1] && xs[1..][j] == xs[j + 1];
    }
  }

  /** Collections.sort on the array behind Arrays.asList, as an insertion sort in place. */
  method SortInPlace(a: array<string>, ascending: bool)
    modifies a
    ensures Sorted(a[..], ascending)
    ensures multiset(a[..]) == multiset(old(a[..]))
  {
    var i := 0;
    while i < a.Length
      invariant 0 <= i <= a.Length
      invariant Sorted(a[..i], ascending)
      invariant multiset(a[..]) == multiset(old(a[..]))
    {
      InsertAt(a, i, ascending);
      i := i + 1;
    }
  }

  /** Moves a[i] down into the sorted prefix a[..i]. */
  method InsertAt(a: array<string>, i: nat, ascending: bool)
    requires i < a.Length && Sorted(a[..i], ascending)
    modifies a
    ensures Sorted(a[..i + 1], ascending)
    ensures multiset(a[..]) == multiset(old(a[..]))
  {
    var j := i;
    SortedPrefixExcept(a[..], i, ascending);
    while j > 0 && !Before(ascending, a[j - 1], a[j])
      invariant 0 <= j <= i
      invariant SortedExcept(a[..], i, j, ascending)
      invariant multiset(a[..]) == multiset(old(a[..]))
    {
      SwapDown(a[..], i, j, ascending);
      a[j - 1], a[j] := a[j], a[j - 1];
      j := j - 1;
    }
    SortedExceptDone(a[..], i, j, ascending);
  }

  /** a[..i + 1] is in order except at the hole j, the place of the key being moved down. */
  ghost predicate SortedExcept(s: seq<string>, i: nat, j: nat, ascending: bool)
    requires i < |s|
  {
    forall k, l :: 0 <= k < l <= i && l != j ==> Before(ascending, s[k], s[l])
  }

  lemma SortedPrefixExcept(s: seq<string>, i: nat, ascending: bool)
    requires i < |s| && Sorted(s[..i], ascending)
    ensures SortedExcept(s, i, i, ascending)
  {
    forall k, l | 0 <= k < l <= i && l != i ensures Before(ascending, s[k], s[l]) {
      assert s[k] == s[..i][k] && s[l] == s[..i][l];
    }
  }

  /** Swapping the key with a larger neighbour moves the hole one place down. */
  lemma SwapDown(s: seq<string>, i: nat, j: nat, ascending: bool)
    requires 0 < j <= i < |s| && SortedExcept(s, i, j, ascending)
    requires !Before(ascending, s[j - 1], s[j])
    ensures SortedExcept(s[j - 1 := s[j]][j := s[j - 1]], i, j - 1, ascending)
  {
    var t := s[j - 1 := s[j]][j := s[j - 1]];
    BeforeTotal(ascending, s[j - 1], s[j]);
    forall k, l | 0 <= k < l <= i && l != j - 1 ensures Before(ascending, t[k], t[l]) {
      if l == j {
        if k < j - 1 {
          assert t[k] == s[k] && t[l] == s[j - 1];
        }
      } else if k == j - 1 {
        BeforeTransitive(ascending, s[j], s[j - 1], s[l]);
      } else if k == j {
        assert t[k] == s[j - 1] && t[l] == s[l];
      } else {
        assert t[k] == s[k] && t[l] == s[l];
      }
    }
  }

  /** With the hole at the front, or the key in order with its left neighbour, no hole is left. */
  lemma SortedExceptDone(s: seq<string>, i: nat, j: nat, ascending: bool)
    requires j <= i < |s| && SortedExcept(s, i, j, ascending)
    requires j == 0 || Before(ascending, s[j - 1], s[j])
    ensures Sorted(s[..i + 1], ascending)
  {
    var p := s[..i + 1];
    forall k, l | 0 <= k < l < |p| ensures Before(ascending, p[k], p[l]) {
      assert p[k] == s[k] && p[l] == s[l];
      if l == j && k < j - 1 {
        BeforeTransitive(ascending, s[k], s[j - 1], s[j]);
      }
    }
  }

  /** The list read back to front. */
  function Reversed(xs: seq<string>): (r: seq<string>)
    ensures |r| == |xs| && forall i :: 0 <= i < |xs| ==> r[i] == xs[|xs| - 1 - i]
  {
    seq(|xs|, i requires 0 <= i < |xs| => xs[|xs| - 1 - i])
  }

  lemma {:induction false} ReversedPermutes(xs: seq<string>)
    ensures multiset(Reversed(xs)) == multiset(xs)
    decreases |xs|
  {
    if xs != [] {
      ReversedPermutes(xs[1..]);
      assert Reversed(xs) == Reversed(xs[1..]) + [xs[0]];
      assert xs == [xs[0]] + xs[1..];
    }
  }

  /** Read back to front, an ascending list is a descending one. */
  lemma ReversedSorted(xs: seq<string>)
    requires Sorted(xs, true)
    ensures Sorted(Reversed(xs), false)
  {
    var r := Reversed(xs);
    forall i, j | 0 <= i < j < |r| ensures Before(false, r[i], r[j]) {
      assert Before(true, xs[|xs| - 1 - j], xs[|xs| - 1 - i]);
    }
  }

  /**
   * Sorting descending gives the ascending order reversed, ties or not: lines that compare
   * equal are equal strings.
   */
  lemma SortDescendingIsReversed(xs: seq<string>)
    ensures Sort(xs, false) == Reversed(Sort(xs, true))
  {
    var up := Sort(xs, true);
    SortSpec(xs, true);
    SortSpec(xs, false);
    ReversedSorted(up);
    ReversedPermutes(up);
    SortedUnique(Reversed(up), Sort(xs, false), false);
  }

  /** The content of the sorted document. */
  function SortedContent(content: string, ascending: bool): string
  {
    Join(Sort(SplitLines(content), ascending), "\n")
  }

  /**
   * sortLines: the split lines copied into an array, sorted there by the comparator, and
   * joined into a new document named with the suffix " (sorted)".
   */
  method SortLines(document: TextDocument, ascending: bool, origin: Creation) returns (newDoc: TextDocument)
    ensures fresh(newDoc)
    ensures newDoc.CreatedBy(origin) && newDoc.name == document.name + " (sorted)"
    ensures newDoc.content == SortedContent(document.content, ascending)
  {
    var lines := SplitLines(document.content);
    var a := new string[|lines|](k requires 0 <= k < |lines| => lines[k]);
    assert a[..] == lines;
    SortInPlace(a, ascending);
    SortSpec(lines, ascending);
    SortedUnique(a[..], Sort(lines, ascending), ascending);
    newDoc := new TextDocument(document.name + " (sorted)", Join(a[..], "\n"), origin);
  }

  /** Sorted ascending, split lines end with a non-empty line when there are two or more. */
  lemma AscendingLastNotEmpty(ls: seq<string>, s: seq<string>)
    requires ls == [] || ls[|ls| - 1] != "" || ls == [""]
    requires Sorted(s, true) && multiset(s) == multiset(ls) && |s| >= 2
    ensures s[|s| - 1] != ""
  {
    assert |ls| == |s| by {
      assert |multiset(ls)| == |multiset(s)|;
    }
    var x := ls[|ls| - 1];
    assert x in multiset(s);
    var j :| 0 <= j < |s| && s[j] == x;
    if j < |s| - 1 {
      assert Before(true, s[j], s[|s| - 1]);
    }
    EmptyIsLeast(x);
  }

  /** Sorting ascending twice is sorting once: the empty line sorts first, never at the end. */
  lemma SortedAscendingIdempotent(content: string)
    ensures SortedContent(SortedContent(content, true), true) == SortedContent(content, true)
  {
    var ls := SplitLines(content);
    var s := Sort(ls, true);
    SortSpec(ls, true);
    SplitLinesShape(content);
    if s == [] {
      assert SortedContent(content, true) == "";
      SplitOfJoin([""]);
    } else {
      forall i | 0 <= i < |s| ensures '\n' !in s[i] && s[i] in ls {
        assert s[i] in multiset(ls);
      }
      if |s| >= 2 {
        AscendingLastNotEmpty(ls, s);
      }
      SplitOfJoin(s);
      SortSpec(s, true);
      SortedUnique(Sort(s, true), s, true);
    }
  }

  lemma DescendingSortExample()
    ensures Sort(["a", "", "b"], false) == ["b", "a", ""]
    ensures Sort(["b", "a"], false) == ["b", "a"]
  {
    EmptyIsLeast("a");
    EmptyIsLeast("b");
    assert CompareTo("b", "a") > 0;
    assert Sort(["b"], false) == ["b"];
    assert Sort(["", "b"], false) == ["b", ""] by {
      assert ["", "b"][1..] == ["b"];
    }
    assert ["a", "", "b"][1..] == ["", "b"];
    assert Insert("a", ["b", ""], false) == ["b"] + Insert("a", [""], false);
    assert ["b", ""][1..] == [""];
    assert Sort(["a"], false) == ["a"];
    assert ["b", "a"][1..] == ["a"];
  }

  /**
   * Sorting descending moves an empty line to the end, where the next split drops it:
   * "a\n\nb" gives "b\na\n", which gives "b\na".
   */
  lemma SortedDescendingNotIdempotent()
    ensures SortedContent("a\n\nb", false) == "b\na\n"
    ensures SortedContent("b\na\n", false) == "b\na"
  {
    DescendingFirstPass();
    DescendingSecondPass();
  }

  lemma DescendingFirstPass()
    ensures SortedContent("a\n\nb", false) == "b\na\n"
  {
    assert Join(["a", "", "b"], "\n") == "a\n\nb";
    SplitOfJoin(["a", "", "b"]);
    DescendingSortExample();
    assert Join(["b", "a", ""], "\n") == "b\na\n";
  }

  lemma DescendingSecondPass()
    ensures SortedContent("b\na\n", false) == "b\na"
  {
    var ls := ["b", "a"];
    assert Join(ls + [""], "\n") == "b\na\n" by {
      assert ls + [""] == ["b", "a", ""];
      assert ["b", "a", ""][1..] == ["a", ""];
      assert ["a", ""][1..] == [""];
    }
    SplitOfJoinTrailing(ls);
    assert Sort(ls, false) == ls by {
      DescendingSortExample();
    }
    assert Join(ls, "\n") == "b\na" by {
      assert ls[1..] == ["a"];
    }
  }
}
