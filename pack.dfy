/** The statement packer of internal/core/pack.go: the caller's statements
    are sorted in place, largest first, then placed First-Fit into at most
    MaxFiles groups with running size counters. */
module Pack {
  import opened Types
  import opened Config
  import opened PackSpec

  /** Exchanges two adjacent items. */
  method SwapAdjacent<P>(a: array<Entry<P>>, j: nat)
    requires 0 < j < a.Length
    modifies a
    ensures a[..] == old(a[..])[j - 1 := old(a[j])][j := old(a[j - 1])]
    ensures multiset(a[..]) == old(multiset(a[..]))
  {
    a[j - 1], a[j] := a[j], a[j - 1];
  }

  /** The first n items are in non-increasing size order. */
  ghost predicate SortedPrefix<P>(a: array<Entry<P>>, n: nat)
    reads a
  {
    forall k, l :: 0 <= k < l < n && l < a.Length ==> a[k].size >= a[l].size
  }

  /** Moves a[i] down into the sorted prefix a[..i]. */
  method SinkItem<P>(a: array<Entry<P>>, i: nat)
    requires i < a.Length && SortedPrefix(a, i)
    modifies a
    ensures SortedPrefix(a, i + 1)
    ensures multiset(a[..]) == old(multiset(a[..]))
  {
    var j := i;
    while j > 0 && a[j - 1].size < a[j].size
      invariant 0 <= j <= i
      invariant forall k, l :: 0 <= k < l <= i && k != j && l != j ==> a[k].size >= a[l].size
      invariant forall l :: j < l <= i ==> a[j].size >= a[l].size
      invariant multiset(a[..]) == old(multiset(a[..]))
    {
      SwapAdjacent(a, j);
      j := j - 1;
    }
  }

  /** sort.Slice(statements, size descending): the array ends up in
      non-increasing size order and holds the same items. Only this is
      promised; the order of equal sizes is left open, as sort.Slice is not
      stable. */
  method SortBySizeDesc<P>(a: array<Entry<P>>)
    modifies a
    ensures NonIncreasing(a[..])
    ensures multiset(a[..]) == old(multiset(a[..]))
  {
    for i := 0 to a.Length
      invariant SortedPrefix(a, i)
      invariant multiset(a[..]) == old(multiset(a[..]))
    {
      SinkItem(a, i);
    }
  }

  /** The running counters match the groups: fileSizes[j] is the Load of
      group j. */
  ghost predicate CountersMatch<P>(files: array<seq<Entry<P>>>, fileSizes: array<int>, baseSize: int)
    reads files, fileSizes
  {
    files.Length == fileSizes.Length &&
    forall j :: 0 <= j < files.Length ==> fileSizes[j] == Load(baseSize, files[j])
  }

  /** The body of the outer loop (pack.go:35-55, policies.go:120-140): scan
      the groups in index order and append `stmt` to the first whose counter
      leaves room for it and its separator. Reports whether it was placed. */
  method PlaceStatement<P>(files: array<seq<Entry<P>>>, fileSizes: array<int>, baseSize: int, stmt: Entry<P>)
    returns (placed: bool)
    requires files != fileSizes as object
    requires CountersMatch(files, fileSizes, baseSize)
    modifies files, fileSizes
    ensures CountersMatch(files, fileSizes, baseSize)
    ensures Place(baseSize, old(files[..]), stmt) == if placed then Some(files[..]) else None
    ensures !placed ==> files[..] == old(files[..]) && fileSizes[..] == old(fileSizes[..])
  {
    ghost var before := files[..];
    placed := false;
    var i := 0;
    while i < files.Length
      invariant 0 <= i <= files.Length
      invariant files[..] == before
      invariant fileSizes[..] == old(fileSizes[..])
      invariant CountersMatch(files, fileSizes, baseSize)
      invariant FirstFit(baseSize, before, stmt, 0) == FirstFit(baseSize, before, stmt, i)
    {
      // the comma that joins the statement to a non-empty group
      var separator := 0;
      if |files[i]| > 0 {
        separator := 1;
      }
      if fileSizes[i] + stmt.size + separator <= MaxPolicySize {
        LoadAppend(baseSize, files[i], stmt);
        files[i] := files[i] + [stmt];
        fileSizes[i] := fileSizes[i] + stmt.size + separator;
        placed := true;
        return;
      }
      i := i + 1;
    }
  }

  /** The final loop (pack.go:58-64, policies.go:143-149): the non-empty
      groups, in index order. */
  method NonEmptyFiles<P>(files: array<seq<Entry<P>>>) returns (groups: seq<seq<Entry<P>>>)
    ensures groups == DropEmpty(files[..])
  {
    groups := [];
    for i := 0 to files.Length
      invariant groups == DropEmpty(files[..i])
    {
      assert files[..i + 1][..i] == files[..i];
      if |files[i]| > 0 {
        groups := groups + [files[i]];
      }
    }
    assert files[..files.Length] == files[..];
  }

  /** The maxFiles empty groups and their counters seeded with the
      overhead (pack.go:25-31, policies.go:110-116). */
  method NewFiles<P>(n: nat, baseSize: int) returns (files: array<seq<Entry<P>>>, fileSizes: array<int>)
    ensures fresh(files) && fresh(fileSizes)
    ensures files[..] == Initial(n)
    ensures CountersMatch(files, fileSizes, baseSize)
  {
    files := new seq<Entry<P>>[n](_ => []);
    fileSizes := new int[n];
    for i := 0 to n
      modifies fileSizes
      invariant forall j :: 0 <= j < i ==> fileSizes[j] == baseSize
    {
      fileSizes[i] := baseSize;
    }
    assert files[..] == Initial(n);
  }

  /** packPolicies (pack.go:19-72). Sorts `statements` in place, then
      returns the First-Fit-Decreasing packing of the sorted order: None
      (Go's nil) when some statement fits in none of the MaxFiles groups,
      otherwise the non-empty groups in index order (an empty, non-nil
      slice for empty input). MaxFiles must not be negative: make() panics
      on a negative length. */
  method PackPolicies(userInput: UserInput, statements: array<Statement>, baseSize: int)
    returns (result: Option<seq<seq<Statement>>>)
    requires userInput.maxFiles >= 0
    modifies statements
    ensures NonIncreasing(statements[..])
    ensures multiset(statements[..]) == old(multiset(statements[..]))
    ensures result == FirstFitDecreasing(statements[..], userInput.maxFiles, baseSize)
  {
    SortBySizeDesc(statements);
    ghost var sorted := statements[..];
    var n := userInput.maxFiles;
    var files, fileSizes := NewFiles<Content>(n, baseSize);

    var k := 0;
    while k < statements.Length
      invariant 0 <= k <= statements.Length
      invariant statements[..] == sorted
      invariant CountersMatch(files, fileSizes, baseSize)
      invariant PlaceAll(baseSize, Initial(n), sorted) == PlaceAll(baseSize, files[..], sorted[k..])
    {
      assert sorted[k..][0] == statements[k] && sorted[k..][1..] == sorted[k + 1..];
      var placed := PlaceStatement(files, fileSizes, baseSize, statements[k]);
      if !placed {
        return None;
      }
      k := k + 1;
    }
    assert sorted[k..] == [];

    var groups := NonEmptyFiles(files);
    result := Some(groups);
  }

  /** packAllStatements (pack.go:10-16): the overhead is the empty document
      without its "[]", indented when Whitespace is set. */
  method PackAllStatements(userInput: UserInput, statements: array<Statement>)
    returns (result: Option<seq<seq<Statement>>>)
    requires userInput.maxFiles >= 0
    modifies statements
    ensures NonIncreasing(statements[..])
    ensures multiset(statements[..]) == old(multiset(statements[..]))
    ensures result == FirstFitDecreasing(statements[..], userInput.maxFiles, Overhead(userInput.whitespace))
  {
    var baseSize := SCPBaseSizeMinified;
    if userInput.whitespace {
      baseSize := SCPBaseSizeWithWS;
    }
    result := PackPolicies(userInput, statements, baseSize);
  }

  /** packAllStatements with the whole empty document, brackets included,
      as the overhead: json.Marshal writes the "[" and "]" around the
      statements, so the counter then equals the length of a minified
      output document. */
  method PackAllStatementsWithinLimit(userInput: UserInput, statements: array<Statement>)
    returns (result: Option<seq<seq<Statement>>>)
    requires userInput.maxFiles >= 0
    modifies statements
    ensures NonIncreasing(statements[..])
    ensures multiset(statements[..]) == old(multiset(statements[..]))
    ensures result == FirstFitDecreasing(statements[..], userInput.maxFiles, Overhead(userInput.whitespace) + 2)
  {
    var baseSize := |SCPBaseStructure|;
    if userInput.whitespace {
      baseSize := |SCPBaseWithWS|;
    }
    result := PackPolicies(userInput, statements, baseSize);
  }
}
