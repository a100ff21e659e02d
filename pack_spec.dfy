/** The First-Fit-Decreasing placement that both copies of the packer
    (internal/core/pack.go and Processor.packPolicies in
    internal/core/policies.go) implement, stated as functions over values,
    with the properties the packer promises proved about them.

    The functions are generic in the payload P of a sized item, so that the
    same definition describes the packing of Statement values and of the
    legacy PolicyStatement values. */
module PackSpec {
  import opened Types
  import opened Config

  /** The groups under construction: one sequence of items per output file. */
  type Groups<P> = seq<seq<Entry<P>>>

  /** The order sort.Slice leaves the input in: largest size first. Ties
      are in no particular order (the sort is not stable). */
  predicate NonIncreasing<P(==)>(s: seq<Entry<P>>)
  {
    forall i, j :: 0 <= i < j < |s| ==> s[i].size >= s[j].size
  }

  /** The sum of the item sizes of one group. */
  function SizeSum<P(==)>(g: seq<Entry<P>>): nat
  {
    if g == [] then 0 else SizeSum(g[..|g| - 1]) + g[|g| - 1].size
  }

  /** The comma that joins the next statement to a non-empty group. */
  function Separator<P(==)>(g: seq<Entry<P>>): nat
  {
    if |g| > 0 then 1 else 0
  }

  /** What the running counter fileSizes[i] holds for group g: the
      overhead `base`, the statement sizes and one comma between each pair.
      It is the length of the group's document only when `base` counts the
      whole skeleton; the overhead the packer is given leaves out the "[]"
      (see Outputs.MinifiedDocumentLength). */
  function Load<P(==)>(base: int, g: seq<Entry<P>>): int
  {
    base + SizeSum(g) + (if g == [] then 0 else |g| - 1)
  }

  /** The placement test of pack.go:45 and policies.go:130. */
  predicate Fits<P(==)>(base: int, g: seq<Entry<P>>, s: Entry<P>)
  {
    Load(base, g) + s.size + Separator(g) <= MaxPolicySize
  }

  /** The counter update of pack.go:47 keeps the counter equal to Load. */
  lemma LoadAppend<P>(base: int, g: seq<Entry<P>>, s: Entry<P>)
    ensures Load(base, g + [s]) == Load(base, g) + s.size + Separator(g)
  {
    assert (g + [s])[..|g|] == g;
  }

  /** The first group, at index `from` or later, that `s` fits in. */
  function FirstFit<P(==)>(base: int, groups: Groups<P>, s: Entry<P>, from: nat): (r: Option<nat>)
    requires from <= |groups|
    decreases |groups| - from
    ensures r.Some? ==> from <= r.value < |groups| && Fits(base, groups[r.value], s)
    ensures forall j :: from <= j < |groups| && (r.None? || j < r.value) ==> !Fits(base, groups[j], s)
  {
    if from == |groups| then None
    else if Fits(base, groups[from], s) then Some(from)
    else FirstFit(base, groups, s, from + 1)
  }

  /** One step of the outer loop: append `s` to the first group it fits in,
      or fail. */
  function Place<P(==)>(base: int, groups: Groups<P>, s: Entry<P>): (r: Option<Groups<P>>)
    ensures r.None? <==> forall j :: 0 <= j < |groups| ==> !Fits(base, groups[j], s)
  {
    match FirstFit(base, groups, s, 0)
    case None => None
    case Some(i) => Some(groups[i := groups[i] + [s]])
  }

  /** The outer loop: place the items one after the other; the first item
      that fits nowhere makes the whole placement fail. */
  function PlaceAll<P(==)>(base: int, groups: Groups<P>, items: seq<Entry<P>>): Option<Groups<P>>
    decreases |items|
  {
    if items == [] then Some(groups)
    else
      match Place(base, groups, items[0])
      case None => None
      case Some(next) => PlaceAll(base, next, items[1..])
  }

  /** One step of the outer loop. */
  lemma PlaceAllStep<P>(base: int, gs: Groups<P>, items: seq<Entry<P>>, next: Groups<P>)
    requires items != [] && Place(base, gs, items[0]) == Some(next)
    ensures PlaceAll(base, gs, items) == PlaceAll(base, next, items[1..])
  {
  }

  /** The `maxFiles` empty groups the packer starts from. */
  function Initial<P>(n: nat): (gs: Groups<P>)
    ensures |gs| == n && forall i :: 0 <= i < n ==> gs[i] == []
  {
    seq(n, _ => [])
  }

  /** The final loop: keep the non-empty groups, in index order. */
  function DropEmpty<P(==)>(gs: Groups<P>): Groups<P>
  {
    if gs == [] then []
    else DropEmpty(gs[..|gs| - 1]) + (if gs[|gs| - 1] == [] then [] else [gs[|gs| - 1]])
  }

  /** The packing of an already sorted input into at most `maxFiles` groups;
      None is the infeasible signal. */
  function FirstFitDecreasing<P(==)>(sorted: seq<Entry<P>>, maxFiles: nat, base: int): Option<Groups<P>>
  {
    match PlaceAll(base, Initial(maxFiles), sorted)
    case None => None
    case Some(gs) => Some(DropEmpty(gs))
  }

  /** All items of all groups, group after group. */
  function Flatten<P(==)>(gs: Groups<P>): seq<Entry<P>>
  {
    if gs == [] then [] else Flatten(gs[..|gs| - 1]) + gs[|gs| - 1]
  }

  // ---------------------------------------------------------------------
  // First fit

  /** Place puts `s` into the lowest-index group it fits in at that moment,
      and into no other. */
  lemma {:induction false} PlaceIsFirstFit<P>(base: int, groups: Groups<P>, s: Entry<P>, i: nat)
    requires i < |groups| && Fits(base, groups[i], s)
    requires forall j :: 0 <= j < i ==> !Fits(base, groups[j], s)
    ensures Place(base, groups, s) == Some(groups[i := groups[i] + [s]])
  {
  }

  // ---------------------------------------------------------------------
  // Shape: the groups only grow, and there stay as many as there were.

  lemma {:induction false} PlaceAllGrows<P>(base: int, gs: Groups<P>, items: seq<Entry<P>>)
    requires PlaceAll(base, gs, items).Some?
    ensures |PlaceAll(base, gs, items).value| == |gs|
    ensures forall i :: 0 <= i < |gs| ==> gs[i] <= PlaceAll(base, gs, items).value[i]
    decreases |items|
  {
    if items != [] {
      var next := Place(base, gs, items[0]).value;
      PlaceAllGrows(base, next, items[1..]);
    }
  }

  // ---------------------------------------------------------------------
  // Completeness

  lemma {:induction false} FlattenAppend<P>(gs: Groups<P>, g: seq<Entry<P>>)
    ensures Flatten(gs + [g]) == Flatten(gs) + g
  {
    assert (gs + [g])[..|gs|] == gs;
  }

  /** An item of one of the groups is among the items of all groups. */
  lemma {:induction false} FlattenHas<P>(gs: Groups<P>, g: seq<Entry<P>>, s: Entry<P>)
    requires g in gs && s in g
    ensures s in Flatten(gs)
  {
    var front := gs[..|gs| - 1];
    if g == gs[|gs| - 1] {
      assert s in Flatten(front) + g;
    } else {
      assert g in front;
      FlattenHas(front, g, s);
      assert s in Flatten(front) + gs[|gs| - 1];
    }
  }

  /** Appending x to one group adds exactly x to the items of all groups. */
  lemma {:induction false} FlattenAddTo<P>(gs: Groups<P>, i: nat, x: Entry<P>)
    requires i < |gs|
    ensures multiset(Flatten(gs[i := gs[i] + [x]])) == multiset(Flatten(gs)) + multiset{x}
    decreases |gs|
  {
    var n := |gs|;
    var hs := gs[i := gs[i] + [x]];
    var front, hfront := gs[..n - 1], hs[..n - 1];
    assert gs == front + [gs[n - 1]] && hs == hfront + [hs[n - 1]];
    FlattenAppend(front, gs[n - 1]);
    FlattenAppend(hfront, hs[n - 1]);
    if i < n - 1 {
      assert hfront == front[i := front[i] + [x]] && hs[n - 1] == gs[n - 1];
      FlattenAddTo(front, i, x);
    } else {
      assert hfront == front;
      assert multiset(hs[n - 1]) == multiset(gs[n - 1]) + multiset{x};
    }
  }

  lemma {:induction false} FlattenInitial<P>(n: nat)
    ensures Flatten(Initial<P>(n)) == []
  {
    if n > 0 {
      assert Initial<P>(n)[..n - 1] == Initial<P>(n - 1);
      FlattenInitial<P>(n - 1);
    }
  }

  lemma {:induction false} FlattenDropEmpty<P>(gs: Groups<P>)
    ensures Flatten(DropEmpty(gs)) == Flatten(gs)
    decreases |gs|
  {
    if gs != [] {
      var n := |gs|;
      var front, last := gs[..n - 1], gs[n - 1];
      assert gs == front + [last];
      FlattenDropEmpty(front);
      FlattenAppend(front, last);
      if last != [] {
        FlattenAppend(DropEmpty(front), last);
      } else {
        assert DropEmpty(front) + [] == DropEmpty(front);
        assert Flatten(front) + last == Flatten(front);
      }
    }
  }

  lemma HeadTail<P>(items: seq<Entry<P>>)
    requires items != []
    ensures multiset(items) == multiset{items[0]} + multiset(items[1..])
  {
    assert items == [items[0]] + items[1..];
  }

  /** One placement adds exactly the placed item. */
  lemma PlaceKeepsItems<P>(base: int, gs: Groups<P>, s: Entry<P>)
    requires Place(base, gs, s).Some?
    ensures multiset(Flatten(Place(base, gs, s).value)) == multiset(Flatten(gs)) + multiset{s}
  {
    var i := FirstFit(base, gs, s, 0).value;
    FlattenAddTo(gs, i, s);
  }

  lemma {:induction false} PlaceAllKeepsItems<P>(base: int, gs: Groups<P>, items: seq<Entry<P>>)
    requires PlaceAll(base, gs, items).Some?
    ensures multiset(Flatten(PlaceAll(base, gs, items).value)) == multiset(Flatten(gs)) + multiset(items)
    decreases |items|
  {
    if items != [] {
      var x, rest := items[0], items[1..];
      var next := Place(base, gs, x).value;
      PlaceKeepsItems(base, gs, x);
      PlaceAllKeepsItems(base, next, rest);
      HeadTail(items);
      var a, b := multiset(Flatten(gs)), multiset(Flatten(next));
      var c := multiset(Flatten(PlaceAll(base, next, rest).value));
      assert b == a + multiset{x};
      assert c == b + multiset(rest);
      assert multiset(items) == multiset{x} + multiset(rest);
      assert c == a + (multiset{x} + multiset(rest));
    }
  }

  /** Completeness: on success every input item is in exactly one group,
      none lost and none duplicated. */
  lemma Completeness<P>(sorted: seq<Entry<P>>, maxFiles: nat, base: int)
    requires FirstFitDecreasing(sorted, maxFiles, base).Some?
    ensures multiset(Flatten(FirstFitDecreasing(sorted, maxFiles, base).value)) == multiset(sorted)
  {
    var gs := PlaceAll(base, Initial(maxFiles), sorted).value;
    PlaceAllKeepsItems(base, Initial(maxFiles), sorted);
    FlattenInitial<P>(maxFiles);
    FlattenDropEmpty(gs);
  }

  // ---------------------------------------------------------------------
  // Capacity

  /** Every non-empty group's counter stays within the character limit. */
  predicate WithinLimit<P(==)>(base: int, gs: Groups<P>)
  {
    forall i :: 0 <= i < |gs| && gs[i] != [] ==> Load(base, gs[i]) <= MaxPolicySize
  }

  lemma {:induction false} PlaceAllWithinLimit<P>(base: int, gs: Groups<P>, items: seq<Entry<P>>)
    requires WithinLimit(base, gs)
    requires PlaceAll(base, gs, items).Some?
    ensures WithinLimit(base, PlaceAll(base, gs, items).value)
    decreases |items|
  {
    if items != [] {
      var i := FirstFit(base, gs, items[0], 0).value;
      var next := gs[i := gs[i] + [items[0]]];
      LoadAppend(base, gs[i], items[0]);
      assert WithinLimit(base, next);
      PlaceAllWithinLimit(base, next, items[1..]);
    }
  }

  lemma {:induction false} DropEmptyKeeps<P>(gs: Groups<P>)
    ensures |DropEmpty(gs)| <= |gs|
    ensures forall k :: 0 <= k < |DropEmpty(gs)| ==> DropEmpty(gs)[k] != [] && DropEmpty(gs)[k] in gs
    decreases |gs|
  {
    if gs != [] {
      var n := |gs|;
      DropEmptyKeeps(gs[..n - 1]);
      assert forall g :: g in gs[..n - 1] ==> g in gs;
    }
  }

  /** Capacity: for every returned group, the overhead `base`, the sizes
      and the commas add up to at most MaxPolicySize. */
  lemma Capacity<P>(sorted: seq<Entry<P>>, maxFiles: nat, base: int)
    requires FirstFitDecreasing(sorted, maxFiles, base).Some?
    ensures forall g :: g in FirstFitDecreasing(sorted, maxFiles, base).value ==>
      base + SizeSum(g) + |g| - 1 <= MaxPolicySize
  {
    var gs := PlaceAll(base, Initial(maxFiles), sorted).value;
    PlaceAllWithinLimit(base, Initial(maxFiles), sorted);
    DropEmptyKeeps(gs);
  }

  /** Group bound: at most maxFiles groups come back, none of them empty. */
  lemma GroupBound<P>(sorted: seq<Entry<P>>, maxFiles: nat, base: int)
    requires FirstFitDecreasing(sorted, maxFiles, base).Some?
    ensures |FirstFitDecreasing(sorted, maxFiles, base).value| <= maxFiles
    ensures forall g :: g in FirstFitDecreasing(sorted, maxFiles, base).value ==> g != []
  {
    var gs := PlaceAll(base, Initial(maxFiles), sorted).value;
    PlaceAllGrows(base, Initial(maxFiles), sorted);
    DropEmptyKeeps(gs);
  }

  // ---------------------------------------------------------------------
  // Order of the groups

  lemma {:induction false} DropEmptyConcat<P>(a: Groups<P>, b: Groups<P>)
    ensures DropEmpty(a + b) == DropEmpty(a) + DropEmpty(b)
    decreases |b|
  {
    if b == [] {
      assert a + b == a;
    } else {
      var m := |b|;
      assert (a + b)[..|a + b| - 1] == a + b[..m - 1];
      DropEmptyConcat(a, b[..m - 1]);
    }
  }

  /** An in-order filter: when no group is empty, DropEmpty keeps them all. */
  lemma {:induction false} DropEmptyKeepsAll<P>(gs: Groups<P>)
    requires forall i :: 0 <= i < |gs| ==> gs[i] != []
    ensures DropEmpty(gs) == gs
    decreases |gs|
  {
    if gs != [] {
      var n := |gs|;
      DropEmptyKeepsAll(gs[..n - 1]);
      assert gs[..n - 1] + [gs[n - 1]] == gs;
    }
  }

  /** A non-empty first group stays first. */
  lemma DropEmptyKeepsFirst<P>(gs: Groups<P>)
    requires |gs| > 0 && gs[0] != []
    ensures |DropEmpty(gs)| > 0 && DropEmpty(gs)[0] == gs[0]
  {
    assert gs == [gs[0]] + gs[1..];
    DropEmptyConcat([gs[0]], gs[1..]);
    assert [gs[0]][..0] == [];
    assert DropEmpty([gs[0]]) == [gs[0]];
  }

  // ---------------------------------------------------------------------
  // Failure

  /** The result is the infeasible signal whenever the input contains an
      item larger than the limit minus the overhead, whatever maxFiles is and
      whatever other items it contains. */
  lemma {:induction false} OversizedFails<P>(base: int, gs: Groups<P>, items: seq<Entry<P>>, k: nat)
    requires k < |items| && items[k].size + base > MaxPolicySize
    ensures PlaceAll(base, gs, items).None?
    decreases |items|
  {
    forall j | 0 <= j < |gs| ensures !Fits(base, gs[j], items[k]) {
      assert Load(base, gs[j]) >= base;
    }
    if k > 0 {
      match Place(base, gs, items[0])
      case None =>
      case Some(next) => OversizedFails(base, next, items[1..], k - 1);
    }
  }

  lemma Oversized<P>(sorted: seq<Entry<P>>, maxFiles: nat, base: int, k: nat)
    requires k < |sorted| && sorted[k].size + base > MaxPolicySize
    ensures FirstFitDecreasing(sorted, maxFiles, base).None?
  {
    OversizedFails(base, Initial(maxFiles), sorted, k);
  }

  /** True when some item cannot fit even an empty group. */
  predicate HasOversized<P(==)>(items: seq<Entry<P>>, base: int)
  {
    exists s :: s in items && s.size + base > MaxPolicySize
  }

  /** An item too large for any group makes the packing fail, whatever
      order the sort leaves the items in. */
  lemma OversizedInAnyOrder<P>(items: seq<Entry<P>>, sorted: seq<Entry<P>>, maxFiles: nat, base: int)
    requires multiset(sorted) == multiset(items)
    requires HasOversized(items, base)
    ensures FirstFitDecreasing(sorted, maxFiles, base).None?
  {
    var s :| s in items && s.size + base > MaxPolicySize;
    assert s in multiset(sorted);
    var k :| 0 <= k < |sorted| && sorted[k] == s;
    Oversized(sorted, maxFiles, base, k);
  }

  lemma {:induction false} PlaceAllAppend<P>(base: int, gs: Groups<P>, a: seq<Entry<P>>, b: seq<Entry<P>>)
    ensures PlaceAll(base, gs, a + b) ==
      match PlaceAll(base, gs, a) case None => None case Some(mid) => PlaceAll(base, mid, b)
    decreases |a|
  {
    if a == [] {
      assert a + b == b;
    } else {
      assert (a + b)[0] == a[0] && (a + b)[1..] == a[1..] + b;
      match Place(base, gs, a[0])
      case None =>
      case Some(next) => PlaceAllAppend(base, next, a[1..], b);
    }
  }

  /** Item k of `items` is the first that fits in none of the groups built
      from the items before it. */
  predicate StuckAt<P(==)>(base: int, gs: Groups<P>, items: seq<Entry<P>>, k: nat)
    requires k < |items|
  {
    PlaceAll(base, gs, items[..k]).Some? &&
    Place(base, PlaceAll(base, gs, items[..k]).value, items[k]).None?
  }

  lemma {:induction false} FailsIffStuck<P>(base: int, gs: Groups<P>, items: seq<Entry<P>>)
    ensures PlaceAll(base, gs, items).None? <==> exists k :: 0 <= k < |items| && StuckAt(base, gs, items, k)
    decreases |items|
  {
    if items != [] {
      var n := |items|;
      var init := items[..n - 1];
      assert items == init + [items[n - 1]];
      PlaceAllAppend(base, gs, init, [items[n - 1]]);
      FailsIffStuck(base, gs, init);
      forall k | 0 <= k < n - 1 ensures StuckAt(base, gs, items, k) == StuckAt(base, gs, init, k) {
        assert items[..k] == init[..k];
      }
      assert items[..n - 1] == init;
      match PlaceAll(base, gs, init)
      case None =>
        var k :| 0 <= k < n - 1 && StuckAt(base, gs, init, k);
        assert StuckAt(base, gs, items, k);
      case Some(mid) =>
        assert [items[n - 1]][0] == items[n - 1] && [items[n - 1]][1..] == [];
        if Place(base, mid, items[n - 1]).None? {
          assert StuckAt(base, gs, items, n - 1);
        } else {
          assert PlaceAll(base, gs, items).Some?;
          forall k | 0 <= k < n ensures !StuckAt(base, gs, items, k) {
            if k < n - 1 {
              assert !StuckAt(base, gs, init, k);
            }
          }
        }
    }
  }

  /** The infeasible signal comes back exactly when, in sorted order, some
      statement fits in none of the maxFiles groups built so far. */
  lemma FailureIffNoFit<P>(sorted: seq<Entry<P>>, maxFiles: nat, base: int)
    ensures FirstFitDecreasing(sorted, maxFiles, base).None? <==>
      exists k :: 0 <= k < |sorted| && StuckAt(base, Initial(maxFiles), sorted, k)
  {
    FailsIffStuck(base, Initial(maxFiles), sorted);
  }

  /** Empty input gives zero groups, not the infeasible signal. */
  lemma {:induction false} DropEmptyInitial<P>(n: nat)
    ensures DropEmpty(Initial<P>(n)) == []
  {
    if n > 0 {
      assert Initial<P>(n)[..n - 1] == Initial<P>(n - 1);
      DropEmptyInitial<P>(n - 1);
    }
  }

  lemma EmptyInput<P>(maxFiles: nat, base: int)
    ensures FirstFitDecreasing<P>([], maxFiles, base) == Some([])
  {
    DropEmptyInitial<P>(maxFiles);
  }

  // ---------------------------------------------------------------------
  // Sorted input

  /** Every item of g is at least as large as every item of rest. */
  predicate Dominates<P(==)>(g: seq<Entry<P>>, rest: seq<Entry<P>>)
  {
    forall a, b :: 0 <= a < |g| && 0 <= b < |rest| ==> g[a].size >= rest[b].size
  }

  /** Every group is in non-increasing order and every placed item is at
      least as large as every item still to come. */
  predicate Above<P(==)>(gs: Groups<P>, rest: seq<Entry<P>>)
  {
    forall i :: 0 <= i < |gs| ==> NonIncreasing(gs[i]) && Dominates(gs[i], rest)
  }

  lemma AboveStep<P>(gs: Groups<P>, items: seq<Entry<P>>, i: nat)
    requires NonIncreasing(items) && Above(gs, items)
    requires items != [] && i < |gs|
    ensures Above(gs[i := gs[i] + [items[0]]], items[1..])
  {
    var g := gs[i] + [items[0]];
    var rest := items[1..];
    assert NonIncreasing(g) by {
      forall a, b | 0 <= a < b < |g| ensures g[a].size >= g[b].size {
        if b < |gs[i]| {
          assert g[a] == gs[i][a] && g[b] == gs[i][b];
        } else {
          assert g[a] == gs[i][a] && g[b] == items[0];
        }
      }
    }
    assert Dominates(g, rest) by {
      forall a, b | 0 <= a < |g| && 0 <= b < |rest| ensures g[a].size >= rest[b].size {
        assert rest[b] == items[b + 1];
        if a < |gs[i]| {
          assert g[a] == gs[i][a];
        }
      }
    }
    forall j | 0 <= j < |gs| && j != i ensures Dominates(gs[j], rest) {
      forall a, b | 0 <= a < |gs[j]| && 0 <= b < |rest| ensures gs[j][a].size >= rest[b].size {
        assert rest[b] == items[b + 1];
      }
    }
  }

  lemma {:induction false} PlaceAllKeepsOrder<P>(base: int, gs: Groups<P>, items: seq<Entry<P>>)
    requires NonIncreasing(items) && Above(gs, items)
    requires PlaceAll(base, gs, items).Some?
    ensures Above(PlaceAll(base, gs, items).value, [])
    decreases |items|
  {
    if items != [] {
      var i := FirstFit(base, gs, items[0], 0).value;
      var next := gs[i := gs[i] + [items[0]]];
      assert Place(base, gs, items[0]) == Some(next);
      AboveStep(gs, items, i);
      PlaceAllKeepsOrder(base, next, items[1..]);
    }
  }

  /** With a sorted input, each group is in non-increasing size order, and
      the first item of the first group is the first (a largest) input
      item. */
  lemma SortedGroups<P>(sorted: seq<Entry<P>>, maxFiles: nat, base: int)
    requires NonIncreasing(sorted)
    requires FirstFitDecreasing(sorted, maxFiles, base).Some?
    ensures forall g :: g in FirstFitDecreasing(sorted, maxFiles, base).value ==> NonIncreasing(g)
    ensures |sorted| > 0 ==>
      var r := FirstFitDecreasing(sorted, maxFiles, base).value;
      |r| > 0 && |r[0]| > 0 && r[0][0] == sorted[0] &&
      forall s :: s in sorted ==> r[0][0].size >= s.size
  {
    var init := Initial<P>(maxFiles);
    var gs := PlaceAll(base, init, sorted).value;
    PlaceAllKeepsOrder(base, init, sorted);
    DropEmptyKeeps(gs);
    if |sorted| > 0 {
      // all groups are empty, so the first statement goes to group 0
      assert Fits(base, init[0], sorted[0]) by {
        assert Place(base, init, sorted[0]).Some?;
      }
      PlaceIsFirstFit(base, init, sorted[0], 0);
      var next := init[0 := [sorted[0]]];
      assert init[0] + [sorted[0]] == [sorted[0]];
      assert PlaceAll(base, init, sorted) == PlaceAll(base, next, sorted[1..]);
      PlaceAllGrows(base, next, sorted[1..]);
      assert [sorted[0]] <= gs[0];
      DropEmptyKeepsFirst(gs);
      forall s | s in sorted ensures sorted[0].size >= s.size {
        var j :| 0 <= j < |sorted| && sorted[j] == s;
      }
    }
  }
}
