/** The packing outcomes that internal/core/pack_test.go checks, derived
    from the First-Fit-Decreasing specification. The inputs are given in the
    order the sort leaves them in. */
module PackScenarios {
  import opened Types
  import opened PackSpec

  /** Non-empty groups followed by empty ones filter down to the non-empty
      groups. */
  lemma DropTrailingEmpty<P>(full: Groups<P>, empty: nat)
    requires forall i :: 0 <= i < |full| ==> full[i] != []
    ensures DropEmpty(full + Initial(empty)) == full
  {
    DropEmptyConcat(full, Initial(empty));
    DropEmptyKeepsAll(full);
    DropEmptyInitial<P>(empty);
  }

  /** Sizes 3000, 3000, 2000 with the minified overhead 37: the 2000 joins
      the first 3000 (37 + 3000 + 1 + 2000 = 5038), the second 3000 opens a
      second group. */
  lemma ThreeStatementsTwoGroups<P>(a: P, b: P, c: P)
    ensures FirstFitDecreasing([Entry(a, 3000), Entry(b, 3000), Entry(c, 2000)], 5, 37)
         == Some([[Entry(a, 3000), Entry(c, 2000)], [Entry(b, 3000)]])
  {
    var x, y, z := Entry(a, 3000), Entry(b, 3000), Entry(c, 2000);
    LoadAppend(37, [], x);
    assert [] + [x] == [x];
    var g0 := Initial<P>(5);
    PlaceIsFirstFit(37, g0, x, 0);
    var g1 := g0[0 := [x]];
    assert g0[0] + [x] == [x];
    PlaceIsFirstFit(37, g1, y, 1);
    var g2 := g1[1 := [y]];
    assert g1[1] + [y] == [y];
    PlaceIsFirstFit(37, g2, z, 0);
    var g3 := g2[0 := [x, z]];
    assert g2[0] + [z] == [x, z];
    assert [x, y, z][0] == x && [x, y, z][1..] == [y, z];
    assert [y, z][0] == y && [y, z][1..] == [z];
    assert [z][0] == z && [z][1..] == [];
    assert PlaceAll(37, g0, [x, y, z]) == PlaceAll(37, g1, [y, z]) == PlaceAll(37, g2, [z]) == Some(g3);
    assert g3 == [[x, z], [y]] + Initial(3);
    DropTrailingEmpty([[x, z], [y]], 3);
  }

  /** Sizes 5000, 5000, 100 with overhead 50 and three files: every
      statement needs its own group (5050 + 1 + 100 > 5120). */
  lemma NearLimitThreeGroups<P>(a: P, b: P, c: P)
    ensures FirstFitDecreasing([Entry(a, 5000), Entry(b, 5000), Entry(c, 100)], 3, 50)
         == Some([[Entry(a, 5000)], [Entry(b, 5000)], [Entry(c, 100)]])
  {
    var x, y, z := Entry(a, 5000), Entry(b, 5000), Entry(c, 100);
    LoadAppend(50, [], x);
    LoadAppend(50, [], y);
    assert [] + [x] == [x] && [] + [y] == [y];
    var g0 := Initial<P>(3);
    PlaceIsFirstFit(50, g0, x, 0);
    var g1 := g0[0 := [x]];
    assert g0[0] + [x] == [x];
    PlaceIsFirstFit(50, g1, y, 1);
    var g2 := g1[1 := [y]];
    assert g1[1] + [y] == [y];
    PlaceIsFirstFit(50, g2, z, 2);
    var g3 := g2[2 := [z]];
    assert g2[2] + [z] == [z];
    assert [x, y, z][0] == x && [x, y, z][1..] == [y, z];
    assert [y, z][0] == y && [y, z][1..] == [z];
    assert [z][0] == z && [z][1..] == [];
    assert PlaceAll(50, g0, [x, y, z]) == PlaceAll(50, g1, [y, z]) == PlaceAll(50, g2, [z]) == Some(g3);
    assert g3 == [[x], [y], [z]] + Initial(0);
    DropTrailingEmpty([[x], [y], [z]], 0);
  }

  /** Sizes 2000, 2000, 1000 with overhead 100 all go to the first group
      (100 + 2000 + 1 + 2000 + 1 + 1000 = 5102). */
  lemma ThreeShareFirstGroup<P>(w: Entry<P>, x: Entry<P>, y: Entry<P>, rest: seq<Entry<P>>)
    requires w.size == 2000 && x.size == 2000 && y.size == 1000
    ensures PlaceAll(100, Initial(5), [w, x, y] + rest) == PlaceAll(100, Initial<P>(5)[0 := [w, x, y]], rest)
  {
    LoadAppend(100, [], w);
    LoadAppend(100, [w], x);
    LoadAppend(100, [w, x], y);
    assert [] + [w] == [w] && [w] + [x] == [w, x] && [w, x] + [y] == [w, x, y];
    var g0 := Initial<P>(5);
    PlaceIsFirstFit(100, g0, w, 0);
    var g1 := g0[0 := [w]];
    assert g0[0] + [w] == [w];
    PlaceIsFirstFit(100, g1, x, 0);
    var g2 := g1[0 := [w, x]];
    PlaceIsFirstFit(100, g2, y, 0);
    var g3 := g2[0 := [w, x, y]];
    var items := [w, x, y] + rest;
    PlaceAllStep(100, g0, items, g1);
    assert items[1..] == [x, y] + rest;
    PlaceAllStep(100, g1, items[1..], g2);
    assert items[1..][1..] == [y] + rest;
    PlaceAllStep(100, g2, items[1..][1..], g3);
    assert items[1..][1..][1..] == rest;
    assert g3 == Initial<P>(5)[0 := [w, x, y]];
  }

  /** Sizes 2000, 2000, 1000, 1000 with overhead 100: three statements share
      the first group, the last opens a second one. */
  lemma FourStatementsTwoGroups<P>(a: P, b: P, c: P, d: P)
    ensures FirstFitDecreasing([Entry(a, 2000), Entry(b, 2000), Entry(c, 1000), Entry(d, 1000)], 5, 100)
         == Some([[Entry(a, 2000), Entry(b, 2000), Entry(c, 1000)], [Entry(d, 1000)]])
  {
    var w, x, y, z := Entry(a, 2000), Entry(b, 2000), Entry(c, 1000), Entry(d, 1000);
    ThreeShareFirstGroup(w, x, y, [z]);
    assert [w, x, y] + [z] == [w, x, y, z];
    var g3 := Initial<P>(5)[0 := [w, x, y]];
    LoadAppend(100, [w, x], y);
    LoadAppend(100, [w], x);
    LoadAppend(100, [], w);
    assert [] + [w] == [w] && [w] + [x] == [w, x] && [w, x] + [y] == [w, x, y];
    LoadAppend(100, [], z);
    assert [] + [z] == [z];
    PlaceIsFirstFit(100, g3, z, 1);
    var g4 := g3[1 := [z]];
    assert g3[1] + [z] == [z];
    PlaceAllStep(100, g3, [z], g4);
    assert [z][1..] == [];
    assert g4 == [[w, x, y], [z]] + Initial(3);
    DropTrailingEmpty([[w, x, y], [z]], 3);
  }

  /** A single 6000-character statement never fits with overhead 50,
      whatever the number of files. */
  lemma TooLargeStatement<P>(a: P, maxFiles: nat)
    ensures FirstFitDecreasing([Entry(a, 6000)], maxFiles, 50) == None
  {
    Oversized([Entry(a, 6000)], maxFiles, 50, 0);
  }
}
