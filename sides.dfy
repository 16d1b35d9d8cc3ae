/** The side splitter (analyzer.js:74-109): find the bracket pair nearest the
    centre and cut the moji into outside, side, middle, side, outside. */
module Sides {

  import opened Wrappers
  import opened JsString
  import opened Tables

  /** `Math.ceil(n / 2)`. */
  function HalfLength(n: nat): (h: nat)
    ensures h + h == n || h + h == n + 1
  {
    (n + 1) / 2
  }

  /** `i` is the left side the source picks: a lefts glyph in the first half
      with no other lefts glyph between it and the end of that half. */
  ghost predicate NearestLeft(moji: string, lefts: string, i: int) {
    0 <= i < HalfLength(|moji|) && moji[i] in lefts &&
    forall j :: i < j < HalfLength(|moji|) ==> moji[j] !in lefts
  }

  /** `j` is the right side the source picks: a rights glyph in the last half
      with no other rights glyph between the start of that half and it. */
  ghost predicate NearestRight(moji: string, rights: string, j: int) {
    |moji| - HalfLength(|moji|) <= j < |moji| && moji[j] in rights &&
    forall k :: |moji| - HalfLength(|moji|) <= k < j ==> moji[k] !in rights
  }

  /** The reversed `findIndex` over `s[..hi]`: the highest index below `hi`
      holding a glyph of `table`. */
  function LastIn(s: string, hi: nat, table: string): (r: Option<nat>)
    requires hi <= |s|
    ensures r.Some? ==> r.value < hi && s[r.value] in table &&
                        forall j :: r.value < j < hi ==> s[j] !in table
    ensures r.None? ==> forall j :: 0 <= j < hi ==> s[j] !in table
    decreases hi
  {
    if hi == 0 then None
    else if s[hi - 1] in table then Some(hi - 1)
    else LastIn(s, hi - 1, table)
  }

  /** The `findIndex` over `s[lo..]`, as an index of `s`. */
  function FirstIn(s: string, lo: nat, table: string): (r: Option<nat>)
    requires lo <= |s|
    ensures r.Some? ==> lo <= r.value < |s| && s[r.value] in table &&
                        forall j :: lo <= j < r.value ==> s[j] !in table
    ensures r.None? ==> forall j :: lo <= j < |s| ==> s[j] !in table
    decreases |s| - lo
  {
    if lo == |s| then None
    else if s[lo] in table then Some(lo)
    else FirstIn(s, lo + 1, table)
  }

  /** `parseSides`, over the parallel side tables passed in (the analyzer passes
      LEFT_SIDES and RIGHT_SIDES, see `ParseSides`). The all-null tuple is `None`; it is returned exactly when the
      first ⌈n/2⌉ units hold no left side, the last ⌈n/2⌉ hold no right side, or
      the two nearest sides stand at different indices of the side tables.
      Otherwise the sides are that matching pair; the five slices give the moji
      back when the two sides are distinct positions, and for an odd length the
      middle unit may be both sides at once, with an empty middle. */
  function ParseSidesWith(moji: string, lefts: string, rights: string): (r: Option<Split5>)
    ensures r.Some? ==> (|r.value.left| == 1 && |r.value.right| == 1 &&
      r.value.left[0] in lefts && r.value.right[0] in rights &&
      IndexOf(lefts, r.value.left[0]) == IndexOf(rights, r.value.right[0]))
  {
    var half := HalfLength(|moji|);
    var li := LastIn(moji, half, lefts);
    var ri := FirstIn(moji, |moji| - half, rights);
    if li.None? || ri.None? then None
    else
      var i, j := li.value, ri.value;
      if IndexOf(lefts, moji[i]) != IndexOf(rights, moji[j]) then None
      else Some(Split5(moji[..i], [moji[i]], Slice(moji, i + 1, j), [moji[j]], moji[j + 1..]))
  }

  /** `parseSides` gives the all-null tuple exactly when the first half holds
      no left side, the last half holds no right side, or the two nearest sides
      stand at different indices of the side tables. */
  lemma ParseSidesNone(moji: string, lefts: string, rights: string)
    ensures ParseSidesWith(moji, lefts, rights).None? <==>
      (forall j :: 0 <= j < HalfLength(|moji|) ==> moji[j] !in lefts) ||
      (forall j :: |moji| - HalfLength(|moji|) <= j < |moji| ==> moji[j] !in rights) ||
      (exists i, j :: NearestLeft(moji, lefts, i) && NearestRight(moji, rights, j) &&
                      IndexOf(lefts, moji[i]) != IndexOf(rights, moji[j]))
  {
    var half := HalfLength(|moji|);
    var li := LastIn(moji, half, lefts);
    var ri := FirstIn(moji, |moji| - half, rights);
    if li.Some? && ri.Some? {
      assert NearestLeft(moji, lefts, li.value) && NearestRight(moji, rights, ri.value);
      UniqueNearest(moji, lefts, rights, li.value, ri.value);
    }
  }

  /** Otherwise the sides are the matching nearest pair; the five slices give
      the moji back when the sides are two distinct positions, and for an odd
      length the middle unit may be both sides at once, with an empty middle. */
  lemma ParseSidesSome(moji: string, lefts: string, rights: string)
    requires ParseSidesWith(moji, lefts, rights).Some?
    ensures var r := ParseSidesWith(moji, lefts, rights).value;
      exists i, j ::
      NearestLeft(moji, lefts, i) && NearestRight(moji, rights, j) && i <= j &&
      IndexOf(lefts, moji[i]) == IndexOf(rights, moji[j]) >= 0 &&
      r.left == [moji[i]] && r.right == [moji[j]] &&
      r.outerLeft == moji[..i] && r.outerRight == moji[j + 1..] &&
      (i < j ==> r.Concat() == moji) &&
      (i == j ==> |moji| % 2 == 1 && i == |moji| / 2 && r.centre == [])
  {
    var half := HalfLength(|moji|);
    var i, j := LastIn(moji, half, lefts).value, FirstIn(moji, |moji| - half, rights).value;
    assert NearestLeft(moji, lefts, i) && NearestRight(moji, rights, j);
    UniqueNearest(moji, lefts, rights, i, j);
    var r := ParseSidesWith(moji, lefts, rights).value;
    assert r == Split5(moji[..i], [moji[i]], Slice(moji, i + 1, j), [moji[j]], moji[j + 1..]);
    if i < j {
      CutAtSides(moji, i, j);
    }
  }

  /** Cutting around two distinct positions keeps every unit. */
  lemma CutAtSides(moji: string, i: nat, j: nat)
    requires i < j < |moji|
    ensures Split5(moji[..i], [moji[i]], Slice(moji, i + 1, j), [moji[j]], moji[j + 1..]).Concat() == moji
  {
    assert moji == moji[..i] + [moji[i]] + moji[i + 1..j] + [moji[j]] + moji[j + 1..];
  }

  /** The nearest sides are unique, and the left one never lies after the right one. */
  lemma UniqueNearest(moji: string, lefts: string, rights: string, i: int, j: int)
    requires NearestLeft(moji, lefts, i) && NearestRight(moji, rights, j)
    ensures forall i' :: NearestLeft(moji, lefts, i') ==> i' == i
    ensures forall j' :: NearestRight(moji, rights, j') ==> j' == j
    ensures i <= j
    ensures i == j ==> |moji| % 2 == 1 && i == |moji| / 2
  {
  }

  /** `parseSides` with the analyzer's own tables. */
  function ParseSides(moji: string): (r: Option<Split5>)
    ensures r.Some? ==> (|r.value.left| == 1 && |r.value.right| == 1 &&
      IndexOf(LEFT_SIDES, r.value.left[0]) == IndexOf(RIGHT_SIDES, r.value.right[0]) >= 0)
  {
    ParseSidesWith(moji, LEFT_SIDES, RIGHT_SIDES)
  }

  /** `(` and `]` stand at different indices of the side tables. */
  lemma RoundAndSquareDiffer()
    ensures IndexOf(LEFT_SIDES, '(') == 0 && IndexOf(RIGHT_SIDES, ']') == 1
  {
    assert RIGHT_SIDES[0] != ']' && RIGHT_SIDES[1] == ']';
    assert IndexOf(RIGHT_SIDES[1..], ']') == 0;
  }

  /** Asymmetric brackets are rejected: `(` cannot close with `]`, whatever
      non-bracket unit stands between them. */
  lemma MismatchedBracketsRejected(x: char)
    requires x !in LEFT_SIDES && x !in RIGHT_SIDES
    ensures ParseSides(['(', x, ']']) == None
  {
    var moji := ['(', x, ']'];
    assert LastIn(moji, 2, LEFT_SIDES) == Some(0) by {
      assert moji[1] !in LEFT_SIDES && moji[0] in LEFT_SIDES;
    }
    assert FirstIn(moji, 1, RIGHT_SIDES) == Some(2) by {
      assert moji[1] !in RIGHT_SIDES && moji[2] in RIGHT_SIDES;
    }
    RoundAndSquareDiffer();
  }
}
