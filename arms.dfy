/** The arm splitter (analyzer.js:112-143): decide whether the arms sit inside
    the brackets on the left, on the right, or outside on both sides. */
module Arms {

  import opened JsString
  import opened Tables

  /** `left.slice(-1) && left.slice(-1) === mid.slice(-1)`. */
  predicate LeftFacing(left: string, mid: string) {
    |left| > 0 && |mid| > 0 && left[|left| - 1] == mid[|mid| - 1]
  }

  /** `right[0] && right[0] === mid[0]`. */
  predicate RightFacing(mid: string, right: string) {
    |right| > 0 && |mid| > 0 && right[0] == mid[0]
  }

  /** `parseArms(left, mid, right)`, returning outside, arm, face, arm, outside.
      Exactly one of three policies applies, and none loses or invents a unit:
      the five outputs are as long as the three inputs together.
      - left-facing only: the last unit `c` of `left` (which is also the last unit
        of `mid`) comes off both, and the left arm is `cc`;
      - right-facing only: the mirror image, the right arm is `cc` for the first
        unit `c` of `right` and of `mid`;
      - otherwise the arms are at most one unit each, peeled off the outside
        strings, and the five outputs concatenate to `left + mid + right`. */
  function ParseArms(left: string, mid: string, right: string): (r: Split5)
    ensures |r.left| + |r.right| <= 2 && |r.centre| <= |mid|
  {
    var isLeftFacing := LeftFacing(left, mid);
    var isRightFacing := RightFacing(mid, right);
    if isLeftFacing && !isRightFacing then
      var c := SliceFrom(left, -1);
      Split5(Slice(left, 0, -1), c + c, Slice(mid, 0, -1), "", right)
    else if isRightFacing && !isLeftFacing then
      Split5(left, "", SliceFrom(mid, 1), [right[0]] + [right[0]], SliceFrom(right, 1))
    else
      Split5(Slice(left, 0, -1), SliceFrom(left, -1), mid, At(right, 0), SliceFrom(right, 1))
  }

  /** Left-facing arms: the last unit `c` of `left`, which is also the last
      unit of `mid`, comes off both, and the left arm is `cc`. */
  lemma ParseArmsLeftFacing(left: string, mid: string, right: string)
    requires LeftFacing(left, mid) && !RightFacing(mid, right)
    ensures var r, c := ParseArms(left, mid, right), left[|left| - 1];
      left == r.outerLeft + [c] && mid == r.centre + [c] && mid[|mid| - 1] == c &&
      r.left == [c, c] && r.right == [] && r.outerRight == right &&
      |r.Concat()| == |left| + |mid| + |right|
  {
    assert left == left[..|left| - 1] + [left[|left| - 1]];
    assert mid == mid[..|mid| - 1] + [mid[|mid| - 1]];
  }

  /** Right-facing arms: the mirror image, the right arm is `cc` for the first
      unit `c` of `right` and of `mid`. */
  lemma ParseArmsRightFacing(left: string, mid: string, right: string)
    requires RightFacing(mid, right) && !LeftFacing(left, mid)
    ensures var r, c := ParseArms(left, mid, right), right[0];
      right == [c] + r.outerRight && mid == [c] + r.centre && mid[0] == c &&
      r.right == [c, c] && r.left == [] && r.outerLeft == left &&
      |r.Concat()| == |left| + |mid| + |right|
  {
    assert right == [right[0]] + right[1..];
    assert mid == [mid[0]] + mid[1..];
  }

  /** Facing both ways or neither: the arms are at most one unit each, peeled
      off the outside strings, and the five outputs give `left + mid + right`. */
  lemma ParseArmsOutside(left: string, mid: string, right: string)
    requires LeftFacing(left, mid) == RightFacing(mid, right)
    ensures var r := ParseArms(left, mid, right);
      r.Concat() == left + mid + right && r.centre == mid &&
      r.outerLeft + r.left == left && r.right + r.outerRight == right &&
      |r.left| <= 1 && |r.right| <= 1 &&
      (left != [] ==> r.left == [left[|left| - 1]]) && (right != [] ==> r.right == [right[0]])
  {
    PeelLast(left);
    PeelFirst(right);
    var r := ParseArms(left, mid, right);
    assert r == Split5(Slice(left, 0, -1), SliceFrom(left, -1), mid, At(right, 0), SliceFrom(right, 1));
    assert r.Concat() == (r.outerLeft + r.left) + mid + (r.right + r.outerRight);
  }

  /** `s.slice(0, -1)` and `s.slice(-1)` cut off at most the last unit. */
  lemma PeelLast(s: string)
    ensures Slice(s, 0, -1) + SliceFrom(s, -1) == s && |SliceFrom(s, -1)| <= 1
    ensures s != [] ==> SliceFrom(s, -1) == [s[|s| - 1]]
  {
    if s != [] { assert s == s[..|s| - 1] + [s[|s| - 1]]; }
  }

  /** `s[0] || ''` and `s.slice(1)` cut off at most the first unit. */
  lemma PeelFirst(s: string)
    ensures At(s, 0) + SliceFrom(s, 1) == s && |At(s, 0)| <= 1
    ensures s != [] ==> At(s, 0) == [s[0]]
  {
    if s != [] { assert s == [s[0]] + s[1..]; }
  }

  /** Whichever policy applies, no unit is lost or invented. */
  lemma ParseArmsKeepsLength(left: string, mid: string, right: string)
    ensures |ParseArms(left, mid, right).Concat()| == |left| + |mid| + |right|
  {
    if LeftFacing(left, mid) && !RightFacing(mid, right) {
      ParseArmsLeftFacing(left, mid, right);
    } else if RightFacing(mid, right) && !LeftFacing(left, mid) {
      ParseArmsRightFacing(left, mid, right);
    } else {
      ParseArmsOutside(left, mid, right);
    }
  }
}
