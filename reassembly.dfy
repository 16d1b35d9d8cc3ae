/** How the analyzer and the generator fit together: the keys the analyzer
    stores for an accepted moji (analyzer.js:112-142, 261-277) are templates
    that `displayCryptomoji` (moji_maker.js:118-145) nests back into that very
    moji, the off-centre arm cases included. */
module Reassembly {

  import opened Wrappers
  import opened JsString
  import opened Tables
  import opened Sides
  import opened Arms
  import opened Face
  import opened Analyzer
  import opened Maker

  /** The untrimmed moji the generator builds from the keys of a side split
      `s`, an arm split `a` and a face split `f`. */
  function Rebuild(s: Split5, a: Split5, f: Split5): string {
    Assemble(f.centre, Key(f.left, f.right), Key(f.outerLeft, f.outerRight),
             Key(s.left, s.right), Key(a.left, a.right), Key(a.outerLeft, a.outerRight))
  }

  /** The face and side templates wrap the mouth back into `sides + face`. */
  lemma InnerRebuild(s: Split5, f: Split5)
    requires '%' !in f.left && '%' !in f.outerLeft && '%' !in s.left && '$' !in f.Concat()
    ensures Replace(Key(s.left, s.right), Replace(Key(f.outerLeft, f.outerRight), Replace(Key(f.left, f.right), f.centre)))
      == s.left + f.Concat() + s.right
  {
    var eyes := f.left + f.centre + f.right;
    var face := f.outerLeft + eyes + f.outerRight;
    Fill(f.left, f.right, f.centre);
    Fill(f.outerLeft, f.outerRight, eyes);
    Fill(s.left, s.right, face);
    Regroup5(f.outerLeft, f.left, f.centre, f.right, f.outerRight);
  }

  /** `a + (b + c + d) + e` is the five pieces in a row. */
  lemma Regroup5(a: string, b: string, c: string, d: string, e: string)
    ensures a + (b + c + d) + e == a + b + c + d + e
  {
  }

  /** Centred arms: the arm and outside templates wrap as far as they reach. */
  lemma CentredArmsRebuild(s: Split5, a: Split5, f: Split5)
    requires '%' !in f.left && '%' !in f.outerLeft && '%' !in s.left && '%' !in a.left && '%' !in a.outerLeft
    requires '%' !in a.right && |a.left| <= 1 && |a.right| <= 1
    requires '$' !in f.Concat() && '$' !in s.left + s.right && '$' !in a.left + a.right
    ensures Rebuild(s, a, f) == a.outerLeft + (a.left + (s.left + f.Concat() + s.right) + a.right) + a.outerRight
  {
    var inner := s.left + f.Concat() + s.right;
    InnerRebuild(s, f);
    CentredArmsKey(a.left, a.right);
    Fill(a.left, a.right, inner);
    Fill(a.outerLeft, a.outerRight, a.left + inner + a.right);
  }

  /** Left-facing arms `cc%`: one `c` outside the left side, the other just
      inside the right side. */
  lemma LeftArmsRebuild(s: Split5, a: Split5, f: Split5, c: char)
    requires '%' !in f.left && '%' !in f.outerLeft && '%' !in s.left && '%' !in a.outerLeft
    requires a.left == [c, c] && a.right == [] && c != '%' && |s.right| == 1
    requires '$' !in f.Concat() && '$' !in s.left + s.right && c != '$'
    ensures Rebuild(s, a, f) == a.outerLeft + ([c] + (s.left + f.Concat()) + [c] + s.right) + a.outerRight
  {
    var inner := s.left + f.Concat() + s.right;
    InnerRebuild(s, f);
    assert Key(a.left, a.right) == [c, c, '%'];
    OffLeftArms(inner, c);
    SplitLast(s.left + f.Concat(), s.right);
    Fill(a.outerLeft, a.outerRight, [c] + (s.left + f.Concat()) + [c] + s.right);
  }

  /** Right-facing arms `%cc`: one `c` just inside the left side, the other
      outside the right side. */
  lemma RightArmsRebuild(s: Split5, a: Split5, f: Split5, c: char)
    requires '%' !in f.left && '%' !in f.outerLeft && '%' !in s.left && '%' !in a.outerLeft
    requires a.right == [c, c] && a.left == [] && |s.left| == 1
    requires '$' !in f.Concat() && '$' !in s.left + s.right && c != '$'
    ensures Rebuild(s, a, f) == a.outerLeft + (s.left + [c] + (f.Concat() + s.right) + [c]) + a.outerRight
  {
    var rest := f.Concat() + s.right;
    var inner := Replace(Key(s.left, s.right), Replace(Key(f.outerLeft, f.outerRight), Replace(Key(f.left, f.right), f.centre)));
    InnerRebuild(s, f);
    assert inner == s.left + rest;
    assert Key(a.left, a.right) == ['%', c, c];
    var armed := s.left + [c] + rest + [c];
    RightArmsPlace(s.left, rest, c);
    assert PlaceArms(Key(a.left, a.right), inner) == armed;
    assert '$' !in armed by {
      assert '$' !in s.left && '$' !in s.right;
      NoDollar4(s.left, [c], rest, [c]);
    }
    Fill(a.outerLeft, a.outerRight, armed);
    assert Rebuild(s, a, f) == Replace(Key(a.outerLeft, a.outerRight), armed);
  }

  lemma NoDollar4(w: string, x: string, y: string, z: string)
    requires '$' !in w && '$' !in x && '$' !in y && '$' !in z
    ensures '$' !in w + x + y + z
  {
  }

  /** `%cc` arms around a moji that starts with a one-unit side. */
  lemma RightArmsPlace(l: string, x: string, c: char)
    requires |l| == 1
    ensures PlaceArms(['%', c, c], l + x) == l + [c] + x + [c]
  {
    OffRightArms(l + x, c);
    SplitFirst(l, x);
  }

  /** Arms of at most one unit each, neither a `%`, are not off-centre. */
  lemma CentredArmsKey(l: string, r: string)
    requires '%' !in l && '%' !in r && |l| <= 1 && |r| <= 1
    ensures !IsOffRight(Key(l, r)) && !IsOffLeft(Key(l, r))
  {
    if |l| == 1 && |r| == 1 {
      assert Key(l, r) == [l[0], '%', r[0]];
      assert l[0] in l && r[0] in r;
    }
  }

  lemma SplitLast(x: string, y: string)
    requires |y| == 1
    ensures (x + y)[..|x + y| - 1] == x && [(x + y)[|x + y| - 1]] == y
  {
  }

  lemma SplitFirst(x: string, y: string)
    requires |x| == 1
    ensures [(x + y)[0]] == x && (x + y)[1..] == y
  {
  }

  lemma RegroupCentred(ol: string, al: string, sl: string, face: string, sr: string, ar: string, or: string)
    ensures ol + (al + (sl + face + sr) + ar) + or == (ol + al) + sl + face + sr + (ar + or)
  {
  }

  lemma RegroupLeft(ol: string, c: string, sl: string, face: string, sr: string, or: string)
    ensures ol + (c + (sl + face) + c + sr) + or == (ol + c) + sl + (face + c) + sr + or
  {
  }

  lemma RegroupRight(ol: string, c: string, sl: string, face: string, sr: string, or: string)
    ensures ol + (sl + c + (face + sr) + c) + or == ol + sl + (c + face) + sr + (c + or)
  {
  }

  /** Every arm policy leaves a face no longer than the middle it came from. */
  lemma ArmsCentreWithin(left: string, mid: string, right: string)
    ensures |ParseArms(left, mid, right).centre| <= |mid|
  {
  }

  /** The side split of a moji without `%` or `$` whose arm split leaves a
      face: it concatenates back to the moji, and none of its parts holds a `%`
      or a `$`. */
  lemma SidesOfMoji(moji: string, s: Split5)
    requires '%' !in moji && '$' !in moji && ParseSides(moji) == Some(s)
    requires ParseArms(s.outerLeft, s.centre, s.outerRight).centre != []
    ensures s.Concat() == moji && |s.left| == 1 && |s.right| == 1
    ensures '%' !in s.outerLeft && '%' !in s.left && '%' !in s.centre && '%' !in s.right && '%' !in s.outerRight
    ensures '$' !in s.outerLeft && '$' !in s.left && '$' !in s.centre && '$' !in s.right && '$' !in s.outerRight
  {
    ParseSidesSome(moji, LEFT_SIDES, RIGHT_SIDES);
    ArmsCentreWithin(s.outerLeft, s.centre, s.outerRight);
  }

  /** The keys of an accepted moji without `$` rebuild it, whichever arm
      policy split it, as long as its face split loses nothing: the `cc%` and
      `%cc` arm keys of the facing policies are exactly the off-centre cases of
      the generator. */
  lemma {:induction false} KeysRebuildMoji(moji: string, s: Split5, f: Split5)
    requires '%' !in moji && '$' !in moji && ParseSides(moji) == Some(s)
    requires var a := ParseArms(s.outerLeft, s.centre, s.outerRight); a.centre != [] && f.Concat() == a.centre
    ensures Rebuild(s, ParseArms(s.outerLeft, s.centre, s.outerRight), f) == moji
  {
    var a := ParseArms(s.outerLeft, s.centre, s.outerRight);
    SidesOfMoji(moji, s);
    var left, mid, right := s.outerLeft, s.centre, s.outerRight;
    if LeftFacing(left, mid) && !RightFacing(mid, right) {
      ParseArmsLeftFacing(left, mid, right);
      var c := left[|left| - 1];
      assert c in left;
      LeftArmsRebuild(s, a, f, c);
      RegroupLeft(a.outerLeft, [c], s.left, a.centre, s.right, a.outerRight);
    } else if RightFacing(mid, right) && !LeftFacing(left, mid) {
      ParseArmsRightFacing(left, mid, right);
      var c := right[0];
      RightArmsRebuild(s, a, f, c);
      RegroupRight(a.outerLeft, [c], s.left, a.centre, s.right, a.outerRight);
    } else {
      ParseArmsOutside(left, mid, right);
      assert '%' !in a.left && '%' !in a.outerLeft && '%' !in a.right;
      CentredArmsRebuild(s, a, f);
      RegroupCentred(a.outerLeft, a.left, s.left, a.centre, s.right, a.right, a.outerRight);
    }
  }

  /** The parts a moji's six tallies store, as the generator would pick them
      (the tags do not enter the display). */
  function PartsOfMarks(marks: seq<Mark>): MojiParts
    requires |marks| == 6
  {
    MojiParts(Part(marks[0].part, []), Part(marks[1].part, []), Part(marks[2].part, []),
              Part(marks[4].part, []), Part(marks[3].part, []), Part(marks[5].part, []))
  }

  /** The face split of an accepted moji keeps every unit of the face. */
  predicate LosslessFace(moji: string, prev: Known, cur: Known) {
    ParseSides(moji).Some? &&
    var s := ParseSides(moji).value;
    var face := ParseArms(s.outerLeft, s.centre, s.outerRight).centre;
    FaceSplit(face, prev, cur).Some? && FaceSplit(face, prev, cur).value.Concat() == face
  }

  /** Generating from the six parts an accepted moji was tallied under gives
      the moji back, when it has no `%` and no `$` (which `replace` would read
      as a pattern, see `DollarMojiExample`), does not start or end with
      whitespace, and its face split is lossless. */
  lemma AcceptedMojiReassembles(moji: string, prev: Known, cur: Known)
    requires '%' !in moji && '$' !in moji && moji != [] && !IsJsWhitespace(moji[0]) && !IsJsWhitespace(moji[|moji| - 1])
    requires Decompose(moji, prev, cur).Some? && |Decompose(moji, prev, cur).value| == 6
    requires LosslessFace(moji, prev, cur)
    ensures Display(PartsOfMarks(Decompose(moji, prev, cur).value)) == moji
  {
    var s := ParseSides(moji).value;
    var a := ParseArms(s.outerLeft, s.centre, s.outerRight);
    var f := FaceSplit(a.centre, prev, cur).value;
    SixMarks(moji, prev, cur, s, a);
    MarksAssemble(s, a, f);
    KeysRebuildMoji(moji, s, f);
  }

  /** The six tallies of an accepted moji are those of its face split and of
      its arm and side splits. */
  lemma SixMarks(moji: string, prev: Known, cur: Known, s: Split5, a: Split5)
    requires ParseSides(moji) == Some(s) && a == ParseArms(s.outerLeft, s.centre, s.outerRight)
    requires Decompose(moji, prev, cur).Some? && |Decompose(moji, prev, cur).value| == 6
    ensures a.centre != [] && FaceSplit(a.centre, prev, cur).Some?
    ensures var f := FaceSplit(a.centre, prev, cur).value;
      Decompose(moji, prev, cur).value == SplitMarks(f) + OuterMarks(s, a)
  {
    assert !IsSingleCharFace(a.centre) by {
      FaceMarksShape(a.centre, prev, cur, s, a);
    }
  }

  /** The analyzer accepts `$`, but the generator's `replace` reads `$&` in a
      stored part as "the matched `%`": `($&$)` is tallied under mouth `&`,
      eyes `$%$` and insides `%`, and those parts display as `(%$)`. */
  lemma DollarMojiExample()
    ensures Decompose("($&$)", NOTHING_KNOWN, NOTHING_KNOWN) == Some(DOLLAR_MARKS)
    ensures Display(PartsOfMarks(DOLLAR_MARKS)) == "(%$)"
  {
    DollarMojiMarks();
    DollarMojiDisplay();
  }

  /** The six tallies of `($&$)`: its face, then its arms, sides and outsides. */
  const DOLLAR_MARKS: seq<Mark> := DOLLAR_FACE_MARKS + DOLLAR_OUTER_MARKS
  const DOLLAR_FACE_MARKS: seq<Mark> := [Mark(Mouth, "&"), Mark(Eye, "$%$"), Mark(Inside, "%")]
  const DOLLAR_OUTER_MARKS: seq<Mark> := [Mark(Arm, "%"), Mark(Side, "(%)"), Mark(Outside, "%")]

  lemma DollarMojiMarks()
    ensures Decompose("($&$)", NOTHING_KNOWN, NOTHING_KNOWN) == Some(DOLLAR_MARKS)
  {
    var s, a := Split5("", "(", "$&$", ")", ""), Split5("", "", "$&$", "", "");
    var inner := DOLLAR_FACE_MARKS;
    DollarMojiSides();
    DollarArms();
    DollarFace();
    DollarFaceMarks();
    assert Decompose("($&$)", NOTHING_KNOWN, NOTHING_KNOWN) == Some(inner + OuterMarks(s, a));
    DollarOuterMarks();
  }

  lemma DollarArms()
    ensures ParseArms("", "$&$", "") == Split5("", "", "$&$", "", "")
  {
    assert !LeftFacing("", "$&$") && !RightFacing("$&$", "");
  }

  lemma DollarFaceMarks()
    ensures FaceMarks("$&$", NOTHING_KNOWN, NOTHING_KNOWN) == Some(DOLLAR_FACE_MARKS)
  {
    DollarFace();
    var f := Split5("", "$", "&", "$", "");
    assert f.left != [] && f.right != [] && f.centre != [];
    DollarFaceKeys();
    assert FaceMarks("$&$", NOTHING_KNOWN, NOTHING_KNOWN) ==
      Some([Mark(Mouth, f.centre), Mark(Eye, Key(f.left, f.right)), Mark(Inside, Key(f.outerLeft, f.outerRight))]);
  }

  lemma DollarFaceKeys()
    ensures Key("$", "$") == "$%$" && Key("", "") == "%"
  {
  }

  lemma DollarOuterMarks()
    ensures OuterMarks(Split5("", "(", "$&$", ")", ""), Split5("", "", "$&$", "", "")) == DOLLAR_OUTER_MARKS
  {
    assert Key("(", ")") == "(%)" && Key("", "") == "%";
  }

  lemma DollarMojiSides()
    ensures ParseSides("($&$)") == Some(Split5("", "(", "$&$", ")", ""))
  {
    var moji := "($&$)";
    assert HalfLength(|moji|) == 3;
    DollarLeftSide();
    DollarRightSide();
    DollarSideCut();
    assert ParseSidesWith(moji, LEFT_SIDES, RIGHT_SIDES) ==
      Some(Split5(moji[..0], [moji[0]], Slice(moji, 1, 4), [moji[4]], moji[5..]));
  }

  lemma DollarSideCut()
    ensures var moji := "($&$)";
      IndexOf(LEFT_SIDES, moji[0]) == 0 && IndexOf(RIGHT_SIDES, moji[4]) == 0 &&
      Slice(moji, 1, 4) == "$&$" && moji[..0] == "" && moji[5..] == "" &&
      [moji[0]] == "(" && [moji[4]] == ")"
  {
  }

  lemma DollarLeftSide()
    ensures LastIn("($&$)", 3, LEFT_SIDES) == Some(0)
  {
    var moji := "($&$)";
    assert moji[2] !in LEFT_SIDES && moji[1] !in LEFT_SIDES && moji[0] in LEFT_SIDES;
  }

  lemma DollarRightSide()
    ensures FirstIn("($&$)", 2, RIGHT_SIDES) == Some(4)
  {
    var moji := "($&$)";
    assert moji[2] !in RIGHT_SIDES && moji[3] !in RIGHT_SIDES && moji[4] in RIGHT_SIDES;
  }

  lemma DollarFace()
    ensures !HasSideUnit("$&$") && !IsSingleCharFace("$&$")
    ensures FaceSplit("$&$", NOTHING_KNOWN, NOTHING_KNOWN) == Some(Split5("", "$", "&", "$", ""))
  {
    DollarNoSide();
    DollarCrying();
  }

  lemma DollarNoSide()
    ensures !HasSideUnit("$&$")
  {
    assert '$' !in LEFT_SIDES && '$' !in RIGHT_SIDES;
    assert '&' !in LEFT_SIDES && '&' !in RIGHT_SIDES;
    assert forall i :: 0 <= i < 3 ==> "$&$"[i] == '$' || "$&$"[i] == '&';
  }

  lemma DollarCrying()
    ensures FaceSplit("$&$", NOTHING_KNOWN, NOTHING_KNOWN) == Some(Split5("", "$", "&", "$", ""))
  {
    assert Distinct('&', '$');
    CryingFace('$', '&');
    assert ['$', '&', '$'] == "$&$";
  }

  lemma DollarMojiDisplay()
    ensures Display(PartsOfMarks(DOLLAR_MARKS)) == "(%$)"
  {
    DollarParts();
    DollarAssemble();
    DollarTrim();
  }

  lemma DollarParts()
    ensures PartsOfMarks(DOLLAR_MARKS) ==
      MojiParts(Part("&", []), Part("$%$", []), Part("%", []), Part("(%)", []), Part("%", []), Part("%", []))
  {
  }

  lemma DollarTrim()
    ensures Trim("(%$)") == "(%$)"
  {
    TrimPlain("(%$)");
  }

  lemma DollarAssemble()
    ensures Assemble("&", "$%$", "%", "(%)", "%", "%") == "(%$)"
  {
    DollarSteps();
    var face := Replace("%", Replace("$%$", "&"));
    assert face == "%$";
    var sided := Replace("(%)", face);
    assert sided == "(%$)";
    assert !IsOffRight("%") && !IsOffLeft("%");
    assert PlaceArms("%", sided) == "(%$)";
  }

  /** The `replace` steps of the `($&$)` display. */
  lemma DollarSteps()
    ensures Replace("$%$", "&") == "$&$"
    ensures Replace("%", "$&$") == "%$"
    ensures Replace("(%)", "%$") == "(%$)"
    ensures Replace("%", "(%$)") == "(%$)"
  {
    DollarEyes();
    DollarInsides();
    DollarSides();
    DollarWrap();
  }

  lemma DollarEyes()
    ensures Replace("$%$", "&") == "$&$"
  {
    ReplaceFirst("$", "$", "&");
    assert "$" + "%" + "$" == "$%$";
  }

  lemma DollarInsides()
    ensures Replace("%", "$&$") == "%$"
  {
    ReplacePatterns("", "");
    assert "" + "%" + "" == "%";
  }

  lemma DollarSides()
    ensures Replace("(%)", "%$") == "(%$)"
  {
    FirstPercent("(", ")");
    assert "(" + "%" + ")" == "(%)";
    assert Substitute("%$", "(", ")") == "%$" by {
      assert Substitute("$", "(", ")") == "$";
      assert "%$"[1..] == "$";
    }
  }

  lemma DollarWrap()
    ensures Replace("%", "(%$)") == "(%$)"
  {
    FirstPercent("", "");
    assert "" + "%" + "" == "%";
    assert Substitute("(%$)", "", "") == "(%$)" by {
      assert Substitute(")", "", "") == ")";
      assert "$)"[1..] == ")";
      assert Substitute("$)", "", "") == "$)";
      assert "%$)"[1..] == "$)";
      assert "(%$)"[1..] == "%$)";
    }
  }

  /** `trim` leaves a string whose ends are not whitespace. */
  lemma TrimPlain(x: string)
    requires x != [] && !IsJsWhitespace(x[0]) && !IsJsWhitespace(x[|x| - 1])
    ensures Trim(x) == x
  {
  }

  /** The tallies of a face split that keeps its eyes and mouth. */
  function SplitMarks(f: Split5): (r: seq<Mark>)
    ensures |r| == 3 && r[0].part == f.centre
  {
    [Mark(Mouth, f.centre), Mark(Eye, Key(f.left, f.right)), Mark(Inside, Key(f.outerLeft, f.outerRight))]
  }

  /** The parts of those six tallies assemble as `Rebuild`. */
  lemma MarksAssemble(s: Split5, a: Split5, f: Split5)
    ensures var p := PartsOfMarks(SplitMarks(f) + OuterMarks(s, a));
      Assemble(p.mouth.text, p.eyes.text, p.insides.text, p.sides.text, p.arms.text, p.outsides.text) == Rebuild(s, a, f)
  {
    var marks := SplitMarks(f) + OuterMarks(s, a);
    assert marks[1].part == Key(f.left, f.right) && marks[2].part == Key(f.outerLeft, f.outerRight);
    assert marks[3].part == Key(a.left, a.right) && marks[4].part == Key(s.left, s.right);
    assert marks[5].part == Key(a.outerLeft, a.outerRight);
  }

  /** A whole-face glyph leaves four tallies, not six. */
  lemma FaceMarksShape(face: string, prev: Known, cur: Known, s: Split5, a: Split5)
    requires FaceMarks(face, prev, cur).Some?
    requires |FaceMarks(face, prev, cur).value + OuterMarks(s, a)| == 6
    ensures !IsSingleCharFace(face)
  {
  }
}
