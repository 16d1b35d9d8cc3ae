/** The analyzer's driver: the per-moji step (analyzer.js:286-324) that rejects,
    reads directive lines, decomposes a kaomoji and tallies its parts, and the
    resolution pass (analyzer.js:327-352) over the collected results. */
module Analyzer {

  import opened Wrappers
  import opened JsString
  import opened Tables
  import opened Sides
  import opened Arms
  import opened Face
  import opened Tally

  /** The six categories of `results`, `resultKeys`. */
  datatype Category = Outside | Arm | Side | Inside | Eye | Mouth

  /** `resultKeys`, in the source's order. */
  const CATEGORIES: seq<Category> := [Outside, Arm, Side, Inside, Eye, Mouth]

  /** One `tally(results[category], part)` a moji asks for. */
  datatype Mark = Mark(category: Category, part: string)

  type Results = map<Category, PartTable>

  /** `results` after the resolution pass. */
  type ResolvedResults = map<Category, ResolvedTable>

  /** Every category is present. */
  predicate Complete(results: Results) {
    forall c: Category :: c in results
  }

  /** Every record of every category is sane. */
  predicate AllSane(results: Results) {
    forall c, p :: c in results && p in results[c] ==> Sane(results[c][p])
  }

  /** The initial `results`: six empty categories. */
  function EmptyResults(): (r: Results)
    ensures Complete(r) && AllSane(r)
    ensures forall c: Category :: r[c] == map[]
  {
    EveryCategoryListed();
    map c | c in CATEGORIES :: map[]
  }

  /** What `parseFace` learns from the results gathered so far. */
  function CurrentKnown(results: Results): Known
    requires Complete(results)
  {
    Known(results[Mouth].Keys, results[Eye].Keys)
  }

  // ---------------------------------------------------------------------------
  // Rejection and directives (analyzer.js:287-298)
  // ---------------------------------------------------------------------------

  /** `BAD_CHARS.find(code => moji.includes(String.fromCharCode(code)))` */
  predicate HasBadUnit(moji: string) {
    exists i :: 0 <= i < |moji| && (moji[i] as int) in BAD_CHARS
  }

  /** A moji the analyzer passes over without a trace: it holds the `%`
      escape character or one of the bad units. */
  predicate Skipped(moji: string) {
    '%' in moji || HasBadUnit(moji)
  }

  /** `moji.slice(0, 3) === '###'` */
  predicate IsDirective(moji: string) {
    |moji| >= 3 && moji[..3] == "###"
  }

  /** The tag context a directive line sets: the comma-separated fields after
      `###` are emotion, animal and OTHER; an empty or missing animal is
      `NOT_ANIMAL`, a missing OTHER is not set, and further fields are ignored. */
  function DirectiveContext(moji: string): (ctx: Context)
    requires IsDirective(moji)
  {
    var fields := Split(moji[3..], ',');
    Context(fields[0],
            if |fields| > 1 && fields[1] != "" then fields[1] else NOT_ANIMAL,
            if |fields| > 2 then fields[2] else "")
  }

  /** A directive written from three comma-free fields sets exactly those
      fields, with the animal defaulting to `NOT_ANIMAL`. */
  lemma DirectiveFields(emotion: string, animal: string, other: string)
    requires ',' !in emotion && ',' !in animal && ',' !in other
    ensures var line := "###" + emotion + "," + animal + "," + other;
      IsDirective(line) &&
      DirectiveContext(line) == Context(emotion, if animal == "" then NOT_ANIMAL else animal, other)
  {
    var line := "###" + emotion + "," + animal + "," + other;
    var fields := [emotion, animal, other];
    assert Join(fields[2..], ',') == other;
    assert Join(fields[1..], ',') == animal + [','] + other;
    assert Join(fields, ',') == emotion + "," + animal + "," + other;
    assert line[..3] == "###" && line[3..] == Join(fields, ',');
    SplitJoin(fields, ',');
  }

  /** A directive with a single field sets only the emotion, the animal to
      `NOT_ANIMAL`, and leaves OTHER unset. */
  lemma DirectiveEmotionOnly(emotion: string)
    requires ',' !in emotion
    ensures IsDirective("###" + emotion) && DirectiveContext("###" + emotion) == Context(emotion, NOT_ANIMAL, "")
  {
    var line := "###" + emotion;
    assert line[..3] == "###" && line[3..] == Join([emotion], ',');
    SplitJoin([emotion], ',');
  }

  // ---------------------------------------------------------------------------
  // Decomposition (analyzer.js:300-323)
  // ---------------------------------------------------------------------------

  /** `RIGHT_SIDES.concat(LEFT_SIDES).find(side => face.includes(side))` */
  predicate HasSideUnit(face: string) {
    exists i :: 0 <= i < |face| && (face[i] in RIGHT_SIDES || face[i] in LEFT_SIDES)
  }

  /** `SINGLE_CHAR_FACES.includes(face)`: the face is one of the whole-face glyphs. */
  predicate IsSingleCharFace(face: string) {
    |face| == 1 && face[0] in SINGLE_CHAR_FACES
  }

  /** The arm, side and outside tallies every accepted moji ends with. */
  function OuterMarks(s: Split5, a: Split5): seq<Mark> {
    [Mark(Arm, Key(a.left, a.right)), Mark(Side, Key(s.left, s.right)), Mark(Outside, Key(a.outerLeft, a.outerRight))]
  }

  function Categories(marks: seq<Mark>): (r: seq<Category>)
    ensures |r| == |marks| && forall i :: 0 <= i < |marks| ==> r[i] == marks[i].category
    decreases |marks|
  {
    if marks == [] then [] else [marks[0].category] + Categories(marks[1..])
  }

  /** The tallies of the face itself: a whole-face glyph is tallied as eyes;
      otherwise the face split gives mouth, eyes and insides, and a split that
      fails or has an empty eye or mouth rejects the moji. */
  function FaceMarks(face: string, prev: Known, cur: Known): (r: Option<seq<Mark>>)
    ensures r.Some? ==>
      (Categories(r.value) == [Mouth, Eye, Inside] && r.value[0].part != []) ||
      (Categories(r.value) == [Eye] && IsSingleCharFace(r.value[0].part))
    ensures IsSingleCharFace(face) ==> r == Some([Mark(Eye, face)])
    ensures !IsSingleCharFace(face) ==>
      (r.Some? <==> FaceSplit(face, prev, cur).Some? && FaceSplit(face, prev, cur).value.left != [] &&
                    FaceSplit(face, prev, cur).value.right != [] && FaceSplit(face, prev, cur).value.centre != [])
    ensures !IsSingleCharFace(face) && r.Some? ==>
      var f := FaceSplit(face, prev, cur).value;
      r.value == [Mark(Mouth, f.centre), Mark(Eye, Key(f.left, f.right)), Mark(Inside, Key(f.outerLeft, f.outerRight))]
  {
    if IsSingleCharFace(face) then Some([Mark(Eye, face)])
    else
      var f := FaceSplit(face, prev, cur);
      if f.None? then None
      else if f.value.left == [] || f.value.right == [] || f.value.centre == [] then None
      else
        var l := f.value;
        Some([Mark(Mouth, l.centre), Mark(Eye, Key(l.left, l.right)), Mark(Inside, Key(l.outerLeft, l.outerRight))])
  }

  /** The tallies a moji asks for, or `None` when it is rejected: sides, then
      arms, then the face; a face holding a side glyph rejects the moji. */
  function Decompose(moji: string, prev: Known, cur: Known): Option<seq<Mark>> {
    var sides := ParseSides(moji);
    if sides.None? then None
    else
      var s := sides.value;
      var a := ParseArms(s.outerLeft, s.centre, s.outerRight);
      if HasSideUnit(a.centre) then None
      else
        match FaceMarks(a.centre, prev, cur)
        case None => None
        case Some(inner) => Some(inner + OuterMarks(s, a))
  }

  /** A moji is rejected when its sides do not match, or when the face the
      arm split leaves holds a side glyph; otherwise it is accepted exactly
      when its face yields tallies. */
  lemma DecomposeRejects(moji: string, prev: Known, cur: Known)
    ensures ParseSides(moji).None? ==> Decompose(moji, prev, cur) == None
    ensures ParseSides(moji).Some? ==>
      var s := ParseSides(moji).value;
      var face := ParseArms(s.outerLeft, s.centre, s.outerRight).centre;
      (HasSideUnit(face) ==> Decompose(moji, prev, cur) == None) &&
      (!HasSideUnit(face) ==> (Decompose(moji, prev, cur).Some? <==> FaceMarks(face, prev, cur).Some?))
  {
  }

  /** An accepted moji tallies each category at most once: all six, or, for a
      whole-face glyph, the glyph as eyes plus arms, sides and outsides. */
  lemma DecomposeCategories(moji: string, prev: Known, cur: Known)
    requires Decompose(moji, prev, cur).Some?
    ensures var marks := Decompose(moji, prev, cur).value;
      Categories(marks) == [Mouth, Eye, Inside, Arm, Side, Outside] ||
      (Categories(marks) == [Eye, Arm, Side, Outside] && IsSingleCharFace(marks[0].part))
  {
    var s := ParseSides(moji).value;
    var a := ParseArms(s.outerLeft, s.centre, s.outerRight);
    var inner := FaceMarks(a.centre, prev, cur).value;
    assert Decompose(moji, prev, cur) == Some(inner + OuterMarks(s, a));
    WithOuterCategories(inner, s, a);
  }

  lemma WithOuterCategories(inner: seq<Mark>, s: Split5, a: Split5)
    requires (Categories(inner) == [Mouth, Eye, Inside] && inner[0].part != []) ||
             (Categories(inner) == [Eye] && IsSingleCharFace(inner[0].part))
    ensures var marks := inner + OuterMarks(s, a);
      Categories(marks) == [Mouth, Eye, Inside, Arm, Side, Outside] ||
      (Categories(marks) == [Eye, Arm, Side, Outside] && IsSingleCharFace(marks[0].part))
  {
    var all := inner + OuterMarks(s, a);
    assert forall i :: |inner| <= i < |all| ==> all[i] == OuterMarks(s, a)[i - |inner|];
    assert all[0] == inner[0];
  }

  // ---------------------------------------------------------------------------
  // Tallying a decomposition
  // ---------------------------------------------------------------------------

  /** `tally(results[m.category], m.part)` under the context `ctx`. */
  function TallyMark(results: Results, m: Mark, ctx: Context): (r: Results)
    requires Complete(results)
    ensures Complete(r)
  {
    results[m.category := TallyPart(results[m.category], m.part, ctx)]
  }

  /** The tallies of one moji, in order. */
  function Apply(results: Results, marks: seq<Mark>, ctx: Context): (r: Results)
    requires Complete(results)
    ensures Complete(r)
    decreases |marks|
  {
    if marks == [] then results else Apply(TallyMark(results, marks[0], ctx), marks[1..], ctx)
  }

  /** Tallying keeps every record sane. */
  lemma {:induction false} ApplyKeepsSane(results: Results, marks: seq<Mark>, ctx: Context)
    requires Complete(results) && AllSane(results)
    ensures AllSane(Apply(results, marks, ctx))
    decreases |marks|
  {
    if marks != [] {
      var m := marks[0];
      TallyKeepsSane(results[m.category], m.part, ctx);
      ApplyKeepsSane(TallyMark(results, m, ctx), marks[1..], ctx);
    }
  }

  /** No category occurs twice. */
  predicate NoRepeats(cs: seq<Category>) {
    forall i, j :: 0 <= i < j < |cs| ==> cs[i] != cs[j]
  }

  /** A category no mark names is left alone. */
  lemma {:induction false} ApplyUntouched(results: Results, marks: seq<Mark>, ctx: Context, c: Category)
    requires Complete(results) && c !in Categories(marks)
    ensures Apply(results, marks, ctx)[c] == results[c]
    decreases |marks|
  {
    if marks != [] {
      assert Categories(marks)[0] == marks[0].category;
      assert Categories(marks[1..]) == Categories(marks)[1..];
      ApplyUntouched(TallyMark(results, marks[0], ctx), marks[1..], ctx, c);
    }
  }

  /** When no category is marked twice, the category of the `i`-th mark is
      tallied exactly once, for that mark's part. */
  lemma {:induction false} ApplyTalliesOnce(results: Results, marks: seq<Mark>, ctx: Context, i: nat)
    requires Complete(results) && NoRepeats(Categories(marks)) && i < |marks|
    ensures Apply(results, marks, ctx)[marks[i].category] == TallyPart(results[marks[i].category], marks[i].part, ctx)
    decreases |marks|
  {
    var next := TallyMark(results, marks[0], ctx);
    var rest := marks[1..];
    var cs := Categories(marks);
    assert Categories(rest) == cs[1..];
    ApplyFirst(results, marks, ctx);
    if i == 0 {
      assert marks[0].category !in Categories(rest) by {
        forall j | 0 <= j < |rest| ensures Categories(rest)[j] != marks[0].category {
          assert cs[j + 1] == Categories(rest)[j] && cs[0] == marks[0].category;
        }
      }
      ApplyUntouched(next, rest, ctx, marks[0].category);
    } else {
      assert rest[i - 1] == marks[i];
      assert cs[i] != cs[0] && cs[0] == marks[0].category && cs[i] == marks[i].category;
      assert next[marks[i].category] == results[marks[i].category];
      assert NoRepeats(cs[1..]);
      ApplyTalliesOnce(next, rest, ctx, i - 1);
    }
  }

  // ---------------------------------------------------------------------------
  // The step as a function of the state
  // ---------------------------------------------------------------------------

  /** What the driver keeps between moji: `results` and `tags`. */
  datatype State = State(results: Results, tags: Context)

  /** One pass of the `mojis.forEach` body. */
  function Next(st: State, moji: string, prev: Known): (r: State)
    requires Complete(st.results)
    ensures Complete(r.results)
  {
    if Skipped(moji) then st
    else if IsDirective(moji) then st.(tags := DirectiveContext(moji))
    else
      match Decompose(moji, prev, CurrentKnown(st.results))
      case None => st
      case Some(marks) => st.(results := Apply(st.results, marks, st.tags))
  }

  /** The whole `forEach`, over the lines in order. */
  function Run(st: State, mojis: seq<string>, prev: Known): (r: State)
    requires Complete(st.results)
    ensures Complete(r.results)
    decreases |mojis|
  {
    if mojis == [] then st else Next(Run(st, mojis[..|mojis| - 1], prev), mojis[|mojis| - 1], prev)
  }

  /** A moji holding `%` or a bad unit changes nothing. */
  lemma SkippedChangesNothing(st: State, moji: string, prev: Known)
    requires Complete(st.results) && Skipped(moji)
    ensures Next(st, moji, prev) == st
  {
  }

  /** A directive line only replaces the tag context. */
  lemma DirectiveOnlySetsTags(st: State, moji: string, prev: Known)
    requires Complete(st.results) && !Skipped(moji) && IsDirective(moji)
    ensures Next(st, moji, prev) == State(st.results, DirectiveContext(moji))
  {
  }

  /** An accepted moji counts each of its parts once, in its own category,
      under the current tags, and leaves the context and every other category
      alone; a rejected one changes nothing. */
  lemma AcceptedMojiCounts(st: State, moji: string, prev: Known)
    requires Complete(st.results) && !Skipped(moji) && !IsDirective(moji)
    ensures var d := Decompose(moji, prev, CurrentKnown(st.results));
      var r := Next(st, moji, prev);
      r.tags == st.tags &&
      (d.None? ==> r == st) &&
      (d.Some? ==>
        (forall m :: m in d.value ==> r.results[m.category] == TallyPart(st.results[m.category], m.part, st.tags)) &&
        (forall c :: c !in Categories(d.value) ==> r.results[c] == st.results[c]))
  {
    var d := Decompose(moji, prev, CurrentKnown(st.results));
    if d.Some? {
      DecomposeCategories(moji, prev, CurrentKnown(st.results));
      ApplyAccepted(st.results, d.value, st.tags);
    }
  }

  /** The tallies of an accepted moji, whatever its parts: each marked category
      is tallied once for its part, and the others are left alone. */
  lemma ApplyAccepted(results: Results, marks: seq<Mark>, ctx: Context)
    requires Complete(results)
    requires Categories(marks) == [Mouth, Eye, Inside, Arm, Side, Outside] ||
             Categories(marks) == [Eye, Arm, Side, Outside]
    ensures forall m :: m in marks ==> Apply(results, marks, ctx)[m.category] == TallyPart(results[m.category], m.part, ctx)
    ensures forall c :: c !in Categories(marks) ==> Apply(results, marks, ctx)[c] == results[c]
  {
    AcceptedCategoriesNoRepeats();
    forall m | m in marks
      ensures Apply(results, marks, ctx)[m.category] == TallyPart(results[m.category], m.part, ctx)
    {
      var i :| 0 <= i < |marks| && marks[i] == m;
      ApplyTalliesOnce(results, marks, ctx, i);
    }
    forall c | c !in Categories(marks) ensures Apply(results, marks, ctx)[c] == results[c] {
      ApplyUntouched(results, marks, ctx, c);
    }
  }

  /** Neither category list of an accepted moji repeats a category. */
  lemma AcceptedCategoriesNoRepeats()
    ensures NoRepeats([Eye, Arm, Side, Outside])
    ensures NoRepeats([Mouth, Eye, Inside, Arm, Side, Outside])
  {
  }

  /** Running any lines keeps every record sane. */
  lemma {:induction false} RunKeepsSane(st: State, mojis: seq<string>, prev: Known)
    requires Complete(st.results) && AllSane(st.results)
    ensures AllSane(Run(st, mojis, prev).results)
    decreases |mojis|
  {
    if mojis != [] {
      var before := Run(st, mojis[..|mojis| - 1], prev);
      RunKeepsSane(st, mojis[..|mojis| - 1], prev);
      var moji := mojis[|mojis| - 1];
      if !Skipped(moji) && !IsDirective(moji) {
        var d := Decompose(moji, prev, CurrentKnown(before.results));
        if d.Some? {
          ApplyKeepsSane(before.results, d.value, before.tags);
        }
      }
    }
  }

  // ---------------------------------------------------------------------------
  // Resolution (analyzer.js:327-349)
  // ---------------------------------------------------------------------------

  function ResolveTable(t: PartTable): (r: ResolvedTable)
    ensures r.Keys == t.Keys
    ensures forall p :: p in t ==> r[p].count == t[p].count
  {
    map p | p in t :: ResolveRecord(t[p])
  }

  /** The resolution pass: every record's vote tables replaced by its tag list. */
  function ResolveAll(results: Results): (r: ResolvedResults)
    ensures r.Keys == results.Keys
    ensures forall c :: c in results ==> r[c].Keys == results[c].Keys
  {
    map c | c in results :: ResolveTable(results[c])
  }

  /** After resolution every record of sane results keeps its count and lists
      at most three tags. */
  lemma ResolvedTagsAtMostThree(results: Results)
    requires AllSane(results)
    ensures forall c, p :: c in results && p in results[c] ==>
      ResolveAll(results)[c][p].count == results[c][p].count &&
      |ResolveAll(results)[c][p].tags| <= 3
  {
    forall c, p | c in results && p in results[c]
      ensures |ResolveAll(results)[c][p].tags| <= 3
    {
      ResolvedTagsBound(results[c][p]);
    }
  }

  // ---------------------------------------------------------------------------
  // The analyzer as an object
  // ---------------------------------------------------------------------------

  /** The script's state: the previous run's dictionaries, `results` and the
      current `tags`. */
  class Analyzer {
    const prev: Known
    var results: Results
    var tags: Context

    ghost predicate Valid()
      reads this
    {
      Complete(results) && AllSane(results)
    }

    /** The empty results and the all-empty tag context. */
    constructor(prev: Known)
      ensures Valid() && this.prev == prev
      ensures results == EmptyResults() && tags == Context("", "", "")
    {
      this.prev := prev;
      results := EmptyResults();
      tags := Context("", "", "");
    }

    /** `tally(results[category], part)` */
    method Tally(category: Category, part: string)
      requires Valid()
      modifies this
      ensures Valid()
      ensures results == TallyMark(old(results), Mark(category, part), tags) && tags == old(tags)
    {
      TallyKeepsSane(results[category], part, tags);
      results := results[category := TallyPart(results[category], part, tags)];
    }

    /** The `mojis.forEach` body for one line. */
    method Step(moji: string)
      requires Valid()
      modifies this
      ensures Valid()
      ensures State(results, tags) == Next(old(State(results, tags)), moji, prev)
    {
      if '%' in moji || HasBadUnit(moji) {
        assert Skipped(moji);
        return;
      }
      if |moji| >= 3 && moji[..3] == "###" {
        tags := DirectiveContext(moji);
        assert !Skipped(moji) && IsDirective(moji);
        return;
      }
      assert !Skipped(moji) && !IsDirective(moji);
      ghost var r0 := results;
      var sides := ParseSides(moji);
      if sides.None? {
        assert Decompose(moji, prev, CurrentKnown(r0)) == None;
        return;
      }
      var s := sides.value;
      var a := ParseArms(s.outerLeft, s.centre, s.outerRight);
      var face := a.centre;
      if HasSideUnit(face) {
        assert Decompose(moji, prev, CurrentKnown(r0)) == None;
        return;
      }
      ghost var inner;
      var accepted;
      accepted, inner := TallyFace(face);
      if !accepted {
        assert Decompose(moji, prev, CurrentKnown(r0)) == None;
        return;
      }
      TallyOuter(s, a);
      ApplyConcat(r0, inner, OuterMarks(s, a), tags);
      assert Decompose(moji, prev, CurrentKnown(r0)) == Some(inner + OuterMarks(s, a));
    }

    /** The face part of the step: a whole-face glyph is tallied as eyes;
        otherwise `parseFace` runs against the previous and the current
        results, and a split with an empty eye or mouth rejects the moji before
        anything is tallied. */
    method TallyFace(face: string) returns (accepted: bool, ghost inner: seq<Mark>)
      requires Valid()
      modifies this
      ensures Valid() && tags == old(tags)
      ensures accepted == FaceMarks(face, prev, CurrentKnown(old(results))).Some?
      ensures accepted ==> inner == FaceMarks(face, prev, CurrentKnown(old(results))).value &&
                           results == Apply(old(results), inner, tags)
      ensures !accepted ==> results == old(results)
    {
      if IsSingleCharFace(face) {
        Tally(Eye, face);
        inner := [Mark(Eye, face)];
        assert inner[1..] == [];
        return true, inner;
      }
      var f := ParseFace(face, prev, CurrentKnown(results));
      if f.None? {
        return false, [];
      }
      var l := f.value;
      if l.left == [] || l.right == [] || l.centre == [] {
        return false, [];
      }
      ghost var r0 := results;
      Tally(Mouth, l.centre);
      Tally(Eye, Key(l.left, l.right));
      Tally(Inside, Key(l.outerLeft, l.outerRight));
      inner := [Mark(Mouth, l.centre), Mark(Eye, Key(l.left, l.right)), Mark(Inside, Key(l.outerLeft, l.outerRight))];
      ApplyThree(r0, inner, tags);
      return true, inner;
    }

    /** The arm, side and outside tallies that close an accepted moji. */
    method TallyOuter(s: Split5, a: Split5)
      requires Valid()
      modifies this
      ensures Valid() && tags == old(tags)
      ensures results == Apply(old(results), OuterMarks(s, a), tags)
    {
      ghost var r0 := results;
      Tally(Arm, Key(a.left, a.right));
      Tally(Side, Key(s.left, s.right));
      Tally(Outside, Key(a.outerLeft, a.outerRight));
      ApplyThree(r0, OuterMarks(s, a), tags);
    }

    /** `mojis.forEach(...)` */
    method Analyze(mojis: seq<string>)
      requires Valid()
      modifies this
      ensures Valid()
      ensures State(results, tags) == Run(old(State(results, tags)), mojis, prev)
    {
      var i := 0;
      while i < |mojis|
        invariant 0 <= i <= |mojis|
        invariant Valid()
        invariant State(results, tags) == Run(old(State(results, tags)), mojis[..i], prev)
      {
        Step(mojis[i]);
        assert mojis[..i + 1][..i] == mojis[..i];
        i := i + 1;
      }
      assert mojis[..i] == mojis;
    }

    /** The resolution pass, category by category and part by part: every
        part keeps its count and lists at most three tags. */
    method Resolve() returns (resolved: ResolvedResults)
      requires Valid()
      ensures resolved == ResolveAll(results)
      ensures forall c: Category :: c in resolved && resolved[c].Keys == results[c].Keys
      ensures forall c: Category, p :: p in results[c] ==>
        resolved[c][p].count == results[c][p].count && |resolved[c][p].tags| <= 3
    {
      resolved := map[];
      var k := 0;
      while k < |CATEGORIES|
        invariant 0 <= k <= |CATEGORIES|
        invariant forall c :: c in resolved <==> c in CATEGORIES[..k]
        invariant forall c :: c in resolved ==> resolved[c] == ResolveTable(results[c])
      {
        var c := CATEGORIES[k];
        var table := ResolveParts(results[c]);
        resolved := resolved[c := table];
        assert CATEGORIES[..k + 1] == CATEGORIES[..k] + [c];
        k := k + 1;
      }
      assert CATEGORIES[..k] == CATEGORIES;
      EveryCategoryListed();
      ResolvedTagsAtMostThree(results);
    }
  }

  /** `resultKeys` lists every category. */
  lemma EveryCategoryListed()
    ensures forall c: Category :: c in CATEGORIES
  {
    forall c: Category ensures c in CATEGORIES {
      match c
      case Outside => assert CATEGORIES[0] == c;
      case Arm => assert CATEGORIES[1] == c;
      case Side => assert CATEGORIES[2] == c;
      case Inside => assert CATEGORIES[3] == c;
      case Eye => assert CATEGORIES[4] == c;
      case Mouth => assert CATEGORIES[5] == c;
    }
  }

  /** `Object.keys(category).forEach(part => ...)`: each record in turn gets its
      tag list. */
  method ResolveParts(t: PartTable) returns (table: ResolvedTable)
    ensures table == ResolveTable(t)
  {
    table := map[];
    var todo := t.Keys;
    while todo != {}
      invariant todo <= t.Keys && table.Keys == t.Keys - todo
      invariant forall p :: p in table ==> table[p] == ResolveRecord(t[p])
      decreases todo
    {
      var part :| part in todo;
      table := table[part := ResolveRecord(t[part])];
      todo := todo - {part};
    }
  }

  /** Applying three marks is three tallies in a row. */
  lemma ApplyThree(results: Results, marks: seq<Mark>, ctx: Context)
    requires Complete(results) && |marks| == 3
    ensures Apply(results, marks, ctx) ==
      TallyMark(TallyMark(TallyMark(results, marks[0], ctx), marks[1], ctx), marks[2], ctx)
  {
    var r1 := TallyMark(results, marks[0], ctx);
    var r2 := TallyMark(r1, marks[1], ctx);
    ApplyFirst(results, marks, ctx);
    ApplyFirst(r1, marks[1..], ctx);
    ApplyFirst(r2, marks[2..], ctx);
    assert marks[1..][1..] == marks[2..] && marks[2..][1..] == [];
  }

  /** Applying marks starts with the first one. */
  lemma ApplyFirst(results: Results, marks: seq<Mark>, ctx: Context)
    requires Complete(results) && marks != []
    ensures Apply(results, marks, ctx) == Apply(TallyMark(results, marks[0], ctx), marks[1..], ctx)
  {
  }

  /** Applying two runs of marks one after the other is applying them at once. */
  lemma {:induction false} ApplyConcat(results: Results, first: seq<Mark>, second: seq<Mark>, ctx: Context)
    requires Complete(results)
    ensures Apply(results, first + second, ctx) == Apply(Apply(results, first, ctx), second, ctx)
    decreases |first|
  {
    if first == [] {
      assert first + second == second;
    } else {
      assert (first + second)[0] == first[0] && (first + second)[1..] == first[1..] + second;
      ApplyConcat(TallyMark(results, first[0], ctx), first[1..], second, ctx);
    }
  }
}
