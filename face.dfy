/** The face splitter (analyzer.js:146-258): find the mouth and the eyes of the
    characters left between the arms, by a cascade of heuristics. */
module Face {

  import opened Wrappers
  import opened JsString
  import opened Tables
  import opened Seqs

  /** What `parseFace` asks of a results dictionary: which mouth keys and which eye
      keys it holds. The analyzer passes one for the previous run's results and one
      for the results gathered so far. */
  datatype Known = Known(mouths: set<string>, eyes: set<string>)

  /** `prevResults.mouths[mouth] || results.mouths[mouth]` */
  predicate KnownMouth(mouth: string, prev: Known, cur: Known) {
    mouth in prev.mouths || mouth in cur.mouths
  }

  /** `prevResults.eyes[eyes] || results.eyes[eyes]` */
  predicate KnownEyes(eyes: string, prev: Known, cur: Known) {
    eyes in prev.eyes || eyes in cur.eyes
  }

  // ---------------------------------------------------------------------------
  // Mouth candidates (analyzer.js:147-200)
  // ---------------------------------------------------------------------------

  /** A `[mouth, index]` tuple of `maybeMouths`. */
  datatype Candidate = Candidate(mouth: string, index: nat)

  /** A candidate of the face: `len` units (one or two) starting at `i`. */
  function CandidateAt(face: string, i: nat, len: nat): (c: Candidate)
    requires 1 <= len <= 2 && i + len <= |face|
    ensures c.index == i && |c.mouth| == len && c.mouth == face[i..i + len]
  {
    Candidate(face[i..i + len], i)
  }

  /** `maybeMouths`: the two-unit strings straddling the middle and the single
      central units, each with the index where it starts. */
  function Candidates(face: string): (r: seq<Candidate>)
    requires |face| >= 3
    ensures |r| == if |face| % 2 == 0 then 3 else 5
    ensures forall k :: 0 <= k < |r| ==>
      |face| / 2 - 1 <= r[k].index <= |face| / 2 + 1 &&
      1 <= |r[k].mouth| <= 2 && r[k].index + |r[k].mouth| <= |face| &&
      r[k].mouth == face[r[k].index..r[k].index + |r[k].mouth|]
  {
    var mid := |face| / 2;
    if |face| % 2 == 0 then
      [CandidateAt(face, mid - 1, 2), CandidateAt(face, mid - 1, 1), CandidateAt(face, mid, 1)]
    else
      [CandidateAt(face, mid - 1, 2), CandidateAt(face, mid, 2),
       CandidateAt(face, mid - 1, 1), CandidateAt(face, mid, 1), CandidateAt(face, mid + 1, 1)]
  }

  /** The narrowing test: both neighbours of the candidate exist and form a known
      `L%R` eye key. */
  predicate EyesAround(face: string, c: Candidate, prev: Known, cur: Known) {
    c.index >= 1 && c.index + |c.mouth| < |face| &&
    KnownEyes(Key([face[c.index - 1]], [face[c.index + |c.mouth|]]), prev, cur)
  }

  /** The first filter: the candidates whose mouth is a known mouth key. */
  function KnownMouths(cs: seq<Candidate>, prev: Known, cur: Known): (r: seq<Candidate>)
    ensures |r| <= |cs|
    ensures forall c :: c in r <==> c in cs && KnownMouth(c.mouth, prev, cur)
    decreases |cs|
  {
    if cs == [] then []
    else if KnownMouth(cs[0].mouth, prev, cur) then [cs[0]] + KnownMouths(cs[1..], prev, cur)
    else KnownMouths(cs[1..], prev, cur)
  }

  /** The narrowing filter: the candidates with known eyes around them. */
  function WithKnownEyes(face: string, cs: seq<Candidate>, prev: Known, cur: Known): (r: seq<Candidate>)
    ensures |r| <= |cs|
    ensures forall c :: c in r <==> c in cs && EyesAround(face, c, prev, cur)
    decreases |cs|
  {
    if cs == [] then []
    else if EyesAround(face, cs[0], prev, cur) then [cs[0]] + WithKnownEyes(face, cs[1..], prev, cur)
    else WithKnownEyes(face, cs[1..], prev, cur)
  }

  /** `matchedMouths` once both filters have run: the narrowing applies only
      when more than one mouth matched. */
  function SurvivingMouths(face: string, prev: Known, cur: Known): seq<Candidate>
    requires |face| >= 3
  {
    var matched := KnownMouths(Candidates(face), prev, cur);
    if |matched| > 1 then WithKnownEyes(face, matched, prev, cur) else matched
  }

  /** Every surviving candidate is a known mouth standing in the middle of the
      face. */
  lemma SurvivorIsKnownMouth(face: string, prev: Known, cur: Known, c: Candidate)
    requires |face| >= 3 && c in SurvivingMouths(face, prev, cur)
    ensures c in Candidates(face) && KnownMouth(c.mouth, prev, cur)
    ensures c.index + |c.mouth| <= |face| && c.mouth == face[c.index..c.index + |c.mouth|]
  {
    var cs := Candidates(face);
    assert c in KnownMouths(cs, prev, cur);
    CandidateSlice(face, c);
  }

  /** A candidate is the slice of the face it names. */
  lemma CandidateSlice(face: string, c: Candidate)
    requires |face| >= 3 && c in Candidates(face)
    ensures c.index + |c.mouth| <= |face| && c.mouth == face[c.index..c.index + |c.mouth|]
  {
    var cs := Candidates(face);
    var k :| 0 <= k < |cs| && cs[k] == c;
  }

  /** When several mouths were known, exactly those with known eyes on both
      sides survive. */
  lemma NarrowingKeepsKnownEyes(face: string, prev: Known, cur: Known)
    requires |face| >= 3
    requires |KnownMouths(Candidates(face), prev, cur)| > 1
    ensures forall c :: c in SurvivingMouths(face, prev, cur) <==>
      c in Candidates(face) && KnownMouth(c.mouth, prev, cur) &&
      c.index >= 1 && c.index + |c.mouth| < |face| &&
      KnownEyes([face[c.index - 1]] + "%" + [face[c.index + |c.mouth|]], prev, cur)
  {
  }

  /** The split around a unique mouth: an eye that falls off the string is `''`,
      and `face.slice(0, mouthIndex - 1)` is kept as JavaScript evaluates it, so a
      mouth at index 0 takes `slice(0, -1)`. */
  function MouthSplit(face: string, c: Candidate): (r: Split5)
    requires c.index + |c.mouth| <= |face|
    ensures r.centre == c.mouth && |r.left| <= 1 && |r.right| <= 1
    ensures c.index >= 1 ==> r.left == [face[c.index - 1]]
    ensures c.index + |c.mouth| < |face| ==> r.right == [face[c.index + |c.mouth|]]
  {
    Split5(Slice(face, 0, c.index - 1),
           At(face, c.index - 1),
           c.mouth,
           At(face, c.index + |c.mouth|),
           SliceFrom(face, c.index + |c.mouth| + 1))
  }

  // ---------------------------------------------------------------------------
  // Symmetric groups (analyzer.js:204-219)
  // ---------------------------------------------------------------------------

  /** An element `{ chars, idxs }` of the grouping accumulator. */
  datatype Group = Group(chars: seq<char>, idxs: seq<nat>)

  /** `ci.chars[0] === char || MIRRORED_EYES[char] === ci.chars[0]` */
  predicate Joins(g: Group, c: char) {
    |g.chars| > 0 && (g.chars[0] == c || MirroredEyes(c) == Some(g.chars[0]))
  }

  /** The `findIndex` of the grouping step: the first group `c` joins, or -1. */
  function FindGroup(gs: seq<Group>, c: char): (k: int)
    ensures -1 <= k < |gs|
    ensures k >= 0 ==> Joins(gs[k], c)
    ensures forall j :: 0 <= j < |gs| && (k == -1 || j < k) ==> !Joins(gs[j], c)
    decreases |gs|
  {
    if gs == [] then -1
    else if Joins(gs[0], c) then 0
    else
      var k := FindGroup(gs[1..], c);
      if k == -1 then -1 else k + 1
  }

  /** One step of the grouping `reduce`: unit `c` at index `i` joins the first
      group it matches, however many members that group has already, or opens a
      new group. */
  function AddUnit(gs: seq<Group>, c: char, i: nat): seq<Group> {
    var k := FindGroup(gs, c);
    if k == -1 then gs + [Group([c], [i])]
    else gs[k := Group(gs[k].chars + [c], gs[k].idxs + [i])]
  }

  /** The grouping `reduce` over the units of `s`, as a function. */
  function GroupsOf(s: string): (gs: seq<Group>)
    ensures WellFormed(gs)
    decreases |s|
  {
    if s == [] then [] else AddUnit(GroupsOf(s[..|s| - 1]), s[|s| - 1], |s| - 1)
  }

  /** The imperative grouping loop: groups are opened or extended in place. */
  method BuildGroups(face: string) returns (groups: seq<Group>)
    ensures groups == GroupsOf(face)
  {
    groups := [];
    var index := 0;
    while index < |face|
      invariant 0 <= index <= |face|
      invariant groups == GroupsOf(face[..index])
    {
      var unit := face[index];
      var prevIndex := FindGroup(groups, unit);
      if prevIndex == -1 {
        groups := groups + [Group([unit], [index])];
      } else {
        var g := groups[prevIndex];
        groups := groups[prevIndex := Group(g.chars + [unit], g.idxs + [index])];
      }
      assert face[..index + 1][..index] == face[..index];
      index := index + 1;
    }
    assert face[..index] == face;
  }

  /** Every group has as many units as indices, and at least one. */
  ghost predicate WellFormed(gs: seq<Group>) {
    forall g :: 0 <= g < |gs| ==> |gs[g].chars| == |gs[g].idxs| >= 1
  }

  /** Each group records units of `s` together with their own indices. */
  ghost predicate RecordsUnits(s: string, gs: seq<Group>)
    requires WellFormed(gs)
  {
    forall g, k :: 0 <= g < |gs| && 0 <= k < |gs[g].idxs| ==>
      gs[g].idxs[k] < |s| && gs[g].chars[k] == s[gs[g].idxs[k]]
  }

  /** Indices increase within a group, and groups are ordered by their first
      index. */
  ghost predicate Ordered(gs: seq<Group>)
    requires WellFormed(gs)
  {
    (forall g, k, l :: 0 <= g < |gs| && 0 <= k < l < |gs[g].idxs| ==> gs[g].idxs[k] < gs[g].idxs[l]) &&
    (forall g, h :: 0 <= g < h < |gs| ==> gs[g].idxs[0] < gs[h].idxs[0])
  }

  /** Index `j` is member `k` of group `g`. */
  ghost predicate Holds(gs: seq<Group>, g: int, k: int, j: int) {
    0 <= g < |gs| && 0 <= k < |gs[g].idxs| && gs[g].idxs[k] == j
  }

  ghost predicate Covered(gs: seq<Group>, j: int) {
    exists g, k :: Holds(gs, g, k, j)
  }

  /** Every index of `s` is in some group, and no index is in two groups. */
  ghost predicate Partitions(s: string, gs: seq<Group>) {
    (forall j :: 0 <= j < |s| ==> Covered(gs, j)) &&
    (forall g, k, h, l :: 0 <= g < h < |gs| && 0 <= k < |gs[g].idxs| && 0 <= l < |gs[h].idxs| ==>
       gs[g].idxs[k] != gs[h].idxs[l])
  }

  /** Every later member of a group joins the group's first unit: it is that
      unit or its mirror image. */
  ghost predicate MembersJoin(s: string, gs: seq<Group>)
    requires WellFormed(gs) && RecordsUnits(s, gs)
  {
    forall g, k :: 0 <= g < |gs| && 1 <= k < |gs[g].idxs| ==> Joins(gs[g], s[gs[g].idxs[k]])
  }

  /** The first-match rule: no earlier group would have taken a group's unit. */
  ghost predicate FirstMatch(s: string, gs: seq<Group>)
    requires WellFormed(gs) && RecordsUnits(s, gs)
  {
    forall g, k, h :: 0 <= h < g < |gs| && 0 <= k < |gs[g].idxs| ==> !Joins(gs[h], s[gs[g].idxs[k]])
  }

  ghost predicate Grouping(s: string, gs: seq<Group>) {
    WellFormed(gs) && RecordsUnits(s, gs) && Ordered(gs) && Partitions(s, gs) &&
    MembersJoin(s, gs) && FirstMatch(s, gs)
  }

  lemma AddUnitRecords(s: string, gs: seq<Group>, c: char)
    requires WellFormed(gs) && RecordsUnits(s, gs)
    ensures WellFormed(AddUnit(gs, c, |s|)) && RecordsUnits(s + [c], AddUnit(gs, c, |s|))
  {
    var s', gs' := s + [c], AddUnit(gs, c, |s|);
    assert forall j :: 0 <= j < |s| ==> s'[j] == s[j];
    var k := FindGroup(gs, c);
    if k >= 0 {
      assert forall l :: 0 <= l < |gs[k].idxs| ==> gs'[k].idxs[l] == gs[k].idxs[l] && gs'[k].chars[l] == gs[k].chars[l];
    }
  }

  lemma AddUnitOrdered(s: string, gs: seq<Group>, c: char)
    requires WellFormed(gs) && RecordsUnits(s, gs) && Ordered(gs)
    ensures WellFormed(AddUnit(gs, c, |s|)) && Ordered(AddUnit(gs, c, |s|))
  {
    var k := FindGroup(gs, c);
    if k >= 0 {
      ExtendOrdered(s, gs, k, c);
    } else {
      OpenOrdered(s, gs, c);
    }
  }

  /** A unit appended to an existing group comes after all its members. */
  lemma ExtendOrdered(s: string, gs: seq<Group>, k: nat, c: char)
    requires k < |gs| && WellFormed(gs) && RecordsUnits(s, gs) && Ordered(gs)
    ensures var gs' := gs[k := Group(gs[k].chars + [c], gs[k].idxs + [|s|])];
      WellFormed(gs') && Ordered(gs')
  {
    var gs' := gs[k := Group(gs[k].chars + [c], gs[k].idxs + [|s|])];
    assert forall l :: 0 <= l < |gs[k].idxs| ==> gs'[k].idxs[l] == gs[k].idxs[l];
    assert gs'[k].idxs[|gs[k].idxs|] == |s|;
  }

  /** A new group opens after all the others. */
  lemma OpenOrdered(s: string, gs: seq<Group>, c: char)
    requires WellFormed(gs) && RecordsUnits(s, gs) && Ordered(gs)
    ensures var gs' := gs + [Group([c], [|s|])];
      WellFormed(gs') && Ordered(gs')
  {
    var gs' := gs + [Group([c], [|s|])];
    assert gs'[|gs|].idxs[0] == |s|;
    assert forall g :: 0 <= g < |gs| ==> gs'[g] == gs[g];
  }

  lemma AddUnitCovers(s: string, gs: seq<Group>, c: char)
    requires WellFormed(gs) && forall j :: 0 <= j < |s| ==> Covered(gs, j)
    ensures forall j :: 0 <= j < |s| + 1 ==> Covered(AddUnit(gs, c, |s|), j)
  {
    var gs' := AddUnit(gs, c, |s|);
    var k := FindGroup(gs, c);
    if k >= 0 {
      assert Holds(gs', k, |gs[k].idxs|, |s|);
    } else {
      assert Holds(gs', |gs|, 0, |s|);
    }
    forall j | 0 <= j < |s|
      ensures Covered(gs', j)
    {
      assert Covered(gs, j);
      var g, l :| Holds(gs, g, l, j);
      assert Holds(gs', g, l, j);
    }
  }

  lemma AddUnitDisjoint(s: string, gs: seq<Group>, c: char)
    requires WellFormed(gs) && RecordsUnits(s, gs) && Partitions(s, gs)
    ensures Partitions(s + [c], AddUnit(gs, c, |s|))
  {
    AddUnitCovers(s, gs, c);
    var gs' := AddUnit(gs, c, |s|);
    forall g, k, h, l | 0 <= g < h < |gs'| && 0 <= k < |gs'[g].idxs| && 0 <= l < |gs'[h].idxs|
      ensures gs'[g].idxs[k] != gs'[h].idxs[l]
    {
      var a, b := gs'[g].idxs[k], gs'[h].idxs[l];
      if a != |s| && b != |s| {
        assert h < |gs| && a == gs[g].idxs[k] && b == gs[h].idxs[l];
      }
    }
  }

  lemma AddUnitMembersJoin(s: string, gs: seq<Group>, c: char)
    requires WellFormed(gs) && RecordsUnits(s, gs) && MembersJoin(s, gs)
    ensures WellFormed(AddUnit(gs, c, |s|)) && RecordsUnits(s + [c], AddUnit(gs, c, |s|))
    ensures MembersJoin(s + [c], AddUnit(gs, c, |s|))
  {
    AddUnitRecords(s, gs, c);
    var s', gs' := s + [c], AddUnit(gs, c, |s|);
    var k := FindGroup(gs, c);
    if k >= 0 {
      forall g, l | 0 <= g < |gs'| && 1 <= l < |gs'[g].idxs|
        ensures Joins(gs'[g], s'[gs'[g].idxs[l]])
      {
        if g == k && l == |gs[k].idxs| {
          assert gs'[g].idxs[l] == |s| && s'[|s|] == c;
        } else {
          assert gs'[g].idxs[l] == gs[g].idxs[l] && gs'[g].chars[0] == gs[g].chars[0];
          assert s'[gs[g].idxs[l]] == s[gs[g].idxs[l]];
        }
      }
    } else {
      forall g, l | 0 <= g < |gs'| && 1 <= l < |gs'[g].idxs|
        ensures Joins(gs'[g], s'[gs'[g].idxs[l]])
      {
        assert g < |gs| && gs'[g] == gs[g];
        assert s'[gs[g].idxs[l]] == s[gs[g].idxs[l]];
      }
    }
  }

  lemma AddUnitFirstMatch(s: string, gs: seq<Group>, c: char)
    requires WellFormed(gs) && RecordsUnits(s, gs) && FirstMatch(s, gs)
    ensures WellFormed(AddUnit(gs, c, |s|)) && RecordsUnits(s + [c], AddUnit(gs, c, |s|))
    ensures FirstMatch(s + [c], AddUnit(gs, c, |s|))
  {
    AddUnitRecords(s, gs, c);
    var s', gs' := s + [c], AddUnit(gs, c, |s|);
    var k := FindGroup(gs, c);
    forall g, l, h | 0 <= h < g < |gs'| && 0 <= l < |gs'[g].idxs|
      ensures !Joins(gs'[h], s'[gs'[g].idxs[l]])
    {
      assert gs'[h].chars[0] == gs[h].chars[0];
      if gs'[g].idxs[l] == |s| {
        assert s'[|s|] == c;
      } else {
        assert g < |gs| && l < |gs[g].idxs| && gs'[g].idxs[l] == gs[g].idxs[l];
        assert s'[gs[g].idxs[l]] == s[gs[g].idxs[l]];
      }
    }
  }

  /** One grouping step keeps the description: the new unit is recorded once, in
      the first group it joins or in a new group. */
  lemma AddUnitGrouping(s: string, gs: seq<Group>, c: char)
    requires Grouping(s, gs)
    ensures Grouping(s + [c], AddUnit(gs, c, |s|))
  {
    AddUnitRecords(s, gs, c);
    AddUnitOrdered(s, gs, c);
    AddUnitDisjoint(s, gs, c);
    AddUnitMembersJoin(s, gs, c);
    AddUnitFirstMatch(s, gs, c);
  }

  /** The grouping `reduce` partitions the face's indices into groups, each
      group's units join its first unit, and each unit joins the first group
      that would take it. */
  lemma {:induction false} GroupsOfGrouping(s: string)
    ensures Grouping(s, GroupsOf(s))
    decreases |s|
  {
    if s != [] {
      var p := s[..|s| - 1];
      GroupsOfGrouping(p);
      AddUnitGrouping(p, GroupsOf(p), s[|s| - 1]);
      assert p + [s[|s| - 1]] == s;
    }
  }

  // ---------------------------------------------------------------------------
  // Pairs and the interspersed merge (analyzer.js:219-232)
  // ---------------------------------------------------------------------------

  /** A surviving two-member group: its two (possibly merged) eye strings and the
      indices of its two units. */
  datatype Pair = Pair(left: string, right: string, first: nat, second: nat)

  /** `.filter(indexes => indexes.idxs.length === 2)`, each survivor as a pair. */
  function TwoMemberPairs(gs: seq<Group>): (r: seq<Pair>)
    requires WellFormed(gs)
    ensures |r| <= |gs|
    decreases |gs|
  {
    if gs == [] then []
    else if |gs[0].idxs| == 2 then
      [Pair([gs[0].chars[0]], [gs[0].chars[1]], gs[0].idxs[0], gs[0].idxs[1])] + TwoMemberPairs(gs[1..])
    else TwoMemberPairs(gs[1..])
  }

  /** The pairs are exactly the groups of two members, as pairs. */
  lemma {:induction false} TwoMemberPairsExactly(gs: seq<Group>)
    requires WellFormed(gs)
    ensures forall p :: p in TwoMemberPairs(gs) <==>
      (exists g :: 0 <= g < |gs| && |gs[g].idxs| == 2 &&
         p == Pair([gs[g].chars[0]], [gs[g].chars[1]], gs[g].idxs[0], gs[g].idxs[1]))
    decreases |gs|
  {
    if gs != [] {
      TwoMemberPairsExactly(gs[1..]);
      assert forall g :: 1 <= g < |gs| ==> gs[1..][g - 1] == gs[g];
    }
  }


  /** `idxs[0] - next.idxs[0] === 1 && idxs[1] - next.idxs[1] === 1` */
  predicate Interspersed(p: Pair, next: Pair) {
    p.first - next.first == 1 && p.second - next.second == 1
  }

  /** `next.chars[0] += chars[0]; next.chars[1] += chars[1]` */
  function Absorb(next: Pair, p: Pair): Pair {
    next.(left := next.left + p.left, right := next.right + p.right)
  }

  /** The merging `reduce` as a function: a pair interspersed with the one after it
      is appended onto that one and not emitted; the grown pair then takes its
      turn. */
  function Merge(ps: seq<Pair>): (r: seq<Pair>)
    ensures |r| <= |ps| && (r == [] <==> ps == [])
    decreases |ps|
  {
    if ps == [] then []
    else if |ps| >= 2 && Interspersed(ps[0], ps[1]) then Merge([Absorb(ps[1], ps[0])] + ps[2..])
    else [ps[0]] + Merge(ps[1..])
  }

  /** The imperative merge: `finished` is pushed into and the next pair is grown
      in place. */
  method MergeInterspersed(ps: seq<Pair>) returns (finished: seq<Pair>)
    ensures finished == Merge(ps)
  {
    finished := [];
    var pairs := ps;
    var i := 0;
    while i < |pairs|
      invariant 0 <= i <= |pairs| == |ps|
      invariant finished + Merge(pairs[i..]) == Merge(ps)
    {
      if i + 1 < |pairs| && Interspersed(pairs[i], pairs[i + 1]) {
        var next := Absorb(pairs[i + 1], pairs[i]);
        assert Merge(pairs[i..]) == Merge([next] + pairs[i + 2..]);
        pairs := pairs[i + 1 := next];
        assert pairs[i + 1..] == [next] + pairs[i + 2..];
      } else {
        assert Merge(pairs[i..]) == [pairs[i]] + Merge(pairs[i + 1..]);
        finished := finished + [pairs[i]];
      }
      i := i + 1;
    }
  }

  /** Total number of eye units held by a list of pairs. */
  function Units(ps: seq<Pair>): nat
    decreases |ps|
  {
    if ps == [] then 0 else |ps[0].left| + |ps[0].right| + Units(ps[1..])
  }

  /** Merging emits at most as many pairs as it is given and at least one when it
      is given any; no eye unit is lost or invented; every emitted pair keeps the
      indices of a pair it was given. */
  lemma {:induction false} MergeFacts(ps: seq<Pair>)
    ensures |Merge(ps)| <= |ps|
    ensures |Merge(ps)| == 0 <==> |ps| == 0
    ensures Units(Merge(ps)) == Units(ps)
    ensures forall p :: p in Merge(ps) ==> exists q :: q in ps && q.first == p.first && q.second == p.second
    decreases |ps|
  {
    if ps == [] {
    } else if |ps| >= 2 && Interspersed(ps[0], ps[1]) {
      var rest := [Absorb(ps[1], ps[0])] + ps[2..];
      MergeFacts(rest);
      assert rest[1..] == ps[2..] && ps[1..][1..] == ps[2..];
      assert forall q :: q in rest ==> q == rest[0] || q in ps;
    } else {
      MergeFacts(ps[1..]);
      assert Merge(ps) == [ps[0]] + Merge(ps[1..]);
    }
  }

  // ---------------------------------------------------------------------------
  // The final split (analyzer.js:234-257)
  // ---------------------------------------------------------------------------

  /** `pairs.length > 1 && pairs[0].idxs[1] - pairs[0].idxs[0] === 1 ? pairs[1] : pairs[0]` */
  function EyePair(pairs: seq<Pair>): Pair
    requires |pairs| > 0
  {
    if |pairs| > 1 && pairs[0].second - pairs[0].first == 1 then pairs[1] else pairs[0]
  }

  /** The split around an eye pair. The right inside slice starts at
      `idxs[1] + chars.length`, and `chars.length` is the length of the two-element
      array, so it always skips two units after the right eye's first unit. */
  function PairSplit(face: string, eyes: Pair): Split5 {
    Split5(Slice(face, 0, eyes.first),
           eyes.left,
           Slice(face, eyes.first + |eyes.left|, eyes.second),
           eyes.right,
           SliceFrom(face, eyes.second + 2))
  }

  /** No pairs and an odd length: the central unit is the mouth. */
  function CentreSplit(face: string): Split5
    requires |face| >= 3
  {
    var mid := |face| / 2;
    Split5(face[..mid - 1], [face[mid - 1]], [face[mid]], [face[mid + 1]], face[mid + 2..])
  }

  /** The pairs the fallback works with: grouped, filtered to two members,
      reversed so the group opened last comes first, then merged. */
  function PairsOf(face: string): seq<Pair> {
    Merge(Reverse(TwoMemberPairs(GroupsOf(face))))
  }

  /** `parseFace` as a function of the face and the two dictionaries. */
  function FaceSplit(face: string, prev: Known, cur: Known): (r: Option<Split5>)
    ensures |face| < 3 ==> r == None
  {
    if |face| < 3 then None
    else
      var survivors := SurvivingMouths(face, prev, cur);
      if |survivors| == 1 then
        assert survivors[0] in survivors;
        Some(MouthSplit(face, survivors[0]))
      else
        var pairs := PairsOf(face);
        if |pairs| == 0 then
          if |face| % 2 == 0 then None else Some(CentreSplit(face))
        else Some(PairSplit(face, EyePair(pairs)))
  }

  /** `parseFace`, with the grouping and the merge done by their loops. */
  method ParseFace(face: string, prev: Known, cur: Known) returns (r: Option<Split5>)
    ensures r == FaceSplit(face, prev, cur)
  {
    if |face| < 3 {
      return None;
    }
    var matchedMouths := SurvivingMouths(face, prev, cur);
    if |matchedMouths| == 1 {
      assert matchedMouths[0] in matchedMouths;
      return Some(MouthSplit(face, matchedMouths[0]));
    }
    var groups := BuildGroups(face);
    GroupsOfGrouping(face);
    var pairs := MergeInterspersed(Reverse(TwoMemberPairs(groups)));
    if |pairs| == 0 {
      if |face| % 2 == 0 {
        return None;
      }
      return Some(CentreSplit(face));
    }
    r := Some(PairSplit(face, EyePair(pairs)));
  }

  // ---------------------------------------------------------------------------
  // What the cascade guarantees
  // ---------------------------------------------------------------------------

  /** Around a candidate at index 1 or more the five parts give the face back,
      with the candidate's neighbours (or `''` past the end) as eyes; at index 0
      the inside-left part is the whole face but its last unit. */
  lemma MouthSplitParts(face: string, c: Candidate)
    requires c.index + |c.mouth| <= |face| && c.mouth == face[c.index..c.index + |c.mouth|]
    ensures MouthSplit(face, c).centre == c.mouth
    ensures c.index >= 1 ==> MouthSplit(face, c).Concat() == face && MouthSplit(face, c).left == [face[c.index - 1]]
    ensures c.index == 0 && |face| > 0 ==> MouthSplit(face, c).outerLeft == face[..|face| - 1] && MouthSplit(face, c).left == []
  {
    if c.index >= 1 {
      var e := c.index + |c.mouth|;
      var s := MouthSplit(face, c);
      assert s.outerLeft == face[..c.index - 1] && s.left == [face[c.index - 1]];
      if e < |face| {
        MouthSplitInside(face, c);
      } else {
        assert s.right == [] && s.outerRight == [];
        assert face == face[..c.index - 1] + [face[c.index - 1]] + face[c.index..e];
      }
    }
  }

  /** A mouth with a unit on each side: the five parts give the face back. */
  lemma MouthSplitInside(face: string, c: Candidate)
    requires 1 <= c.index && c.index + |c.mouth| < |face| && c.mouth == face[c.index..c.index + |c.mouth|]
    ensures MouthSplit(face, c).Concat() == face
  {
    var e := c.index + |c.mouth|;
    var s := MouthSplit(face, c);
    assert s.outerLeft == face[..c.index - 1] && s.left == [face[c.index - 1]];
    assert s.right == [face[e]] && s.outerRight == face[e + 1..];
    AroundTwoUnits(face, c.index, e);
  }

  /** Cutting a string around the units at `i - 1` and `e` loses nothing. */
  lemma AroundTwoUnits(face: string, i: nat, e: nat)
    requires 1 <= i <= e < |face|
    ensures face[..i - 1] + [face[i - 1]] + face[i..e] + [face[e]] + face[e + 1..] == face
  {
    assert face[..i - 1] + [face[i - 1]] == face[..i];
    assert face[..i] + face[i..e] == face[..e];
    assert face[..e] + [face[e]] == face[..e + 1];
    assert face[..e + 1] + face[e + 1..] == face;
  }

  /** A unique surviving mouth is a known mouth and becomes the centre part; at
      index 1 or more the five parts give the face back. */
  lemma UniqueMouthSplit(face: string, prev: Known, cur: Known)
    requires |face| >= 3
    requires |SurvivingMouths(face, prev, cur)| == 1
    ensures var c := SurvivingMouths(face, prev, cur)[0];
      KnownMouth(c.mouth, prev, cur) && c in Candidates(face) &&
      FaceSplit(face, prev, cur) == Some(MouthSplit(face, c)) &&
      MouthSplit(face, c).centre == c.mouth &&
      (c.index >= 1 ==> MouthSplit(face, c).Concat() == face)
  {
    UniqueMouthParts(face, prev, cur);
  }

  lemma UniqueMouthParts(face: string, prev: Known, cur: Known)
    requires |face| >= 3
    requires |SurvivingMouths(face, prev, cur)| == 1
    ensures var c := SurvivingMouths(face, prev, cur)[0];
      KnownMouth(c.mouth, prev, cur) && c in Candidates(face) &&
      MouthSplit(face, c).centre == c.mouth &&
      (c.index >= 1 ==> MouthSplit(face, c).Concat() == face)
  {
    var c := SurvivingMouths(face, prev, cur)[0];
    SurvivorIsKnownMouth(face, prev, cur, c);
    MouthSplitParts(face, c);
  }

  /** The centre split keeps every unit, with the central unit as mouth and its
      neighbours as eyes. */
  lemma CentreSplitParts(face: string)
    requires |face| >= 3
    ensures var s := CentreSplit(face);
      s.Concat() == face && s.centre == [face[|face| / 2]] &&
      s.left == [face[|face| / 2 - 1]] && s.right == [face[|face| / 2 + 1]]
  {
    var mid := |face| / 2;
    assert face == face[..mid - 1] + [face[mid - 1]] + [face[mid]] + [face[mid + 1]] + face[mid + 2..];
  }

  lemma {:induction false} NoneOfTwo(gs: seq<Group>)
    requires WellFormed(gs) && forall g :: g in gs ==> |g.idxs| != 2
    ensures TwoMemberPairs(gs) == []
    decreases |gs|
  {
    if gs != [] {
      assert gs[0] in gs;
      assert forall g :: g in gs[1..] ==> g in gs;
      NoneOfTwo(gs[1..]);
    }
  }

  /** No group of exactly two members leaves no pairs at all. */
  lemma NoTwoMemberGroups(face: string)
    requires forall g :: g in GroupsOf(face) ==> |g.idxs| != 2
    ensures PairsOf(face) == []
  {
    var gs := GroupsOf(face);
    NoneOfTwo(gs);
    MergeFacts(Reverse(TwoMemberPairs(gs)));
  }

  /** When no mouth is settled and no group has exactly two members, an even face
      is rejected and an odd face splits around its central unit. */
  lemma NoPairsCentreSplit(face: string, prev: Known, cur: Known)
    requires |face| >= 3 && |SurvivingMouths(face, prev, cur)| != 1
    requires forall g :: g in GroupsOf(face) ==> |g.idxs| != 2
    ensures |face| % 2 == 0 ==> FaceSplit(face, prev, cur) == None
    ensures |face| % 2 == 1 ==> FaceSplit(face, prev, cur) == Some(CentreSplit(face))
  {
    NoTwoMemberGroups(face);
  }

  /** With two or more pairs whose first (innermost) pair has adjacent units,
      that pair is taken for the mouth and the second pair gives the eyes.
      This and the next lemma only name the two branches of the pair rule;
      what the pairs are is stated by `GroupsOfGrouping`,
      `TwoMemberPairsExactly`, `PairsAreMirrorImages` and `MergeFacts`. */
  lemma AdjacentInnerPairIsMouth(face: string, prev: Known, cur: Known)
    requires |face| >= 3 && |SurvivingMouths(face, prev, cur)| != 1
    requires |PairsOf(face)| >= 2 && PairsOf(face)[0].second == PairsOf(face)[0].first + 1
    ensures FaceSplit(face, prev, cur) == Some(PairSplit(face, PairsOf(face)[1]))
  {
  }

  /** Otherwise the first pair gives the eyes. */
  lemma InnerPairGivesEyes(face: string, prev: Known, cur: Known)
    requires |face| >= 3 && |SurvivingMouths(face, prev, cur)| != 1 && |PairsOf(face)| >= 1
    requires |PairsOf(face)| == 1 || PairsOf(face)[0].second != PairsOf(face)[0].first + 1
    ensures FaceSplit(face, prev, cur) == Some(PairSplit(face, PairsOf(face)[0]))
  {
  }

  /** Every pair the grouping produces is two units of the face, the right one
      equal to the left one or its mirror image, and no earlier group would have
      taken either unit. */
  lemma {:induction false} PairsAreMirrorImages(face: string)
    ensures forall p :: p in TwoMemberPairs(GroupsOf(face)) ==>
      p.first < p.second < |face| && p.left == [face[p.first]] && p.right == [face[p.second]] &&
      (face[p.second] == face[p.first] || MirroredEyes(face[p.second]) == Some(face[p.first]))
  {
    GroupsOfGrouping(face);
    var gs := GroupsOf(face);
    TwoMemberPairsExactly(gs);
    forall p | p in TwoMemberPairs(gs)
      ensures p.first < p.second < |face| && p.left == [face[p.first]] && p.right == [face[p.second]] &&
        (face[p.second] == face[p.first] || MirroredEyes(face[p.second]) == Some(face[p.first]))
    {
      var g :| 0 <= g < |gs| && |gs[g].idxs| == 2 &&
        p == Pair([gs[g].chars[0]], [gs[g].chars[1]], gs[g].idxs[0], gs[g].idxs[1]);
      assert Joins(gs[g], face[gs[g].idxs[1]]);
    }
  }

  /** The pair split gives back the face up to the right eye. Past it the slice
      starts two units after the right eye's first unit: a two-unit right eye
      fits exactly, and after a one-unit right eye the next unit is lost. */
  lemma PairSplitParts(face: string, e: Pair)
    requires e.first + |e.left| <= e.second && e.second + 2 <= |face|
    requires e.left == face[e.first..e.first + |e.left|]
    ensures |e.right| == 2 && e.right == face[e.second..e.second + 2] ==> PairSplit(face, e).Concat() == face
    ensures e.right == [face[e.second]] ==>
      PairSplit(face, e).Concat() == face[..e.second + 1] + face[e.second + 2..]
  {
    PairSplitUpToRight(face, e);
    if |e.right| == 2 && e.right == face[e.second..e.second + 2] {
      assert face == face[..e.second] + face[e.second..e.second + 2] + face[e.second + 2..];
    }
  }

  lemma PairSplitUpToRight(face: string, e: Pair)
    requires e.first + |e.left| <= e.second && e.second + 2 <= |face|
    requires e.left == face[e.first..e.first + |e.left|]
    ensures var s := PairSplit(face, e);
      s.outerLeft + s.left + s.centre == face[..e.second] && s.outerRight == face[e.second + 2..]
  {
    var m := e.first + |e.left|;
    assert face[..e.second] == face[..e.first] + e.left + face[m..e.second];
  }

  /** No known mouths or eyes. */
  const NOTHING_KNOWN := Known({}, {})

  /** Two different units neither of which has a mirror image, so neither
      joins a group the other opened. */
  predicate Distinct(c: char, d: char) {
    c != d && MirroredEyes(c) == None && MirroredEyes(d) == None
  }

  /** With nothing known no candidate mouth survives. */
  lemma {:induction false} NothingKnownNoMouths(cs: seq<Candidate>)
    ensures KnownMouths(cs, NOTHING_KNOWN, NOTHING_KNOWN) == []
    decreases |cs|
  {
    if cs != [] {
      NothingKnownNoMouths(cs[1..]);
    }
  }

  lemma GroupsOfSnoc(s: string, c: char)
    ensures GroupsOf(s + [c]) == AddUnit(GroupsOf(s), c, |s|)
  {
    assert (s + [c])[..|s|] == s;
  }

  lemma {:induction false} CryingFaceGroups(t: char, m: char)
    requires Distinct(m, t)
    ensures GroupsOf([t, m, t]) == [Group([t, t], [0, 2]), Group([m], [1])]
  {
    TwoSingles(t, m);
    GroupsOfSnoc([t, m], t);
    assert [t, m] + [t] == [t, m, t];
    var g2 := GroupsOf([t, m]);
    assert Joins(g2[0], t);
    assert FindGroup(g2, t) == 0;
    assert [t] + [t] == [t, t] && [0] + [2] == [0, 2];
  }

  lemma {:induction false} CryingFacePairs(t: char, m: char)
    requires Distinct(m, t)
    ensures PairsOf([t, m, t]) == [Pair([t], [t], 0, 2)]
  {
    CryingFaceGroups(t, m);
    var gs := GroupsOf([t, m, t]);
    var p := Pair([t], [t], 0, 2);
    assert TwoMemberPairs(gs[1..]) == [];
    assert TwoMemberPairs(gs) == [p];
    assert Reverse([p]) == [p];
    assert [p][1..] == [];
    assert Merge([p]) == [p];
  }

  /** `T_T` and every face shaped like it: with nothing known, the outer units
      are the eyes and the middle one the mouth. */
  lemma {:induction false} CryingFace(t: char, m: char)
    requires Distinct(m, t)
    ensures FaceSplit([t, m, t], NOTHING_KNOWN, NOTHING_KNOWN) == Some(Split5("", [t], [m], [t], ""))
  {
    var face := [t, m, t];
    NothingKnownNoMouths(Candidates(face));
    CryingFacePairs(t, m);
    CryingFaceSplit(t, m);
  }

  lemma CryingFaceSplit(t: char, m: char)
    ensures PairSplit([t, m, t], Pair([t], [t], 0, 2)) == Split5("", [t], [m], [t], "")
  {
    var face := [t, m, t];
    assert face[1..2] == [m];
  }

  lemma CryingFaceExample()
    ensures FaceSplit("T_T", NOTHING_KNOWN, NOTHING_KNOWN) == Some(Split5("", "T", "_", "T", ""))
  {
    CryingFace('T', '_');
  }

  lemma OneGroup(a: char)
    ensures GroupsOf([a]) == [Group([a], [0])]
  {
    GroupsOfSnoc([], a);
  }

  /** Two units neither of which joins the other open two groups. */
  lemma {:induction false} TwoSingles(a: char, b: char)
    requires Distinct(b, a)
    ensures GroupsOf([a, b]) == [Group([a], [0]), Group([b], [1])]
  {
    OneGroup(a);
    GroupsOfSnoc([a], b);
    assert [a] + [b] == [a, b];
  }

  /** Three units none of which joins another open three groups. */
  lemma {:induction false} ThreeSingles(a: char, b: char, c: char)
    requires Distinct(b, a) && Distinct(c, a) && Distinct(c, b)
    ensures GroupsOf([a, b, c]) == [Group([a], [0]), Group([b], [1]), Group([c], [2])]
  {
    TwoSingles(a, b);
    GroupsOfSnoc([a, b], c);
    assert [a, b] + [c] == [a, b, c];
    var g2 := GroupsOf([a, b]);
    assert !Joins(g2[0], c) && !Joins(g2[1], c);
    assert FindGroup(g2, c) == -1;
  }

  lemma {:induction false} SkipFaceGroupsFour(a: char, t: char, x: char)
    requires Distinct(t, a) && Distinct(x, a) && Distinct(x, t)
    ensures GroupsOf([a, t, x, t]) == [Group([a], [0]), Group([t, t], [1, 3]), Group([x], [2])]
  {
    ThreeSingles(a, t, x);
    GroupsOfSnoc([a, t, x], t);
    assert [a, t, x] + [t] == [a, t, x, t];
    var g3 := GroupsOf([a, t, x]);
    assert !Joins(g3[0], t) && Joins(g3[1], t);
    assert FindGroup(g3, t) == 1;
    assert [t] + [t] == [t, t] && [1] + [3] == [1, 3];
  }

  lemma {:induction false} SkipFaceGroups(a: char, t: char, x: char, b: char)
    requires Distinct(t, a) && Distinct(x, a) && Distinct(x, t)
    requires Distinct(b, a) && Distinct(b, t) && Distinct(b, x)
    ensures GroupsOf([a, t, x, t, b]) == [Group([a], [0]), Group([t, t], [1, 3]), Group([x], [2]), Group([b], [4])]
  {
    SkipFaceGroupsFour(a, t, x);
    GroupsOfSnoc([a, t, x, t], b);
    assert [a, t, x, t] + [b] == [a, t, x, t, b];
    var g4 := GroupsOf([a, t, x, t]);
    assert !Joins(g4[0], b) && !Joins(g4[1], b) && !Joins(g4[2], b);
    assert FindGroup(g4, b) == -1;
  }

  lemma {:induction false} SkipFacePairs(a: char, t: char, x: char, b: char)
    requires Distinct(t, a) && Distinct(x, a) && Distinct(x, t)
    requires Distinct(b, a) && Distinct(b, t) && Distinct(b, x)
    ensures PairsOf([a, t, x, t, b]) == [Pair([t], [t], 1, 3)]
  {
    SkipFaceGroups(a, t, x, b);
    var gs := GroupsOf([a, t, x, t, b]);
    var p := Pair([t], [t], 1, 3);
    assert TwoMemberPairs(gs[1..][1..][1..]) == [];
    assert TwoMemberPairs(gs[1..][1..]) == [];
    assert TwoMemberPairs(gs[1..]) == [p];
    assert TwoMemberPairs(gs) == [p];
    assert Reverse([p]) == [p];
    assert [p][1..] == [];
    assert Merge([p]) == [p];
  }

  /** `aTxTb` and every face shaped like it: the right-inside slice starts two
      units past the right eye, so the last unit is lost and the inside-right
      part is empty. */
  lemma {:induction false} RightInsideSkipsUnit(a: char, t: char, x: char, b: char)
    requires Distinct(t, a) && Distinct(x, a) && Distinct(x, t)
    requires Distinct(b, a) && Distinct(b, t) && Distinct(b, x)
    ensures FaceSplit([a, t, x, t, b], NOTHING_KNOWN, NOTHING_KNOWN) == Some(Split5([a], [t], [x], [t], ""))
  {
    var face := [a, t, x, t, b];
    NothingKnownNoMouths(Candidates(face));
    SkipFacePairs(a, t, x, b);
    SkipFaceSplit(a, t, x, b);
  }

  lemma SkipFaceSplit(a: char, t: char, x: char, b: char)
    ensures PairSplit([a, t, x, t, b], Pair([t], [t], 1, 3)) == Split5([a], [t], [x], [t], "")
  {
    var face := [a, t, x, t, b];
    assert face[..1] == [a] && face[2..3] == [x] && face[5..] == [];
  }

  lemma RightInsideSkipsUnitExample()
    ensures FaceSplit("aTxTb", NOTHING_KNOWN, NOTHING_KNOWN) == Some(Split5("a", "T", "x", "T", ""))
  {
    RightInsideSkipsUnit('a', 'T', 'x', 'b');
  }

  lemma {:induction false} MergeFaceGroupsFour(a: char, b: char, m: char)
    requires Distinct(b, a) && Distinct(m, a) && Distinct(m, b)
    ensures GroupsOf([a, b, m, a]) == [Group([a, a], [0, 3]), Group([b], [1]), Group([m], [2])]
  {
    ThreeSingles(a, b, m);
    GroupsOfSnoc([a, b, m], a);
    assert [a, b, m] + [a] == [a, b, m, a];
    var g3 := GroupsOf([a, b, m]);
    assert Joins(g3[0], a);
    assert FindGroup(g3, a) == 0;
    assert [a] + [a] == [a, a] && [0] + [3] == [0, 3];
  }

  lemma {:induction false} MergeFaceGroups(a: char, b: char, m: char)
    requires Distinct(b, a) && Distinct(m, a) && Distinct(m, b)
    ensures GroupsOf([a, b, m, a, b]) == [Group([a, a], [0, 3]), Group([b, b], [1, 4]), Group([m], [2])]
  {
    MergeFaceGroupsFour(a, b, m);
    GroupsOfSnoc([a, b, m, a], b);
    assert [a, b, m, a] + [b] == [a, b, m, a, b];
    var g4 := GroupsOf([a, b, m, a]);
    assert !Joins(g4[0], b) && Joins(g4[1], b);
    assert FindGroup(g4, b) == 1;
    assert [b] + [b] == [b, b] && [1] + [4] == [1, 4];
  }

  lemma {:induction false} MergeFaceTwoMembers(a: char, b: char, m: char)
    requires Distinct(b, a) && Distinct(m, a) && Distinct(m, b)
    ensures TwoMemberPairs(GroupsOf([a, b, m, a, b])) == [Pair([a], [a], 0, 3), Pair([b], [b], 1, 4)]
  {
    MergeFaceGroups(a, b, m);
    var gs := GroupsOf([a, b, m, a, b]);
    assert TwoMemberPairs(gs[1..][1..]) == [];
    assert TwoMemberPairs(gs[1..]) == [Pair([b], [b], 1, 4)];
  }

  lemma {:induction false} MergeFacePairs(a: char, b: char, m: char)
    requires Distinct(b, a) && Distinct(m, a) && Distinct(m, b)
    ensures PairsOf([a, b, m, a, b]) == [Pair([a, b], [a, b], 0, 3)]
  {
    MergeFaceTwoMembers(a, b, m);
    var pa, pb := Pair([a], [a], 0, 3), Pair([b], [b], 1, 4);
    assert Reverse([pa, pb]) == [pb, pa] by {
      assert [pa, pb][1..] == [pb];
      assert Reverse([pb]) == [pb];
    }
    var merged := Absorb(pa, pb);
    assert merged == Pair([a, b], [a, b], 0, 3);
    assert [pb, pa][2..] == [];
    assert Merge([pb, pa]) == Merge([merged]);
    assert [merged][1..] == [];
  }

  /** `ab_ab` and every face shaped like it: the pairs of `b`s and of `a`s are
      interspersed, so they merge into two-unit eyes around the mouth, and the
      five parts give the face back. */
  lemma {:induction false} InterspersedEyes(a: char, b: char, m: char)
    requires Distinct(b, a) && Distinct(m, a) && Distinct(m, b)
    ensures FaceSplit([a, b, m, a, b], NOTHING_KNOWN, NOTHING_KNOWN) == Some(Split5("", [a, b], [m], [a, b], ""))
  {
    var face := [a, b, m, a, b];
    NothingKnownNoMouths(Candidates(face));
    MergeFacePairs(a, b, m);
    InterspersedSplit(a, b, m);
  }

  lemma InterspersedSplit(a: char, b: char, m: char)
    ensures PairSplit([a, b, m, a, b], Pair([a, b], [a, b], 0, 3)) == Split5("", [a, b], [m], [a, b], "")
  {
    var face := [a, b, m, a, b];
    assert face[2..3] == [m] && face[5..] == [];
  }

  lemma InterspersedEyesExample()
    ensures FaceSplit("ab_ab", NOTHING_KNOWN, NOTHING_KNOWN) == Some(Split5("", "ab", "_", "ab", ""))
  {
    InterspersedEyes('a', 'b', '_');
  }

  lemma {:induction false} TripleFaceGroups(t: char, x: char, y: char)
    requires Distinct(x, t) && Distinct(y, t) && Distinct(y, x)
    ensures GroupsOf([t, x, t, y]) == [Group([t, t], [0, 2]), Group([x], [1]), Group([y], [3])]
  {
    var face := [t, x, t, y];
    CryingFaceGroups(t, x);
    assert face[..3] == [t, x, t];
    GroupsOfSnoc(face[..3], y);
    assert face[..3] + [y] == face;
    var g3 := GroupsOf(face[..3]);
    assert !Joins(g3[0], y) && !Joins(g3[1], y);
    assert FindGroup(g3, y) == -1;
    assert GroupsOf(face) == g3 + [Group([y], [3])];
  }

  lemma {:induction false} TripleFaceGroupsLast(t: char, x: char, y: char)
    requires Distinct(x, t) && Distinct(y, t) && Distinct(y, x)
    ensures GroupsOf([t, x, t, y, t]) == [Group([t, t, t], [0, 2, 4]), Group([x], [1]), Group([y], [3])]
  {
    var face := [t, x, t, y, t];
    TripleFaceGroups(t, x, y);
    assert face[..4] == [t, x, t, y];
    GroupsOfSnoc(face[..4], t);
    assert face[..4] + [t] == face;
    assert FindGroup(GroupsOf(face[..4]), t) == 0;
    assert [t, t] + [t] == [t, t, t] && [0, 2] + [4] == [0, 2, 4];
  }

  /** `TxTyT` and every face shaped like it: the third `T` joins the open
      two-member group, which the filter then discards, so with no pairs left
      the odd face splits around its central unit. */
  lemma {:induction false} ThirdMemberDiscards(t: char, x: char, y: char)
    requires Distinct(x, t) && Distinct(y, t) && Distinct(y, x)
    ensures FaceSplit([t, x, t, y, t], NOTHING_KNOWN, NOTHING_KNOWN) == Some(Split5([t], [x], [t], [y], [t]))
  {
    var face := [t, x, t, y, t];
    NothingKnownNoMouths(Candidates(face));
    TripleFaceGroupsLast(t, x, y);
    NoPairsCentreSplit(face, NOTHING_KNOWN, NOTHING_KNOWN);
    ThirdMemberCentre(t, x, y);
  }

  lemma ThirdMemberCentre(t: char, x: char, y: char)
    ensures CentreSplit([t, x, t, y, t]) == Split5([t], [x], [t], [y], [t])
  {
    var face := [t, x, t, y, t];
    assert face[..1] == [t] && face[4..] == [t];
  }
}
