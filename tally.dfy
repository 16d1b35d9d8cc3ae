/** The per-part records the analyzer keeps (analyzer.js:261-277) and the pass
    that turns their vote tables into tag lists (analyzer.js:327-349). */
module Tally {

  import opened Wrappers
  import opened Tables

  /** One `tag: votes` property of a vote table. */
  datatype Entry = Entry(tag: string, votes: nat)

  /** A vote table, as its properties in insertion order: the order in which
      `Object.keys` lists the tags and so the order the resolution scans them. */
  type VoteTable = seq<Entry>

  /** The tag context the directive lines set; `''` is a tag that is not set. */
  datatype Context = Context(emotion: string, animal: string, other: string)

  /** The `tags` of a part record while the moji are read: three vote tables. */
  datatype Votes = Votes(emotion: VoteTable, animal: VoteTable, other: VoteTable)

  /** `{ count, tags }` while the moji are read. */
  datatype PartRecord = PartRecord(count: nat, tags: Votes)

  /** One category of `results`: part key to record. */
  type PartTable = map<string, PartRecord>

  /** `{ count, tags }` once resolved: the vote tables have been replaced by
      the list of tags they support. */
  datatype Resolved = Resolved(count: nat, tags: seq<string>)

  /** One category of the resolved `results`. */
  type ResolvedTable = map<string, Resolved>

  // ---------------------------------------------------------------------------
  // Vote tables
  // ---------------------------------------------------------------------------

  function TagsOf(t: VoteTable): (r: seq<string>)
    ensures |r| == |t| && forall i :: 0 <= i < |t| ==> r[i] == t[i].tag
    decreases |t|
  {
    if t == [] then [] else [t[0].tag] + TagsOf(t[1..])
  }

  /** No tag is listed twice: the table is an object. */
  predicate DistinctTags(t: VoteTable) {
    forall i, j :: 0 <= i < j < |t| ==> t[i].tag != t[j].tag
  }

  /** `tagType[tag]`, where a missing property counts as no votes. */
  function VotesFor(t: VoteTable, tag: string): (n: nat)
    ensures tag !in TagsOf(t) ==> n == 0
    decreases |t|
  {
    if t == [] then 0
    else if t[0].tag == tag then t[0].votes
    else VotesFor(t[1..], tag)
  }

  /** The sum of the votes, `catKeys.reduce((t, c) => t + category[c], 0)`. */
  function Total(t: VoteTable): nat
    decreases |t|
  {
    if t == [] then 0 else t[0].votes + Total(t[1..])
  }

  /** `tagType[tag] = tagType[tag] + 1 || 1`: one more vote for `tag`, added as a
      new last property when the table does not have it yet. */
  function Vote(t: VoteTable, tag: string): VoteTable
    decreases |t|
  {
    if t == [] then [Entry(tag, 1)]
    else if t[0].tag == tag then [Entry(tag, t[0].votes + 1)] + t[1..]
    else [t[0]] + Vote(t[1..], tag)
  }

  /** A vote adds one to the total, and appends its tag to the table's tags
      exactly when the table does not list it yet. */
  lemma {:induction false} VoteTotalAndTags(t: VoteTable, tag: string)
    ensures Total(Vote(t, tag)) == Total(t) + 1
    ensures TagsOf(Vote(t, tag)) == if tag in TagsOf(t) then TagsOf(t) else TagsOf(t) + [tag]
    decreases |t|
  {
    var r := Vote(t, tag);
    if t == [] {
    } else if t[0].tag == tag {
      assert r[1..] == t[1..] && TagsOf(t)[0] == tag;
    } else {
      var rest := Vote(t[1..], tag);
      VoteTotalAndTags(t[1..], tag);
      assert r[1..] == rest;
      assert TagsOf(t) == [t[0].tag] + TagsOf(t[1..]);
      assert TagsOf(r) == [t[0].tag] + TagsOf(rest);
    }
  }

  /** A vote for `tag` adds one to its count. */
  lemma {:induction false} VoteAddsOne(t: VoteTable, tag: string)
    ensures VotesFor(Vote(t, tag), tag) == VotesFor(t, tag) + 1
    decreases |t|
  {
    if t != [] && t[0].tag != tag {
      VoteAddsOne(t[1..], tag);
      assert ([t[0]] + Vote(t[1..], tag))[1..] == Vote(t[1..], tag);
    }
  }

  /** A vote for `tag` leaves every other tag's count unchanged. */
  lemma {:induction false} VoteKeepsOthers(t: VoteTable, tag: string, other: string)
    requires other != tag
    ensures VotesFor(Vote(t, tag), other) == VotesFor(t, other)
    decreases |t|
  {
    if t != [] {
      if t[0].tag != tag {
        VoteKeepsOthers(t[1..], tag, other);
        assert ([t[0]] + Vote(t[1..], tag))[1..] == Vote(t[1..], tag);
      } else {
        assert ([Entry(tag, t[0].votes + 1)] + t[1..])[1..] == t[1..];
      }
    }
  }

  /** A vote never lists a tag twice. */
  lemma VoteKeepsDistinct(t: VoteTable, tag: string)
    requires DistinctTags(t)
    ensures DistinctTags(Vote(t, tag))
  {
    var r := Vote(t, tag);
    VoteTotalAndTags(t, tag);
    forall i, j | 0 <= i < j < |r|
      ensures r[i].tag != r[j].tag
    {
      assert TagsOf(r)[i] == r[i].tag && TagsOf(r)[j] == r[j].tag;
      if tag in TagsOf(t) {
        assert TagsOf(t)[i] == t[i].tag && TagsOf(t)[j] == t[j].tag;
      } else if j < |t| {
        assert TagsOf(t)[i] == t[i].tag && TagsOf(t)[j] == t[j].tag;
      } else {
        assert TagsOf(t)[i] == t[i].tag;
        assert t[i].tag in TagsOf(t);
      }
    }
  }

  /** In a table without repeated tags, an entry's votes are its tag's count. */
  lemma {:induction false} VotesForAt(t: VoteTable, i: nat)
    requires DistinctTags(t) && i < |t|
    ensures VotesFor(t, t[i].tag) == t[i].votes
    decreases |t|
  {
    if i > 0 {
      assert t[0].tag != t[i].tag;
      VotesForAt(t[1..], i - 1);
    }
  }

  /** An entry's votes are part of the total. */
  lemma {:induction false} EntryBelowTotal(t: VoteTable, i: nat)
    requires i < |t|
    ensures t[i].votes <= Total(t)
    decreases |t|
  {
    if i > 0 {
      EntryBelowTotal(t[1..], i - 1);
    }
  }

  /** Two different entries together hold no more than the total. */
  lemma {:induction false} TwoEntriesBelowTotal(t: VoteTable, i: nat, j: nat)
    requires i < j < |t|
    ensures t[i].votes + t[j].votes <= Total(t)
    decreases |t|
  {
    if i == 0 {
      EntryBelowTotal(t[1..], j - 1);
    } else {
      TwoEntriesBelowTotal(t[1..], i - 1, j - 1);
    }
  }

  // ---------------------------------------------------------------------------
  // tally (analyzer.js:261-277)
  // ---------------------------------------------------------------------------

  /** `tagKeys.forEach(...)`: a vote for each context field that is set. */
  function AddVotes(v: Votes, ctx: Context): Votes {
    Votes(if ctx.emotion == "" then v.emotion else Vote(v.emotion, ctx.emotion),
          if ctx.animal == "" then v.animal else Vote(v.animal, ctx.animal),
          if ctx.other == "" then v.other else Vote(v.other, ctx.other))
  }

  /** A record while the moji are read: vote tables without repeated tags, none
      holding more votes than the part has occurrences. */
  predicate Sane(r: PartRecord) {
    DistinctTags(r.tags.emotion) && DistinctTags(r.tags.animal) && DistinctTags(r.tags.other) &&
    Total(r.tags.emotion) <= r.count && Total(r.tags.animal) <= r.count && Total(r.tags.other) <= r.count
  }

  /** `tally(category, part)`: a new part starts at count 1 with empty vote
      tables, a known part counts once more; then each set context field adds
      one vote. */
  function TallyPart(table: PartTable, part: string, ctx: Context): (r: PartTable)
    ensures r.Keys == table.Keys + {part}
    ensures forall p :: p in table && p != part ==> r[p] == table[p]
    ensures r[part].count == (if part in table then table[part].count else 0) + 1
  {
    var base := if part in table then table[part] else PartRecord(0, Votes([], [], []));
    table[part := PartRecord(base.count + 1, AddVotes(base.tags, ctx))]
  }

  /** A vote on a sane table keeps it sane one occurrence later. */
  lemma VoteOnSane(t: VoteTable, tag: string, count: nat)
    requires DistinctTags(t) && Total(t) <= count
    ensures DistinctTags(Vote(t, tag)) && Total(Vote(t, tag)) == Total(t) + 1 && Total(Vote(t, tag)) <= count + 1
    ensures VotesFor(Vote(t, tag), tag) == VotesFor(t, tag) + 1
  {
    VoteKeepsDistinct(t, tag);
    VoteTotalAndTags(t, tag);
    VoteAddsOne(t, tag);
  }

  /** The votes of one tally: each vote table gains exactly one vote, for the
      context's tag, when that field is set, and the record stays sane. */
  lemma AddVotesCounts(v: Votes, ctx: Context, count: nat)
    requires Sane(PartRecord(count, v))
    ensures var after := AddVotes(v, ctx);
      Sane(PartRecord(count + 1, after)) &&
      Total(after.emotion) == Total(v.emotion) + (if ctx.emotion == "" then 0 else 1) &&
      Total(after.animal) == Total(v.animal) + (if ctx.animal == "" then 0 else 1) &&
      Total(after.other) == Total(v.other) + (if ctx.other == "" then 0 else 1) &&
      (ctx.emotion != "" ==> VotesFor(after.emotion, ctx.emotion) == VotesFor(v.emotion, ctx.emotion) + 1) &&
      (ctx.animal != "" ==> VotesFor(after.animal, ctx.animal) == VotesFor(v.animal, ctx.animal) + 1) &&
      (ctx.other != "" ==> VotesFor(after.other, ctx.other) == VotesFor(v.other, ctx.other) + 1)
  {
    VoteOnSane(v.emotion, ctx.emotion, count);
    VoteOnSane(v.animal, ctx.animal, count);
    VoteOnSane(v.other, ctx.other, count);
  }

  /** Tallying keeps every record of the category sane. */
  lemma TallyKeepsSane(table: PartTable, part: string, ctx: Context)
    requires forall p :: p in table ==> Sane(table[p])
    ensures var r := TallyPart(table, part, ctx);
      forall p :: p in r ==> Sane(r[p])
  {
    var base := if part in table then table[part] else PartRecord(0, Votes([], [], []));
    AddVotesCounts(base.tags, ctx, base.count);
  }

  // ---------------------------------------------------------------------------
  // Resolution (analyzer.js:327-349)
  // ---------------------------------------------------------------------------

  /** The accumulator `[count, largest]` of the largest-tag scan. */
  datatype Kept = Kept(votes: nat, tag: Option<string>)

  /** The scan itself: an entry replaces the kept one only with strictly more
      votes, so the first of several equal maxima wins. */
  function LargestFrom(t: VoteTable, kept: Kept): (r: Kept)
    ensures r.votes >= kept.votes
    ensures forall i :: 0 <= i < |t| ==> t[i].votes <= r.votes
    ensures r == kept || exists i :: 0 <= i < |t| && r == Kept(t[i].votes, Some(t[i].tag))
    decreases |t|
  {
    if t == [] then kept
    else LargestFrom(t[1..], if t[0].votes <= kept.votes then kept else Kept(t[0].votes, Some(t[0].tag)))
  }

  function Largest(t: VoteTable): Kept {
    LargestFrom(t, Kept(0, None))
  }

  /** The tag an emotion or animal table resolves to: the largest one, kept
      only when its share of the votes exceeds 60%. */
  function SlotTag(t: VoteTable): Option<string> {
    var k := Largest(t);
    if ExceedsShare(k.votes, Total(t)) then k.tag else None
  }

  /** A tag that takes more than 60% of a table's votes has more votes than any
      other tag. */
  lemma MajorityBeatsOthers(t: VoteTable, i: nat, j: nat)
    requires i < |t| && j < |t| && i != j
    requires ExceedsShare(t[i].votes, Total(t))
    ensures t[j].votes < t[i].votes
  {
    if i < j { TwoEntriesBelowTotal(t, i, j); } else { TwoEntriesBelowTotal(t, j, i); }
  }

  /** The scan ends on the entry that beats every other entry. */
  lemma {:induction false} LargestFindsLeader(t: VoteTable, i: nat, kept: Kept)
    requires i < |t| && kept.votes < t[i].votes
    requires forall j :: 0 <= j < |t| && j != i ==> t[j].votes < t[i].votes
    ensures LargestFrom(t, kept) == Kept(t[i].votes, Some(t[i].tag))
    decreases |t|
  {
    var next := if t[0].votes <= kept.votes then kept else Kept(t[0].votes, Some(t[0].tag));
    if i == 0 {
      var r := LargestFrom(t[1..], next);
      assert forall j :: 0 <= j < |t[1..]| ==> t[1..][j] == t[j + 1];
      assert r == next;
    } else {
      assert forall j :: 0 <= j < |t[1..]| ==> t[1..][j] == t[j + 1];
      LargestFindsLeader(t[1..], i - 1, next);
    }
  }

  /** An emotion or animal table resolves to a tag exactly when that tag holds
      more than 60% of the table's votes. */
  lemma SlotTagIsMajority(t: VoteTable, tag: string)
    requires DistinctTags(t)
    ensures SlotTag(t) == Some(tag) <==> ExceedsShare(VotesFor(t, tag), Total(t))
  {
    var k := Largest(t);
    if SlotTag(t) == Some(tag) {
      var i :| 0 <= i < |t| && k == Kept(t[i].votes, Some(t[i].tag));
      VotesForAt(t, i);
    }
    if ExceedsShare(VotesFor(t, tag), Total(t)) {
      assert tag in TagsOf(t);
      var i :| 0 <= i < |t| && TagsOf(t)[i] == tag;
      VotesForAt(t, i);
      forall j | 0 <= j < |t| && j != i
        ensures t[j].votes < t[i].votes
      {
        MajorityBeatsOthers(t, i, j);
      }
      LargestFindsLeader(t, i, Kept(0, None));
    }
  }

  /** `.filter(tag => tag !== null && tag !== 'NOT_ANIMAL')` */
  function KeepSlots(slots: seq<Option<string>>): (r: seq<string>)
    ensures |r| <= |slots|
    ensures forall x :: x in r <==> Some(x) in slots && x != NOT_ANIMAL
    decreases |slots|
  {
    if slots == [] then []
    else if slots[0].Some? && slots[0].value != NOT_ANIMAL then [slots[0].value] + KeepSlots(slots[1..])
    else KeepSlots(slots[1..])
  }

  /** The animal value of the context when a directive names no animal. */
  const NOT_ANIMAL: string := "NOT_ANIMAL"

  /** The OTHER tags whose votes exceed 60% of the part's count, in table order. */
  function OtherKept(other: VoteTable, count: nat): (r: seq<string>)
    ensures |r| <= |other|
    ensures forall x :: x in r <==> exists i :: 0 <= i < |other| && other[i].tag == x && ExceedsShare(other[i].votes, count)
    decreases |other|
  {
    if other == [] then []
    else
      var rest := OtherKept(other[1..], count);
      assert forall i :: 1 <= i < |other| ==> other[1..][i - 1] == other[i];
      if ExceedsShare(other[0].votes, count) then [other[0].tag] + rest else rest
  }

  /** The tag list a record's vote tables resolve to. */
  function ResolveTags(v: Votes, count: nat): seq<string> {
    KeepSlots([SlotTag(v.emotion), SlotTag(v.animal)]) + OtherKept(v.other, count)
  }

  /** `counts.tags = ...`: the record with its tables replaced by the list. */
  function ResolveRecord(r: PartRecord): Resolved {
    Resolved(r.count, ResolveTags(r.tags, r.count))
  }

  /** Each kept OTHER tag carries more than 3/5 of the count in votes. */
  lemma {:induction false} OtherKeptVotes(other: VoteTable, count: nat)
    ensures |OtherKept(other, count)| >= 1 ==> 5 * Total(other) >= 3 * count + 1
    ensures |OtherKept(other, count)| >= 2 ==> 5 * Total(other) >= 6 * count + 2
    decreases |other|
  {
    if other != [] {
      OtherKeptVotes(other[1..], count);
    }
  }

  /** While the OTHER votes do not outnumber the part's occurrences, at most one
      OTHER tag can clear 60% of the count. */
  lemma AtMostOneOther(other: VoteTable, count: nat)
    requires Total(other) <= count
    ensures |OtherKept(other, count)| <= 1
  {
    OtherKeptVotes(other, count);
  }

  /** A sane record resolves to at most three tags: an emotion, an animal and
      one OTHER tag. */
  lemma ResolvedTagsBound(r: PartRecord)
    requires Sane(r)
    ensures |ResolveRecord(r).tags| <= 3
  {
    AtMostOneOther(r.tags.other, r.count);
  }

  /** The share must strictly exceed 60%: three votes in five do not keep a
      tag, four in five do, and the same holds for an OTHER tag against the
      part's count. */
  lemma ShareIsStrict()
    ensures SlotTag([Entry("happy", 3), Entry("sad", 2)]) == None
    ensures SlotTag([Entry("happy", 4), Entry("sad", 1)]) == Some("happy")
    ensures OtherKept([Entry("sparkle", 3)], 5) == []
    ensures OtherKept([Entry("sparkle", 4)], 5) == ["sparkle"]
  {
    var a := [Entry("happy", 3), Entry("sad", 2)];
    assert Total(a) == 5;
    assert Largest(a) == Kept(3, Some("happy"));
    var b := [Entry("happy", 4), Entry("sad", 1)];
    assert Total(b) == 5;
    assert Largest(b) == Kept(4, Some("happy"));
  }
}
