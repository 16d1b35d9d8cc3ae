# kaomoji-analyzer in Dafny

This project models the two core programs of kaomoji-analyzer.

- **The analyzer** (`analyzer.js`) reads a corpus of kaomoji ("moji") and
  splits each one into parts:
  - outsides, arms and sides;
  - insides, eyes and mouth, found by a cascade over the face.

  It counts each part under the tag context set by `###emotion,animal,other`
  directive lines. A resolution pass then turns each part's tag votes into a
  list of tags, keeping a tag only when it has a strict 60% share.
- **The generator** (`moji_maker.js`) turns those results back into new moji:
  - a "DNA" string of 16-bit genes, written as hexadecimal, picks one part per
    category;
  - the generator spaces some parts out by the bits of a whitespace gene;
  - it nests the `%` templates the analyzer stored into a moji and collects
    the parts' tags.

The project has one module per concern:

| module | file | what it holds |
|---|---|---|
| `JsString` | jsstring.dfy | the JavaScript string operations used: `slice` with negative ends, `replace('%', …)`, `indexOf`, `split`/`join`, `trim` |
| `Tables` | tables.dfy | the constant tables: the side tables, `MIRRORED_EYES`, `BAD_CHARS`, the single-glyph faces, the `L%R` keys |
| `Sides`, `Arms`, `Face` | sides.dfy, arms.dfy, face.dfy | `parseSides`, `parseArms`, `parseFace` |
| `Tally` | tally.dfy | `tally`'s records and vote tables, and the resolution of one record |
| `Analyzer` | analyzer.dfy | the per-moji step as a class holding `results` and `tags`, plus the resolution pass |
| `Radix` | radix.dfy | `intToString`, `dnaToString` and `dnaToArray` |
| `Spacing` | spacing.dfy | the spacing loop of `getPart` |
| `Maker` | maker.dfy | the `parts` table, `getPart`, `getMojiParts`, `getTags`, `displayCryptomoji`, `parseDna` |
| `Reassembly` | reassembly.dfy | how the analyzer's keys and the generator's templates fit together |

Strings are sequences of UTF-16 code units, which is what `split('')` yields.
The analyzer reads two dictionaries, `prevResults` and `results`. Here they
are the explicit parameters `prev` and `cur` of type `Face.Known`. They hold
the known mouth keys and eye keys.

Two facts of the code are worth knowing before reading the face and side
lemmas:

- **`T_T` grouping.** The two `T` at indices 0 and 2 form one group of
  exactly two members, which is the one pair; the split is `'' T _ T ''`
  (`Face.CryingFaceExample`).
- **Equal side indices.** The left and the right side can share an index,
  but only at the middle unit of an odd-length moji whose middle unit is in
  both side tables, e.g. `|` (`Sides.UniqueNearest`).

## Model

| member | source | states |
|---|---|---|
| JsString.Slice | analyzer.js:103-107 | `slice(start, end)`: the units between the indices when they are in range, empty when the end is at or before the start |
| JsString.SliceFrom | analyzer.js:113 | `slice(start)`: the suffix from `start`; `slice(-1)` is the last unit |
| JsString.IndexOf | analyzer.js:98 | `indexOf`: the first index holding the unit, -1 exactly when it is absent |
| JsString.Substitute | moji_maker.js:124 | the replacement text `replace` writes: a replacement without `$` is written as it is |
| JsString.ReplaceFirst | moji_maker.js:124 | `template.replace('%', x)` puts a `$`-free `x` in place of the first `%` |
| JsString.ReplacePatterns | moji_maker.js:124 | `$$`, `$&`, `` $` `` and `$'` in the replacement write `$`, the matched `%`, the text before and the text after it |
| JsString.Replace | moji_maker.js:124 | a template without `%` is left unchanged |
| JsString.Split | analyzer.js:293 | `split(',')` gives pieces without the separator that join back to the input |
| JsString.SplitJoin | analyzer.js:293 | splitting the join of separator-free pieces gives those pieces back |
| JsString.Trim | moji_maker.js:145 | `trim()`: the result neither starts nor ends with whitespace, and a string that already does not is unchanged |
| Tables.MirroredEyesSymmetric | analyzer.js:14-39 | `MIRRORED_EYES` is an involution without fixed points: the image of an image is the glyph itself |
| Tables.SideTablesParallel | analyzer.js:11-12 | the left and right side tables have the same number of entries, 22 |
| Tables.Key | analyzer.js:317 | `l + '%' + r` has its `%` right after `l` and gives back both halves |
| Sides.HalfLength | analyzer.js:76 | `Math.ceil(n / 2)` |
| Sides.LastIn | analyzer.js:78-81 | the scan from the centre to the left finds the side nearest the centre, or reports that there is none |
| Sides.FirstIn | analyzer.js:82-84 | the scan from the centre to the right finds the first right side, or reports that there is none |
| Sides.ParseSidesWith | analyzer.js:74-109 | `parseSides` over given side tables: on success both sides are one unit, each from its table, at equal table indices; `Sides.ParseSidesNone` and `Sides.ParseSidesSome` state when it fails and what the slices are |
| Sides.ParseSides | analyzer.js:74-109 | `parseSides` with the analyzer's tables: on success the two one-unit sides sit at the same index of `LEFT_SIDES` and `RIGHT_SIDES` |
| Sides.ParseSidesNone | analyzer.js:87-100 | the all-null result exactly when the first half has no left side, the last half has no right side, or the two sides sit at different table indices |
| Sides.ParseSidesSome | analyzer.js:74-108 | on success the sides are the nearest ones and sit at equal table indices; with the left before the right the five slices concatenate to the moji |
| Sides.UniqueNearest | analyzer.js:78-84 | the nearest sides are unique; the left is never after the right, and they coincide only at the middle of an odd-length moji |
| Sides.CutAtSides | analyzer.js:102-108 | the five slices around two side indices concatenate to the moji |
| Sides.RoundAndSquareDiffer | analyzer.js:11-12 | `(` and `]` stand at different table indices |
| Sides.MismatchedBracketsRejected | analyzer.js:98-100 | `(x]` is rejected |
| Arms.ParseArmsLeftFacing | analyzer.js:113-124 | left-facing arms: the arm key is `cc` and empty, with `c` the last unit of both the left part and the middle; the length is kept |
| Arms.ParseArmsRightFacing | analyzer.js:126-134 | the mirror image for right-facing arms |
| Arms.ParseArmsOutside | analyzer.js:136-142 | otherwise the five parts concatenate to `left + mid + right`, the face is `mid`, and each arm is at most one unit |
| Arms.ParseArmsKeepsLength | analyzer.js:112-143 | every branch keeps the total length |
| Arms.ParseArms | analyzer.js:112-143 | `parseArms`: the two arms have at most two units together, and the face is no longer than the middle; the three branch lemmas above state each policy |
| Face.CandidateAt | analyzer.js:154-163 | a candidate is the 1- or 2-unit slice at its index |
| Face.Candidates | analyzer.js:152-164 | 3 candidates for an even face and 5 for an odd one, each a slice of the face |
| Face.KnownMouths | analyzer.js:167-170 | exactly the candidates whose mouth is known from either dictionary |
| Face.WithKnownEyes | analyzer.js:175-183 | exactly the candidates whose neighbours form a known eye key |
| Face.NarrowingKeepsKnownEyes | analyzer.js:174-184 | with several matches, a candidate survives iff its mouth is known, both neighbours exist, and `L%R` of them is a known eye key |
| Face.SurvivorIsKnownMouth | analyzer.js:167-184 | every surviving candidate is a known mouth and a slice of the face |
| Face.UniqueMouthSplit | analyzer.js:188-199 | a unique survivor decides the split; its mouth is the centre, and from index 1 on the five parts concatenate to the face |
| Face.MouthSplit | analyzer.js:193-199 | the split around a unique mouth: the candidate is the mouth, each eye is its neighbour when that exists and `''` otherwise |
| Face.MouthSplitParts | analyzer.js:193-199 | at mouth index 0 the split takes `slice(0, -1)` as the left inside and `''` as the left eye |
| Face.FindGroup | analyzer.js:206-208 | the first group whose first unit equals the unit or is its mirror image, or -1 when none does |
| Face.GroupsOf | analyzer.js:204-218 | the groups the reduce builds are well formed |
| Face.BuildGroups | analyzer.js:204-218 | the loop that pushes new groups and extends matched ones computes `GroupsOf` |
| Face.AddUnitGrouping | analyzer.js:206-217 | one step keeps the grouping invariant: every unit is recorded in exactly one group, in index order, in the first group it matches |
| Face.GroupsOfGrouping | analyzer.js:204-218 | the groups of a face partition its indices, each unit in the first group it matches |
| Face.TwoMemberPairs | analyzer.js:219 | the `length === 2` filter |
| Face.TwoMemberPairsExactly | analyzer.js:219 | a pair survives iff its group has exactly two members |
| Face.PairsAreMirrorImages | analyzer.js:204-219 | each surviving pair is two indices in order whose units are equal or mirror images |
| Face.MergeInterspersed | analyzer.js:220-232 | the loop that appends interspersed pairs onto the next group computes `Merge` |
| Face.Merge | analyzer.js:220-232 | the interspersed merge yields at most as many pairs as it is given, and none only from none; `Face.MergeFacts` states what it keeps |
| Face.PairsOf | analyzer.js:204-232 | the pairs the face splitter uses: grouped, filtered to two members, reversed and merged; its contract is stated by `Face.TwoMemberPairsExactly`, `Face.PairsAreMirrorImages` and `Face.MergeFacts` |
| Face.MergeFacts | analyzer.js:221-232 | merging keeps all units, yields no pairs only from no pairs, and keeps each emitted pair's indices |
| Face.FaceSplit | analyzer.js:146-258 | a face shorter than 3 units is rejected |
| Face.ParseFace | analyzer.js:146-258 | the method computes `FaceSplit` |
| Face.NoPairsCentreSplit | analyzer.js:235-244 | with no pairs, an even face is rejected and an odd face takes its centre split |
| Face.CentreSplitParts | analyzer.js:237-243 | the centre split concatenates to the face, with the middle unit as mouth and its neighbours as eyes |
| Face.CentreSplit | analyzer.js:235-244 | the split around the middle unit; its contract is stated by `Face.CentreSplitParts` |
| Face.AdjacentInnerPairIsMouth | analyzer.js:246-249 | with two or more pairs and an adjacent innermost pair, the second pair gives the eyes |
| Face.InnerPairGivesEyes | analyzer.js:246-249 | otherwise the innermost pair gives the eyes |
| Face.PairSplitParts | analyzer.js:251-257 | the pair split is the face when two units follow the right eye; with one-unit eyes the slice after the right eye skips a unit |
| Face.PairSplitUpToRight | analyzer.js:251-255 | the first four parts of a pair split are the face up to the right eye |
| Face.PairSplit | analyzer.js:251-257 | the split around an eye pair; its contract is stated by `Face.PairSplitParts` and `Face.PairSplitUpToRight` |
| Face.NothingKnownNoMouths | analyzer.js:167-170 | with empty dictionaries no candidate matches |
| Face.CryingFaceExample | analyzer.js:204-257 | `T_T` with empty dictionaries splits as `'' T _ T ''` |
| Face.CryingFace | analyzer.js:204-257 | the same for any `t m t` with distinct units |
| Face.RightInsideSkipsUnitExample | analyzer.js:256 | `aTxTb` gives an empty right inside: `eyes.chars.length` is 2 |
| Face.RightInsideSkipsUnit | analyzer.js:256 | the same for any such face |
| Face.InterspersedEyesExample | analyzer.js:225-227 | `ab_ab`: the interspersed pairs merge into two-unit eyes `ab` |
| Face.InterspersedEyes | analyzer.js:225-227 | the same for any such face |
| Face.ThirdMemberDiscards | analyzer.js:206-219 | a unit seen three times joins one group that the filter then drops, so `t x t y t` falls back to the centre split |
| Tally.VoteTotalAndTags | analyzer.js:275 | a vote adds one to the table's total, and adds the tag at the end only if it is new |
| Tally.VoteAddsOne | analyzer.js:275 | `tagType[tag] + 1 \|\| 1` adds one vote for the tag |
| Tally.VoteKeepsOthers | analyzer.js:275 | and leaves every other tag's votes unchanged |
| Tally.VoteKeepsDistinct | analyzer.js:275 | no tag appears twice in a vote table |
| Tally.Vote | analyzer.js:275 | one vote for a tag; its contract is stated by `Tally.VoteTotalAndTags`, `Tally.VoteAddsOne`, `Tally.VoteKeepsOthers` and `Tally.VoteKeepsDistinct` |
| Tally.AddVotes | analyzer.js:271-276 | one vote per non-empty context field; its contract is stated by `Tally.AddVotesCounts` |
| Tally.TallyPart | analyzer.js:261-277 | `tally` creates a part with count 1 or adds exactly 1 to its count, changing no other part |
| Tally.AddVotesCounts | analyzer.js:271-276 | one vote per non-empty context field; each table's total stays within the count |
| Tally.TallyKeepsSane | analyzer.js:261-277 | tallying keeps every record's vote totals within its count |
| Tally.LargestFrom | analyzer.js:337-340 | the reduce keeps a maximum of the votes, taken from the table or the start value |
| Tally.SlotTagIsMajority | analyzer.js:333-345 | a tag is kept iff its votes exceed 60% of the table's total (5·v > 3·t), so 0 votes keep nothing |
| Tally.KeepSlots | analyzer.js:347 | the null and `NOT_ANIMAL` slots are dropped |
| Tally.OtherKept | analyzer.js:348-350 | exactly the OTHER tags whose votes exceed 60% of the part's count are kept |
| Tally.AtMostOneOther | analyzer.js:348-350 | at most one OTHER tag can be kept |
| Tally.ResolvedTagsBound | analyzer.js:330-350 | a resolved record has at most three tags |
| Tally.ResolveRecord | analyzer.js:330-350 | the resolution of one record; its contract is stated by `Tally.SlotTagIsMajority`, `Tally.KeepSlots`, `Tally.OtherKept` and `Tally.ResolvedTagsBound` |
| Tally.ShareIsStrict | analyzer.js:342 | 3 of 5 votes is not enough and 4 of 5 is |
| Analyzer.EmptyResults | analyzer.js:280-281 | the initial results hold six empty categories |
| Analyzer.DirectiveFields | analyzer.js:292-297 | `###a,b,c` sets emotion `a`, animal `b` (or `NOT_ANIMAL` when empty) and OTHER `c` |
| Analyzer.DirectiveEmotionOnly | analyzer.js:292-297 | `###a` sets the animal to `NOT_ANIMAL` and leaves OTHER unset |
| Analyzer.FaceMarks | analyzer.js:309-319 | a single-glyph face is tallied as eyes under that very glyph; any other face is accepted iff its split exists with non-empty eyes and mouth, and then tallies its mouth, its `L%R` eye key and its `L%R` inside key |
| Analyzer.DecomposeRejects | analyzer.js:300-307 | a moji without matching sides, or whose face holds a side glyph, is rejected; otherwise it is accepted iff its face yields tallies |
| Analyzer.DecomposeCategories | analyzer.js:300-323 | an accepted moji tallies all six categories once, or eyes, arms, sides and outsides for a single-glyph face |
| Analyzer.Decompose | analyzer.js:300-323 | the tallies a moji asks for, or rejection; its contract is stated by `Analyzer.DecomposeRejects` and `Analyzer.DecomposeCategories` |
| Analyzer.ApplyTalliesOnce | analyzer.js:316-323 | tallies into distinct categories each act on that category alone |
| Analyzer.ApplyUntouched | analyzer.js:316-323 | a category the moji does not tally is unchanged |
| Analyzer.SkippedChangesNothing | analyzer.js:288-289 | a moji with `%` or a bad unit changes neither results nor tags |
| Analyzer.DirectiveOnlySetsTags | analyzer.js:292-297 | a directive sets the tags and leaves the results alone |
| Analyzer.AcceptedMojiCounts | analyzer.js:300-323 | any other moji keeps the tags; a rejected one changes nothing, and an accepted one tallies each of its parts once while leaving the other categories unchanged |
| Analyzer.Next | analyzer.js:286-324 | the `forEach` body on a state: keeps all six categories; `Analyzer.SkippedChangesNothing`, `Analyzer.DirectiveOnlySetsTags` and `Analyzer.AcceptedMojiCounts` state its cases |
| Analyzer.Run | analyzer.js:286-324 | the `forEach` over a corpus: keeps all six categories; `Analyzer.RunKeepsSane` states its invariant |
| Analyzer.RunKeepsSane | analyzer.js:286-324 | over a whole corpus every record's vote totals stay within its count |
| Analyzer.ResolveTable | analyzer.js:328-351 | resolution keeps each category's parts and their counts |
| Analyzer.ResolveAll | analyzer.js:327-352 | and every category |
| Analyzer.ResolvedTagsAtMostThree | analyzer.js:327-352 | every resolved part keeps its count and has at most three tags |
| Analyzer.Analyzer.constructor | analyzer.js:280-283 | empty results and an empty tag context |
| Analyzer.Analyzer.Tally | analyzer.js:261-277 | the method updates the one category as `TallyPart` does |
| Analyzer.Analyzer.Step | analyzer.js:286-324 | the `forEach` body moves the state as `Next` does |
| Analyzer.Analyzer.TallyFace | analyzer.js:309-319 | tallies the face marks exactly when the face is accepted, and otherwise nothing |
| Analyzer.Analyzer.TallyOuter | analyzer.js:321-323 | tallies arms, sides and outsides |
| Analyzer.Analyzer.Analyze | analyzer.js:286-324 | the whole corpus moves the state as `Run` does |
| Analyzer.Analyzer.Resolve | analyzer.js:327-352 | the resolved results keep every part and count and have at most three tags each |
| Analyzer.ResolveParts | analyzer.js:328-351 | the loop over one category's parts computes `ResolveTable` |
| Radix.DnaSizeIsPower | moji_maker.js:7-8 | `DNA_SIZE` is both 2^16 and 16^4 |
| Radix.RadixString | moji_maker.js:49 | `toString(radix)`: non-empty digits without a leading zero |
| Radix.RadixStringValue | moji_maker.js:49 | those digits denote the number |
| Radix.IntToStringShape | moji_maker.js:48-53 | without a size, the plain digits; with size n ≥ 1, exactly n digits: zero-padded when they fit and otherwise the low-order ones, denoting the number modulo radix^n |
| Radix.IntToStringWidth | moji_maker.js:48-53 | with a size the result has that many units |
| Radix.IntToString | moji_maker.js:48-53 | `intToString`; its contract is stated by `Radix.IntToStringShape` and `Radix.IntToStringWidth` |
| Radix.DnaToString | moji_maker.js:55-59 | four hex units per gene |
| Radix.HexRuns | moji_maker.js:61-63 | the global match of `[0-9a-f]{4}` yields only four-unit hex runs |
| Radix.ShortDnaFails | moji_maker.js:61-65 | a string shorter than four units, the empty one included, does not decode |
| Radix.GeneRoundTrip | moji_maker.js:57 | a gene below 65536 is written as one hex run that reads back as the gene |
| Radix.DnaRuns | moji_maker.js:55-65 | the scan finds one run per gene, with the gene's value |
| Radix.DnaRoundTrip | moji_maker.js:55-65 | `dnaToArray(dnaToString(a)) == a` for non-empty `a` of 16-bit genes |
| Radix.DnaToArray | moji_maker.js:61-65 | `dnaToArray`; its contract is stated by `Radix.ShortDnaFails`, `Radix.DnaRuns` and `Radix.DnaRoundTrip` |
| Spacing.RemoveSpaces | analyzer.js:66 | the analyzer's space removal leaves no space and keeps a string without spaces |
| Spacing.FullRunTrailing | moji_maker.js:87 | `slice(-4) === maxSpaces` holds iff the text ends with four or more spaces |
| Spacing.SpaceLoopKeepsText | moji_maker.js:83-93 | the loop loses and reorders nothing: without spaces, the result is the text built so far and then the rest |
| Spacing.SpaceLoopRuns | moji_maker.js:83-93 | on a part without spaces no run exceeds `MAX_WHITESPACE` |
| Spacing.AllOnesKeepText | moji_maker.js:83-93 | all-one bits place every unit and add no space |
| Spacing.SpacedFacts | moji_maker.js:73-93 | removing the spaces gives back the part's text, and a part without spaces has no run over four |
| Spacing.Spaced | moji_maker.js:73-93 | the spaced text of a part; its contract is stated by `Spacing.SpacedFacts` and the loop of `Spacing.SpacePart` computes it |
| Spacing.SpacePart | moji_maker.js:73-93 | the `for(;;)` loop, which pops from the reversed text and wraps the bit index, computes `Spaced` |
| Maker.Copies | moji_maker.js:35-37 | `count` copies of the part |
| Maker.Expand | moji_maker.js:31-38 | a category's list is as long as its counts add up to |
| Maker.PartLists | moji_maker.js:30-40 | every category has a list of that length |
| Maker.ExpandCount | moji_maker.js:31-38 | each part occurs exactly `count` times with its tags, and nothing else occurs |
| Maker.PartListsCount | moji_maker.js:30-40 | the same for every category of `parts` |
| Maker.PartIndex | moji_maker.js:68-69 | `floor(indexDna · len / 65536)` is in range iff `indexDna` < 65536 |
| Maker.PartIndexReaches | moji_maker.js:68-69 | every index of the list is picked by some gene |
| Maker.Bits | moji_maker.js:73-75 | the whitespace gene as 16 bits, each the digit `intToString` writes |
| Maker.GetPart | moji_maker.js:67-93 | a part exactly when the gene indexes the list |
| Maker.GetPartFacts | moji_maker.js:67-93 | a gene below 65536 always picks a part; tags pass through; a falsy whitespace gene returns the part unchanged; otherwise the text comes back once its spaces are removed, with no run over four |
| Maker.GeneAt | moji_maker.js:100-105 | `dnaArray[i]`, missing past the end |
| Maker.GeneLayout | moji_maker.js:96-107 | each part gene picks its category's part, spaced by the next gene exactly when that gene is a whitespace gene |
| Maker.GeneTypesCoverCategories | moji_maker.js:16-26 | each category has exactly one gene, and genes 1, 4 and 8 are whitespace |
| Maker.GenesMakeMoji | moji_maker.js:96-107 | nine genes below 65536 and non-empty lists always make a moji |
| Maker.GetMojiParts | moji_maker.js:96-107 | `getMojiParts`; its contract is stated by `Maker.GeneLayout` and `Maker.GenesMakeMoji` |
| Maker.Remove | moji_maker.js:113 | removing a tag keeps the others and adds no duplicate |
| Maker.CollectTagsUnion | moji_maker.js:112-113 | folding tags into the key set gives exactly their union, without duplicates |
| Maker.GetTagsUnion | moji_maker.js:109-116 | `getTags` is exactly the union of all parts' tags, without duplicates |
| Maker.GetTags | moji_maker.js:109-116 | `getTags`; its contract is stated by `Maker.GetTagsUnion` |
| Maker.NestedTemplates | moji_maker.js:123-143 | with one `%` per template and centred arms, the untrimmed moji is outL·armL·sideL·inL·eyeL·mouth·eyeR·inR·sideR·armR·outR |
| Maker.OffRightArms | moji_maker.js:135-136 | `%rr` arms: one `r` after the first unit and one at the end, two units more |
| Maker.OffLeftArms | moji_maker.js:137-138 | `ll%` arms: one `l` at the start and one before the last unit, two units more |
| Maker.OffRightOnEmpty | moji_maker.js:136 | on an empty moji `moji[0]` is `undefined`, written out as the text `undefined` |
| Maker.WholeFaceDropsMouth | moji_maker.js:123-124 | an eyes part without `%` (a single-glyph face) drops the mouth |
| Maker.Display | moji_maker.js:118-145 | `displayCryptomoji`; its contract is stated by `Maker.NestedTemplates`, `Maker.OffRightArms`, `Maker.OffLeftArms` and `Maker.WholeFaceDropsMouth`, and for the analyzer's keys by `Reassembly.AcceptedMojiReassembles` |
| Maker.ParseDna | moji_maker.js:214-223 | the cryptomoji keeps the DNA string it was given |
| Maker.EncodedDnaParses | moji_maker.js:214-223 | the encoding of nine genes below 65536 parses to the moji and tags those genes pick |
| Reassembly.CentredArmsRebuild | moji_maker.js:139-143 | keys of centred arms nest back around sides and face |
| Reassembly.LeftArmsRebuild | moji_maker.js:137-138 | the `cc%` key of left-facing arms puts one `c` outside the left side and one inside the right side |
| Reassembly.RightArmsRebuild | moji_maker.js:135-136 | the `%cc` key of right-facing arms puts one `c` inside the left side and one outside the right side |
| Reassembly.SidesOfMoji | analyzer.js:102-108 | the side split of a moji without `%` or `$` that leaves a face concatenates back to the moji, and none of its parts holds either unit |
| Reassembly.KeysRebuildMoji | moji_maker.js:123-143 | under every arm policy the generator rebuilds a moji without `$` from the analyzer's keys, when the face split loses nothing |
| Reassembly.SixMarks | analyzer.js:309-323 | the six tallies of an accepted moji are its face, arm, side and outside keys |
| Reassembly.MarksAssemble | moji_maker.js:123-143 | those six keys assemble as the rebuild |
| Reassembly.AcceptedMojiReassembles | moji_maker.js:118-145 | the moji is generated back from its own six tallies when it has no `%` or `$`, no surrounding whitespace, and a lossless face split |
| Reassembly.DollarMojiExample | moji_maker.js:123-145 | `($&$)` is accepted with mouth `&`, eyes `$%$` and insides `%`, and those parts display as `(%$)` |

## Left out

- File and environment input and output is not modelled: the configuration variables, reading the corpus, the `require` of earlier results, the timing and console output, and writing `results.json` with its sorted keys. The same goes for `printMoji` and the top-level loop of the generator. `prevResults` is the parameter `prev`.
- The corpus preprocessing at analyzer.js:64-67 (space removal, then splitting at tabs and newlines) is not a method. `Spacing.RemoveSpaces` states the space removal, and `Analyzer.Run` takes the list of lines.
- `randomDna`, `spawnCryptomoji` and `breedCryptomoji` are left out because they are driven by `Math.random`. Their whitespace mutation also reads `Math.random * DNA_BITS`, which is `NaN` (moji_maker.js:191).
- Floating point is modelled as exact integers. The 60% tests are `5·v > 3·t`. The part index is `floor(indexDna · len / 65536)`, which is exact because 65536 is a power of two.
- `Reassembly.KeysRebuildMoji`, `Reassembly.AcceptedMojiReassembles`: hold only for a moji without `$`. The analyzer does not reject `$`, and `replace` reads `$&`, `$$`, `` $` `` and `$'` in a stored part as patterns (`JsString.Substitute`), so such a moji need not come back (`Reassembly.DollarMojiExample`).
- Part and tag names that are members of `Object.prototype` (`valueOf`, `constructor`, `toString`, …) are outside the model. In the source the dictionaries are plain objects, so such a name finds an inherited member: a `count++` lands on a function, a later vote throws, or `+ 1` concatenates text. The model counts them like any other name.
- `trim` uses a fixed set of JavaScript whitespace units (`JsString.IsJsWhitespace`).
- UTF-16 surrogate units cannot be Dafny characters. Moji with characters outside the Basic Multilingual Plane are outside the model. All table constants are inside it.
- Object key order is a parameter. The order of a category's parts, and so of the `parts` lists, is the `order` argument of `Maker.PartLists`. Vote tables are lists in insertion order. JavaScript lists integer-like keys first, which the model does not reproduce.
- `Maker.GetTagsUnion`: the order of `getTags`' result, which comes from object key order, is not stated; only the set and the absence of duplicates are.
- `Radix.IntToStringShape`: covers non-negative integers only, which is every value the modelled core passes (parsed four-digit hex genes, and whitespace genes below 65536). The left-out `breedCryptomoji` can pass a negative gene after a mutation (moji_maker.js:182-186); `toString` writes it with a `-` (`intToString(-5, 16, 4)` is `00-5`), which the model does not cover.
- The guards at analyzer.js:302 and :306 can never fail: sides are single units and `parseArms` never returns null. They are not modelled.
- `Analyzer.Analyzer.Resolve`: returns the resolved results as a new value instead of overwriting `counts.tags` inside `results`.
- `Analyzer.Analyzer.Step` delegates to `TallyFace` and `TallyOuter`, which split the straight-line tally calls of the `forEach` body into two methods.
- `Maker.GetMojiParts` needs a list for each of the six categories present in `parts`; the generator throws on a missing category, which the model does not reproduce.
- `Maker.GetPart`: an index out of range, or a missing gene, is `None`. In the source it is `undefined`, and the caller later throws on it.
- `Reassembly.AcceptedMojiReassembles`: the tags of the rebuilt parts are left empty because the display ignores them. That the face split loses nothing is a hypothesis (`LosslessFace`), since the right-inside quirk drops a unit after a one-unit right eye. The single-glyph face case is not stated.
- `Spacing.SpaceLoop`: the loop's full-run test is written on the number of trailing spaces; `Spacing.FullRunTrailing` proves it equal to the source's `slice(-MAX_WHITESPACE)` comparison, which `Spacing.SpacePart` performs.
