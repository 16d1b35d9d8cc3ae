/** The deterministic core of the generator (moji_maker.js): the part lists
    built from the analyzer's results, the way a gene picks a part and spaces
    it out, the gene layout, the tag union and the `%`-template assembly. */
module Maker {

  import opened Wrappers
  import opened JsString
  import opened Seqs
  import opened Tally
  import opened Analyzer
  import opened Radix
  import opened Tables
  import opened Spacing

  /** A part as the generator holds it: the stored key (a `%` template for
      every category but mouths) and its resolved tags. */
  datatype Part = Part(text: string, tags: seq<string>)

  predicate NoDuplicates<T(==)>(s: seq<T>) {
    forall i, j :: 0 <= i < j < |s| ==> s[i] != s[j]
  }

  // ---------------------------------------------------------------------------
  // The part lists (moji_maker.js:30-40)
  // ---------------------------------------------------------------------------

  /** `Array.apply(null, Array(count)).map(() => [part, tags])`. */
  function Copies(p: Part, n: nat): (r: seq<Part>)
    ensures |r| == n && forall i :: 0 <= i < n ==> r[i] == p
    decreases n
  {
    if n == 0 then [] else [p] + Copies(p, n - 1)
  }

  /** `keys` is an enumeration of the table's keys: each exactly once. */
  predicate ListsKeys(t: ResolvedTable, keys: seq<string>) {
    NoDuplicates(keys) && (forall i :: 0 <= i < |keys| ==> keys[i] in t) &&
    (forall k :: k in t ==> k in keys)
  }

  function SumCounts(t: ResolvedTable, keys: seq<string>): nat
    requires forall i :: 0 <= i < |keys| ==> keys[i] in t
    decreases |keys|
  {
    if keys == [] then 0 else t[keys[0]].count + SumCounts(t, keys[1..])
  }

  /** One category's list: every part repeated `count` times, the parts in
      the order `keys` gives (the object's key order). */
  function Expand(t: ResolvedTable, keys: seq<string>): (r: seq<Part>)
    requires forall i :: 0 <= i < |keys| ==> keys[i] in t
    ensures |r| == SumCounts(t, keys)
    decreases |keys|
  {
    if keys == [] then []
    else Copies(Part(keys[0], t[keys[0]].tags), t[keys[0]].count) + Expand(t, keys[1..])
  }

  /** `order[c]` is `Object.keys(source[c])`, for every category. */
  predicate KeyOrders(source: ResolvedResults, order: map<Category, seq<string>>) {
    forall c: Category :: c in source && c in order && ListsKeys(source[c], order[c])
  }

  /** The `parts` object: one list per category of the results, as long as
      the category's counts add up to. */
  function PartLists(source: ResolvedResults, order: map<Category, seq<string>>): (r: map<Category, seq<Part>>)
    requires KeyOrders(source, order)
    ensures forall c: Category :: c in r && |r[c]| == SumCounts(source[c], order[c])
  {
    map c: Category | c in source :: (assert ListsKeys(source[c], order[c]); Expand(source[c], order[c]))
  }

  lemma {:induction false} CopiesCount(p: Part, n: nat, q: Part)
    ensures multiset(Copies(p, n))[q] == if q == p then n else 0
    decreases n
  {
    if n > 0 {
      CopiesCount(p, n - 1, q);
      assert multiset(Copies(p, n)) == multiset{p} + multiset(Copies(p, n - 1));
    }
  }

  /** A category's list holds every part of the table exactly `count` times,
      with its tags, and nothing else. */
  lemma {:induction false} ExpandCount(t: ResolvedTable, keys: seq<string>, q: Part)
    requires NoDuplicates(keys) && forall i :: 0 <= i < |keys| ==> keys[i] in t
    ensures multiset(Expand(t, keys))[q] ==
      if q.text in keys && q.tags == t[q.text].tags then t[q.text].count else 0
    decreases |keys|
  {
    if keys != [] {
      var k, ks := keys[0], keys[1..];
      HeadTail(keys, q.text);
      var p, n := Part(k, t[k].tags), t[k].count;
      ExpandCount(t, ks, q);
      CopiesCount(p, n, q);
      assert Expand(t, keys) == Copies(p, n) + Expand(t, ks);
    }
  }

  /** A list without duplicates is its head, which its tail does not hold,
      and that tail, again without duplicates. */
  lemma HeadTail(keys: seq<string>, x: string)
    requires keys != [] && NoDuplicates(keys)
    ensures NoDuplicates(keys[1..]) && keys[0] !in keys[1..]
    ensures x in keys <==> x == keys[0] || x in keys[1..]
  {
    assert keys == [keys[0]] + keys[1..];
    forall i, j | 0 <= i < j < |keys| - 1 ensures keys[1..][i] != keys[1..][j] {
      assert keys[1..][i] == keys[i + 1] && keys[1..][j] == keys[j + 1];
    }
    forall j | 0 <= j < |keys| - 1 ensures keys[1..][j] != keys[0] {
      assert keys[1..][j] == keys[j + 1];
    }
  }

  /** `parts[c]` lists each part of `results[c]` exactly `count` times. */
  lemma PartListsCount(source: ResolvedResults, order: map<Category, seq<string>>, c: Category, q: Part)
    requires KeyOrders(source, order)
    ensures multiset(PartLists(source, order)[c])[q] ==
      if q.text in source[c] && q.tags == source[c][q.text].tags then source[c][q.text].count else 0
  {
    ExpandCount(source[c], order[c], q);
  }

  // ---------------------------------------------------------------------------
  // Choosing a part (moji_maker.js:67-71)
  // ---------------------------------------------------------------------------

  /** `Math.floor(indexDna * parts[category].length / DNA_SIZE)`, exact since
      `DNA_SIZE` is a power of two. The index is in range exactly when the
      gene is below `DNA_SIZE`. */
  function PartIndex(indexDna: nat, len: nat): (r: nat)
    ensures len > 0 ==> (r < len <==> indexDna < DNA_SIZE)
  {
    ScaledIndexRange(indexDna, len);
    indexDna * len / DNA_SIZE
  }

  /** The scaled index stays below `len` exactly for genes below `DNA_SIZE`. */
  lemma ScaledIndexRange(g: nat, len: nat)
    ensures len > 0 ==> (g * len / DNA_SIZE < len <==> g < DNA_SIZE)
  {
    if len > 0 {
      if g < DNA_SIZE {
        MulMono(g, DNA_SIZE - 1, len);
        assert g * len < len * DNA_SIZE;
        BelowMultiple(g * len, len, DNA_SIZE);
      } else {
        MulMono(DNA_SIZE, g, len);
        AtLeastMultiple(g * len, len, DNA_SIZE);
      }
    }
  }

  lemma BelowMultiple(x: nat, k: nat, d: nat)
    requires d > 0 && x < k * d
    ensures x / d < k
  {
    DivMod(x, d);
    if x / d >= k {
      MulMono(k, x / d, d);
    }
  }

  lemma AtLeastMultiple(x: nat, k: nat, d: nat)
    requires d > 0 && k * d <= x
    ensures x / d >= k
  {
    DivMod(x, d);
    if x / d < k {
      MulMono(x / d + 1, k, d);
    }
  }

  /** For a list no longer than `DNA_SIZE`, every position is picked by some
      gene: the scaling wastes no element. */
  lemma {:induction false} PartIndexReaches(j: nat, len: nat)
    requires j < len <= DNA_SIZE
    ensures exists g: nat :: g < DNA_SIZE && PartIndex(g, len) == j
  {
    var g := (j * DNA_SIZE + len - 1) / len;
    DivMod(j * DNA_SIZE + len - 1, len);
    // g·len lies in [j·DNA_SIZE, j·DNA_SIZE + len), so floor(g·len / DNA_SIZE) = j
    assert g * len <= j * DNA_SIZE + len - 1;
    assert j * DNA_SIZE <= g * len;
    MulMono(j + 1, len, DNA_SIZE);
    assert (j + 1) * DNA_SIZE == j * DNA_SIZE + DNA_SIZE;
    BelowMultiple(g * len, j + 1, DNA_SIZE);
    AtLeastMultiple(g * len, j, DNA_SIZE);
    assert PartIndex(g, len) == j by {
      if g >= DNA_SIZE {
        MulMono(DNA_SIZE, g, len);
        assert false;
      }
    }
  }

  /** `intToString(whitespaceDna, 2, DNA_BITS).split('').map(Number)`: the low
      `DNA_BITS` bits of the gene, most significant first. */
  function Bits(w: nat): (r: seq<nat>)
    ensures |r| == DNA_BITS && IsBitString(r)
    ensures forall k :: 0 <= k < |r| ==> r[k] == DigitValue(IntToString(w, 2, Some(DNA_BITS))[k])
  {
    var s := IntToString(w, 2, Some(DNA_BITS));
    IntToStringShape(w, 2, Some(DNA_BITS));
    seq(DNA_BITS, k requires 0 <= k < DNA_BITS => DigitValue(s[k]) as nat)
  }


  // ---------------------------------------------------------------------------
  // getPart (moji_maker.js:67-94)
  // ---------------------------------------------------------------------------

  /** `getPart(category, indexDna, whitespaceDna)` on the category's list, with
      a missing gene as `None`. `None` also stands for the `undefined` a gene
      out of range picks, which the caller then fails on. A falsy whitespace
      gene (missing or 0) picks the part as it is. */
  function GetPart(parts: seq<Part>, indexDna: Option<nat>, whitespaceDna: Option<nat>): (r: Option<Part>)
    ensures r.Some? <==> indexDna.Some? && PartIndex(indexDna.value, |parts|) < |parts|
  {
    if indexDna.None? then None
    else
      var k := PartIndex(indexDna.value, |parts|);
      if k >= |parts| then None
      else if whitespaceDna.None? || whitespaceDna.value == 0 then Some(parts[k])
      else Some(Part(Spaced(parts[k].text, Bits(whitespaceDna.value)), parts[k].tags))
  }

  /** The part `getPart` returns is the one the gene indexes, with its tags
      unchanged and, once the inserted spaces are deleted, its text unchanged;
      on a non-empty list every gene below `DNA_SIZE` picks a part. */
  lemma GetPartFacts(parts: seq<Part>, indexDna: Option<nat>, whitespaceDna: Option<nat>)
    ensures indexDna.Some? && indexDna.value < DNA_SIZE && parts != [] ==>
      GetPart(parts, indexDna, whitespaceDna).Some?
    ensures var r := GetPart(parts, indexDna, whitespaceDna);
      r.Some? ==>
        var p := parts[PartIndex(indexDna.value, |parts|)];
        r.value.tags == p.tags &&
        RemoveSpaces(r.value.text) == RemoveSpaces(p.text) &&
        (' ' !in p.text ==> RemoveSpaces(r.value.text) == p.text && LongestRun(r.value.text) <= MAX_WHITESPACE) &&
        (whitespaceDna.None? || whitespaceDna == Some(0) ==> r.value == p)
  {
    if GetPart(parts, indexDna, whitespaceDna).Some? {
      var p := parts[PartIndex(indexDna.value, |parts|)];
      if whitespaceDna.Some? && whitespaceDna.value != 0 {
        SpacedFacts(p.text, Bits(whitespaceDna.value));
      } else {
        NoSpacesRun(p.text);
      }
    }
  }

  /** Without spaces there is no run at all. */
  lemma {:induction false} NoSpacesRun(s: string)
    ensures ' ' !in s ==> LongestRun(s) == 0
    decreases |s|
  {
    if s != [] && ' ' !in s {
      assert s[|s| - 1] in s;
      assert ' ' !in s[..|s| - 1] by {
        assert forall m :: 0 <= m < |s| - 1 ==> s[..|s| - 1][m] == s[m];
      }
      NoSpacesRun(s[..|s| - 1]);
    }
  }

  // ---------------------------------------------------------------------------
  // Genes (moji_maker.js:16-26, 96-107)
  // ---------------------------------------------------------------------------

  /** An entry of `GENE_TYPES`: a category's part, or `'WHITESPACE'`. */
  datatype Gene = PartGene(category: Category) | Whitespace

  const GENE_TYPES: seq<Gene> := [
    PartGene(Mouth), Whitespace, PartGene(Eye), PartGene(Inside), Whitespace,
    PartGene(Side), PartGene(Arm), PartGene(Outside), Whitespace
  ]

  /** `mojiParts`: one part per category. */
  datatype MojiParts = MojiParts(mouth: Part, eyes: Part, insides: Part, sides: Part, arms: Part, outsides: Part)
  {
    function Of(c: Category): Part {
      match c
      case Mouth => mouth
      case Eye => eyes
      case Inside => insides
      case Side => sides
      case Arm => arms
      case Outside => outsides
    }
  }

  /** `dnaArray[i]`, `undefined` past the end. */
  function GeneAt(dna: seq<nat>, i: nat): (r: Option<nat>)
    ensures r.Some? <==> i < |dna|
    ensures r.Some? ==> r.value == dna[i]
  {
    if i < |dna| then Some(dna[i]) else None
  }

  /** `getMojiParts(dnaArray)`: `None` when some gene picks no part. */
  function GetMojiParts(dna: seq<nat>, parts: map<Category, seq<Part>>): Option<MojiParts>
    requires forall c: Category :: c in parts
  {
    var mouth := GetPart(parts[Mouth], GeneAt(dna, 0), GeneAt(dna, 1));
    var eyes := GetPart(parts[Eye], GeneAt(dna, 2), None);
    var insides := GetPart(parts[Inside], GeneAt(dna, 3), GeneAt(dna, 4));
    var sides := GetPart(parts[Side], GeneAt(dna, 5), None);
    var arms := GetPart(parts[Arm], GeneAt(dna, 6), None);
    var outsides := GetPart(parts[Outside], GeneAt(dna, 7), GeneAt(dna, 8));
    if mouth.None? || eyes.None? || insides.None? || sides.None? || arms.None? || outsides.None? then None
    else Some(MojiParts(mouth.value, eyes.value, insides.value, sides.value, arms.value, outsides.value))
  }

  /** The whitespace gene that follows gene `i`, if `GENE_TYPES` puts one there. */
  function SpacingGene(dna: seq<nat>, i: nat): Option<nat> {
    if i + 1 < |GENE_TYPES| && GENE_TYPES[i + 1] == Whitespace then GeneAt(dna, i + 1) else None
  }

  /** `getMojiParts` follows `GENE_TYPES`: part gene `i` picks that
      category's part, spaced by the next gene exactly when that one is a
      whitespace gene, and a gene that picks nothing leaves no moji. */
  lemma GeneLayout(dna: seq<nat>, parts: map<Category, seq<Part>>, i: nat)
    requires forall c: Category :: c in parts
    requires i < |GENE_TYPES| && GENE_TYPES[i].PartGene?
    ensures var c, m := GENE_TYPES[i].category, GetMojiParts(dna, parts);
      var pick := GetPart(parts[c], GeneAt(dna, i), SpacingGene(dna, i));
      (m.Some? ==> pick == Some(m.value.Of(c))) && (pick.None? ==> m.None?)
  {
    if i == 0 {
      assert SpacingGene(dna, 0) == GeneAt(dna, 1);
    } else if i == 2 {
      assert SpacingGene(dna, 2) == None;
    } else if i == 3 {
      assert SpacingGene(dna, 3) == GeneAt(dna, 4);
    } else if i == 5 {
      assert SpacingGene(dna, 5) == None;
    } else if i == 6 {
      assert SpacingGene(dna, 6) == None;
    } else {
      assert i == 7 && SpacingGene(dna, 7) == GeneAt(dna, 8);
    }
  }

  /** Each category has exactly one gene; genes 1, 4 and 8 are whitespace. */
  lemma GeneTypesCoverCategories()
    ensures forall c: Category :: exists i :: 0 <= i < |GENE_TYPES| && GENE_TYPES[i] == PartGene(c)
    ensures forall i, j :: 0 <= i < j < |GENE_TYPES| && GENE_TYPES[i].PartGene? ==> GENE_TYPES[i] != GENE_TYPES[j]
    ensures forall i :: 0 <= i < |GENE_TYPES| ==> (GENE_TYPES[i] == Whitespace <==> i in {1, 4, 8})
  {
    forall c: Category ensures exists i :: 0 <= i < |GENE_TYPES| && GENE_TYPES[i] == PartGene(c) {
      match c
      case Mouth => assert GENE_TYPES[0] == PartGene(c);
      case Eye => assert GENE_TYPES[2] == PartGene(c);
      case Inside => assert GENE_TYPES[3] == PartGene(c);
      case Side => assert GENE_TYPES[5] == PartGene(c);
      case Arm => assert GENE_TYPES[6] == PartGene(c);
      case Outside => assert GENE_TYPES[7] == PartGene(c);
    }
  }

  /** Nine genes below `DNA_SIZE` and a part in every category always make a
      moji. */
  lemma GenesMakeMoji(dna: seq<nat>, parts: map<Category, seq<Part>>)
    requires forall c: Category :: c in parts && parts[c] != []
    requires |dna| >= |GENE_TYPES| && forall i :: 0 <= i < |dna| ==> dna[i] < DNA_SIZE
    ensures GetMojiParts(dna, parts).Some?
  {
    GetPartFacts(parts[Mouth], GeneAt(dna, 0), GeneAt(dna, 1));
    GetPartFacts(parts[Eye], GeneAt(dna, 2), None);
    GetPartFacts(parts[Inside], GeneAt(dna, 3), GeneAt(dna, 4));
    GetPartFacts(parts[Side], GeneAt(dna, 5), None);
    GetPartFacts(parts[Arm], GeneAt(dna, 6), None);
    GetPartFacts(parts[Outside], GeneAt(dna, 7), GeneAt(dna, 8));
  }

  // ---------------------------------------------------------------------------
  // Tags (moji_maker.js:109-116)
  // ---------------------------------------------------------------------------

  /** Every tag of the six parts, in part order, repeats included. */
  function AllTags(m: MojiParts): seq<string> {
    m.mouth.tags + m.eyes.tags + m.insides.tags + m.sides.tags + m.arms.tags + m.outsides.tags
  }

  function Remove(s: seq<string>, x: string): (r: seq<string>)
    ensures forall y :: y in r <==> y in s && y != x
    ensures NoDuplicates(s) ==> NoDuplicates(r)
    decreases |s|
  {
    if s == [] then []
    else
      var rest := Remove(s[1..], x);
      assert NoDuplicates(s) ==> NoDuplicates(s[1..]) && s[0] !in s[1..] by {
        if NoDuplicates(s) {
          forall i, j | 0 <= i < j < |s| - 1 ensures s[1..][i] != s[1..][j] {
            assert s[1..][i] == s[i + 1] && s[1..][j] == s[j + 1];
          }
          forall j | 0 <= j < |s| - 1 ensures s[1..][j] != s[0] {
            assert s[1..][j] == s[j + 1];
          }
        }
      }
      if s[0] == x then rest
      else
        assert NoDuplicates(s) ==> NoDuplicates([s[0]] + rest) by {
          if NoDuplicates(s) {
            forall i, j | 0 <= i < j < |rest| + 1 ensures ([s[0]] + rest)[i] != ([s[0]] + rest)[j] {
              if i > 0 {
                assert ([s[0]] + rest)[i] == rest[i - 1];
              } else {
                assert rest[j - 1] in rest;
              }
            }
          }
        }
        [s[0]] + rest
  }

  /** The reduce of `getTags`: `{ [tag]: true, ...tagSet }` puts a new tag
      first and keeps a known tag where it already is among the keys; as key
      order this is the tag first, then the earlier keys without it. */
  function CollectTags(acc: seq<string>, tags: seq<string>): seq<string>
    decreases |tags|
  {
    if tags == [] then acc else CollectTags([tags[0]] + Remove(acc, tags[0]), tags[1..])
  }

  /** `getTags(mojiParts)`. */
  function GetTags(m: MojiParts): seq<string> {
    CollectTags([], AllTags(m))
  }

  lemma {:induction false} CollectTagsUnion(acc: seq<string>, tags: seq<string>)
    requires NoDuplicates(acc)
    ensures NoDuplicates(CollectTags(acc, tags))
    ensures forall t :: t in CollectTags(acc, tags) <==> t in acc || t in tags
    decreases |tags|
  {
    if tags != [] {
      var rest := Remove(acc, tags[0]);
      var acc' := [tags[0]] + rest;
      assert NoDuplicates(acc') by {
        forall i, j | 0 <= i < j < |acc'| ensures acc'[i] != acc'[j] {
          if i > 0 {
            assert acc'[i] == rest[i - 1] && acc'[j] == rest[j - 1];
          } else {
            assert acc'[j] == rest[j - 1] && rest[j - 1] in rest;
          }
        }
      }
      CollectTagsUnion(acc', tags[1..]);
      assert tags == [tags[0]] + tags[1..];
    }
  }

  /** The tags of a moji are exactly the tags of its parts, each listed once. */
  lemma GetTagsUnion(m: MojiParts)
    ensures NoDuplicates(GetTags(m))
    ensures forall t :: t in GetTags(m) <==>
      t in m.mouth.tags || t in m.eyes.tags || t in m.insides.tags ||
      t in m.sides.tags || t in m.arms.tags || t in m.outsides.tags
  {
    CollectTagsUnion([], AllTags(m));
  }

  // ---------------------------------------------------------------------------
  // Display (moji_maker.js:118-145)
  // ---------------------------------------------------------------------------

  /** `arms === '%' + r + r`. */
  predicate IsOffRight(arms: string) {
    |arms| == 3 && arms[0] == '%' && arms[1] == arms[2]
  }

  /** `arms === l + l + '%'`. */
  predicate IsOffLeft(arms: string) {
    |arms| == 3 && arms[2] == '%' && arms[0] == arms[1]
  }

  /** `moji[0] + …` where JavaScript turns a missing unit into `"undefined"`. */
  function FirstOrUndefined(moji: string): string {
    if moji == [] then "undefined" else [moji[0]]
  }

  /** The arm step of `displayCryptomoji`: off-centre arms are placed by hand,
      any other arm template is filled in with `replace`. */
  function PlaceArms(arms: string, moji: string): string {
    if IsOffRight(arms) then FirstOrUndefined(moji) + [arms[1]] + SliceFrom(moji, 1) + [arms[2]]
    else if IsOffLeft(arms) then [arms[0]] + Slice(moji, 0, -1) + [arms[1]] + SliceFrom(moji, -1)
    else Replace(arms, moji)
  }

  /** The moji before trimming: each template is filled with what the previous
      ones built, from the mouth outwards. */
  function Assemble(mouth: string, eyes: string, insides: string, sides: string, arms: string, outsides: string): string {
    var face := Replace(insides, Replace(eyes, mouth));
    Replace(outsides, PlaceArms(arms, Replace(sides, face)))
  }

  /** `displayCryptomoji(mojiParts)`. */
  function Display(m: MojiParts): string {
    Trim(Assemble(m.mouth.text, m.eyes.text, m.insides.text, m.sides.text, m.arms.text, m.outsides.text))
  }

  /** With one `%` in every template, centred arms and no `$` in what gets
      wrapped, the parts nest: each template's left half before and its right
      half after what it wraps. */
  lemma NestedTemplates(mouth: string, el: string, er: string, il: string, ir: string,
                        sl: string, sr: string, al: string, ar: string, ol: string, or: string)
    requires '%' !in el && '%' !in il && '%' !in sl && '%' !in al && '%' !in ol
    requires !IsOffRight(Key(al, ar)) && !IsOffLeft(Key(al, ar))
    requires '$' !in mouth && '$' !in el + er && '$' !in il + ir && '$' !in sl + sr && '$' !in al + ar
    ensures Assemble(mouth, Key(el, er), Key(il, ir), Key(sl, sr), Key(al, ar), Key(ol, or)) ==
      ol + (al + (sl + (il + (el + mouth + er) + ir) + sr) + ar) + or
  {
    var eyes := el + mouth + er;
    var face := il + eyes + ir;
    var sided := sl + face + sr;
    var armed := al + sided + ar;
    Fill(el, er, mouth);
    Fill(il, ir, eyes);
    Fill(sl, sr, face);
    Fill(al, ar, sided);
    Fill(ol, or, armed);
    assert PlaceArms(Key(al, ar), sided) == armed;
    assert Assemble(mouth, Key(el, er), Key(il, ir), Key(sl, sr), Key(al, ar), Key(ol, or)) == ol + armed + or;
  }

  /** A stored key `l % r` wraps what fills it, when that holds no `$`. */
  lemma Fill(l: string, r: string, x: string)
    requires '%' !in l && '$' !in x
    ensures Replace(Key(l, r), x) == l + x + r
  {
    ReplaceFirst(l, r, x);
  }

  /** `%rr` arms: one `r` right after the first unit (just inside a one-unit
      left side), the other at the very end (just outside the right side). */
  lemma OffRightArms(moji: string, r: char)
    requires moji != []
    ensures PlaceArms(['%', r, r], moji) == [moji[0]] + [r] + moji[1..] + [r]
    ensures |PlaceArms(['%', r, r], moji)| == |moji| + 2
  {
  }

  /** `ll%` arms: one `l` at the very start (outside the left side), the other
      right before the last unit (just inside a one-unit right side). */
  lemma OffLeftArms(moji: string, l: char)
    requires moji != [] && l != '%'
    ensures PlaceArms([l, l, '%'], moji) == [l] + moji[..|moji| - 1] + [l] + [moji[|moji| - 1]]
    ensures |PlaceArms([l, l, '%'], moji)| == |moji| + 2
  {
  }

  /** `%rr` arms on nothing build the literal text `undefined`. */
  lemma OffRightOnEmpty(r: char)
    ensures PlaceArms(['%', r, r], []) == "undefined" + [r, r]
  {
  }

  /** An eyes template without `%` (a whole-face glyph) drops the mouth: the
      moji does not depend on it. */
  lemma WholeFaceDropsMouth(mouth: string, other: string, eyes: string, insides: string,
                            sides: string, arms: string, outsides: string)
    requires '%' !in eyes
    ensures Assemble(mouth, eyes, insides, sides, arms, outsides) ==
            Assemble(other, eyes, insides, sides, arms, outsides)
  {
  }

  // ---------------------------------------------------------------------------
  // parseDna (moji_maker.js:214-223)
  // ---------------------------------------------------------------------------

  /** What `parseDna` returns. */
  datatype Cryptomoji = Cryptomoji(moji: string, dna: string, tags: seq<string>)

  /** `parseDna(dna)`: `None` where the source throws (no gene in the string,
      or a gene that picks no part). */
  function ParseDna(dna: string, parts: map<Category, seq<Part>>): (r: Option<Cryptomoji>)
    requires forall c: Category :: c in parts
    ensures r.Some? ==> r.value.dna == dna
  {
    match DnaToArray(dna)
    case None => None
    case Some(genes) =>
      match GetMojiParts(genes, parts)
      case None => None
      case Some(m) => Some(Cryptomoji(Display(m), dna, GetTags(m)))
  }

  /** Every DNA string the generator writes (nine genes below `DNA_SIZE`)
      parses back into the moji of those very genes, when every category has
      parts. */
  lemma EncodedDnaParses(genes: seq<nat>, parts: map<Category, seq<Part>>)
    requires forall c: Category :: c in parts && parts[c] != []
    requires |genes| == |GENE_TYPES| && forall i :: 0 <= i < |genes| ==> genes[i] < DNA_SIZE
    ensures GetMojiParts(genes, parts).Some?
    ensures var m := GetMojiParts(genes, parts).value;
      ParseDna(DnaToString(genes), parts) == Some(Cryptomoji(Display(m), DnaToString(genes), GetTags(m)))
  {
    DnaRoundTrip(genes);
    GenesMakeMoji(genes, parts);
    assert DnaToArray(DnaToString(genes)) == Some(genes);
  }
}
