/** The spacing loop of `getPart` (moji_maker.js:73-93): a part text is spread
    out by inserting spaces where the bits of its whitespace gene are 0, and no
    run of spaces grows longer than `MAX_WHITESPACE`. */
module Spacing {

  import opened JsString
  import opened Seqs

  /** `MAX_WHITESPACE`: the longest run of spaces the spacing loop lets grow. */
  const MAX_WHITESPACE: nat := 4

  /** `maxSpaces`, MAX_WHITESPACE spaces. */
  const MAX_SPACES: string := "    "

  /** A non-empty sequence of bits. */
  predicate IsBitString(bits: seq<nat>) {
    |bits| > 0 && forall k :: 0 <= k < |bits| ==> bits[k] <= 1
  }

  // ---------------------------------------------------------------------------
  // The spacing loop (moji_maker.js:73-93)
  // ---------------------------------------------------------------------------

  /** The number of spaces `s` ends with. */
  function Trailing(s: string): (n: nat)
    ensures n <= |s|
    decreases |s|
  {
    if s != [] && s[|s| - 1] == ' ' then Trailing(s[..|s| - 1]) + 1 else 0
  }

  /** The longest run of spaces anywhere in `s`. */
  function LongestRun(s: string): (n: nat)
    ensures Trailing(s) <= n
    decreases |s|
  {
    if s == [] then 0
    else
      var before := LongestRun(s[..|s| - 1]);
      if before < Trailing(s) then Trailing(s) else before
  }

  /** `s` with every space deleted. */
  function RemoveSpaces(s: string): (r: string)
    ensures ' ' !in r && |r| <= |s|
    ensures ' ' !in s ==> r == s
    decreases |s|
  {
    if s == [] then []
    else
      var front := RemoveSpaces(s[..|s| - 1]);
      assert s == s[..|s| - 1] + [s[|s| - 1]];
      if s[|s| - 1] == ' ' then front else front + [s[|s| - 1]]
  }

  /** `spacedPart.slice(-MAX_WHITESPACE) === maxSpaces`. */
  predicate FullRun(acc: string) {
    SliceFrom(acc, -(MAX_WHITESPACE as int)) == MAX_SPACES
  }

  /** How many more spaces the loop may add before a pop is forced. */
  function Room(acc: string): nat {
    if Trailing(acc) >= MAX_WHITESPACE then 0 else MAX_WHITESPACE - Trailing(acc)
  }

  /** The loop from an iteration at bit `j`, with the characters `rest` still
      to place and `acc` built so far. Bit 0 adds a space; bit 1, or a space
      that completes a full run, places the next character, or ends the loop
      when none is left. The index wraps to 0 past the last bit. Each iteration
      either consumes a character or adds a space, and at most
      `MAX_WHITESPACE` spaces come in a row before a character is forced, so
      the loop terminates. The full-run test is stated on the trailing
      spaces; `FullRunTrailing` shows it is the source's slice test. */
  function SpaceLoop(rest: string, bits: seq<nat>, j: nat, acc: string): string
    requires IsBitString(bits) && j < |bits|
    decreases |rest|, Room(acc), 1
  {
    var next := NextBit(bits, j);
    if bits[j] == 1 then PlaceNext(rest, bits, next, acc)
    else if Trailing(acc + " ") >= MAX_WHITESPACE then PlaceNext(rest, bits, next, acc + " ")
    else
      assert Room(acc + " ") < Room(acc) by {
        AppendSpace(acc);
      }
      SpaceLoop(rest, bits, next, acc + " ")
  }

  /** The second half of an iteration that places a character: pop the next
      one, or end the loop with `acc` when none is left. */
  function PlaceNext(rest: string, bits: seq<nat>, next: nat, acc: string): string
    requires IsBitString(bits) && next < |bits|
    decreases |rest|, 0, 0
  {
    if rest == [] then acc else SpaceLoop(rest[1..], bits, next, acc + [rest[0]])
  }

  /** The bit index of the following iteration: `i++`, then back to 0 at the
      end of the pattern. */
  function NextBit(bits: seq<nat>, j: nat): (k: nat)
    ensures k < |bits| <==> |bits| > 0
  {
    if j + 1 >= |bits| then 0 else j + 1
  }

  /** The spaced part text for the bit pattern `bits`. */
  function Spaced(text: string, bits: seq<nat>): string
    requires IsBitString(bits)
  {
    SpaceLoop(text, bits, 0, [])
  }

  /** A full run is exactly `MAX_WHITESPACE` or more trailing spaces. */
  lemma FullRunTrailing(acc: string)
    ensures FullRun(acc) <==> Trailing(acc) >= MAX_WHITESPACE
  {
    if |acc| >= MAX_WHITESPACE {
      TrailingSuffix(acc, MAX_WHITESPACE);
      var tail := acc[|acc| - MAX_WHITESPACE..];
      assert SliceFrom(acc, -(MAX_WHITESPACE as int)) == tail;
      if Trailing(acc) >= MAX_WHITESPACE {
        assert forall m :: 0 <= m < MAX_WHITESPACE ==> tail[m] == acc[|acc| - MAX_WHITESPACE + m];
      }
      if tail == MAX_SPACES {
        assert forall m :: |acc| - MAX_WHITESPACE <= m < |acc| ==> acc[m] == tail[m - (|acc| - MAX_WHITESPACE)];
      }
    } else {
      assert |SliceFrom(acc, -(MAX_WHITESPACE as int))| <= |acc|;
    }
  }

  /** `s` ends with at least `k` spaces iff its last `k` units are spaces. */
  lemma {:induction false} TrailingSuffix(s: string, k: nat)
    requires k <= |s|
    ensures Trailing(s) >= k <==> forall m :: |s| - k <= m < |s| ==> s[m] == ' '
    decreases k
  {
    if k > 0 {
      var front := s[..|s| - 1];
      TrailingSuffix(front, k - 1);
      assert forall m :: |s| - k <= m < |s| - 1 ==> front[m] == s[m];
    }
  }

  /** The loop neither loses nor reorders a character: deleting the spaces
      from its result leaves the non-space characters of `acc` and then
      those of `rest`. */
  lemma {:induction false} SpaceLoopKeepsText(rest: string, bits: seq<nat>, j: nat, acc: string)
    requires IsBitString(bits) && j < |bits|
    ensures RemoveSpaces(SpaceLoop(rest, bits, j, acc)) == RemoveSpaces(acc) + RemoveSpaces(rest)
    decreases |rest|, Room(acc), 1
  {
    var next := NextBit(bits, j);
    if bits[j] == 1 {
      PlaceNextKeepsText(rest, bits, next, acc);
    } else if Trailing(acc + " ") >= MAX_WHITESPACE {
      PlaceNextKeepsText(rest, bits, next, acc + " ");
      SpaceKeepsText(acc);
    } else {
      RoomShrinks(acc);
      SpaceLoopKeepsText(rest, bits, next, acc + " ");
      SpaceKeepsText(acc);
    }
  }

  lemma {:induction false} PlaceNextKeepsText(rest: string, bits: seq<nat>, next: nat, acc: string)
    requires IsBitString(bits) && next < |bits|
    ensures RemoveSpaces(PlaceNext(rest, bits, next, acc)) == RemoveSpaces(acc) + RemoveSpaces(rest)
    decreases |rest|, 0, 0
  {
    if rest == [] {
      assert RemoveSpaces(rest) == [];
    } else {
      var c, tail := rest[0], rest[1..];
      assert rest == [c] + tail;
      SpaceLoopKeepsText(tail, bits, next, acc + [c]);
      MoveUnit(acc, c, tail);
    }
  }

  /** Adding a space short of a full run leaves less room. */
  lemma RoomShrinks(acc: string)
    requires Trailing(acc + " ") < MAX_WHITESPACE
    ensures Room(acc + " ") < Room(acc)
  {
    assert (acc + " ")[..|acc|] == acc;
  }

  /** A space does not change the text. */
  lemma SpaceKeepsText(acc: string)
    ensures RemoveSpaces(acc + " ") == RemoveSpaces(acc)
  {
    assert (acc + " ")[..|acc|] == acc;
  }

  /** Moving a unit from the front of what is left onto the end of what is
      built keeps the text. */
  lemma MoveUnit(acc: string, c: char, tail: string)
    ensures RemoveSpaces(acc + [c]) + RemoveSpaces(tail) == RemoveSpaces(acc) + RemoveSpaces([c] + tail)
  {
    RemoveSpacesAppend(acc, [c]);
    RemoveSpacesAppend([c], tail);
  }

  lemma {:induction false} RemoveSpacesAppend(a: string, b: string)
    ensures RemoveSpaces(a + b) == RemoveSpaces(a) + RemoveSpaces(b)
    decreases |b|
  {
    if b == [] {
      assert a + b == a;
    } else {
      var b', last := b[..|b| - 1], b[|b| - 1];
      assert (a + b)[..|a + b| - 1] == a + b' && (a + b)[|a + b| - 1] == last;
      RemoveSpacesAppend(a, b');
      assert RemoveSpaces(a + b) == RemoveSpaces(a + b') + (if last == ' ' then [] else [last]);
      assert RemoveSpaces(b) == RemoveSpaces(b') + (if last == ' ' then [] else [last]);
    }
  }

  /** On a part without spaces, no run in the loop's result is longer than
      `MAX_WHITESPACE`: fewer than that many trailing spaces at the start of an
      iteration means a character is forced when the run fills up. */
  lemma {:induction false} SpaceLoopRuns(rest: string, bits: seq<nat>, j: nat, acc: string)
    requires IsBitString(bits) && j < |bits|
    requires ' ' !in rest && Trailing(acc) < MAX_WHITESPACE && LongestRun(acc) <= MAX_WHITESPACE
    ensures LongestRun(SpaceLoop(rest, bits, j, acc)) <= MAX_WHITESPACE
    decreases |rest|, Room(acc), 1
  {
    var next := NextBit(bits, j);
    if bits[j] == 1 {
      PlaceNextRuns(rest, bits, next, acc);
    } else {
      AppendSpace(acc);
      if Trailing(acc + " ") >= MAX_WHITESPACE {
        PlaceNextRuns(rest, bits, next, acc + " ");
      } else {
        SpaceLoopRuns(rest, bits, next, acc + " ");
      }
    }
  }

  lemma {:induction false} PlaceNextRuns(rest: string, bits: seq<nat>, next: nat, acc: string)
    requires IsBitString(bits) && next < |bits|
    requires ' ' !in rest && LongestRun(acc) <= MAX_WHITESPACE
    ensures LongestRun(PlaceNext(rest, bits, next, acc)) <= MAX_WHITESPACE
    decreases |rest|, 0, 0
  {
    if rest != [] {
      var c, tail := rest[0], rest[1..];
      assert c in rest && rest == [c] + tail;
      AppendOther(acc, c);
      SpaceLoopRuns(tail, bits, next, acc + [c]);
    }
  }

  /** A space extends the trailing run by one. */
  lemma AppendSpace(acc: string)
    ensures Trailing(acc + " ") == Trailing(acc) + 1
    ensures LongestRun(acc + " ") == if LongestRun(acc) < Trailing(acc) + 1 then Trailing(acc) + 1 else LongestRun(acc)
  {
    assert (acc + " ")[..|acc|] == acc;
  }

  /** Any other unit ends the trailing run. */
  lemma AppendOther(acc: string, c: char)
    requires c != ' '
    ensures Trailing(acc + [c]) == 0 && LongestRun(acc + [c]) == LongestRun(acc)
  {
    assert (acc + [c])[..|acc|] == acc;
  }

  /** A pattern of all 1 bits places every character and adds no space. */
  lemma {:induction false} AllOnesKeepText(rest: string, bits: seq<nat>, j: nat, acc: string)
    requires IsBitString(bits) && j < |bits| && forall k :: 0 <= k < |bits| ==> bits[k] == 1
    ensures SpaceLoop(rest, bits, j, acc) == acc + rest
    decreases |rest|
  {
    assert bits[j] == 1;
    if rest != [] {
      AllOnesKeepText(rest[1..], bits, NextBit(bits, j), acc + [rest[0]]);
      assert acc + [rest[0]] + rest[1..] == acc + rest;
    }
  }

  /** The spaced text keeps the part's characters, and on a part without
      spaces, which is every part the analyzer stores, its runs stay within
      `MAX_WHITESPACE` and the part comes back once the spaces are deleted. */
  lemma SpacedFacts(text: string, bits: seq<nat>)
    requires IsBitString(bits)
    ensures RemoveSpaces(Spaced(text, bits)) == RemoveSpaces(text)
    ensures ' ' !in text ==> RemoveSpaces(Spaced(text, bits)) == text
    ensures ' ' !in text ==> LongestRun(Spaced(text, bits)) <= MAX_WHITESPACE
  {
    SpaceLoopKeepsText(text, bits, 0, []);
    if ' ' !in text {
      SpaceLoopRuns(text, bits, 0, []);
    }
  }

  lemma ReversePop<T>(rest: seq<T>)
    requires rest != []
    ensures Reverse(rest)[|rest| - 1] == rest[0]
    ensures Reverse(rest)[..|rest| - 1] == Reverse(rest[1..])
  {
  }

  /** The loop of `getPart` as written: the characters are popped off the end
      of the reversed part, the bit index wraps around, and the loop only ends
      when a character is due and none is left. */
  method SpacePart(text: string, bits: seq<nat>) returns (spaced: string)
    requires IsBitString(bits)
    ensures spaced == Spaced(text, bits)
  {
    var chars := Reverse(text);
    ghost var rest := text;
    spaced := "";
    var i := 0;
    while true
      invariant i <= |bits| && chars == Reverse(rest)
      invariant SpaceLoop(rest, bits, if i >= |bits| then 0 else i, spaced) == Spaced(text, bits)
      decreases |chars|, Room(spaced)
    {
      if i >= |bits| {
        i := 0;
      }
      ghost var before := spaced;
      if bits[i] == 0 {
        spaced := spaced + " ";
      }
      FullRunTrailing(spaced);
      if bits[i] == 1 || FullRun(spaced) {
        assert SpaceLoop(rest, bits, i, before) == PlaceNext(rest, bits, NextBit(bits, i), spaced);
        if chars == [] {
          return;
        }
        var c := chars[|chars| - 1];
        ReversePop(rest);
        chars := chars[..|chars| - 1];
        rest := rest[1..];
        spaced := spaced + [c];
      } else {
        RoomShrinks(before);
      }
      i := i + 1;
    }
  }
}
