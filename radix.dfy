/** The generator's number encodings (moji_maker.js:7-9, 48-65): `intToString`,
    which writes a number in a radix at a fixed width, and the hexadecimal DNA
    strings built from it and read back by a regular expression. */
module Radix {

  import opened Wrappers
  import opened JsString

  /** `DNA_BITS = 2 * 8`: each gene is a 16-bit number. */
  const DNA_BITS: nat := 16
  /** `DNA_SIZE = 2 ** DNA_BITS` */
  const DNA_SIZE: nat := 65536
  /** The hexadecimal width of a gene, `DNA_BITS / 4`. */
  const HEX_WIDTH: nat := DNA_BITS / 4

  function Pow(b: nat, n: nat): (r: nat)
    ensures b >= 1 ==> r >= 1
    decreases n
  {
    if n == 0 then 1 else b * Pow(b, n - 1)
  }

  lemma DnaSizeIsPower()
    ensures DNA_SIZE == Pow(2, DNA_BITS) == Pow(16, HEX_WIDTH)
  {
    assert Pow(16, 2) == 256;
    assert Pow(2, 8) == 256;
  }

  // ---------------------------------------------------------------------------
  // Digits
  // ---------------------------------------------------------------------------

  /** The digit `d` (below 36) as `Number.prototype.toString` writes it:
      `0`-`9`, then lower-case `a`-`z`. */
  function DigitChar(d: nat): (c: char)
    requires d < 36
  {
    if d < 10 then ('0' as int + d) as char else ('a' as int + d - 10) as char
  }

  /** The value of a digit character, -1 for any other character. */
  function DigitValue(c: char): (v: int)
    ensures -1 <= v < 36
  {
    if '0' <= c <= '9' then c as int - '0' as int
    else if 'a' <= c <= 'z' then c as int - 'a' as int + 10
    else -1
  }

  lemma DigitRoundTrip(d: nat)
    requires d < 36
    ensures DigitValue(DigitChar(d)) == d
  {
  }

  predicate IsDigit(c: char, radix: nat) {
    0 <= DigitValue(c) < radix
  }

  predicate AllDigits(s: string, radix: nat) {
    forall i :: 0 <= i < |s| ==> IsDigit(s[i], radix)
  }

  /** The number a string of digits denotes, most significant digit first. */
  function Value(s: string, radix: nat): (v: nat)
    requires AllDigits(s, radix)
    decreases |s|
  {
    if s == [] then 0 else Value(s[..|s| - 1], radix) * radix + DigitValue(s[|s| - 1])
  }

  /** `x.toString(radix)` for a non-negative integer: its digits, most
      significant first, without leading zeros (zero itself is `"0"`). */
  function RadixString(x: nat, radix: nat): (r: string)
    requires 2 <= radix <= 36
    ensures r != [] && AllDigits(r, radix)
    ensures |r| > 1 ==> r[0] != '0'
    decreases x
  {
    if x < radix then [DigitChar(x)]
    else
      DivSmaller(x, radix);
      var high := RadixString(x / radix, radix);
      var r := high + [DigitChar(x % radix)];
      assert r[0] == high[0];
      r
  }

  /** Reading back the digits of `x` gives `x`. */
  lemma {:induction false} RadixStringValue(x: nat, radix: nat)
    requires 2 <= radix <= 36
    ensures Value(RadixString(x, radix), radix) == x
    decreases x
  {
    var r := RadixString(x, radix);
    if x < radix {
      assert r[..0] == [];
    } else {
      DivSmaller(x, radix);
      var high := RadixString(x / radix, radix);
      assert r[..|r| - 1] == high && r[|r| - 1] == DigitChar(x % radix);
      RadixStringValue(x / radix, radix);
      DivMod(x, radix);
    }
  }

  /** A string of `n` zero digits, the `padding` of `intToString`. */
  function Zeros(n: nat): (r: string)
    ensures |r| == n && forall i :: 0 <= i < n ==> r[i] == '0'
  {
    seq(n, _ => '0')
  }

  /** `intToString(integer, radix, size)`: the digits of `integer`, left-padded
      with zeros to `size` units and then cut to the last `size` of them. An
      absent `size` (`null`) is the length of the digits; a `size` of zero makes
      `slice(-0)` keep the whole string. */
  function IntToString(x: nat, radix: nat, size: Option<nat>): (r: string)
    requires 2 <= radix <= 36
  {
    var bits := RadixString(x, radix);
    var n := if size.None? then |bits| else size.value;
    SliceFrom(Zeros(n) + bits, -n)
  }

  /** Without `size`, or with size 0, `intToString` is the plain digit string;
      with `size` at least one it is exactly `size` digits: the digits of the
      number behind `size - |digits|` zeros when they fit, else their last
      `size` digits, which denote the number modulo `radix ** size`. */
  lemma IntToStringShape(x: nat, radix: nat, size: Option<nat>)
    requires 2 <= radix <= 36
    ensures var r, bits := IntToString(x, radix, size), RadixString(x, radix);
      (size.None? || size == Some(0) ==> r == bits) &&
      (size.Some? && size.value >= 1 ==>
        |r| == size.value && AllDigits(r, radix) &&
        r == (if size.value >= |bits| then Zeros(size.value - |bits|) + bits else bits[|bits| - size.value..]) &&
        Value(r, radix) == x % Pow(radix, size.value))
  {
    if size.Some? && size.value >= 1 {
      var n := size.value;
      if n >= |RadixString(x, radix)| {
        PaddedDigits(x, radix, n);
        SmallModulo(x, Pow(radix, n));
      } else {
        CutDigits(x, radix, n);
      }
    }
  }

  /** A width the digits fit in: zeros, then the digits, denoting `x`, which
      is below `radix ** n`. */
  lemma PaddedDigits(x: nat, radix: nat, n: nat)
    requires 2 <= radix <= 36 && n >= 1 && n >= |RadixString(x, radix)|
    ensures var r, bits := IntToString(x, radix, Some(n)), RadixString(x, radix);
      r == Zeros(n - |bits|) + bits && AllDigits(r, radix) && Value(r, radix) == x && x < Pow(radix, n)
  {
    var bits := RadixString(x, radix);
    var padded := Zeros(n) + bits;
    assert IntToString(x, radix, Some(n)) == padded[|padded| - n..];
    assert padded[|padded| - n..] == Zeros(n - |bits|) + bits;
    ZerosPrefixValue(n - |bits|, bits, radix);
    RadixStringValue(x, radix);
    ValueBound(bits, radix);
    PowMonotone(radix, |bits|, n);
  }

  /** A width shorter than the digits: their last `n`, denoting `x` modulo
      `radix ** n`. */
  lemma CutDigits(x: nat, radix: nat, n: nat)
    requires 2 <= radix <= 36 && 1 <= n < |RadixString(x, radix)|
    ensures var r, bits := IntToString(x, radix, Some(n)), RadixString(x, radix);
      r == bits[|bits| - n..] && AllDigits(r, radix) && Value(r, radix) == x % Pow(radix, n)
  {
    var bits := RadixString(x, radix);
    CutDigitsText(x, radix, n);
    RadixStringValue(x, radix);
    SuffixValue(bits, radix, n);
  }

  /** The text of a cut: the last `n` digits. */
  lemma CutDigitsText(x: nat, radix: nat, n: nat)
    requires 2 <= radix <= 36 && 1 <= n < |RadixString(x, radix)|
    ensures var bits := RadixString(x, radix); IntToString(x, radix, Some(n)) == bits[|bits| - n..]
  {
    var bits := RadixString(x, radix);
    var padded := Zeros(n) + bits;
    assert IntToString(x, radix, Some(n)) == padded[|padded| - n..];
    assert padded[|padded| - n..] == bits[|bits| - n..];
  }

  /** With a `size`, the result has exactly `size` units. */
  lemma IntToStringWidth(x: nat, radix: nat, n: nat)
    requires 2 <= radix <= 36 && n >= 1
    ensures |IntToString(x, radix, Some(n))| == n
  {
    var padded := Zeros(n) + RadixString(x, radix);
    assert IntToString(x, radix, Some(n)) == padded[|padded| - n..];
  }

  // ---------------------------------------------------------------------------
  // Arithmetic on digit strings
  // ---------------------------------------------------------------------------

  lemma SmallModulo(x: nat, m: nat)
    requires x < m
    ensures x % m == x
  {
  }

  lemma {:induction false} PowMonotone(b: nat, i: nat, j: nat)
    requires b >= 1 && i <= j
    ensures Pow(b, i) <= Pow(b, j)
    decreases j
  {
    if i < j {
      PowMonotone(b, i, j - 1);
      PowStep(b, j);
    }
  }

  /** One more factor of `b >= 1` does not make the power smaller. */
  lemma PowStep(b: nat, j: nat)
    requires b >= 1 && j >= 1
    ensures Pow(b, j - 1) <= Pow(b, j)
  {
    var p := Pow(b, j - 1);
    assert Pow(b, j) == b * p;
    MulMono(1, b, p);
  }

  /** `n` digits denote less than `radix ** n`. */
  lemma {:induction false} ValueBound(s: string, radix: nat)
    requires AllDigits(s, radix)
    ensures Value(s, radix) < Pow(radix, |s|)
    decreases |s|
  {
    if s != [] {
      var p := s[..|s| - 1];
      ValueBound(p, radix);
      var pw := Pow(radix, |p|);
      assert Pow(radix, |s|) == radix * pw;
      DigitStep(Value(p, radix), pw, DigitValue(s[|s| - 1]), radix);
    }
  }

  /** Appending a digit below `b` to a value below `pw` stays below `b * pw`. */
  lemma DigitStep(v: nat, pw: nat, d: nat, b: nat)
    requires v < pw && d < b
    ensures v * b + d < b * pw
  {
    MulMono(v, pw - 1, b);
    assert (pw - 1) * b == pw * b - b;
  }

  /** Leading zeros do not change the value. */
  lemma {:induction false} ZerosPrefixValue(k: nat, s: string, radix: nat)
    requires AllDigits(s, radix) && radix >= 1
    ensures AllDigits(Zeros(k) + s, radix) && Value(Zeros(k) + s, radix) == Value(s, radix)
    decreases |s|
  {
    var z := Zeros(k) + s;
    assert forall i :: 0 <= i < |z| ==> IsDigit(z[i], radix) by {
      forall i | 0 <= i < |z| ensures IsDigit(z[i], radix) {
        if i < k { assert z[i] == '0'; } else { assert z[i] == s[i - k]; }
      }
    }
    if s == [] {
      assert z == Zeros(k);
      ZerosValue(k, radix);
    } else {
      assert z[..|z| - 1] == Zeros(k) + s[..|s| - 1];
      ZerosPrefixValue(k, s[..|s| - 1], radix);
    }
  }

  lemma {:induction false} ZerosValue(k: nat, radix: nat)
    requires radix >= 1
    ensures AllDigits(Zeros(k), radix) && Value(Zeros(k), radix) == 0
    decreases k
  {
    if k > 0 {
      assert Zeros(k)[..k - 1] == Zeros(k - 1);
      ZerosValue(k - 1, radix);
    }
  }

  /** The last `n` digits denote the value modulo `radix ** n`. */
  lemma {:induction false} SuffixValue(s: string, radix: nat, n: nat)
    requires AllDigits(s, radix) && radix >= 2 && n <= |s|
    ensures AllDigits(s[|s| - n..], radix)
    ensures Value(s[|s| - n..], radix) == Value(s, radix) % Pow(radix, n)
    decreases n
  {
    var t := s[|s| - n..];
    assert forall i :: 0 <= i < |t| ==> t[i] == s[|s| - n + i];
    if n == 0 {
      assert t == [];
    } else {
      var p := s[..|s| - 1];
      var d := DigitValue(s[|s| - 1]);
      SuffixValue(p, radix, n - 1);
      var q := p[|p| - (n - 1)..];
      assert t[..|t| - 1] == q && t[|t| - 1] == s[|s| - 1];
      var m := Pow(radix, n - 1);
      var v := Value(p, radix);
      assert Value(q, radix) == v % m;
      assert Value(t, radix) == (v % m) * radix + d;
      assert Value(s, radix) == v * radix + d;
      ShiftModulo(v, m, radix, d);
    }
  }

  /** `(v·b + d) mod (m·b) = (v mod m)·b + d` for a digit `d < b`. */
  lemma ShiftModulo(v: nat, m: nat, b: nat, d: nat)
    requires m >= 1 && d < b
    ensures (v * b + d) % (b * m) == (v % m) * b + d
  {
    var q, r := v / m, v % m;
    DivMod(v, m);
    assert v * b == (q * m + r) * b;
    assert (q * m + r) * b == q * (b * m) + r * b;
    MulMono(r, m - 1, b);
    assert (m - 1) * b == b * m - b;
    ModuloOfSum(q, b * m, r * b + d);
  }

  lemma MulNonneg(a: nat, b: nat)
    ensures a * b >= 0
  {
  }

  lemma MulMono(a: nat, b: nat, c: nat)
    requires a <= b
    ensures a * c <= b * c
  {
    assert b * c == a * c + (b - a) * c;
    MulNonneg(b - a, c);
  }

  /** Euclidean division by `d`. */
  lemma DivMod(x: nat, d: nat)
    requires d >= 1
    ensures x == (x / d) * d + x % d && 0 <= x % d < d
  {
  }

  lemma DivSmaller(x: nat, d: nat)
    requires d >= 2 && x >= d
    ensures 1 <= x / d < x
  {
    var q, r := x / d, x % d;
    DivMod(x, d);
    assert q * d == q * (d - 2) + 2 * q;
    MulNonneg(q, d - 2);
  }

  lemma ModuloOfSum(q: nat, m: nat, r: nat)
    requires r < m
    ensures (q * m + r) % m == r
  {
    var x := q * m + r;
    var k, s := x / m, x % m;
    DivMod(x, m);
    if k < q {
      assert (q - k) * m == s - r;
      MulMono(1, q - k, m);
    } else if k > q {
      assert (k - q) * m == r - s;
      MulMono(1, k - q, m);
    }
  }

  // ---------------------------------------------------------------------------
  // DNA strings
  // ---------------------------------------------------------------------------

  /** `dnaToString(dnaArray)`: each gene as four hexadecimal digits, joined. */
  function DnaToString(dna: seq<nat>): (r: string)
    ensures |r| == HEX_WIDTH * |dna|
    decreases |dna|
  {
    if dna == [] then []
    else
      IntToStringWidth(dna[0], 16, HEX_WIDTH);
      IntToString(dna[0], 16, Some(HEX_WIDTH)) + DnaToString(dna[1..])
  }

  /** A unit of the class `[0-9a-f]`. */
  predicate IsHexUnit(c: char) {
    '0' <= c <= '9' || 'a' <= c <= 'f'
  }

  predicate IsHexRun(s: string) {
    |s| == HEX_WIDTH && forall i :: 0 <= i < |s| ==> IsHexUnit(s[i])
  }

  /** `s.match(/[0-9a-f]{4,4}/g)` as a list: scanning from the left, a run of
      four hex units is a match and the scan resumes after it; otherwise the
      scan moves on by one unit. */
  function HexRuns(s: string): (r: seq<string>)
    ensures forall i :: 0 <= i < |r| ==> IsHexRun(r[i])
    decreases |s|
  {
    if |s| < HEX_WIDTH then []
    else if IsHexRun(s[..HEX_WIDTH]) then [s[..HEX_WIDTH]] + HexRuns(s[HEX_WIDTH..])
    else HexRuns(s[1..])
  }

  /** `parseInt(hex, 16)` of each matched run. */
  function HexValues(runs: seq<string>): (r: seq<nat>)
    requires forall i :: 0 <= i < |runs| ==> IsHexRun(runs[i])
    ensures |r| == |runs|
    decreases |runs|
  {
    if runs == [] then []
    else
      assert AllDigits(runs[0], 16) by {
        assert IsHexRun(runs[0]);
        forall i | 0 <= i < |runs[0]| ensures IsDigit(runs[0][i], 16) {
          assert IsHexUnit(runs[0][i]);
        }
      }
      [Value(runs[0], 16)] + HexValues(runs[1..])
  }

  /** `dnaToArray(dnaString)`; `None` where `match` finds nothing and returns
      `null`, whose `.map` then throws. */
  function DnaToArray(s: string): Option<seq<nat>> {
    var runs := HexRuns(s);
    if runs == [] then None else Some(HexValues(runs))
  }

  /** A string without four hex units in a row, the empty string among them,
      does not decode. */
  lemma ShortDnaFails(s: string)
    requires |s| < HEX_WIDTH
    ensures DnaToArray(s) == None
  {
  }

  /** Every gene below `DNA_SIZE` encodes as one hex run that reads back as
      the gene. */
  lemma GeneRoundTrip(x: nat)
    requires x < DNA_SIZE
    ensures IsHexRun(IntToString(x, 16, Some(HEX_WIDTH)))
    ensures Value(IntToString(x, 16, Some(HEX_WIDTH)), 16) == x
  {
    var r := IntToString(x, 16, Some(HEX_WIDTH));
    GeneDigits(x);
    forall i | 0 <= i < |r| ensures IsHexUnit(r[i]) {
      assert IsDigit(r[i], 16);
    }
  }

  /** A gene's four digits read back as the gene. */
  lemma GeneDigits(x: nat)
    requires x < DNA_SIZE
    ensures var r := IntToString(x, 16, Some(HEX_WIDTH));
      |r| == HEX_WIDTH && AllDigits(r, 16) && Value(r, 16) == x
  {
    IntToStringShape(x, 16, Some(HEX_WIDTH));
    DnaSizeIsPower();
    SmallModulo(x, Pow(16, HEX_WIDTH));
  }

  /** Encoding is read back by the scan one run per gene. */
  lemma {:induction false} DnaRuns(dna: seq<nat>)
    requires forall i :: 0 <= i < |dna| ==> dna[i] < DNA_SIZE
    ensures |HexRuns(DnaToString(dna))| == |dna|
    ensures HexValues(HexRuns(DnaToString(dna))) == dna
    decreases |dna|
  {
    if dna != [] {
      var block := IntToString(dna[0], 16, Some(HEX_WIDTH));
      var rest := DnaToString(dna[1..]);
      assert DnaToString(dna) == block + rest;
      GeneRoundTrip(dna[0]);
      LeadingRun(block, rest);
      DnaRuns(dna[1..]);
      HexValuesCons(block, HexRuns(rest));
      assert dna == [dna[0]] + dna[1..];
    }
  }

  /** A leading hex run is the first match, and the scan resumes after it. */
  lemma LeadingRun(block: string, rest: string)
    requires IsHexRun(block)
    ensures HexRuns(block + rest) == [block] + HexRuns(rest)
  {
    var s := block + rest;
    assert s[..HEX_WIDTH] == block && s[HEX_WIDTH..] == rest;
  }

  lemma HexValuesCons(block: string, runs: seq<string>)
    requires IsHexRun(block) && forall i :: 0 <= i < |runs| ==> IsHexRun(runs[i])
    ensures HexValues([block] + runs) == [HexValues([block])[0]] + HexValues(runs)
  {
    assert ([block] + runs)[1..] == runs;
    assert ([block] + runs)[0] == block;
  }

  /** `dnaToArray(dnaToString(a)) == a` for a non-empty list of 16-bit genes. */
  lemma DnaRoundTrip(dna: seq<nat>)
    requires dna != [] && forall i :: 0 <= i < |dna| ==> dna[i] < DNA_SIZE
    ensures DnaToArray(DnaToString(dna)) == Some(dna)
  {
    DnaRuns(dna);
  }
}
