/** The few JavaScript string and array primitives the analyzer and the generator
    rely on, with their edge cases written out: a string is the sequence of its
    UTF-16 code units, one `char` per code unit. */
module JsString {

  /** How `slice` turns a possibly negative position into an index of a string
      of length `n`: negative positions count from the end, and the result is
      clamped to `0..n`. */
  function Clamp(i: int, n: nat): (r: nat)
    ensures r <= n
    ensures 0 <= i <= n ==> r == i
    ensures i > n ==> r == n
    ensures i < 0 && n + i >= 0 ==> r == n + i
    ensures n + i < 0 ==> r == 0
  {
    if i < 0 then (if n + i < 0 then 0 else n + i) else if i > n then n else i
  }

  /** `s.slice(start, end)`: empty whenever the clamped start is not before the
      clamped end. */
  function Slice(s: string, start: int, end: int): (r: string)
    ensures 0 <= start <= end <= |s| ==> r == s[start..end]
    ensures 0 <= end <= start ==> r == []
    ensures |r| <= |s|
  {
    var a, b := Clamp(start, |s|), Clamp(end, |s|);
    if a < b then s[a..b] else []
  }

  /** `s.slice(start)`. */
  function SliceFrom(s: string, start: int): (r: string)
    ensures 0 <= start <= |s| ==> r == s[start..]
    ensures start >= |s| ==> r == []
    ensures start == -1 && |s| > 0 ==> r == [s[|s| - 1]]
  {
    Slice(s, start, |s|)
  }

  /** `s[i] || ''`: the code unit at `i` as a one-unit string, or the empty
      string when `i` is out of range (where JavaScript gives `undefined`). */
  function At(s: string, i: int): (r: string)
    ensures 0 <= i < |s| ==> r == [s[i]]
    ensures (i < 0 || i >= |s|) ==> r == []
  {
    if 0 <= i < |s| then [s[i]] else []
  }

  /** The text `replace` puts in place of a matched `%` (ECMAScript
      GetSubstitution for a string pattern, which has no capture groups):
      `$$` is a `$`, `$&` the matched `%`, `` $` `` the text before the match,
      `$'` the text after it; any other `$` stays as it is. */
  function Substitute(x: string, before: string, after: string): (r: string)
    ensures '$' !in x ==> r == x
    decreases |x|
  {
    if x == [] then []
    else if x[0] == '$' && |x| >= 2 && x[1] == '$' then "$" + Substitute(x[2..], before, after)
    else if x[0] == '$' && |x| >= 2 && x[1] == '&' then "%" + Substitute(x[2..], before, after)
    else if x[0] == '$' && |x| >= 2 && x[1] == '`' then before + Substitute(x[2..], before, after)
    else if x[0] == '$' && |x| >= 2 && x[1] == '\'' then after + Substitute(x[2..], before, after)
    else [x[0]] + Substitute(x[1..], before, after)
  }

  /** `template.replace('%', x)`: the first `%` is replaced by the substitution
      of `x`; a template without `%` comes back unchanged. */
  function Replace(template: string, x: string): (r: string)
    ensures '%' !in template ==> r == template
  {
    var p := IndexOf(template, '%');
    if p == -1 then template
    else template[..p] + Substitute(x, template[..p], template[p + 1..]) + template[p + 1..]
  }

  /** In `l % rest` with no `%` in `l`, the first `%` is the one after `l`. */
  lemma FirstPercent(l: string, rest: string)
    requires '%' !in l
    ensures var t := l + "%" + rest;
      IndexOf(t, '%') == |l| && t[..|l|] == l && t[|l| + 1..] == rest
  {
    var t := l + "%" + rest;
    assert t[|l|] == '%';
  }

  /** On a template `l % rest` whose left part holds no `%`, `replace` with a
      replacement free of `$` puts it exactly where the `%` was. */
  lemma ReplaceFirst(l: string, rest: string, x: string)
    requires '%' !in l && '$' !in x
    ensures Replace(l + "%" + rest, x) == l + x + rest
  {
    FirstPercent(l, rest);
  }

  /** The `$` patterns of a replacement: `$$` writes one `$`, `$&` writes the
      `%` back, `` $` `` repeats the text before it and `$'` the text after it. */
  lemma ReplacePatterns(l: string, rest: string)
    requires '%' !in l
    ensures Replace(l + "%" + rest, "$$") == l + "$" + rest
    ensures Replace(l + "%" + rest, "$&") == l + "%" + rest
    ensures Replace(l + "%" + rest, "$`") == l + l + rest
    ensures Replace(l + "%" + rest, "$'") == l + rest + rest
    ensures Replace(l + "%" + rest, "$&$") == l + "%$" + rest
  {
    FirstPercent(l, rest);
    assert Substitute("$$", l, rest) == "$";
    assert Substitute("$&", l, rest) == "%";
    assert Substitute("$`", l, rest) == l;
    assert Substitute("$'", l, rest) == rest;
    assert Substitute("$&$", l, rest) == "%$" by {
      assert "$&$"[2..] == "$";
      assert Substitute("$", l, rest) == "$";
    }
  }

  /** `table.indexOf(c)`: the first index holding `c`, or -1. */
  function IndexOf(table: string, c: char): (r: int)
    ensures -1 <= r < |table|
    ensures r >= 0 ==> table[r] == c && forall j :: 0 <= j < r ==> table[j] != c
    ensures r == -1 <==> c !in table
    decreases |table|
  {
    if table == [] then -1
    else if table[0] == c then 0
    else
      var k := IndexOf(table[1..], c);
      if k == -1 then -1 else k + 1
  }

  /** The pieces of `s.split(sep)`, for a one-unit separator. */
  function Split(s: string, sep: char): (r: seq<string>)
    ensures |r| >= 1
    ensures forall i :: 0 <= i < |r| ==> sep !in r[i]
    ensures Join(r, sep) == s
    decreases |s|
  {
    if s == [] then [[]]
    else
      var rest := Split(s[1..], sep);
      if s[0] == sep then [[]] + rest
      else [[s[0]] + rest[0]] + rest[1..]
  }

  /** `pieces.join(sep)`. */
  function Join(pieces: seq<string>, sep: char): string
    decreases |pieces|
  {
    if |pieces| == 0 then []
    else if |pieces| == 1 then pieces[0]
    else pieces[0] + [sep] + Join(pieces[1..], sep)
  }

  /** Splitting a joined list gives the list back, provided no piece holds the
      separator. */
  lemma {:induction false} SplitJoin(pieces: seq<string>, sep: char)
    requires |pieces| >= 1
    requires forall i :: 0 <= i < |pieces| ==> sep !in pieces[i]
    ensures Split(Join(pieces, sep), sep) == pieces
    decreases |pieces|, |pieces[0]|
  {
    var s := Join(pieces, sep);
    if pieces[0] == [] {
      if |pieces| == 1 {
      } else {
        assert s == [sep] + Join(pieces[1..], sep);
        assert s[1..] == Join(pieces[1..], sep);
        SplitJoin(pieces[1..], sep);
      }
    } else {
      var p0 := pieces[0];
      var tail := [p0[1..]] + pieces[1..];
      assert tail[1..] == pieces[1..];
      assert Join(tail, sep) == s[1..] by {
        if |pieces| == 1 {
        } else {
          assert s == p0 + [sep] + Join(pieces[1..], sep);
        }
      }
      assert p0[0] in p0;
      SplitJoin(tail, sep);
      assert [p0[0]] + p0[1..] == p0;
    }
  }

  /** The characters `String.prototype.trim` removes: ECMAScript WhiteSpace and
      LineTerminator code units. */
  predicate IsJsWhitespace(c: char) {
    c in {'\t', '\n', '\U{000B}', '\U{000C}', '\r', ' ', '\U{00A0}', '\U{1680}',
          '\U{2000}', '\U{2001}', '\U{2002}', '\U{2003}', '\U{2004}', '\U{2005}',
          '\U{2006}', '\U{2007}', '\U{2008}', '\U{2009}', '\U{200A}', '\U{2028}',
          '\U{2029}', '\U{202F}', '\U{205F}', '\U{3000}', '\U{FEFF}'}
  }

  /** `s.trim()`. */
  function Trim(s: string): (r: string)
    ensures |r| <= |s|
    ensures r != [] ==> !IsJsWhitespace(r[0]) && !IsJsWhitespace(r[|r| - 1])
    ensures s != [] && !IsJsWhitespace(s[0]) && !IsJsWhitespace(s[|s| - 1]) ==> r == s
  {
    TrimEnd(TrimStart(s))
  }

  function TrimStart(s: string): (r: string)
    ensures |r| <= |s|
    ensures r != [] ==> !IsJsWhitespace(r[0]) && r == s[|s| - |r|..]
    ensures s != [] && !IsJsWhitespace(s[0]) ==> r == s
    decreases |s|
  {
    if s != [] && IsJsWhitespace(s[0]) then TrimStart(s[1..]) else s
  }

  function TrimEnd(s: string): (r: string)
    ensures |r| <= |s| && r == s[..|r|]
    ensures r != [] ==> !IsJsWhitespace(r[|r| - 1])
    ensures s != [] && !IsJsWhitespace(s[|s| - 1]) ==> r == s
    decreases |s|
  {
    if s != [] && IsJsWhitespace(s[|s| - 1]) then TrimEnd(s[..|s| - 1]) else s
  }
}
