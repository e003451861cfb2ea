/**
 * String primitives the manuscript service relies on, written over `seq<char>`:
 * JavaScript's `trim`, `toLowerCase`, `includes`, `split(/\s+/)` and `join`,
 * and the concatenation of a list of fragments.
 */
module Text {

  /** JavaScript's WhiteSpace and LineTerminator code points: what `\s` matches and `trim` removes. */
  predicate IsWhitespace(c: char) {
    var n := c as int;
    n == 0x09 || n == 0x0A || n == 0x0B || n == 0x0C || n == 0x0D || n == 0x20 ||
    n == 0xA0 || n == 0x1680 || (0x2000 <= n <= 0x200A) || n == 0x2028 || n == 0x2029 ||
    n == 0x202F || n == 0x205F || n == 0x3000 || n == 0xFEFF
  }

  predicate NoWhitespace(s: string) {
    forall i :: 0 <= i < |s| ==> !IsWhitespace(s[i])
  }

  predicate AllWhitespace(s: string) {
    forall i :: 0 <= i < |s| ==> IsWhitespace(s[i])
  }

  // ---------------------------------------------------------------- trim

  /** The first index at or after `i` whose character is not whitespace, or `|s|`. */
  function SkipWhitespace(s: string, i: nat): (j: nat)
    requires i <= |s|
    ensures i <= j <= |s|
    decreases |s| - i
  {
    if i < |s| && IsWhitespace(s[i]) then SkipWhitespace(s, i + 1) else i
  }

  /** The end of `s[lo..j]` once its trailing whitespace is dropped. */
  function SkipWhitespaceBack(s: string, lo: nat, j: nat): (k: nat)
    requires lo <= j <= |s|
    ensures lo <= k <= j
    decreases j
  {
    if lo < j && IsWhitespace(s[j - 1]) then SkipWhitespaceBack(s, lo, j - 1) else j
  }

  lemma {:induction false} SkipWhitespaceSkipsRun(s: string, i: nat)
    requires i <= |s|
    ensures var j := SkipWhitespace(s, i);
            AllWhitespace(s[i..j]) && (j == |s| || !IsWhitespace(s[j]))
    decreases |s| - i
  {
    if i < |s| && IsWhitespace(s[i]) {
      SkipWhitespaceSkipsRun(s, i + 1);
      var j := SkipWhitespace(s, i);
      assert s[i..j] == [s[i]] + s[i + 1..j];
    }
  }

  lemma {:induction false} SkipWhitespaceBackSkipsRun(s: string, lo: nat, j: nat)
    requires lo <= j <= |s|
    ensures var k := SkipWhitespaceBack(s, lo, j);
            AllWhitespace(s[k..j]) && (k == lo || !IsWhitespace(s[k - 1]))
    decreases j
  {
    if lo < j && IsWhitespace(s[j - 1]) {
      SkipWhitespaceBackSkipsRun(s, lo, j - 1);
      var k := SkipWhitespaceBack(s, lo, j);
      assert s[k..j] == s[k..j - 1] + [s[j - 1]];
    }
  }

  /** `s` without its leading whitespace. */
  function TrimStart(s: string): string {
    s[SkipWhitespace(s, 0)..]
  }

  /** `String.prototype.trim`: whitespace removed from both ends. */
  function Trim(s: string): (r: string)
    ensures |r| <= |s|
  {
    var a := SkipWhitespace(s, 0);
    s[a..SkipWhitespaceBack(s, a, |s|)]
  }

  /**
   * What `trim` keeps is the run `s[a..b]`: everything before and after it is
   * whitespace, and the run neither starts nor ends with whitespace.
   */
  lemma TrimIsInnerRun(s: string)
    ensures var a := SkipWhitespace(s, 0);
            var b := SkipWhitespaceBack(s, a, |s|);
            Trim(s) == s[a..b] &&
            AllWhitespace(s[..a]) && AllWhitespace(s[b..]) &&
            (a < b ==> !IsWhitespace(s[a]) && !IsWhitespace(s[b - 1]))
  {
    LeadingRunIsWhitespace(s);
    TrailingRunIsWhitespace(s);
  }

  lemma LeadingRunIsWhitespace(s: string)
    ensures var a := SkipWhitespace(s, 0);
            AllWhitespace(s[..a]) && (a < |s| ==> !IsWhitespace(s[a]))
  {
    SkipWhitespaceSkipsRun(s, 0);
    assert s[..SkipWhitespace(s, 0)] == s[0..SkipWhitespace(s, 0)];
  }

  lemma TrailingRunIsWhitespace(s: string)
    ensures var a := SkipWhitespace(s, 0);
            var b := SkipWhitespaceBack(s, a, |s|);
            AllWhitespace(s[b..]) && (a < b ==> !IsWhitespace(s[b - 1]))
  {
    var a := SkipWhitespace(s, 0);
    SkipWhitespaceBackSkipsRun(s, a, |s|);
    var b := SkipWhitespaceBack(s, a, |s|);
    assert s[b..] == s[b..|s|];
  }

  /** Only text made of whitespace trims to nothing. */
  lemma TrimEmptyIff(s: string)
    ensures Trim(s) == [] <==> AllWhitespace(s)
  {
    var a := SkipWhitespace(s, 0);
    TrimIsInnerRun(s);
    if Trim(s) == [] {
      SkipWhitespaceSkipsRun(s, 0);
      assert a == |s|;
      assert s[..a] == s;
    } else if AllWhitespace(s) {
      assert false;
    }
  }

  /** Text without whitespace is left as it is. */
  lemma TrimNoWhitespace(s: string)
    requires NoWhitespace(s)
    ensures Trim(s) == s
  {
  }

  // ---------------------------------------------------------------- case

  /** Lower-casing of one character; only the ASCII letters have a case here. */
  function LowerChar(c: char): char {
    if 'A' <= c <= 'Z' then (c as int + 32) as char else c
  }

  /** `String.prototype.toLowerCase`, one character at a time. */
  function ToLower(s: string): (r: string)
    ensures |r| == |s|
    ensures forall i :: 0 <= i < |s| ==> r[i] == LowerChar(s[i])
  {
    seq(|s|, i requires 0 <= i < |s| => LowerChar(s[i]))
  }

  /** Lower-casing keeps every whitespace position, so it commutes with splitting on whitespace. */
  lemma ToLowerKeepsWhitespace(s: string)
    ensures forall i :: 0 <= i < |s| ==> (IsWhitespace(ToLower(s)[i]) <==> IsWhitespace(s[i]))
    ensures AllWhitespace(s) ==> ToLower(s) == s
  {
  }

  lemma ToLowerAppend(a: string, b: string)
    ensures ToLower(a + b) == ToLower(a) + ToLower(b)
  {
  }

  /** Every string of a list, lower-cased. */
  function ToLowerAll(ws: seq<string>): (r: seq<string>)
    ensures |r| == |ws|
    ensures forall k :: 0 <= k < |ws| ==> r[k] == ToLower(ws[k])
  {
    seq(|ws|, k requires 0 <= k < |ws| => ToLower(ws[k]))
  }

  // ---------------------------------------------------------------- includes

  /** `sub` occurs in `s` starting at position `i`. */
  predicate Occurs(s: string, sub: string, i: int) {
    0 <= i && i + |sub| <= |s| && s[i..i + |sub|] == sub
  }

  /** `String.prototype.includes`: `sub` is a prefix of `s` or of one of its suffixes. */
  predicate Includes(s: string, sub: string)
    ensures Includes(s, sub) ==> |sub| <= |s|
  {
    sub <= s || (s != [] && Includes(s[1..], sub))
  }

  /** The recursive search finds `sub` exactly when it occurs somewhere in `s`. */
  lemma {:induction false} IncludesIffOccurs(s: string, sub: string)
    ensures Includes(s, sub) <==> exists i :: Occurs(s, sub, i)
  {
    if sub <= s {
      assert Occurs(s, sub, 0);
    } else if s == [] {
    } else {
      IncludesIffOccurs(s[1..], sub);
      if Includes(s[1..], sub) {
        var i :| Occurs(s[1..], sub, i);
        assert s[1..][i..i + |sub|] == s[i + 1..i + 1 + |sub|];
        assert Occurs(s, sub, i + 1);
      }
      if exists i :: Occurs(s, sub, i) {
        var i :| Occurs(s, sub, i);
        assert i > 0;
        assert s[1..][i - 1..i - 1 + |sub|] == s[i..i + |sub|];
        assert Occurs(s[1..], sub, i - 1);
      }
    }
  }

  lemma OccursInMiddle(a: string, b: string, c: string)
    ensures Occurs(a + b + c, b, |a|)
  {
    assert (a + b + c)[|a|..|a| + |b|] == b;
  }

  lemma OccursExtend(a: string, s: string, c: string, sub: string, i: int)
    requires Occurs(s, sub, i)
    ensures Occurs(a + s + c, sub, |a| + i)
  {
    assert (a + s + c)[|a| + i..|a| + i + |sub|] == s[i..i + |sub|];
  }

  // ---------------------------------------------------------------- split

  /**
   * `s.split(/\s+/)` with `cur` the token read so far: every maximal run of
   * whitespace ends a token, so a leading or trailing run yields an empty token.
   */
  function SplitFrom(s: string, cur: string): (r: seq<string>)
    requires NoWhitespace(cur)
    ensures |r| >= 1
    ensures forall k :: 0 <= k < |r| ==> NoWhitespace(r[k])
    ensures Concat(r) == cur + Squeeze(s)
    decreases |s|
  {
    if s == [] then
      assert Concat([cur]) == Concat([]) + cur;
      [cur]
    else if IsWhitespace(s[0]) then
      var rest := SplitFrom(TrimStart(s), []);
      SqueezeSkipsWhitespace(s, 0);
      assert s[0..] == s;
      assert Concat(rest) == Squeeze(s);
      ConcatCons(cur, rest);
      assert forall k :: 1 <= k < |[cur] + rest| ==> ([cur] + rest)[k] == rest[k - 1];
      [cur] + rest
    else
      var r := SplitFrom(s[1..], cur + [s[0]]);
      assert Squeeze(s) == [s[0]] + Squeeze(s[1..]);
      assert cur + [s[0]] + Squeeze(s[1..]) == cur + Squeeze(s);
      r
  }

  /** `String.prototype.split(/\s+/)`. */
  function SplitWhitespace(s: string): (r: seq<string>)
    ensures |r| >= 1
    ensures forall k :: 0 <= k < |r| ==> NoWhitespace(r[k])
    ensures Concat(r) == Squeeze(s)
  {
    SplitFrom(s, [])
  }

  /** The characters of `s` that are not whitespace, in order. */
  function Squeeze(s: string): string {
    if s == [] then [] else (if IsWhitespace(s[0]) then [] else [s[0]]) + Squeeze(s[1..])
  }

  lemma {:induction false} SqueezeSkipsWhitespace(s: string, i: nat)
    requires i <= |s|
    ensures Squeeze(s[SkipWhitespace(s, i)..]) == Squeeze(s[i..])
    decreases |s| - i
  {
    if i < |s| && IsWhitespace(s[i]) {
      SqueezeSkipsWhitespace(s, i + 1);
      assert s[i..][1..] == s[i + 1..];
    }
  }

  // ---------------------------------------------------------------- join / concat

  /** The fragments of `fs` glued together in order (`+=` over a list). */
  function Concat(fs: seq<string>): string {
    if fs == [] then [] else Concat(fs[..|fs| - 1]) + fs[|fs| - 1]
  }

  lemma {:induction false} ConcatCons(x: string, fs: seq<string>)
    ensures Concat([x] + fs) == x + Concat(fs)
    decreases |fs|
  {
    if fs != [] {
      var init := fs[..|fs| - 1];
      assert ([x] + fs)[..|fs|] == [x] + init;
      ConcatCons(x, init);
    } else {
      assert Concat([x]) == Concat([]) + x;
    }
  }

  /** `Array.prototype.join(sep)`. */
  function Join(xs: seq<string>, sep: string): (r: string)
    ensures xs == [] ==> r == []
    ensures xs != [] ==> |xs[0]| <= |r| && r[..|xs[0]|] == xs[0]
    ensures xs != [] ==> |xs[|xs| - 1]| <= |r| && r[|r| - |xs[|xs| - 1]|..] == xs[|xs| - 1]
  {
    if xs == [] then []
    else if |xs| == 1 then xs[0]
    else
      var rest := Join(xs[1..], sep);
      assert xs[1..][|xs[1..]| - 1] == xs[|xs| - 1];
      xs[0] + sep + rest
  }

  /** Every element of a joined list appears verbatim in the result. */
  lemma {:induction false} JoinIncludes(xs: seq<string>, sep: string, k: nat)
    requires k < |xs|
    ensures exists i :: Occurs(Join(xs, sep), xs[k], i)
    decreases |xs|
  {
    if |xs| == 1 {
      assert Occurs(Join(xs, sep), xs[k], 0);
    } else if k == 0 {
      OccursInMiddle([], xs[0], sep + Join(xs[1..], sep));
      assert [] + xs[0] + (sep + Join(xs[1..], sep)) == Join(xs, sep);
    } else {
      JoinIncludes(xs[1..], sep, k - 1);
      var i :| Occurs(Join(xs[1..], sep), xs[1..][k - 1], i);
      OccursExtend(xs[0] + sep, Join(xs[1..], sep), [], xs[k], i);
      assert xs[0] + sep + Join(xs[1..], sep) + [] == Join(xs, sep);
    }
  }

  // ---------------------------------------------------------------- split, characterized

  /** The tokens `ws` with the separators `seps` between them: `ws[0] + seps[0] + ws[1] + ...`. */
  function Separated(ws: seq<string>, seps: seq<string>): (r: string)
    requires |ws| == |seps| + 1
    ensures |ws[0]| <= |r| && r[..|ws[0]|] == ws[0]
    decreases |seps|
  {
    if seps == [] then ws[0] else ws[0] + seps[0] + Separated(ws[1..], seps[1..])
  }

  /** `join(sep)` puts `sep` between every two consecutive elements, in order, and nowhere else. */
  lemma {:induction false} JoinIsSeparated(xs: seq<string>, sep: string)
    requires xs != []
    ensures Join(xs, sep) == Separated(xs, seq(|xs| - 1, _ => sep))
    decreases |xs|
  {
    var seps := seq(|xs| - 1, _ => sep);
    if |xs| > 1 {
      JoinIsSeparated(xs[1..], sep);
      assert seps[1..] == seq(|xs[1..]| - 1, _ => sep);
    }
  }

  /** Prefixing the first token prefixes the whole text. */
  lemma SeparatedHead(ws: seq<string>, seps: seq<string>, p: string)
    requires |ws| == |seps| + 1
    ensures Separated([p + ws[0]] + ws[1..], seps) == p + Separated(ws, seps)
  {
    var ws2 := [p + ws[0]] + ws[1..];
    assert ws2[1..] == ws[1..];
  }

  /** A character that is not whitespace joins the first token. */
  lemma SeparationConsToken(c: char, ws: seq<string>, seps: seq<string>) returns (ws2: seq<string>)
    requires WellSeparated(ws, seps) && !IsWhitespace(c)
    ensures WellSeparated(ws2, seps) && Separated(ws2, seps) == [c] + Separated(ws, seps)
  {
    ws2 := [[c] + ws[0]] + ws[1..];
    SeparatedHead(ws, seps, [c]);
    assert forall k :: 1 <= k < |ws2| ==> ws2[k] == ws[k];
  }

  /** A whitespace character before a non-empty first token opens a new run. */
  lemma SeparationConsRun(c: char, ws: seq<string>, seps: seq<string>) returns (ws2: seq<string>, seps2: seq<string>)
    requires WellSeparated(ws, seps) && IsWhitespace(c) && ws[0] != []
    ensures WellSeparated(ws2, seps2) && Separated(ws2, seps2) == [c] + Separated(ws, seps)
  {
    ws2, seps2 := [[]] + ws, [[c]] + seps;
    assert ws2[1..] == ws && seps2[1..] == seps;
    assert Separated(ws2, seps2) == [] + [c] + Separated(ws, seps);
    assert forall k :: 1 <= k < |ws2| ==> ws2[k] == ws[k - 1];
    assert forall k :: 1 <= k < |seps2| ==> seps2[k] == seps[k - 1];
  }

  /** A whitespace character before an empty first token lengthens the leading run. */
  lemma SeparationConsLonger(c: char, ws: seq<string>, seps: seq<string>) returns (seps2: seq<string>)
    requires WellSeparated(ws, seps) && IsWhitespace(c) && ws[0] == [] && seps != []
    ensures WellSeparated(ws, seps2) && Separated(ws, seps2) == [c] + Separated(ws, seps)
  {
    seps2 := [[c] + seps[0]] + seps[1..];
    assert seps2[1..] == seps[1..];
    assert Separated(ws, seps2) == [] + ([c] + seps[0]) + Separated(ws[1..], seps[1..]);
    assert Separated(ws, seps) == [] + seps[0] + Separated(ws[1..], seps[1..]);
    assert forall k :: 1 <= k < |seps2| ==> seps2[k] == seps[k];
  }

  /** Every text is tokens separated by whitespace runs, so the split characterization covers every text. */
  lemma {:induction false} HasSeparation(s: string)
    ensures exists ws, seps :: WellSeparated(ws, seps) && Separated(ws, seps) == s
    decreases |s|
  {
    if s == [] {
      assert WellSeparated([[]], []) && Separated([[]], []) == s;
    } else {
      HasSeparation(s[1..]);
      var ws, seps :| WellSeparated(ws, seps) && Separated(ws, seps) == s[1..];
      var c := s[0];
      assert s == [c] + s[1..];
      if !IsWhitespace(c) {
        var ws2 := SeparationConsToken(c, ws, seps);
        assert WellSeparated(ws2, seps) && Separated(ws2, seps) == s;
      } else if ws[0] != [] {
        var ws2, seps2 := SeparationConsRun(c, ws, seps);
        assert WellSeparated(ws2, seps2) && Separated(ws2, seps2) == s;
      } else if seps == [] {
        var ws2: seq<string>, seps2: seq<string> := [[], []], [[c]];
        assert Separated(ws2, seps2) == [] + [c] + [];
        assert WellSeparated(ws2, seps2) && Separated(ws2, seps2) == s;
      } else {
        var seps2 := SeparationConsLonger(c, ws, seps);
        assert WellSeparated(ws, seps2) && Separated(ws, seps2) == s;
      }
    }
  }

  /**
   * Tokens without whitespace, separated by non-empty whitespace runs; only the first
   * and the last token may be empty (a leading or trailing run).
   */
  predicate WellSeparated(ws: seq<string>, seps: seq<string>) {
    |ws| == |seps| + 1 &&
    (forall k :: 0 <= k < |ws| ==> NoWhitespace(ws[k])) &&
    (forall k :: 0 <= k < |seps| ==> seps[k] != [] && AllWhitespace(seps[k])) &&
    (forall k :: 0 < k < |ws| - 1 ==> ws[k] != [])
  }

  lemma {:induction false} SkipWhitespaceToRunEnd(s: string, i: nat, k: nat)
    requires i <= k <= |s|
    requires forall j :: i <= j < k ==> IsWhitespace(s[j])
    requires k == |s| || !IsWhitespace(s[k])
    ensures SkipWhitespace(s, i) == k
    decreases k - i
  {
    if i < k {
      SkipWhitespaceToRunEnd(s, i + 1, k);
    }
  }

  /** Reading a token without whitespace only extends the current token. */
  lemma {:induction false} SplitReadsToken(t: string, rest: string, cur: string)
    requires NoWhitespace(t) && NoWhitespace(cur)
    ensures SplitFrom(t + rest, cur) == SplitFrom(rest, cur + t)
    decreases |t|
  {
    if t == [] {
      assert t + rest == rest;
      assert cur + t == cur;
    } else {
      assert (t + rest)[1..] == t[1..] + rest;
      SplitReadsToken(t[1..], rest, cur + [t[0]]);
      assert cur + [t[0]] + t[1..] == cur + t;
    }
  }

  /** A whitespace run ends the current token, whatever its length. */
  lemma SplitEndsTokenAtRun(sep: string, rest: string, cur: string)
    requires sep != [] && AllWhitespace(sep) && NoWhitespace(cur)
    requires rest == [] || !IsWhitespace(rest[0])
    ensures SplitFrom(sep + rest, cur) == [cur] + SplitFrom(rest, [])
  {
    var s := sep + rest;
    SkipWhitespaceToRunEnd(s, 0, |sep|);
    assert s[|sep|..] == rest;
  }

  lemma {:induction false} SplitFromSeparated(ws: seq<string>, seps: seq<string>, cur: string)
    requires WellSeparated(ws, seps) && NoWhitespace(cur)
    ensures SplitFrom(Separated(ws, seps), cur) == [cur + ws[0]] + ws[1..]
    decreases |seps|
  {
    if seps == [] {
      SplitReadsToken(ws[0], [], cur);
      assert ws[0] + [] == ws[0];
      assert ws[1..] == [];
    } else {
      var r := Separated(ws[1..], seps[1..]);
      assert Separated(ws, seps) == ws[0] + (seps[0] + r);
      SplitReadsToken(ws[0], seps[0] + r, cur);
      if ws[1] == [] {
        assert |ws| == 2;
        assert r == [];
      }
      assert WellSeparated(ws[1..], seps[1..]);
      SplitEndsTokenAtRun(seps[0], r, cur + ws[0]);
      SplitFromSeparated(ws[1..], seps[1..], []);
      assert [] + ws[1] == ws[1];
      assert ws[1..] == [ws[1]] + ws[2..];
    }
  }

  /** `split(/\s+/)` gives back exactly the tokens of a text made of tokens and whitespace runs. */
  lemma SplitWhitespaceSeparated(ws: seq<string>, seps: seq<string>)
    requires WellSeparated(ws, seps)
    ensures SplitWhitespace(Separated(ws, seps)) == ws
  {
    SplitFromSeparated(ws, seps, []);
    assert [] + ws[0] == ws[0];
    assert ws == [ws[0]] + ws[1..];
  }

  /** Lower-casing a separated text lower-cases its tokens and keeps its runs. */
  lemma {:induction false} ToLowerSeparated(ws: seq<string>, seps: seq<string>)
    requires WellSeparated(ws, seps)
    ensures WellSeparated(ToLowerAll(ws), seps)
    ensures ToLower(Separated(ws, seps)) == Separated(ToLowerAll(ws), seps)
    decreases |seps|
  {
    forall k | 0 <= k < |ws|
      ensures NoWhitespace(ToLower(ws[k]))
    {
      ToLowerKeepsWhitespace(ws[k]);
    }
    if seps != [] {
      assert WellSeparated(ws[1..], seps[1..]);
      ToLowerSeparated(ws[1..], seps[1..]);
      assert ToLowerAll(ws[1..]) == ToLowerAll(ws)[1..];
      ToLowerKeepsWhitespace(seps[0]);
      ToLowerAppend(ws[0] + seps[0], Separated(ws[1..], seps[1..]));
      ToLowerAppend(ws[0], seps[0]);
    }
  }
}
