/** The handful of Python `str` operations the request handlers and the
    response repair rely on: whitespace, `strip`, `replace` of one
    character, `count` of one character, and substring search. */
module Text {

  import opened Common

  /** Python's `str.isspace()` on one character; the same set is matched by
      the regular-expression class `\s` and removed by `str.strip()`. */
  predicate IsSpace(c: char) {
    || c == ' '
    || ('\t' <= c <= '\r')
    || ('\U{1c}' <= c <= '\U{1f}')
    || c == '\U{85}' || c == '\U{a0}' || c == '\U{1680}'
    || ('\U{2000}' <= c <= '\U{200a}')
    || c == '\U{2028}' || c == '\U{2029}' || c == '\U{202f}' || c == '\U{205f}' || c == '\U{3000}'
  }

  /** What one `strip` call removes: whitespace (no argument) or a single
      given character. */
  datatype Drop = Whitespace | Only(c: char)

  predicate Drops(d: Drop, x: char) {
    match d
    case Whitespace => IsSpace(x)
    case Only(c) => x == c
  }

  /** Every character of `s` is removed by `d`. */
  predicate AllDropped(s: string, d: Drop) {
    forall k :: 0 <= k < |s| ==> Drops(d, s[k])
  }

  /** Index of the first character of `s` at or after `i` that `d` keeps
      (`|s|` when there is none). */
  function SkipWhile(s: string, i: nat, d: Drop): (r: nat)
    requires i <= |s|
    ensures i <= r <= |s|
    ensures AllDropped(s[i..r], d)
    ensures r < |s| ==> !Drops(d, s[r])
    decreases |s| - i
  {
    if i < |s| && Drops(d, s[i]) then SkipWhile(s, i + 1, d) else i
  }

  /** Index just past the last character of `s[lo..hi]` that `d` keeps
      (`lo` when there is none). */
  function SkipWhileBack(s: string, lo: nat, hi: nat, d: Drop): (r: nat)
    requires lo <= hi <= |s|
    ensures lo <= r <= hi
    ensures AllDropped(s[r..hi], d)
    ensures lo < r ==> !Drops(d, s[r - 1])
    decreases hi - lo
  {
    if lo < hi && Drops(d, s[hi - 1]) then
      var r := SkipWhileBack(s, lo, hi - 1, d);
      assert s[r..hi] == s[r..hi - 1] + [s[hi - 1]];
      r
    else hi
  }

  /** The scan stops at the first kept character: wherever a run of dropped
      characters ends in a kept one (or in the end of `s`), that is the
      index returned. */
  lemma {:induction false} SkipWhileStopsAt(s: string, i: nat, a: nat, d: Drop)
    requires i <= a <= |s| && AllDropped(s[i..a], d)
    requires a < |s| ==> !Drops(d, s[a])
    ensures SkipWhile(s, i, d) == a
    decreases a - i
  {
    if i < a {
      assert Drops(d, s[i..a][0]);
      assert s[i + 1..a] == s[i..a][1..];
      SkipWhileStopsAt(s, i + 1, a, d);
    }
  }

  /** The backward scan stops just past the last kept character. */
  lemma {:induction false} SkipWhileBackStopsAt(s: string, lo: nat, b: nat, hi: nat, d: Drop)
    requires lo <= b <= hi <= |s| && AllDropped(s[b..hi], d)
    requires lo < b ==> !Drops(d, s[b - 1])
    ensures SkipWhileBack(s, lo, hi, d) == b
    decreases hi - b
  {
    if b < hi {
      assert Drops(d, s[b..hi][hi - 1 - b]);
      assert s[b..hi - 1] == s[b..hi][..hi - 1 - b];
      SkipWhileBackStopsAt(s, lo, b, hi - 1, d);
    }
  }

  /** Python's `s.strip(chars)`: the longest run of characters removed by
      `drop` goes from both ends. */
  function StripBy(s: string, d: Drop): (r: string)
    ensures |r| <= |s|
    ensures |r| > 0 ==> !Drops(d, r[0]) && !Drops(d, r[|r| - 1])
  {
    var i := SkipWhile(s, 0, d);
    s[i..SkipWhileBack(s, i, |s|, d)]
  }

  /** `StripBy` yields the middle slice `s[i..j]` of `s`: what it cut off is
      made of dropped characters only and the kept text neither starts nor
      ends with one. */
  lemma StripBySlice(s: string, d: Drop)
    ensures exists i, j :: 0 <= i <= j <= |s| && StripBy(s, d) == s[i..j]
                           && AllDropped(s[..i], d) && AllDropped(s[j..], d)
    ensures var r := StripBy(s, d);
            |r| > 0 ==> !Drops(d, r[0]) && !Drops(d, r[|r| - 1])
  {
    var i := SkipWhile(s, 0, d);
    var j := SkipWhileBack(s, i, |s|, d);
    assert s[..i] == s[0..i];
    assert AllDropped(s[j..], d) by {
      assert s[j..] == s[j..|s|];
    }
    if j > i {
      assert StripBy(s, d)[0] == s[i];
    }
  }

  /** Text that neither starts nor ends with a dropped character is left
      alone. */
  lemma StripByKeepsUnpadded(s: string, d: Drop)
    requires |s| > 0 ==> !Drops(d, s[0]) && !Drops(d, s[|s| - 1])
    ensures StripBy(s, d) == s
  {
  }

  /** Python's `s.strip()` with no argument. */
  function Strip(s: string): string {
    StripBy(s, Whitespace)
  }

  /** Python's `s.strip(c)` for a one-character argument. */
  function StripChar(s: string, c: char): string {
    StripBy(s, Only(c))
  }

  /** Python's `s.replace(a, b)` for one-character strings `a` and `b`. */
  function ReplaceChar(s: string, a: char, b: char): (r: string)
    ensures |r| == |s|
    ensures a != b ==> a !in r
    ensures forall k :: 0 <= k < |s| && s[k] != a ==> r[k] == s[k]
    ensures forall k :: 0 <= k < |s| && s[k] == a ==> r[k] == b
  {
    seq(|s|, k requires 0 <= k < |s| => if s[k] == a then b else s[k])
  }

  /** Python's `s.count(c)` for a one-character string `c`. */
  function Count(s: string, c: char): nat {
    multiset(s)[c]
  }

  /** Python's `c * n` for a one-character string `c`. */
  function Repeat(c: char, n: nat): (r: string)
    ensures |r| == n
    ensures forall k :: 0 <= k < n ==> r[k] == c
  {
    seq(n, _ => c)
  }

  /** `lit` occurs in `s` starting at index `i`. */
  predicate LiteralAt(s: string, i: nat, lit: string) {
    i + |lit| <= |s| && s[i..i + |lit|] == lit
  }

  /** A literal made of two parts occurs where its first part does, with
      the second part right after. */
  lemma LiteralSplit(s: string, i: nat, a: string, b: string)
    requires LiteralAt(s, i, a + b)
    ensures LiteralAt(s, i, a) && LiteralAt(s, i + |a|, b)
  {
    assert s[i..i + |a|] == s[i..i + |a| + |b|][..|a|];
    assert s[i + |a|..i + |a| + |b|] == s[i..i + |a| + |b|][|a|..];
  }

  /** Two literals found back to back form one literal. */
  lemma LiteralJoin(s: string, i: nat, a: string, b: string)
    requires LiteralAt(s, i, a) && LiteralAt(s, i + |a|, b)
    ensures LiteralAt(s, i, a + b)
  {
    assert s[i..i + |a| + |b|] == s[i..i + |a|] + s[i + |a|..i + |a| + |b|];
  }

  /** A literal made of three parts occurs exactly where its parts occur
      one after the other. */
  lemma LiteralParts3(s: string, i: nat, a: string, b: string, c: string)
    ensures LiteralAt(s, i, a + b + c)
            <==> LiteralAt(s, i, a) && LiteralAt(s, i + |a|, b) && LiteralAt(s, i + |a| + |b|, c)
  {
    if LiteralAt(s, i, a + b + c) {
      LiteralSplit(s, i, a + b, c);
      LiteralSplit(s, i, a, b);
    }
    if LiteralAt(s, i, a) && LiteralAt(s, i + |a|, b) && LiteralAt(s, i + |a| + |b|, c) {
      LiteralJoin(s, i, a, b);
      LiteralJoin(s, i, a + b, c);
    }
  }

  /** The same for five parts. */
  lemma LiteralParts5(s: string, i: nat, a: string, b: string, c: string, d: string, e: string)
    ensures LiteralAt(s, i, a + b + c + d + e)
            <==> && LiteralAt(s, i, a) && LiteralAt(s, i + |a|, b) && LiteralAt(s, i + |a| + |b|, c)
                 && LiteralAt(s, i + |a| + |b| + |c|, d) && LiteralAt(s, i + |a| + |b| + |c| + |d|, e)
  {
    LiteralParts3(s, i, a + b + c, d, e);
    LiteralParts3(s, i, a, b, c);
  }

  /** The same for seven parts. */
  lemma LiteralParts7(s: string, i: nat, a: string, b: string, c: string, d: string, e: string, f: string, g: string)
    ensures LiteralAt(s, i, a + b + c + d + e + f + g)
            <==> && LiteralAt(s, i, a) && LiteralAt(s, i + |a|, b) && LiteralAt(s, i + |a| + |b|, c)
                 && LiteralAt(s, i + |a| + |b| + |c|, d) && LiteralAt(s, i + |a| + |b| + |c| + |d|, e)
                 && LiteralAt(s, i + |a| + |b| + |c| + |d| + |e|, f)
                 && LiteralAt(s, i + |a| + |b| + |c| + |d| + |e| + |f|, g)
  {
    LiteralParts3(s, i, a + b + c + d + e, f, g);
    LiteralParts5(s, i, a, b, c, d, e);
  }

  /** Character `k` of a literal found at `i` is character `i + k` of `s`. */
  lemma LiteralChar(s: string, i: nat, lit: string, k: nat)
    requires LiteralAt(s, i, lit) && k < |lit|
    ensures s[i + k] == lit[k]
  {
    assert s[i + k] == s[i..i + |lit|][k];
  }

  /** The middle of a concatenation occurs in it right after the first
      part. */
  lemma LiteralInConcat(x: string, y: string, z: string)
    ensures LiteralAt(x + y + z, |x|, y)
  {
    assert (x + y + z)[|x|..|x| + |y|] == y;
  }

  /** Python's `t in s` for strings: `t` is a contiguous slice of `s`. */
  predicate Contains(s: string, t: string) {
    exists i: nat | i <= |s| :: LiteralAt(s, i, t)
  }

  /** Python's `s.startswith(c)` for a one-character string `c`. */
  predicate StartsWith(s: string, c: char) {
    |s| > 0 && s[0] == c
  }

  /** The first index of `c` in `s` at or after `from`, if there is one. */
  function FindChar(s: string, c: char, from: nat): (r: Option<nat>)
    requires from <= |s|
    ensures r.Some? ==> from <= r.value < |s| && s[r.value] == c && c !in s[from..r.value]
    ensures r.None? ==> c !in s[from..]
    decreases |s| - from
  {
    if from == |s| then None
    else if s[from] == c then Some(from)
    else FindChar(s, c, from + 1)
  }

  /** `c` at index `e` with no earlier `c` from `from` on is what the search
      finds. */
  lemma {:induction false} FindCharStopsAt(s: string, c: char, from: nat, e: nat)
    requires from <= e < |s| && s[e] == c && c !in s[from..e]
    ensures FindChar(s, c, from) == Some(e)
    decreases e - from
  {
    if from < e {
      assert s[from] == s[from..e][0];
      assert s[from + 1..e] == s[from..e][1..];
      FindCharStopsAt(s, c, from + 1, e);
    }
  }

  /** The last index of `c` in `s`, if there is one (Python's `s.rfind(c)`). */
  function FindLastChar(s: string, c: char): (r: Option<nat>)
    ensures r.Some? ==> r.value < |s| && s[r.value] == c && c !in s[r.value + 1..]
    ensures r.None? ==> c !in s
  {
    if |s| == 0 then None
    else if s[|s| - 1] == c then Some(|s| - 1)
    else
      var r := FindLastChar(s[..|s| - 1], c);
      assert s == s[..|s| - 1] + [s[|s| - 1]];
      r
  }

  /** The last occurrence is found wherever it is. */
  lemma {:induction false} FindLastCharStopsAt(s: string, c: char, k: nat)
    requires k < |s| && s[k] == c && c !in s[k + 1..]
    ensures FindLastChar(s, c) == Some(k)
    decreases |s|
  {
    if k < |s| - 1 {
      assert s[|s| - 1] == s[k + 1..][|s| - 2 - k];
      assert s[..|s| - 1][k + 1..] == s[k + 1..|s| - 1];
      FindLastCharStopsAt(s[..|s| - 1], c, k);
    }
  }

  /** Index of the last character of `s` that belongs to `cs`. */
  function FindLastIn(s: string, cs: set<char>): (r: Option<nat>)
    ensures r.Some? ==> r.value < |s| && s[r.value] in cs
    ensures r.Some? ==> forall k :: r.value < k < |s| ==> s[k] !in cs
    ensures r.None? ==> forall k :: 0 <= k < |s| ==> s[k] !in cs
  {
    if |s| == 0 then None
    else if s[|s| - 1] in cs then Some(|s| - 1)
    else FindLastIn(s[..|s| - 1], cs)
  }
}
