/** The text repairs applied to a reply before it is handed to `json.loads`
    (openrouter_client.py, `save_project_files`): trailing commas before a
    closing `}` or `]` are deleted, then missing closers are appended by
    counting. Closing unterminated strings is a regex substitution kept
    abstract as the `closeStrings` argument. */
module Repair {

  import opened Text

  /** `r` is `s` with some commas and whitespace characters deleted, as far
      as character counts can tell: no longer, no character gained, and
      every other character kept with its count. */
  ghost predicate OnlyDeletes(r: string, s: string) {
    && |r| <= |s|
    && multiset(r) <= multiset(s)
    && forall c {:trigger multiset(r)[c]} :: c != ',' && !IsSpace(c) ==> multiset(r)[c] == multiset(s)[c]
  }

  /** `re.sub(r',\s*' + close, close, s)`: every comma followed by optional
      whitespace and `close` is replaced by `close`, scanning left to right
      and resuming after each replacement. */
  function DropCommasBefore(s: string, close: char): (r: string)
    ensures OnlyDeletes(r, s)
    decreases |s|
  {
    if |s| == 0 then ""
    else
      var j := SkipWhile(s, 1, Whitespace);
      if s[0] == ',' && j < |s| && s[j] == close then
        var rest := DropCommasBefore(s[j + 1..], close);
        DropStep(s, j, rest);
        [close] + rest
      else
        var rest := DropCommasBefore(s[1..], close);
        KeepStep(s, rest);
        [s[0]] + rest
  }

  /** Replacing `,` + whitespace + `s[j]` by `s[j]` in front of a text that
      only lost commas and whitespace loses only commas and whitespace. */
  lemma DropStep(s: string, j: nat, rest: string)
    requires 1 <= j < |s| && s[0] == ',' && AllDropped(s[1..j], Whitespace)
    requires OnlyDeletes(rest, s[j + 1..])
    ensures OnlyDeletes([s[j]] + rest, s)
  {
    assert s == [s[0]] + s[1..j] + [s[j]] + s[j + 1..];
    SpacesOnly(s[1..j]);
    assert multiset(s) == multiset{s[0]} + multiset(s[1..j]) + multiset{s[j]} + multiset(s[j + 1..]);
    assert multiset([s[j]] + rest) == multiset{s[j]} + multiset(rest);
  }

  /** Keeping the first character in front of a text that only lost commas
      and whitespace loses only commas and whitespace. */
  lemma KeepStep(s: string, rest: string)
    requires |s| > 0 && OnlyDeletes(rest, s[1..])
    ensures OnlyDeletes([s[0]] + rest, s)
  {
    assert s == [s[0]] + s[1..];
    assert multiset(s) == multiset{s[0]} + multiset(s[1..]);
    assert multiset([s[0]] + rest) == multiset{s[0]} + multiset(rest);
  }

  /** Deleting commas and whitespace twice still only deletes them. */
  lemma OnlyDeletesTwice(a: string, b: string, s: string)
    requires OnlyDeletes(a, s) && OnlyDeletes(b, a)
    ensures OnlyDeletes(b, s)
  {
    forall c | c != ',' && !IsSpace(c)
      ensures multiset(b)[c] == multiset(s)[c]
    {
      assert multiset(b)[c] == multiset(a)[c];
    }
  }

  /** A run of whitespace holds no other character. */
  lemma SpacesOnly(w: string)
    requires AllDropped(w, Whitespace)
    ensures forall c {:trigger multiset(w)[c]} :: !IsSpace(c) ==> multiset(w)[c] == 0
  {
    forall c | !IsSpace(c)
      ensures multiset(w)[c] == 0
    {
      assert c !in w;
    }
  }

  /** Both trailing-comma substitutions, `}` first, then `]`: the text
      never grows and keeps every brace and bracket. */
  function StripTrailingCommas(s: string): (r: string)
    ensures OnlyDeletes(r, s)
    ensures forall c :: c in "{}[]" ==> Count(r, c) == Count(s, c)
  {
    var a := DropCommasBefore(s, '}');
    var b := DropCommasBefore(a, ']');
    OnlyDeletesTwice(a, b, s);
    assert forall c :: c in "{}[]" ==> c != ',' && !IsSpace(c);
    b
  }

  /** Characters before the first comma pass through the substitution
      untouched. */
  lemma {:induction false} CommaFreePrefixKept(a: string, b: string, close: char)
    requires ',' !in a
    ensures DropCommasBefore(a + b, close) == a + DropCommasBefore(b, close)
    decreases |a|
  {
    if |a| > 0 {
      var s := a + b;
      assert DropCommasBefore(s, close) == [a[0]] + DropCommasBefore(a[1..] + b, close) by {
        assert s[0] == a[0] && s[0] != ',' && s[1..] == a[1..] + b;
      }
      assert DropCommasBefore(a[1..] + b, close) == a[1..] + DropCommasBefore(b, close) by {
        CommaFreePrefixKept(a[1..], b, close);
      }
      assert a == [a[0]] + a[1..];
    } else {
      assert a + b == b;
    }
  }

  /** A text without commas has nothing to substitute. */
  lemma CommaFreeKept(s: string, close: char)
    requires ',' !in s
    ensures DropCommasBefore(s, close) == s
  {
    CommaFreePrefixKept(s, "", close);
    assert s + "" == s;
  }

  /** At a comma, the substitution looks past the whitespace run `w` to the
      character `d` behind it: the comma goes exactly when `d` is the closer,
      and what follows `d` is scanned afresh. */
  lemma CommaStep(w: string, d: char, b: string, close: char)
    requires AllDropped(w, Whitespace) && !IsSpace(d)
    ensures DropCommasBefore([','] + w + [d] + b, close)
         == if d == close then [d] + DropCommasBefore(b, close)
            else [','] + DropCommasBefore(w + [d] + b, close)
  {
    var t := [','] + w + [d] + b;
    var j := |w| + 1;
    assert SkipWhile(t, 1, Whitespace) == j by {
      assert t[1..j] == w && t[j] == d;
      SkipWhileStopsAt(t, 1, j, Whitespace);
    }
    assert t[j + 1..] == b && t[1..] == w + [d] + b;
  }

  /** A comma, optional whitespace and `close` in a comma-free text become
      `close`: the substitution removes the trailing comma and changes
      nothing else. */
  lemma TrailingCommaRemoved(a: string, w: string, b: string, close: char)
    requires ',' !in a && AllDropped(w, Whitespace) && !IsSpace(close)
    ensures DropCommasBefore(a + [','] + w + [close] + b, close) == a + [close] + DropCommasBefore(b, close)
  {
    var t := [','] + w + [close] + b;
    assert a + [','] + w + [close] + b == a + t;
    assert DropCommasBefore(a + t, close) == a + DropCommasBefore(t, close) by {
      CommaFreePrefixKept(a, t, close);
    }
    assert DropCommasBefore(t, close) == [close] + DropCommasBefore(b, close) by {
      CommaStep(w, close, b, close);
    }
  }

  /** A comma before the other kind of closer is left alone. */
  lemma OtherCloserKept(a: string, w: string, d: char, b: string, close: char)
    requires ',' !in a && ',' !in b && AllDropped(w, Whitespace) && !IsSpace(d) && d != ',' && d != close
    ensures DropCommasBefore(a + [','] + w + [d] + b, close) == a + [','] + w + [d] + b
  {
    var u := w + [d] + b;
    var t := [','] + u;
    assert a + [','] + w + [d] + b == a + t;
    assert DropCommasBefore(a + t, close) == a + DropCommasBefore(t, close) by {
      CommaFreePrefixKept(a, t, close);
    }
    assert DropCommasBefore(t, close) == [','] + DropCommasBefore(u, close) by {
      assert t == [','] + w + [d] + b;
      CommaStep(w, d, b, close);
    }
    assert DropCommasBefore(u, close) == u by {
      SpacesHoldNoComma(w);
      CommaFreeJoin(w, d, b);
      CommaFreeKept(u, close);
    }
    assert a + t == a + [','] + w + [d] + b;
  }

  lemma CommaFreeJoin(a: string, d: char, b: string)
    requires ',' !in a && d != ',' && ',' !in b
    ensures ',' !in a + [d] + b
  {
    assert multiset(a + [d] + b) == multiset(a) + multiset{d} + multiset(b);
  }

  /** Both substitutions together delete a single trailing comma, with the
      whitespace after it, in front of either kind of closer, and leave the
      rest of the text as it was. */
  lemma TrailingCommaStripped(a: string, w: string, d: char, b: string)
    requires ',' !in a && ',' !in b && AllDropped(w, Whitespace) && (d == '}' || d == ']')
    ensures StripTrailingCommas(a + [','] + w + [d] + b) == a + [d] + b
  {
    var s := a + [','] + w + [d] + b;
    var r := a + [d] + b;
    if d == '}' {
      assert DropCommasBefore(s, '}') == r by {
        TrailingCommaRemoved(a, w, b, '}');
        CommaFreeKept(b, '}');
      }
      assert DropCommasBefore(r, ']') == r by {
        CommaFreeJoin(a, d, b);
        CommaFreeKept(r, ']');
      }
    } else {
      assert DropCommasBefore(s, '}') == s by {
        OtherCloserKept(a, w, d, b, '}');
      }
      assert DropCommasBefore(s, ']') == r by {
        TrailingCommaRemoved(a, w, b, ']');
        CommaFreeKept(b, ']');
      }
    }
  }

  /** A comma whose whitespace run ends in another comma is kept, and the
      scan resumes right after it. */
  lemma CommaThenComma(w: string, rest: string, close: char)
    requires AllDropped(w, Whitespace) && close != ','
    ensures DropCommasBefore([','] + w + [','] + rest, close) == [','] + w + DropCommasBefore([','] + rest, close)
  {
    var x := DropCommasBefore([','] + rest, close);
    CommaStep(w, ',', rest, close);
    SpacesHoldNoComma(w);
    CommaFreePrefixKept(w, [','] + rest, close);
    Regroup(w, [','], rest);
    Regroup([','], w, x);
  }

  /** Of two commas in front of the closer, only the second is followed by
      whitespace and the closer: the first one is kept. */
  lemma DoubleCommaStep(w1: string, w2: string, b: string, close: char)
    requires AllDropped(w1, Whitespace) && AllDropped(w2, Whitespace) && !IsSpace(close) && close != ','
    ensures DropCommasBefore([','] + w1 + [','] + w2 + [close] + b, close) == [','] + w1 + [close] + DropCommasBefore(b, close)
  {
    var rest := w2 + [close] + b;
    var y := DropCommasBefore(b, close);
    CommaThenComma(w1, rest, close);
    CommaStep(w2, close, b, close);
    Regroup([','], w2 + [close], b);
    Regroup([','], w2, [close]);
    Regroup([','] + w1, [','], rest);
    Regroup([','] + w1 + [','], w2 + [close], b);
    Regroup([','] + w1 + [','], w2, [close]);
    Regroup([','] + w1, [close], y);
  }

  /** One pass of each substitution does not catch every trailing comma:
      of two commas in front of `}` (as in `,,}`) only the second is
      followed by whitespace and the closer, so the first one survives both
      substitutions. */
  lemma DoubleCommaSurvives(a: string, w1: string, w2: string, b: string)
    requires ',' !in a && ',' !in b && AllDropped(w1, Whitespace) && AllDropped(w2, Whitespace)
    ensures DropCommasBefore(a + [','] + w1 + [','] + w2 + ['}'] + b, '}') == a + [','] + w1 + ['}'] + b
    ensures StripTrailingCommas(a + [','] + w1 + [','] + w2 + ['}'] + b) == a + [','] + w1 + ['}'] + b
  {
    var t := [','] + w1 + [','] + w2 + ['}'] + b;
    DoubleCommaStep(w1, w2, b, '}');
    CommaFreeKept(b, '}');
    CommaFreePrefixKept(a, t, '}');
    Regroup(a, [','] + w1 + [','] + w2 + ['}'], b);
    Regroup(a, [','] + w1 + [','] + w2, ['}']);
    Regroup(a, [','] + w1 + [','], w2);
    Regroup(a, [','] + w1, [',']);
    Regroup(a, [','], w1);
    Regroup(a, [','] + w1 + ['}'], b);
    Regroup(a, [','] + w1, ['}']);
    OtherCloserKept(a, w1, '}', b, ']');
  }

  /** Concatenation regrouped, as a fact to cite rather than to rediscover. */
  lemma Regroup(a: string, b: string, c: string)
    ensures a + b + c == a + (b + c)
  {
  }

  /** Whitespace holds no comma. */
  lemma SpacesHoldNoComma(w: string)
    requires AllDropped(w, Whitespace)
    ensures ',' !in w
  {
    SpacesOnly(w);
    assert multiset(w)[','] == 0;
  }

  lemma {:induction false} RepeatCounts(c: char, n: nat)
    ensures multiset(Repeat(c, n))[c] == n
    ensures forall d :: d != c ==> multiset(Repeat(c, n))[d] == 0
  {
    if n > 0 {
      RepeatCounts(c, n - 1);
      assert Repeat(c, n) == Repeat(c, n - 1) + [c];
    }
  }

  /** `if s.count(open) - s.count(close) > 0: s += close * difference`. */
  function CloseAll(s: string, open: char, close: char): (r: string)
    requires open != close
    ensures |s| <= |r| && r[..|s|] == s
    ensures forall k :: |s| <= k < |r| ==> r[k] == close
    ensures Count(s, open) > Count(s, close) ==> Count(r, open) == Count(r, close)
    ensures Count(s, open) <= Count(s, close) ==> r == s
    ensures forall d :: d != close ==> Count(r, d) == Count(s, d)
  {
    var n := Count(s, open) - Count(s, close);
    if n > 0 then
      RepeatCounts(close, n);
      assert multiset(s + Repeat(close, n)) == multiset(s) + multiset(Repeat(close, n));
      s + Repeat(close, n)
    else s
  }

  /** Braces first, then brackets: `}` are always appended before `]`. */
  function Balance(s: string): string {
    CloseAll(CloseAll(s, '{', '}'), '[', ']')
  }

  /** The balanced text is the input followed by `a` copies of `}` and then
      `b` copies of `]`, each the opener surplus of the input (or zero); so
      the input is a prefix of the output and afterwards no kind of opener
      outnumbers its closer. */
  lemma BalanceShape(s: string)
    ensures var a := if Count(s, '{') > Count(s, '}') then Count(s, '{') - Count(s, '}') else 0;
            var b := if Count(s, '[') > Count(s, ']') then Count(s, '[') - Count(s, ']') else 0;
            Balance(s) == s + Repeat('}', a) + Repeat(']', b)
    ensures Count(Balance(s), '{') <= Count(Balance(s), '}')
    ensures Count(Balance(s), '[') <= Count(Balance(s), ']')
    ensures Count(Balance(s), '{') == Count(s, '{') && Count(Balance(s), '[') == Count(s, '[')
  {
    var t := CloseAll(s, '{', '}');
    var r := CloseAll(t, '[', ']');
    assert t == s + Repeat('}', |t| - |s|);
    assert r == t + Repeat(']', |r| - |t|);
    if Count(s, '{') > Count(s, '}') {
      RepeatCounts('}', |t| - |s|);
      assert multiset(t) == multiset(s) + multiset(Repeat('}', |t| - |s|));
    }
    if Count(t, '[') > Count(t, ']') {
      RepeatCounts(']', |r| - |t|);
      assert multiset(r) == multiset(t) + multiset(Repeat(']', |r| - |t|));
    }
  }

  /** The whole repair: close strings, drop trailing commas, balance. */
  function Repaired(s: string, closeStrings: string -> string): (r: string)
    ensures Count(r, '{') == Count(closeStrings(s), '{')
    ensures Count(r, '[') == Count(closeStrings(s), '[')
    ensures Count(r, '{') <= Count(r, '}') && Count(r, '[') <= Count(r, ']')
  {
    var t := StripTrailingCommas(closeStrings(s));
    BalanceShape(t);
    Balance(t)
  }

  /** Properly nested `{}`/`[]` when only those characters are looked at,
      with `stack` the openers still waiting for a closer. */
  function NestedFrom(s: string, stack: string): bool
    decreases |s|
  {
    if |s| == 0 then stack == ""
    else if s[0] == '{' || s[0] == '[' then NestedFrom(s[1..], stack + [s[0]])
    else if s[0] == '}' || s[0] == ']' then
      && |stack| > 0
      && stack[|stack| - 1] == (if s[0] == '}' then '{' else '[')
      && NestedFrom(s[1..], stack[..|stack| - 1])
    else NestedFrom(s[1..], stack)
  }

  predicate WellNested(s: string) {
    NestedFrom(s, "")
  }

  /** `}` arriving while `[` is the innermost open bracket breaks nesting. */
  lemma CloseOrderMatters()
    ensures !WellNested("{[}]")
  {
    var r := "{[}]";
    assert r[1..] == "[}]";
    assert r[1..][1..] == "}]";
    assert NestedFrom("}]", "{[") == false;
  }

  /** Counting alone does not make a reply parseable: a reply cut off inside
      an array of an object gets `}` before `]`, which no JSON document
      (here, one without quotes) can contain. */
  lemma BalancedButMisnested()
    ensures Balance("{[") == "{[}]"
    ensures !WellNested(Balance("{["))
  {
    CloseBracesOfOpenPair();
    CloseBracketsOfOpenPair();
    CloseOrderMatters();
  }

  lemma CloseBracesOfOpenPair()
    ensures CloseAll("{[", '{', '}') == "{[}"
  {
    var s := "{[";
    assert multiset(s) == multiset{'{', '['};
    assert Count(s, '{') == 1 && Count(s, '}') == 0;
    assert Repeat('}', 1) == "}";
  }

  lemma CloseBracketsOfOpenPair()
    ensures CloseAll("{[}", '[', ']') == "{[}]"
  {
    var s := "{[}";
    assert multiset(s) == multiset{'{', '[', '}'};
    assert Count(s, '[') == 1 && Count(s, ']') == 0;
    assert Repeat(']', 1) == "]";
  }
}
