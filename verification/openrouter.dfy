/** openrouter_client.py: the payload's token budget and the recovery of a
    project from the model's reply in `save_project_files`.

    The recovery tries three stages and keeps the first that yields a truthy
    value: (1) the whole reply, repaired, when it starts with `{`; (2) each
    fenced block, repaired, in textual order, stopping at the first that
    parses; (3) the `files` array found by pattern, parsed without repair,
    under the `project_name` found by pattern or `generated_project`.

    As written, stage 1 can never run to completion: `import re` further down
    the same function makes `re` a local name, so the first `re.sub` of
    stage 1 raises `UnboundLocalError`, which the `JSONDecodeError` handler
    does not catch and the outer handler turns into `False`. `SaveAsWritten`
    models that; `Recover` is the routine with stage 1 working. */
module OpenRouter {

  import opened Common
  import opened Text
  import opened Json
  import opened Fences
  import opened Repair

  /** `MAX_TOKENS` when no `config.py` overrides it. */
  const DefaultMaxTokens := 900000

  /** Name used by stage 3 when the reply has no `project_name` field. */
  const DefaultProjectName := "generated_project"

  /** `"max_tokens": max_tokens if max_tokens else MAX_TOKENS`: `None` and
      `0` are both replaced, every other request is kept. */
  function PayloadMaxTokens(requested: Option<int>): (r: int)
    ensures r != 0
    ensures requested.Some? && requested.value != 0 ==> r == requested.value
    ensures requested.None? || requested.value == 0 ==> r == DefaultMaxTokens
  {
    if requested.Some? && requested.value != 0 then requested.value else DefaultMaxTokens
  }

  /** Stage 1 guard: `content.strip().startswith('{')`. */
  predicate StartsWithBrace(content: string) {
    StartsWith(Strip(content), '{')
  }

  /** Stage 1 as intended: the whole reply, repaired, decoded. */
  function DirectStage(content: string, parse: Parser, closeStrings: string -> string): Option<Json> {
    if StartsWithBrace(content) then Attempt(content, parse, closeStrings) else None
  }

  /** One repair-then-decode attempt on a candidate text. */
  function Attempt(text: string, parse: Parser, closeStrings: string -> string): Option<Json> {
    parse(Repaired(text, closeStrings))
  }

  /** Stage 2's loop with `decode` the per-candidate attempt: the index and
      value of the first candidate that decodes (truthy or not, the loop
      breaks on it). */
  function FirstParsed(candidates: seq<string>, decode: string -> Option<Json>): (r: Option<(nat, Json)>)
    ensures r.Some? ==> r.value.0 < |candidates| && decode(candidates[r.value.0]) == Some(r.value.1)
    ensures r.Some? ==> forall k :: 0 <= k < r.value.0 ==> decode(candidates[k]).None?
    ensures r.None? ==> forall k :: 0 <= k < |candidates| ==> decode(candidates[k]).None?
  {
    if |candidates| == 0 then None
    else match decode(candidates[0])
      case Some(v) => Some((0, v))
      case None =>
        match FirstParsed(candidates[1..], decode)
        case None => None
        case Some((k, v)) => Some((k + 1, v))
  }

  /** Once a candidate decodes, whatever follows it is never looked at. */
  lemma {:induction false} LaterCandidatesIgnored(candidates: seq<string>, later: seq<string>, decode: string -> Option<Json>)
    requires FirstParsed(candidates, decode).Some?
    ensures FirstParsed(candidates + later, decode) == FirstParsed(candidates, decode)
  {
    if decode(candidates[0]).None? {
      assert (candidates + later)[1..] == candidates[1..] + later;
      LaterCandidatesIgnored(candidates[1..], later, decode);
    }
  }

  /** Stage 2: the fenced blocks of the reply, in order, each repaired. */
  function CodeBlockStage(content: string, parse: Parser, closeStrings: string -> string): Option<Json> {
    match FirstParsed(FencedBlocks(content), t => Attempt(t, parse, closeStrings))
    case Some((_, v)) => Some(v)
    case None => None
  }

  /** The text the `project_name` pattern matches: the quoted key, its two
      `\s*` runs `w1` and `w2` around the colon, and the quoted group `n`. */
  function NameField(w1: string, w2: string, n: string): string {
    "\"project_name\"" + w1 + ":" + w2 + "\"" + n + "\""
  }

  /** The pattern matches at `i` with these runs and this group. */
  predicate NameFieldAt(s: string, i: nat, w1: string, w2: string, n: string) {
    && AllDropped(w1, Whitespace) && AllDropped(w2, Whitespace)
    && |n| > 0 && '"' !in n
    && LiteralAt(s, i, NameField(w1, w2, n))
  }

  /** `"project_name"\s*:\s*"([^"]+)"` matched at index `i`: its group.
      Neither `\s*` can give back a character to the `:` or `"` after it,
      and `[^"]+` must run to the next quote, so the match is unique. */
  function ProjectNameAt(s: string, i: nat): (r: Option<string>)
    ensures r.Some? ==> |r.value| > 0 && '"' !in r.value && Contains(s, r.value)
    ensures r.Some? ==> LiteralAt(s, i, "\"project_name\"")
  {
    if !LiteralAt(s, i, "\"project_name\"") then None
    else NameAfterKey(s, SkipWhile(s, i + 14, Whitespace))
  }

  /** The rest of the `project_name` match once the first `\s*` ends at
      `a`: the colon, the second run, the quoted group. */
  function NameAfterKey(s: string, a: nat): (r: Option<string>)
    requires a <= |s|
    ensures r.Some? ==> |r.value| > 0 && '"' !in r.value && Contains(s, r.value)
  {
    if a < |s| && s[a] == ':' then QuotedName(s, SkipWhile(s, a + 1, Whitespace)) else None
  }

  /** `"([^"]+)"` matched at `b`. */
  function QuotedName(s: string, b: nat): (r: Option<string>)
    requires b <= |s|
    ensures r.Some? ==> |r.value| > 0 && '"' !in r.value && Contains(s, r.value)
  {
    if b < |s| && s[b] == '"' then NameUpTo(s, b, FindChar(s, '"', b + 1)) else None
  }

  /** The group between the opening quote at `b` and the next quote. */
  function NameUpTo(s: string, b: nat, close: Option<nat>): (r: Option<string>)
    requires close.Some? ==> b < close.value < |s| && '"' !in s[b + 1..close.value]
    ensures r.Some? ==> |r.value| > 0 && '"' !in r.value && Contains(s, r.value)
  {
    if close.Some? && close.value > b + 1 then
      assert LiteralAt(s, b + 1, s[b + 1..close.value]);
      Some(s[b + 1..close.value])
    else None
  }

  /** The match read off by positions: colon at `a`, opening quote at `b`,
      closing quote at `e`. */
  lemma ProjectNameAtPositions(s: string, i: nat, a: nat, b: nat, e: nat)
    requires LiteralAt(s, i, "\"project_name\"")
    requires i + 14 <= a < |s| && AllDropped(s[i + 14..a], Whitespace) && s[a] == ':'
    requires a + 1 <= b < |s| && AllDropped(s[a + 1..b], Whitespace) && s[b] == '"'
    requires b + 1 < e < |s| && s[e] == '"' && '"' !in s[b + 1..e]
    ensures ProjectNameAt(s, i) == Some(s[b + 1..e])
  {
    assert SkipWhile(s, i + 14, Whitespace) == a by {
      SkipWhileStopsAt(s, i + 14, a, Whitespace);
    }
    assert SkipWhile(s, a + 1, Whitespace) == b by {
      SkipWhileStopsAt(s, a + 1, b, Whitespace);
    }
    assert FindChar(s, '"', b + 1) == Some(e) by {
      FindCharStopsAt(s, '"', b + 1, e);
    }
    ProjectNameAtSteps(s, i, a, b, e);
  }

  /** The match read off by the scan's own steps. */
  lemma ProjectNameAtSteps(s: string, i: nat, a: nat, b: nat, e: nat)
    requires LiteralAt(s, i, "\"project_name\"")
    requires i + 14 <= |s| && SkipWhile(s, i + 14, Whitespace) == a && a < |s| && s[a] == ':'
    requires SkipWhile(s, a + 1, Whitespace) == b && b < |s| && s[b] == '"'
    requires FindChar(s, '"', b + 1) == Some(e) && e > b + 1
    ensures ProjectNameAt(s, i) == Some(s[b + 1..e])
  {
  }

  /** Every text the pattern matches is found, with its group. */
  lemma ProjectNameAtComplete(s: string, i: nat, w1: string, w2: string, n: string)
    requires NameFieldAt(s, i, w1, w2, n)
    ensures ProjectNameAt(s, i) == Some(n)
  {
    var key := "\"project_name\"";
    var a := i + 14 + |w1|;
    var b := a + 1 + |w2|;
    var e := b + 1 + |n|;
    assert && LiteralAt(s, i, key) && e < |s| && s[i + 14..a] == w1 && s[a] == ':' && s[a + 1..b] == w2
           && s[b] == '"' && s[b + 1..e] == n && s[e] == '"' by {
      NameFieldParts(s, i, w1, w2, n);
    }
    assert AllDropped(s[i + 14..a], Whitespace) && AllDropped(s[a + 1..b], Whitespace) && '"' !in s[b + 1..e];
    ProjectNameAtPositions(s, i, a, b, e);
  }


  /** The pieces of a matched field, position by position. */
  lemma NameFieldParts(s: string, i: nat, w1: string, w2: string, n: string)
    requires LiteralAt(s, i, NameField(w1, w2, n))
    ensures var a := i + 14 + |w1|;
            var b := a + 1 + |w2|;
            var e := b + 1 + |n|;
            && LiteralAt(s, i, "\"project_name\"") && e < |s|
            && s[i + 14..a] == w1 && s[a] == ':' && s[a + 1..b] == w2
            && s[b] == '"' && s[b + 1..e] == n && s[e] == '"'
  {
    var a := i + 14 + |w1|;
    var b := a + 1 + |w2|;
    var e := b + 1 + |n|;
    LiteralParts7(s, i, "\"project_name\"", w1, ":", w2, "\"", n, "\"");
    LiteralChar(s, a, ":", 0);
    LiteralChar(s, b, "\"", 0);
    LiteralChar(s, e, "\"", 0);
  }

  /** The text between positions read off a match is the matched field. */
  lemma NameFieldFromPositions(s: string, i: nat, a: nat, b: nat, e: nat)
    requires LiteralAt(s, i, "\"project_name\"")
    requires i + 14 <= a < b < e < |s| && s[a] == ':' && s[b] == '"' && s[e] == '"'
    ensures LiteralAt(s, i, NameField(s[i + 14..a], s[a + 1..b], s[b + 1..e]))
  {
    var key := "\"project_name\"";
    var w1, w2, n := s[i + 14..a], s[a + 1..b], s[b + 1..e];
    var head := key + w1 + ":" + w2 + "\"";
    assert LiteralAt(s, i, head) && i + |head| == b + 1 by {
      assert LiteralAt(s, i + 14, w1) && LiteralAt(s, a + 1, w2);
      assert LiteralAt(s, a, ":") && LiteralAt(s, b, "\"");
      LiteralParts5(s, i, key, w1, ":", w2, "\"");
    }
    assert LiteralAt(s, i, head + n + "\"") by {
      assert LiteralAt(s, b + 1, n) && LiteralAt(s, e, "\"");
      LiteralParts3(s, i, head, n, "\"");
    }
  }


  /** Whatever is found is a text the pattern matches. */
  lemma ProjectNameAtSound(s: string, i: nat)
    requires ProjectNameAt(s, i).Some?
    ensures exists w1, w2 :: NameFieldAt(s, i, w1, w2, ProjectNameAt(s, i).value)
  {
    var a := SkipWhile(s, i + 14, Whitespace);
    var b := SkipWhile(s, a + 1, Whitespace);
    var e := FindChar(s, '"', b + 1).value;
    assert ProjectNameAt(s, i) == Some(s[b + 1..e]);
    NameFieldFromPositions(s, i, a, b, e);
    assert NameFieldAt(s, i, s[i + 14..a], s[a + 1..b], s[b + 1..e]);
  }

  /** `re.search` of the `project_name` pattern over `s[from..]`: the group
      of the leftmost match. */
  function FindProjectName(s: string, from: nat): (r: Option<string>)
    requires from <= |s|
    ensures r.Some? ==> |r.value| > 0 && '"' !in r.value && Contains(s, r.value)
    ensures (forall i: nat :: from <= i ==> !LiteralAt(s, i, "\"project_name\"")) ==> r.None?
    decreases |s| - from
  {
    if from == |s| then None
    else if ProjectNameAt(s, from).Some? then ProjectNameAt(s, from)
    else FindProjectName(s, from + 1)
  }

  /** `search` semantics: a name comes from a position where the pattern
      matches with no match before it. */
  lemma {:induction false} FindProjectNameSound(s: string, from: nat)
    requires from <= |s|
    ensures var r := FindProjectName(s, from);
            r.Some? ==> exists i: nat :: from <= i && ProjectNameAt(s, i) == r
                                         && forall j: nat :: from <= j < i ==> ProjectNameAt(s, j).None?
    decreases |s| - from
  {
    var r := FindProjectName(s, from);
    if from == |s| {
    } else if ProjectNameAt(s, from).Some? {
      assert ProjectNameAt(s, from) == r by {
        FindProjectNameTake(s, from);
      }
    } else if r.Some? {
      assert r == FindProjectName(s, from + 1) by {
        FindProjectNameSkip(s, from);
      }
      FindProjectNameSound(s, from + 1);
      var i: nat :| && from + 1 <= i && ProjectNameAt(s, i) == r
                    && forall j: nat :: from + 1 <= j < i ==> ProjectNameAt(s, j).None?;
      forall j: nat | from <= j < i
        ensures ProjectNameAt(s, j).None?
      {
        if j == from {
          assert ProjectNameAt(s, from).None?;
        }
      }
    }
  }

  /** `search` semantics: no name means no position where the pattern
      matches. */
  lemma {:induction false} FindProjectNameMisses(s: string, from: nat)
    requires from <= |s| && FindProjectName(s, from).None?
    ensures forall i: nat :: from <= i ==> ProjectNameAt(s, i).None?
    decreases |s| - from
  {
    if from == |s| {
      assert forall i: nat :: from <= i ==> !LiteralAt(s, i, "\"project_name\"");
    } else {
      assert ProjectNameAt(s, from).None? && FindProjectName(s, from + 1).None? by {
        if ProjectNameAt(s, from).Some? {
          FindProjectNameTake(s, from);
        } else {
          FindProjectNameSkip(s, from);
        }
      }
      FindProjectNameMisses(s, from + 1);
    }
  }

  lemma {:induction false} FindProjectNameLeftmost(s: string, from: nat, i: nat)
    requires from <= i && ProjectNameAt(s, i).Some?
    requires forall j: nat :: from <= j < i ==> ProjectNameAt(s, j).None?
    ensures FindProjectName(s, from) == ProjectNameAt(s, i)
    decreases i - from
  {
    if from < i {
      assert FindProjectName(s, from) == FindProjectName(s, from + 1) by {
        assert LiteralAt(s, i, "\"project_name\"");
        FindProjectNameSkip(s, from);
      }
      FindProjectNameLeftmost(s, from + 1, i);
    } else {
      FindProjectNameTake(s, i);
    }
  }

  lemma FindProjectNameSkip(s: string, from: nat)
    requires from < |s| && ProjectNameAt(s, from).None?
    ensures FindProjectName(s, from) == FindProjectName(s, from + 1)
  {
  }

  lemma FindProjectNameTake(s: string, i: nat)
    requires ProjectNameAt(s, i).Some?
    ensures FindProjectName(s, i) == ProjectNameAt(s, i)
  {
    assert LiteralAt(s, i, "\"project_name\"");
  }

  /** No key starts inside the first `n` characters of `s` when its second
      letter is missing from them and is not the character at `n`. */
  lemma KeyNotInPrefix(s: string, n: nat, key: string, c: char)
    requires |key| >= 2 && key[1] == c
    requires n < |s| && s[n] != c && forall k :: 0 <= k < n ==> s[k] != c
    ensures forall j: nat :: j < n ==> !LiteralAt(s, j, key)
  {
    forall j: nat | j < n
      ensures !LiteralAt(s, j, key)
    {
      if LiteralAt(s, j, key) {
        LiteralChar(s, j, key, 1);
      }
    }
  }

  /** A field written as `json.dumps` writes it, after text without the
      letter `p`, is what stage 3 names the project. */
  lemma NameRecovered(pre: string, w1: string, w2: string, n: string, post: string)
    requires 'p' !in pre
    requires AllDropped(w1, Whitespace) && AllDropped(w2, Whitespace)
    requires |n| > 0 && '"' !in n
    ensures FindProjectName(pre + NameField(w1, w2, n) + post, 0) == Some(n)
  {
    var field := NameField(w1, w2, n);
    var s := pre + field + post;
    var i := |pre|;
    assert LiteralAt(s, i, field) && s[i + 1] == 'p' by {
      LiteralInConcat(pre, field, post);
      LiteralChar(s, i, field, 1);
    }
    assert forall k :: 0 <= k < i ==> s[k] != 'p' by {
      assert forall k :: 0 <= k < i ==> s[k] == pre[k];
    }
    assert ProjectNameAt(s, i) == Some(n) by {
      ProjectNameAtComplete(s, i, w1, w2, n);
    }
    assert forall j: nat :: j < i ==> ProjectNameAt(s, j).None? by {
      KeyNotInPrefix(s, i, "\"project_name\"", 'p');
    }
    FindProjectNameLeftmost(s, 0, i);
  }

  /** The text `"files"\s*:\s*\[` matches, with its two `\s*` runs. */
  function FilesField(w1: string, w2: string): string {
    "\"files\"" + w1 + ":" + w2 + "["
  }

  /** `"files"\s*:\s*\[` matched at index `i`: the index of its `[`. */
  function FilesHeaderAt(s: string, i: nat): (r: Option<nat>)
    ensures r.Some? ==> i < r.value < |s| && s[r.value] == '['
    ensures r.Some? ==> LiteralAt(s, i, "\"files\"")
  {
    if !LiteralAt(s, i, "\"files\"") then None
    else ColonThenBracket(s, SkipWhile(s, i + 7, Whitespace))
  }

  /** The rest of the header once the first `\s*` ends at `a`: the colon,
      the second run, the `[`. */
  function ColonThenBracket(s: string, a: nat): (r: Option<nat>)
    requires a <= |s|
    ensures r.Some? ==> a < r.value < |s| && s[r.value] == '['
  {
    if a < |s| && s[a] == ':' then OpenBracket(s, SkipWhile(s, a + 1, Whitespace)) else None
  }

  /** A `[` at `b`. */
  function OpenBracket(s: string, b: nat): (r: Option<nat>)
    requires b <= |s|
    ensures r.Some? ==> r.value == b && b < |s| && s[b] == '['
  {
    if b < |s| && s[b] == '[' then Some(b) else None
  }

  /** The header read off by positions: colon at `a`, `[` at `b`. */
  lemma FilesHeaderAtPositions(s: string, i: nat, a: nat, b: nat)
    requires LiteralAt(s, i, "\"files\"")
    requires i + 7 <= a < |s| && AllDropped(s[i + 7..a], Whitespace) && s[a] == ':'
    requires a + 1 <= b < |s| && AllDropped(s[a + 1..b], Whitespace) && s[b] == '['
    ensures FilesHeaderAt(s, i) == Some(b)
  {
    SkipWhileStopsAt(s, i + 7, a, Whitespace);
    SkipWhileStopsAt(s, a + 1, b, Whitespace);
  }

  /** Every text the header pattern matches is found, ending at its `[`. */
  lemma FilesHeaderAtComplete(s: string, i: nat, w1: string, w2: string)
    requires AllDropped(w1, Whitespace) && AllDropped(w2, Whitespace)
    requires LiteralAt(s, i, FilesField(w1, w2))
    ensures FilesHeaderAt(s, i) == Some(i + |FilesField(w1, w2)| - 1)
  {
    var key := "\"files\"";
    var a := i + 7 + |w1|;
    var b := a + 1 + |w2|;
    assert && LiteralAt(s, i, key) && LiteralAt(s, i + 7, w1) && LiteralAt(s, a, ":")
           && LiteralAt(s, a + 1, w2) && LiteralAt(s, b, "[") by {
      LiteralParts5(s, i, key, w1, ":", w2, "[");
    }
    assert s[a] == ':' && s[b] == '[' by {
      LiteralChar(s, a, ":", 0);
      LiteralChar(s, b, "[", 0);
    }
    FilesHeaderAtPositions(s, i, a, b);
  }


  /** The text between positions read off a header is the matched header. */
  lemma FilesFieldFromPositions(s: string, i: nat, a: nat, b: nat)
    requires LiteralAt(s, i, "\"files\"")
    requires i + 7 <= a < b < |s| && s[a] == ':' && s[b] == '['
    ensures LiteralAt(s, i, FilesField(s[i + 7..a], s[a + 1..b]))
  {
    var key := "\"files\"";
    var w1, w2 := s[i + 7..a], s[a + 1..b];
    assert LiteralAt(s, i + 7, w1) && LiteralAt(s, a + 1, w2);
    assert LiteralAt(s, a, ":") && LiteralAt(s, b, "[");
    LiteralParts5(s, i, key, w1, ":", w2, "[");
  }


  /** Whatever header is found is a text the pattern matches. */
  lemma FilesHeaderAtSound(s: string, i: nat)
    requires FilesHeaderAt(s, i).Some?
    ensures exists w1, w2 :: && AllDropped(w1, Whitespace) && AllDropped(w2, Whitespace)
                             && LiteralAt(s, i, FilesField(w1, w2))
                             && FilesHeaderAt(s, i).value == i + |FilesField(w1, w2)| - 1
  {
    var a := SkipWhile(s, i + 7, Whitespace);
    var b := SkipWhile(s, a + 1, Whitespace);
    assert FilesHeaderAt(s, i) == Some(b);
    FilesFieldFromPositions(s, i, a, b);
    assert |FilesField(s[i + 7..a], s[a + 1..b])| == b + 1 - i;
  }

  /** `body` sits in `s` right after a `[` and right before the last `]`
      of `s`. */
  ghost predicate Bracketed(s: string, body: string) {
    exists p: nat :: && LiteralAt(s, p, body) && 0 < p && s[p - 1] == '['
                     && p + |body| < |s| && s[p + |body|] == ']'
                     && ']' !in s[p + |body| + 1..]
  }

  lemma BracketedAt(s: string, p: nat, last: nat)
    requires 0 < p <= last < |s| && s[p - 1] == '[' && s[last] == ']' && ']' !in s[last + 1..]
    ensures Bracketed(s, s[p..last])
  {
    assert LiteralAt(s, p, s[p..last]);
  }

  /** `"files"\s*:\s*\[([\s\S]+)\]` matched at index `i`: the greedy group
      runs from after the header's `[` to the last `]` of the whole reply,
      and must not be empty. */
  function FilesBodyAt(s: string, i: nat): (r: Option<string>)
    ensures r.Some? ==> FilesHeaderAt(s, i).Some? && |r.value| > 0
  {
    if FilesHeaderAt(s, i).None? then None
    else BodyUpTo(s, FilesHeaderAt(s, i).value, FindLastChar(s, ']'))
  }

  /** The group after a `[` at `b`, up to the `]` at `last`. */
  function BodyUpTo(s: string, b: nat, last: Option<nat>): (r: Option<string>)
    requires b < |s| && (last.Some? ==> last.value < |s|)
    ensures r.Some? ==> |r.value| > 0
  {
    if last.Some? && last.value >= b + 2 then Some(s[b + 1..last.value]) else None
  }

  /** What the pattern captures: everything from after the header's `[` to
      the last `]` of the reply, which comes at least two characters after
      the `[`. */
  lemma FilesBodyAtShape(s: string, i: nat)
    requires FilesBodyAt(s, i).Some?
    ensures FindLastChar(s, ']').Some? && FilesHeaderAt(s, i).value + 2 <= FindLastChar(s, ']').value
    ensures FilesBodyAt(s, i).value == s[FilesHeaderAt(s, i).value + 1..FindLastChar(s, ']').value]
    ensures Bracketed(s, FilesBodyAt(s, i).value)
  {
    var b := FilesHeaderAt(s, i).value;
    var last := FindLastChar(s, ']').value;
    BracketedAt(s, b + 1, last);
  }

  /** The pattern fails after a header only when no `]` comes at least two
      characters after its `[`. */
  lemma FilesBodyAtComplete(s: string, i: nat, k: nat)
    requires FilesHeaderAt(s, i).Some?
    requires FilesHeaderAt(s, i).value + 2 <= k < |s| && s[k] == ']'
    ensures FilesBodyAt(s, i).Some?
  {
    var last := FindLastChar(s, ']');
    assert last.Some?;
  }

  /** `re.search` of the `files` pattern over `s[from..]`: the group of the
      leftmost match. */
  function FilesBody(s: string, from: nat): (r: Option<string>)
    requires from <= |s|
    ensures r.Some? ==> |r.value| > 0
    ensures (forall i: nat :: from <= i ==> !LiteralAt(s, i, "\"files\"")) ==> r.None?
    decreases |s| - from
  {
    if from == |s| then None
    else if FilesBodyAt(s, from).Some? then FilesBodyAt(s, from)
    else FilesBody(s, from + 1)
  }

  /** `search` semantics: a body comes from a position where the pattern
      matches with no match before it. */
  lemma {:induction false} FilesBodySound(s: string, from: nat)
    requires from <= |s|
    ensures var r := FilesBody(s, from);
            r.Some? ==> exists i: nat :: from <= i && FilesBodyAt(s, i) == r
                                         && forall j: nat :: from <= j < i ==> FilesBodyAt(s, j).None?
    decreases |s| - from
  {
    var r := FilesBody(s, from);
    if from == |s| {
    } else if FilesBodyAt(s, from).Some? {
      assert FilesBodyAt(s, from) == r by {
        FilesBodyTake(s, from);
      }
    } else if r.Some? {
      assert r == FilesBody(s, from + 1) by {
        FilesBodySkip(s, from);
      }
      FilesBodySound(s, from + 1);
      var i: nat :| && from + 1 <= i && FilesBodyAt(s, i) == r
                    && forall j: nat :: from + 1 <= j < i ==> FilesBodyAt(s, j).None?;
      forall j: nat | from <= j < i
        ensures FilesBodyAt(s, j).None?
      {
        if j == from {
          assert FilesBodyAt(s, from).None?;
        }
      }
    }
  }

  /** The body found sits right after a `[` and runs to the last `]` of
      the reply. */
  lemma FilesBodyBracketed(s: string, from: nat)
    requires from <= |s| && FilesBody(s, from).Some?
    ensures Bracketed(s, FilesBody(s, from).value)
  {
    FilesBodySound(s, from);
    var i: nat :| from <= i && FilesBodyAt(s, i) == FilesBody(s, from);
    FilesBodyAtShape(s, i);
  }

  /** `search` semantics: no body means no position where the pattern
      matches. */
  lemma {:induction false} FilesBodyMisses(s: string, from: nat)
    requires from <= |s| && FilesBody(s, from).None?
    ensures forall i: nat :: from <= i ==> FilesBodyAt(s, i).None?
    decreases |s| - from
  {
    if from == |s| {
      assert forall i: nat :: from <= i ==> !LiteralAt(s, i, "\"files\"");
    } else {
      assert FilesBodyAt(s, from).None? && FilesBody(s, from + 1).None? by {
        if FilesBodyAt(s, from).Some? {
          FilesBodyTake(s, from);
        } else {
          FilesBodySkip(s, from);
        }
      }
      FilesBodyMisses(s, from + 1);
    }
  }

  lemma {:induction false} FilesBodyLeftmost(s: string, from: nat, i: nat)
    requires from <= i && FilesBodyAt(s, i).Some?
    requires forall j: nat :: from <= j < i ==> FilesBodyAt(s, j).None?
    ensures FilesBody(s, from) == FilesBodyAt(s, i)
    decreases i - from
  {
    if from < i {
      assert FilesBody(s, from) == FilesBody(s, from + 1) by {
        assert LiteralAt(s, i, "\"files\"");
        FilesBodySkip(s, from);
      }
      FilesBodyLeftmost(s, from + 1, i);
    } else {
      FilesBodyTake(s, i);
    }
  }

  lemma FilesBodySkip(s: string, from: nat)
    requires from < |s| && FilesBodyAt(s, from).None?
    ensures FilesBody(s, from) == FilesBody(s, from + 1)
  {
  }

  lemma FilesBodyTake(s: string, i: nat)
    requires FilesBodyAt(s, i).Some?
    ensures FilesBody(s, i) == FilesBodyAt(s, i)
  {
    assert LiteralAt(s, i, "\"files\"");
  }

  /** A `files` array written after text without the letter `f`, followed
      by text without `]`, yields its whole body, `]`s inside included. */
  lemma FilesBodyRecovered(pre: string, w1: string, w2: string, body: string, post: string)
    requires 'f' !in pre && ']' !in post
    requires AllDropped(w1, Whitespace) && AllDropped(w2, Whitespace)
    requires |body| > 0
    ensures FilesBody(pre + FilesField(w1, w2) + body + "]" + post, 0) == Some(body)
  {
    var field := FilesField(w1, w2);
    var s := pre + field + body + "]" + post;
    var i := |pre|;
    assert FilesBodyAt(s, i) == Some(body) && LiteralAt(s, i, field) by {
      FilesReplyLayout(pre, field, body, post);
      FilesBodyAtLaidOut(s, i, w1, w2, body);
    }
    assert forall j: nat :: j < i ==> FilesBodyAt(s, j).None? by {
      FilesReplyPrefix(pre, field, body, post);
      NoFilesKeyBefore(s, i, w1, w2);
    }
    FilesBodyLeftmost(s, 0, i);
  }

  /** Where the header and the body of such a reply sit, and that its
      last `]` is the one written after the body. */
  lemma FilesReplyLayout(pre: string, field: string, body: string, post: string)
    requires ']' !in post
    ensures var s := pre + field + body + "]" + post;
            && LiteralAt(s, |pre|, field) && LiteralAt(s, |pre| + |field|, body)
            && FindLastChar(s, ']') == Some(|pre| + |field| + |body|)
  {
    var s := pre + field + body + "]" + post;
    assert LiteralAt(s, |pre|, field) && LiteralAt(s, |pre| + |field|, body) by {
      assert LiteralAt(s, 0, s);
      LiteralParts5(s, 0, pre, field, body, "]", post);
    }
    LastBracketBeforeTail(pre + field + body, post);
  }

  /** A header laid out at `i`, then a non-empty body, then the last `]`:
      the body is what the pattern captures there. */
  lemma FilesBodyAtLaidOut(s: string, i: nat, w1: string, w2: string, body: string)
    requires AllDropped(w1, Whitespace) && AllDropped(w2, Whitespace) && |body| > 0
    requires LiteralAt(s, i, FilesField(w1, w2)) && LiteralAt(s, i + |FilesField(w1, w2)|, body)
    requires FindLastChar(s, ']') == Some(i + |FilesField(w1, w2)| + |body|)
    ensures FilesBodyAt(s, i) == Some(body)
  {
    var start := i + |FilesField(w1, w2)|;
    FilesHeaderAtComplete(s, i, w1, w2);
    FilesBodyAtFrom(s, i, start, start + |body|);
  }

  /** With the header's `[` just before `start` and the last `]` after it,
      the body is what lies between them. */
  lemma FilesBodyAtFrom(s: string, i: nat, start: nat, last: nat)
    requires start > 0 && FilesHeaderAt(s, i) == Some(start - 1)
    requires FindLastChar(s, ']') == Some(last) && start < last
    ensures FilesBodyAt(s, i) == Some(s[start..last])
  {
  }

  /** A `]` followed by text without one is the last `]`. */
  lemma LastBracketBeforeTail(x: string, post: string)
    requires ']' !in post
    ensures FindLastChar(x + "]" + post, ']') == Some(|x|)
  {
    var s := x + "]" + post;
    assert s[|x| + 1..] == post;
    FindLastCharStopsAt(s, ']', |x|);
  }

  /** The characters before the header of such a reply are those of
      `pre`. */
  lemma FilesReplyPrefix(pre: string, field: string, body: string, post: string)
    requires 'f' !in pre
    ensures var s := pre + field + body + "]" + post;
            forall k :: 0 <= k < |pre| ==> s[k] != 'f'
  {
    var s := pre + field + body + "]" + post;
    assert forall k :: 0 <= k < |pre| ==> s[k] == pre[k];
  }

  /** No `"files"` starts before a header laid out at `i` with no `f`
      before it. */
  lemma NoFilesKeyBefore(s: string, i: nat, w1: string, w2: string)
    requires LiteralAt(s, i, FilesField(w1, w2)) && forall k :: 0 <= k < i ==> s[k] != 'f'
    ensures forall j: nat :: j < i ==> !LiteralAt(s, j, "\"files\"")
  {
    LiteralChar(s, i, FilesField(w1, w2), 1);
    KeyNotInPrefix(s, i, "\"files\"", 'f');
  }

  /** Stage 3: `[` + files body + `]` decoded with no repair at all. */
  function PartialStage(content: string, parse: Parser): (r: Option<Json>)
    ensures r.Some? ==> Truthy(r.value)
    ensures r.Some? ==> FilesBody(content, 0).Some? && r.value.JObj?
                        && r.value.fields.Keys == {"project_name", "files"}
    ensures r.Some? ==> Some(r.value.fields["files"]) == parse("[" + FilesBody(content, 0).value + "]")
    ensures r.Some? ==> r.value.fields["project_name"] == JStr(FindProjectName(content, 0).GetOr(DefaultProjectName))
    ensures FilesBody(content, 0).Some? && parse("[" + FilesBody(content, 0).value + "]").Some? ==> r.Some?
  {
    var name := FindProjectName(content, 0).GetOr(DefaultProjectName);
    match FilesBody(content, 0)
    case None => None
    case Some(body) =>
      match parse("[" + body + "]")
      case None => None
      case Some(files) => Some(JObj(map["project_name" := JStr(name), "files" := files]))
  }

  /** The first stage whose value is truthy; stage 1 is consulted only when
      `direct` holds. `None` is the final `if not project_data`. */
  function Cascade(content: string, parse: Parser, closeStrings: string -> string, direct: bool): (r: Option<Json>)
    ensures r.Some? ==> Truthy(r.value)
    ensures direct && Found(DirectStage(content, parse, closeStrings)) ==>
              r == DirectStage(content, parse, closeStrings)
    ensures !(direct && Found(DirectStage(content, parse, closeStrings)))
            && Found(CodeBlockStage(content, parse, closeStrings)) ==>
              r == CodeBlockStage(content, parse, closeStrings)
    ensures !(direct && Found(DirectStage(content, parse, closeStrings)))
            && !Found(CodeBlockStage(content, parse, closeStrings)) ==>
              r == PartialStage(content, parse)
  {
    var d1 := if direct then DirectStage(content, parse, closeStrings) else None;
    if Found(d1) then d1
    else
      var d2 := CodeBlockStage(content, parse, closeStrings);
      if Found(d2) then d2 else PartialStage(content, parse)
  }

  /** An item the save loop can write: an object with string `path` and
      `content`. */
  predicate FileItem(v: Json) {
    && v.JObj?
    && "path" in v.fields && v.fields["path"].JStr?
    && "content" in v.fields && v.fields["content"].JStr?
  }

  /** The files a decoded `files` list yields when iterated; the first item
      that is not a `FileItem` raises. */
  function Entries(items: seq<Json>): (r: Option<seq<FileEntry>>)
    ensures r.Some? <==> forall k :: 0 <= k < |items| ==> FileItem(items[k])
    ensures r.Some? ==> |r.value| == |items|
    ensures r.Some? ==> forall k :: 0 <= k < |items| ==>
              && items[k].fields["path"] == JStr(r.value[k].path)
              && items[k].fields["content"] == JStr(r.value[k].content)
  {
    if |items| == 0 then Some([])
    else
      var first := items[0];
      if FileItem(first) then
        match Entries(items[1..])
        case None =>
          assert forall k :: 1 <= k < |items| ==> items[k] == items[1..][k - 1];
          None
        case Some(rest) =>
          Some([FileEntry(first.fields["path"].s, first.fields["content"].s)] + rest)
      else None
  }

  /** Iterating any decoded `files` value: a list as above; an empty string
      or empty object iterates to nothing; every other value raises (a
      non-empty string or object iterates to strings, which cannot be
      indexed by `'path'`; numbers, booleans and `null` are not
      iterable). */
  function FilesOf(v: Json): (r: Option<seq<FileEntry>>)
    ensures v.JArr? ==> r == Entries(v.items)
    ensures !v.JArr? ==> (r.Some? <==> v == JStr("") || v == JObj(map[]))
    ensures !v.JArr? && r.Some? ==> r.value == []
  {
    match v
    case JArr(items) => Entries(items)
    case JStr(s) => if s == "" then Some([]) else None
    case JObj(fields) => if fields == map[] then Some([]) else None
    case _ => None
  }

  /** Reading the project out of the decoded value: `.get` needs an object,
      the name must be a string (for `os.path.join`), `files` defaults to
      the empty list. */
  function Describe(data: Json): (r: Option<Project>)
    ensures r.Some? ==> data.JObj?
    ensures r.Some? && data.JObj? && "project_name" !in data.fields ==> r.value.name == DefaultProjectName
    ensures r.Some? && data.JObj? && "project_name" in data.fields ==>
              data.fields["project_name"] == JStr(r.value.name)
    ensures r.Some? && data.JObj? && "files" !in data.fields ==> r.value.files == []
    ensures r.Some? && data.JObj? && "files" in data.fields ==>
              FilesOf(data.fields["files"]) == Some(r.value.files)
    ensures (&& data.JObj?
             && ("project_name" in data.fields ==> data.fields["project_name"].JStr?)
             && ("files" in data.fields ==> FilesOf(data.fields["files"]).Some?)) ==> r.Some?
  {
    match data
    case JObj(fields) =>
      var name := if "project_name" in fields then fields["project_name"] else JStr(DefaultProjectName);
      var files := if "files" in fields then FilesOf(fields["files"]) else Some([]);
      if name.JStr? && files.Some? then Some(Project(name.s, files.value)) else None
    case _ => None
  }

  /** `save_project_files`' verdict: the project it writes, or `False`. */
  datatype SaveOutcome = Saved(project: Project) | NotSaved

  function Finish(data: Option<Json>): SaveOutcome {
    match data
    case None => NotSaved
    case Some(d) =>
      match Describe(d)
      case Some(p) => Saved(p)
      case None => NotSaved
  }

  /** The routine with a working stage 1. */
  function Recover(content: string, parse: Parser, closeStrings: string -> string): (r: SaveOutcome)
    ensures StartsWithBrace(content) && Found(Attempt(content, parse, closeStrings)) ==>
              r == Finish(Attempt(content, parse, closeStrings))
    ensures Cascade(content, parse, closeStrings, true).None? ==> r == NotSaved
  {
    Finish(Cascade(content, parse, closeStrings, true))
  }

  /** `save_project_files` as written: stage 1 is entered exactly when the
      stripped reply starts with `{`, and then the unbound `re` ends the
      call with `False`; otherwise stages 2 and 3 run. */
  function SaveAsWritten(content: string, parse: Parser, closeStrings: string -> string): (r: SaveOutcome)
    ensures StartsWithBrace(content) ==> r == NotSaved
    ensures !StartsWithBrace(content) ==> r == Recover(content, parse, closeStrings)
  {
    if StartsWithBrace(content) then NotSaved
    else Finish(Cascade(content, parse, closeStrings, false))
  }

  /** Without a `{` at the start and with no fenced block or `files` array
      that decodes, nothing is saved: unlike the Moonshot client there is no
      README fallback here. */
  lemma NothingDecodesNothingSaved(content: string, parse: Parser, closeStrings: string -> string)
    requires !Found(DirectStage(content, parse, closeStrings))
    requires forall k :: 0 <= k < |FencedBlocks(content)| ==>
               Attempt(FencedBlocks(content)[k], parse, closeStrings).None?
    requires FilesBody(content, 0).None?
    ensures Recover(content, parse, closeStrings) == NotSaved
    ensures SaveAsWritten(content, parse, closeStrings) == NotSaved
  {
  }

  /** The routine with a working stage 1 saves whatever a `{`-reply decodes
      to, as long as that value describes a project. */
  lemma DirectDocumentSaved(content: string, parse: Parser, closeStrings: string -> string, p: Project)
    requires StartsWithBrace(content)
    requires Found(Attempt(content, parse, closeStrings))
    requires Describe(Attempt(content, parse, closeStrings).value) == Some(p)
    ensures Recover(content, parse, closeStrings) == Saved(p)
    ensures SaveAsWritten(content, parse, closeStrings) == NotSaved
  {
  }

  /** A complete descriptor with one file, on one line, as `json.dumps`
      writes it: `{"project_name": "demo", "files": [{"path": "a",
      "content": "b"}]}`. It is spelled in pieces to keep each literal
      short. */
  const DemoHead := "{\"project_name\": \"demo\", "
  const DemoItem := "{\"path\": \"a\", \"content\": \"b\"}"
  const DemoReply := DemoHead + FilesField("", " ") + DemoItem + "]" + "}"

  lemma DemoReplyStartsWithBrace()
    ensures StartsWithBrace(DemoReply)
  {
    assert DemoReply[0] == '{' && DemoReply[|DemoReply| - 1] == '}';
    StripByKeepsUnpadded(DemoReply, Whitespace);
  }

  /** The demo reply has no fenced block, so stage 2 finds nothing. */
  lemma DemoReplyHasNoBlocks(parse: Parser, closeStrings: string -> string)
    ensures CodeBlockStage(DemoReply, parse, closeStrings).None?
  {
    assert '`' !in DemoHead && '`' !in FilesField("", " ") && '`' !in DemoItem;
    assert '`' !in DemoReply;
    NoBacktickNoFence(DemoReply);
  }

  /** Stage 3 reads the demo reply's name and its whole `files` body. */
  lemma DemoReplyScanned()
    ensures FindProjectName(DemoReply, 0) == Some("demo")
    ensures FilesBody(DemoReply, 0) == Some(DemoItem)
  {
    var tail := ", " + FilesField("", " ") + DemoItem + "]" + "}";
    assert DemoHead == "{" + NameField("", " ", "demo") + ", ";
    assert DemoReply == "{" + NameField("", " ", "demo") + tail;
    NameRecovered("{", "", " ", "demo", tail);
    DemoHeadHasNoF();
    FilesBodyRecovered(DemoHead, "", " ", DemoItem, "}");
  }

  lemma DemoHeadHasNoF()
    ensures 'f' !in DemoHead
  {
  }

  /** The value stage 3 builds from the demo reply describes its project. */
  lemma DemoDescribed()
    ensures var item := JObj(map["path" := JStr("a"), "content" := JStr("b")]);
            Describe(JObj(map["project_name" := JStr("demo"), "files" := JArr([item])]))
              == Some(Project("demo", [FileEntry("a", "b")]))
  {
    var item := JObj(map["path" := JStr("a"), "content" := JStr("b")]);
    var data := JObj(map["project_name" := JStr("demo"), "files" := JArr([item])]);
    assert "path" != "content" && "project_name" != "files";
    assert FileItem(item);
    assert item.fields["path"].s == "a" && item.fields["content"].s == "b";
    assert [item][1..] == [] && Entries([]) == Some([]);
    assert Entries([item]) == Some([FileEntry("a", "b")] + []);
    assert [FileEntry("a", "b")] + [] == [FileEntry("a", "b")];
    assert FilesOf(JArr([item])) == Some([FileEntry("a", "b")]);
    assert data.fields["project_name"] == JStr("demo") && data.fields["files"] == JArr([item]);
  }

  /** A complete one-file reply that stage 1 cannot decode once repaired is
      refused as written, while the routine whose stage 1 fails over to the
      later stages saves it through stage 3. */
  lemma DemoReplyRefused(parse: Parser, closeStrings: string -> string)
    requires !Found(Attempt(DemoReply, parse, closeStrings))
    requires parse("[" + DemoItem + "]") == Some(JArr([JObj(map["path" := JStr("a"), "content" := JStr("b")])]))
    ensures SaveAsWritten(DemoReply, parse, closeStrings) == NotSaved
    ensures Recover(DemoReply, parse, closeStrings) == Saved(Project("demo", [FileEntry("a", "b")]))
  {
    DemoReplyStartsWithBrace();
    DemoReplyHasNoBlocks(parse, closeStrings);
    DemoReplyScanned();
    var item := JObj(map["path" := JStr("a"), "content" := JStr("b")]);
    var data := JObj(map["project_name" := JStr("demo"), "files" := JArr([item])]);
    assert PartialStage(DemoReply, parse) == Some(data);
    DemoDescribed();
  }
}
