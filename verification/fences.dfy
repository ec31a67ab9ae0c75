/** The three regular-expression searches the clients run over a model's
    reply, written out as scans:

      - `re.findall(r'```(?:json)?\s*([\s\S]*?)\s*```', s)` (every fenced block),
      - `re.search(r'```json\s*([\s\S]*?)\s*```', s)` (the first `json` block),
      - `re.search(r'\{[\s\S]*\}', s)` (first `{` to last `}`).

    For the fenced patterns: the lazy group stops at the first position from
    which optional whitespace leads to a closing fence, so the capture runs
    up to the first fence after the opening, minus the whitespace just before
    that fence; the greedy `\s*` after the opening never needs to give back
    characters, because whitespace is not a backtick. */
module Fences {

  import opened Common
  import opened Text

  /** A triple backtick starts at index `i` of `s`. */
  predicate FenceAt(s: string, i: nat) {
    LiteralAt(s, i, "```")
  }

  /** No triple backtick occurs anywhere in `c`. */
  predicate NoFence(c: string) {
    forall k: nat | k <= |c| :: !FenceAt(c, k)
  }

  /** The first fence starting at or after `from`. */
  function FindFence(s: string, from: nat): (r: Option<nat>)
    requires from <= |s|
    ensures r.Some? ==> from <= r.value && FenceAt(s, r.value)
    ensures r.Some? ==> forall k: nat :: from <= k < r.value ==> !FenceAt(s, k)
    ensures r.None? ==> forall k: nat :: from <= k ==> !FenceAt(s, k)
    decreases |s| - from
  {
    if from + 3 > |s| then None
    else if FenceAt(s, from) then Some(from)
    else FindFence(s, from + 1)
  }

  /** The match of `([\s\S]*?)\s*```` with the group starting at `p`: the
      captured text and the index just past the closing fence. */
  function CloseBlock(s: string, p: nat): (r: Option<(string, nat)>)
    requires p <= |s|
    ensures r.None? <==> forall k: nat :: p <= k ==> !FenceAt(s, k)
    ensures r.Some? ==>
              var (c, e) := r.value;
              && p + |c| + 3 <= e <= |s|
              && c == s[p..p + |c|]
              && FenceAt(s, e - 3)
              && AllDropped(s[p + |c|..e - 3], Whitespace)
              && (|c| > 0 ==> !IsSpace(c[|c| - 1]))
              && forall k: nat :: p <= k < e - 3 ==> !FenceAt(s, k)
  {
    match FindFence(s, p)
    case None => None
    case Some(f) =>
      var q := SkipWhileBack(s, p, f, Whitespace);
      var c := s[p..q];
      assert |c| == q - p && p + |c| == q;
      assert |c| > 0 ==> c[|c| - 1] == s[q - 1];
      Some((c, f + 3))
  }

  /** A capture produced by `CloseBlock` never contains a fence itself. */
  lemma CaptureHasNoFence(s: string, p: nat)
    requires p <= |s| && CloseBlock(s, p).Some?
    ensures NoFence(CloseBlock(s, p).value.0)
  {
    var (c, e) := CloseBlock(s, p).value;
    forall k: nat
      ensures !FenceAt(c, k)
    {
      if FenceAt(c, k) {
        FenceInSlice(s, p, c, k);
      }
    }
  }

  /** A fence inside a slice of `s` is a fence of `s`. */
  lemma FenceInSlice(s: string, p: nat, c: string, k: nat)
    requires p + |c| <= |s| && c == s[p..p + |c|] && FenceAt(c, k)
    ensures FenceAt(s, p + k)
  {
    var t := s[p..p + |c|];
    assert c[k] == t[k] == s[p + k];
    assert c[k + 1] == t[k + 1] == s[p + k + 1];
    assert c[k + 2] == t[k + 2] == s[p + k + 2];
    assert s[p + k..p + k + 3] == [s[p + k], s[p + k + 1], s[p + k + 2]];
    assert c[k..k + 3] == [c[k], c[k + 1], c[k + 2]];
  }

  /** Index where the group of the fenced pattern starts when the opening
      fence is at `i`: past the fence, past an optional `json` tag (taken
      when present, the `?` being greedy), past the whitespace after it. */
  function GroupStart(s: string, i: nat): (p: nat)
    requires FenceAt(s, i)
    ensures i + 3 <= p <= |s|
  {
    var a := if LiteralAt(s, i + 3, "json") then i + 7 else i + 3;
    SkipWhile(s, a, Whitespace)
  }

  /** The fenced-block pattern matched at exactly index `i`: the capture and
      the index just past the closing fence. */
  function BlockAt(s: string, i: nat): (r: Option<(string, nat)>)
    ensures r.Some? ==> FenceAt(s, i) && i + 3 <= r.value.1 <= |s|
  {
    if FenceAt(s, i) then CloseBlock(s, GroupStart(s, i)) else None
  }

  /** `re.findall` of the fenced-block pattern over `s[from..]`, in textual
      order. An opening fence without any later fence produces no match and
      the scan goes on one character later, as the regex engine does. */
  function Blocks(s: string, from: nat): (r: seq<string>)
    requires from <= |s|
    ensures forall k :: 0 <= k < |r| ==> Contains(s, r[k]) && NoFence(r[k])
    ensures (forall k: nat :: from <= k ==> !FenceAt(s, k)) ==> r == []
    decreases |s| - from
  {
    match FindFence(s, from)
    case None => []
    case Some(i) =>
      var p := GroupStart(s, i);
      match CloseBlock(s, p)
      case None => Blocks(s, i + 1)
      case Some((c, e)) =>
        CaptureHasNoFence(s, p);
        assert LiteralAt(s, p, c);
        [c] + Blocks(s, e)
  }

  /** `findall` semantics, first half: the first capture is the one of the
      leftmost position where the pattern matches, and the search resumes
      where that match ends. */
  lemma {:induction false} BlocksLeftmost(s: string, from: nat, i: nat)
    requires from <= i && BlockAt(s, i).Some?
    requires forall j: nat :: from <= j < i ==> BlockAt(s, j).None?
    ensures Blocks(s, from) == [BlockAt(s, i).value.0] + Blocks(s, BlockAt(s, i).value.1)
    decreases i - from
  {
    var found := FindFence(s, from);
    assert found.Some? && found.value <= i by {
      assert FenceAt(s, i);
    }
    var f := found.value;
    if f < i {
      assert Blocks(s, from) == Blocks(s, f + 1) by {
        BlocksSkip(s, from, f);
      }
      BlocksLeftmost(s, f + 1, i);
    } else {
      assert f == i;
      assert Blocks(s, from) == [BlockAt(s, i).value.0] + Blocks(s, BlockAt(s, i).value.1) by {
        BlocksTake(s, from, f);
      }
    }
  }

  /** One step of `Blocks`: a fence that opens no block is passed over. */
  lemma BlocksSkip(s: string, from: nat, f: nat)
    requires from <= |s| && FindFence(s, from) == Some(f) && BlockAt(s, f).None?
    ensures Blocks(s, from) == Blocks(s, f + 1)
  {
  }

  /** One step of `Blocks`: a fence that opens a block yields its capture. */
  lemma BlocksTake(s: string, from: nat, f: nat)
    requires from <= |s| && FindFence(s, from) == Some(f) && BlockAt(s, f).Some?
    ensures Blocks(s, from) == [BlockAt(s, f).value.0] + Blocks(s, BlockAt(s, f).value.1)
  {
  }

  /** `findall` semantics, second half: where the pattern matches nowhere,
      there are no captures. */
  lemma {:induction false} BlocksNone(s: string, from: nat)
    requires from <= |s|
    requires forall j: nat :: from <= j ==> BlockAt(s, j).None?
    ensures Blocks(s, from) == []
    decreases |s| - from
  {
    var first := FindFence(s, from);
    if first.Some? {
      var f := first.value;
      assert Blocks(s, from) == Blocks(s, f + 1) by {
        BlocksSkip(s, from, f);
      }
      BlocksNone(s, f + 1);
    }
  }

  /** The fenced blocks of a whole reply. */
  function FencedBlocks(s: string): seq<string> {
    Blocks(s, 0)
  }

  /** `re.search(r'```json\s*([\s\S]*?)\s*```', ...)` matched at exactly
      index `i`: the capture. */
  function JsonBlockAt(s: string, i: nat): (r: Option<string>)
    ensures r.Some? ==> LiteralAt(s, i, "```json") && Contains(s, r.value) && NoFence(r.value)
  {
    if !LiteralAt(s, i, "```json") then None
    else
      var p := SkipWhile(s, i + 7, Whitespace);
      match CloseBlock(s, p)
      case Some((c, _)) =>
        CaptureHasNoFence(s, p);
        assert LiteralAt(s, p, c);
        Some(c)
      case None => None
  }

  /** `re.search(r'```json\s*([\s\S]*?)\s*```', s[from..])`: the capture at
      the leftmost position where the pattern matches. */
  function FirstJsonBlock(s: string, from: nat): (r: Option<string>)
    requires from <= |s|
    ensures r.Some? ==> Contains(s, r.value) && NoFence(r.value)
    ensures (forall i: nat :: from <= i ==> !LiteralAt(s, i, "```json")) ==> r.None?
    decreases |s| - from
  {
    if from + 7 > |s| then None
    else if JsonBlockAt(s, from).Some? then JsonBlockAt(s, from)
    else FirstJsonBlock(s, from + 1)
  }

  /** `search` semantics: a capture comes from a position where the pattern
      matches with no match before it. */
  lemma {:induction false} FirstJsonBlockSound(s: string, from: nat)
    requires from <= |s|
    ensures var r := FirstJsonBlock(s, from);
            r.Some? ==> exists i: nat :: from <= i && JsonBlockAt(s, i) == r
                                         && forall j: nat :: from <= j < i ==> JsonBlockAt(s, j).None?
    decreases |s| - from
  {
    var r := FirstJsonBlock(s, from);
    if from + 7 > |s| {
    } else if JsonBlockAt(s, from).Some? {
      assert JsonBlockAt(s, from) == r by {
        FirstJsonBlockTake(s, from);
      }
    } else if r.Some? {
      assert r == FirstJsonBlock(s, from + 1) by {
        FirstJsonBlockSkip(s, from);
      }
      FirstJsonBlockSound(s, from + 1);
      var i: nat :| && from + 1 <= i && JsonBlockAt(s, i) == r
                    && forall j: nat :: from + 1 <= j < i ==> JsonBlockAt(s, j).None?;
      forall j: nat | from <= j < i
        ensures JsonBlockAt(s, j).None?
      {
        if j == from {
          assert JsonBlockAt(s, from).None?;
        }
      }
    }
  }

  /** `search` semantics: no capture means no position where the pattern
      matches. */
  lemma {:induction false} FirstJsonBlockMisses(s: string, from: nat)
    requires from <= |s| && FirstJsonBlock(s, from).None?
    ensures forall i: nat :: from <= i ==> JsonBlockAt(s, i).None?
    decreases |s| - from
  {
    if from + 7 > |s| {
      assert forall i: nat :: from <= i ==> !LiteralAt(s, i, "```json");
    } else {
      assert JsonBlockAt(s, from).None? && FirstJsonBlock(s, from + 1).None? by {
        if JsonBlockAt(s, from).Some? {
          FirstJsonBlockTake(s, from);
        } else {
          FirstJsonBlockSkip(s, from);
        }
      }
      FirstJsonBlockMisses(s, from + 1);
    }
  }

  /** `search` semantics: the capture is the one of the leftmost position
      where the pattern matches. */
  lemma {:induction false} FirstJsonBlockLeftmost(s: string, from: nat, i: nat)
    requires from <= i && JsonBlockAt(s, i).Some?
    requires forall j: nat :: from <= j < i ==> JsonBlockAt(s, j).None?
    ensures FirstJsonBlock(s, from) == JsonBlockAt(s, i)
    decreases i - from
  {
    if from < i {
      assert FirstJsonBlock(s, from) == FirstJsonBlock(s, from + 1) by {
        assert LiteralAt(s, i, "```json");
        FirstJsonBlockSkip(s, from);
      }
      FirstJsonBlockLeftmost(s, from + 1, i);
    } else {
      FirstJsonBlockTake(s, i);
    }
  }

  /** One step of the search: a position where the pattern fails is
      passed over. */
  lemma FirstJsonBlockSkip(s: string, from: nat)
    requires from + 7 <= |s| && JsonBlockAt(s, from).None?
    ensures FirstJsonBlock(s, from) == FirstJsonBlock(s, from + 1)
  {
  }

  /** One step of the search: a position where the pattern matches ends
      it. */
  lemma FirstJsonBlockTake(s: string, i: nat)
    requires JsonBlockAt(s, i).Some?
    ensures FirstJsonBlock(s, i) == JsonBlockAt(s, i)
  {
    assert LiteralAt(s, i, "```json");
  }

  /** No backtick, no fence. */
  lemma NoBacktickNoFence(s: string)
    requires '`' !in s
    ensures forall k: nat :: !FenceAt(s, k) && !LiteralAt(s, k, "```json")
  {
    forall k: nat
      ensures !FenceAt(s, k) && !LiteralAt(s, k, "```json")
    {
      if k + 3 <= |s| {
        assert s[k..k + 3][0] == s[k];
      }
    }
  }

  /** No match of either pattern starts in a backtick-free prefix. */
  lemma NoBlockInPrefix(s: string, n: nat)
    requires n <= |s| && '`' !in s[..n]
    ensures forall j: nat :: j < n ==> BlockAt(s, j).None? && JsonBlockAt(s, j).None?
  {
    forall j: nat | j < n
      ensures BlockAt(s, j).None? && JsonBlockAt(s, j).None?
    {
      assert s[j] == s[..n][j];
      if FenceAt(s, j) {
        LiteralChar(s, j, "```", 0);
      }
      if LiteralAt(s, j, "```json") {
        LiteralChar(s, j, "```json", 0);
      }
    }
  }

  /** A block fenced the way the prompts ask for: ```` ```json ````, a
      newline, the text, a newline, ```` ``` ````. */
  function WrapJson(c: string): string {
    "```json\n" + c + "\n```"
  }

  /** A trimmed, backtick-free text fenced after backtick-free text is
      what both fenced-block searches find first: wrapping and
      extracting are inverse. */
  lemma JsonBlockRoundTrip(pre: string, c: string, post: string)
    requires '`' !in pre && '`' !in c
    requires c != "" && !IsSpace(c[0]) && !IsSpace(c[|c| - 1])
    ensures var s := pre + WrapJson(c) + post;
            && FirstJsonBlock(s, 0) == Some(c)
            && |FencedBlocks(s)| > 0 && FencedBlocks(s)[0] == c
  {
    var s := pre + WrapJson(c) + post;
    assert LiteralAt(s, |pre|, WrapJson(c)) && '`' !in s[..|pre|] by {
      LiteralInConcat(pre, WrapJson(c), post);
      assert s[..|pre|] == pre;
    }
    WrappedFirst(s, |pre|, c);
  }

  /** A fenced block laid out at index `i`, with no backtick before it, is
      what both searches find first. */
  lemma WrappedFirst(s: string, i: nat, c: string)
    requires LiteralAt(s, i, WrapJson(c)) && i <= |s| && '`' !in s[..i]
    requires '`' !in c && c != "" && !IsSpace(c[0]) && !IsSpace(c[|c| - 1])
    ensures FirstJsonBlock(s, 0) == Some(c)
    ensures |FencedBlocks(s)| > 0 && FencedBlocks(s)[0] == c
  {
    WrapJsonParts(s, i, c);
    NoBlockInPrefix(s, i);
    WrappedJsonFirst(s, i, c);
    WrappedFencedFirst(s, i, c);
  }

  /** The three parts of a fenced block, one after the other. */
  lemma WrapJsonParts(s: string, i: nat, c: string)
    requires LiteralAt(s, i, WrapJson(c))
    ensures LiteralAt(s, i, "```json\n") && LiteralAt(s, i + 8, c) && LiteralAt(s, i + 8 + |c|, "\n```")
  {
    LiteralSplit(s, i, "```json\n" + c, "\n```");
    LiteralSplit(s, i, "```json\n", c);
  }

  /** The first `json` block search finds a block laid out at `i` when it
      matches nowhere before. */
  lemma WrappedJsonFirst(s: string, i: nat, c: string)
    requires LiteralAt(s, i, "```json\n") && LiteralAt(s, i + 8, c) && LiteralAt(s, i + 8 + |c|, "\n```")
    requires '`' !in c && c != "" && !IsSpace(c[0]) && !IsSpace(c[|c| - 1])
    requires forall j: nat :: j < i ==> BlockAt(s, j).None? && JsonBlockAt(s, j).None?
    ensures FirstJsonBlock(s, 0) == Some(c)
  {
    assert JsonBlockAt(s, i) == Some(c) by {
      WrappedJsonBlockAt(s, i, c);
    }
    FirstJsonBlockLeftmost(s, 0, i);
  }

  /** `findall` starts with a block laid out at `i` when the pattern
      matches nowhere before. */
  lemma WrappedFencedFirst(s: string, i: nat, c: string)
    requires LiteralAt(s, i, "```json\n") && LiteralAt(s, i + 8, c) && LiteralAt(s, i + 8 + |c|, "\n```")
    requires '`' !in c && c != "" && !IsSpace(c[0]) && !IsSpace(c[|c| - 1])
    requires forall j: nat :: j < i ==> BlockAt(s, j).None? && JsonBlockAt(s, j).None?
    ensures |FencedBlocks(s)| > 0 && FencedBlocks(s)[0] == c
  {
    assert BlockAt(s, i) == Some((c, i + 12 + |c|)) by {
      WrappedFencedBlockAt(s, i, c);
    }
    BlocksLeftmost(s, 0, i);
  }

  /** After ```` ```json ```` and a newline, the group starts at the text. */
  lemma WrappedOpening(s: string, i: nat, c: string)
    requires LiteralAt(s, i, "```json\n") && LiteralAt(s, i + 8, c)
    requires c != "" && !IsSpace(c[0])
    ensures LiteralAt(s, i, "```json") && LiteralAt(s, i + 3, "json") && FenceAt(s, i)
    ensures SkipWhile(s, i + 7, Whitespace) == i + 8
  {
    LiteralSplit(s, i, "```json", "\n");
    LiteralSplit(s, i, "```", "json");
    LiteralChar(s, i, "```json\n", 7);
    LiteralChar(s, i + 8, c, 0);
    assert s[i + 7..i + 8] == "\n";
    SkipWhileStopsAt(s, i + 7, i + 8, Whitespace);
  }

  /** The `json` pattern matches a fenced block laid out at `i`. */
  lemma WrappedJsonBlockAt(s: string, i: nat, c: string)
    requires LiteralAt(s, i, "```json\n") && LiteralAt(s, i + 8, c) && LiteralAt(s, i + 8 + |c|, "\n```")
    requires '`' !in c && c != "" && !IsSpace(c[0]) && !IsSpace(c[|c| - 1])
    ensures JsonBlockAt(s, i) == Some(c)
  {
    WrappedOpening(s, i, c);
    CloseBlockAt(s, i + 8, c);
  }

  /** The general fenced pattern matches a fenced block laid out at `i`,
      and the match ends with the closing fence. */
  lemma WrappedFencedBlockAt(s: string, i: nat, c: string)
    requires LiteralAt(s, i, "```json\n") && LiteralAt(s, i + 8, c) && LiteralAt(s, i + 8 + |c|, "\n```")
    requires '`' !in c && c != "" && !IsSpace(c[0]) && !IsSpace(c[|c| - 1])
    ensures BlockAt(s, i) == Some((c, i + 12 + |c|))
  {
    WrappedOpening(s, i, c);
    assert GroupStart(s, i) == i + 8;
    CloseBlockAt(s, i + 8, c);
  }

  /** A trimmed, backtick-free text followed by a newline and a fence is
      captured whole, and the match ends with that fence. */
  lemma CloseBlockAt(s: string, p: nat, c: string)
    requires LiteralAt(s, p, c) && LiteralAt(s, p + |c|, "\n```")
    requires '`' !in c && c != "" && !IsSpace(c[|c| - 1])
    ensures CloseBlock(s, p) == Some((c, p + |c| + 4))
  {
    ClosingFenceFound(s, p, c);
    ClosingNewlineTrimmed(s, p, c);
    CloseBlockFrom(s, p, p + |c| + 1, p + |c|);
  }

  /** The fence after the closing newline is the first fence from `p`. */
  lemma ClosingFenceFound(s: string, p: nat, c: string)
    requires LiteralAt(s, p, c) && LiteralAt(s, p + |c|, "\n```") && '`' !in c
    ensures FindFence(s, p) == Some(p + |c| + 1)
  {
    LiteralSplit(s, p + |c|, "\n", "```");
    LiteralChar(s, p + |c|, "\n```", 0);
    NoFenceBeforeClose(s, p, c);
    FindFenceStopsAt(s, p, p + |c| + 1);
  }

  /** The whitespace trimmed before the closing fence is exactly the
      newline. */
  lemma ClosingNewlineTrimmed(s: string, p: nat, c: string)
    requires LiteralAt(s, p, c) && LiteralAt(s, p + |c|, "\n```")
    requires c != "" && !IsSpace(c[|c| - 1])
    ensures p + |c| + 1 <= |s| && SkipWhileBack(s, p, p + |c| + 1, Whitespace) == p + |c|
  {
    LiteralChar(s, p, c, |c| - 1);
    LiteralChar(s, p + |c|, "\n```", 0);
    assert s[p + |c|..p + |c| + 1] == "\n";
    SkipWhileBackStopsAt(s, p, p + |c|, p + |c| + 1, Whitespace);
  }

  /** The fence search stops at the first fence. */
  lemma FindFenceStopsAt(s: string, from: nat, f: nat)
    requires from <= f && FenceAt(s, f)
    requires forall j: nat :: from <= j < f ==> !FenceAt(s, j)
    ensures FindFence(s, from) == Some(f)
  {
    var found := FindFence(s, from);
    assert found.Some? && found.value <= f;
  }

  /** `CloseBlock` read off by positions: the closing fence at `f`, the
      trailing whitespace before it starting at `q`. */
  lemma CloseBlockFrom(s: string, p: nat, f: nat, q: nat)
    requires p <= |s| && FindFence(s, p) == Some(f)
    requires SkipWhileBack(s, p, f, Whitespace) == q
    ensures CloseBlock(s, p) == Some((s[p..q], f + 3))
  {
  }

  /** Between the opening of a fenced block and its closing newline there
      is no fence. */
  lemma NoFenceBeforeClose(s: string, p: nat, c: string)
    requires LiteralAt(s, p, c) && '`' !in c && p + |c| < |s| && s[p + |c|] == '\n'
    ensures forall j: nat :: p <= j <= p + |c| ==> !FenceAt(s, j)
  {
    forall j: nat | p <= j <= p + |c|
      ensures !FenceAt(s, j)
    {
      if j + 3 <= |s| {
        assert s[j..j + 3][0] == s[j];
      }
      if j < p + |c| {
        assert s[j] == s[p..p + |c|][j - p];
      }
    }
  }

  /** `re.search(r'\{[\s\S]*\}', s)`: from the first `{` to the last `}`.
      A later `{` cannot help when the first one finds no `}` after it, so
      only the first one is tried. */
  function BraceSpan(s: string): (r: Option<string>)
    ensures r.Some? <==> exists i, j :: 0 <= i < j < |s| && s[i] == '{' && s[j] == '}'
    ensures r.Some? ==> |r.value| >= 2 && r.value[0] == '{' && r.value[|r.value| - 1] == '}'
    ensures r.Some? ==> exists i: nat :: LiteralAt(s, i, r.value)
                                         && '{' !in s[..i] && '}' !in s[i + |r.value|..]
  {
    match FindChar(s, '{', 0)
    case None => None
    case Some(i) =>
      match FindLastChar(s, '}')
      case None => None
      case Some(j) =>
        if i < j then
          assert s[..i] == s[0..i];
          assert LiteralAt(s, i, s[i..j + 1]);
          Some(s[i..j + 1])
        else None
  }
}
