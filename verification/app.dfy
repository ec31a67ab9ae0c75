/** app.py: the pure decisions of the `/api/generate` and `/api/estimate`
    handlers. Form fields arrive as strings (a field the browser did not send
    is replaced by the handler's default before it reaches these functions);
    uploads are (file name, decoded content) pairs. */
module App {

  import opened Common
  import opened Text
  import opened Numbers
  import opened Json
  import opened Tokens
  import AlibabaCloud
  import Moonshot

  /** The two model choices served by the built-in Alibaba keys. */
  predicate IsAlibabaModel(model: string) {
    model == "qwen" || model == "qwen235"
  }

  /** The outcome of choosing the API key for a generation request. */
  datatype KeyChoice =
    | UseKey(key: string)
    | NoAlibabaKeys
    | BadKeyIndex(index: int)
    | MissingKey

  /** Key selection in `generate_code`. For the Alibaba models the key comes
      from the server's list: none configured is an error, an integer index
      must lie in range, anything `int()` rejects means the first key. Every
      other model needs a caller key that is present, non-empty and not the
      placeholder `built-in`. */
  function SelectApiKey(model: string, apiKey: Option<string>, alibabaKeys: seq<string>, keyIndex: string): (r: KeyChoice)
    ensures IsAlibabaModel(model) ==> (r == NoAlibabaKeys <==> |alibabaKeys| == 0)
    ensures IsAlibabaModel(model) && r.UseKey? ==> r.key in alibabaKeys
    ensures IsAlibabaModel(model) && |alibabaKeys| > 0 && ParseInt(keyIndex).None? ==> r == UseKey(alibabaKeys[0])
    ensures IsAlibabaModel(model) && |alibabaKeys| > 0 && ParseInt(keyIndex).Some? ==>
              var i := ParseInt(keyIndex).value;
              if 0 <= i < |alibabaKeys| then r == UseKey(alibabaKeys[i]) else r == BadKeyIndex(i)
    ensures !IsAlibabaModel(model) ==> (r.UseKey? <==> apiKey.Some? && apiKey.value != "" && apiKey.value != "built-in")
    ensures !IsAlibabaModel(model) ==> r.UseKey? || r == MissingKey
    ensures !IsAlibabaModel(model) && r.UseKey? ==> r.key == apiKey.value
  {
    if IsAlibabaModel(model) then
      if |alibabaKeys| == 0 then NoAlibabaKeys
      else
        match ParseInt(keyIndex)
        case Some(i) => if 0 <= i < |alibabaKeys| then UseKey(alibabaKeys[i]) else BadKeyIndex(i)
        case None => UseKey(alibabaKeys[0])
    else if apiKey.None? || apiKey.value == "" || apiKey.value == "built-in" then MissingKey
    else UseKey(apiKey.value)
  }

  /** The index the page sends, the decimal rendering of an integer, selects
      that key when in range and is refused otherwise. */
  lemma {:induction false} RenderedIndexSelects(model: string, apiKey: Option<string>, alibabaKeys: seq<string>, i: int)
    requires IsAlibabaModel(model) && |alibabaKeys| > 0
    ensures 0 <= i < |alibabaKeys| ==> SelectApiKey(model, apiKey, alibabaKeys, Show(i)) == UseKey(alibabaKeys[i])
    ensures !(0 <= i < |alibabaKeys|) ==> SelectApiKey(model, apiKey, alibabaKeys, Show(i)) == BadKeyIndex(i)
  {
    ParseShowRoundTrip(i);
  }

  /** The directory text after cleaning: one `strip('"')`, one
      `strip("'")`, one `strip()`, in that order, then every `/` becomes
      `\`. */
  function CleanOutputDir(raw: string): (r: string)
    ensures '/' !in r
    ensures |r| <= |raw|
    ensures |r| > 0 ==> !IsSpace(r[0]) && !IsSpace(r[|r| - 1])
  {
    ReplaceChar(Strip(StripChar(StripChar(raw, '"'), '\'')), '/', '\\')
  }

  /** What the three strips of `CleanOutputDir` can remove from the ends of
      the text: double quotes, apostrophes and whitespace. */
  predicate DirPadding(c: char) {
    c == '"' || c == '\'' || IsSpace(c)
  }

  /** Cleaning keeps one middle slice of the typed text, with every `/`
      turned into `\`: only padding is removed, and only from the ends. */
  lemma CleanOutputDirSlice(raw: string)
    ensures exists i, j :: 0 <= i <= j <= |raw| && CleanOutputDir(raw) == ReplaceChar(raw[i..j], '/', '\\')
                           && (forall k :: 0 <= k < i ==> DirPadding(raw[k]))
                           && (forall k :: j <= k < |raw| ==> DirPadding(raw[k]))
  {
    assert raw[0..|raw|] == raw;
    var i1, j1 := StripStep(raw, 0, |raw|, Only('"'));
    var i2, j2 := StripStep(raw, i1, j1, Only('\''));
    var i3, j3 := StripStep(raw, i2, j2, Whitespace);
    assert forall k :: 0 <= k < i3 ==> DirPadding(raw[k]);
    assert forall k :: j3 <= k < |raw| ==> DirPadding(raw[k]);
  }

  /** One strip applied to the slice `s[a..b]` keeps a slice of it and
      removes dropped characters only. */
  lemma StripStep(s: string, a: nat, b: nat, d: Drop) returns (i: nat, j: nat)
    requires a <= b <= |s|
    ensures a <= i <= j <= b && StripBy(s[a..b], d) == s[i..j]
    ensures forall k :: a <= k < i ==> Drops(d, s[k])
    ensures forall k :: j <= k < b ==> Drops(d, s[k])
  {
    var t := s[a..b];
    var p := SkipWhile(t, 0, d);
    var q := SkipWhileBack(t, p, |t|, d);
    i, j := a + p, a + q;
    assert StripBy(t, d) == s[i..j] by {
      SliceOfSlice(s, a, b, p, q);
    }
    assert forall k :: a <= k < i ==> Drops(d, s[k]) by {
      DroppedInSlice(s, a, b, 0, p, d);
    }
    assert forall k :: j <= k < b ==> Drops(d, s[k]) by {
      DroppedInSlice(s, a, b, q, |t|, d);
    }
  }

  /** A slice of the slice `s[a..b]` is a slice of `s`. */
  lemma SliceOfSlice(s: string, a: nat, b: nat, lo: nat, hi: nat)
    requires a <= b <= |s| && lo <= hi <= b - a
    ensures s[a..b][lo..hi] == s[a + lo..a + hi]
  {
    forall k | 0 <= k < hi - lo
      ensures s[a..b][lo..hi][k] == s[a + lo..a + hi][k]
    {
      assert s[a..b][lo..hi][k] == s[a + lo + k];
    }
  }

  /** Dropped characters of a slice of `s[a..b]` are dropped characters of
      `s`, at positions shifted by `a`. */
  lemma DroppedInSlice(s: string, a: nat, b: nat, lo: nat, hi: nat, d: Drop)
    requires a <= b <= |s| && lo <= hi <= b - a && AllDropped(s[a..b][lo..hi], d)
    ensures forall k :: a + lo <= k < a + hi ==> Drops(d, s[k])
  {
    forall k | a + lo <= k < a + hi
      ensures Drops(d, s[k])
    {
      assert s[k] == s[a..b][lo..hi][k - a - lo];
    }
  }

  const DefaultOutputDir := "output"

  const TraversalError := "Invalid output directory path - directory traversal not allowed"

  /** Output-directory validation in `generate_code`: the cleaned text is
      refused exactly when it contains `..`; an empty one becomes `output`.
      An accepted directory is never empty, holds no `/` and no `..`. */
  function SanitiseOutputDir(raw: string): (r: Result<string, string>)
    ensures r.Err? <==> Contains(CleanOutputDir(raw), "..")
    ensures r.Err? ==> r.error == TraversalError
    ensures r.Ok? ==> r.value != "" && '/' !in r.value && !Contains(r.value, "..")
    ensures r.Ok? && CleanOutputDir(raw) != "" ==> r.value == CleanOutputDir(raw)
    ensures r.Ok? && CleanOutputDir(raw) == "" ==> r.value == DefaultOutputDir
  {
    var dir := CleanOutputDir(raw);
    if Contains(dir, "..") then Err(TraversalError)
    else if dir == "" then
      assert !Contains(DefaultOutputDir, "..") by {
        forall i: nat | i <= |DefaultOutputDir|
          ensures !LiteralAt(DefaultOutputDir, i, "..")
        {
          if i + 2 <= |DefaultOutputDir| {
            assert DefaultOutputDir[i] != '.';
          }
        }
      }
      Ok(DefaultOutputDir)
    else Ok(dir)
  }

  /** A directory with nothing to clean off (no surrounding quotes or
      whitespace, no `/`, no `..`) is accepted exactly as typed. */
  lemma CleanDirectoryAccepted(dir: string)
    requires dir != "" && '/' !in dir && !Contains(dir, "..")
    requires dir[0] !in "\"'" && dir[|dir| - 1] !in "\"'"
    requires !IsSpace(dir[0]) && !IsSpace(dir[|dir| - 1])
    ensures SanitiseOutputDir(dir) == Ok(dir)
  {
    StripByKeepsUnpadded(dir, Only('"'));
    StripByKeepsUnpadded(dir, Only('\''));
    StripByKeepsUnpadded(dir, Whitespace);
    assert ReplaceChar(dir, '/', '\\') == dir;
  }

  /** Cleaning is not idempotent: quotes inside surrounding spaces survive
      the first pass, because the quote strips run before the whitespace
      strip, and only a second pass removes them. */
  lemma QuotesInsideSpacesSurvive()
    ensures CleanOutputDir(" \"x\" ") == "\"x\""
    ensures CleanOutputDir("\"x\"") == "x"
  {
    SpacedQuotesKept();
    BareQuotesRemoved();
  }

  /** First pass: the spaces shield the quotes from the quote strips. */
  lemma SpacedQuotesKept()
    ensures CleanOutputDir(" \"x\" ") == "\"x\""
  {
    var a := " \"x\" ";
    StripByKeepsUnpadded(a, Only('"'));
    StripByKeepsUnpadded(a, Only('\''));
    assert Strip(a) == a[1..4] by {
      assert SkipWhile(a, 1, Whitespace) == 1;
      assert SkipWhile(a, 0, Whitespace) == 1;
      assert SkipWhileBack(a, 1, 4, Whitespace) == 4;
      assert SkipWhileBack(a, 1, 5, Whitespace) == 4;
    }
    assert ReplaceChar(a[1..4], '/', '\\') == a[1..4];
  }

  /** Second pass: with the spaces gone the quote strip removes both quotes. */
  lemma BareQuotesRemoved()
    ensures CleanOutputDir("\"x\"") == "x"
  {
    var b := "\"x\"";
    assert StripChar(b, '"') == "x" by {
      assert SkipWhile(b, 1, Only('"')) == 1;
      assert SkipWhile(b, 0, Only('"')) == 1;
      assert SkipWhileBack(b, 1, 2, Only('"')) == 2;
      assert SkipWhileBack(b, 1, 3, Only('"')) == 2;
    }
    StripByKeepsUnpadded("x", Only('\''));
    StripByKeepsUnpadded("x", Whitespace);
    assert ReplaceChar("x", '/', '\\') == "x";
  }


  /** `int(max_tokens)` on the form field, 100000 when it raises. */
  function FormMaxTokens(raw: string): (r: int)
    ensures ParseInt(raw).Some? ==> r == ParseInt(raw).value
    ensures ParseInt(raw).None? ==> r == Moonshot.DefaultMaxTokens
  {
    ParseInt(raw).GetOr(100000)
  }

  /** The page sends the number it shows; that number comes back. */
  lemma FormMaxTokensReadsBack(n: int)
    ensures FormMaxTokens(Show(n)) == n
  {
    ParseShowRoundTrip(n);
  }

  /** `replace(' ', '_').replace('-', '_')`: spaces and hyphens become
      underscores and nothing else moves. */
  function Normalise(s: string): (r: string)
    ensures |r| == |s| && ' ' !in r && '-' !in r
    ensures forall k :: 0 <= k < |s| && s[k] != ' ' && s[k] != '-' ==> r[k] == s[k]
    ensures forall k :: 0 <= k < |s| && (s[k] == ' ' || s[k] == '-') ==> r[k] == '_'
  {
    ReplaceChar(ReplaceChar(s, ' ', '_'), '-', '_')
  }

  /** `os.path.splitext(p)[0]` with `seps` the path separators of the host
      (`/` on POSIX, `\` and `/` on Windows): the extension is the last
      `.` and what follows it, provided that dot comes after the last
      separator and the file name before it is not made of dots only. */
  function SplitExtRoot(p: string, seps: set<char>): (root: string)
    requires '.' !in seps
    ensures |root| <= |p| && root == p[..|root|]
    ensures |root| < |p| ==> p[|root|] == '.'
    ensures forall k :: |root| < k < |p| ==> p[k] != '.' && p[k] !in seps
    ensures p != "" ==> root != ""
  {
    var sepIndex: int := match FindLastIn(p, seps) case None => -1 case Some(i) => i;
    match FindLastChar(p, '.')
    case None => p
    case Some(dot) =>
      if dot > sepIndex && !AllDropped(p[sepIndex + 1..dot], Only('.')) then
        assert forall k :: dot < k < |p| ==> p[k] != '.' by {
          forall k | dot < k < |p|
            ensures p[k] != '.'
          {
            assert p[k] == p[dot + 1..][k - dot - 1];
          }
        }
        p[..dot]
      else p
  }

  /** A stem with no dot and no separator, followed by `.` and an extension
      with neither, splits back into that stem. */
  lemma {:induction false} SplitExtOfStemAndExtension(stem: string, ext: string, seps: set<char>)
    requires '.' !in seps && stem != ""
    requires forall k :: 0 <= k < |stem| ==> stem[k] != '.' && stem[k] !in seps
    requires forall k :: 0 <= k < |ext| ==> ext[k] != '.' && ext[k] !in seps
    ensures SplitExtRoot(stem + "." + ext, seps) == stem
  {
    var p := stem + "." + ext;
    assert forall k :: 0 <= k < |p| ==> p[k] !in seps by {
      forall k | 0 <= k < |p|
        ensures p[k] !in seps
      {
        if k < |stem| {
          assert p[k] == stem[k];
        } else if k > |stem| {
          assert p[k] == ext[k - |stem| - 1];
        }
      }
    }
    assert FindLastIn(p, seps).None?;
    assert FindLastChar(p, '.') == Some(|stem|) by {
      assert p[|stem|] == '.' && p[|stem| + 1..] == ext;
      FindLastCharStopsAt(p, '.', |stem|);
    }
    assert !AllDropped(p[0..|stem|], Only('.')) by {
      assert p[0..|stem|] == stem && !Drops(Only('.'), stem[0]);
    }
  }

  /** A name taken from an upload: the file name without its extension,
      spaces and hyphens turned into underscores. Never empty for a
      non-empty file name. */
  function NameFromFile(filename: string, seps: set<char>): (r: string)
    requires '.' !in seps
    ensures ' ' !in r && '-' !in r
    ensures filename != "" ==> r != ""
    ensures |r| <= |filename|
  {
    Normalise(SplitExtRoot(filename, seps))
  }

  /** One uploaded PRD file: its name and its decoded text. An upload with
      an empty name is skipped by the handler. */
  datatype Upload = Upload(filename: string, content: string)

  /** The first upload that has a name. */
  function FirstNamed(files: seq<Upload>): (r: Option<Upload>)
    ensures r.Some? ==> r.value in files && r.value.filename != ""
    ensures r.None? <==> forall k :: 0 <= k < |files| ==> files[k].filename == ""
  {
    if |files| == 0 then None
    else if files[0].filename != "" then Some(files[0])
    else FirstNamed(files[1..])
  }

  /** The upload chosen is the first named one: every upload before it has
      an empty name. */
  lemma {:induction false} FirstNamedIsFirst(files: seq<Upload>)
    ensures FirstNamed(files).Some? ==>
              exists k :: 0 <= k < |files| && files[k] == FirstNamed(files).value
                          && forall j :: 0 <= j < k ==> files[j].filename == ""
  {
    if |files| > 0 && files[0].filename == "" && FirstNamed(files).Some? {
      FirstNamedIsFirst(files[1..]);
      var k :| 0 <= k < |files[1..]| && files[1..][k] == FirstNamed(files[1..]).value
                && forall j :: 0 <= j < k ==> files[1..][j].filename == "";
      assert files[k + 1] == FirstNamed(files).value;
      forall j | 0 <= j < k + 1
        ensures files[j].filename == ""
      {
        if j > 0 {
          assert files[j] == files[1..][j - 1];
        }
      }
    }
  }

  /** Conversely, a named upload preceded only by unnamed ones is the one
      chosen. */
  lemma {:induction false} FirstNamedAt(files: seq<Upload>, k: nat)
    requires k < |files| && files[k].filename != ""
    requires forall j :: 0 <= j < k ==> files[j].filename == ""
    ensures FirstNamed(files) == Some(files[k])
  {
    if k > 0 {
      assert files[0].filename == "";
      assert files[1..][k - 1] == files[k];
      FirstNamedAt(files[1..], k - 1);
    }
  }

  /** The project name of a generation request: from the first named
      upload; otherwise from the text the heading search captured (stripped,
      then normalised); otherwise the caller's timestamped `fallback`. */
  function ProjectName(files: seq<Upload>, seps: set<char>, heading: Option<string>, fallback: string): (r: string)
    requires '.' !in seps
    ensures FirstNamed(files).Some? || heading.Some? ==> ' ' !in r && '-' !in r
    ensures FirstNamed(files).Some? ==> r != "" && r == NameFromFile(FirstNamed(files).value.filename, seps)
    ensures FirstNamed(files).None? && heading.Some? ==> r == Normalise(Strip(heading.value))
    ensures FirstNamed(files).None? && heading.None? ==> r == fallback
  {
    match FirstNamed(files)
    case Some(u) => NameFromFile(u.filename, seps)
    case None =>
      match heading
      case Some(h) => Normalise(Strip(h))
      case None => fallback
  }

  /** The block one upload contributes to the combined PRD. */
  function Section(u: Upload): string {
    "=== File: " + u.filename + " ===\n" + u.content
  }

  /** The blocks of the named uploads, in upload order. */
  function Sections(files: seq<Upload>): (r: seq<string>)
    ensures |r| <= |files|
    ensures r == [] <==> FirstNamed(files).None?
  {
    if |files| == 0 then []
    else if files[0].filename != "" then [Section(files[0])] + Sections(files[1..])
    else Sections(files[1..])
  }

  /** The blocks of two runs of uploads, one after the other, are the
      blocks of the first run followed by those of the second. */
  lemma {:induction false} SectionsAppend(a: seq<Upload>, b: seq<Upload>)
    ensures Sections(a + b) == Sections(a) + Sections(b)
  {
    if |a| == 0 {
      assert a + b == b;
    } else {
      assert (a + b)[0] == a[0] && (a + b)[1..] == a[1..] + b;
      SectionsAppend(a[1..], b);
    }
  }

  /** A single upload contributes its block exactly when it has a name. */
  lemma SectionsSingle(u: Upload)
    ensures Sections([u]) == if u.filename != "" then [Section(u)] else []
  {
    assert [u][1..] == [];
  }

  /** Python's `sep.join(parts)`. */
  function Join(parts: seq<string>, sep: string): string {
    if |parts| == 0 then ""
    else if |parts| == 1 then parts[0]
    else parts[0] + sep + Join(parts[1..], sep)
  }

  lemma {:induction false} JoinContainsParts(parts: seq<string>, sep: string, k: nat)
    requires k < |parts|
    ensures Contains(Join(parts, sep), parts[k])
  {
    var j := Join(parts, sep);
    if |parts| == 1 {
      assert LiteralAt(j, 0, parts[0]);
    } else if k == 0 {
      assert j[0..|parts[0]|] == parts[0];
      assert LiteralAt(j, 0, parts[0]);
    } else {
      JoinContainsParts(parts[1..], sep, k - 1);
      var rest := Join(parts[1..], sep);
      var i: nat :| i <= |rest| && LiteralAt(rest, i, parts[k]);
      var off := |parts[0]| + |sep|;
      assert j == parts[0] + sep + rest;
      assert j[off + i..off + i + |parts[k]|] == rest[i..i + |parts[k]|];
      assert LiteralAt(j, off + i, parts[k]);
    }
  }

  lemma {:induction false} SectionListed(files: seq<Upload>, u: Upload)
    requires u in files && u.filename != ""
    ensures Section(u) in Sections(files)
  {
    if files[0] != u {
      assert u in files[1..];
      SectionListed(files[1..], u);
    }
  }

  const NoContentError := "No PRD content provided"

  /** The combined PRD of `generate_code`: the blocks of the named uploads
      joined by blank lines; the pasted text only when no upload has a
      name; an error when both are empty. Every named upload's block, name
      and content included, appears in the result. */
  function CombinePrd(files: seq<Upload>, prdText: string): (r: Result<string, string>)
    ensures r.Err? <==> FirstNamed(files).None? && prdText == ""
    ensures r.Err? ==> r.error == NoContentError
    ensures FirstNamed(files).None? && prdText != "" ==> r == Ok(prdText)
    ensures FirstNamed(files).Some? ==> r == Ok(Join(Sections(files), "\n\n"))
    ensures r.Ok? ==> forall u :: u in files && u.filename != "" ==> Contains(r.value, Section(u))
  {
    var parts := Sections(files);
    if parts != [] then
      var full := Join(parts, "\n\n");
      assert forall u :: u in files && u.filename != "" ==> Contains(full, Section(u)) by {
        forall u | u in files && u.filename != ""
          ensures Contains(full, Section(u))
        {
          SectionListed(files, u);
          var k :| 0 <= k < |parts| && parts[k] == Section(u);
          JoinContainsParts(parts, "\n\n", k);
        }
      }
      Ok(full)
    else if prdText != "" then Ok(prdText)
    else Err(NoContentError)
  }

  /** Length from which the PRD summary is cut. */
  const SummaryLimit := 500

  /** `prd_summary`: short text unchanged, long text cut to its first 500
      characters followed by `...`. */
  function PrdSummary(prd: string): (r: string)
    ensures |r| <= SummaryLimit + 3
    ensures |prd| <= SummaryLimit ==> r == prd
    ensures |prd| > SummaryLimit ==> |r| == SummaryLimit + 3 && r[..SummaryLimit] == prd[..SummaryLimit] && r[SummaryLimit..] == "..."
  {
    if |prd| > SummaryLimit then prd[..SummaryLimit] + "..." else prd
  }

  /** Summarising a summary changes nothing. */
  lemma SummaryIdempotent(prd: string)
    ensures PrdSummary(PrdSummary(prd)) == PrdSummary(prd)
  {
    if |prd| > SummaryLimit {
      var r := PrdSummary(prd);
      assert r[..SummaryLimit] + "..." == r;
    }
  }

  /** The context window `estimate_tokens` assumes for each model choice. */
  function MaxContextFor(model: string): (r: nat)
    ensures r >= 32768
  {
    if model == "kimi" then 128000
    else if model == "qwen" then 131072
    else if model == "qwen235" then 32768
    else 2000000
  }

  /** The Alibaba client `generate_code` builds: Qwen-Plus with thinking on
      for `qwen`, Qwen-Max as constructed for `qwen235`. Its model limit is
      the context the estimate route assumes, and its PRD requests ask for
      thinking exactly for `qwen`. */
  function AlibabaClientFor(model: string): (r: Option<AlibabaCloud.Client>)
    ensures r.Some? <==> IsAlibabaModel(model)
    ensures r.Some? ==> AlibabaCloud.ActiveConfig(r.value).maxTokens == MaxContextFor(model)
    ensures r.Some? ==> (AlibabaCloud.PrdRequest(r.value, 0).extraBodyThinking <==> model == "qwen")
  {
    if model == "qwen" then
      Some(AlibabaCloud.SetModel(AlibabaCloud.NewClient(), "qwen-plus").(enableThinking := true))
    else if model == "qwen235" then
      Some(AlibabaCloud.SetModel(AlibabaCloud.NewClient(), "qwen-max"))
    else None
  }

  /** The estimate route and the Kimi client agree on the Kimi window. */
  lemma KimiContextAgrees()
    ensures MaxContextFor("kimi") == Moonshot.MaxContext
  {
  }

  /** Python's `int(x)` on a JSON number: truncation toward zero. */
  function Truncate(x: real): (r: int)
    ensures x >= 0.0 ==> r as real <= x < r as real + 1.0
    ensures x < 0.0 ==> r as real - 1.0 < x <= r as real
  {
    if x >= 0.0 then x.Floor else -((-x).Floor)
  }

  /** Python's `int(v)` on a decoded JSON value: finite numbers are
      truncated, strings parsed, booleans are 0 or 1; `NaN` and the
      infinities raise, and so does anything else. */
  function IntOf(v: Json): (r: Option<int>)
    ensures v.JStr? ==> r == ParseInt(v.s)
    ensures v.JNull? || v.JArr? || v.JObj? || v.JNonFinite? ==> r.None?
    ensures v.JNum? ==> r.Some? && r.value as real <= v.n + 1.0 && v.n - 1.0 <= r.value as real
    ensures v.JNum? ==> r == Some(Truncate(v.n))
    ensures v.JBool? ==> r == Some(if v.b then 1 else 0)
  {
    match v
    case JNum(n) => Some(Truncate(n))
    case JStr(s) => ParseInt(s)
    case JBool(b) => Some(if b then 1 else 0)
    case _ => None
  }

  /** The answer of `/api/estimate`. */
  datatype EstimateReply = EstimateReply(contentSize: nat, estimatedTokens: nat, availableOutputTokens: int, model: string)

  /** `/api/estimate`: the token estimate of the content and the output room
      left, which is the smaller of the requested `maxTokens` (100000 when
      absent) and what the model's window leaves after the content. A
      `maxTokens` that `int()` rejects ends in an error. The estimate uses
      the chosen client's tokenizer, given as `tok`. */
  function EstimateRoute(content: string, maxTokens: Option<Json>, model: string, tok: Tokenizer): (r: Result<EstimateReply, string>)
    ensures r.Err? <==> maxTokens.Some? && IntOf(maxTokens.value).None?
    ensures r.Ok? ==>
              var cap := if maxTokens.Some? then IntOf(maxTokens.value).value else Moonshot.DefaultMaxTokens;
              var room := MaxContextFor(model) - Estimate(tok, content);
              && r.value.contentSize == |content|
              && r.value.estimatedTokens == Estimate(tok, content)
              && r.value.availableOutputTokens <= cap
              && r.value.availableOutputTokens <= room
              && (r.value.availableOutputTokens == cap || r.value.availableOutputTokens == room)
  {
    var cap := if maxTokens.Some? then IntOf(maxTokens.value) else Some(100000);
    match cap
    case None => Err("invalid literal for int()")
    case Some(m) =>
      var est := Estimate(tok, content);
      var room := MaxContextFor(model) - est;
      Ok(EstimateReply(|content|, est, if room <= m then room else m, model))
  }

  /** Without a tokenizer, the more content the less room: where shorter
      content gets an answer, longer content does too, and it never leaves
      more room for the output. */
  lemma {:induction false} EstimateRoomShrinks(a: string, b: string, maxTokens: Option<Json>, model: string)
    requires |a| <= |b|
    requires EstimateRoute(a, maxTokens, model, NoEncoder).Ok?
    ensures EstimateRoute(b, maxTokens, model, NoEncoder).Ok?
    ensures EstimateRoute(b, maxTokens, model, NoEncoder).value.availableOutputTokens
              <= EstimateRoute(a, maxTokens, model, NoEncoder).value.availableOutputTokens
  {
    EstimateMonotone(a, b);
  }
}
