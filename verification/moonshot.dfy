/** moonshot_client.py: the output budget of a Kimi K2 request, the choice of
    the JSON text inside the model's reply, the single-file fallback when that
    text does not decode, and the token accounting on every path. */
module Moonshot {

  import opened Common
  import opened Text
  import opened Json
  import opened Fences
  import opened Tokens

  /** The 128k context window of the model. */
  const MaxContext := 128000

  /** Output budget when the caller passes none. */
  const DefaultMaxTokens := 100000

  /** Room kept free between prompt and output. */
  const ContextMargin := 1000

  /** `max_tokens` after defaulting and clamping: never above the request,
      never above what the context leaves once the PRD and the margin are
      taken out, and equal to one of the two. Nothing keeps it positive: a
      PRD estimated above 127000 tokens gives a negative budget. */
  function ClampMaxTokens(requested: Option<int>, prdTokens: nat): (r: int)
    ensures r <= requested.GetOr(DefaultMaxTokens)
    ensures r <= MaxContext - prdTokens - ContextMargin
    ensures r == requested.GetOr(DefaultMaxTokens) || r == MaxContext - prdTokens - ContextMargin
  {
    var wanted := requested.GetOr(DefaultMaxTokens);
    var room := MaxContext - prdTokens - ContextMargin;
    if wanted <= room then wanted else room
  }

  /** The budget goes negative for a large enough PRD. */
  lemma LargePrdNegativeBudget(requested: Option<int>, prdTokens: nat)
    requires prdTokens > MaxContext - ContextMargin
    ensures ClampMaxTokens(requested, prdTokens) < 0
  {
  }

  /** No `json`-tagged fence anywhere in the reply. */
  ghost predicate NoJsonFence(content: string) {
    forall i: nat :: !LiteralAt(content, i, "```json")
  }

  /** Some `{` comes before some `}` in the reply. */
  ghost predicate HasBracePair(content: string) {
    exists i, j :: 0 <= i < j < |content| && content[i] == '{' && content[j] == '}'
  }

  /** The text handed to `json.loads`: the first closed ```` ```json ````
      block, else the span from the first `{` to the last `}`, else the
      whole reply. It is always a slice of the reply. */
  function ExtractJson(content: string): (r: string)
    ensures FirstJsonBlock(content, 0).Some? ==> r == FirstJsonBlock(content, 0).value
    ensures FirstJsonBlock(content, 0).None? && BraceSpan(content).Some? ==> r == BraceSpan(content).value
    ensures FirstJsonBlock(content, 0).None? && BraceSpan(content).None? ==> r == content
    ensures Contains(content, r)
    ensures FirstJsonBlock(content, 0).Some? ==> NoFence(r)
    ensures NoJsonFence(content) && HasBracePair(content) ==>
              |r| >= 2 && r[0] == '{' && r[|r| - 1] == '}'
    ensures NoJsonFence(content) && !HasBracePair(content) ==> r == content
  {
    match FirstJsonBlock(content, 0)
    case Some(block) => block
    case None =>
      match BraceSpan(content)
      case Some(span) => span
      case None =>
        assert LiteralAt(content, 0, content);
        content
  }

  /** A block fenced as the prompt asks is extracted exactly, whatever
      text surrounds it. */
  lemma ExtractFencedJson(pre: string, c: string, post: string)
    requires '`' !in pre && '`' !in c
    requires c != "" && !IsSpace(c[0]) && !IsSpace(c[|c| - 1])
    ensures ExtractJson(pre + WrapJson(c) + post) == c
  {
    JsonBlockRoundTrip(pre, c, post);
  }

  /** Without any fence, a `{…}` text between brace-free chatter is
      extracted exactly. */
  lemma ExtractBareJson(pre: string, c: string, post: string)
    requires '`' !in pre + c + post
    requires '{' !in pre && '}' !in post
    requires |c| >= 2 && c[0] == '{' && c[|c| - 1] == '}'
    ensures ExtractJson(pre + c + post) == c
  {
    var s := pre + c + post;
    NoBacktickNoFence(s);
    var i := |pre|;
    var j := |pre| + |c| - 1;
    LiteralInConcat(pre, c, post);
    LiteralChar(s, i, c, 0);
    LiteralChar(s, i, c, |c| - 1);
    assert s[..i] == pre;
    assert s[0..i] == pre;
    FindCharStopsAt(s, '{', 0, i);
    assert s[j + 1..] == post;
    var last := FindLastChar(s, '}');
    assert last == Some(j);
    assert s[i..j + 1] == c;
  }

  /** The reply `send_prd_request` hands back: the extracted JSON text
      itself, or the `json.dumps` of a one-file project wrapping the reply. */
  datatype Reply = Extracted(json: string) | Wrapped(project: Project)

  /** The extracted text is returned when it decodes (to anything);
      otherwise the whole reply becomes `README.md` of a project named by
      the caller. */
  function Respond(content: string, projectName: string, parse: Parser): (r: Reply)
    ensures r.Extracted? <==> parse(ExtractJson(content)).Some?
    ensures r.Extracted? ==> Contains(content, r.json)
    ensures r.Extracted? ==> r.json == ExtractJson(content)
    ensures r.Wrapped? ==>
              && r.project.name == projectName
              && |r.project.files| == 1
              && r.project.files[0].path == "README.md"
              && r.project.files[0].content == content
  {
    var text := ExtractJson(content);
    if parse(text).Some? then Extracted(text)
    else Wrapped(Project(projectName, [FileEntry("README.md", content)]))
  }

  /** A reply fenced as the prompt asks, whose fenced text decodes, is
      answered with exactly that text. */
  lemma RespondFenced(pre: string, c: string, post: string, projectName: string, parse: Parser)
    requires '`' !in pre && '`' !in c
    requires c != "" && !IsSpace(c[0]) && !IsSpace(c[|c| - 1])
    requires parse(c).Some?
    ensures Respond(pre + WrapJson(c) + post, projectName, parse) == Extracted(c)
  {
    ExtractFencedJson(pre, c, post);
  }

  /** The `token_info` dictionary. */
  datatype TokenInfo = TokenInfo(actualInput: int, output: int, total: int)

  /** How the HTTP exchange ended. `Answered` carries the message contents
      of the `choices` list and the `usage` counters; `Crashed` is any other
      exception raised while handling the answer. */
  datatype Transport =
    | TimedOut
    | RequestFailed
    | Crashed
    | Answered(choices: seq<string>, usage: map<string, int>)

  /** Everything `send_prd_request` decides: the output budget it asks for,
      the reply (`None` on every error path) and the token accounting. */
  datatype Exchange = Exchange(maxTokens: int, reply: Option<Reply>, tokens: TokenInfo)

  /** `send_prd_request`. `prompt` builds the request text around the PRD
      (its wording is not modelled); the transport outcome and the decoder
      are inputs. Without an answer the token info reports the prompt
      estimate as input and as total, and no output; with one, the usage
      counters win where present. */
  function SendPrdRequest(prd: string, projectName: string, maxTokens: Option<int>, tok: Tokenizer,
                          prompt: string -> string, transport: Transport, parse: Parser): (r: Exchange)
    ensures r.maxTokens == ClampMaxTokens(maxTokens, Estimate(tok, prd))
    ensures r.reply.None? <==> !(transport.Answered? && |transport.choices| > 0)
    ensures r.reply.None? ==>
              var estimate := Estimate(tok, prompt(prd));
              r.tokens == TokenInfo(estimate, 0, estimate)
    ensures r.reply.Some? ==>
              && r.reply.value == Respond(transport.choices[0], projectName, parse)
              && r.tokens.actualInput == Lookup(transport.usage, "prompt_tokens").GetOr(Estimate(tok, prompt(prd)))
              && r.tokens.output == Lookup(transport.usage, "completion_tokens").GetOr(0)
              && r.tokens.total == Lookup(transport.usage, "total_tokens").GetOr(Estimate(tok, prompt(prd)))
  {
    var budget := ClampMaxTokens(maxTokens, Estimate(tok, prd));
    var inputTokens := Estimate(tok, prompt(prd));
    var failed := TokenInfo(inputTokens, 0, inputTokens);
    match transport
    case Answered(choices, usage) =>
      if |choices| > 0 then
        var info := TokenInfo(Lookup(usage, "prompt_tokens").GetOr(inputTokens),
                              Lookup(usage, "completion_tokens").GetOr(0),
                              Lookup(usage, "total_tokens").GetOr(inputTokens));
        Exchange(budget, Some(Respond(choices[0], projectName, parse)), info)
      else Exchange(budget, None, failed)
    case _ => Exchange(budget, None, failed)
  }
}
