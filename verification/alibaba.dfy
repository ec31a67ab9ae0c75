/** alibaba-cloud-client.py: the model table, the active-model switch, and
    the request parameters `send_completion` derives from them (output cap
    and thinking mode). */
module AlibabaCloud {

  import opened Common

  /** One entry of the client's model table. */
  datatype ModelConfig = ModelConfig(name: string, modelId: string, maxTokens: nat, supportsThinking: bool)

  /** The table built in `__init__`, keyed by model key. */
  const Models: map<string, ModelConfig> := map[
    "qwen-max" := ModelConfig("Qwen-Max", "qwen-max-2025-01-25", 32768, false),
    "qwen-plus" := ModelConfig("Qwen-Plus", "qwen-plus-2025-04-28", 131072, true),
    "qwen-turbo" := ModelConfig("Qwen-Turbo", "qwen-turbo-2025-04-28", 131072, true),
    "qwen3-coder-480b-a35b-instruct" := ModelConfig("Qwen3-Coder-480B", "qwen3-coder-480b-a35b-instruct", 131072, true),
    "qwen3-turbo" := ModelConfig("Qwen3-Turbo", "qwen3-turbo", 131072, true),
    "qwen-long" := ModelConfig("Qwen-Long", "qwen-long", 1000000, false)
  ]

  /** The model used before `set_model` and in place of an unknown key. */
  const DefaultModel := "qwen-plus"

  /** The client's mutable settings: the active model key and the instance
      thinking flag. */
  datatype Client = Client(model: string, enableThinking: bool)

  /** `__init__`: Qwen-Plus, thinking off. */
  function NewClient(): (c: Client)
    ensures c.model in Models && Models[c.model].name == "Qwen-Plus"
    ensures !c.enableThinking
  {
    Client(DefaultModel, false)
  }

  /** `set_model`: a known key becomes the active model; an unknown key
      changes nothing. */
  function SetModel(c: Client, key: string): (r: Client)
    ensures key in Models ==> r.model == key
    ensures key !in Models ==> r == c
    ensures r.enableThinking == c.enableThinking
    ensures c.model in Models ==> r.model in Models
  {
    if key in Models then c.(model := key) else c
  }

  /** `self.models.get(self.model, self.models["qwen-plus"])`. */
  function ActiveConfig(c: Client): (cfg: ModelConfig)
    ensures cfg in Models.Values
    ensures c.model in Models ==> cfg == Models[c.model]
    ensures c.model !in Models ==> cfg == Models[DefaultModel]
  {
    if c.model in Models then Models[c.model] else Models[DefaultModel]
  }

  /** The parts of the request body `send_completion` decides, and the
      `thinking_enabled` it reports. */
  datatype Request = Request(modelId: string, maxTokens: int, extraBodyThinking: bool, thinkingReported: bool)

  /** `send_completion(messages, max_tokens, enable_thinking)`: the output
      cap is the smaller of the request and the model limit; an explicit
      thinking argument overrides the instance flag; thinking is dropped for
      a model without it; `extra_body` is sent exactly when thinking stays
      on. */
  function CompletionRequest(c: Client, maxTokens: int, enableThinking: Option<bool>): (r: Request)
    ensures r.modelId == ActiveConfig(c).modelId
    ensures r.maxTokens <= maxTokens && r.maxTokens <= ActiveConfig(c).maxTokens
    ensures r.maxTokens == maxTokens || r.maxTokens == ActiveConfig(c).maxTokens
    ensures r.extraBodyThinking <==> enableThinking.GetOr(c.enableThinking) && ActiveConfig(c).supportsThinking
    ensures r.thinkingReported == r.extraBodyThinking
  {
    var cfg := ActiveConfig(c);
    var useThinking := enableThinking.GetOr(c.enableThinking);
    var useThinking := if useThinking && !cfg.supportsThinking then false else useThinking;
    var cap := if maxTokens <= cfg.maxTokens then maxTokens else cfg.maxTokens;
    Request(cfg.modelId, cap, useThinking && cfg.supportsThinking, useThinking)
  }

  /** `send_prd_request`: thinking is asked for exactly when the model
      supports it and the instance flag is set. */
  function PrdRequest(c: Client, maxTokens: int): (r: Request)
    ensures r.extraBodyThinking <==> ActiveConfig(c).supportsThinking && c.enableThinking
    ensures r.maxTokens <= ActiveConfig(c).maxTokens
  {
    var cfg := ActiveConfig(c);
    CompletionRequest(c, maxTokens, Some(cfg.supportsThinking && c.enableThinking))
  }

  /** Whatever the client state, a request never exceeds the largest limit
      in the table, and never asks for thinking on Qwen-Max or Qwen-Long. */
  lemma RequestWithinTable(c: Client, maxTokens: int, enableThinking: Option<bool>)
    ensures CompletionRequest(c, maxTokens, enableThinking).maxTokens <= 1000000
    ensures c.model in {"qwen-max", "qwen-long"} ==> !CompletionRequest(c, maxTokens, enableThinking).extraBodyThinking
  {
    var cfg := ActiveConfig(c);
    assert cfg.maxTokens <= 1000000 by {
      assert forall k :: k in Models ==> Models[k].maxTokens <= 1000000;
    }
  }
}
