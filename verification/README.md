# PRD code generator: a Dafny model of its request and reply logic

The system is a small Flask server. A user sends it a PRD (product
requirements document) as uploads or pasted text. The server forwards the
PRD to one of several large-language-model back ends: OpenRouter (Gemini),
Moonshot (Kimi K2) and Alibaba Cloud (Qwen-Plus and Qwen-Max). It then
turns the model's reply into a project on disk. A local configuration
manager keeps API keys, settings and a most-recently-used list of output
directories in three JSON files.

This project models the deterministic core of that server as pure Dafny
functions over immutable data, and proves properties of it:

- `ConfigManager` (config_manager.py): the three configuration files are one
  state record, and every public method is a transformer of that record.
  This covers defaults for missing files, key/value updates, and the bounded
  recent-paths list.
- `App` (app.py), the request handlers' decisions:
  - API-key selection;
  - output-directory cleaning and the traversal check;
  - `int()` fallbacks;
  - project-name derivation from an upload name or a heading;
  - combining the PRD;
  - the PRD summary;
  - the context table and output budget of `/api/estimate`.
- `OpenRouter` (openrouter_client.py): the payload token budget and the
  three-stage recovery of a project from a reply. The stages are the whole
  reply, fenced blocks, and a partial `files` array.
- `Moonshot` (moonshot_client.py): the clamped output budget, the choice of
  JSON text in a reply, the `README.md` fallback, and the token accounting on
  every path.
- `AlibabaCloud` (alibaba-cloud-client.py): the model table, `set_model`,
  the configuration fallback, the output cap and the thinking-mode flag.
- Shared modules:
  - `Common`: `Option`, `Result` and dictionary `.get`;
  - `Text`: Python `isspace`, `strip`, one-character `replace` and `count`,
    and substring search;
  - `Numbers`: Python `int()` on a string, and its inverse `str()`;
  - `Json`: decoded values, Python truthiness, and the project descriptor;
  - `Tokens`: the tiktoken encoder, or the `len // 4` fallback;
  - `Fences`: the regular expressions over replies, written as scanners;
  - `Repair`: trailing-comma removal and brace/bracket balancing.

`json.loads` is a parameter of type `Parser` (`string -> Option<Json>`, with
`None` meaning `JSONDecodeError`). The regex that closes unterminated strings
is the parameter `closeStrings`. The tokenizer, the HTTP outcome and the
timestamped fallback name are parameters too. Every property therefore holds
for every decoder, every tokenizer and every network outcome.

## Model

| member | source | states |
|---|---|---|
| ConfigManager.Initialize | config_manager.py:22-49 | every file that is missing gets its default contents (empty keys for OpenRouter and Moonshot; kimi, 100000 tokens, temperature 0.6, `output`; an empty list with limit 20); every existing file is left exactly as it was |
| ConfigManager.ClearAllData | config_manager.py:138-140 | clearing keeps every file that exists, file by file, even when others are missing, so it erases nothing; a store whose three files all exist stays as it is; afterwards all three files exist |
| ConfigManager.ClearIdempotent | config_manager.py:138-140 | clearing twice gives the same store as clearing once |
| ConfigManager.SaveApiKey | config_manager.py:73-77 | the saved key maps to the new value; every other key keeps its presence and value; settings and history files are untouched |
| ConfigManager.GetApiKey | config_manager.py:79-82 | the lookup is `None` exactly when the key is not stored, and otherwise `Some` of its stored value (stored key values are strings in the model, so a key always reads back as a string) |
| ConfigManager.SaveSetting | config_manager.py:89-93 | the saved setting maps to the new value; every other setting keeps its presence and value; keys and history files are untouched |
| ConfigManager.GetSetting | config_manager.py:95-98 | the lookup is `None` exactly when the setting is not stored, and otherwise `Some` of its stored JSON value; a stored JSON null is `Some(JNull)`, which Python's `dict.get` also reports as `None` |
| ConfigManager.SaveThenGet | config_manager.py:73-82 | reading a key just saved gives the saved value; saving one key does not change what any other key reads as |
| ConfigManager.IndexOf | config_manager.py:116-117 | the position found holds the path, and no earlier position does |
| ConfigManager.RemoveFirst | config_manager.py:116-117 | removing an absent path leaves the list unchanged; removing a present one makes it exactly one shorter |
| ConfigManager.RemoveFirstSlices | config_manager.py:116-117 | `list.remove` deletes exactly the first occurrence and keeps everything before and after it, in order |
| ConfigManager.RemoveFirstCounts | config_manager.py:133-134 | removing a present path takes exactly one copy of it out of the list's multiset, so the list gets one shorter |
| ConfigManager.Take | config_manager.py:123 | Python slicing `[:n]` keeps a prefix: the first `n` entries for non-negative `n`, all but the last `-n` for negative `n` |
| ConfigManager.AddPath | config_manager.py:106-126 | an empty path or `output` changes nothing; otherwise the history becomes the path followed by the old list without its first occurrence of the path, cut to `max_paths`; `max_paths`, keys and settings are unchanged |
| ConfigManager.RemovePath | config_manager.py:128-136 | an absent path changes nothing, not even file creation; a present path loses its first occurrence, the list gets exactly one shorter, and everything else stays |
| ConfigManager.RemoveFirstIsWithout | config_manager.py:116-120 | in a duplicate-free history, removing the first occurrence is the same as filtering out every occurrence |
| ConfigManager.MoveToFront | config_manager.py:116-123 | removing a path from a duplicate-free list, putting it in front and cutting to `n` gives a duplicate-free list of at most `n` entries, headed by the path when `n` is at least 1, whose tail is the old list without the path, in order |
| ConfigManager.AddPathHistory | config_manager.py:111-123 | after adding to a duplicate-free history: the path comes first when `max_paths` is at least 1; the length is at most `max_paths`; there are no duplicates; the remaining entries are the old ones minus the path, in their old relative order |
| ConfigManager.AddPathGrowsByAtMostOne | config_manager.py:116-123 | an add makes the history at most one entry longer |
| ConfigManager.FreshHistoryCappedAtTwenty | config_manager.py:113 | when there is no history file, the limit defaults to 20 entries |
| App.SelectApiKey | app.py:178-195 | for qwen/qwen235: no server keys means an error; an `int()`-readable index in range selects that key; one out of range is refused with the index; an unreadable index selects the first key; a chosen key is always a server key. For other models a key is used iff it is present, non-empty and not `built-in` |
| App.RenderedIndexSelects | app.py:184-190 | the decimal text of any integer selects that key when it is in range, and is refused as that index otherwise |
| App.CleanOutputDir | app.py:198-204 | the cleaned directory has no `/`, is no longer than the input, and neither starts nor ends with whitespace |
| App.CleanOutputDirSlice | app.py:198-204 | the cleaned directory is one middle slice of the typed text with every `/` turned into `\`; everything cut off before and after that slice is double quotes, apostrophes or whitespace |
| App.StripStep | app.py:198 | one `strip` keeps a middle slice of the text and cuts off, at the two ends, only characters it strips |
| App.SanitiseOutputDir | app.py:198-213 | refused exactly when the cleaned text contains `..`; an accepted directory is non-empty, with no `/` and no `..`; an empty cleaned text becomes `output` |
| App.CleanDirectoryAccepted | app.py:198-213 | a directory with no surrounding quotes or whitespace, no `/` and no `..` is accepted exactly as typed |
| App.QuotesInsideSpacesSurvive | app.py:198 | the strip order keeps quotes that sit inside surrounding spaces (` "x" ` cleans to `"x"`), so cleaning is not idempotent |
| App.FormMaxTokens | app.py:217-221 | a field `int()` reads gives that integer; anything else gives the 100000 default |
| App.FormMaxTokensReadsBack | app.py:218-221 | the decimal text of any integer reads back as that integer |
| App.Normalise | app.py:240 | the name keeps its length and has no space or `-`: those become `_`, and every other character stays in place |
| App.SplitExtRoot | app.py:238 | `os.path.splitext(...)[0]`: the root is a prefix of the name; any cut-off extension starts with `.` and contains no further dot and no separator; a non-empty name has a non-empty root |
| App.SplitExtOfStemAndExtension | app.py:238 | a stem followed by `.` and an extension, neither containing dots or separators, splits back to that stem |
| App.NameFromFile | app.py:236-240 | a name derived from an upload has no space or `-`, is never empty for a non-empty file name, and is no longer than the file name |
| App.FirstNamed | app.py:231-232 | an upload is chosen only if it has a name; none is chosen exactly when every upload is unnamed |
| App.FirstNamedIsFirst | app.py:231-237 | the upload chosen comes after unnamed uploads only |
| App.FirstNamedAt | app.py:231-237 | a named upload that comes after unnamed uploads only is the one chosen |
| App.ProjectName | app.py:236-262 | the first named upload gives the name, which is non-empty; otherwise a heading capture gives the name, stripped and then with spaces and `-` turned into `_`; either way the name has no space or `-`; with neither, the timestamped fallback is used |
| App.Sections | app.py:231-234 | there are no blocks exactly when no upload has a name, and never more blocks than uploads |
| App.SectionsAppend | app.py:231-234 | the blocks of two runs of uploads are the blocks of the first run followed by those of the second, so blocks follow upload order |
| App.SectionsSingle | app.py:232-234 | a single upload contributes its `=== File:` block exactly when it has a name |
| App.JoinContainsParts | app.py:250 | every part occurs as a substring of the joined text |
| App.SectionListed | app.py:231-234 | every named upload contributes its block |
| App.CombinePrd | app.py:226-250 | refused exactly when no upload has a name and the pasted text is empty; with a named upload the PRD is exactly the blocks joined by blank lines, so the pasted text is left out; without one it is the pasted text; the PRD contains every named upload's `=== File:` header and content |
| App.PrdSummary | app.py:370 | text of at most 500 characters is kept as is; longer text becomes its first 500 characters plus `...`, exactly 503 long |
| App.SummaryIdempotent | app.py:370 | summarising a summary changes nothing |
| App.MaxContextFor | app.py:415-423 | every model's assumed context window is at least 32768 |
| App.AlibabaClientFor | app.py:265-276 | exactly qwen and qwen235 get an Alibaba client; its model limit equals the window the estimate route assumes for that choice; its PRD requests ask for thinking exactly for qwen |
| App.KimiContextAgrees | app.py:416-417 | the estimate route's Kimi window is the Moonshot client's 128k window |
| App.Truncate | app.py:399 | `int()` of a number truncates toward zero |
| App.IntOf | app.py:399 | `int()` of a string parses it; a finite number gives exactly its truncation toward zero (`Truncate`), so within one of the value; `True` gives 1 and `False` 0; null, lists, objects, `NaN` and the infinities raise |
| App.EstimateRoute | app.py:394-442 | an error exactly when `maxTokens` is present and `int()` rejects it; otherwise the reply has the content's length and token estimate, and an available output that is at most `maxTokens` (default 100000), at most the window minus the estimate, and equal to one of the two |
| App.EstimateRoomShrinks | app.py:425-439 | without a tokenizer, when shorter content gets an answer so does longer content, and the longer content never leaves more output room |
| Numbers.ParseShowRoundTrip | app.py:185 | `int()` reads back every integer `str()` writes |
| Tokens.Estimate | openrouter_client.py:38-44 | without an encoder the estimate is the character count divided by 4, rounded down; with one, it is the number of encoded tokens |
| Tokens.EstimateMonotone | moonshot_client.py:33-39 | the fallback estimate never decreases as the text grows |
| Repair.DropCommasBefore | openrouter_client.py:163-164 | the substitution only deletes characters: the result is no longer, its characters form a sub-multiset of the input, and every character other than `,` and whitespace keeps its count; what it does delete is stated by `CommaStep` and `TrailingCommaRemoved` |
| Repair.CommaFreePrefixKept | openrouter_client.py:163-164 | text before the first comma passes through the substitution unchanged |
| Repair.CommaFreeKept | openrouter_client.py:163-164 | a text with no comma is left as it is |
| Repair.CommaStep | openrouter_client.py:163-164 | at a comma followed by whitespace and a character `d`, the comma and the whitespace are dropped exactly when `d` is the closer, and otherwise the comma is kept and the scan goes on after it |
| Repair.TrailingCommaRemoved | openrouter_client.py:163-164 | a comma, any whitespace and the closer become the closer alone, with the text before them unchanged |
| Repair.OtherCloserKept | openrouter_client.py:163-164 | a comma in front of the other kind of closer is left alone by the substitution |
| Repair.StripTrailingCommas | openrouter_client.py:162-164 | both substitutions together never lengthen the text and keep the counts of `{`, `}`, `[` and `]` |
| Repair.TrailingCommaStripped | openrouter_client.py:162-164 | in an otherwise comma-free text, a comma, its following whitespace and a `}` or `]` become that closer alone, and the rest of the text is unchanged |
| Repair.DoubleCommaSurvives | openrouter_client.py:162-164 | of two commas before a `}` (as in `,,}`), one substitution pass removes only the second: the first comma is still there after both substitutions |
| Repair.RepeatCounts | openrouter_client.py:169 | `c * n` holds exactly `n` copies of `c` and nothing else |
| Repair.CloseAll | openrouter_client.py:167-169 | the input is a prefix and only closers are appended; a surplus of openers is exactly closed, so the counts become equal; otherwise the text is unchanged; no other character's count moves |
| Repair.BalanceShape | openrouter_client.py:166-173 | the balanced text is the input followed by `a` copies of `}` and then `b` copies of `]`, where `a` and `b` are the opener surpluses; afterwards no opener outnumbers its closer |
| Repair.Repaired | openrouter_client.py:157-175 | the full repair keeps the opener counts of the string-closed text and leaves no opener in surplus |
| Repair.BalancedButMisnested | openrouter_client.py:166-175 | balancing by counting can misnest: `{[` becomes `{[}]`, which is not properly nested |
| Fences.FindFence | openrouter_client.py:184 | the fence found is the first one at or after the start position; none is found exactly when there is none |
| Fences.CloseBlock | openrouter_client.py:184 | the lazy group ends at the first closing fence: the capture is the text up to it minus trailing whitespace, contains no earlier fence, and there is no match exactly when no fence follows |
| Fences.CaptureHasNoFence | openrouter_client.py:184 | a lazily captured block never contains a fence |
| Fences.Blocks | openrouter_client.py:184 | every `findall` capture is a substring of the reply that contains no fence; a reply without a fence has no captures |
| Fences.BlockAt | openrouter_client.py:184 | a match of the fenced-block pattern at a position starts with a fence there and ends after it, within the reply |
| Fences.BlocksLeftmost | openrouter_client.py:184 | `findall` order: the first capture is the one of the leftmost position where the pattern matches, and the scan resumes where that match ends |
| Fences.BlocksNone | openrouter_client.py:184 | where the pattern matches at no position, there are no captures |
| Fences.FirstJsonBlock | moonshot_client.py:150-152 | the capture is a fence-free substring, and there is none when the reply has no ```` ```json ```` |
| Fences.JsonBlockAt | moonshot_client.py:150 | a match of the ```` ```json ```` pattern at a position starts with ```` ```json ```` there; its capture is a fence-free substring |
| Fences.FirstJsonBlockSound | moonshot_client.py:150-152 | `search` semantics: a capture found is the one of a position where the pattern matches, with no match before it |
| Fences.FirstJsonBlockMisses | moonshot_client.py:150-152 | no capture means the pattern matches at no position |
| Fences.FirstJsonBlockLeftmost | moonshot_client.py:150-152 | the capture at the leftmost matching position is the one found |
| Fences.JsonBlockRoundTrip | moonshot_client.py:150-152 | a trimmed, backtick-free text fenced as ```` ```json ````, newline, text, newline, ```` ``` ```` after backtick-free text is found first by both the ```` ```json ```` search and the `findall` of the fenced-block pattern |
| Fences.BraceSpan | moonshot_client.py:155-157 | a span exists exactly when some `{` comes before some `}`; it starts at the first `{`, ends at the last `}`, and is a substring of the reply |
| OpenRouter.PayloadMaxTokens | openrouter_client.py:102 | a missing or zero budget becomes the module's `MAX_TOKENS` (imported from `config.py` at openrouter_client.py:12-17, taken here as its fallback 900000); any other request is sent unchanged; the budget sent is never 0 |
| OpenRouter.FirstParsed | openrouter_client.py:186-211 | the chosen block is the first that decodes: every earlier block fails, and none is chosen exactly when all fail |
| OpenRouter.LaterCandidatesIgnored | openrouter_client.py:186-211 | once a block decodes, blocks after it are never examined: appending candidates does not change the choice |
| OpenRouter.ProjectNameAt | openrouter_client.py:216 | a match at a position starts with the key `"project_name"` there; its group is non-empty, quote-free and a substring of the reply |
| OpenRouter.ProjectNameAtComplete | openrouter_client.py:216 | every text the pattern matches at a position (key, whitespace, `:`, whitespace, a quoted non-empty quote-free group) is found there with exactly that group |
| OpenRouter.ProjectNameAtSound | openrouter_client.py:216 | whatever is found at a position is a text the pattern matches there, with that group |
| OpenRouter.FindProjectName | openrouter_client.py:216-217 | a name found is non-empty, quote-free and a substring of the reply; there is none when the reply has no `"project_name"` |
| OpenRouter.FindProjectNameSound | openrouter_client.py:216-217 | `search` semantics: a name found is the group of a match with no match before it |
| OpenRouter.FindProjectNameMisses | openrouter_client.py:216-217 | no name found means the pattern matches at no position |
| OpenRouter.FindProjectNameLeftmost | openrouter_client.py:216-217 | the group of the leftmost match is the name found |
| OpenRouter.NameRecovered | openrouter_client.py:216-217 | a `project_name` field written after text without the letter `p` gives exactly its name |
| OpenRouter.FilesHeaderAt | openrouter_client.py:220 | a header match at a position starts with `"files"` there and yields the position of a `[` after it |
| OpenRouter.FilesHeaderAtComplete | openrouter_client.py:220 | every header text the pattern matches at a position (`"files"`, whitespace, `:`, whitespace, `[`) is found, ending at its `[` |
| OpenRouter.FilesHeaderAtSound | openrouter_client.py:220 | whatever header is found is a text the pattern matches there |
| OpenRouter.FilesBody | openrouter_client.py:220 | a body found is non-empty; there is none when the reply has no `"files"` |
| OpenRouter.FilesBodyAtShape | openrouter_client.py:220 | the greedy capture runs from just after the header's `[` to the last `]` of the reply, which lies at least two characters after the `[` |
| OpenRouter.FilesBodyAtComplete | openrouter_client.py:220 | after a header, any `]` at least two characters past its `[` makes the pattern match |
| OpenRouter.FilesBodySound | openrouter_client.py:220 | `search` semantics: a body found is the capture of a match with no match before it |
| OpenRouter.FilesBodyMisses | openrouter_client.py:220 | no body found means the pattern matches at no position |
| OpenRouter.FilesBodyLeftmost | openrouter_client.py:220 | the capture of the leftmost match is the body found |
| OpenRouter.FilesBodyBracketed | openrouter_client.py:220 | the body found sits right after a `[` and right before the last `]` of the reply |
| OpenRouter.FilesBodyRecovered | openrouter_client.py:220 | a `files` header after text without the letter `f`, then a non-empty body, a `]` and text without `]`, gives exactly that body, `]`s inside it included |
| OpenRouter.PartialStage | openrouter_client.py:213-232 | a result is a truthy object with exactly the keys `project_name` and `files`: `files` is the decoding of the body in brackets with no repair, and the name is the one found or `generated_project`; whenever a body is found and decodes in brackets, there is a result |
| OpenRouter.Cascade | openrouter_client.py:151-236 | the first stage with a truthy value wins, in the order whole reply, fenced blocks, partial array; any result is truthy |
| OpenRouter.Entries | openrouter_client.py:246-258 | a list yields entries exactly when every item is an object with string `path` and `content`; then there is one entry per item, in order, holding those two strings |
| OpenRouter.Describe | openrouter_client.py:239-246 | only an object describes a project; a present `project_name` is the project's name and a missing one gives `generated_project`; the files are what iterating `files` yields, none when it is missing; conversely an object whose name is absent or a string and whose `files` iterates does describe a project |
| OpenRouter.Recover | openrouter_client.py:151-236 | corrected routine: a `{` reply that decodes to a truthy value is saved from that value; when no stage yields data nothing is saved |
| OpenRouter.SaveAsWritten | openrouter_client.py:154-182 | as written: any reply whose stripped text starts with `{` is refused; any other reply is handled as by the corrected routine |
| OpenRouter.NothingDecodesNothingSaved | openrouter_client.py:234-236 | when no stage decodes, nothing is saved, and there is no `README.md` fallback |
| OpenRouter.DirectDocumentSaved | openrouter_client.py:153-175 | when stage 1 decodes a `{` reply to a value that describes a project, the corrected routine saves that project, while the as-written routine refuses it |
| OpenRouter.DemoReplyStartsWithBrace | openrouter_client.py:154 | the one-file descriptor `{"project_name": "demo", "files": [{"path": "a", "content": "b"}]}` passes the stage-1 guard |
| OpenRouter.DemoDescribed | openrouter_client.py:239-246 | the object stage 3 builds from that reply describes the project `demo` with the one file `a` holding `b` |
| OpenRouter.DemoReplyHasNoBlocks | openrouter_client.py:180-211 | that reply has no fenced block, so stage 2 yields nothing |
| OpenRouter.DemoReplyScanned | openrouter_client.py:213-220 | stage 3 reads the name `demo` and the whole `files` body from that reply |
| OpenRouter.DemoReplyRefused | openrouter_client.py:151-236 | when the repaired reply does not decode in stage 1, the as-written routine refuses it, while the routine whose stage 1 falls through to stages 2 and 3 saves the project `demo` from stage 3 |
| Moonshot.ClampMaxTokens | moonshot_client.py:44-48 | the budget is at most the request (default 100000), at most 128000 minus the PRD estimate minus 1000, and equal to one of the two |
| Moonshot.LargePrdNegativeBudget | moonshot_client.py:48 | a PRD estimated above 127000 tokens gives a negative budget |
| Moonshot.ExtractJson | moonshot_client.py:149-159 | the text handed to the decoder is the capture of the first ```` ```json ```` block when there is one; otherwise the span from the first `{` to the last `}` when there is one; otherwise the whole reply; it is always a substring of the reply |
| Moonshot.ExtractFencedJson | moonshot_client.py:149-152 | a trimmed, backtick-free text fenced as the prompt asks is extracted exactly, whatever backtick-free text comes before it |
| Moonshot.ExtractBareJson | moonshot_client.py:153-157 | without any fence, a `{…}` text between chatter with no `{` before it and no `}` after it is extracted exactly |
| Moonshot.RespondFenced | moonshot_client.py:149-164 | a reply fenced as the prompt asks, whose fenced text decodes, is answered with exactly that text |
| Moonshot.Respond | moonshot_client.py:161-176 | the text `ExtractJson` chose (json block, else brace span, else whole reply) is returned itself exactly when it decodes; otherwise the reply is wrapped as one `README.md` file holding the entire reply, under the caller's project name |
| Moonshot.SendPrdRequest | moonshot_client.py:93-191 | the output budget is the clamped one; there is no reply exactly when no choice came back; on every error path the output is 0 and the input and total are the prompt estimate; on success the usage counters are used where present |
| AlibabaCloud.NewClient | alibaba-cloud-client.py:64-67 | a new client is on Qwen-Plus with thinking off |
| AlibabaCloud.SetModel | alibaba-cloud-client.py:79-85 | a known key becomes the active model; an unknown key changes nothing; the thinking flag is untouched |
| AlibabaCloud.ActiveConfig | alibaba-cloud-client.py:91 | the configuration used is the active model's, or Qwen-Plus's when the active key is unknown; it is always an entry of the table |
| AlibabaCloud.CompletionRequest | alibaba-cloud-client.py:91-114 | the output cap is the smaller of the request and the model limit; an explicit thinking argument overrides the instance flag; `extra_body` thinking is sent iff it is requested and the model supports it |
| AlibabaCloud.PrdRequest | alibaba-cloud-client.py:186-188 | a PRD request asks for thinking iff the model supports it and the instance flag is set; the cap never exceeds the model limit |
| AlibabaCloud.RequestWithinTable | alibaba-cloud-client.py:24-62 | no request exceeds the largest limit in the table (1000000), and Qwen-Max and Qwen-Long never get thinking |

## Left out

- File and network I/O is not modelled: reading and writing the JSON files,
  directory creation, project-path collisions with timestamp suffixes,
  writing the generated files and `_generation_info.json`, debug dumps, and
  every `requests.post` call. A file that exists but does not decode reads
  as an empty dictionary in the source; the model's files always decode.
- Flask routing, CORS, logging, static files and `jsonify` responses are web
  plumbing. The `/api/config/*` routes call the ConfigManager operations
  modelled above. GET `/api/config/keys` also fills an empty OpenRouter or
  Moonshot key from the environment (app.py:105-108); that fallback is
  environment I/O and is not modelled.
- `json.loads`, `json.dumps` and the tiktoken encoder are foreign code. They
  are parameters, not definitions.
- The unterminated-string regex (openrouter_client.py:160 and 192) is a
  multiline lazy match with a look-behind. It is the parameter
  `closeStrings`, applied at the right point of the repair.
- The heading regex of app.py:256 is case-insensitive and multi-alternative.
  Its capture is a parameter of `App.ProjectName`; the strip and
  normalisation applied to it are modelled. The timestamped default name of
  app.py:262 is a parameter too, since it depends on the clock.
- Key loading from the environment and from `config/ALIBABA-KEYS.json`
  (app.py:45-62) is configuration I/O. The key list is a parameter.
- Pricing, temperatures and the other floating-point figures
  (app.py:428-434, openrouter_client.py:284-286) are not modelled: they
  only feed log lines and the reply's cost fields.
- App.IntOf: a decoded number is taken as the exact value the decoder
  reports. Python rounds a decimal literal to the nearest double first, so
  `1.9999999999999999` gives 2 in the source and would give 1 if handed
  over unrounded. `NaN`, `Infinity`, `-Infinity` and literals beyond the
  double range (such as `1e400`) are `JNonFinite`, on which `int()` raises;
  which literals overflow is the decoder's business, since the decoder is a
  parameter.
- `int()` is modelled on ASCII digits only. Python also accepts other
  Unicode decimal digits.
- ConfigManager.AddPath: `max_paths` is stored as an integer. In the source
  a JSON `null` there keeps the whole list (`paths[:None]`), `true` and
  `false` keep one entry and none, and a float, string, list or object
  makes the slice raise; none of these is modelled.
- OpenRouter.PayloadMaxTokens: `MAX_TOKENS` is imported from `config.py`
  when that module exists (openrouter_client.py:12-17); 900000 is only the
  `ImportError` fallback. `config.py` is not part of this model, so the
  constant is its fallback value, and with a `config.py` that sets
  `MAX_TOKENS = 0` the source would send a budget of 0.
- ConfigManager.HistoryFile: the history file is modelled with its
  `recent_paths` and `max_paths` keys only. `add_path_to_history` and
  `remove_path_from_history` write back the whole loaded dictionary
  (config_manager.py:111, 125-126, 135-136), so any other key stored in
  `path-history.json` survives them; the model cannot see such keys.
- ConfigManager.SaveApiKey: key values are strings. The POST route
  (app.py:111-117) stores whatever JSON value the request carries,
  `null` and numbers included; such a value would read back through
  `get_api_key` as that value, not as a string.
- OpenRouter.DirectDocumentSaved: its requires says that stage 1 decodes
  the repaired reply. With the source's own string-closing regex
  (openrouter_client.py:160) that never happens for an object with a key:
  the regex appends `"` to every line that contains a quote, and the
  decoder then rejects the text. The lemma is about a string-closing step
  that leaves complete lines alone; `closeStrings` is a parameter, and the
  regex itself is not modelled.
- OpenRouter.Describe: files written before a malformed entry is reached
  stay on disk, but the routine still returns `False`. The model only gives
  the verdict.
- App.CombinePrd: an upload is its name and its already decoded text. The
  source decodes the bytes as UTF-8 (app.py:233); a file that is not valid
  UTF-8 raises there, and the handler answers with an error 500
  (app.py:388-392). That failure is not modelled.
- App.EstimateRoute: a request body that is not a JSON object, and a
  `content` that is not a string, raise in the source. The model takes the
  content as a string.
- `send_completion`'s HTTP handling and the Alibaba response format are
  network I/O. Only the request the client builds is modelled.

## Findings

| source | as written | input that shows it | evidently intended | confidence | as-written member | corrected member |
|---|---|---|---|---|---|---|
| openrouter_client.py:154-182 | `import re` inside `save_project_files` makes `re` local to the whole function, so the `re.sub` of stage 1 raises `UnboundLocalError`; the `JSONDecodeError` handler does not catch it, and the outer handler returns `False` before stages 2 and 3 run | the one-line reply `{"project_name": "demo", "files": [{"path": "a", "content": "b"}]}` | a failure in stage 1 falls through to stages 2 and 3, as a decode error does; on this reply stage 1 still fails (the string-closing regex appends a `"`), and stage 3 then saves the project `demo` | high (not executed) | OpenRouter.SaveAsWritten, OpenRouter.DemoReplyRefused | OpenRouter.Recover |
