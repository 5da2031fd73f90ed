# Trilingual sentiment analyser: inference-time decision logic in Dafny

This project models the decision code that wraps the sentiment classifier of
the trilingual (English, Arabic, French) sentiment analyser:

- `SentimentPipeline.predict`. It trims the text and answers blank text at
  once. When a classifier handle was acquired, it normalises the classifier's
  raw label into `negative`/`neutral`/`positive` through the configured
  label mapping. Otherwise it falls back to the rule-based lexicon scorer
  `_rule_based`.
- `_rule_based`. It lower-cases the text and takes the set of word tokens
  found by the regex `\w+|\w+'\w+`. It counts the distinct positive and
  negative trigger words of the selected language and applies a three-way
  decision rule with confidence `min(1, 0.5 + 0.1·|pos − neg|)`.
- `load_config`. The built-in `DEFAULTS` are merged with the parsed
  `config.json` object. The merge is shallow and the file wins.
- The post-processing in `analyze_sentiment`. It picks the first entry with
  the highest score, relabels it through `label_map` and builds the
  label-to-score dictionary.

Modules, one per component:

| file | module | models |
|---|---|---|
| `wrappers.dfy` | `Wrappers` | `Option` and `Result` |
| `json.dfy` | `Json` | decoded JSON values and Python truthiness |
| `text.dfy` | `Text` | `str.strip`, `str.lower` and the regex tokeniser |
| `lexicon.dfy` | `Lexicon` | the lexicons, language selection, the decision rule and `_rule_based` |
| `config.dfy` | `Config` | `DEFAULTS` and `load_config` |
| `pipeline.dfy` | `Pipeline` | `SentimentPipeline` construction and `predict` |
| `api.dfy` | `Api` | `label_map` and the post-processing of `analyze_sentiment` |
| `scenarios.dfy` | `Scenarios` | worked examples of `predict` |

Python's Unicode character classes are a parameter, `Text.CharModel`. It
holds lower-casing, membership in `\w`, and `str.isspace`. The predicate
`Text.AgreesOnAscii` fixes their ASCII behaviour to Python's, and the
worked examples assume it. The classifier is an opaque function from the
trimmed text to its list of result dictionaries. Whether one was acquired
is an `Option`. File reading and JSON parsing become the `Config.ConfigFile`
value: absent, present but unreadable or unparseable, or parsed.

## Behaviour of note

Each point below is what the code does, with the evidence in the code
itself that something else may have been meant:

- Tokens are always maximal `\w` runs. The pattern `\w+|\w+'\w+` has a
  second alternative for words with an apostrophe, and the French lexicon
  lists `j'aime` and `je déteste`, so whole contractions and two-word
  entries are evidently expected to match. But the first alternative
  always matches wherever the second could, so an apostrophe ends a token,
  and those two entries can never be counted
  (`Lexicon.MultiWordEntriesNeverMatch`).
- `_rule_based` on text without tokens returns `neutral` at 0.5, while
  `predict` returns `neutral` at 0.0 for blank text
  (`Lexicon.RuleBasedNoTokens`, `Pipeline.BlankIgnoresState`).
- `load_config`'s docstring promises safe defaults when the file is
  missing or invalid. A missing or unparseable file does give the
  defaults. JSON that parses to something other than an object (a list,
  say) makes the merge `{**DEFAULTS, **data}` raise. Values are not
  validated: every value in the file replaces the default as it is, and
  `label_mapping` is replaced as a whole (`Config.LoadConfig`,
  `Config.LabelMappingReplacedWhole`).
- `use_transformers` defaults to the boolean `True`, so a boolean flag is
  evidently meant. But `load_config` does not validate values, and the
  constructor tests the value for Python truthiness. A `config.json` that
  writes the string `"false"` therefore keeps the classifier on: a
  non-empty string is truthy (`Json.Truthy`,
  `Pipeline.QuotedFalseKeepsClassifier`).
- `predict` is annotated to return a `str` label and comments that it
  normalises labels to positive/neutral/negative. A configured
  `label_mapping` value is returned unchecked, whatever JSON value it is
  (`Pipeline.MappingIsNotValidated`). With the default mapping the label
  is always canonical (`Pipeline.DefaultMappingIsCanonical`).
- In `analyze_sentiment`, `label_map.get(x, x)` passes raw labels other
  than `LABEL_0..2` through unchanged. Two entries that relabel to the
  same key keep the later score (`Api.CollidingLabelsKeepLater`).

## Model

| member | source | states |
|---|---|---|
| Text.Strip | src/models/pipeline.py:27-28 | the trimmed text is empty exactly when every character is whitespace; otherwise it starts and ends with non-whitespace and is the slice that follows the leading whitespace, and everything after it is whitespace |
| Text.StripSplit | src/models/pipeline.py:27 | trimming whitespace + core + whitespace gives back the core, for any core that is empty or has non-whitespace ends, so the trim is unique |
| Text.StripIdempotent | src/models/pipeline.py:27 | trimming twice is trimming once |
| Text.Lower | src/models/pipeline.py:90 | lower-casing keeps the length and lowers each character in place |
| Text.LowerAscii | src/models/pipeline.py:88-90 | on ASCII text, lower-casing is Python's A-Z to a-z |
| Text.Tokens | src/models/pipeline.py:90 | every token of the regex is a non-empty run of word characters; under Python's ASCII classes none holds an apostrophe or a space |
| Text.TokenSet | src/models/pipeline.py:90 | the distinct tokens are all non-empty word-character runs |
| Text.TokenIsRun | src/models/pipeline.py:90 | every token is a maximal run of word characters of the text |
| Text.RunIsToken | src/models/pipeline.py:90 | every maximal run of word characters of the text is a token |
| Text.TokenSetIsRuns | src/models/pipeline.py:90 | a word is in the token set exactly when it is a maximal word-character run of the text |
| Text.TokensCons | src/models/pipeline.py:90 | a word followed by a non-word character is the first token and the separator is dropped |
| Text.TokensSnocSep | src/models/pipeline.py:90 | a trailing non-word character, such as punctuation, adds no token |
| Text.TokensSingle | src/models/pipeline.py:90 | a text that is one word is one token |
| Text.TokensOfJoin | src/models/pipeline.py:90 | tokenising words joined by a non-word separator returns those words in order |
| Lexicon.LexiconsDisjoint | src/models/pipeline.py:51-86 | in every language the positive and negative trigger sets share no word |
| Lexicon.Positives | src/models/pipeline.py:51-86 | the positive triggers of each language, word for word as in `lex`; no entry is empty |
| Lexicon.Negatives | src/models/pipeline.py:51-86 | the negative triggers of each language, word for word as in `lex`; no entry is empty |
| Lexicon.LanguageCode | src/models/pipeline.py:88 | a missing or empty code reads as "en"; any other code is lowered character by character, keeping its length |
| Lexicon.SelectLanguage | src/models/pipeline.py:88-89 | the Arabic lexicon is chosen exactly for code "ar", the French exactly for "fr", after lower-casing; every other code, and a missing or empty one read as "en", selects English |
| Lexicon.SelectLanguageAscii | src/models/pipeline.py:88-89 | for every ASCII code: Arabic exactly when the code lowers to "ar", French exactly when it lowers to "fr", English otherwise; a missing or empty code reads as "en" |
| Lexicon.SelectLanguageExamples | src/models/pipeline.py:88-89 | nine codes worked out: none, "", "en", "EN" and "de" select English; "fr" and "FR" select French; "ar" and "Ar" select Arabic |
| Lexicon.Decide | src/models/pipeline.py:94-100 | a tie is neutral at 0.5; otherwise the larger side wins with 0.5 plus a tenth per hit of margin, which is 1.0 once the margin reaches 5 |
| Lexicon.DecideSymmetric | src/models/pipeline.py:96-100 | swapping the positive and negative counts swaps positive and negative and keeps the confidence |
| Lexicon.DecideMonotone | src/models/pipeline.py:94-100 | a margin at least as wide never gives a lower confidence, ties included |
| Lexicon.Words | src/models/pipeline.py:90 | the distinct regex matches of the lowered text, each a non-empty run of word characters |
| Lexicon.PosHits | src/models/pipeline.py:91 | the number of distinct tokens that are positive triggers of the selected language; never more than the tokens or the triggers |
| Lexicon.NegHits | src/models/pipeline.py:92 | the number of distinct tokens that are negative triggers of the selected language; never more than the tokens or the triggers |
| Lexicon.RuleBased | src/models/pipeline.py:88-100 | the verdict is neutral exactly on a tie of distinct hits, positive or negative as the larger side; the confidence is in [0.5, 1] and equals 0.5 exactly when neutral |
| Lexicon.HitsBounded | src/models/pipeline.py:91-92 | no token counts on both sides: positive plus negative hits never exceed the number of distinct tokens |
| Lexicon.DisjointHits | src/models/pipeline.py:91-92 | for disjoint trigger sets, the two hit counts add up to at most the number of words |
| Lexicon.RuleBasedNoTokens | src/models/pipeline.py:90-95 | text with no token is neutral at 0.5 |
| Lexicon.RuleBasedSameRuns | src/models/pipeline.py:88-100 | two texts whose lower-cased forms have the same maximal word runs get the same verdict, whatever the order, repetition or separators |
| Lexicon.RuleBasedWordSet | src/models/pipeline.py:90-92 | lower-case words joined by the same non-word separator that lower-cases to itself, in any order and with any repetition, get the same verdict |
| Lexicon.WordsOfJoin | src/models/pipeline.py:90 | the words found in lower-case words joined by a non-word separator that lower-cases to itself are exactly those words |
| Lexicon.MultiWordEntriesNeverMatch | src/models/pipeline.py:83-90 | "j'aime" and "je déteste" are never tokens, so French hits stay below the lexicon sizes |
| Pipeline.NewPipeline | src/models/pipeline.py:17-24 | a handle is kept exactly when `use_transformers` is missing or truthy and acquisition succeeded; the kept handle is the acquired one |
| Json.Truthy | src/models/pipeline.py:17 | a JSON value is truthy exactly when it is not null, false, zero, the empty string, the empty list or the empty object |
| Pipeline.QuotedFalseKeepsClassifier | src/models/pipeline.py:17 | `"use_transformers": "false"` still asks for the classifier |
| Pipeline.UseTransformers | src/models/pipeline.py:17 | the classifier is asked for when `use_transformers` is absent, and otherwise exactly when its value is truthy |
| Pipeline.LabelMapping | src/models/pipeline.py:41-44 | the configured `label_mapping` as it is, or the LABEL_0/1/2 table when none is configured |
| Pipeline.Normalise | src/models/pipeline.py:33-45 | normalisation fails exactly when the classifier returned nothing, or the label is not canonical and the mapping is not an object; on success the confidence is the raw score, 0.0 when missing |
| Pipeline.Predict | src/models/pipeline.py:26-48 | blank text gives neutral at 0.0; only the classifier path can fail; without a handle the name is canonical and the confidence is in [0, 1] |
| Pipeline.BlankIgnoresState | src/models/pipeline.py:27-29 | blank text gives neutral at 0.0 whatever the configuration, handle and language |
| Pipeline.PredictFallback | src/models/pipeline.py:32-48 | without a handle, predict on non-blank text returns the rule-based verdict on the trimmed text |
| Pipeline.DisabledIgnoresClassifier | src/models/pipeline.py:17 | with `use_transformers` falsy, the prediction is the same as with no classifier at all |
| Pipeline.PredictCanonicalLabel | src/models/pipeline.py:34-39 | a raw label that lower-cases to a canonical name is returned lower-cased, with the raw score unchanged |
| Pipeline.PredictMappedLabel | src/models/pipeline.py:41-45 | any other raw label is looked up in its original case in the label mapping; a label the mapping lacks gives "neutral"; the score is unchanged |
| Pipeline.DefaultMappingIsCanonical | src/models/pipeline.py:41-45 | with the default mapping, a classifier that returns a result always yields one of the three names |
| Pipeline.MappingIsNotValidated | src/models/pipeline.py:41-45 | a configured mapping value is returned as the label whatever it is |
| Config.LoadConfig | src/helpers/config.py:12-27 | a missing or unparseable file gives exactly the defaults; loading fails exactly when the parsed value is not an object; a successful load keeps every default key |
| Config.LoadConfigMerge | src/helpers/config.py:26 | merged keys are the union of the default and file keys; file values win unvalidated; defaults the file omits survive |
| Config.LoadEmptyObject | src/helpers/config.py:26 | an empty object in the file gives exactly the defaults |
| Config.LoadConfigRoundTrip | src/helpers/config.py:26 | saving a loaded configuration and loading it again gives the same configuration |
| Config.LabelMappingReplacedWhole | src/helpers/config.py:26 | a file label mapping replaces the default table whole: default raw labels it omits are gone |
| Api.RelabelCases | src/api/api.py:23-34 | LABEL_0, LABEL_1 and LABEL_2 become negative, neutral and positive; every other raw label passes through unchanged |
| Api.Relabel | src/api/api.py:34-39 | a key of `label_map` becomes one of the three canonical names; every other label is kept as it is |
| Api.BestIndex | src/api/api.py:33 | the chosen entry has the maximal score and every earlier entry scores strictly less, so the first maximum wins |
| Api.BestIndexUnique | src/api/api.py:33 | only one index is a first maximum, so the sentiment `Analyze` promises is determined |
| Api.ScoresBy | src/api/api.py:38-41 | the dictionary has one key per distinct relabelled label |
| Api.ScoresLastWins | src/api/api.py:38-41 | each key holds the score of the last entry that relabels to it |
| Api.AnalyzeLastWins | src/api/api.py:38-41 | in the response, each relabelled key holds the score of the last entry carrying it |
| Api.Analyze | src/api/api.py:29-42 | an empty result list is an error; otherwise the input is echoed, the sentiment is the relabelled label of an entry with the maximal score and no earlier entry as high, it is a key of the scores, and the scores have one key per relabelled label |
| Api.SentimentScoreIsMax | src/api/api.py:33-41 | when relabelled labels are distinct, the sentiment's reported score is the maximal score |
| Api.CollidingLabelsKeepLater | src/api/api.py:34-41 | when LABEL_2 at 0.9 and "positive" at 0.05 collide, the sentiment is positive but its reported score is 0.05 |
| Api.TypicalAnalysis | src/api/api.py:29-42 | the three generic labels with the middle one highest give neutral and the full relabelled score table |
| Scenarios.LoveIsPositive | src/models/pipeline.py:88-98 | "I absolutely love this product!" in English without a classifier is positive at 0.6 |
| Scenarios.MauvaisIsNegative | src/models/pipeline.py:88-100 | "C'est un mauvais film" in French without a classifier is negative at 0.6 |
| Scenarios.FineIsNeutral | src/models/pipeline.py:88-95 | "This is fine." in English without a classifier is neutral at 0.5 |
| Scenarios.EmptyIsNeutralZero | src/models/pipeline.py:27-29 | the empty text is neutral at 0.0 in every state |
| Scenarios.Label2IsPositive | src/models/pipeline.py:34-45 | a classifier answering LABEL_2 at 0.87 under the default configuration gives positive at 0.87 |

## Left out

- Model acquisition is left out because it is external I/O. This covers
  the `transformers` import and `hf_pipeline` construction in
  `_init_model`, and the module-level model, tokenizer, adapter and
  pipeline loading in src/api/api.py. The outcome is the `acquired` option
  of `Pipeline.NewPipeline`.
- Exceptions raised inside the classifier call are left out. The source
  does not handle them.
- File-system access and JSON parsing in `load_config` are abstracted to
  `Config.ConfigFile`.
- Floating point is left out: confidences are exact reals. Python's
  binary rounding of `0.5 + k·0.1` is not modelled, and neither is
  `round(score, 4)` in `analyze_sentiment`.
- The Unicode behaviour of `str.lower`, `\w` and `str.isspace` is a
  parameter (`Text.CharModel`). Only its ASCII range is fixed.
- Text.Lower: lower-cases one character at a time. Python can map one
  character to several (for example U+0130), which this model does not
  cover.
- Pipeline.Normalise: the raw label is modelled as an optional string.
  `str()` of a non-string label, and `float()` of a non-numeric score,
  are not modelled.
- Api.Analyze: it takes the per-class score list of the single input
  directly. The `[0]` that selects it from the batched pipeline output is
  not modelled.
- main.py is not part of this model. It is the Streamlit page, CSS, chart
  and a softmax/argmax over tensors that repeats the selection modelled in
  `Api`.
