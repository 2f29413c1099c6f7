# Log Analysis Buddy: response cleaner, provider layer and analysis workflow in Dafny

This project models the core of Log Analysis Buddy, a tool that asks a language
model for a security analysis of a CSV log. The model is written in Dafny and
its properties are proved. Three pieces are modelled:

- **The response cleaner** (`clean_response`, `refactor_response`). Cleaning
  splits the model's answer into lines and collapses each line's whitespace to
  single spaces. It rejoins the lines with `\n`, then applies the multiline
  substitution `^(#+)\s*` → `\1 ` so that every Markdown heading marker is
  followed by one space. Refactoring sends the cleaned text back to a model with
  a fixed instruction.
- **The provider layer.** A factory picks one of two back ends by a
  case-insensitive name:
  - a local Ollama service, which gets an HTTP POST and answers with
    newline-delimited JSON fragments;
  - the hosted OpenAI API, which gets a chat or legacy completion call chosen
    by the model name's `gpt-` prefix.
- **The analysis workflow** (`read_log_file`, `analyze_logs`). It checks that
  the file exists, turns the CSV records into text, gives up on empty text,
  builds the prompt, and sends it to the provider picked by the exact choice
  `"OpenAI"`.

The outside world is a value of type `External.World`: total functions for the
file-exists test, the CSV reader, the HTTP POST, the per-line JSON decoder and
the two SDK entry points. Every operation that calls the file system, the CSV
reader, the HTTP client or an SDK entry point returns its result together with
the list of those calls (`External.Run`). This lets the model state which calls
happen and which never do. The JSON decoder is the exception: it is a pure
library call, so the reply handling (`OllamaReply`, `Fragments`, `FragmentOf`,
`CollectFragments`) takes it as a parameter and records nothing. Python exceptions are the
`Err` side of a `Result`. A `try`/`except` that returns `None` is
`External.ToOption`.

Files, one module each:

- `wrappers.dfy` — `Option` and `Result`.
- `text.dfy` — the parts of Python's `str` the core relies on:
  - `isspace`, `split`, `strip`, `splitlines`, `join`, `lower`, `startswith`;
  - decimal rendering of an integer.
- `external.dfy` — the world, the call trace, the request and reply shapes, and
  the exceptions.
- `llm_provider.dfy` — `app/llm_provider.py`.
- `response_cleaner.dfy` — `app/response_cleaner.py`.
- `log_analysis_buddy.dfy` — `read_log_file` and `analyze_logs` of
  `app/log_analysis_buddy.py`.

Three things one might expect of the tool do not hold in the code, and the
model follows the code:

- **Idempotence.** Cleaning is not idempotent. A
  trailing line break is lost on each pass: `a\n\n` → `a\n` → `a`. A bare `#`
  line before another heading leaves a trailing space that the next pass
  removes: `#\n#` → `# # ` → `# #`. The model proves both counterexamples for
  every title and every pair of `#` runs. It also proves idempotence whenever
  the cleaned text ends in neither a space nor a line break
  (`ResponseCleaner.CleanIdempotent`).
- **Missing OpenAI key.** An analysis with the OpenAI choice and an empty key
  does not fail before the network call. The code makes no such check, and `ResponseCleaner.RefactorDispatch` and
  `LogAnalysisBuddy.OpenAIKeyNotChecked` prove the call still happens.
- **Prompt wording.** The analysis prompt does not ask for Markdown output,
  although the cleaner is built around Markdown headings. `AnalysisPrompt` is
  the code's string.

## Model

| member | source | states |
|---|---|---|
| `ResponseCleaner.CleanResponse` | app/response_cleaner.py:8-18 | The loop over the lines produces exactly the specification `Clean(text)`. The result keeps every non-whitespace character of the input in order, obeys the space rule and has no leading space. When no word of the input starts with `#`, the result has exactly the input's words, in order: only the whitespace between them changed. |
| `ResponseCleaner.Clean` | app/response_cleaner.py:8-18 | None of its own; see `CleanResponse`, `CleanKeepsNonSpace`, `CleanKeepsWords`, `CleanIsTidy` and `CleanIdempotent`. |
| `ResponseCleaner.CleanKeepsWords` | app/response_cleaner.py:8-18 | When no word of the input starts with `#`, cleaning keeps the words exactly, in order. (A word such as `##Title` is split by the substitution, so the condition is needed.) |
| `ResponseCleaner.CollapseText` | app/response_cleaner.py:11-15 | None of its own; see `StageOneKeepsWords`, `StageOneNormalized`, `CollapseTextLines` and `CollapseTextOfNormalized`. |
| `ResponseCleaner.StageOneKeepsWords` | app/response_cleaner.py:11-15 | Collapsing each line and rejoining with `\n` keeps the words of the text exactly, in order: no word is merged, split, dropped or added. |
| `ResponseCleaner.WordsOfLines` | app/response_cleaner.py:11-15 | The words of lines joined with `\n` are the words of each line, one line after the other. |
| `ResponseCleaner.CollapseEachKeepsWords` | app/response_cleaner.py:13-14 | Collapsing every line keeps the words of every line. |
| `ResponseCleaner.WordsAround` | app/response_cleaner.py:11-15 | A whitespace character between two texts separates their words: the words of the whole are the words of each side. |
| `ResponseCleaner.WordStart` | app/response_cleaner.py:13 | A non-whitespace character at the start of the text or after whitespace begins one of the words. |
| `ResponseCleaner.CleanKeepsNonSpace` | app/response_cleaner.py:11-17 | Cleaning only rewrites whitespace: the non-whitespace characters of the output are those of the input, in the same order. |
| `ResponseCleaner.CleanIsTidy` | app/response_cleaner.py:13-17 | The cleaned text has no whitespace other than `\n` and single spaces: no tab, no two spaces in a row, no space next to a line break, no leading space. |
| `ResponseCleaner.CollapseTextLines` | app/response_cleaner.py:11-15 | Stage one gives one collapsed line per input line. Each has no whitespace at either end and no run of spaces, and keeps that line's non-whitespace characters. A line is empty exactly when the input line is blank. The lines, interior blank ones included, can be split back out unless the last one is empty. |
| `ResponseCleaner.CollapseLineShape` | app/response_cleaner.py:13 | `" ".join(line.split())` is a collapsed single line with exactly the line's words, in order, so also its non-whitespace characters. It is empty iff the line is all whitespace. |
| `ResponseCleaner.CollapseLine` | app/response_cleaner.py:13 | None of its own; see `CollapseLineShape` and `CollapseLineKeeps`. |
| `ResponseCleaner.WordsOfJoin` | app/response_cleaner.py:13 | Splitting non-empty words without whitespace after joining them with single spaces gives back exactly those words. |
| `ResponseCleaner.CollapseLineKeeps` | app/response_cleaner.py:13 | Collapsing an already collapsed line leaves it unchanged. |
| `ResponseCleaner.JoinWords` | app/response_cleaner.py:13 | Joining non-empty words without whitespace using single spaces gives a collapsed line made of exactly those words' characters. The result is empty iff there are no words. |
| `ResponseCleaner.JoinLinesNormalized` | app/response_cleaner.py:15 | Joining collapsed lines with `\n` gives a normalised text: the space rule holds and there is no space at either end. |
| `ResponseCleaner.LinesOfNormalized` | app/response_cleaner.py:11 | Every line that `splitlines` takes from a normalised text is a collapsed line. |
| `ResponseCleaner.CollapseTextOfNormalized` | app/response_cleaner.py:11-15 | Stage one changes a normalised text only by dropping one trailing line break. |
| `ResponseCleaner.StageOneNormalized` | app/response_cleaner.py:11-15 | Stage one always yields a normalised text. |
| `ResponseCleaner.CollapseEach` | app/response_cleaner.py:10-14 | The list of cleaned lines has one entry per input line, and entry `i` is line `i` collapsed. |
| `ResponseCleaner.CollapseEachKeepsNonSpace` | app/response_cleaner.py:11-15 | Collapsing every line before the join keeps the non-whitespace characters of the joined lines. |
| `ResponseCleaner.HeadingSub` | app/response_cleaner.py:17 | The substitution maps the empty text to itself and keeps the first character of a non-empty text. |
| `ResponseCleaner.HeadingAtLineStart` | app/response_cleaner.py:17 | At a line start, a run of `#`, the whitespace after it (line breaks included) and the rest become the run, one space and the substituted rest. Whether the rest starts a line depends on whether the consumed whitespace ended in `\n`. |
| `ResponseCleaner.HeadingMatch` | app/response_cleaner.py:17 | A match is a non-empty run of `#` followed by a maximal run of whitespace. The rest starts with a non-whitespace character, and the match is replaced by the run and one space. |
| `ResponseCleaner.NoHeadingUnchanged` | app/response_cleaner.py:17 | A text with no `#` at any line start is left unchanged by the substitution. |
| `ResponseCleaner.HeadingSubKeepsNonSpace` | app/response_cleaner.py:17 | The substitution keeps the non-whitespace characters in order. |
| `ResponseCleaner.HeadingMatchKeepsNonSpace` | app/response_cleaner.py:17 | Replacing one match keeps the non-whitespace characters of the matched text. |
| `ResponseCleaner.HeadingSubSpaceRule` | app/response_cleaner.py:17 | The substitution keeps the space rule: the single space it writes never touches other whitespace. |
| `ResponseCleaner.CopyPrefix` | app/response_cleaner.py:17 | Away from a line start, characters other than `\n` are copied unchanged. |
| `ResponseCleaner.HeadingSubIdempotent` | app/response_cleaner.py:17 | Applying the substitution to its own output changes nothing. |
| `ResponseCleaner.CleanIdempotent` | app/response_cleaner.py:11-17 | Cleaning twice equals cleaning once whenever the cleaned text ends in neither a space nor a line break. |
| `ResponseCleaner.HeadingGetsSpace` | app/response_cleaner.py:17 | A run of `#` directly followed by a title gets one space after it, as in `##Title` → `## Title`. |
| `ResponseCleaner.HeadingSpacesShrink` | app/response_cleaner.py:13-17 | Blanks between a run of `#` and the title shrink to one space, as in `#    Title` → `# Title`. |
| `ResponseCleaner.HeadingJoinsNextLine` | app/response_cleaner.py:17 | A bare `#` line absorbs the line breaks after it and pulls the next line up, as in `#\n\nfoo` → `# foo`. |
| `ResponseCleaner.CleanTitleThenBreaks` | app/response_cleaner.py:11-17 | A title followed by one or more line breaks cleans to the title and one line break fewer. A title is a single collapsed line that does not start with `#`. |
| `ResponseCleaner.TrailingBreakDropped` | app/response_cleaner.py:11-15 | For any title `a`, a trailing line break is lost: `a\n\n` → `a\n` → `a`. So cleaning is not idempotent there. |
| `ResponseCleaner.StackedHeadings` | app/response_cleaner.py:17 | `#\n#` cleans to `# # `: the first match swallows the line break, and the second run still gets its own space. |
| `ResponseCleaner.SpacedHashRuns` | app/response_cleaner.py:11-17 | Two runs of `#`, each followed by a space, clean to the runs with one space between them, as in `# # ` → `# #`. The trailing space goes, and the second run gets no space of its own. |
| `ResponseCleaner.StackedHeadingsNotIdempotent` | app/response_cleaner.py:11-17 | Cleaning `#\n#` twice differs from cleaning it once. |
| `ResponseCleaner.RefactorResponse` | app/response_cleaner.py:20-38 | None of its own; see `RefactorDispatch`. |
| `ResponseCleaner.MapResult` | app/response_cleaner.py:33-38 | None of its own; see `RefactorDispatch` and `External.ToOption`. |
| `ResponseCleaner.RefactorDispatch` | app/response_cleaner.py:20-38 | There is exactly one model call. It is an Ollama POST iff the choice is not exactly `"OpenAI"`, to the default address without a key. The prompt is the fixed instruction followed by the text, and the text is also the additional context. The result is `None` iff the provider raised, and is the provider's text unchanged otherwise. |
| `External.ToOption` | app/response_cleaner.py:33-38 | An exception becomes `None`; a value is returned unchanged. |
| `LlmProvider.Provider.SendPrompt` | app/llm_provider.py:24-85 | `send_prompt` makes exactly one call to a model. It is an HTTP POST iff the provider is the local service. |
| `LlmProvider.GetDefaultProvider` | app/llm_provider.py:87-96 | Ollama iff the lower-cased name is `ollama`, built from the `api_url` argument or the default address and from the `api_key` argument or no key. OpenAI iff it is `openai` and an `api_key` argument is given, and then with that key. `openai` without an `api_key` argument is the `KeyError` for `api_key`. Any other name is an unsupported-provider error whose message is `Unsupported provider: ` followed by the name. |
| `LlmProvider.FactoryIgnoresCase` | app/llm_provider.py:88-93 | Lower-casing the name first does not change which provider the factory returns. |
| `LlmProvider.FactoryDefaults` | app/llm_provider.py:87-94 | Without keyword arguments, `ollama` gives the default address and no key. `openai` with a key gives that key, and `openai` without one is a `KeyError`. |
| `LlmProvider.ProviderFor` | app/response_cleaner.py:22-25 | Both callers, here and at app/log_analysis_buddy.py:42-45, pick OpenAI with the key passed through iff the choice is exactly `"OpenAI"`. Otherwise they pick Ollama at the default address with no key. The factory cannot fail for either choice. |
| `LlmProvider.Provider.AvailableModels` | app/llm_provider.py:21-22 | None of its own; see `AvailableModelsRoute`. |
| `LlmProvider.AvailableModelsRoute` | app/llm_provider.py:21-22 | Ollama lists `Ollama-gpt-4` and `Ollama-gpt-3.5`, and OpenAI lists `gpt-3.5-turbo` and `gpt-4` (lines 64-65). A listed model has the chat prefix iff the provider is OpenAI. |
| `LlmProvider.OllamaRequestShape` | app/llm_provider.py:25-33 | The request goes to `<api_url>/generate` and carries `model`, `prompt` and `additional_context` unchanged. `Content-Type` is always set. `Authorization: Bearer <key>` is present iff the key is truthy. |
| `LlmProvider.OllamaHeaders` | app/llm_provider.py:30-32 | None of its own; see `OllamaRequestShape`. |
| `External.Truthy` | app/llm_provider.py:31 | Python truthiness of a key: neither `None` nor `""`. None of its own; see `LlmProvider.OllamaRequestShape`. |
| `LlmProvider.OllamaRequestFor` | app/llm_provider.py:25-34 | None of its own; see `OllamaRequestShape`. |
| `LlmProvider.OllamaSend` | app/llm_provider.py:24-54 | None of its own; see `Provider.SendPrompt`, `OllamaSendPrompt` and `Non200IsError`. |
| `LlmProvider.OllamaReply` | app/llm_provider.py:36-54 | None of its own; see `Non200IsError`, `CollectFragments` and `NoResponseLeavesEmptyLine`. |
| `LlmProvider.ResponsePart` | app/llm_provider.py:42 | `data.get("response", "")`: an absent member gives the empty string, a string member gives that string, and any other value gives a fragment that the join rejects. |
| `LlmProvider.FragmentOf` | app/llm_provider.py:38-46 | None of its own; see `FragmentOfText`, `FragmentOfNoResponse` and `SkipsBadLine`. |
| `LlmProvider.FragmentOfText` | app/llm_provider.py:38-44 | A non-blank line that decodes to an object with a string `response` contributes exactly that string. |
| `LlmProvider.FragmentOfNoResponse` | app/llm_provider.py:38-44 | A non-blank line that decodes to an object without `response` still contributes one fragment, the empty string. |
| `LlmProvider.Fragments` | app/llm_provider.py:36-46 | None of its own; see `FragmentsAppend`, `FragmentsInOrder` and `CollectFragments`. |
| `LlmProvider.FragmentsAppend` | app/llm_provider.py:37-46 | The fragments of two runs of lines are the fragments of each, in line order. |
| `LlmProvider.FragmentOfSingle` | app/llm_provider.py:39-46 | One line contributes exactly its own fragment. |
| `LlmProvider.SkipsBadLine` | app/llm_provider.py:39-46 | A blank, undecodable or non-object line contributes nothing and does not disturb the lines around it. |
| `LlmProvider.FragmentsInOrder` | app/llm_provider.py:37-46 | Lines that decode to objects with string `response` fields give those strings, in line order. |
| `LlmProvider.FragmentTexts` | app/llm_provider.py:49 | The join succeeds iff every fragment is a string. The joined parts are then exactly the fragments' strings. |
| `LlmProvider.JoinFragments` | app/llm_provider.py:49-51 | None of its own; see `FragmentTexts`, `JoinFragmentsByLine` and `NoResponseLeavesEmptyLine`. |
| `LlmProvider.JoinFragmentsByLine` | app/llm_provider.py:49-51 | Three text fragments join with a line break between each pair; only the ends of the whole text are stripped, so whitespace at the edges of the middle fragment is kept. |
| `LlmProvider.NoResponseLeavesEmptyLine` | app/llm_provider.py:38-51 | Text `a`, an object without `response`, then text `b` give `a`, an empty line and `b`: the reply is `a + "\n" + "\n" + b`. |
| `LlmProvider.Non200IsError` | app/llm_provider.py:53-54 | Any status other than 200 is an API error, whatever the body's lines would decode to. The message is `Ollama API error: <status> <body>`, its digits read back as the status, and it ends with the body. |
| `LlmProvider.CollectFragments` | app/llm_provider.py:37-46 | The loop's list is exactly the fragments of the lines. |
| `LlmProvider.OllamaSendPrompt` | app/llm_provider.py:24-54 | The imperative `send_prompt` does what the spec function `OllamaSend` does: one POST, then reply handling. |
| `LlmProvider.OpenAISend` | app/llm_provider.py:67-85 | None of its own; see `OpenAIRoute`. |
| `LlmProvider.FirstChoice` | app/llm_provider.py:77-85 | None of its own; see `OpenAIRoute`. |
| `LlmProvider.OpenAIRoute` | app/llm_provider.py:67-85 | The chat endpoint is used iff the model starts with `gpt-`, and the legacy endpoint otherwise. Both get `prompt + "\nAdditional Context: " + context`, temperature 0.4 and 1500 tokens. The result is the first choice's text. |
| `Text.Strip` | app/llm_provider.py:51 | `strip()` is empty iff the text is all whitespace; otherwise it begins and ends with non-whitespace. |
| `Text.StripIsSlice` | app/llm_provider.py:51 | `strip()` is the slice of the text that follows the leading whitespace run, and only whitespace follows it. With `Text.Strip`, this fixes the result: the text with its leading and trailing whitespace removed and nothing else. |
| `Text.StripKeeps` | app/llm_provider.py:51 | Stripping a text that begins and ends with non-whitespace changes nothing. |
| `Text.IsSpace` | app/response_cleaner.py:13 | The whitespace set of `str.isspace`, which `split()`, `strip()` (app/llm_provider.py:38-39, 51) and the `\s` of app/response_cleaner.py:17 all use. None of its own: it is that set, written out. |
| `Text.Words` | app/response_cleaner.py:13 | `split()` gives non-empty words that contain no whitespace. Which words they are is pinned by `ResponseCleaner.WordsOfJoin`, `ResponseCleaner.WordsAround`, `ResponseCleaner.WordStart`, `Text.WordsKeepNonSpace` and `Text.WordsEmptyIff`. |
| `Text.WordsKeepNonSpace` | app/response_cleaner.py:13 | `split()` keeps every non-whitespace character, in order. |
| `Text.WordsEmptyIff` | app/response_cleaner.py:13 | `split()` is empty iff the text is all whitespace. |
| `Text.SplitLines` | app/response_cleaner.py:11 | No line from `splitlines()` contains a line break. |
| `Text.Join` | app/response_cleaner.py:13-15 | `sep.join(parts)`, also at app/llm_provider.py:49 and app/log_analysis_buddy.py:14-15. None of its own; see `Text.JoinCons`, `Text.JoinEmptyIff`, `Text.JoinAvoids`, `Text.JoinSplitLines`, `Text.SplitLinesJoin` and `ResponseCleaner.WordsOfJoin`. |
| `Text.JoinCons` | app/response_cleaner.py:13-15 | Joining a first part and a non-empty rest is the first part, the separator, then the join of the rest. |
| `Text.JoinSplitLines` | app/response_cleaner.py:11-15 | Joining the lines with `\n` restores the text, without a final line break if it had one. |
| `Text.SplitLinesJoin` | app/log_analysis_buddy.py:14-15 | Lines without breaks, the last one non-empty, come back from their join unchanged. |
| `Text.JoinAvoids` | app/log_analysis_buddy.py:14 | A character that is in neither the separator nor any part is not in the join. |
| `Text.JoinEmptyIff` | app/log_analysis_buddy.py:34 | With a non-empty separator, the join is empty iff there are no parts or one empty part. |
| `Text.Lower` | app/llm_provider.py:88 | `lower()` keeps the length and lower-cases each character. |
| `Text.LowerIdempotent` | app/llm_provider.py:88-93 | Lower-casing twice is lower-casing once. |
| `Text.Decimal` | app/llm_provider.py:54 | `str(status_code)`: a non-empty string of decimal digits; `Text.DecimalRoundTrip` states that it reads back as the number. |
| `Text.StartsWith` | app/llm_provider.py:70 | None of its own; see `LlmProvider.OpenAIRoute`, where the `gpt-` prefix picks the chat route. |
| `Text.DecimalRoundTrip` | app/llm_provider.py:54 | The decimal rendering of the status code reads back as that number. |
| `LogAnalysisBuddy.LogText` | app/log_analysis_buddy.py:12-15 | None of its own; see `RecordLines`, `LogTextLines` and `LogTextEmpty`. |
| `LogAnalysisBuddy.ReadLogFile` | app/log_analysis_buddy.py:9-18 | None of its own; see `ReadFailureIsEmpty`. |
| `LogAnalysisBuddy.RecordLines` | app/log_analysis_buddy.py:14 | There is one line per CSV record, in order: its fields joined with a space. |
| `LogAnalysisBuddy.LogTextLines` | app/log_analysis_buddy.py:12-15 | The records come back out of the text one line each, in the original order, provided no field holds a line break and the last record has text. |
| `LogAnalysisBuddy.LogTextEmpty` | app/log_analysis_buddy.py:14-15 | The text is empty iff there is no record, or one record that has no fields or a single empty field. |
| `LogAnalysisBuddy.ReadFailureIsEmpty` | app/log_analysis_buddy.py:9-18 | The log is read once. A read or parse failure gives `""` and is never raised. |
| `LogAnalysisBuddy.AnalysisPrompt` | app/log_analysis_buddy.py:38 | The prompt is the fixed instruction, then the log text unchanged, then `\n\nAdditional context: ` and the context. |
| `LogAnalysisBuddy.AnalyzeLogs` | app/log_analysis_buddy.py:20-53 | None of its own; see `MissingFileStopsEarly`, `ProviderCalledIff`, `AnalysisDispatch`, `OpenAIKeyNotChecked` and `AnalysisResultIff`. |
| `LogAnalysisBuddy.MissingFileStopsEarly` | app/log_analysis_buddy.py:29-31 | A missing file gives `None` after the existence check alone: nothing is read and no model is called. |
| `LogAnalysisBuddy.ProviderCalledIff` | app/log_analysis_buddy.py:29-48 | A model is called iff the file exists and its text is not empty. Empty text gives `None` after just the check and the read. Otherwise the model call comes third and last. |
| `LogAnalysisBuddy.AnalysisDispatch` | app/log_analysis_buddy.py:42-48 | The call is an Ollama POST iff the choice is not exactly `"OpenAI"`. It goes to the default address, with no key, carrying the prompt and an empty additional context. Otherwise the SDK call gets the key as given. |
| `LogAnalysisBuddy.OpenAIKeyNotChecked` | app/log_analysis_buddy.py:42-43 | With the OpenAI choice, a `None` or empty key still reaches a chat or completion request. |
| `LogAnalysisBuddy.AnalysisResultIff` | app/log_analysis_buddy.py:47-53 | There is a result iff the file exists, its text is not empty and the provider answers. The result is the provider's text unchanged. |

## Left out

- HTTP transport, the OpenAI SDK, JSON decoding and CSV parsing are functions of `External.World`:
  - their behaviour is given, not specified;
  - a CSV reader failure and an `open` failure are the same `None`.
- CSV quoting can put a line break inside a field. `LogAnalysisBuddy.LogTextLines` therefore requires fields without line breaks; the other lemmas do not.
- `splitlines` is modelled with `\n` as its only line break. Python also splits at `\r`, `\r\n`, `\v`, `\f`, `\x1c`-`\x1e`, `\x85`, `\u2028` and `\u2029`. The whitespace set of `split`, `strip` and `\s` is Python's full `isspace` set.
- `lower()` is modelled for ASCII letters only. Other letters are left as they are.
- OpenAI temperature and token limit are the constants 0.4 and 1500, carried in the request and never computed with.
- `OpenAIProvider.__init__` sets the SDK's module-level key, and an `import openai` can fail. The model puts the key in each request instead, and does not model the import.
- An SDK reply whose message content is not a string is not modelled: a choice's text is a string.
- Logging calls are not modelled.
- The `if __name__ == '__main__':` console front end of `app/log_analysis_buddy.py` (lines 55-85) is interactive I/O and is not modelled.
- The Streamlit page `app/lab_app.py` and the Ollama management helpers `app/ollama_utils.py` are not part of this model. They are presentation, subprocess and socket code.
- Pretty-printing the result as JSON and checking the credential before an OpenAI call are not done by the code and are not modelled.
- `ResponseCleaner.HeadingSub`: its own contract states only emptiness and the first character. What the substitution does is stated by the lemmas next to it: match, copy, idempotence, non-whitespace and space rule.
- `LlmProvider.Provider.SendPrompt`: its own contract states only the number and kind of calls. The requests and results of each back end are stated by `OllamaSendPrompt`, `OllamaRequestShape` and `OpenAIRoute`.
