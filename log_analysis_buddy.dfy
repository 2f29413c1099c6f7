/**
 * The log-analysis workflow: read a CSV log into text, build the security
 * analysis prompt around it and the analyst's context, and hand it to the
 * chosen provider. Every failure ends in `None`; a missing file or an empty
 * log ends it before any model is called.
 */
module LogAnalysisBuddy {
  import opened Wrappers
  import opened Text
  import opened External
  import opened LlmProvider

  /** One text line per CSV record: its fields joined with a space. */
  function RecordLines(rows: seq<seq<string>>): (lines: seq<string>)
    ensures |lines| == |rows|
    ensures forall i :: 0 <= i < |rows| ==> lines[i] == Join(" ", rows[i])
  {
    seq(|rows|, i requires 0 <= i < |rows| => Join(" ", rows[i]))
  }

  /** The text of a log: its record lines joined with line breaks. */
  function LogText(rows: seq<seq<string>>): string {
    Join("\n", RecordLines(rows))
  }

  /** `read_log_file`: the log's text, or `""` when the file cannot be opened or parsed. */
  function ReadLogFile(path: string, w: World): Run<string> {
    var text := match w.readCsv(path)
      case None => ""
      case Some(rows) => LogText(rows);
    Run(text, [ReadCsv(path)])
  }

  /**
   * The records come back out of the text in order, one line each, as long as no field
   * holds a line break and the last record has some text.
   */
  lemma LogTextLines(rows: seq<seq<string>>)
    requires forall i, j :: 0 <= i < |rows| && 0 <= j < |rows[i]| ==> '\n' !in rows[i][j]
    requires rows == [] || Join(" ", rows[|rows| - 1]) != ""
    ensures SplitLines(LogText(rows)) == RecordLines(rows)
  {
    var lines := RecordLines(rows);
    forall i | 0 <= i < |rows| ensures '\n' !in lines[i] {
      JoinAvoids(" ", rows[i], '\n');
    }
    SplitLinesJoin(lines);
  }

  /** The text is empty exactly for a log with no record, or one record with no text in it. */
  lemma LogTextEmpty(rows: seq<seq<string>>)
    ensures LogText(rows) == "" <==> rows == [] || (|rows| == 1 && (rows[0] == [] || rows[0] == [""]))
  {
    JoinEmptyIff("\n", RecordLines(rows));
    if |rows| == 1 {
      JoinEmptyIff(" ", rows[0]);
    }
  }

  /** A file that cannot be read gives the empty text, after exactly one read. */
  lemma ReadFailureIsEmpty(path: string, w: World)
    ensures ReadLogFile(path, w).calls == [ReadCsv(path)]
    ensures w.readCsv(path).None? ==> ReadLogFile(path, w).result == ""
    ensures w.readCsv(path).Some? ==> ReadLogFile(path, w).result == LogText(w.readCsv(path).value)
  {
  }

  const AnalysisInstruction := "Perform a detailed security analysis of these logs:\n"

  /** The prompt: the instruction, the log text, a blank line and the analyst's context. */
  function AnalysisPrompt(contents: string, context: string): (prompt: string)
    ensures |prompt| == |AnalysisInstruction| + |contents| + |"\n\nAdditional context: "| + |context|
    ensures StartsWith(prompt, AnalysisInstruction)
    ensures prompt[|AnalysisInstruction|..|AnalysisInstruction| + |contents|] == contents
    ensures prompt[|AnalysisInstruction| + |contents|..] == "\n\nAdditional context: " + context
  {
    AnalysisInstruction + contents + "\n\nAdditional context: " + context
  }

  /**
   * `analyze_logs`: check the file exists, read it, give up on an empty text, else send the
   * prompt to the provider picked by the exact choice "OpenAI" (anything else is the local
   * service), with no separate context, and turn an exception into `None`.
   */
  function AnalyzeLogs(choice: string, apiKey: Credential, path: string, context: string, model: string, w: World): Run<Option<string>> {
    if !w.pathExists(path) then
      Run(None, [PathExists(path)])
    else
      var read := ReadLogFile(path, w);
      if read.result == "" then
        Run(None, [PathExists(path)] + read.calls)
      else
        var provider := ProviderFor(choice, apiKey).value;
        var sent := provider.SendPrompt(model, AnalysisPrompt(read.result, context), "", w);
        Run(ToOption(sent.result), [PathExists(path)] + read.calls + sent.calls)
  }

  /** The text the analysis would send, when there is one to send. */
  function LogContents(path: string, w: World): string {
    ReadLogFile(path, w).result
  }

  /** A missing file: `None`, and nothing is read and no model is called. */
  lemma MissingFileStopsEarly(choice: string, apiKey: Credential, path: string, context: string, model: string, w: World)
    requires !w.pathExists(path)
    ensures AnalyzeLogs(choice, apiKey, path, context, model, w) == Run(None, [PathExists(path)])
  {
  }

  /** A model is called exactly when the file exists and its text is not empty; the call comes last. */
  lemma ProviderCalledIff(choice: string, apiKey: Credential, path: string, context: string, model: string, w: World)
    ensures var run := AnalyzeLogs(choice, apiKey, path, context, model, w);
      && ((exists i :: 0 <= i < |run.calls| && IsProviderCall(run.calls[i])) <==> w.pathExists(path) && LogContents(path, w) != "")
      && (w.pathExists(path) && LogContents(path, w) == "" ==> run == Run(None, [PathExists(path), ReadCsv(path)]))
      && (w.pathExists(path) && LogContents(path, w) != "" ==>
            |run.calls| == 3 && run.calls[..2] == [PathExists(path), ReadCsv(path)] && IsProviderCall(run.calls[2]))
  {
    var run := AnalyzeLogs(choice, apiKey, path, context, model, w);
    if w.pathExists(path) && LogContents(path, w) != "" {
      SendingCalls(choice, apiKey, path, context, model, w);
      assert IsProviderCall(run.calls[2]);
    } else {
      assert forall i :: 0 <= i < |run.calls| ==> !IsProviderCall(run.calls[i]);
    }
  }

  /** When a prompt is sent, the calls are the existence check, the read and one model call. */
  lemma SendingCalls(choice: string, apiKey: Credential, path: string, context: string, model: string, w: World)
    requires w.pathExists(path) && LogContents(path, w) != ""
    ensures var run := AnalyzeLogs(choice, apiKey, path, context, model, w);
      |run.calls| == 3 && run.calls[..2] == [PathExists(path), ReadCsv(path)] && IsProviderCall(run.calls[2])
  {
    var read := ReadLogFile(path, w);
    var provider := ProviderFor(choice, apiKey).value;
    var sent := provider.SendPrompt(model, AnalysisPrompt(read.result, context), "", w);
    var calls := [PathExists(path)] + read.calls + sent.calls;
    assert AnalyzeLogs(choice, apiKey, path, context, model, w).calls == calls;
    assert read.calls == [ReadCsv(path)] && |sent.calls| == 1;
    assert calls[..2] == [PathExists(path), ReadCsv(path)] && calls[2] == sent.calls[0];
  }

  /**
   * Which provider gets the prompt and with what: the local service at its default address,
   * keyless, with an empty context, unless the choice is exactly "OpenAI", in which case the
   * SDK gets the key as given and the prompt followed by an empty additional context.
   */
  lemma AnalysisDispatch(choice: string, apiKey: Credential, path: string, context: string, model: string, w: World)
    requires w.pathExists(path) && LogContents(path, w) != ""
    ensures var run := AnalyzeLogs(choice, apiKey, path, context, model, w);
      var prompt := AnalysisPrompt(LogContents(path, w), context);
      && (run.calls[2].Post? <==> choice != "OpenAI")
      && (choice != "OpenAI" ==>
            var request := OllamaRequestFor(DefaultApiUrl, None, model, prompt, "");
            && run.calls[2] == Post(request)
            && request.payload["prompt"] == prompt
            && request.payload["additional_context"] == ""
            && "Authorization" !in request.headers
            && run.result == ToOption(OllamaReply(w.post(request), w.parseJson)))
      && (choice == "OpenAI" ==>
            var sent := OpenAISend(apiKey, model, prompt, "", w);
            run.calls[2..] == sent.calls && run.result == ToOption(sent.result))
  {
    var prompt := AnalysisPrompt(LogContents(path, w), context);
    OllamaRequestShape(DefaultApiUrl, None, model, prompt, "");
  }

  /**
   * The key is not checked before the call: with the OpenAI choice, a key that is `None` or
   * empty still reaches the SDK, in a chat or completion request that carries it.
   */
  lemma OpenAIKeyNotChecked(apiKey: Credential, path: string, context: string, model: string, w: World)
    requires w.pathExists(path) && LogContents(path, w) != ""
    requires !Truthy(apiKey)
    ensures var run := AnalyzeLogs("OpenAI", apiKey, path, context, model, w);
      && |run.calls| == 3
      && (run.calls[2].Chat? || run.calls[2].Complete?)
      && (run.calls[2].Chat? ==> run.calls[2].chatRequest.apiKey == apiKey)
      && (run.calls[2].Complete? ==> run.calls[2].completionRequest.apiKey == apiKey)
  {
    var prompt := AnalysisPrompt(LogContents(path, w), context);
    OpenAIRoute(apiKey, model, prompt, "", w);
  }

  /** The analysis has a result exactly when the file exists, its text is not empty and the provider answers. */
  lemma AnalysisResultIff(choice: string, apiKey: Credential, path: string, context: string, model: string, w: World)
    ensures var run := AnalyzeLogs(choice, apiKey, path, context, model, w);
      var sent := ProviderFor(choice, apiKey).value.SendPrompt(model, AnalysisPrompt(LogContents(path, w), context), "", w);
      && (run.result.Some? <==> w.pathExists(path) && LogContents(path, w) != "" && sent.result.Ok?)
      && (run.result.Some? ==> run.result.value == sent.result.value)
  {
  }
}
