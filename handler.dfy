/// `handle_action` (main.py): what one hotkey press does. Read the clipboard,
/// stop on blank text, stop when the block predicate says so, build the request,
/// call the model, stop on failure, then write the (optionally headed) result to
/// the clipboard and optionally paste it.
///
/// The side effects are returned as a trace of `Effect`s in the order they
/// happen. The clipboard text, the block predicate (`should_block_send`, whose
/// definition is not part of this model) and the model client are parameters.
module Handler {
  import opened PyStr
  import opened Actions

  /** The system prompt every request carries. */
  const SystemPrompt: string := "You are a helpful assistant."

  /** What separates the stripped prompt from the clipboard text: the blank
      line the handler puts after the prompt, then the input header it puts in
      front of the clipboard text. */
  const InputSeparator: string := "\n\n=== Input ===\n"

  /** `max_tokens` when the action has none. */
  const DefaultMaxTokens: int := 800

  /** The application settings `handle_action` reads. */
  datatype AppConfig = AppConfig(addResultHeader: Option<bool>, autoPasteDefault: Option<bool>)

  /** The arguments of `client.chat_completion` (the temperature is not modelled). */
  datatype Request = Request(model: string, systemPrompt: string, userPrompt: string, maxTokens: int)

  /** What `chat_completion` does: return the text, or raise. */
  datatype Reply = Ok(text: string) | Fail

  /** A side effect of the handler. */
  datatype Effect =
    | Chat(request: Request)      // the call to the model client
    | WriteClipboard(text: string)
    | AutoPaste                   // `maybe_auto_paste()`: the simulated Ctrl+V

  /** How `handle_action` ends. `Crashed` is a `KeyError` that escapes the
      handler, for an action without a `prompt` or without a `name`. */
  datatype Outcome =
    | EmptyClipboard
    | Blocked
    | Crashed(key: string)
    | LlmFailed
    | Done(written: string, pasted: bool)

  /** `action.get("model") or client.default_model`. */
  function ResolveModel(model: Option<string>, defaultModel: string): (m: string)
    ensures Truthy(model) ==> m == model.value
    ensures !Truthy(model) ==> m == defaultModel
    ensures m == "" ==> defaultModel == ""
  {
    if Truthy(model) then model.value else defaultModel
  }

  /** `action.get("auto_paste", app_cfg.get("auto_paste_default", False))`:
      the action's key wins whenever present, even when it is false. */
  function AutoPasteEnabled(action: Action, app: AppConfig): (b: bool)
    ensures action.autoPaste.Some? ==> b == action.autoPaste.value
    ensures action.autoPaste.None? ==> b == (app.autoPasteDefault == Some(true))
  {
    action.autoPaste.GetOr(app.autoPasteDefault.GetOr(false))
  }

  /** The request for an action that has a prompt: the resolved model, the
      fixed system prompt, the stripped prompt and the clipboard text joined by
      `InputSeparator`, and the action's token budget or the default. */
  function RequestFor(action: Action, defaultModel: string, clip: string): (r: Request)
    requires action.prompt.Some?
    ensures r.systemPrompt == SystemPrompt
    ensures r.model == ResolveModel(action.model, defaultModel)
    ensures action.maxTokens.None? ==> r.maxTokens == DefaultMaxTokens
    ensures action.maxTokens.Some? ==> r.maxTokens == action.maxTokens.value
  {
    Request(ResolveModel(action.model, defaultModel), SystemPrompt,
            Strip(action.prompt.value) + InputSeparator + clip,
            action.maxTokens.GetOr(DefaultMaxTokens))
  }

  /** The user message ends with the clipboard text, unchanged, and starts with
      the stripped prompt and the separator. */
  lemma {:induction false} UserPromptLayout(action: Action, defaultModel: string, clip: string)
    requires action.prompt.Some?
    ensures var u := RequestFor(action, defaultModel, clip).userPrompt;
            && |u| == |Strip(action.prompt.value)| + |InputSeparator| + |clip|
            && u[..|u| - |clip|] == Strip(action.prompt.value) + InputSeparator
            && u[|u| - |clip|..] == clip
  {
    var p := Strip(action.prompt.value) + InputSeparator;
    assert RequestFor(action, defaultModel, clip).userPrompt == p + clip;
    assert (p + clip)[..|p|] == p;
    assert (p + clip)[|p|..] == clip;
  }

  /** The text written to the clipboard: the reply, headed by `[name]` and a
      line break when `add_result_header` is set. */
  function Written(app: AppConfig, name: string, reply: string): (w: string)
    ensures app.addResultHeader == Some(true) ==> w == "[" + name + "]\n" + reply
    ensures app.addResultHeader != Some(true) ==> w == reply
  {
    if app.addResultHeader.GetOr(false) then "[" + name + "]\n" + reply else reply
  }

  /** The effects happen in the only order the handler allows: at most one
      model call, a clipboard write only after it, a paste only after the write. */
  predicate WellOrdered(effects: seq<Effect>) {
    && |effects| <= 3
    && (|effects| >= 1 ==> effects[0].Chat?)
    && (|effects| >= 2 ==> effects[1].WriteClipboard?)
    && (|effects| == 3 ==> effects[2] == AutoPaste)
  }

  /** What `handle_action(action, client, app_cfg)` does with the clipboard
      holding `clip`: how it ends and the effects it has, in order. Every run's
      effects are well ordered. */
  function Handle(action: Action, app: AppConfig, defaultModel: string, clip: string,
                  shouldBlock: string -> bool, chat: Request -> Reply): (r: (Outcome, seq<Effect>))
    ensures WellOrdered(r.1)
  {
    if IsBlank(clip) then (EmptyClipboard, [])
    else if shouldBlock(clip) then (Blocked, [])
    else if action.prompt.None? then (Crashed("prompt"), [])
    else if action.name.None? then (Crashed("name"), [])
    else
      var request := RequestFor(action, defaultModel, clip);
      var reply := chat(request);
      if reply.Fail? then (LlmFailed, [Chat(request)])
      else
        var written := Written(app, action.name.value, reply.text);
        var pasted := AutoPasteEnabled(action, app);
        (Done(written, pasted),
         [Chat(request), WriteClipboard(written)] + (if pasted then [AutoPaste] else []))
  }

  /** `handle_action` step by step, in the order of main.py. */
  method HandleAction(action: Action, app: AppConfig, defaultModel: string, clip: string,
                      shouldBlock: string -> bool, chat: Request -> Reply)
    returns (outcome: Outcome, effects: seq<Effect>)
    ensures (outcome, effects) == Handle(action, app, defaultModel, clip, shouldBlock, chat)
    ensures WellOrdered(effects)
  {
    var text := clip;
    if Strip(text) == "" {
      return EmptyClipboard, [];
    }
    if shouldBlock(text) {
      return Blocked, [];
    }
    if action.prompt.None? {
      return Crashed("prompt"), [];
    }
    var request := RequestFor(action, defaultModel, text);
    if action.name.None? {
      // the f-string of the log line reads action['name'] before the call
      return Crashed("name"), [];
    }
    effects := [Chat(request)];
    var reply := chat(request);
    if reply.Fail? {
      return LlmFailed, effects;
    }
    var result := Written(app, action.name.value, reply.text);
    var autoPaste := AutoPasteEnabled(action, app);
    effects := [Chat(request), WriteClipboard(result)] + (if autoPaste then [AutoPaste] else []);
    return Done(result, autoPaste), effects;
  }

  /** The early exits, in the order they are tested, and none of them has an effect. */
  lemma HandleEarlyExits(action: Action, app: AppConfig, defaultModel: string, clip: string,
                         shouldBlock: string -> bool, chat: Request -> Reply)
    ensures var (outcome, effects) := Handle(action, app, defaultModel, clip, shouldBlock, chat);
            && (outcome == EmptyClipboard <==> IsBlank(clip))
            && (outcome == Blocked <==> !IsBlank(clip) && shouldBlock(clip))
            && (outcome.Crashed? <==>
                  !IsBlank(clip) && !shouldBlock(clip) && (action.prompt.None? || action.name.None?))
            && (outcome.Crashed? ==> outcome.key == if action.prompt.None? then "prompt" else "name")
            && (outcome == EmptyClipboard || outcome == Blocked || outcome.Crashed? ==> effects == [])
  {
  }

  /** When the model is called, it is called once, first, with `RequestFor`;
      a failing call leaves the clipboard alone. */
  lemma HandleCallsModel(action: Action, app: AppConfig, defaultModel: string, clip: string,
                         shouldBlock: string -> bool, chat: Request -> Reply)
    ensures var (outcome, effects) := Handle(action, app, defaultModel, clip, shouldBlock, chat);
            (outcome.LlmFailed? || outcome.Done?) ==>
              && action.prompt.Some? && action.name.Some?
              && |effects| >= 1
              && effects[0] == Chat(RequestFor(action, defaultModel, clip))
              && (outcome.LlmFailed? <==> chat(RequestFor(action, defaultModel, clip)).Fail?)
              && (outcome.LlmFailed? ==> effects == [Chat(RequestFor(action, defaultModel, clip))])
  {
  }

  /** A non-blank clipboard that is not blocked, an action with a prompt and a
      name, and a model call that returns always end in success: the clipboard
      gets the (optionally headed) reply right after the call, and a paste
      follows exactly when `AutoPasteEnabled` holds. */
  lemma HandleDone(action: Action, app: AppConfig, defaultModel: string, clip: string,
                   shouldBlock: string -> bool, chat: Request -> Reply)
    requires !IsBlank(clip) && !shouldBlock(clip)
    requires action.prompt.Some? && action.name.Some?
    requires chat(RequestFor(action, defaultModel, clip)).Ok?
    ensures var (outcome, effects) := Handle(action, app, defaultModel, clip, shouldBlock, chat);
            var written := Written(app, action.name.value, chat(RequestFor(action, defaultModel, clip)).text);
            && outcome == Done(written, AutoPasteEnabled(action, app))
            && |effects| >= 2 && effects[1] == WriteClipboard(written)
            && (AutoPaste in effects <==> AutoPasteEnabled(action, app))
  {
    var (outcome, effects) := Handle(action, app, defaultModel, clip, shouldBlock, chat);
    var request := RequestFor(action, defaultModel, clip);
    var written := Written(app, action.name.value, chat(request).text);
    if AutoPasteEnabled(action, app) {
      assert effects == [Chat(request), WriteClipboard(written), AutoPaste];
    } else {
      assert effects == [Chat(request), WriteClipboard(written)];
    }
  }
}
