# clipai core in Dafny

clipai is a desktop helper. A hotkey press takes the clipboard text, sends it
to a language model together with the prompt of a configured *action*, and
puts the answer back on the clipboard, pasting it if asked. This project
models and proves the decision logic of that program:

- **the safety filter** `apply_safety` and `DEFAULT_PATTERNS` (module `Safety`,
  `safety.dfy`). It resolves a missing or empty mode to `block` and a missing
  or empty pattern list to the defaults, lower-cases the mode, makes one pass
  over the patterns that records hits and, in mask mode, redacts as it goes,
  and then returns `allow`, `block` or `mask`. `ScanLoop` is the loop, proved
  equal to the recursive scan `ScanPatterns`; `ApplySafety` resolves the
  inputs, runs it and chooses the verdict, proved equal to `Evaluate`. The
  three mode comparisons are made once, by `FilterOf`. Regular expressions are parameters (`matches` for `re.search`,
  `redact` for `re.sub`), so each lemma holds for any engine. A literal-substring
  engine built on `PyStr.Replace` gives concrete instances.
- **the template renderer** `render_template` (module `Templates`,
  `templates.dfy`). `None` renders as `""`. Otherwise `str.replace` of
  `{{key}}` by its value is folded over the context items in insertion order.
  `RenderTemplate` is the loop, proved equal to the fold `Substitute`.
- **the action map** `build_action_map` (module `Actions`, `actions.dfy`). It
  keys each action record by its id, skipping a missing or empty id, and the
  last duplicate wins.
- **the hotkey handler** `handle_action` (module `Handler`, `handler.dfy`). It
  stops on a blank clipboard, then on the block predicate, builds the request,
  calls the model, and on success writes the reply to the clipboard, optionally
  with a `[name]` header, and optionally pastes. The clipboard text, the block
  predicate and the model client are parameters. The handler returns how it
  ended (`Outcome`) and the trace of its side effects (`Effect`: the model call
  with its request, the clipboard write, the paste). `HandleAction` is the
  step-by-step method; `Handle` is its reference definition, and the lemmas
  beside it state what the handler promises.
- **Python string operations** the core relies on (module `PyStr`, `pystr.dfy`):
  `str.strip` over Python's whitespace set, `str.lower` for the characters
  that matter (see Left out), and `str.replace` with all non-overlapping
  occurrences left to right, including the empty-needle case. `Count` is the
  number of occurrences that `str.replace` rewrites; it is used to state how a
  replacement changes the length.

## Model

| member | source | states |
|---|---|---|
| Safety.ResolvePatterns | clipai/safety.py:3-12 | the pattern list is never empty: it is the caller's list when that is given and non-empty, otherwise `DEFAULT_PATTERNS` |
| Safety.ResolveMode | clipai/safety.py:13 | a missing or empty mode resolves to `block`, any other mode to its lower-case form; the resolved mode is always in lower case |
| Safety.ScanPatterns | clipai/safety.py:18-24 | the scan reports no more hits than there are patterns (that each position gives at most one hit is `HitsAreSubsequence`); without masking it never changes the text; with no hit the text comes back unchanged |
| Safety.Decide | clipai/safety.py:15-32 | `off` and an unrecognised mode allow the original text; `block` comes only from block mode and keeps the text; `mask` comes only from mask mode; `allow` always carries the original text; a `block` or `mask` reports at least one hit and no more hits than patterns |
| Safety.Evaluate | clipai/safety.py:11-32 | mode `off`, in any letter case, allows the original text whatever the patterns match; a mode other than `off`, `block` and `mask` allows the original text even when patterns match |
| Safety.ApplySafety | clipai/safety.py:11-32 | the function returns exactly the verdict `Evaluate` defines from the resolved mode, the resolved patterns and the one-pass scan |
| Safety.ScanLoop | clipai/safety.py:18-24 | the loop that appends hits and rebinds the masked text ends with exactly the hits and the text of the scan `ScanPatterns` |
| Safety.DefaultModeIsBlock | clipai/safety.py:11-13 | a missing mode, an empty mode and `block` give the same verdict |
| Safety.ModeLetterCase | clipai/safety.py:13 | a mode and its lower-case form give the same verdict |
| Safety.HitsAreSubsequence | clipai/safety.py:18-22 | the hits are a subsequence of the pattern list: in list order, each position contributing at most once |
| Safety.ScanWithoutMasking | clipai/safety.py:18-24 | when not masking, the scanned text is never changed and the hits are exactly the patterns found in the text, in list order |
| Safety.HitIffAnyMatch | clipai/safety.py:18-24 | in either mode there is a hit exactly when some pattern is found in the original text, and with no hit the text is unchanged |
| Safety.BlockMode | clipai/safety.py:18-27 | in block mode the verdict is `block` with the text unchanged and the matching patterns in list order exactly when some pattern matches, and `allow` with the original text otherwise |
| Safety.MaskMode | clipai/safety.py:19-30 | in mask mode the verdict is `mask` exactly when some pattern matches the original text; it then carries the sequentially redacted text and the non-empty hits, a subsequence of the patterns; otherwise `allow` with the original text |
| Safety.VerdictShape | clipai/safety.py:26-32 | `block` occurs only in block mode and keeps the text; `mask` only in mask mode; `allow` always returns the original text; reported hits are non-empty and a subsequence of the patterns |
| Safety.LiteralBlockExample | clipai/safety.py:18-27 | with the literal engine, block mode on `my password is 1234` and the pattern `password` blocks, keeps the text and reports that pattern |
| Safety.LiteralSinglePatternMask | clipai/safety.py:19-30 | with the literal engine and one pattern found in the text, mask mode returns the text with every occurrence replaced by `[REDACTED]` and that pattern as the one hit |
| Templates.Placeholder | clipai/templates.py:7 | the placeholder of key `k` is `{{`, then `k`, then `}}`, four characters longer than `k` |
| Templates.Substitute | clipai/templates.py:5-8 | the fold of the replacements over the items in insertion order; a text in which none of the context's placeholders occurs comes back unchanged, whatever the values |
| Templates.Render | clipai/templates.py:2-8 | `None` renders as `""`; a text without `{{` renders to itself for every context |
| Templates.RenderTemplate | clipai/templates.py:2-8 | the loop returns the left fold of the replacements over the context in insertion order; `None` gives `""`; an empty context gives the text itself |
| Templates.SubstituteConcat | clipai/templates.py:6-7 | folding over two concatenated contexts is folding over the first, then over the second |
| Templates.RenderAppend | clipai/templates.py:6-7 | appending an item to the context replaces its placeholder in the result of the earlier items |
| Templates.ReplaceAround | clipai/templates.py:7 | one replacement of a brace-free key passes over the placeholder of another brace-free name: the text on each side of it is replaced as if alone |
| Templates.UnknownPlaceholderKept | clipai/templates.py:5-8 | when every key is brace-free, a placeholder whose brace-free name is no key stays verbatim wherever it stands, and the text on each side of it renders as if alone |
| Templates.LonePlaceholderKept | clipai/templates.py:5-8 | a template that is just the placeholder of a brace-free name that is no key renders to itself, whatever the keys |
| Templates.BraceKeySwallowsPlaceholder | clipai/templates.py:7 | a key containing a brace can replace an unknown placeholder: with the key `{x` and the value `Z`, the template `{{{x}}` renders as `Z` |
| Templates.OtherPlaceholderAbsent | clipai/templates.py:7 | the placeholder of any other key never occurs inside the placeholder of a brace-free name |
| Templates.PlaceholderInjective | clipai/templates.py:7 | different keys have different placeholders |
| Templates.SelfValuedItemIsNeutral | clipai/templates.py:7 | an item whose value is its own placeholder, anywhere in the context, does not change the result |
| Templates.StepLength | clipai/templates.py:7 | one replacement step changes the length by the number of non-overlapping occurrences of the placeholder times the difference between the value's length and the placeholder's length |
| Templates.LaterItemSeesEarlierValue | clipai/templates.py:5-8 | order matters: a value inserted by an earlier item is rewritten by a later item's replacement, and not when the items come the other way round |
| PyStr.Strip | main.py:17 | `strip` returns the slice of the text that starts after its leading whitespace and has only whitespace after it, neither starting nor ending with whitespace, and is empty exactly when the text is blank |
| PyStr.Lower | clipai/safety.py:13 | one character for one, so the length is kept: `A`-`Z` and the Kelvin sign go to their lower case, every other character is unchanged |
| PyStr.LowerIdempotent | clipai/safety.py:13 | lower-casing twice is lower-casing once |
| PyStr.CountPositiveIffOccurs | clipai/templates.py:7 | a non-empty needle has a positive count exactly when it occurs |
| PyStr.ReplaceAbsent | clipai/templates.py:7 | replacing a non-empty needle that does not occur leaves the text unchanged |
| PyStr.ReplaceBySelf | clipai/templates.py:7 | replacing a needle by itself leaves the text unchanged |
| PyStr.Replace | clipai/templates.py:7 | `str.replace`: every non-overlapping occurrence of the needle, found left to right, is replaced; its properties are the `Replace` lemmas below |
| PyStr.ReplaceLength | clipai/templates.py:7 | `replace` changes the length by the occurrence count times the difference between the replacement's length and the needle's length |
| PyStr.ReplaceSplit | clipai/templates.py:7 | when no occurrence of a non-empty needle straddles the join of two texts, replacing in the joined text is replacing in each part and joining the results |
| Actions.BuildActionMap | clipai/actions.py:21-28 | `None` or an empty list gives an empty map; the keys are exactly the non-empty ids in the list; each stored record has its key as id and is the last record with that id |
| Actions.AppendRecord | clipai/actions.py:27 | appending a record adds its id to the ids that occur and makes it the last record with that id |
| Handler.ResolveModel | main.py:26 | the action's model when it is non-empty, otherwise the client's default model |
| Handler.AutoPasteEnabled | main.py:51 | the action's `auto_paste` wins whenever present, even when false; otherwise the application default, otherwise false |
| Handler.RequestFor | main.py:25-39 | the request carries the fixed system prompt, the resolved model, and the action's token budget or 800 when absent |
| Handler.UserPromptLayout | main.py:25-37 | the user prompt is the stripped prompt, a blank line, the `=== Input ===` header and the raw, unstripped clipboard text |
| Handler.Written | main.py:45-48 | the clipboard gets `[name]`, a line break and the reply when the header is enabled, otherwise the reply unchanged |
| Handler.Handle | main.py:15-53 | the reference definition of the handler's outcome and effects; every run's effects are well ordered: at most one model call, which comes first, a clipboard write only after it, and a paste only after the write |
| Handler.HandleAction | main.py:15-53 | the step-by-step handler ends as `Handle` says and its effects are well ordered |
| Handler.HandleEarlyExits | main.py:16-32 | a blank clipboard stops first, then the block predicate, then a missing `prompt` or `name` raises `KeyError`; none of these calls the model or touches the clipboard |
| Handler.HandleCallsModel | main.py:33-43 | the model is called once, with `RequestFor`; the handler fails exactly when that call fails, and then nothing is written or pasted |
| Handler.HandleDone | main.py:15-53 | a non-blank clipboard that is not blocked, an action with prompt and name, and a model call that returns always end in success; the clipboard then gets the (optionally headed) reply right after the call, and a paste happens exactly when `AutoPasteEnabled` holds |

## Left out

- Regular-expression semantics (`\b`, character classes, repetition, `re.IGNORECASE`) are not modelled. `re.search` and `re.sub` are the parameters `matches` and `redact`; the literal-substring engine is case-sensitive.
- PyStr.Lower: Python lower-cases many more characters (accented capitals, Greek, Cyrillic and others) than `A`-`Z` and the Kelvin sign; those are left unchanged here.
- Safety.ResolveMode: `str.lower` is modelled only for `A`-`Z` and the Kelvin sign, the characters whose lower case is an ASCII letter. Every other character is left as it is. So the comparisons with `off`, `block` and `mask` agree with Python, but the resolved mode string may not.
- Handler.HandleAction: `temperature` (main.py:27) is not modelled, because it is a float. The same goes for the exceptions `float()` and `int()` raise on malformed values, and `max_tokens` is taken as an already-converted integer.
- Handler.HandleAction: the `print` log lines, `read_clipboard_text`, `write_clipboard_text` and `maybe_auto_paste` are I/O. The clipboard text is a parameter, the write and the paste are trace entries, and an exception from the write is not modelled.
- Handler.HandleAction: `should_block_send` (main.py:8) is not defined in clipai/safety.py. It is an arbitrary predicate parameter, not `apply_safety`.
- The provider clients (clipai/llm_openai_compat.py, clipai/llm_ollama.py, clipai/llm_azure_openai.py) are HTTP and JSON code. `chat_completion` is a parameter returning `Ok(text)` or `Fail`. The Ollama and Azure clients take a message list rather than `system_prompt`/`user_prompt`, so with them the call at main.py:34 always raises and takes the `except` at main.py:41, which is the `Fail` case here.
- `main()` in main.py, `load_config` and `DEFAULTS` in clipai/actions.py, and clipai/hotkeys.py, clipai/output.py, clipai/clipboard.py and clipai/logging_utils.py are configuration I/O, keyboard and OS plumbing.
- Templates.Render: context keys and values are strings, and a context is a list of items, never `None`. Python raises `TypeError` for a value that is not a string (such as `None`) even when its placeholder is absent, and for a key that is not a string. It raises `AttributeError` for a `None` context. These exceptions are not modelled.
- Templates.UnknownPlaceholderKept: holds only when every key and the placeholder's own name are brace-free. A key containing a brace can take part of an unknown placeholder into its own: with the key `{x` and the value `Z`, the template `{{{x}}` renders as `Z` (`BraceKeySwallowsPlaceholder`).
- Actions.BuildActionMap: Python stores the very record objects; the model states value equality with the last record bearing each id, since Dafny datatypes have no identity. A Dafny `map` also has no order, so the insertion order of the dict is not modelled: Python keeps each id at the position of its first insertion, even when a later duplicate replaces the record, and hotkeys are registered in that order (clipai/hotkeys.py).
- Actions.Action: only the keys the core reads are modelled, and their values are taken to have the types the handler expects. A non-string id that is truthy, for example a number, is not modelled. Such an id would still be a key in Python.
- Handler.AutoPasteEnabled and Handler.Written: the application settings are booleans. Python tests the truthiness of arbitrary YAML values.
- Retries, multi-message construction, image input, save-to-file routing and event logging are not called by `handle_action` and have no model.
