# Timed video-search queries and script extraction: a Dafny model

This project models the sequential logic of a text-to-video generator. The
rest of the system is glue around a language model.

- **`merge_empty_intervals`.** A left-to-right pass over `(interval, url)`
  pairs. Each run of entries without a url is absorbed into the entry before
  it when the two touch. Otherwise only the run's first interval is kept.
- **`getVideoSearchQueriesTimed`.** Asks the model for timed keyword
  segments until the last segment ends where the caption timeline ends. If
  a completion does not parse, it strips code fences, applies `fix_json` and
  parses once more. A second failure ends the call with `None`. As written,
  the model call itself always raises, so the function returns `None` for
  every timeline that does not end at 0 (see Findings); the loop is modelled
  with a working model call.
- **`fix_json`.** An ordered chain of `str.replace` rules for typographic
  quotes and one mis-escaped contraction.
- **The whitespace normaliser of `call_model`.** Drops newlines, strips the
  ends, and collapses whitespace runs into single spaces.
- **`generate_script`.** Drops newlines from the completion and reads the
  `"script"` field. If that fails, it reads the field from the text between
  the first `{` and the last `}`.

Files and modules:

- `pystr.dfy`, module `PyStr`: the Python string builtins involved, with
  their semantics written out.
  - `str.replace` is leftmost and non-overlapping.
  - `strip` and `re.sub('\s+', ' ', …)` are modelled.
  - `find` and `rfind` return -1 when the character is absent.
  - Slicing follows Python for negative and out-of-range bounds.
- `pyjson.dfy`, module `PyJson`: a decoded JSON value, and Python's
  indexing and `==` on it.
- `video_query_text.dfy`, module `VideoQueryText`: the normaliser,
  `fix_json`, and the text handed to `json.loads`.
- `video_query_retry.dfy`, module `VideoQueryRetry`: the accept/retry loop.
  It is written as a method with a `while` loop, proved equal to the
  specification function `Run`.
- `interval_merge.dfy`, module `IntervalMerge`: the merge pass. It is a
  method with the source's nested loops, proved equal to the specification
  `Merged`. `Merged` is defined by recursion from the right end of the input.
- `script_generator.dfy`, module `ScriptGenerator`: newline removal, the
  brace slice and the strict-then-fallback parse.
- `maybe.dfy`, module `Maybe`: `Option`, which stands for Python's `None`.

## Model

| member | source | states |
|---|---|---|
| `PyStr.ReplaceCharAt` | utility/video/video_search_query_generator.py:35-37 | A one-character `replace` rewrites exactly the positions holding that character and keeps the length |
| `PyStr.ReplaceDeletes` | utility/script/script_generator.py:84 | `replace(c, "")` equals taking every `c` out and keeping the other characters in order |
| `PyStr.Without` | utility/video/video_search_query_generator.py:97 | The deletion result holds no `c`, holds the same other characters, and equals the input when the input holds no `c` |
| `PyStr.StripLeft` | utility/video/video_search_query_generator.py:97 | The result is a suffix, is empty or starts with a non-whitespace character, and everything removed is whitespace |
| `PyStr.StripRight` | utility/video/video_search_query_generator.py:97 | The result is a prefix, is empty or ends with a non-whitespace character, and everything removed is whitespace |
| `PyStr.Strip` | utility/video/video_search_query_generator.py:97 | The stripped text neither starts nor ends with whitespace |
| `PyStr.CollapseSpaces` | utility/video/video_search_query_generator.py:98 | No two whitespace characters are adjacent, the only whitespace left is the space, the result is no longer than the input and is empty only for empty input, and it starts with whitespace exactly when the input does; which text it is follows from `PyStr.CollapseStripped` |
| `PyStr.CollapseEnds` | utility/video/video_search_query_generator.py:98 | The collapsed text ends with whitespace exactly when the input does |
| `PyStr.CollapseStripped` | utility/video/video_search_query_generator.py:97-98 | On stripped text the substitution is `" ".join(t.split())`: each whitespace run between two words becomes exactly one space, and the words are kept in order |
| `PyStr.CollapseFixed` | utility/video/video_search_query_generator.py:98 | Text whose whitespace is already single spaces is left unchanged by the substitution |
| `PyStr.Find` | utility/script/script_generator.py:89 | `find('{')` is -1 exactly when there is no `{`; otherwise it is the index of a `{` with none before it |
| `PyStr.RFind` | utility/script/script_generator.py:90 | `rfind('}')` is -1 exactly when there is no `}`; otherwise it is the index of a `}` with none after it |
| `VideoQueryText.NormalizeWhitespace` | utility/video/video_search_query_generator.py:97-98 | The normaliser of `call_model`; its properties are stated by `NormalizeShape`, `NormalizeWords`, `NormalizeKeepsText` and `NormalizeIdempotent` |
| `VideoQueryText.NormalizeShape` | utility/video/video_search_query_generator.py:97-98 | The normalised completion has no newline, no leading or trailing whitespace, and no two adjacent whitespace characters; every whitespace character left is a space, and the non-whitespace characters are those of the input, in order |
| `VideoQueryText.NormalizeWords` | utility/video/video_search_query_generator.py:97-98 | The normalised completion is `" ".join(content.replace("\n", "").split())`: the words of the text once its newlines are deleted, joined by single spaces |
| `VideoQueryText.NormalizeGluesNewline` | utility/video/video_search_query_generator.py:97 | Line 97 deletes a newline instead of turning it into a space, so `"a\nb"` normalises to `"ab"` |
| `VideoQueryText.NormalizeKeepsText` | utility/video/video_search_query_generator.py:97-98 | Normalisation changes only whitespace: the non-whitespace characters are kept, in order |
| `VideoQueryText.NormalizeIdempotent` | utility/video/video_search_query_generator.py:97-98 | Normalising an already normalised text changes nothing |
| `VideoQueryText.FixJson` | utility/video/video_search_query_generator.py:33-40 | `fix_json` as the five `replace` calls in source order; its properties are stated by `FixJsonQuoteRules`, `FixJsonLength`, `FixJsonNoSmartQuotes`, `FixJsonUnchanged` and `FixJsonNotIdempotent` |
| `VideoQueryText.Straighten` | utility/video/video_search_query_generator.py:35-37 | `’` becomes `'`; `‘`, `“` and `”` become `"`; every other character is kept; no typographic quote results |
| `VideoQueryText.FixJsonQuoteRules` | utility/video/video_search_query_generator.py:33-39 | The five character rules together straighten each character independently; the `’`→`"` rule never fires because `’`→`'` ran first; only the contraction rule follows |
| `VideoQueryText.FixJsonLength` | utility/video/video_search_query_generator.py:35-39 | `fix_json` preserves the length in code points |
| `VideoQueryText.FixJsonNoSmartQuotes` | utility/video/video_search_query_generator.py:35-39 | No `’ ‘ “ ”` remains in the output of `fix_json` |
| `VideoQueryText.FixJsonUnchanged` | utility/video/video_search_query_generator.py:33-40 | Input without typographic quotes and without `"you didn"t"` is returned unchanged |
| `VideoQueryText.FixJsonUnchangedQuotes` | utility/video/video_search_query_generator.py:37-39 | On input without typographic quotes only the contraction rule can change anything |
| `VideoQueryText.FixJsonNotIdempotent` | utility/video/video_search_query_generator.py:39 | On `"you didn"t"you didn"t"` a second pass of `fix_json` changes the result of the first |
| `VideoQueryText.Prepared` | utility/video/video_search_query_generator.py:73 | The first text parsed: the normalised completion with `'` replaced by `"`; its shape is stated by `PreparedShape` |
| `VideoQueryText.PreparedShape` | utility/video/video_search_query_generator.py:73 | The first text parsed is the normalised completion with every `'` turned into `"`, of the same length, and holds no `'` |
| `VideoQueryText.Repaired` | utility/video/video_search_query_generator.py:79 | The second text parsed: fences removed, then `fix_json`; `RepairedNoSmartQuotes` states what it excludes |
| `VideoQueryText.RepairedNoSmartQuotes` | utility/video/video_search_query_generator.py:79 | The repaired text (fences stripped, then `fix_json`) holds no typographic quote |
| `VideoQueryRetry.LastEnd` | utility/video/video_search_query_generator.py:72 | Python's `out[-1][0][1]`; `LastEndShape` and `AcceptedShape` state on which values it succeeds |
| `VideoQueryRetry.TryAttempt` | utility/video/video_search_query_generator.py:73-80 | An attempt yields a value exactly when the prepared text or its repair parses; the value is the strict parse when that succeeds, and the parse of the repaired text otherwise |
| `VideoQueryRetry.Run` | utility/video/video_search_query_generator.py:68-85 | The loop as a function of the attempts; `RunAccepts`, `AcceptedShape`, `AcceptedComesFromAttempt`, `NoRetryAfterRepairFails` and `RetryAfterShortAnswer` state its behaviour |
| `VideoQueryRetry.GetVideoSearchQueriesTimed` | utility/video/video_search_query_generator.py:67-85 | The loop computes `Run`; a returned answer's last entry ends at `captions_timed[-1][0][1]`; with that end 0 the sentinel `[[[0,0],""]]` is returned |
| `VideoQueryRetry.RunAccepts` | utility/video/video_search_query_generator.py:68-81 | Every accepted answer's `out[-1][0][1]` equals the timeline's end |
| `VideoQueryRetry.AcceptedShape` | utility/video/video_search_query_generator.py:72 | An accepted answer is a non-empty list whose last item is a non-empty list whose item 0 is a list of at least two items, the second equal to the end; no string, object or number is ever accepted |
| `VideoQueryRetry.LastEndShape` | utility/video/video_search_query_generator.py:72 | Where `out[-1][0][1]` yields a value that is not a string, `out` has that nested list shape and the value is that item |
| `VideoQueryRetry.QueriesAsWritten` | utility/video/video_search_query_generator.py:67-85 | With `call_model` as written (line 93 raises), the result is the sentinel when the timeline ends at 0 and `None` otherwise |
| `VideoQueryRetry.AsWrittenLosesAnswer` | utility/video/video_search_query_generator.py:93 | On a timeline ending at 2, a covering first answer is accepted by the loop with a working model call but the code as written returns `None` |
| `VideoQueryRetry.ZeroEndReturnsSentinel` | utility/video/video_search_query_generator.py:71-72 | With end 0 the loop body never runs and the sentinel is returned |
| `VideoQueryRetry.AcceptedComesFromAttempt` | utility/video/video_search_query_generator.py:72-85 | An accepted answer is the starting value or the parse of some completion, and every earlier completion parsed, at worst after repair |
| `VideoQueryRetry.NoRetryAfterRepairFails` | utility/video/video_search_query_generator.py:76-85 | A completion that fails to parse even after repair ends the call with `None`; there is no further attempt |
| `VideoQueryRetry.RetryAfterShortAnswer` | utility/video/video_search_query_generator.py:72-75 | An answer that does not reach the end is discarded and the next completion is requested |
| `IntervalMerge.RunStart` | utility/video/video_search_query_generator.py:112-114 | The trailing run of `None` entries starts at the returned index, and the entry before it (if any) has a url |
| `IntervalMerge.Merged` | utility/video/video_search_query_generator.py:105-131 | The merge as a function of the input; its properties are stated by `MergeEmptyIntervals`, `MergedIdentity`, `MergedLength`, `MergedKeepsUrls`, `MergedNoneOnlyFirst`, `MergeRunAfter` and `MergeLeadingRun` |
| `IntervalMerge.MergeEmptyIntervals` | utility/video/video_search_query_generator.py:105-131 | The nested loops compute `Merged`; the output is never longer than the input and equals it when no url is `None` |
| `IntervalMerge.MergedIdentity` | utility/video/video_search_query_generator.py:108-129 | With no `None` url the output equals the input |
| `IntervalMerge.MergedLength` | utility/video/video_search_query_generator.py:108-131 | The output is never longer than the input |
| `IntervalMerge.MergedKeepsUrls` | utility/video/video_search_query_generator.py:108-131 | The input's urls occur in the output in the same relative order, and every url in the output is one of the input's |
| `IntervalMerge.MergedNoneOnlyFirst` | utility/video/video_search_query_generator.py:113-124 | `None` appears in the output only at index 0, and only when `segments[0]` has url `None` |
| `IntervalMerge.LastEmitted` | utility/video/video_search_query_generator.py:117-118 | After an entry with a url, the last emitted entry is that entry; so `prev_url` is never `None` where the code reads it |
| `IntervalMerge.MergeRunAfter` | utility/video/video_search_query_generator.py:117-122 | Take a run after an entry with a url. If the run touches that entry, the entry keeps its start and url and takes the end of the run's last interval. If not, only the run's first interval is appended, tagged with that url |
| `IntervalMerge.MergeLeadingRun` | utility/video/video_search_query_generator.py:123-124 | A leading run of `None` entries emits only `[segments[0][0], None]` |
| `IntervalMerge.MergeDropsRunTail` | utility/video/video_search_query_generator.py:121-122 | Example: a non-contiguous run `[3,4],[4,6]` after `[0,2]` comes out as `[3,4]` alone, so the span `[4,6]` is lost |
| `ScriptGenerator.RemoveNewlines` | utility/script/script_generator.py:84 | After line 84 the content holds no newline and is otherwise the input, in order |
| `ScriptGenerator.GenerateScript` | utility/script/script_generator.py:84-94 | With `c` the content after line 84: the script comes from `c` when that yields one. Otherwise it comes from `c[find('{')..rfind('}')]` inclusive when a `{` has a `}` at or after it; from the empty text when every `}` comes before the first `{`; and, without any `{`, from `"}"` when `c` ends with `}` and from the empty text otherwise |
| `ScriptGenerator.BraceSlice` | utility/script/script_generator.py:89-92 | The fallback text `content[find('{'):rfind('}') + 1]`; `BraceSliceFound`, `BraceSliceNoClose` and `BraceSliceNoOpen` state its three cases |
| `ScriptGenerator.BraceSliceFound` | utility/script/script_generator.py:89-92 | With `s = find('{') >= 0` and `e = rfind('}') >= s`, the fallback text is `content[s..e]` inclusive. It starts with `{`, ends with `}`, has length `e-s+1` and sits in `content` between a prefix with no `{` and a suffix with no `}` |
| `ScriptGenerator.BraceSliceNoClose` | utility/script/script_generator.py:89-92 | With a `{` but no `}` at or after it, the fallback text is empty |
| `ScriptGenerator.BraceSliceNoOpen` | utility/script/script_generator.py:89-92 | With no `{` the slice starts at the last character: the fallback text is `}` when the content ends with `}`, else empty |

## Where the code departs from what it evidently intends

The model follows the code in each case.

- **`fix_json` is not idempotent.** A repair pass would be expected to leave
  repaired text alone. `FixJsonNotIdempotent` gives an input where a second
  pass changes the text again.
- **A non-contiguous `None` run is tagged with the previous url.** The
  comment at line 116 says the run is merged with the previous valid url.
  - In the code, when the run does not touch the previous entry, the emitted
    entry carries the previous entry's url.
  - Only the run's first interval is kept, and the rest of the run is
    dropped. The same holds for a leading run, so coverage is lost.
  - `MergeRunAfter`, `MergeLeadingRun` and `MergeDropsRunTail` state this.
- **No retry after a second parse failure.** The prompt (line 13) asks for
  segments that "cover the entire length of the video", and the loop waits
  for such an answer. But the second `json.loads` failure reaches the outer
  `except`, and the function returns `None` (`NoRetryAfterRepairFails`).
- **Newlines are deleted, not replaced by spaces.** Line 97 runs before the
  whitespace collapse, so two words separated only by a newline are joined
  (`NormalizeGluesNewline`).
- **No bound on attempts and no typed errors.** The code has neither, and
  the model adds neither.

## Findings

| source | as written | input that shows it | evidently intended | confidence | as-written member | corrected member |
|---|---|---|---|---|---|---|
| utility/video/video_search_query_generator.py:93 | `call_model` assigns the local `prompt` from itself, so every call raises `UnboundLocalError` after `load_model`; the outer `except` at line 82 turns it into `None`, and lines 73-80 are never reached | any caption timeline whose last end is not 0, e.g. `[[[0,2],"go"]]` | the module-level `prompt` is the system message and the call returns the model's completion | high, not executed | `VideoQueryRetry.QueriesAsWritten`, `VideoQueryRetry.AsWrittenLosesAnswer` | `VideoQueryRetry.GetVideoSearchQueriesTimed` |

The rest of the model describes the evidently intended call: every model
call returns a completion.

## Left out

- Everything around the model call is left out:
  - loading the model (`load_model`: Hugging Face login, environment
    variables, quantisation config, tokenizer, `pipeline`);
  - invoking it, and extracting `sequences[0]['generated_text'][2]['content']`;
  - `log_response` and every `print`.
  The completions are an input sequence of strings instead.
- The prompt constants and the formatting of the user message (Python
  `str()` of the caption list) are left out. They only feed the model.
- `json.loads` is an abstract parser, `string -> Option<Json>`. JSON's
  grammar is not modelled.
- `GetVideoSearchQueriesTimed`: the source loops for as long as the model
  keeps answering. The model consumes a finite sequence of completions, and
  reports `Pending` when they run out before an answer covers the timeline.
- `GetVideoSearchQueriesTimed`: requires a non-empty caption timeline.
  `captions_timed[-1]` is read before the `try`, so an empty timeline makes
  the source raise to its caller. That raise is not modelled.
- Exceptions raised by the model call itself are not modelled in
  `GetVideoSearchQueriesTimed`; the one the code as written always raises
  is modelled separately by `QueriesAsWritten` (see Findings).
- `PyStr.IsSpace`: the whitespace class is fixed to space, tab, newline,
  carriage return, vertical tab and form feed. The rest of Unicode's
  whitespace is not modelled, for both `str.strip()` and the regex class
  `\s`.
- `PyStr.ReplaceAll`: requires a non-empty pattern. Every `replace` in the
  core uses a non-empty literal, so Python's behaviour for an empty pattern
  is not needed.
- `IntervalMerge.Entry`: times are values of any type compared only with
  `==`, as in the code. Float rounding is not modelled; caption and JSON
  times are exact reals in `VideoQueryRetry`.
- Code-fence stripping at line 79 is modelled as the two `replace` calls,
  with no property of its own proved. Removing every `` ``` `` can still
  leave one or two backticks in place.
