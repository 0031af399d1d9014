# LLM evaluation harness: output checks and evaluation runner

This project is a Dafny model of the core of a small evaluation harness for a
travel-assistant chatbot that sits on a hosted language model. It covers two
Python files.

- `validators/output_checker.py` loads the output policy. Each of its three
  fields (`forbidden`, `require_citation`, `json_schema_keys`) falls back to a
  default on its own. The file also picks the `{...}` block out of a model
  response and parses it. It runs three checks on the result: all required keys
  are present, a citation is present, no forbidden word occurs. It is modelled
  as pure functions in `output_checker.dfy` (module `OutputChecker`).
- `tools/agent_eval.py` runs the evaluation. It has three parts.
  - `percentile` is linear interpolation over the sorted latencies.
  - `robust_invoke` is a bounded retry loop with exponential back-off around the
    model client.
  - `main` asks each question, builds one result row per question, and collects
    the latencies of the calls that succeeded. It then computes the pass ratio
    and the 50th and 95th percentiles.

  It is modelled in `agent_eval.dfy` (module `AgentEval`). `percentile` is pure
  functions. `robust_invoke` and the loops of `main` are methods whose `while`
  and `for` loops are proved against specification functions.

`wrappers.dfy` holds the `Option` and `Result` types both modules use.

The external parts of the system are not modelled. They become parameters:
- `yaml.safe_load` and `json.loads` are each a function from text to
  `Result<Json>`.
- The model client and the clock together are an oracle `llm: nat -> Attempt`.
  It says what attempt `k` did: it raised an exception with a message, or it
  returned a response (whose `content` may be missing) after so many seconds.
  In `main`, question `i` has its own oracle `llm(i)`.
- `fuzz.partial_ratio` is a function `(hint, answer) -> real`, since rapidfuzz scores are floats.

In `tools/agent_eval.py`:
- A row passes iff `partial_ratio(hint, answer) >= 50` (line 72). No other
  score and no other threshold is involved.
- There is no mode switch, and `main` does not call the output checks.

## Model

| member | source | states |
|---|---|---|
| OutputChecker.LoadPolicies | validators/output_checker.py:3-19 | No file gives the default policy (`[]`, `True`, `["answer", "citations"]`). A parse error is an error. A falsy document gives the default policy. A truthy document that is not a dictionary is an error (it has no `get`). A dictionary yields each field from its own key when present, through `bool` for `require_citation`, and the default otherwise |
| OutputChecker.FieldsDefaultIndependently | validators/output_checker.py:15-19 | Two documents that agree on one key (both lack it, or both hold the same value) give that policy field the same value, whatever the other keys hold |
| OutputChecker.BraceSpan | validators/output_checker.py:22 | `re.search(r"\{.*\}", re.S)` matches iff some `{` comes before some `}`. The match runs from a `{` with no `{` before it to a `}` with no `}` after it |
| OutputChecker.BraceSpanIsLeftmostLongest | validators/output_checker.py:22 | The match covers every other `{`…`}` pair: it is the leftmost-longest match |
| OutputChecker.JsonBlock | validators/output_checker.py:22-24 | There is no block iff no `{` precedes a `}`. A block starts with `{`, ends with `}`, has length at least 2, and occurs in the text at a place with no `{` before it and no `}` after it: it runs from the first `{` to the last `}` |
| OutputChecker.ExtractJsonBlock | validators/output_checker.py:21-28 | `None` when there is no block or the parser rejects it. When the parser accepts the block, the result is exactly the parsed value |
| OutputChecker.EmbeddedBlockRecovered | validators/output_checker.py:21-28 | Take a braced block with no `{` in the prose before it and no `}` in the prose after it. The block is selected exactly, so its parse comes back unchanged |
| OutputChecker.ProseWithoutBracesFailsKeyCheck | validators/output_checker.py:21-31 | A response with no `{` yields `None`, and `None` fails the key check |
| OutputChecker.CheckJsonOk | validators/output_checker.py:30-31 | A non-dictionary fails. A dictionary passes iff every required key is among its keys. With no required keys, every dictionary passes |
| OutputChecker.CheckJsonOkMonotone | validators/output_checker.py:30-31 | More keys in the payload, or fewer required keys, never turn a pass into a failure |
| OutputChecker.Contains | validators/output_checker.py:37 | Python's `needle in haystack` holds iff the needle occurs at some index of the haystack |
| OutputChecker.CheckCitation | validators/output_checker.py:33-37 | A dictionary passes iff its `citations` entry exists and is a non-empty list. A text passes iff it contains `출처`, or spells `citation` somewhere in any mix of upper and lower case. A list that holds the string `출처` passes |
| OutputChecker.CitationWordFound | validators/output_checker.py:37 | Searching the lower-cased text for `citation` succeeds exactly when some position of the original text spells it case-insensitively |
| OutputChecker.EmptyCitationsFail | validators/output_checker.py:33-36 | A payload with an empty `citations` list fails the citation check |
| OutputChecker.CheckForbidden | validators/output_checker.py:39-40 | The check fires iff some listed word occurs in the text. An empty list never fires |
| OutputChecker.EmptyWordAlwaysForbidden | validators/output_checker.py:39-40 | An empty string in the list fires on every text |
| OutputChecker.CheckForbiddenMonotone | validators/output_checker.py:39-40 | Adding words never clears a violation |
| AgentEval.Sort | tools/agent_eval.py:45 | `sorted(arr)` is ascending and a permutation of `arr` |
| AgentEval.SortedUnique | tools/agent_eval.py:45 | Two ascending sequences with the same multiset of values are equal, so `sorted` has a single possible result |
| AgentEval.Trunc | tools/agent_eval.py:47 | `int(x)` truncates toward zero: it is the floor for `x >= 0` and the ceiling for `x < 0` |
| AgentEval.Position | tools/agent_eval.py:46 | For `p` in [0, 1] the position `(len-1)*p` lies in `[0, len-1]` |
| AgentEval.Split | tools/agent_eval.py:47 | `lo + t` is the position, and `hi = min(lo+1, len-1)` is at most `lo + 1`. Inside `[0, len-1]`: `0 <= lo <= hi`, `0 <= t < 1`, and `hi = lo + 1` unless `lo` is the last index |
| AgentEval.Percentile | tools/agent_eval.py:43-48 | No values give `0.0`. For `p` in [0, 1] no index error is raised |
| AgentEval.InterpolatedValue | tools/agent_eval.py:47-48 | At a position inside the list, `lo` and `hi` are valid indices, and the result is the interpolation `a[lo]*(1-t) + a[hi]*t` |
| AgentEval.PercentileWithinData | tools/agent_eval.py:43-48 | For `p` in [0, 1] the percentile lies between some value and some value of the data, so between its least and greatest value |
| AgentEval.PercentileEnds | tools/agent_eval.py:43-48 | `p = 0` gives the least value and `p = 1` the greatest |
| AgentEval.PercentileIgnoresOrder | tools/agent_eval.py:45 | The percentile depends only on the multiset of values, not on their order |
| AgentEval.PercentileOfSorted | tools/agent_eval.py:45-48 | Values already in ascending order are interpolated as given |
| AgentEval.MedianOfThree | tools/agent_eval.py:46-48 | The 50th percentile of three ascending values is the middle one |
| AgentEval.MedianOfTwo | tools/agent_eval.py:46-48 | The 50th percentile of two ascending values is their mean |
| AgentEval.PercentileBeyondEnd | tools/agent_eval.py:47-48 | With two values and `p = 3` the lower index is 3, and `a[lo]` raises `IndexError` |
| AgentEval.NegativeFractionWraps | tools/agent_eval.py:47-48 | With three values and `p = -0.5` the lower index is -1, which Python reads from the end, so the result is the greatest value |
| AgentEval.Strip | tools/agent_eval.py:56 | `strip()` returns a contiguous slice whose surroundings are all white space (Python's `isspace` set). The slice itself neither starts nor ends with white space |
| AgentEval.StripIdempotent | tools/agent_eval.py:56 | Stripping twice is the same as stripping once |
| AgentEval.Received | tools/agent_eval.py:55-56 | A response gives no error and `seconds * 1000` milliseconds. Its text is the stripped content, or `""` when the content is missing |
| AgentEval.FirstReturned | tools/agent_eval.py:51-57 | The first attempt within the tries that returned, with every earlier attempt raising. If there is none, every attempt raised |
| AgentEval.InvokeOutcome | tools/agent_eval.py:50-61 | The reply has no error iff some attempt within `tries` returned, and then the first such attempt's response is the reply. If all attempts raised, the last exception comes back with `""` and `0.0`. With `tries < 1` the reply is `RuntimeError("unexpected")` |
| AgentEval.RobustInvoke | tools/agent_eval.py:50-61 | The retry loop raises `ValueError` iff some sleep it reaches has a negative delay, and then that delay is the one after its last call. Otherwise it returns exactly the reply `InvokeOutcome` describes. It makes at most `tries` calls: on success the last call returned and all earlier ones raised, and on failure all `tries` calls raised. It sleeps `backoff**k`, never negative, after each failed attempt `k` except the last |
| AgentEval.NonNegativeBackoffNeverRaises | tools/agent_eval.py:60 | With `backoff >= 0` no sleep raises, so `robust_invoke` always returns |
| AgentEval.NegativeBackoffRaises | tools/agent_eval.py:58-60 | With a negative `backoff`, at least three tries and the first two attempts raising, the sleep `backoff**1` raises |
| AgentEval.UnexpectedOnlyWithoutAttempts | tools/agent_eval.py:61 | The fall-through `RuntimeError("unexpected")` happens iff `tries < 1` |
| AgentEval.RowOf | tools/agent_eval.py:68-73 | An errored reply gives a row with latency 0, score 0, `ok` false and answer `"ERROR: " + str(err)`. Otherwise the row has the reply's latency and the hint/answer score, passes iff the score is at least 50, and keeps the first `min(len, 300)` characters of the answer |
| AgentEval.RowsOf | tools/agent_eval.py:65-73 | There is one row per question, in order, and row `i` is built from question `i` and reply `i` |
| AgentEval.CountErrors | tools/agent_eval.py:68-70 | The number of errored replies. It is zero iff no reply has an error |
| AgentEval.Latencies | tools/agent_eval.py:74 | One latency is recorded per reply without an error |
| AgentEval.LatenciesFromSuccesses | tools/agent_eval.py:71-74 | Every recorded latency is the latency of some reply without an error |
| AgentEval.LatenciesStep | tools/agent_eval.py:74 | Answering one more question appends that reply's latency, and only when it has no error |
| AgentEval.RowsStep | tools/agent_eval.py:65-73 | Answering one more question appends exactly that question's row |
| AgentEval.PassRatio | tools/agent_eval.py:76 | The pass ratio lies in [0, 1]. It is 0 with no rows, and 1 iff there are rows and every row passes |
| AgentEval.PassingRowsHaveLatencies | tools/agent_eval.py:68-76 | No more rows pass than latencies are recorded, since an errored row never passes |
| AgentEval.Ask | tools/agent_eval.py:67-74 | One pass of the loop gives the question's row, plus its latency when the call succeeded |
| AgentEval.CountOk | tools/agent_eval.py:76 | The number of passing rows is at most the number of rows, and equals it iff every row passes |
| AgentEval.CountPassing | tools/agent_eval.py:76 | The counting loop returns the number of passing rows |
| AgentEval.AskAll | tools/agent_eval.py:64-74 | The question loop produces exactly the rows and latencies of the specification |
| AgentEval.Evaluate | tools/agent_eval.py:63-78 | Five rows, row `i` for the `i`-th question of `QA`, built from that question's reply, and the latencies of the successful calls. It also returns the pass ratio, which is at most the share of latencies, and p50/p95 as the 0.5 and 0.95 percentiles of the latencies (`0.0` when there are none) |

## Left out

- Reading the policy file (`pathlib`, `open`, UTF-8 decoding errors): a missing path is `None`, and a present file is given as its text.
- `yaml.safe_load` and `json.loads` are parser parameters. The model does not define YAML or JSON syntax.
- `load_policies` returns the very `DEFAULT` dictionary object when the file is missing. Its aliasing (a caller mutating it changes later results) is not modelled, because policies are values here.
- OutputChecker.CheckCitation: requires a dictionary, a string, or a list holding the string `출처`. On any other argument Python raises (`AttributeError` for another list, `TypeError` for `None`, numbers and booleans), and the model has no such call.
- OutputChecker.CheckCitation: the text case lower-cases ASCII letters only. Python's `lower()` also maps other letters. None of them maps to one of the letters of `citation` except `İ`, which lower-cases to `i` plus a combining dot and so cannot complete the word.
- `SYSTEM`, `FEWSHOTS` and the message list are what the model client receives. The client is an oracle here, so the prompt text is not modelled.
- The `OPENAI_API_KEY` check and its `SystemExit`, `load_dotenv`, and the `ChatOpenAI` construction are process setup with no logic to model.
- Floating point: latencies and percentiles are exact reals, so rounding differences of IEEE doubles are not captured.
- `round(ms, 2)` in the row, `round(..., 3)` of the pass ratio and `round(..., 2)` of p50/p95 are not modelled. `Row.latencyMs` and the results are unrounded.
- `time.sleep` and `time.perf_counter`: the sleeps are returned as a list of delays, and the elapsed time comes from the oracle.
- A response `content` that is neither text nor `None` is not modelled.
- AgentEval.RowOf: `if err:` takes every exception as truthy. An exception class that defines `__bool__` or `__len__` is not modelled.
- Writing the CSV file and creating the `metrics` directory, the timestamp in the file name, and the two `print` lines.
- `fuzz.partial_ratio` is a scorer parameter. Its algorithm is not modelled, and neither is the 0 to 100 range of its scores.
- AgentEval.RobustInvoke: `except Exception` does not catch `BaseException` subclasses such as `KeyboardInterrupt` or `asyncio.CancelledError`, which leave `robust_invoke` at once. The oracle's `Raised` attempts are all caught and retried. `backoff**k` and `time.sleep` raising `OverflowError` for a huge back-off are not modelled either, because `Pow` is exact.
