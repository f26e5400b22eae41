# lightspeedGPT chunk pipeline in Dafny

A verified model of the sequential logic of lightspeedGPT's `main.py`. The
script splits a document into token windows and sends each window (a chunk)
to a chat-completion endpoint, retrying on rate limits. It collects the
replies in the order the calls complete, logs one success or failure line
per chunk, and writes the replies to an output file.

| file | module | models |
|---|---|---|
| `wrappers.dfy` | `Wrappers` | `Option`, for a reply or its absence (`None`) |
| `text.dfy` | `Text` | `str.strip()` with Python's whitespace set, and `str(n)` for the chunk count |
| `file_io.dfy` | `FileIO` | files as objects holding a string, plus `initialize_files`, `log_to_file` and `save_to_file`; reading a text back as lines |
| `chunker.dfy` | `Chunker` | `split_into_chunks`: the stepped loop over the token list |
| `api_client.dfy` | `ApiClient` | `call_openai_api`: the three-attempt loop with its early returns |
| `dispatcher.dfy` | `Dispatcher` | `process_chunks`: submission, the completion-order loop, and the final save |

## How the model is built

- **Files.** Each file is a `FileIO.TextFile` object. Its `content` field is
  updated in place:
  - opening in mode `'w'` is `Truncate`;
  - `file.write` is `Write`.

  Two paths that name the same file are the same object. So the log's final
  contents are stated only for an output that is a different file from the
  log. The input file is not one of these objects: the document is the text
  `load_text` returns, a parameter. Both files are emptied before the input
  is read, so an input path that names the output or the log file is read
  as an empty document (and its old contents are lost); the model covers
  that run through the empty text.
- **Tokenizer.** The tokenizer is an `Encoding` value holding two
  uninterpreted functions, `encode` and `decode`. `''.join` of a string is
  that string, so chunk `j` is `decode` of token window `j`.
- **Endpoint.** Seen from one call, the endpoint is a `Server`: the outcome
  of attempt `i`, one of `RateLimit`, `OtherError` or `Ok(text)`.
  - A reply whose text cannot be read raises inside the `try`. It is
    therefore an `OtherError`.
  - `ApiClient.Run` is the specification of a call. `ApiClient.CallApi` is
    the loop, proved equal to it.
  - A call also returns how many attempts it made and the integer base
    `2^i` of every wait it slept.
- **Dispatcher.** `process_chunks` gets one `Server` per chunk (by index and
  text). It also gets the completion order of `as_completed` as an input:
  `order`, any arrangement of the chunk indices.
- **Where the code differs from the documented behaviour.** In both cases
  the model follows the code:
  - A wait comes after every rate-limited attempt, the third included,
    although no fourth attempt follows it (`ApiClient.RateLimitExhausted`:
    waits 1, 2 and 4).
  - The output has exactly one line per successful chunk only when no reply
    holds a newline of its own. `strip()` only trims the ends of a reply, and
    `FileIO.MultiLineEntrySplits` shows a one-entry list that reads back as
    two lines. `Dispatcher.RunReport` states the line count under that
    condition.
- **Negative chunk sizes.** `range(0, n, step)` with a negative step is
  empty, so a negative chunk size gives no chunks. A zero step makes
  `range` raise, so a zero chunk size is a precondition.

## Model

| member | source | states |
|---|---|---|
| Text.Strip | main.py:69 | the stripped reply is empty or begins and ends with a non-whitespace character, and it is empty exactly when every character of the reply is whitespace |
| Text.StripWindow | main.py:69 | the stripped reply is one contiguous slice of the reply, and everything before and after that slice is whitespace |
| Text.StripIdempotent | main.py:69 | stripping a stripped reply changes nothing |
| Text.NatToDecimal | main.py:98 | the rendering of the chunk count is a non-empty string of digits, with a leading `0` only for zero |
| Text.DecimalRoundTrip | main.py:98 | reading the rendered chunk count back as a decimal number gives the count |
| FileIO.TextFile.Truncate | main.py:27-28 | opening a file in mode `'w'` leaves it empty |
| FileIO.TextFile.Write | main.py:38 | a write appends its text to the file |
| FileIO.InitializeFiles | main.py:25-31 | afterwards both the output file and the log file are empty |
| FileIO.LogToFile | main.py:44-50 | the log becomes its old contents followed by the message and a newline |
| FileIO.SaveToFile | main.py:34-41 | whatever the output held before, it ends as the responses in order, each followed by a newline |
| FileIO.TerminatedSnoc | main.py:37-38 | writing one more response appends exactly that response and a newline to the text written so far |
| FileIO.TerminatedAppend | main.py:37-38 | writing one list of lines and then another writes their concatenation |
| FileIO.ReadTerminated | main.py:37-38 | a text written one response per line reads back as exactly those responses, when none holds a newline |
| FileIO.TerminatedNewlines | main.py:37-38 | such a text holds exactly one newline per response |
| FileIO.MultiLineEntrySplits | main.py:38 | one response holding a newline reads back as two lines |
| Chunker.Windows | main.py:86-88 | the token list cut from the front into consecutive windows of `step` tokens, the last one holding what is left; no windows for no tokens |
| Chunker.TokenWindows | main.py:86 | the windows that `range(0, len(words), tokens)` visits: those of `Windows` for a positive step, and none for a negative step, whose range is empty |
| Chunker.SplitIntoChunks | main.py:82-89 | chunk `j` is the decoding of token window `j`, in order, and nothing else. A positive step gives ceil(n / step) chunks and a negative one none |
| Chunker.WindowCount | main.py:86 | a positive step gives ceil(n / step) windows, and none exactly when the text has no tokens |
| Chunker.WindowBounds | main.py:86-88 | with `k` windows, `(k-1)*step < n <= k*step` |
| Chunker.WindowSizes | main.py:86-88 | every window holds between 1 and `step` tokens, and every window but the last holds exactly `step` |
| Chunker.WindowsFlatten | main.py:86-88 | the windows concatenated in order give back the token list exactly |
| Chunker.WindowAt | main.py:86-88 | window `j` is the token slice `[j*step, min((j+1)*step, n))` |
| ApiClient.Run | main.py:53-79 | a call from attempt `i` on: after three attempts nothing; a reply ends it with the stripped text after `i+1` attempts; another error ends it with nothing after `i+1` attempts; a rate limit waits with base `2^i` and goes on with attempt `i+1` |
| ApiClient.FirstSettled | main.py:54-77 | the attempt that ends a call is the first one that is not rate-limited, or none within the three attempts |
| ApiClient.RunSettles | main.py:54-79 | with `k` that first attempt, the call makes `k+1` attempts (3 if none) and waits with bases `2^0 .. 2^(k-1)`. It returns the stripped text when attempt `k` is a reply, and nothing otherwise |
| ApiClient.RetryThenReply | main.py:54-74 | `k < 3` rate limits and then a reply: the stripped reply, after `k+1` attempts and `k` waits of base `2^0 .. 2^(k-1)` |
| ApiClient.OtherErrorGivesUp | main.py:75-77 | any other error ends the call at once with nothing, with no further attempt and no wait after it |
| ApiClient.RateLimitExhausted | main.py:54-79 | three rate limits give nothing after exactly three attempts, having waited with bases 1, 2 and 4 |
| ApiClient.RunSeesThreeAttempts | main.py:54 | a call depends only on the outcomes of attempts 0 to 2, so there is no fourth attempt |
| ApiClient.CallApi | main.py:53-79 | the attempt loop returns exactly the response, attempt count and waits of the specification `Run` |
| Dispatcher.CompletionOrderInRange | main.py:104 | a completion order has one entry per chunk, and every entry is a chunk index |
| Dispatcher.ReorderPermutes | main.py:104 | taking the results in completion order is a permutation of them, losing none and adding none |
| Dispatcher.SomesAppend | main.py:103-110 | the kept responses of two runs of results are those of the first followed by those of the second |
| Dispatcher.SomesCount | main.py:105-109 | every response is kept exactly as often as a result carries it, and failures are dropped |
| Dispatcher.ResponsesIndependentOfOrder | main.py:104-109 | every completion order collects the same responses, as a multiset, as the results in submission order, so as many as chunks succeeded |
| Dispatcher.SuccessLines | main.py:106-110 | the log gets one success line per kept response and one failure line per other result |
| Dispatcher.Tag | main.py:106-110 | a result of `None` is logged as a failure line and any response, the empty one included, as a success line |
| Dispatcher.ChunkCountMessage | main.py:98 | the first log line: `Number of chunks: ` followed by the decimal rendering of the chunk count |
| Dispatcher.ChunkResultAt | main.py:102 | the result of call `c` is what the endpoint's answers to chunk `c` give |
| Dispatcher.SubmitAll | main.py:100-102 | exactly one call is made per chunk, and the results follow chunk order |
| Dispatcher.CollectResponses | main.py:103-110 | the responses are the non-`None` results in completion order, and whatever the log held is followed by one success or failure line per result in that order |
| Dispatcher.LogReadsBack | main.py:98-110 | the log reads back as exactly the lines written to it |
| Dispatcher.RunReport | main.py:91-112 | the log reads as `1 + nCh` lines: the chunk count first, then as many success lines as chunks succeeded and failure lines for the rest. The output holds one response per successful chunk; when no response holds a newline, it has exactly that many lines and newlines |
| Dispatcher.ProcessChunks | main.py:91-112 | the output ends as the collected responses, one per line in completion order. The log ends as the chunk count line followed by one outcome line per chunk |

## Left out

- The tokenizer lookup `tiktoken.encoding_for_model` is left out, and with it the error for an unknown model. `encode` and `decode` are uninterpreted, and `encode` is taken to return a token list for every text: the error tiktoken raises on text holding a special-token string, which would end `process_chunks` after both files were emptied, is not modelled.
- The network request is left out: the model name, `max_tokens`, the temperature, the system prompt and the shape of the response object. Only the outcome of each attempt is kept.
- `ApiClient.CallApi`: the random fraction of a second added to each wait and the sleeping itself are left out. Each wait is recorded by its integer base `2^i` only, because the rest is floating point and randomness.
- The thread pool, `as_completed` and the `tqdm` progress bar are not modelled. Concurrency is replaced by the completion order given as an input.
- `Dispatcher.CollectResponses`: a log line carries only its fixed success or failure text. The `{future}` repr that follows it is left out because it is a run-dependent object address.
- `Dispatcher.ProcessChunks`: the log's final contents are stated only when the log and the output are different files. When they are the same file, `save_to_file` overwrites the log.
- `load_text` is not modelled: the document text is a parameter of `ProcessChunks`.
- The `print` of the chunk count, every `logging` call, the `argparse` entry point and the `OPENAI_KEY` environment variable are left out, because they are output or configuration outside the pipeline.
- OS-level file errors, and their logging and re-raising in the file helpers, are left out. The file operations always succeed in the model.
- Line endings: a reader here ends a line only at `'\n'` (as `wc -l` counts on a POSIX system). Python's universal-newline reading, which also ends a line at `'\r'`, and the `"\r\n"` translation of writes on Windows are not modelled, because they belong to the platform and not to the script.
