# aigrep pipeline core, modelled in Dafny

aigrep runs a language model over text files. Each file is cut into token-bounded chunks. Each
chunk is sent to the model. Replies can be checked with a regular expression and a structured
format (JSON, YAML or TOML). Replies that pass are written out in the input's order.

This project models the deterministic core of that pipeline:

- `read_file` and `read_path`: the line chunker. It keeps a running token tally and flushes
  the buffer when the next line would bring it to the chunk size. It trims a line that alone
  reaches the chunk size when the buffered lines hold no tokens. It drops whitespace-only
  chunks, keeps an overlap, tracks line numbers and gives chunks consecutive global indices.
- `printer`: the reorder buffer. Chunks arrive in any order and are written out in index
  order, with an optional limit on how many are written.
- `generator`: the attempt logic. It retries, gives up, picks the shortest valid reply and
  charges the budget.
- `verify_fix_generation` and `keep_valid_output`: validation.
- The parameter checks of `Processor.__init__`, plus `check_finished`, `stop` and the result
  of `process`.
- `extract_code_block` and the blank-text rule of `count_tokens` from `aigrep/utils.py`.

## Modules

- `Text` (text.dfy) covers the Python string built-ins the code relies on:
  - `str.strip` with the `str.isspace` character set, and `strip(chars)`;
  - `lower`, `find`/`rfind` returning -1, and slices that come out empty when the start is
    not below the end;
  - `count('\n')` and `''.join`.
- `Utils` (utils.dfy) covers `count_tokens` and `extract_code_block`. The tokenizer is a
  parameter `enc`.
- `Chunking` (chunking.dfy) covers `read_file`. It is imperative: loops over the buffered
  lines, specified by a ghost history of the lines that entered the buffer (`appended`) and of
  where each yielded chunk lies in it (`spans`).
- `Validation` (validation.dfy) covers `verify_fix_generation` and `keep_valid_output`. The
  regular expression and the three parsers are function-typed fields of a `Validator`.
- `Attempt` (attempt.dfy) covers the generator's decision after one attempt, as a pure function
  of the replies.
- `Processing` (processor.dfy) contains:
  - `Configure`, the checks of `__init__`;
  - `class Chunk`;
  - `class Processor`, whose methods are the reader and one generator pass, split into
    `StartAttempt` and `FinishAttempt`, plus `Stop` and `CheckFinished`. The asyncio queues
    are sequence fields.
- `Printing` (printer.dfy) has `class Printer`. It holds the printer coroutine's locals as
  fields, and `Receive` is one pass of its loop. Which task runs next is the caller's choice,
  so any interleaving of steps, and any arrival order, can be played.

Where the code does something other than its options suggest, the model follows the code:

- A chunk can hold more than `chunk_size` tokens. A line that reaches the chunk size is
  trimmed only when the buffered lines hold no tokens (processor.py:383). A long line that
  arrives after other lines enters the next chunk whole. `EntersAs` therefore allows an
  untrimmed line whenever it enters whole.
- A chunk always gets at least one try. The count is raised before the first try
  (processor.py:204) and compared with `attempts` only afterwards (processor.py:221), so the
  bound is `max(1, attempts)` even for `--attempts 0` (`TriesBounded`, `MaxTries`).
- The help text of `--validate` (arguments.py:87-88) says the first valid output is kept and
  lists `csv` as a mode. The code sorts the valid outputs by length and keeps the shortest, the
  first among equals (processor.py:232). An unknown mode, `csv` included, exits the process.
- For standard input (`-`) the code catches no decoding error (processor.py:358-360); only
  files are read under `except UnicodeDecodeError` (processor.py:369). So a decoding error on
  `-` leaves `read_path` and `reader` (`Breaks`, the `raised` result of `ReadPath` and
  `Reader`). The chunks yielded before it are queued. The inputs after it are not read, and
  `finished_reading` is never set (processor.py:158), so the run never finishes by itself.

## Model

| member | source | states |
|---|---|---|
| Utils.CountTokens | aigrep/utils.py:12-21 | specified by `CountTokensStrips` |
| Utils.CountTokensStrips | aigrep/utils.py:12-21 | whitespace-only text (including the empty text) counts 0 tokens; any other text counts what the encoder gives |
| Utils.ExtractCodeBlock | aigrep/utils.py:24-37 | specified by `ExtractSpan`, `TaggedFenceFirst`, `BareFenceSecond`, `SingleFenceFallsThrough`, `NoRuleKeepsText` and `FencedBodyRoundTrip` |
| Utils.ExtractSpan | aigrep/utils.py:24-37 | the extracted block is `text[a..b]` for some `a <= b <= |text|`: always a contiguous piece of the input |
| Utils.ExtractIsSubstring | aigrep/utils.py:24-37 | the same substring property, stated with an existential |
| Utils.FencedBody | aigrep/utils.py:28-32 | a fence match yields a slice of the stripped text |
| Utils.TaggedFenceFirst | aigrep/utils.py:28-32 | when the tagged prefix ```` ```format ```` first occurs at `i` before the last fence `j` (searched case-insensitively), the result is `st[i+3+|format|:j]` of the original-case stripped text |
| Utils.BareFenceSecond | aigrep/utils.py:28-32 | when the tagged prefix does not open a block but a bare fence at `i` precedes the last fence `j`, the result is `st[i+3:j]` |
| Utils.SingleFenceFallsThrough | aigrep/utils.py:29-35 | with at most one fence in the text, no span is taken and the backtick rule decides |
| Utils.NoRuleKeepsText | aigrep/utils.py:34-37 | with no span and no backtick at either end of the stripped text, the original (unstripped) text comes back |
| Utils.FencedBodyRoundTrip | aigrep/utils.py:24-32 | a body wrapped in ```` ```format ```` and ```` ``` ```` is extracted exactly |
| Utils.JsonFenceExample | aigrep/utils.py:28-32 | ```` "```json\n{\"a\":1}\n```" ```` with format `json` gives `"\n{\"a\":1}\n"` |
| Text.StripEmptyIffBlank | aigrep/utils.py:13 | `strip()` is empty exactly when every character is whitespace |
| Text.Find | aigrep/utils.py:29 | `find` gives -1 or the first occurrence |
| Text.RFind | aigrep/utils.py:30 | `rfind` gives -1 or the last occurrence |
| Text.Lower | aigrep/utils.py:26 | lowercasing keeps the length, character by character |
| Chunking.ShrunkFits | aigrep/processor.py:386-388 | the 95% steps (`Shrunk`: keep the first `len * 95 // 100` characters while the text is not empty, counts tokens and counts more than the chunk size) end with a prefix of the text that counts at most the chunk size |
| Chunking.TrimmedFits | aigrep/processor.py:384-388 | the trim (`Trimmed`: the prefix of `len * chunk_size // line_tokens` characters, then the 95% steps) is a prefix of the line that counts at most the chunk size |
| Chunking.TrimLongLine | aigrep/processor.py:383-388 | the loop computes exactly `Trimmed` of the line, with its token count: a prefix of the line within the chunk size |
| Chunking.LongLineExample | aigrep/processor.py:383-410 | a lone line of ten tokens, `xxxxxxxxxx`, with chunk size 5 and no overlap enters as `xxxxx` (five tokens), and a complete read yields a chunk |
| Chunking.Enter | aigrep/processor.py:383-388 | the line that flushes the buffer enters as `EntersAs` says: `Trimmed` exactly when the buffered lines hold no tokens and the line counts tokens, else whole; its token count comes along |
| Chunking.EvictForOverlap | aigrep/processor.py:395-399 | eviction keeps a suffix of the buffer whose tally is the kept lines' tally and at most the overlap (or the buffer is empty); every evicted prefix step still had a tally above the overlap; `lineno` advances by the newlines of the evicted lines |
| Chunking.DropsExceedMeans | aigrep/processor.py:396 | eviction stops at the first suffix whose tally is not above the overlap |
| Chunking.TallyAppend | aigrep/processor.py:404-405 | appending a line adds its token count to the tally |
| Chunking.Flush | aigrep/processor.py:381-402 | a flush yields the joined buffer exactly when it is not whitespace-only; it then clears the buffer and moves `lineno` past all of it (overlap 0), or drops leading lines exactly while their tally is above the overlap, keeping a suffix with tally at most the overlap; the tally still matches the buffer and `lineno` is 1 plus the newlines of every evicted line |
| Chunking.Retain | aigrep/processor.py:394-402 | the buffer after a flush: cleared with tally 0 (overlap 0), or the old buffer minus a leading run of lines each dropped while the tally was above the overlap, ending with tally at most the overlap |
| Chunking.Feed | aigrep/processor.py:377-405 | when the tally plus the line's count stays below the chunk size, the line joins the buffer whole and nothing else changes; otherwise the buffer is flushed first (its join yielded unless whitespace-only, then cleared or evicted down to the overlap) and the line enters as `Trimmed` (the proportional cut, then the 95% steps) exactly when the buffered lines held no tokens and the line alone reaches the chunk size, else whole; the buffer then fits (its lines before the last tally below the chunk size, or the retained overlap) and the buffer invariant is kept |
| Chunking.Finish | aigrep/processor.py:407-410 | the final buffer is yielded exactly when it is not whitespace-only and the input was read to its end |
| Chunking.ReadFile | aigrep/processor.py:372-410 | `Chunked`: every input line took `Feed`'s step (flush exactly when the tally would reach the chunk size, trim to `Trimmed` only when the buffered lines hold no tokens, eviction down to the overlap); a chunk ends at a line exactly when that line flushed a buffer that was not whitespace-only, and the final buffer is yielded exactly on a complete read when it is not whitespace-only; each chunk is the join of a contiguous run of entered lines, starts at 1 plus the newlines before it, tallies below the chunk size without its last line, and (unless final) the next line would have brought it to the chunk size; consecutive chunks advance and share at most `overlap` tokens; with a complete read every non-blank line lies in some chunk |
| Chunking.ChunksInvMeans | aigrep/processor.py:390-392 | the recursive chunk invariant gives the per-chunk and per-pair properties |
| Chunking.CoveredUpToIff | aigrep/processor.py:389-392 | coverage of the first `n` lines, stated recursively, equals coverage of each line |
| Chunking.TraceMeans | aigrep/processor.py:377-405 | the recursive history of the loop gives every line's step, from a buffer that began at line 0 |
| Chunking.TraceStep | aigrep/processor.py:377-405 | one pass of the loop, as `Feed` states it, extends the history by the line it read |
| Chunking.FitsMeans | aigrep/processor.py:381-405 | in a buffer that fits, the lines before the last tally below the chunk size |
| Chunking.AllChunksEnd | aigrep/processor.py:381-392 | in a finished read every chunk ends as `ChunkEnds` says: below the chunk size without its last line, and flushed by the line after it |
| Chunking.FlushThenAppend | aigrep/processor.py:381-405 | the flush branch of the loop: the line enters as `Trimmed` exactly when the buffered lines hold no tokens and the line alone reaches the chunk size, else whole; the buffer is yielded unless whitespace-only, evicted down to the overlap, and the line appended |
| Chunking.ReadLine | aigrep/processor.py:377-405 | one pass of the loop keeps the buffer invariant and extends the history `Trace` by the line as it entered |
| Chunking.ReadLines | aigrep/processor.py:377-405 | after the loop, every input line took its step (`Trace`), the buffer invariant holds and the buffer fits |
| Chunking.BlankConcat | aigrep/processor.py:389-392 | a whitespace-only join has whitespace-only lines |
| Validation.VerifyFixGeneration | aigrep/processor.py:254-293 | specified by `RegexpFirst`, `NoModeAccepts`, `ExitIff`, `KnownModeOutcome`, `Normalized` and `VerdictWithinText` |
| Validation.RegexpFirst | aigrep/processor.py:257-260 | a text the regular expression rejects is returned unchanged and invalid, whatever the mode |
| Validation.NoModeAccepts | aigrep/processor.py:262-264 | without a mode every text the regular expression admits is valid and unchanged |
| Validation.ExitIff | aigrep/processor.py:289-291 | the process exits exactly for an admitted text under a mode other than json, yaml and toml |
| Validation.KnownModeOutcome | aigrep/processor.py:265-288 | under json/yaml/toml the text is valid exactly when the parser accepts its normalized form; the valid result is that form, the invalid one the original text |
| Validation.Normalized | aigrep/processor.py:266-283 | the normalized json text has no surrounding whitespace; yaml and toml texts have no surrounding newlines |
| Validation.VerdictWithinText | aigrep/processor.py:254-293 | a rejected text is the input itself; an accepted text is a contiguous piece of the input |
| Validation.AcceptedFrom | aigrep/processor.py:248-252 | the accepted positions, each at or after `k` and accepted, strictly increasing |
| Validation.AcceptedComplete | aigrep/processor.py:248-252 | every accepted position at or after `k` is among them |
| Validation.KeepValidOutput | aigrep/processor.py:248-252 | specified by `KeepValidOrder` |
| Validation.KeepValidOrder | aigrep/processor.py:248-252 | the filter exits exactly when some text meets an unknown mode; otherwise it yields exactly the accepted texts, as the check rewrote them, in input order |
| Attempt.Shortest | aigrep/processor.py:231-233 | the chosen position holds a shortest text, and every earlier text is strictly longer (stable sort by length) |
| Attempt.Decide | aigrep/processor.py:216-243 | specified by `DecideMeans`, `ShortestAccepted` and `TriesBounded` |
| Attempt.DecideMeans | aigrep/processor.py:216-243 | exit iff some reply meets an unknown mode; otherwise retry iff no reply is valid and `attempt < attempts`, give up iff none is valid and `attempt >= attempts`; acceptance picks a validated reply no longer than any other validated reply and strictly shorter than every validated reply before it (the stable sort), and charges the cost of every reply |
| Attempt.ShortestAccepted | aigrep/processor.py:218-233 | the text taken from the sorted valid outputs is the check's rewrite of the first validated reply among the shortest |
| Attempt.TriesBounded | aigrep/processor.py:204-229 | whatever the replies, a fresh chunk is tried at most `max(1, attempts)` times |
| Processing.Configure | aigrep/processor.py:41-66 | specified by `ConfigureChecks` |
| Processing.ConfigureChecks | aigrep/processor.py:41-66 | each of the three checks fails, with the offending value, exactly when the checks before it passed and it does not (chunk size, then overlap, then max tokens); the configuration is accepted exactly when all three pass, and then has `0 < chunk_size <= context - prompt_tokens`, the given overlap below the chunk size, `max_tokens` as given or by default exactly what the context leaves, and the requested parallelism raised to at least one |
| Processing.Chunk.constructor | aigrep/processor.py:21-30 | a chunk starts with empty output, attempt 0 and not successful |
| Processing.MakeChunks | aigrep/processor.py:358-368 | fresh, distinct chunks numbered from `next_chunk_index` on, each with `lines` equal to its text's newline count |
| Processing.Processor.constructor | aigrep/processor.py:66-75 | counters at 0, flags cleared, queues empty |
| Processing.Processor.Stop | aigrep/processor.py:102-105 | sets `abort` and changes nothing else |
| Processing.Processor.CheckFinished | aigrep/processor.py:97-100 | `abort` is raised exactly when reading is finished, no generation runs, the printer holds nothing and both queues are empty |
| Processing.Processor.Outcome | aigrep/processor.py:116-144 | `process` returns true exactly when inputs were found and no chunk failed; when it returns false although inputs were found, some chunk used up its tries without success |
| Processing.Processor.Fail | aigrep/processor.py:225-228 | a chunk out of tries is sent on and counted as a failure, joining the failed chunks |
| Processing.Processor.Deliver | aigrep/processor.py:235-243 | an accepted chunk is sent on with its text and marked successful; the cost is charged and the run stops when a truthy budget is exceeded |
| Processing.Processor.ReadPath | aigrep/processor.py:355-370 | the chunks of `read_file` (`Chunked`) join the input queue with consecutive indices from `next_chunk_index`, `lines` the newline count of their text, no output, no try; a decoding error is raised out exactly for standard input that fails to decode |
| Processing.Processor.Enqueue | aigrep/processor.py:151-154 | new chunks join the end of the input queue and `next_chunk_index` moves past them; nothing else changes |
| Processing.Processor.Reader | aigrep/processor.py:146-158 | unless the abort flag was already raised, the inputs are read in order up to the first standard input that fails to decode, which raises out of the reader, or else all of them: what each yielded (`got[f]`) is a possible `read_file` result for that input (`ReadsAs`, the `Chunked` account of the chunker), and the new queue entries carry exactly those chunks' path, first line and text, input after input, each with its newline count, no output and no try (`Carries`, `Stamps`), with consecutive indices and no gap; reading is finished exactly when no abort was seen and nothing was raised |
| Processing.Processor.EndReading | aigrep/processor.py:158 | `finished_reading` is set exactly when the loop ran to its end: no abort seen, nothing raised |
| Processing.Processor.ReadInput | aigrep/processor.py:146-156 | one pass of `reader`'s loop: the input's chunks (`ReadsAs`) follow those of the inputs before it on the queue, and the error is raised exactly when the input `Breaks` |
| Processing.Processor.StartAttempt | aigrep/processor.py:202-206 | the head of the input queue is taken, its attempt count grows by one and stays within `max(1, attempts)`, and one more generation runs |
| Processing.Processor.FinishAttempt | aigrep/processor.py:216-246 | the decision follows `Decide`; a retry requeues, giving up sends the chunk on and counts a failure, acceptance sets output and success, sends the chunk on, adds the attempt's cost and stops the run when a truthy budget is exceeded; the generation count drops in every case |
| Processing.Processor.Release | aigrep/processor.py:245-246 | the chunk is no longer in flight and the generation count drops by one |
| Processing.Processor.Requeue | aigrep/processor.py:221-224 | a chunk with a try left goes back to the end of the input queue |
| Processing.Processor.Settle | aigrep/processor.py:220-246 | the state change of each decision, keeping the queue invariant; giving up adds the chunk to the failed chunks, whose number is the failure count and each of which used up its tries without success |
| Printing.Printer.constructor | aigrep/processor.py:161-167 | an empty reorder buffer, `first_index` and `print_count` at 0, the given `abort_at`, nothing written |
| Printing.Printer.Receive | aigrep/processor.py:170-199 | one printer pass: the next chunk is taken off the output queue and stored in its slot, as it was when it came off the queue; the written-out chunks are exactly the leading slots of the resulting buffer, in order, and the buffer loses those slots; afterwards the front slot is empty unless aborted; unless aborted on entry, the count of written chunks ends at most at `abort_at`, or one above the count on entry when `abort_at` was already reached (`--abort 0`: one chunk is written, then the run stops); nothing is written once aborted; `abort` is raised exactly when it already was, the `abort_at` count was reached in this pass, or the processor is `Finished` |
| Printing.Printer.Store | aigrep/processor.py:175-180 | the buffer becomes `Place`: this chunk in slot `index - first_index`, every other old slot unchanged, reserved slots empty |
| Printing.Place | aigrep/processor.py:175-180 | storing a chunk in slot `k` reserves empty slots up to `k`, puts the chunk there and keeps every other slot |
| Printing.Printer.Drain | aigrep/processor.py:182-197 | the ready prefix is written out while not aborted: the written chunks are the old leading slots, in order, as they were, and the buffer loses exactly those slots; the abort is raised exactly when the written count reaches `abort_at`, so the count ends at most at `abort_at`, or one above its value on entry when it had already reached it |
| Printing.Printer.DrainFront | aigrep/processor.py:183-195 | one pass of the writing loop: the front chunk is written, and the abort is raised exactly when the count reaches `abort_at` |
| Printing.Printer.WriteFront | aigrep/processor.py:183-195 | the front chunk is written out; standard output grows by its output exactly when it succeeded; the count and cursor advance by one |
| Printing.Printer.Run | aigrep/processor.py:169-199 | when every queued index is new and distinct, the `index >= first_index` assertion never fails and, unless aborted, every queued chunk is taken in |
| Printing.AllWrittenOut | aigrep/processor.py:182-184 | once every index below `n` came off the queue and the front slot is empty, chunks `0 .. n-1` have been written out in index order |

## Left out

- The asyncio machinery is not modelled: queues with a capacity of `parallel`, the semaphore,
  `create_task`, `asyncio.wait` and task cancellation in `stop`. Queues are unbounded sequences
  and each coroutine is a set of step methods, so a deadlock on a full queue is not modelled.
- File discovery (`find_files`, `is_valid_file`, path normalisation and sorting) is not
  modelled. `Outcome` takes "some input was found" as a parameter.
- Opening files and decoding is not modelled. A decoding failure is the `complete` flag of
  `ReadFile`/`ReadPath`: the lines before the failing one are read, and the chunker's final
  buffer is lost.
- Logging and event output (`log_event`, `log_verbose`, `log_debug`, `log_validation_error`)
  is not modelled. Neither is the JSON event format of the printer; standard output is the
  `printed` sequence.
- The tokenizer is the parameter `enc`. The regular expression and the JSON, YAML and TOML
  parsers are function fields of `Validator`. The model call, and its dry-run stand-in, give
  the `replies` argument of `FinishAttempt`.
- Sampling parameters and the temperature are not modelled: floating point that is only passed
  through. The system prompt file and the prompt template appear only as the `promptTokens`
  argument of `Configure`.
- `Text.Lower`: lowercases ASCII letters only, not Python's full Unicode case mapping.
- `Printing.Printer.Receive`: takes the `index >= first_index` assertion as a precondition
  rather than modelling the failing task. `Run` shows that the assertion holds whenever indices
  are unique.
- `Printing.Printer`: the reorder buffer holds each chunk as the value it had when it came
  off the output queue, not a reference to the chunk object. After a chunk is put on the
  output queue nothing changes it, so printing the value and printing the object agree.
- A model call that raises (`model.generate`, processor.py:207-214) is not modelled.
  `FinishAttempt` always receives replies. In the source the `finally` lowers
  `generation_count` and the generator task ends. The chunk never reaches the output queue, so
  the printer waits for it forever.
- When the inputs yield no chunk at all, nothing ever arrives on the output queue, and
  `check_finished` runs only after a chunk arrives (processor.py:199). The printer then waits
  forever. The model shows the same thing: `CheckFinished` is reached only through `Receive`.
- `Processing.Processor.Reader`: reads each input whole before looking at the abort flag
  again. The flag can only change between steps, so no chunk of an aborted run is queued,
  which is the same outcome as the per-chunk checks.
