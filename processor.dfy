/** The state of `Processor` that its tasks share: the parameters checked in `__init__`, the
    `Chunk` records, the reader that cuts inputs into chunks with consecutive indices, and the
    generator's attempt loop, one step at a time. The asyncio queues are sequences; which task
    runs next is the caller's choice, so any interleaving of the steps can be played. */
module Processing {
  import opened Text
  import opened Utils
  import opened Chunking
  import opened Validation
  import opened Attempt

  /** The failed assertion of `__init__`, with the offending value. */
  datatype ConfigError =
    | InvalidChunkSize(chunkSize: int)
    | InvalidOverlap(overlap: int)
    | InvalidMaxTokens(maxTokens: int)

  datatype Result<T> = Ok(value: T) | Err(error: ConfigError)

  /** The parameters `__init__` derives from the arguments and the model configuration. */
  datatype Settings = Settings(chunkSize: int, overlap: int, maxTokens: int, parallel: int)

  /** Python's truthiness of an optional integer argument: present and non-zero. */
  predicate Truthy(x: Option<int>)
  {
    x.Some? && x.value != 0
  }

  /** The parameter checks of `__init__`. `context` is the model's context size and
      `promptTokens` the token count of the prompt template filled with the system prompt. */
  function Configure(chunkArg: Option<int>, context: int, promptTokens: nat, overlapArg: int,
                     maxTokensArg: Option<int>, parallelArg: Option<int>, modelParallel: int): Result<Settings>
  {
    var chunkSize := if Truthy(chunkArg) then chunkArg.value else context / 3;
    if !(0 < chunkSize <= context - promptTokens) then Err(InvalidChunkSize(chunkSize))
    else if !(0 <= overlapArg < chunkSize) then Err(InvalidOverlap(overlapArg))
    else
      var maxTokens := if maxTokensArg.None? then context - promptTokens - chunkSize else maxTokensArg.value;
      if maxTokens <= 0 then Err(InvalidMaxTokens(maxTokens))
      else
        var parallel := if Truthy(parallelArg) then parallelArg.value else modelParallel;
        Ok(Settings(chunkSize, overlapArg, maxTokens, if parallel > 1 then parallel else 1))
  }

  /** Which check fails, in the order `__init__` makes them, and what an accepted configuration
      guarantees: a positive chunk size that leaves room for the prompt, an overlap below the
      chunk size, positive generation room (by default exactly what the context has left), and
      the requested number of parallel tasks, raised to one. */
  lemma ConfigureChecks(chunkArg: Option<int>, context: int, promptTokens: nat, overlapArg: int,
                        maxTokensArg: Option<int>, parallelArg: Option<int>, modelParallel: int)
    ensures var r := Configure(chunkArg, context, promptTokens, overlapArg, maxTokensArg, parallelArg, modelParallel);
      var size := if Truthy(chunkArg) then chunkArg.value else context / 3;
      var room := if maxTokensArg.None? then context - promptTokens - size else maxTokensArg.value;
      var tasks := if Truthy(parallelArg) then parallelArg.value else modelParallel;
      && (r.Err? && r.error.InvalidChunkSize? <==> !(0 < size <= context - promptTokens))
      && (r.Err? && r.error.InvalidChunkSize? ==> r.error.chunkSize == size)
      && (r.Err? && r.error.InvalidOverlap? <==> 0 < size <= context - promptTokens && !(0 <= overlapArg < size))
      && (r.Err? && r.error.InvalidOverlap? ==> r.error.overlap == overlapArg)
      && (r.Err? && r.error.InvalidMaxTokens? <==>
            0 < size <= context - promptTokens && 0 <= overlapArg < size && room <= 0)
      && (r.Err? && r.error.InvalidMaxTokens? ==> r.error.maxTokens == room)
      && (r.Ok? <==> 0 < size <= context - promptTokens && 0 <= overlapArg < size && room > 0)
      && (r.Ok? ==>
            && r.value.chunkSize == size
            && 0 < r.value.chunkSize && r.value.chunkSize + promptTokens <= context
            && r.value.overlap == overlapArg && 0 <= r.value.overlap < r.value.chunkSize
            && r.value.maxTokens == room
            && (maxTokensArg.None? ==> promptTokens + r.value.chunkSize + r.value.maxTokens == context)
            && r.value.parallel >= 1 && r.value.parallel >= tasks
            && (tasks >= 1 ==> r.value.parallel == tasks))
  {
  }

  /** The largest number of tries a chunk can get: `max(1, attempts)`. */
  function MaxTries(attempts: int): nat
  {
    if attempts > 1 then attempts else 1
  }

  /** `Chunk`: a piece of one input with its place (global index, path, first line number,
      number of newlines) and the generator's bookkeeping. */
  class Chunk {
    const index: nat
    const path: string
    const lineno: int
    const lines: nat
    const input: string
    var output: string
    var attempt: nat
    var successful: bool

    constructor (index: nat, path: string, lineno: int, lines: nat, input: string)
      ensures this.index == index && this.path == path && this.lineno == lineno
      ensures this.lines == lines && this.input == input
      ensures output == [] && attempt == 0 && !successful
    {
      this.index := index;
      this.path := path;
      this.lineno := lineno;
      this.lines := lines;
      this.input := input;
      output := [];
      attempt := 0;
      successful := false;
    }
  }

  /** The chunks of one input as `read_path` builds them from `read_file`'s pairs of first
      line number and text, numbered from `first` on. */
  method MakeChunks(path: string, pairs: seq<(int, string)>, first: nat) returns (made: seq<Chunk>)
    ensures |made| == |pairs|
    ensures forall i, j :: 0 <= i < j < |made| ==> made[i] != made[j]
    ensures forall m :: 0 <= m < |made| ==>
      && fresh(made[m])
      && made[m].index == first + m && made[m].path == path
      && made[m].lineno == pairs[m].0 && made[m].input == pairs[m].1
      && made[m].lines == Newlines(made[m].input)
      && made[m].output == [] && made[m].attempt == 0 && !made[m].successful
  {
    made := [];
    var k := 0;
    while k < |pairs|
      invariant k <= |pairs| && |made| == k
      invariant forall i, j :: 0 <= i < j < k ==> made[i] != made[j]
      invariant forall m :: 0 <= m < k ==>
        && fresh(made[m])
        && made[m].index == first + m && made[m].path == path
        && made[m].lineno == pairs[m].0 && made[m].input == pairs[m].1
        && made[m].lines == Newlines(made[m].input)
        && made[m].output == [] && made[m].attempt == 0 && !made[m].successful
    {
      var c := new Chunk(first + k, path, pairs[k].0, Newlines(pairs[k].1), pairs[k].1);
      made := made + [c];
      k := k + 1;
    }
  }

  /** `read_file` may yield `pairs` for an input with lines `input`: some history of the
      chunker's buffer leads to exactly these chunks. */
  ghost predicate ReadsAs(enc: Encoder, chunkSize: nat, overlap: nat, input: seq<string>, complete: bool,
                          pairs: seq<(int, string)>)
  {
    exists appended, starts, spans :: Chunked(enc, chunkSize, overlap, input, complete, pairs, appended, starts, spans)
  }

  /** The `(path, lineno, input)` of each chunk `read_path` builds from `read_file`'s pairs. */
  function Tagged(path: string, pairs: seq<(int, string)>): (r: seq<(string, int, string)>)
    ensures |r| == |pairs|
  {
    seq(|pairs|, i requires 0 <= i < |pairs| => (path, pairs[i].0, pairs[i].1))
  }

  /** The chunks of the first `|got|` inputs, input after input, `got[f]` being what
      `read_file` yielded for `inputs[f]`. */
  function Stamps(inputs: seq<(string, seq<string>, bool)>, got: seq<seq<(int, string)>>): seq<(string, int, string)>
    requires |got| <= |inputs|
  {
    if got == [] then [] else Stamps(inputs, got[..|got| - 1]) + Tagged(inputs[|got| - 1].0, got[|got| - 1])
  }

  /** The queued chunks carry the given `(path, lineno, input)` triples, one each, in order,
      and are untouched: their newline count, no output, no try yet, not successful. */
  predicate Carries(q: seq<Chunk>, stamps: seq<(string, int, string)>)
    reads q
  {
    && |q| == |stamps|
    && forall m :: 0 <= m < |q| ==>
      && (q[m].path, q[m].lineno, q[m].input) == stamps[m]
      && q[m].lines == Newlines(q[m].input)
      && q[m].output == [] && q[m].attempt == 0 && !q[m].successful
  }

  /** The input whose reading ends `reader`: standard input that fails to decode. The
      decoding error leaves `read_path` and `reader` uncaught. */
  predicate Breaks(input: (string, seq<string>, bool))
  {
    input.0 == "-" && !input.2
  }

  /** Reading one more input appends its chunks to those of the inputs before it. */
  lemma StampsPush(inputs: seq<(string, seq<string>, bool)>, got: seq<seq<(int, string)>>,
                   pairs: seq<(int, string)>, got': seq<seq<(int, string)>>)
    requires |got| < |inputs| && got' == got + [pairs]
    ensures Stamps(inputs, got') == Stamps(inputs, got) + Tagged(inputs[|got|].0, pairs)
  {
    assert got'[..|got'| - 1] == got;
  }

  lemma SlicesOfAppend<T>(a: seq<T>, b: seq<T>, k: nat)
    requires k <= |a|
    ensures (a + b)[..k] == a[..k] && (a + b)[k..] == a[k..] + b
  {
    assert forall i :: 0 <= i < |a| - k + |b| ==> (a + b)[k..][i] == (a[k..] + b)[i];
  }

  lemma CarriesAppend(q: seq<Chunk>, stamps: seq<(string, int, string)>, made: seq<Chunk>,
                      more: seq<(string, int, string)>)
    requires Carries(q, stamps) && Carries(made, more)
    ensures Carries(q + made, stamps + more)
  {
    forall m | 0 <= m < |q| + |made|
      ensures ((q + made)[m].path, (q + made)[m].lineno, (q + made)[m].input) == (stamps + more)[m]
      ensures (q + made)[m].lines == Newlines((q + made)[m].input)
      ensures (q + made)[m].output == [] && (q + made)[m].attempt == 0 && !(q + made)[m].successful
    {
      if m >= |q| {
        assert (q + made)[m] == made[m - |q|] && (stamps + more)[m] == more[m - |q|];
      }
    }
  }

  class Processor {
    const chunkSize: nat
    const overlap: nat
    const attempts: int
    const budget: Option<int>
    const validator: Validator
    const enc: Encoder

    var nextChunkIndex: nat
    var generationCount: nat
    var failureCount: nat
    var cost: nat
    var abort: bool
    var finishedReading: bool
    /** Set when the process exits on an unknown validation mode. */
    var exited: bool
    var inputQueue: seq<Chunk>
    var outputQueue: seq<Chunk>
    /** The chunks a generator task has taken off the input queue and not yet sent on. */
    ghost var inFlight: set<Chunk>
    /** The chunks sent on unsuccessful because they ran out of tries. */
    ghost var failed: set<Chunk>

    /** The generator's bookkeeping: one running generation per chunk in flight, no chunk twice
        on the input queue or both queued and in flight, every queued chunk still has a try
        left, and no queued or in-flight chunk has succeeded or failed yet. The failure count
        is the number of failed chunks, each of which used up its tries without success. */
    ghost predicate Valid()
      reads this, inputQueue, inFlight, failed
    {
      && overlap < chunkSize
      && generationCount == |inFlight|
      && failureCount == |failed|
      && (forall i, j :: 0 <= i < j < |inputQueue| ==> inputQueue[i] != inputQueue[j])
      && (forall i :: 0 <= i < |inputQueue| ==>
            && inputQueue[i] !in inFlight && inputQueue[i] !in failed
            && inputQueue[i].attempt < MaxTries(attempts) && !inputQueue[i].successful)
      && (forall c :: c in inFlight ==> c !in failed && !c.successful)
      && (forall c :: c in failed ==> c.attempt >= attempts && !c.successful)
    }

    /** `__init__` once its checks passed. */
    constructor (s: Settings, attempts: int, budget: Option<int>, validator: Validator, enc: Encoder)
      requires 0 <= s.overlap < s.chunkSize
      ensures Valid()
      ensures chunkSize == s.chunkSize && overlap == s.overlap && this.attempts == attempts
      ensures this.budget == budget && this.validator == validator && this.enc == enc
      ensures nextChunkIndex == 0 && generationCount == 0 && failureCount == 0 && cost == 0
      ensures !abort && !finishedReading && !exited && inputQueue == [] && outputQueue == []
      ensures inFlight == {} && failed == {}
    {
      chunkSize := s.chunkSize;
      overlap := s.overlap;
      this.attempts := attempts;
      this.budget := budget;
      this.validator := validator;
      this.enc := enc;
      nextChunkIndex, generationCount, failureCount, cost := 0, 0, 0, 0;
      abort, finishedReading, exited := false, false, false;
      inputQueue, outputQueue := [], [];
      inFlight, failed := {}, {};
    }

    /** Every field but the output queue and the abort flag: what the printer leaves alone. */
    ghost function Bookkeeping(): (nat, nat, nat, nat, bool, bool, seq<Chunk>, set<Chunk>, set<Chunk>)
      reads this
    {
      (nextChunkIndex, generationCount, failureCount, cost, exited, finishedReading, inputQueue, inFlight, failed)
    }

    /** The input queue is `q0` followed by new chunks numbered on from `n0` without a gap,
        `nextChunkIndex` being the index after them. */
    ghost predicate QueuedAfter(q0: seq<Chunk>, n0: nat)
      reads this
    {
      && |q0| <= |inputQueue| && inputQueue[..|q0|] == q0
      && nextChunkIndex == n0 + (|inputQueue| - |q0|)
      && forall m :: |q0| <= m < |inputQueue| ==> inputQueue[m].index == n0 + (m - |q0|)
    }

    /** Every field the reader leaves alone: the generator's and the printer's state. */
    ghost function Untouched(): (nat, nat, nat, bool, seq<Chunk>, set<Chunk>, set<Chunk>)
      reads this
    {
      (generationCount, failureCount, cost, exited, outputQueue, inFlight, failed)
    }

    /** `stop`: raise the abort flag (cancelling the tasks is outside the model). */
    method Stop()
      modifies this
      ensures abort
      ensures Bookkeeping() == old(Bookkeeping()) && outputQueue == old(outputQueue)
    {
      abort := true;
    }

    /** Nothing is left to do: the reader is done, no generation runs, the printer holds
        nothing and both queues are empty. */
    predicate Finished(resultsEmpty: bool)
      reads this
    {
      finishedReading && generationCount == 0 && resultsEmpty && inputQueue == [] && outputQueue == []
    }

    /** `check_finished(results)`: stop once there is nothing left to do. */
    method CheckFinished(resultsEmpty: bool)
      modifies this
      ensures abort == (old(abort) || old(Finished(resultsEmpty)))
      ensures abort == (old(abort) || Finished(resultsEmpty))
      ensures Bookkeeping() == old(Bookkeeping()) && outputQueue == old(outputQueue)
    {
      if Finished(resultsEmpty) {
        Stop();
      }
    }

    /** The return value of `process`: false when no input was found, else whether no chunk
        ran out of attempts. */
    function Outcome(pathsFound: bool): (ok: bool)
      requires Valid()
      reads this, inputQueue, inFlight, failed
      ensures ok <==> pathsFound && failed == {}
      ensures !ok && pathsFound ==> exists c :: c in failed && c.attempt >= attempts && !c.successful
    {
      pathsFound && failureCount == 0
    }

    /** `read_path` for one input whose lines are `input`: the chunks `pairs` of `read_file`, each
        stamped with the next global index, the path and its number of newlines, go onto the
        input queue. `complete` is false when the file fails to decode part-way; the chunks
        yielded before the failing line stay, the rest of the file is lost. Standard input
        (`-`) is read without that protection: its decoding error is `raised` out of
        `read_path`, after the chunks before it were queued. */
    method ReadPath(path: string, input: seq<string>, complete: bool)
      returns (made: seq<Chunk>, pairs: seq<(int, string)>, raised: bool, ghost appended: seq<string>,
               ghost starts: seq<nat>, ghost spans: seq<(nat, nat)>)
      requires Valid()
      modifies this
      ensures Valid()
      ensures inputQueue == old(inputQueue) + made
      ensures nextChunkIndex == old(nextChunkIndex) + |made|
      ensures |made| == |pairs|
      ensures forall m :: 0 <= m < |made| ==>
        && fresh(made[m])
        && made[m].index == old(nextChunkIndex) + m && made[m].path == path
        && made[m].lineno == pairs[m].0 && made[m].input == pairs[m].1
        && made[m].lines == Newlines(made[m].input)
        && made[m].output == [] && made[m].attempt == 0 && !made[m].successful
      ensures raised == Breaks((path, input, complete))
      ensures Chunked(enc, chunkSize, overlap, input, complete, pairs, appended, starts, spans)
      ensures generationCount == old(generationCount) && failureCount == old(failureCount)
      ensures cost == old(cost) && abort == old(abort) && exited == old(exited)
      ensures finishedReading == old(finishedReading) && outputQueue == old(outputQueue)
      ensures inFlight == old(inFlight) && failed == old(failed)
    {
      pairs, appended, starts, spans := ReadFile(enc, input, complete, chunkSize, overlap);
      made := MakeChunks(path, pairs, nextChunkIndex);
      Enqueue(made);
      raised := path == "-" && !complete;
    }

    /** New chunks, numbered on from `nextChunkIndex`, join the input queue. */
    method Enqueue(made: seq<Chunk>)
      requires Valid()
      requires forall i, j :: 0 <= i < j < |made| ==> made[i] != made[j]
      requires forall m :: 0 <= m < |made| ==>
        && made[m] !in inputQueue && made[m] !in inFlight && made[m] !in failed
        && made[m].attempt == 0 && !made[m].successful
      modifies this
      ensures Valid()
      ensures inputQueue == old(inputQueue) + made
      ensures nextChunkIndex == old(nextChunkIndex) + |made|
      ensures generationCount == old(generationCount) && failureCount == old(failureCount)
      ensures cost == old(cost) && abort == old(abort) && exited == old(exited)
      ensures finishedReading == old(finishedReading) && outputQueue == old(outputQueue)
      ensures inFlight == old(inFlight) && failed == old(failed)
    {
      inputQueue := inputQueue + made;
      nextChunkIndex := nextChunkIndex + |made|;
    }

    /** `reader`: the inputs one after the other, each as `(path, lines, decodes)`, until the
        abort flag is seen or standard input fails to decode, whose error is `raised` out of the
        reader; reading is finished only when every input was read. `got[f]` is what
        `read_file` yielded for `inputs[f]`; the new queue entries are those chunks, input after
        input. */
    method Reader(inputs: seq<(string, seq<string>, bool)>) returns (raised: bool, ghost got: seq<seq<(int, string)>>)
      requires Valid()
      modifies this
      ensures Valid()
      ensures abort == old(abort) && finishedReading == (old(finishedReading) || (!abort && !raised))
      ensures abort ==> inputQueue == old(inputQueue) && nextChunkIndex == old(nextChunkIndex)
      ensures QueuedAfter(old(inputQueue), old(nextChunkIndex))
      ensures Untouched() == old(Untouched())
      ensures |got| <= |inputs|
      ensures old(abort) ==> got == [] && !raised
      ensures !old(abort) && !raised ==> |got| == |inputs|
      ensures raised ==> got != []
      ensures forall f :: 0 <= f < |got| ==> (Breaks(inputs[f]) <==> raised && f == |got| - 1)
      ensures forall f :: 0 <= f < |got| ==> ReadsAs(enc, chunkSize, overlap, inputs[f].1, inputs[f].2, got[f])
      ensures Carries(inputQueue[|old(inputQueue)|..], Stamps(inputs, got))
    {
      got := [];
      var f := 0;
      raised := false;
      while f < |inputs| && !abort && !raised
        invariant f <= |inputs| && |got| == f && (old(abort) ==> f == 0 && !raised)
        invariant raised ==> f > 0
        invariant forall g :: 0 <= g < f ==> (Breaks(inputs[g]) <==> raised && g == f - 1)
        invariant forall g :: 0 <= g < f ==> ReadsAs(enc, chunkSize, overlap, inputs[g].1, inputs[g].2, got[g])
        invariant Valid()
        invariant abort == old(abort) && finishedReading == old(finishedReading)
        invariant abort ==> inputQueue == old(inputQueue) && nextChunkIndex == old(nextChunkIndex)
        invariant QueuedAfter(old(inputQueue), old(nextChunkIndex))
        invariant Untouched() == old(Untouched())
        invariant Carries(inputQueue[|old(inputQueue)|..], Stamps(inputs, got))
      {
        ghost var pairs;
        raised, pairs := ReadInput(inputs, f, old(inputQueue), old(nextChunkIndex), got);
        got := got + [pairs];
        f := f + 1;
      }
      EndReading(raised);
    }

    /** The end of `reader`: reading is finished unless the abort flag was seen or an error
        was raised. */
    method EndReading(raised: bool)
      requires Valid()
      modifies this
      ensures Valid()
      ensures finishedReading == (old(finishedReading) || (!abort && !raised))
      ensures abort == old(abort) && inputQueue == old(inputQueue) && nextChunkIndex == old(nextChunkIndex)
      ensures Untouched() == old(Untouched())
    {
      if !abort && !raised {
        finishedReading := true;
      }
    }

    /** One pass of `reader`'s loop: `read_path` of input `f`, whose chunks follow those of
        the inputs before it on the queue, `q0` being the queue before the first input. */
    method ReadInput(inputs: seq<(string, seq<string>, bool)>, f: nat, ghost q0: seq<Chunk>, ghost n0: nat,
                     ghost got: seq<seq<(int, string)>>)
      returns (raised: bool, ghost pairs: seq<(int, string)>)
      requires Valid() && f < |inputs| && |got| == f
      requires QueuedAfter(q0, n0)
      requires Carries(inputQueue[|q0|..], Stamps(inputs, got))
      modifies this
      ensures Valid()
      ensures ReadsAs(enc, chunkSize, overlap, inputs[f].1, inputs[f].2, pairs)
      ensures raised == Breaks(inputs[f])
      ensures QueuedAfter(q0, n0)
      ensures Carries(inputQueue[|q0|..], Stamps(inputs, got + [pairs]))
      ensures abort == old(abort) && finishedReading == old(finishedReading)
      ensures Untouched() == old(Untouched())
    {
      ghost var before := inputQueue;
      var made, read;
      ghost var appended, starts, spans;
      made, read, raised, appended, starts, spans := ReadPath(inputs[f].0, inputs[f].1, inputs[f].2);
      pairs := read;
      SlicesOfAppend(before, made, |q0|);
      assert Carries(made, Tagged(inputs[f].0, pairs));
      CarriesAppend(before[|q0|..], Stamps(inputs, got), made, Tagged(inputs[f].0, pairs));
      StampsPush(inputs, got, pairs, got + [pairs]);
    }

    /** The start of one pass of `generator`: take the next chunk off the input queue and count
        the try. */
    method StartAttempt() returns (chunk: Chunk)
      requires Valid() && inputQueue != []
      modifies this, inputQueue[0]
      ensures Valid()
      ensures chunk == old(inputQueue[0]) && inputQueue == old(inputQueue[1..])
      ensures chunk.attempt == old(chunk.attempt) + 1 <= MaxTries(attempts)
      ensures chunk in inFlight && inFlight == old(inFlight) + {chunk} && failed == old(failed)
      ensures generationCount == old(generationCount) + 1
      ensures nextChunkIndex == old(nextChunkIndex) && failureCount == old(failureCount)
      ensures cost == old(cost) && abort == old(abort) && exited == old(exited)
      ensures finishedReading == old(finishedReading) && outputQueue == old(outputQueue)
    {
      chunk := inputQueue[0];
      inputQueue := inputQueue[1..];
      chunk.attempt := chunk.attempt + 1;
      generationCount := generationCount + 1;
      inFlight := inFlight + {chunk};
    }

    /** The end of a generation: the chunk is no longer in flight. */
    method Release(chunk: Chunk)
      requires Valid() && chunk in inFlight
      modifies this
      ensures Valid()
      ensures chunk !in inputQueue && inFlight == old(inFlight) - {chunk} && failed == old(failed)
      ensures chunk !in failed && !chunk.successful
      ensures generationCount == old(generationCount) - 1
      ensures nextChunkIndex == old(nextChunkIndex) && failureCount == old(failureCount)
      ensures cost == old(cost) && abort == old(abort) && exited == old(exited)
      ensures finishedReading == old(finishedReading)
      ensures inputQueue == old(inputQueue) && outputQueue == old(outputQueue)
    {
      generationCount := generationCount - 1;
      inFlight := inFlight - {chunk};
    }

    /** A chunk that gets another try goes back to the end of the input queue. */
    method Requeue(chunk: Chunk)
      requires Valid() && chunk !in inFlight && chunk !in inputQueue && chunk !in failed
      requires chunk.attempt < attempts && !chunk.successful
      modifies this
      ensures Valid()
      ensures inputQueue == old(inputQueue) + [chunk]
      ensures nextChunkIndex == old(nextChunkIndex) && generationCount == old(generationCount)
      ensures failureCount == old(failureCount) && cost == old(cost) && abort == old(abort)
      ensures exited == old(exited) && finishedReading == old(finishedReading)
      ensures outputQueue == old(outputQueue) && inFlight == old(inFlight)
      ensures failed == old(failed)
    {
      inputQueue := inputQueue + [chunk];
    }

    /** The rest of that pass once the model answered with `replies`: retry, give up (counting
        a failure), or accept the shortest valid reply, charge the attempt's cost and stop when
        over budget; the generation count drops again in every case. */
    method FinishAttempt(chunk: Chunk, replies: seq<Reply>) returns (d: Decision)
      requires Valid() && chunk in inFlight
      modifies this, chunk
      ensures Valid()
      ensures d == Decide(Verifier(validator), old(chunk.attempt), attempts, replies)
      ensures chunk !in inFlight && inFlight == old(inFlight) - {chunk}
      ensures generationCount == old(generationCount) - 1
      ensures chunk.attempt == old(chunk.attempt)
      ensures inputQueue == if d.Retry? then old(inputQueue) + [chunk] else old(inputQueue)
      ensures outputQueue == if d.GiveUp? || d.Accept? then old(outputQueue) + [chunk] else old(outputQueue)
      ensures failureCount == old(failureCount) + (if d.GiveUp? then 1 else 0)
      ensures failed == if d.GiveUp? then old(failed) + {chunk} else old(failed)
      ensures cost == old(cost) + (if d.Accept? then d.cost else 0)
      ensures d.Accept? ==> chunk.output == d.text && chunk.successful
      ensures !d.Accept? ==> chunk.output == old(chunk.output) && chunk.successful == old(chunk.successful)
      ensures abort == (old(abort) || (d.Accept? && Truthy(budget) && cost > budget.value))
      ensures exited == (old(exited) || d.Terminate?)
      ensures nextChunkIndex == old(nextChunkIndex) && finishedReading == old(finishedReading)
    {
      d := Decide(Verifier(validator), chunk.attempt, attempts, replies);
      Settle(chunk, d);
    }

    /** Carrying out decision `d` for a chunk in flight; a retry needs a try left. */
    method Settle(chunk: Chunk, d: Decision)
      requires Valid() && chunk in inFlight
      requires d.Retry? ==> chunk.attempt < attempts
      requires d.GiveUp? ==> chunk.attempt >= attempts
      modifies this, chunk
      ensures Valid()
      ensures chunk !in inFlight && inFlight == old(inFlight) - {chunk}
      ensures generationCount == old(generationCount) - 1
      ensures chunk.attempt == old(chunk.attempt)
      ensures inputQueue == if d.Retry? then old(inputQueue) + [chunk] else old(inputQueue)
      ensures outputQueue == if d.GiveUp? || d.Accept? then old(outputQueue) + [chunk] else old(outputQueue)
      ensures failureCount == old(failureCount) + (if d.GiveUp? then 1 else 0)
      ensures failed == if d.GiveUp? then old(failed) + {chunk} else old(failed)
      ensures cost == old(cost) + (if d.Accept? then d.cost else 0)
      ensures d.Accept? ==> chunk.output == d.text && chunk.successful
      ensures !d.Accept? ==> chunk.output == old(chunk.output) && chunk.successful == old(chunk.successful)
      ensures abort == (old(abort) || (d.Accept? && Truthy(budget) && cost > budget.value))
      ensures exited == (old(exited) || d.Terminate?)
      ensures nextChunkIndex == old(nextChunkIndex) && finishedReading == old(finishedReading)
    {
      Release(chunk);
      match d {
        case Terminate =>
          exited := true;
        case Retry =>
          Requeue(chunk);
        case GiveUp =>
          Fail(chunk);
        case Accept(text, c) =>
          Deliver(chunk, text, c);
      }
    }

    /** A chunk out of tries is sent on unsuccessful and counted as a failure. */
    method Fail(chunk: Chunk)
      requires Valid() && chunk !in inFlight && chunk !in inputQueue && chunk !in failed
      requires chunk.attempt >= attempts && !chunk.successful
      modifies this
      ensures Valid()
      ensures outputQueue == old(outputQueue) + [chunk]
      ensures failureCount == old(failureCount) + 1 && failed == old(failed) + {chunk}
      ensures nextChunkIndex == old(nextChunkIndex) && generationCount == old(generationCount)
      ensures cost == old(cost) && abort == old(abort) && exited == old(exited)
      ensures finishedReading == old(finishedReading) && inputQueue == old(inputQueue) && inFlight == old(inFlight)
    {
      outputQueue := outputQueue + [chunk];
      failureCount := failureCount + 1;
      failed := failed + {chunk};
    }

    /** A chunk with an accepted reply is sent on successful with that text; the attempt's cost
        is charged and the run stops once a budget is set and exceeded. */
    method Deliver(chunk: Chunk, text: string, c: nat)
      requires Valid() && chunk !in inFlight && chunk !in inputQueue && chunk !in failed
      modifies this, chunk
      ensures Valid()
      ensures chunk.output == text && chunk.successful && chunk.attempt == old(chunk.attempt)
      ensures outputQueue == old(outputQueue) + [chunk] && cost == old(cost) + c
      ensures abort == (old(abort) || (Truthy(budget) && cost > budget.value))
      ensures nextChunkIndex == old(nextChunkIndex) && generationCount == old(generationCount)
      ensures failureCount == old(failureCount) && failed == old(failed) && exited == old(exited)
      ensures finishedReading == old(finishedReading) && inputQueue == old(inputQueue) && inFlight == old(inFlight)
    {
      chunk.output := text;
      chunk.successful := true;
      outputQueue := outputQueue + [chunk];
      cost := cost + c;
      if Truthy(budget) && cost > budget.value {
        Stop();
      }
    }
  }
}
