/** The printer task of `Processor`: chunks come off the output queue in any order and are
    written out in index order through a reorder buffer, until the abort flag is raised. */
module Printing {
  import opened Text
  import opened Processing

  /** A chunk as the printer wrote it out: printed when it succeeded, logged as failed when it
      ran out of attempts. */
  datatype Written = Written(index: nat, successful: bool, output: string)

  /** What went to standard output for the chunks `ws`: the outputs of the successful ones. */
  function Printed(ws: seq<Written>): (out: seq<string>)
    ensures |out| <= |ws|
  {
    if ws == [] then []
    else Printed(ws[..|ws| - 1]) + (if ws[|ws| - 1].successful then [ws[|ws| - 1].output] else [])
  }

  /** The chunk `c` as the printer writes it out. */
  function Snapshot(c: Chunk): (w: Written)
    reads c
    ensures w.index == c.index && w.successful == c.successful && w.output == c.output
  {
    Written(c.index, c.successful, c.output)
  }

  /** The reorder buffer `slots` with `w` stored in slot `k`: empty slots are reserved up to
      `k`, every other slot keeps what it held. */
  function Place(slots: seq<Option<Written>>, k: nat, w: Written): (r: seq<Option<Written>>)
    ensures |r| == if k < |slots| then |slots| else k + 1
    ensures r[k] == Some(w)
    ensures forall j :: 0 <= j < |slots| && j != k ==> r[j] == slots[j]
    ensures forall j :: |slots| <= j < |r| && j != k ==> r[j].None?
  {
    if k < |slots| then slots[k := Some(w)]
    else slots + seq(k - |slots|, _ => None) + [Some(w)]
  }

  /** Every chunk in the buffer `slots` whose front slot waits for index `first` sits in its
      own slot. */
  ghost predicate Slotted(first: nat, slots: seq<Option<Written>>)
  {
    forall k :: 0 <= k < |slots| && slots[k].Some? ==> slots[k].value.index == first + k
  }

  /** An index is in `seen` exactly when it is below `first`, so written out, or buffered in
      `slots`. */
  ghost predicate Tracks(seen: set<nat>, first: nat, slots: seq<Option<Written>>)
  {
    forall x: nat :: x in seen <==> x < first || (x - first < |slots| && slots[x - first].Some?)
  }

  /** Writing out the front slot keeps both. */
  lemma FrontOut(seen: set<nat>, first: nat, slots: seq<Option<Written>>)
    requires Slotted(first, slots) && Tracks(seen, first, slots)
    requires slots != [] && slots[0].Some?
    ensures Slotted(first + 1, slots[1..]) && Tracks(seen, first + 1, slots[1..])
  {
    forall x: nat
      ensures x in seen <==> x < first + 1 || (x - (first + 1) < |slots[1..]| && slots[1..][x - (first + 1)].Some?)
    {
      if first < x < first + |slots| {
        assert slots[1..][x - (first + 1)] == slots[x - first];
      }
    }
  }

  /** Storing a chunk in its slot keeps both and adds its index to `seen`. */
  lemma StoreIn(seen: set<nat>, first: nat, slots: seq<Option<Written>>, w: Written)
    requires Slotted(first, slots) && Tracks(seen, first, slots)
    requires w.index >= first
    ensures Slotted(first, Place(slots, w.index - first, w))
    ensures Tracks(seen + {w.index}, first, Place(slots, w.index - first, w))
  {
  }

  /** Padding `slots` with empty slots up to `k` and then storing `w` in slot `k` is `Place`. */
  lemma PaddedPlace(slots: seq<Option<Written>>, padded: seq<Option<Written>>, k: nat, w: Written)
    requires |slots| <= |padded| <= if k < |slots| then |slots| else k + 1
    requires k < |padded|
    requires padded[..|slots|] == slots
    requires forall j :: |slots| <= j < |padded| ==> padded[j].None?
    ensures padded[k := Some(w)] == Place(slots, k, w)
  {
    var placed := Place(slots, k, w);
    forall j | 0 <= j < |padded|
      ensures padded[k := Some(w)][j] == placed[j]
    {
      if j < |slots| && j != k {
        assert padded[..|slots|][j] == padded[j];
      }
    }
  }

  /** The buffer `before` was drained into the written-out chunks `done`: they are its leading
      slots, in order, and `rest` is what remains of it. */
  ghost predicate DrainedFrom(before: seq<Option<Written>>, done: seq<Written>, rest: seq<Option<Written>>)
  {
    && |done| <= |before| && rest == before[|done|..]
    && forall m :: 0 <= m < |done| ==> before[m] == Some(done[m])
  }

  /** Writing out the front slot of `rest` drains one more slot. */
  lemma DrainedStep(before: seq<Option<Written>>, done: seq<Written>, rest: seq<Option<Written>>)
    requires DrainedFrom(before, done, rest) && rest != [] && rest[0].Some?
    ensures DrainedFrom(before, done + [rest[0].value], rest[1..])
  {
    assert before[|done|] == rest[0];
  }

  /** The index of every chunk of `cs` differs from that of every other. */
  predicate UniqueIndices(cs: seq<Chunk>)
  {
    forall i, j :: 0 <= i < j < |cs| ==> cs[i].index != cs[j].index
  }

  class Printer {
    /** `--abort`: stop after this many chunks were written out. */
    const abortAt: Option<int>
    /** The reorder buffer: slot `k` waits for the chunk with index `firstIndex + k`. It holds
        the chunk as it was when it came off the output queue. */
    var results: seq<Option<Written>>
    var firstIndex: nat
    var printCount: nat
    /** The chunks written out, in order. */
    var emitted: seq<Written>
    /** What went to standard output. */
    var printed: seq<string>
    /** The indices of the chunks taken off the output queue. */
    ghost var seen: set<nat>

    /** Chunks are written out gap-free from index 0 on; every buffered chunk sits in its own
        slot; an index came off the queue exactly when it is written out or buffered. */
    ghost predicate Valid()
      reads this
    {
      && |emitted| == firstIndex == printCount
      && printed == Printed(emitted)
      && (forall m :: 0 <= m < |emitted| ==> emitted[m].index == m)
      && Slotted(firstIndex, results)
      && Tracks(seen, firstIndex, results)
    }

    constructor (abortAt: Option<int>)
      ensures Valid()
      ensures this.abortAt == abortAt && results == [] && firstIndex == 0 && printCount == 0
      ensures emitted == [] && printed == [] && seen == {}
    {
      this.abortAt := abortAt;
      results, firstIndex, printCount := [], 0, 0;
      emitted, printed, seen := [], [], {};
    }

    /** The `--abort` limit was reached by writing out chunks after the first `before`. */
    predicate LimitReached(before: nat)
      reads this
    {
      abortAt.Some? && printCount > before && printCount >= abortAt.value
    }

    /** The most chunks written out once `before` were: up to `abortAt`, or, when that many
        were written already, the one more after which the abort is raised. */
    function AbortBound(before: nat): nat
      requires abortAt.Some?
      reads this
    {
      if before < abortAt.value then abortAt.value else before + 1
    }

    /** One pass of the printer loop: take the next chunk off `p`'s output queue, store it,
        write out what is ready, then check whether the run is finished. */
    method Receive(p: Processor)
      requires Valid()
      requires p.outputQueue != [] && p.outputQueue[0].index >= firstIndex
      modifies this, p
      ensures Valid()
      ensures seen == old(seen) + {old(p.outputQueue[0].index)}
      ensures p.outputQueue == old(p.outputQueue[1..])
      ensures |old(emitted)| <= |emitted| && emitted[..|old(emitted)|] == old(emitted)
      ensures DrainedFrom(Place(old(results), old(p.outputQueue[0].index) - old(firstIndex), old(Snapshot(p.outputQueue[0]))),
                          emitted[|old(emitted)|..], results)
      ensures old(p.abort) ==> emitted == old(emitted)
      ensures !p.abort ==> results == [] || results[0].None?
      ensures abortAt.Some? && old(printCount) < abortAt.value ==> printCount <= abortAt.value
      ensures abortAt.Some? && !old(p.abort) ==> printCount <= AbortBound(old(printCount))
      ensures p.abort == (old(p.abort) || LimitReached(old(printCount)) || p.Finished(results == []))
      ensures p.Bookkeeping() == old(p.Bookkeeping())
    {
      var chunk := Snapshot(p.outputQueue[0]);
      p.outputQueue := p.outputQueue[1..];
      Store(chunk);
      Drain(p);
      p.CheckFinished(results == []);
    }

    /** Reserve empty slots up to the chunk's index and put it in its slot. */
    method Store(chunk: Written)
      requires Valid() && chunk.index >= firstIndex
      modifies this
      ensures Valid()
      ensures firstIndex == old(firstIndex) && printCount == old(printCount)
      ensures results == Place(old(results), chunk.index - firstIndex, chunk)
      ensures seen == old(seen) + {chunk.index}
      ensures emitted == old(emitted) && printed == old(printed)
    {
      StoreIn(seen, firstIndex, results, chunk);
      var k := chunk.index - firstIndex;
      var before := results;
      var slots := before;
      while k >= |slots|
        invariant |before| <= |slots| <= if k < |before| then |before| else k + 1
        invariant slots[..|before|] == before
        invariant forall j :: |before| <= j < |slots| ==> slots[j].None?
        decreases k - |slots|
      {
        slots := slots + [None];
      }
      PaddedPlace(before, slots, k, chunk);
      results := slots[k := Some(chunk)];
      seen := seen + {chunk.index};
    }

    /** Write out the ready prefix of the buffer while not aborted; raise the abort once
        `abortAt` chunks were written. */
    method Drain(p: Processor)
      requires Valid()
      modifies this, p
      ensures Valid()
      ensures seen == old(seen)
      ensures |old(emitted)| <= |emitted| && emitted[..|old(emitted)|] == old(emitted)
      ensures DrainedFrom(old(results), emitted[|old(emitted)|..], results)
      ensures old(p.abort) ==> emitted == old(emitted)
      ensures !p.abort ==> results == [] || results[0].None?
      ensures abortAt.Some? && old(printCount) < abortAt.value ==> printCount <= abortAt.value
      ensures abortAt.Some? && !old(p.abort) ==> printCount <= AbortBound(old(printCount))
      ensures p.abort == (old(p.abort) || LimitReached(old(printCount)))
      ensures p.Bookkeeping() == old(p.Bookkeeping()) && p.outputQueue == old(p.outputQueue)
    {
      ghost var done: seq<Written> := [];
      while !p.abort && results != [] && results[0].Some?
        invariant Valid()
        invariant seen == old(seen)
        invariant emitted == old(emitted) + done
        invariant DrainedFrom(old(results), done, results)
        invariant old(p.abort) ==> done == []
        invariant abortAt.Some? && old(printCount) < abortAt.value ==> printCount <= abortAt.value
        invariant abortAt.Some? && !old(p.abort) ==> printCount <= AbortBound(old(printCount))
        invariant p.abort == (old(p.abort) || LimitReached(old(printCount)))
        invariant p.Bookkeeping() == old(p.Bookkeeping()) && p.outputQueue == old(p.outputQueue)
        decreases |results|
      {
        DrainedStep(old(results), done, results);
        done := done + [results[0].value];
        DrainFront(p);
      }
      assert emitted[|old(emitted)|..] == done;
    }

    /** One pass of `Drain`'s loop: write the front chunk out, then raise the abort when
        `abortAt` chunks have been written. */
    method DrainFront(p: Processor)
      requires Valid() && !p.abort && results != [] && results[0].Some?
      modifies this, p
      ensures Valid()
      ensures emitted == old(emitted) + [old(results[0]).value]
      ensures results == old(results[1..]) && printCount == old(printCount) + 1 && seen == old(seen)
      ensures p.abort == (abortAt.Some? && printCount >= abortAt.value)
      ensures p.Bookkeeping() == old(p.Bookkeeping()) && p.outputQueue == old(p.outputQueue)
    {
      WriteFront();
      if abortAt.Some? && printCount >= abortAt.value {
        p.Stop();
      }
    }

    /** Take the chunk in the front slot out of the buffer and write it out. */
    method WriteFront()
      requires Valid() && results != [] && results[0].Some?
      modifies this
      ensures Valid()
      ensures emitted == old(emitted) + [old(results[0]).value]
      ensures printed == old(printed) + (if old(results[0]).value.successful then [old(results[0]).value.output] else [])
      ensures results == old(results[1..]) && printCount == old(printCount) + 1 && seen == old(seen)
    {
      FrontOut(seen, firstIndex, results);
      var result := results[0].value;
      assert result.index == |emitted|;
      results := results[1..];
      firstIndex := firstIndex + 1;
      PrintedAppend(emitted, result);
      emitted := emitted + [result];
      if result.successful {
        printed := printed + [result.output];
      }
      printCount := printCount + 1;
    }

    /** The printer loop over the chunks already on the output queue, as long as no abort is
        raised. When every queued index is new to the printer and differs from the others, the
        assertion of the loop never fails and every queued chunk is taken in. */
    method Run(p: Processor)
      requires Valid()
      requires UniqueIndices(p.outputQueue)
      requires forall i :: 0 <= i < |p.outputQueue| ==> p.outputQueue[i].index !in seen
      modifies this, p
      ensures Valid()
      ensures p.abort || p.outputQueue == []
      ensures !p.abort ==> forall i :: 0 <= i < |old(p.outputQueue)| ==> old(p.outputQueue)[i].index in seen
    {
      ghost var queue := p.outputQueue;
      while !p.abort && p.outputQueue != []
        invariant Valid()
        invariant |p.outputQueue| <= |queue| && p.outputQueue == queue[|queue| - |p.outputQueue|..]
        invariant forall i :: 0 <= i < |queue| - |p.outputQueue| ==> queue[i].index in seen
        invariant forall i :: 0 <= i < |p.outputQueue| ==> p.outputQueue[i].index !in seen
        decreases |p.outputQueue|
      {
        ghost var before := p.outputQueue;
        assert before[0].index !in seen;
        Receive(p);
        assert p.outputQueue == queue[|queue| - |p.outputQueue|..];
        forall i | 0 <= i < |p.outputQueue|
          ensures p.outputQueue[i].index !in seen
        {
          assert p.outputQueue[i] == before[i + 1];
        }
      }
    }
  }

  /** Once the buffer's front slot is empty and every index below `n` came off the queue, the
      chunks with indices `0 .. n - 1` have all been written out, in index order. */
  lemma AllWrittenOut(pr: Printer, n: nat)
    requires pr.Valid()
    requires pr.results == [] || pr.results[0].None?
    requires forall x: nat :: x < n ==> x in pr.seen
    ensures n <= |pr.emitted| && forall m :: 0 <= m < n ==> pr.emitted[m].index == m
  {
    // The index after the written-out prefix was seen, so it would sit in the front slot.
    ghost var front := pr.firstIndex in pr.seen;
  }

  lemma PrintedAppend(ws: seq<Written>, w: Written)
    ensures Printed(ws + [w]) == Printed(ws) + (if w.successful then [w.output] else [])
  {
    assert (ws + [w])[..|ws|] == ws;
  }
}
