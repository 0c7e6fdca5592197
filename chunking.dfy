/** The line chunker of `Processor.read_file`: buffers lines while their token tally stays
    below the chunk size, flushes the buffer as one chunk when the next line would reach it,
    and keeps a trailing overlap of at most `chunk_overlap` tokens. */
module Chunking {
  import opened Text
  import opened Utils

  /** The running tally `tokens`: the sum of `count_tokens` over the buffered lines. */
  function Tally(enc: Encoder, lines: seq<string>): nat
  {
    if lines == [] then 0 else CountTokens(enc, lines[0]) + Tally(enc, lines[1..])
  }

  lemma {:induction false} TallyAppend(enc: Encoder, lines: seq<string>, line: string)
    ensures Tally(enc, lines + [line]) == Tally(enc, lines) + CountTokens(enc, line)
  {
    if lines == [] {
      assert [] + [line] == [line];
    } else {
      assert (lines + [line])[1..] == lines[1..] + [line];
      TallyAppend(enc, lines[1..], line);
    }
  }

  /** Dropping leading lines never raises the tally. */
  lemma {:induction false} TallySuffix(enc: Encoder, lines: seq<string>, j: nat)
    requires j <= |lines|
    ensures Tally(enc, lines[j..]) <= Tally(enc, lines)
  {
    if j > 0 {
      assert lines[j..] == lines[1..][j - 1..];
      TallySuffix(enc, lines[1..], j - 1);
    }
  }

  /** A whitespace-only join is made of whitespace-only lines. */
  lemma {:induction false} BlankConcat(lines: seq<string>)
    requires IsBlank(Concat(lines))
    ensures forall i :: 0 <= i < |lines| ==> IsBlank(lines[i])
  {
    if lines != [] {
      var c := Concat(lines);
      assert c == lines[0] + Concat(lines[1..]);
      assert forall i :: 0 <= i < |lines[0]| ==> lines[0][i] == c[i];
      assert forall i :: 0 <= i < |Concat(lines[1..])| ==> Concat(lines[1..])[i] == c[|lines[0]| + i];
      BlankConcat(lines[1..]);
      assert forall i :: 1 <= i < |lines| ==> lines[i] == lines[1..][i - 1];
    }
  }

  /** The 95% steps of the long-line trim: while the text is not empty, counts some tokens and
      counts more than `c`, keep the first 95% of its characters. */
  function Shrunk(enc: Encoder, s: string, c: nat): string
    decreases |s|
  {
    if s != [] && CountTokens(enc, s) != 0 && CountTokens(enc, s) > c
    then StepShortens(|s|); Shrunk(enc, s[..|s| * 95 / 100], c)
    else s
  }

  /** The long-line trim of a line that counts tokens, at least `c` of them: the prefix
      proportional to `c` over its count, then the 95% steps. */
  function Trimmed(enc: Encoder, line: string, c: nat): string
    requires 0 < CountTokens(enc, line) && c <= CountTokens(enc, line)
  {
    ProportionalCut(|line|, c, CountTokens(enc, line));
    Shrunk(enc, line[..|line| * c / CountTokens(enc, line)], c)
  }

  lemma StepShortens(n: nat)
    requires n > 0
    ensures n * 95 / 100 < n
  {
  }

  lemma ProportionalCut(n: nat, c: nat, t: nat)
    requires 0 < t && c <= t
    ensures n * c / t <= n
  {
    assert n * c <= n * t;
    assert n * t / t == n;
  }

  /** The 95% steps keep a prefix of the text, and it fits: at most `c` tokens. */
  lemma {:induction false} ShrunkFits(enc: Encoder, s: string, c: nat)
    ensures Shrunk(enc, s, c) <= s
    ensures CountTokens(enc, Shrunk(enc, s, c)) <= c
  {
    if s != [] && CountTokens(enc, s) != 0 && CountTokens(enc, s) > c {
      StepShortens(|s|);
      ShrunkFits(enc, s[..|s| * 95 / 100], c);
    }
  }

  /** The trimmed line is a prefix of the line with at most `c` tokens. */
  lemma TrimmedFits(enc: Encoder, line: string, c: nat)
    requires CountTokens(enc, line) > 0 && c <= CountTokens(enc, line)
    ensures Trimmed(enc, line, c) <= line
    ensures CountTokens(enc, Trimmed(enc, line, c)) <= c
  {
    ProportionalCut(|line|, c, CountTokens(enc, line));
    ShrunkFits(enc, line[..|line| * c / CountTokens(enc, line)], c);
  }

  /** The long-line trim: a line that alone reaches `chunkSize` while the buffer holds no
      tokens is cut to the prefix proportional to the chunk size over its count, then
      shortened in 95% steps until it fits. */
  method TrimLongLine(enc: Encoder, line: string, lineTokens: nat, chunkSize: nat)
    returns (cut: string, cutTokens: nat)
    requires 0 < chunkSize <= lineTokens
    requires lineTokens == CountTokens(enc, line)
    ensures cut == Trimmed(enc, line, chunkSize)
    ensures cut <= line
    ensures cutTokens == CountTokens(enc, cut)
    ensures cutTokens <= chunkSize
  {
    ProportionalCut(|line|, chunkSize, lineTokens);
    cut := line[..|line| * chunkSize / lineTokens];
    cutTokens := CountTokens(enc, cut);
    while cut != [] && cutTokens != 0 && cutTokens > chunkSize
      invariant cut <= line
      invariant cutTokens == CountTokens(enc, cut)
      invariant Shrunk(enc, cut, chunkSize) == Trimmed(enc, line, chunkSize)
      decreases |cut|
    {
      var keep := |cut| * 95 / 100;
      StepShortens(|cut|);
      cut := cut[..keep];
      cutTokens := CountTokens(enc, cut);
    }
  }

  /** Each of the first `n` suffixes `lines[j..]` tallies above `overlap`. */
  ghost predicate DropsExceed(enc: Encoder, lines: seq<string>, overlap: nat, n: nat)
    requires n <= |lines|
  {
    n == 0 || (DropsExceed(enc, lines, overlap, n - 1) && Tally(enc, lines[n - 1..]) > overlap)
  }

  lemma {:induction false} DropsExceedMeans(enc: Encoder, lines: seq<string>, overlap: nat, n: nat)
    requires n <= |lines| && DropsExceed(enc, lines, overlap, n)
    ensures forall j :: 0 <= j < n ==> Tally(enc, lines[j..]) > overlap
  {
    if n > 0 {
      DropsExceedMeans(enc, lines, overlap, n - 1);
    }
  }

  /** The overlap branch of a flush: leading lines are dropped while the tally is above
      `overlap`; each dropped line advances the line number by its newlines. */
  method EvictForOverlap(enc: Encoder, lines: seq<string>, tokens: nat, lineno: int, overlap: nat)
    returns (kept: seq<string>, keptTokens: nat, nextLineno: int, ghost dropped: nat)
    requires tokens == Tally(enc, lines)
    ensures dropped <= |lines| && kept == lines[dropped..]
    ensures keptTokens == Tally(enc, kept)
    ensures kept == [] || keptTokens <= overlap
    ensures DropsExceed(enc, lines, overlap, dropped)
    ensures nextLineno == lineno + Newlines(Concat(lines[..dropped]))
  {
    var e := 0;
    keptTokens, nextLineno := tokens, lineno;
    assert lines[0..] == lines && lines[..0] == [];
    while e < |lines| && keptTokens > overlap
      invariant e <= |lines|
      invariant keptTokens == Tally(enc, lines[e..])
      invariant DropsExceed(enc, lines, overlap, e)
      invariant nextLineno == lineno + Newlines(Concat(lines[..e]))
    {
      TallyStep(enc, lines, e);
      NewlinesStep(lines, e);
      keptTokens := keptTokens - CountTokens(enc, lines[e]);
      nextLineno := nextLineno + Newlines(lines[e]);
      e := e + 1;
    }
    kept, dropped := lines[e..], e;
  }

  /** Dropping the line at the head of `lines[e..]` takes its count off the tally. */
  lemma TallyStep(enc: Encoder, lines: seq<string>, e: nat)
    requires e < |lines|
    ensures Tally(enc, lines[e..]) == CountTokens(enc, lines[e]) + Tally(enc, lines[e + 1..])
  {
    assert lines[e..][1..] == lines[e + 1..];
  }

  /** Passing one more line adds its newlines to the line number. */
  lemma NewlinesStep(lines: seq<string>, e: nat)
    requires e < |lines|
    ensures Newlines(Concat(lines[..e + 1])) == Newlines(Concat(lines[..e])) + Newlines(lines[e])
  {
    assert lines[..e + 1] == lines[..e] + [lines[e]];
    ConcatAppend(lines[..e], [lines[e]]);
    assert Concat([lines[e]]) == lines[e] + Concat([]);
    assert lines[e] + [] == lines[e];
    NewlinesAppend(Concat(lines[..e]), lines[e]);
  }

  /** Line `i` of the buffer history is whitespace only or lies inside an emitted chunk. */
  ghost predicate Covered(appended: seq<string>, spans: seq<(nat, nat)>, i: nat)
    requires i < |appended|
  {
    IsBlank(appended[i]) || exists c :: 0 <= c < |spans| && spans[c].0 <= i < spans[c].1
  }

  /** Position `i` lies in one of `spans`, searched from the last one back. */
  ghost predicate InSpans(spans: seq<(nat, nat)>, i: nat)
    decreases |spans|
  {
    spans != [] && (spans[|spans| - 1].0 <= i < spans[|spans| - 1].1 || InSpans(spans[..|spans| - 1], i))
  }

  lemma {:induction false} InSpansIff(spans: seq<(nat, nat)>, i: nat)
    ensures InSpans(spans, i) <==> exists c :: 0 <= c < |spans| && spans[c].0 <= i < spans[c].1
    decreases |spans|
  {
    if spans != [] {
      var n := |spans| - 1;
      InSpansIff(spans[..n], i);
      if exists c :: 0 <= c < |spans| && spans[c].0 <= i < spans[c].1 {
        var c :| 0 <= c < |spans| && spans[c].0 <= i < spans[c].1;
        if c < n {
          assert spans[..n][c] == spans[c];
        }
      }
      if InSpans(spans[..n], i) {
        var c :| 0 <= c < n && spans[..n][c].0 <= i < spans[..n][c].1;
        assert spans[c] == spans[..n][c];
      }
    }
  }

  /** Every one of the first `n` lines is covered. */
  ghost predicate CoveredUpTo(appended: seq<string>, spans: seq<(nat, nat)>, n: nat)
    requires n <= |appended|
  {
    n == 0 || (CoveredUpTo(appended, spans, n - 1) && (IsBlank(appended[n - 1]) || InSpans(spans, n - 1)))
  }

  lemma {:induction false} CoveredUpToIff(appended: seq<string>, spans: seq<(nat, nat)>, n: nat)
    requires n <= |appended|
    ensures CoveredUpTo(appended, spans, n) <==> forall i :: 0 <= i < n ==> Covered(appended, spans, i)
  {
    if n > 0 {
      CoveredUpToIff(appended, spans, n - 1);
      InSpansIff(spans, n - 1);
      assert Covered(appended, spans, n - 1) <==> IsBlank(appended[n - 1]) || InSpans(spans, n - 1);
    }
  }

  /** The yielded pair is the join of its span of buffered lines, starting at the line number
      reached after every line before the span, and is not whitespace only. */
  ghost predicate ChunkOf(appended: seq<string>, chunk: (int, string), span: (nat, nat))
  {
    && span.0 < span.1 <= |appended|
    && chunk.1 == Concat(appended[span.0..span.1])
    && chunk.0 == 1 + Newlines(Concat(appended[..span.0]))
    && !IsBlank(chunk.1)
  }

  /** Chunk `b` starts after chunk `a` ends, or (only when an overlap is configured) the lines
      the two share hold at most `overlap` tokens. */
  ghost predicate SharesAtMost(enc: Encoder, appended: seq<string>, a: (nat, nat), b: (nat, nat), overlap: nat)
  {
    a.1 <= b.0 || (a.1 <= |appended| && overlap > 0 && Tally(enc, appended[b.0..a.1]) <= overlap)
  }

  /** Chunk `b` follows chunk `a`: it starts no earlier, ends later, and shares at most
      `overlap` tokens with it. */
  ghost predicate Follows(enc: Encoder, overlap: nat, appended: seq<string>, a: (nat, nat), b: (nat, nat))
  {
    a.0 <= b.0 && a.1 < b.1 && SharesAtMost(enc, appended, a, b, overlap)
  }

  /** The yielded chunks so far: each is the join of its span, and each follows the one
      before it. */
  ghost predicate ChunksInv(enc: Encoder, overlap: nat, appended: seq<string>,
                            chunks: seq<(int, string)>, spans: seq<(nat, nat)>)
    decreases |chunks|
  {
    && |spans| == |chunks|
    && (chunks != [] ==>
          var n := |chunks| - 1;
          && ChunksInv(enc, overlap, appended, chunks[..n], spans[..n])
          && ChunkOf(appended, chunks[n], spans[n])
          && (n > 0 ==> Follows(enc, overlap, appended, spans[n - 1], spans[n])))
  }

  /** What the chunk invariant says about every chunk and every consecutive pair. */
  lemma ChunksInvMeans(enc: Encoder, overlap: nat, appended: seq<string>,
                       chunks: seq<(int, string)>, spans: seq<(nat, nat)>)
    requires ChunksInv(enc, overlap, appended, chunks, spans)
    ensures |spans| == |chunks|
    ensures forall c :: 0 <= c < |chunks| ==> ChunkOf(appended, chunks[c], spans[c])
    ensures forall c :: 0 < c < |chunks| ==> Follows(enc, overlap, appended, spans[c - 1], spans[c])
  {
    EveryChunkOf(enc, overlap, appended, chunks, spans);
    EveryPairFollows(enc, overlap, appended, chunks, spans);
  }

  lemma {:induction false} EveryChunkOf(enc: Encoder, overlap: nat, appended: seq<string>,
                                        chunks: seq<(int, string)>, spans: seq<(nat, nat)>)
    requires ChunksInv(enc, overlap, appended, chunks, spans)
    ensures forall c :: 0 <= c < |chunks| ==> ChunkOf(appended, chunks[c], spans[c])
    decreases |chunks|
  {
    if chunks != [] {
      var n := |chunks| - 1;
      EveryChunkOf(enc, overlap, appended, chunks[..n], spans[..n]);
      forall c | 0 <= c < n
        ensures chunks[c] == chunks[..n][c] && spans[c] == spans[..n][c]
      {
      }
    }
  }

  lemma {:induction false} EveryPairFollows(enc: Encoder, overlap: nat, appended: seq<string>,
                                            chunks: seq<(int, string)>, spans: seq<(nat, nat)>)
    requires ChunksInv(enc, overlap, appended, chunks, spans)
    ensures forall c :: 0 < c < |chunks| ==> Follows(enc, overlap, appended, spans[c - 1], spans[c])
    decreases |chunks|
  {
    if chunks != [] {
      var n := |chunks| - 1;
      EveryPairFollows(enc, overlap, appended, chunks[..n], spans[..n]);
      forall c | 0 <= c < n
        ensures spans[c] == spans[..n][c]
      {
      }
    }
  }

  /** Appending a chunk that follows the last one keeps the invariant. */
  lemma ChunksInvPush(enc: Encoder, overlap: nat, appended: seq<string>,
                      chunks: seq<(int, string)>, spans: seq<(nat, nat)>, chunk: (int, string), span: (nat, nat))
    requires ChunksInv(enc, overlap, appended, chunks, spans)
    requires ChunkOf(appended, chunk, span)
    requires chunks != [] ==> Follows(enc, overlap, appended, spans[|spans| - 1], span)
    ensures ChunksInv(enc, overlap, appended, chunks + [chunk], spans + [span])
  {
    assert (chunks + [chunk])[..|chunks|] == chunks;
    assert (spans + [span])[..|spans|] == spans;
  }

  /** The buffer holds the lines not yet evicted, `tokens` is their tally and `lineno` the
      line number of the first of them. */
  ghost predicate BufferOf(enc: Encoder, appended: seq<string>, lines: seq<string>,
                           tokens: nat, lineno: int, evicted: nat)
  {
    && evicted <= |appended| && lines == appended[evicted..]
    && tokens == Tally(enc, lines)
    && lineno == 1 + Newlines(Concat(appended[..evicted]))
  }

  /** The last chunk lies before the buffer's end and shares at most `overlap` tokens with it. */
  ghost predicate TailInv(enc: Encoder, overlap: nat, appended: seq<string>, evicted: nat, spans: seq<(nat, nat)>)
  {
    spans != [] ==>
      && spans[|spans| - 1].0 <= evicted && spans[|spans| - 1].1 <= |appended|
      && SharesAtMost(enc, appended, spans[|spans| - 1], (evicted, |appended|), overlap)
  }

  /** The state of `read_file` between two input lines. `appended` is every line that entered
      the buffer, `evicted` how many of them have left it, `spans` where each yielded chunk lies. */
  ghost predicate BufferInv(enc: Encoder, overlap: nat, appended: seq<string>, lines: seq<string>,
                            tokens: nat, lineno: int, evicted: nat,
                            chunks: seq<(int, string)>, spans: seq<(nat, nat)>)
  {
    && ChunksInv(enc, overlap, appended, chunks, spans)
    && BufferRest(enc, overlap, appended, lines, tokens, lineno, evicted, spans)
    && CoveredUpTo(appended, spans, evicted)
  }

  /** The part of `BufferInv` that a flush's eviction changes. */
  ghost predicate BufferRest(enc: Encoder, overlap: nat, appended: seq<string>, lines: seq<string>,
                             tokens: nat, lineno: int, evicted: nat, spans: seq<(nat, nat)>)
  {
    && BufferOf(enc, appended, lines, tokens, lineno, evicted)
    && TailInv(enc, overlap, appended, evicted, spans)
  }

  lemma {:induction false} ChunksGrow(enc: Encoder, overlap: nat, appended: seq<string>,
                                      chunks: seq<(int, string)>, spans: seq<(nat, nat)>, line: string)
    requires ChunksInv(enc, overlap, appended, chunks, spans)
    ensures ChunksInv(enc, overlap, appended + [line], chunks, spans)
    decreases |chunks|
  {
    var app := appended + [line];
    if chunks != [] {
      var n := |chunks| - 1;
      ChunksGrow(enc, overlap, appended, chunks[..n], spans[..n], line);
      var sp := spans[n];
      assert app[sp.0..sp.1] == appended[sp.0..sp.1];
      assert app[..sp.0] == appended[..sp.0];
      if n > 0 && sp.0 < spans[n - 1].1 {
        assert app[sp.0..spans[n - 1].1] == appended[sp.0..spans[n - 1].1];
      }
    }
  }

  lemma BufferGrow(enc: Encoder, appended: seq<string>, lines: seq<string>,
                   tokens: nat, lineno: int, evicted: nat, line: string)
    requires BufferOf(enc, appended, lines, tokens, lineno, evicted)
    ensures BufferOf(enc, appended + [line], lines + [line], tokens + CountTokens(enc, line), lineno, evicted)
  {
    var app := appended + [line];
    assert app[evicted..] == lines + [line];
    TallyAppend(enc, lines, line);
    assert app[..evicted] == appended[..evicted];
  }

  lemma TailGrow(enc: Encoder, overlap: nat, appended: seq<string>, evicted: nat,
                 spans: seq<(nat, nat)>, line: string)
    requires evicted <= |appended| && TailInv(enc, overlap, appended, evicted, spans)
    ensures TailInv(enc, overlap, appended + [line], evicted, spans)
  {
    if spans != [] {
      var last := spans[|spans| - 1];
      if evicted < last.1 {
        assert (appended + [line])[evicted..last.1] == appended[evicted..last.1];
      }
    }
  }

  lemma CoveredGrow(appended: seq<string>, spans: seq<(nat, nat)>, n: nat, line: string)
    requires n <= |appended| && CoveredUpTo(appended, spans, n)
    ensures CoveredUpTo(appended + [line], spans, n)
  {
    CoveredUpToIff(appended, spans, n);
    forall i | 0 <= i < n
      ensures Covered(appended + [line], spans, i)
    {
      assert Covered(appended, spans, i);
      assert (appended + [line])[i] == appended[i];
    }
    CoveredUpToIff(appended + [line], spans, n);
  }

  /** Appending the incoming line to the buffer keeps the invariant. */
  lemma AppendKeeps(enc: Encoder, overlap: nat, appended: seq<string>, lines: seq<string>,
                    tokens: nat, lineno: int, evicted: nat,
                    chunks: seq<(int, string)>, spans: seq<(nat, nat)>, line: string)
    requires BufferInv(enc, overlap, appended, lines, tokens, lineno, evicted, chunks, spans)
    ensures BufferInv(enc, overlap, appended + [line], lines + [line], tokens + CountTokens(enc, line),
                      lineno, evicted, chunks, spans)
    ensures spans != [] ==> spans[|spans| - 1].1 < |appended| + 1
  {
    ChunksGrow(enc, overlap, appended, chunks, spans, line);
    BufferGrow(enc, appended, lines, tokens, lineno, evicted, line);
    TailGrow(enc, overlap, appended, evicted, spans, line);
    CoveredGrow(appended, spans, evicted, line);
  }

  /** Yielding the buffer's text as a chunk keeps the chunk invariant: the new chunk starts
      no earlier and ends later than the last one, and the two share the buffered overlap. */
  lemma EmitChunk(enc: Encoder, overlap: nat, appended: seq<string>, lines: seq<string>,
                  tokens: nat, lineno: int, evicted: nat,
                  chunks: seq<(int, string)>, spans: seq<(nat, nat)>)
    requires BufferInv(enc, overlap, appended, lines, tokens, lineno, evicted, chunks, spans)
    requires spans != [] ==> spans[|spans| - 1].1 < |appended|
    requires !IsBlank(Concat(lines))
    ensures ChunksInv(enc, overlap, appended, chunks + [(lineno, Concat(lines))], spans + [(evicted, |appended|)])
    ensures CoveredUpTo(appended, spans + [(evicted, |appended|)], |appended|)
  {
    var span := (evicted, |appended|);
    assert lines != [];
    assert appended[evicted..|appended|] == lines;
    ChunksInvPush(enc, overlap, appended, chunks, spans, (lineno, Concat(lines)), span);
    var spans' := spans + [span];
    CoveredUpToIff(appended, spans, evicted);
    forall i | 0 <= i < |appended|
      ensures Covered(appended, spans', i)
    {
      if i < evicted {
        assert Covered(appended, spans, i);
        if !IsBlank(appended[i]) {
          var c :| 0 <= c < |spans| && spans[c].0 <= i < spans[c].1;
          assert spans'[c] == spans[c];
        }
      } else {
        assert spans'[|spans|].0 <= i < spans'[|spans|].1;
      }
    }
    CoveredUpToIff(appended, spans', |appended|);
  }

  /** A whitespace-only buffer leaves every buffered line covered. */
  lemma SkipBlank(appended: seq<string>, lines: seq<string>, evicted: nat, spans: seq<(nat, nat)>)
    requires evicted <= |appended| && lines == appended[evicted..]
    requires CoveredUpTo(appended, spans, evicted)
    requires IsBlank(Concat(lines))
    ensures CoveredUpTo(appended, spans, |appended|)
  {
    BlankConcat(lines);
    CoveredUpToIff(appended, spans, evicted);
    forall i | evicted <= i < |appended|
      ensures Covered(appended, spans, i)
    {
      assert appended[i] == lines[i - evicted];
    }
    CoveredUpToIff(appended, spans, |appended|);
  }

  /** Covering more lines covers fewer. */
  lemma CoveredShrink(appended: seq<string>, spans: seq<(nat, nat)>, m: nat, n: nat)
    requires m <= n <= |appended| && CoveredUpTo(appended, spans, n)
    ensures CoveredUpTo(appended, spans, m)
  {
    CoveredUpToIff(appended, spans, n);
    CoveredUpToIff(appended, spans, m);
  }

  /** Evicting leading lines keeps the invariant, as long as what stays fits in the overlap
      (with no overlap configured, nothing stays). */
  lemma EvictKeeps(enc: Encoder, overlap: nat, appended: seq<string>, lines: seq<string>,
                   tokens: nat, lineno: int, evicted: nat, d: nat, kept: seq<string>, keptTokens: nat, lineno': int,
                   e: nat, spans: seq<(nat, nat)>, emitted: bool)
    requires e == evicted + d
    requires overlap == 0 ==> d == |lines|
    requires BufferOf(enc, appended, lines, tokens, lineno, evicted)
    requires d <= |lines| && kept == lines[d..]
    requires keptTokens == Tally(enc, kept) && (kept == [] || keptTokens <= overlap)
    requires lineno' == lineno + Newlines(Concat(lines[..d]))
    requires emitted ==> spans != [] && spans[|spans| - 1] == (evicted, |appended|)
    requires !emitted ==> TailInv(enc, overlap, appended, evicted, spans)
    ensures BufferRest(enc, overlap, appended, kept, keptTokens, lineno', e, spans)
  {
    EvictBuffer(enc, appended, lines, tokens, lineno, evicted, d, kept, keptTokens, lineno');
    EvictTail(enc, overlap, appended, evicted, e, spans, emitted);
  }

  lemma EvictBuffer(enc: Encoder, appended: seq<string>, lines: seq<string>,
                    tokens: nat, lineno: int, evicted: nat, d: nat, kept: seq<string>, keptTokens: nat, lineno': int)
    requires BufferOf(enc, appended, lines, tokens, lineno, evicted)
    requires d <= |lines| && kept == lines[d..]
    requires keptTokens == Tally(enc, kept)
    requires lineno' == lineno + Newlines(Concat(lines[..d]))
    ensures BufferOf(enc, appended, kept, keptTokens, lineno', evicted + d)
  {
    assert appended[evicted + d..] == kept by {
      assert lines[d..] == appended[evicted..][d..];
    }
    LinenoAfter(appended, lines, evicted, d);
  }

  /** Moving the buffer's start `d` lines forward adds their newlines to the line number. */
  lemma LinenoAfter(appended: seq<string>, lines: seq<string>, evicted: nat, d: nat)
    requires evicted <= |appended| && lines == appended[evicted..] && d <= |lines|
    ensures Newlines(Concat(appended[..evicted + d])) == Newlines(Concat(appended[..evicted])) + Newlines(Concat(lines[..d]))
  {
    assert appended[..evicted + d] == appended[..evicted] + lines[..d];
    NewlinesJoin(appended[..evicted], lines[..d]);
  }

  /** Newlines of the join of two runs of lines add up. */
  lemma NewlinesJoin(a: seq<string>, b: seq<string>)
    ensures Newlines(Concat(a + b)) == Newlines(Concat(a)) + Newlines(Concat(b))
  {
    ConcatAppend(a, b);
    NewlinesAppend(Concat(a), Concat(b));
  }

  lemma EvictTail(enc: Encoder, overlap: nat, appended: seq<string>, evicted: nat, evicted': nat,
                  spans: seq<(nat, nat)>, emitted: bool)
    requires evicted <= evicted' <= |appended| && (overlap == 0 ==> evicted' == |appended|)
    requires appended[evicted'..] == [] || Tally(enc, appended[evicted'..]) <= overlap
    requires emitted ==> spans != [] && spans[|spans| - 1] == (evicted, |appended|)
    requires !emitted ==> TailInv(enc, overlap, appended, evicted, spans)
    ensures TailInv(enc, overlap, appended, evicted', spans)
  {
    if spans != [] {
      var last := spans[|spans| - 1];
      if evicted' < last.1 {
        if last.1 == |appended| {
          assert appended[evicted'..last.1] == appended[evicted'..];
        } else {
          assert appended[evicted'..last.1] == appended[evicted..last.1][evicted' - evicted..];
          TallySuffix(enc, appended[evicted..last.1], evicted' - evicted);
        }
      }
    }
  }

  /** The flush of `read_file` when the incoming line would reach the chunk size: the buffer's
      text is yielded unless it is whitespace only, then the buffer is cleared (no overlap) or
      its leading lines are evicted down to the overlap. */
  method Flush(enc: Encoder, overlap: nat, ghost appended: seq<string>, lines: seq<string>,
               tokens: nat, lineno: int, ghost evicted: nat,
               chunks: seq<(int, string)>, ghost spans: seq<(nat, nat)>)
    returns (lines': seq<string>, tokens': nat, lineno': int, chunks': seq<(int, string)>,
             ghost evicted': nat, ghost spans': seq<(nat, nat)>, ghost dropped: nat)
    requires BufferInv(enc, overlap, appended, lines, tokens, lineno, evicted, chunks, spans)
    requires spans != [] ==> spans[|spans| - 1].1 < |appended|
    ensures BufferInv(enc, overlap, appended, lines', tokens', lineno', evicted', chunks', spans')
    ensures var text := Concat(lines);
      && chunks' == (if IsBlank(text) then chunks else chunks + [(lineno, text)])
      && spans' == (if IsBlank(text) then spans else spans + [(evicted, |appended|)])
    ensures overlap == 0 ==> lines' == [] && tokens' == 0 && evicted' == |appended|
    ensures overlap > 0 ==>
      && evicted' == evicted + dropped && dropped <= |lines| && lines' == lines[dropped..]
      && DropsExceed(enc, lines, overlap, dropped)
    ensures overlap > 0 ==> lines' == [] || tokens' <= overlap
  {
    var text := Concat(lines);
    chunks', spans' := chunks, spans;
    if !IsBlank(text) {
      EmitChunk(enc, overlap, appended, lines, tokens, lineno, evicted, chunks, spans);
      chunks' := chunks + [(lineno, text)];
      spans' := spans + [(evicted, |appended|)];
    } else {
      SkipBlank(appended, lines, evicted, spans);
    }
    lines', tokens', lineno', evicted', dropped :=
      Retain(enc, overlap, appended, lines, tokens, lineno, evicted, spans', !IsBlank(text));
    CoveredShrink(appended, spans', evicted', |appended|);
  }

  /** The second half of a flush: with no overlap the buffer is cleared and the line number
      moves past all of it; otherwise leading lines are dropped while the tally exceeds the
      overlap. */
  method Retain(enc: Encoder, overlap: nat, ghost appended: seq<string>, lines: seq<string>,
                tokens: nat, lineno: int, ghost evicted: nat,
                ghost spans: seq<(nat, nat)>, ghost emitted: bool)
    returns (lines': seq<string>, tokens': nat, lineno': int, ghost evicted': nat, ghost dropped: nat)
    requires BufferOf(enc, appended, lines, tokens, lineno, evicted)
    requires emitted ==> spans != [] && spans[|spans| - 1] == (evicted, |appended|)
    requires !emitted ==> TailInv(enc, overlap, appended, evicted, spans)
    requires !emitted ==> spans != [] ==> spans[|spans| - 1].1 < |appended|
    ensures BufferRest(enc, overlap, appended, lines', tokens', lineno', evicted', spans)
    ensures overlap == 0 ==> lines' == [] && tokens' == 0 && evicted' == |appended|
    ensures overlap > 0 ==>
      && evicted' == evicted + dropped && dropped <= |lines| && lines' == lines[dropped..]
      && DropsExceed(enc, lines, overlap, dropped)
    ensures overlap > 0 ==> lines' == [] || tokens' <= overlap
  {
    dropped := |lines|;
    if overlap != 0 {
      lines', tokens', lineno', dropped := EvictForOverlap(enc, lines, tokens, lineno, overlap);
      evicted' := evicted + dropped;
      EvictKeeps(enc, overlap, appended, lines, tokens, lineno, evicted, dropped, lines', tokens', lineno',
                 evicted', spans, emitted);
    } else {
      lines', tokens' := [], 0;
      lineno' := lineno + Newlines(Concat(lines));
      evicted' := |appended|;
      assert lines[..|lines|] == lines;
      EvictKeeps(enc, overlap, appended, lines, tokens, lineno, evicted, |lines|, lines', tokens', lineno',
                 evicted', spans, emitted);
    }
  }

  /** The end of input: a buffer that is not whitespace only is yielded as the last chunk. */
  lemma FinalKeeps(enc: Encoder, overlap: nat, appended: seq<string>, lines: seq<string>,
                   tokens: nat, lineno: int, evicted: nat,
                   chunks: seq<(int, string)>, spans: seq<(nat, nat)>)
    requires BufferInv(enc, overlap, appended, lines, tokens, lineno, evicted, chunks, spans)
    requires spans != [] ==> spans[|spans| - 1].1 < |appended|
    ensures IsBlank(Concat(lines)) ==>
      ChunksInv(enc, overlap, appended, chunks, spans) && CoveredUpTo(appended, spans, |appended|)
    ensures !IsBlank(Concat(lines)) ==>
      && ChunksInv(enc, overlap, appended, chunks + [(lineno, Concat(lines))], spans + [(evicted, |appended|)])
      && CoveredUpTo(appended, spans + [(evicted, |appended|)], |appended|)
  {
    if IsBlank(Concat(lines)) {
      SkipBlank(appended, lines, evicted, spans);
    } else {
      EmitChunk(enc, overlap, appended, lines, tokens, lineno, evicted, chunks, spans);
    }
  }

  /** How input line `line` enters the buffer when the buffered lines tally `tally` tokens: a
      line that counts tokens and alone reaches the chunk size while the buffered lines hold
      none is cut as `Trimmed` says; every other line enters whole. */
  ghost predicate EntersAs(enc: Encoder, chunkSize: nat, tally: nat, line: string, entered: string)
  {
    if tally == 0 && CountTokens(enc, line) > 0 && CountTokens(enc, line) >= chunkSize
    then entered == Trimmed(enc, line, chunkSize)
    else entered == line
  }

  /** The buffer stays below the chunk size, except for the line that entered at the last
      flush: the lines before that one are the retained overlap. */
  ghost predicate Fits(enc: Encoder, chunkSize: nat, overlap: nat, lines: seq<string>)
  {
    lines == [] || Tally(enc, lines) < chunkSize || Tally(enc, lines[..|lines| - 1]) <= overlap
  }

  lemma FitsMeans(enc: Encoder, chunkSize: nat, overlap: nat, lines: seq<string>)
    requires overlap < chunkSize && lines != [] && Fits(enc, chunkSize, overlap, lines)
    ensures Tally(enc, lines[..|lines| - 1]) < chunkSize
  {
    assert lines == lines[..|lines| - 1] + [lines[|lines| - 1]];
    TallyAppend(enc, lines[..|lines| - 1], lines[|lines| - 1]);
  }

  /** Input line `n` (`line`, before any trim) brings the buffer `appended[from..n]` to the
      chunk size, so the buffer is flushed before the line enters. */
  ghost predicate Flushes(enc: Encoder, chunkSize: nat, appended: seq<string>, from: nat, n: nat, line: string)
    requires from <= n <= |appended|
  {
    Tally(enc, appended[from..n]) + CountTokens(enc, line) >= chunkSize
  }

  /** The flush at line `n` yields a chunk: the flushed buffer is not whitespace only. */
  ghost predicate Yields(enc: Encoder, chunkSize: nat, appended: seq<string>, from: nat, n: nat, line: string)
    requires from <= n <= |appended|
  {
    Flushes(enc, chunkSize, appended, from, n, line) && !IsBlank(Concat(appended[from..n]))
  }

  /** Where the buffer begins after line `n` entered, given that it began at `from` before: at
      the same place when the line fits beside the buffered lines; after a flush, at `n` (the
      new line alone) with no overlap, or past the leading lines dropped while the tally was
      above the overlap. */
  ghost predicate Moves(enc: Encoder, chunkSize: nat, overlap: nat, appended: seq<string>,
                        from: nat, n: nat, line: string, to: nat)
    requires from <= n <= |appended|
  {
    if !Flushes(enc, chunkSize, appended, from, n, line) then to == from
    else
      && from <= to <= n
      && (overlap == 0 ==> to == n)
      && (overlap > 0 ==>
            && (to == n || Tally(enc, appended[to..n]) <= overlap)
            && DropsExceed(enc, appended[from..n], overlap, to - from))
  }

  /** What happened at input line `i`: the buffer began at `starts[i]` and fitted; the line
      entered as `EntersAs` says for that buffer's tally; the buffer start moved on to
      `starts[i + 1]` as `Moves` says; and a chunk ended at line `i` exactly when the line
      flushed a buffer that was not whitespace only (the chunk is that buffer). */
  ghost predicate LineStep(enc: Encoder, chunkSize: nat, overlap: nat, input: seq<string>, appended: seq<string>,
                           starts: seq<nat>, spans: seq<(nat, nat)>, i: nat)
  {
    && i < |appended| && i < |input| && i + 1 < |starts| && starts[i] <= i
    && Fits(enc, chunkSize, overlap, appended[starts[i]..i])
    && EntersAs(enc, chunkSize, Tally(enc, appended[starts[i]..i]), input[i], appended[i])
    && Moves(enc, chunkSize, overlap, appended, starts[i], i, input[i], starts[i + 1])
    && ((starts[i], i) in spans <==> Yields(enc, chunkSize, appended, starts[i], i, input[i]))
  }

  /** Every line read so far took a `LineStep`, from a buffer that began at 0. */
  ghost predicate Trace(enc: Encoder, chunkSize: nat, overlap: nat, input: seq<string>, appended: seq<string>,
                        starts: seq<nat>, spans: seq<(nat, nat)>)
    decreases |appended|
  {
    && |starts| == |appended| + 1 && |appended| <= |input|
    && (appended == [] ==> starts[0] == 0)
    && (appended != [] ==>
          var n := |appended| - 1;
          && Trace(enc, chunkSize, overlap, input, appended[..n], starts[..n + 1], spans)
          && LineStep(enc, chunkSize, overlap, input, appended, starts, spans, n))
  }

  /** The line steps only look at the history up to the line. */
  lemma HistoryPrefix(enc: Encoder, chunkSize: nat, overlap: nat, a: seq<string>, b: seq<string>,
                      from: nat, n: nat, line: string, to: nat)
    requires from <= n <= |a| <= |b| && a == b[..|a|]
    ensures a[from..n] == b[from..n]
    ensures Moves(enc, chunkSize, overlap, a, from, n, line, to) == Moves(enc, chunkSize, overlap, b, from, n, line, to)
    ensures Yields(enc, chunkSize, a, from, n, line) == Yields(enc, chunkSize, b, from, n, line)
  {
    assert a[from..n] == b[from..n];
    if from <= to <= n {
      assert a[to..n] == b[to..n];
    }
  }

  lemma LineStepPrefix(enc: Encoder, chunkSize: nat, overlap: nat, input: seq<string>, appended: seq<string>,
                       starts: seq<nat>, spans: seq<(nat, nat)>, m: nat, i: nat)
    requires i < m <= |appended| && |starts| == |appended| + 1
    requires LineStep(enc, chunkSize, overlap, input, appended[..m], starts[..m + 1], spans, i)
    ensures LineStep(enc, chunkSize, overlap, input, appended, starts, spans, i)
  {
    var a, st := appended[..m], starts[..m + 1];
    assert st[i] == starts[i] && st[i + 1] == starts[i + 1];
    HistoryPrefix(enc, chunkSize, overlap, a, appended, starts[i], i, input[i], starts[i + 1]);
    assert a[i] == appended[i];
  }

  lemma {:induction false} TraceMeans(enc: Encoder, chunkSize: nat, overlap: nat, input: seq<string>,
                                      appended: seq<string>, starts: seq<nat>, spans: seq<(nat, nat)>)
    requires Trace(enc, chunkSize, overlap, input, appended, starts, spans)
    ensures |starts| == |appended| + 1 && |appended| <= |input| && starts[0] == 0
    ensures forall i :: 0 <= i < |appended| ==> LineStep(enc, chunkSize, overlap, input, appended, starts, spans, i)
  {
    TraceStart(enc, chunkSize, overlap, input, appended, starts, spans);
    forall i | 0 <= i < |appended|
      ensures LineStep(enc, chunkSize, overlap, input, appended, starts, spans, i)
    {
      TraceAt(enc, chunkSize, overlap, input, appended, starts, spans, i);
    }
  }

  lemma {:induction false} TraceStart(enc: Encoder, chunkSize: nat, overlap: nat, input: seq<string>,
                                      appended: seq<string>, starts: seq<nat>, spans: seq<(nat, nat)>)
    requires Trace(enc, chunkSize, overlap, input, appended, starts, spans)
    ensures |starts| == |appended| + 1 && |appended| <= |input| && starts[0] == 0
    decreases |appended|
  {
    if appended != [] {
      var n := |appended| - 1;
      TraceStart(enc, chunkSize, overlap, input, appended[..n], starts[..n + 1], spans);
    }
  }

  lemma {:induction false} TraceAt(enc: Encoder, chunkSize: nat, overlap: nat, input: seq<string>,
                                   appended: seq<string>, starts: seq<nat>, spans: seq<(nat, nat)>, i: nat)
    requires Trace(enc, chunkSize, overlap, input, appended, starts, spans) && i < |appended|
    ensures LineStep(enc, chunkSize, overlap, input, appended, starts, spans, i)
    decreases |appended|
  {
    var n := |appended| - 1;
    if i < n {
      TraceAt(enc, chunkSize, overlap, input, appended[..n], starts[..n + 1], spans, i);
      LineStepPrefix(enc, chunkSize, overlap, input, appended, starts, spans, n, i);
    }
  }

  /** A chunk ending after every line read so far leaves the trace intact. */
  lemma {:induction false} TraceAddSpan(enc: Encoder, chunkSize: nat, overlap: nat, input: seq<string>,
                                        appended: seq<string>, starts: seq<nat>, spans: seq<(nat, nat)>, x: (nat, nat))
    requires Trace(enc, chunkSize, overlap, input, appended, starts, spans)
    requires x.1 >= |appended|
    ensures Trace(enc, chunkSize, overlap, input, appended, starts, spans + [x])
    decreases |appended|
  {
    if appended != [] {
      var n := |appended| - 1;
      TraceAddSpan(enc, chunkSize, overlap, input, appended[..n], starts[..n + 1], spans, x);
      assert (starts[n], n) in spans + [x] <==> (starts[n], n) in spans;
    }
  }

  /** One pass of the loop of `read_file`, as `Feed` describes it, extends the trace by the line
      it read. */
  lemma TraceStep(enc: Encoder, chunkSize: nat, overlap: nat, input: seq<string>, appended: seq<string>,
                  starts: seq<nat>, spans: seq<(nat, nat)>, lines: seq<string>, tokens: nat, evicted: nat,
                  entered: string, evicted': nat, spans': seq<(nat, nat)>, dropped: nat)
    requires Trace(enc, chunkSize, overlap, input, appended, starts, spans)
    requires |appended| < |input| && starts[|appended|] == evicted
    requires evicted <= |appended| && lines == appended[evicted..] && tokens == Tally(enc, lines)
    requires Fits(enc, chunkSize, overlap, lines)
    requires forall c :: 0 <= c < |spans| ==> spans[c].1 < |appended|
    requires EntersAs(enc, chunkSize, tokens, input[|appended|], entered)
    requires tokens + CountTokens(enc, input[|appended|]) < chunkSize ==> evicted' == evicted && spans' == spans
    requires tokens + CountTokens(enc, input[|appended|]) >= chunkSize ==>
      && spans' == (if IsBlank(Concat(lines)) then spans else spans + [(evicted, |appended|)])
      && evicted <= evicted' <= |appended|
      && (overlap == 0 ==> evicted' == |appended|)
      && (overlap > 0 ==>
            && (evicted' == |appended| || Tally(enc, appended[evicted'..]) <= overlap)
            && evicted' == evicted + dropped && dropped <= |lines| && DropsExceed(enc, lines, overlap, dropped))
    ensures Trace(enc, chunkSize, overlap, input, appended + [entered], starts + [evicted'], spans')
  {
    var n := |appended|;
    var app, st := appended + [entered], starts + [evicted'];
    if spans' != spans {
      assert spans' == spans + [(evicted, n)];
      TraceAddSpan(enc, chunkSize, overlap, input, appended, starts, spans, (evicted, n));
    }
    assert (evicted, n) !in spans;
    NewLineStep(enc, chunkSize, overlap, input, appended, entered, st, spans, lines, tokens, evicted, evicted', spans', dropped);
    TracePush(enc, chunkSize, overlap, input, appended, starts, spans', entered, evicted');
  }

  lemma TracePush(enc: Encoder, chunkSize: nat, overlap: nat, input: seq<string>, appended: seq<string>,
                  starts: seq<nat>, spans: seq<(nat, nat)>, entered: string, next: nat)
    requires Trace(enc, chunkSize, overlap, input, appended, starts, spans)
    requires LineStep(enc, chunkSize, overlap, input, appended + [entered], starts + [next], spans, |appended|)
    ensures Trace(enc, chunkSize, overlap, input, appended + [entered], starts + [next], spans)
  {
    var n := |appended|;
    var app, st := appended + [entered], starts + [next];
    assert app[..n] == appended && st[..n + 1] == starts;
    assert |app| - 1 == n;
    assert Trace(enc, chunkSize, overlap, input, app[..n], st[..n + 1], spans);
    assert LineStep(enc, chunkSize, overlap, input, app, st, spans, |app| - 1);
  }

  /** The step of the line just read, from `Feed`'s account of it. */
  lemma NewLineStep(enc: Encoder, chunkSize: nat, overlap: nat, input: seq<string>, appended: seq<string>,
                    entered: string, st: seq<nat>, spans: seq<(nat, nat)>, lines: seq<string>, tokens: nat,
                    evicted: nat, evicted': nat, spans': seq<(nat, nat)>, dropped: nat)
    requires |appended| < |input| && |st| == |appended| + 2
    requires st[|appended|] == evicted && st[|appended| + 1] == evicted'
    requires evicted <= |appended| && lines == appended[evicted..] && tokens == Tally(enc, lines)
    requires Fits(enc, chunkSize, overlap, lines)
    requires (evicted, |appended|) !in spans
    requires EntersAs(enc, chunkSize, tokens, input[|appended|], entered)
    requires tokens + CountTokens(enc, input[|appended|]) < chunkSize ==> evicted' == evicted && spans' == spans
    requires tokens + CountTokens(enc, input[|appended|]) >= chunkSize ==>
      && spans' == (if IsBlank(Concat(lines)) then spans else spans + [(evicted, |appended|)])
      && evicted <= evicted' <= |appended|
      && (overlap == 0 ==> evicted' == |appended|)
      && (overlap > 0 ==>
            && (evicted' == |appended| || Tally(enc, appended[evicted'..]) <= overlap)
            && evicted' == evicted + dropped && dropped <= |lines| && DropsExceed(enc, lines, overlap, dropped))
    ensures LineStep(enc, chunkSize, overlap, input, appended + [entered], st, spans', |appended|)
  {
    var n := |appended|;
    var app := appended + [entered];
    assert app[evicted..n] == lines;
    if evicted <= evicted' <= n {
      assert app[evicted'..n] == appended[evicted'..];
    }
  }

  /** One pass of the loop of `read_file`. When the line would bring the buffer to the chunk
      size, the buffer is flushed first (`FlushThenAppend`). Otherwise the line simply joins
      the buffer. */
  method Feed(enc: Encoder, chunkSize: nat, overlap: nat, ghost appended: seq<string>, lines: seq<string>,
              tokens: nat, lineno: int, ghost evicted: nat,
              chunks: seq<(int, string)>, ghost spans: seq<(nat, nat)>, line: string)
    returns (lines': seq<string>, tokens': nat, lineno': int, chunks': seq<(int, string)>,
             entered: string, ghost evicted': nat, ghost spans': seq<(nat, nat)>, ghost dropped: nat)
    requires BufferInv(enc, overlap, appended, lines, tokens, lineno, evicted, chunks, spans)
    requires spans != [] ==> spans[|spans| - 1].1 < |appended|
    requires overlap < chunkSize
    ensures BufferInv(enc, overlap, appended + [entered], lines', tokens', lineno', evicted', chunks', spans')
    ensures spans' != [] ==> spans'[|spans'| - 1].1 < |appended| + 1
    ensures EntersAs(enc, chunkSize, tokens, line, entered)
    ensures Fits(enc, chunkSize, overlap, lines')
    ensures tokens + CountTokens(enc, line) < chunkSize ==>
      && entered == line && lines' == lines + [line] && tokens' == tokens + CountTokens(enc, line)
      && lineno' == lineno && chunks' == chunks && evicted' == evicted && spans' == spans
    ensures tokens + CountTokens(enc, line) >= chunkSize ==>
      var text := Concat(lines);
      && chunks' == (if IsBlank(text) then chunks else chunks + [(lineno, text)])
      && spans' == (if IsBlank(text) then spans else spans + [(evicted, |appended|)])
      && evicted <= evicted' <= |appended| && lines' == appended[evicted'..] + [entered]
      && (overlap == 0 ==> evicted' == |appended|)
      && (overlap > 0 ==>
            && (evicted' == |appended| || Tally(enc, appended[evicted'..]) <= overlap)
            && evicted' == evicted + dropped && dropped <= |lines| && DropsExceed(enc, lines, overlap, dropped))
  {
    var lineTokens := CountTokens(enc, line);
    if tokens + lineTokens >= chunkSize {
      lines', tokens', lineno', chunks', entered, evicted', spans', dropped :=
        FlushThenAppend(enc, chunkSize, overlap, appended, lines, tokens, lineno, evicted, chunks, spans, line);
    } else {
      entered, dropped := line, 0;
      AppendKeeps(enc, overlap, appended, lines, tokens, lineno, evicted, chunks, spans, line);
      lines', tokens', lineno', chunks', evicted', spans' :=
        lines + [line], tokens + lineTokens, lineno, chunks, evicted, spans;
      assert lines'[..|lines'| - 1] == lines;
    }
  }

  /** The flush branch of `read_file`'s loop: a line that alone reaches the chunk size while
      the buffer holds no tokens is trimmed; the buffer's text is yielded unless whitespace
      only, only the overlap stays, and the line joins what stays. */
  method FlushThenAppend(enc: Encoder, chunkSize: nat, overlap: nat, ghost appended: seq<string>,
                         lines: seq<string>, tokens: nat, lineno: int, ghost evicted: nat,
                         chunks: seq<(int, string)>, ghost spans: seq<(nat, nat)>, line: string)
    returns (lines': seq<string>, tokens': nat, lineno': int, chunks': seq<(int, string)>,
             entered: string, ghost evicted': nat, ghost spans': seq<(nat, nat)>, ghost dropped: nat)
    requires BufferInv(enc, overlap, appended, lines, tokens, lineno, evicted, chunks, spans)
    requires spans != [] ==> spans[|spans| - 1].1 < |appended|
    requires overlap < chunkSize && tokens + CountTokens(enc, line) >= chunkSize
    ensures BufferInv(enc, overlap, appended + [entered], lines', tokens', lineno', evicted', chunks', spans')
    ensures spans' != [] ==> spans'[|spans'| - 1].1 < |appended| + 1
    ensures EntersAs(enc, chunkSize, tokens, line, entered)
    ensures Fits(enc, chunkSize, overlap, lines')
    ensures var text := Concat(lines);
      && chunks' == (if IsBlank(text) then chunks else chunks + [(lineno, text)])
      && spans' == (if IsBlank(text) then spans else spans + [(evicted, |appended|)])
      && evicted <= evicted' <= |appended| && lines' == appended[evicted'..] + [entered]
      && (overlap == 0 ==> evicted' == |appended|)
      && (overlap > 0 ==>
            && (evicted' == |appended| || Tally(enc, appended[evicted'..]) <= overlap)
            && evicted' == evicted + dropped && dropped <= |lines| && DropsExceed(enc, lines, overlap, dropped))
  {
    var lineTokens;
    entered, lineTokens := Enter(enc, chunkSize, tokens, line);
    var kept, keptTokens;
    kept, keptTokens, lineno', chunks', evicted', spans', dropped :=
      Flush(enc, overlap, appended, lines, tokens, lineno, evicted, chunks, spans);
    lines', tokens' := kept + [entered], keptTokens + lineTokens;
    AppendAfterFlush(enc, chunkSize, overlap, appended, lines, tokens, lineno, evicted, chunks, spans,
                     kept, keptTokens, lineno', evicted', chunks', spans', dropped, entered, lines', tokens');
  }

  /** How a line that flushes the buffer enters it: trimmed to the chunk size when the
      buffered lines hold no tokens, whole otherwise. */
  method Enter(enc: Encoder, chunkSize: nat, tokens: nat, line: string) returns (entered: string, enteredTokens: nat)
    requires 0 < chunkSize <= tokens + CountTokens(enc, line)
    ensures EntersAs(enc, chunkSize, tokens, line, entered)
    ensures enteredTokens == CountTokens(enc, entered)
  {
    entered, enteredTokens := line, CountTokens(enc, line);
    if tokens == 0 && enteredTokens != 0 {
      entered, enteredTokens := TrimLongLine(enc, line, enteredTokens, chunkSize);
    }
  }

  /** After a flush left `kept` of the buffer, the entered line joins it: the invariant
      holds for the grown history and the new buffer fits. */
  lemma AppendAfterFlush(enc: Encoder, chunkSize: nat, overlap: nat, appended: seq<string>,
                         lines: seq<string>, tokens: nat, lineno: int, evicted: nat,
                         chunks: seq<(int, string)>, spans: seq<(nat, nat)>,
                         kept: seq<string>, keptTokens: nat, lineno': int, evicted': nat,
                         chunks': seq<(int, string)>, spans': seq<(nat, nat)>, dropped: nat, entered: string,
                         lines': seq<string>, tokens': nat)
    requires BufferInv(enc, overlap, appended, lines, tokens, lineno, evicted, chunks, spans)
    requires spans != [] ==> spans[|spans| - 1].1 < |appended|
    requires BufferInv(enc, overlap, appended, kept, keptTokens, lineno', evicted', chunks', spans')
    requires spans' == (if IsBlank(Concat(lines)) then spans else spans + [(evicted, |appended|)])
    requires overlap == 0 ==> kept == [] && keptTokens == 0 && evicted' == |appended|
    requires overlap > 0 ==>
      && evicted' == evicted + dropped && dropped <= |lines| && kept == lines[dropped..]
      && DropsExceed(enc, lines, overlap, dropped)
    requires overlap > 0 ==> kept == [] || keptTokens <= overlap
    requires lines' == kept + [entered] && tokens' == keptTokens + CountTokens(enc, entered)
    ensures BufferInv(enc, overlap, appended + [entered], lines', tokens', lineno', evicted', chunks', spans')
    ensures spans' != [] ==> spans'[|spans'| - 1].1 < |appended| + 1
    ensures Fits(enc, chunkSize, overlap, lines')
    ensures evicted <= evicted' <= |appended| && lines' == appended[evicted'..] + [entered]
    ensures overlap > 0 ==> evicted' == |appended| || Tally(enc, appended[evicted'..]) <= overlap
  {
    AppendKeeps(enc, overlap, appended, kept, keptTokens, lineno', evicted', chunks', spans', entered);
    assert (kept + [entered])[..|kept|] == kept;
  }

  /** The end of `read_file`: a buffer that is not whitespace only is yielded as the last
      chunk, unless the input failed to decode. */
  method Finish(enc: Encoder, overlap: nat, ghost appended: seq<string>, lines: seq<string>,
                tokens: nat, lineno: int, ghost evicted: nat,
                chunks: seq<(int, string)>, ghost spans: seq<(nat, nat)>, complete: bool)
    returns (chunks': seq<(int, string)>, ghost spans': seq<(nat, nat)>)
    requires BufferInv(enc, overlap, appended, lines, tokens, lineno, evicted, chunks, spans)
    requires spans != [] ==> spans[|spans| - 1].1 < |appended|
    ensures ChunksInv(enc, overlap, appended, chunks', spans')
    ensures complete ==> CoveredUpTo(appended, spans', |appended|)
    ensures chunks' == if complete && !IsBlank(Concat(lines)) then chunks + [(lineno, Concat(lines))] else chunks
    ensures spans' == if complete && !IsBlank(Concat(lines)) then spans + [(evicted, |appended|)] else spans
  {
    chunks', spans' := chunks, spans;
    if complete && lines != [] {
      var text := Concat(lines);
      FinalKeeps(enc, overlap, appended, lines, tokens, lineno, evicted, chunks, spans);
      if !IsBlank(text) {
        chunks' := chunks + [(lineno, text)];
        spans' := spans + [(evicted, |appended|)];
      }
    } else if complete {
      assert evicted == |appended|;
    }
  }


  /** Chunk `chunk` joins the lines `span` of the history, begins where the buffer began when
      its last line was followed, fits the chunk size (but for the line that entered at a flush)
      and, unless it is the final buffer, ended because the next input line would have brought
      it to the chunk size. */
  ghost predicate ChunkEnds(enc: Encoder, chunkSize: nat, overlap: nat, input: seq<string>, appended: seq<string>,
                            starts: seq<nat>, chunk: (int, string), span: (nat, nat))
  {
    && ChunkOf(appended, chunk, span)
    && span.1 < |starts| && span.0 == starts[span.1]
    && Fits(enc, chunkSize, overlap, appended[span.0..span.1])
    && Tally(enc, appended[span.0..span.1 - 1]) < chunkSize
    && (span.1 < |input| ==>
          Tally(enc, appended[span.0..span.1]) + CountTokens(enc, input[span.1]) >= chunkSize)
  }

  /** What `read_file` yields for the lines `input`, stated over a ghost history: `appended[i]`
      is input line `i` as it entered the buffer, `starts[i]` is where the buffer began in
      `appended` when line `i` was read (`starts[|input|]`: the final buffer) and `spans[c]` is
      the run of `appended` that chunk `c` joins. Every line took its `LineStep`; the final
      buffer is yielded exactly on a complete read when it is not whitespace only; every chunk
      ends as `ChunkEnds` says and follows the one before; and on a complete read every line
      that is not whitespace only lies in some chunk. */
  ghost predicate Chunked(enc: Encoder, chunkSize: nat, overlap: nat, input: seq<string>, complete: bool,
                          chunks: seq<(int, string)>, appended: seq<string>, starts: seq<nat>, spans: seq<(nat, nat)>)
  {
    && |appended| == |input| && |starts| == |input| + 1 && |spans| == |chunks| && starts[0] == 0
    && (forall i :: 0 <= i < |input| ==> LineStep(enc, chunkSize, overlap, input, appended, starts, spans, i))
    && starts[|input|] <= |input|
    && ((starts[|input|], |input|) in spans <==> complete && !IsBlank(Concat(appended[starts[|input|]..])))
    && (forall c :: 0 <= c < |chunks| ==> ChunkEnds(enc, chunkSize, overlap, input, appended, starts, chunks[c], spans[c]))
    && (forall c :: 0 < c < |chunks| ==> Follows(enc, overlap, appended, spans[c - 1], spans[c]))
    && (complete ==> forall i :: 0 <= i < |input| ==> Covered(appended, spans, i))
  }

  /** Every chunk span ends before line `n` and begins where the buffer began when its last
      line was followed. */
  ghost predicate Anchored(spans: seq<(nat, nat)>, starts: seq<nat>, n: nat)
  {
    forall c :: 0 <= c < |spans| ==> spans[c].1 < n && spans[c].1 < |starts| && spans[c].0 == starts[spans[c].1]
  }

  lemma AnchoredStep(spans: seq<(nat, nat)>, starts: seq<nat>, n: nat, spans': seq<(nat, nat)>, next: nat)
    requires |starts| == n + 1 && Anchored(spans, starts, n)
    requires spans' == spans || spans' == spans + [(starts[n], n)]
    ensures Anchored(spans', starts + [next], n + 1)
  {
  }

  lemma AnchoredLast(spans: seq<(nat, nat)>, starts: seq<nat>, n: nat, spans': seq<(nat, nat)>)
    requires |starts| == n + 1 && Anchored(spans, starts, n)
    requires spans' == spans || spans' == spans + [(starts[n], n)]
    ensures Anchored(spans', starts, n + 1)
  {
  }

  /** `read_file` over the lines of one input: the `(lineno, text)` pairs it yields. When the
      input fails to decode (`complete` is false) the generator stops at the failing line and
      the buffer is lost. */
  method ReadFile(enc: Encoder, input: seq<string>, complete: bool, chunkSize: nat, overlap: nat)
    returns (chunks: seq<(int, string)>, ghost appended: seq<string>, ghost starts: seq<nat>,
             ghost spans: seq<(nat, nat)>)
    requires overlap < chunkSize
    ensures Chunked(enc, chunkSize, overlap, input, complete, chunks, appended, starts, spans)
  {
    var lines, tokens, lineno;
    ghost var evicted, spans0;
    lines, tokens, lineno, chunks, appended, starts, evicted, spans0 := ReadLines(enc, input, chunkSize, overlap);
    chunks, spans := Finish(enc, overlap, appended, lines, tokens, lineno, evicted, chunks, spans0, complete);
    ChunkedAtEnd(enc, chunkSize, overlap, input, complete, chunks, appended, starts, spans0, spans, lines);
  }

  /** The loop of `read_file` over every line of the input, before the final buffer is
      yielded. */
  method ReadLines(enc: Encoder, input: seq<string>, chunkSize: nat, overlap: nat)
    returns (lines: seq<string>, tokens: nat, lineno: int, chunks: seq<(int, string)>, ghost appended: seq<string>,
             ghost starts: seq<nat>, ghost evicted: nat, ghost spans: seq<(nat, nat)>)
    requires overlap < chunkSize
    ensures |appended| == |input| && |starts| == |input| + 1
    ensures Trace(enc, chunkSize, overlap, input, appended, starts, spans)
    ensures starts[|input|] == evicted
    ensures BufferInv(enc, overlap, appended, lines, tokens, lineno, evicted, chunks, spans)
    ensures Fits(enc, chunkSize, overlap, lines)
    ensures Anchored(spans, starts, |input|)
  {
    lines, tokens, lineno := [], 0, 1;
    chunks, appended, starts, spans := [], [], [0], [];
    evicted := 0;
    var k := 0;
    while k < |input|
      invariant k <= |input| && |appended| == k && |starts| == k + 1
      invariant Trace(enc, chunkSize, overlap, input, appended, starts, spans)
      invariant starts[k] == evicted
      invariant BufferInv(enc, overlap, appended, lines, tokens, lineno, evicted, chunks, spans)
      invariant Fits(enc, chunkSize, overlap, lines)
      invariant Anchored(spans, starts, k)
    {
      var entered;
      lines, tokens, lineno, chunks, entered, evicted, spans :=
        ReadLine(enc, chunkSize, overlap, input, appended, starts, lines, tokens, lineno, evicted, chunks, spans, k, input[k]);
      appended := appended + [entered];
      starts := starts + [evicted];
      k := k + 1;
    }
  }

  /** One pass of the loop of `read_file` over input line `|appended|`, with the ghost history
      extended by the line as it entered and by where the buffer now begins. */
  method ReadLine(enc: Encoder, chunkSize: nat, overlap: nat, ghost input: seq<string>, ghost appended: seq<string>,
                  ghost starts: seq<nat>, lines: seq<string>, tokens: nat, lineno: int, ghost evicted: nat,
                  chunks: seq<(int, string)>, ghost spans: seq<(nat, nat)>, k: nat, line: string)
    returns (lines': seq<string>, tokens': nat, lineno': int, chunks': seq<(int, string)>, entered: string,
             ghost evicted': nat, ghost spans': seq<(nat, nat)>)
    requires overlap < chunkSize && k < |input| && |appended| == k && |starts| == k + 1
    requires line == input[k]
    requires Trace(enc, chunkSize, overlap, input, appended, starts, spans)
    requires starts[k] == evicted
    requires BufferInv(enc, overlap, appended, lines, tokens, lineno, evicted, chunks, spans)
    requires Fits(enc, chunkSize, overlap, lines)
    requires Anchored(spans, starts, k)
    ensures |appended + [entered]| == k + 1 && |starts + [evicted']| == k + 1 + 1
    ensures Trace(enc, chunkSize, overlap, input, appended + [entered], starts + [evicted'], spans')
    ensures (starts + [evicted'])[k + 1] == evicted'
    ensures BufferInv(enc, overlap, appended + [entered], lines', tokens', lineno', evicted', chunks', spans')
    ensures Fits(enc, chunkSize, overlap, lines')
    ensures Anchored(spans', starts + [evicted'], k + 1)
  {
    ghost var dropped;
    lines', tokens', lineno', chunks', entered, evicted', spans', dropped :=
      Feed(enc, chunkSize, overlap, appended, lines, tokens, lineno, evicted, chunks, spans, line);
    TraceStep(enc, chunkSize, overlap, input, appended, starts, spans, lines, tokens, evicted,
              entered, evicted', spans', dropped);
    AnchoredStep(spans, starts, k, spans', evicted');
  }

  /** After the last line: the trace and the chunk invariant give `Chunked`. */
  lemma ChunkedAtEnd(enc: Encoder, chunkSize: nat, overlap: nat, input: seq<string>, complete: bool,
                     chunks: seq<(int, string)>, appended: seq<string>, starts: seq<nat>,
                     spans0: seq<(nat, nat)>, spans: seq<(nat, nat)>, lines: seq<string>)
    requires overlap < chunkSize && |appended| == |input|
    requires Trace(enc, chunkSize, overlap, input, appended, starts, spans0)
    requires starts[|input|] <= |input| && lines == appended[starts[|input|]..]
    requires Fits(enc, chunkSize, overlap, lines)
    requires Anchored(spans0, starts, |appended|)
    requires spans == if complete && !IsBlank(Concat(lines)) then spans0 + [(starts[|input|], |input|)] else spans0
    requires ChunksInv(enc, overlap, appended, chunks, spans)
    requires complete ==> CoveredUpTo(appended, spans, |appended|)
    ensures Chunked(enc, chunkSize, overlap, input, complete, chunks, appended, starts, spans)
  {
    var n := |input|;
    if spans != spans0 {
      TraceAddSpan(enc, chunkSize, overlap, input, appended, starts, spans0, (starts[n], n));
    }
    TraceMeans(enc, chunkSize, overlap, input, appended, starts, spans);
    ChunksInvMeans(enc, overlap, appended, chunks, spans);
    AnchoredLast(spans0, starts, n, spans);
    AllChunksEnd(enc, chunkSize, overlap, input, chunks, appended, starts, spans);
    if complete {
      CoveredUpToIff(appended, spans, |appended|);
    }
  }

  /** Every chunk of a finished read ends as `ChunkEnds` says. */
  lemma AllChunksEnd(enc: Encoder, chunkSize: nat, overlap: nat, input: seq<string>, chunks: seq<(int, string)>,
                     appended: seq<string>, starts: seq<nat>, spans: seq<(nat, nat)>)
    requires overlap < chunkSize && |appended| == |input| && |starts| == |input| + 1 && |spans| == |chunks|
    requires forall i :: 0 <= i < |input| ==> LineStep(enc, chunkSize, overlap, input, appended, starts, spans, i)
    requires starts[|input|] <= |input| && Fits(enc, chunkSize, overlap, appended[starts[|input|]..])
    requires Anchored(spans, starts, |input| + 1)
    requires forall c :: 0 <= c < |chunks| ==> ChunkOf(appended, chunks[c], spans[c])
    ensures forall c :: 0 <= c < |chunks| ==> ChunkEnds(enc, chunkSize, overlap, input, appended, starts, chunks[c], spans[c])
  {
    forall c | 0 <= c < |chunks|
      ensures ChunkEnds(enc, chunkSize, overlap, input, appended, starts, chunks[c], spans[c])
    {
      assert spans[c] in spans;
      ChunkEndsAt(enc, chunkSize, overlap, input, chunks[c], appended, starts, spans, spans[c]);
    }
  }

  /** One chunk of a finished read ends as `ChunkEnds` says. */
  lemma ChunkEndsAt(enc: Encoder, chunkSize: nat, overlap: nat, input: seq<string>, chunk: (int, string),
                    appended: seq<string>, starts: seq<nat>, spans: seq<(nat, nat)>, s: (nat, nat))
    requires overlap < chunkSize && |appended| == |input| && |starts| == |input| + 1
    requires forall i :: 0 <= i < |input| ==> LineStep(enc, chunkSize, overlap, input, appended, starts, spans, i)
    requires starts[|input|] <= |input| && Fits(enc, chunkSize, overlap, appended[starts[|input|]..])
    requires Anchored(spans, starts, |input| + 1)
    requires s in spans && ChunkOf(appended, chunk, s)
    ensures ChunkEnds(enc, chunkSize, overlap, input, appended, starts, chunk, s)
  {
    if s.1 < |input| {
      assert LineStep(enc, chunkSize, overlap, input, appended, starts, spans, s.1);
    } else {
      assert appended[s.0..s.1] == appended[starts[|input|]..];
    }
    FitsMeans(enc, chunkSize, overlap, appended[s.0..s.1]);
    assert appended[s.0..s.1][..s.1 - s.0 - 1] == appended[s.0..s.1 - 1];
  }

  /** One long line on its own: with a chunk size of 5, no overlap and ten tokens for the
      line, the line enters as its proportional half, and a complete read yields a chunk. */
  lemma LongLineExample(enc: Encoder, chunks: seq<(int, string)>, appended: seq<string>, starts: seq<nat>,
                        spans: seq<(nat, nat)>)
    requires enc("xxxxxxxxxx") == 10 && enc("xxxxx") == 5
    requires Chunked(enc, 5, 0, ["xxxxxxxxxx"], true, chunks, appended, starts, spans)
    ensures appended == ["xxxxx"] && chunks != []
  {
    var line := "xxxxxxxxxx";
    assert !IsSpace(line[0]) && !IsSpace("xxxxx"[0]);
    assert line[..|line| * 5 / 10] == "xxxxx";
    assert Trimmed(enc, line, 5) == "xxxxx";
    assert LineStep(enc, 5, 0, [line], appended, starts, spans, 0);
    assert starts[1] == 0 && appended[0..] == ["xxxxx"];
    assert Concat(["xxxxx"]) == "xxxxx" + Concat([]);
    assert Concat(appended[0..]) == "xxxxx";
    assert !IsBlank("xxxxx");
    assert (0, 1) in spans;
  }
}
