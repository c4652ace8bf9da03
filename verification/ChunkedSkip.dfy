/** The hand-over from the decoder to the skipper keeps the place on the wire. */
module ChunkedSkip {
  import opened Bytes
  import opened Lines
  import opened Chunked
  import ChunkSize

  /** The skipper `k` and the decoder `d` stand at the same place of the same wire. */
  predicate Aligned(k: Decoder, d: Decoder) {
    && k.state == SkipBodyChunked && d.state in DECODE && k.finished && k.bodySize < TWO_64
    && k.wire == d.wire && k.chnkd == d.chnkd && k.last == d.last
  }

  /** Where the skipper must end, given where the decoder ends. */
  predicate SamePlace(k: Decoder, d: Decoder) {
    && k.wire == d.wire && k.chnkd == d.chnkd && k.last == d.last
    && (d.state == Hold <==> k.state == ReqClear)
    && (d.state in DECODE <==> k.state == SkipBodyChunked)
  }

  /** The counts of both have moved alike, and nothing else of the skipper has changed. */
  predicate Together(k: Decoder, d: Decoder, k': Decoder, d': Decoder) {
    && (k'.bodySize - k.bodySize) % TWO_64 == (d'.bodySize - d.bodySize) % TWO_64
    && k' == k.(wire := k'.wire, chnkd := k'.chnkd, last := k'.last, bodySize := k'.bodySize)
  }

  /** One step of the decoder within its limit is one step of the skipper, if it is framed. */
  lemma StepAligned(k: Decoder, d: Decoder)
    requires Aligned(k, d)
    ensures CanStep(k) <==> CanStep(d)
    ensures CanStep(d) && Step(d).state != SkipBodyChunked ==>
              var k', d' := Step(k), Step(d);
              if (0 < d.chnkd <= 2 && d.wire[..2] != CRLF) || d'.state == BadReq then k'.state == BadReq
              else if d'.state == Hold then SamePlace(k', d') && k' == Skipped(k, d, d')
              else Aligned(k', d') && Together(k, d, k', d')
    ensures CanStep(d) ==> Step(k).out == k.out
  {
    hide StartChunk, EndChunk, FlatLine;
    if CanStep(d) {
      if d.chnkd == 0 {
        StartAligned(k, d);
      } else if d.chnkd <= 2 {
        EndAligned(k, d);
      }
    }
  }

  lemma StartAligned(k: Decoder, d: Decoder)
    requires Aligned(k, d) && FlatLine(d.wire).Line?
    ensures StartChunk(k).out == k.out
    ensures StartChunk(d).state != SkipBodyChunked ==>
              var k', d' := StartChunk(k), StartChunk(d);
              if d'.state == BadReq then k'.state == BadReq else Aligned(k', d') && Together(k, d, k', d')
  {
    hide FlatLine, ChunkSize.SizeOf, ChunkSize.SizeAfter, Together;
    LineFits(d.wire);
    var size := ChunkSize.SizeOf(d.wire[..FlatLine(d.wire).length]);
    if size.Some? {
      var k', d' := StartChunk(k), StartChunk(d);
      if d'.state != SkipBodyChunked {
        Counted(k.bodySize, size.value);
        Counted(d.bodySize, size.value);
        MovedAlike(k, d, k', d', size.value);
      }
    }
  }

  lemma Counted(a: nat, v: nat)
    ensures ((a + v) % TWO_64 - a) % TWO_64 == v % TWO_64
  {
  }

  lemma MovedAlike(k: Decoder, d: Decoder, k': Decoder, d': Decoder, v: nat)
    requires (k'.bodySize - k.bodySize) % TWO_64 == v % TWO_64 == (d'.bodySize - d.bodySize) % TWO_64
    requires k' == k.(wire := k'.wire, chnkd := k'.chnkd, last := k'.last, bodySize := k'.bodySize)
    ensures Together(k, d, k', d')
  {
  }

  lemma EndAligned(k: Decoder, d: Decoder)
    requires Aligned(k, d) && 0 < d.chnkd <= 2 && |d.wire| >= 2
    ensures var k', d' := EndChunk(k), EndChunk(d);
            k'.out == k.out &&
            if d.wire[..2] != CRLF then k'.state == BadReq
            else if d'.state == Hold then SamePlace(k', d') && k' == Skipped(k, d, d')
            else Aligned(k', d') && Together(k, d, k', d')
    ensures EndChunk(d).state in DECODE + {Hold}
  {
  }

  /** Lockstep: the skipper fails exactly where the decoder fails or a terminator is not CR LF. */
  lemma {:induction false} LockStep(k: Decoder, d: Decoder)
    requires Aligned(k, d) && Run(d, DECODE).state != SkipBodyChunked
    ensures var k', d' := Run(k, STREAM), Run(d, DECODE);
            && (k'.state == BadReq <==> d'.state == BadReq || !Framed(d))
            && (k'.state != BadReq ==> SamePlace(k', d'))
            && k'.out == k.out && k'.state != Hold
    ensures NeverWraps(d, DECODE) ==> NeverWraps(k, STREAM)
    ensures Run(k, STREAM).state == ReqClear ==> Run(k, STREAM) == Skipped(k, d, Run(d, DECODE))
    decreases |d.wire|
  {
    hide Step;
    StepAligned(k, d);
    if CanStep(d) {
      var k', d' := Step(k), Step(d);
      StaysDown(d');
      assert Run(d, DECODE) == Run(d', DECODE);
      if Aligned(k', d') {
        LockStep(k', d');
        SkippedOn(k, d, k', d', Run(d, DECODE));
      }
    }
  }

  /** The skipper at its end: its counts moved as those of the decoder did, modulo 2^64. */
  function Skipped(k: Decoder, d: Decoder, end: Decoder): Decoder {
    var total := (k.bodySize + end.bodySize - d.bodySize) % TWO_64;
    k.(wire := end.wire, chnkd := end.chnkd, last := end.last, bodySize := total, cntLen := total, state := ReqClear)
  }

  lemma SkippedOn(k: Decoder, d: Decoder, k': Decoder, d': Decoder, end: Decoder)
    requires (k'.bodySize - k.bodySize) % TWO_64 == (d'.bodySize - d.bodySize) % TWO_64
    requires k' == k.(wire := k'.wire, chnkd := k'.chnkd, last := k'.last, bodySize := k'.bodySize)
    ensures Skipped(k', d', end) == Skipped(k, d, end)
  {
    SameSum(k.bodySize, d.bodySize, k'.bodySize, d'.bodySize, end.bodySize);
  }

  lemma SameSum(k: int, d: int, k': int, d': int, e: int)
    requires (k' - k) % TWO_64 == (d' - d) % TWO_64
    ensures (k' + e - d') % TWO_64 == (k + e - d) % TWO_64
  {
  }

  /** What a whole run decodes begins with what has been decoded. */
  lemma {:induction false} RunOutGrows(s: Decoder, phase: set<State>)
    ensures s.out <= Run(s, phase).out
    decreases |s.wire|, s.state in STREAM
  {
    hide Step;
    if Enabled(s, phase) {
      StepOutGrows(s);
      RunOutGrows(Step(s), phase);
    }
  }

  /** A step under two limits: the same, or the smaller limit hands over to the skipper. */
  lemma StepUnderLimit(s: Decoder, limit: nat)
    requires s.state in DECODE && CanStep(s) && s.finished && s.bodySize <= s.limit <= limit
    requires Step(s.(limit := limit)).state != SkipBodyChunked
    ensures CanStep(s.(limit := limit))
    ensures var k, d := Step(s), Step(s.(limit := limit));
            || (k.(limit := limit) == d && k.finished && (k.state in DECODE ==> k.bodySize <= k.limit))
            || (Aligned(k, d) && k.out == d.out)
  {
    hide FlatLine, StartChunk, EndChunk;
    if s.chnkd == 0 {
      StartUnderLimit(s, limit);
    } else if s.chnkd <= 2 {
      EndUnderLimit(s, limit);
    }
  }

  lemma StartUnderLimit(s: Decoder, limit: nat)
    requires s.state in DECODE && FlatLine(s.wire).Line? && s.finished && s.bodySize <= s.limit <= limit
    requires StartChunk(s.(limit := limit)).state != SkipBodyChunked
    ensures var k, d := StartChunk(s), StartChunk(s.(limit := limit));
            || (k.(limit := limit) == d && k.finished && (k.state in DECODE ==> k.bodySize <= k.limit))
            || (Aligned(k, d) && k.out == d.out)
  {
    hide FlatLine, ChunkSize.SizeOf, ChunkSize.SizeAfter;
    LineFits(s.wire);
  }

  lemma EndUnderLimit(s: Decoder, limit: nat)
    requires s.state in DECODE && 0 < s.chnkd <= 2 && |s.wire| >= 2 && s.finished && s.bodySize <= s.limit
    ensures var k, d := EndChunk(s), EndChunk(s.(limit := limit));
            k.(limit := limit) == d && k.finished && k.bodySize <= k.limit
  {
  }

  /** The terminators after the hand-over are CR LF. */
  predicate FramedAfterLimit(s: Decoder, limit: nat)
    requires s.limit <= limit
    decreases |s.wire|, s.state in STREAM
  {
    Enabled(s, DECODE) ==>
      if Step(s).state == SkipBodyChunked then Framed(Step(s.(limit := limit)))
      else FramedAfterLimit(Step(s), limit)
  }

  /** What the two runs have in common; `framed` tells whether the skipper finds CR LF everywhere. */
  predicate SameEnd(k: Decoder, d: Decoder, framed: bool) {
    && (k.state == BadReq <==> d.state == BadReq || !framed)
    && (k.state != BadReq ==> k.wire == d.wire && k.chnkd == d.chnkd && k.last == d.last)
    && (k.state in {Hold, ReqClear} <==> k.state != BadReq && d.state == Hold)
    && k.out <= d.out
  }

  /**
   * The mid-stream switch.  Run `s` under its limit, skipping after the hand-over, and run it
   * under a limit the body respects.  The first either reports a bad request, exactly when the
   * second does or a terminator after the hand-over is not CR LF, or it ends at the same place.
   */
  lemma {:induction false} LimitKeepsPlace(s: Decoder, limit: nat)
    requires s.state in DECODE && s.finished && s.bodySize <= s.limit <= limit
    requires Run(s.(limit := limit), DECODE).state != SkipBodyChunked
    ensures SameEnd(Run(s, STREAM), Run(s.(limit := limit), DECODE), FramedAfterLimit(s, limit))
    ensures NeverWraps(s.(limit := limit), DECODE) ==> NeverWraps(s, STREAM)
    ensures Framed(s.(limit := limit)) ==> FramedAfterLimit(s, limit)
    decreases |s.wire|
  {
    hide Step;
    if CanStep(s) {
      CanStepToo(s, limit);
      var k, d := Step(s), Step(s.(limit := limit));
      Advance(s, limit);
      if k.state == SkipBodyChunked {
        LockStep(k, d);
        RunOutGrows(d, DECODE);
      } else if k.state in DECODE {
        LimitKeepsPlace(k, limit);
      } else {
        Ended(k, d, limit);
      }
    }
  }

  /** One step of both runs, and what is left of each. */
  lemma Advance(s: Decoder, limit: nat)
    requires s.state in DECODE && s.finished && s.bodySize <= s.limit <= limit && CanStep(s)
    requires Run(s.(limit := limit), DECODE).state != SkipBodyChunked
    ensures var k := Step(s);
            && Run(s, STREAM) == Run(k, STREAM) && |k.wire| < |s.wire|
            && k.state in DECODE + SKIP + {Hold, BadReq} && k.limit <= limit
            && (k.state in DECODE ==> k.bodySize <= k.limit)
    ensures var k, t := Step(s), s.(limit := limit);
            && CanStep(t) && Run(t, DECODE) == Run(Step(t), DECODE)
            && if k.state == SkipBodyChunked then
                 Aligned(k, Step(t)) && k.out == Step(t).out && FramedAfterLimit(s, limit) == Framed(Step(t))
               else
                 Step(t) == k.(limit := limit) && k.finished && FramedAfterLimit(s, limit) == FramedAfterLimit(k, limit)
  {
    hide Step;
    CanStepToo(s, limit);
    StepDecodes(s);
    StaysDown(Step(s.(limit := limit)));
    StepUnderLimit(s, limit);
  }

  lemma StepDecodes(s: Decoder)
    requires s.state in DECODE && CanStep(s)
    ensures Step(s).state in DECODE + SKIP + {Hold, BadReq} && Step(s).limit == s.limit
    ensures |Step(s).wire| < |s.wire|
  {
    hide ChunkSize.SizeOf, ChunkSize.SizeAfter;
  }

  lemma CanStepToo(s: Decoder, limit: nat)
    ensures CanStep(s) == CanStep(s.(limit := limit))
  {
  }

  lemma StaysDown(d: Decoder)
    ensures d.state == SkipBodyChunked ==> Run(d, DECODE).state == SkipBodyChunked
  {
  }

  lemma Ended(k: Decoder, d: Decoder, limit: nat)
    requires k.(limit := limit) == d && k.state in {Hold, BadReq} && k.limit <= limit
    ensures SameEnd(Run(k, STREAM), Run(d, DECODE), FramedAfterLimit(k, limit))
    ensures FramedAfterLimit(k, limit)
  {
  }
}
