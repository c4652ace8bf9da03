/** A printed body that goes over its limit: where it is cut, and how the rest is skipped. */
module CutBodies {
  import opened Bytes
  import opened Lines
  import opened Chunked
  import opened ChunkedRoundTrip
  import opened ChunkedSkip
  import ChunkSize

  /** Data chunks that a size line can announce without wrapping the counter. */
  predicate Sendable(body: seq<bytes>) {
    forall i :: 0 <= i < |body| ==> 0 < |body[i]| <= TWO_32 - 3
  }

  /** How many of the first chunks stay within the limit. */
  function Fitting(body: seq<bytes>, limit: nat): (j: nat)
    ensures j <= |body| && |Concat(body[..j])| <= limit
    ensures j < |body| ==> |Concat(body[..j])| + |body[j]| > limit
    ensures j == |body| ==> |Concat(body)| <= limit
    decreases |body|
  {
    if body == [] || |body[0]| > limit then 0
    else
      var j := Fitting(body[1..], limit - |body[0]|);
      assert body[..j + 1][1..] == body[1..][..j];
      j + 1
  }

  /** What passes: the chunks before the one that goes over the limit. */
  function Passed(body: seq<bytes>, limit: nat): bytes {
    Concat(body[..Fitting(body, limit)])
  }

  /** What comes behind that chunk. */
  function Behind(body: seq<bytes>, limit: nat): seq<bytes> {
    var j := Fitting(body, limit);
    if j < |body| then body[j + 1..] else []
  }

  lemma {:induction false} ConcatSplit(body: seq<bytes>, j: nat)
    requires j < |body|
    ensures |Concat(body)| == |Concat(body[..j])| + |body[j]| + |Concat(body[j + 1..])|
    ensures Concat(body[..j]) <= Concat(body)
    decreases j
  {
    if j > 0 {
      ConcatSplit(body[1..], j - 1);
      assert body[..j][1..] == body[1..][..j - 1] && body[1..][j..] == body[j + 1..];
    } else {
      assert body[..0] == [];
    }
  }

  /** The coding of a body around its chunk `j`. */
  lemma {:induction false} CodingSplit(body: seq<bytes>, j: nat)
    requires j < |body|
    ensures ChunkedCoding(body) ==
              EncodeAll(PrintAll(body[..j])) + (Encode(Print(body[j])) + ChunkedCoding(body[j + 1..]))
    decreases j
  {
    hide Encode, Print;
    FirstCoding(body);
    if j > 0 {
      CodingSplit(body[1..], j - 1);
      assert body[..j][1..] == body[1..][..j - 1] && body[1..][j..] == body[j + 1..];
      FirstCoding(body[..j]);
      var more := Encode(Print(body[j])) + ChunkedCoding(body[j + 1..]);
      assert Encode(Print(body[0])) + (EncodeAll(PrintAll(body[..j][1..])) + more) ==
             Encode(Print(body[0])) + EncodeAll(PrintAll(body[..j][1..])) + more;
    } else {
      assert PrintAll(body[..0]) == [] && body[1..] == body[j + 1..];
    }
  }

  lemma FirstCoding(body: seq<bytes>)
    requires body != []
    ensures EncodeAll(PrintAll(body)) == Encode(Print(body[0])) + EncodeAll(PrintAll(body[1..]))
    ensures ChunkedCoding(body) == Encode(Print(body[0])) + ChunkedCoding(body[1..])
  {
    hide Encode, Print;
    assert PrintAll(body)[1..] == PrintAll(body[1..]);
  }

  /** The decoder when chunk `j` has gone over the limit. */
  function AtLimit(s: Decoder, body: seq<bytes>, suffix: bytes): Decoder
    requires Fitting(body, s.limit) < |body|
  {
    var c := body[Fitting(body, s.limit)];
    s.(wire := c + CRLF + (ChunkedCoding(Behind(body, s.limit)) + suffix), out := s.out + Passed(body, s.limit),
       chnkd := |c| + 2, bodySize := SIZE_T_MAX, state := SkipBodyChunked, reply := PayloadTooLarge, cut := true)
  }

  lemma OverLimitStep(s: Decoder, c: bytes, more: bytes)
    requires Ready(s) && 0 < |c| <= TWO_32 - 3 && s.wire == Encode(Print(c)) + more
    requires s.limit < s.bodySize + |c| <= SIZE_T_MAX
    ensures CanStep(s) && Step(s) ==
              s.(wire := c + CRLF + more, chnkd := |c| + 2, bodySize := SIZE_T_MAX, state := SkipBodyChunked,
                 reply := PayloadTooLarge, cut := true)
  {
    hide FlatLine, ChunkSize.SizeOf, ChunkSize.SizeAfter, HexPrint, Step, CanStep, Sized;
    var size := HexPrint(|c|);
    PrintedValid(c);
    assert s.wire == size + CRLF + (c + CRLF + more);
    SizeLineTaken(s.wire, size, |c|, c + CRLF + more);
    StepSized(s);
    SizedOver(s.(wire := c + CRLF + more), |c|, ChunkSize.SizeAfter(s.wire[..|size|], s.chnkd));
  }

  lemma StepSized(s: Decoder)
    requires s.state in STREAM && s.chnkd == 0 && FlatLine(s.wire).Line?
    ensures var n := FlatLine(s.wire).length;
            && CanStep(s) && n + 2 <= |s.wire|
            && Step(s) == Sized(s.(wire := s.wire[n + 2..]), ChunkSize.SizeOf(s.wire[..n]),
                                ChunkSize.SizeAfter(s.wire[..n], s.chnkd))
  {
    hide Sized, ChunkSize.SizeOf, ChunkSize.SizeAfter, FlatLine;
    LineFits(s.wire);
  }

  lemma SizedOver(s: Decoder, v: nat, after: nat)
    requires Ready(s) && 0 < v <= TWO_32 - 3 && s.limit < s.bodySize + v <= SIZE_T_MAX
    ensures Sized(s, Some(v), after) ==
              s.(chnkd := v + 2, bodySize := SIZE_T_MAX, state := SkipBodyChunked,
                 reply := PayloadTooLarge, cut := true)
  {
  }

  /** Decoding a printed body up to its limit. */
  lemma ReachesLimit(s: Decoder, body: seq<bytes>, suffix: bytes)
    requires Ready(s) && s.bodySize == 0 && s.wire == ChunkedCoding(body) + suffix
    requires Sendable(body) && s.limit < |Concat(body)| <= SIZE_T_MAX
    ensures Run(s, DECODE) == AtLimit(s, body, suffix) && NeverWraps(s, DECODE)
  {
    hide Run, NeverWraps, Framed, Encode, EncodeAll, Print, PrintAll, Step, CanStep, ChunkedCoding;
    var j := Fitting(body, s.limit);
    var first, more := PrintAll(body[..j]), ChunkedCoding(body[j + 1..]) + suffix;
    CodingSplit(body, j);
    ConcatSplit(body, j);
    Regroup(EncodeAll(first), Encode(Print(body[j])), ChunkedCoding(body[j + 1..]), suffix);
    PrintedAll(body[..j]);
    PrintedPayload(body[..j]);
    ChunksLead(s, first, Encode(Print(body[j])) + more);
    var u := AfterAll(s, first, Encode(Print(body[j])) + more);
    OverLimitStep(u, body[j], more);
    LastStep(u);
  }

  lemma Regroup(a: bytes, b: bytes, c: bytes, d: bytes)
    ensures a + (b + c) + d == a + (b + (c + d))
  {
  }

  lemma LastStep(u: Decoder)
    requires u.state in DECODE && CanStep(u) && u.chnkd == 0 && Step(u).state !in DECODE
    ensures Run(u, DECODE) == Step(u) && NeverWraps(u, DECODE)
  {
    hide Step, CanStep;
  }

  /** The rest of a body behind the size line of a chunk. */
  lemma DecodeRest(d: Decoder, c: bytes, rest: seq<bytes>, suffix: bytes)
    requires d.state in DECODE && d.chnkd == |c| + 2 && !d.last
    requires d.wire == c + CRLF + (ChunkedCoding(rest) + suffix)
    requires Sendable(rest) && d.bodySize + |Concat(rest)| <= d.limit <= SIZE_T_MAX
    ensures NeverWraps(d, DECODE) && Framed(d)
    ensures var total := d.bodySize + |Concat(rest)|;
            Run(d, DECODE) == d.(wire := suffix, out := d.out + c + Concat(rest), chnkd := 0, last := true,
              bodySize := total, cntLen := total, state := Hold)
  {
    hide Run, NeverWraps, Framed, ChunkedCoding;
    var more := ChunkedCoding(rest) + suffix;
    assert d.wire == c + (CRLF + more);
    DataSteps(d, c, CRLF + more);
    var u := d.(wire := CRLF + more, out := d.out + c, chnkd := 2);
    TailStep(u, CRLF, more);
    OneStepLeads(u, true);
    DecodePrinted(Step(u), rest, suffix);
    LeadsTrans(d, u, Step(u), true, true);
  }

  /** Once the response is written, the rest of a body is skipped to its end. */
  lemma SkipsRest(k: Decoder, c: bytes, rest: seq<bytes>, suffix: bytes)
    requires k.state == SkipBodyChunked && k.finished && k.chnkd == |c| + 2 && !k.last && k.bodySize < TWO_64
    requires k.wire == c + CRLF + (ChunkedCoding(rest) + suffix)
    requires Sendable(rest) && |Concat(rest)| <= SIZE_T_MAX
    ensures NeverWraps(k, STREAM)
    ensures var total := (k.bodySize + |Concat(rest)|) % TWO_64;
            Run(k, STREAM) == k.(wire := suffix, chnkd := 0, last := true, bodySize := total,
                                 cntLen := total, state := ReqClear)
  {
    hide Run, NeverWraps, Framed, ChunkedCoding;
    var d := k.(state := BodyChunked, bodySize := 0, limit := SIZE_T_MAX);
    DecodeRest(d, c, rest, suffix);
    LockStep(k, d);
  }

  /** How a printed body over its limit ends. */
  function CutEnd(limit: nat, body: seq<bytes>, suffix: bytes): Decoder {
    var total := (SIZE_T_MAX + |Concat(Behind(body, limit))|) % TWO_64;
    Decoder(suffix, Passed(body, limit), 0, true, total, limit, total, ReqClear, true, PayloadTooLarge, true)
  }

  lemma CutRun(limit: nat, state: State, body: seq<bytes>, suffix: bytes)
    requires state in DECODE && Sendable(body) && limit < |Concat(body)| <= SIZE_T_MAX
    ensures var s := Feed(Start(limit, state), ChunkedCoding(body) + suffix).(finished := true);
            NeverWraps(s, STREAM) && Run(s, STREAM) == CutEnd(limit, body, suffix)
  {
    hide Run, NeverWraps, ChunkedCoding, Passed, Concat;
    var s := Feed(Start(limit, state), ChunkedCoding(body) + suffix).(finished := true);
    NothingBefore(ChunkedCoding(body) + suffix);
    ReachesLimit(s, body, suffix);
    var k, j := AtLimit(s, body, suffix), Fitting(body, limit);
    ConcatSplit(body, j);
    SkipsRest(k, body[j], body[j + 1..], suffix);
    RunStream(s);
    NothingBefore(Passed(body, limit));
  }

  lemma NothingBefore(a: bytes)
    ensures [] + a == a
  {
  }

  // ----- any split, and the response at any moment -----

  /** A call that never takes a terminator with the counter at 1 takes every step it can. */
  lemma {:induction false} CallSettles(s: Decoder, phase: set<State>, more: bytes)
    requires NeverWraps(Feed(s, more).(finished := true), STREAM)
    ensures !Enabled(Call(s, phase), phase)
    ensures NeverWraps(Feed(Call(s, phase), more).(finished := true), STREAM)
    decreases |s.wire|, s.state in STREAM
  {
    hide Step;
    if Enabled(s, phase) {
      StepFeed(s, more);
      StepFinished(Feed(s, more));
      CallSettles(Step(s), phase, more);
    }
  }

  lemma {:induction false} SkipStays(s: Decoder)
    requires s.state in SKIP
    ensures Call(s, SKIP).state in SKIP + {ReqClear, BadReq}
    ensures Call(s, SKIP).state == ReqClear ==> s.finished
    decreases |s.wire|, s.state in STREAM
  {
    hide Step;
    if Enabled(s, SKIP) {
      SkipStepStays(s);
      StepKeepsFinished(s);
      if s.chnkd != 1 && Step(s).state in SKIP {
        SkipStays(Step(s));
      }
    }
  }

  lemma SkipStepStays(s: Decoder)
    requires s.state in SKIP && CanStep(s)
    ensures Step(s).state in SKIP + {ReqClear, BadReq}
    ensures Step(s).state == ReqClear ==> s.finished
  {
    hide FlatLine, ChunkSize.SizeOf, ChunkSize.SizeAfter;
  }

  lemma {:induction false} DecodeStays(s: Decoder)
    requires s.state in DECODE
    ensures Call(s, DECODE).state in DECODE + SKIP + {Hold, BadReq}
    decreases |s.wire|
  {
    hide Step;
    if Enabled(s, DECODE) {
      StepDecodes(s);
      if s.chnkd != 1 && Step(s).state in DECODE {
        DecodeStays(Step(s));
      }
    }
  }

  /** Nothing is left to do, as far as the response allows. */
  predicate Settled(s: Decoder) {
    && (s.finished ==> s.state !in DECODE && !CanStep(s))
    && !Enabled(s, DECODE) && (s.state == ReqClear ==> s.finished)
  }

  lemma AcceptSettles(s: Decoder, input: Input, more: bytes)
    requires Settled(s)
    requires var first := match input case Bytes(data) => data case Answered => [];
             NeverWraps(Feed(s, first + more).(finished := true), STREAM)
    ensures Settled(Accept(s, input)) && NeverWraps(Feed(Accept(s, input), more).(finished := true), STREAM)
  {
    hide Call, NeverWraps, Step;
    match input
    case Bytes(data) =>
      var t := Feed(s, data);
      assert s.wire + (data + more) == s.wire + data + more;
      PollSettles(t, more);
    case Answered =>
      assert [] + more == more;
      if s.state in SKIP {
        PollSettles(s.(finished := true), more);
      }
  }

  lemma PollSettles(t: Decoder, more: bytes)
    requires NeverWraps(Feed(t, more).(finished := true), STREAM)
    requires (t.finished ==> t.state !in DECODE) && (t.state == ReqClear ==> t.finished)
    ensures Settled(Poll(t)) && NeverWraps(Feed(Poll(t), more).(finished := true), STREAM)
  {
    hide Call, NeverWraps, Step;
    if t.state in DECODE {
      CallSettles(t, DECODE, more);
      CallKeepsFinished(t, DECODE);
      DecodeStays(t);
    } else if t.state in SKIP {
      CallSettles(t, SKIP, more);
      CallKeepsFinished(t, SKIP);
      SkipStays(t);
    }
  }

  lemma {:induction false} ServeSettles(s: Decoder, inputs: seq<Input>)
    requires Settled(s) && NeverWraps(Feed(s, Concat(Pieces(inputs))).(finished := true), STREAM)
    ensures Settled(Serve(s, inputs))
    decreases |inputs|
  {
    if inputs != [] {
      hide Call, NeverWraps, Accept, Settled;
      PiecesFirst(inputs);
      AcceptSettles(s, inputs[0], Concat(Pieces(inputs[1..])));
      ServeSettles(Accept(s, inputs[0]), inputs[1..]);
    }
  }

  lemma StartSettled(limit: nat, state: State)
    requires state in DECODE
    ensures Settled(Start(limit, state))
  {
  }

  lemma SettledStops(s: Decoder)
    requires Settled(s) && s.finished
    ensures Run(s, STREAM) == s
  {
  }

  /**
   * A printed body over its limit, followed by the first bytes of the next request, received in
   * any pieces while the response is written at any moment: once it is written and all has been
   * received, the request is over, exactly the suffix is left, and what has been decoded are the
   * chunks before the one that went over the limit.
   */
  lemma SkipRoundTrip(limit: nat, state: State, body: seq<bytes>, suffix: bytes, inputs: seq<Input>)
    requires state in DECODE && Sendable(body) && limit < |Concat(body)| <= SIZE_T_MAX
    requires Concat(Pieces(inputs)) == ChunkedCoding(body) + suffix
    ensures var t := Serve(Start(limit, state), inputs);
            if t.finished then t == CutEnd(limit, body, suffix) else t.state in SKIP
  {
    hide Run, NeverWraps, Serve, Settled, CutEnd, ChunkedCoding;
    var s := Start(limit, state);
    CutRun(limit, state, body, suffix);
    StartSettled(limit, state);
    ServeSettles(s, inputs);
    PollsSettle(s, inputs, true);
    var t := Serve(s, inputs);
    if t.finished {
      SettledStops(t);
    } else {
      CutEndState(limit, body, suffix);
      WaitsForAnswer(t, CutEnd(limit, body, suffix));
    }
  }

  lemma CutEndState(limit: nat, body: seq<bytes>, suffix: bytes)
    ensures CutEnd(limit, body, suffix).state == ReqClear
  {
  }

  lemma WaitsForAnswer(t: Decoder, end: Decoder)
    requires Settled(t) && Run(t.(finished := true), STREAM) == end && end.state == ReqClear
    ensures t.state in SKIP || t.finished
  {
    StepsOnly(t.(finished := true));
  }

  /** The states a body can end in are reached by steps only. */
  lemma StepsOnly(s: Decoder)
    ensures s.state !in STREAM ==> Run(s, STREAM) == s
    ensures s.state in DECODE && !CanStep(s.(finished := false)) ==> Run(s, STREAM) == s
  {
  }
}
