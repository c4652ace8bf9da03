/**
 * The chunked body decoder and the skipper that replaces it once the body is over its limit, as
 * a machine that consumes one byte of data, one chunk terminator or one size line at a time.
 * `Run` takes every step the received bytes allow; `Call` takes those one call of the server takes.
 */
module Chunked {
  import opened Bytes
  import opened Lines
  import ChunkSize

  /** `e_read_status` */
  datatype State =
    | ReqClear | LineParsing | HeaderParsing | Body | BodyChunked | SkipBody | SkipBodyChunked
    | CgiBody | CgiBodyChunked | Hold | BadReq

  /** The states in which `chunked_body_` is called, and those of either routine. */
  const DECODE: set<State> := {BodyChunked, CgiBodyChunked}
  const SKIP: set<State> := {SkipBodyChunked}
  const STREAM: set<State> := {BodyChunked, CgiBodyChunked, SkipBodyChunked}

  /** The last error response that was made. */
  datatype Reply = NoReply | BadRequest | NotFound | PayloadTooLarge | RangeNotSatisfiable

  /**
   * `wire` are the received bytes not consumed yet, `out` all bytes decoded so far, `finished`
   * says that the response has been written, and `cut` that the body went over its limit.
   */
  datatype Decoder = Decoder(
    wire: bytes, out: bytes, chnkd: nat, last: bool, bodySize: nat, limit: nat,
    cntLen: nat, state: State, finished: bool, reply: Reply, cut: bool)

  function Start(limit: nat, state: State): Decoder {
    Decoder([], [], 0, false, 0, limit, SIZE_T_MAX, state, false, NoReply, false)
  }

  function Feed(s: Decoder, more: bytes): Decoder {
    s.(wire := s.wire + more)
  }

  // ----- one step -----

  predicate CanStep(s: Decoder) {
    && s.state in STREAM
    && if s.chnkd > 2 then s.wire != []
       else if s.chnkd > 0 then |s.wire| >= 2 && (s.state == SkipBodyChunked ==> s.finished)
       else FlatLine(s.wire).Line?
  }

  /** Every step consumes bytes, or leaves the states of a chunked body. */
  function Step(s: Decoder): (t: Decoder)
    requires CanStep(s)
    ensures s.state in STREAM && |t.wire| <= |s.wire|
    ensures |t.wire| == |s.wire| ==> t.state !in STREAM
  {
    hide ChunkSize.SizeOf, ChunkSize.SizeAfter;
    if s.chnkd > 2 then TakeByte(s) else if s.chnkd > 0 then EndChunk(s) else StartChunk(s)
  }

  function TakeByte(s: Decoder): Decoder
    requires s.chnkd > 2 && s.wire != []
  {
    var out := if s.state in DECODE then s.out + [s.wire[0]] else s.out;
    s.(wire := s.wire[1..], out := out, chnkd := s.chnkd - 1)
  }

  /** Only the skipper looks at the two bytes that end a chunk. */
  function EndChunk(s: Decoder): Decoder
    requires 0 < s.chnkd <= 2 && |s.wire| >= 2
  {
    if s.state !in DECODE && s.wire[..2] != CRLF then Fail(s)
    else
      var t := s.(wire := s.wire[2..], chnkd := (s.chnkd + TWO_32 - 2) % TWO_32);
      if s.last then t.(cntLen := s.bodySize, state := if s.state in DECODE then Hold else ReqClear) else t
  }

  function StartChunk(s: Decoder): Decoder
    requires FlatLine(s.wire).Line?
  {
    var n := FlatLine(s.wire).length;
    var line := s.wire[..n];
    Sized(s.(wire := s.wire[n + 2..]), ChunkSize.SizeOf(line), ChunkSize.SizeAfter(line, s.chnkd))
  }

  /** A size line has been taken; only an accepted one tells a size, but any one may set the counter. */
  function Sized(s: Decoder, size: Option<nat>, after: nat): Decoder {
    match size
    case None =>
      var t := s.(chnkd := after);
      if s.state in DECODE && s.bodySize > s.limit then TooLarge(t) else Fail(t)
    case Some(v) =>
      var total := (s.bodySize + v) % TWO_64;
      var t := s.(last := s.last || v == 0, bodySize := total, chnkd := (v + 2) % TWO_32);
      if s.state in DECODE && total > s.limit then TooLarge(t) else t
  }

  function TooLarge(s: Decoder): Decoder {
    s.(bodySize := SIZE_T_MAX, state := SkipBodyChunked, reply := PayloadTooLarge, cut := true)
  }

  function Fail(s: Decoder): Decoder {
    s.(state := BadReq, reply := BadRequest)
  }

  // ----- all steps, and one call -----

  predicate Enabled(s: Decoder, phase: set<State>) {
    s.state in phase && CanStep(s)
  }

  function Run(s: Decoder, phase: set<State>): Decoder
    decreases |s.wire|, s.state in STREAM
  {
    hide Step;
    if Enabled(s, phase) then Run(Step(s), phase) else s
  }

  /**
   * One call of `chunked_body_` or `skip_chunked_body_`.  A terminator taken with `_chnkd_size`
   * at 1 wraps the counter to 2^32 - 1, and the call returns although more could be consumed.
   */
  function Call(s: Decoder, phase: set<State>): Decoder
    decreases |s.wire|, s.state in STREAM
  {
    hide Step;
    if !Enabled(s, phase) then s
    else if s.chnkd == 1 then Step(s)
    else Call(Step(s), phase)
  }

  /** No terminator is taken with the counter at 1 while `s` runs. */
  predicate NeverWraps(s: Decoder, phase: set<State>)
    decreases |s.wire|, s.state in STREAM
  {
    hide Step;
    Enabled(s, phase) ==> s.chnkd != 1 && NeverWraps(Step(s), phase)
  }

  /** Every chunk terminator the decoder takes is CR LF. */
  predicate Framed(d: Decoder)
    decreases |d.wire|, d.state in STREAM
  {
    hide Step;
    Enabled(d, DECODE) ==> (0 < d.chnkd <= 2 ==> d.wire[..2] == CRLF) && Framed(Step(d))
  }

  /** Calls go through the same steps; they differ from `Run` only in where they stop. */
  lemma {:induction false} CallThenRun(s: Decoder, phase: set<State>)
    ensures Run(Call(s, phase), phase) == Run(s, phase)
    ensures NeverWraps(s, phase) ==> Call(s, phase) == Run(s, phase)
    decreases |s.wire|, s.state in STREAM
  {
    hide Step;
    if Enabled(s, phase) && s.chnkd != 1 {
      CallThenRun(Step(s), phase);
    }
  }

  // ----- fragmentation -----

  lemma StartChunkFeed(s: Decoder, more: bytes)
    requires FlatLine(s.wire).Line?
    ensures FlatLine(s.wire + more).Line?
    ensures StartChunk(Feed(s, more)) == Feed(StartChunk(s), more)
  {
    hide FlatLine, ChunkSize.SizeOf, ChunkSize.SizeAfter, Sized;
    var w := s.wire;
    LineStays(w, more);
    LineFits(w);
    var n := FlatLine(w).length;
    assert (w + more)[..n] == w[..n];
    assert (w + more)[n + 2..] == w[n + 2..] + more;
    SizedFeed(s.(wire := w[n + 2..]), ChunkSize.SizeOf(w[..n]), ChunkSize.SizeAfter(w[..n], s.chnkd), more);
  }

  lemma SizedFeed(s: Decoder, size: Option<nat>, after: nat, more: bytes)
    ensures Sized(Feed(s, more), size, after) == Feed(Sized(s, size, after), more)
  {
  }

  lemma EndChunkFeed(s: Decoder, more: bytes)
    requires 0 < s.chnkd <= 2 && |s.wire| >= 2
    ensures EndChunk(Feed(s, more)) == Feed(EndChunk(s), more)
  {
    var w := s.wire;
    assert (w + more)[2..] == w[2..] + more;
    assert (w + more)[..2] == w[..2];
  }

  /** A step consumes a prefix, so bytes that arrive behind it do not change it. */
  lemma StepFeed(s: Decoder, more: bytes)
    requires CanStep(s)
    ensures CanStep(Feed(s, more)) && Step(Feed(s, more)) == Feed(Step(s), more)
  {
    if s.chnkd > 2 {
      assert (s.wire + more)[1..] == s.wire[1..] + more;
    } else if s.chnkd > 0 {
      EndChunkFeed(s, more);
    } else {
      StartChunkFeed(s, more);
    }
  }

  /** Fragmentation independence of the machine, from every state and for every wire. */
  lemma {:induction false} Fragmentation(s: Decoder, more: bytes, phase: set<State>)
    ensures Run(Feed(Run(s, phase), more), phase) == Run(Feed(s, more), phase)
    decreases |s.wire|, s.state in STREAM
  {
    hide Step;
    if Enabled(s, phase) {
      StepFeed(s, more);
      Fragmentation(Step(s), more, phase);
    }
  }

  lemma {:induction false} NeverWrapsSplit(s: Decoder, more: bytes, phase: set<State>)
    requires NeverWraps(Feed(s, more), phase)
    ensures NeverWraps(s, phase) && NeverWraps(Feed(Run(s, phase), more), phase)
    decreases |s.wire|, s.state in STREAM
  {
    hide Step;
    if Enabled(s, phase) {
      StepFeed(s, more);
      NeverWrapsSplit(Step(s), more, phase);
    }
  }

  /** The phases follow each other: the skipper never goes back to decoding. */
  lemma {:induction false} RunStream(s: Decoder)
    ensures Run(Run(s, DECODE), STREAM) == Run(s, STREAM)
    ensures NeverWraps(s, DECODE) && NeverWraps(Run(s, DECODE), STREAM) ==> NeverWraps(s, STREAM)
    decreases |s.wire|, s.state in STREAM
  {
    hide Step;
    if Enabled(s, DECODE) {
      RunStream(Step(s));
    }
  }

  /** The bytes arrive in pieces, with one call after each piece. */
  function FeedCalls(s: Decoder, pieces: seq<bytes>, phase: set<State>): Decoder
    decreases |pieces|
  {
    if pieces == [] then s else FeedCalls(Call(Feed(s, pieces[0]), phase), pieces[1..], phase)
  }

  /** Any split of the bytes into calls ends where the machine ends on all of them. */
  lemma {:induction false} CallsAreRun(s: Decoder, pieces: seq<bytes>, phase: set<State>)
    requires NeverWraps(Feed(s, Concat(pieces)), phase)
    requires !Enabled(s, phase)
    ensures FeedCalls(s, pieces, phase) == Run(Feed(s, Concat(pieces)), phase)
    decreases |pieces|
  {
    if pieces == [] {
      assert s.wire + [] == s.wire;
    } else {
      var first, rest := Feed(s, pieces[0]), Concat(pieces[1..]);
      assert s.wire + (pieces[0] + rest) == s.wire + pieces[0] + rest;
      assert Feed(s, Concat(pieces)) == Feed(first, rest);
      NeverWrapsSplit(first, rest, phase);
      Fragmentation(first, rest, phase);
      CallThenRun(first, phase);
      RunStops(first, phase);
      CallsAreRun(Run(first, phase), pieces[1..], phase);
    }
  }

  lemma {:induction false} RunStops(s: Decoder, phase: set<State>)
    ensures !Enabled(Run(s, phase), phase)
    ensures |Run(s, phase).wire| <= |s.wire|
    decreases |s.wire|, s.state in STREAM
  {
    hide Step;
    if Enabled(s, phase) {
      RunStops(Step(s), phase);
    }
  }

  /** Data decoded so far stays a prefix of what is decoded later. */
  lemma {:induction false} CallOutGrows(s: Decoder, phase: set<State>)
    ensures s.out <= Call(s, phase).out
    decreases |s.wire|, s.state in STREAM
  {
    hide Step;
    if Enabled(s, phase) {
      StepOutGrows(s);
      if s.chnkd != 1 {
        CallOutGrows(Step(s), phase);
      }
    }
  }

  lemma StepOutGrows(s: Decoder)
    requires CanStep(s)
    ensures s.out <= Step(s).out
  {
    hide FlatLine, ChunkSize.SizeOf, ChunkSize.SizeAfter;
  }

  /** Decoding keeps its state, hands over to the skipper, or ends; the skipper never goes back. */
  lemma {:induction false} CallStates(s: Decoder, phase: set<State>)
    ensures s.state in DECODE && phase <= DECODE ==>
              Call(s, phase).state in {s.state, SkipBodyChunked, Hold, BadReq}
    ensures s.state in SKIP ==> Call(s, phase).state in {SkipBodyChunked, ReqClear, BadReq}
    decreases |s.wire|, s.state in STREAM
  {
    hide Step;
    if Enabled(s, phase) {
      StepStates(s);
      if s.chnkd != 1 && Step(s).state in STREAM {
        CallStates(Step(s), phase);
      }
    }
  }

  lemma StepStates(s: Decoder)
    requires CanStep(s)
    ensures s.state in DECODE ==> Step(s).state in {s.state, SkipBodyChunked, Hold, BadReq}
    ensures s.state in SKIP ==> Step(s).state in {SkipBodyChunked, ReqClear, BadReq}
  {
    hide FlatLine, ChunkSize.SizeOf, ChunkSize.SizeAfter;
  }

  // ----- the dispatch by state -----

  /** What `req_res_controller_` does for the states of a chunked body. */
  function Poll(s: Decoder): Decoder {
    if s.state in DECODE then Call(s, DECODE) else if s.state in SKIP then Call(s, SKIP) else s
  }

  /** Bytes arrive, or the response has been written to the last byte. */
  datatype Input = Bytes(data: bytes) | Answered

  /** The response of a body that is skipped; the end of any other response ends the request. */
  function Answer(s: Decoder): Decoder {
    if s.state in SKIP then Poll(s.(finished := true)) else s
  }

  function Accept(s: Decoder, input: Input): Decoder {
    match input
    case Bytes(data) => Poll(Feed(s, data))
    case Answered => Answer(s)
  }

  function Serve(s: Decoder, inputs: seq<Input>): Decoder
    decreases |inputs|
  {
    if inputs == [] then s else Serve(Accept(s, inputs[0]), inputs[1..])
  }

  /** The bytes received, piece by piece. */
  function Pieces(inputs: seq<Input>): seq<bytes> {
    if inputs == [] then [] else
      (match inputs[0] case Bytes(data) => [data] case Answered => []) + Pieces(inputs[1..])
  }

  function Finish(s: Decoder, f: bool): Decoder {
    if f then s.(finished := true) else s
  }

  lemma StepFinished(s: Decoder)
    requires CanStep(s)
    ensures CanStep(s.(finished := true))
    ensures Step(s.(finished := true)) == Step(s).(finished := true)
  {
    hide FlatLine, StartChunk, EndChunk;
    if 0 < s.chnkd <= 2 {
      EndChunkFinished(s);
    } else if s.chnkd == 0 {
      StartChunkFinished(s);
    }
  }

  lemma StartChunkFinished(s: Decoder)
    requires FlatLine(s.wire).Line?
    ensures StartChunk(s.(finished := true)) == StartChunk(s).(finished := true)
  {
    hide FlatLine, ChunkSize.SizeOf, ChunkSize.SizeAfter;
    LineFits(s.wire);
  }

  lemma EndChunkFinished(s: Decoder)
    requires 0 < s.chnkd <= 2 && |s.wire| >= 2
    ensures EndChunk(s.(finished := true)) == EndChunk(s).(finished := true)
  {
  }

  /** A call only takes steps that will be taken anyway. */
  lemma {:induction false} CallAhead(s: Decoder, phase: set<State>, more: bytes, f: bool)
    ensures Run(Finish(Feed(Call(s, phase), more), f), STREAM) == Run(Finish(Feed(s, more), f), STREAM)
    decreases |s.wire|, s.state in STREAM
  {
    hide Step;
    if Enabled(s, phase) {
      StepFeed(s, more);
      StepFinished(Feed(s, more));
      if s.chnkd != 1 {
        CallAhead(Step(s), phase, more, f);
      }
    }
  }

  lemma StepKeepsFinished(s: Decoder)
    requires CanStep(s)
    ensures Step(s).finished == s.finished
  {
    hide FlatLine, ChunkSize.SizeOf, ChunkSize.SizeAfter;
  }

  lemma {:induction false} CallKeepsFinished(s: Decoder, phase: set<State>)
    ensures Call(s, phase).finished == s.finished
    decreases |s.wire|, s.state in STREAM
  {
    hide Step;
    if Enabled(s, phase) {
      StepKeepsFinished(s);
      if s.chnkd != 1 {
        CallKeepsFinished(Step(s), phase);
      }
    }
  }

  lemma {:induction false} ServeKeepsFinished(s: Decoder, inputs: seq<Input>)
    ensures s.finished ==> Serve(s, inputs).finished
    decreases |inputs|
  {
    if inputs != [] {
      hide Call;
      CallKeepsFinished(s.(finished := true), SKIP);
      if inputs[0].Bytes? {
        CallKeepsFinished(Feed(s, inputs[0].data), DECODE);
        CallKeepsFinished(Feed(s, inputs[0].data), SKIP);
      }
      ServeKeepsFinished(Accept(s, inputs[0]), inputs[1..]);
    }
  }

  /** The first input and the rest of the bytes. */
  lemma AcceptAhead(s: Decoder, input: Input, more: bytes, f: bool)
    requires f || !Accept(s, input).finished
    ensures var first := match input case Bytes(data) => data case Answered => [];
            Run(Finish(Feed(Accept(s, input), more), f), STREAM) == Run(Finish(Feed(s, first + more), f), STREAM)
  {
    hide Call, Run;
    match input
    case Bytes(data) =>
      var t := Feed(s, data);
      CallAhead(t, DECODE, more, f);
      CallAhead(t, SKIP, more, f);
      assert s.wire + (data + more) == s.wire + data + more;
      assert Feed(s, data + more) == Feed(t, more);
    case Answered =>
      assert [] + more == more;
      CallAhead(s.(finished := true), SKIP, more, f);
      CallKeepsFinished(s.(finished := true), SKIP);
  }

  /**
   * Fragmentation independence across the hand-over to the skipper: however the bytes were split
   * and dispatched, and whenever the response was written in between, once the machine has settled
   * only their concatenation matters.  `f` tells whether the response is written by then.
   */
  lemma {:induction false} PollsSettle(s: Decoder, inputs: seq<Input>, f: bool)
    requires f || !Serve(s, inputs).finished
    ensures Run(Finish(Serve(s, inputs), f), STREAM) == Run(Finish(Feed(s, Concat(Pieces(inputs))), f), STREAM)
    decreases |inputs|
  {
    hide Call, Run;
    if inputs == [] {
      assert s.wire + [] == s.wire;
    } else {
      hide Accept;
      var t, rest := Accept(s, inputs[0]), inputs[1..];
      ServeKeepsFinished(t, rest);
      PollsSettle(t, rest, f);
      AcceptAhead(s, inputs[0], Concat(Pieces(rest)), f);
      PiecesFirst(inputs);
    }
  }

  lemma PiecesFirst(inputs: seq<Input>)
    requires inputs != []
    ensures var first := match inputs[0] case Bytes(data) => data case Answered => [];
            Concat(Pieces(inputs)) == first + Concat(Pieces(inputs[1..]))
    ensures Pieces(inputs) == (match inputs[0] case Bytes(data) => [data] case Answered => []) + Pieces(inputs[1..])
  {
    var rest := Pieces(inputs[1..]);
    match inputs[0]
    case Bytes(data) =>
      assert ([data] + rest)[1..] == rest;
    case Answered =>
      assert [] + rest == rest && [] + Concat(rest) == Concat(rest);
  }

  /** Writing the response while bytes wait for it changes nothing but the time of their skipping. */
  lemma {:induction false} FinishCommutes(s: Decoder)
    ensures Run(Run(s, STREAM).(finished := true), STREAM) == Run(s.(finished := true), STREAM)
    decreases |s.wire|, s.state in STREAM
  {
    hide Step;
    if CanStep(s) {
      StepFinished(s);
      FinishCommutes(Step(s));
    }
  }

  /** As long as the limit holds, dispatching is calling the decoder. */
  lemma {:induction false} PollsAreCalls(s: Decoder, inputs: seq<Input>)
    requires s.state !in SKIP
    requires FeedCalls(s, Pieces(inputs), DECODE).state !in SKIP
    ensures Serve(s, inputs) == FeedCalls(s, Pieces(inputs), DECODE)
    decreases |inputs|
  {
    if inputs != [] {
      hide Call;
      PiecesFirst(inputs);
      match inputs[0]
      case Bytes(data) =>
        var t := Call(Feed(s, data), DECODE);
        NotStarted(Feed(s, data));
        assert Pieces(inputs)[1..] == Pieces(inputs[1..]);
        if t.state in SKIP {
          StaysSkipping(t, Pieces(inputs[1..]));
        } else {
          PollsAreCalls(t, inputs[1..]);
        }
      case Answered =>
        assert Pieces(inputs) == Pieces(inputs[1..]);
        PollsAreCalls(s, inputs[1..]);
    }
  }

  lemma NotStarted(s: Decoder)
    ensures s.state !in DECODE ==> Call(s, DECODE) == s
  {
  }

  lemma {:induction false} StaysSkipping(s: Decoder, pieces: seq<bytes>)
    requires s.state in SKIP
    ensures FeedCalls(s, pieces, DECODE).state in SKIP
    decreases |pieces|
  {
    if pieces != [] {
      StaysSkipping(Feed(s, pieces[0]), pieces[1..]);
    }
  }
}
