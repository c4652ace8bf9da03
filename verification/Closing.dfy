/** When a transfer of a chunked body is closed: for printed bodies, and for every wire. */
module Closing {
  import opened Bytes
  import opened Chunked
  import opened ChunkedCarry
  import opened ChunkedLimits
  import opened ChunkedRoundTrip
  import opened CutBodies
  import KnownLength
  import opened Transfer

  // ----- closing, told by where decoding ends -----

  /** While the body lasts, `_cnt_len` is what the header told. */
  predicate Mute(s: Decoder, c: nat) {
    Pending(s, c) && (s.state == Hold ==> !s.cut)
  }

  lemma PollMute(s: Decoder, c: nat)
    requires Mute(s, c)
    ensures Mute(Poll(s), c)
  {
    hide Call;
    if s.state in STREAM {
      var phase := if s.state in DECODE then DECODE else SKIP;
      CallPending(s, phase, c);
      CallNoCutHold(s, phase);
    }
  }

  lemma AcceptMute(s: Decoder, input: Input, c: nat)
    requires Mute(s, c)
    ensures Mute(Accept(s, input), c) && s.out <= Accept(s, input).out
  {
    hide Poll;
    match input
    case Bytes(data) =>
      PollMute(Feed(s, data), c);
      PollOutGrows(Feed(s, data));
    case Answered =>
      PollMute(s.(finished := true), c);
      PollOutGrows(s.(finished := true));
  }

  lemma {:induction false} ServeOutGrows(s: Decoder, inputs: seq<Input>, c: nat)
    requires Mute(s, c)
    ensures s.out <= Serve(s, inputs).out && Mute(Serve(s, inputs), c)
    decreases |inputs|
  {
    hide Accept, Mute;
    if inputs != [] {
      AcceptMute(s, inputs[0], c);
      ServeOutGrows(Accept(s, inputs[0]), inputs[1..], c);
    }
  }

  /** Once the body has ended, only the wire grows. */
  lemma {:induction false} ServeStands(s: Decoder, inputs: seq<Input>)
    requires s.state in {Hold, ReqClear}
    ensures var t := Serve(s, inputs); t == s.(wire := t.wire)
    decreases |inputs|
  {
    hide Call;
    if inputs != [] {
      ServeStands(Accept(s, inputs[0]), inputs[1..]);
    }
  }

  /** The counters of a chunked transfer. */
  predicate Counted(t: Transfer, c: nat) {
    && t.chunked && Mute(t.dec, c) && t.sunk <= |t.dec.out|
    && (if t.cgi then t.cgiRead == t.sunk else t.bodyRead == t.sunk)
    && (t.closed ==> t.dec.state == Hold && t.sunk == |t.dec.out|)
  }

  /** Where decoding ends, no delivery closes the transfer before all that is decoded is delivered. */
  predicate Honest(end: Decoder, cgi: bool, c: nat) {
    && |end.out| < c
    && (end.state == Hold ==> end.cntLen == |end.out|)
    && (end.state == ReqClear && cgi ==> |end.out| < end.cntLen)
  }

  lemma DeliverHonest(t: Transfer, n: nat, inputs: seq<Input>, c: nat)
    requires Counted(t, c) && t.sunk + n <= |t.dec.out| && Honest(Serve(t.dec, inputs), t.cgi, c)
    ensures Counted(Deliver(t, n), c) && Deliver(t, n).dec == t.dec
  {
    hide Serve;
    ServeOutGrows(t.dec, inputs, c);
    if t.dec.state in {Hold, ReqClear} {
      ServeStands(t.dec, inputs);
    }
  }

  lemma AcceptCounted(t: Transfer, input: Input, c: nat)
    requires Counted(t, c)
    ensures Counted(t.(dec := Accept(t.dec, input)), c)
  {
    hide Call, Mute;
    AcceptMute(t.dec, input, c);
  }

  /** Every interleaving whose decoding ends honestly. */
  lemma {:induction false} Delivers(t: Transfer, es: seq<Event>, c: nat)
    requires Counted(t, c) && Honest(Serve(t.dec, Inputs(es)), t.cgi, c) && t.sunk <= |t.dec.out|
    ensures var u := After(t, es);
            Counted(u, c) && u.dec == Serve(t.dec, Inputs(es))
    decreases |es|
  {
    hide Counted, Honest, Accept;
    if es != [] {
      InputsFirst(t.dec, es);
      EventCounted(t, es[0], Inputs(es[1..]), c);
      hide Next;
      Delivers(Next(t, es[0]), es[1..], c);
    }
  }

  lemma EventCounted(t: Transfer, e: Event, rest: seq<Input>, c: nat)
    requires Counted(t, c) && t.sunk <= |t.dec.out|
    requires e.Delivered? ==> Honest(Serve(t.dec, rest), t.cgi, c)
    ensures var u := Next(t, e);
            && Counted(u, c) && u.cgi == t.cgi
            && u.dec == (if e.Received? then Poll(Feed(t.dec, e.data))
                         else if e.Responded? then Answer(t.dec) else t.dec)
  {
    hide Honest, Poll, Deliver, Serve;
    match e
    case Received(data) =>
      NotPlain(t, c);
      AcceptCounted(t, Input.Bytes(data), c);
    case Delivered(n) =>
      DeliverHonest(t, Min(n, |t.dec.out| - t.sunk), rest, c);
      DeliverKeepsKind(t, Min(n, |t.dec.out| - t.sunk));
    case Responded =>
      AcceptCounted(t, Answered, c);
  }

  lemma NotPlain(t: Transfer, c: nat)
    requires Counted(t, c)
    ensures t.dec.state !in {Body, CgiBody}
  {
  }

  lemma DeliverKeepsKind(t: Transfer, n: nat)
    requires t.sunk + n <= |t.dec.out|
    ensures Deliver(t, n).cgi == t.cgi
  {
  }

  lemma StartCounted(limit: nat, cgi: bool, c: nat)
    ensures Counted(StartChunked(limit, cgi, c), c)
  {
  }

  // ----- what the header told does not matter to the decoder -----

  /** The decoder, had the header told `c`; the end of a body overwrites it. */
  function Told(s: Decoder, c: nat): Decoder {
    if s.state in {Hold, ReqClear} then s else s.(cntLen := c)
  }

  lemma StepTold(s: Decoder, c: nat)
    requires CanStep(s)
    ensures CanStep(s.(cntLen := c)) && Step(s.(cntLen := c)) == Told(Step(s), c)
  {
    hide ChunkSize.SizeOf, ChunkSize.SizeAfter, Lines.FlatLine, Sized, TakeByte, EndChunk;
    if s.chnkd > 2 {
      TakeTold(s, c);
    } else if s.chnkd > 0 {
      EndTold(s, c);
    } else {
      var n := Lines.FlatLine(s.wire).length;
      Lines.LineFits(s.wire);
      var line := s.wire[..n];
      SizedTold(s.(wire := s.wire[n + 2..]), ChunkSize.SizeOf(line), ChunkSize.SizeAfter(line, s.chnkd), c);
    }
  }

  lemma TakeTold(s: Decoder, c: nat)
    requires s.chnkd > 2 && s.wire != [] && s.state in STREAM
    ensures TakeByte(s.(cntLen := c)) == Told(TakeByte(s), c)
  {
  }

  lemma EndTold(s: Decoder, c: nat)
    requires 0 < s.chnkd <= 2 && |s.wire| >= 2 && s.state in STREAM
    ensures EndChunk(s.(cntLen := c)) == Told(EndChunk(s), c)
  {
  }

  lemma SizedTold(s: Decoder, size: Option<nat>, after: nat, c: nat)
    requires s.state in STREAM
    ensures var t := Sized(s, size, after);
            Sized(s.(cntLen := c), size, after) == t.(cntLen := c) && t.state !in {Hold, ReqClear}
  {
  }

  lemma {:induction false} CallTold(s: Decoder, phase: set<State>, c: nat)
    ensures Call(Told(s, c), phase) == if s.state in {Hold, ReqClear} then Call(s, phase) else Told(Call(s, phase), c)
    decreases |s.wire|, s.state in STREAM
  {
    hide Step;
    if Enabled(s, phase) {
      StepTold(s, c);
      if s.chnkd != 1 {
        CallTold(Step(s), phase, c);
        if Step(s).state in {Hold, ReqClear} {
          Stands(Step(s), phase);
        }
      }
    }
  }

  lemma Stands(s: Decoder, phase: set<State>)
    requires s.state in {Hold, ReqClear}
    ensures Call(s, phase) == s
  {
  }

  lemma PollTold(s: Decoder, c: nat)
    ensures Poll(Told(s, c)) == Told(Poll(s), c)
  {
    hide Call;
    CallTold(s, DECODE, c);
    CallTold(s, SKIP, c);
  }

  lemma AcceptTold(s: Decoder, input: Input, c: nat)
    ensures Accept(Told(s, c), input) == Told(Accept(s, input), c)
  {
    hide Poll;
    match input
    case Bytes(data) =>
      PollTold(Feed(s, data), c);
    case Answered =>
      PollTold(s.(finished := true), c);
  }

  lemma {:induction false} ServeTold(s: Decoder, inputs: seq<Input>, c: nat)
    ensures Serve(Told(s, c), inputs) == Told(Serve(s, inputs), c)
    decreases |inputs|
  {
    hide Accept, Told;
    if inputs != [] {
      AcceptTold(s, inputs[0], c);
      ServeTold(Accept(s, inputs[0]), inputs[1..], c);
    }
  }

  lemma StartTold(limit: nat, cgi: bool, c: nat)
    ensures var s := StartChunked(limit, cgi, c).dec;
            s == Told(StartChunked(limit, cgi, SIZE_T_MAX).dec, c) && s.state in DECODE
    ensures StartChunked(limit, cgi, SIZE_T_MAX).dec == Start(limit, StartChunked(limit, cgi, c).dec.state)
  {
  }

  // ----- printed bodies -----

  /** All of a printed body has been received, and the first bytes of the next request. */
  predicate Arrived(es: seq<Event>, body: seq<bytes>, suffix: bytes) {
    Concat(Pieces(Inputs(es))) == ChunkedCoding(body) + suffix
  }

  /**
   * From the sender to the file or the CGI process: a printed body that keeps the limit and is
   * shorter than a Content-Length told besides, received in any pieces while any parts are
   * delivered in between, is decoded exactly, the bytes delivered are its beginning, and when the
   * transfer is closed they are all of it.
   */
  lemma EndToEnd(limit: nat, cgi: bool, c: nat, body: seq<bytes>, suffix: bytes, es: seq<Event>)
    requires Sendable(body) && |Concat(body)| <= limit <= SIZE_T_MAX && |Concat(body)| < c
    requires Arrived(es, body, suffix)
    ensures var t := After(StartChunked(limit, cgi, c), es);
            && t.dec.out == Concat(body) && t.dec.wire == suffix && t.dec.state == Hold
            && t.dec.cntLen == |Concat(body)|
            && t.sunk <= |t.dec.out| && (t.closed ==> t.sunk == |Concat(body)|)
  {
    hide Serve, After, FeedCalls, ChunkedCoding, Mute, Inputs, Pieces;
    var t := StartChunked(limit, cgi, c);
    PrintedEnd(limit, cgi, c, body, suffix, Inputs(es));
    StartCounted(limit, cgi, c);
    Delivers(t, es, c);
  }

  /** Where the decoder ends. */
  lemma PrintedEnd(limit: nat, cgi: bool, c: nat, body: seq<bytes>, suffix: bytes, inputs: seq<Input>)
    requires Sendable(body) && |Concat(body)| <= limit <= SIZE_T_MAX
    requires Concat(Pieces(inputs)) == ChunkedCoding(body) + suffix
    ensures Serve(StartChunked(limit, cgi, c).dec, inputs)
         == Decoder(suffix, Concat(body), 0, true, |Concat(body)|, limit, |Concat(body)|, Hold, false, NoReply, false)
  {
    hide Serve, FeedCalls, ChunkedCoding, Pieces;
    StartTold(limit, cgi, c);
    var s := StartChunked(limit, cgi, SIZE_T_MAX).dec;
    RoundTrip(limit, s.state, body, suffix, Pieces(inputs));
    PollsAreCalls(s, inputs);
    ServeTold(s, inputs, c);
  }

  /**
   * The end comes: when all of a printed body has been received, deliveries that add up to what is
   * left of it close the transfer, and then all of it has been delivered.
   */
  lemma Completes(limit: nat, cgi: bool, c: nat, body: seq<bytes>, suffix: bytes, es: seq<Event>, ns: seq<nat>)
    requires Sendable(body) && |Concat(body)| <= limit <= SIZE_T_MAX && |Concat(body)| < c
    requires Arrived(es, body, suffix) && ns != []
    requires After(StartChunked(limit, cgi, c), es).sunk + Sum(ns) >= |Concat(body)|
    ensures var t := After(StartChunked(limit, cgi, c), es + Deliveries(ns));
            && t.closed && t.sunk == |t.dec.out| && t.dec.out == Concat(body) && t.dec.wire == suffix
  {
    hide Serve, After, FeedCalls, ChunkedCoding, Mute, Inputs, Pieces, Arrived, Deliveries, Sum;
    var s := StartChunked(limit, cgi, c);
    EndToEnd(limit, cgi, c, body, suffix, es);
    ArrivedMeans(es, body, suffix);
    PrintedEnd(limit, cgi, c, body, suffix, Inputs(es));
    StartCounted(limit, cgi, c);
    Delivers(s, es, c);
    LimitKept(s, es);
    var t := After(s, es);
    CountedEnds(t, c);
    Drains(t, ns);
    AfterConcat(s, es, Deliveries(ns));
  }

  lemma CountedEnds(t: Transfer, c: nat)
    requires Counted(t, c) && t.dec.state == Hold && t.dec.cntLen == |t.dec.out| && !t.unframed
    ensures Ended(t) && (t.closed ==> t.sunk == |t.dec.out|)
  {
  }

  /** How many bytes follow the chunk that goes over the limit. */
  function Left(body: seq<bytes>, limit: nat): nat {
    |Concat(Behind(body, limit))|
  }

  /**
   * The wrapped total of a body that was cut can be the count of bytes delivered: what follows the
   * chunk that went over the limit is not empty, and at most one byte longer than what passed.
   */
  predicate Confusable(body: seq<bytes>, limit: nat) {
    |Concat(body)| > limit && 0 < Left(body, limit) <= |Passed(body, limit)| + 1
  }

  lemma CutLengths(body: seq<bytes>, limit: nat)
    requires limit < |Concat(body)| < SIZE_T_MAX
    ensures |Passed(body, limit)| <= limit && |Passed(body, limit)| + Left(body, limit) < |Concat(body)|
    ensures Passed(body, limit) <= Concat(body)
    requires Sendable(body)
  {
    ConcatSplit(body, Fitting(body, limit));
  }

  /** What the end of a cut body says of its length. */
  lemma CutLength(limit: nat, body: seq<bytes>, suffix: bytes)
    requires Sendable(body) && limit < |Concat(body)| < SIZE_T_MAX
    ensures var end := CutEnd(limit, body, suffix);
            && end.state == ReqClear && end.out == Passed(body, limit) && end.cut
            && end.cntLen == if Left(body, limit) == 0 then SIZE_T_MAX else Left(body, limit) - 1
  {
    CutLengths(body, limit);
    Wrapped(Left(body, limit));
  }

  lemma Wrapped(n: nat)
    requires n < SIZE_T_MAX
    ensures (SIZE_T_MAX + n) % TWO_64 == if n == 0 then SIZE_T_MAX else n - 1
  {
  }

  /** A printed body over its limit does not close its transfer, unless its lengths can be confused. */
  lemma CutNeverCloses(limit: nat, cgi: bool, c: nat, body: seq<bytes>, suffix: bytes, es: seq<Event>)
    requires Sendable(body) && limit < |Concat(body)| < SIZE_T_MAX && Arrived(es, body, suffix)
    requires |Passed(body, limit)| < c && (cgi ==> !Confusable(body, limit))
    ensures !After(StartChunked(limit, cgi, c), es).closed
  {
    hide Serve, After, ChunkedCoding, Mute, CutEnd, Passed, Behind, Inputs, Pieces;
    var t := StartChunked(limit, cgi, c);
    CutServed(limit, cgi, c, body, suffix, Inputs(es));
    CutLength(limit, body, suffix);
    CutLengths(body, limit);
    StartCounted(limit, cgi, c);
    Delivers(t, es, c);
  }

  /** Where the decoder ends, or what the skipper waits with. */
  lemma CutServed(limit: nat, cgi: bool, c: nat, body: seq<bytes>, suffix: bytes, inputs: seq<Input>)
    requires Sendable(body) && limit < |Concat(body)| < SIZE_T_MAX
    requires Concat(Pieces(inputs)) == ChunkedCoding(body) + suffix
    ensures var d := Serve(StartChunked(limit, cgi, c).dec, inputs);
            if d.finished then d == CutEnd(limit, body, suffix)
            else d.state in SKIP && |d.out| <= |Passed(body, limit)|
  {
    hide Serve, ChunkedCoding, CutEnd, Passed, Behind, Pieces;
    StartTold(limit, cgi, c);
    var s := StartChunked(limit, cgi, SIZE_T_MAX).dec;
    SkipRoundTrip(limit, s.state, body, suffix, inputs);
    ServeTold(s, inputs, c);
    CutLength(limit, body, suffix);
    if !Serve(s, inputs).finished {
      Unfinished(limit, s.state, body, suffix, inputs);
    }
  }

  /** What has been decoded of a cut body does not depend on the response. */
  lemma Unfinished(limit: nat, state: State, body: seq<bytes>, suffix: bytes, inputs: seq<Input>)
    requires state in DECODE && Sendable(body) && limit < |Concat(body)| < SIZE_T_MAX
    requires Concat(Pieces(inputs)) == ChunkedCoding(body) + suffix
    requires Serve(Start(limit, state), inputs).state in SKIP
    ensures |Serve(Start(limit, state), inputs).out| <= |Passed(body, limit)|
  {
    hide Run, ChunkedCoding, CutEnd, Serve, Passed;
    var s := Start(limit, state);
    var t := Serve(s, inputs);
    PollsSettle(s, inputs, true);
    CutRun(limit, state, body, suffix);
    ChunkedSkip.RunOutGrows(t.(finished := true), STREAM);
    CutLength(limit, body, suffix);
  }

  /** The run: all is received, the response is written, and a part of what passed is delivered. */
  function ConfusedRun(body: seq<bytes>, suffix: bytes, n: nat): seq<Event> {
    [Received(ChunkedCoding(body) + suffix), Responded, Delivered(n)]
  }

  lemma ThreeEvents(t: Transfer, es: seq<Event>)
    requires t.sunk <= |t.dec.out| && |es| == 3
    ensures After(t, es) == Next(Next(Next(t, es[0]), es[1]), es[2])
  {
    hide Next;
    OneEvent(t, es);
    var u := Next(t, es[0]);
    OneEvent(u, es[1..]);
    var v := Next(u, es[1]);
    OneEvent(v, es[1..][1..]);
    assert es[1..][1..][0] == es[2] && es[1..][1..][1..] == [];
  }

  lemma OneEvent(t: Transfer, es: seq<Event>)
    requires t.sunk <= |t.dec.out| && es != []
    ensures After(t, es) == After(Next(t, es[0]), es[1..])
    ensures |es| == 1 ==> After(t, es) == Next(t, es[0])
  {
    hide Next;
  }

  lemma ConfusedArrives(body: seq<bytes>, suffix: bytes, n: nat)
    ensures Arrived(ConfusedRun(body, suffix, n), body, suffix)
    ensures Inputs(ConfusedRun(body, suffix, n)) == [Input.Bytes(ChunkedCoding(body) + suffix), Answered]
  {
    hide ChunkedCoding;
    var all := ChunkedCoding(body) + suffix;
    var es := ConfusedRun(body, suffix, n);
    assert es[1..][0] == Responded && es[1..][1..] == [Delivered(n)] && [Delivered(n)][1..] == [];
    assert Inputs([Delivered(n)]) == [];
    assert Inputs(es[1..]) == [Answered];
    assert Inputs(es) == [Input.Bytes(all), Answered];
    BothPieces(all);
  }

  lemma BothPieces(all: bytes)
    ensures Concat(Pieces([Input.Bytes(all), Answered])) == all
    ensures Concat(Pieces([Input.Bytes(all)])) == all
  {
    var two: seq<Input> := [Input.Bytes(all), Answered];
    var none: seq<Input> := [];
    assert two[1..] == [Answered] && [Answered][1..] == none && [Input.Bytes(all)][1..] == none;
    assert Pieces([Answered]) == [] && Pieces(two) == [all] && Pieces([Input.Bytes(all)]) == [all];
    assert [all][1..] == [] && Concat([all]) == all;
  }

  /** The run closes the pipe although more has been decoded, and more than that was sent. */
  lemma ConfusedCloses(limit: nat, c: nat, body: seq<bytes>, suffix: bytes)
    requires Sendable(body) && |Concat(body)| < SIZE_T_MAX && Confusable(body, limit)
    ensures var t := After(StartChunked(limit, true, c), ConfusedRun(body, suffix, Left(body, limit) - 1));
            t.closed && t.sunk == Left(body, limit) - 1 && t.sunk < |Concat(body)|
  {
    hide ChunkedCoding, CutEnd, Passed, Behind, Poll, Serve, Mute;
    var s, n := StartChunked(limit, true, c), Left(body, limit) - 1;
    var all := ChunkedCoding(body) + suffix;
    CutLengths(body, limit);
    CutLength(limit, body, suffix);
    BothPieces(all);
    var es := ConfusedRun(body, suffix, n);
    ThreeEvents(s, es);
    var u := Next(s, es[0]);
    AllReceived(s.dec, all);
    CutServed(limit, true, c, body, suffix, [Input.Bytes(all)]);
    assert u.dec == Serve(s.dec, [Input.Bytes(all)]) && u.dec.state in SKIP;
    var v := Next(u, Responded);
    ThenAnswered(s.dec, all);
    CutServed(limit, true, c, body, suffix, [Input.Bytes(all), Answered]);
    assert v.dec == CutEnd(limit, body, suffix);
  }

  lemma AllReceived(s: Decoder, all: bytes)
    requires s.state in DECODE && !s.finished
    ensures Serve(s, [Input.Bytes(all)]) == Poll(Feed(s, all)) && !Poll(Feed(s, all)).finished
  {
    hide Call;
    CallKeepsFinished(Feed(s, all), DECODE);
    var one: seq<Input>, none: seq<Input> := [Input.Bytes(all)], [];
    assert one[1..] == none;
    assert Serve(Accept(s, one[0]), none) == Accept(s, one[0]);
  }

  lemma ThenAnswered(s: Decoder, all: bytes)
    requires Poll(Feed(s, all)).state in SKIP
    ensures var t := Serve(s, [Input.Bytes(all), Answered]);
            t == Answer(Poll(Feed(s, all))) && t.finished
  {
    hide Call;
    var u := Poll(Feed(s, all));
    CallKeepsFinished(u.(finished := true), SKIP);
    var two: seq<Input>, one: seq<Input>, none: seq<Input> := [Input.Bytes(all), Answered], [Answered], [];
    assert two[1..] == one && one[1..] == none;
    assert Serve(Answer(u), none) == Answer(u);
    assert Serve(u, one) == Serve(Answer(u), none);
    assert Serve(s, two) == Serve(u, one);
  }

  /** A Content-Length that is reached before the body has been delivered. */
  predicate Early(limit: nat, c: nat, body: seq<bytes>) {
    c <= |Passed(body, limit)| && c < |Concat(body)|
  }

  /** What passes of a printed body is received, `c` bytes of it are delivered, and the rest is received. */
  function EarlyCut(limit: nat, c: nat, body: seq<bytes>): seq<Event> {
    [Received(FrontCoding(body, limit)), Delivered(c), Received(RestCoding(body, limit))]
  }

  function FrontCoding(body: seq<bytes>, limit: nat): bytes {
    EncodeAll(PrintAll(body[..Fitting(body, limit)]))
  }

  function RestCoding(body: seq<bytes>, limit: nat): bytes {
    var j := Fitting(body, limit);
    if j < |body| then Encode(Print(body[j])) + ChunkedCoding(body[j + 1..]) else Encode(Print([]))
  }

  lemma EarlyArrives(limit: nat, c: nat, body: seq<bytes>)
    ensures Arrived(EarlyCut(limit, c, body), body, [])
  {
    hide Encode, EncodeAll, Print, PrintAll;
    var j := Fitting(body, limit);
    if j < |body| {
      CodingSplit(body, j);
    } else {
      assert body[..j] == body;
    }
    var a, b := FrontCoding(body, limit), RestCoding(body, limit);
    assert a + b == ChunkedCoding(body) == ChunkedCoding(body) + [];
    hide FrontCoding, RestCoding, ChunkedCoding;
    var es := EarlyCut(limit, c, body);
    assert es[1..][0] == Delivered(c) && es[1..][1..] == [Received(b)] && [Received(b)][1..] == [];
    KnownLength.FirstBytes(es);
    KnownLength.FirstBytes(es[1..]);
    KnownLength.FirstBytes([Received(b)]);
    assert Concat(Pieces(Inputs([]))) == [] && b + [] == b && [] + b == b;
  }

  lemma EarlyCutCloses(limit: nat, c: nat, body: seq<bytes>)
    requires Sendable(body) && limit <= SIZE_T_MAX && Early(limit, c, body)
    ensures var t := After(StartChunked(limit, true, c), EarlyCut(limit, c, body));
            t.closed && t.sunk == c < |Concat(body)|
  {
    hide Call, EncodeAll, PrintAll, Concat, RestCoding;
    var s, es := StartChunked(limit, true, c), EarlyCut(limit, c, body);
    var d := Feed(s.dec, FrontCoding(body, limit));
    assert [] + FrontCoding(body, limit) == FrontCoding(body, limit) && [] + Passed(body, limit) == Passed(body, limit);
    ChunksCall(d, body[..Fitting(body, limit)]);
    ThreeEvents(s, es);
    var u := Next(s, es[0]);
    assert u == s.(dec := Call(d, DECODE));
    var v := Next(u, es[1]);
    assert v.closed && v.sunk == c;
    OneEvent(v, [es[2]]);
    ClosedStays(v, [es[2]]);
  }

  /** The count at which a pipe is closed is the Content-Length, or what the end of the body tells. */
  lemma {:induction false} ClosedAt(t: Transfer, es: seq<Event>, c: nat)
    requires Counted(t, c) && t.cgi && !t.closed && t.sunk <= |t.dec.out|
    ensures var u, end := After(t, es), Serve(t.dec, Inputs(es));
            u.closed ==> u.sunk == c || (end.state in {Hold, ReqClear} && u.sunk == end.cntLen)
    decreases |es|
  {
    hide Counted, Accept;
    if es != [] {
      InputsFirst(t.dec, es);
      var u := Next(t, es[0]);
      if es[0].Delivered? {
        DeliverCounted(t, Min(es[0].n, |t.dec.out| - t.sunk), c);
      } else {
        EventCounted(t, es[0], [], c);
        NotYetClosed(t, es[0]);
      }
      hide Next;
      if u.closed {
        ClosedStays(u, es[1..]);
        EndTells(t.dec, Inputs(es[1..]));
      } else {
        ClosedAt(u, es[1..], c);
      }
    }
  }

  lemma DeliverCounted(t: Transfer, n: nat, c: nat)
    requires Counted(t, c) && t.cgi && !t.closed && t.sunk + n <= |t.dec.out|
    ensures var u := Deliver(t, n);
            && (u.closed ==> u.sunk == t.dec.cntLen && (u.sunk == c || t.dec.state in {Hold, ReqClear}))
            && (!u.closed ==> Counted(u, c) && u.dec == t.dec && u.cgi)
  {
  }

  lemma NotYetClosed(t: Transfer, e: Event)
    requires !t.closed && !e.Delivered? && t.sunk <= |t.dec.out|
    ensures !Next(t, e).closed
  {
    hide Poll;
  }

  lemma EndTells(s: Decoder, inputs: seq<Input>)
    ensures s.state in {Hold, ReqClear} ==> var t := Serve(s, inputs); t.state == s.state && t.cntLen == s.cntLen
  {
    hide Serve;
    if s.state in {Hold, ReqClear} {
      ServeStands(s, inputs);
    }
  }

  /** A closed transfer has delivered all of the body that was sent. */
  predicate ClosedOnlyDone(limit: nat, c: nat, body: seq<bytes>, es: seq<Event>) {
    var t := After(StartChunked(limit, true, c), es);
    t.closed ==> t.sunk == |Concat(body)|
  }

  lemma NotConfusedDone(limit: nat, c: nat, body: seq<bytes>, suffix: bytes, es: seq<Event>)
    requires Sendable(body) && |Concat(body)| < SIZE_T_MAX && limit <= SIZE_T_MAX && Arrived(es, body, suffix)
    requires !Confusable(body, limit) && !Early(limit, c, body)
    ensures ClosedOnlyDone(limit, c, body, es)
  {
    hide Arrived, Sendable, Confusable, Concat, Serve, After;
    if |Concat(body)| > limit {
      CutLengths(body, limit);
      CutNeverCloses(limit, true, c, body, suffix, es);
    } else if |Concat(body)| < c {
      EndToEnd(limit, true, c, body, suffix, es);
    } else {
      AllPasses(body, limit);
      StartCounted(limit, true, c);
      ClosedAt(StartChunked(limit, true, c), es, c);
      ArrivedMeans(es, body, suffix);
      PrintedEnd(limit, true, c, body, suffix, Inputs(es));
    }
  }

  lemma ArrivedMeans(es: seq<Event>, body: seq<bytes>, suffix: bytes)
    requires Arrived(es, body, suffix)
    ensures Concat(Pieces(Inputs(es))) == ChunkedCoding(body) + suffix
  {
  }

  lemma AllPasses(body: seq<bytes>, limit: nat)
    requires |Concat(body)| <= limit
    ensures Passed(body, limit) == Concat(body)
  {
    var j := Fitting(body, limit);
    if j < |body| {
      ConcatSplit(body, j);
    }
    assert body[..|body|] == body;
  }

  /**
   * A printed body sent to a CGI process, whatever its size, besides any Content-Length and under
   * every interleaving: no run closes the pipe before all of it is delivered, if and only if that
   * length is not reached before, and the total that wraps when the rest of a body over its limit
   * is skipped cannot be taken for a count of delivered bytes.
   */
  lemma CutIff(limit: nat, c: nat, body: seq<bytes>)
    requires Sendable(body) && |Concat(body)| < SIZE_T_MAX && limit <= SIZE_T_MAX
    ensures (forall suffix, es | Arrived(es, body, suffix) :: ClosedOnlyDone(limit, c, body, es))
       <==> !Confusable(body, limit) && !Early(limit, c, body)
  {
    hide Arrived, Sendable, Confusable, Early, ClosedOnlyDone;
    if Confusable(body, limit) {
      ConfusedFails(limit, c, body);
    } else if Early(limit, c, body) {
      EarlyFails(limit, c, body);
    } else {
      forall suffix, es | Arrived(es, body, suffix)
        ensures ClosedOnlyDone(limit, c, body, es)
      {
        NotConfusedDone(limit, c, body, suffix, es);
      }
    }
  }

  lemma ConfusedFails(limit: nat, c: nat, body: seq<bytes>)
    requires Sendable(body) && |Concat(body)| < SIZE_T_MAX && Confusable(body, limit)
    ensures exists suffix, es :: Arrived(es, body, suffix) && !ClosedOnlyDone(limit, c, body, es)
  {
    hide Arrived, Sendable, Left, ConfusedRun, After, Concat;
    var none: bytes := [];
    var es := ConfusedRun(body, none, Left(body, limit) - 1);
    ConfusedCloses(limit, c, body, none);
    ConfusedArrives(body, none, Left(body, limit) - 1);
    assert Arrived(es, body, none) && !ClosedOnlyDone(limit, c, body, es);
  }

  lemma EarlyFails(limit: nat, c: nat, body: seq<bytes>)
    requires Sendable(body) && limit <= SIZE_T_MAX && Early(limit, c, body)
    ensures exists suffix, es :: Arrived(es, body, suffix) && !ClosedOnlyDone(limit, c, body, es)
  {
    hide Arrived, Sendable, EarlyCut, After, Concat;
    var none: bytes := [];
    var es := EarlyCut(limit, c, body);
    EarlyCutCloses(limit, c, body);
    EarlyArrives(limit, c, body);
    assert Arrived(es, body, none) && !ClosedOnlyDone(limit, c, body, es);
  }

  /**
   * No printed body closes the pipe of a CGI request early, if and only if limit and Content-Length
   * are out of reach: every limit that a configuration can set lets some body do it.
   */
  lemma CutLimitIff(limit: nat, c: nat)
    requires limit <= SIZE_T_MAX
    ensures (forall body, suffix, es | Sendable(body) && |Concat(body)| < SIZE_T_MAX && Arrived(es, body, suffix) ::
               ClosedOnlyDone(limit, c, body, es))
       <==> limit >= 0xFFFF_FFFF_FFFF_FFFD && c >= 0xFFFF_FFFF_FFFF_FFFE
  {
    hide Arrived, Sendable, Confusable, Early, ClosedOnlyDone;
    if limit < SIZE_T_MAX - 2 {
      OneMore(limit);
      ConfusedFails(limit, c, Singles(limit + 2));
    } else if c < SIZE_T_MAX - 1 {
      OneTooMany(limit, c);
      EarlyFails(limit, c, Singles(c + 1));
    } else {
      forall body, suffix, es | Sendable(body) && |Concat(body)| < SIZE_T_MAX && Arrived(es, body, suffix)
        ensures ClosedOnlyDone(limit, c, body, es)
      {
        OutOfReach(limit, c, body);
        NotConfusedDone(limit, c, body, suffix, es);
      }
    }
  }

  lemma OutOfReach(limit: nat, c: nat, body: seq<bytes>)
    requires |Concat(body)| < SIZE_T_MAX && limit >= SIZE_T_MAX - 2 && c >= SIZE_T_MAX - 1
    ensures !Confusable(body, limit) && !Early(limit, c, body)
  {
    hide Concat, Passed, Left;
    if |Concat(body)| > limit {
      LeftShort(body, limit);
    }
  }

  lemma LeftShort(body: seq<bytes>, limit: nat)
    requires |Concat(body)| > limit
    ensures Left(body, limit) + limit < |Concat(body)|
  {
    hide Concat;
    ConcatSplit(body, Fitting(body, limit));
  }

  /** One more chunk than a Content-Length tells. */
  lemma OneTooMany(limit: nat, c: nat)
    requires limit >= SIZE_T_MAX - 2 && c < SIZE_T_MAX - 1
    ensures var body := Singles(c + 1);
            Sendable(body) && |Concat(body)| < SIZE_T_MAX && Early(limit, c, body)
  {
    var body := Singles(c + 1);
    var j := Fitting(body, limit);
    SinglesLength(c + 1);
    SinglesPrefix(c + 1, j);
    if j < |body| {
      ConcatSplit(body, j);
    }
  }

  /** Chunks of one byte, two more than the limit lets through. */
  lemma OneMore(limit: nat)
    requires limit < SIZE_T_MAX - 2
    ensures var body := Singles(limit + 2);
            Sendable(body) && |Concat(body)| < SIZE_T_MAX && Confusable(body, limit)
  {
    var body := Singles(limit + 2);
    var j := Fitting(body, limit);
    SinglesLength(limit + 2);
    SinglesPrefix(limit + 2, j);
    ConcatSplit(body, j);
  }

  lemma SinglesPrefix(n: nat, j: nat)
    requires j <= n
    ensures |Concat(Singles(n)[..j])| == j
  {
    assert Singles(n)[..j] == Singles(j);
    SinglesLength(j);
  }

  // ----- every wire -----

  /** The delivery that ends a run on a total that has wrapped. */
  function CarryEvents(limit: nat): seq<Event>
    requires limit > CARRY_FREE
  {
    var ps := CarryPieces(limit);
    [Received(ps[0]), Received(ps[1]), Received(ps[2])] + [Delivered(limit - CARRY_FREE - 1)]
  }

  lemma CarryCloses(limit: nat, cgi: bool, c: nat)
    requires CARRY_FREE < limit <= SIZE_T_MAX
    ensures var t := After(StartChunked(limit, cgi, c), CarryEvents(limit));
            t.closed && !t.dec.cut && t.sunk < |t.dec.out|
  {
    hide Call, CarryPieces;
    var s, ps := StartChunked(limit, cgi, c), CarryPieces(limit);
    CarryRun(s.dec);
    var first := [Received(ps[0]), Received(ps[1]), Received(ps[2])];
    var last := [Delivered(limit - CARRY_FREE - 1)];
    ThreeEvents(s, first);
    AfterConcat(s, first, last);
    var u := After(s, first);
    assert u == s.(dec := FeedCalls(s.dec, ps, DECODE));
    assert last[1..] == [];
    assert After(u, last) == After(Next(u, last[0]), []);
  }

  /** Chunks that hold as many bytes as the header says, delivered before the last chunk comes. */
  function EarlyEvents(c: nat): seq<Event> {
    [Received(OneByOne(c)), Delivered(c)]
  }

  lemma EarlyCloses(limit: nat, c: nat)
    requires c <= limit <= SIZE_T_MAX
    ensures var t := After(StartChunked(limit, true, c), EarlyEvents(c));
            t.closed && !t.dec.cut && !t.dec.last
  {
    hide Call, OneByOne;
    var s, es := StartChunked(limit, true, c), EarlyEvents(c);
    var d := Feed(s.dec, OneByOne(c));
    assert [] + OneByOne(c) == OneByOne(c);
    FirstCall(d, c);
    var u := Next(s, es[0]);
    assert u == s.(dec := Call(d, DECODE));
    assert es[1..][0] == Delivered(c) && es[1..][1..] == [];
    assert After(u, es[1..]) == After(Next(u, Delivered(c)), []);
  }

  /**
   * A chunked upload is closed on no run before all of the body has been delivered, if and only
   * if its limit cannot be carried past.
   */
  lemma UploadCloseIff(limit: nat)
    requires limit <= SIZE_T_MAX
    ensures (forall es :: var t := After(StartChunked(limit, false, SIZE_T_MAX), es); t.closed ==> Complete(t))
       <==> limit <= 0xFFFF_FFFF_0000_0000
  {
    hide After, Inputs;
    if limit <= CARRY_FREE {
      forall es
        ensures var t := After(StartChunked(limit, false, SIZE_T_MAX), es); t.closed ==> Complete(t)
      {
        Conservation(limit, false, SIZE_T_MAX, es);
        LimitKept(StartChunked(limit, false, SIZE_T_MAX), es);
      }
    } else {
      CarryCloses(limit, false, SIZE_T_MAX);
      var t := After(StartChunked(limit, false, SIZE_T_MAX), CarryEvents(limit));
      assert t.closed && !Complete(t);
    }
  }

  /**
   * A chunked CGI request whose Content-Length was `c`: no run closes the pipe of a body within its
   * limit before all of it has been delivered, if and only if the limit cannot be carried past and
   * the length is not set or above the limit.
   */
  lemma EarlyCloseIff(limit: nat, c: nat)
    requires limit <= SIZE_T_MAX && c <= SIZE_T_MAX
    ensures (forall es :: var t := After(StartChunked(limit, true, c), es); t.closed && !t.dec.cut ==> Complete(t))
       <==> limit <= 0xFFFF_FFFF_0000_0000 && limit < c
  {
    hide After, Inputs;
    if limit <= CARRY_FREE && limit < c {
      forall es
        ensures var t := After(StartChunked(limit, true, c), es); t.closed && !t.dec.cut ==> Complete(t)
      {
        Conservation(limit, true, c, es);
      }
    } else if limit > CARRY_FREE {
      CarryCloses(limit, true, c);
      var t := After(StartChunked(limit, true, c), CarryEvents(limit));
      assert t.closed && !t.dec.cut && !Complete(t);
    } else {
      EarlyCloses(limit, c);
      LimitKept(StartChunked(limit, true, c), EarlyEvents(c));
      var t := After(StartChunked(limit, true, c), EarlyEvents(c));
      assert t.closed && !t.dec.cut && !Complete(t);
    }
  }
}
