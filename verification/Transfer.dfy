/**
 * A request body on its way through the server: bytes are received, decoded into a queue, and
 * delivered from the queue to the uploaded file or to the CGI pipe.  Receiving, delivering and
 * writing the response interleave in any order, and counters decide when the transfer is done.
 */
module Transfer {
  import opened Bytes
  import opened Chunked
  import opened ChunkedLimits

  /**
   * `dec.out` is everything decoded so far and `sunk` how much of it has been delivered, so the
   * queue is `dec.out[sunk..]`.  `closed` says that the receiving end has been closed as done.
   * An upload is `unframed` when its header tells neither a length nor a coding: it is decoded as
   * chunked, but the file is written from the queue of a body of known length, which stays empty.
   */
  datatype Transfer = Transfer(
    dec: Decoder, chunked: bool, cgi: bool, bodyRead: nat, cgiRead: nat, sunk: nat, closed: bool, unframed: bool)

  /** Bytes are received, bytes are delivered, or the response has been written. */
  datatype Event = Received(data: bytes) | Delivered(n: nat) | Responded

  function StartChunked(limit: nat, cgi: bool, cntLen: nat): Transfer {
    var state := if cgi then CgiBodyChunked else BodyChunked;
    Transfer(Start(limit, state).(cntLen := cntLen), true, cgi, 0, 0, 0, false, false)
  }

  function StartLength(limit: nat, cgi: bool, cntLen: nat): Transfer {
    var state := if cgi then CgiBody else Body;
    Transfer(Start(limit, state).(cntLen := cntLen), false, cgi, 0, 0, 0, false, false)
  }

  function StartUnframed(limit: nat): Transfer {
    Transfer(Start(limit, BodyChunked), false, false, 0, 0, 0, false, true)
  }

  // ----- receiving -----

  /** The conversion of a `size_t` to the `int` that `state_req_body_` keeps a count in. */
  function ToInt(n: nat): int {
    var m := n % TWO_32;
    if m < TWO_32 / 2 then m else m - TWO_32
  }

  function AddSize(a: nat, d: int): nat {
    (a + d) % TWO_64
  }

  function SubSize(a: nat, b: nat): nat {
    (a - b) % TWO_64
  }

  /** `state_req_body_`, and the same for the CGI pipe: a body of known length. */
  function LengthPoll(t: Transfer): Transfer {
    var n := Min(|t.dec.wire|, SubSize(t.dec.cntLen, t.bodyRead));
    var read := AddSize(t.bodyRead, ToInt(n));
    var state := if read == t.dec.cntLen then Hold else t.dec.state;
    t.(bodyRead := read, dec := t.dec.(wire := t.dec.wire[n..], out := t.dec.out + t.dec.wire[..n], state := state))
  }

  function Dispatch(t: Transfer): Transfer {
    if t.dec.state in {Body, CgiBody} then LengthPoll(t) else t.(dec := Poll(t.dec))
  }

  function Receive(t: Transfer, data: bytes): Transfer {
    Dispatch(t.(dec := Feed(t.dec, data)))
  }

  // ----- delivering -----

  function Close(t: Transfer): Transfer {
    t.(closed := true, dec := t.dec.(state := Hold))
  }

  /** An upload whose body goes over the limit loses its file; nothing else ends deliveries early. */
  predicate Deliverable(t: Transfer) {
    !t.closed && (t.cgi || !t.dec.cut)
  }

  /** `write_for_upload_` and `write_to_cgi_`, when `n` bytes of the queue were taken. */
  function Deliver(t: Transfer, n: nat): Transfer
    requires t.sunk + n <= |t.dec.out|
  {
    if !Deliverable(t) then t
    else if t.cgi then
      var u := t.(cgiRead := t.cgiRead + n, sunk := t.sunk + n);
      if u.cgiRead == t.dec.cntLen then Close(u) else u
    else if t.chunked then
      var u := t.(bodyRead := t.bodyRead + n, sunk := t.sunk + n);
      if u.bodyRead == t.dec.cntLen then Close(u) else u
    else if t.unframed then
      if t.bodyRead == t.dec.cntLen then Close(t) else t
    else
      var u := t.(sunk := t.sunk + n);
      if u.sunk == |t.dec.out| && t.bodyRead == t.dec.cntLen then Close(u) else u
  }

  // ----- events -----

  lemma PollOutGrows(s: Decoder)
    ensures s.out <= Poll(s).out
  {
    CallOutGrows(s, DECODE);
    CallOutGrows(s, SKIP);
  }

  /** Nothing that was decoded is taken back. */
  lemma DispatchOutGrows(t: Transfer)
    ensures t.dec.out <= Dispatch(t).dec.out && Dispatch(t).sunk == t.sunk
  {
    hide Poll;
    PollOutGrows(t.dec);
  }

  lemma EventOutGrows(t: Transfer, e: Event)
    ensures e.Received? ==> t.dec.out <= Receive(t, e.data).dec.out && Receive(t, e.data).sunk == t.sunk
    ensures t.dec.out <= Answer(t.dec).out
  {
    hide Dispatch, Poll;
    if e.Received? {
      DispatchOutGrows(t.(dec := Feed(t.dec, e.data)));
    }
    PollOutGrows(t.dec.(finished := true));
  }

  /** At most the whole queue can be taken. */
  function Next(t: Transfer, e: Event): (u: Transfer)
    requires t.sunk <= |t.dec.out|
    ensures u.sunk <= |u.dec.out| && t.dec.out <= u.dec.out
  {
    hide Receive, Answer;
    EventOutGrows(t, e);
    if e.Received? then Receive(t, e.data)
    else if e.Delivered? then Deliver(t, Min(e.n, |t.dec.out| - t.sunk))
    else t.(dec := Answer(t.dec))
  }

  /** Any interleaving of events. */
  function After(t: Transfer, es: seq<Event>): (u: Transfer)
    requires t.sunk <= |t.dec.out|
    ensures u.sunk <= |u.dec.out| && t.dec.out <= u.dec.out
    decreases |es|
  {
    hide Next;
    if es == [] then t else After(Next(t, es[0]), es[1..])
  }

  /** What the decoder sees of the events. */
  function Inputs(es: seq<Event>): seq<Input> {
    if es == [] then [] else
      (match es[0]
       case Received(data) => [Bytes(data)]
       case Delivered(_) => []
       case Responded => [Answered]) + Inputs(es[1..])
  }

  lemma InputsFirst(s: Decoder, es: seq<Event>)
    requires es != []
    ensures es[0].Received? ==> Serve(s, Inputs(es)) == Serve(Poll(Feed(s, es[0].data)), Inputs(es[1..]))
    ensures es[0].Delivered? ==> Inputs(es) == Inputs(es[1..])
    ensures es[0].Responded? ==> Serve(s, Inputs(es)) == Serve(Answer(s), Inputs(es[1..]))
  {
    hide Poll, Answer;
    var rest := Inputs(es[1..]);
    match es[0]
    case Received(data) =>
      assert ([Bytes(data)] + rest)[1..] == rest;
    case Delivered(_) =>
      assert [] + rest == rest;
    case Responded =>
      assert ([Answered] + rest)[1..] == rest;
  }

  /** A closed transfer stays closed, and nothing more is delivered. */
  lemma {:induction false} ClosedStays(t: Transfer, es: seq<Event>)
    requires t.sunk <= |t.dec.out| && t.closed
    ensures After(t, es).closed && After(t, es).sunk == t.sunk
    decreases |es|
  {
    if es != [] {
      hide Poll;
      ClosedStays(Next(t, es[0]), es[1..]);
    }
  }

  lemma {:induction false} AfterConcat(t: Transfer, es: seq<Event>, fs: seq<Event>)
    requires t.sunk <= |t.dec.out|
    ensures After(t, es + fs) == After(After(t, es), fs)
    decreases |es|
  {
    hide Next;
    if es == [] {
      assert es + fs == fs;
    } else {
      assert (es + fs)[0] == es[0] && (es + fs)[1..] == es[1..] + fs;
      AfterConcat(Next(t, es[0]), es[1..], fs);
    }
  }

  // ----- what every step keeps, for a chunked body -----

  /** `cntLen` keeps the value `c` until the body has ended. */
  predicate Pending(s: Decoder, c: nat) {
    && (s.state in DECODE + SKIP + {BadReq} ==> s.cntLen == c)
    && (s.state in DECODE ==> !s.cut) && (s.state in SKIP + {ReqClear} ==> s.cut)
    && s.state in DECODE + SKIP + {BadReq, ReqClear, Hold}
  }

  lemma StepPending(s: Decoder, c: nat)
    requires Pending(s, c) && CanStep(s)
    ensures Pending(Step(s), c) && (s.cut ==> Step(s).cut)
  {
    hide ChunkSize.SizeOf, ChunkSize.SizeAfter, Lines.FlatLine;
  }

  lemma {:induction false} CallPending(s: Decoder, phase: set<State>, c: nat)
    requires Pending(s, c)
    ensures Pending(Call(s, phase), c) && (s.cut ==> Call(s, phase).cut)
    decreases |s.wire|, s.state in STREAM
  {
    hide Step, Pending;
    if Enabled(s, phase) {
      StepPending(s, c);
      if s.chnkd != 1 {
        CallPending(Step(s), phase, c);
      }
    }
  }

  /** Every byte of the body has been decoded and delivered. */
  predicate Complete(t: Transfer) {
    && t.dec.state == Hold && t.sunk == |t.dec.out| == t.dec.cntLen
    && (t.chunked ==> t.dec.last && !t.dec.cut)
  }

  /** The invariant of a chunked transfer whose `_cnt_len` was `c` when it began. */
  predicate Inv(t: Transfer, c: nat) {
    && t.chunked && Safe(t.dec) && Pending(t.dec, c)
    && t.sunk <= |t.dec.out|
    && (if t.cgi then t.cgiRead == t.sunk else t.bodyRead == t.sunk)
    && (t.closed ==> t.dec.state == Hold && (Complete(t) || (t.cgi && t.dec.cut)))
    && (t.dec.state == Hold && t.dec.cut ==> t.closed)
  }

  /** Dispatching keeps what the invariant says of the decoder. */
  lemma PollInv(s: Decoder, c: nat)
    requires Safe(s) && Pending(s, c)
    ensures Safe(Poll(s)) && Pending(Poll(s), c) && Poll(s).limit == s.limit && (s.cut ==> Poll(s).cut)
    ensures s.state == Hold ==> Poll(s) == s
    ensures Poll(s).state == Hold && Poll(s).cut ==> s.state == Hold && s.cut
  {
    hide Call, Safe;
    if s.state in STREAM {
      var phase := if s.state in DECODE then DECODE else SKIP;
      CallSafe(s, phase);
      CallPending(s, phase, c);
      CallNoCutHold(s, phase);
    }
  }

  /** A body that went over its limit is never put on hold by the machine. */
  lemma {:induction false} CallNoCutHold(s: Decoder, phase: set<State>)
    requires s.state == Hold ==> !s.cut
    requires s.state in DECODE ==> !s.cut
    ensures Call(s, phase).state == Hold ==> !Call(s, phase).cut
    decreases |s.wire|, s.state in STREAM
  {
    hide Step;
    if Enabled(s, phase) {
      StepNoCutHold(s);
      if s.chnkd != 1 {
        CallNoCutHold(Step(s), phase);
      }
    }
  }

  lemma StepNoCutHold(s: Decoder)
    requires CanStep(s) && (s.state in DECODE ==> !s.cut)
    ensures Step(s).state in DECODE + {Hold} ==> !Step(s).cut
  {
    hide ChunkSize.SizeOf, ChunkSize.SizeAfter, Lines.FlatLine;
  }

  lemma ReceiveInv(t: Transfer, data: bytes, c: nat)
    requires Inv(t, c)
    ensures var u := Receive(t, data);
            && Inv(u, c) && t.dec.out <= u.dec.out && u.dec.limit == t.dec.limit
            && u == t.(dec := Poll(Feed(t.dec, data)))
            && (u.dec.state == Hold && u.dec.cut ==> t.dec.state == Hold && t.dec.cut)
  {
    hide Poll, Safe;
    FedSafe(t.dec, data);
    PollInv(Feed(t.dec, data), c);
    PollOutGrows(Feed(t.dec, data));
  }

  lemma FedSafe(s: Decoder, data: bytes)
    ensures Safe(Feed(s, data)) == Safe(s) && Safe(s.(finished := true)) == Safe(s)
  {
  }

  lemma RespondInv(t: Transfer, c: nat)
    requires Inv(t, c)
    ensures var u := t.(dec := Answer(t.dec));
            && Inv(u, c) && u.dec.limit == t.dec.limit
            && (u.dec.state == Hold && u.dec.cut ==> t.dec.state == Hold && t.dec.cut)
  {
    hide Poll, Safe;
    FedSafe(t.dec, []);
    PollInv(t.dec.(finished := true), c);
    PollOutGrows(t.dec.(finished := true));
  }

  /** A delivery changes nothing of the decoding, unless it closes the pipe of a body that was cut. */
  lemma DeliverInv(t: Transfer, n: nat, c: nat)
    requires Inv(t, c) && t.sunk + n <= |t.dec.out| && t.dec.limit < c
    ensures var u := Deliver(t, n);
            && Inv(u, c) && u.dec.limit == t.dec.limit
            && (u.dec == t.dec || (u.closed && CutShort(u, t.dec)))
  {
  }

  /** The CGI pipe has been closed after a body that was cut, which puts the request on hold. */
  predicate CutShort(t: Transfer, s: Decoder) {
    t.cgi && s.cut && s.state == ReqClear && t.dec == s.(state := Hold)
  }

  /** `t` has decoded what the machine in state `s` has. */
  predicate Follows(t: Transfer, s: Decoder) {
    (t.dec == s && (s.state == Hold ==> !s.cut)) || (t.closed && CutShort(t, s))
  }

  /** Neither of the two states decodes anything more. */
  lemma BothStand(t: Transfer, s: Decoder, e: Event)
    requires t.sunk <= |t.dec.out| && t.closed && CutShort(t, s)
    ensures e.Received? ==> Next(t, e).closed && CutShort(Next(t, e), Poll(Feed(s, e.data)))
    ensures !e.Received? ==> Next(t, e) == t && Answer(s) == s
  {
  }

  /** One event. */
  lemma EventInv(t: Transfer, s: Decoder, e: Event, c: nat)
    requires Inv(t, c) && Follows(t, s) && t.dec.limit < c
    ensures Inv(Next(t, e), c) && Next(t, e).dec.limit == t.dec.limit
    ensures e.Received? ==> Follows(Next(t, e), Poll(Feed(s, e.data)))
    ensures e.Delivered? ==> Follows(Next(t, e), s)
    ensures e.Responded? ==> Follows(Next(t, e), Answer(s))
  {
    hide Poll, Inv, Receive, Deliver, CutShort;
    InvFits(t, c);
    if t.closed && CutShort(t, s) {
      BothStand(t, s, e);
    }
    match e
    case Received(data) =>
      ReceiveInv(t, data, c);
    case Delivered(n) =>
      DeliverInv(t, Min(n, |t.dec.out| - t.sunk), c);
    case Responded =>
      RespondInv(t, c);
  }

  lemma InvFits(t: Transfer, c: nat)
    requires Inv(t, c)
    ensures t.sunk <= |t.dec.out|
  {
  }

  lemma {:induction false} ConservationFrom(t: Transfer, s: Decoder, es: seq<Event>, c: nat)
    requires Inv(t, c) && Follows(t, s) && t.dec.limit < c && t.sunk <= |t.dec.out|
    ensures Inv(After(t, es), c) && Follows(After(t, es), Serve(s, Inputs(es)))
    decreases |es|
  {
    hide Next, Inv, Follows, Poll, Answer;
    if es != [] {
      InputsFirst(s, es);
      EventInv(t, s, es[0], c);
      var u := Next(t, es[0]);
      match es[0]
      case Received(data) => ConservationFrom(u, Poll(Feed(s, data)), es[1..], c);
      case Delivered(_) => ConservationFrom(u, s, es[1..], c);
      case Responded => ConservationFrom(u, Answer(s), es[1..], c);
    }
  }

  /**
   * Conservation over every interleaving of a body whose limit cannot be carried past and whose
   * Content-Length, if it has one, is above the limit.  Delivered bytes are the beginning of the
   * decoded ones; decoding is that of the received pieces alone; and the transfer is closed only
   * when all of the body has been delivered, or when it was cut and its rest has been skipped.
   */
  lemma Conservation(limit: nat, cgi: bool, c: nat, es: seq<Event>)
    requires limit <= CARRY_FREE && limit < c
    ensures var s, t := StartChunked(limit, cgi, c), After(StartChunked(limit, cgi, c), es);
            && t.sunk <= |t.dec.out| <= limit
            && (if cgi then t.cgiRead == t.sunk else t.bodyRead == t.sunk)
            && Follows(t, Serve(s.dec, Inputs(es)))
            && (t.closed ==> Complete(t) || CutShort(t, Serve(s.dec, Inputs(es))))
  {
    hide Serve, After, Inv, Follows, CutShort, Complete, Pending;
    var s := StartChunked(limit, cgi, c);
    StartInv(limit, cgi, c);
    ConservationFrom(s, s.dec, es, c);
    LimitKept(s, es);
    InvMeans(After(s, es), Serve(s.dec, Inputs(es)), c);
  }

  lemma StartInv(limit: nat, cgi: bool, c: nat)
    requires limit <= CARRY_FREE
    ensures var s := StartChunked(limit, cgi, c); Inv(s, c) && Follows(s, s.dec)
  {
  }

  lemma InvMeans(t: Transfer, s: Decoder, c: nat)
    requires Inv(t, c) && Follows(t, s)
    ensures t.sunk <= |t.dec.out| <= t.dec.limit
    ensures if t.cgi then t.cgiRead == t.sunk else t.bodyRead == t.sunk
    ensures t.closed ==> Complete(t) || CutShort(t, s)
  {
  }

  lemma {:induction false} LimitKept(t: Transfer, es: seq<Event>)
    requires t.sunk <= |t.dec.out|
    ensures After(t, es).dec.limit == t.dec.limit && After(t, es).cgi == t.cgi && After(t, es).chunked == t.chunked
    ensures After(t, es).unframed == t.unframed
    decreases |es|
  {
    if es != [] {
      hide Next;
      NextKeeps(t, es[0]);
      LimitKept(Next(t, es[0]), es[1..]);
    }
  }

  lemma NextKeeps(t: Transfer, e: Event)
    requires t.sunk <= |t.dec.out|
    ensures var u := Next(t, e);
            u.dec.limit == t.dec.limit && u.cgi == t.cgi && u.chunked == t.chunked && u.unframed == t.unframed
  {
    hide Call;
    if e.Received? {
      CallKeepsLimit(Feed(t.dec, e.data), DECODE);
      CallKeepsLimit(Feed(t.dec, e.data), SKIP);
    }
    CallKeepsLimit(t.dec.(finished := true), SKIP);
  }

  lemma {:induction false} CallKeepsLimit(s: Decoder, phase: set<State>)
    ensures Call(s, phase).limit == s.limit
    decreases |s.wire|, s.state in STREAM
  {
    hide Step;
    if Enabled(s, phase) {
      StepKeepsLimit(s);
      if s.chnkd != 1 {
        CallKeepsLimit(Step(s), phase);
      }
    }
  }

  lemma StepKeepsLimit(s: Decoder)
    requires CanStep(s)
    ensures Step(s).limit == s.limit
  {
    hide ChunkSize.SizeOf, ChunkSize.SizeAfter, Lines.FlatLine;
  }

  /** The delivery that empties the queue of a decoded body closes the transfer, and no other does. */
  lemma DoneWhenDrained(t: Transfer, c: nat, n: nat)
    requires Inv(t, c) && Exact(t.dec) && t.dec.state == Hold && !t.closed
    requires t.sunk + n <= |t.dec.out|
    ensures Deliver(t, n).closed <==> t.sunk + n == |t.dec.out|
  {
  }

  // ----- the end comes -----

  /** Deliveries of these numbers of bytes. */
  function Deliveries(ns: seq<nat>): seq<Event> {
    if ns == [] then [] else [Delivered(ns[0])] + Deliveries(ns[1..])
  }

  function Sum(ns: seq<nat>): nat {
    if ns == [] then 0 else ns[0] + Sum(ns[1..])
  }

  /** All of the body has been received, and the counters are right. */
  predicate Ended(t: Transfer) {
    && t.dec.state == Hold && !t.dec.cut && !t.unframed && t.dec.cntLen == |t.dec.out| && t.sunk <= |t.dec.out|
    && (if t.cgi then t.cgiRead == t.sunk else if t.chunked then t.bodyRead == t.sunk else t.bodyRead == t.dec.cntLen)
  }

  /** One delivery: it closes the transfer exactly when nothing is left. */
  lemma EndedDeliver(t: Transfer, n: nat)
    requires Ended(t) && !t.closed && t.sunk + n <= |t.dec.out|
    ensures var u := Deliver(t, n);
            Ended(u) && u.sunk == t.sunk + n && u.dec == t.dec && (u.closed <==> u.sunk == |t.dec.out|)
  {
  }

  /** Deliveries that add up to what is left of a body that has ended close the transfer. */
  lemma {:induction false} Drains(t: Transfer, ns: seq<nat>)
    requires Ended(t) && ns != [] && t.sunk + Sum(ns) >= |t.dec.out|
    requires t.closed ==> t.sunk == |t.dec.out|
    ensures var u := After(t, Deliveries(ns));
            u.closed && u.sunk == |t.dec.out| && u.dec == t.dec
    decreases |ns|
  {
    hide Deliver;
    var es := Deliveries(ns);
    assert es[0] == Delivered(ns[0]) && es[1..] == Deliveries(ns[1..]);
    var m := Min(ns[0], |t.dec.out| - t.sunk);
    if t.closed {
      ClosedStill(t, m);
    } else {
      EndedDeliver(t, m);
    }
    var u := Next(t, es[0]);
    assert After(t, es) == After(u, es[1..]);
    if |ns| == 1 {
      assert es[1..] == [] && Sum(ns[1..]) == 0;
    } else {
      Drains(u, ns[1..]);
    }
  }

  lemma ClosedStill(t: Transfer, n: nat)
    requires t.closed && t.sunk + n <= |t.dec.out|
    ensures Deliver(t, n) == t
  {
  }
}
