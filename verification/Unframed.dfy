/** An upload whose header tells neither a length nor a coding: decoded, and never delivered. */
module Unframed {
  import opened Bytes
  import opened Chunked
  import opened ChunkedRoundTrip
  import opened Closing
  import opened CutBodies
  import opened Transfer

  /** Nothing is delivered, and the file is closed only behind a body of no bytes. */
  predicate Astray(t: Transfer) {
    && t.unframed && !t.chunked && !t.cgi && t.sunk == t.bodyRead == 0 && Mute(t.dec, SIZE_T_MAX)
    && (t.closed ==> t.dec.state == Hold && t.dec.cntLen == 0)
  }

  lemma StartAstray(limit: nat)
    ensures Astray(StartUnframed(limit)) && StartUnframed(limit).dec == Start(limit, BodyChunked)
    ensures StartUnframed(limit).dec == StartChunked(limit, false, SIZE_T_MAX).dec
  {
  }

  lemma AcceptAstray(t: Transfer, input: Input)
    requires Astray(t)
    ensures Astray(t.(dec := Accept(t.dec, input))) && t.dec.state !in {Body, CgiBody}
  {
    hide Call, Mute;
    AcceptMute(t.dec, input, SIZE_T_MAX);
    NotPlainState(t.dec);
  }

  lemma NotPlainState(s: Decoder)
    requires Mute(s, SIZE_T_MAX)
    ensures s.state !in {Body, CgiBody} && (s.state == Hold ==> !s.cut)
    ensures s.cntLen == 0 && !s.cut ==> s.state == Hold
  {
  }

  /** A write event finds the queue of the file empty. */
  lemma DeliverAstray(t: Transfer, n: nat)
    requires Astray(t) && n <= |t.dec.out|
    ensures var u := Deliver(t, n);
            Astray(u) && u.dec == t.dec && (u.closed <==> t.dec.state == Hold && t.dec.cntLen == 0)
  {
    hide Mute;
    NotPlainState(t.dec);
  }

  lemma EventAstray(t: Transfer, e: Event)
    requires Astray(t)
    ensures var u := Next(t, e);
            && Astray(u)
            && u.dec == (if e.Received? then Poll(Feed(t.dec, e.data))
                         else if e.Responded? then Answer(t.dec) else t.dec)
            && (e.Delivered? ==> (u.closed <==> t.dec.state == Hold && t.dec.cntLen == 0))
  {
    hide Astray, Poll, Deliver;
    AstrayFits(t);
    match e
    case Received(data) =>
      AcceptAstray(t, Input.Bytes(data));
    case Delivered(n) =>
      DeliverAstray(t, Min(n, |t.dec.out| - t.sunk));
    case Responded =>
      AcceptAstray(t, Answered);
  }

  lemma AstrayFits(t: Transfer)
    requires Astray(t)
    ensures t.sunk == 0
  {
  }

  lemma {:induction false} AstrayRun(t: Transfer, es: seq<Event>)
    requires Astray(t) && t.sunk <= |t.dec.out|
    ensures Astray(After(t, es)) && After(t, es).dec == Serve(t.dec, Inputs(es))
    decreases |es|
  {
    hide Astray, Accept, Next;
    if es != [] {
      InputsFirst(t.dec, es);
      EventAstray(t, es[0]);
      AstrayRun(Next(t, es[0]), es[1..]);
    }
  }

  /**
   * On no run is a byte of such an upload delivered, whatever is decoded; and a write event finds
   * the upload done, or has found it done before, if and only if what has been received ends a
   * body of no bytes.
   */
  lemma NothingDelivered(limit: nat, es: seq<Event>, n: nat)
    ensures var s, d := StartUnframed(limit), Serve(Start(limit, BodyChunked), Inputs(es));
            && After(s, es).dec == d && After(s, es).sunk == 0
            && (After(s, es + [Delivered(n)]).closed <==> d.state == Hold && d.cntLen == 0)
  {
    hide After, Serve, Inputs, Astray, Next;
    var s, last := StartUnframed(limit), Delivered(n);
    StartAstray(limit);
    AstrayRun(s, es);
    var t := After(s, es);
    AstrayFits(t);
    AfterConcat(s, es, [last]);
    OneEvent(t, [last]);
    EventAstray(t, last);
  }

  /** A printed body is taken for delivered if and only if it is empty. */
  lemma PrintedUnframed(limit: nat, body: seq<bytes>, suffix: bytes, es: seq<Event>, n: nat)
    requires Sendable(body) && |Concat(body)| <= limit <= SIZE_T_MAX && Arrived(es, body, suffix)
    ensures var s := StartUnframed(limit);
            && After(s, es).dec.out == Concat(body) && After(s, es).sunk == 0
            && (After(s, es + [Delivered(n)]).closed <==> body == [])
  {
    hide After, Serve, Inputs, Pieces, ChunkedCoding;
    NothingDelivered(limit, es, n);
    StartAstray(limit);
    PrintedEnd(limit, false, SIZE_T_MAX, body, suffix, Inputs(es));
    EmptyBody(body);
  }

  lemma EmptyBody(body: seq<bytes>)
    requires Sendable(body)
    ensures Concat(body) == [] <==> body == []
  {
  }
}
