/** A body whose length the request has told. */
module KnownLength {
  import opened Bytes
  import opened Chunked
  import opened Transfer

  /** The lengths that an `int` can count. */
  const COUNTABLE: nat := TWO_32 / 2

  /** The invariant of a transfer whose body length is known. */
  predicate LengthInv(t: Transfer) {
    && !t.chunked && !t.unframed && t.dec.cntLen <= SIZE_T_MAX
    && t.bodyRead == |t.dec.out| <= t.dec.cntLen
    && t.dec.state in {Body, CgiBody, Hold}
    && (if t.dec.state == Hold then |t.dec.out| == t.dec.cntLen else t.dec.wire == [])
    && t.sunk <= |t.dec.out| && !t.dec.cut
    && (t.cgi ==> t.cgiRead == t.sunk)
    && (t.closed ==> Complete(t))
  }

  /** No more than `m` bytes are received at once. */
  predicate AtMost(es: seq<Event>, m: nat) {
    forall i :: 0 <= i < |es| && es[i].Received? ==> |es[i].data| <= m
  }

  /** One dispatch. */
  lemma LengthStep(t: Transfer)
    requires t.dec.cntLen < COUNTABLE || |t.dec.wire| < COUNTABLE
    requires !t.chunked && !t.unframed && t.bodyRead == |t.dec.out| <= t.dec.cntLen <= SIZE_T_MAX
    requires t.dec.state in {Body, CgiBody} && t.sunk <= |t.dec.out| && !t.dec.cut && !t.closed
    requires t.cgi ==> t.cgiRead == t.sunk
    ensures var u := LengthPoll(t);
            && LengthInv(u) && u.dec.out + u.dec.wire == t.dec.out + t.dec.wire && u.dec.cntLen == t.dec.cntLen
            && !u.closed
  {
    var w := t.dec.wire;
    var n := Min(|w|, t.dec.cntLen - t.bodyRead);
    Modest(t.dec.cntLen - t.bodyRead, t.bodyRead, n);
    assert t.dec.out + w[..n] + w[n..] == t.dec.out + w;
    assert n == |w| ==> w[n..] == [];
  }

  lemma Modest(want: nat, read: nat, n: nat)
    requires want + read <= SIZE_T_MAX && n <= want && n < COUNTABLE
    ensures want % TWO_64 == want && ToInt(n) == n && AddSize(read, n) == read + n
  {
  }

  /**
   * A body takes exactly its bytes from the wire, and leaves what follows them, when an `int` can
   * count the body or what has been received at once.
   */
  lemma LengthReceive(t: Transfer, data: bytes)
    requires LengthInv(t) && (t.dec.cntLen < COUNTABLE || |data| < COUNTABLE)
    ensures var u := Receive(t, data);
            && LengthInv(u) && u.dec.cntLen == t.dec.cntLen
            && u.dec.out + u.dec.wire == t.dec.out + t.dec.wire + data
            && t.dec.out <= u.dec.out && u.sunk == t.sunk && u.closed == t.closed
  {
    var u := t.(dec := Feed(t.dec, data));
    assert t.dec.out + (t.dec.wire + data) == t.dec.out + t.dec.wire + data;
    DispatchOutGrows(u);
    hide LengthPoll, Poll;
    if t.dec.state == Hold {
      Holds(u);
    } else {
      assert u.dec.wire == data;
      LengthStep(u);
    }
  }

  lemma Holds(t: Transfer)
    requires t.dec.state == Hold
    ensures Dispatch(t) == t && Answer(t.dec) == t.dec
  {
  }

  /** The delivery of the last byte, and only that, closes the transfer. */
  lemma LengthDeliver(t: Transfer, n: nat)
    requires LengthInv(t) && t.sunk + n <= |t.dec.out|
    ensures LengthInv(Deliver(t, n))
    ensures Deliver(t, n).dec.out == t.dec.out && Deliver(t, n).dec.wire == t.dec.wire
    ensures Deliver(t, n).dec.cntLen == t.dec.cntLen
    ensures !t.closed ==> (Deliver(t, n).closed <==> t.sunk + n == t.dec.cntLen)
  {
  }

  /** One event. */
  lemma LengthEvent(t: Transfer, e: Event)
    requires LengthInv(t) && (t.dec.cntLen < COUNTABLE || (e.Received? ==> |e.data| < COUNTABLE))
    ensures var u := Next(t, e);
            && LengthInv(u) && u.dec.cntLen == t.dec.cntLen
            && u.dec.out + u.dec.wire == t.dec.out + t.dec.wire + (if e.Received? then e.data else [])
  {
    hide LengthInv, Receive, Deliver;
    LengthFits(t);
    match e
    case Received(data) =>
      LengthReceive(t, data);
    case Delivered(n) =>
      LengthDeliver(t, Min(n, |t.dec.out| - t.sunk));
    case Responded =>
      NoAnswer(t.dec);
  }

  lemma LengthFits(t: Transfer)
    requires LengthInv(t)
    ensures t.sunk <= |t.dec.out| && t.dec.state in {Body, CgiBody, Hold}
  {
  }

  lemma NoAnswer(s: Decoder)
    requires s.state !in SKIP
    ensures Answer(s) == s
  {
  }

  /** Every interleaving: what has been taken and what waits are together all bytes received. */
  lemma {:induction false} LengthRun(t: Transfer, es: seq<Event>)
    requires LengthInv(t) && t.sunk <= |t.dec.out|
    requires t.dec.cntLen < COUNTABLE || AtMost(es, COUNTABLE - 1)
    ensures var u := After(t, es);
            && LengthInv(u) && u.dec.cntLen == t.dec.cntLen
            && u.dec.out + u.dec.wire == t.dec.out + t.dec.wire + Concat(Pieces(Inputs(es)))
    decreases |es|
  {
    hide LengthInv, Next, Inputs, Concat;
    if es == [] {
      NoBytes();
      assert t.dec.out + t.dec.wire + [] == t.dec.out + t.dec.wire;
    } else {
      LengthEvent(t, es[0]);
      var u, rest := Next(t, es[0]), Concat(Pieces(Inputs(es[1..])));
      LengthRun(u, es[1..]);
      FirstBytes(es);
      Regroup(t.dec.out + t.dec.wire, if es[0].Received? then es[0].data else [], rest);
    }
  }

  lemma Regroup(a: bytes, b: bytes, c: bytes)
    ensures a + b + c == a + (b + c)
  {
  }

  lemma NoBytes()
    ensures Concat(Pieces(Inputs([]))) == []
  {
  }

  lemma FirstBytes(es: seq<Event>)
    requires es != []
    ensures Concat(Pieces(Inputs(es))) ==
              (if es[0].Received? then es[0].data else []) + Concat(Pieces(Inputs(es[1..])))
  {
    var rest := Inputs(es[1..]);
    match es[0]
    case Received(data) =>
      assert ([Input.Bytes(data)] + rest)[1..] == rest;
      PiecesFirst(Inputs(es));
    case Delivered(_) =>
      assert [] + rest == rest && [] + Concat(Pieces(rest)) == Concat(Pieces(rest));
    case Responded =>
      assert ([Answered] + rest)[1..] == rest;
      PiecesFirst(Inputs(es));
  }

  /**
   * The end comes: when `c` bytes have been received, deliveries that add up to what is left of
   * them close the transfer, and then all of them have been delivered.
   */
  lemma LengthCompletes(limit: nat, cgi: bool, c: nat, es: seq<Event>, ns: seq<nat>)
    requires c <= SIZE_T_MAX && (c < COUNTABLE || AtMost(es, COUNTABLE - 1))
    requires c <= |Concat(Pieces(Inputs(es)))| && es != [] && ns != []
    requires es[0].Received?
    requires After(StartLength(limit, cgi, c), es).sunk + Sum(ns) >= c
    ensures var t, all := After(StartLength(limit, cgi, c), es + Deliveries(ns)), Concat(Pieces(Inputs(es)));
            && t.closed && t.sunk == c == |t.dec.out| && t.dec.out == all[..c] && t.dec.wire == all[c..]
  {
    hide Next, Inputs, Deliveries, Sum, LengthInv;
    var s := StartLength(limit, cgi, c);
    StartLengthInv(limit, cgi, c);
    LengthRun(s, es);
    LengthConservation(limit, cgi, c, es);
    LimitKept(s, es);
    var t := After(s, es);
    FirstPoll(s, es[0]);
    assert After(s, es) == After(Next(s, es[0]), es[1..]);
    Polled(Next(s, es[0]), es[1..]);
    PolledMeans(t);
    LengthEnds(t);
    Drains(t, ns);
    AfterConcat(s, es, Deliveries(ns));
  }

  /** A body that has been looked at is on hold once all of it is there. */
  predicate Looked(t: Transfer) {
    LengthInv(t) && (t.bodyRead == t.dec.cntLen ==> t.dec.state == Hold)
  }

  lemma FirstPoll(t: Transfer, e: Event)
    requires LengthInv(t) && t.sunk <= |t.dec.out| && e.Received?
    requires t.dec.cntLen < COUNTABLE || |e.data| < COUNTABLE
    ensures Looked(Next(t, e)) && Next(t, e).dec.cntLen == t.dec.cntLen
  {
    hide Poll, ToInt, AddSize, SubSize;
    LengthEvent(t, e);
    if t.dec.state == Hold {
      Holds(t.(dec := Feed(t.dec, e.data)));
    }
  }

  lemma EventLooks(t: Transfer, e: Event)
    requires Looked(t) && t.sunk <= |t.dec.out| && (t.dec.cntLen < COUNTABLE || (e.Received? ==> |e.data| < COUNTABLE))
    ensures Looked(Next(t, e)) && Next(t, e).dec.cntLen == t.dec.cntLen
  {
    LengthEvent(t, e);
    if e.Received? {
      FirstPoll(t, e);
    } else {
      hide Poll;
    }
  }

  lemma {:induction false} Polled(t: Transfer, es: seq<Event>)
    requires Looked(t) && t.sunk <= |t.dec.out| && (t.dec.cntLen < COUNTABLE || AtMost(es, COUNTABLE - 1))
    ensures Looked(After(t, es))
    decreases |es|
  {
    hide Looked, Next;
    if es != [] {
      EventLooks(t, es[0]);
      Polled(Next(t, es[0]), es[1..]);
    }
  }

  lemma PolledMeans(t: Transfer)
    requires Looked(t) && |t.dec.out| == t.dec.cntLen
    ensures t.dec.state == Hold
  {
  }

  lemma LengthEnds(t: Transfer)
    requires LengthInv(t) && t.dec.state == Hold
    ensures Ended(t) && (t.closed ==> t.sunk == |t.dec.out|)
  {
  }

  lemma StartLengthInv(limit: nat, cgi: bool, c: nat)
    requires c <= SIZE_T_MAX
    ensures LengthInv(StartLength(limit, cgi, c))
  {
  }

  /**
   * Conservation for a body of known length, over every interleaving, when an `int` can count the
   * body or every piece that arrives: exactly the first `c` bytes received are the body, the rest
   * waits behind it, and the transfer is closed only when all of the body has been delivered.
   */
  lemma LengthConservation(limit: nat, cgi: bool, c: nat, es: seq<Event>)
    requires c <= SIZE_T_MAX && (c < COUNTABLE || AtMost(es, COUNTABLE - 1))
    ensures var t, all := After(StartLength(limit, cgi, c), es), Concat(Pieces(Inputs(es)));
            && t.dec.out == all[..Min(c, |all|)] && t.dec.wire == all[Min(c, |all|)..]
            && t.sunk <= |t.dec.out|
            && (t.closed ==> t.sunk == c == |t.dec.out|)
  {
    hide After, Inputs;
    var s := StartLength(limit, cgi, c);
    StartLengthInv(limit, cgi, c);
    LengthRun(s, es);
    var t, all := After(s, es), Concat(Pieces(Inputs(es)));
    assert t.dec.out + t.dec.wire == [] + [] + all == all;
    assert |t.dec.out| == Min(c, |all|);
  }

  /**
   * The counts are right on every run whose pieces have at most `m` bytes, if and only if an `int`
   * can count the length that the request tells, however much waits on the wire, or those pieces.
   */
  lemma LengthIff(limit: nat, cgi: bool, c: nat, m: nat)
    requires c <= SIZE_T_MAX
    ensures (forall es | AtMost(es, m) :: LengthInv(After(StartLength(limit, cgi, c), es)))
       <==> c < 0x8000_0000 || m < 0x8000_0000
  {
    hide LengthInv, After;
    var s := StartLength(limit, cgi, c);
    if c < COUNTABLE || m < COUNTABLE {
      forall es | AtMost(es, m)
        ensures LengthInv(After(s, es))
      {
        StartLengthInv(limit, cgi, c);
        LengthRun(s, es);
      }
    } else {
      LengthOverflows(limit, cgi, c);
      assert AtMost(LongWait(), m);
    }
  }

  /**
   * 2^31 bytes that are received at once.  No read brings so many; they can wait behind the header,
   * because what arrives while the previous request is on hold is only collected.
   */
  function LongWait(): seq<Event> {
    [Received(seq(COUNTABLE, i => 'x'))]
  }

  /** A CGI request of known length is not compared with the limit. */
  lemma CgiLengthUnlimited(limit: nat, body: bytes)
    requires limit < |body| < COUNTABLE
    ensures var t := After(StartLength(limit, true, |body|), [Received(body), Delivered(|body|)]);
            t.closed && t.dec.out == body && t.sunk == |body| > limit
  {
    hide LengthPoll, Receive;
    var s, es := StartLength(limit, true, |body|), [Received(body), Delivered(|body|)];
    StartLengthInv(limit, true, |body|);
    LengthReceive(s, body);
    var u := Next(s, es[0]);
    assert u.dec.out == body && u.dec.wire == [] by {
      assert [] + [] + body == body;
    }
    LengthDeliver(u, |body|);
    assert es[1..][0] == Delivered(|body|) && es[1..][1..] == [];
    assert After(s, es) == After(Next(u, es[1]), []);
  }

  lemma LengthOverflows(limit: nat, cgi: bool, c: nat)
    requires COUNTABLE <= c <= SIZE_T_MAX
    ensures !LengthInv(After(StartLength(limit, cgi, c), LongWait()))
  {
    hide LengthPoll, Receive;
    var s := StartLength(limit, cgi, c);
    var e := LongWait()[0];
    assert LongWait()[1..] == [];
    assert After(s, LongWait()) == After(Next(s, e), []) == Receive(s, e.data);
    ReadTooLong(s, e.data);
  }

  lemma ReadTooLong(t: Transfer, data: bytes)
    requires t.dec.state in {Body, CgiBody} && t.bodyRead == 0 && t.dec.wire == [] && t.dec.out == []
    requires COUNTABLE <= t.dec.cntLen <= SIZE_T_MAX && |data| == COUNTABLE
    ensures Receive(t, data).bodyRead != |Receive(t, data).dec.out|
  {
    hide Poll;
    var u := t.(dec := Feed(t.dec, data));
    assert u.dec.wire == data;
    assert t.dec.cntLen % TWO_64 == t.dec.cntLen;
    CountLost();
  }

  lemma CountLost()
    ensures AddSize(0, ToInt(COUNTABLE)) == TWO_64 - COUNTABLE
  {
  }

  /**
   * A whole body received at once completes the transfer if and only if an `int` can count it;
   * a larger one is taken from the wire, and the server goes on waiting for it.
   */
  lemma LengthCompleteIff(limit: nat, cgi: bool, body: bytes)
    requires 0 < |body| < TWO_64 / 2
    ensures var t := Receive(StartLength(limit, cgi, |body|), body);
            t.dec.out == body && (t.dec.state == Hold <==> |body| < COUNTABLE)
  {
    assert [] + body == body && body[..|body|] == body;
  }
}
