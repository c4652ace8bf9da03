/** A whole request on one wire: its head, its chunked body, and the beginning of the next request. */
module Requests {
  import opened Bytes
  import opened Lines
  import opened Chunked
  import opened Transfer
  import ChunkedRoundTrip
  import Closing
  import CutBodies
  import Heads
  import KnownLength
  import StartLine

  /** What the configuration and the header say about the body; `c` is the Content-Length told besides. */
  datatype Setting = Setting(limit: nat, cgi: bool, c: nat)

  /** A head is being read, or has been read and its body is on its way; `head.wire` is not used then. */
  datatype Connection = Reading(head: Heads.Request) | Sending(head: Heads.Request, t: Transfer)

  predicate Fits(k: Connection) {
    k.Sending? ==> k.t.sunk <= |k.t.dec.out|
  }

  function NoRequest(): Heads.Request {
    Heads.Request([], Heads.RequestLine, StartLine.Undefined, [], map[])
  }

  predicate Contains(s: bytes, t: bytes) {
    t <= s || (s != [] && Contains(s[1..], t))
  }

  /** The header asks for chunked coding. */
  predicate Coded(fields: map<bytes, bytes>) {
    Heads.TRANSFER_ENCODING in fields && Contains(fields[Heads.TRANSFER_ENCODING], "chunked")
  }

  /** `t` lies somewhere in `s`. */
  ghost predicate LiesIn(t: bytes, s: bytes) {
    exists a: bytes, b: bytes :: s == a + t + b
  }

  lemma NotInFront(s: bytes, t: bytes, a: bytes, b: bytes)
    requires s == a + t + b && !(t <= s)
    ensures a != []
  {
    assert [] + t + b == t + b;
  }

  lemma {:induction false} ContainsIff(s: bytes, t: bytes)
    ensures Contains(s, t) <==> LiesIn(t, s)
    decreases |s|
  {
    if t <= s {
      assert s == [] + t + s[|t|..];
    } else {
      if s != [] {
        ContainsIff(s[1..], t);
        if Contains(s[1..], t) {
          var a: bytes, b: bytes :| s[1..] == a + t + b;
          assert s == ([s[0]] + a) + t + b;
        }
      }
      if a: bytes, b: bytes :| s == a + t + b {
        NotInFront(s, t, a, b);
        assert s[1..] == a[1..] + t + b;
      }
    }
  }

  /** It does if and only if the last field of that name says so, both in any case. */
  lemma CodedIff(fs: seq<Heads.Field>, i: nat, value: bytes)
    requires i < |fs| && Heads.Lowered(fs[i].name, "transfer-encoding") && Heads.Lowered(fs[i].value, value)
    requires forall j :: i < j < |fs| ==> !Heads.Lowered(fs[j].name, "transfer-encoding")
    ensures Coded(Heads.Rewritten(Heads.Merged(map[], fs))) <==> LiesIn("chunked", value)
  {
    hide Heads.Lowered, Heads.LowerAll, Heads.Rewritten, Heads.Merged, Contains, LiesIn;
    Heads.FieldComesBack(map[], fs, i, "transfer-encoding");
    Heads.LoweredIff(fs[i].value, value);
    Heads.LoweredIff(fs[i].value, Heads.Rewritten(Heads.Merged(map[], fs))["transfer-encoding"]);
    ContainsIff(value, "chunked");
  }

  lemma NotCoded(fs: seq<Heads.Field>)
    requires forall j :: 0 <= j < |fs| ==> !Heads.Lowered(fs[j].name, "transfer-encoding")
    ensures !Coded(Heads.Rewritten(Heads.Merged(map[], fs)))
  {
    hide Heads.Lowered;
    Heads.NothingElse(fs, "transfer-encoding");
  }

  /** A head that is complete and coded starts the body with the bytes behind it. */
  function Opened(h: Heads.Request, b: Setting): (k: Connection)
    ensures Fits(k)
  {
    if h.stage == Heads.Complete && Coded(h.fields) then
      var s := StartChunked(b.limit, b.cgi, b.c);
      DispatchOutGrows(s.(dec := Feed(s.dec, h.wire)));
      Sending(h.(wire := []), Receive(s, h.wire))
    else Reading(h)
  }

  /** One event; while the head is read only bytes count. */
  ghost function Take(k: Connection, e: Event, b: Setting): (k': Connection)
    requires Fits(k)
    ensures Fits(k')
  {
    match k
    case Reading(h) => if e.Received? then Opened(Heads.Parse(Heads.Feed(h, e.data)), b) else k
    case Sending(h, t) => Sending(h, Next(t, e))
  }

  ghost function TakeAll(k: Connection, es: seq<Event>, b: Setting): (k': Connection)
    requires Fits(k)
    ensures Fits(k')
    decreases |es|
  {
    if es == [] then k else TakeAll(Take(k, es[0], b), es[1..], b)
  }

  /** The bytes that the events bring. */
  function Incoming(es: seq<Event>): bytes {
    Concat(Pieces(Inputs(es)))
  }

  lemma {:induction false} BodyRuns(h: Heads.Request, t: Transfer, es: seq<Event>, b: Setting)
    requires t.sunk <= |t.dec.out|
    ensures TakeAll(Sending(h, t), es, b) == Sending(h, After(t, es))
    decreases |es|
  {
    hide Next;
    if es != [] {
      BodyRuns(h, Next(t, es[0]), es[1..], b);
    }
  }

  /** `k` has read the head `g` and has run the body on the bytes behind it. */
  ghost predicate Runs(k: Connection, g: Heads.Request, rest: seq<Event>, b: Setting) {
    k == Sending(g.(wire := []), After(StartChunked(b.limit, b.cgi, b.c), rest)) && Incoming(rest) == g.wire
  }

  lemma Settles(h: Heads.Request)
    ensures Heads.Parse(Heads.Parse(h)) == Heads.Parse(h)
  {
    hide Heads.Parse;
    Heads.Fragmentation(h, []);
    FeedNothing(h);
    FeedNothing(Heads.Parse(h));
  }

  lemma FeedNothing(h: Heads.Request)
    ensures Heads.Feed(h, []) == h
  {
    assert h.wire + [] == h.wire;
  }

  lemma FeedTwice(h: Heads.Request, a: bytes, b: bytes)
    ensures Heads.Feed(Heads.Feed(h, a), b) == Heads.Feed(h, a + b)
  {
    assert h.wire + a + b == h.wire + (a + b);
  }

  lemma Stays(h: Heads.Request)
    requires h.stage !in {Heads.RequestLine, Heads.Fields}
    ensures Heads.Parse(h) == h
  {
  }

  /** Wherever the bytes are cut, the body starts behind the head with what is left of its piece. */
  lemma {:induction false} Opens(h: Heads.Request, es: seq<Event>, b: Setting) returns (rest: seq<Event>)
    requires h.stage in {Heads.RequestLine, Heads.Fields} && Heads.Parse(h) == h
    requires var g := Heads.Parse(Heads.Feed(h, Incoming(es))); g.stage == Heads.Complete && Coded(g.fields)
    ensures Runs(TakeAll(Reading(h), es, b), Heads.Parse(Heads.Feed(h, Incoming(es))), rest, b)
    decreases |es|
  {
    hide Heads.Parse, Coded, Concat, Receive, After, Inputs;
    if es == [] {
      NoBytes();
      FeedNothing(h);
      return [];
    }
    KnownLength.FirstBytes(es);
    if !es[0].Received? {
      assert [] + Incoming(es[1..]) == Incoming(es[1..]);
      rest := Opens(h, es[1..], b);
    } else {
      var data, more := es[0].data, Incoming(es[1..]);
      var f := Heads.Feed(h, data);
      var h' := Heads.Parse(f);
      Heads.Fragmentation(f, more);
      FeedTwice(h, data, more);
      if h'.stage in {Heads.RequestLine, Heads.Fields} {
        Settles(f);
        rest := Opens(h', es[1..], b);
      } else {
        Stays(Heads.Feed(h', more));
        rest := [Received(h'.wire)] + es[1..];
        BodyOpens(h', es[1..], b);
      }
    }
  }

  /** Without chunked coding, or refused, or not complete, a head is read and nothing else happens. */
  lemma {:induction false} HeadOnly(h: Heads.Request, es: seq<Event>, b: Setting)
    requires Heads.Parse(h) == h
    requires var g := Heads.Parse(Heads.Feed(h, Incoming(es))); !(g.stage == Heads.Complete && Coded(g.fields))
    ensures TakeAll(Reading(h), es, b) == Reading(Heads.Parse(Heads.Feed(h, Incoming(es))))
    decreases |es|
  {
    hide Heads.Parse, Coded, Concat, Receive, After, Inputs;
    if es == [] {
      NoBytes();
      FeedNothing(h);
      return;
    }
    KnownLength.FirstBytes(es);
    if !es[0].Received? {
      assert [] + Incoming(es[1..]) == Incoming(es[1..]);
      HeadOnly(h, es[1..], b);
    } else {
      var data, more := es[0].data, Incoming(es[1..]);
      var f := Heads.Feed(h, data);
      var h' := Heads.Parse(f);
      Heads.Fragmentation(f, more);
      FeedTwice(h, data, more);
      if h'.stage == Heads.Complete {
        Stays(Heads.Feed(h', more));
      }
      Settles(f);
      HeadOnly(h', es[1..], b);
    }
  }

  lemma NoBytes()
    ensures Incoming([]) == []
  {
  }

  lemma BodyOpens(h: Heads.Request, es: seq<Event>, b: Setting)
    requires h.stage == Heads.Complete && Coded(h.fields)
    ensures Runs(TakeAll(Opened(h, b), es, b), Heads.Feed(h, Incoming(es)), [Received(h.wire)] + es, b)
  {
    hide Coded, Receive, Concat, Inputs;
    var s, all := StartChunked(b.limit, b.cgi, b.c), [Received(h.wire)] + es;
    assert all[0] == Received(h.wire) && all[1..] == es;
    KnownLength.FirstBytes(all);
    var t := Receive(s, h.wire);
    assert Next(s, all[0]) == t;
    assert After(s, all) == After(t, es);
    BodyRuns(h.(wire := []), t, es, b);
  }

  /** The bytes of a request and of what follows it. */
  function Whole(m: StartLine.Method, uri: bytes, fs: seq<Heads.Field>, body: seq<bytes>, suffix: bytes): bytes
    requires m != StartLine.Undefined
  {
    StartLine.Print(m, uri) + CRLF + (Heads.PrintFields(fs) + CRLF + (ChunkedRoundTrip.ChunkedCoding(body) + suffix))
  }

  /**
   * A request with a chunked body, from one end to the other: whatever pieces its bytes and those of
   * the next request arrive in, and whatever is delivered in between, method, URI and fields come
   * back, the body is decoded exactly, exactly the next request is left on the wire, and the file or
   * pipe is closed only when it has all of the body.
   */
  lemma WholeRequest(m: StartLine.Method, uri: bytes, fs: seq<Heads.Field>, body: seq<bytes>, suffix: bytes,
                     es: seq<Event>, b: Setting)
    requires m != StartLine.Undefined && StartLine.ValidUri(uri) && |StartLine.Print(m, uri)| < LINE_MAX
    requires (forall i :: 0 <= i < |fs| ==> Heads.Sendable(fs[i])) && Coded(Heads.Rewritten(Heads.Merged(map[], fs)))
    requires CutBodies.Sendable(body) && |Concat(body)| <= b.limit <= SIZE_T_MAX && |Concat(body)| < b.c
    requires Incoming(es) == Whole(m, uri, fs, body, suffix)
    ensures var k := TakeAll(Reading(NoRequest()), es, b);
            && k.Sending?
            && k.head == Heads.Request([], Heads.Complete, m, uri, Heads.Rewritten(Heads.Merged(map[], fs)))
            && k.t.dec.out == Concat(body) && k.t.dec.wire == suffix && k.t.dec.state == Hold
            && (k.t.closed ==> k.t.sunk == |Concat(body)|)
  {
    hide Heads.Parse, Heads.Rewritten, Heads.Merged, Coded, Concat, Inputs, After, ChunkedRoundTrip.ChunkedCoding,
      StartLine.Print, StartLine.ValidUri, Heads.PrintFields, Heads.Sendable, CutBodies.Sendable;
    var rest := ChunkedRoundTrip.ChunkedCoding(body) + suffix;
    var g := HeadRead(m, uri, fs, rest);
    NothingRead();
    var run := Opens(NoRequest(), es, b);
    CodingArrives(run, body, suffix);
    Closing.EndToEnd(b.limit, b.cgi, b.c, body, suffix, run);
  }

  lemma CodingArrives(es: seq<Event>, body: seq<bytes>, suffix: bytes)
    ensures Closing.Arrived(es, body, suffix) <==> Incoming(es) == ChunkedRoundTrip.ChunkedCoding(body) + suffix
  {
  }

  lemma NothingRead()
    ensures Heads.Parse(NoRequest()) == NoRequest()
  {
  }

  /** All bytes of the head, and any behind it, read at once. */
  lemma HeadRead(m: StartLine.Method, uri: bytes, fs: seq<Heads.Field>, rest: bytes) returns (g: Heads.Request)
    requires m != StartLine.Undefined && StartLine.ValidUri(uri) && |StartLine.Print(m, uri)| < LINE_MAX
    requires forall i :: 0 <= i < |fs| ==> Heads.Sendable(fs[i])
    ensures g == Heads.Request(rest, Heads.Complete, m, uri, Heads.Rewritten(Heads.Merged(map[], fs)))
    ensures var all := StartLine.Print(m, uri) + CRLF + (Heads.PrintFields(fs) + CRLF + rest);
            g == Heads.Parse(Heads.Feed(NoRequest(), all))
  {
    hide Heads.Parse, Heads.Rewritten, Heads.Merged, StartLine.Print, StartLine.ValidUri, Heads.PrintFields,
      Heads.Sendable;
    var all := StartLine.Print(m, uri) + CRLF + (Heads.PrintFields(fs) + CRLF + rest);
    var one: seq<bytes>, none: seq<bytes> := [all], [];
    assert one[1..] == none && all + [] == all;
    assert Concat(one) == all;
    Heads.HeadRoundTrip(m, uri, fs, rest, one);
    Heads.ArriveAtOnce(NoRequest(), one);
    g := Heads.Parse(Heads.Feed(NoRequest(), all));
  }

  /** A request without chunked coding: the head comes back, and all that follows stays on the wire. */
  lemma PlainHead(m: StartLine.Method, uri: bytes, fs: seq<Heads.Field>, rest: bytes, es: seq<Event>, b: Setting)
    requires m != StartLine.Undefined && StartLine.ValidUri(uri) && |StartLine.Print(m, uri)| < LINE_MAX
    requires forall i :: 0 <= i < |fs| ==> Heads.Sendable(fs[i]) && !Heads.Lowered(fs[i].name, "transfer-encoding")
    requires Incoming(es) == StartLine.Print(m, uri) + CRLF + (Heads.PrintFields(fs) + CRLF + rest)
    ensures TakeAll(Reading(NoRequest()), es, b) ==
              Reading(Heads.Request(rest, Heads.Complete, m, uri, Heads.Rewritten(Heads.Merged(map[], fs))))
  {
    hide Heads.Parse, Heads.Rewritten, Heads.Merged, Coded, Concat, Inputs, StartLine.Print, StartLine.ValidUri,
      Heads.PrintFields, Heads.Sendable, Heads.Lowered;
    var g := HeadRead(m, uri, fs, rest);
    NotCoded(fs);
    NothingRead();
    HeadOnly(NoRequest(), es, b);
  }

  /** The next request is read from what the last one left. */
  lemma NextRequest(m: StartLine.Method, uri: bytes, fs: seq<Heads.Field>, rest: bytes, left: Decoder)
    requires m != StartLine.Undefined && StartLine.ValidUri(uri) && |StartLine.Print(m, uri)| < LINE_MAX
    requires forall i :: 0 <= i < |fs| ==> Heads.Sendable(fs[i])
    requires left.wire == StartLine.Print(m, uri) + CRLF + (Heads.PrintFields(fs) + CRLF + rest)
    ensures Heads.Parse(NoRequest().(wire := left.wire)) ==
              Heads.Request(rest, Heads.Complete, m, uri, Heads.Rewritten(Heads.Merged(map[], fs)))
  {
    hide Heads.Parse, Heads.Rewritten, Heads.Merged, StartLine.Print, StartLine.ValidUri, Heads.PrintFields,
      Heads.Sendable;
    var g := HeadRead(m, uri, fs, rest);
    assert [] + left.wire == left.wire;
  }
}
