/** What happens to a limit so large that the 64-bit total of the announced sizes can wrap. */
module ChunkedCarry {
  import opened Bytes
  import opened Lines
  import opened Chunked
  import opened ChunkedLimits
  import opened ChunkedRoundTrip

  function Singles(n: nat): (s: seq<bytes>)
    ensures |s| == n && forall i :: 0 <= i < n ==> s[i] == "x"
  {
    seq(n, i => "x")
  }

  lemma {:induction false} SinglesLength(n: nat)
    ensures |Concat(Singles(n))| == n
    decreases n
  {
    if n > 0 {
      assert Singles(n)[1..] == Singles(n - 1);
      SinglesLength(n - 1);
    }
  }

  /** `n` chunks of one byte each. */
  function OneByOne(n: nat): bytes {
    EncodeAll(PrintAll(Singles(n)))
  }

  /** One call on chunks that stay within the limit. */
  lemma FirstCall(s: Decoder, n: nat)
    requires Ready(s) && s.wire == OneByOne(n) && s.bodySize + n <= s.limit <= SIZE_T_MAX
    ensures var t := Call(s, DECODE);
            t == s.(wire := [], out := t.out, bodySize := s.bodySize + n) && |t.out| == |s.out| + n
  {
    hide EncodeAll, PrintAll, Call;
    SinglesLength(n);
    ChunksCall(s, Singles(n));
  }

  /** One call on whole chunks that stay within the limit. */
  lemma ChunksCall(s: Decoder, body: seq<bytes>)
    requires Ready(s) && s.wire == EncodeAll(PrintAll(body))
    requires forall i :: 0 <= i < |body| ==> 0 < |body[i]| <= TWO_32 - 3
    requires s.bodySize + |Concat(body)| <= s.limit <= SIZE_T_MAX
    ensures Call(s, DECODE) ==
              s.(wire := [], out := s.out + Concat(body), bodySize := s.bodySize + |Concat(body)|)
  {
    hide Run, NeverWraps, Framed, Encode, EncodeAll, Print, PrintAll, Call;
    PrintedPayload(body);
    PrintedAll(body);
    assert s.wire == EncodeAll(PrintAll(body)) + [];
    ChunksLead(s, PrintAll(body), []);
    Waiting(AfterAll(s, PrintAll(body), []));
    CallThenRun(s, DECODE);
  }

  lemma Waiting(s: Decoder)
    requires s.chnkd == 0 && s.wire == []
    ensures Run(s, DECODE) == s && NeverWraps(s, DECODE)
  {
  }

  /** The data of a chunk of 2^32 - 1 bytes, which the wrapped counter takes for 2^32 - 3, and the last chunk. */
  function LongTail(): bytes {
    seq(TWO_32 - 3, i => 'x') + CRLF + Encode(Print([]))
  }

  lemma LastCall(s: Decoder)
    requires s.state in DECODE && s.chnkd == TWO_32 - 1 && !s.last && s.wire == LongTail()
    requires s.bodySize <= s.limit <= SIZE_T_MAX
    ensures var t := Call(s, DECODE);
            && t == s.(wire := [], out := t.out, chnkd := 0, last := true, cntLen := s.bodySize, state := Hold)
            && |t.out| == |s.out| + TWO_32 - 3
  {
    hide Run, NeverWraps, Framed, Encode, Print, Call;
    var data: bytes, more := seq(TWO_32 - 3, i => 'x'), Encode(Print([]));
    assert s.wire == data + (CRLF + more);
    DataSteps(s, data, CRLF + more);
    var u := s.(wire := CRLF + more, out := s.out + data, chnkd := 2);
    TailStep(u, CRLF, more);
    OneStepLeads(u, true);
    var v := Step(u);
    PrintedValid([]);
    PrintIs([]);
    assert v.wire == more + [];
    ChunkSteps(v, Print([]), []);
    var w := AfterChunk(v, Print([]), []);
    HoldEnds(w);
    LeadsTrans(u, v, w, true, true);
    LeadsTrans(s, u, w, true, true);
    CallThenRun(s, DECODE);
  }

  lemma PrintIs(data: bytes)
    ensures Print(data).data == data && Print(data).tail == CRLF
  {
  }

  /** Chunks up to the limit, the size line `ffffffff`, and a proper end. */
  function CarryPieces(limit: nat): (ps: seq<bytes>)
    ensures |ps| == 3
  {
    [OneByOne(limit), SizeLine(TWO_32 - 1) + CRLF, LongTail()]
  }

  /**
   * Above `CARRY_FREE` a size is accepted because the total has wrapped: the body is complete, and
   * its length is told as less than the bytes that precede that chunk.
   */
  lemma CarryRun(s: Decoder)
    requires Ready(s) && s.wire == [] && s.out == [] && s.bodySize == 0 && CARRY_FREE < s.limit <= SIZE_T_MAX
    ensures var ps := CarryPieces(s.limit);
            var t := Call(Feed(s, ps[0]), DECODE);
            var u := Call(Feed(t, ps[1]), DECODE);
            var v := Call(Feed(u, ps[2]), DECODE);
            && v == FeedCalls(s, ps, DECODE) && t.state == u.state == s.state
            && v.state == Hold && v.last && v.cut == s.cut && v.cntLen == s.limit - CARRY_FREE - 1
            && |v.out| == s.limit + TWO_32 - 3
  {
    hide Call, OneByOne, LongTail, SizeLine, Encode, FlatLine, FeedCalls;
    var ps := CarryPieces(s.limit);
    assert s.wire + ps[0] == OneByOne(s.limit);
    FirstCall(Feed(s, ps[0]), s.limit);
    var t := Call(Feed(s, ps[0]), DECODE);
    assert t.wire + ps[1] == SizeLine(TWO_32 - 1) + CRLF;
    OneCall(Feed(t, ps[1]), CRLF);
    var u := Call(Feed(t, ps[1]), DECODE);
    assert u.wire + ps[2] == LongTail();
    LastCall(Feed(u, ps[2]));
    ThreeCalls(s, ps);
  }

  lemma ThreeCalls(s: Decoder, ps: seq<bytes>)
    requires |ps| == 3
    ensures var t := Call(Feed(s, ps[0]), DECODE);
            var u := Call(Feed(t, ps[1]), DECODE);
            FeedCalls(s, ps, DECODE) == Call(Feed(u, ps[2]), DECODE)
  {
    hide Call;
    var t := Call(Feed(s, ps[0]), DECODE);
    var u := Call(Feed(t, ps[1]), DECODE);
    assert ps[1..][0] == ps[1] && ps[1..][1..] == ps[2..] && ps[2..][0] == ps[2] && ps[2..][1..] == [];
    assert FeedCalls(u, ps[2..], DECODE) == FeedCalls(Call(Feed(u, ps[2]), DECODE), [], DECODE);
    assert FeedCalls(t, ps[1..], DECODE) == FeedCalls(u, ps[2..], DECODE);
  }

  /**
   * Body-limit safety, exactly: on every run of an upload or a CGI request the decoded bytes and
   * those owed stay within the announced total, and that within the limit, if and only if no chunk
   * size carries the total past 2^64.  Every limit a configuration can set is that small; the
   * limit of a location without one is not.
   */
  lemma LimitSafetyIff(limit: nat)
    requires limit <= SIZE_T_MAX
    ensures (forall state, pieces | state in DECODE :: Within(Reached(limit, state, pieces)))
       <==> limit <= 0xFFFF_FFFF_0000_0000
  {
    hide FeedCalls, Within;
    if limit <= CARRY_FREE {
      forall state, pieces | state in DECODE
        ensures Within(Reached(limit, state, pieces))
      {
        LimitSafety(limit, state, pieces);
      }
    } else {
      CarryRun(Start(limit, BodyChunked));
      Beyond(Reached(limit, BodyChunked, CarryPieces(limit)));
    }
  }

  lemma Beyond(t: Decoder)
    requires t.state == Hold && !t.cut && t.cntLen < |t.out|
    ensures !Within(t)
  {
  }
}
