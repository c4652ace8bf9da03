/** What the body limit guarantees, and where the 32-bit chunk counter breaks. */
module ChunkedLimits {
  import opened Bytes
  import opened Lines
  import opened Chunked
  import ChunkSize

  /** The largest limit that no chunk size carries past 2^64: below it `_body_size` never wraps. */
  const CARRY_FREE: nat := TWO_64 - TWO_32

  /** Data bytes of the current chunk that are still to come. */
  function Owed(chnkd: nat): nat {
    if chnkd > 2 then chnkd - 2 else if chnkd == 1 then TWO_32 - 3 else 0
  }

  /** The bytes decoded so far and those owed stay within the announced total, and that within the limit. */
  predicate Within(s: Decoder) {
    && |s.out| <= s.limit
    && (s.state in DECODE ==> |s.out| + Owed(s.chnkd) <= s.bodySize <= s.limit)
    && (s.state == Hold && !s.cut ==> |s.out| <= s.cntLen <= s.limit)
  }

  /** What makes `Within` an invariant. */
  predicate Safe(s: Decoder) {
    && Within(s) && s.chnkd < TWO_32 && s.limit <= CARRY_FREE
    && (s.state in DECODE && s.last ==> s.chnkd == 2)
    && (s.state == Hold && !s.cut ==> s.last && s.chnkd == 0 && s.cntLen == s.bodySize)
  }

  /** Nothing of the announced sizes has been lost. */
  predicate Exact(s: Decoder) {
    && (s.state in DECODE ==> s.chnkd != 1 && |s.out| + Owed(s.chnkd) == s.bodySize)
    && (s.state == Hold && !s.cut ==> |s.out| == s.cntLen)
  }

  lemma StepSafe(s: Decoder)
    requires CanStep(s) && Safe(s)
    ensures Safe(Step(s)) && Step(s).limit == s.limit
    ensures Exact(s) && s.limit < TWO_32 - 2 ==> Exact(Step(s))
    ensures s.chnkd != 1 && s.state in DECODE && s.limit < TWO_32 - 1 ==> Step(s).state !in DECODE || Step(s).chnkd != 1
  {
    hide StartChunk, FlatLine;
    if s.chnkd > 2 {
    } else if s.chnkd > 0 {
    } else {
      StartChunkSafe(s);
    }
  }

  lemma StartChunkSafe(s: Decoder)
    requires FlatLine(s.wire).Line? && s.state in STREAM && s.chnkd == 0 && Safe(s)
    ensures var t := StartChunk(s);
            && Safe(t) && t.limit == s.limit && t.out == s.out
            && (Exact(s) && s.limit < TWO_32 - 2 ==> Exact(t))
            && (s.state in DECODE && s.limit < TWO_32 - 1 ==> t.state !in DECODE || t.chnkd != 1)
  {
    hide FlatLine, ChunkSize.SizeOf, ChunkSize.SizeAfter, Sized, Safe, Exact;
    LineFits(s.wire);
    var n := FlatLine(s.wire).length;
    var line, t := s.wire[..n], s.(wire := s.wire[n + 2..]);
    SizeBounds(line, s.chnkd);
    SameSafe(s, t);
    SizedSafe(t, ChunkSize.SizeOf(line), ChunkSize.SizeAfter(line, s.chnkd));
  }

  lemma SameSafe(s: Decoder, t: Decoder)
    requires t == s.(wire := t.wire) && Safe(s)
    ensures Safe(t) && Exact(t) == Exact(s) && s.chnkd < TWO_32
  {
  }

  lemma SizedSafe(s: Decoder, size: Option<nat>, after: nat)
    requires s.state in STREAM && s.chnkd == 0 && Safe(s) && after < TWO_32
    requires size.Some? ==> size.value < TWO_32
    ensures var t := Sized(s, size, after);
            && Safe(t) && t.limit == s.limit && t.out == s.out
            && (Exact(s) && s.limit < TWO_32 - 2 ==> Exact(t))
            && (s.state in DECODE && s.limit < TWO_32 - 1 ==> t.state !in DECODE || t.chnkd != 1)
  {
    hide Safe, Exact, Sized;
    if s.state in DECODE && size.Some? && s.bodySize + size.value <= s.limit {
      AcceptedSafe(s, size.value, after);
    } else {
      SafeFacts(s);
      OutOfDecoding(s, size, after);
      SafeAfter(s, Sized(s, size, after));
    }
  }

  lemma SafeFacts(s: Decoder)
    requires Safe(s)
    ensures |s.out| <= s.limit <= CARRY_FREE && (s.state in DECODE ==> s.bodySize <= s.limit)
  {
  }

  /** A size line that is not accepted ends decoding. */
  lemma OutOfDecoding(s: Decoder, size: Option<nat>, after: nat)
    requires s.state in STREAM && s.limit <= CARRY_FREE && after < TWO_32
    requires s.state in DECODE ==> s.bodySize <= s.limit
    requires match size
             case None => true
             case Some(v) => v < TWO_32 && (s.state in DECODE ==> s.bodySize + v > s.limit)
    ensures var t := Sized(s, size, after);
            t.state in {SkipBodyChunked, BadReq} && t.out == s.out && t.limit == s.limit && t.chnkd < TWO_32
  {
    if s.state in DECODE && size.Some? {
      assert (s.bodySize + size.value) % TWO_64 == s.bodySize + size.value;
    }
  }

  lemma SafeAfter(s: Decoder, t: Decoder)
    requires |s.out| <= s.limit <= CARRY_FREE && t.out == s.out && t.limit == s.limit && t.chnkd < TWO_32
    requires t.state in {SkipBodyChunked, BadReq}
    ensures Safe(t) && Exact(t)
  {
  }

  lemma AcceptedSafe(s: Decoder, v: nat, after: nat)
    requires s.state in DECODE && s.chnkd == 0 && Safe(s) && v < TWO_32 && s.bodySize + v <= s.limit
    ensures var t := Sized(s, Some(v), after);
            && Safe(t) && t.limit == s.limit && t.out == s.out
            && (Exact(s) && s.limit < TWO_32 - 2 ==> Exact(t))
            && (s.limit < TWO_32 - 1 ==> t.chnkd != 1)
  {
    SizeAccepted(s, v);
    assert (s.bodySize + v) % TWO_64 == s.bodySize + v;
  }

  lemma SizeAccepted(s: Decoder, v: nat)
    requires s.state in DECODE && s.chnkd == 0 && Safe(s) && v < TWO_32 && s.bodySize + v <= s.limit
    ensures var chnkd := (v + 2) % TWO_32;
            && |s.out| + Owed(chnkd) <= s.bodySize + v
            && (Exact(s) && s.limit < TWO_32 - 2 ==> chnkd != 1 && |s.out| + Owed(chnkd) == s.bodySize + v)
            && (s.limit < TWO_32 - 1 ==> chnkd != 1)
  {
  }

  lemma SizeBounds(line: bytes, before: nat)
    ensures match ChunkSize.SizeOf(line) case None => true case Some(v) => v < TWO_32
    ensures before < TWO_32 ==> ChunkSize.SizeAfter(line, before) < TWO_32
  {
  }

  lemma {:induction false} CallSafe(s: Decoder, phase: set<State>)
    requires Safe(s)
    ensures Safe(Call(s, phase)) && Call(s, phase).limit == s.limit
    ensures Exact(s) && s.limit < TWO_32 - 2 ==> Exact(Call(s, phase))
    decreases |s.wire|, s.state in STREAM
  {
    hide Step, Safe, Exact;
    if Enabled(s, phase) {
      StepSafe(s);
      if s.chnkd != 1 {
        CallSafe(Step(s), phase);
      }
    }
  }

  lemma {:induction false} FeedCallsSafe(s: Decoder, pieces: seq<bytes>, phase: set<State>)
    requires Safe(s)
    ensures Safe(FeedCalls(s, pieces, phase)) && FeedCalls(s, pieces, phase).limit == s.limit
    ensures Exact(s) && s.limit < TWO_32 - 2 ==> Exact(FeedCalls(s, pieces, phase))
    decreases |pieces|
  {
    if pieces != [] {
      hide Call;
      var t := Feed(s, pieces[0]);
      CallSafe(t, phase);
      FeedCallsSafe(Call(t, phase), pieces[1..], phase);
    }
  }

  /** The states between two calls, after any bytes in any split. */
  function Reached(limit: nat, state: State, pieces: seq<bytes>): Decoder {
    FeedCalls(Start(limit, state), pieces, DECODE)
  }

  /**
   * Body-limit safety on every run: for every wire and every split, the decoded bytes and those
   * still owed by the accepted chunk stay within the announced total, which stays within the limit.
   */
  lemma LimitSafety(limit: nat, state: State, pieces: seq<bytes>)
    requires state in DECODE && limit <= CARRY_FREE
    ensures Within(Reached(limit, state, pieces))
  {
    FeedCallsSafe(Start(limit, state), pieces, DECODE);
  }

  /**
   * The announced total is exactly the decoded bytes plus those still owed, on every run of an
   * upload or a CGI request, if and only if the limit refuses chunks of 2^32 - 2 bytes, which wrap
   * the counter to zero.
   */
  lemma ExactIff(limit: nat)
    ensures (forall state, pieces | state in DECODE :: Exact(Reached(limit, state, pieces))) <==> limit < 0xFFFF_FFFE
  {
    if limit < TWO_32 - 2 {
      forall state, pieces | state in DECODE
        ensures Exact(Reached(limit, state, pieces))
      {
        FeedCallsSafe(Start(limit, state), pieces, DECODE);
      }
    } else {
      WrapLosesCount(limit, CgiBodyChunked);
    }
  }

  /** A chunk of 2^32 - 2 bytes is announced, and nothing is owed. */
  lemma WrapLosesCount(limit: nat, state: State)
    requires limit >= TWO_32 - 2 && state in DECODE
    ensures !Exact(Reached(limit, state, [SizeLine(TWO_32 - 2)]))
  {
    hide StartChunk, EndChunk, FlatLine, HexPrint;
    var line := SizeLine(TWO_32 - 2);
    var s := Feed(Start(limit, state), line);
    assert line + [] == line;
    HugeLine(s, TWO_32 - 2, []);
    var t := Step(s);
    NoFurther(t);
    assert Call(s, DECODE) == Call(t, DECODE);
    var pieces: seq<bytes> := [line];
    assert pieces[1..] == [];
    assert FeedCalls(Call(s, DECODE), [], DECODE) == t;
  }

  lemma NoFurther(t: Decoder)
    requires t.state in STREAM && t.chnkd == 0 && t.wire == []
    ensures Call(t, DECODE) == t
  {
  }

  /** The size line of a huge chunk, as printed. */
  function SizeLine(n: nat): bytes {
    HexPrint(n) + CRLF
  }

  /** The two sizes that wrap the counter: 2^32 - 2 to zero and 2^32 - 1 to one. */
  lemma HugeLine(s: Decoder, n: nat, rest: bytes)
    requires TWO_32 - 2 <= n < TWO_32 && s.state in DECODE && s.chnkd == 0 && !s.last
    requires s.wire == SizeLine(n) + rest && (s.bodySize + n) % TWO_64 <= s.limit
    ensures CanStep(s)
    ensures Step(s) == s.(wire := rest, bodySize := (s.bodySize + n) % TWO_64, chnkd := n + 2 - TWO_32)
  {
    hide FlatLine, ChunkSize.SizeOf, ChunkSize.SizeAfter, HexPrint;
    HugeLineTaken(s.wire, n, rest);
  }

  lemma HugeLineTaken(wire: bytes, n: nat, rest: bytes)
    requires TWO_32 - 2 <= n < TWO_32 && wire == SizeLine(n) + rest
    ensures FlatLine(wire) == Line(|HexPrint(n)|) && |wire| >= |HexPrint(n)| + 2
    ensures ChunkSize.SizeOf(wire[..|HexPrint(n)|]) == Some(n) && wire[|HexPrint(n)| + 2..] == rest
  {
    hide FlatLine, ChunkSize.SizeOf, HexPrint;
    var line := HexPrint(n);
    ChunkSize.ScanUndoesPrint(n);
    assert wire == line + CRLF + rest;
    OnlyHex(line);
    ScanPrinted(line, rest);
    assert wire[..|line|] == line;
  }

  lemma OnlyHex(line: bytes)
    requires AllHex(line)
    ensures LF !in line
  {
  }

  // ----- fragmentation independence of the calls -----

  /** A limit below 2^32 - 1 keeps the counter away from 1 in every state the decoder can be in. */
  lemma {:induction false} LimitPreventsWrap(s: Decoder)
    requires Safe(s) && s.limit < TWO_32 - 1 && (s.state in DECODE ==> s.chnkd != 1)
    ensures NeverWraps(s, DECODE)
    ensures Run(s, DECODE).limit == s.limit && Safe(Run(s, DECODE))
    ensures Run(s, DECODE).state in DECODE ==> Run(s, DECODE).chnkd != 1
    decreases |s.wire|, s.state in STREAM
  {
    hide Step, Within;
    if Enabled(s, DECODE) {
      StepSafe(s);
      LimitPreventsWrap(Step(s));
    }
  }

  /** From any state between two calls, one call on `a + b` does what a call on `a` and one on `b` do. */
  ghost predicate SplitInvariant(s: Decoder) {
    forall a: bytes, b: bytes :: SplitInvariantFor(s, a, b)
  }

  predicate SplitInvariantFor(s: Decoder, a: bytes, b: bytes) {
    Call(Feed(Call(Feed(s, a), DECODE), b), DECODE) == Call(Feed(s, a + b), DECODE)
  }

  lemma ReachedNeverOne(s: Decoder, pieces: seq<bytes>)
    requires Safe(s) && s.limit < TWO_32 - 1 && (s.state in DECODE ==> s.chnkd != 1)
    ensures var r := FeedCalls(s, pieces, DECODE);
            Safe(r) && r.limit == s.limit && (r.state in DECODE ==> r.chnkd != 1)
    decreases |pieces|
  {
    if pieces != [] {
      var t := Feed(s, pieces[0]);
      LimitPreventsWrap(t);
      CallThenRun(t, DECODE);
      ReachedNeverOne(Call(t, DECODE), pieces[1..]);
    }
  }

  lemma SplitWithoutWrap(s: Decoder, a: bytes, b: bytes)
    requires NeverWraps(Feed(s, a + b), DECODE)
    ensures SplitInvariantFor(s, a, b)
  {
    var first := Feed(s, a);
    assert Feed(s, a + b) == Feed(first, b) by {
      assert s.wire + (a + b) == s.wire + a + b;
    }
    NeverWrapsSplit(first, b, DECODE);
    Fragmentation(first, b, DECODE);
    CallThenRun(first, DECODE);
    CallThenRun(Feed(first, b), DECODE);
    CallThenRun(Feed(Run(first, DECODE), b), DECODE);
  }

  /**
   * Fragmentation independence of the server's calls, for uploads and CGI requests and malformed
   * wires included, from every state they reach, if and only if the body limit is below 2^32 - 1.
   */
  lemma FragmentationIff(limit: nat)
    ensures (forall state, pieces | state in DECODE :: SplitInvariant(Reached(limit, state, pieces)))
       <==> limit < 0xFFFF_FFFF
  {
    hide Call, Run, NeverWraps, SplitInvariantFor;
    if limit < TWO_32 - 1 {
      forall state, pieces, a: bytes, b: bytes | state in DECODE
        ensures SplitInvariantFor(Reached(limit, state, pieces), a, b)
      {
        ReachedSplits(limit, state, pieces, a, b);
      }
    } else {
      WrapSplits(limit, BodyChunked);
      assert Reached(limit, BodyChunked, []) == Start(limit, BodyChunked);
      assert !SplitInvariant(Reached(limit, BodyChunked, []));
    }
  }

  lemma ReachedSplits(limit: nat, state: State, pieces: seq<bytes>, a: bytes, b: bytes)
    requires limit < TWO_32 - 1 && state in DECODE
    ensures SplitInvariantFor(Reached(limit, state, pieces), a, b)
  {
    hide Call, Run, NeverWraps, FeedCalls, SplitInvariantFor;
    var s := Reached(limit, state, pieces);
    ReachedNeverOne(Start(limit, state), pieces);
    LimitPreventsWrap(Feed(s, a + b));
    SplitWithoutWrap(s, a, b);
  }

  /** The size line `ffffffff` and `xyz`, cut before the last byte. */
  lemma WrapSplits(limit: nat, state: State)
    requires limit >= TWO_32 - 1 && state in DECODE
    ensures !SplitInvariantFor(Start(limit, state), SizeLine(TWO_32 - 1) + "xy", "z")
  {
    hide FlatLine, StartChunk, HexPrint;
    var s := Start(limit, state);
    var a: bytes, b: bytes := SizeLine(TWO_32 - 1) + "xy", "z";
    assert a + b == SizeLine(TWO_32 - 1) + "xyz";
    OneCall(Feed(s, a), "xy");
    OneCall(Feed(s, a + b), "xyz");
    var t := Call(Feed(s, a), DECODE);
    assert Step(Feed(t, b)).out == ['z'];
    assert Call(Feed(t, b), DECODE) == Call(Step(Feed(t, b)), DECODE);
    CallOutGrows(Step(Feed(t, b)), DECODE);
  }

  /** One call takes the size line 2^32 - 1 and two bytes, and stops. */
  lemma OneCall(s: Decoder, rest: bytes)
    requires s.state in DECODE && s.chnkd == 0 && !s.last && |rest| >= 2
    requires s.wire == SizeLine(TWO_32 - 1) + rest && (s.bodySize + TWO_32 - 1) % TWO_64 <= s.limit
    ensures Call(s, DECODE) ==
              s.(wire := rest[2..], bodySize := (s.bodySize + TWO_32 - 1) % TWO_64, chnkd := TWO_32 - 1)
  {
    hide FlatLine, StartChunk, HexPrint;
    HugeLine(s, TWO_32 - 1, rest);
    var t := Step(s);
    assert Call(s, DECODE) == Call(t, DECODE) == Step(t);
  }
}
