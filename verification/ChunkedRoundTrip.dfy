/** The decoder undoes the chunked coding of section 4.1 of RFC 7230, in every split. */
module ChunkedRoundTrip {
  import opened Bytes
  import opened Lines
  import opened Chunked
  import ChunkSize

  /**
   * A chunk as a peer may spell it: any size line for the length of the data, and any two bytes
   * behind the data, because the decoder does not look at them.
   */
  datatype Chunk = Chunk(size: bytes, data: bytes, tail: bytes)

  /** Any numeral, in either case of its digits. */
  predicate Spells(size: bytes, n: nat) {
    size != [] && |size| < LINE_MAX && Numeral(size, n)
  }

  predicate Valid(c: Chunk) {
    Spells(c.size, |c.data|) && |c.data| <= TWO_32 - 3 && |c.tail| == 2
  }

  function Encode(c: Chunk): bytes {
    c.size + CRLF + c.data + c.tail
  }

  function EncodeAll(chunks: seq<Chunk>): bytes {
    if chunks == [] then [] else Encode(chunks[0]) + EncodeAll(chunks[1..])
  }

  function Payload(chunks: seq<Chunk>): bytes {
    if chunks == [] then [] else chunks[0].data + Payload(chunks[1..])
  }

  /** Between two chunks. */
  predicate Ready(s: Decoder) {
    s.state in DECODE && s.chnkd == 0 && !s.last
  }

  /** The size line of a chunk is accepted when the body stays within its limit. */
  lemma SizeLineStep(s: Decoder, size: bytes, n: nat, rest: bytes)
    requires Ready(s) && Spells(size, n) && n <= TWO_32 - 3 && s.wire == size + CRLF + rest
    requires s.bodySize + n <= s.limit <= SIZE_T_MAX
    ensures CanStep(s)
    ensures Step(s) == s.(wire := rest, last := n == 0, bodySize := s.bodySize + n, chnkd := n + 2)
  {
    hide FlatLine, ChunkSize.SizeOf, ChunkSize.SizeAfter, Spells;
    SizeLineTaken(s.wire, size, n, rest);
  }

  lemma SizeLineTaken(wire: bytes, size: bytes, n: nat, rest: bytes)
    requires Spells(size, n) && n <= TWO_32 - 3 && wire == size + CRLF + rest
    ensures FlatLine(wire) == Line(|size|) && |size| + 2 <= |wire|
    ensures ChunkSize.SizeOf(wire[..|size|]) == Some(n) && wire[|size| + 2..] == rest
  {
    hide FlatLine, ChunkSize.SizeOf;
    NoLineFeed(size, n);
    ScanPrinted(size, rest);
    ChunkSize.SizeOfNumeral(size, n);
    assert wire[..|size|] == size;
  }

  lemma NoLineFeed(size: bytes, n: nat)
    requires Numeral(size, n)
    ensures LF !in size
  {
    NumeralIff(size, n);
  }

  /** The data of a chunk is moved byte by byte. */
  lemma {:induction false} DataSteps(s: Decoder, data: bytes, rest: bytes)
    requires s.state in DECODE && s.chnkd == |data| + 2 && s.wire == data + rest
    ensures Leads(s, s.(wire := rest, out := s.out + data, chnkd := 2), true)
    decreases |data|
  {
    hide FlatLine, StartChunk, EndChunk;
    if data == [] {
      assert s.wire == rest && s.out + data == s.out;
    } else {
      assert s.wire[1..] == data[1..] + rest;
      assert s.out + [data[0]] + data[1..] == s.out + data;
      DataSteps(Step(s), data[1..], rest);
    }
  }

  /** The two bytes behind the data end the chunk. */
  lemma TailStep(s: Decoder, tail: bytes, rest: bytes)
    requires s.state in DECODE && s.chnkd == 2 && s.wire == tail + rest && |tail| == 2
    ensures CanStep(s)
    ensures !s.last ==> Step(s) == s.(wire := rest, chnkd := 0)
    ensures s.last ==> Step(s) == s.(wire := rest, chnkd := 0, cntLen := s.bodySize, state := Hold)
  {
    assert s.wire[2..] == rest;
  }

  /** A state after a whole chunk, the last one when its size is zero. */
  function AfterChunk(s: Decoder, c: Chunk, rest: bytes): Decoder {
    var total := s.bodySize + |c.data|;
    if c.data == [] then s.(wire := rest, bodySize := total, chnkd := 0, last := true, cntLen := total, state := Hold)
    else s.(wire := rest, out := s.out + c.data, bodySize := total, chnkd := 0)
  }

  /** `t` lies on the run of `s`; `crlf` says that the terminators in between are CR LF. */
  predicate Leads(s: Decoder, t: Decoder, crlf: bool) {
    && Run(s, DECODE) == Run(t, DECODE) && (NeverWraps(t, DECODE) ==> NeverWraps(s, DECODE))
    && (crlf && Framed(t) ==> Framed(s))
  }

  lemma OneStepLeads(s: Decoder, crlf: bool)
    requires s.state in DECODE && CanStep(s) && s.chnkd != 1
    requires crlf && s.chnkd == 2 ==> s.wire[..2] == CRLF
    ensures Leads(s, Step(s), crlf)
  {
    hide FlatLine, StartChunk, EndChunk;
  }

  lemma ChunkSteps(s: Decoder, c: Chunk, rest: bytes)
    requires Ready(s) && Valid(c) && s.wire == Encode(c) + rest && s.bodySize + |c.data| <= s.limit <= SIZE_T_MAX
    ensures Leads(s, AfterChunk(s, c, rest), c.tail == CRLF)
  {
    hide Run, NeverWraps, Framed, FlatLine, StartChunk, Spells;
    var behind, crlf := c.data + (c.tail + rest), c.tail == CRLF;
    assert s.wire == c.size + CRLF + behind;
    SizeLineStep(s, c.size, |c.data|, behind);
    OneStepLeads(s, true);
    var s1 := Step(s);
    DataSteps(s1, c.data, c.tail + rest);
    var s2 := s1.(wire := c.tail + rest, out := s1.out + c.data, chnkd := 2);
    TailStep(s2, c.tail, rest);
    assert s2.wire[..2] == c.tail;
    OneStepLeads(s2, crlf);
    assert c.data == [] ==> s1.out + c.data == s.out;
    assert Step(s2) == AfterChunk(s, c, rest);
  }

  /** All terminators are CR LF. */
  predicate Terminated(chunks: seq<Chunk>) {
    forall i :: 0 <= i < |chunks| ==> chunks[i].tail == CRLF
  }

  predicate AllData(chunks: seq<Chunk>) {
    forall i :: 0 <= i < |chunks| ==> Valid(chunks[i]) && chunks[i].data != []
  }

  /** The state after a list of non-empty chunks. */
  function AfterAll(s: Decoder, chunks: seq<Chunk>, rest: bytes): Decoder {
    s.(wire := rest, out := s.out + Payload(chunks), bodySize := s.bodySize + |Payload(chunks)|)
  }

  lemma AfterCons(s: Decoder, chunks: seq<Chunk>, behind: bytes, rest: bytes)
    requires chunks != [] && chunks[0].data != [] && s.chnkd == 0
    ensures AfterAll(AfterChunk(s, chunks[0], behind), chunks[1..], rest) == AfterAll(s, chunks, rest)
  {
    assert s.out + chunks[0].data + Payload(chunks[1..]) == s.out + Payload(chunks);
  }

  lemma LeadsTrans(s: Decoder, t: Decoder, u: Decoder, crlf: bool, crlf': bool)
    requires Leads(s, t, crlf) && Leads(t, u, crlf')
    ensures Leads(s, u, crlf && crlf')
  {
  }

  /** Non-empty chunks are decoded one after the other. */
  lemma {:induction false} ChunksLead(s: Decoder, chunks: seq<Chunk>, rest: bytes)
    requires Ready(s) && AllData(chunks) && s.wire == EncodeAll(chunks) + rest
    requires s.bodySize + |Payload(chunks)| <= s.limit <= SIZE_T_MAX
    ensures Leads(s, AfterAll(s, chunks, rest), Terminated(chunks))
    decreases |chunks|
  {
    hide Leads;
    if chunks == [] {
      AfterNone(s, rest);
    } else {
      var t := FirstChunk(s, chunks, rest);
      ChunksLead(t, chunks[1..], rest);
      LeadsTrans(s, t, AfterAll(s, chunks, rest), chunks[0].tail == CRLF, Terminated(chunks[1..]));
    }
  }

  lemma AfterNone(s: Decoder, rest: bytes)
    requires s.wire == EncodeAll([]) + rest
    ensures AfterAll(s, [], rest) == s && Leads(s, s, true)
  {
    assert s.wire == rest && s.out + Payload([]) == s.out;
  }

  lemma FirstChunk(s: Decoder, chunks: seq<Chunk>, rest: bytes) returns (t: Decoder)
    requires Ready(s) && AllData(chunks) && s.wire == EncodeAll(chunks) + rest && chunks != []
    requires s.bodySize + |Payload(chunks)| <= s.limit <= SIZE_T_MAX
    ensures Leads(s, t, chunks[0].tail == CRLF) && AfterAll(t, chunks[1..], rest) == AfterAll(s, chunks, rest)
    ensures Ready(t) && t.wire == EncodeAll(chunks[1..]) + rest
    ensures t.bodySize + |Payload(chunks[1..])| <= t.limit
  {
    hide Encode, Run, NeverWraps, Spells;
    var behind := EncodeAll(chunks[1..]) + rest;
    assert s.wire == Encode(chunks[0]) + behind;
    ChunkSteps(s, chunks[0], behind);
    AfterCons(s, chunks, behind, rest);
    t := AfterChunk(s, chunks[0], behind);
  }

  lemma HoldEnds(s: Decoder)
    requires s.state == Hold
    ensures Run(s, DECODE) == s && NeverWraps(s, DECODE) && Framed(s)
  {
  }

  /**
   * Any list of non-empty chunks and a last chunk of size zero, followed by any suffix, decodes
   * to the concatenated data, and leaves exactly the suffix.
   */
  lemma DecodeAll(s: Decoder, chunks: seq<Chunk>, end: Chunk, suffix: bytes)
    requires Ready(s) && s.wire == EncodeAll(chunks) + Encode(end) + suffix
    requires AllData(chunks) && Valid(end) && end.data == []
    requires s.bodySize + |Payload(chunks)| <= s.limit <= SIZE_T_MAX
    ensures NeverWraps(s, DECODE) && (Terminated(chunks) && end.tail == CRLF ==> Framed(s))
    ensures var total := s.bodySize + |Payload(chunks)|;
            Run(s, DECODE) == s.(wire := suffix, out := s.out + Payload(chunks), chnkd := 0, last := true,
              bodySize := total, cntLen := total, state := Hold)
  {
    hide Run, NeverWraps, Framed;
    var t := BeforeEnd(s, chunks, end, suffix);
    var u := AfterChunk(t, end, suffix);
    LeadsTrans(s, t, u, Terminated(chunks), end.tail == CRLF);
    HoldEnds(u);
  }

  /**
   * A line that is no size, where one is due, ends the decoding: the chunks before it are decoded, it
   * is taken, and the answer is 400.
   */
  lemma BadLineStops(s: Decoder, chunks: seq<Chunk>, line: bytes, rest: bytes)
    requires Ready(s) && s.wire == EncodeAll(chunks) + (line + "\r\n" + rest) && AllData(chunks)
    requires s.bodySize + |Payload(chunks)| <= s.limit <= SIZE_T_MAX
    requires LF !in line && |line| < 8192
    requires line == [] || exists i :: 0 <= i < |line| && line[i] !in "0123456789ABCDEFabcdef"
    ensures var t := Run(s, DECODE);
            && t.state == BadReq && t.reply == BadRequest && t.wire == rest && t.out == s.out + Payload(chunks)
            && !t.last && t.cut == s.cut
  {
    hide Run, NeverWraps, Framed;
    ChunksLead(s, chunks, line + "\r\n" + rest);
    var u := AfterAll(s, chunks, line + "\r\n" + rest);
    BadLine(u, line, rest);
    StepEnds(u);
  }

  lemma BadLine(u: Decoder, line: bytes, rest: bytes)
    requires Ready(u) && u.wire == line + "\r\n" + rest && LF !in line && |line| < 8192 && u.bodySize <= u.limit
    requires line == [] || exists i :: 0 <= i < |line| && line[i] !in "0123456789ABCDEFabcdef"
    ensures CanStep(u)
    ensures var t := Step(u);
            && t.state == BadReq && t.reply == BadRequest && t.wire == rest && t.out == u.out
            && t.last == u.last && t.cut == u.cut
  {
    hide ChunkSize.SizeOf, ChunkSize.SizeAfter, FlatLine;
    LineFoundIff(line, rest);
    ChunkSize.SizeOfRefuses(line);
    assert u.wire[..|line|] == line && u.wire[|line| + 2..] == rest;
  }

  lemma StepEnds(u: Decoder)
    requires u.state in DECODE && CanStep(u) && Step(u).state !in DECODE
    ensures Run(u, DECODE) == Step(u)
  {
    hide Step, CanStep;
  }

  lemma BeforeEnd(s: Decoder, chunks: seq<Chunk>, end: Chunk, suffix: bytes) returns (t: Decoder)
    requires Ready(s) && s.wire == EncodeAll(chunks) + Encode(end) + suffix
    requires AllData(chunks) && Valid(end) && end.data == []
    requires s.bodySize + |Payload(chunks)| <= s.limit <= SIZE_T_MAX
    ensures t == AfterAll(s, chunks, Encode(end) + suffix) && Leads(s, t, Terminated(chunks))
    ensures Leads(t, AfterChunk(t, end, suffix), end.tail == CRLF)
  {
    var rest := Encode(end) + suffix;
    assert s.wire == EncodeAll(chunks) + rest;
    ChunksLead(s, chunks, rest);
    t := AfterAll(s, chunks, rest);
    ChunkSteps(t, end, suffix);
  }

  /** The coding as a sender prints it: shortest hexadecimal sizes and CR LF everywhere. */
  function Print(data: bytes): Chunk {
    Chunk(HexPrint(|data|), data, CRLF)
  }

  function PrintAll(body: seq<bytes>): seq<Chunk> {
    seq(|body|, i requires 0 <= i < |body| => Print(body[i]))
  }

  function ChunkedCoding(body: seq<bytes>): bytes {
    EncodeAll(PrintAll(body)) + Encode(Print([]))
  }

  lemma PrintedPayload(body: seq<bytes>)
    ensures Payload(PrintAll(body)) == Concat(body)
    decreases |body|
  {
    if body != [] {
      assert PrintAll(body)[1..] == PrintAll(body[1..]);
      PrintedPayload(body[1..]);
    }
  }

  lemma PrintedValid(data: bytes)
    requires |data| <= TWO_32 - 3
    ensures Valid(Print(data))
  {
    ChunkSize.ScanUndoesPrint(|data|);
  }

  /** A printed body, from any state between two chunks. */
  lemma DecodePrinted(s: Decoder, body: seq<bytes>, suffix: bytes)
    requires Ready(s) && s.wire == ChunkedCoding(body) + suffix
    requires forall i :: 0 <= i < |body| ==> 0 < |body[i]| <= TWO_32 - 3
    requires s.bodySize + |Concat(body)| <= s.limit <= SIZE_T_MAX
    ensures NeverWraps(s, DECODE) && Framed(s)
    ensures var total := s.bodySize + |Concat(body)|;
            Run(s, DECODE) == s.(wire := suffix, out := s.out + Concat(body), chnkd := 0, last := true,
              bodySize := total, cntLen := total, state := Hold)
  {
    hide Run, NeverWraps, Framed, Encode, Valid;
    PrintedPayload(body);
    PrintedAll(body);
    PrintedValid([]);
    DecodeAll(s, PrintAll(body), Print([]), suffix);
  }

  lemma PrintedAll(body: seq<bytes>)
    requires forall i :: 0 <= i < |body| ==> 0 < |body[i]| <= TWO_32 - 3
    ensures AllData(PrintAll(body)) && Terminated(PrintAll(body))
  {
    forall i | 0 <= i < |body|
      ensures Valid(PrintAll(body)[i])
    {
      PrintedValid(body[i]);
    }
  }

  lemma NothingYet(s: Decoder)
    requires Ready(s) && s.wire == []
    ensures !Enabled(s, DECODE)
  {
  }

  /**
   * The round trip: a printed body followed by the first bytes of the next request, delivered in
   * any pieces with one call after each, is decoded exactly, and only the suffix is left.
   */
  lemma RoundTrip(limit: nat, state: State, body: seq<bytes>, suffix: bytes, pieces: seq<bytes>)
    requires state in DECODE
    requires forall i :: 0 <= i < |body| ==> 0 < |body[i]| <= TWO_32 - 3
    requires |Concat(body)| <= limit <= SIZE_T_MAX
    requires Concat(pieces) == ChunkedCoding(body) + suffix
    ensures FeedCalls(Start(limit, state), pieces, DECODE)
         == Decoder(suffix, Concat(body), 0, true, |Concat(body)|, limit, |Concat(body)|, Hold, false, NoReply, false)
  {
    hide Run, NeverWraps, FeedCalls, Encode, EncodeAll, Print, PrintAll, Enabled;
    var s := Start(limit, state);
    var all := Feed(s, Concat(pieces));
    assert all.wire == ChunkedCoding(body) + suffix;
    DecodePrinted(all, body, suffix);
    assert all.out + Concat(body) == Concat(body);
    NothingYet(s);
    CallsAreRun(s, pieces, DECODE);
  }
}
