/**
 * The body states of a client connection, on the server's own buffers.  Every method is proved
 * against the machines of `Chunked` and `Transfer`.
 */
module Clients {
  import opened Bytes
  import opened Lines
  import opened Memory
  import opened Buffer
  import opened Chunked
  import ChunkSize
  import ChunkedRoundTrip
  import Closing
  import CutBodies
  import ReadBuffer
  import opened ChunkedLimits
  import KnownLength
  import Transfer
  import Unframed

  // ----- whole moves as steps -----

  /** `k` data bytes are consumed. */
  function Taken(s: Decoder, k: nat): Decoder
    requires k <= |s.wire| && k <= s.chnkd
  {
    var out := if s.state in DECODE then s.out + s.wire[..k] else s.out;
    s.(wire := s.wire[k..], out := out, chnkd := s.chnkd - k)
  }

  lemma TakenIs(s: Decoder, k: nat)
    requires k <= |s.wire| && k <= s.chnkd
    ensures Taken(s, k) == Decoder(s.wire[k..], if s.state in DECODE then s.out + s.wire[..k] else s.out, s.chnkd - k,
              s.last, s.bodySize, s.limit, s.cntLen, s.state, s.finished, s.reply, s.cut)
  {
  }

  lemma TakeOne(s: Decoder, phase: set<State>)
    requires s.state in phase && s.state in STREAM && s.chnkd > 2 && s.wire != []
    ensures Call(s, phase) == Call(Taken(s, 1), phase)
  {
    hide FlatLine, StartChunk, EndChunk;
    assert s.wire[..1] == [s.wire[0]];
    assert Step(s) == Taken(s, 1);
  }

  lemma TakenMore(s: Decoder, k: nat)
    requires 0 < k <= |s.wire| && k <= s.chnkd
    ensures Taken(s, k) == Taken(Taken(s, 1), k - 1)
  {
    assert s.wire[..1] + s.wire[1..][..k - 1] == s.wire[..k];
  }

  lemma TakenNone(s: Decoder)
    ensures Taken(s, 0) == s
  {
    assert s.wire[0..] == s.wire && s.wire[..0] == [];
  }

  /** Data that is moved or dropped at once is data taken byte by byte. */
  lemma {:induction false} TakeMany(s: Decoder, k: nat, phase: set<State>)
    requires s.state in phase && s.state in STREAM && s.chnkd > 2
    requires k <= |s.wire| && k <= s.chnkd - 2
    ensures Call(s, phase) == Call(Taken(s, k), phase)
    decreases k
  {
    hide Call;
    if k == 0 {
      TakenNone(s);
    } else {
      TakeOne(s, phase);
      TakenMore(s, k);
      if k == 1 {
        TakenNone(Taken(s, 1));
      } else {
        TakeMany(Taken(s, 1), k - 1, phase);
      }
    }
  }

  lemma ExtendsTrans(a: map<bytes, bytes>, b: map<bytes, bytes>, c: map<bytes, bytes>)
    ensures ChunkSize.Extends(a, b) && ChunkSize.Extends(b, c) ==> ChunkSize.Extends(a, c)
    ensures ChunkSize.Extends(a, a)
  {
  }

  lemma AppendLast(a: bytes, b: bytes, c: bytes, d: bytes)
    ensures a + b + (c + d) == a + b + c + d
  {
  }

  lemma AppendMiddle(a: bytes, b: bytes, d: bytes)
    ensures a + (b + d) + [] == a + b + [] + d
  {
  }

  lemma NothingBetween(a: bytes, b: bytes)
    ensures a + [] + b == a + b
  {
  }

  lemma MoveAll(a: bytes, b: bytes, c: bytes, n: nat)
    requires n <= |c|
    ensures a + (b + c[..n]) + c[n..] == a + b + c
  {
    assert c[..n] + c[n..] == c;
  }

  /** A block set apart from two queues stays apart when only those two exchange blocks. */
  lemma StaysApart<T>(live: set<T>, a: set<T>, b: set<T>, c: set<T>, live': set<T>, a': set<T>, b': set<T>)
    requires c <= live && c !! a && c !! b
    requires live' - a' - b' == live - a - b
    ensures c <= live' && c !! a' && c !! b'
    ensures live' - (a' + b' + c) == live - (a + b + c)
  {
    assert c <= live - a - b;
    assert live - (a + b + c) == live - a - b - c;
    assert live' - (a' + b' + c) == live' - a' - b' - c;
  }

  lemma AnyOrder<T>(live: set<T>, a: set<T>, b: set<T>, c: set<T>)
    ensures live - (a + b + c) == live - (a + c + b) == live - (c + a + b)
  {
    assert a + b + c == a + c + b == c + a + b;
  }

  /**
   * What the event loop reports, and what the kernel answers: `writev` takes `count` bytes or fails;
   * a part of the response has been written, or its end.
   */
  datatype Occasion =
    | CanRead(answer: ReadBuffer.Answer) | CanWrite(count: nat) | WriteFailed | ResponsePart | ResponseDone

  /** What `readv` may answer. */
  predicate Readable(rdbuf: ReadBuffer.SpxReadBuffer, answer: ReadBuffer.Answer) {
    match answer
    case Failed(code) => code <= 0
    case Arrived(data) => 0 < |data| <= rdbuf.vecSize * rdbuf.segment
  }

  /** Counts fit an `int`, and a read the pool. */
  predicate Possible(rdbuf: ReadBuffer.SpxReadBuffer, o: Occasion) {
    match o
    case CanRead(answer) => Readable(rdbuf, answer)
    case CanWrite(count) => count < TWO_32 / 2
    case _ => true
  }

  /** What an occasion is to the transfer.  Where nothing more can be delivered, a delivery has no effect. */
  function EventOf(o: Occasion): seq<Transfer.Event> {
    match o
    case CanRead(answer) => if answer.Arrived? then [Transfer.Received(answer.data)] else []
    case CanWrite(count) => [Transfer.Delivered(count)]
    case WriteFailed => []
    case ResponsePart => [Transfer.Received([])]
    case ResponseDone => [Transfer.Responded]
  }

  /** One by one. */
  function Events(os: seq<Occasion>): seq<Transfer.Event> {
    if os == [] then [] else EventOf(os[0]) + Events(os[1..])
  }

  function DataOf(o: Occasion): bytes {
    if o.CanRead? && o.answer.Arrived? then o.answer.data else []
  }

  function DataRead(os: seq<Occasion>): seq<bytes> {
    if os == [] then [] else [DataOf(os[0])] + DataRead(os[1..])
  }

  class Client {
    const heap: Heap
    /** `_buf`, the bytes received and not consumed. */
    const buf: SpxBuffer
    /** `_chnkd_body`, the decoded bytes of a chunked body. */
    const chnkdBody: SpxBuffer
    /** `_body_buf` of an upload, `_to_cgi` of a CGI request. */
    const bodyBuf: SpxBuffer
    /** The uploaded file or the pipe to the CGI process. */
    const sink: Descriptor
    const cgi: bool

    var isChnkd: bool
    var chnkdSize: nat
    var firstChnkd: bool
    var lastChnkd: bool
    var bodySize: nat
    var bodyRead: nat
    var bodyLimit: nat
    var cntLen: nat
    var cgiRead: nat
    var header: map<bytes, bytes>
    var state: State
    var writeFinished: bool
    var reply: Reply
    var closed: bool
    /** The body went over its limit; an upload has lost its file and its write events. */
    var cut: bool
    /** An upload without a length and without a coding. */
    ghost var unframed: bool

    /** The queues are well formed and share no block. */
    ghost predicate Queues()
      reads heap, buf, chnkdBody, bodyBuf
    {
      && buf.heap == heap && chnkdBody.heap == heap && bodyBuf.heap == heap
      && buf != chnkdBody && buf != bodyBuf && chnkdBody != bodyBuf
      && buf.Valid() && chnkdBody.Valid() && bodyBuf.Valid()
      && Bases(buf.buf) !! Bases(chnkdBody.buf)
      && Bases(buf.buf) !! Bases(bodyBuf.buf)
      && Bases(chnkdBody.buf) !! Bases(bodyBuf.buf)
      && Longest(buf.View()) <= LINE_MAX + 1
    }

    ghost predicate Valid()
      reads this, heap, buf, chnkdBody, bodyBuf
    {
      Queues() && chnkdSize < TWO_32 && (state in STREAM && lastChnkd ==> chnkdSize == 2)
    }

    /** The bytes received and not consumed. */
    ghost function Wire(): bytes
      requires Queues()
      reads heap, buf, chnkdBody, bodyBuf, Bases(buf.View())
    {
      buf.Content()
    }

    /** Everything decoded so far: delivered, or waiting in one of the two queues. */
    ghost function Decoded(): bytes
      requires Queues()
      reads heap, sink, buf, chnkdBody, bodyBuf, Bases(chnkdBody.View()), Bases(bodyBuf.View())
    {
      sink.received + bodyBuf.Content() + chnkdBody.Content()
    }

    ghost function Abs(): Decoder
      requires Valid()
      reads this, heap, sink, buf, chnkdBody, bodyBuf
      reads Bases(buf.View()), Bases(chnkdBody.View()), Bases(bodyBuf.View())
    {
      Decoder(Wire(), Decoded(), chnkdSize, lastChnkd, bodySize, bodyLimit, cntLen, state, writeFinished, reply, cut)
    }

    lemma AbsIs()
      requires Valid()
      ensures var s := Abs();
              && s.wire == Wire() && s.chnkd == chnkdSize && s.last == lastChnkd
              && s.state == state && s.finished == writeFinished && s.cut == cut
              && (s.state in STREAM && s.last ==> s.chnkd == 2)
    {
      hide Queues, Wire, Decoded;
    }

    lemma AbsParts()
      requires Valid()
      ensures Abs() == Decoder(Wire(), Decoded(), chnkdSize, lastChnkd, bodySize, bodyLimit, cntLen, state,
                               writeFinished, reply, cut)
    {
    }

    /** The blocks of the three queues. */
    ghost function Held(): set<array<byte>>
      reads buf, chnkdBody, bodyBuf
    {
      Bases(buf.buf) + Bases(chnkdBody.buf) + Bases(bodyBuf.buf)
    }

    /** The live blocks of others. */
    ghost function Free(): set<array<byte>>
      reads heap, buf, chnkdBody, bodyBuf
    {
      heap.live - Held()
    }

    /**
     * The chunk routines leave the counters of the transfer and the blocks of others alone, and
     * only add to the header.
     */
    twostate predicate SameCounters()
      reads this, heap, buf, chnkdBody, bodyBuf
    {
      && Free() == old(Free())
      && isChnkd == old(isChnkd) && unframed == old(unframed)
      && bodyRead == old(bodyRead) && cgiRead == old(cgiRead) && closed == old(closed)
      && ChunkSize.Extends(old(header), header)
    }

    /** A client with no request: nothing received, every field as `ReqField::clear_` leaves it. */
    constructor (heap: Heap, sink: Descriptor, cgi: bool)
      requires sink.received == []
      ensures Valid() && this.heap == heap && this.sink == sink && this.cgi == cgi
      ensures fresh(buf) && fresh(chnkdBody) && fresh(bodyBuf)
      ensures Abs() == Start(SIZE_T_MAX, LineParsing) && bodyRead == cgiRead == 0 && !isChnkd && !closed && !unframed
    {
      hide SpxBuffer.Content, SpxBuffer.Valid;
      this.heap, this.sink, this.cgi := heap, sink, cgi;
      buf := new SpxBuffer(heap);
      chnkdBody := new SpxBuffer(heap);
      bodyBuf := new SpxBuffer(heap);
      isChnkd, chnkdSize, firstChnkd, lastChnkd := false, 0, true, false;
      bodySize, bodyRead, bodyLimit, cntLen, cgiRead := 0, 0, SIZE_T_MAX, SIZE_T_MAX, 0;
      header, state, writeFinished, reply, closed, cut := map[], LineParsing, false, NoReply, false, false;
      unframed := false;
      new;
      AllEmpty();
      hide Queues, Wire, Decoded;
    }

    lemma AllEmpty()
      requires buf.heap == chnkdBody.heap == bodyBuf.heap == heap
      requires buf != chnkdBody && buf != bodyBuf && chnkdBody != bodyBuf
      requires buf.buf == chnkdBody.buf == bodyBuf.buf == [] && sink.received == []
      requires buf.bufSize == chnkdBody.bufSize == bodyBuf.bufSize == 0
      requires buf.partialPoint == chnkdBody.partialPoint == bodyBuf.partialPoint == 0
      ensures Queues() && Wire() == [] && Decoded() == []
    {
      assert buf.View() == [];
    }

    /** The queues stay as they are while only fields of the connection are written. */
    twostate lemma SameQueues()
      requires old(Queues())
      requires unchanged(heap) && unchanged(buf) && unchanged(chnkdBody) && unchanged(bodyBuf) && unchanged(sink)
      requires forall i :: 0 <= i < |buf.buf| ==> old(buf.buf[i].base[..]) == buf.buf[i].base[..]
      requires forall i :: 0 <= i < |chnkdBody.buf| ==> old(chnkdBody.buf[i].base[..]) == chnkdBody.buf[i].base[..]
      requires forall i :: 0 <= i < |bodyBuf.buf| ==> old(bodyBuf.buf[i].base[..]) == bodyBuf.buf[i].base[..]
      ensures Queues() && Wire() == old(Wire()) && Decoded() == old(Decoded())
      ensures chnkdBody.Content() == old(chnkdBody.Content()) && bodyBuf.Content() == old(bodyBuf.Content())
    {
      buf.Untouched();
      chnkdBody.Untouched();
      bodyBuf.Untouched();
    }

    // ----- the buffer operations on a connection -----

    /** Moves received bytes to the decoded queue. */
    method MoveWire(size: nat) returns (n: nat)
      requires Queues()
      modifies heap, buf, chnkdBody
      ensures Queues() && Free() == old(Free())
      ensures n == Min(size, |old(Wire())|)
      ensures Wire() == old(Wire())[n..] && Decoded() == old(Decoded()) + old(Wire())[..n]
    {
      hide SpxBuffer.Content;
      buf.ContentLength();
      AppendLast(sink.received, bodyBuf.Content(), chnkdBody.Content(), buf.Content()[..Min(size, buf.bufSize)]);
      n := buf.Move(chnkdBody, size);
      StaysApart(old(heap.live), old(Bases(buf.buf)), old(Bases(chnkdBody.buf)), Bases(bodyBuf.buf),
                 heap.live, Bases(buf.buf), Bases(chnkdBody.buf));
      bodyBuf.StillValid();
      bodyBuf.Same();
    }

    lemma WireLength()
      requires Queues()
      ensures |Wire()| == buf.bufSize && (buf.bufSize > 0 ==> buf.buf != [])
    {
      buf.ContentLength();
    }

    /** Drops received bytes. */
    method DropWire(size: nat) returns (n: nat)
      requires Queues()
      modifies heap, buf
      ensures Queues() && Free() == old(Free())
      ensures n == Min(size, |old(Wire())|)
      ensures Wire() == old(Wire())[n..] && Decoded() == old(Decoded())
    {
      hide SpxBuffer.Content, Longest;
      buf.ContentLength();
      n := buf.DeleteSize(size);
      chnkdBody.StillValid();
      bodyBuf.StillValid();
      chnkdBody.Same();
      bodyBuf.Same();
    }

    /** Extracts a line from the received bytes. */
    method TakeWireLine() returns (r: int, line: bytes)
      requires Queues()
      modifies heap, buf
      ensures Queues() && Decoded() == old(Decoded()) && Free() == old(Free())
      ensures match FlatLine(old(Wire()))
              case Line(n) => r == 1 && line == old(Wire())[..n] && Wire() == old(Wire())[n + 2..]
              case _ => r != 1 && Wire() == old(Wire())
    {
      FlatScan(buf);
      r, line := buf.GetCrlfLine([], LINE_MAX);
      chnkdBody.StillValid();
      bodyBuf.StillValid();
      chnkdBody.Same();
      bodyBuf.Same();
    }

    method SetChunkSize(size: nat)
      requires Queues()
      modifies this`chnkdSize
      ensures Queues() && Wire() == old(Wire()) && Decoded() == old(Decoded())
      ensures chnkdSize == size
    {
      chnkdSize := size;
      SameQueues();
    }

    method SetChunk(size: nat, last: bool, total: nat, ext: map<bytes, bytes>)
      requires Queues()
      modifies this`chnkdSize, this`lastChnkd, this`bodySize, this`header
      ensures Queues() && Wire() == old(Wire()) && Decoded() == old(Decoded())
      ensures chnkdSize == size && lastChnkd == last && bodySize == total && header == ext
    {
      chnkdSize, lastChnkd, bodySize, header := size, last, total, ext;
      SameQueues();
    }

    method SetState(state': State, reply': Reply, size: nat, length: nat)
      requires Queues()
      modifies this`state, this`reply, this`bodySize, this`cntLen
      ensures Queues() && Wire() == old(Wire()) && Decoded() == old(Decoded())
      ensures state == state' && reply == reply' && bodySize == size && cntLen == length
      ensures chnkdBody.Content() == old(chnkdBody.Content()) && bodyBuf.Content() == old(bodyBuf.Content())
    {
      hide Queues, Wire, Decoded, SpxBuffer.Content;
      state, reply, bodySize, cntLen := state', reply', size, length;
      SameQueues();
    }

    // ----- chunked_body_ -----

    /** The data part of `chunked_body_can_parse_chnkd_`. */
    method MoveData() returns (ghost n: nat)
      requires Valid() && state in DECODE && chnkdSize > 2
      modifies this`chnkdSize, heap, buf, chnkdBody
      ensures Valid() && n == Min(old(chnkdSize) - 2, |old(Wire())|)
      ensures Abs() == Taken(old(Abs()), n) && Free() == old(Free())
    {
      hide SpxBuffer.Content, SpxBuffer.Valid, Queues, Wire, Decoded, Free, Abs, Taken;
      ghost var s := Abs();
      AbsParts();
      var k := MoveWire(chnkdSize - 2);
      n := k;
      SetChunkSize(chnkdSize - k);
      AbsParts();
      TakenIs(s, n);
    }

    /** Drops the end of a chunk, and of the body when the chunk was the last. */
    method DropEnd(complete: State)
      requires Valid() && 0 < chnkdSize <= 2 && |Wire()| >= 2 && complete !in STREAM
      modifies this, heap, buf
      ensures Valid()
      ensures var s := old(Abs());
              var size := (s.chnkd + TWO_32 - 2) % TWO_32;
              Abs() == if s.last then s.(wire := s.wire[2..], chnkd := size, state := complete, cntLen := s.bodySize)
                       else s.(wire := s.wire[2..], chnkd := size)
      ensures SameCounters()
    {
      hide Queues, Wire, Decoded, SpxBuffer.Content, SpxBuffer.Valid, ChunkSize.Extends, Free;
      ExtendsTrans(header, header, header);
      var n := DropWire(2);
      SetChunkSize((chnkdSize + TWO_32 - n) % TWO_32);
      if lastChnkd {
        SetState(complete, reply, bodySize, bodySize);
      }
    }

    /** The end of `chunked_body_can_parse_chnkd_`: two bytes are dropped, whatever they are. */
    method TakeEnd() returns (r: bool)
      requires Valid() && state in DECODE && 0 < chnkdSize <= 2
      modifies this, heap, buf
      ensures Valid()
      ensures r <==> |old(Wire())| >= 2
      ensures Abs() == if r then EndChunk(old(Abs())) else old(Abs())
      ensures SameCounters()
    {
      hide Queues, Wire, Decoded;
      WireLength();
      if buf.bufSize >= 2 {
        DropEnd(Hold);
        return true;
      }
      return false;
    }

    /** `chunked_body_can_parse_chnkd_` */
    method CanParseChnkd() returns (r: bool)
      requires Valid() && state in DECODE && chnkdSize > 0
      modifies this, heap, buf, chnkdBody
      ensures Valid()
      ensures SameCounters()
      ensures r && chnkdSize == 0 ==> Call(old(Abs()), DECODE) == Call(Abs(), DECODE) && |Wire()| < |old(Wire())|
      ensures r && chnkdSize == 0 ==> if lastChnkd then state == Hold else state in DECODE
      ensures !(r && chnkdSize == 0) ==> Call(old(Abs()), DECODE) == Abs() && state in DECODE
    {
      hide Queues, Wire, Decoded, Abs, Call, Taken, EndChunk, ChunkSize.Extends;
      ExtendsTrans(header, header, header);
      AbsIs();
      ghost var s := Abs();
      ghost var t := s;
      if chnkdSize > 2 {
        ghost var n := MoveData();
        AbsIs();
        t := Abs();
        DataPart(s, n, DECODE);
        if chnkdSize != 2 {
          return true;
        }
      }
      r := TakeEnd();
      AbsIs();
      EndPart(t, Abs(), r);
    }

    /** The scanner, called on a line that was taken. */
    method ScanSize(line: bytes) returns (ok: bool, size: nat, ext: map<bytes, bytes>)
      requires Queues()
      ensures Queues() && Wire() == old(Wire()) && Decoded() == old(Decoded())
      ensures ok <==> ChunkSize.SizeOf(line).Some?
      ensures ok ==> Some(size) == ChunkSize.SizeOf(line) && ext == header
      ensures ChunkSize.Extends(header, ext)
      ensures size == ChunkSize.SizeAfter(line, chnkdSize) && (chnkdSize < TWO_32 ==> size < TWO_32)
    {
      ok, size, ext := ChunkSize.StartLine(line, chnkdSize, header);
      SameQueues();
    }

    /** The end of the loop of `chunked_body_`: a size line is taken, if there is one. */
    method TakeSizeLine() returns (go: bool)
      requires Valid() && state in DECODE && chnkdSize == 0
      modifies this, heap, buf
      ensures Valid()
      ensures FlatLine(old(Wire())).Line? ==> Abs() == StartChunk(old(Abs())) && (go <==> state in DECODE)
      ensures !FlatLine(old(Wire())).Line? ==> Abs() == old(Abs()) && !go
      ensures SameCounters() && (go ==> header == old(header))
    {
      hide Queues, Wire, Decoded, FlatLine, StartChunk, Sized, ChunkSize.SizeOf, ChunkSize.SizeAfter;
      ghost var s := Abs();
      var r, line := TakeWireLine();
      if r != 1 {
        return false;
      }
      var ok, size, ext := ScanSize(line);
      SizeLineMeans(s, ok, size);
      go := KeepSize(ok, size, ext);
    }

    /** What is done with a scanned size: the limit comes before the error of the scanner. */
    method KeepSize(ok: bool, size: nat, ext: map<bytes, bytes>) returns (go: bool)
      requires Valid() && state in DECODE && chnkdSize == 0 && size < TWO_32
      modifies this`chnkdSize, this`lastChnkd, this`bodySize, this`header, this`state, this`reply, this`cntLen, this`cut
      ensures Valid() && Abs() == Sized(old(Abs()), if ok then Some(size) else None, size) && header == ext
      ensures go <==> state in DECODE
      ensures go ==> ok
    {
      hide Queues, Wire, Decoded;
      if ok {
        SetChunk((size + 2) % TWO_32, lastChnkd || size == 0, (bodySize + size) % TWO_64, ext);
      } else {
        SetChunk(size, lastChnkd, bodySize, ext);
      }
      go := false;
      if bodySize > bodyLimit {
        OverLimit();
      } else if !ok {
        BadRequestReply();
      } else {
        go := true;
      }
    }

    /** The error response that keeps the connection, when the body is over its limit. */
    method OverLimit()
      requires Valid() && state in DECODE
      modifies this`state, this`reply, this`bodySize, this`cntLen, this`cut
      ensures Valid() && Abs() == TooLarge(old(Abs()))
    {
      hide SpxBuffer.Content, SpxBuffer.Valid;
      SetCut();
      SetState(SkipBodyChunked, PayloadTooLarge, SIZE_T_MAX, cntLen);
    }

    method SetCut()
      requires Queues()
      modifies this`cut
      ensures Queues() && Wire() == old(Wire()) && Decoded() == old(Decoded())
      ensures cut
    {
      cut := true;
      SameQueues();
    }

    method BadRequestReply()
      requires Valid()
      modifies this`state, this`reply, this`bodySize, this`cntLen
      ensures Valid() && Abs() == Fail(old(Abs()))
    {
      hide SpxBuffer.Content, SpxBuffer.Valid;
      SetState(BadReq, BadRequest, bodySize, cntLen);
    }

    /** `chunked_body_`: one call consumes what `Call` consumes, and tells whether the body is complete. */
    method ChunkedBody() returns (r: bool)
      requires Valid() && state in DECODE
      modifies this, heap, buf, chnkdBody
      ensures Valid() && Abs() == Call(old(Abs()), DECODE)
      ensures r <==> state == Hold
      ensures SameCounters()
    {
      hide Queues, Wire, Decoded, FlatLine, Call, StartChunk, ChunkSize.Extends;
      ExtendsTrans(header, header, header);
      SetFirst();
      ghost var s := Abs();
      while true
        invariant Valid() && state in DECODE && Call(Abs(), DECODE) == Call(s, DECODE)
        invariant SameCounters()
        decreases |Wire()|
      {
        ghost var h := header;
        if chnkdSize != 0 {
          var parsed := CanParseChnkd();
          ExtendsTrans(old(header), h, header);
          if !parsed || chnkdSize != 0 {
            return false;
          }
          if lastChnkd {
            CallEnds(Abs(), DECODE);
            return true;
          }
        }
        ghost var t := Abs();
        h := header;
        var go := TakeSizeLine();
        ExtendsTrans(old(header), h, header);
        SizeLineCall(t, DECODE);
        CallEnds(Abs(), DECODE);
        if !go {
          return false;
        }
      }
    }

    /** The first call registers interest in the writable end; that is not part of the model. */
    method SetFirst()
      requires Queues()
      modifies this`firstChnkd
      ensures Queues() && Wire() == old(Wire()) && Decoded() == old(Decoded())
    {
      firstChnkd := false;
      SameQueues();
    }

    // ----- skip_chunked_body_ -----

    /** The data part of `chunked_body_can_parse_chnkd_skip_`. */
    method DropData() returns (ghost n: nat)
      requires Valid() && state == SkipBodyChunked && chnkdSize > 2
      modifies this`chnkdSize, heap, buf
      ensures Valid() && n == Min(old(chnkdSize) - 2, |old(Wire())|)
      ensures Abs() == Taken(old(Abs()), n) && Free() == old(Free())
    {
      hide SpxBuffer.Content, SpxBuffer.Valid, Queues, Wire, Decoded, Free, Abs, Taken;
      ghost var s := Abs();
      AbsParts();
      var k := DropWire(chnkdSize - 2);
      SetChunkSize(chnkdSize - k);
      n := k;
      AbsParts();
      TakenIs(s, n);
    }

    /** Whether CR LF comes first, as the skipper looks for it. */
    method CrlfFirst() returns (r: bool)
      requires Queues() && |Wire()| >= 2
      ensures Queues() && Wire() == old(Wire()) && Decoded() == old(Decoded())
      ensures r <==> Wire()[..2] == CRLF
    {
      WireLength();
      var cr := buf.FindPos(CR, SIZE_T_MAX);
      var lf := buf.FindPos(LF, SIZE_T_MAX);
      r := cr == Some(0) && lf == Some(1);
      SameQueues();
      FirstTwo(Wire(), buf.buf[0].len);
    }

    /** The end of `chunked_body_can_parse_chnkd_skip_`, once the response is written. */
    method SkipEnd() returns (r: bool)
      requires Valid() && state == SkipBodyChunked && 0 < chnkdSize <= 2
      modifies this, heap, buf
      ensures Valid()
      ensures r <==> old(writeFinished) && |old(Wire())| >= 2
      ensures Abs() == if r then EndChunk(old(Abs())) else old(Abs())
      ensures SameCounters()
    {
      hide Queues, Wire, Decoded;
      WireLength();
      if writeFinished && buf.bufSize >= 2 {
        var framed := CrlfFirst();
        if !framed {
          BadRequestReply();
          return true;
        }
        DropEnd(ReqClear);
        return true;
      }
      return false;
    }

    /** `chunked_body_can_parse_chnkd_skip_`; an exception shows in the state. */
    method CanParseChnkdSkip() returns (r: bool)
      requires Valid() && state == SkipBodyChunked && chnkdSize > 0
      modifies this, heap, buf
      ensures Valid()
      ensures SameCounters()
      ensures r && chnkdSize == 0 ==> Call(old(Abs()), SKIP) == Call(Abs(), SKIP) && |Wire()| < |old(Wire())|
      ensures r && chnkdSize == 0 ==> if lastChnkd then state == ReqClear else state == SkipBodyChunked
      ensures !(r && chnkdSize == 0) ==> Call(old(Abs()), SKIP) == Abs() && state in {SkipBodyChunked, BadReq}
    {
      hide Queues, Wire, Decoded, Abs, Call, Taken, EndChunk, ChunkSize.Extends;
      ExtendsTrans(header, header, header);
      AbsIs();
      ghost var s := Abs();
      ghost var t := s;
      if chnkdSize > 2 {
        ghost var n := DropData();
        AbsIs();
        t := Abs();
        DataPart(s, n, SKIP);
        if chnkdSize != 2 {
          return true;
        }
      }
      r := SkipEnd();
      AbsIs();
      SkipEndPart(t, Abs(), r);
    }

    /** The end of the loop of `skip_chunked_body_`. */
    method SkipSizeLine() returns (go: bool)
      requires Valid() && state == SkipBodyChunked && chnkdSize == 0
      modifies this, heap, buf
      ensures Valid()
      ensures FlatLine(old(Wire())).Line? ==> Abs() == StartChunk(old(Abs())) && (go <==> state == SkipBodyChunked)
      ensures !FlatLine(old(Wire())).Line? ==> Abs() == old(Abs()) && !go
      ensures SameCounters() && (go ==> header == old(header))
    {
      hide Queues, Wire, Decoded, FlatLine, StartChunk, Sized, ChunkSize.SizeOf, ChunkSize.SizeAfter;
      ghost var s := Abs();
      var r, line := TakeWireLine();
      if r != 1 {
        return false;
      }
      var ok, size, ext := ScanSize(line);
      SizeLineMeans(s, ok, size);
      go := ok;
      SkipSize(ok, size, ext);
    }

    method SkipSize(ok: bool, size: nat, ext: map<bytes, bytes>)
      requires Valid() && state == SkipBodyChunked && chnkdSize == 0 && size < TWO_32
      modifies this`chnkdSize, this`lastChnkd, this`bodySize, this`header, this`state, this`reply, this`cntLen
      ensures Valid() && Abs() == Sized(old(Abs()), if ok then Some(size) else None, size) && header == ext
      ensures ok <==> state == SkipBodyChunked
    {
      hide Queues, Wire, Decoded;
      if ok {
        SetChunk((size + 2) % TWO_32, lastChnkd || size == 0, (bodySize + size) % TWO_64, ext);
      } else {
        SetChunk(size, lastChnkd, bodySize, ext);
        BadRequestReply();
      }
    }

    /** `skip_chunked_body_` */
    method SkipChunkedBody() returns (r: bool)
      requires Valid() && state == SkipBodyChunked
      modifies this, heap, buf
      ensures Valid() && Abs() == Call(old(Abs()), SKIP)
      ensures r <==> state == ReqClear
      ensures SameCounters()
    {
      hide Queues, Wire, Decoded, FlatLine, Call, StartChunk, ChunkSize.Extends;
      ExtendsTrans(header, header, header);
      ghost var s := Abs();
      while true
        invariant Valid() && state == SkipBodyChunked && Call(Abs(), SKIP) == Call(s, SKIP)
        invariant SameCounters()
        decreases |Wire()|
      {
        ghost var h := header;
        if chnkdSize != 0 {
          var parsed := CanParseChnkdSkip();
          ExtendsTrans(old(header), h, header);
          if !parsed || chnkdSize != 0 {
            return false;
          }
          if lastChnkd {
            CallEnds(Abs(), SKIP);
            return true;
          }
        }
        ghost var t := Abs();
        h := header;
        var go := SkipSizeLine();
        ExtendsTrans(old(header), h, header);
        SizeLineCall(t, SKIP);
        CallEnds(Abs(), SKIP);
        if !go {
          return false;
        }
      }
    }

    // ----- the other body states -----

    /** The whole transfer. */
    ghost function AbsT(): Transfer.Transfer
      requires Valid()
      reads this, heap, sink, buf, chnkdBody, bodyBuf
      reads Bases(buf.View()), Bases(chnkdBody.View()), Bases(bodyBuf.View())
    {
      Transfer.Transfer(Abs(), isChnkd, cgi, bodyRead, cgiRead, |sink.received|, closed, unframed)
    }

    lemma QueuesApart()
      requires Queues()
      ensures bodyBuf != buf && bodyBuf != chnkdBody && Fits(bodyBuf.View())
    {
    }

    /** Which queue a body uses, and which states it can be in. */
    ghost predicate Kinds()
      requires Queues()
      reads this, heap, buf, chnkdBody, bodyBuf, Bases(chnkdBody.View()), Bases(bodyBuf.View())
    {
      if isChnkd then
        && state in STREAM + {Hold, ReqClear, BadReq} && !unframed
        && (!cgi ==> state != CgiBodyChunked && bodyBuf.Content() == [])
      else if unframed then
        !cgi && state in {BodyChunked, SkipBodyChunked, Hold, ReqClear, BadReq} && bodyBuf.Content() == []
      else
        state in {Body, CgiBody, Hold} && !cut && chnkdBody.Content() == []
    }

    /** Moves received bytes to the queue of a body that is not chunked. */
    method MoveToBody(size: nat) returns (n: nat)
      requires Queues() && chnkdBody.Content() == []
      modifies heap, buf, bodyBuf
      ensures Queues() && chnkdBody.Content() == [] && Free() == old(Free())
      ensures n == Min(size, |old(Wire())|)
      ensures Wire() == old(Wire())[n..] && Decoded() == old(Decoded()) + old(Wire())[..n]
    {
      hide SpxBuffer.Content, Longest;
      buf.ContentLength();
      AppendMiddle(sink.received, bodyBuf.Content(), buf.Content()[..Min(size, buf.bufSize)]);
      n := buf.Move(bodyBuf, size);
      StaysApart(old(heap.live), old(Bases(buf.buf)), old(Bases(bodyBuf.buf)), Bases(chnkdBody.buf),
                 heap.live, Bases(buf.buf), Bases(bodyBuf.buf));
      AnyOrder(old(heap.live), old(Bases(buf.buf)), old(Bases(bodyBuf.buf)), Bases(chnkdBody.buf));
      AnyOrder(heap.live, Bases(buf.buf), Bases(bodyBuf.buf), Bases(chnkdBody.buf));
      chnkdBody.StillValid();
      chnkdBody.Same();
    }

    /** `state_req_body_`, and the same for `REQ_CGI_BODY`: the count goes through an `int`. */
    method StateReqBody() returns (r: bool)
      requires Valid() && state in {Body, CgiBody} && chnkdBody.Content() == []
      modifies this, heap, buf, bodyBuf
      ensures Valid() && chnkdBody.Content() == [] && Free() == old(Free())
      ensures r && AbsT() == Transfer.LengthPoll(old(AbsT()))
      ensures isChnkd == old(isChnkd) && unframed == old(unframed) && cut == old(cut) && state in {old(state), Hold}
    {
      hide Queues, Wire, Decoded, SpxBuffer.Content, SpxBuffer.Valid, Transfer.AddSize, Transfer.SubSize,
        Transfer.ToInt, Transfer.LengthPoll, Free;
      ghost var t := AbsT();
      var n := MoveToBody(Transfer.SubSize(cntLen, bodyRead));
      LengthPollIs(t, n);
      CountRead(Transfer.AddSize(bodyRead, Transfer.ToInt(n)));
      return true;
    }

    /** The count of bytes moved; the last one puts the request on hold. */
    method CountRead(read: nat)
      requires Valid() && state in {Body, CgiBody}
      modifies this`bodyRead, this`state, this`reply, this`bodySize, this`cntLen
      ensures Valid() && chnkdBody.Content() == old(chnkdBody.Content())
      ensures AbsT() == old(AbsT()).(bodyRead := read,
                dec := old(Abs()).(state := if read == old(cntLen) then Hold else old(state)))
    {
      hide Queues, Wire, Decoded, SpxBuffer.Content;
      SetRead(read);
      if bodyRead == cntLen {
        SetState(Hold, reply, bodySize, cntLen);
      }
    }

    method SetRead(read: nat)
      requires Queues()
      modifies this`bodyRead
      ensures Queues() && Wire() == old(Wire()) && Decoded() == old(Decoded())
      ensures chnkdBody.Content() == old(chnkdBody.Content()) && bodyBuf.Content() == old(bodyBuf.Content())
      ensures bodyRead == read
    {
      hide Queues, Wire, Decoded, SpxBuffer.Content;
      bodyRead := read;
      SameQueues();
    }

    /** The decoded bytes of a CGI request go on to the queue of its pipe. */
    method FlushToCgi()
      requires Queues()
      modifies heap, chnkdBody, bodyBuf
      ensures Queues() && Wire() == old(Wire()) && Decoded() == old(Decoded()) && Free() == old(Free())
      ensures |old(chnkdBody.Content())| <= SIZE_T_MAX ==> chnkdBody.Content() == []
    {
      hide SpxBuffer.Content;
      chnkdBody.ContentLength();
      var all := chnkdBody.bufSize;
      MoveAll(sink.received, bodyBuf.Content(), chnkdBody.Content(), Min(SIZE_T_MAX, all));
      var n := chnkdBody.Move(bodyBuf, SIZE_T_MAX);
      StaysApart(old(heap.live), old(Bases(chnkdBody.buf)), old(Bases(bodyBuf.buf)), Bases(buf.buf),
                 heap.live, Bases(chnkdBody.buf), Bases(bodyBuf.buf));
      AnyOrder(old(heap.live), old(Bases(chnkdBody.buf)), old(Bases(bodyBuf.buf)), Bases(buf.buf));
      AnyOrder(heap.live, Bases(chnkdBody.buf), Bases(bodyBuf.buf), Bases(buf.buf));
      buf.StillValid();
      buf.Same();
    }

    /** `REQ_BODY_CHUNKED` */
    method UploadChunks() returns (r: bool)
      requires Valid() && state == BodyChunked
      modifies this, heap, buf, chnkdBody
      ensures Valid() && Free() == old(Free()) && (old(Kinds()) ==> Kinds())
      ensures AbsT() == old(AbsT()).(dec := Call(old(Abs()), DECODE))
    {
      hide Queues, Wire, Decoded, SpxBuffer.Content, Call, Free, ChunkSize.Extends;
      QueuesApart();
      CallStates(Abs(), DECODE);
      r := ChunkedBody();
      QueuesApart();
      bodyBuf.Untouched();
    }

    /** `REQ_SKIP_BODY_CHUNKED` */
    method SkipChunks() returns (r: bool)
      requires Valid() && state == SkipBodyChunked
      modifies this, heap, buf
      ensures Valid() && Free() == old(Free()) && (old(Kinds()) ==> Kinds())
      ensures AbsT() == old(AbsT()).(dec := Call(old(Abs()), SKIP))
    {
      hide Queues, Wire, Decoded, SpxBuffer.Content, Call, Free, ChunkSize.Extends;
      QueuesApart();
      CallStates(Abs(), SKIP);
      r := SkipChunkedBody();
      QueuesApart();
      bodyBuf.Untouched();
    }

    /** `REQ_CGI_BODY_CHUNKED` */
    method CgiChunks() returns (r: bool)
      requires Valid() && state == CgiBodyChunked
      modifies this, heap, buf, chnkdBody, bodyBuf
      ensures Valid() && Free() == old(Free()) && (old(Kinds()) ==> Kinds())
      ensures AbsT() == old(AbsT()).(dec := Call(old(Abs()), DECODE))
    {
      hide Queues, Wire, Decoded, SpxBuffer.Content, Call, Free, ChunkSize.Extends;
      CallStates(Abs(), DECODE);
      r := ChunkedBody();
      FlushToCgi();
      if r {
        SetState(Hold, reply, bodySize, cntLen);
      }
    }

    /** `REQ_BODY` and `REQ_CGI_BODY` */
    method PlainBody() returns (r: bool)
      requires Valid() && state in {Body, CgiBody} && chnkdBody.Content() == []
      modifies this, heap, buf, bodyBuf
      ensures Valid() && Free() == old(Free()) && (old(Kinds()) ==> Kinds())
      ensures AbsT() == Transfer.LengthPoll(old(AbsT()))
    {
      hide Queues, Wire, Decoded, SpxBuffer.Content, Free, AbsT, Abs;
      r := StateReqBody();
    }

    /** The body states of `req_res_controller_`. */
    method BodyController() returns (r: bool)
      requires Valid() && state in {Body, BodyChunked, SkipBodyChunked, CgiBody, CgiBodyChunked, Hold, BadReq}
      requires state in {Body, CgiBody} ==> chnkdBody.Content() == []
      modifies this, heap, buf, chnkdBody, bodyBuf
      ensures Valid() && Free() == old(Free()) && (old(Kinds()) ==> Kinds())
      ensures AbsT() == Transfer.Dispatch(old(AbsT()))
    {
      hide Queues, SpxBuffer.Content, Call, Free, Kinds, Abs, Transfer.LengthPoll, Transfer.Dispatch, Poll;
      AbsIs();
      DispatchIs(AbsT());
      match state {
        case Body =>
          r := PlainBody();
        case CgiBody =>
          r := PlainBody();
        case BodyChunked =>
          r := UploadChunks();
        case SkipBodyChunked =>
          r := SkipChunks();
        case CgiBodyChunked =>
          r := CgiChunks();
        case _ =>
          r := true;
      }
    }

    // ----- events -----

    /** The pool for reads is valid, and shares no block with the queues. */
    ghost predicate Pool(rdbuf: ReadBuffer.SpxReadBuffer)
      reads heap, buf, chnkdBody, bodyBuf, rdbuf
    {
      rdbuf.heap == heap && rdbuf.Valid() && rdbuf.segment <= LINE_MAX + 1 && Bases(rdbuf.rdbuf) <= Free()
    }

    /** The pool is not touched while the blocks of others are left alone. */
    twostate lemma SamePool(rdbuf: ReadBuffer.SpxReadBuffer)
      requires old(Pool(rdbuf)) && rdbuf.rdbuf == old(rdbuf.rdbuf) && Free() == old(Free())
      ensures Pool(rdbuf)
    {
      rdbuf.StillValid();
    }

    /** `read_to_client_buffer_`: one read, and one dispatch unless the request is on hold. */
    method ReadToClientBuffer(rdbuf: ReadBuffer.SpxReadBuffer, answer: ReadBuffer.Answer)
      requires Valid() && Pool(rdbuf) && Readable(rdbuf, answer)
      requires state in {Body, BodyChunked, SkipBodyChunked, CgiBody, CgiBodyChunked, Hold, BadReq}
      requires state in {Body, CgiBody} ==> chnkdBody.Content() == []
      modifies this, heap, buf, chnkdBody, bodyBuf, rdbuf, Bases(rdbuf.rdbuf)
      ensures Valid() && Pool(rdbuf) && fresh(Bases(rdbuf.rdbuf) - old(Bases(rdbuf.rdbuf)))
      ensures answer.Failed? ==> AbsT() == old(AbsT())
      ensures answer.Arrived? ==> AbsT() == Transfer.Receive(old(AbsT()), answer.data)
      ensures old(Kinds()) ==> Kinds()
    {
      hide Wire, Decoded, SpxBuffer.Valid, SpxBuffer.Content, Transfer.Dispatch;
      var n := Fill(rdbuf, answer);
      if n <= 0 {
        return;
      }
      if state != Hold {
        label Filled:
        var _ := BodyController();
        SamePool@Filled(rdbuf);
      } else {
        HoldWaits(AbsT());
      }
    }

    /** The read itself. */
    method Fill(rdbuf: ReadBuffer.SpxReadBuffer, answer: ReadBuffer.Answer) returns (n: int)
      requires Queues() && Pool(rdbuf) && Readable(rdbuf, answer)
      modifies heap, buf, rdbuf, Bases(rdbuf.rdbuf)
      ensures Queues() && Pool(rdbuf) && fresh(Bases(rdbuf.rdbuf) - old(Bases(rdbuf.rdbuf)))
      ensures Decoded() == old(Decoded())
      ensures chnkdBody.Content() == old(chnkdBody.Content()) && bodyBuf.Content() == old(bodyBuf.Content())
      ensures match answer
              case Failed(code) => n == code && Wire() == old(Wire())
              case Arrived(data) => n == |data| && Wire() == old(Wire()) + data
    {
      hide SpxBuffer.Content;
      BasesHasAll(chnkdBody.buf);
      BasesHasAll(bodyBuf.buf);
      n := rdbuf.Read(answer, buf);
      StaysApart(old(heap.live), old(Bases(rdbuf.rdbuf)), old(Bases(buf.buf)), Bases(chnkdBody.buf),
                 heap.live, Bases(rdbuf.rdbuf), Bases(buf.buf));
      StaysApart(old(heap.live), old(Bases(rdbuf.rdbuf)), old(Bases(buf.buf)), Bases(bodyBuf.buf),
                 heap.live, Bases(rdbuf.rdbuf), Bases(buf.buf));
      chnkdBody.StillValid();
      bodyBuf.StillValid();
      chnkdBody.Same();
      bodyBuf.Same();
    }

    /** Which queue a write event empties, and what the kernel may answer. */
    ghost predicate Writable(queue: SpxBuffer, answer: int)
      requires Queues()
      reads heap, buf, chnkdBody, bodyBuf, queue
    {
      answer <= Total(queue.Offered()) && answer < TWO_32 / 2
    }

    /** Writes the queue of the sink; `answer` is what `writev` returns. */
    method DrainBody(answer: int) returns (n: int)
      requires Queues() && Writable(bodyBuf, answer)
      modifies heap, bodyBuf, sink
      ensures Queues() && Wire() == old(Wire()) && Decoded() == old(Decoded()) && Free() == old(Free())
      ensures n == (if old(bodyBuf.bufSize) == 0 then 0 else answer) && n < TWO_32 / 2
      ensures bodyBuf.bufSize == |bodyBuf.Content()|
      ensures chnkdBody.Content() == old(chnkdBody.Content())
      ensures n <= 0 ==> sink.received == old(sink.received) && bodyBuf.Content() == old(bodyBuf.Content())
      ensures n > 0 ==> n <= |old(bodyBuf.Content())| && sink.received == old(sink.received + bodyBuf.Content()[..n])
                        && bodyBuf.Content() == old(bodyBuf.Content())[n..]
    {
      hide SpxBuffer.Content, SpxBuffer.Offered, Longest;
      bodyBuf.ContentLength();
      n := bodyBuf.Write(sink, answer);
      bodyBuf.ContentLength();
      buf.StillValid();
      buf.Same();
      chnkdBody.StillValid();
      chnkdBody.Same();
    }

    /** Writes the decoded bytes of an upload, which go to the file directly. */
    method DrainChunked(answer: int) returns (n: int)
      requires Queues() && Writable(chnkdBody, answer) && bodyBuf.Content() == []
      modifies heap, chnkdBody, sink
      ensures Queues() && Wire() == old(Wire()) && Decoded() == old(Decoded()) && Free() == old(Free())
      ensures n == (if old(chnkdBody.bufSize) == 0 then 0 else answer) && n < TWO_32 / 2
      ensures chnkdBody.bufSize == |chnkdBody.Content()| && bodyBuf.Content() == []
      ensures n <= 0 ==> sink.received == old(sink.received) && chnkdBody.Content() == old(chnkdBody.Content())
      ensures n > 0 ==> n <= |old(chnkdBody.Content())|
                        && sink.received == old(sink.received + chnkdBody.Content()[..n])
                        && chnkdBody.Content() == old(chnkdBody.Content())[n..]
    {
      hide SpxBuffer.Content, SpxBuffer.Offered, Longest;
      chnkdBody.ContentLength();
      NothingBetween(sink.received, chnkdBody.Content());
      n := chnkdBody.Write(sink, answer);
      NothingBetween(sink.received, chnkdBody.Content());
      chnkdBody.ContentLength();
      buf.StillValid();
      buf.Same();
      bodyBuf.StillValid();
      bodyBuf.Same();
    }

    /** The transfer is done: its end is closed. */
    method CloseSink()
      requires Valid()
      modifies this`closed, this`state
      ensures Valid() && AbsT() == Transfer.Close(old(AbsT())) && Decoded() == old(Decoded())
      ensures chnkdBody.Content() == old(chnkdBody.Content()) && bodyBuf.Content() == old(bodyBuf.Content())
    {
      hide Queues, Wire, Decoded, SpxBuffer.Content;
      closed, state := true, Hold;
      SameQueues();
    }

    method SetCgiRead(read: nat)
      requires Queues()
      modifies this`cgiRead
      ensures Queues() && Wire() == old(Wire()) && Decoded() == old(Decoded())
      ensures chnkdBody.Content() == old(chnkdBody.Content()) && bodyBuf.Content() == old(bodyBuf.Content())
      ensures cgiRead == read
    {
      cgiRead := read;
      SameQueues();
    }

    /** `write_for_upload_` of a chunked body. */
    method WriteChunked(answer: int) returns (r: bool)
      requires Valid() && !cgi && isChnkd && !closed && !cut && bodyBuf.Content() == []
      requires Writable(chnkdBody, answer)
      modifies this, heap, chnkdBody, sink
      ensures Valid() && bodyBuf.Content() == [] && Free() == old(Free())
      ensures r <==> answer >= 0 || old(chnkdBody.bufSize) == 0
      ensures !r ==> AbsT() == old(AbsT())
      ensures var n := if r && old(chnkdBody.bufSize) > 0 then answer else 0;
              && n <= |old(chnkdBody.Content())| && sink.received == old(sink.received + chnkdBody.Content()[..n])
              && chnkdBody.Content() == old(chnkdBody.Content())[n..]
      ensures isChnkd == old(isChnkd) && unframed == old(unframed) && cut == old(cut) && state in {old(state), Hold}
      ensures r ==> var n := if old(chnkdBody.bufSize) == 0 then 0 else answer;
                    old(AbsT()).sunk + n <= |old(AbsT()).dec.out| && AbsT() == Transfer.Deliver(old(AbsT()), n)
    {
      hide Queues, Wire, SpxBuffer.Valid, SpxBuffer.Content;
      var n := DrainChunked(answer);
      if n < 0 {
        return false;
      }
      SetRead(bodyRead + n);
      if bodyRead == cntLen {
        CloseSink();
      }
      return true;
    }

    /** `write_for_upload_` of a body of known length. */
    method WritePlain(answer: int) returns (r: bool)
      requires Valid() && !cgi && !isChnkd && !closed && !cut
      requires Writable(bodyBuf, answer)
      modifies this, heap, bodyBuf, sink
      ensures Valid() && Decoded() == old(Decoded()) && Free() == old(Free())
      ensures chnkdBody.Content() == old(chnkdBody.Content())
      ensures r <==> answer >= 0 || old(bodyBuf.bufSize) == 0
      ensures !r ==> AbsT() == old(AbsT())
      ensures isChnkd == old(isChnkd) && unframed == old(unframed) && cut == old(cut)
      ensures var n := if r && old(bodyBuf.bufSize) > 0 then answer else 0;
              && n <= |old(bodyBuf.Content())| && sink.received == old(sink.received + bodyBuf.Content()[..n])
              && bodyBuf.Content() == old(bodyBuf.Content())[n..]
      ensures closed <==> r && bodyBuf.Content() == [] && bodyRead == cntLen
      ensures state == if closed then Hold else old(state)
      ensures r && (if unframed then old(bodyBuf.Content()) == [] else old(chnkdBody.Content()) == []) ==>
                var n := if old(bodyBuf.bufSize) == 0 then 0 else answer;
                old(AbsT()).sunk + n <= |old(AbsT()).dec.out| && AbsT() == Transfer.Deliver(old(AbsT()), n)
    {
      hide Queues, Wire, SpxBuffer.Valid, SpxBuffer.Content;
      var n := DrainBody(answer);
      if n < 0 {
        return false;
      }
      if bodyBuf.bufSize == 0 && bodyRead == cntLen {
        CloseSink();
      }
      return true;
    }

    /** `write_to_cgi_` */
    method WriteToCgi(answer: int) returns (r: bool)
      requires Valid() && cgi && !closed
      requires Writable(bodyBuf, answer)
      modifies this, heap, bodyBuf, sink
      ensures Valid() && Free() == old(Free()) && chnkdBody.Content() == old(chnkdBody.Content())
      ensures r <==> answer >= 0 || old(bodyBuf.bufSize) == 0
      ensures !r ==> AbsT() == old(AbsT())
      ensures var n := if r && old(bodyBuf.bufSize) > 0 then answer else 0;
              && n <= |old(bodyBuf.Content())| && sink.received == old(sink.received + bodyBuf.Content()[..n])
              && bodyBuf.Content() == old(bodyBuf.Content())[n..]
      ensures isChnkd == old(isChnkd) && unframed == old(unframed) && cut == old(cut) && state in {old(state), Hold}
      ensures r ==> var n := if old(bodyBuf.bufSize) == 0 then 0 else answer;
                    old(AbsT()).sunk + n <= |old(AbsT()).dec.out| && AbsT() == Transfer.Deliver(old(AbsT()), n)
    {
      hide Queues, Wire, SpxBuffer.Valid, SpxBuffer.Content;
      var n := DrainBody(answer);
      if n < 0 {
        return false;
      }
      SetCgiRead(cgiRead + n);
      if cgiRead == cntLen {
        CloseSink();
      }
      return true;
    }

    /** The end of `write_response_` for a body that is skipped, and the dispatch behind it. */
    method ResponseWritten()
      requires Valid() && state == SkipBodyChunked
      modifies this, heap, buf
      ensures Valid() && Free() == old(Free()) && (old(Kinds()) ==> Kinds())
      ensures AbsT() == old(AbsT()).(dec := Answer(old(Abs())))
    {
      hide Queues, Wire, Decoded, SpxBuffer.Content, Call, Free;
      SetFinished();
      var _ := SkipChunks();
    }

    method SetFinished()
      requires Valid()
      modifies this`writeFinished
      ensures Valid() && AbsT() == old(AbsT()).(dec := old(Abs()).(finished := true))
      ensures old(Kinds()) ==> Kinds()
    {
      hide Queues, Wire, Decoded, SpxBuffer.Content;
      writeFinished := true;
      SameQueues();
    }

    // ----- runs -----

    /** What a run of events needs of the connection. */
    ghost predicate Serving(rdbuf: ReadBuffer.SpxReadBuffer)
      reads this, heap, buf, chnkdBody, bodyBuf, rdbuf, Bases(chnkdBody.View()), Bases(bodyBuf.View())
    {
      Valid() && Kinds() && Pool(rdbuf)
    }

    lemma AbsTFits()
      requires Valid()
      ensures AbsT().sunk <= |AbsT().dec.out|
    {
    }

    /** The queue that a write event empties. */
    function Sending(): SpxBuffer
      reads this
    {
      if cgi || !isChnkd then bodyBuf else chnkdBody
    }

    /** What can happen now: no more is written than is offered, and only what is offered can fail. */
    predicate CanHappen(o: Occasion)
      reads this, chnkdBody, bodyBuf
    {
      match o
      case CanRead(_) => true
      case CanWrite(count) => closed || (cut && !cgi) || count <= Total(Sending().Offered())
      case WriteFailed => closed || (cut && !cgi) || Sending().bufSize > 0
      case ResponsePart => true
      case ResponseDone => state == SkipBodyChunked
    }

    /**
     * What the kernel cannot answer: more bytes than it was offered, or a failure although there was
     * nothing to write; and a response that ends the request is not part of a run.
     */
    predicate Impossible(o: Occasion)
      reads this, chnkdBody, bodyBuf
    {
      var queue := if cgi || !isChnkd then bodyBuf else chnkdBody;
      var open := !closed && (cgi || !cut);
      && !o.CanRead? && !o.ResponsePart?
      && (o.CanWrite? ==> open && o.count > Total(queue.Offered()))
      && (o.WriteFailed? ==> open && queue.bufSize == 0)
      && (o.ResponseDone? ==> state != SkipBodyChunked)
    }

    /**
     * `write_event_handler` for a file or a pipe, whose event is gone once it has been closed or
     * removed: `answer` is what `writev` returns.
     */
    method WriteEvent(answer: int)
      requires Valid() && Kinds() && answer < TWO_32 / 2
      requires CanHappen(if answer < 0 then WriteFailed else CanWrite(answer))
      modifies this, heap, chnkdBody, bodyBuf, sink
      ensures Valid() && Kinds() && Free() == old(Free())
      ensures old(AbsT()).sunk <= |old(AbsT()).dec.out|
      ensures AbsT() == if answer < 0 then old(AbsT()) else Transfer.Next(old(AbsT()), Transfer.Delivered(answer))
      ensures answer >= 0 && old(!closed && (cgi || !cut)) ==> Sent(answer)
    {
      hide Queues, Wire, Decoded, SpxBuffer.Content, SpxBuffer.Valid, Abs, Transfer.Deliver, SpxBuffer.Offered, Kinds;
      AbsTFits();
      ghost var t := AbsT();
      AbsIs();
      if closed || (cut && !cgi) {
        NoDelivery(t, answer);
        return;
      }
      OfferFits();
      if cgi {
        WriteToPipe(answer);
      } else {
        WriteToFile(answer);
      }
      DeliverNext(t, answer);
    }

    /** So many bytes have gone from the front of the queue to the file or pipe. */
    twostate predicate Sent(n: nat)
      reads this, heap, sink, buf, chnkdBody, bodyBuf, Bases(chnkdBody.View()), Bases(bodyBuf.View())
      requires old(Queues()) && Queues()
    {
      var queue := if cgi || !isChnkd then bodyBuf else chnkdBody;
      && isChnkd == old(isChnkd) && n <= |old(queue.Content())|
      && sink.received == old(sink.received) + old(queue.Content())[..n]
      && queue.Content() == old(queue.Content())[n..]
    }

    /** No more is offered than the queue holds. */
    lemma OfferFits()
      requires Queues()
      ensures Total(Sending().Offered()) <= Sending().bufSize
    {
      var view := Sending().View();
      SplitTotal(view, Min(|view|, IOV_MAX));
      ShiftSame(Sending().buf, Sending().partialPoint);
    }

    method WriteToPipe(answer: int)
      requires Valid() && Kinds() && answer < TWO_32 / 2 && cgi && !closed
      requires answer <= Total(bodyBuf.Offered()) <= bodyBuf.bufSize && (answer < 0 ==> bodyBuf.bufSize > 0)
      modifies this, heap, bodyBuf, sink
      ensures Valid() && Kinds() && Free() == old(Free())
      ensures answer < 0 ==> AbsT() == old(AbsT())
      ensures answer >= 0 ==> old(AbsT()).sunk + answer <= |old(AbsT()).dec.out|
                              && AbsT() == Transfer.Deliver(old(AbsT()), answer) && Sent(answer)
    {
      hide Queues, Wire, Decoded, SpxBuffer.Content, SpxBuffer.Valid, SpxBuffer.Offered, Abs, AbsT, Transfer.Deliver;
      var _ := WriteToCgi(answer);
    }

    method WriteToFile(answer: int)
      requires Valid() && Kinds() && answer < TWO_32 / 2 && !cgi && !closed && !cut
      requires answer <= Total(Sending().Offered()) <= Sending().bufSize && (answer < 0 ==> Sending().bufSize > 0)
      modifies this, heap, chnkdBody, bodyBuf, sink
      ensures Valid() && Kinds() && Free() == old(Free())
      ensures answer < 0 ==> AbsT() == old(AbsT())
      ensures answer >= 0 ==> old(AbsT()).sunk + answer <= |old(AbsT()).dec.out|
                              && AbsT() == Transfer.Deliver(old(AbsT()), answer) && Sent(answer)
    {
      hide Queues, Wire, Decoded, SpxBuffer.Content, SpxBuffer.Valid, SpxBuffer.Offered, Abs, AbsT, Transfer.Deliver;
      if isChnkd {
        var _ := WriteChunked(answer);
      } else {
        var _ := WritePlain(answer);
      }
    }

    /**
     * A part of the response has been written: the dispatch behind `write_response_` looks at the
     * bytes that wait, unless the request is on hold.
     */
    method PartWritten()
      requires Valid()
      requires state in {Body, BodyChunked, SkipBodyChunked, CgiBody, CgiBodyChunked, Hold, BadReq}
      requires state in {Body, CgiBody} ==> chnkdBody.Content() == []
      modifies this, heap, buf, chnkdBody, bodyBuf
      ensures Valid() && Free() == old(Free()) && (old(Kinds()) ==> Kinds())
      ensures AbsT() == Transfer.Receive(old(AbsT()), [])
    {
      hide Wire, Decoded, SpxBuffer.Content, SpxBuffer.Valid, Abs, Kinds, Free, Transfer.Dispatch;
      NothingNew(AbsT());
      AbsIs();
      if state != Hold {
        var _ := BodyController();
      } else {
        HoldWaits(AbsT());
      }
    }

    /** One event of the loop in `kqueue_main`. */
    method Handle(rdbuf: ReadBuffer.SpxReadBuffer, o: Occasion)
      requires Serving(rdbuf) && Possible(rdbuf, o) && CanHappen(o) && state != ReqClear
      modifies this, heap, buf, chnkdBody, bodyBuf, sink, rdbuf, Bases(rdbuf.rdbuf)
      ensures Serving(rdbuf) && fresh(Bases(rdbuf.rdbuf) - old(Bases(rdbuf.rdbuf)))
      ensures old(AbsT()).sunk <= |old(AbsT()).dec.out| && AbsT() == Transfer.After(old(AbsT()), EventOf(o))
      // the same, event by event
      ensures match o
              case CanRead(answer) =>
                AbsT() == if answer.Arrived? then Transfer.Receive(old(AbsT()), answer.data) else old(AbsT())
              case CanWrite(count) =>
                AbsT() == Transfer.Next(old(AbsT()), Transfer.Delivered(count))
              case WriteFailed => AbsT() == old(AbsT())
              case ResponsePart => AbsT() == Transfer.Receive(old(AbsT()), [])
              case ResponseDone => AbsT() == old(AbsT()).(dec := Answer(old(Abs())))
      ensures o.CanWrite? && old(!closed && (cgi || !cut)) ==> Sent(o.count)
    {
      hide Queues, Wire, Decoded, SpxBuffer.Content, SpxBuffer.Valid, SpxBuffer.Offered, Abs, Transfer.Receive,
        Transfer.Deliver, Transfer.Next, Answer;
      AbsTFits();
      EventAlone(AbsT(), o);
      KindsAllow();
      match o {
        case CanRead(answer) =>
          ReadToClientBuffer(rdbuf, answer);
        case CanWrite(count) =>
          WriteEvent(count);
          SamePool(rdbuf);
        case WriteFailed =>
          WriteEvent(-1);
          SamePool(rdbuf);
        case ResponsePart =>
          PartWritten();
          SamePool(rdbuf);
        case ResponseDone =>
          ResponseWritten();
          SamePool(rdbuf);
      }
    }

    lemma KindsAllow()
      requires Valid() && Kinds()
      ensures state in {Body, BodyChunked, SkipBodyChunked, CgiBody, CgiBodyChunked, Hold, BadReq, ReqClear}
      ensures state in {Body, CgiBody} ==> chnkdBody.Content() == []
    {
    }

    /**
     * Any sequence of events on a connection with a body, until the request is over or what is said
     * to happen cannot: the server's buffers and counters go through the run of the transfer that
     * these events are.
     */
    method Serve(rdbuf: ReadBuffer.SpxReadBuffer, os: seq<Occasion>) returns (k: nat)
      requires Serving(rdbuf) && forall i :: 0 <= i < |os| ==> Possible(rdbuf, os[i])
      modifies this, heap, buf, chnkdBody, bodyBuf, sink, rdbuf, Bases(rdbuf.rdbuf)
      ensures Serving(rdbuf) && k <= |os|
      ensures k < |os| ==> state == ReqClear || !CanHappen(os[k])
      ensures k < |os| && state != ReqClear ==> Impossible(os[k])
      ensures old(AbsT()).sunk <= |old(AbsT()).dec.out|
      ensures AbsT() == Transfer.After(old(AbsT()), Events(os[..k]))
    {
      hide Queues, Wire, Decoded, SpxBuffer.Content, SpxBuffer.Valid, Abs, AbsT, Kinds, Pool, Free, Transfer.After,
        EventOf, CanHappen, Impossible;
      AbsTFits();
      ghost var t := AbsT();
      k := 0;
      NoEvents(t);
      while k < |os| && state != ReqClear && CanHappen(os[k])
        invariant k <= |os| && Serving(rdbuf) && fresh(Bases(rdbuf.rdbuf) - old(Bases(rdbuf.rdbuf)))
        invariant forall i :: 0 <= i < |os| ==> Possible(rdbuf, os[i])
        invariant t.sunk <= |t.dec.out| && AbsT() == Transfer.After(t, Events(os[..k]))
      {
        ghost var blocks := Bases(rdbuf.rdbuf);
        label Before:
        Handle(rdbuf, os[k]);
        assert forall b :: b in Bases(rdbuf.rdbuf) - blocks ==> fresh@Before(b);
        assert forall b :: b in Bases(rdbuf.rdbuf) && b !in blocks ==> b in Bases(rdbuf.rdbuf) - blocks;
        assert forall b :: b in Bases(rdbuf.rdbuf) ==> b in blocks || fresh(b);
        EventsNext(os, k);
        Transfer.AfterConcat(t, Events(os[..k]), EventOf(os[k]));
        k := k + 1;
      }
      if k < |os| {
        ImpossibleIff(os[k]);
      }
    }

    lemma ImpossibleIff(o: Occasion)
      ensures Impossible(o) <==> !CanHappen(o)
    {
    }

    // ----- setting a body up -----

    /** `error_response_keep_alive_` for POST and PUT: the rest of the body has to be skipped. */
    method ErrorKeepAlive(status: Reply)
      requires Valid()
      modifies this`state, this`reply, this`bodySize, this`cntLen
      ensures Queues() && Wire() == old(Wire()) && Decoded() == old(Decoded())
      ensures reply == status && cntLen == old(cntLen)
      ensures state == if isChnkd || cntLen == SIZE_T_MAX then SkipBodyChunked
                       else if cntLen == 0 then Hold else SkipBody
      ensures bodySize == if state == SkipBodyChunked then SIZE_T_MAX else old(bodySize)
      ensures old(!lastChnkd) ==>
                Valid() && AbsT() == old(AbsT()).(
                  dec := old(Abs()).(state := state, reply := status, bodySize := bodySize))
    {
      hide Queues, Wire, Decoded, SpxBuffer.Content, SpxBuffer.Valid;
      if isChnkd || cntLen == SIZE_T_MAX {
        SetState(SkipBodyChunked, status, SIZE_T_MAX, cntLen);
      } else if cntLen == 0 {
        SetState(Hold, status, bodySize, cntLen);
      } else {
        SetState(SkipBody, status, bodySize, cntLen);
      }
    }

    /** An error response has been made, and the rest of the body will be skipped as the header tells. */
    twostate predicate Refused(status: Reply)
      reads this, heap, sink, buf, chnkdBody, bodyBuf
      reads Bases(buf.View()), Bases(chnkdBody.View()), Bases(bodyBuf.View())
      requires old(Valid())
    {
      var chunked := old(isChnkd) || old(cntLen) == 0xFFFF_FFFF_FFFF_FFFF;
      && Valid()
      && AbsT() == old(AbsT()).(dec := old(Abs()).(
           reply := status,
           state := if chunked then SkipBodyChunked else if old(cntLen) == 0 then Hold else SkipBody,
           bodySize := if chunked then 0xFFFF_FFFF_FFFF_FFFF else old(bodySize)))
    }

    /** `res_for_post_put_req_`: `fileOpen` tells whether the file could be opened. */
    method ResForPostPut(fileOpen: bool)
      requires Valid() && !cgi && chnkdBody.Content() == [] && !lastChnkd && !unframed
      modifies this, heap, buf, chnkdBody, bodyBuf
      ensures Queues()
      // no file: a response, and nothing is consumed
      ensures !fileOpen ==> Wire() == old(Wire()) && Decoded() == old(Decoded()) && Refused(NotFound)
      // a chunked body, or one without a length
      ensures fileOpen && old(isChnkd || cntLen == SIZE_T_MAX) ==>
                Valid() && AbsT() == Transfer.Dispatch(
                  old(AbsT()).(dec := old(Abs()).(bodySize := 0, cntLen := SIZE_T_MAX, state := BodyChunked),
                               unframed := !old(isChnkd)))
      ensures fileOpen && old(!cut && bodyBuf.Content() == []
                              && (isChnkd || cntLen == SIZE_T_MAX || cntLen <= bodyLimit)) ==>
                Valid() && Kinds() && Free() == old(Free())
      // a body of known length, within its limit or not
      ensures fileOpen && !old(isChnkd || cntLen == SIZE_T_MAX) && old(cntLen > bodyLimit) ==>
                Wire() == old(Wire()) && Decoded() == old(Decoded()) && Refused(RangeNotSatisfiable)
      ensures fileOpen && !old(isChnkd || cntLen == SIZE_T_MAX) && old(cntLen <= bodyLimit) ==>
                Valid() && AbsT() == Transfer.Dispatch(old(AbsT()).(dec := old(Abs()).(state := Body)))
    {
      hide Queues, Wire, Decoded, Call, Transfer.LengthPoll, SpxBuffer.Content, SpxBuffer.Valid, Free;
      if !fileOpen {
        ErrorKeepAlive(NotFound);
        return;
      }
      if isChnkd || cntLen == SIZE_T_MAX {
        SetState(BodyChunked, reply, 0, SIZE_T_MAX);
        SetUnframed();
        var _ := UploadChunks();
      } else if cntLen > bodyLimit {
        ErrorKeepAlive(RangeNotSatisfiable);
      } else {
        SetBody();
        var _ := PlainBody();
      }
    }

    /** The transfer that the header of a POST or PUT asks for. */
    ghost function Asked(): Transfer.Transfer
      reads this
    {
      if isChnkd then Transfer.StartChunked(bodyLimit, false, SIZE_T_MAX)
      else if cntLen == SIZE_T_MAX then Transfer.StartUnframed(bodyLimit)
      else Transfer.StartLength(bodyLimit, false, cntLen)
    }

    /**
     * An upload from its header on: set up with the bytes that came behind the header, and served
     * by any sequence of events.
     */
    method Upload(rdbuf: ReadBuffer.SpxReadBuffer, os: seq<Occasion>) returns (k: nat)
      requires Valid() && Pool(rdbuf) && forall i :: 0 <= i < |os| ==> Possible(rdbuf, os[i])
      requires !cgi && !closed && !unframed && bodyRead == cgiRead == 0
      requires isChnkd || cntLen == SIZE_T_MAX || cntLen <= bodyLimit
      requires Abs() == Start(bodyLimit, HeaderParsing).(wire := Wire(), cntLen := cntLen)
      modifies this, heap, buf, chnkdBody, bodyBuf, sink, rdbuf, Bases(rdbuf.rdbuf)
      ensures Serving(rdbuf) && k <= |os|
      ensures k < |os| ==> state == ReqClear || !CanHappen(os[k])
      ensures k < |os| && state != ReqClear ==> Impossible(os[k])
      ensures AbsT() == Transfer.After(old(Asked()), [Transfer.Received(old(Wire()))] + Events(os[..k]))
    {
      hide Queues, Wire, Decoded, Call, SpxBuffer.Content, SpxBuffer.Valid, Free, Abs, Kinds, Pool, Transfer.Dispatch,
        Transfer.Receive, Transfer.After, CanHappen;
      ghost var w, asked := Wire(), Asked();
      NothingDecoded();
      UploadBegins(AbsT(), bodyLimit, w, cntLen, isChnkd);
      ResForPostPut(true);
      SamePool(rdbuf);
      k := Serve(rdbuf, os);
      ReceivedFirst(asked, w, Events(os[..k]));
    }

    /** What a file that has been closed as done holds. */
    lemma Uploaded(limit: nat, w: bytes, os: seq<Occasion>)
      requires Valid() && AbsT() == Transfer.After(Transfer.StartChunked(limit, false, SIZE_T_MAX),
                                                   [Transfer.Received(w)] + Events(os))
      ensures closed && limit <= CARRY_FREE ==> Transfer.Complete(AbsT()) && sink.received == Abs().out
    {
      hide Transfer.After, Transfer.Complete, Abs, Chunked.Serve, Transfer.Inputs, Events;
      var es := [Transfer.Received(w)] + Events(os);
      if closed && limit <= CARRY_FREE {
        Transfer.Conservation(limit, false, SIZE_T_MAX, es);
        Transfer.LimitKept(Transfer.StartChunked(limit, false, SIZE_T_MAX), es);
        NotCgi(limit);
        WhollySunk();
      }
    }

    /** The same for a file of known length: `c` bytes, the first of those received. */
    lemma UploadedLength(limit: nat, c: nat, w: bytes, os: seq<Occasion>, rdbuf: ReadBuffer.SpxReadBuffer)
      requires Valid() && AbsT() == Transfer.After(Transfer.StartLength(limit, false, c),
                                                   [Transfer.Received(w)] + Events(os))
      requires c <= SIZE_T_MAX && forall i :: 0 <= i < |os| ==> Possible(rdbuf, os[i])
      requires Countable(c, w, rdbuf)
      ensures closed ==> c <= |AllRead(w, os)| && sink.received == AllRead(w, os)[..c]
    {
      hide Transfer.After, Abs, Transfer.Inputs, Events, Concat;
      var es, all := [Transfer.Received(w)] + Events(os), w + Concat(DataRead(os));
      AllSmall(os, rdbuf);
      assert es[0] == Transfer.Received(w) && es[1..] == Events(os);
      KnownLength.FirstBytes(es);
      EventsBring(os);
      KnownLength.LengthConservation(limit, false, c, es);
      SunkFirst();
      if closed {
        assert AbsT().dec.out == all[..c];
      }
    }

    /**
     * The end comes: when all of a printed body has been read, in any pieces, writes that add up to
     * what is left of it leave the file closed, with exactly the body in it.
     */
    lemma UploadCompletes(limit: nat, w: bytes, before: seq<Occasion>, counts: seq<nat>,
                          body: seq<bytes>, suffix: bytes)
      requires Valid() && counts != []
      requires AbsT() == Transfer.After(Transfer.StartChunked(limit, false, SIZE_T_MAX),
                                        [Transfer.Received(w)] + Events(before + Writes(counts)))
      requires CutBodies.Sendable(body) && |Concat(body)| <= limit <= SIZE_T_MAX && |Concat(body)| < SIZE_T_MAX
      requires w + Concat(DataRead(before)) == ChunkedRoundTrip.ChunkedCoding(body) + suffix
      requires var sunk := Transfer.After(Transfer.StartChunked(limit, false, SIZE_T_MAX),
                                          [Transfer.Received(w)] + Events(before)).sunk;
               sunk + Transfer.Sum(counts) >= |Concat(body)|
      ensures closed && sink.received == Concat(body) && Wire() == suffix
    {
      hide Transfer.After, Abs, Transfer.Inputs, Events, Concat, ChunkedRoundTrip.ChunkedCoding, Transfer.Deliveries,
        CutBodies.Sendable, Transfer.Sum, Closing.Arrived;
      var es := [Transfer.Received(w)] + Events(before);
      ThenWrites(w, before, counts);
      BytesArrive(w, before, body, suffix);
      Closing.Completes(limit, false, SIZE_T_MAX, body, suffix, es, counts);
      AllSunk();
    }

    /** The same for a file of known length. */
    lemma UploadLengthCompletes(limit: nat, c: nat, w: bytes, before: seq<Occasion>, counts: seq<nat>,
                                rdbuf: ReadBuffer.SpxReadBuffer)
      requires Valid() && counts != []
      requires AbsT() == Transfer.After(Transfer.StartLength(limit, false, c),
                                        [Transfer.Received(w)] + Events(before + Writes(counts)))
      requires c <= SIZE_T_MAX && forall i :: 0 <= i < |before| ==> Possible(rdbuf, before[i])
      requires Countable(c, w, rdbuf)
      requires c <= |AllRead(w, before)|
      requires var sunk := Transfer.After(Transfer.StartLength(limit, false, c),
                                          [Transfer.Received(w)] + Events(before)).sunk;
               sunk + Transfer.Sum(counts) >= c
      ensures closed && sink.received == AllRead(w, before)[..c] && Wire() == AllRead(w, before)[c..]
    {
      hide Transfer.After, Abs, Transfer.Inputs, Events, Concat, Transfer.Deliveries, Transfer.Sum;
      var es := [Transfer.Received(w)] + Events(before);
      ThenWrites(w, before, counts);
      AllSmall(before, rdbuf);
      assert es[0] == Transfer.Received(w) && es[1..] == Events(before);
      KnownLength.FirstBytes(es);
      EventsBring(before);
      KnownLength.LengthCompletes(limit, false, c, es, counts);
      AllSunk();
    }

    lemma AllSunk()
      requires Valid()
      ensures AbsT().closed == closed && AbsT().dec.wire == Wire()
      ensures AbsT().sunk == |AbsT().dec.out| ==> sink.received == AbsT().dec.out
    {
    }

    /** Of an upload without a length and without a coding, nothing arrives. */
    lemma UploadedNothing(limit: nat, w: bytes, os: seq<Occasion>)
      requires Valid() && AbsT() == Transfer.After(Transfer.StartUnframed(limit),
                                                   [Transfer.Received(w)] + Events(os))
      ensures sink.received == []
    {
      hide Transfer.After, Abs, Events;
      Unframed.NothingDelivered(limit, [Transfer.Received(w)] + Events(os), 0);
    }

    /** What has been delivered is the beginning of what has been decoded. */
    lemma SunkFirst()
      requires Valid()
      ensures AbsT().sunk == |sink.received| && sink.received <= AbsT().dec.out
    {
    }

    lemma WhollySunk()
      requires Valid()
      ensures Transfer.Complete(AbsT()) ==> sink.received == Abs().out
    {
    }

    lemma NothingDecoded()
      requires Valid() && Abs().out == []
      ensures chnkdBody.Content() == [] && bodyBuf.Content() == [] && sink.received == []
      ensures lastChnkd == Abs().last && cut == Abs().cut
    {
    }

    ghost method SetUnframed()
      requires Valid()
      modifies this`unframed
      ensures Valid() && Wire() == old(Wire()) && Decoded() == old(Decoded()) && unframed == !isChnkd
      ensures chnkdBody.Content() == old(chnkdBody.Content()) && bodyBuf.Content() == old(bodyBuf.Content())
    {
      hide Wire, Decoded, SpxBuffer.Content;
      unframed := !isChnkd;
      SameQueues();
    }

    method SetBody()
      requires Valid()
      modifies this`state
      ensures Queues() && Wire() == old(Wire()) && Decoded() == old(Decoded())
      ensures chnkdBody.Content() == old(chnkdBody.Content()) && bodyBuf.Content() == old(bodyBuf.Content())
      ensures state == Body
    {
      state := Body;
      SameQueues();
    }
  }

  // ----- runs of events -----

  lemma NoEvents(t: Transfer.Transfer)
    requires t.sunk <= |t.dec.out|
    ensures Transfer.After(t, []) == t && Events([]) == []
  {
  }

  /** The run of one event. */
  lemma EventAlone(t: Transfer.Transfer, o: Occasion)
    requires t.sunk <= |t.dec.out|
    ensures EventOf(o) == [] ==> Transfer.After(t, EventOf(o)) == t
    ensures EventOf(o) != [] ==> Transfer.After(t, EventOf(o)) == Transfer.Next(t, EventOf(o)[0])
    ensures o.CanRead? && o.answer.Arrived? ==>
              Transfer.After(t, EventOf(o)) == Transfer.Receive(t, o.answer.data)
    ensures o.ResponsePart? ==> Transfer.After(t, EventOf(o)) == Transfer.Receive(t, [])
    ensures o.ResponseDone? ==> Transfer.After(t, EventOf(o)) == t.(dec := Answer(t.dec))
  {
    hide Transfer.Receive, Answer, Transfer.Deliver;
    var es := EventOf(o);
    if es != [] {
      assert es[1..] == [];
      assert Transfer.After(Transfer.Next(t, es[0]), []) == Transfer.Next(t, es[0]);
    }
  }

  lemma NothingNew(t: Transfer.Transfer)
    ensures Transfer.Receive(t, []) == Transfer.Dispatch(t)
  {
    hide Transfer.Dispatch;
    assert t.dec.wire + [] == t.dec.wire;
  }

  lemma NoDelivery(t: Transfer.Transfer, answer: int)
    requires !Transfer.Deliverable(t) && t.sunk <= |t.dec.out|
    ensures answer >= 0 ==> Transfer.Next(t, Transfer.Delivered(answer)) == t
  {
  }

  lemma DeliverNext(t: Transfer.Transfer, answer: int)
    requires t.sunk <= |t.dec.out| && (answer >= 0 ==> t.sunk + answer <= |t.dec.out|)
    ensures answer >= 0 ==> Transfer.Next(t, Transfer.Delivered(answer)) == Transfer.Deliver(t, answer)
  {
    hide Transfer.Deliver;
  }

  lemma {:induction false} EventsConcat(os: seq<Occasion>, ps: seq<Occasion>)
    ensures Events(os + ps) == Events(os) + Events(ps)
    decreases |os|
  {
    hide EventOf;
    if os == [] {
      assert os + ps == ps;
    } else {
      assert (os + ps)[0] == os[0] && (os + ps)[1..] == os[1..] + ps;
      EventsConcat(os[1..], ps);
    }
  }

  lemma EventsNext(os: seq<Occasion>, k: nat)
    requires k < |os|
    ensures Events(os[..k + 1]) == Events(os[..k]) + EventOf(os[k])
  {
    hide EventOf;
    assert os[..k + 1] == os[..k] + [os[k]] && [os[k]][1..] == [];
    EventsConcat(os[..k], [os[k]]);
    assert Events([os[k]]) == EventOf(os[k]) + [];
  }

  /** The bytes that a run of the transfer receives are the bytes read. */
  lemma {:induction false} EventsBring(os: seq<Occasion>)
    ensures Concat(Pieces(Transfer.Inputs(Events(os)))) == Concat(DataRead(os))
    decreases |os|
  {
    if os == [] {
      assert Events(os) == [];
    } else {
      hide Concat, Transfer.Inputs, EventOf, DataOf, DataRead;
      var es, rest := Events(os), Events(os[1..]);
      EventsBring(os[1..]);
      ConcatFirst(os);
      EventBrings(os[0]);
      if EventOf(os[0]) == [] {
        assert es == rest && [] + Concat(DataRead(os[1..])) == Concat(DataRead(os[1..]));
      } else {
        assert es[0] == EventOf(os[0])[0] && es[1..] == rest;
        KnownLength.FirstBytes(es);
      }
    }
  }

  /** The bytes behind the header and those read. */
  function AllRead(w: bytes, os: seq<Occasion>): bytes {
    w + Concat(DataRead(os))
  }

  /** An `int` counts the body, or every piece of it. */
  predicate Countable(c: nat, w: bytes, rdbuf: ReadBuffer.SpxReadBuffer) {
    c < 0x8000_0000 || (|w| < 0x8000_0000 && rdbuf.vecSize * rdbuf.segment < 0x8000_0000)
  }

  /** Writes that take these numbers of bytes. */
  function Writes(counts: seq<nat>): seq<Occasion> {
    if counts == [] then [] else [CanWrite(counts[0])] + Writes(counts[1..])
  }

  lemma {:induction false} WritesAre(counts: seq<nat>)
    ensures Events(Writes(counts)) == Transfer.Deliveries(counts)
    decreases |counts|
  {
    if counts != [] {
      WritesAre(counts[1..]);
      assert Writes(counts)[0] == CanWrite(counts[0]) && Writes(counts)[1..] == Writes(counts[1..]);
    }
  }

  lemma ThenWrites(w: bytes, os: seq<Occasion>, counts: seq<nat>)
    ensures [Transfer.Received(w)] + Events(os + Writes(counts)) ==
              [Transfer.Received(w)] + Events(os) + Transfer.Deliveries(counts)
  {
    hide Events, Transfer.Deliveries;
    EventsConcat(os, Writes(counts));
    WritesAre(counts);
  }

  lemma BytesArrive(w: bytes, os: seq<Occasion>, body: seq<bytes>, suffix: bytes)
    requires w + Concat(DataRead(os)) == ChunkedRoundTrip.ChunkedCoding(body) + suffix
    ensures Closing.Arrived([Transfer.Received(w)] + Events(os), body, suffix)
  {
    hide Transfer.Inputs, Events, Concat, ChunkedRoundTrip.ChunkedCoding;
    var es := [Transfer.Received(w)] + Events(os);
    assert es[0] == Transfer.Received(w) && es[1..] == Events(os);
    KnownLength.FirstBytes(es);
    EventsBring(os);
  }

  lemma EventBrings(o: Occasion)
    ensures EventOf(o) == [] ==> DataOf(o) == []
    ensures EventOf(o) != [] ==>
              |EventOf(o)| == 1 && DataOf(o) == if EventOf(o)[0].Received? then EventOf(o)[0].data else []
  {
  }

  /** No piece is longer than what the pool of the reads holds. */
  lemma {:induction false} AllSmall(os: seq<Occasion>, rdbuf: ReadBuffer.SpxReadBuffer)
    requires forall i :: 0 <= i < |os| ==> Possible(rdbuf, os[i])
    ensures KnownLength.AtMost(Events(os), rdbuf.vecSize * rdbuf.segment)
    decreases |os|
  {
    if os != [] {
      AllSmall(os[1..], rdbuf);
      var e, rest := EventOf(os[0]), Events(os[1..]);
      assert forall i :: 0 <= i < |rest| ==> (e + rest)[|e| + i] == rest[i];
    }
  }

  lemma ConcatFirst(os: seq<Occasion>)
    requires os != []
    ensures Concat(DataRead(os)) == DataOf(os[0]) + Concat(DataRead(os[1..]))
  {
    assert DataRead(os)[1..] == DataRead(os[1..]);
  }

  /** The bytes that came with the header are received first. */
  lemma UploadBegins(t: Transfer.Transfer, limit: nat, w: bytes, c: nat, coded: bool)
    requires t == Transfer.Transfer(Start(limit, HeaderParsing).(wire := w, cntLen := c),
                                    coded, false, 0, 0, 0, false, false)
    ensures coded || c == SIZE_T_MAX ==>
              Transfer.Dispatch(t.(dec := t.dec.(bodySize := 0, cntLen := SIZE_T_MAX, state := BodyChunked),
                                   unframed := !coded)) ==
                Transfer.Receive(if coded then Transfer.StartChunked(limit, false, SIZE_T_MAX)
                                 else Transfer.StartUnframed(limit), w)
    ensures !coded && c != SIZE_T_MAX ==>
              Transfer.Dispatch(t.(dec := t.dec.(state := Body))) ==
                Transfer.Receive(Transfer.StartLength(limit, false, c), w)
  {
    hide Transfer.Dispatch;
    assert [] + w == w;
  }

  lemma ReceivedFirst(t: Transfer.Transfer, w: bytes, es: seq<Transfer.Event>)
    requires t.sunk <= |t.dec.out|
    ensures var u := Transfer.Receive(t, w);
            u.sunk <= |u.dec.out| && Transfer.After(u, es) == Transfer.After(t, [Transfer.Received(w)] + es)
  {
    hide Transfer.Receive;
    var all := [Transfer.Received(w)] + es;
    assert all[0] == Transfer.Received(w) && all[1..] == es;
    assert Transfer.After(t, all) == Transfer.After(Transfer.Next(t, all[0]), es);
  }

  lemma NotCgi(limit: nat)
    ensures !Transfer.StartChunked(limit, false, SIZE_T_MAX).cgi
  {
  }

  /** The dispatch, state by state. */
  lemma DispatchIs(t: Transfer.Transfer)
    ensures t.dec.state == Body || t.dec.state == CgiBody ==> Transfer.Dispatch(t) == Transfer.LengthPoll(t)
    ensures t.dec.state == BodyChunked || t.dec.state == CgiBodyChunked ==>
              Transfer.Dispatch(t) == t.(dec := Call(t.dec, DECODE))
    ensures t.dec.state == SkipBodyChunked ==> Transfer.Dispatch(t) == t.(dec := Call(t.dec, SKIP))
    ensures t.dec.state in {Hold, BadReq} ==> Transfer.Dispatch(t) == t
  {
  }

  lemma LengthPollIs(t: Transfer.Transfer, n: nat)
    requires n == Min(|t.dec.wire|, Transfer.SubSize(t.dec.cntLen, t.bodyRead))
    ensures var read := Transfer.AddSize(t.bodyRead, Transfer.ToInt(n));
            Transfer.LengthPoll(t) == t.(bodyRead := read, dec := t.dec.(wire := t.dec.wire[n..],
              out := t.dec.out + t.dec.wire[..n], state := if read == t.dec.cntLen then Hold else t.dec.state))
  {
    hide Transfer.AddSize, Transfer.SubSize, Transfer.ToInt;
  }

  /** A request on hold only collects what arrives. */
  lemma HoldWaits(t: Transfer.Transfer)
    requires t.dec.state == Hold
    ensures Transfer.Dispatch(t) == t
  {
  }

  /** Where a call ends: outside its phase. */
  lemma CallEnds(t: Decoder, phase: set<State>)
    ensures t.state !in phase ==> Call(t, phase) == t
  {
  }

  /** What a size line does, by the answer of the scanner. */
  lemma SizeLineMeans(s: Decoder, ok: bool, size: nat)
    requires FlatLine(s.wire).Line?
    requires var line := s.wire[..FlatLine(s.wire).length];
             && (ok <==> ChunkSize.SizeOf(line).Some?)
             && (ok ==> ChunkSize.SizeOf(line) == Some(size))
             && size == ChunkSize.SizeAfter(line, s.chnkd)
    ensures FlatLine(s.wire).length + 2 <= |s.wire|
    ensures StartChunk(s) ==
              Sized(s.(wire := s.wire[FlatLine(s.wire).length + 2..]), if ok then Some(size) else None, size)
  {
    hide Sized, ChunkSize.SizeOf, ChunkSize.SizeAfter, FlatLine;
    LineFits(s.wire);
  }

  /** A call that stands between two chunks. */
  lemma SizeLineCall(t: Decoder, phase: set<State>)
    requires t.state in phase && t.state in STREAM && t.chnkd == 0
    ensures FlatLine(t.wire).Line? ==>
              Call(t, phase) == Call(StartChunk(t), phase) && |StartChunk(t).wire| < |t.wire|
    ensures FlatLine(t.wire).Line? ==> StartChunk(t).state !in {Hold, ReqClear}
    ensures !FlatLine(t.wire).Line? ==> Call(t, phase) == t
  {
    hide FlatLine, StartChunk, EndChunk;
    if FlatLine(t.wire).Line? {
      StartFacts(t);
    }
  }

  lemma StartFacts(t: Decoder)
    requires t.state in STREAM && FlatLine(t.wire).Line?
    ensures |StartChunk(t).wire| < |t.wire| && StartChunk(t).state !in {Hold, ReqClear}
  {
    hide FlatLine, ChunkSize.SizeOf, ChunkSize.SizeAfter;
    LineFits(t.wire);
  }

  /** The data part of a call, done at once: all of it, or as much as has been received. */
  lemma DataPart(s: Decoder, n: nat, phase: set<State>)
    requires s.state in phase && s.state in STREAM && s.chnkd > 2 && n == Min(s.chnkd - 2, |s.wire|)
    ensures var t := Taken(s, n);
            && Call(s, phase) == Call(t, phase) && t.state == s.state && t.last == s.last && t.chnkd == s.chnkd - n
            && |t.wire| == |s.wire| - n && (t.chnkd != 2 ==> Call(s, phase) == t)
  {
    hide Call;
    TakeMany(s, n, phase);
    if s.chnkd - n != 2 {
      Starved(Taken(s, n), phase);
    }
  }

  /** Without bytes no data can be taken. */
  lemma Starved(t: Decoder, phase: set<State>)
    requires t.chnkd > 2 && t.wire == []
    ensures Call(t, phase) == t
  {
  }

  /** The step that ends a chunk, as part of a call. */
  lemma EndCall(t: Decoder, phase: set<State>)
    requires t.state in phase && t.state in STREAM && 0 < t.chnkd <= 2
    ensures var r := |t.wire| >= 2 && (t.state == SkipBodyChunked ==> t.finished);
            Call(t, phase) == if !r then t else if t.chnkd == 1 then EndChunk(t) else Call(EndChunk(t), phase)
  {
    hide StartChunk, EndChunk, FlatLine;
    if |t.wire| >= 2 && (t.state == SkipBodyChunked ==> t.finished) {
      assert Step(t) == EndChunk(t);
    }
  }

  /** The state behind the end of a chunk. */
  lemma EndMeans(t: Decoder)
    requires t.state in STREAM && 0 < t.chnkd <= 2 && |t.wire| >= 2 && (t.last ==> t.chnkd == 2)
    ensures var u := EndChunk(t);
            && (u.chnkd == 0 ==> t.chnkd == 2 && |u.wire| < |t.wire|)
            && (u.chnkd == 0 ==> u.state == if u.last then (if t.state in DECODE then Hold else ReqClear) else t.state)
            && (u.chnkd != 0 ==> u.state == BadReq || (t.chnkd == 1 && u.state == t.state))
            && (t.state in DECODE ==> u.state != BadReq)
  {
  }

  /** The end of a chunk, in the decoder: `u` is the state behind it, or the same when bytes are missing. */
  lemma EndPart(t: Decoder, u: Decoder, r: bool)
    requires t.state in DECODE && 0 < t.chnkd <= 2 && (t.last ==> t.chnkd == 2)
    requires (r <==> |t.wire| >= 2) && u == if r then EndChunk(t) else t
    ensures r && u.chnkd == 0 ==> Call(t, DECODE) == Call(u, DECODE) && |u.wire| < |t.wire|
    ensures r && u.chnkd == 0 ==> if u.last then u.state == Hold else u.state in DECODE
    ensures !(r && u.chnkd == 0) ==> Call(t, DECODE) == u && u.state in DECODE
  {
    hide Call, EndChunk;
    EndCall(t, DECODE);
    if r {
      EndMeans(t);
    }
  }

  /** The same in the skipper, which waits for the response and fails without CR LF. */
  lemma SkipEndPart(t: Decoder, u: Decoder, r: bool)
    requires t.state == SkipBodyChunked && 0 < t.chnkd <= 2 && (t.last ==> t.chnkd == 2)
    requires (r <==> t.finished && |t.wire| >= 2) && u == if r then EndChunk(t) else t
    ensures r && u.chnkd == 0 ==> Call(t, SKIP) == Call(u, SKIP) && |u.wire| < |t.wire|
    ensures r && u.chnkd == 0 ==> if u.last then u.state == ReqClear else u.state == SkipBodyChunked
    ensures !(r && u.chnkd == 0) ==> Call(t, SKIP) == u && u.state in {SkipBodyChunked, BadReq}
  {
    hide Call, EndChunk;
    EndCall(t, SKIP);
    if r {
      EndMeans(t);
      CallEnds(u, SKIP);
    }
  }

  /** CR is found first and LF second exactly when the content begins with CR LF. */
  lemma FirstTwo(w: bytes, front: nat)
    requires |w| >= 2
    ensures FindPos(w, front, CR, SIZE_T_MAX) == Some(0) && FindPos(w, front, LF, SIZE_T_MAX) == Some(1)
       <==> w[..2] == CRLF
  {
    if w[..2] == CRLF {
      assert w[0] == w[..2][0] && w[1] == w[..2][1];
      IndexOfUnique(w, CR, 0);
      IndexOfUnique(w, LF, 1);
    } else {
      assert w[..2] == [w[0], w[1]];
    }
  }
}
