/** The head of a request: the request line and the header fields, read as they arrive. */
module Heads {
  import opened Bytes
  import opened Lines
  import opened Memory
  import opened Buffer
  import opened StartLine

  datatype Stage = RequestLine | Fields | Complete | Refused

  /** The bytes received and not consumed, and what has been read of the head. */
  datatype Request = Request(wire: bytes, stage: Stage, method_: Method, uri: bytes, fields: map<bytes, bytes>)

  function Feed(h: Request, data: bytes): Request {
    h.(wire := h.wire + data)
  }

  function Lower(c: byte): byte {
    if IsUpper(c) then (c as int + 32) as char else c
  }

  /** Field names are kept in lower case. */
  function LowerAll(s: bytes): (r: bytes)
    ensures |r| == |s| && forall i :: 0 <= i < |s| ==> r[i] == Lower(s[i])
  {
    if s == [] then [] else [Lower(s[0])] + LowerAll(s[1..])
  }

  /** `l` is the small letter for `c`, or `c` itself when it is no capital. */
  predicate SmallFor(c: byte, l: byte) {
    || (c !in "ABCDEFGHIJKLMNOPQRSTUVWXYZ" && l == c)
    || exists k :: 0 <= k < 26 && "ABCDEFGHIJKLMNOPQRSTUVWXYZ"[k] == c && "abcdefghijklmnopqrstuvwxyz"[k] == l
  }

  /** `low` is `s` with its capitals made small. */
  predicate Lowered(s: bytes, low: bytes) {
    |s| == |low| && forall i :: 0 <= i < |s| ==> SmallFor(s[i], low[i])
  }

  lemma BigLetter(k: nat)
    requires k < 26
    ensures "ABCDEFGHIJKLMNOPQRSTUVWXYZ"[k] == (65 + k) as char
  {
  }

  lemma SmallLetter(k: nat)
    requires k < 26
    ensures "abcdefghijklmnopqrstuvwxyz"[k] == (97 + k) as char
  {
  }

  /** The alphabet, letter by letter. */
  lemma LowerTable(c: byte, l: byte)
    ensures SmallFor(c, l) <==> l == Lower(c)
  {
    forall k | 0 <= k < 26
      ensures "ABCDEFGHIJKLMNOPQRSTUVWXYZ"[k] == (65 + k) as char
      ensures "abcdefghijklmnopqrstuvwxyz"[k] == (97 + k) as char
    {
      BigLetter(k);
      SmallLetter(k);
    }
    if IsUpper(c) {
      var k := c as int - 65;
      assert "ABCDEFGHIJKLMNOPQRSTUVWXYZ"[k] == c;
    }
  }

  lemma LoweredIff(s: bytes, low: bytes)
    ensures Lowered(s, low) <==> low == LowerAll(s)
  {
    hide SmallFor, Lower;
    forall i | 0 <= i < |s| && i < |low|
      ensures SmallFor(s[i], low[i]) <==> low[i] == Lower(s[i])
    {
      LowerTable(s[i], low[i]);
    }
  }

  /** Length of the white space a string begins with. */
  function OwsRun(s: bytes): (n: nat)
    ensures n <= |s| && (n < |s| ==> !IsOws(s[n]))
  {
    if s == [] || !IsOws(s[0]) then 0 else 1 + OwsRun(s[1..])
  }

  /** A line without a colon is ignored; a repeated name replaces the value. */
  function Store(fields: map<bytes, bytes>, line: bytes): map<bytes, bytes> {
    var i := IndexOf(line, ':');
    if i == |line| then fields else
      var value := line[i + 1..];
      fields[LowerAll(line[..i]) := value[OwsRun(value)..]]
  }

  const TRANSFER_ENCODING: bytes := "transfer-encoding"

  /** When the fields end, one value is put in lower case. */
  function Rewritten(fields: map<bytes, bytes>): map<bytes, bytes> {
    if TRANSFER_ENCODING in fields then fields[TRANSFER_ENCODING := LowerAll(fields[TRANSFER_ENCODING])] else fields
  }

  function FieldsDone(h: Request): Request {
    h.(stage := Complete, fields := Rewritten(h.fields))
  }

  /** The method and the URI of an acceptable request line. */
  ghost function Accepted(line: bytes): Option<(Method, bytes)> {
    if |line| <= REQUEST_LINE_MAX && exists m, u :: Prints(line, m, u) then
      var m, u :| Prints(line, m, u);
      Some((m, u))
    else None
  }

  /** What a line of `n` bytes does. */
  ghost function Next(h: Request, n: nat): (t: Request)
    requires n + 2 <= |h.wire| && h.stage in {RequestLine, Fields}
    ensures t.wire == h.wire[n + 2..]
  {
    var line, rest := h.wire[..n], h.wire[n + 2..];
    match h.stage
    case RequestLine =>
      if n == 0 then h.(wire := rest)
      else if Accepted(line) == None then h.(wire := rest, stage := Refused)
      else h.(wire := rest, stage := Fields, method_ := Accepted(line).value.0, uri := Accepted(line).value.1)
    case _ =>
      if n == 0 then FieldsDone(h.(wire := rest)) else h.(wire := rest, fields := Store(h.fields, line))
  }

  /**
   * One call: everything that can be read is read.  Empty lines before the request line are
   * skipped.  A line ending in LF alone stops the request line for good, but ends the fields.
   */
  ghost function Parse(h: Request): Request
    decreases |h.wire|
  {
    if h.stage !in {RequestLine, Fields} then h else
      match FlatLine(h.wire)
      case NoLine => h
      case Malformed => if h.stage == Fields then FieldsDone(h) else h
      case Line(n) => Parse(Next(h, n))
  }

  // ----- fragmentation independence -----

  /** The head does not depend on how its bytes were delivered. */
  lemma {:induction false} Fragmentation(h: Request, b: bytes)
    ensures Parse(Feed(Parse(h), b)) == Parse(Feed(h, b))
    decreases |h.wire|
  {
    match FlatLine(h.wire)
    case NoLine =>
    case Malformed =>
      MalformedStays(h.wire, b);
    case Line(n) =>
      LineStays(h.wire, b);
      var c := h.wire + b;
      assert c[..n] == h.wire[..n] && c[n + 2..] == h.wire[n + 2..] + b;
      if h.stage in {RequestLine, Fields} {
        Fragmentation(Next(h, n), b);
      }
  }

  lemma MalformedStays(c: bytes, more: bytes)
    requires FlatLine(c) == Malformed
    ensures FlatLine(c + more) == Malformed
  {
    IndexOfConcat(c, more, LF);
  }

  /** One call for every piece that arrives. */
  ghost function Arrive(h: Request, pieces: seq<bytes>): Request
    decreases |pieces|
  {
    if pieces == [] then h else Arrive(Parse(Feed(h, pieces[0])), pieces[1..])
  }

  lemma {:induction false} ArriveAtOnce(h: Request, pieces: seq<bytes>)
    requires pieces != []
    ensures Arrive(h, pieces) == Parse(Feed(h, Concat(pieces)))
    decreases |pieces|
  {
    hide Parse;
    var first, rest := Feed(h, pieces[0]), Concat(pieces[1..]);
    if |pieces| == 1 {
      assert pieces[0] + [] == pieces[0];
    } else {
      ArriveAtOnce(Parse(first), pieces[1..]);
      Fragmentation(first, rest);
      assert h.wire + pieces[0] + rest == h.wire + (pieces[0] + rest);
    }
  }

  /** Empty lines in front of a request line are skipped. */
  lemma EmptyLinesSkipped(h: Request, rest: bytes)
    requires h.stage == RequestLine && h.wire == CRLF + rest
    ensures Parse(h) == Parse(h.(wire := rest))
  {
    assert h.wire == [] + CRLF + rest;
    ScanPrinted([], rest);
    assert h.wire[2..] == rest;
  }

  /**
   * A line that is no request line is taken and the request refused, and nothing behind it is read;
   * any other is taken for the request that prints it.
   */
  lemma RequestLineDecides(h: Request, line: bytes, rest: bytes)
    requires h.stage == RequestLine && h.wire == line + CRLF + rest && 0 < |line| < LINE_MAX && LF !in line
    ensures (forall m, u :: !Prints(line, m, u)) ==> Parse(h) == h.(wire := rest, stage := Refused)
    ensures forall m, u :: Prints(line, m, u) ==>
              Parse(h) == Parse(h.(wire := rest, stage := Fields, method_ := m, uri := u))
  {
    hide FlatLine, Prints, Store;
    ScanPrinted(line, rest);
    assert h.wire[..|line|] == line && h.wire[|line| + 2..] == rest;
    if m, u :| Prints(line, m, u) {
      forall m, u | Prints(line, m, u)
        ensures Parse(h) == Parse(h.(wire := rest, stage := Fields, method_ := m, uri := u))
      {
        PrintsIs(line, m, u);
        AcceptedPrinted(line, m, u);
      }
    } else {
      assert Accepted(line) == None;
    }
  }

  lemma PrintsIs(line: bytes, m: Method, u: bytes)
    requires Prints(line, m, u)
    ensures m != Undefined && ValidUri(u) && line == Print(m, u)
  {
  }

  /** A request line that ends in LF alone is never consumed, whatever follows it. */
  lemma BareLfBlocks(h: Request, more: bytes)
    requires h.stage == RequestLine && FlatLine(h.wire) == Malformed
    ensures Parse(Feed(h, more)) == Feed(h, more)
  {
    MalformedStays(h.wire, more);
  }

  /** Where the fields end: behind an empty line, or before a line that ends in LF alone. */
  predicate Ends(c: bytes, k: nat) {
    k <= |c| && (FlatLine(c[k..]) == Malformed || (k >= 2 && c[k - 2..k] == CRLF))
  }

  lemma {:induction false} FieldsEnd(h: Request) returns (k: nat)
    requires h.stage == Fields && Parse(h).stage == Complete
    ensures Ends(h.wire, k) && Parse(h).wire == h.wire[k..]
    decreases |h.wire|
  {
    hide Store, Ends, FlatLine;
    LineFits(h.wire);
    k := 0;
    match FlatLine(h.wire) {
      case NoLine =>
      case Malformed =>
        EndsHere(h.wire);
      case Line(n) =>
        if n == 0 {
          k := 2;
          EndsEmpty(h.wire);
        } else {
          k := FieldsEnd(Next(h, n));
          EndsLater(h.wire, n + 2, k);
          k := n + 2 + k;
        }
    }
  }

  lemma EndsHere(c: bytes)
    requires FlatLine(c) == Malformed
    ensures Ends(c, 0) && c[0..] == c
  {
    assert c[0..] == c;
  }

  lemma EndsEmpty(c: bytes)
    requires FlatLine(c) == Line(0)
    ensures Ends(c, 2)
  {
    LineFits(c);
  }

  lemma EndsLater(c: bytes, n: nat, k: nat)
    requires n <= |c| && Ends(c[n..], k)
    ensures Ends(c, n + k) && c[n..][k..] == c[n + k..]
  {
    SliceSlice(c, n, k);
  }

  lemma SliceSlice(c: bytes, n: nat, k: nat)
    requires n + k <= |c|
    ensures c[n..][k..] == c[n + k..] && (k >= 2 ==> c[n..][k - 2..k] == c[n + k - 2..n + k])
  {
  }

  // ----- the round trip -----

  datatype Field = Field(name: bytes, space: bytes, value: bytes)

  /** A field as section 3.2 of RFC 7230 has it: a name in any case, and any blanks and tabs before the value. */
  predicate Sendable(f: Field) {
    && ':' !in f.name && LF !in f.name
    && (forall i :: 0 <= i < |f.space| ==> f.space[i] in " \t")
    && LF !in f.value && (f.value != [] ==> f.value[0] !in " \t")
    && |f.name| + |f.space| + |f.value| + 1 < LINE_MAX
  }

  function PrintField(f: Field): bytes {
    f.name + ":" + f.space + f.value
  }

  function PrintFields(fs: seq<Field>): bytes {
    if fs == [] then [] else PrintField(fs[0]) + CRLF + PrintFields(fs[1..])
  }

  /** The fields of a list; of two with one name the last one counts. */
  function Merged(fields: map<bytes, bytes>, fs: seq<Field>): map<bytes, bytes>
    decreases |fs|
  {
    if fs == [] then fields else Merged(fields[LowerAll(fs[0].name) := fs[0].value], fs[1..])
  }

  /** A printed field is stored under its name in small letters, without the white space. */
  lemma StorePrinted(fields: map<bytes, bytes>, f: Field, low: bytes)
    requires Sendable(f) && Lowered(f.name, low)
    ensures Store(fields, PrintField(f)) == fields[low := f.value] && LF !in PrintField(f)
  {
    hide Lowered, OwsRun, LowerAll;
    PrintedOnOneLine(f);
    ColonPlace(f);
    LoweredIff(f.name, low);
    SpaceRun(f.space, f.value);
  }

  lemma ColonPlace(f: Field)
    requires Sendable(f)
    ensures var line, i := PrintField(f), |f.name|;
            IndexOf(line, ':') == i < |line| && line[..i] == f.name && line[i + 1..] == f.space + f.value
  {
    var line, i := PrintField(f), |f.name|;
    assert line == f.name + (":" + (f.space + f.value));
    assert forall k :: 0 <= k < i ==> line[k] == f.name[k];
    assert line[i] == ':';
    IndexOfUnique(line, ':', i);
  }

  lemma PrintedOnOneLine(f: Field)
    requires Sendable(f)
    ensures LF !in PrintField(f)
  {
    assert LF !in f.space;
  }

  lemma {:induction false} SpaceRun(space: bytes, value: bytes)
    requires forall i :: 0 <= i < |space| ==> space[i] in " \t"
    requires value != [] ==> value[0] !in " \t"
    ensures OwsRun(space + value) == |space| && (space + value)[|space|..] == value
    decreases |space|
  {
    if space == [] {
      assert space + value == value;
    } else {
      assert (space + value)[1..] == space[1..] + value;
      SpaceRun(space[1..], value);
    }
  }

  /** A line without a colon is ignored. */
  lemma StoreIgnores(fields: map<bytes, bytes>, line: bytes)
    requires ':' !in line
    ensures Store(fields, line) == fields
  {
    IndexOfUnique(line, ':', |line|);
  }

  lemma {:induction false} FieldsBack(h: Request, fs: seq<Field>, rest: bytes)
    requires h.stage == Fields && h.wire == PrintFields(fs) + CRLF + rest
    requires forall i :: 0 <= i < |fs| ==> Sendable(fs[i])
    ensures Parse(h) == h.(wire := rest, stage := Complete, fields := Rewritten(Merged(h.fields, fs)))
    decreases |fs|
  {
    hide FlatLine, Store, Sendable, Rewritten;
    if fs == [] {
      assert h.wire == [] + CRLF + rest;
      ScanPrinted([], rest);
      assert h.wire[2..] == rest;
    } else {
      var line, more := PrintField(fs[0]), PrintFields(fs[1..]) + CRLF + rest;
      assert h.wire == line + CRLF + more;
      LineTaken(h, fs[0], more);
      FieldsBack(Next(h, |line|), fs[1..], rest);
    }
  }

  lemma PrintedShort(f: Field)
    requires Sendable(f)
    ensures 0 < |PrintField(f)| < LINE_MAX
  {
  }

  lemma LineTaken(h: Request, f: Field, more: bytes)
    requires h.stage == Fields && Sendable(f) && h.wire == PrintField(f) + CRLF + more
    ensures FlatLine(h.wire) == Line(|PrintField(f)|)
    ensures Next(h, |PrintField(f)|) == h.(wire := more, fields := h.fields[LowerAll(f.name) := f.value])
  {
    hide FlatLine, Store, Sendable, Lowered;
    var line := PrintField(f);
    LoweredIff(f.name, LowerAll(f.name));
    StorePrinted(h.fields, f, LowerAll(f.name));
    PrintedShort(f);
    ScanPrinted(line, more);
    assert h.wire[..|line|] == line && h.wire[|line| + 2..] == more;
  }

  /** The last field of a name, in any case, is the one that counts; only a transfer encoding loses its capitals. */
  lemma {:induction false} FieldComesBack(fields: map<bytes, bytes>, fs: seq<Field>, i: nat, low: bytes)
    requires i < |fs| && Lowered(fs[i].name, low) && forall j :: i < j < |fs| ==> !Lowered(fs[j].name, low)
    ensures var all := Rewritten(Merged(fields, fs));
            && low in all
            && if low == "transfer-encoding" then Lowered(fs[i].value, all[low]) else all[low] == fs[i].value
    decreases |fs|
  {
    hide Lowered;
    LoweredIff(fs[0].name, low);
    var next := fields[LowerAll(fs[0].name) := fs[0].value];
    if i > 0 {
      FieldComesBack(next, fs[1..], i - 1, low);
    } else {
      OthersKeep(next, fs[1..], low);
      LoweredIff(fs[0].value, LowerAll(fs[0].value));
    }
  }

  lemma {:induction false} OthersKeep(fields: map<bytes, bytes>, fs: seq<Field>, low: bytes)
    requires forall j :: 0 <= j < |fs| ==> !Lowered(fs[j].name, low)
    ensures low in Merged(fields, fs) <==> low in fields
    ensures low in fields ==> Merged(fields, fs)[low] == fields[low]
    decreases |fs|
  {
    hide Lowered;
    if fs != [] {
      LoweredIff(fs[0].name, low);
      OthersKeep(fields[LowerAll(fs[0].name) := fs[0].value], fs[1..], low);
    }
  }

  /** No field is there that was not sent. */
  lemma NothingElse(fs: seq<Field>, low: bytes)
    requires forall j :: 0 <= j < |fs| ==> !Lowered(fs[j].name, low)
    ensures low !in Rewritten(Merged(map[], fs))
  {
    hide Lowered;
    OthersKeep(map[], fs, low);
  }

  /**
   * The head of a request comes back as it was printed, in any split, and what follows it stays.
   */
  lemma HeadRoundTrip(m: Method, uri: bytes, fs: seq<Field>, rest: bytes, pieces: seq<bytes>)
    requires m != Undefined && ValidUri(uri) && |Print(m, uri)| < LINE_MAX
    requires forall i :: 0 <= i < |fs| ==> Sendable(fs[i])
    requires Concat(pieces) == Print(m, uri) + CRLF + (PrintFields(fs) + CRLF + rest)
    ensures Arrive(Request([], RequestLine, Undefined, [], map[]), pieces) ==
              Request(rest, Complete, m, uri, Rewritten(Merged(map[], fs)))
  {
    hide Rewritten, FlatLine, Print, ValidUri, Sendable;
    var h := Request([], RequestLine, Undefined, [], map[]);
    ArriveAtOnce(h, pieces);
    var g := Feed(h, Concat(pieces));
    assert g.wire == Concat(pieces);
    RequestLineBack(g, m, uri, PrintFields(fs) + CRLF + rest);
    FieldsBack(g.(wire := PrintFields(fs) + CRLF + rest, stage := Fields, method_ := m, uri := uri), fs, rest);
  }

  lemma RequestLineBack(g: Request, m: Method, uri: bytes, more: bytes)
    requires m != Undefined && ValidUri(uri) && |Print(m, uri)| < LINE_MAX
    requires g.stage == RequestLine && g.wire == Print(m, uri) + CRLF + more
    ensures Parse(g) == Parse(g.(wire := more, stage := Fields, method_ := m, uri := uri))
  {
    hide FlatLine, Accepted, Print, ValidUri, Store;
    var line := Print(m, uri);
    AcceptedPrinted(line, m, uri);
    ScanPrinted(line, more);
    assert g.wire[..|line|] == line && g.wire[|line| + 2..] == more;
  }

  lemma AcceptedPrinted(line: bytes, m: Method, uri: bytes)
    requires m != Undefined && ValidUri(uri) && line == Print(m, uri) && |line| <= REQUEST_LINE_MAX
    ensures Accepted(line) == Some((m, uri)) && LF !in line && line != []
  {
    hide Print, ValidUri;
    PrintedOneLine(line, m, uri);
    assert Prints(line, m, uri);
    var a := Accepted(line).value;
    PrintInjective(m, uri, a.0, a.1);
  }

  lemma PrintedOneLine(line: bytes, m: Method, uri: bytes)
    requires m != Undefined && ValidUri(uri) && line == Print(m, uri)
    ensures LF !in line && line != []
  {
    var e := |Name(m)| + 1 + |uri|;
    PrintedShape(line, m, uri);
    hide Print, Name;
    forall i | 0 <= i < |line|
      ensures line[i] != LF
    {
      if i > e {
        assert line[i] == line[e + 1..][i - e - 1];
      }
    }
  }

  // ----- the parsers -----

  /** What `Client` needs to read the head of a request. */
  class HeadReader {
    const heap: Heap
    const buf: SpxBuffer
    var stage: Stage
    var method_: Method
    var uri: bytes
    var header: map<bytes, bytes>

    ghost predicate Valid()
      reads this, heap, buf
    {
      buf.heap == heap && buf.Valid() && Longest(buf.View()) <= LINE_MAX + 1
    }

    ghost function Abs(): Request
      requires Valid()
      reads this, heap, buf, Bases(buf.View())
    {
      Request(buf.Content(), stage, method_, uri, header)
    }

    constructor (heap: Heap)
      ensures Valid() && this.heap == heap && fresh(buf)
      ensures Abs() == Request([], RequestLine, Undefined, [], map[])
    {
      this.heap := heap;
      buf := new SpxBuffer(heap);
      stage, method_, uri, header := RequestLine, Undefined, [], map[];
      new;
      assert buf.View() == [];
    }

    /** Extracts a line, if there is one. */
    method TakeLine() returns (r: int, line: bytes)
      requires Valid()
      modifies heap, buf
      ensures Valid()
      ensures Abs() == old(Abs()).(wire := buf.Content())
      ensures match FlatLine(old(buf.Content()))
              case NoLine => r == 0 && line == [] && buf.Content() == old(buf.Content())
              case Malformed => r == -1 && line == [] && buf.Content() == old(buf.Content())
              case Line(n) => r == 1 && line == old(buf.Content())[..n] && buf.Content() == old(buf.Content())[n + 2..]
    {
      FlatScan(buf);
      r, line := buf.GetCrlfLine([], LINE_MAX);
    }

    /** What the parsers write besides the buffer. */
    method Set(stage': Stage, m: Method, u: bytes, fields: map<bytes, bytes>)
      requires Valid()
      modifies this
      ensures Valid() && Abs() == Request(old(buf.Content()), stage', m, u, fields)
    {
      stage, method_, uri, header := stage', m, u, fields;
      buf.Untouched();
    }

    /** `request_line_parser_`: empty lines are skipped. */
    method RequestLineParser() returns (r: bool)
      requires Valid() && stage == RequestLine
      modifies this, heap, buf
      ensures Valid() && Parse(Abs()) == Parse(old(Abs()))
      ensures r <==> stage == Fields
      ensures !r ==> Abs() == Parse(old(Abs())) && stage in {RequestLine, Refused}
    {
      hide FlatLine, Store, SpxBuffer.Content, SpxBuffer.Valid;
      while true
        invariant Valid() && stage == RequestLine && Parse(Abs()) == Parse(old(Abs()))
        decreases |Abs().wire|
      {
        ghost var h := Abs();
        LineFits(h.wire);
        var res, line := TakeLine();
        OneLine(h, line, Abs());
        if res != 1 {
          return false;
        }
        if line != [] {
          r := RequestLineCheckOf(line);
          return;
        }
      }
    }

    /** What is kept of an acceptable request line. */
    method RequestLineCheckOf(line: bytes) returns (ok: bool)
      requires Valid() && stage == RequestLine
      modifies this
      ensures Valid() && Abs() == Checked(old(Abs()), line)
      ensures ok <==> stage == Fields
      ensures !ok <==> stage == Refused
    {
      hide Accepted, Prints;
      var m, u;
      ok, m, u := RequestLineCheck(line);
      buf.Untouched();
      CheckAccepts(line, ok, m, u);
      if ok {
        Set(Fields, m, u, header);
      } else {
        Set(Refused, method_, uri, header);
      }
    }

    /** The loop of `header_field_parser_`: an answer of -1 with no line counts as an empty line. */
    method HeaderFieldParser() returns (r: bool)
      requires Valid() && stage == Fields
      modifies this, heap, buf
      ensures Valid() && Abs() == Parse(old(Abs()))
      ensures r <==> stage == Complete
    {
      hide FlatLine, Store, SpxBuffer.Content, SpxBuffer.Valid;
      while true
        invariant Valid() && stage == Fields && Parse(Abs()) == Parse(old(Abs()))
        decreases |Abs().wire|
      {
        ghost var h := Abs();
        LineFits(h.wire);
        var res, line := TakeLine();
        OneLine(h, line, Abs());
        if res == 0 {
          return false;
        }
        if line == [] {
          EndFields();
          return true;
        }
        StoreLine(line);
      }
    }

    /** The name is lowered, and the white space in front of the value is passed over. */
    method StoreLine(line: bytes)
      requires Valid() && stage == Fields
      modifies this
      ensures Valid() && Abs() == old(Abs()).(fields := Store(old(header), line))
    {
      hide SpxBuffer.Content;
      var idx := IndexOf(line, ':');
      if idx != |line| {
        var name := LowerCopy(line[..idx]);
        var tmp := SkipOws(line, idx + 1);
        buf.Untouched();
        Set(Fields, method_, uri, header[name := line[tmp..]]);
      }
    }

    /** What `header_field_parser_` does behind its loop. */
    method EndFields()
      requires Valid()
      modifies this
      ensures Valid() && Abs() == FieldsDone(old(Abs()))
    {
      hide SpxBuffer.Content;
      if TRANSFER_ENCODING in header {
        var value := LowerCopy(header[TRANSFER_ENCODING]);
        buf.Untouched();
        Set(Complete, method_, uri, header[TRANSFER_ENCODING := value]);
      } else {
        Set(Complete, method_, uri, header);
      }
    }

    /** The first two states of `req_res_controller_`. */
    method HeadController() returns (r: bool)
      requires Valid() && stage in {RequestLine, Fields}
      modifies this, heap, buf
      ensures Valid() && Abs() == Parse(old(Abs()))
      ensures r <==> stage == Complete
    {
      hide Parse, SpxBuffer.Content, SpxBuffer.Valid;
      if stage == RequestLine {
        var parsed := RequestLineParser();
        if !parsed {
          return false;
        }
      }
      r := HeaderFieldParser();
    }
  }

  /** What a request line that has been taken does. */
  ghost function Checked(h: Request, line: bytes): Request {
    match Accepted(line)
    case None => h.(stage := Refused)
    case Some(a) => h.(stage := Fields, method_ := a.0, uri := a.1)
  }

  /** A string is lowered byte by byte. */
  method LowerCopy(s: bytes) returns (r: bytes)
    ensures r == LowerAll(s)
  {
    hide LowerAll, Lower;
    r := [];
    var i := 0;
    while i < |s|
      invariant i == |r| <= |s| && forall k :: 0 <= k < i ==> r[k] == Lower(s[k])
    {
      r := r + [Lower(s[i])];
      i := i + 1;
    }
  }

  /** The white space behind a colon is passed over. */
  method SkipOws(s: bytes, start: nat) returns (i: nat)
    requires start <= |s|
    ensures start <= i <= |s| && s[i..] == s[start..][OwsRun(s[start..])..]
  {
    hide IsOws;
    i := start;
    while i < |s| && IsOws(s[i])
      invariant start <= i <= |s|
      invariant s[start..][OwsRun(s[start..])..] == s[i..][OwsRun(s[i..])..]
    {
      OwsStep(s, i);
      i := i + 1;
    }
    assert OwsRun(s[i..]) == 0;
  }

  lemma OwsStep(s: bytes, i: nat)
    requires i < |s| && IsOws(s[i])
    ensures s[i..][OwsRun(s[i..])..] == s[i + 1..][OwsRun(s[i + 1..])..]
  {
    assert s[i..][1..] == s[i + 1..];
  }

  /** A line that has been taken, or not. */
  lemma OneLine(h: Request, line: bytes, t: Request)
    requires h.stage in {RequestLine, Fields}
    requires match FlatLine(h.wire)
             case NoLine => t == h && line == []
             case Malformed => t == h && line == []
             case Line(n) => line == h.wire[..n] && t == h.(wire := h.wire[n + 2..])
    ensures h.stage == RequestLine && line != [] ==> Parse(h) == Parse(Checked(t, line))
    ensures h.stage == RequestLine && line == [] ==> Parse(h) == if FlatLine(h.wire).Line? then Parse(t) else h
    ensures h.stage == Fields && line != [] ==> Parse(h) == Parse(t.(fields := Store(h.fields, line)))
    ensures h.stage == Fields && line == [] ==> Parse(h) == if FlatLine(h.wire) == NoLine then h else FieldsDone(t)
  {
    hide Store, FlatLine, Rewritten, Accepted;
    LineFits(h.wire);
  }

  lemma CheckAccepts(line: bytes, ok: bool, m: Method, u: bytes)
    requires ok ==> Prints(line, m, u) && |line| <= REQUEST_LINE_MAX
    requires !ok ==> forall m, u :: Prints(line, m, u) ==> |line| > REQUEST_LINE_MAX
    ensures Accepted(line) == if ok then Some((m, u)) else None
  {
    if ok {
      AcceptedPrinted(line, m, u);
    }
  }
}
