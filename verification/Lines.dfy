/** What line extraction means on a flat byte string. */
module Lines {
  import opened Bytes

  /** The default bound of `get_crlf_line_`. */
  const LINE_MAX: nat := 8192

  /**
   * What `find_pos_` finds in content whose first segment holds `front` bytes: the bound `max`
   * does not apply inside that segment.
   */
  function FindPos(c: bytes, front: nat, b: byte, max: nat): (r: Option<nat>)
    ensures r.Some? ==> r.value < |c| && c[r.value] == b
  {
    var p := IndexOf(c, b);
    if p < |c| && (p < front || p <= max) then Some(p) else None
  }

  /** `Line(n)`: the first `n` bytes are a line and CR LF follows them. */
  datatype Scan = NoLine | Malformed | Line(length: nat)

  function ScanLine(c: bytes, front: nat, max: nat): (r: Scan)
    ensures r.Line? ==> r.length + 2 <= |c| && c[r.length..r.length + 2] == CRLF
  {
    match FindPos(c, front, LF, max)
    case None => NoLine
    case Some(p) => if p > 0 && c[p - 1] == CR then Line(p - 1) else Malformed
  }

  /** Line extraction when no segment is longer than the bound allows. */
  function FlatLine(c: bytes): Scan {
    ScanLine(c, 0, LINE_MAX)
  }

  /**
   * The length of the first segment matters for no content exactly when it is at most `max + 1`.
   */
  lemma FrontIrrelevantIff(front: nat, max: nat)
    ensures (forall c: bytes, b: byte | front <= |c| :: FindPos(c, front, b, max) == FindPos(c, 0, b, max))
        <==> front <= max + 1
  {
    if front > max + 1 {
      var c: bytes := seq(front - 1, i => 'a') + ['b'];
      IndexOfUnique(c, 'b', front - 1);
      assert FindPos(c, front, 'b', max) != FindPos(c, 0, 'b', max);
    }
  }

  lemma LineFits(c: bytes)
    ensures var r := FlatLine(c); r.Line? ==> r.length + 2 <= |c| && c[r.length..r.length + 2] == CRLF
  {
  }

  /** A line that has been found stays the first line when more bytes arrive. */
  lemma LineStays(c: bytes, more: bytes)
    requires FlatLine(c).Line?
    ensures FlatLine(c + more) == FlatLine(c)
  {
    IndexOfConcat(c, more, LF);
  }

  /** A line without LF, short enough, followed by CR LF, is what a scan finds. */
  lemma ScanPrinted(line: bytes, rest: bytes)
    requires LF !in line && |line| < LINE_MAX
    ensures FlatLine(line + CRLF + rest) == Line(|line|)
  {
    var c := line + CRLF + rest;
    assert c[|line|] == CR && c[|line| + 1] == LF;
    IndexOfUnique(c, LF, |line| + 1);
  }

  /** In segments as the server reads them, a line is found if and only if its LF is at most at 8192. */
  lemma LineFoundIff(line: bytes, rest: bytes)
    requires '\n' !in line
    ensures FlatLine(line + "\r\n" + rest) == (if |line| < 8192 then Line(|line|) else NoLine)
    ensures FlatLine(line) == NoLine
    ensures |line| <= 8192 && (line == [] || line[|line| - 1] != '\r') ==> FlatLine(line + "\n" + rest) == Malformed
  {
    var c, d := line + "\r\n" + rest, line + "\n" + rest;
    assert c[|line|] == '\r' && c[|line| + 1] == '\n';
    IndexOfUnique(c, LF, |line| + 1);
    IndexOfUnique(line, LF, |line|);
    assert d[|line|] == '\n' && d[..|line|] == line;
    IndexOfUnique(d, LF, |line|);
  }
}
