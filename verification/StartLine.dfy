/** The request-line recogniser and the extraction of method and URI (section 3.1.1 of RFC 7230). */
module StartLine {
  import opened Bytes

  /** `e_request_method` */
  datatype Method = Get | Post | Put | Delete | Head | Undefined

  const REQUEST_LINE_MAX: nat := 8192
  const VERSION: bytes := "HTTP/1.1"

  function Name(m: Method): (n: bytes)
    requires m != Undefined
    ensures n != [] && forall i :: 0 <= i < |n| ==> IsUpper(n[i])
  {
    match m
    case Get => "GET"
    case Post => "POST"
    case Put => "PUT"
    case Delete => "DELETE"
    case Head => "HEAD"
  }

  /** The method a name stands for. */
  function MethodOf(name: bytes): (m: Method)
    ensures m != Undefined ==> name == Name(m)
  {
    if name == "GET" then Get
    else if name == "PUT" then Put
    else if name == "POST" then Post
    else if name == "HEAD" then Head
    else if name == "DELETE" then Delete
    else Undefined
  }

  lemma MethodOfName(m: Method)
    requires m != Undefined
    ensures MethodOf(Name(m)) == m
  {
  }

  predicate AllVisible(s: bytes) {
    forall i :: 0 <= i < |s| ==> IsVisible(s[i])
  }

  predicate ValidUri(uri: bytes) {
    uri != [] && uri[0] == '/' && AllVisible(uri)
  }

  /** A URI lies between two positions of a line. */
  predicate UriAt(line: bytes, from: nat, to: int) {
    from < to <= |line| && line[from] == '/' && forall i :: from <= i < to ==> IsVisible(line[i])
  }

  /** A method name begins the line. */
  predicate NameAt(line: bytes, m: Method) {
    m != Undefined && |Name(m)| <= |line| && line[..|Name(m)|] == Name(m)
  }

  /** METHOD SP uri SP HTTP/1.1 */
  function Print(m: Method, uri: bytes): bytes
    requires m != Undefined
  {
    Name(m) + " " + uri + " " + VERSION
  }

  /** `line` is the request line for `m` and `uri`. */
  predicate Prints(line: bytes, m: Method, uri: bytes) {
    m != Undefined && ValidUri(uri) && line == Print(m, uri)
  }

  /** Where the parts of a printed line lie. */
  predicate Shape(line: bytes, m: Method, uri: bytes)
    requires m != Undefined
  {
    var k, e := |Name(m)|, |Name(m)| + 1 + |uri|;
    && |line| == e + 9 && line[..k] == Name(m)
    && (forall i :: 0 <= i < k ==> IsUpper(line[i]))
    && line[k] == ' ' && line[k + 1] == '/' && |uri| > 0
    && line[k + 1..e] == uri && (forall i :: k < i < e ==> IsVisible(line[i]))
    && line[e] == ' ' && line[e + 1..] == VERSION
  }

  lemma PrintedShape(line: bytes, m: Method, uri: bytes)
    requires Prints(line, m, uri)
    ensures m != Undefined && Shape(line, m, uri)
  {
    hide Name, Print;
    var k, e := |Name(m)|, |Name(m)| + 1 + |uri|;
    assert line == Name(m) + " " + uri + " " + VERSION by {
      PrintIs(m, uri);
    }
    PrintedParts(Name(m), uri, VERSION);
    forall i | 0 <= i < k
      ensures IsUpper(line[i])
    {
      assert line[i] == Name(m)[i];
    }
    forall i | k < i < e
      ensures IsVisible(line[i])
    {
      assert line[i] == uri[i - k - 1];
    }
    assert line[k + 1] == uri[0];
  }

  lemma PrintIs(m: Method, uri: bytes)
    requires m != Undefined
    ensures Print(m, uri) == Name(m) + " " + uri + " " + VERSION
  {
  }

  lemma PrintedParts(a: bytes, b: bytes, c: bytes)
    ensures var s, e := a + " " + b + " " + c, |a| + 1 + |b|;
            && |s| == e + 1 + |c| && s[..|a|] == a && s[|a|] == ' '
            && s[|a| + 1..e] == b && s[e] == ' ' && s[e + 1..] == c
  {
  }

  lemma NameFound(line: bytes, it: nat)
    requires it <= |line| && MethodOf(line[..it]) != Undefined
    ensures NameAt(line, MethodOf(line[..it])) && it == |Name(MethodOf(line[..it]))|
  {
  }

  lemma Assemble(line: bytes, m: Method, from: nat, to: nat)
    requires NameAt(line, m) && from == |Name(m)| + 1 <= to && |line| == to + 9
    requires line[from - 1] == ' ' && UriAt(line, from, to) && line[to] == ' ' && line[to + 1..] == VERSION
    ensures Prints(line, m, line[from..to])
  {
    assert line == line[..from - 1] + [line[from - 1]] + line[from..to] + [line[to]] + line[to + 1..];
  }

  /** How far a printed line has been recognised; a line printed from `m` and `uri` must agree. */
  predicate Agrees(state: State, it: nat, found: Method, from: nat, m: Method, uri: bytes)
    requires m != Undefined
  {
    match state
    case Start | MethodName => it == 0
    case SpBeforeUri => found == m && it == |Name(m)|
    case UriStart => found == m && it == |Name(m)| + 1
    case Uri => found == m && from == |Name(m)| + 1 && from < it <= from + |uri|
    case Version => found == m && from == |Name(m)| + 1 && it == from + |uri| + 1
    case AlmostDone | Done => found == m && from == |Name(m)| + 1 && it == from + |uri| + 9
  }

  /** A dereference at the end of the line reads zero. */
  function At(line: bytes, i: nat): byte {
    if i < |line| then line[i] else '\0'
  }

  datatype State = Start | MethodName | SpBeforeUri | UriStart | Uri | Version | AlmostDone | Done

  /** What the machine has recognised when it is in a state. */
  ghost predicate Reached(line: bytes, state: State, it: nat, found: Method, from: nat)
    requires it <= |line|
  {
    var named := found != Undefined && NameAt(line, found);
    var spaced := named && from == |Name(found)| + 1 <= it && line[from - 1] == ' ';
    match state
    case Start | MethodName => it == 0
    case SpBeforeUri => named && it == |Name(found)|
    case UriStart => named && it == |Name(found)| + 1 && line[it - 1] == ' '
    case Uri => spaced && UriAt(line, from, it)
    case Version => spaced && UriAt(line, from, it - 1) && line[it - 1] == ' '
    case AlmostDone | Done =>
      && spaced && UriAt(line, from, it - 9) && line[it - 9] == ' ' && line[it - 8..it] == VERSION
      && (state == Done ==> it == |line|)
  }

  /**
   * `spx_http_syntax_start_line`.  The classes of the URI state overlap, so its cases for `%`,
   * `#` and `?` are never reached: any visible character continues the URI.
   */
  method Check(line: bytes) returns (ok: bool, method_: Method, ghost uri: bytes)
    ensures ok ==> Prints(line, method_, uri) && |line| <= REQUEST_LINE_MAX
    ensures !ok ==> method_ == Undefined
    ensures !ok ==> forall m, u :: Prints(line, m, u) ==> |line| > REQUEST_LINE_MAX
  {
    hide Prints, Print, ValidUri, Name, NameAt, MethodOf;
    ok, method_, uri := false, Undefined, [];
    if |line| > REQUEST_LINE_MAX {
      return;
    }
    var it, state, found := 0, Start, Undefined;
    ghost var from := 0;
    // if the line is printed from something at all, then from `m` and `u`
    ghost var m, u := Get, [];
    ghost var printed := exists m, u :: Prints(line, m, u);
    if printed {
      m, u :| Prints(line, m, u);
      PrintedShape(line, m, u);
      MethodOfName(m);
    }
    while state != Done
      invariant it <= |line| <= REQUEST_LINE_MAX
      invariant Reached(line, state, it, found, from)
      invariant printed ==> Agrees(state, it, found, from, m, u)
      decreases |line| - it, match state case Start => 3 case MethodName => 2 case AlmostDone => 1 case _ => 0
    {
      match state {
        case Start =>
          if !IsUpper(At(line, it)) {
            return;
          }
          state := MethodName;
        case MethodName =>
          it := Skip(line, it, IsUpper);
          found := MethodOf(line[..it]);
          if found == Undefined {
            return;
          }
          NameFound(line, it);
          state := SpBeforeUri;
        case SpBeforeUri =>
          if At(line, it) != ' ' {
            return;
          }
          it, state := it + 1, UriStart;
        case UriStart =>
          if At(line, it) != '/' {
            return;
          }
          from := it;
          it, state := it + 1, Uri;
        case Uri =>
          it := Skip(line, it, IsVisible);
          if At(line, it) != ' ' {
            return;
          }
          it, state := it + 1, Version;
        case Version =>
          if it + 8 <= |line| && line[it..it + 8] == VERSION {
            it, state := it + 8, AlmostDone;
          } else {
            return;
          }
        case AlmostDone =>
          if it != |line| {
            return;
          }
          state := Done;
      }
    }
    uri := line[from..it - 9];
    Assemble(line, found, from, it - 9);
    ok, method_ := true, found;
  }

  /**
   * `request_line_check_`: the URI is what lies between the first and the last space.  An accepted
   * line is exactly the one printed from the method and the URI that come out.
   */
  method RequestLineCheck(line: bytes) returns (ok: bool, method_: Method, uri: bytes)
    ensures ok ==> Prints(line, method_, uri) && |line| <= REQUEST_LINE_MAX
    ensures !ok ==> forall m, u :: Prints(line, m, u) ==> |line| > REQUEST_LINE_MAX
    // the same, spelled out
    ensures ok ==> |line| <= 8192 && uri != [] && uri[0] == '/' && forall i :: 0 <= i < |uri| ==> '!' <= uri[i] <= '~'
    ensures ok ==>
              match method_
              case Get => line == "GET " + uri + " HTTP/1.1"
              case Put => line == "PUT " + uri + " HTTP/1.1"
              case Post => line == "POST " + uri + " HTTP/1.1"
              case Head => line == "HEAD " + uri + " HTTP/1.1"
              case Delete => line == "DELETE " + uri + " HTTP/1.1"
              case Undefined => false
    ensures !ok ==>
              || |line| > 8192
              || forall u: bytes :: u != [] && u[0] == '/' && (forall i :: 0 <= i < |u| ==> '!' <= u[i] <= '~') ==>
                   && line != "GET " + u + " HTTP/1.1" && line != "PUT " + u + " HTTP/1.1"
                   && line != "POST " + u + " HTTP/1.1" && line != "HEAD " + u + " HTTP/1.1"
                   && line != "DELETE " + u + " HTTP/1.1"
  {
    hide Prints, Print;
    uri := [];
    ghost var u;
    ok, method_, u := Check(line);
    if ok {
      var r, l := LastIndexOf(line, ' '), IndexOf(line, ' ');
      SpacesOf(line, method_, u);
      uri := line[l + 1..r];
      PrintedLine(line, method_, uri);
      PrintedAs(uri);
    } else {
      forall u: bytes | u != [] && u[0] == '/' && (forall i :: 0 <= i < |u| ==> '!' <= u[i] <= '~')
        ensures |line| > 8192 || (&& line != "GET " + u + " HTTP/1.1" && line != "PUT " + u + " HTTP/1.1"
                                  && line != "POST " + u + " HTTP/1.1" && line != "HEAD " + u + " HTTP/1.1"
                                  && line != "DELETE " + u + " HTTP/1.1")
      {
        PrintedAs(u);
      }
    }
  }

  /** A request line, letter by letter. */
  lemma PrintedAs(u: bytes)
    ensures Print(Get, u) == "GET " + u + " HTTP/1.1" && Print(Put, u) == "PUT " + u + " HTTP/1.1"
    ensures Print(Post, u) == "POST " + u + " HTTP/1.1" && Print(Head, u) == "HEAD " + u + " HTTP/1.1"
    ensures Print(Delete, u) == "DELETE " + u + " HTTP/1.1"
    ensures ValidUri(u) <==> u != [] && u[0] == '/' && forall i :: 0 <= i < |u| ==> '!' <= u[i] <= '~'
    ensures forall m :: m != Undefined && ValidUri(u) ==> Prints(Print(m, u), m, u)
  {
    assert "GET" + " " == "GET " && "PUT" + " " == "PUT " && "POST" + " " == "POST ";
    assert "HEAD" + " " == "HEAD " && "DELETE" + " " == "DELETE ";
    assert forall a: bytes :: a + " " + VERSION == a + (" " + VERSION);
    assert " " + VERSION == " HTTP/1.1";
  }

  lemma PrintedLine(line: bytes, m: Method, u: bytes)
    requires Prints(line, m, u)
    ensures m != Undefined && line == Print(m, u) && ValidUri(u)
  {
  }

  /** A printed line has exactly two spaces. */
  lemma SpacesOf(line: bytes, m: Method, uri: bytes)
    requires Prints(line, m, uri)
    ensures IndexOf(line, ' ') == |Name(m)| && LastIndexOf(line, ' ') == |Name(m)| + 1 + |uri|
    ensures line[|Name(m)| + 1..|Name(m)| + 1 + |uri|] == uri
  {
    PrintedShape(line, m, uri);
    var k, e := |Name(m)|, |Name(m)| + 1 + |uri|;
    IndexOfUnique(line, ' ', k);
    assert forall i :: e < i < |line| ==> line[i] == VERSION[i - e - 1];
    assert forall i :: 0 <= i < 8 ==> VERSION[i] != ' ';
  }

  /** A line is printed from one method and one URI only, so extraction undoes printing. */
  lemma PrintInjective(m: Method, uri: bytes, m': Method, uri': bytes)
    requires m != Undefined && m' != Undefined && ValidUri(uri) && ValidUri(uri')
    requires Print(m, uri) == Print(m', uri')
    ensures m == m' && uri == uri'
  {
    var line := Print(m, uri);
    SpacesOf(line, m, uri);
    SpacesOf(line, m', uri');
    PrintedShape(line, m, uri);
    PrintedShape(line, m', uri');
    MethodOfName(m);
    MethodOfName(m');
  }
}
