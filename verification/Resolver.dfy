/** The decomposition of a request URI, `get_uri_location_t_`. */
module Resolver {
  import opened Bytes
  import opened StartLine
  import opened Paths
  import opened Servers

  /** `usual_for_uri_parse_`: visible, and none of `#`, `.`, `/`, `?`. */
  predicate IsSegment(c: byte) {
    IsVisible(c) && c !in "#./?"
  }

  /** `except_query_fragment_` */
  predicate IsPath(c: byte) {
    IsVisible(c) && c !in "#?"
  }

  /** `except_slash_query_fragment_` */
  predicate IsExtension(c: byte) {
    IsVisible(c) && c !in "#/?"
  }

  // ----- the parts of a URI, sections 3.3 to 3.5 of RFC 3986 -----

  /** The path ends at the first `?` or `#`. */
  function PathEnd(uri: bytes): (e: nat)
    ensures e <= |uri|
  {
    Min(IndexOf(uri, '?'), IndexOf(uri, '#'))
  }

  function PathOf(uri: bytes): bytes {
    uri[..PathEnd(uri)]
  }

  /** The query lies between a first `?` and the next `#`. */
  function QueryOf(uri: bytes): bytes {
    var e := PathEnd(uri);
    if e < |uri| && uri[e] == '?' then
      var rest := uri[e + 1..];
      rest[..IndexOf(rest, '#')]
    else []
  }

  /** The fragment is all that follows the first `#`. */
  function FragmentOf(uri: bytes): bytes {
    var f := IndexOf(uri, '#');
    if f < |uri| then uri[f + 1..] else []
  }

  /** Length of the segment a string begins with. */
  function SegmentRun(s: bytes): (n: nat)
    ensures n <= |s| && (forall i :: 0 <= i < n ==> IsSegment(s[i]))
    ensures n < |s| ==> !IsSegment(s[n])
  {
    if s == [] || !IsSegment(s[0]) then 0 else 1 + SegmentRun(s[1..])
  }

  /** The first segment of a URI. */
  function FirstSegment(uri: bytes): bytes {
    var rest := uri[Slashes(uri)..];
    "/" + rest[..SegmentRun(rest)]
  }

  /** The first segment is the whole first path component, and a location is configured for it. */
  predicate Matches(server: Server, uri: bytes) {
    var rest := uri[Slashes(uri)..];
    var n := SegmentRun(rest);
    !(n < |rest| && rest[n] == '.') && FirstSegment(uri) in server.uriCase
  }

  /** The location a URI belongs to: that of its first segment, or that of the root. */
  function Selected(server: Server, uri: bytes): Location
    requires "/" in server.uriCase
  {
    if Matches(server, uri) then server.uriCase[FirstSegment(uri)] else server.uriCase["/"]
  }

  /** Where the first segment ends. */
  function FirstEnd(uri: bytes): (e: nat)
    ensures e <= |uri|
  {
    Slashes(uri) + SegmentRun(uri[Slashes(uri)..])
  }

  /** Where the first path component of a string ends: at the next slash behind its leading ones. */
  function ComponentEnd(s: bytes): (e: nat)
    ensures Slashes(s) <= e <= |s| && (s != [] ==> e > 0)
  {
    assert s[0..] == s;
    Slashes(s) + IndexOf(s[Slashes(s)..], '/')
  }

  /** The CGI that a path component selects by its extension, which begins at its last dot. */
  function ByExtension(server: Server, part: bytes): Option<Location> {
    var dot := LastIndexOf(part, '.');
    if dot < |part| && part[dot..] in server.cgiCase then Some(server.cgiCase[part[dot..]]) else None
  }

  /** The CGI of the first path component that selects one. */
  function CgiOf(server: Server, path: bytes): Option<Location>
    decreases |path|
  {
    if path == [] then None else
      var e := ComponentEnd(path);
      var here := ByExtension(server, path[Slashes(path)..e]);
      if here.Some? then here else CgiOf(server, path[e..])
  }

  /** The script ends with that component, or with the path. */
  function ScriptEnd(server: Server, path: bytes): (e: nat)
    ensures e <= |path|
    ensures CgiOf(server, path) == None ==> e == |path|
    decreases |path|
  {
    if path == [] then 0 else
      var e := ComponentEnd(path);
      if ByExtension(server, path[Slashes(path)..e]).Some? then e else e + ScriptEnd(server, path[e..])
  }

  // ----- the machine -----

  datatype State = Main | FindDelimiter | Depth | Cgi | Query | Fragment | UriDone

  /**
   * The variables of the machine: the fields of `uri_resolved_t` it appends to, the location
   * pointers, the candidates, and the bits of `flag_for_uri_status`.  `matched` is the location
   * key the first segment matched, empty when it matched none.
   */
  datatype Parse = Parse(
    it: nat, matched: bytes, script: bytes, pathInfo: bytes, query: bytes, fragment: bytes,
    loc: Option<Location>, rootLoc: Option<Location>, cgiLoc: Option<Location>, isCgi: bool, cgiPathInfo: bytes,
    physical: bytes, phenomenon: bytes, suffix: bytes,
    notFound: bool, depth: bool, checkExtension: bool, cgi: bool, cgiPass: bool)

  /** What may be appended to a resolved directory. */
  function Suffix(loc: Location, method_: Method): bytes {
    if method_ in {Post, Put} then loc.savedPath else loc.index
  }

  /** What is passed to the CGI program that a location names: the interpreter of its extension, if any. */
  function PassInfo(server: Server, loc: Location): bytes {
    var extension := loc.cgiPass[LastIndexOf(loc.cgiPass, '.')..];
    if extension in server.cgiCase then server.cgiCase[extension].cgiPathInfo else loc.cgiPass
  }

  function Begin(): Parse {
    Parse(0, [], [], [], [], [], None, None, None, false, [], [], [], [], false, false, false, false, false)
  }

  /** The flags and pointers that every dereference relies on. */
  predicate Flags(server: Server, p: Parse) {
    && (p.cgi <==> p.isCgi) && (p.isCgi <==> p.cgiLoc.Some?)
    && (p.cgiPass ==> p.cgi && !p.depth && p.cgiLoc == p.rootLoc)
    && p.loc.Some? && p.rootLoc.Some?
    && p.rootLoc.value in server.uriCase.Values
    && p.loc.value in server.uriCase.Values + server.cgiCase.Values
    && (!p.cgi ==> p.pathInfo == [] && p.loc == p.rootLoc)
    && (p.cgi ==> p.loc == p.cgiLoc)
    && (p.cgiPass <==> p.rootLoc.value.cgiPass != [])
    && p.cgiPathInfo == (if !p.cgi then [] else if p.cgiPass then PassInfo(server, p.rootLoc.value)
                         else p.cgiLoc.value.cgiPathInfo)
    && p.phenomenon == p.rootLoc.value.uri && p.physical == p.rootLoc.value.root
    && (p.notFound ==> p.matched == [] && "/" in server.uriCase && p.rootLoc.value == server.uriCase["/"]
                       && p.script != [] && p.script[0] == '/')
    && (!p.notFound ==> p.matched in server.uriCase && p.rootLoc.value == server.uriCase[p.matched])
  }

  /** What has been consumed of the path has been stored, up to slash collapsing. */
  predicate Kept(uri: bytes, p: Parse, to: nat)
    requires to <= |uri|
  {
    Collapse(p.matched + p.script + p.pathInfo) == Collapse(uri[..to])
  }

  /** The state of the machine on a valid URI. */
  predicate Where(uri: bytes, state: State, p: Parse) {
    var e := PathEnd(uri);
    match state
    case Main => p.it == 0
    case FindDelimiter => 
      if p.it <= e then Kept(uri, p, p.it) && p.query == [] && p.fragment == [] && (p.it < e ==> uri[p.it] in "./")
      else
        && e < |uri| && Kept(uri, p, e) && uri[e] == '?' && p.it == e + 1 + |QueryOf(uri)|
        && p.query == QueryOf(uri) && p.fragment == []
    case Depth | Cgi => p.it < e && Kept(uri, p, p.it) && p.query == [] && p.fragment == []
    case Query => e < |uri| && uri[e] == '?' && p.it == e + 1 && Kept(uri, p, e) && p.query == [] && p.fragment == []
    case Fragment =>
      Kept(uri, p, e) && p.query == QueryOf(uri) && p.it > 0 && p.it - 1 == IndexOf(uri, '#') && p.fragment == []
    case UriDone => Kept(uri, p, e) && p.query == QueryOf(uri) && p.fragment == FragmentOf(uri) && p.it == |uri|
  }

  /** What is known about the CGI: it has been found, or it is still ahead. */
  predicate Searched(server: Server, uri: bytes, p: Parse) {
    var path, first := PathOf(uri), FirstEnd(uri);
    var at, end := Min(p.it, |path|), ScriptEnd(server, path);
    && first <= at
    && if p.cgiPass then Collapse(p.matched + p.script) == Collapse(path[..first])
       else if p.cgi then
         && p.cgiLoc == CgiOf(server, path) && Collapse(p.matched + p.script) == Collapse(path[..end])
         && first <= end && (p.depth <==> '/' in path[first..end])
       else
         && CgiOf(server, path) == CgiOf(server, path[at..]) && end == at + ScriptEnd(server, path[at..])
         && (p.depth <==> '/' in path[first..at]) && (p.checkExtension <==> '.' in path[first..at])
  }

  /** The first component of a string, between its leading slashes and the next slash. */
  lemma FirstComponent(server: Server, s: bytes, from: nat, e: nat)
    requires s != [] && from <= e <= |s| && '/' !in s[from..e]
    requires (forall i :: 0 <= i < from ==> s[i] == '/') && (from < |s| ==> s[from] != '/') && (e < |s| ==> s[e] == '/')
    ensures var here := ByExtension(server, s[from..e]);
            && CgiOf(server, s) == (if here.Some? then here else CgiOf(server, s[e..]))
            && ScriptEnd(server, s) == e + (if here.Some? then 0 else ScriptEnd(server, s[e..]))
  {
    hide ByExtension, IndexOf;
    SlashesAre(s, from);
    assert forall i :: from <= i < e ==> s[i] == s[from..e][i - from];
    IndexOfUnique(s[from..], '/', e - from);
  }

  /** A segment without a dot does not select a CGI, and what precedes the first dot does not matter. */
  lemma SegmentSkips(server: Server, s: bytes, mid: nat, to: nat)
    requires mid <= to <= |s| && (forall i :: 0 <= i < mid ==> s[i] == '/') && (mid < |s| ==> s[mid] != '/')
    requires (forall i :: mid <= i < to ==> s[i] !in "./") && (to < |s| ==> s[to] in "./")
    ensures CgiOf(server, s) == CgiOf(server, s[to..]) && ScriptEnd(server, s) == to + ScriptEnd(server, s[to..])
  {
    hide CgiOf, ScriptEnd, IndexOf, LastIndexOf;
    if to < |s| && s[to] == '.' {
      hide ByExtension;
      var t := s[to..];
      var n := IndexOf(t, '/');
      SegmentParts(s, mid, to, n);
      FirstComponent(server, t, 0, n);
      FirstComponent(server, s, mid, to + n);
      ExtensionOnly(server, s[mid..to], t[..n]);
    } else if s != [] {
      assert '.' !in s[mid..to];
      FirstComponent(server, s, mid, to);
    }
  }

  lemma SegmentParts(s: bytes, mid: nat, to: nat, n: nat)
    requires mid <= to && to + n <= |s|
    ensures s[mid..to + n] == s[mid..to] + s[to..][..n]
    ensures s[to..][n..] == s[to + n..] && s[to..][0..n] == s[to..][..n]
  {
  }

  /** The extension of a component does not depend on what precedes its dots. */
  lemma ExtensionOnly(server: Server, a: bytes, b: bytes)
    requires b != [] && b[0] == '.'
    ensures ByExtension(server, a + b) == ByExtension(server, b)
  {
    var dot := LastIndexOf(b, '.');
    assert b[0] in b;
    LastIndexOfUnique(a + b, '.', |a| + dot);
    assert (a + b)[|a| + dot..] == b[dot..];
  }

  lemma LastIndexOfUnique(s: bytes, c: byte, p: nat)
    requires p < |s| && s[p] == c && forall i :: p < i < |s| ==> s[i] != c
    ensures LastIndexOf(s, c) == p
  {
    assert s[p] in s;
  }

  /** The search goes on while nothing but the query and the fragment is read. */
  lemma SearchedSame(server: Server, uri: bytes, p: Parse, q: Parse)
    requires q == p.(it := q.it, query := q.query, fragment := q.fragment)
    requires Min(p.it, PathEnd(uri)) == Min(q.it, PathEnd(uri))
    ensures Searched(server, uri, p) == Searched(server, uri, q)
  {
  }

  /** `uri[from..to]` begins with slashes and goes on after them at `mid`. */
  lemma SegmentKept(uri: bytes, stored: bytes, from: nat, mid: nat, to: nat)
    requires from <= mid <= to <= |uri| && Collapse(stored) == Collapse(uri[..from])
    requires from < mid && forall i :: from <= i < mid ==> uri[i] == '/'
    requires mid < to ==> uri[mid] != '/'
    ensures Collapse(stored + ("/" + uri[mid..to])) == Collapse(uri[..to])
  {
    hide Collapse;
    var part := uri[from..to];
    assert part[0] == uri[from] == '/';
    SlashesAre(part, mid - from);
    CollapseSlashes(part);
    assert part[mid - from..] == uri[mid..to];
    assert uri[..from] + part == uri[..to];
    CollapseAppend(stored, uri[..from], part);
    CollapsePrepend(stored, part, "/" + uri[mid..to]);
  }

  lemma SlashesAre(s: bytes, n: nat)
    requires n <= |s| && (forall i :: 0 <= i < n ==> s[i] == '/') && (n < |s| ==> s[n] != '/')
    ensures Slashes(s) == n
  {
  }

  /** Bytes that are stored as they are. */
  lemma RawKept(uri: bytes, stored: bytes, from: nat, to: nat)
    requires from <= to <= |uri| && Collapse(stored) == Collapse(uri[..from])
    ensures Collapse(stored + uri[from..to]) == Collapse(uri[..to])
  {
    assert uri[..from] + uri[from..to] == uri[..to];
    CollapseAppend(stored, uri[..from], uri[from..to]);
  }

  /** Before the end of the path there is no `?` and no `#`. */
  lemma BeforeEnd(uri: bytes, i: nat)
    requires i < |uri|
    ensures i < PathEnd(uri) ==> uri[i] !in "?#"
    ensures i == PathEnd(uri) ==> uri[i] in "?#"
    ensures i > PathEnd(uri) ==> PathEnd(uri) < |uri| && uri[PathEnd(uri)] in "?#"
  {
  }

  /** A scan over bytes that are neither `?` nor `#` stays within the path. */
  lemma WithinPath(uri: bytes, from: nat, to: nat)
    requires from <= to <= |uri| && from <= PathEnd(uri)
    requires forall i :: from <= i < to ==> uri[i] !in "?#"
    ensures to <= PathEnd(uri)
  {
    if to > PathEnd(uri) {
      BeforeEnd(uri, PathEnd(uri));
    }
  }

  /** Where a scan stops before the end of the path of a valid URI, there is a delimiter. */
  lemma Stops(uri: bytes, to: nat)
    requires ValidUri(uri) && to <= PathEnd(uri)
    requires to < |uri| ==> !IsSegment(uri[to])
    ensures to < PathEnd(uri) ==> uri[to] in "./"
  {
    if to < |uri| {
      BeforeEnd(uri, to);
    }
  }

  // ----- the states -----

  /** `uri_main`: the first segment selects a location.  An exception escapes as `threw`. */
  method MainState(server: Server, uri: bytes, method_: Method) returns (p: Parse, threw: bool)
    requires "/" in server.uriCase
    ensures p.loc == p.rootLoc == Some(Selected(server, uri)) && (p.notFound <==> !Matches(server, uri))
    ensures threw <==> NoExtension(p.loc.value)
    ensures !threw ==> Flags(server, p) && p.it <= |uri| && p.suffix == Suffix(p.loc.value, method_)
    ensures !threw && ValidUri(uri) ==> Where(uri, FindDelimiter, p) && Searched(server, uri, p)
  {
    hide Where, ValidUri, Matches, Searched, Flags, FirstSegment, SegmentRun, Slashes, PassInfo;
    threw := false;
    var mid := Skip(uri, 0, c => c == '/');
    var to := Skip(uri, mid, IsSegment);
    var temp := "/" + uri[mid..to];
    SelectionIs(server, uri, mid, to);
    p := Begin().(it := to, matched := temp);
    if (to < |uri| && uri[to] == '.') || temp !in server.uriCase {
      p := p.(notFound := true, matched := [], script := p.script + temp);
    }
    var loc := server.uriCase[if p.notFound then "/" else temp];
    p := p.(loc := Some(loc), rootLoc := Some(loc), physical := loc.root, phenomenon := loc.uri);
    p := p.(suffix := Suffix(loc, method_));
    MainKept(uri, p, mid, to);
    if loc.cgiPass != [] {
      if LastIndexOf(loc.cgiPass, '.') == |loc.cgiPass| {
        threw := true;
        return;
      }
      ghost var before := p;
      p := p.(cgiPathInfo := PassInfo(server, loc), isCgi := true, cgiLoc := Some(loc), cgi := true, cgiPass := true);
      SameText(uri, before, p);
    }
    MainFlags(server, p, temp);
    MainSearched(server, uri, p, mid, to);
  }

  lemma MainFlags(server: Server, p: Parse, temp: bytes)
    requires "/" in server.uriCase && p.pathInfo == [] && temp != [] && temp[0] == '/'
    requires if p.notFound then p.matched == [] && p.script == temp else p.matched == temp && temp in server.uriCase
    requires p.loc == p.rootLoc == Some(server.uriCase[if p.notFound then "/" else temp])
    requires p.phenomenon == p.rootLoc.value.uri && p.physical == p.rootLoc.value.root
    requires p.cgi == p.isCgi == p.cgiPass && !p.depth && (p.cgi <==> p.rootLoc.value.cgiPass != [])
    requires if p.cgi then p.cgiLoc == p.rootLoc && p.cgiPathInfo == PassInfo(server, p.rootLoc.value)
             else p.cgiLoc == None && p.cgiPathInfo == []
    ensures Flags(server, p)
  {
    hide PassInfo;
  }

  lemma MainSearched(server: Server, uri: bytes, p: Parse, mid: nat, to: nat)
    requires mid <= to <= |uri| && p.it == to
    requires forall i :: 0 <= i < mid ==> uri[i] == '/'
    requires mid < |uri| ==> uri[mid] != '/'
    requires forall i :: mid <= i < to ==> IsSegment(uri[i])
    requires to < |uri| ==> !IsSegment(uri[to])
    requires p.pathInfo == [] && !p.depth && !p.checkExtension && (p.cgi <==> p.cgiPass)
    ensures Where(uri, FindDelimiter, p) ==> Searched(server, uri, p)
  {
    hide Collapse, CgiOf, ScriptEnd, SegmentRun, Slashes, IndexOf;
    FirstEndIs(uri, mid, to);
    if Where(uri, FindDelimiter, p) {
      hide FirstEnd;
      WithinPath(uri, 0, to);
      var path := PathOf(uri);
      assert p.matched + p.script + p.pathInfo == p.matched + p.script;
      assert path[..to] == uri[..to] && path[to..to] == [];
      SegmentSkips(server, path, mid, to);
    }
  }

  lemma FirstEndIs(uri: bytes, mid: nat, to: nat)
    requires mid <= to <= |uri|
    requires forall i :: 0 <= i < mid ==> uri[i] == '/'
    requires mid < |uri| ==> uri[mid] != '/'
    requires forall i :: mid <= i < to ==> IsSegment(uri[i])
    requires to < |uri| ==> !IsSegment(uri[to])
    ensures FirstEnd(uri) == to
  {
    SlashesAre(uri, mid);
    var rest := uri[mid..];
    assert forall i :: 0 <= i < |rest| ==> rest[i] == uri[mid + i];
    SegmentRunIs(rest, to - mid);
  }

  lemma SelectionIs(server: Server, uri: bytes, mid: nat, to: nat)
    requires mid <= to <= |uri|
    requires forall i :: 0 <= i < mid ==> uri[i] == '/'
    requires mid < |uri| ==> uri[mid] != '/'
    requires forall i :: mid <= i < to ==> IsSegment(uri[i])
    requires to < |uri| ==> !IsSegment(uri[to])
    ensures FirstSegment(uri) == "/" + uri[mid..to]
    ensures Matches(server, uri) <==> !(to < |uri| && uri[to] == '.') && "/" + uri[mid..to] in server.uriCase
  {
    hide SegmentRun, IsSegment, Slashes;
    SlashesAre(uri, mid);
    var rest := uri[mid..];
    assert forall i :: 0 <= i < |rest| ==> rest[i] == uri[mid + i];
    SegmentRunIs(rest, to - mid);
    assert rest[..to - mid] == uri[mid..to];
  }

  lemma SegmentRunIs(s: bytes, n: nat)
    requires n <= |s| && (forall i :: 0 <= i < n ==> IsSegment(s[i])) && (n < |s| ==> !IsSegment(s[n]))
    ensures SegmentRun(s) == n
  {
  }

  /** The place on the URI does not depend on pointers and flags. */
  lemma SameText(uri: bytes, p: Parse, q: Parse)
    requires p.it == q.it && p.matched == q.matched && p.script == q.script && p.pathInfo == q.pathInfo
    requires p.query == q.query && p.fragment == q.fragment
    ensures Where(uri, FindDelimiter, p) == Where(uri, FindDelimiter, q)
  {
  }

  lemma MainKept(uri: bytes, p: Parse, mid: nat, to: nat)
    requires mid <= to <= |uri| && p.it == to
    requires forall i :: 0 <= i < mid ==> uri[i] == '/'
    requires mid < |uri| ==> uri[mid] != '/'
    requires forall i :: mid <= i < to ==> IsSegment(uri[i])
    requires to < |uri| ==> !IsSegment(uri[to])
    requires p.matched + p.script == "/" + uri[mid..to] && p.pathInfo == [] && p.query == [] && p.fragment == []
    ensures ValidUri(uri) ==> Where(uri, FindDelimiter, p)
  {
    if ValidUri(uri) {
      WithinPath(uri, 0, to);
      SegmentKept(uri, [], 0, mid, to);
      assert p.matched + p.script + p.pathInfo == [] + ("/" + uri[mid..to]);
      if to < |uri| {
        BeforeEnd(uri, to);
      }
    }
  }

  /** `uri_depth`: a further segment. */
  method DepthState(server: Server, uri: bytes, p0: Parse) returns (p: Parse)
    requires Flags(server, p0) && p0.it < |uri| && uri[p0.it] == '/'
    ensures Flags(server, p) && p0.it < p.it <= |uri|
    ensures p.notFound == p0.notFound && p.rootLoc == p0.rootLoc && p.suffix == p0.suffix
    ensures ValidUri(uri) && Where(uri, Depth, p0) ==> Where(uri, FindDelimiter, p)
    ensures ValidUri(uri) && Where(uri, Depth, p0) && Searched(server, uri, p0) ==> Searched(server, uri, p)
  {
    hide Where, ValidUri, Searched;
    p := p0;
    var mid := Skip(uri, p.it, c => c == '/');
    var to := Skip(uri, mid, IsSegment);
    var temp := "/" + uri[mid..to];
    p := p.(it := to);
    if p.cgi {
      var end := Skip(uri, to, IsPath);
      p := p.(it := end, pathInfo := p.pathInfo + temp + uri[to..end]);
      AppendInfo(p.matched + p.script, p0.pathInfo, temp, uri[to..end]);
      DepthKept(uri, p0, p, mid, to, end);
      FoundAlready(server, uri, p0, p);
    } else {
      p := p.(depth := true, script := p.script + temp);
      AppendScript(p.matched, p0.script, temp);
      assert uri[to..to] == [];
      DepthKept(uri, p0, p, mid, to, to);
      DepthSearched(server, uri, p0, p, mid);
    }
  }

  lemma AppendInfo(a: bytes, b: bytes, c: bytes, d: bytes)
    ensures a + (b + c + d) == a + b + c + d
  {
  }

  lemma AppendScript(a: bytes, b: bytes, c: bytes)
    ensures a + (b + c) + [] == a + b + [] + c + []
  {
  }

  /** Once a CGI is found, the rest of the path does not change it. */
  lemma FoundAlready(server: Server, uri: bytes, p0: Parse, p: Parse)
    requires p0.it <= p.it && p0.cgi && p == p0.(it := p.it, pathInfo := p.pathInfo)
    ensures Searched(server, uri, p0) ==> Searched(server, uri, p)
  {
  }

  lemma DepthSearched(server: Server, uri: bytes, p0: Parse, p: Parse, mid: nat)
    requires p0.it < mid <= p.it <= |uri| && !p0.cgi && !p0.cgiPass
    requires p == p0.(it := p.it, depth := true, script := p.script)
    requires forall i :: p0.it <= i < mid ==> uri[i] == '/'
    requires forall i :: mid <= i < p.it ==> IsSegment(uri[i])
    requires mid < |uri| ==> uri[mid] != '/'
    ensures Where(uri, Depth, p0) && Where(uri, FindDelimiter, p) && Searched(server, uri, p0) ==>
              Searched(server, uri, p)
  {
    hide Collapse, CgiOf, ScriptEnd, FirstEnd, PathEnd, QueryOf, FragmentOf, IndexOf;
    if Where(uri, Depth, p0) && Where(uri, FindDelimiter, p) && Searched(server, uri, p0) {
      WithinPath(uri, p0.it, p.it);
      var path, first := PathOf(uri), FirstEnd(uri);
      var s := path[p0.it..];
      assert forall i :: 0 <= i < |s| ==> s[i] == uri[p0.it + i];
      SegmentSkips(server, s, mid - p0.it, p.it - p0.it);
      assert s[p.it - p0.it..] == path[p.it..];
      SeenOn(uri, path, first, p0.it, p.it);
    }
  }

  /** The delimiters seen before and those of the next stretch of the path. */
  lemma SeenOn(uri: bytes, path: bytes, first: nat, at: nat, to: nat)
    requires first <= at < to <= |path| && path == PathOf(uri)
    ensures (forall i :: at <= i < to ==> uri[i] != '.') ==> ('.' in path[first..to] <==> '.' in path[first..at])
    ensures (forall i :: at <= i < to ==> uri[i] != '/') ==> ('/' in path[first..to] <==> '/' in path[first..at])
    ensures uri[at] in path[first..to]
  {
    hide PathEnd;
    var part := path[at..to];
    assert path[first..to] == path[first..at] + part;
    assert part[0] == uri[at];
    assert forall i :: 0 <= i < |part| ==> part[i] == uri[at + i];
  }

  lemma DepthKept(uri: bytes, p0: Parse, p: Parse, mid: nat, to: nat, end: nat)
    requires p0.it < mid <= to <= end <= |uri|
    requires forall i :: p0.it <= i < mid ==> uri[i] == '/'
    requires forall i :: mid <= i < to ==> IsSegment(uri[i])
    requires forall i :: to <= i < end ==> IsPath(uri[i])
    requires mid < |uri| ==> uri[mid] != '/'
    requires end < |uri| ==> !IsSegment(uri[end]) && (p0.cgi ==> !IsPath(uri[end]))
    requires p.it == end && p.query == p0.query && p.fragment == p0.fragment
    requires p.matched + p.script + p.pathInfo ==
             p0.matched + p0.script + p0.pathInfo + ("/" + uri[mid..to]) + uri[to..end]
    ensures ValidUri(uri) && Where(uri, Depth, p0) ==> Where(uri, FindDelimiter, p)
  {
    if ValidUri(uri) && Where(uri, Depth, p0) {
      hide Collapse, PathEnd, QueryOf, FragmentOf, ValidUri;
      var stored := p0.matched + p0.script + p0.pathInfo;
      SegmentKept(uri, stored, p0.it, mid, to);
      RawKept(uri, stored + ("/" + uri[mid..to]), to, end);
      WithinPath(uri, p0.it, end);
      Stops(uri, end);
    }
  }

  /** `uri_cgi`: an extension, which may select a CGI. */
  method CgiState(server: Server, uri: bytes, p0: Parse) returns (p: Parse)
    requires Flags(server, p0) && p0.it < |uri| && uri[p0.it] == '.'
    ensures Flags(server, p) && p0.it < p.it <= |uri|
    ensures p.notFound == p0.notFound && p.rootLoc == p0.rootLoc && p.suffix == p0.suffix
    ensures ValidUri(uri) && Where(uri, Cgi, p0) ==> Where(uri, FindDelimiter, p)
    ensures ValidUri(uri) && Where(uri, Cgi, p0) && Searched(server, uri, p0) ==> Searched(server, uri, p)
  {
    hide Where, ValidUri, Searched, ByExtension;
    var to := Skip(uri, p0.it, IsExtension);
    var temp := uri[p0.it..to];
    if p0.cgi {
      p := p0.(it := to, pathInfo := p0.pathInfo + temp);
      FoundAlready(server, uri, p0, p);
    } else {
      var found := ByExtension(server, temp);
      p := WithExtension(p0, found).(it := to, script := p0.script + temp);
      ExtensionFlags(server, p0, p, temp);
      CgiSearched(server, uri, p0, p);
    }
    CgiKept(uri, p0, p, to);
  }

  /** What an extension does to the pointers and flags, when no CGI has been found before. */
  function WithExtension(p: Parse, found: Option<Location>): Parse {
    if found.Some? then
      p.(cgiLoc := found, isCgi := true, cgiPathInfo := found.value.cgiPathInfo, loc := found, cgi := true)
    else
      p.(checkExtension := true)
  }

  lemma ExtensionFlags(server: Server, p0: Parse, p: Parse, part: bytes)
    requires Flags(server, p0) && !p0.cgi
    requires p == WithExtension(p0, ByExtension(server, part)).(it := p.it, script := p0.script + part)
    ensures Flags(server, p)
  {
  }

  lemma CgiSearched(server: Server, uri: bytes, p0: Parse, p: Parse)
    requires p0.it < p.it <= |uri| && !p0.cgi && !p0.cgiPass && p0.pathInfo == [] && uri[p0.it] == '.'
    requires forall i :: p0.it <= i < p.it ==> IsExtension(uri[i])
    requires p.it < |uri| ==> !IsExtension(uri[p.it])
    requires var part := uri[p0.it..p.it];
             p == WithExtension(p0, ByExtension(server, part)).(it := p.it, script := p0.script + part)
    ensures ValidUri(uri) && Where(uri, Cgi, p0) && Where(uri, FindDelimiter, p) && Searched(server, uri, p0) ==>
              Searched(server, uri, p)
  {
    hide Collapse, CgiOf, ScriptEnd, FirstEnd, ByExtension, PathEnd, QueryOf, FragmentOf, IndexOf;
    if ValidUri(uri) && Where(uri, Cgi, p0) && Where(uri, FindDelimiter, p) && Searched(server, uri, p0) {
      WithinPath(uri, p0.it, p.it);
      var path, first := PathOf(uri), FirstEnd(uri);
      InPath(uri, |path|, p0.it, p.it);
      ComponentFrom(server, path, p0.it, p.it);
      SeenOn(uri, path, first, p0.it, p.it);
      assert p.matched + p.script + p.pathInfo == p.matched + p.script;
    }
  }

  lemma InPath(uri: bytes, e: nat, from: nat, to: nat)
    requires from <= to <= e <= |uri|
    ensures uri[..e][from..to] == uri[from..to] && uri[..e][..to] == uri[..to]
    ensures forall i :: from <= i < to ==> uri[..e][i] == uri[i]
  {
  }

  /** What a component selects is told by its part from its first dot on. */
  lemma ComponentFrom(server: Server, path: bytes, at: nat, to: nat)
    requires at < to <= |path| && path[at] == '.' && (to < |path| ==> path[to] == '/')
    requires forall i :: at <= i < to ==> path[i] != '/'
    ensures var here := ByExtension(server, path[at..to]);
            && CgiOf(server, path[at..]) == (if here.Some? then here else CgiOf(server, path[to..]))
            && ScriptEnd(server, path[at..]) == to - at + (if here.Some? then 0 else ScriptEnd(server, path[to..]))
  {
    hide CgiOf, ScriptEnd, ByExtension;
    var s, n := path[at..], to - at;
    assert s[0..n] == path[at..to] && s[n..] == path[to..];
    FirstComponent(server, s, 0, n);
  }

  lemma CgiKept(uri: bytes, p0: Parse, p: Parse, to: nat)
    requires p0.it <= to <= |uri| && p.it == to
    requires forall i :: p0.it <= i < to ==> IsExtension(uri[i])
    requires to < |uri| ==> !IsExtension(uri[to])
    requires p.matched == p0.matched && p.query == p0.query && p.fragment == p0.fragment
    requires if p0.cgi then p.script == p0.script && p.pathInfo == p0.pathInfo + uri[p0.it..to]
             else p.script == p0.script + uri[p0.it..to] && p.pathInfo == p0.pathInfo == []
    ensures ValidUri(uri) && Where(uri, Cgi, p0) ==> Where(uri, FindDelimiter, p)
  {
    if ValidUri(uri) && Where(uri, Cgi, p0) {
      hide Collapse, PathEnd, QueryOf, FragmentOf, ValidUri;
      var stored := p0.matched + p0.script + p0.pathInfo;
      RawKept(uri, stored, p0.it, to);
      WithinPath(uri, p0.it, to);
      if p0.cgi {
        assert stored + uri[p0.it..to] == p.matched + p.script + p.pathInfo;
      } else {
        assert stored + uri[p0.it..to] == p.matched + (p0.script + uri[p0.it..to]) + [];
      }
      Stops(uri, to);
    }
  }

  /** `uri_query`: everything up to a `#`. */
  method QueryState(uri: bytes, p0: Parse) returns (p: Parse)
    requires p0.it <= |uri|
    ensures p == p0.(it := p.it, query := p.query) && p0.it <= p.it <= |uri|
    ensures Where(uri, Query, p0) ==> Where(uri, FindDelimiter, p)
  {
    hide Where;
    var to := Skip(uri, p0.it, c => c != '#');
    p := p0.(it := to, query := p0.query + uri[p0.it..to]);
    if Where(uri, Query, p0) {
      QueryStored(uri, p0, to);
    }
  }

  lemma QueryEnd(uri: bytes, from: nat, to: nat)
    requires from <= to <= |uri| && '#' !in uri[from..to] && (to < |uri| ==> uri[to] == '#')
    ensures IndexOf(uri[from..], '#') == to - from && uri[from..][..to - from] == uri[from..to]
  {
    var rest := uri[from..];
    assert forall i :: 0 <= i < to - from ==> rest[i] == uri[from..to][i];
    IndexOfUnique(rest, '#', to - from);
  }

  lemma QueryStored(uri: bytes, p: Parse, to: nat)
    requires Where(uri, Query, p) && p.it <= to <= |uri|
    requires '#' !in uri[p.it..to] && (to < |uri| ==> uri[to] == '#')
    ensures Where(uri, FindDelimiter, p.(it := to, query := p.query + uri[p.it..to]))
  {
    hide Collapse, IndexOf;
    QueryEnd(uri, p.it, to);
    assert [] + uri[p.it..to] == uri[p.it..to];
  }

  /** Where the fragment begins, coming from the path or from the query. */
  lemma FragmentStart(uri: bytes, p: Parse)
    requires Where(uri, FindDelimiter, p) && p.it < |uri| && uri[p.it] == '#'
    ensures IndexOf(uri, '#') == p.it && p.query == QueryOf(uri)
  {
    var e := PathEnd(uri);
    if p.it > e {
      var rest := uri[e + 1..];
      assert forall i :: 0 <= i < |rest| ==> rest[i] == uri[e + 1 + i];
      assert forall i :: e < i < p.it ==> uri[i] == rest[i - e - 1];
    }
    IndexOfUnique(uri, '#', p.it);
  }

  /** At the end of the URI all parts are complete. */
  lemma AtEnd(uri: bytes, p: Parse)
    requires Where(uri, FindDelimiter, p) && p.it == |uri|
    ensures Where(uri, UriDone, p)
  {
    hide Collapse;
    var e := PathEnd(uri);
    if p.it > e {
      var rest := uri[e + 1..];
      assert forall i :: 0 <= i < |rest| ==> rest[i] == uri[e + 1 + i];
      assert forall i :: e < i < |uri| ==> uri[i] == rest[i - e - 1];
      IndexOfUnique(uri, '#', |uri|);
    }
  }

  /** `uri_find_delimeter_case` */
  method Delimit(server: Server, uri: bytes, p0: Parse) returns (p: Parse, state: State)
    requires p0.it <= |uri|
    ensures p == p0.(it := p.it) && p.it <= |uri|
    ensures if state in {Query, Fragment} then p.it == p0.it + 1 else p.it == p0.it && state in {Depth, Cgi, UriDone}
    ensures state == Depth ==> p.it < |uri| && uri[p.it] == '/'
    ensures state == Cgi ==> p.it < |uri| && uri[p.it] == '.'
    ensures ValidUri(uri) && Where(uri, FindDelimiter, p0) ==> Where(uri, state, p)
    ensures ValidUri(uri) && Where(uri, FindDelimiter, p0) && Searched(server, uri, p0) ==> Searched(server, uri, p)
  {
    hide Where, Searched;
    p, state := p0, UriDone;
    if p.it == |uri| {
      if Where(uri, FindDelimiter, p0) {
        AtEnd(uri, p0);
      }
      return;
    }
    var c := uri[p.it];
    if Where(uri, FindDelimiter, p0) {
      DelimiterMeans(uri, p0);
      PastPath(server, uri, p0);
    }
    if c == '?' {
      p, state := p.(it := p.it + 1), Query;
    } else if c == '#' {
      p, state := p.(it := p.it + 1), Fragment;
    } else if c == '.' {
      state := Cgi;
    } else if c == '/' {
      state := Depth;
    }
  }

  /** Stepping over `?` or `#` leaves the path behind. */
  lemma PastPath(server: Server, uri: bytes, p: Parse)
    requires Where(uri, FindDelimiter, p) && p.it < |uri|
    ensures uri[p.it] in "?#" ==> Searched(server, uri, p) == Searched(server, uri, p.(it := p.it + 1))
  {
    hide Collapse, Searched;
    BeforeEnd(uri, p.it);
    if uri[p.it] in "?#" {
      SearchedSame(server, uri, p, p.(it := p.it + 1));
    }
  }

  /** Reading the query or the fragment leaves the rest alone. */
  lemma PartRead(server: Server, uri: bytes, state: State, p: Parse, q: Parse)
    requires q == p.(it := q.it, query := q.query, fragment := q.fragment)
    requires state in {Query, Fragment} && p.it <= q.it
    ensures Flags(server, p) == Flags(server, q)
    ensures Where(uri, state, p) ==> Searched(server, uri, p) == Searched(server, uri, q)
  {
    hide Flags, Where, Searched;
    SameFlags(server, p, q);
    if Where(uri, state, p) {
      BehindPath(server, uri, state, p, q);
    }
  }

  /** Query and fragment are read behind the path. */
  lemma BehindPath(server: Server, uri: bytes, state: State, p: Parse, q: Parse)
    requires Where(uri, state, p) && state in {Query, Fragment} && p.it <= q.it
    requires q == p.(it := q.it, query := q.query, fragment := q.fragment)
    ensures Searched(server, uri, p) == Searched(server, uri, q)
  {
    hide Collapse, Searched;
    SearchedSame(server, uri, p, q);
  }

  /** What the byte at a delimiter says about the place on the URI. */
  lemma DelimiterMeans(uri: bytes, p: Parse)
    requires Where(uri, FindDelimiter, p) && p.it < |uri|
    ensures uri[p.it] in "?#./"
    ensures uri[p.it] == '?' ==> Where(uri, Query, p.(it := p.it + 1))
    ensures uri[p.it] == '#' ==> Where(uri, Fragment, p.(it := p.it + 1))
    ensures uri[p.it] == '.' ==> Where(uri, Cgi, p)
    ensures uri[p.it] == '/' ==> Where(uri, Depth, p)
  {
    var e := PathEnd(uri);
    if p.it <= e {
      BeforeEnd(uri, p.it);
    } else {
      var rest := uri[e + 1..];
      assert rest[p.it - e - 1] == uri[p.it];
    }
    if uri[p.it] == '#' {
      FragmentStart(uri, p);
    }
  }

  lemma FragmentMeans(uri: bytes, p0: Parse, p: Parse)
    requires Where(uri, Fragment, p0) && p0.it <= |uri| && p == p0.(it := |uri|, fragment := uri[p0.it..])
    ensures Where(uri, UriDone, p)
  {
    hide Collapse, PathEnd, QueryOf, IndexOf;
  }

  /** `uri_fragment`: all the rest. */
  method FragmentState(uri: bytes, p0: Parse) returns (p: Parse)
    requires p0.it <= |uri|
    ensures p == p0.(it := |uri|, fragment := p.fragment)
    ensures Where(uri, Fragment, p0) ==> Where(uri, UriDone, p)
  {
    hide IndexOf, Collapse;
    var to := Skip(uri, p0.it, c => true);
    p := p0.(it := to, fragment := p0.fragment + uri[p0.it..to]);
    if Where(uri, Fragment, p0) {
      FragmentMeans(uri, p0, p);
    }
  }

  lemma SameFlags(server: Server, p: Parse, q: Parse)
    requires q == p.(it := q.it, query := q.query, fragment := q.fragment)
    ensures Flags(server, p) == Flags(server, q)
  {
  }

  /** Everything is stored at the end. */
  lemma DoneMeans(server: Server, uri: bytes, p: Parse)
    requires Flags(server, p) && Where(uri, UriDone, p) && Searched(server, uri, p)
    ensures Splits(server, uri, p)
  {
    hide Collapse, IndexOf, QueryOf, FragmentOf, FirstEnd, PathEnd, ScriptEnd, ByExtension;
    var path := PathOf(uri);
    assert path[|path|..] == [];
    if !p.cgi {
      assert p.matched + p.script + p.pathInfo == p.matched + p.script;
      assert path[..|path|] == path;
    }
  }

  function StateRank(s: State): nat {
    match s
    case Main => 3
    case Query | Fragment => 2
    case FindDelimiter => 1
    case Depth | Cgi | UriDone => 0
  }

  /**
   * The machine up to `uri_done`.  It stops on every URI; a valid one it splits as `Splits` says.
   */
  method Decompose(server: Server, uri: bytes, method_: Method) returns (p: Parse, threw: bool)
    requires "/" in server.uriCase
    ensures threw <==> NoExtension(Selected(server, uri))
    ensures !threw ==> Flags(server, p) && p.rootLoc == Some(Selected(server, uri))
    ensures !threw ==> (p.notFound <==> !Matches(server, uri))
    ensures !threw ==> p.suffix == Suffix(Selected(server, uri), method_)
    ensures !threw && ValidUri(uri) ==> Splits(server, uri, p)
  {
    hide Flags, ValidUri, Kept, Where, Matches, Selected, Splits, NoExtension, Searched, Suffix;
    p, threw := MainState(server, uri, method_);
    if threw {
      return;
    }
    var state := FindDelimiter;
    while state != UriDone
      invariant p.it <= |uri| && Flags(server, p) && state != Main
      invariant (p.notFound <==> !Matches(server, uri)) && p.rootLoc == Some(Selected(server, uri))
      invariant state == Depth ==> p.it < |uri| && uri[p.it] == '/'
      invariant state == Cgi ==> p.it < |uri| && uri[p.it] == '.'
      invariant p.suffix == Suffix(Selected(server, uri), method_)
      invariant ValidUri(uri) ==> Where(uri, state, p) && Searched(server, uri, p)
      decreases |uri| - p.it, StateRank(state)
    {
      match state {
        case FindDelimiter =>
          ghost var before := p;
          p, state := Delimit(server, uri, p);
          SameFlags(server, before, p);
        case Depth =>
          p := DepthState(server, uri, p);
          state := FindDelimiter;
        case Cgi =>
          p := CgiState(server, uri, p);
          state := FindDelimiter;
        case Query =>
          ghost var before := p;
          p := QueryState(uri, p);
          PartRead(server, uri, Query, before, p);
          state := FindDelimiter;
        case Fragment =>
          ghost var before := p;
          p := FragmentState(uri, p);
          PartRead(server, uri, Fragment, before, p);
          state := UriDone;
      }
    }
    if ValidUri(uri) {
      DoneMeans(server, uri, p);
    }
  }

  // ----- uri_done -----

  /** `uri_resolved_t` */
  datatype Resolved = Resolved(
    isCgi: bool, cgiLoc: Option<Location>, cgiPathInfo: bytes, requestUri: bytes, resolvedUri: bytes,
    scriptName: bytes, scriptFilename: bytes, pathInfo: bytes, pathTranslated: bytes, query: bytes, fragment: bytes)

  function Cleared(): Resolved {
    Resolved(false, None, [], [], [], [], [], [], [], [], [])
  }

  /** An index file or an upload directory is appended to the resolved names. */
  predicate Indexed(p: Parse, method_: Method, dirOpens: bool) {
    && !(p.notFound || p.cgi || p.checkExtension) && p.suffix != []
    && (method_ in {Get, Head} || (method_ in {Post, Put} && dirOpens))
  }

  /** A location that hands its accepted requests to a CGI. */
  predicate OwnCgi(loc: Location, notFound: bool, method_: Method) {
    method_ in loc.accepted && !notFound && loc.cgiPathInfo != []
  }

  /** The first part of `uri_done`: which location the request goes to, and whether it is CGI. */
  method ChooseLocation(server: Server, p: Parse, method_: Method)
    returns (loc: Option<Location>, cgiLoc: Option<Location>, isCgi: bool)
    requires Flags(server, p)
    ensures loc == if p.notFound && p.depth then None else p.loc
    ensures isCgi <==> loc.Some? && (p.cgi || OwnCgi(p.rootLoc.value, p.notFound, method_))
    ensures cgiLoc == if !isCgi then None else if p.cgi then p.cgiLoc else p.rootLoc
    ensures p.cgiPass ==> cgiLoc == p.cgiLoc && cgiLoc.Some?
    ensures p.loc.Some? && (p.cgi ==> p.cgiLoc == p.loc)
  {
    loc, cgiLoc, isCgi := p.loc, p.cgiLoc, p.isCgi;
    if p.depth && p.notFound {
      loc, cgiLoc, isCgi := None, None, false;
    } else if !p.cgi && OwnCgi(loc.value, p.notFound, method_) {
      cgiLoc, isCgi := loc, true;
    }
  }

  /** A CGI program whose name has no extension makes the server throw. */
  predicate NoExtension(loc: Location) {
    loc.cgiPass != [] && '.' !in loc.cgiPass
  }

  /**
   * The split of a valid URI.  The matched key and `script_name_` are the path up to the end of
   * the first component with a CGI extension, or up to the end of the first segment when its
   * location names a CGI program; with `path_info_` they are the whole path.  Paths are compared
   * up to slash collapsing.
   */
  predicate Splits(server: Server, uri: bytes, p: Parse) {
    var path, first := PathOf(uri), FirstEnd(uri);
    var end := if p.cgiPass then first else ScriptEnd(server, path);
    && first <= end <= |path|
    && Collapse(p.matched + p.script) == Collapse(path[..end])
    && Collapse(p.matched + p.script + p.pathInfo) == Collapse(path)
    && p.query == QueryOf(uri) && p.fragment == FragmentOf(uri)
    && (p.cgiPass || p.cgiLoc == CgiOf(server, path))
    && (p.depth <==> !p.cgiPass && '/' in path[first..end])
    && (!p.cgi ==> (p.checkExtension <==> '.' in path[first..]))
  }

  /** The part of a path that names the script. */
  function ScriptOf(server: Server, uri: bytes, cgiPass: bool): bytes {
    var path := PathOf(uri);
    path[..Min(|path|, if cgiPass then FirstEnd(uri) else ScriptEnd(server, path))]
  }

  /** The location and the CGI, and what the state of the machine says about the URI. */
  predicate Selects(server: Server, uri: bytes, method_: Method, fileGood: bool, p: Parse,
                    loc: Option<Location>, res: Resolved)
    requires "/" in server.uriCase
  {
    var selected := Selected(server, uri);
    && Flags(server, p) && (p.notFound <==> !Matches(server, uri)) && p.rootLoc == Some(selected)
    && p.suffix == Suffix(selected, method_)
    && loc == (if p.notFound && p.depth then None
               else if p.cgi && !(fileGood && !p.notFound) then p.cgiLoc else Some(selected))
    && (res.isCgi <==> loc.Some? && (p.cgi || OwnCgi(selected, p.notFound, method_)))
    && res.cgiLoc == (if !res.isCgi then None else if p.cgi then p.cgiLoc else Some(selected))
    && res.cgiPathInfo == p.cgiPathInfo && res.query == p.query && res.fragment == p.fragment
  }

  /** The resolved names; `missing` tells that the file of a CGI request is not there. */
  predicate Names(uri: bytes, p: Parse, res: Resolved, indexed: bool, missing: bool) {
    var name, file := Resolve(p.phenomenon + p.script), Resolve(p.physical + p.script);
    && res.requestUri == uri && res.resolvedUri == res.scriptName + res.pathInfo
    && res.pathInfo == Resolve(p.pathInfo)
    && res.pathTranslated == (if res.pathInfo == [] then [] else Resolve(p.physical + "/" + res.pathInfo))
    && res.scriptName == (if indexed then Resolve(name + "/" + p.suffix) else name)
    && res.scriptFilename == (if p.cgiLoc.Some? && (p.cgiPass || missing) then p.cgiLoc.value.cgiPass
                              else if indexed then Resolve(file + "/" + p.suffix) else file)
  }

  /** The fields that only tell what the URI says. */
  predicate TextFields(server: Server, uri: bytes, p: Parse, res: Resolved)
    requires "/" in server.uriCase
  {
    && res.requestUri == uri && res.resolvedUri == res.scriptName + res.pathInfo
    && res.pathInfo == Resolve(p.pathInfo) && res.query == p.query && res.fragment == p.fragment
    && res.pathTranslated == if res.pathInfo == [] then []
                             else Resolve(Selected(server, uri).root + "/" + res.pathInfo)
  }

  /**
   * The fields without a CGI extension or program: the index file for GET and HEAD, or the upload
   * directory for POST and PUT when it opens, is appended for a location that was matched by a URI
   * without an extension, and nothing otherwise.
   */
  predicate PlainFields(server: Server, uri: bytes, method_: Method, dirOpens: bool, p: Parse,
                        loc: Option<Location>, res: Resolved)
    requires "/" in server.uriCase
  {
    var l := Selected(server, uri);
    var more := if p.notFound || p.checkExtension then []
                else if method_ == Get || method_ == Head then l.index
                else if (method_ == Post || method_ == Put) && dirOpens then l.savedPath
                else [];
    var file, name := Resolve(l.root + p.script), Resolve(l.uri + p.script);
    && res.scriptFilename == (if more == [] then file else Resolve(file + "/" + more))
    && res.scriptName == (if more == [] then name else Resolve(name + "/" + more))
    && (res.isCgi <==> loc.Some? && method_ in l.accepted && !p.notFound && l.cgiPathInfo != [])
    && (res.isCgi ==> res.cgiLoc == Some(l)) && res.cgiPathInfo == []
    && loc == if p.notFound && p.depth then None else Some(l)
  }

  /** The fields when the location names a CGI program; its extension may select an interpreter. */
  predicate ProgramFields(server: Server, uri: bytes, p: Parse, loc: Option<Location>, res: Resolved)
    requires "/" in server.uriCase
  {
    var l := Selected(server, uri);
    && p.cgi && res.scriptFilename == l.cgiPass && res.scriptName == Resolve(l.uri + p.script)
    && res.isCgi && res.cgiLoc == Some(l) && loc == Some(l)
    && forall k :: 0 <= k < |l.cgiPass| && l.cgiPass[k] == '.' && '.' !in l.cgiPass[k + 1..] ==>
         res.cgiPathInfo == if l.cgiPass[k..] in server.cgiCase then server.cgiCase[l.cgiPass[k..]].cgiPathInfo
                            else l.cgiPass
  }

  /** The fields when an extension of the path selects a CGI. */
  predicate ExtensionFields(server: Server, uri: bytes, fileGood: bool, p: Parse, loc: Option<Location>, res: Resolved)
    requires "/" in server.uriCase
  {
    var l := Selected(server, uri);
    && p.cgiLoc.Some? && res.scriptName == Resolve(l.uri + p.script)
    && (loc == None <==> p.notFound && p.depth)
    && (loc != None ==> res.isCgi && res.cgiLoc == p.cgiLoc
                        && loc == (if fileGood && !p.notFound then Some(l) else p.cgiLoc))
    && res.cgiPathInfo == p.cgiLoc.value.cgiPathInfo
    && res.scriptFilename == if loc != None && !fileGood then p.cgiLoc.value.cgiPass else Resolve(l.root + p.script)
  }

  /** Every location is stored under its own URI. */
  predicate KeysAgree(server: Server) {
    forall k :: k in server.uriCase ==> server.uriCase[k].uri == k
  }

  /**
   * `get_uri_location_t_`.  `dirOpens` and `fileGood` are what the file system answers.  The
   * pointer `cgi_loc_` is set wherever it is dereferenced, which is what the values taken out of
   * the options below prove.
   */
  method GetUriLocation(server: Server, uri: bytes, method_: Method, dirOpens: bool, fileGood: bool)
    returns (loc: Option<Location>, res: Resolved, threw: bool, ghost p: Parse)
    requires "/" in server.uriCase
    ensures uri == [] ==>
              && loc == None && !threw
              && res == Resolved(false, None, [], [], [], [], [], [], [], [], [])
    ensures uri != [] ==>
              (threw <==> Selected(server, uri).cgiPass != [] && '.' !in Selected(server, uri).cgiPass)
    ensures !threw ==> (res.isCgi <==> res.cgiLoc.Some?) && (loc == None ==> !res.isCgi)
    ensures !threw && uri != [] ==> Selects(server, uri, method_, fileGood, p, loc, res)
    ensures !threw && ValidUri(uri) ==> Splits(server, uri, p)
    ensures !threw && uri != [] ==> Names(uri, p, res, Indexed(p, method_, dirOpens), loc.Some? && p.cgi && !fileGood)
    // what that is, field by field
    ensures !threw && uri != [] ==> TextFields(server, uri, p, res)
    ensures !threw && uri != [] && !p.cgi ==> PlainFields(server, uri, method_, dirOpens, p, loc, res)
    ensures !threw && uri != [] && Selected(server, uri).cgiPass != [] ==> ProgramFields(server, uri, p, loc, res)
    ensures !threw && uri != [] && p.cgi && Selected(server, uri).cgiPass == [] ==>
              ExtensionFields(server, uri, fileGood, p, loc, res)
  {
    hide Where, ValidUri, Matches, Selected, Resolve, Splits, Indexed, NoExtension, Suffix, Flags, FirstEnd,
      TextFields, PlainFields, ProgramFields, ExtensionFields;
    loc, res, threw, p := None, Cleared(), false, Begin();
    if uri == [] {
      NotValid();
      return;
    }
    var q;
    q, threw := Decompose(server, uri, method_);
    ThrowsIff(Selected(server, uri));
    p := q;
    if threw {
      return;
    }
    loc, res := FinishUri(server, uri, q, method_, dirOpens, fileGood);
    FieldByField(server, uri, method_, dirOpens, fileGood, q, loc, res);
  }

  /** `uri_done` */
  method FinishUri(server: Server, uri: bytes, q: Parse, method_: Method, dirOpens: bool, fileGood: bool)
    returns (loc: Option<Location>, res: Resolved)
    requires "/" in server.uriCase && Flags(server, q) && q.rootLoc == Some(Selected(server, uri))
    requires (q.notFound <==> !Matches(server, uri)) && q.suffix == Suffix(Selected(server, uri), method_)
    ensures (res.isCgi <==> res.cgiLoc.Some?) && (loc == None ==> !res.isCgi)
    ensures Selects(server, uri, method_, fileGood, q, loc, res)
    ensures Names(uri, q, res, Indexed(q, method_, dirOpens), loc.Some? && q.cgi && !fileGood)
  {
    hide Matches, Selected, Resolve, Indexed, Suffix, Flags;
    var cgiLoc, isCgi;
    loc, cgiLoc, isCgi := ChooseLocation(server, q, method_);
    PointersSet(server, q);
    var filename, name := ResolveNames(q, method_, dirOpens);
    loc, filename := CgiFile(q, loc, cgiLoc, filename, fileGood);
    var pathInfo := PathResolve(q.pathInfo);
    var translated := [];
    if pathInfo != [] {
      translated := PathResolve(q.physical + "/" + pathInfo);
    }
    res := Resolved(isCgi, cgiLoc, q.cgiPathInfo, uri, name + pathInfo, name, filename, pathInfo, translated,
                    q.query, q.fragment);
  }

  /** What the relations say of each field. */
  lemma FieldByField(server: Server, uri: bytes, method_: Method, dirOpens: bool, fileGood: bool, p: Parse,
                     loc: Option<Location>, res: Resolved)
    requires "/" in server.uriCase && Selects(server, uri, method_, fileGood, p, loc, res)
    requires Names(uri, p, res, Indexed(p, method_, dirOpens), loc.Some? && p.cgi && !fileGood)
    ensures TextFields(server, uri, p, res)
    ensures !p.cgi ==> PlainFields(server, uri, method_, dirOpens, p, loc, res)
    ensures Selected(server, uri).cgiPass != [] ==> ProgramFields(server, uri, p, loc, res)
    ensures p.cgi && Selected(server, uri).cgiPass == [] ==> ExtensionFields(server, uri, fileGood, p, loc, res)
  {
    hide Resolve, Matches, Selected, LastIndexOf;
    var l := Selected(server, uri);
    forall k | 0 <= k < |l.cgiPass| && l.cgiPass[k] == '.' && '.' !in l.cgiPass[k + 1..]
      ensures LastIndexOf(l.cgiPass, '.') == k
    {
      LastAt(l.cgiPass, k);
    }
  }

  lemma LastAt(s: bytes, k: nat)
    requires k < |s| && s[k] == '.' && '.' !in s[k + 1..]
    ensures LastIndexOf(s, '.') == k
  {
    assert forall i :: k < i < |s| ==> s[i] == s[k + 1..][i - k - 1];
    LastIndexOfUnique(s, '.', k);
  }

  /** The end of `uri_done`: the program stands for a script that is not there. */
  method CgiFile(q: Parse, loc0: Option<Location>, cgiLoc: Option<Location>, file: bytes, fileGood: bool)
    returns (loc: Option<Location>, filename: bytes)
    requires q.cgiPass || (loc0.Some? && q.cgi) ==> cgiLoc.Some?
    ensures loc == if loc0.Some? && q.cgi && fileGood && !q.notFound then q.rootLoc else loc0
    ensures filename == if q.cgiPass || (loc0.Some? && q.cgi && !fileGood) then cgiLoc.value.cgiPass else file
  {
    loc, filename := loc0, file;
    if q.cgiPass {
      filename := cgiLoc.value.cgiPass;
    }
    if loc.Some? && q.cgi {
      if fileGood {
        if !q.notFound {
          loc := q.rootLoc;
        }
      } else {
        filename := cgiLoc.value.cgiPass;
      }
    }
  }

  /** The names in `uri_done`, with an index appended where there is one. */
  method ResolveNames(q: Parse, method_: Method, dirOpens: bool) returns (filename: bytes, name: bytes)
    ensures var indexed := Indexed(q, method_, dirOpens);
            var file, n := Resolve(q.physical + q.script), Resolve(q.phenomenon + q.script);
            && filename == (if indexed then Resolve(file + "/" + q.suffix) else file)
            && name == (if indexed then Resolve(n + "/" + q.suffix) else n)
  {
    hide Resolve;
    filename := PathResolve(q.physical + q.script);
    name := PathResolve(q.phenomenon + q.script);
    if !(q.notFound || q.cgi || q.checkExtension) && q.suffix != [] {
      if method_ in {Get, Head} || (method_ in {Post, Put} && dirOpens) {
        filename := PathResolve(filename + "/" + q.suffix);
        name := PathResolve(name + "/" + q.suffix);
      }
    }
  }

  lemma ThrowsIff(loc: Location)
    ensures NoExtension(loc) <==> loc.cgiPass != [] && '.' !in loc.cgiPass
  {
  }

  /** The pointers and flags that `uri_done` relies on. */
  lemma PointersSet(server: Server, p: Parse)
    requires Flags(server, p)
    ensures p.loc.Some? && p.rootLoc.Some? && (p.cgi <==> p.cgiLoc.Some?) && (p.cgiPass ==> p.cgi)
    ensures p.loc == if p.cgi then p.cgiLoc else p.rootLoc
  {
  }

  lemma NotValid()
    ensures !ValidUri([])
  {
  }

  // ----- nothing is lost -----

  /** The resolved names of a path without percent signs. */
  lemma ResolvedParts(a: bytes, b: bytes)
    requires '%' !in a && '%' !in b
    ensures Collapse(Resolve(a) + Resolve(b)) == Collapse(a + b)
  {
    ResolvePlain(a);
    ResolvePlain(b);
    CollapseConcat(a, Collapse(b));
    CollapseNoDouble(b);
    CollapseFixed(Collapse(b));
    CollapsePrepend(a, Collapse(b), b);
  }

  lemma ResolvedPart(a: bytes)
    requires '%' !in a
    ensures Collapse(Resolve(a)) == Collapse(a)
  {
    ResolvePlain(a);
    CollapseNoDouble(a);
    CollapseFixed(Collapse(a));
  }

  /** Bytes of a path are bytes of what collapses to it. */
  lemma {:induction false} CollapseKeeps(s: bytes, c: byte)
    ensures c in s <==> c in Collapse(s)
    decreases |s|
  {
    if |s| > 1 {
      CollapseKeeps(s[1..], c);
    }
  }

  predicate ComesBack(server: Server, uri: bytes, p: Parse) {
    var name := Resolve(p.phenomenon + p.script);
    && Collapse(name + Resolve(p.pathInfo)) == Collapse(PathOf(uri))
    && Collapse(name) == Collapse(ScriptOf(server, uri, p.cgiPass))
    && (p.pathInfo == [] && '%' !in p.suffix ==>
          Collapse(Resolve(name + "/" + p.suffix)) == Collapse(PathOf(uri) + "/" + p.suffix))
  }

  /**
   * What the resolver stored gives the path of the request back: `script_name_` is the path up to
   * the end of the script, and together with `path_info_` it is the whole path, up to slash
   * collapsing and followed by the index when one is appended.
   */
  lemma PathComesBack(server: Server, uri: bytes, p: Parse)
    requires Flags(server, p) && KeysAgree(server)
    requires Splits(server, uri, p) && '%' !in PathOf(uri)
    ensures ComesBack(server, uri, p)
  {
    hide Resolve, Collapse, PathOf, FirstEnd, ScriptEnd, CgiOf, QueryOf, FragmentOf;
    var key := p.phenomenon;
    CollapseKeeps(p.matched + p.script + p.pathInfo, '%');
    CollapseKeeps(PathOf(uri), '%');
    NoPercent(p);
    KeyComesBack(server, p, p.pathInfo);
    KeyComesBack(server, p, []);
    assert key + p.script + [] == key + p.script && p.matched + p.script + [] == p.matched + p.script;
    assert '%' !in key + p.script by {
      KeyPlain(server, p);
    }
    ResolvedParts(key + p.script, p.pathInfo);
    ResolvedPart(key + p.script);
    if p.pathInfo == [] && '%' !in p.suffix {
      assert key + p.script + p.pathInfo == key + p.script;
      IndexComesBack(key + p.script, PathOf(uri), p.suffix);
    }
  }

  /**
   * The name of a script without an index is what the path up to its end resolves to, percent signs
   * and all.
   */
  lemma NameComesBack(server: Server, uri: bytes, p: Parse)
    requires Flags(server, p) && KeysAgree(server) && Splits(server, uri, p)
    ensures Resolve(p.phenomenon + p.script) == Resolve(ScriptOf(server, uri, p.cgiPass))
  {
    hide Resolve, Collapse, PathOf, FirstEnd, ScriptEnd, CgiOf, QueryOf, FragmentOf;
    KeyComesBack(server, p, []);
    assert p.phenomenon + p.script + [] == p.phenomenon + p.script && p.matched + p.script + [] == p.matched + p.script;
    ResolveCollapsed(p.phenomenon + p.script);
    ResolveCollapsed(ScriptOf(server, uri, p.cgiPass));
  }

  lemma KeyPlain(server: Server, p: Parse)
    requires Flags(server, p) && KeysAgree(server) && '%' !in p.matched
    ensures '%' !in p.phenomenon
  {
  }

  /**
   * The file that is opened for a request, and the translated path, begin with the root of the
   * selected location, whatever the URI encodes: decoding does not reach into the root.  Whether
   * the file lies below the root depends on components `..` too, which stay (`FileClimbsIff`).
   */
  lemma FileBeginsWithRoot(server: Server, uri: bytes, p: Parse, res: Resolved, indexed: bool, missing: bool)
    requires Flags(server, p) && Names(uri, p, res, indexed, missing)
    requires '%' !in p.rootLoc.value.root
    ensures var root := Collapse(p.rootLoc.value.root);
            && (!(p.cgiPass || missing) || p.cgiLoc == None ==> root <= res.scriptFilename)
            && (res.pathInfo != [] ==> root <= res.pathTranslated)
  {
    hide Resolve, Collapse;
    var a := p.physical;
    ResolveKeepsPrefix(a, p.script);
    ResolveKeepsPrefix(a, "/" + res.pathInfo);
    assert a + ("/" + res.pathInfo) == a + "/" + res.pathInfo;
    var root, file := Collapse(a), Resolve(a + p.script);
    RootFixed(a);
    assert file + "/" + p.suffix == root + (file[|root|..] + "/" + p.suffix);
    ResolveKeepsPrefix(root, file[|root|..] + "/" + p.suffix);
  }

  /**
   * The path of the file has a component `..` if and only if the root of the location followed by
   * the decoded script has one; with an index, if and only if the name it is appended to has one
   * when it is decoded once more.
   */
  lemma FileClimbsIff(server: Server, uri: bytes, p: Parse, res: Resolved, indexed: bool, missing: bool)
    requires Flags(server, p) && Names(uri, p, res, indexed, missing)
    requires '%' !in p.rootLoc.value.root && (!(p.cgiPass || missing) || p.cgiLoc == None)
    ensures var root := p.rootLoc.value.root;
            Climbs(res.scriptFilename, true) <==>
              if indexed then Climbs(Decoded(Resolve(root + p.script) + "/" + p.suffix), true)
              else Climbs(root + Decoded(p.script), true)
  {
    hide Resolve, Collapse, Climbs, Decoded;
    var root := p.physical;
    ResolveClimbs(root + p.script, true);
    ResolveClimbs(Resolve(root + p.script) + "/" + p.suffix, true);
    DecodedPlain(root, p.script);
  }

  lemma RootFixed(a: bytes)
    requires '%' !in a
    ensures '%' !in Collapse(a) && Collapse(Collapse(a)) == Collapse(a)
  {
    CollapseKeeps(a, '%');
    CollapseNoDouble(a);
    CollapseFixed(Collapse(a));
  }

  /** The URI of the location stands for the key that was matched. */
  lemma KeyComesBack(server: Server, p: Parse, tail: bytes)
    requires Flags(server, p) && KeysAgree(server)
    ensures Collapse(p.phenomenon + p.script + tail) == Collapse(p.matched + p.script + tail)
  {
    if p.notFound {
      RootSlash(p.script + tail);
      assert p.phenomenon + p.script + tail == "/" + (p.script + tail);
      assert p.matched + p.script + tail == p.script + tail;
    }
  }

  /** An appended index follows the path. */
  lemma IndexComesBack(a: bytes, path: bytes, suffix: bytes)
    requires '%' !in a && '%' !in suffix && Collapse(a) == Collapse(path)
    ensures Collapse(Resolve(Resolve(a) + "/" + suffix)) == Collapse(path + "/" + suffix)
  {
    var name, ending := Resolve(a), "/" + suffix;
    assert name + "/" + suffix == name + ending && path + "/" + suffix == path + ending;
    ResolvePlain(a);
    CollapseNoDouble(a);
    CollapseFixed(Collapse(a));
    assert '%' !in ending;
    ResolvePlain(name + ending);
    CollapseNoDouble(name + ending);
    CollapseFixed(Collapse(name + ending));
    CollapseAppend(name, path, ending);
  }

  lemma NoPercent(p: Parse)
    requires '%' !in p.matched + p.script + p.pathInfo
    ensures '%' !in p.matched && '%' !in p.script && '%' !in p.pathInfo
  {
    var all := p.matched + p.script + p.pathInfo;
    forall i | 0 <= i < |p.matched|
      ensures p.matched[i] != '%'
    {
      assert all[i] == p.matched[i];
    }
    forall i | 0 <= i < |p.script|
      ensures p.script[i] != '%'
    {
      assert all[|p.matched| + i] == p.script[i];
    }
    forall i | 0 <= i < |p.pathInfo|
      ensures p.pathInfo[i] != '%'
    {
      assert all[|p.matched| + |p.script| + i] == p.pathInfo[i];
    }
  }

  lemma RootSlash(s: bytes)
    requires s != [] && s[0] == '/'
    ensures Collapse("/" + s) == Collapse(s)
  {
    assert ("/" + s)[1..] == s;
  }
}
