/** What the parts of a URI are, told by how a URI is put together. */
module UriParts {
  import opened Bytes
  import opened Paths
  import opened Servers
  import opened Resolver

  /** A query behind `?`, if there is one. */
  function QueryPart(query: Option<bytes>): bytes {
    match query case None => [] case Some(q) => "?" + q
  }

  /** A fragment behind `#`, if there is one. */
  function FragmentPart(fragment: Option<bytes>): bytes {
    match fragment case None => [] case Some(f) => "#" + f
  }

  /** Path, query and fragment come back from the URI that is put together from them. */
  lemma PartsComeBack(path: bytes, query: Option<bytes>, fragment: Option<bytes>)
    requires '?' !in path && '#' !in path && (query.Some? ==> '#' !in query.value)
    ensures var uri := path + QueryPart(query) + FragmentPart(fragment);
            && PathOf(uri) == path
            && QueryOf(uri) == (if query.Some? then query.value else [])
            && FragmentOf(uri) == (if fragment.Some? then fragment.value else [])
  {
    hide IndexOf, PathEnd, QueryOf, FragmentOf, QueryPart, FragmentPart;
    var uri := path + QueryPart(query) + FragmentPart(fragment);
    PathEndIs(path, query, fragment);
    assert uri[..|path|] == path;
    QueryIs(path, query, fragment);
    FragmentIs(path + QueryPart(query), fragment, path, query);
  }

  lemma PathEndIs(path: bytes, query: Option<bytes>, fragment: Option<bytes>)
    requires '?' !in path && '#' !in path && (query.Some? ==> '#' !in query.value)
    ensures var uri := path + QueryPart(query) + FragmentPart(fragment);
            PathEnd(uri) == |path| && (PathEnd(uri) < |uri| ==> (uri[|path|] == '?' <==> query.Some?))
  {
    hide IndexOf;
    var q, f := QueryPart(query), FragmentPart(fragment);
    var uri := path + q + f;
    assert uri == path + (q + f);
    IndexOfConcat(path, q + f, '?');
    IndexOfConcat(path, q + f, '#');
    IndexOfUnique(path, '?', |path|);
    IndexOfUnique(path, '#', |path|);
    if q + f != [] {
      assert (q + f)[0] == (if query.Some? then '?' else '#');
      IndexOfUnique(q + f, (q + f)[0], 0);
    }
  }

  lemma QueryIs(path: bytes, query: Option<bytes>, fragment: Option<bytes>)
    requires '?' !in path && '#' !in path && (query.Some? ==> '#' !in query.value)
    ensures QueryOf(path + QueryPart(query) + FragmentPart(fragment)) == if query.Some? then query.value else []
  {
    hide IndexOf, PathEnd;
    var f := FragmentPart(fragment);
    var uri := path + QueryPart(query) + f;
    PathEndIs(path, query, fragment);
    if query.Some? {
      var rest := query.value + f;
      assert uri[|path| + 1..] == rest;
      HashEnds(query.value, fragment);
      assert rest[..|query.value|] == query.value;
    }
  }

  /** A `#` ends what has none. */
  lemma HashEnds(s: bytes, fragment: Option<bytes>)
    requires '#' !in s
    ensures IndexOf(s + FragmentPart(fragment), '#') == |s|
  {
    hide IndexOf;
    var all := s + FragmentPart(fragment);
    assert forall i :: 0 <= i < |s| ==> all[i] == s[i];
    IndexOfUnique(all, '#', |s|);
  }

  lemma FragmentIs(front: bytes, fragment: Option<bytes>, path: bytes, query: Option<bytes>)
    requires front == path + QueryPart(query) && '#' !in path && (query.Some? ==> '#' !in query.value)
    ensures FragmentOf(front + FragmentPart(fragment)) == if fragment.Some? then fragment.value else []
  {
    hide IndexOf, QueryPart;
    NoHash(path, query);
    HashEnds(front, fragment);
    if fragment.Some? {
      BehindHash(front, fragment.value);
    }
  }

  lemma NoHash(path: bytes, query: Option<bytes>)
    requires '#' !in path && (query.Some? ==> '#' !in query.value)
    ensures '#' !in path + QueryPart(query)
  {
  }

  lemma BehindHash(front: bytes, f: bytes)
    ensures (front + ("#" + f))[|front| + 1..] == f
  {
  }

  /**
   * The location of a URI is the one configured for its first segment, when there is one and no
   * extension follows the segment, and that of the root otherwise.
   */
  lemma FirstSegmentSelects(server: Server, slashes: bytes, segment: bytes, more: bytes)
    requires "/" in server.uriCase
    requires slashes != [] && forall i :: 0 <= i < |slashes| ==> slashes[i] == '/'
    requires forall i :: 0 <= i < |segment| ==> '!' <= segment[i] <= '~' && segment[i] !in "#./?"
    requires more != [] ==> more[0] in "#./?" && (segment == [] ==> more[0] != '/')
    ensures var uri, key, extension := slashes + segment + more, "/" + segment, more != [] && more[0] == '.';
            && (Matches(server, uri) <==> !extension && key in server.uriCase)
            && Selected(server, uri) == server.uriCase[if !extension && key in server.uriCase then key else "/"]
            && FirstEnd(uri) == |slashes| + |segment|
  {
    var uri, mid, to := slashes + segment + more, |slashes|, |slashes| + |segment|;
    assert forall i :: 0 <= i < mid ==> uri[i] == slashes[i];
    assert forall i :: mid <= i < to ==> uri[i] == segment[i - mid];
    assert to < |uri| ==> uri[to] == more[0];
    assert uri[mid..to] == segment;
    SelectionIs(server, uri, mid, to);
    FirstEndIs(uri, mid, to);
  }

  /** The extension of a component begins at its last dot. */
  lemma ExtensionSelects(server: Server, stem: bytes, extension: bytes)
    requires extension != [] && extension[0] == '.' && '.' !in extension[1..]
    ensures ByExtension(server, stem + extension) ==
              if extension in server.cgiCase then Some(server.cgiCase[extension]) else None
  {
    var part := stem + extension;
    assert part[|stem|] == '.' && part[|stem| + 1..] == extension[1..] && part[|stem|..] == extension;
    LastAt(part, |stem|);
  }

  lemma NoDotSelectsNothing(server: Server, part: bytes)
    requires '.' !in part
    ensures ByExtension(server, part) == None
  {
  }

  /** The first component that selects a CGI by its extension decides, and ends the script. */
  lemma ComponentDecides(server: Server, slashes: bytes, component: bytes, rest: bytes)
    requires forall i :: 0 <= i < |slashes| ==> slashes[i] == '/'
    requires component != [] && '/' !in component && (rest != [] ==> rest[0] == '/')
    ensures var path, here, n := slashes + component + rest, ByExtension(server, component), |slashes| + |component|;
            && CgiOf(server, path) == (if here.Some? then here else CgiOf(server, rest))
            && ScriptEnd(server, path) == n + (if here.Some? then 0 else ScriptEnd(server, rest))
  {
    hide ByExtension;
    var path, n := slashes + component + rest, |slashes| + |component|;
    assert forall i :: 0 <= i < |slashes| ==> path[i] == slashes[i];
    assert path[|slashes|] == component[0] && path[|slashes|..n] == component && path[n..] == rest;
    assert n < |path| ==> path[n] == rest[0];
    FirstComponent(server, path, |slashes|, n);
  }
}
