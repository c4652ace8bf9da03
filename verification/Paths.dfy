/** Path resolution: runs of slashes collapse and percent-encodings are decoded (section 2.1 of RFC 3986). */
module Paths {
  import opened Bytes

  /** Length of the run of slashes a string begins with. */
  function Slashes(s: bytes): (n: nat)
    ensures n <= |s| && (forall i :: 0 <= i < n ==> s[i] == '/')
    ensures n < |s| ==> s[n] != '/'
  {
    if s == [] || s[0] != '/' then 0 else 1 + Slashes(s[1..])
  }

  /** A percent sign and two hexadecimal digits begin the string. */
  predicate Encoded(s: bytes) {
    |s| >= 3 && s[0] == '%' && IsHex(s[1]) && IsHex(s[2])
  }

  function Decode(s: bytes): byte
    requires Encoded(s)
  {
    (16 * HexDigit(s[1]) + HexDigit(s[2])) as char
  }

  /** What `path_resolve_` computes. */
  function Resolve(s: bytes): bytes
    decreases |s|
  {
    if s == [] then []
    else if s[0] == '/' then "/" + Resolve(s[Slashes(s)..])
    else if Encoded(s) then [Decode(s)] + Resolve(s[3..])
    else [s[0]] + Resolve(s[1..])
  }

  /** `path_resolve_`; a dereference at the end reads zero, which is no digit. */
  method PathResolve(path: bytes) returns (r: bytes)
    ensures r == Resolve(path) && Encodes(path, r)
  {
    hide Resolve, Encodes;
    r := [];
    var i := 0;
    while i < |path|
      invariant i <= |path|
      invariant r + Resolve(path[i..]) == Resolve(path)
      decreases |path| - i
    {
      ResolveStep(path, i, r);
      if path[i] == '/' {
        i := SkipSlashes(path, i);
        r := r + "/";
      } else if path[i] == '%' && i + 2 < |path| && IsHex(path[i + 1]) && IsHex(path[i + 2]) {
        r := r + [(16 * HexDigit(path[i + 1]) + HexDigit(path[i + 2])) as char];
        i := i + 3;
      } else {
        r := r + [path[i]];
        i := i + 1;
      }
    }
    ResolveEnd(path[i..]);
    ResolveIff(path, r);
  }

  lemma ResolveEnd(s: bytes)
    requires s == []
    ensures Resolve(s) == []
  {
  }

  method SkipSlashes(path: bytes, from: nat) returns (i: nat)
    requires from < |path| && path[from] == '/'
    ensures from < i <= |path| && i == from + Slashes(path[from..])
  {
    i := from;
    while i < |path| && path[i] == '/'
      invariant from <= i <= from + Slashes(path[from..]) <= |path|
      decreases |path| - i
    {
      assert path[i] == path[from..][i - from];
      i := i + 1;
    }
    assert i < |path| ==> path[i] == path[from..][i - from];
  }

  /** What one round of the loop does to the accumulated result `r`. */
  lemma ResolveStep(path: bytes, i: nat, r: bytes)
    requires i < |path|
    ensures var all, n := r + Resolve(path[i..]), Slashes(path[i..]);
            if path[i] == '/' then n > 0 && all == r + "/" + Resolve(path[i + n..])
            else if path[i] == '%' && i + 2 < |path| && IsHex(path[i + 1]) && IsHex(path[i + 2]) then
              all == r + [(16 * HexDigit(path[i + 1]) + HexDigit(path[i + 2])) as char] + Resolve(path[i + 3..])
            else all == r + [path[i]] + Resolve(path[i + 1..])
  {
    var rest := path[i..];
    var n := Slashes(rest);
    if path[i] == '/' {
      assert rest[n..] == path[i + n..];
      assert Resolve(rest) == "/" + Resolve(path[i + n..]);
    } else if Encoded(rest) {
      assert rest[3..] == path[i + 3..];
      assert Resolve(rest) == [Decode(rest)] + Resolve(path[i + 3..]);
    } else {
      assert rest[1..] == path[i + 1..];
      assert Resolve(rest) == [path[i]] + Resolve(path[i + 1..]);
    }
  }

  // ----- inverse of percent-encoding -----

  /** A percent sign and two hexadecimal digits, in either case. */
  predicate Escape(e: bytes) {
    && |e| >= 3 && e[0] == '%'
    && e[1] in "0123456789ABCDEFabcdef" && e[2] in "0123456789ABCDEFabcdef"
  }

  /**
   * `e` stands for `s`: an escape for the byte its digits spell, a run of slashes for one slash, and
   * any other byte for itself.
   */
  predicate Encodes(e: bytes, s: bytes)
    decreases |e|
  {
    if e == [] then s == []
    else if |e| > 1 && e[0] == e[1] == '/' then Encodes(e[1..], s)
    else
      && s != []
      && if Escape(e) then
           StandsFor(e[1], s[0] as int / 16) && StandsFor(e[2], s[0] as int % 16) && Encodes(e[3..], s[1..])
         else e[0] == s[0] && Encodes(e[1..], s[1..])
  }

  lemma EscapeIs(e: bytes, b: byte)
    ensures Escape(e) <==> Encoded(e)
    ensures Encoded(e) ==>
              (Decode(e) == b <==> StandsFor(e[1], b as int / 16) && StandsFor(e[2], b as int % 16))
  {
    if |e| >= 3 {
      HexTable(e[1], b as int / 16);
      HexTable(e[2], b as int % 16);
      hide StandsFor;
      if Encoded(e) {
        SixteenTimes(HexDigit(e[1]), HexDigit(e[2]), b as int);
      }
    }
  }

  lemma SixteenTimes(h: nat, l: nat, n: nat)
    requires h < 16 && l < 16
    ensures 16 * h + l == n <==> h == n / 16 && l == n % 16
  {
  }

  /** Resolving gives exactly what a path stands for. */
  lemma {:induction false} ResolveIff(e: bytes, s: bytes)
    ensures Resolve(e) == s <==> Encodes(e, s)
    decreases |e|
  {
    hide StandsFor, HexDigit, Resolve, Encoded, Decode;
    if e == [] {
      ResolveEnd(e);
    } else if e[0] == '/' {
      ResolveOne(e);
      ResolveIff(e[1..], s);
      if s != [] {
        ResolveIff(e[1..], s[1..]);
        assert s == [s[0]] + s[1..];
      }
    } else {
      EscapeIs(e, e[0]);
      var rest := if Encoded(e) then e[3..] else e[1..];
      ResolveByte(e);
      if s != [] {
        EscapeIs(e, s[0]);
        ResolveIff(rest, s[1..]);
        assert s == [s[0]] + s[1..];
      }
    }
  }

  lemma ResolveByte(e: bytes)
    requires e != [] && e[0] != '/'
    ensures Resolve(e) == if Encoded(e) then [Decode(e)] + Resolve(e[3..]) else [e[0]] + Resolve(e[1..])
  {
  }

  /** An escape for a byte, in upper or in lower case. */
  function EscapeFor(b: byte, upper: bool): bytes {
    var h, l := b as int / 16, b as int % 16;
    if upper then ['%', "0123456789ABCDEF"[h], "0123456789ABCDEF"[l]]
    else ['%', "0123456789abcdef"[h], "0123456789abcdef"[l]]
  }

  /** The encoding that leaves the bytes marked plain, as long as they may be, and escapes the others. */
  function Encode(s: bytes, plain: byte -> bool, upper: byte -> bool): bytes {
    if s == [] then []
    else
      (if s[0] !in "%/" && plain(s[0]) then [s[0]] else EscapeFor(s[0], upper(s[0]))) + Encode(s[1..], plain, upper)
  }

  lemma EscapeForIs(b: byte, upper: bool)
    ensures var e := EscapeFor(b, upper);
            Escape(e) && StandsFor(e[1], b as int / 16) && StandsFor(e[2], b as int % 16)
  {
    var e := EscapeFor(b, upper);
    HexTable(e[1], b as int / 16);
    HexTable(e[2], b as int % 16);
  }

  /** Resolving undoes every encoding of every byte string. */
  lemma {:induction false} EncodeEncodes(s: bytes, plain: byte -> bool, upper: byte -> bool)
    ensures Encodes(Encode(s, plain, upper), s)
    ensures Resolve(Encode(s, plain, upper)) == s
    decreases |s|
  {
    if s != [] {
      hide StandsFor;
      var e, rest := Encode(s, plain, upper), Encode(s[1..], plain, upper);
      EncodeEncodes(s[1..], plain, upper);
      if s[0] !in "%/" && plain(s[0]) {
        assert e[1..] == rest;
      } else {
        var x := EscapeFor(s[0], upper(s[0]));
        EscapeForIs(s[0], upper(s[0]));
        assert e == x + rest && e[3..] == rest && e[1] == x[1] && e[2] == x[2];
      }
    }
    ResolveIff(Encode(s, plain, upper), s);
  }

  // ----- slash collapsing -----

  /** Collapses runs of slashes. */
  function Collapse(s: bytes): bytes
    decreases |s|
  {
    if |s| <= 1 then s
    else if s[0] == '/' && s[1] == '/' then Collapse(s[1..])
    else [s[0]] + Collapse(s[1..])
  }

  predicate NoDoubleSlash(s: bytes) {
    forall i :: 0 <= i < |s| - 1 ==> !(s[i] == '/' && s[i + 1] == '/')
  }

  lemma {:induction false} CollapseFirst(s: bytes)
    ensures (s == []) == (Collapse(s) == [])
    ensures s != [] ==> Collapse(s)[0] == s[0]
    decreases |s|
  {
    if |s| > 1 {
      CollapseFirst(s[1..]);
    }
  }

  lemma {:induction false} CollapseNoDouble(s: bytes)
    ensures NoDoubleSlash(Collapse(s)) && (forall c | c in Collapse(s) :: c in s)
    decreases |s|
  {
    if |s| > 1 {
      CollapseNoDouble(s[1..]);
      CollapseFirst(s[1..]);
    }
  }

  lemma {:induction false} CollapseFixed(s: bytes)
    requires NoDoubleSlash(s)
    ensures Collapse(s) == s
    decreases |s|
  {
    if |s| > 1 {
      var t := s[1..];
      assert forall i :: 0 <= i < |t| ==> t[i] == s[i + 1];
      CollapseFixed(t);
    }
  }

  /** Collapsing commutes with concatenation on the left. */
  lemma {:induction false} CollapseConcat(a: bytes, c: bytes)
    ensures Collapse(a + c) == Collapse(Collapse(a) + c)
    decreases |a|
  {
    if a == [] {
      assert a + c == c == Collapse(a) + c;
    } else if |a| == 1 {
    } else {
      var t := a[1..];
      CollapseConcat(t, c);
      CollapseFirst(t);
      assert (a + c)[1..] == t + c;
      if !(a[0] == '/' && a[1] == '/') {
        var u := [a[0]] + Collapse(t) + c;
        assert u[1..] == Collapse(t) + c && u[1] == a[1];
        assert Collapse(a) + c == u;
      }
    }
  }

  /** Strings that collapse alike still do when the same bytes follow. */
  lemma CollapseAppend(a: bytes, b: bytes, c: bytes)
    requires Collapse(a) == Collapse(b)
    ensures Collapse(a + c) == Collapse(b + c)
  {
    CollapseConcat(a, c);
    CollapseConcat(b, c);
  }

  /** Strings that collapse alike still do when the same bytes precede. */
  lemma {:induction false} CollapsePrepend(x: bytes, a: bytes, b: bytes)
    requires Collapse(a) == Collapse(b)
    ensures Collapse(x + a) == Collapse(x + b)
    decreases |x|
  {
    if x == [] {
      assert x + a == a && x + b == b;
    } else {
      CollapsePrepend(x[1..], a, b);
      assert (x + a)[1..] == x[1..] + a && (x + b)[1..] == x[1..] + b;
      CollapseFirst(a);
      CollapseFirst(b);
    }
  }

  /** A run of slashes collapses to one. */
  lemma {:induction false} CollapseSlashes(s: bytes)
    requires s != [] && s[0] == '/'
    ensures Collapse(s) == Collapse("/" + s[Slashes(s)..])
    decreases |s|
  {
    if |s| > 1 && s[1] == '/' {
      CollapseSlashes(s[1..]);
      assert s[1..][Slashes(s[1..])..] == s[Slashes(s)..];
    } else {
      assert "/" + s[1..] == s;
    }
  }

  /** Without percent signs, resolving is collapsing. */
  lemma {:induction false} ResolvePlain(s: bytes)
    requires '%' !in s
    ensures Resolve(s) == Collapse(s)
    decreases |s|
  {
    if s != [] {
      if s[0] == '/' {
        var rest := s[Slashes(s)..];
        ResolvePlain(rest);
        CollapseSlashes(s);
        assert ("/" + rest)[1..] == rest;
      } else {
        ResolvePlain(s[1..]);
      }
    }
  }

  /** On input without percent signs the result has no double slash, and resolving again changes nothing. */
  lemma ResolveIdempotent(s: bytes)
    requires '%' !in s
    ensures NoDoubleSlash(Resolve(s)) && Resolve(Resolve(s)) == Resolve(s)
  {
    ResolvePlain(s);
    CollapseNoDouble(s);
    ResolvePlain(Collapse(s));
    CollapseFixed(Collapse(s));
  }

  // ----- what a resolved path begins with -----

  /** Resolving goes on behind a byte that is not the beginning of an encoding. */
  lemma ResolveOne(s: bytes)
    requires s != [] && s[0] != '%'
    ensures Resolve(s) == if |s| > 1 && s[0] == s[1] == '/' then Resolve(s[1..]) else [s[0]] + Resolve(s[1..])
  {
    if s[0] == '/' {
      var n := Slashes(s[1..]);
      assert s[Slashes(s)..] == s[1..][n..];
      if n > 0 {
        assert s[1] == s[1..][0];
      }
    }
  }

  /** A prefix without percent signs is not changed by what follows it. */
  lemma {:induction false} ResolveKeepsPrefix(a: bytes, b: bytes)
    requires '%' !in a
    ensures Collapse(a) <= Resolve(a + b)
    decreases |a|
  {
    if a != [] {
      assert (a + b)[1..] == a[1..] + b;
      ResolveOne(a + b);
      ResolveKeepsPrefix(a[1..], b);
      if |a| == 1 {
        assert a == [a[0]];
        SlashStays(a[0], b);
      }
    }
  }

  lemma SlashStays(c: byte, b: bytes)
    requires c != '%'
    ensures [c] <= Resolve([c] + b)
    decreases |b|
  {
    var s := [c] + b;
    ResolveOne(s);
    assert s[1..] == b;
    if b != [] && c == b[0] == '/' {
      assert b == [b[0]] + b[1..];
      SlashStays(b[0], b[1..]);
    }
  }

  // ----- components that climb -----

  /** Percent-encodings are decoded, and slashes stay as they are. */
  function Decoded(s: bytes): bytes
    decreases |s|
  {
    if s == [] then [] else if Encoded(s) then [Decode(s)] + Decoded(s[3..]) else [s[0]] + Decoded(s[1..])
  }

  /** A component that goes on here ends behind one more dot. */
  predicate LastDot(s: bytes) {
    s != [] && s[0] == '.' && (|s| == 1 || s[1] == '/')
  }

  /** Some component of the path is `..`; `start` says that one begins here. */
  predicate Climbs(s: bytes, start: bool) {
    s != [] && ((start && s[0] == '.' && LastDot(s[1..])) || Climbs(s[1..], s[0] == '/'))
  }

  /** A component `..` stands at one place: at the beginning or behind a slash, and before a slash or the end. */
  predicate DotsAt(s: bytes, i: nat) {
    && i + 2 <= |s| && s[i..i + 2] == ".."
    && (i > 0 ==> s[i - 1] == '/') && (i + 2 < |s| ==> s[i + 2] == '/')
  }

  lemma {:induction false} ClimbsIff(s: bytes, start: bool)
    ensures Climbs(s, start) <==> (start && DotsAt(s, 0)) || exists i :: 0 < i <= |s| && DotsAt(s, i)
    decreases |s|
  {
    if s != [] {
      var t := s[1..];
      ClimbsIff(t, s[0] == '/');
      assert DotsAt(s, 0) <==> s[0] == '.' && LastDot(t) by {
        if |s| >= 2 {
          assert s[0..2] == [s[0], s[1]];
        }
      }
      forall i | 0 < i <= |s|
        ensures DotsAt(s, i) <==> DotsAt(t, i - 1) && (i == 1 ==> s[0] == '/')
      {
        if i + 2 <= |s| {
          assert s[i..i + 2] == t[i - 1..i + 1];
        }
      }
      if i :| 0 < i <= |t| && DotsAt(t, i) {
        assert DotsAt(s, i + 1);
      }
      if i :| 0 < i <= |s| && DotsAt(s, i) {
        assert i > 1 ==> DotsAt(t, i - 1);
      }
      if s[0] == '/' && DotsAt(t, 0) {
        assert DotsAt(s, 1);
      }
    }
  }

  lemma ClimbsCons(c: byte, s: bytes, start: bool)
    ensures Climbs([c] + s, start) <==> (start && c == '.' && LastDot(s)) || Climbs(s, c == '/')
  {
    assert ([c] + s)[1..] == s;
  }

  lemma FirstAgrees(s: bytes)
    ensures Resolve(s) == [] <==> Decoded(s) == []
    ensures s != [] ==> Resolve(s)[0] == Decoded(s)[0]
  {
  }

  lemma LastDotAgrees(s: bytes)
    ensures LastDot(Resolve(s)) <==> LastDot(Decoded(s))
  {
    FirstAgrees(s);
    if s != [] && s[0] != '/' {
      var rest := if Encoded(s) then s[3..] else s[1..];
      FirstAgrees(rest);
      assert Resolve(s)[1..] == Resolve(rest) && Decoded(s)[1..] == Decoded(rest);
    }
  }

  /** Resolving neither makes nor removes such a component: there is one if and only if decoding shows it. */
  lemma {:induction false} ResolveClimbs(s: bytes, start: bool)
    ensures Climbs(Resolve(s), start) <==> Climbs(Decoded(s), start)
    decreases |s|
  {
    hide LastDot;
    if s != [] {
      var rest := if Encoded(s) then s[3..] else s[1..];
      var c := if Encoded(s) then Decode(s) else s[0];
      LastDotAgrees(rest);
      ClimbsCons(c, Decoded(rest), start);
      ClimbsCons(c, Resolve(rest), start);
      ResolveClimbs(rest, c == '/');
      if s[0] == '/' {
        SlashClimbs(s, start);
      }
    }
  }

  /** Behind a slash it does not matter what came before. */
  lemma SlashClimbs(s: bytes, start: bool)
    requires s != [] && s[0] == '/'
    ensures Climbs(Resolve(s), start) <==> Climbs(Resolve(s[1..]), true)
  {
    ResolveOne(s);
    if |s| > 1 && s[1] == '/' {
      ResolveOne(s[1..]);
      FirstAgrees(s[1..]);
      assert Climbs(Resolve(s[1..]), start) == Climbs(Resolve(s[1..]), true);
    } else {
      ClimbsCons('/', Resolve(s[1..]), start);
    }
  }

  lemma {:induction false} DecodedPlain(a: bytes, b: bytes)
    requires '%' !in a
    ensures Decoded(a + b) == a + Decoded(b)
    decreases |a|
  {
    if a == [] {
      assert a + b == b && a + Decoded(b) == Decoded(b);
    } else {
      assert (a + b)[0] == a[0] && (a + b)[1..] == a[1..] + b;
      DecodedPlain(a[1..], b);
      assert a == [a[0]] + a[1..];
    }
  }

  /** Collapsing first makes no difference to resolving. */
  lemma {:induction false} ResolveCollapsed(s: bytes)
    ensures Resolve(Collapse(s)) == Resolve(s)
    decreases |s|
  {
    if |s| > 1 {
      if s[0] == s[1] == '/' {
        ResolveCollapsed(s[1..]);
        ResolveOne(s);
      } else {
        var c := Collapse(s);
        assert c == [s[0]] + Collapse(s[1..]) && c[1..] == Collapse(s[1..]);
        CollapseFirst(s[1..]);
        ResolveCollapsed(s[1..]);
        if s[0] != '%' {
          ResolveOne(s);
          ResolveOne(c);
        } else {
          EscapeCollapsed(s);
          ResolveByte(s);
          ResolveByte(c);
          if Encoded(s) {
            ResolveCollapsed(s[3..]);
          }
        }
      }
    }
  }

  /** Collapsing leaves escapes alone and makes none. */
  lemma EscapeCollapsed(s: bytes)
    requires |s| > 1 && s[0] == '%'
    ensures Encoded(Collapse(s)) <==> Encoded(s)
    ensures Encoded(s) ==> Decode(Collapse(s)) == Decode(s) && Collapse(s)[3..] == Collapse(s[3..])
  {
    var t := s[1..];
    assert Collapse(s) == [s[0]] + Collapse(t);
    CollapseFirst(t);
    if |t| > 1 && t[0] != '/' {
      CollapseFirst(t[1..]);
      assert Collapse(t) == [t[0]] + Collapse(t[1..]);
      if |s| > 3 && s[2] != '/' {
        assert t[1..][1..] == s[3..];
        assert Collapse(t[1..]) == [s[2]] + Collapse(s[3..]);
      }
    }
  }
}
