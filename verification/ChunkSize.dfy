/** The scanner of a chunk-size line, `spx_chunked_syntax_start_line`. */
module ChunkSize {
  import opened Bytes

  /** Length of the longest prefix of hexadecimal digits. */
  function HexRun(line: bytes): (h: nat)
    ensures h <= |line| && AllHex(line[..h])
    ensures forall k :: 0 <= k < h ==> IsHex(line[k])
    ensures h < |line| ==> !IsHex(line[h])
  {
    if line == [] || !IsHex(line[0]) then 0
    else
      var h := 1 + HexRun(line[1..]);
      assert forall i :: 1 <= i < h ==> line[i] == line[1..][i - 1];
      h
  }

  /** The stream extraction into a `uint32_t`: a number that does not fit becomes 2^32 - 1. */
  function Extract(digits: bytes): (v: nat)
    requires AllHex(digits)
    ensures v < TWO_32
  {
    Min(HexValue(digits), TWO_32 - 1)
  }

  /** What a whole line means: a chunk size, or nothing. */
  function SizeOf(line: bytes): Option<nat> {
    if line != [] && AllHex(line) then Some(Extract(line)) else None
  }

  /** `chunk_size` after a scan; a rejected line may still have set it. */
  function SizeAfter(line: bytes, before: nat): nat {
    var h := HexRun(line);
    if h > 0 && (h == |line| || line[h] in ";\t ") then Extract(line[..h]) else before
  }

  /** A line of digits only is one hexadecimal run. */
  lemma AllHexRun(line: bytes)
    ensures AllHex(line) <==> HexRun(line) == |line|
  {
    assert line[..|line|] == line;
  }

  /** The size of a numeral, in either case of its digits; a larger number than 32 bits hold is cut. */
  lemma SizeOfNumeral(line: bytes, n: nat)
    requires line != [] && Numeral(line, n)
    ensures SizeOf(line) == Some(if n <= 0xFFFF_FFFF then n else 0xFFFF_FFFF)
  {
    NumeralIff(line, n);
  }

  /** Every other line is refused. */
  lemma SizeOfRefuses(line: bytes)
    ensures SizeOf(line) == None <==> line == [] || exists i :: 0 <= i < |line| && line[i] !in "0123456789ABCDEFabcdef"
    ensures line != [] && SizeOf(line).Some? ==> exists n :: Numeral(line, n)
  {
    forall i | 0 <= i < |line|
      ensures IsHex(line[i]) <==> line[i] in "0123456789ABCDEFabcdef"
    {
      HexTable(line[i], 0);
    }
    if SizeOf(line).Some? {
      NumeralIff(line, HexValue(line));
    }
  }

  lemma LineMeans(line: bytes)
    ensures SizeOf(line).Some? <==> line != [] && forall i :: 0 <= i < |line| ==> line[i] in "0123456789ABCDEFabcdef"
    ensures forall n: nat :: line != [] && Numeral(line, n) ==>
              SizeOf(line) == Some(if n <= 0xFFFF_FFFF then n else 0xFFFF_FFFF)
  {
    hide SizeOf, Numeral;
    SizeOfRefuses(line);
    forall n: nat | line != [] && Numeral(line, n)
      ensures SizeOf(line) == Some(if n <= 0xFFFF_FFFF then n else 0xFFFF_FFFF)
    {
      SizeOfNumeral(line, n);
    }
  }

  /**
   * A numeral at the end of the line, or before `;`, a tab or a space, sets the size even of a line
   * that is rejected for what follows.
   */
  lemma SizeAfterNumeral(digits: bytes, rest: bytes, n: nat, before: nat)
    requires digits != [] && Numeral(digits, n) && (rest == [] || rest[0] in ";\t ")
    ensures SizeAfter(digits + rest, before) == if n <= 0xFFFF_FFFF then n else 0xFFFF_FFFF
  {
    NumeralIff(digits, n);
    var line := digits + rest;
    assert forall i :: 0 <= i < |digits| ==> line[i] == digits[i];
    assert rest != [] ==> line[|digits|] == rest[0];
    RunIs(line, |digits|);
    assert line[..|digits|] == digits;
  }

  /** Any other line leaves the size as it was. */
  lemma SizeAfterKeeps(digits: bytes, rest: bytes, n: nat, before: nat)
    requires Numeral(digits, n) && (rest != [] ==> rest[0] !in "0123456789ABCDEFabcdef")
    requires digits == [] || (rest != [] && rest[0] !in ";\t ")
    ensures SizeAfter(digits + rest, before) == before
  {
    NumeralIff(digits, n);
    var line := digits + rest;
    assert forall i :: 0 <= i < |digits| ==> line[i] == digits[i];
    if rest != [] {
      HexTable(rest[0], 0);
      assert line[|digits|] == rest[0];
    }
    RunIs(line, |digits|);
  }

  // ----- chunk extensions -----

  datatype State =
    | BwsBeforeExt | Semicolon | BwsBeforeExtName | ExtName | BwsAfterExtName
    | Equal | BwsBeforeExtValue | ExtQuotedOpen | ExtValue | ExtQuotedClose | AlmostDone

  /** Orders the states that can follow each other without consuming a byte. */
  function Rank(s: State): nat {
    match s
    case BwsBeforeExtName | BwsBeforeExtValue => 5
    case ExtName | ExtValue => 4
    case BwsAfterExtName | BwsBeforeExt => 3
    case Semicolon | Equal | ExtQuotedOpen | ExtQuotedClose => 1
    case AlmostDone => 0
  }

  /** `std::map::insert`: an existing key keeps its value. */
  function Insert(m: map<bytes, bytes>, k: bytes, v: bytes): map<bytes, bytes> {
    if k in m then m else m[k := v]
  }

  predicate Extends(m: map<bytes, bytes>, m': map<bytes, bytes>) {
    forall k :: k in m ==> k in m' && m'[k] == m[k]
  }

  /** Where a stretch of bytes of a class ends. */
  function ClassEnd(line: bytes, from: nat, class_: byte -> bool): (i: nat)
    requires from <= |line|
    ensures from <= i <= |line|
    decreases |line| - from
  {
    if from < |line| && class_(line[from]) then ClassEnd(line, from + 1, class_) else from
  }

  lemma ClassEndIs(line: bytes, from: nat, class_: byte -> bool, i: nat)
    requires from <= i <= |line| && (forall k :: from <= k < i ==> class_(line[k]))
    requires i < |line| ==> !class_(line[i])
    ensures ClassEnd(line, from, class_) == i
    decreases i - from
  {
  }

  /** The extensions that are stored when the scan goes on in a state. */
  function Stored(line: bytes, i: nat, state: State, key: bytes, value: bytes, quoted: bool, ext: map<bytes, bytes>)
    : map<bytes, bytes>
    requires i <= |line| && (state in {Semicolon, Equal, ExtQuotedOpen, ExtQuotedClose} ==> i < |line|)
    decreases |line| - i, Rank(state)
  {
    match state
    case BwsBeforeExt =>
      var j := ClassEnd(line, i, IsOws);
      if j < |line| && line[j] == ';' then Stored(line, j, Semicolon, key, value, quoted, ext) else ext
    case Semicolon => Stored(line, i + 1, BwsBeforeExtName, [], [], quoted, ext)
    case BwsBeforeExtName =>
      var j := ClassEnd(line, i, IsOws);
      if j == |line| then ext else Stored(line, j, ExtName, key, value, quoted, ext)
    case ExtName =>
      var j := ClassEnd(line, i, IsNameToken);
      var name := key + line[i..j];
      if j == |line| then ext
      else if IsOws(line[j]) then Stored(line, j, BwsAfterExtName, name, value, quoted, ext)
      else if line[j] == '=' then Stored(line, j, Equal, name, value, quoted, ext)
      else if line[j] == ';' then Stored(line, j, Semicolon, name, value, quoted, Insert(ext, name, []))
      else ext
    case BwsAfterExtName =>
      var j := ClassEnd(line, i, IsOws);
      if j == |line| then ext
      else if line[j] == '=' then Stored(line, j, Equal, key, value, quoted, ext)
      else if line[j] == ';' then Stored(line, j, Semicolon, key, value, quoted, Insert(ext, key, []))
      else ext
    case Equal => Stored(line, i + 1, BwsBeforeExtValue, key, value, quoted, ext)
    case BwsBeforeExtValue =>
      var j := ClassEnd(line, i, IsOws);
      if j == |line| then ext
      else if line[j] == '"' then Stored(line, j, ExtQuotedOpen, key, value, false, ext)
      else Stored(line, j, ExtValue, key, value, quoted, ext)
    case ExtQuotedOpen => Stored(line, i + 1, ExtValue, key, value, quoted || line[i] == '"', ext)
    case ExtValue =>
      var j := ClassEnd(line, i, IsNameToken);
      var text := value + line[i..j];
      if j == |line| then Insert(ext, key, text)
      else if IsOws(line[j]) then Stored(line, j, BwsBeforeExt, key, text, quoted, Insert(ext, key, text))
      else if line[j] == ';' then Stored(line, j, Semicolon, key, text, quoted, Insert(ext, key, text))
      else if line[j] == '"' then
        Stored(line, j, if quoted then ExtQuotedClose else ExtQuotedOpen, key, text, quoted, ext)
      else ext
    case ExtQuotedClose =>
      var j := i + 1;
      if j < |line| && IsNameToken(line[j]) then Stored(line, j, ExtValue, key, value, false, ext)
      else if j == |line| then Insert(ext, key, value)
      else if line[j] == '"' then Stored(line, j, ExtQuotedOpen, key, value, false, ext)
      else if line[j] == ';' then Stored(line, j, Semicolon, key, value, false, Insert(ext, key, value))
      else if IsOws(line[j]) then Stored(line, j, BwsBeforeExt, key, value, false, Insert(ext, key, value))
      else ext
    case AlmostDone => ext
  }

  /**
   * The extension states, entered before the first semicolon.  They stop on every line without
   * reading past its end, and they always reject: `chunked_almost_done` falls through to the
   * error case.
   */
  method Extensions(line: bytes, from: nat, ext0: map<bytes, bytes>)
    returns (ok: bool, ext: map<bytes, bytes>)
    requires from <= |line|
    ensures !ok
    ensures Extends(ext0, ext)
    ensures ext == Stored(line, from, BwsBeforeExt, [], [], false, ext0)
  {
    hide IsNameToken, IsOws, Extends;
    StoredExtends(line, from, BwsBeforeExt, [], [], false, ext0);
    ok, ext := false, ext0;
    var i, state := from, BwsBeforeExt;
    var key: bytes, value: bytes := [], [];
    var quoted := false;
    while true
      invariant i <= |line|
      invariant state in {Semicolon, Equal, ExtQuotedOpen, ExtQuotedClose} ==> i < |line|
      invariant Stored(line, from, BwsBeforeExt, [], [], false, ext0) == Stored(line, i, state, key, value, quoted, ext)
      decreases |line| - i, Rank(state)
    {
      match state {
        case BwsBeforeExt =>
          var at := i;
          i := Skip(line, at, IsOws);
          ClassEndIs(line, at, IsOws, i);
          if i < |line| && line[i] == ';' {
            state := Semicolon;
          } else {
            return;
          }
        case Semicolon =>
          key, value := [], [];
          i, state := i + 1, BwsBeforeExtName;
        case BwsBeforeExtName =>
          var at := i;
          i := Skip(line, at, IsOws);
          ClassEndIs(line, at, IsOws, i);
          if i == |line| {
            return;
          }
          state := ExtName;
        case ExtName =>
          var start := i;
          var at := i;
          i := Skip(line, at, IsNameToken);
          ClassEndIs(line, at, IsNameToken, i);
          key := key + line[start..i];
          if i == |line| {
            return;
          }
          if IsOws(line[i]) {
            state := BwsAfterExtName;
          } else if line[i] == '=' {
            state := Equal;
          } else if line[i] == ';' {
            ext := Insert(ext, key, []);
            state := Semicolon;
          } else {
            return;
          }
        case BwsAfterExtName =>
          var at := i;
          i := Skip(line, at, IsOws);
          ClassEndIs(line, at, IsOws, i);
          if i == |line| {
            return;
          }
          if line[i] == '=' {
            state := Equal;
          } else if line[i] == ';' {
            ext := Insert(ext, key, []);
            state := Semicolon;
          } else {
            return;
          }
        case Equal =>
          i, state := i + 1, BwsBeforeExtValue;
        case BwsBeforeExtValue =>
          var at := i;
          i := Skip(line, at, IsOws);
          ClassEndIs(line, at, IsOws, i);
          if i == |line| {
            return;
          }
          if line[i] == '"' {
            quoted, state := false, ExtQuotedOpen;
          } else {
            state := ExtValue;
          }
        case ExtQuotedOpen =>
          if line[i] == '"' {
            quoted := true;
          }
          i, state := i + 1, ExtValue;
        case ExtValue =>
          // `"` is not a name token, so the check for a quote inside the source's loop never fires
          var start := i;
          var at := i;
          i := Skip(line, at, IsNameToken);
          ClassEndIs(line, at, IsNameToken, i);
          value := value + line[start..i];
          if i == |line| {
            ext, state := Insert(ext, key, value), AlmostDone;
          } else if IsOws(line[i]) {
            ext, state := Insert(ext, key, value), BwsBeforeExt;
          } else if line[i] == ';' {
            ext, state := Insert(ext, key, value), Semicolon;
          } else if line[i] == '"' {
            state := if quoted then ExtQuotedClose else ExtQuotedOpen;
          } else {
            return;
          }
        case ExtQuotedClose =>
          quoted := false;
          i := i + 1;
          if i < |line| && IsNameToken(line[i]) {
            state := ExtValue;
          } else if i == |line| {
            ext, state := Insert(ext, key, value), AlmostDone;
          } else if line[i] == '"' {
            state := ExtQuotedOpen;
          } else if line[i] == ';' {
            ext, state := Insert(ext, key, value), Semicolon;
          } else if IsOws(line[i]) {
            ext, state := Insert(ext, key, value), BwsBeforeExt;
          } else {
            return;
          }
        case AlmostDone =>
          return;
      }
    }
  }

  /** No stored extension is overwritten. */
  lemma {:induction false} StoredExtends(line: bytes, i: nat, state: State, key: bytes, value: bytes, quoted: bool,
                                         ext: map<bytes, bytes>)
    requires i <= |line| && (state in {Semicolon, Equal, ExtQuotedOpen, ExtQuotedClose} ==> i < |line|)
    ensures Extends(ext, Stored(line, i, state, key, value, quoted, ext))
    decreases |line| - i, Rank(state)
  {
    hide IsOws, IsNameToken, ClassEnd;
    match state
    case BwsBeforeExt =>
      var j := ClassEnd(line, i, IsOws);
      if j < |line| && line[j] == ';' {
        StoredExtends(line, j, Semicolon, key, value, quoted, ext);
      }
    case Semicolon =>
      StoredExtends(line, i + 1, BwsBeforeExtName, [], [], quoted, ext);
    case BwsBeforeExtName =>
      var j := ClassEnd(line, i, IsOws);
      if j < |line| {
        StoredExtends(line, j, ExtName, key, value, quoted, ext);
      }
    case ExtName =>
      var j := ClassEnd(line, i, IsNameToken);
      var name := key + line[i..j];
      if j < |line| {
        if IsOws(line[j]) {
          StoredExtends(line, j, BwsAfterExtName, name, value, quoted, ext);
        } else if line[j] == '=' {
          StoredExtends(line, j, Equal, name, value, quoted, ext);
        } else if line[j] == ';' {
          StoredExtends(line, j, Semicolon, name, value, quoted, Insert(ext, name, []));
        }
      }
    case BwsAfterExtName =>
      var j := ClassEnd(line, i, IsOws);
      if j < |line| {
        if line[j] == '=' {
          StoredExtends(line, j, Equal, key, value, quoted, ext);
        } else if line[j] == ';' {
          StoredExtends(line, j, Semicolon, key, value, quoted, Insert(ext, key, []));
        }
      }
    case Equal =>
      StoredExtends(line, i + 1, BwsBeforeExtValue, key, value, quoted, ext);
    case BwsBeforeExtValue =>
      var j := ClassEnd(line, i, IsOws);
      if j < |line| {
        if line[j] == '"' {
          StoredExtends(line, j, ExtQuotedOpen, key, value, false, ext);
        } else {
          StoredExtends(line, j, ExtValue, key, value, quoted, ext);
        }
      }
    case ExtQuotedOpen =>
      StoredExtends(line, i + 1, ExtValue, key, value, quoted || line[i] == '"', ext);
    case ExtValue =>
      var j := ClassEnd(line, i, IsNameToken);
      var text := value + line[i..j];
      if j < |line| {
        if IsOws(line[j]) {
          StoredExtends(line, j, BwsBeforeExt, key, text, quoted, Insert(ext, key, text));
        } else if line[j] == ';' {
          StoredExtends(line, j, Semicolon, key, text, quoted, Insert(ext, key, text));
        } else if line[j] == '"' {
          StoredExtends(line, j, if quoted then ExtQuotedClose else ExtQuotedOpen, key, text, quoted, ext);
        }
      }
    case ExtQuotedClose =>
      var j := i + 1;
      if j < |line| {
        if IsNameToken(line[j]) {
          StoredExtends(line, j, ExtValue, key, value, false, ext);
        } else if line[j] == '"' {
          StoredExtends(line, j, ExtQuotedOpen, key, value, false, ext);
        } else if line[j] == ';' {
          StoredExtends(line, j, Semicolon, key, value, false, Insert(ext, key, value));
        } else if IsOws(line[j]) {
          StoredExtends(line, j, BwsBeforeExt, key, value, false, Insert(ext, key, value));
        }
      }
    case AlmostDone =>
  }

  /** The extensions after a scan; only a line with something behind its size can have added some. */
  function ExtensionsAfter(line: bytes, ext: map<bytes, bytes>): map<bytes, bytes> {
    var h := HexRun(line);
    if 0 < h < |line| && line[h] in ";\t " then Stored(line, h, BwsBeforeExt, [], [], false, ext) else ext
  }

  /** A size with extensions behind it is refused, and the extensions are stored. */
  lemma RefusedButStored(digits: bytes, n: nat, xs: seq<Extension>, ext: map<bytes, bytes>)
    requires digits != [] && Numeral(digits, n) && xs != []
    requires forall k :: 0 <= k < |xs| ==> Token(xs[k].name) && Token(xs[k].value)
    ensures var line := digits + PrintExtensions(xs);
            SizeOf(line) == None && ExtensionsAfter(line, ext) == AddAll(ext, xs)
  {
    hide Token, Stored, AddAll;
    var line, h := digits + PrintExtensions(xs), |digits|;
    NumeralIff(digits, n);
    PrintedFirst(xs);
    assert forall i :: 0 <= i < h ==> line[i] == digits[i];
    assert line[h..] == PrintExtensions(xs) && line[h] == ';' && !IsHex(line[h]);
    RunIs(line, h);
    ExtensionsStored(line, h, xs, [], [], false, ext);
    ClassEndIs(line, h, IsOws, h);
    EnterSemicolon(line, h, ext);
  }

  lemma EnterSemicolon(line: bytes, h: nat, ext: map<bytes, bytes>)
    requires h < |line| && line[h] == ';' && ClassEnd(line, h, IsOws) == h
    ensures Stored(line, h, BwsBeforeExt, [], [], false, ext) == Stored(line, h, Semicolon, [], [], false, ext)
  {
  }

  /** An extension as section 4.1.1 of RFC 7230 has it, with a token for its value. */
  datatype Extension = Extension(name: bytes, value: bytes)

  /** The bytes of a token, section 3.2.6 of RFC 7230. */
  predicate TokenByte(c: byte) {
    DecimalDigit(c) || BigLetter(c) || SmallLetter(c) || c in "!#$%&'*+-.^_`|~"
  }

  predicate DecimalDigit(c: byte) {
    c in "0123456789"
  }

  predicate BigLetter(c: byte) {
    c in "ABCDEFGHIJKLMNOPQRSTUVWXYZ"
  }

  predicate SmallLetter(c: byte) {
    c in "abcdefghijklmnopqrstuvwxyz"
  }

  lemma DigitIs(c: byte)
    ensures DecimalDigit(c) <==> '0' <= c <= '9'
  {
    assert '0' <= c <= '9' ==> "0123456789"[c as int - 48] == c;
  }

  lemma BigLetterIs(c: byte)
    ensures BigLetter(c) <==> 'A' <= c <= 'Z'
  {
    assert 'A' <= c <= 'Z' ==> "ABCDEFGHIJKLMNOPQRSTUVWXYZ"[c as int - 65] == c;
  }

  lemma SmallLetterIs(c: byte)
    ensures SmallLetter(c) <==> 'a' <= c <= 'z'
  {
    assert 'a' <= c <= 'z' ==> "abcdefghijklmnopqrstuvwxyz"[c as int - 97] == c;
  }

  predicate Token(s: bytes) {
    s != [] && forall i :: 0 <= i < |s| ==> TokenByte(s[i])
  }

  function PrintExtensions(xs: seq<Extension>): bytes {
    if xs == [] then [] else ";" + xs[0].name + "=" + xs[0].value + PrintExtensions(xs[1..])
  }

  /** The first value of a name is kept. */
  function AddAll(ext: map<bytes, bytes>, xs: seq<Extension>): map<bytes, bytes>
    decreases |xs|
  {
    if xs == [] then ext
    else AddAll(if xs[0].name in ext then ext else ext[xs[0].name := xs[0].value], xs[1..])
  }

  lemma TokenIs(c: byte)
    ensures IsNameToken(c) <==> TokenByte(c)
    ensures IsNameToken(c) ==> !IsOws(c) && c != '"' && c != ';' && c != '='
  {
    hide DecimalDigit, BigLetter, SmallLetter;
    DigitIs(c);
    BigLetterIs(c);
    SmallLetterIs(c);
  }

  /** A token ends where a byte follows that is none. */
  lemma TokenEnds(line: bytes, from: nat, t: bytes)
    requires from + |t| <= |line| && line[from..from + |t|] == t && Token(t)
    requires from + |t| < |line| ==> line[from + |t|] in ";="
    ensures ClassEnd(line, from, IsNameToken) == from + |t|
    ensures ClassEnd(line, from, IsOws) == from && line[from] != '"' && t != []
  {
    hide IsNameToken, IsOws, TokenByte;
    forall k | from <= k < from + |t|
      ensures IsNameToken(line[k]) && !IsOws(line[k]) && line[k] != '"'
    {
      assert line[k] == t[k - from];
      TokenIs(line[k]);
    }
    if from + |t| < |line| {
      TokenIs(line[from + |t|]);
    }
    ClassEndIs(line, from, IsNameToken, from + |t|);
    ClassEndIs(line, from, IsOws, from);
  }

  /** Printed extensions are stored, each under its name, behind a size that makes the line be refused. */
  lemma {:induction false} ExtensionsStored(line: bytes, i: nat, xs: seq<Extension>, key: bytes, value: bytes, q: bool,
                                            ext: map<bytes, bytes>)
    requires i < |line| && xs != [] && line[i..] == PrintExtensions(xs)
    requires forall k :: 0 <= k < |xs| ==> Token(xs[k].name) && Token(xs[k].value)
    ensures Stored(line, i, Semicolon, key, value, q, ext) == AddAll(ext, xs)
    decreases |xs|
  {
    hide Token, IsNameToken, IsOws, Stored, PrintExtensions, ClassEnd;
    PrintedFirst(xs);
    var x, rest := xs[0], PrintExtensions(xs[1..]);
    var j, k := i + 1 + |x.name|, i + 2 + |x.name| + |x.value|;
    Places(line, i, x, rest);
    TokenEnds(line, i + 1, x.name);
    TokenEnds(line, j + 1, x.value);
    OneExtension(line, i, x, key, value, q, ext);
    if |xs| > 1 {
      ExtensionsStored(line, k, xs[1..], x.name, x.value, q, Insert(ext, x.name, x.value));
    }
  }

  lemma PrintedFirst(xs: seq<Extension>)
    requires xs != []
    ensures var rest := PrintExtensions(xs[1..]);
            && PrintExtensions(xs) == ";" + xs[0].name + "=" + xs[0].value + rest
            && (rest == [] <==> |xs| == 1) && (rest != [] ==> rest[0] == ';')
  {
  }

  /** Where the parts of a printed extension lie. */
  lemma Places(line: bytes, i: nat, x: Extension, rest: bytes)
    requires i < |line| && line[i..] == ";" + x.name + "=" + x.value + rest
    requires rest != [] ==> rest[0] == ';'
    ensures var j, k := i + 1 + |x.name|, i + 2 + |x.name| + |x.value|;
            && k <= |line| && line[i] == ';' && line[i + 1..j] == x.name && line[j] == '=' && line[j + 1..k] == x.value
            && line[k..] == rest && (k < |line| ==> line[k] == ';')
  {
    var s := ";" + x.name + "=" + x.value + rest;
    var a, b := 1 + |x.name|, 2 + |x.name| + |x.value|;
    PartsOf(x.name, x.value, rest);
    SliceOf(line, i, 1, a);
    SliceOf(line, i, a + 1, b);
    assert line[i + b..] == line[i..][b..];
    assert line[i] == s[0] && line[i + a] == s[a];
  }

  lemma PartsOf(n: bytes, v: bytes, rest: bytes)
    ensures var s, a, b := ";" + n + "=" + v + rest, 1 + |n|, 2 + |n| + |v|;
            && |s| == b + |rest| && s[0] == ';' && s[1..a] == n && s[a] == '=' && s[a + 1..b] == v && s[b..] == rest
  {
  }

  lemma SliceOf(s: bytes, i: nat, a: nat, b: nat)
    requires i <= |s| && a <= b && i + b <= |s|
    ensures s[i..][a..b] == s[i + a..i + b]
  {
  }

  /** One extension, from its semicolon to the next. */
  lemma OneExtension(line: bytes, i: nat, x: Extension, key: bytes, value: bytes, q: bool, ext: map<bytes, bytes>)
    requires var j, k := i + 1 + |x.name|, i + 2 + |x.name| + |x.value|;
             && k <= |line| && line[i] == ';' && line[i + 1..j] == x.name && line[j] == '=' && line[j + 1..k] == x.value
             && (k < |line| ==> line[k] == ';') && x.name != [] && x.value != []
             && ClassEnd(line, i + 1, IsOws) == i + 1 && ClassEnd(line, i + 1, IsNameToken) == j
             && ClassEnd(line, j + 1, IsOws) == j + 1 && ClassEnd(line, j + 1, IsNameToken) == k
             && line[j + 1] != '"'
    ensures var k := i + 2 + |x.name| + |x.value|;
            Stored(line, i, Semicolon, key, value, q, ext) ==
              if k == |line| then Insert(ext, x.name, x.value)
              else Stored(line, k, Semicolon, x.name, x.value, q, Insert(ext, x.name, x.value))
  {
    hide Stored, ClassEnd;
    NameStored(line, i, x.name, key, value, q, ext);
    ValueStored(line, i + 1 + |x.name|, x.name, x.value, q, ext);
  }

  lemma NameStored(line: bytes, i: nat, name: bytes, key: bytes, value: bytes, q: bool, ext: map<bytes, bytes>)
    requires var j := i + 1 + |name|;
             && j < |line| && line[i + 1..j] == name && line[j] == '=' && name != []
             && ClassEnd(line, i + 1, IsOws) == i + 1 && ClassEnd(line, i + 1, IsNameToken) == j
    ensures Stored(line, i, Semicolon, key, value, q, ext) ==
              Stored(line, i + 1 + |name|, Equal, name, [], q, ext)
  {
    hide ClassEnd;
    assert [] + name == name;
    assert Stored(line, i, Semicolon, key, value, q, ext) == Stored(line, i + 1, BwsBeforeExtName, [], [], q, ext);
    assert Stored(line, i + 1, BwsBeforeExtName, [], [], q, ext) == Stored(line, i + 1, ExtName, [], [], q, ext);
  }

  lemma ValueStored(line: bytes, j: nat, name: bytes, value: bytes, q: bool, ext: map<bytes, bytes>)
    requires var k := j + 1 + |value|;
             && k <= |line| && line[j] == '=' && line[j + 1..k] == value && value != []
             && (k < |line| ==> line[k] == ';')
             && ClassEnd(line, j + 1, IsOws) == j + 1 && ClassEnd(line, j + 1, IsNameToken) == k && line[j + 1] != '"'
    ensures var k := j + 1 + |value|;
            Stored(line, j, Equal, name, [], q, ext) ==
              if k == |line| then Insert(ext, name, value)
              else Stored(line, k, Semicolon, name, value, q, Insert(ext, name, value))
  {
    hide ClassEnd;
    assert [] + value == value;
    assert Stored(line, j, Equal, name, [], q, ext) == Stored(line, j + 1, BwsBeforeExtValue, name, [], q, ext);
    assert Stored(line, j + 1, BwsBeforeExtValue, name, [], q, ext) == Stored(line, j + 1, ExtValue, name, [], q, ext);
  }

  /** The scanner: it accepts exactly the non-empty lines of hexadecimal digits. */
  method StartLine(line: bytes, size0: nat, ext0: map<bytes, bytes>)
    returns (ok: bool, size: nat, ext: map<bytes, bytes>)
    ensures ok <==> line != [] && forall i :: 0 <= i < |line| ==> line[i] in "0123456789ABCDEFabcdef"
    ensures forall n: nat :: line != [] && Numeral(line, n) ==>
              ok && size == if n <= 0xFFFF_FFFF then n else 0xFFFF_FFFF
    ensures ok <==> SizeOf(line).Some?
    ensures ok ==> Some(size) == SizeOf(line) && ext == ext0
    ensures size == SizeAfter(line, size0)
    ensures Extends(ext0, ext) && ext == ExtensionsAfter(line, ext0)
  {
    hide Stored;
    ok, size, ext := false, size0, ext0;
    LineMeans(line);
    AllHexRun(line);
    hide Numeral, HexValue, HexDigit;
    if line == [] || !IsHex(line[0]) {
      return;
    }
    var i := Skip(line, 0, IsHex);
    RunIs(line, i);
    if i == |line| {
      assert line[..i] == line;
      size := Extract(line);
      return true, size, ext;
    }
    if line[i] !in ";\t " {
      return;
    }
    size := Extract(line[..i]);
    ok, ext := Extensions(line, i, ext);
  }

  /** `HexRun` is the only stopping point of a scan over hexadecimal digits. */
  lemma RunIs(line: bytes, i: nat)
    requires i <= |line| && (i < |line| ==> !IsHex(line[i]))
    requires forall k :: 0 <= k < i ==> IsHex(line[k])
    ensures HexRun(line) == i
  {
  }

  /** Scanning undoes hexadecimal printing for every size of a `uint32_t`. */
  lemma ScanUndoesPrint(n: nat)
    requires n < TWO_32
    ensures SizeOf(HexPrint(n)) == Some(n) && Numeral(HexPrint(n), n)
    ensures |HexPrint(n)| <= 8
  {
    NumeralIff(HexPrint(n), n);
    assert Pow16(8) == TWO_32;
    HexPrintLength(n, 8);
  }
}
