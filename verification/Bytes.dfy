/** Bytes, byte strings and the character classes of the server's syntax tables. */
module Bytes {

  /** One octet.  A character below 256, so that string literals denote byte strings. */
  type byte = c: char | c as int < 256 witness 'a'

  type bytes = seq<byte>

  const CR: byte := '\r'
  const LF: byte := '\n'
  const CRLF: bytes := "\r\n"

  /** The largest `size_t`, which the server uses as "not set" and "not found". */
  const SIZE_T_MAX: nat := 0xFFFF_FFFF_FFFF_FFFF

  /** Number of values of a `uint32_t`, and of a `size_t`. */
  const TWO_32: nat := 0x1_0000_0000
  const TWO_64: nat := SIZE_T_MAX + 1

  datatype Option<+T> = None | Some(value: T)

  function Min(a: int, b: int): int {
    if a <= b then a else b
  }

  /** Position of the first `b` in `s`, or `|s|` when there is none. */
  function IndexOf(s: bytes, b: byte): (p: nat)
    ensures p <= |s|
    ensures p < |s| ==> s[p] == b
    ensures forall i :: 0 <= i < p ==> s[i] != b
  {
    if s == [] || s[0] == b then 0 else 1 + IndexOf(s[1..], b)
  }

  /** The three guarantees of `IndexOf` pin it down. */
  lemma IndexOfUnique(s: bytes, b: byte, p: nat)
    requires p <= |s| && (p < |s| ==> s[p] == b)
    requires forall i :: 0 <= i < p ==> s[i] != b
    ensures IndexOf(s, b) == p
  {
  }

  /** A search stays inside the first string when the byte occurs there. */
  lemma IndexOfConcat(s: bytes, t: bytes, b: byte)
    ensures IndexOf(s + t, b) == if IndexOf(s, b) < |s| then IndexOf(s, b) else |s| + IndexOf(t, b)
  {
    var p := if IndexOf(s, b) < |s| then IndexOf(s, b) else |s| + IndexOf(t, b);
    forall i | 0 <= i < p
      ensures (s + t)[i] != b
    {
      if |s| <= i {
        assert (s + t)[i] == t[i - |s|];
      }
    }
    IndexOfUnique(s + t, b, p);
  }

  /** Position of the last `b` in `s`, or `|s|` when there is none. */
  function LastIndexOf(s: bytes, b: byte): (p: nat)
    ensures p <= |s|
    ensures p < |s| ==> s[p] == b && forall i :: p < i < |s| ==> s[i] != b
    ensures p == |s| ==> b !in s
  {
    if s == [] then 0
    else if s[|s| - 1] == b then |s| - 1
    else
      var p := LastIndexOf(s[..|s| - 1], b);
      assert s == s[..|s| - 1] + [s[|s| - 1]];
      if p == |s| - 1 then |s| else p
  }

  /** Concatenation of a list of byte strings. */
  function Concat(pieces: seq<bytes>): bytes {
    if pieces == [] then [] else pieces[0] + Concat(pieces[1..])
  }

  // ----- character classes -----

  /** `hexdigit_` */
  predicate IsHex(c: byte) {
    '0' <= c <= '9' || 'A' <= c <= 'F' || 'a' <= c <= 'f'
  }

  /** `ows_` */
  predicate IsOws(c: byte) {
    c == ' ' || c == '\t'
  }

  /** `name_token_` */
  predicate IsNameToken(c: byte) {
    || '0' <= c <= '9' || 'A' <= c <= 'Z' || 'a' <= c <= 'z'
    || c in "!#$%&'*+-.^_`|~"
  }

  /** `alpha_upper_case_` */
  predicate IsUpper(c: byte) {
    'A' <= c <= 'Z'
  }

  /** `usual_`: the visible characters. */
  predicate IsVisible(c: byte) {
    '!' <= c <= '~'
  }

  /** Advances over the bytes of a class. */
  method Skip(line: bytes, from: nat, class_: byte -> bool) returns (i: nat)
    requires from <= |line|
    ensures from <= i <= |line|
    ensures forall k :: from <= k < i ==> class_(line[k])
    ensures i < |line| ==> !class_(line[i])
  {
    i := from;
    while i < |line| && class_(line[i])
      invariant from <= i <= |line|
      invariant forall k :: from <= k < i ==> class_(line[k])
    {
      i := i + 1;
    }
  }

  // ----- hexadecimal numbers -----

  function HexDigit(c: byte): (d: nat)
    requires IsHex(c)
    ensures d < 16
  {
    if c <= '9' then c as int - '0' as int
    else if c <= 'F' then c as int - 'A' as int + 10
    else c as int - 'a' as int + 10
  }

  predicate AllHex(s: bytes) {
    forall i :: 0 <= i < |s| ==> IsHex(s[i])
  }

  /** The base-16 value of a string of hexadecimal digits. */
  function HexValue(s: bytes): nat
    requires AllHex(s)
  {
    if s == [] then 0 else 16 * HexValue(s[..|s| - 1]) + HexDigit(s[|s| - 1])
  }

  /** The lower-case digit for `d`. */
  function HexChar(d: nat): (c: byte)
    requires d < 16
    ensures IsHex(c) && HexDigit(c) == d
  {
    if d < 10 then (d + '0' as int) as char else (d - 10 + 'a' as int) as char
  }

  /** The shortest lower-case hexadecimal spelling of `n`, as `std::hex` prints it. */
  function HexPrint(n: nat): (s: bytes)
    ensures s != [] && AllHex(s) && HexValue(s) == n
  {
    if n < 16 then
      var s: bytes := [HexChar(n)];
      assert s[..|s| - 1] == [];
      s
    else
      var h := HexPrint(n / 16);
      var s := h + [HexChar(n % 16)];
      assert s[..|s| - 1] == h;
      s
  }

  // ----- what digits mean -----

  /** `c` is the digit for `d`, in either case. */
  predicate StandsFor(c: byte, d: nat) {
    d < 16 && (c == "0123456789ABCDEF"[d] || c == "0123456789abcdef"[d])
  }

  /** `s` is a numeral for `n` in base 16: each of its digits in either case, any number of zeros in front. */
  predicate Numeral(s: bytes, n: nat) {
    if s == [] then n == 0 else StandsFor(s[|s| - 1], n % 16) && Numeral(s[..|s| - 1], n / 16)
  }

  /** The sixteen digits in their two spellings, and no other byte is one. */
  lemma HexTable(c: byte, d: nat)
    ensures StandsFor(c, d) <==> IsHex(c) && HexDigit(c) == d
    ensures IsHex(c) <==> c in "0123456789ABCDEFabcdef"
  {
    if d < 16 {
      assert "0123456789ABCDEF"[d] == (if d < 10 then 48 + d else 55 + d) as char;
      assert "0123456789abcdef"[d] == (if d < 10 then 48 + d else 87 + d) as char;
    }
  }

  /** The value of a string of digits is the number it is a numeral for. */
  lemma {:induction false} NumeralIff(s: bytes, n: nat)
    ensures Numeral(s, n) <==> AllHex(s) && HexValue(s) == n
    decreases |s|
  {
    if s != [] {
      var init, c := s[..|s| - 1], s[|s| - 1];
      HexTable(c, n % 16);
      NumeralIff(init, n / 16);
      assert s == init + [c];
      hide StandsFor;
    }
  }

  /** A number below 2^32 prints in at most eight digits. */
  lemma HexPrintLength(n: nat, k: nat)
    requires k > 0 && n < Pow16(k)
    ensures |HexPrint(n)| <= k
  {
    if n >= 16 && k > 1 {
      HexPrintLength(n / 16, k - 1);
    }
  }

  function Pow16(k: nat): nat {
    if k == 0 then 1 else 16 * Pow16(k - 1)
  }
}
