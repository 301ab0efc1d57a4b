/**
 * `encodeURIComponent` as the navigation link uses it: alphanumerics and the
 * "mark" characters of RFC 2396 section 2.3 stay as they are, every other
 * character is written as the UTF-8 octets of its code point, each escaped as
 * `%XY` with upper-case hexadecimal digits (RFC 2396 section 2.4.1).
 */
module Uri {
  import opened Values

  type byte = x: int | 0 <= x < 256

  /** The characters `encodeURIComponent` leaves unescaped. */
  predicate IsUnreserved(c: char) {
    ('A' <= c <= 'Z') || ('a' <= c <= 'z') || ('0' <= c <= '9')
    || c == '-' || c == '_' || c == '.' || c == '!' || c == '~' || c == '*' || c == '\'' || c == '(' || c == ')'
  }

  predicate IsUpperHex(c: char) {
    ('0' <= c <= '9') || ('A' <= c <= 'F')
  }

  /* ---------- UTF-8 ---------- */

  predicate IsContinuation(b: byte) {
    0x80 <= b < 0xC0
  }

  /** How many octets a UTF-8 sequence starting with `b` has; 0 when `b` cannot start one. */
  function LeadLength(b: byte): nat {
    if b < 0x80 then 1
    else if 0xC0 <= b < 0xE0 then 2
    else if 0xE0 <= b < 0xF0 then 3
    else if 0xF0 <= b < 0xF8 then 4
    else 0
  }

  /** The low `n` six-bit groups of `cp`, most significant first, each as a continuation octet. */
  function Continuations(cp: nat, n: nat): (bs: seq<byte>)
    ensures |bs| == n
    ensures forall i :: 0 <= i < n ==> IsContinuation(bs[i])
  {
    if n == 0 then [] else Continuations(cp / 64, n - 1) + [0x80 + cp % 64]
  }

  /** The UTF-8 octets of one Unicode scalar value: a lead octet carrying the high bits, then continuation octets (see `Utf8CharShape`). */
  function Utf8Char(c: char): seq<byte> {
    var cp := c as int;
    if cp < 0x80 then [cp]
    else if cp < 0x800 then [0xC0 + cp / 64] + Continuations(cp, 1)
    else if cp < 0x10000 then [0xE0 + cp / 4096] + Continuations(cp, 2)
    else [0xF0 + cp / 262144] + Continuations(cp, 3)
  }

  /**
   * One to four octets; the lead octet announces the length; a single octet
   * is the ASCII code itself; every later octet is a continuation octet, and
   * in a multi-octet form no octet is ASCII.
   */
  lemma Utf8CharShape(c: char)
    ensures var bs := Utf8Char(c);
      1 <= |bs| <= 4 && LeadLength(bs[0]) == |bs|
      && (|bs| == 1 <==> c as int < 0x80)
      && (|bs| == 1 ==> bs[0] == c as int)
      && (forall i :: 1 <= i < |bs| ==> IsContinuation(bs[i]))
      && (|bs| > 1 ==> forall i :: 0 <= i < |bs| ==> bs[i] >= 0x80)
  {
  }

  /** The UTF-8 encoding of a string. */
  function Utf8(s: string): seq<byte> {
    if s == [] then [] else Utf8Char(s[0]) + Utf8(s[1..])
  }

  /** The code point a UTF-8 sequence of the right length spells, before any validity check. */
  function ScalarValue(bs: seq<byte>): int
    requires 1 <= |bs| <= 4
  {
    var b0: int := bs[0];
    if |bs| == 1 then b0
    else
      var b1: int := bs[1];
      if |bs| == 2 then (b0 - 0xC0) * 64 + (b1 - 0x80)
      else
        var b2: int := bs[2];
        if |bs| == 3 then (b0 - 0xE0) * 4096 + (b1 - 0x80) * 64 + (b2 - 0x80)
        else
          var b3: int := bs[3];
          (b0 - 0xF0) * 262144 + (b1 - 0x80) * 4096 + (b2 - 0x80) * 64 + (b3 - 0x80)
  }

  predicate AllContinuation(bs: seq<byte>) {
    forall i :: 1 <= i < |bs| ==> IsContinuation(bs[i])
  }

  /** Decodes one complete UTF-8 sequence, refusing overlong forms, surrogates and values above U+10FFFF. */
  function DecodeScalar(bs: seq<byte>): Option<char>
    requires 1 <= |bs| <= 4 && LeadLength(bs[0]) == |bs|
  {
    if !AllContinuation(bs) then None
    else
      var cp := ScalarValue(bs);
      var least: int := if |bs| == 1 then 0 else if |bs| == 2 then 0x80 else if |bs| == 3 then 0x800 else 0x10000;
      if cp < least || (0xD800 <= cp < 0xE000) || cp >= 0x110000 then None
      else Some(cp as char)
  }

  /** Decodes a UTF-8 octet string; `None` when it is not well formed. */
  function Utf8Decode(bs: seq<byte>): Option<string>
    decreases |bs|
  {
    if bs == [] then Some([])
    else
      var n := LeadLength(bs[0]);
      if n == 0 || |bs| < n then None
      else match DecodeScalar(bs[..n])
        case None => None
        case Some(c) =>
          match Utf8Decode(bs[n..])
          case None => None
          case Some(rest) => Some([c] + rest)
  }

  lemma ScalarValueOfChar(c: char)
    ensures ScalarValue(Utf8Char(c)) == c as int
  {
    var cp := c as int;
    if 0x80 <= cp < 0x800 {
      ScalarValueOfTwo(cp);
    } else if 0x800 <= cp < 0x10000 {
      ScalarValueOfThree(cp);
    } else if 0x10000 <= cp {
      ScalarValueOfFour(cp);
    }
  }

  lemma ScalarValueOfTwo(cp: int)
    requires 0x80 <= cp < 0x800
    ensures ScalarValue([0xC0 + cp / 64] + Continuations(cp, 1)) == cp
  {
    assert Continuations(cp, 1) == [0x80 + cp % 64];
  }

  lemma ScalarValueOfThree(cp: int)
    requires 0x800 <= cp < 0x10000
    ensures ScalarValue([0xE0 + cp / 4096] + Continuations(cp, 2)) == cp
  {
    assert Continuations(cp / 64, 1) == [0x80 + (cp / 64) % 64];
    assert Continuations(cp, 2) == [0x80 + (cp / 64) % 64, 0x80 + cp % 64];
    assert (cp / 4096) * 64 + (cp / 64) % 64 == cp / 64;
  }

  lemma ScalarValueOfFour(cp: int)
    requires 0x10000 <= cp < 0x110000
    ensures ScalarValue([0xF0 + cp / 262144] + Continuations(cp, 3)) == cp
  {
    assert cp / 64 / 64 == cp / 4096;
    assert Continuations(cp / 4096, 1) == [0x80 + (cp / 4096) % 64];
    assert Continuations(cp / 64, 2) == [0x80 + (cp / 4096) % 64, 0x80 + (cp / 64) % 64];
    assert Continuations(cp, 3) == [0x80 + (cp / 4096) % 64, 0x80 + (cp / 64) % 64, 0x80 + cp % 64];
    assert (cp / 262144) * 64 + (cp / 4096) % 64 == cp / 4096;
    assert (cp / 4096) * 64 + (cp / 64) % 64 == cp / 64;
  }

  lemma DecodeScalarOfChar(c: char)
    ensures DecodeScalar(Utf8Char(c)) == Some(c)
  {
    Utf8CharShape(c);
    ScalarValueOfChar(c);
    assert AllContinuation(Utf8Char(c));
  }

  /** UTF-8 decoding undoes UTF-8 encoding. */
  lemma {:induction false} Utf8RoundTrip(s: string)
    ensures Utf8Decode(Utf8(s)) == Some(s)
  {
    if s != [] {
      var head := Utf8Char(s[0]);
      var bs := Utf8(s);
      assert bs == head + Utf8(s[1..]);
      assert bs[..|head|] == head;
      assert bs[|head|..] == Utf8(s[1..]);
      DecodeScalarOfChar(s[0]);
      Utf8RoundTrip(s[1..]);
      assert [s[0]] + s[1..] == s;
    }
  }

  /* ---------- percent escapes ---------- */

  function HexDigit(n: int): (c: char)
    requires 0 <= n < 16
    ensures IsUpperHex(c)
  {
    "0123456789ABCDEF"[n]
  }

  /** The value of a hexadecimal digit of either case. */
  function HexValue(c: char): Option<int> {
    if '0' <= c <= '9' then Some(c as int - '0' as int)
    else if 'A' <= c <= 'F' then Some(c as int - 'A' as int + 10)
    else if 'a' <= c <= 'f' then Some(c as int - 'a' as int + 10)
    else None
  }

  lemma HexValueOfDigit(n: int)
    requires 0 <= n < 16
    ensures HexValue(HexDigit(n)) == Some(n)
  {
  }

  /** `%XY` for one octet. */
  function Escape(b: byte): (e: string)
    ensures |e| == 3 && e[0] == '%' && IsUpperHex(e[1]) && IsUpperHex(e[2])
  {
    ['%', HexDigit(b / 16), HexDigit(b % 16)]
  }

  function EscapeAll(bs: seq<byte>): string {
    if bs == [] then [] else Escape(bs[0]) + EscapeAll(bs[1..])
  }

  /** `encodeURIComponent`, one character at a time. */
  function EncodeComponent(s: string): string {
    if s == [] then []
    else (if IsUnreserved(s[0]) then [s[0]] else EscapeAll(Utf8Char(s[0]))) + EncodeComponent(s[1..])
  }

  /** Encoding works character by character, so it distributes over concatenation. */
  lemma {:induction false} EncodeComponentAppend(a: string, b: string)
    ensures EncodeComponent(a + b) == EncodeComponent(a) + EncodeComponent(b)
  {
    if a != [] {
      assert (a + b)[0] == a[0];
      assert (a + b)[1..] == a[1..] + b;
      EncodeComponentAppend(a[1..], b);
    } else {
      assert a + b == b;
    }
  }

  /** A string of unreserved characters is its own encoding. */
  lemma {:induction false} EncodeUnreservedOnly(s: string)
    requires forall i :: 0 <= i < |s| ==> IsUnreserved(s[i])
    ensures EncodeComponent(s) == s
  {
    if s != [] {
      EncodeUnreservedOnly(s[1..]);
      assert [s[0]] + s[1..] == s;
    }
  }

  /** The space character becomes `%20`. */
  lemma EncodeSpace()
    ensures EncodeComponent(" ") == "%20"
  {
    assert Utf8Char(' ') == [32];
    assert EscapeAll([32]) == Escape(32) + EscapeAll([]);
    assert " "[1..] == [];
  }

  /** The same encoding stated on octets: an unreserved ASCII octet stays a character, every other octet is escaped. */
  function EncodeOctets(bs: seq<byte>): string {
    if bs == [] then []
    else (if bs[0] < 0x80 && IsUnreserved(bs[0] as char) then [bs[0] as char] else Escape(bs[0])) + EncodeOctets(bs[1..])
  }

  /** Turns percent escapes back into octets; any other character must be ASCII. */
  function PercentDecode(s: string): Option<seq<byte>>
    decreases |s|
  {
    if s == [] then Some([])
    else if s[0] == '%' then
      if |s| >= 3 && HexValue(s[1]).Some? && HexValue(s[2]).Some? then
        match PercentDecode(s[3..])
        case None => None
        case Some(rest) => Some([HexValue(s[1]).value * 16 + HexValue(s[2]).value] + rest)
      else None
    else if s[0] as int < 0x80 then
      match PercentDecode(s[1..])
      case None => None
      case Some(rest) => Some([s[0] as int] + rest)
    else None
  }

  /** `decodeURIComponent` on what `encodeURIComponent` can produce. */
  function DecodeComponent(s: string): Option<string> {
    match PercentDecode(s)
    case None => None
    case Some(bs) => Utf8Decode(bs)
  }

  lemma {:induction false} EncodeOctetsAppend(a: seq<byte>, b: seq<byte>)
    ensures EncodeOctets(a + b) == EncodeOctets(a) + EncodeOctets(b)
  {
    if a == [] {
      assert a + b == b;
    } else {
      assert (a + b)[0] == a[0];
      assert (a + b)[1..] == a[1..] + b;
      EncodeOctetsAppend(a[1..], b);
    }
  }

  lemma {:induction false} EscapeAllHigh(bs: seq<byte>)
    requires forall i :: 0 <= i < |bs| ==> bs[i] >= 0x80
    ensures EscapeAll(bs) == EncodeOctets(bs)
  {
    if bs != [] {
      EscapeAllHigh(bs[1..]);
    }
  }

  /** The character-wise algorithm and the octet-wise statement agree: `encodeURIComponent(s)` is the octet encoding of the UTF-8 of `s`. */
  lemma {:induction false} EncodeComponentIsOctetEncoding(s: string)
    ensures EncodeComponent(s) == EncodeOctets(Utf8(s))
  {
    if s != [] {
      var head := Utf8Char(s[0]);
      Utf8CharShape(s[0]);
      EncodeOctetsAppend(head, Utf8(s[1..]));
      EncodeComponentIsOctetEncoding(s[1..]);
      if |head| == 1 {
        var b: byte := s[0] as int;
        assert head == [b];
        assert b as char == s[0];
        assert EncodeOctets([b]) == (if b < 0x80 && IsUnreserved(b as char) then [b as char] else Escape(b)) + EncodeOctets([]);
        if !IsUnreserved(s[0]) {
          assert EscapeAll(head) == Escape(b) + EscapeAll([]);
        }
      } else {
        EscapeAllHigh(head);
      }
    }
  }

  /** Percent-decoding undoes the octet encoding. */
  lemma {:induction false} OctetRoundTrip(bs: seq<byte>)
    ensures PercentDecode(EncodeOctets(bs)) == Some(bs)
  {
    if bs != [] {
      var b := bs[0];
      var e := EncodeOctets(bs);
      OctetRoundTrip(bs[1..]);
      if b < 0x80 && IsUnreserved(b as char) {
        assert e == [b as char] + EncodeOctets(bs[1..]);
        assert e[1..] == EncodeOctets(bs[1..]);
      } else {
        assert e == Escape(b) + EncodeOctets(bs[1..]);
        assert e[3..] == EncodeOctets(bs[1..]);
        HexValueOfDigit(b / 16);
        HexValueOfDigit(b % 16);
      }
      assert [b] + bs[1..] == bs;
    }
  }

  /** `decodeURIComponent(encodeURIComponent(s)) == s`: the search query names exactly the text it was built from. */
  lemma ComponentRoundTrip(s: string)
    ensures DecodeComponent(EncodeComponent(s)) == Some(s)
  {
    EncodeComponentIsOctetEncoding(s);
    OctetRoundTrip(Utf8(s));
    Utf8RoundTrip(s);
  }

  predicate IsSafeChar(c: char) {
    IsUnreserved(c) || c == '%' || IsUpperHex(c)
  }

  predicate AllSafe(e: string) {
    forall i :: 0 <= i < |e| ==> IsSafeChar(e[i])
  }

  /** Every character of the octet encoding is unreserved, `%`, or an upper-case hexadecimal digit. */
  lemma {:induction false} OctetEncodingIsSafe(bs: seq<byte>)
    ensures AllSafe(EncodeOctets(bs))
  {
    if bs != [] {
      OctetEncodingIsSafe(bs[1..]);
      var head := if bs[0] < 0x80 && IsUnreserved(bs[0] as char) then [bs[0] as char] else Escape(bs[0]);
      assert AllSafe(head);
      assert EncodeOctets(bs) == head + EncodeOctets(bs[1..]);
    }
  }

  /** An encoded component never holds a URL delimiter such as `&`, `#`, `=`, `?`, `/` or a space. */
  lemma ComponentIsSafe(s: string)
    ensures AllSafe(EncodeComponent(s))
    ensures var e := EncodeComponent(s);
      forall i :: 0 <= i < |e| ==> e[i] !in {'&', '#', '=', '?', '/', ' ', '+'}
  {
    EncodeComponentIsOctetEncoding(s);
    OctetEncodingIsSafe(Utf8(s));
    var e := EncodeComponent(s);
    forall i | 0 <= i < |e| ensures e[i] !in {'&', '#', '=', '?', '/', ' ', '+'} {
      assert IsSafeChar(e[i]);
    }
  }
}
