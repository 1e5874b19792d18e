/** `urllib.parse.unquote`, which decodes the link targets the extractor collects,
    and `urllib.parse.quote`, which encodes an article path before it is fetched.
    Only escapes of ASCII characters are decoded (see README). */
module PyUrl {

  predicate IsHex(c: char) {
    ('0' <= c <= '9') || ('a' <= c <= 'f') || ('A' <= c <= 'F')
  }

  function HexValue(c: char): (v: nat)
    requires IsHex(c)
    ensures v < 16
  {
    if '0' <= c <= '9' then c as int - '0' as int
    else if 'a' <= c <= 'f' then c as int - 'a' as int + 10
    else c as int - 'A' as int + 10
  }

  /** The upper-case hexadecimal digit `quote` writes for `v`. */
  function HexDigit(v: nat): (c: char)
    requires v < 16
    ensures IsHex(c) && HexValue(c) == v
  {
    if v < 10 then ('0' as int + v) as char else ('A' as int + v - 10) as char
  }

  /** `s` begins with a `%XX` escape of an ASCII character. */
  predicate AsciiEscapeAt(s: string)
  {
    |s| >= 3 && s[0] == '%' && IsHex(s[1]) && IsHex(s[2]) && 16 * HexValue(s[1]) + HexValue(s[2]) < 128
  }

  /** `unquote(s)`: every `%XX` escape of an ASCII character becomes that
      character; every other character, a stray `%` included, is kept. */
  function Unquote(s: string): (r: string)
    ensures |r| <= |s|
    ensures (forall i :: 0 <= i < |s| ==> s[i] != '%') ==> r == s
  {
    if |s| == 0 then ""
    else if AsciiEscapeAt(s) then [(16 * HexValue(s[1]) + HexValue(s[2])) as char] + Unquote(s[3..])
    else [s[0]] + Unquote(s[1..])
  }

  /** A prefix without `%` passes through decoding unchanged. */
  lemma {:induction false} UnquotePrefix(p: string, s: string)
    requires forall i :: 0 <= i < |p| ==> p[i] != '%'
    ensures Unquote(p + s) == p + Unquote(s)
    decreases |p|
  {
    if |p| > 0 {
      var ps := p + s;
      assert p[0] != '%';
      assert ps[0] == p[0];
      assert ps[1..] == p[1..] + s;
      assert Unquote(ps) == [p[0]] + Unquote(p[1..] + s);
      UnquotePrefix(p[1..], s);
      assert p == [p[0]] + p[1..];
    } else {
      assert p + s == s;
    }
  }

  /** The characters `quote(s, safe='/')` never escapes. */
  predicate IsSafe(c: char) {
    ('a' <= c <= 'z') || ('A' <= c <= 'Z') || ('0' <= c <= '9')
    || c == '_' || c == '.' || c == '-' || c == '~' || c == '/'
  }

  predicate IsAscii(s: string) {
    forall i :: 0 <= i < |s| ==> s[i] as int < 128
  }

  /** `quote(s)` on ASCII text: a safe character is kept, any other becomes `%XX`. */
  function Quote(s: string): (r: string)
    requires IsAscii(s)
    ensures |r| >= |s|
  {
    if |s| == 0 then ""
    else if IsSafe(s[0]) then [s[0]] + Quote(s[1..])
    else
      var v := s[0] as int;
      ['%', HexDigit(v / 16), HexDigit(v % 16)] + Quote(s[1..])
  }

  /** Decoding what `quote` encoded gives the ASCII text back. */
  lemma {:induction false} UnquoteQuote(s: string)
    requires IsAscii(s)
    ensures Unquote(Quote(s)) == s
    decreases |s|
  {
    if |s| > 0 {
      UnquoteQuote(s[1..]);
      if IsSafe(s[0]) {
        SafeDecodes(s[0], Quote(s[1..]));
      } else {
        EscapeDecodes(s[0], Quote(s[1..]));
      }
      assert s == [s[0]] + s[1..];
    }
  }

  /** A safe character is not `%` and decodes to itself. */
  lemma SafeDecodes(c: char, t: string)
    requires IsSafe(c)
    ensures Unquote([c] + t) == [c] + Unquote(t)
  {
    assert ([c] + t)[1..] == t;
  }

  /** The escape `quote` writes for an ASCII character decodes to it. */
  lemma EscapeDecodes(c: char, t: string)
    requires c as int < 128
    ensures Unquote(['%', HexDigit(c as int / 16), HexDigit(c as int % 16)] + t) == [c] + Unquote(t)
  {
    var v := c as int;
    var q := ['%', HexDigit(v / 16), HexDigit(v % 16)] + t;
    assert AsciiEscapeAt(q);
    assert q[3..] == t;
    assert (16 * (v / 16) + v % 16) as char == c;
  }
}
