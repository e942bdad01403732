/** Percent-encoding as `urllib.parse.quote(..., safe="")` and `unquote` do it (section 2.1 of RFC 3986).  A string is a
    sequence of bytes, one character per byte, as UTF-8 would give it. */
module PercentEncoding {
  predicate IsBytes(s: string) {
    forall i :: 0 <= i < |s| ==> s[i] as int < 256
  }

  predicate IsAlnum(c: char) {
    'a' <= c <= 'z' || 'A' <= c <= 'Z' || '0' <= c <= '9'
  }

  /** Section 2.3 of RFC 3986. */
  predicate Unreserved(c: char) {
    IsAlnum(c) || c == '_' || c == '-' || c == '.' || c == '~'
  }

  function HexDigit(n: nat): char
    requires n < 16
  {
    if n < 10 then '0' + n as char else 'A' + (n - 10) as char
  }

  predicate IsHex(c: char) {
    '0' <= c <= '9' || 'a' <= c <= 'f' || 'A' <= c <= 'F'
  }

  function HexValue(c: char): (n: nat)
    requires IsHex(c)
    ensures n < 16
  {
    if c <= '9' then c as int - '0' as int
    else if c <= 'F' then c as int - 'A' as int + 10
    else c as int - 'a' as int + 10
  }

  function QuoteByte(c: char): string {
    if Unreserved(c) || c as int >= 256 then [c] else ['%', HexDigit(c as int / 16), HexDigit(c as int % 16)]
  }

  function Quote(s: string): string {
    if s == [] then [] else QuoteByte(s[0]) + Quote(s[1..])
  }

  predicate EscapeAt(s: string, i: nat) {
    i + 2 < |s| && s[i] == '%' && IsHex(s[i + 1]) && IsHex(s[i + 2])
  }

  function Unquote(s: string): string {
    if s == [] then []
    else if EscapeAt(s, 0) then [(HexValue(s[1]) * 16 + HexValue(s[2])) as char] + Unquote(s[3..])
    else [s[0]] + Unquote(s[1..])
  }

  // ---- round trip ---------------------------------------------------------------------

  lemma HexRoundTrip(n: nat)
    requires n < 16
    ensures IsHex(HexDigit(n)) && HexValue(HexDigit(n)) == n
  {
  }

  lemma {:induction false} UnquoteQuote(s: string)
    requires IsBytes(s)
    ensures Unquote(Quote(s)) == s
  {
    if s != [] {
      UnquoteQuote(s[1..]);
      var head, rest := QuoteByte(s[0]), Quote(s[1..]);
      if Unreserved(s[0]) {
        assert (head + rest)[1..] == rest;
      } else {
        HexRoundTrip(s[0] as int / 16);
        HexRoundTrip(s[0] as int % 16);
        assert (head + rest)[3..] == rest;
        assert EscapeAt(head + rest, 0);
      }
    }
  }

  lemma {:induction false} QuoteIsBytes(s: string)
    requires IsBytes(s)
    ensures IsBytes(Quote(s))
    ensures forall c :: c in Quote(s) ==> Unreserved(c) || c == '%'
    ensures forall c :: c == '.' || c == '~' ==> (c in Quote(s) <==> c in s)
    ensures |s| <= |Quote(s)|
  {
    if s != [] {
      QuoteIsBytes(s[1..]);
      if !Unreserved(s[0]) {
        HexRoundTrip(s[0] as int / 16);
        HexRoundTrip(s[0] as int % 16);
      }
      assert forall c :: c in s <==> c == s[0] || c in s[1..];
    }
  }

  lemma {:induction false} QuoteConcat(a: string, b: string)
    ensures Quote(a + b) == Quote(a) + Quote(b)
  {
    if a == [] {
      assert a + b == b;
    } else {
      assert (a + b)[1..] == a[1..] + b;
      QuoteConcat(a[1..], b);
    }
  }

  /** Decoding twice undoes encoding twice, for every byte string. */
  lemma DoubleRoundTrip(s: string)
    requires IsBytes(s)
    ensures Unquote(Unquote(Quote(Quote(s)))) == s
  {
    QuoteIsBytes(s);
    UnquoteQuote(Quote(s));
    UnquoteQuote(s);
  }

  ghost predicate HasEscape(s: string) {
    exists i: nat :: EscapeAt(s, i)
  }

  lemma {:induction false} UnquoteLength(s: string)
    ensures |Unquote(s)| <= |s|
    ensures HasEscape(s) ==> |Unquote(s)| < |s|
    ensures !HasEscape(s) ==> Unquote(s) == s
  {
    if s != [] {
      if EscapeAt(s, 0) {
        UnquoteLength(s[3..]);
      } else {
        UnquoteLength(s[1..]);
        forall i: nat | EscapeAt(s, i)
          ensures HasEscape(s[1..])
        {
          assert EscapeAt(s[1..], i - 1);
        }
        forall i: nat | EscapeAt(s[1..], i)
          ensures HasEscape(s)
        {
          assert EscapeAt(s, i + 1);
        }
      }
    }
  }

  /** Decoding leaves a string alone exactly if no `%hh` occurs in it. */
  lemma UnquoteFixpoint(s: string)
    ensures Unquote(s) == s <==> !HasEscape(s)
  {
    UnquoteLength(s);
  }

  lemma {:induction false} UnquoteShrinks(s: string)
    ensures |Unquote(s)| <= |s|
  {
    if s != [] {
      UnquoteShrinks(s[1..]);
      if |s| >= 3 {
        UnquoteShrinks(s[3..]);
      }
    }
  }
}
