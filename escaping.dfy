/** url.QueryEscape and url.QueryUnescape of Go's net/url package, in the
    query-component mode (application/x-www-form-urlencoded, section 5.2 of
    the WHATWG URL Standard). A Go string is a sequence of bytes; here it is a
    Dafny string whose characters all lie below 256, one character per byte. */
module QueryEscaping {
  import opened Wrappers

  predicate IsBytes(s: string)
  {
    forall k :: 0 <= k < |s| ==> s[k] as int < 256
  }

  const HexDigits: string := "0123456789ABCDEF"

  predicate IsHex(c: char)
  {
    '0' <= c <= '9' || 'a' <= c <= 'f' || 'A' <= c <= 'F'
  }

  function UnHex(c: char): (d: nat)
    requires IsHex(c)
    ensures d < 16
  {
    if '0' <= c <= '9' then c as int - '0' as int
    else if 'a' <= c <= 'f' then c as int - 'a' as int + 10
    else c as int - 'A' as int + 10
  }

  lemma UnHexOfHex(d: nat)
    requires d < 16
    ensures IsHex(HexDigits[d]) && UnHex(HexDigits[d]) == d
  {
  }

  /** Characters QueryEscape leaves as they are. */
  predicate Unreserved(c: char)
  {
    'a' <= c <= 'z' || 'A' <= c <= 'Z' || '0' <= c <= '9' || c == '-' || c == '_' || c == '.' || c == '~'
  }

  /** Characters that may appear in an escaped query component. */
  predicate QuerySafe(c: char)
  {
    Unreserved(c) || c == '%' || c == '+'
  }

  /** One byte of QueryEscape's output: kept, space as '+', otherwise %XX in upper-case hex. */
  function EscapeByte(c: char): (r: string)
    requires c as int < 256
    ensures forall k :: 0 <= k < |r| ==> QuerySafe(r[k])
  {
    if Unreserved(c) then [c]
    else if c == ' ' then "+"
    else ['%', HexDigits[c as int / 16], HexDigits[c as int % 16]]
  }

  /** url.QueryEscape: the result carries no character that could end the
      quoted term or start another parameter of the search URL. */
  function QueryEscape(s: string): (r: string)
    requires IsBytes(s)
    ensures forall k :: 0 <= k < |r| ==> QuerySafe(r[k])
  {
    if s == [] then "" else EscapeByte(s[0]) + QueryEscape(s[1..])
  }

  /** url.QueryUnescape: '+' reads as a space, %XX as the byte XX (either
      case of hex digit); a '%' not followed by two hex digits is an error,
      for which Go returns the empty string and an error value. */
  function QueryUnescape(s: string): (r: Option<string>)
    ensures IsBytes(s) && r.Some? ==> IsBytes(r.value)
    ensures r.Some? ==> |r.value| <= |s|
  {
    if s == [] then Some("")
    else if s[0] == '%' then
      if |s| < 3 || !IsHex(s[1]) || !IsHex(s[2]) then None
      else
        match QueryUnescape(s[3..])
        case None => None
        case Some(t) => Some([(UnHex(s[1]) * 16 + UnHex(s[2])) as char] + t)
    else
      match QueryUnescape(s[1..])
      case None => None
      case Some(t) => Some([if s[0] == '+' then ' ' else s[0]] + t)
  }

  /** Position i of s holds a '%' that two hex digits do not follow. */
  predicate BadEscapeAt(s: string, i: int)
  {
    0 <= i < |s| && s[i] == '%' && (|s| <= i + 2 || !IsHex(s[i + 1]) || !IsHex(s[i + 2]))
  }

  /** Unescaping fails exactly when some '%' of the text lacks its two hex
      digits; no other text is rejected. */
  lemma {:induction false} UnescapeFails(s: string)
    ensures QueryUnescape(s).None? <==> exists i :: BadEscapeAt(s, i)
  {
    if s != [] {
      var n := if s[0] == '%' && !BadEscapeAt(s, 0) then 3 else 1;
      if s[0] == '%' && BadEscapeAt(s, 0) {
        return;
      }
      UnescapeFails(s[n..]);
      assert forall j :: BadEscapeAt(s[n..], j) <==> BadEscapeAt(s, j + n);
      if exists i :: BadEscapeAt(s, i) {
        var i :| BadEscapeAt(s, i);
        assert i >= n;
        assert BadEscapeAt(s[n..], i - n);
      }
    }
  }

  lemma UnescapeByte(c: char, rest: string)
    requires c as int < 256
    ensures QueryUnescape(EscapeByte(c) + rest) ==
            match QueryUnescape(rest) case None => None case Some(t) => Some([c] + t)
  {
    var e := EscapeByte(c) + rest;
    if Unreserved(c) {
      assert e[1..] == rest;
    } else if c == ' ' {
      assert e[1..] == rest;
    } else {
      UnHexOfHex(c as int / 16);
      UnHexOfHex(c as int % 16);
      assert e[3..] == rest;
    }
  }

  /** The term searchRepo compiles as a pattern is the term the user typed:
      unescaping the escaped form gives the original back. */
  lemma {:induction false} EscapeRoundTrip(s: string)
    requires IsBytes(s)
    ensures QueryUnescape(QueryEscape(s)) == Some(s)
  {
    if s != [] {
      EscapeRoundTrip(s[1..]);
      UnescapeByte(s[0], QueryEscape(s[1..]));
      assert [s[0]] + s[1..] == s;
    }
  }
}
