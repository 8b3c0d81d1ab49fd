/** Percent-encoding of one path segment (section 2.1 of RFC 3986), as url.PathEscape and
    url.PathUnescape perform it. */
module PathEscaping {
  import opened ByteStrings

  predicate Alphanumeric(c: Octet) {
    'a' <= c <= 'z' || 'A' <= c <= 'Z' || '0' <= c <= '9'
  }

  /** Bytes that a path segment carries as they are. */
  predicate Unescaped(c: Octet) {
    Alphanumeric(c) || c in "-_.~$&+=:@"
  }

  function HexDigit(d: nat): Octet
    requires d < 16
  {
    if d < 10 then '0' + d as char else 'A' + (d - 10) as char
  }

  /** Value of a hexadecimal digit in either case, or -1. */
  function HexValue(c: Octet): (v: int)
    ensures -1 <= v < 16
  {
    if '0' <= c <= '9' then c as int - '0' as int
    else if 'A' <= c <= 'F' then c as int - 'A' as int + 10
    else if 'a' <= c <= 'f' then c as int - 'a' as int + 10
    else -1
  }

  function EscapeByte(c: Octet): Str {
    if Unescaped(c) then [c] else ['%', HexDigit(c as int / 16), HexDigit(c as int % 16)]
  }

  function Escape(s: Str): Str {
    if s == [] then [] else EscapeByte(s[0]) + Escape(s[1..])
  }

  datatype Unescaping = Plain(text: Str) | Malformed

  function Unescape(s: Str): Unescaping {
    if s == [] then
      Plain([])
    else if s[0] == '%' then
      if |s| < 3 || HexValue(s[1]) < 0 || HexValue(s[2]) < 0 then
        Malformed
      else
        match Unescape(s[3..])
        case Malformed => Malformed
        case Plain(t) => Plain([(HexValue(s[1]) * 16 + HexValue(s[2])) as char] + t)
    else
      match Unescape(s[1..])
      case Malformed => Malformed
      case Plain(t) => Plain([s[0]] + t)
  }

  lemma HexRoundTrip(d: nat)
    requires d < 16
    ensures HexValue(HexDigit(d)) == d
  {
  }

  lemma UnescapeByte(c: Octet, rest: Str)
    requires Unescape(rest).Plain?
    ensures Unescape(EscapeByte(c) + rest) == Plain([c] + Unescape(rest).text)
  {
    var s := EscapeByte(c) + rest;
    if Unescaped(c) {
      assert s[0] == c && s[1..] == rest;
    } else {
      HexRoundTrip(c as int / 16);
      HexRoundTrip(c as int % 16);
      assert s[0] == '%' && s[1] == HexDigit(c as int / 16) && s[2] == HexDigit(c as int % 16);
      assert s[3..] == rest;
    }
  }

  /** Unescaping undoes escaping, for every byte string. */
  lemma {:induction false} UnescapeEscape(s: Str)
    ensures Unescape(Escape(s)) == Plain(s)
  {
    if s != [] {
      UnescapeEscape(s[1..]);
      UnescapeByte(s[0], Escape(s[1..]));
      assert s == [s[0]] + s[1..];
    }
  }

  /** Escaped text is free of commas, white space and non-ASCII bytes. */
  lemma {:induction false} EscapeIsPlain(s: Str)
    ensures forall c :: c in Escape(s) ==> Unescaped(c) || c == '%'
  {
    if s != [] {
      EscapeIsPlain(s[1..]);
    }
  }

  /** A path segment carries as they are the unreserved characters (section 2.3 of RFC 3986) and, of the
      reserved ones that url.PathEscape knows, all but the slash, semicolon, comma and question mark. */
  lemma EscapesExactly(c: Octet)
    ensures EscapeByte(c) == [c] <==>
      || 'a' <= c <= 'z' || 'A' <= c <= 'Z' || '0' <= c <= '9' || c in "-_.~"
      || (c in "$&+,/:;=?@" && c !in "/;,?")
  {
    assert |EscapeByte(c)| == 1 <==> Unescaped(c);
  }

  // ----- What unescapes to what -----

  const UPPER_HEX: string := "0123456789ABCDEF"
  const LOWER_HEX: string := "0123456789abcdef"

  /** `c` is the hexadecimal digit for `v`, in either case. */
  predicate HexFor(c: Octet, v: nat)
    requires v < 16
  {
    c == UPPER_HEX[v] || c == LOWER_HEX[v]
  }

  lemma HexValueMeans(c: Octet, v: nat)
    requires v < 16
    ensures HexValue(c) == v <==> HexFor(c, v)
  {
  }

  lemma HexDigitMeans(v: nat)
    requires v < 16
    ensures HexDigit(v) == UPPER_HEX[v]
  {
  }

  /** One piece of escaped text: the byte itself, unless it is a percent sign, or its number in hex. */
  predicate Encodes(piece: Str, c: Octet) {
    || (piece == [c] && c != '%')
    || (|piece| == 3 && piece[0] == '%' && HexFor(piece[1], c as int / 16) && HexFor(piece[2], c as int % 16))
  }

  function Concat(pieces: seq<Str>): Str {
    if pieces == [] then [] else pieces[0] + Concat(pieces[1..])
  }

  ghost predicate EncodedBy(s: Str, t: Str, pieces: seq<Str>) {
    |pieces| == |t| && Concat(pieces) == s && forall k :: 0 <= k < |t| ==> Encodes(pieces[k], t[k])
  }

  /** Text unescapes to exactly the bytes that its pieces encode; text that is no sequence of such pieces
      is malformed. */
  lemma UnescapesExactly(s: Str, t: Str)
    ensures Unescape(s) == Plain(t) <==> exists pieces :: EncodedBy(s, t, pieces)
  {
    if Unescape(s) == Plain(t) {
      var pieces := Pieces(s, t);
    }
    if pieces :| EncodedBy(s, t, pieces) {
      PiecesUnescape(s, t, pieces);
    }
  }

  lemma {:induction false} Pieces(s: Str, t: Str) returns (pieces: seq<Str>)
    requires Unescape(s) == Plain(t)
    ensures EncodedBy(s, t, pieces)
    decreases |s|
  {
    if s == [] {
      pieces := [];
    } else if s[0] == '%' {
      FirstEscape(s, t);
      HexPiece(s[1], s[2], t[0]);
      var rest := Pieces(s[3..], t[1..]);
      pieces := Prepend(['%', s[1], s[2]], s, t, rest);
    } else {
      FirstByte(s, t);
      var rest := Pieces(s[1..], t[1..]);
      pieces := Prepend([s[0]], s, t, rest);
    }
  }

  lemma FirstEscape(s: Str, t: Str)
    requires s != [] && s[0] == '%' && Unescape(s) == Plain(t)
    ensures |s| >= 3 && t != [] && HexValue(s[1]) >= 0 && HexValue(s[2]) >= 0
    ensures t[0] as int == HexValue(s[1]) * 16 + HexValue(s[2]) && Unescape(s[3..]) == Plain(t[1..])
  {
    var rest := Unescape(s[3..]).text;
    assert t[1..] == rest;
  }

  lemma FirstByte(s: Str, t: Str)
    requires s != [] && s[0] != '%' && Unescape(s) == Plain(t)
    ensures t != [] && t[0] == s[0] && Unescape(s[1..]) == Plain(t[1..])
  {
    var rest := Unescape(s[1..]).text;
    assert t[1..] == rest;
  }

  lemma HexPiece(a: Octet, b: Octet, c: Octet)
    requires HexValue(a) >= 0 && HexValue(b) >= 0 && c as int == HexValue(a) * 16 + HexValue(b)
    ensures Encodes(['%', a, b], c)
  {
    HexValueMeans(a, HexValue(a));
    HexValueMeans(b, HexValue(b));
    assert c as int / 16 == HexValue(a) && c as int % 16 == HexValue(b);
  }

  lemma Prepend(piece: Str, s: Str, t: Str, rest: seq<Str>) returns (pieces: seq<Str>)
    requires piece <= s && t != [] && Encodes(piece, t[0]) && EncodedBy(s[|piece|..], t[1..], rest)
    ensures EncodedBy(s, t, pieces)
  {
    pieces := [piece] + rest;
    assert pieces[1..] == rest;
    assert s == piece + s[|piece|..];
    forall k | 0 <= k < |t|
      ensures Encodes(pieces[k], t[k])
    {
      if k > 0 {
        assert pieces[k] == rest[k - 1] && t[k] == t[1..][k - 1];
      }
    }
  }

  lemma {:induction false} PiecesUnescape(s: Str, t: Str, pieces: seq<Str>)
    requires EncodedBy(s, t, pieces)
    ensures Unescape(s) == Plain(t)
    decreases |t|
  {
    if t != [] {
      var rest := Concat(pieces[1..]);
      forall k | 0 <= k < |t[1..]|
        ensures Encodes(pieces[1..][k], t[1..][k])
      {
        assert Encodes(pieces[k + 1], t[k + 1]);
      }
      PiecesUnescape(rest, t[1..], pieces[1..]);
      PieceUnescapes(pieces[0], t[0], rest);
      assert t == [t[0]] + t[1..];
    }
  }

  lemma PieceUnescapes(piece: Str, c: Octet, rest: Str)
    requires Encodes(piece, c) && Unescape(rest).Plain?
    ensures Unescape(piece + rest) == Plain([c] + Unescape(rest).text)
  {
    var s := piece + rest;
    if piece == [c] && c != '%' {
      assert s[0] == c && s[1..] == rest;
    } else {
      HexValueMeans(piece[1], c as int / 16);
      HexValueMeans(piece[2], c as int % 16);
      assert s[0] == '%' && s[1] == piece[1] && s[2] == piece[2] && s[3..] == rest;
    }
  }
}
