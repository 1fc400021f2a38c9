/** URLSearchParams over ASCII text: the application/x-www-form-urlencoded serializer and parser. */
module QueryString {
  import opened Base
  import opened Text

  predicate Ascii(s: string) { forall i :: 0 <= i < |s| ==> s[i] < 128 as char }

  predicate Unreserved(c: char) {
    'A' <= c <= 'Z' || 'a' <= c <= 'z' || '0' <= c <= '9' || c == '*' || c == '-' || c == '.' || c == '_'
  }

  function Hex(n: nat): char
    requires n < 16
  {
    if n < 10 then ('0' as int + n) as char else ('A' as int + n - 10) as char
  }

  /** Value of a hexadecimal digit; None for any other character. */
  function HexValue(c: char): Option<nat> {
    if '0' <= c <= '9' then Some(c as int - '0' as int)
    else if 'A' <= c <= 'F' then Some(c as int - 'A' as int + 10)
    else if 'a' <= c <= 'f' then Some(c as int - 'a' as int + 10)
    else None
  }

  function EncodeChar(c: char): string
    requires c < 128 as char
  {
    if Unreserved(c) then [c]
    else if c == ' ' then "+"
    else ['%', Hex(c as int / 16), Hex(c as int % 16)]
  }

  function Encode(s: string): string
    requires Ascii(s)
  {
    if s == [] then "" else EncodeChar(s[0]) + Encode(s[1..])
  }

  /** Percent-decoding; a '%' not followed by two hexadecimal digits stands for itself. */
  function Decode(s: string): string {
    if s == [] then ""
    else if s[0] == '+' then " " + Decode(s[1..])
    else if s[0] == '%' && |s| >= 3 && HexValue(s[1]).Some? && HexValue(s[2]).Some? then
      [(HexValue(s[1]).value * 16 + HexValue(s[2]).value) as char] + Decode(s[3..])
    else [s[0]] + Decode(s[1..])
  }

  predicate Plain(s: string) { '&' !in s && '=' !in s }

  lemma EncodeCharRoundTrip(c: char, rest: string)
    requires c < 128 as char
    ensures Decode(EncodeChar(c) + rest) == [c] + Decode(rest) && Plain(EncodeChar(c))
  {
    var t := EncodeChar(c) + rest;
    assert t[|EncodeChar(c)|..] == rest;
    if !Unreserved(c) && c != ' ' {
      assert t[..3] == EncodeChar(c) && t[1] == Hex(c as int / 16) && t[2] == Hex(c as int % 16);
      assert HexValue(t[1]) == Some(c as int / 16) && HexValue(t[2]) == Some(c as int % 16);
    }
  }

  lemma {:induction false} EncodeRoundTrip(s: string)
    requires Ascii(s)
    ensures Decode(Encode(s)) == s && Plain(Encode(s))
  {
    hide EncodeChar;
    if s != [] {
      EncodeCharRoundTrip(s[0], Encode(s[1..]));
      EncodeRoundTrip(s[1..]);
      assert s == [s[0]] + s[1..];
    }
  }

  datatype Param = Param(name: string, value: string)

  predicate AsciiParam(p: Param) { Ascii(p.name) && Ascii(p.value) }

  function Pair(p: Param): string
    requires AsciiParam(p)
  {
    Encode(p.name) + "=" + Encode(p.value)
  }

  function Serialize(ps: seq<Param>): string
    requires forall p :: p in ps ==> AsciiParam(p)
  {
    if ps == [] then ""
    else if |ps| == 1 then Pair(ps[0])
    else Pair(ps[0]) + "&" + Serialize(ps[1..])
  }

  /** Pieces between '&'; empty pieces are skipped; each is cut at its first '='. */
  function Parse(query: string): seq<Param>
    decreases |query|
  {
    if query == [] then []
    else
      AfterShorter(query, '&');
      var piece := UpTo(query, '&');
      (if piece == [] then [] else [Param(Decode(UpTo(piece, '=')), Decode(After(piece, '=')))])
      + Parse(After(query, '&'))
  }

  lemma PairParses(p: Param, rest: string)
    requires AsciiParam(p)
    ensures Parse(Pair(p)) == [p] && Parse(Pair(p) + "&" + rest) == [p] + Parse(rest)
  {
    hide Decode, Encode;
    EncodeRoundTrip(p.name);
    EncodeRoundTrip(p.value);
    CutAt(Encode(p.name), '=', Encode(p.value));
    assert Pair(p) == Encode(p.name) + ['='] + Encode(p.value);
    CutAt(Pair(p), '&', rest);
    assert Pair(p) + "&" + rest == Pair(p) + ['&'] + rest;
  }

  /** Reading a serialized parameter list gives the list back. */
  lemma {:induction false} ParseSerialize(ps: seq<Param>)
    requires forall p :: p in ps ==> AsciiParam(p)
    ensures Parse(Serialize(ps)) == ps
  {
    if |ps| == 1 {
      PairParses(ps[0], "");
    } else if ps != [] {
      PairParses(ps[0], Serialize(ps[1..]));
      ParseSerialize(ps[1..]);
    }
  }

  /** searchParams.get: the first value under a name. */
  function Get(ps: seq<Param>, name: string): Option<string> {
    if ps == [] then None
    else if ps[0].name == name then Some(ps[0].value)
    else Get(ps[1..], name)
  }

  // ----- the encoding in characters -----

  /** Letters, digits and "*-._" stand for themselves, and a space is '+'. */
  lemma KeptCharacters(c: char)
    requires c < 128 as char
    ensures Ascii([c])
    ensures 'A' <= c <= 'Z' || 'a' <= c <= 'z' || '0' <= c <= '9' ==> EncodeChar(c) == [c]
    ensures c == '*' || c == '-' || c == '.' || c == '_' ==> EncodeChar(c) == [c]
    ensures c == ' ' ==> EncodeChar(c) == "+"
  {
  }

  /** Every other character is '%' and its code in two upper-case hexadecimal digits. */
  lemma PercentCharacters(c: char)
    requires c < 128 as char
    requires !('A' <= c <= 'Z' || 'a' <= c <= 'z' || '0' <= c <= '9') && c != ' '
    requires c != '*' && c != '-' && c != '.' && c != '_'
    ensures var digits := "0123456789ABCDEF";
      EncodeChar(c) == ['%', digits[c as int / 16], digits[c as int % 16]]
  {
    HexDigits(c as int / 16);
    HexDigits(c as int % 16);
    hide Hex;
  }

  lemma HexDigits(n: nat)
    requires n < 16
    ensures Hex(n) == "0123456789ABCDEF"[n]
  {
    var digits := "0123456789ABCDEF";
    assert n < 10 ==> digits[n] as int == '0' as int + n;
  }

  /** A percent sign without two hexadecimal digits stands for itself, and lower-case digits are read, too. */
  lemma LooseDecoding()
    ensures Decode("%") == "%" && Decode("%2f") == "/"
  {
    assert "%"[1..] == "" && "%2f"[3..] == "";
  }

  /** The first of several values counts. */
  lemma FirstValueCounts(name: string, value: string, rest: seq<Param>)
    ensures Get([Param(name, value)] + rest, name) == Some(value)
    ensures Get([], name) == None
  {
  }

  /** The values of hexadecimal digits, small or capital. */
  lemma HexValues(c: char)
    ensures var code := c as int;
      && (48 <= code && code <= 57 ==> HexValue(c) == Some(code - 48))
      && (65 <= code && code <= 70 ==> HexValue(c) == Some(code - 55))
      && (97 <= code && code <= 102 ==> HexValue(c) == Some(code - 87))
      && (HexValue(c).Some? <==>
            (48 <= code && code <= 57) || (65 <= code && code <= 70) || (97 <= code && code <= 102))
  {
  }

  /** Empty pieces of a query are skipped, and a piece without '=' is a name with an empty value. */
  lemma OddPieces(piece: string, query: string)
    requires Plain(piece) && piece != ""
    ensures Parse("") == [] && Parse("&" + query) == Parse(query)
    ensures Parse(piece + "&" + query) == [Param(Decode(piece), "")] + Parse(query)
  {
    hide Decode;
    CutAt("", '&', query);
    assert "&" + query == "" + ['&'] + query;
    CutAt(piece, '&', query);
    assert piece + "&" + query == piece + ['&'] + query;
    CutAt(piece, '=', "");
    EmptyDecodes();
  }

  lemma EmptyDecodes()
    ensures Decode("") == ""
  {
  }
}
