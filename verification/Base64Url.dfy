/** base64url (section 5 of RFC 4648) as the broker produces it: btoa, two replacements, padding dropped. */
module Base64Url {
  import opened Base

  type Byte = i: int | 0 <= i < 256
  type Sextet = i: int | 0 <= i < 64

  // ----- bytes and sextets -----

  /** Three bytes become four sextets; a last group of one or two bytes is filled with zero bits. */
  function Sextets(b: seq<Byte>): seq<Sextet> {
    if |b| == 0 then []
    else if |b| == 1 then [b[0] / 4, b[0] % 4 * 16]
    else if |b| == 2 then [b[0] / 4, b[0] % 4 * 16 + b[1] / 16, b[1] % 16 * 4]
    else [b[0] / 4, b[0] % 4 * 16 + b[1] / 16, b[1] % 16 * 4 + b[2] / 64, b[2] % 64] + Sextets(b[3..])
  }

  /** The decoder: the partner of Sextets. */
  function Bytes(s: seq<Sextet>): seq<Byte> {
    if |s| <= 1 then []
    else if |s| == 2 then [First(s[0], s[1])]
    else if |s| == 3 then [First(s[0], s[1]), Second(s[1], s[2])]
    else [First(s[0], s[1]), Second(s[1], s[2]), Third(s[2], s[3])] + Bytes(s[4..])
  }

  function First(a: int, b: int): Byte
    requires 0 <= a < 64 && 0 <= b < 64
  {
    a * 4 + b / 16
  }

  function Second(b: int, c: int): Byte
    requires 0 <= b < 64 && 0 <= c < 64
  {
    b % 16 * 16 + c / 4
  }

  function Third(c: int, d: int): Byte
    requires 0 <= c < 64 && 0 <= d < 64
  {
    c % 4 * 64 + d
  }

  lemma GroupRoundTrip(a: Byte, b: Byte, c: Byte)
    ensures First(a / 4, a % 4 * 16 + b / 16) == a
    ensures Second(a % 4 * 16 + b / 16, b % 16 * 4 + c / 64) == b
    ensures Third(b % 16 * 4 + c / 64, c % 64) == c
  {
  }

  lemma {:induction false} BytesOfSextets(b: seq<Byte>)
    ensures Bytes(Sextets(b)) == b
    ensures |Sextets(b)| == (4 * |b| + 2) / 3
  {
    if |b| > 2 {
      BytesOfSextets(b[3..]);
      assert Sextets(b)[4..] == Sextets(b[3..]);
      GroupRoundTrip(b[0], b[1], b[2]);
      assert b == [b[0], b[1], b[2]] + b[3..];
    }
  }

  /** The sextet sequences an encoder can produce: no stray sextet, zero fill bits. */
  predicate Canonical(s: seq<Sextet>) {
    |s| % 4 != 1 && (|s| % 4 == 2 ==> s[|s| - 1] % 16 == 0) && (|s| % 4 == 3 ==> s[|s| - 1] % 4 == 0)
  }

  lemma GroupBack(a: Sextet, b: Sextet, c: Sextet, d: Sextet)
    ensures First(a, b) / 4 == a && First(a, b) % 4 * 16 + Second(b, c) / 16 == b
    ensures Second(b, c) % 16 * 4 + Third(c, d) / 64 == c && Third(c, d) % 64 == d
  {
  }

  lemma TailBack(s: seq<Sextet>)
    requires Canonical(s) && |s| < 4
    ensures Sextets(Bytes(s)) == s && |Bytes(s)| == |s| * 3 / 4
  {
    if |s| == 2 {
      assert First(s[0], s[1]) / 4 == s[0] && First(s[0], s[1]) % 4 * 16 == s[1];
    } else if |s| == 3 {
      var (x, y) := (First(s[0], s[1]), Second(s[1], s[2]));
      assert x / 4 == s[0] && x % 4 * 16 + y / 16 == s[1] && y % 16 * 4 == s[2];
      assert Sextets([x, y]) == s;
    }
  }

  lemma {:induction false} SextetsOfBytes(s: seq<Sextet>)
    requires Canonical(s)
    ensures Sextets(Bytes(s)) == s && |Bytes(s)| == |s| * 3 / 4
  {
    hide First, Second, Third;
    if |s| < 4 {
      TailBack(s);
    } else {
      var g := [First(s[0], s[1]), Second(s[1], s[2]), Third(s[2], s[3])];
      SextetsOfBytes(s[4..]);
      assert Bytes(s) == g + Bytes(s[4..]);
      assert Bytes(s)[3..] == Bytes(s[4..]);
      GroupBack(s[0], s[1], s[2], s[3]);
      assert s == [s[0], s[1], s[2], s[3]] + s[4..];
    }
  }

  // ----- characters -----

  /** The btoa alphabet. */
  function Base64Char(i: Sextet): char {
    if i < 26 then ('A' as int + i) as char
    else if i < 52 then ('a' as int + i - 26) as char
    else if i < 62 then ('0' as int + i - 52) as char
    else if i == 62 then '+' else '/'
  }

  predicate IsUrlChar(c: char) {
    'A' <= c <= 'Z' || 'a' <= c <= 'z' || '0' <= c <= '9' || c == '-' || c == '_'
  }

  predicate AllUrl(s: string) { forall i :: 0 <= i < |s| ==> IsUrlChar(s[i]) }

  function UrlChar(i: Sextet): (c: char)
    ensures IsUrlChar(c) && SextetOf(c) == i
  {
    if i == 62 then '-' else if i == 63 then '_' else Base64Char(i)
  }

  function SextetOf(c: char): Sextet
    requires IsUrlChar(c)
  {
    if 'A' <= c <= 'Z' then c as int - 'A' as int
    else if 'a' <= c <= 'z' then c as int - 'a' as int + 26
    else if '0' <= c <= '9' then c as int - '0' as int + 52
    else if c == '-' then 62 else 63
  }

  function Encode(b: seq<Byte>): (s: string)
    ensures |s| == |Sextets(b)| && forall i :: 0 <= i < |s| ==> s[i] == UrlChar(Sextets(b)[i])
  {
    seq(|Sextets(b)|, i requires 0 <= i < |Sextets(b)| => UrlChar(Sextets(b)[i]))
  }

  function ToSextets(s: string): (r: seq<Sextet>)
    requires AllUrl(s)
    ensures |r| == |s| && forall i :: 0 <= i < |s| ==> r[i] == SextetOf(s[i])
  {
    seq(|s|, i requires 0 <= i < |s| => SextetOf(s[i]))
  }

  function Decode(s: string): seq<Byte>
    requires AllUrl(s)
  {
    Bytes(ToSextets(s))
  }

  lemma DecodeEncode(b: seq<Byte>)
    ensures AllUrl(Encode(b))
    ensures Decode(Encode(b)) == b
  {
    assert ToSextets(Encode(b)) == Sextets(b);
    BytesOfSextets(b);
  }

  lemma CharRoundTrip(c: char)
    requires IsUrlChar(c)
    ensures UrlChar(SextetOf(c)) == c
  {
  }

  lemma EncodeDecode(s: string)
    requires AllUrl(s) && Canonical(ToSextets(s))
    ensures Encode(Decode(s)) == s
  {
    hide UrlChar, SextetOf, Bytes, Sextets, Canonical;
    forall i | 0 <= i < |s| ensures UrlChar(ToSextets(s)[i]) == s[i] {
      CharRoundTrip(s[i]);
    }
    SextetsOfBytes(ToSextets(s));
  }

  // ----- the JavaScript pipeline -----

  function CodeUnits(binary: string): (r: seq<Byte>)
    requires forall i :: 0 <= i < |binary| ==> binary[i] < 256 as char
    ensures |r| == |binary| && forall i :: 0 <= i < |r| ==> r[i] == binary[i] as int
  {
    if binary == [] then [] else [binary[0] as int] + CodeUnits(binary[1..])
  }

  /** btoa on a string of code units below 256. */
  function Btoa(binary: string): string
    requires forall i :: 0 <= i < |binary| ==> binary[i] < 256 as char
  {
    var s := Sextets(CodeUnits(binary));
    seq(|s|, i requires 0 <= i < |s| => Base64Char(s[i]))
    + (if |binary| % 3 == 1 then "==" else if |binary| % 3 == 2 then "=" else "")
  }

  /** replace(/x/g, y) for single characters. */
  function Replace(s: string, x: char, y: char): (r: string)
    ensures |r| == |s| && forall i :: 0 <= i < |s| ==> r[i] == if s[i] == x then y else s[i]
  {
    seq(|s|, i requires 0 <= i < |s| => if s[i] == x then y else s[i])
  }

  /** replace(/=+$/g, "") */
  function StripPadding(s: string): string {
    if s != [] && s[|s| - 1] == '=' then StripPadding(s[..|s| - 1]) else s
  }

  lemma StripExactly(body: string, pad: string)
    requires '=' !in body && forall i :: 0 <= i < |pad| ==> pad[i] == '='
    ensures StripPadding(body + pad) == body
  {
    if pad == [] {
      assert body + pad == body;
      assert body != [] ==> body[|body| - 1] in body;
    } else {
      assert (body + pad)[..|body + pad| - 1] == body + pad[..|pad| - 1];
      StripExactly(body, pad[..|pad| - 1]);
    }
  }

  /** The pipeline computes base64url. */
  lemma PipelineIsEncode(b: seq<Byte>, binary: string)
    requires |binary| == |b| && forall i :: 0 <= i < |b| ==> binary[i] == b[i] as char
    ensures StripPadding(Replace(Replace(Btoa(binary), '+', '-'), '/', '_')) == Encode(b)
  {
    var s := Sextets(b);
    assert CodeUnits(binary) == b;
    var pad := if |binary| % 3 == 1 then "==" else if |binary| % 3 == 2 then "=" else "";
    var chars := seq(|s|, i requires 0 <= i < |s| => Base64Char(s[i]));
    assert Btoa(binary) == chars + pad;
    assert Replace(Replace(Btoa(binary), '+', '-'), '/', '_') == Encode(b) + pad;
    forall c | c in Encode(b) ensures c != '=' {
      DecodeEncode(b);
    }
    StripExactly(Encode(b), pad);
  }

  // ----- the alphabet and the bits -----

  /** A-Z, a-z, 0-9, '-' and '_' stand for 0 to 63 in this order. */
  lemma AlphabetInOrder(i: Sextet)
    ensures i <= 25 ==> UrlChar(i) as int == 'A' as int + i
    ensures 26 <= i && i <= 51 ==> UrlChar(i) as int == 'a' as int + (i - 26)
    ensures 52 <= i && i <= 61 ==> UrlChar(i) as int == '0' as int + (i - 52)
    ensures i == 62 ==> UrlChar(i) == '-'
    ensures i == 63 ==> UrlChar(i) == '_'
  {
  }

  /** The number with these digits, the most significant first. */
  ghost function Number(digits: seq<int>, radix: int): int {
    if digits == [] then 0 else Number(digits[..|digits| - 1], radix) * radix + digits[|digits| - 1]
  }

  /** Three bytes and their four sextets are the same 24 bits, most significant first. */
  lemma SameBits(a: Byte, b: Byte, c: Byte)
    ensures var s := Sextets([a, b, c]);
      |s| == 4 && Number([a, b, c], 256) == Number(s, 64)
    ensures var s := Sextets([a, b]); |s| == 3 && Number([a, b], 256) * 4 == Number(s, 64)
    ensures var s := Sextets([a]); |s| == 2 && Number([a], 256) * 16 == Number(s, 64)
  {
    assert Sextets([a, b, c][3..]) == [];
    Numbers([a, b, c], 256);
    Numbers(Sextets([a, b, c]), 64);
    Numbers([a, b], 256);
    Numbers(Sextets([a, b]), 64);
    Numbers([a], 256);
    Numbers(Sextets([a]), 64);
    hide Number;
  }

  lemma Numbers(s: seq<int>, r: int)
    ensures |s| == 1 ==> Number(s, r) == s[0]
    ensures |s| == 2 ==> Number(s, r) == s[0] * r + s[1]
    ensures |s| == 3 ==> Number(s, r) == (s[0] * r + s[1]) * r + s[2]
    ensures |s| == 4 ==> Number(s, r) == ((s[0] * r + s[1]) * r + s[2]) * r + s[3]
  {
    if 1 < |s| <= 4 { Numbers(s[..|s| - 1], r); }
  }

  /** "foobar" is "Zm9vYmFy" (section 10 of RFC 4648). */
  lemma KnownVector()
    ensures Sextets([102, 111, 111, 98, 97, 114]) == [25, 38, 61, 47, 24, 38, 5, 50]
  {
    assert [102, 111, 111, 98, 97, 114][3..] == [98, 97, 114];
    assert Sextets([98, 97, 114][3..]) == [];
  }
}
