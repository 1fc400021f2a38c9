/** The JavaScript string operations the modelled files rely on. */
module Text {
  import opened Base

  // ----- code-unit order (the `<` of two strings) -----

  predicate StrLess(a: string, b: string) {
    b != [] && (a == [] || a[0] < b[0] || (a[0] == b[0] && StrLess(a[1..], b[1..])))
  }

  lemma {:induction false} StrLessPrefix(p: string, q: string, r: string, s: string)
    requires |p| == |q|
    ensures StrLess(p + r, q + s) <==> StrLess(p, q) || (p == q && StrLess(r, s))
  {
    if p == [] {
      assert p + r == r && q + s == s;
    } else {
      assert (p + r)[1..] == p[1..] + r && (q + s)[1..] == q[1..] + s;
      assert p == q <==> p[0] == q[0] && p[1..] == q[1..] by {
        assert p == [p[0]] + p[1..] && q == [q[0]] + q[1..];
      }
      StrLessPrefix(p[1..], q[1..], r, s);
    }
  }

  /** Exactly one of `a < b`, `a == b`, `b < a` holds. */
  lemma {:induction false} StrLessTotal(a: string, b: string)
    ensures StrLess(a, b) || StrLess(b, a) || a == b
    ensures !(StrLess(a, b) && StrLess(b, a)) && (a == b ==> !StrLess(a, b))
  {
    if a != [] && b != [] {
      StrLessTotal(a[1..], b[1..]);
      if a[0] == b[0] && a[1..] == b[1..] {
        assert a == [a[0]] + a[1..] && b == [b[0]] + b[1..];
      }
    }
  }

  lemma {:induction false} StrLessTransitive(a: string, b: string, c: string)
    requires StrLess(a, b) && StrLess(b, c)
    ensures StrLess(a, c)
  {
    if a != [] && a[0] == b[0] == c[0] {
      StrLessTransitive(a[1..], b[1..], c[1..]);
    }
  }

  // ----- searching -----

  predicate StartsWith(s: string, p: string) {
    |p| <= |s| && s[..|p|] == p
  }

  /** JavaScript's indexOf, with None for -1. */
  function IndexOf(s: string, p: string): (r: Option<nat>)
    ensures r.Some? ==> r.value <= |s| && StartsWith(s[r.value..], p)
    ensures r.Some? ==> forall j: nat :: j < r.value ==> !StartsWith(s[j..], p)
    ensures r == None ==> forall j: nat :: j <= |s| ==> !StartsWith(s[j..], p)
  {
    if StartsWith(s, p) then
      assert s[0..] == s;
      Some(0)
    else if s == [] then None
    else
      assert forall j: nat :: 0 < j <= |s| ==> s[j..] == s[1..][j - 1..];
      match IndexOf(s[1..], p)
      case Some(k) =>
        assert s[0..] == s;
        Some(k + 1)
      case None =>
        assert s[0..] == s;
        None
  }

  predicate Includes(s: string, p: string) {
    IndexOf(s, p).Some?
  }

  lemma FirstIndex(s: string, p: string, k: nat)
    requires k <= |s| && StartsWith(s[k..], p)
    requires forall j: nat :: j < k ==> !StartsWith(s[j..], p)
    ensures IndexOf(s, p) == Some(k)
  {
  }

  /** A text occurs in every text it stands in. */
  lemma StandsIn(prefix: string, p: string, suffix: string)
    ensures Includes(prefix + p + suffix, p)
  {
    var s := prefix + p + suffix;
    assert s[|prefix|..][..|p|] == p;
    assert StartsWith(s[|prefix|..], p);
  }

  // ----- white space and case -----

  /** The characters that trim() and the regex class \s treat as white space. */
  predicate IsSpace(c: char) {
    '\t' <= c <= '\r' || c == ' ' || c == '\U{00A0}' || c == '\U{1680}'
    || '\U{2000}' <= c <= '\U{200A}' || c == '\U{2028}' || c == '\U{2029}'
    || c == '\U{202F}' || c == '\U{205F}' || c == '\U{3000}' || c == '\U{FEFF}'
  }

  function TrimStart(s: string): string {
    if s != [] && IsSpace(s[0]) then TrimStart(s[1..]) else s
  }

  function TrimEnd(s: string): string {
    if s != [] && IsSpace(s[|s| - 1]) then TrimEnd(s[..|s| - 1]) else s
  }

  function Trim(s: string): string { TrimEnd(TrimStart(s)) }

  predicate Trimmed(s: string) {
    s == [] || (!IsSpace(s[0]) && !IsSpace(s[|s| - 1]))
  }

  lemma TrimTrimmed(s: string)
    requires Trimmed(s)
    ensures Trim(s) == s
  {
  }

  predicate AllSpace(s: string) { forall i :: 0 <= i < |s| ==> IsSpace(s[i]) }

  /** White space around a trimmed text is what trim() removes. */
  lemma TrimPadded(lead: string, s: string, trail: string)
    requires AllSpace(lead) && AllSpace(trail) && Trimmed(s)
    ensures Trim(lead + s + trail) == s
  {
    if s == [] {
      assert lead + s + trail == (lead + trail) + [];
      TrimLead(lead + trail, []);
    } else {
      assert lead + s + trail == lead + (s + trail);
      TrimLead(lead, s + trail);
      TrimTrail(s, trail);
    }
  }

  lemma {:induction false} TrimLead(lead: string, s: string)
    requires AllSpace(lead) && (s == [] || !IsSpace(s[0]))
    ensures TrimStart(lead + s) == s
  {
    if lead == [] {
      assert lead + s == s;
    } else {
      assert (lead + s)[1..] == lead[1..] + s;
      TrimLead(lead[1..], s);
    }
  }

  lemma {:induction false} TrimTrail(s: string, trail: string)
    requires AllSpace(trail) && (s == [] || !IsSpace(s[|s| - 1]))
    ensures TrimEnd(s + trail) == s
  {
    if trail == [] {
      assert s + trail == s;
    } else {
      assert (s + trail)[..|s + trail| - 1] == s + trail[..|trail| - 1];
      TrimTrail(s, trail[..|trail| - 1]);
    }
  }

  predicate IsDigit(c: char) { '0' <= c <= '9' }

  /** Upper case of the letters a-z; other characters are kept. */
  function UpperChar(c: char): char {
    if 'a' <= c <= 'z' then ((c as int) - 32) as char else c
  }

  function Upper(s: string): (r: string)
    ensures |r| == |s| && forall i :: 0 <= i < |s| ==> r[i] == UpperChar(s[i])
  {
    seq(|s|, i requires 0 <= i < |s| => UpperChar(s[i]))
  }

  function Join(parts: seq<string>, sep: string): string {
    if parts == [] then ""
    else if |parts| == 1 then parts[0]
    else parts[0] + sep + Join(parts[1..], sep)
  }

  // ----- cutting at a character -----

  function UpTo(s: string, c: char): string {
    if s == [] || s[0] == c then [] else [s[0]] + UpTo(s[1..], c)
  }

  function After(s: string, c: char): string {
    if s == [] then [] else if s[0] == c then s[1..] else After(s[1..], c)
  }

  lemma {:induction false} CutAt(a: string, c: char, rest: string)
    requires c !in a
    ensures UpTo(a + [c] + rest, c) == a && After(a + [c] + rest, c) == rest
    ensures UpTo(a, c) == a && After(a, c) == []
  {
    if a != [] {
      assert (a + [c] + rest)[1..] == a[1..] + [c] + rest;
      CutAt(a[1..], c, rest);
      assert a == [a[0]] + a[1..];
    }
  }

  lemma AfterShorter(s: string, c: char)
    ensures |After(s, c)| < |s| || s == []
  {
  }

  // ----- distinct non-empty strings -----

  /** Non-empty strings at their first position. */
  function FirstOccurrences(ids: seq<string>): seq<string> {
    if ids == [] then []
    else
      var (init, last) := (ids[..|ids| - 1], ids[|ids| - 1]);
      FirstOccurrences(init) + (if last != "" && last !in init then [last] else [])
  }

  /** The position of the first occurrence of `id`. */
  function FirstPlace(ids: seq<string>, id: string): (k: nat)
    requires id in ids
    ensures k < |ids| && ids[k] == id && id !in ids[..k]
  {
    if ids[0] == id then 0
    else
      var k := FirstPlace(ids[1..], id) + 1;
      assert ids[..k] == [ids[0]] + ids[1..][..k - 1];
      k
  }

  /** FirstOccurrences keeps each non-empty id once, in the order of first occurrences. */
  lemma {:induction false} FirstOccurrencesSound(ids: seq<string>)
    ensures Distinct(FirstOccurrences(ids))
    ensures forall id :: id in FirstOccurrences(ids) <==> id in ids && id != ""
    ensures forall i, j :: 0 <= i < j < |FirstOccurrences(ids)| ==>
      FirstPlace(ids, FirstOccurrences(ids)[i]) < FirstPlace(ids, FirstOccurrences(ids)[j])
  {
    if ids != [] {
      var (init, last) := (ids[..|ids| - 1], ids[|ids| - 1]);
      FirstOccurrencesSound(init);
      assert ids == init + [last];
      forall id | id in init ensures FirstPlace(ids, id) == FirstPlace(init, id) {
        PlaceUnique(ids, id, FirstPlace(init, id));
      }
      if last !in init { PlaceUnique(ids, last, |init|); }
    }
  }

  lemma PlaceUnique(ids: seq<string>, id: string, k: nat)
    requires k < |ids| && ids[k] == id && id !in ids[..k]
    ensures FirstPlace(ids, id) == k
  {
    var j := FirstPlace(ids, id);
    assert forall i :: 0 <= i < k ==> ids[..k][i] == ids[i];
    assert forall i :: 0 <= i < j ==> ids[..j][i] == ids[i];
  }

  // ----- white space -----

  /** The white space of ECMAScript: five controls, the spaces of Unicode, two separators and the byte order mark. */
  lemma SpacesAre(c: char)
    ensures IsSpace(c) <==> c as int in {
      0x9, 0xA, 0xB, 0xC, 0xD, 0x20, 0xA0, 0x1680, 0x2000, 0x2001, 0x2002, 0x2003, 0x2004, 0x2005, 0x2006, 0x2007,
      0x2008, 0x2009, 0x200A, 0x2028, 0x2029, 0x202F, 0x205F, 0x3000, 0xFEFF}
  {
  }

  /** Upper case of the letters, everything else as it is. */
  lemma UpperCase(c: char)
    ensures 'a' <= c <= 'z' ==> UpperChar(c) as int - 'A' as int == c as int - 'a' as int
    ensures c < 'a' || c > 'z' ==> UpperChar(c) == c
  {
  }

  /** Joining puts the separator between the parts only. */
  lemma JoinedParts(first: string, second: string, rest: seq<string>, sep: string)
    ensures Join([], sep) == "" && Join([first], sep) == first
    ensures Join([first, second] + rest, sep) == first + sep + Join([second] + rest, sep)
  {
    assert ([first, second] + rest)[1..] == [second] + rest;
  }
}
