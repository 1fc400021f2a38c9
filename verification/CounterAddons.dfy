/** Perks hidden in the counter-offer message: the serializer, the parser, and their round trip. */
module CounterAddons {
  import opened Base
  import opened Text

  /** Catalog ids, in catalog order; labels and icons are display only. */
  const CATALOG: seq<string> := [
    "breakfast", "dinner", "welcome_drink", "early_checkin", "late_checkout", "airport_pickup",
    "room_upgrade", "spa_voucher", "kids_free", "minibar", "parking", "honeymoon"]

  const SENTINEL := "[StayBid-Addons]"

  // ----- serializeAddons -----

  predicate InCatalog(id: string) { id in CATALOG }

  function KnownIds(ids: seq<string>): seq<string> { Filter(FirstOccurrences(ids), InCatalog) }

  function SerializeAddons(ids: seq<string>): string {
    var distinct := FirstOccurrences(ids);
    if distinct == [] then ""
    else
      var known := Filter(distinct, InCatalog);
      if known == [] then "" else SENTINEL + " " + Join(known, ",")
  }

  // ----- parseAddons -----

  /** The separators of split(/[\s,]+/). */
  predicate IsSeparator(c: char) { IsSpace(c) || c == ',' }

  function SkipSeparators(s: string): (r: string)
    ensures |r| <= |s|
  {
    if s != [] && IsSeparator(s[0]) then SkipSeparators(s[1..]) else s
  }

  function FirstPiece(s: string): (r: string)
    ensures |r| <= |s| && s[..|r|] == r
  {
    if s == [] || IsSeparator(s[0]) then [] else [s[0]] + FirstPiece(s[1..])
  }

  /** split(/[\s,]+/): pieces between maximal runs of separators. */
  function Split(s: string): seq<string>
    decreases |s|
  {
    var piece := FirstPiece(s);
    if |piece| == |s| then [piece]
    else [piece] + Split(SkipSeparators(s[|piece| + 1..]))
  }

  function Trims(pieces: seq<string>): (r: seq<string>)
    ensures |r| == |pieces| && forall i :: 0 <= i < |r| ==> r[i] == Trim(pieces[i])
  {
    seq(|pieces|, i requires 0 <= i < |pieces| => Trim(pieces[i]))
  }

  /** The ids of the catalog entries named in the message, in order. */
  function ParseAddons(message: string): seq<string> {
    match IndexOf(message, SENTINEL)
    case None => []
    case Some(ix) =>
      var tail := Trim(message[ix + |SENTINEL|..]);
      if tail == "" then []
      else Filter(Filter(Trims(Split(tail)), s => s != ""), InCatalog)
  }

  predicate HasAddons(message: string) { ParseAddons(message) != [] }

  // ----- what the parser computes: catalog ids among the words -----

  /** Maximal runs of non-separators. */
  function Words(s: string): seq<string> {
    if s == [] then []
    else if IsSeparator(s[0]) then Words(s[1..])
    else
      var piece := FirstPiece(s);
      [piece] + Words(s[|piece|..])
  }

  lemma WordsSkip(s: string)
    ensures Words(SkipSeparators(s)) == Words(s)
  {
  }

  lemma PieceEnds(s: string)
    ensures forall c :: c in FirstPiece(s) ==> !IsSeparator(c)
    ensures |FirstPiece(s)| < |s| ==> IsSeparator(s[|FirstPiece(s)|])
    ensures FirstPiece(s) == [] <==> s == [] || IsSeparator(s[0])
  {
  }

  lemma TrimNoSeparators(s: string)
    requires forall c :: c in s ==> !IsSeparator(c)
    ensures Trim(s) == s
  {
    if s != [] { assert s[0] in s && s[|s| - 1] in s; }
  }

  lemma SplitOne(s: string)
    requires |FirstPiece(s)| == |s|
    ensures Split(s) == [s] && Words(s) == if s == [] then [] else [s]
  {
    PieceEnds(s);
    assert FirstPiece(s) == s[..|s|] == s;
    assert s[|s|..] == [];
  }

  lemma WordsStep(s: string)
    requires |FirstPiece(s)| < |s|
    ensures var piece := FirstPiece(s);
      Words(s) == (if piece != "" then [piece] else []) + Words(SkipSeparators(s[|piece| + 1..]))
  {
    hide IsSeparator, FirstPiece, SkipSeparators;
    var piece := FirstPiece(s);
    PieceEnds(s);
    WordsSkip(s[|piece| + 1..]);
    assert s[|piece|..][1..] == s[|piece| + 1..];
    assert Words(s[|piece|..]) == Words(s[|piece| + 1..]);
  }

  lemma TrimsCons(piece: string, rest: seq<string>)
    requires Trim(piece) == piece
    ensures Trims([piece] + rest) == [piece] + Trims(rest) && Trims([piece]) == [piece]
  {
    hide Trim;
  }

  /** The pieces of Split are the words plus empty pieces, none of which has surrounding space. */
  lemma {:induction false} SplitWords(s: string)
    ensures Filter(Trims(Split(s)), x => x != "") == Words(s)
    decreases |s|
  {
    hide IsSeparator, FirstPiece, Trim, Words, SkipSeparators, Filter;
    var piece := FirstPiece(s);
    PieceEnds(s);
    TrimNoSeparators(piece);
    FilterOne(piece, x => x != "");
    if |piece| == |s| {
      SplitOne(s);
      TrimsCons(piece, []);
    } else {
      var rest := SkipSeparators(s[|piece| + 1..]);
      SplitWords(rest);
      TrimsCons(piece, Split(rest));
      FilterConcat([piece], Trims(Split(rest)), x => x != "");
      WordsStep(s);
    }
  }

  lemma WordsOfSpaces(s: string)
    requires forall c :: c in s ==> IsSeparator(c)
    ensures Words(s) == []
  {
  }

  /** A separator cuts the words of a text in two. */
  lemma {:induction false} WordsCut(a: string, c: char, b: string)
    requires IsSeparator(c)
    ensures Words(a + [c] + b) == Words(a) + Words(b)
    decreases |a|
  {
    hide IsSeparator, FirstPiece;
    var t := a + [c] + b;
    if a == [] {
      assert t == [c] + b && t[1..] == b;
    } else if IsSeparator(a[0]) {
      assert t[1..] == a[1..] + [c] + b;
      WordsCut(a[1..], c, b);
    } else {
      PieceOfPrefix(a, c, b);
      var piece := FirstPiece(a);
      PieceEnds(a);
      assert t[|piece|..] == a[|piece|..] + [c] + b;
      WordsCut(a[|piece|..], c, b);
    }
  }

  lemma {:induction false} PieceOfPrefix(a: string, c: char, b: string)
    requires IsSeparator(c)
    ensures FirstPiece(a + [c] + b) == FirstPiece(a)
  {
    if a != [] && !IsSeparator(a[0]) {
      assert (a + [c] + b)[1..] == a[1..] + [c] + b;
      PieceOfPrefix(a[1..], c, b);
    }
  }

  lemma TrimStartWords(s: string)
    ensures Words(TrimStart(s)) == Words(s)
  {
  }

  lemma {:induction false} TrimEndWords(s: string)
    ensures Words(TrimEnd(s)) == Words(s)
  {
    if s != [] && IsSpace(s[|s| - 1]) {
      var init := s[..|s| - 1];
      TrimEndWords(init);
      WordsCut(init, s[|s| - 1], []);
      assert init + [s[|s| - 1]] + [] == s;
    }
  }

  /** With the sentinel at `ix`, the parser returns the catalog ids among the words after it. */
  lemma ParseIsWords(message: string, ix: nat)
    requires IndexOf(message, SENTINEL) == Some(ix)
    ensures ParseAddons(message) == Filter(Words(message[ix + |SENTINEL|..]), InCatalog)
  {
    hide IndexOf, Split, Words, Filter, InCatalog, TrimStart, TrimEnd, Trims;
    var rest := message[ix + |SENTINEL|..];
    SplitWords(Trim(rest));
    TrimStartWords(rest);
    TrimEndWords(TrimStart(rest));
    NoWords();
  }

  lemma NoWords()
    ensures Words("") == [] && Filter([], InCatalog) == []
  {
  }

  // ----- round trip -----

  predicate LowerWord(s: string) {
    s != "" && forall i :: 0 <= i < |s| ==> 'a' <= s[i] <= 'z' || s[i] == '_'
  }

  lemma CatalogWord(id: string)
    requires InCatalog(id)
    ensures id != "" && forall c :: c in id ==> !IsSeparator(c)
  {
    CatalogIsLower();
  }

  lemma CatalogIsLower()
    ensures forall i :: 0 <= i < |CATALOG| ==> LowerWord(CATALOG[i])
  {
  }

  lemma OneWord(w: string)
    requires w != "" && forall c :: c in w ==> !IsSeparator(c)
    ensures FirstPiece(w) == w && Words(w) == [w]
  {
    WholePiece(w);
    assert w[|w|..] == [];
    assert !IsSeparator(w[0]);
  }

  lemma WholePiece(w: string)
    requires forall c :: c in w ==> !IsSeparator(c)
    ensures FirstPiece(w) == w
  {
    if w != [] {
      assert w[0] in w;
      WholePiece(w[1..]);
    }
  }

  lemma {:induction false} WordsOfJoin(ids: seq<string>)
    requires forall id :: id in ids ==> InCatalog(id)
    ensures Words(Join(ids, ",")) == ids
  {
    hide InCatalog, Words;
    if ids == [] {
      WordsOfSpaces("");
    } else {
      CatalogWord(ids[0]);
      OneWord(ids[0]);
      if |ids| > 1 {
        WordsOfJoin(ids[1..]);
        WordsCut(ids[0], ',', Join(ids[1..], ","));
        assert Join(ids, ",") == ids[0] + [','] + Join(ids[1..], ",");
      }
    }
  }

  /** The sentinel starts with its only '[', so no earlier match can overlap it. */
  lemma SentinelFound(prefix: string, rest: string)
    requires !Includes(prefix, SENTINEL)
    ensures IndexOf(prefix + SENTINEL + rest, SENTINEL) == Some(|prefix|)
  {
    var m := prefix + SENTINEL + rest;
    assert m[|prefix|..] == SENTINEL + rest;
    assert StartsWith(m[|prefix|..], SENTINEL);
    forall j: nat | j < |prefix| ensures !StartsWith(m[j..], SENTINEL) {
      var d := |prefix| - j;
      if d < |SENTINEL| {
        assert m[j..][d] == SENTINEL[0];
        OnlyOneBracket(d);
      } else {
        assert prefix[j..][..|SENTINEL|] == m[j..][..|SENTINEL|];
      }
    }
    FirstIndex(m, SENTINEL, |prefix|);
  }

  lemma OnlyOneBracket(d: nat)
    requires 0 < d < |SENTINEL|
    ensures SENTINEL[d] != SENTINEL[0]
  {
  }

  /**
   Any text without the sentinel, the serialized ids, then nothing or text set off by white space:
   parsing gives the known ids, each once, in first-occurrence order, followed by whatever catalog
   ids occur as words in the trailing text.
   */
  lemma ParseUndoesSerialize(prefix: string, ids: seq<string>, suffix: string)
    requires !Includes(prefix, SENTINEL) && KnownIds(ids) != []
    requires suffix == "" || IsSeparator(suffix[0])
    ensures ParseAddons(prefix + SerializeAddons(ids) + suffix) == KnownIds(ids) + Filter(Words(suffix), InCatalog)
  {
    hide InCatalog, Words, Join, ParseAddons, IndexOf, FirstOccurrences;
    var known := KnownIds(ids);
    var joined := Join(known, ",");
    var rest := [' '] + (joined + suffix);
    var m := prefix + SerializeAddons(ids) + suffix;
    SerializedForm(ids);
    assert m == prefix + SENTINEL + rest;
    SentinelFound(prefix, rest);
    ParseIsWords(m, |prefix|);
    assert m[|prefix| + |SENTINEL|..] == rest;
    WordsAfterSpace(joined + suffix);
    WordsOfJoin(known);
    WordsBeforeSuffix(joined, suffix);
    FilterKeepsAll(known, InCatalog);
    FilterConcat(known, Words(suffix), InCatalog);
  }

  lemma SerializedForm(ids: seq<string>)
    requires KnownIds(ids) != []
    ensures SerializeAddons(ids) == SENTINEL + [' '] + Join(KnownIds(ids), ",")
  {
  }

  lemma WordsAfterSpace(s: string)
    ensures Words([' '] + s) == Words(s)
  {
    assert ([' '] + s)[1..] == s;
  }

  lemma WordsBeforeSuffix(s: string, suffix: string)
    requires suffix == "" || IsSeparator(suffix[0])
    ensures Words(s + suffix) == Words(s) + Words(suffix)
  {
    if suffix == "" {
      assert s + suffix == s;
    } else {
      WordsCut(s, suffix[0], suffix[1..]);
      assert s + [suffix[0]] + suffix[1..] == s + suffix;
    }
  }

  lemma NothingParsed()
    ensures ParseAddons("") == [] && !Includes("", SENTINEL)
  {
  }

  /** The plain round trip, also when nothing known was selected. */
  lemma RoundTrip(ids: seq<string>)
    ensures ParseAddons(SerializeAddons(ids)) == KnownIds(ids)
    ensures HasAddons(SerializeAddons(ids)) <==> exists id :: id in ids && InCatalog(id)
  {
    hide InCatalog, ParseAddons, FirstOccurrences, IndexOf;
    FirstOccurrencesSound(ids);
    NothingParsed();
    forall id | id in ids && InCatalog(id) ensures id in KnownIds(ids) {
      CatalogWord(id);
    }
    if KnownIds(ids) != [] {
      ParseUndoesSerialize("", ids, "");
      assert "" + SerializeAddons(ids) + "" == SerializeAddons(ids);
      assert KnownIds(ids) + [] == KnownIds(ids);
      assert KnownIds(ids)[0] in KnownIds(ids);
    } else {
      assert SerializeAddons(ids) == "";
    }
  }

  /** The trailing text is harmless exactly when none of its words is a catalog id. */
  lemma SuffixHarmlessExactly(prefix: string, ids: seq<string>, suffix: string)
    requires !Includes(prefix, SENTINEL) && KnownIds(ids) != []
    requires suffix == "" || IsSeparator(suffix[0])
    ensures ParseAddons(prefix + SerializeAddons(ids) + suffix) == KnownIds(ids)
       <==> forall w :: w in Words(suffix) ==> !InCatalog(w)
  {
    ParseUndoesSerialize(prefix, ids, suffix);
    var extra := Filter(Words(suffix), InCatalog);
    if extra != [] {
      assert extra[0] in extra;
      assert |KnownIds(ids) + extra| > |KnownIds(ids)|;
    } else {
      assert KnownIds(ids) + extra == KnownIds(ids);
      forall w | w in Words(suffix) ensures !InCatalog(w) {
        assert w !in extra;
      }
    }
  }

  // ----- the fixed texts -----

  /** The twelve perks. */
  lemma CatalogIds(id: string)
    ensures InCatalog(id) <==> id in {
      "breakfast", "dinner", "welcome_drink", "early_checkin", "late_checkout", "airport_pickup",
      "room_upgrade", "spa_voucher", "kids_free", "minibar", "parking", "honeymoon"}
  {
  }

  /** The stored text: the sentinel, a space, the known ids with commas between; nothing when none is known. */
  lemma StoredText(ids: seq<string>)
    ensures KnownIds(ids) != [] ==> SerializeAddons(ids) == "[StayBid-Addons] " + Join(KnownIds(ids), ",")
    ensures KnownIds(ids) == [] ==> SerializeAddons(ids) == ""
    ensures forall id :: id in KnownIds(ids) <==> id in ids && InCatalog(id)
  {
    hide InCatalog, FirstOccurrences;
    FirstOccurrencesSound(ids);
    forall id | InCatalog(id) ensures id != "" { CatalogWord(id); }
    if KnownIds(ids) != [] {
      assert "[StayBid-Addons]" + " " == "[StayBid-Addons] ";
    }
  }

  /** Words end at white space and at commas, and nowhere else. */
  lemma SeparatorsAre(c: char)
    ensures IsSeparator(c) <==> c == ',' || IsSpace(c)
    ensures 'a' <= c <= 'z' || 'A' <= c <= 'Z' || '0' <= c <= '9' || c in "_-|:;.[]" ==> !IsSeparator(c)
  {
  }

  /** A message has addons exactly when a word after its first sentinel is a catalog id. */
  lemma HasAddonsExactly(prefix: string, rest: string)
    requires !Includes(prefix, SENTINEL)
    ensures HasAddons(prefix + SENTINEL + rest) <==> exists id :: id in Words(rest) && InCatalog(id)
    ensures !HasAddons(prefix)
  {
    hide IndexOf, Words, InCatalog, ParseAddons;
    SentinelFound(prefix, rest);
    var message := prefix + SENTINEL + rest;
    ParseIsWords(message, |prefix|);
    assert message[|prefix| + |SENTINEL|..] == rest;
    var known := Filter(Words(rest), InCatalog);
    if known != [] { assert known[0] in known; }
    NothingWithoutSentinel(prefix);
  }

  lemma NothingWithoutSentinel(message: string)
    requires !Includes(message, SENTINEL)
    ensures ParseAddons(message) == []
  {
  }
}
