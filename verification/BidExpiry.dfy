/** When a bid stops being active, stops being visible, and stops being payable. */
module BidExpiry {
  import opened Base
  import opened Text

  const MIN := 60000
  const HOUR := 60 * MIN
  const ACCEPTED_UNPAID_WINDOW_MS := 30 * MIN
  const USER_VIEW_FRESH_GRACE_MS := 24 * HOUR

  // ----- timestamps -----

  /** [+-]dd:?dd over the whole of `s`. */
  predicate IsOffset(s: string) {
    || (|s| == 5 && s[0] in "+-" && IsDigit(s[1]) && IsDigit(s[2]) && IsDigit(s[3]) && IsDigit(s[4]))
    || (|s| == 6 && s[0] in "+-" && IsDigit(s[1]) && IsDigit(s[2]) && s[3] == ':' && IsDigit(s[4]) && IsDigit(s[5]))
  }

  /** /[zZ]$|[+-]\d{2}:?\d{2}$/ */
  predicate HasZone(s: string) {
    || (s != [] && s[|s| - 1] in "zZ")
    || (|s| >= 5 && IsOffset(s[|s| - 5..]))
    || (|s| >= 6 && IsOffset(s[|s| - 6..]))
  }

  /** replace(" ", "T"): the first space only. */
  function SpaceToT(s: string): string {
    if s == [] then [] else if s[0] == ' ' then "T" + s[1..] else [s[0]] + SpaceToT(s[1..])
  }

  /** The text parseDbTime hands to Date; None for a blank value. */
  function Normalised(v: string): Option<string> {
    var s := Trim(v);
    if s == "" then None else Some(if HasZone(s) then s else SpaceToT(s) + "Z")
  }

  lemma TrimEndTrims(s: string)
    ensures TrimEnd(s) <= s
    ensures TrimEnd(s) == [] || !IsSpace(TrimEnd(s)[|TrimEnd(s)| - 1])
    ensures TrimEnd(s) != [] ==> s != [] && TrimEnd(s)[0] == s[0]
  {
  }

  lemma TrimStartTrims(s: string)
    ensures TrimStart(s) == [] || !IsSpace(TrimStart(s)[0])
  {
  }

  lemma TrimIsTrimmed(v: string)
    ensures Trimmed(Trim(v)) && Trim(Trim(v)) == Trim(v)
  {
    TrimStartTrims(v);
    TrimEndTrims(TrimStart(v));
  }

  lemma SpaceToTFirst(s: string)
    ensures |SpaceToT(s)| == |s|
    ensures s != [] && !IsSpace(s[0]) ==> SpaceToT(s)[0] == s[0]
  {
  }

  /** Normalising leaves a zone on every value, keeps values that had one, and is idempotent. */
  lemma NormalisedCarriesZone(v: string)
    ensures Normalised(v).Some? ==> HasZone(Normalised(v).value) && Normalised(Normalised(v).value) == Normalised(v)
    ensures Trim(v) != "" && HasZone(Trim(v)) ==> Normalised(v) == Some(Trim(v))
  {
    hide IsOffset, Trim;
    TrimIsTrimmed(v);
    var s := Trim(v);
    if s != "" && !HasZone(s) {
      SpaceToTFirst(s);
      var r := SpaceToT(s) + "Z";
      assert r[0] == s[0] && r[|r| - 1] == 'Z';
      TrimTrimmed(r);
    }
  }

  /** A zone-less value means the same with a space or with a T between date and time: both are read as UTC. */
  lemma SeparatorDoesNotMatter(date: string, time: string)
    requires date != [] && time != [] && ' ' !in date && ' ' !in time && Trimmed(date) && Trimmed(time)
    requires !HasZone(date + " " + time) && !HasZone(date + "T" + time)
    ensures Normalised(date + " " + time) == Normalised(date + "T" + time) == Some(date + "T" + time + "Z")
  {
    hide HasZone, Trim;
    var (a, b) := (date + " " + time, date + "T" + time);
    TrimTrimmed(a);
    TrimTrimmed(b);
    SpaceBecomesT(date, time);
  }

  lemma SpaceBecomesT(date: string, time: string)
    requires ' ' !in date && ' ' !in time
    ensures SpaceToT(date + " " + time) == SpaceToT(date + "T" + time) == date + "T" + time
  {
    SpaceReplaced(date, " " + time);
    SpaceReplaced(date, "T" + time);
    NoSpaceKept("T" + time);
    assert (" " + time)[1..] == time;
    assert date + " " + time == date + (" " + time) && date + "T" + time == date + ("T" + time);
  }

  lemma SpaceReplaced(a: string, b: string)
    ensures ' ' !in a ==> SpaceToT(a + b) == a + SpaceToT(b)
  {
    if a == [] {
      assert a + b == b;
    } else {
      assert (a + b)[1..] == a[1..] + b;
      SpaceReplaced(a[1..], b);
    }
  }

  lemma NoSpaceKept(s: string)
    ensures ' ' !in s ==> SpaceToT(s) == s
  {
  }

  /** What parseDbTime returns: a millisecond count or NaN. */
  datatype Time = NaN | Ms(ms: int)

  /** A timestamp field: absent (null, undefined, empty), present but unreadable, or an instant. */
  datatype Stamp = Absent | Unreadable | At(ms: int)
  {
    function Read(): Time { if At? then Ms(ms) else NaN }

    function Or(other: Stamp): Stamp { if Absent? then other else this }
  }

  /** now > t + delta, false when t is NaN. */
  predicate After(now: int, t: Time, delta: int) {
    t.Ms? && now > t.ms + delta
  }

  // ----- bids -----

  datatype Bid = Bid(
    id: string, status: string, createdAt: Stamp, updatedAt: Stamp, acceptedAt: Stamp,
    autoAcceptAt: Stamp, expiresAt: Stamp, message: string)

  predicate IsBidPaid(b: Bid) {
    Includes(b.message, "Razorpay:") || Includes(b.message, "razorpay_payment_id")
  }

  predicate IsWordChar(c: char) {
    'a' <= c <= 'z' || 'A' <= c <= 'Z' || '0' <= c <= '9' || c == '_'
  }

  /** /\bGuest bid\b/i matching at `i`. */
  predicate GuestBidAt(msg: string, i: nat) {
    && i + 9 <= |msg| && Upper(msg[i..i + 9]) == "GUEST BID"
    && (i == 0 || !IsWordChar(msg[i - 1])) && (i + 9 == |msg| || !IsWordChar(msg[i + 9]))
  }

  /** /max ₹/i matching at `i`. */
  predicate MaxRupeesAt(msg: string, i: nat) {
    i + 5 <= |msg| && Upper(msg[i..i + 5]) == "MAX \U{20B9}"
  }

  predicate IsPlaceFlow(msg: string) {
    exists i: nat :: i <= |msg| && (GuestBidAt(msg, i) || MaxRupeesAt(msg, i))
  }

  predicate IsTerminal(b: Bid) {
    Upper(b.status) == "EXPIRED" || Upper(b.status) == "CANCELLED" || Upper(b.status) == "DECLINED"
  }

  predicate IsBidExpired(b: Bid, now: int) {
    var paid := IsBidPaid(b);
    var created := b.createdAt.Read();
    if b.status == "ACCEPTED" && paid then false
    else if b.status == "CONFIRMED" && paid then false
    else if b.status == "CHECKED_IN" || b.status == "CHECKED_OUT" then false
    else if IsTerminal(b) then true
    else if created.NaN? then false
    else if b.status == "REJECTED" then After(now, b.updatedAt.Or(b.createdAt).Read(), 30 * MIN)
    else if b.status == "ACCEPTED" then
      if b.expiresAt.At? then now > b.expiresAt.ms
      else After(now, b.acceptedAt.Or(b.updatedAt).Or(b.createdAt).Read(), ACCEPTED_UNPAID_WINDOW_MS)
    else if b.status == "COUNTER" then After(now, b.updatedAt.Or(b.createdAt).Read(), 60 * MIN)
    else if b.status == "PENDING" then
      if b.autoAcceptAt.At? then now > b.autoAcceptAt.ms + 15 * MIN
      else if b.expiresAt.At? then now > b.expiresAt.ms
      else now - created.ms > (if IsPlaceFlow(b.message) then 1 * HOUR else 3 * HOUR)
    else false
  }

  predicate IsUserVisible(b: Bid, now: int) {
    || (!IsTerminal(b) && b.createdAt.At? && now - b.createdAt.ms < USER_VIEW_FRESH_GRACE_MS)
    || !IsBidExpired(b, now)
  }

  function FilterActiveBids(bids: seq<Bid>, now: int): seq<Bid> {
    Filter(bids, b => !IsBidExpired(b, now))
  }

  function FilterUserVisibleBids(bids: seq<Bid>, now: int): seq<Bid> {
    Filter(bids, b => IsUserVisible(b, now))
  }

  predicate IsBidPayWindowOpen(b: Bid, now: int) {
    if b.status != "ACCEPTED" || IsBidPaid(b) then false
    else if b.expiresAt.At? then now <= b.expiresAt.ms
    else
      var acc := b.acceptedAt.Or(b.updatedAt).Or(b.createdAt).Or(At(0)).Read();
      acc.Ms? && acc.ms > 0 && now <= acc.ms + ACCEPTED_UNPAID_WINDOW_MS
  }

  // ----- expiry is a threshold in time -----

  datatype Deadline = Never | Always | Past(ms: int)

  predicate Reached(d: Deadline, now: int) {
    match d
    case Never => false
    case Always => true
    case Past(ms) => now > ms
  }

  function DeadlineFrom(t: Time, delta: int): Deadline {
    match t case NaN => Never case Ms(ms) => Past(ms + delta)
  }

  /** The one instant after which a bid is expired. */
  function DeadlineOf(b: Bid): Deadline {
    var created := b.createdAt.Read();
    if ((b.status == "ACCEPTED" || b.status == "CONFIRMED") && IsBidPaid(b))
       || b.status == "CHECKED_IN" || b.status == "CHECKED_OUT" then Never
    else if IsTerminal(b) then Always
    else if created.NaN? then Never
    else if b.status == "REJECTED" then DeadlineFrom(b.updatedAt.Or(b.createdAt).Read(), 30 * MIN)
    else if b.status == "ACCEPTED" then
      if b.expiresAt.At? then Past(b.expiresAt.ms)
      else DeadlineFrom(b.acceptedAt.Or(b.updatedAt).Or(b.createdAt).Read(), ACCEPTED_UNPAID_WINDOW_MS)
    else if b.status == "COUNTER" then DeadlineFrom(b.updatedAt.Or(b.createdAt).Read(), 60 * MIN)
    else if b.status == "PENDING" then
      if b.autoAcceptAt.At? then Past(b.autoAcceptAt.ms + 15 * MIN)
      else if b.expiresAt.At? then Past(b.expiresAt.ms)
      else Past(created.ms + (if IsPlaceFlow(b.message) then 1 * HOUR else 3 * HOUR))
    else Never
  }

  /** Every bid is expired exactly after its deadline. */
  lemma ExpiryIsThreshold(b: Bid)
    ensures forall now :: IsBidExpired(b, now) <==> Reached(DeadlineOf(b), now)
  {
    hide IsBidPaid, IsPlaceFlow;
  }

  /** Once expired always expired; once hidden from the customer always hidden. */
  lemma ExpiryIsOneWay(b: Bid, t1: int, t2: int)
    requires t1 <= t2
    ensures IsBidExpired(b, t1) ==> IsBidExpired(b, t2)
    ensures !IsUserVisible(b, t1) ==> !IsUserVisible(b, t2)
    ensures !IsBidPayWindowOpen(b, t1) ==> !IsBidPayWindowOpen(b, t2)
  {
    hide IsBidExpired, IsBidPaid, DeadlineOf;
    ExpiryIsThreshold(b);
  }

  /** The active list and the visible list only ever lose bids, and keep their order. */
  lemma ListsOnlyShrink(bids: seq<Bid>, t1: int, t2: int)
    requires t1 <= t2
    ensures FilterActiveBids(bids, t2) == FilterActiveBids(FilterActiveBids(bids, t1), t2)
    ensures FilterUserVisibleBids(bids, t2) == FilterUserVisibleBids(FilterUserVisibleBids(bids, t1), t2)
  {
    forall b | b in bids
      ensures !IsBidExpired(b, t2) ==> !IsBidExpired(b, t1)
      ensures IsUserVisible(b, t2) ==> IsUserVisible(b, t1)
    {
      ExpiryIsOneWay(b, t1, t2);
    }
    hide IsBidExpired, IsUserVisible;
    FilterAbsorbs(bids, b => !IsBidExpired(b, t2), b => !IsBidExpired(b, t1));
    FilterAbsorbs(bids, b => IsUserVisible(b, t2), b => IsUserVisible(b, t1));
  }

  /** Active bids are the user-visible bids filtered once more: a subsequence of them. */
  lemma ActiveAmongVisible(bids: seq<Bid>, now: int)
    ensures FilterActiveBids(bids, now) == FilterActiveBids(FilterUserVisibleBids(bids, now), now)
  {
    hide IsBidExpired;
    FilterAbsorbs(bids, b => !IsBidExpired(b, now), b => IsUserVisible(b, now));
  }

  // ----- paying and expiring -----

  lemma AcceptedIsNotTerminal(b: Bid)
    ensures b.status == "ACCEPTED" ==> !IsTerminal(b)
  {
    if b.status == "ACCEPTED" { assert Upper(b.status)[0] == 'A'; }
  }

  /** A bid that can still be paid is never reported as expired. */
  lemma OpenMeansNotExpired(b: Bid, now: int)
    ensures IsBidPayWindowOpen(b, now) ==> !IsBidExpired(b, now)
  {
    hide IsBidPaid;
    AcceptedIsNotTerminal(b);
  }

  /** createdAt readable, and a readable expiresAt or a readable base after the epoch. */
  predicate HasSoundDeadline(b: Bid) {
    var base := b.acceptedAt.Or(b.updatedAt).Or(b.createdAt);
    b.createdAt.At? && (b.expiresAt.At? || (base.At? && base.ms > 0))
  }

  /**
   For accepted unpaid bids "payable" and "expired" are complementary at every instant exactly for
   sound deadlines.
   */
  lemma PayableIsNotExpiredExactly(b: Bid)
    requires b.status == "ACCEPTED" && !IsBidPaid(b)
    ensures (forall now :: IsBidPayWindowOpen(b, now) <==> !IsBidExpired(b, now)) <==> HasSoundDeadline(b)
  {
    hide IsBidPaid;
    AcceptedIsNotTerminal(b);
    var base := b.acceptedAt.Or(b.updatedAt).Or(b.createdAt);
    if !HasSoundDeadline(b) {
      if b.createdAt.At? {
        if base.At? {
          assert !IsBidPayWindowOpen(b, base.ms) && !IsBidExpired(b, base.ms);
        } else {
          assert !IsBidPayWindowOpen(b, 0) && !IsBidExpired(b, 0);
        }
      } else {
        var late := if b.expiresAt.At? then b.expiresAt.ms + 1
                    else if base.At? then base.ms + ACCEPTED_UNPAID_WINDOW_MS + 1 else 0;
        assert !IsBidPayWindowOpen(b, late) && !IsBidExpired(b, late);
      }
    }
  }

  // ----- the rules in times and texts -----

  /**
   A payment stamp anywhere in the message makes an ACCEPTED or CONFIRMED bid a booking for good: never
   expired, always visible and listed, and no longer to be paid.
   */
  lemma PaidStaysOn(b: Bid, prefix: string, suffix: string, now: int, before: seq<Bid>, after: seq<Bid>)
    requires b.status == "ACCEPTED" || b.status == "CONFIRMED"
    requires b.message == prefix + "Razorpay:" + suffix || b.message == prefix + "razorpay_payment_id" + suffix
    ensures !IsBidExpired(b, now) && IsUserVisible(b, now) && !IsBidPayWindowOpen(b, now)
    ensures b in FilterActiveBids(before + [b] + after, now) && b in FilterUserVisibleBids(before + [b] + after, now)
  {
    StandsIn(prefix, "Razorpay:", suffix);
    StandsIn(prefix, "razorpay_payment_id", suffix);
    assert b in before + [b] + after;
  }

  /** An ACCEPTED bid with neither stamp is due at expiresAt, else 30 minutes after its latest known time. */
  lemma UnpaidIsDue(b: Bid, now: int)
    requires b.status == "ACCEPTED" && b.createdAt.At?
    requires !Includes(b.message, "Razorpay:") && !Includes(b.message, "razorpay_payment_id")
    ensures b.expiresAt.At? ==>
      (IsBidExpired(b, now) <==> now > b.expiresAt.ms) && (IsBidPayWindowOpen(b, now) <==> now <= b.expiresAt.ms)
    ensures !b.expiresAt.At? ==>
      var base := if !b.acceptedAt.Absent? then b.acceptedAt
                  else if !b.updatedAt.Absent? then b.updatedAt else b.createdAt;
      && (IsBidExpired(b, now) <==> base.At? && now > base.ms + 1800000)
      && (IsBidPayWindowOpen(b, now) <==> base.At? && base.ms > 0 && now <= base.ms + 1800000)
  {
    AcceptedIsNotTerminal(b);
  }

  /** The other states, for a bid whose createdAt can be read. */
  lemma OtherStatesAreDue(b: Bid, now: int)
    requires b.createdAt.At?
    ensures b.status in ["EXPIRED", "expired", "CANCELLED", "cancelled", "DECLINED", "declined"]
            ==> IsBidExpired(b, now) && !IsUserVisible(b, now)
    ensures b.status in ["CHECKED_IN", "CHECKED_OUT"] ==> !IsBidExpired(b, now)
    ensures var touched := if b.updatedAt.Absent? then b.createdAt else b.updatedAt;
      && (b.status == "REJECTED" ==> (IsBidExpired(b, now) <==> touched.At? && now > touched.ms + 1800000))
      && (b.status == "COUNTER" ==> (IsBidExpired(b, now) <==> touched.At? && now > touched.ms + 3600000))
  {
    hide IsBidPaid, IsPlaceFlow;
    StateSpellings();
  }

  /** PENDING: 15 minutes after the automatic answer, else expiresAt, else one hour (guest bids) or three. */
  lemma PendingIsDue(b: Bid, now: int)
    requires b.status == "PENDING" && b.createdAt.At?
    ensures IsBidExpired(b, now) <==>
      now > (if b.autoAcceptAt.At? then b.autoAcceptAt.ms + 900000
             else if b.expiresAt.At? then b.expiresAt.ms
             else b.createdAt.ms + (if IsPlaceFlow(b.message) then 3600000 else 10800000))
  {
    hide IsBidPaid, IsPlaceFlow;
    StateSpellings();
  }

  /** Without a readable createdAt only the final states expire. */
  lemma UndatedNeverExpires(b: Bid, now: int)
    requires !b.createdAt.At?
    requires b.status in ["PENDING", "ACCEPTED", "COUNTER", "CONFIRMED", "REJECTED", "CHECKED_IN", "CHECKED_OUT"]
    ensures !IsBidExpired(b, now) && IsUserVisible(b, now)
  {
    hide IsBidPaid, IsPlaceFlow;
    StateSpellings();
  }

  /** The customer sees a live bid for 24 hours from its creation, and then as long as it is not expired. */
  lemma VisibleForADay(b: Bid, now: int)
    requires b.status in ["PENDING", "ACCEPTED", "COUNTER", "CONFIRMED", "REJECTED"] && b.createdAt.At?
    ensures IsUserVisible(b, now) <==> now < b.createdAt.ms + 86400000 || !IsBidExpired(b, now)
  {
    hide IsBidPaid, IsPlaceFlow, IsBidExpired;
    StateSpellings();
  }

  lemma ExpiredSpelling()
    ensures Upper("expired") == "EXPIRED" && Upper("EXPIRED") == "EXPIRED"
  {
  }

  lemma CancelledSpelling()
    ensures Upper("cancelled") == "CANCELLED" && Upper("CANCELLED") == "CANCELLED"
  {
  }

  lemma DeclinedSpelling()
    ensures Upper("declined") == "DECLINED" && Upper("DECLINED") == "DECLINED"
  {
  }

  lemma LiveSpelling(s: string)
    requires s in ["PENDING", "ACCEPTED", "COUNTER", "CONFIRMED", "REJECTED", "CHECKED_IN", "CHECKED_OUT"]
    ensures Upper(s) != "EXPIRED" && Upper(s) != "CANCELLED" && Upper(s) != "DECLINED"
  {
    assert Upper(s)[0] == UpperChar(s[0]) && Upper(s)[1] == UpperChar(s[1]);
  }

  lemma StateSpellings()
    ensures forall s :: s in ["EXPIRED", "expired"] ==> Upper(s) == "EXPIRED"
    ensures forall s :: s in ["CANCELLED", "cancelled"] ==> Upper(s) == "CANCELLED"
    ensures forall s :: s in ["DECLINED", "declined"] ==> Upper(s) == "DECLINED"
    ensures forall s ::
      s in ["PENDING", "ACCEPTED", "COUNTER", "CONFIRMED", "REJECTED", "CHECKED_IN", "CHECKED_OUT"] ==>
      Upper(s) != "EXPIRED" && Upper(s) != "CANCELLED" && Upper(s) != "DECLINED"
  {
    hide Upper;
    ExpiredSpelling();
    CancelledSpelling();
    DeclinedSpelling();
    forall s | s in ["PENDING", "ACCEPTED", "COUNTER", "CONFIRMED", "REJECTED", "CHECKED_IN", "CHECKED_OUT"]
      ensures Upper(s) != "EXPIRED" && Upper(s) != "CANCELLED" && Upper(s) != "DECLINED"
    {
      LiveSpelling(s);
    }
  }

  /** A guest bid is recognised by the words "Guest bid", in any case and as whole words, or by "max \U{20B9}". */
  lemma PlaceFlowTexts(prefix: string, mark: string, suffix: string)
    ensures Upper(mark) == "GUEST BID" ==>
      (prefix == "" || !IsWordChar(prefix[|prefix| - 1])) && (suffix == "" || !IsWordChar(suffix[0])) ==>
        IsPlaceFlow(prefix + mark + suffix)
    ensures Upper(mark) == "MAX \U{20B9}" ==> IsPlaceFlow(prefix + mark + suffix)
  {
    var msg := prefix + mark + suffix;
    if Upper(mark) == "GUEST BID" {
      assert msg[|prefix|..|prefix| + 9] == mark;
      if prefix != "" { assert msg[|prefix| - 1] == prefix[|prefix| - 1]; }
      if suffix != "" { assert msg[|prefix| + 9] == suffix[0]; }
      if (prefix == "" || !IsWordChar(prefix[|prefix| - 1])) && (suffix == "" || !IsWordChar(suffix[0])) {
        assert GuestBidAt(msg, |prefix|);
      }
    } else if Upper(mark) == "MAX \U{20B9}" {
      assert msg[|prefix|..|prefix| + 5] == mark;
      assert MaxRupeesAt(msg, |prefix|);
    }
  }

  /** "Guest bid" inside a word, as in "Guest bidder", is no guest bid. */
  lemma NoGuestBidInsideAWord(prefix: string, suffix: string)
    requires forall c :: c in prefix + suffix ==> UpperChar(c) != 'G' && c != '\U{20B9}'
    requires (prefix != "" && IsWordChar(prefix[|prefix| - 1])) || (suffix != "" && IsWordChar(suffix[0]))
    ensures !IsPlaceFlow(prefix + "Guest bid" + suffix)
  {
    var (msg, k) := (prefix + "Guest bid" + suffix, |prefix|);
    forall i: nat | i < |msg| ensures (UpperChar(msg[i]) == 'G' ==> i == k) && msg[i] != '\U{20B9}' {
      if k <= i < k + 9 { assert msg[i] == "Guest bid"[i - k]; }
      else { assert msg[i] in prefix + suffix by { OneOfTwo(prefix, suffix, i); } }
    }
    assert k > 0 ==> msg[k - 1] == prefix[k - 1];
    assert suffix != "" ==> msg[k + 9] == suffix[0];
    forall i: nat | i <= |msg| ensures !GuestBidAt(msg, i) && !MaxRupeesAt(msg, i) {
      if i + 9 <= |msg| { assert Upper(msg[i..i + 9])[0] == UpperChar(msg[i]); }
      if i + 5 <= |msg| { assert Upper(msg[i..i + 5])[4] == UpperChar(msg[i + 4]); }
    }
  }

  lemma OneOfTwo(prefix: string, suffix: string, i: nat)
    requires i < |prefix| || |prefix| + 9 <= i < |prefix| + 9 + |suffix|
    ensures (prefix + "Guest bid" + suffix)[i] in prefix + suffix
  {
    assert i >= |prefix| ==> (prefix + suffix)[i - 9] == (prefix + "Guest bid" + suffix)[i];
    assert i < |prefix| ==> (prefix + suffix)[i] == (prefix + "Guest bid" + suffix)[i];
  }

  /** Digits, capital letters, the underscore and small letters, by their character codes. */
  lemma WordCharacters(c: char)
    ensures IsWordChar(c) <==>
      var code := c as int;
      (48 <= code && code <= 57) || (65 <= code && code <= 90) || code == 95 || (97 <= code && code <= 122)
  {
  }

  /** A sign and four digits at the end, with or without a colon in the middle, are a zone; other ends but Z are not. */
  lemma OffsetTexts(p: string, x: char, a: char, b: char, c: char, d: char)
    requires d != 'z' && d != 'Z'
    ensures var offset := (x == '+' || x == '-') && IsDigit(a) && IsDigit(b) && IsDigit(c) && IsDigit(d);
      && (b != ':' ==> (HasZone(p + [x, a, b, c, d]) <==> offset))
      && (HasZone(p + [x, a, b, ':', c, d]) <==> offset)
  {
    OffsetShapes(x, a, b, c, d);
    hide IsOffset, IsDigit, HasZone;
    if b != ':' { ShortEnd(p, [x, a, b, c, d]); }
    LongEnd(p, [x, a, b, ':', c, d]);
    assert [x, a, b, ':', c, d][1..] == [a, b, ':', c, d];
  }

  lemma ShortEnd(p: string, end: string)
    requires |end| == 5 && end[4] != 'z' && end[4] != 'Z' && end[2] != ':'
    ensures HasZone(p + end) <==> IsOffset(end)
  {
    var s := p + end;
    assert s[|s| - 5..] == end;
    if p != [] {
      var six := s[|s| - 6..];
      assert six[3] == end[2];
      OffsetColon(six);
    }
    hide IsOffset;
  }

  lemma LongEnd(p: string, end: string)
    requires |end| == 6 && end[5] != 'z' && end[5] != 'Z' && !IsOffset(end[1..])
    ensures HasZone(p + end) <==> IsOffset(end)
  {
    hide IsOffset;
    var s := p + end;
    assert s[|s| - 6..] == end && s[|s| - 5..] == end[1..];
  }

  lemma OffsetShapes(x: char, a: char, b: char, c: char, d: char)
    ensures var offset := (x == '+' || x == '-') && IsDigit(a) && IsDigit(b) && IsDigit(c) && IsDigit(d);
      && IsOffset([x, a, b, c, d]) == offset && IsOffset([x, a, b, ':', c, d]) == offset
    ensures !IsOffset([a, b, ':', c, d])
  {
  }

  lemma OffsetColon(s: string)
    requires |s| == 6 && s[3] != ':'
    ensures !IsOffset(s)
  {
  }

  /** A final Z, small or capital, is a zone; four characters or fewer hold no other. */
  lemma ZoneLetter(p: string, c: char)
    ensures c == 'z' || c == 'Z' ==> HasZone(p + [c])
    ensures HasZone(p + [c]) && |p| < 4 ==> c == 'z' || c == 'Z'
  {
  }

  /** Both lists hold exactly the bids their rule keeps, in the given order. */
  lemma ListsExact(bids: seq<Bid>, more: seq<Bid>, b: Bid, now: int)
    ensures b in FilterActiveBids(bids, now) <==> b in bids && !IsBidExpired(b, now)
    ensures b in FilterUserVisibleBids(bids, now) <==> b in bids && IsUserVisible(b, now)
    ensures FilterActiveBids(bids + more, now) == FilterActiveBids(bids, now) + FilterActiveBids(more, now)
    ensures FilterUserVisibleBids(bids + more, now)
         == FilterUserVisibleBids(bids, now) + FilterUserVisibleBids(more, now)
  {
    hide IsBidExpired, IsUserVisible;
    FilterConcat(bids, more, b => !IsBidExpired(b, now));
    FilterConcat(bids, more, b => IsUserVisible(b, now));
  }
}
