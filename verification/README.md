# StayBid: inventory, handshake, bid lifecycle and pricing, modelled and proved

StayBid is a reverse-auction hotel application. This project models the self-contained logic in its `lib/` directory and in two components, and proves what that logic is for. `dafny verify dfyconfig.toml` checks everything.

| file | what it covers |
|---|---|
| `Calendar.dfy` | Gregorian dates, their `YYYY-MM-DD` text, night enumeration, range overlap, weekdays |
| `Availability.dfy` | occupations from bids and blocks, nightly load, free units, double-booked units, occupied nights |
| `InventoryRun.dfy` | runs of guarded placements, status changes, imported and removed blocks |
| `ChannelSync.dfy` | one import run of an OTA feed: new events become blocks, cancelled ones are deleted |
| `ICal.dfy` | the iCal reader against a printer with arbitrary folding (section 3.1 of RFC 5545) |
| `Base64Url.dfy`, `QueryString.dfy`, `AuthBroker.dfy` | the sign-in broker handshake (section 5 of RFC 4648; form-urlencoded query strings) |
| `BidExpiry.dfy`, `BidCooldown.dfy`, `AutoCancel.dfy` | expiry, visibility, payability and cooldown of bids; the payment countdown as steps over browser storage |
| `HotelAffinity.dfy`, `MarketFit.dfy` | the 8-entry trail, preference weights, candidate ranking, cohort ranks |
| `CounterAddons.dfy` | perks serialized into a message and parsed back |
| `LuxuryCalendar.dfy`, `CalendarScope.dfy` | the date-range picker, the month grid, per-scope day prices |
| `Commission.dfy`, `AiPricing.dfy`, `Autopilot.dfy`, `Catalog.dfy` | commission slabs, dynamic prices, automated decisions, minimal room counts |
| `Base.dfy`, `Text.dfy`, `Sorting.dfy` | shared helpers: options, filtering, JavaScript string operations, a stable sort |

## How the code is represented

Loops and in-place updates are methods and classes proved against specification functions or quantified properties; expression-like code is functions with lemmas. Nights are day numbers, and `Calendar.TextOrderIsChronological` and `Availability.TextTestsAgree` justify that for the stored texts. Instants are integer milliseconds; prices, ratios and multipliers are reals; `NaN` and `Infinity` are datatype cases. `Math.round(x)` is `floor(x + 1/2)`. Query results, clock readings and random bytes are parameters. JavaScript's stable `sort` is the insertion sort of `Sorting.dfy`, about which permutation, sortedness and stability are proved. Each action of the countdown reads the clock once.

Beside each function whose body is a table, a threshold or a character class, a small lemma writes it out in figures, so that the claims built on it do not rest on its name alone: `OccupancyBands`, `LabelsByScore`, `WindowDays` (AiPricing), `TiersByAverage`, `Delays`, `DelayByMode`, `DefaultBand`, `RatiosInOrder`, `RanksInOrder` (Autopilot), `CapacityTable`, `PartiesAndRooms` (Catalog), `CatalogIds`, `SeparatorsAre` (CounterAddons), `WordCharacters`, `ZoneLetter` (BidExpiry), `MarksRecord` (AutoCancel), `MonthLengths`, `NoDateElse` (Calendar), `AlphabetInOrder`, `KnownVector` (Base64Url), `HexValues`, `LooseDecoding`, `FirstValueCounts` (QueryString), `EveryForm` (ICal), `PassingSteps`, `WantsItsNights` (InventoryRun), `SpacesAre`, `UpperCase`, `JoinedParts` (Text).

## What the proofs found

- The placement guard fails open without a capacity signal, and a room with no active units and quantity 0 counts as having none (`InventoryRun.GuardExact`, `Availability.Capacity`).
- PENDING bids are not counted by the guard, so two bids placed under it can both be accepted later on the last unit (`InventoryRun.LateAcceptOversells`). Asking the guard again at the accept is exactly the missing check, and runs that do so never oversell (`InventoryRun.LateAcceptExact`, `InventoryRun.RecheckedRunsNeverOversell`).
- At the exact instant of expiry the countdown already says "expired" while the pay button is still open; at every other instant they agree, so the comment about lockstep in `components/AcceptedBidTimer.tsx:63-71` is off by that instant (`AutoCancel.TimerAndPayButton`).
- The comment at `lib/ai-pricing.ts:421` says the flash price is never below the base; the code floors it at 85 percent of the base, and a base of 1000 in a flat market gives 900 (`AiPricing.FlashBelowBase`). `AiPricing.FlashReachesBaseExactly` gives the exact condition, in base and multiplier, under which the suggestion does reach the base. It can also exceed the live price, for bases in three small bands below 300 (`AiPricing.FlashExact`, `AiPricing.FlashSafeBases`).
- A dearer base can sell for less, because the hourly variation depends on the base modulo 100 (`AiPricing.DearerBaseCanBeCheaper`); `AiPricing.PriceMonotoneInBaseExactly` says exactly for which pairs of bases this can happen under a given clamp.
- The header of `lib/channels/sync.ts` calls the import idempotent by UID; it is, but a booking moved under its UID keeps its old nights (`ChannelSync.MovedBookingStays`, `ChannelSync.DatesMatchExactly`), and a feed that repeats a new UID gets it twice (`ChannelSync.DistinctAfterExactly`).
- The comment at `lib/counter-addons.ts:67-69` says only the first token block is read; the code reads every word after the sentinel (`CounterAddons.ParseUndoesSerialize`, `CounterAddons.SuffixHarmlessExactly`).
- A released cooldown can come back when there are several bids (`BidCooldown.ReleaseCanReturn`); `BidCooldown.ReleaseFinalExactly` says exactly when it cannot.
- One more counted bid can lower a bidder's tier (`Autopilot.FirstBidCanDrop`); `Autopilot.NewBidKeepsTierExactly` gives the exact bound on its ratio.
- The header comment of `lib/bid-expiry.ts` still describes a 15-minute window and a midnight cutoff; the model follows the code (30 minutes, no cutoff).

## Model

| member | source | states |
|---|---|---|
| Calendar.TextOrderIsChronological | lib/availability.ts:24-27 | comparing two `YYYY-MM-DD` texts is comparing their days, over month ends, year ends and leap days |
| Calendar.NextDayNumber | lib/availability.ts:13-15 | stepping a date to its successor advances the running day count by exactly one, at every month end and leap day |
| Calendar.YearsInFigures | lib/availability.ts:13-15 | the days before a year are 365 a year and one for each earlier multiple of 4, less those of 100, plus those of 400 |
| Calendar.CycleOf400 | lib/ai-pricing.ts:226-228 | 400 years are 146097 days, so weekdays repeat with them; with `KnownDay` every weekday is fixed |
| Calendar.TextOfDate | lib/availability.ts:14 | the text of a date, digit by digit |
| Calendar.EnumerateDates | lib/availability.ts:9-17 | the loop yields the texts of the consecutive days of [from, to), and nothing when a bound is not a date |
| Calendar.NightsExact | lib/availability.ts:9-17 | the enumeration contains exactly the dates from <= x < to in text order, strictly increasing |
| Calendar.OverlapMeansSharedNight | lib/availability.ts:24-27 | for non-empty ranges the overlap test holds exactly when the two enumerations share a night |
| Availability.TextTestsAgree | lib/availability.ts:118-121 | the text comparisons for covering a night and for overlap are the ones on day numbers |
| Availability.GetOccupations | lib/availability.ts:68-176 | the two passes append one occupation per blocking bid with overlapping dates and per overlapping block, in table order |
| Availability.NothingDropped | lib/availability.ts:110-173 | status and overlap filters lose no unit held on a queried night: the load over the fetched list is the load over the whole tables |
| Availability.FetchedIsARow | lib/availability.ts:110-173 | every occupation carries dates, hotel, room, id and unit of one bid or block of its own, and max(1, rooms), one for a block |
| InventoryRun.LoadRowByRow | lib/availability.ts:118-143 | empty tables hold nothing; one more bid adds max(1, rooms) on each night of its stay when it is ACCEPTED, COUNTER, CONFIRMED or CHECKED_IN, else nothing; one more block adds one unit on each of its nights |
| InventoryRun.LifecycleOfAStay | lib/availability.ts:118-128 | from ACCEPTED or COUNTER through CONFIRMED to CHECKED_IN a stay holds the same units on every night; entering one of these states from any other adds exactly its units, and leaving them gives exactly those back |
| InventoryRun.SalesRowByRow | lib/availability.ts:275-293 | the same row by row for the sales of one unit |
| Availability.FetchedHoldsANight | lib/availability.ts:110-173 | every fetched stay of at least a night is of the hotel and room asked for and covers a night of the range |
| Availability.OccupationsToDateSet | lib/availability.ts:183-190 | the set holds exactly the nights some occupation of the room covers |
| Availability.OccupiedMeansLoaded | lib/availability.ts:183-190 | those nights are exactly the ones on which the room's load is positive |
| Availability.PeakOccupied | lib/availability.ts:246-255 | the night-by-night scan computes the maximum nightly load |
| Availability.UnitsFreeForRange | lib/availability.ts:211-258 | occupied is the exact maximum over the range of the load in the tables, attained on some night; free is what capacity leaves, never negative; None for every missing signal |
| InventoryRun.OnlyBidReported | lib/availability.ts:211-258 | for a table of one dated bid: its units when it is in one of the four holding states and shares a night with the range, else none, and the rest free |
| InventoryRun.NoAnswerExactly | lib/availability.ts:217-241 | there is no answer exactly without a hotel, a room, a night or a capacity |
| InventoryRun.CapacitySignal | lib/availability.ts:219-241 | active units count when there are any, else a positive room quantity, else there is no signal |
| Availability.PeakOfTables | lib/availability.ts:244-257 | the peak bounds every night of the tables and is reached on one of them |
| Availability.SweepFindsPeak | lib/availability.ts:244-257 | the peak is attained on the check-in night or on an arrival inside the range, so a sweep over those points gives the same peak |
| Availability.UnitDoubleBooked | lib/availability.ts:275-293 | true exactly when two assigned stays, or one of several rooms, clash on clipped intervals; equivalently when some night is sold more than once in the tables |
| Availability.ClashNight | lib/availability.ts:285-291 | the pairwise clipped-interval test is the existence of a shared night inside the range |
| Availability.ClashIsSoldTwice | lib/availability.ts:283-292 | the test on the fetched assigned stays sees every sale of the unit recorded in the tables |
| InventoryRun.AdmissionFits | app/api/bids/place/route.ts:326-340 | with known capacity an admitted bid leaves each night it takes within capacity |
| InventoryRun.GuardExact | app/api/bids/place/route.ts:326-340 | the guard admits exactly when capacity is unknown or every night of the stay has room for the requested rooms |
| InventoryRun.NoGuardedOversell | lib/availability.ts:192-258 | over every run of placements, status changes, rewritten or flash-inserted bids, imported and removed blocks, a night exceeds capacity by no more than the units put on it by steps the guard did not or would not admit |
| InventoryRun.UnguardedExactly | lib/availability.ts:192-258 | the units counted against the guard are exactly those a step adds to the night when it is neither a placement nor an accept the guard would admit |
| InventoryRun.GuardedRunsAddNothing | lib/availability.ts:192-258 | runs of placements and removed blocks have nothing unguarded, so the bound of the row above is the capacity itself |
| InventoryRun.RecheckedRunsNeverOversell | lib/availability.ts:192-258 | runs of placements, removals and status changes in which each accept is one the guard admits at that moment never take a night above capacity |
| InventoryRun.FullNightReportsNothingFree | lib/availability.ts:244-257 | any range holding a night at or over capacity reports free = 0 |
| InventoryRun.ReleasesExactly | lib/availability.ts:244-257 | a step counts as releasing something on a night exactly when the units held that night fall |
| InventoryRun.FullNightStaysShut | lib/availability.ts:244-257 | through any run that releases nothing on a full night, the night stays full and every bid wanting it is refused |
| InventoryRun.LateAcceptExact | lib/availability.ts:118-126 | accepting a bid that held nothing leaves every night of its stay within capacity exactly when the guard, asked again, would admit it |
| InventoryRun.LateAcceptOversells | lib/availability.ts:118-126 | the failing run: PENDING bids are not counted, so two guarded placements and two unchecked accepts oversell the last unit |
| ICal.ParseICal | lib/availability.ts:296-319 | the line loop returns the reading of the unfolded, split text |
| ICal.UnfoldingRecoversLines | lib/availability.ts:299-301 | whatever folds and line ends are used, unfolding and splitting recover the logical lines |
| ICal.DateRead | lib/availability.ts:321-326 | compact or dashed dates, after any lead without a digit and before any tail, are read back as the dashed date |
| ICal.ReadingUndoesPrinting | lib/availability.ts:296-326 | printing a calendar and reading it gives back every event in order, each with its UID, dates and summary or without them: any of the four may be missing or repeated (the last one counts), in any order, in any case of names, with parameters, padding and other lines between, events cut off before their end among them, and folds anywhere |
| ICal.DatesHaveShape | lib/availability.ts:321-326 | whatever the text, a date that is read is four, two and two digits with dashes |
| ICal.NoLineFeed | lib/availability.ts:299-301 | a text without a line feed is one line, unchanged |
| ChannelSync.Sync | lib/channels/sync.ts:265-423 | the import run, with batch or row-by-row insert and chunked deletes by id, leaves the rows that are not cancelled followed by the rows the table accepted, and fails without a change on a missing, foreign or unreadable feed |
| ChannelSync.SyncedUnrefused | lib/channels/sync.ts:311-372 | when the table refuses nothing, a readable feed leaves the kept rows and one new row for each missing event: the table of the rows below |
| ChannelSync.RowsAfterExactly | lib/channels/sync.ts:307-372 | row by row: deleted are exactly the feed's own OTA rows not ended before today whose UID the feed no longer names, added exactly one row per missing event, with the feed's hotel, room and unit and the event's dates and UID |
| ChannelSync.ImportHoldsTheNights | lib/channels/sync.ts:307-333 | on every night the feed's room holds one unit more for each missing event covering it and every other hotel or room what its kept rows hold; a feed of one unit sells that unit as often again, and no other |
| ChannelSync.BookingsAreTheFirst | lib/channels/sync.ts:281-303 | the import takes the first 500 usable events, so all of them when there are no more |
| ChannelSync.LiveUidsExactly | lib/channels/sync.ts:311-405 | afterwards nothing is live that the feed does not name; live UIDs and feed UIDs coincide exactly when each stored UID of the feed has a live block and each new one an event not yet past |
| ChannelSync.DatesMatchExactly | lib/channels/sync.ts:311-405 | afterwards blocks and events agree on dates exactly when no stored UID changed its dates |
| ChannelSync.MovedBookingStays | lib/channels/sync.ts:311-405 | the failing input: a booking moved under its UID keeps its old nights |
| ChannelSync.SecondSyncOnlyRetries | lib/channels/sync.ts:334-343 | whatever was refused, a second sync with the same events, then or later, removes nothing and offers only events refused before |
| ChannelSync.SyncIsIdempotent | lib/channels/sync.ts:10 | with nothing refused, syncing the same events again changes nothing |
| ChannelSync.NeverImportedTwice | lib/channels/sync.ts:307-333 | over every run of syncs of feeds that list each UID once, no feed gets two rows for one UID |
| ChannelSync.DistinctAfterExactly | lib/channels/sync.ts:307-333 | one unrefused sync keeps UIDs unique exactly when its new events repeat none |
| ChannelSync.FirstSyncImportsCalendar | lib/channels/sync.ts:281-333 | a new feed that prints a calendar, however arranged and folded, gets exactly its importable events as blocks, in order and at most 500, unless a fold breaks the opening line the import looks for |
| ChannelSync.SyncIsRun | lib/channels/sync.ts:345-423 | on the inventory a sync is a run of imports and removals, so the bounds on runs apply to it |
| Base64Url.BytesOfSextets | lib/auth-broker.ts:61-67 | decoding the sextets of any byte sequence gives the bytes back |
| Base64Url.SextetsOfBytes | lib/auth-broker.ts:61-67 | encoding the bytes of any canonical sextet sequence gives the sextets back |
| Base64Url.SameBits | lib/auth-broker.ts:61-67 | three bytes and their four sextets are the same 24-bit number, and shorter groups are filled with zero bits |
| Base64Url.PipelineIsEncode | lib/auth-broker.ts:64-66 | btoa, the two replacements and the padding strip together compute base64url |
| QueryString.OddPieces | lib/auth-broker.ts:80-84 | empty pieces of a query are skipped and a piece without an equals sign is a name with an empty value |
| AuthBroker.CreateBrokerState | lib/auth-broker.ts:61-67 | the byte loop and the pipeline produce the base64url text of the bytes |
| AuthBroker.CreatedStateIsValid | lib/auth-broker.ts:61-71 | every 32 bytes give a state the validator accepts |
| AuthBroker.CreatedStatesDiffer | lib/auth-broker.ts:61-67 | two byte sequences give the same state exactly when they are equal |
| AuthBroker.StatesThatCanArise | lib/auth-broker.ts:61-71 | an accepted state comes from some 32 bytes exactly when its last sextet is a multiple of 4 |
| QueryString.EncodeRoundTrip | lib/auth-broker.ts:80-84 | percent-encoding ASCII text and decoding it is the identity, and the encoding has no delimiter |
| QueryString.PercentCharacters | lib/auth-broker.ts:80-84 | every character but letters, digits, `*-._` and the space is written as a percent sign and its code in two upper-case hexadecimal digits; `KeptCharacters` gives the others |
| QueryString.ParseSerialize | lib/auth-broker.ts:80-84 | parsing a serialized parameter list gives the list |
| AuthBroker.UrlCarriesState | lib/auth-broker.ts:73-100 | the parameters of the built address validate back to exactly the state, opener and provider |
| AuthBroker.AddressWrittenOut | lib/auth-broker.ts:73-85 | the address is the broker page with state, opener and provider in this order |
| AuthBroker.RefusedElse | lib/auth-broker.ts:73-160 | another broker, opener, provider or length of state makes no address, no request and no message |
| AuthBroker.AcceptedMeansSent | lib/auth-broker.ts:113-164 | whatever arrives, acceptance implies origin, window, provider, time and limits are right and the credential is what a result message for that state carries |
| AuthBroker.AcceptedExactly | lib/auth-broker.ts:102-145 | whatever arrives, it is accepted if and only if it comes from the broker's origin and the expected window, for Google, within two minutes, with the right type and state, a token of 100 to 20000 characters and uid, email, name and phone of 1-256, 0-320, 0-256 and 0-64 characters |
| AuthBroker.HandshakeExact | lib/auth-broker.ts:61-164 | for every credential, from bytes through URL, request and message: exactly that credential is accepted if and only if both sides used the same bytes, createdAt <= now <= createdAt + 120000, and token and identity keep those limits; else nothing |
| BidExpiry.NormalisedCarriesZone | lib/bid-expiry.ts:90-98 | normalised timestamps always carry a zone, zoned ones are kept, normalising is idempotent |
| BidExpiry.SeparatorDoesNotMatter | lib/bid-expiry.ts:96 | a zone-less timestamp is read as UTC, with a space or a T separator alike |
| BidExpiry.OffsetTexts | lib/bid-expiry.ts:95 | a text ending in five or six characters with or without a colon has a zone exactly when they are a sign and four digits, the letter Z aside |
| BidExpiry.ExpiryIsThreshold | lib/bid-expiry.ts:137-225 | each bid has one deadline (never, always, or an instant, read off its fields) and is expired exactly after it |
| BidExpiry.PaidStaysOn | lib/bid-expiry.ts:117-147 | whatever surrounds a stamp "Razorpay:" or "razorpay_payment_id" in the message, an ACCEPTED or CONFIRMED bid is never expired, always visible and listed, and its pay window is closed |
| BidExpiry.UnpaidIsDue | lib/bid-expiry.ts:180-302 | an ACCEPTED bid with neither stamp is expired exactly after expiresAt, else exactly 30 minutes after acceptedAt, updatedAt or createdAt, and payable exactly until then |
| BidExpiry.PendingIsDue | lib/bid-expiry.ts:205-222 | a PENDING bid is expired exactly 15 minutes after its automatic answer, else after expiresAt, else after one hour for guest bids and three for others |
| BidExpiry.OtherStatesAreDue | lib/bid-expiry.ts:148-205 | final states are expired and hidden, stays never expire, REJECTED and COUNTER bids 30 and 60 minutes after their last change |
| BidExpiry.UndatedNeverExpires | lib/bid-expiry.ts:158-163 | a bid whose createdAt cannot be read expires only in a final state |
| BidExpiry.VisibleForADay | lib/bid-expiry.ts:254-273 | a live bid is visible exactly for its first 24 hours and while it is not expired |
| BidExpiry.PlaceFlowTexts | lib/bid-expiry.ts:207-221 | "Guest bid" between word boundaries, and "max ₹", in any case and anywhere, mark a guest bid |
| BidExpiry.NoGuestBidInsideAWord | lib/bid-expiry.ts:207-221 | a word running on before or after "Guest bid" does not |
| BidExpiry.ExpiryIsOneWay | lib/bid-expiry.ts:137-302 | once expired always expired, once hidden always hidden, once unpayable always unpayable |
| BidExpiry.ListsOnlyShrink | lib/bid-expiry.ts:230-273 | a later active or visible list is the earlier one filtered again: nothing reappears or moves |
| BidExpiry.ListsExact | lib/bid-expiry.ts:230-273 | both lists hold exactly the bids their rule keeps, in the order given |
| BidExpiry.ActiveAmongVisible | lib/bid-expiry.ts:230-273 | the active list is a subsequence of the visible list |
| BidExpiry.OpenMeansNotExpired | lib/bid-expiry.ts:137-302 | an open pay window implies the bid is not expired |
| BidExpiry.PayableIsNotExpiredExactly | lib/bid-expiry.ts:180-198 | for accepted unpaid bids payable and expired are complementary at every instant exactly for readable createdAt with a readable expiresAt or a readable base after the epoch |
| BidCooldown.CauseAlone | lib/bid-cooldown.ts:37-64 | the bid reported as the cause would cause the same pause alone |
| BidCooldown.PauseReport | lib/bid-cooldown.ts:37-64 | the bid reported is an unexpired one, ACCEPTED before COUNTER before PENDING; the time left is what remains of three hours from its latest activity; the reason tells the three states, and paid from unpaid, apart |
| BidCooldown.OneBidPauses | lib/bid-cooldown.ts:51-57 | a single live bid pauses exactly until three hours after its latest activity |
| BidCooldown.SingleReleaseIsFinal | lib/bid-cooldown.ts:51-57 | for one bid a released pause never returns |
| BidCooldown.ReleaseFinalExactly | lib/bid-cooldown.ts:37-64 | no pause runs from an instant on exactly when every bid whose own pause still runs then stays hidden behind a bid considered first whose deadline outlasts that pause |
| BidCooldown.ReleaseCanReturn | lib/bid-cooldown.ts:45-48 | the failing input: an old accepted bid hides a newer pending one until it expires, and the pause comes back |
| AutoCancel.Browser.StartAcceptanceWindow | lib/auto-cancel.ts:31-59 | stores and returns a fresh window of at least one minute |
| AutoCancel.Browser.Mark | lib/auto-cancel.ts:160-172 | sets the one mark on an existing window and changes nothing else |
| AutoCancel.Browser.MarkPaid | lib/auto-cancel.ts:174-180 | removes the bid's window and no other |
| AutoCancel.Browser.Seed | components/AcceptedBidTimer.tsx:62-114 | the mounting effect stores the window computed from expiresAt, else acceptedAt, else the stored one, else a fresh one |
| AutoCancel.Browser.Tick | components/AcceptedBidTimer.tsx:117-149 | one tick changes the store and appends notices as the specification step says |
| AutoCancel.Browser.Hydrate | lib/auto-cancel.ts:63-97 | the merge loop replaces exactly the windows whose acceptedAt text differs or that are missing |
| AutoCancel.TicksExact | components/AcceptedBidTimer.tsx:117-149 | under a non-decreasing clock: one warning at the first reading in the last five minutes, one cancellation at the first reading at or after expiry, nothing else |
| AutoCancel.SeedThenTicks | components/AcceptedBidTimer.tsx:62-149 | after mounting, whatever the store held, the notices are those of a countdown to expiresAt, else to acceptedAt plus the window, else to the mounting time plus a window of at least a minute |
| AutoCancel.StoredWindowStays | components/AcceptedBidTimer.tsx:62-114 | a stored window is shown again when the bid's own times cannot be read |
| AutoCancel.RowThenTicks | lib/auto-cancel.ts:72-91 | a server row taken over is counted down to its own expiry, without repeating a warning it records or a cancellation its status names |
| AutoCancel.OncePerEpoch | lib/auto-cancel.ts:135-172 | over every run of ticks, seeds, hydrations and removals, with any clock, each epoch sees at most one notice of each kind |
| AutoCancel.EpochsStartExactly | lib/auto-cancel.ts:63-97 | a step starts an epoch exactly when the notice was not possible before and the step seeds the bid from its own times or afresh, or hydrates with any rows of which the last one written for the bid lacks that mark |
| AutoCancel.HydratedWindow | lib/auto-cancel.ts:72-91 | after any rows the window is the stored one or that of the last row whose acceptedAt text differs from the text before it |
| AutoCancel.HydrationIsRowByRow | lib/auto-cancel.ts:72-91 | hydrating with several rows is the run of hydrations with each row in turn |
| AutoCancel.EpochCauses | lib/auto-cancel.ts:63-97 | in a hydration of any number of rows too, an epoch needs a row that differs or finds no window |
| AutoCancel.HydrationKeepsMarks | lib/auto-cancel.ts:80-91 | hydration with the same acceptedAt text erases no marks |
| AutoCancel.HydrationReplaces | lib/auto-cancel.ts:72-91 | a differing row, or one after payment, installs the server's window, and starts an epoch of either kind exactly when the row has no such mark and none was possible before |
| AutoCancel.ReseedWarnsAgain | components/AcceptedBidTimer.tsx:72-88 | re-seeding from expiresAt erases the marks and a second warning follows |
| AutoCancel.TimerAndPayButton | components/AcceptedBidTimer.tsx:63-88 | a timer seeded from expiresAt agrees with the pay gate at every instant except expiry itself |
| HotelAffinity.Trail.RecordHotelView | lib/hotel-affinity.ts:28-36 | one view rewrites the stored trail as the specification step says |
| HotelAffinity.LatestAppend | lib/hotel-affinity.ts:28-36 | one more view moves its hotel to the end of the full de-duplicated history |
| HotelAffinity.TrailIsEndOfHistory | lib/hotel-affinity.ts:28-36 | after any views the stored trail is the last 8 entries of the full history keeping each hotel's latest view |
| HotelAffinity.GetAffinity | lib/hotel-affinity.ts:51-69 | the accumulating loop computes the weights of the trail's price and rating moves |
| HotelAffinity.WeightsSound | lib/hotel-affinity.ts:48-69 | weights sum to one, stay in [0.15, 0.85] and favour the side with more moves |
| HotelAffinity.WeightsExact | lib/hotel-affinity.ts:51-69 | price and rating weigh in the ratio of 0.5 plus 0.12 for each move to a cheaper (better rated) hotel beyond those to a dearer (worse) one, kept in [0.15, 0.85]; equally before the second view |
| HotelAffinity.SameTypeFirst | lib/hotel-affinity.ts:80-127 | the ranking is a permutation in which every same-type candidate precedes every other one, for non-negative prices |
| HotelAffinity.BetterBlendFirst | lib/hotel-affinity.ts:80-127 | every candidate scores at least as much as those after it |
| HotelAffinity.ScoreIsBlend | lib/hotel-affinity.ts:94-101 | the score is the weighted sum of price and rating score, and 2 more exactly for the type in view |
| HotelAffinity.PriceCounts | lib/hotel-affinity.ts:85-96 | prices count evenly from the dearest (nothing) to the cheapest (one), an unpriced candidate halfway; `ClosePricesCount` for prices less than 1 apart |
| HotelAffinity.RatingCounts | lib/hotel-affinity.ts:97-98 | ratings count evenly from 3.0 to 5.0, an unrated candidate like one rated 3.8 |
| MarketFit.RankIsCounting | lib/hotel-market-fit.ts:134-142 | the sort-and-find rank is one more than the number of hotels that beat this one |
| MarketFit.RanksAreBijection | lib/hotel-market-fit.ts:134-142 | every rank 1..total is held by exactly one hotel |
| MarketFit.PercentileFalls | lib/hotel-market-fit.ts:139-141 | the unrounded percentile falls strictly from 100 to 0 |
| MarketFit.GroupByCity | lib/hotel-market-fit.ts:121-125 | each city pool holds that city's hotels in catalogue order |
| MarketFit.GroupByZone | lib/hotel-market-fit.ts:126-131 | each zone pool holds that zone's hotels in catalogue order |
| MarketFit.ComputeMarketFitMap | lib/hotel-market-fit.ts:120-176 | exactly one entry per hotel, holding its cohort and rank |
| MarketFit.CityShared | lib/hotel-market-fit.ts:147-150 | hotels of a city with at least two share scope and total, and their ranks are ordered as they beat each other |
| MarketFit.RankHiddenExactly | lib/hotel-market-fit.ts:147-163 | in the finished map a hotel shows no rank exactly when no other hotel of the catalogue shares its city or its zone; city and zone scope are characterised likewise |
| MarketFit.EntryCounts | lib/hotel-market-fit.ts:120-176 | in the finished map an entry's rank is one plus the number of the catalogue's hotels of the same city (or zone) that beat it, its total their number, its percentile the share of the others that rank below |
| CounterAddons.ParseIsWords | lib/counter-addons.ts:61-74 | after the sentinel the parser returns the catalog ids among the words, whatever the separators |
| CounterAddons.SentinelFound | lib/counter-addons.ts:63 | the sentinel cannot overlap itself, so a prefix without it never shifts the match |
| CounterAddons.ParseUndoesSerialize | lib/counter-addons.ts:50-74 | with any sentinel-free prefix and any set-off suffix: the known ids once each in first-occurrence order, then the suffix's catalog words |
| CounterAddons.RoundTrip | lib/counter-addons.ts:50-79 | parsing the serialized ids gives the known ids; the message has addons exactly when one was known |
| CounterAddons.HasAddonsExactly | lib/counter-addons.ts:61-79 | a message has addons exactly when a word after its first sentinel is a catalog id; never without the sentinel |
| CounterAddons.StoredText | lib/counter-addons.ts:50-58 | the stored text is the sentinel, a space and the known ids joined by commas; empty when none is known |
| CounterAddons.SuffixHarmlessExactly | lib/counter-addons.ts:67-74 | trailing text changes nothing exactly when none of its words is a catalog id |
| Text.FirstOccurrencesSound | lib/counter-addons.ts:51 | the de-duplication keeps each non-empty id exactly once, in the order of first occurrences |
| CalendarScope.ScopeKeysEqualExactly | lib/pricing/calendar-scope.ts:29-39 | for arbitrary ids two keys are equal exactly when the sorted, de-duplicated ids, cut at their commas, give the same pieces |
| CalendarScope.ScopeKeyExact | lib/pricing/calendar-scope.ts:29-39 | room lists without commas share a key exactly when they name the same rooms |
| CalendarScope.BuildPatch | components/LuxuryCalendar.tsx:203-221 | each patched date carries the least positive room price and the score of the first room at that price; unpatched dates have no positive price |
| CalendarScope.PriceStore.Receive | components/LuxuryCalendar.tsx:197-228 | a failed response leaves everything retryable; a good one marks the month and merges under its scope only |
| CalendarScope.ScopesNeverMix | components/LuxuryCalendar.tsx:141-145 | however responses interleave, a scope shows exactly its own |
| LuxuryCalendar.MonthCells | components/LuxuryCalendar.tsx:153-163 | the grid has whole weeks, the leading blanks, every day and the fewest trailing blanks |
| LuxuryCalendar.GridShowsTheMonth | components/LuxuryCalendar.tsx:153-163 | every day of the month once, in order, at an index congruent to its weekday |
| LuxuryCalendar.Sheet.HandleDayTap | components/LuxuryCalendar.tsx:290-314 | a tap changes drafts and leg as the specification step says |
| LuxuryCalendar.Sheet.Apply | components/LuxuryCalendar.tsx:320-331 | hands over the drafts, one night when only check-in is set, nothing without it |
| LuxuryCalendar.EveryRun | components/LuxuryCalendar.tsx:290-318 | after every run the drafts are ordered or still the opening ones, and check-in is the opening one or at or after today and the floor |
| LuxuryCalendar.ApplyGivesANight | components/LuxuryCalendar.tsx:290-331 | apply yields at least one night after every run if and only if the opening dates were not inverted |
| LuxuryCalendar.TwoTapsPickAStay | components/LuxuryCalendar.tsx:290-331 | from a sheet without check-out, two taps on allowed days in order pick exactly that stay |
| LuxuryCalendar.OneTapIsOneNight | components/LuxuryCalendar.tsx:290-331 | one tap and apply give one night; after clearing nothing is handed over |
| LuxuryCalendar.MovingTheCheckIn | components/LuxuryCalendar.tsx:290-314 | a new check-in keeps a later check-out, drops any other, and opens the check-out leg |
| LuxuryCalendar.CheckOutLegTap | components/LuxuryCalendar.tsx:290-314 | on the check-out leg a later day is the check-out, any other allowed one starts over |
| LuxuryCalendar.DeadTaps | components/LuxuryCalendar.tsx:290-314 | days before today and check-ins below the floor do nothing; a floor locks the check-in leg |
| LuxuryCalendar.RepairLasts | components/LuxuryCalendar.tsx:290-318 | one effective tap or clear repairs any opening dates for the rest of the run |
| Commission.ValidateRule | lib/commission.ts:119-155 | accepts exactly rules with sane, pairwise disjoint slabs and sane bonuses; names the overlap and bonus errors correctly |
| Commission.AdjacentIsPairwise | lib/commission.ts:135-141 | on sorted sane slabs the adjacent check is the pairwise check |
| Commission.AddingSlab | lib/commission.ts:124-141 | one more slab keeps slabs acceptable exactly when 0 <= min <= max, 0 <= pct <= 100 and it meets none of them |
| Commission.AddingBonus | lib/commission.ts:142-153 | one more bonus keeps a rule acceptable exactly when it asks for a month at least and adds 0 to 100 percent |
| Commission.PickExact | lib/commission.ts:67-78 | the choice is the covering slab, else the top slab past all maxima; none exactly below the lowest slab or in a gap |
| Commission.ChosenUnique | lib/commission.ts:67-78 | no booking count has two choices |
| Commission.ListingOrderIrrelevant | lib/commission.ts:67-78 | listing slabs in another order changes neither acceptance nor choice |
| Commission.PickLoyalty | lib/commission.ts:83-90 | the largest bonus the streak qualifies for, zero when none |
| Commission.LoyaltyGrows | lib/commission.ts:83-90 | a longer streak never earns less |
| Commission.CommissionWithinAmount | lib/commission.ts:95-115 | for whole-paise amounts the commission lies in [0, amount] and within half a paisa of the exact share |
| Commission.CommissionExact | lib/commission.ts:95-115 | for an accepted rule the chosen slab's percentage and the best earned bonus add up, to at most 100, and the commission is that share of the amount to the nearest paisa |
| Commission.NothingWithoutSlab | lib/commission.ts:67-115 | in a gap and below the lowest slab there is no slab, bonus or commission |
| Commission.NothingBelowSlabs | lib/commission.ts:72-78 | below the lowest slab nothing is paid |
| AiPricing.PriceBounds | lib/ai-pricing.ts:384-396 | the price is the base or a multiple of 100 in [base, max(base, base * clampMax + 50)] |
| AiPricing.QuoteExact | lib/ai-pricing.ts:384-426 | multiplier, price, score, level and flash price of a quote: market times occupancy kept inside the clamp; the base or a hundred within 50 of base times multiplier; the place in the clamp in whole percent; a hundred within 50 below the larger of 85 percent of the base and 76 of the price |
| AiPricing.EveryFactorCounts | lib/ai-pricing.ts:366-384 | each of the nine market factors counts alone; `FirstFactorsMultiply` and `LaterFactorsMultiply`: scaling any one scales the whole |
| AiPricing.DemandReplaces | lib/ai-pricing.ts:366-384 | of the market factors exactly the variation and the long weekend are computed from the moment, the others are the inputs |
| AiPricing.OverridesReplace | lib/ai-pricing.ts:326-332 | a list of five overrides replaces the occupancy multipliers it gives numbers for; a list of another length none |
| AiPricing.VariationSteps | lib/ai-pricing.ts:303-320 | the hourly variation of a whole base is one of eleven even steps, up to 2.5 percent or the configured amplitude either way |
| AiPricing.FullerNeverCheaper | lib/ai-pricing.ts:328-401 | with rising occupancy neither price, score, level nor tier falls |
| AiPricing.HigherScoreNeverCheaper | lib/ai-pricing.ts:388-396 | for one base a strictly higher score never has a lower price, whatever market, occupancy and overrides produced either |
| AiPricing.PriceMonotoneInBaseExactly | lib/ai-pricing.ts:305-396 | for two bases at one moment under one clamp, no demand ever makes the dearer one cheaper exactly when base times hourly variation does not fall or the top of the clamp leaves the cheaper base below an explicit threshold |
| AiPricing.PriceMonotoneUnderEveryClamp | lib/ai-pricing.ts:305-396 | leaving the clamp open, exactly when base times hourly variation does not fall |
| AiPricing.SameEndingNeverFalls | lib/ai-pricing.ts:305-315 | among bases that differ by whole hundreds the price never falls, under any clamp |
| AiPricing.DearerBaseCanBeCheaper | lib/ai-pricing.ts:305-396 | the failing pair: at one moment a base of 1001 sells for 2000 and a base of 1000 for 2100 |
| AiPricing.FlashExact | lib/ai-pricing.ts:421-426 | the flash suggestion exceeds the price exactly when the base lies in one of three small bands and base times multiplier stays below the halfway point to the next hundred |
| AiPricing.FlashSafeBases | lib/ai-pricing.ts:421-426 | the bases whose suggestion never exceeds the price, whatever the demand, are exactly those outside the bands |
| AiPricing.FlashReachesBaseExactly | lib/ai-pricing.ts:421-426 | the suggestion is at or above the base exactly for bases 0, 100, 200, 300 and the bands, or when base times multiplier reaches an explicit bound |
| AiPricing.FlashBelowBase | lib/ai-pricing.ts:421-426 | the failing input: a base of 1000 in a flat market is suggested at 900 |
| AiPricing.FlashNeverAbovePrice | lib/ai-pricing.ts:384-426 | every quote for a base outside the three bands suggests at most the price |
| AiPricing.LongWindowHoldsWeekend | lib/ai-pricing.ts:226-237 | every long-weekend window holds the holiday and a whole weekend, in three or four days |
| AiPricing.LongWeekendExact | lib/ai-pricing.ts:223-246 | the surge is that of the one holiday whose window holds the date, and is the same for every order of the holiday table |
| AiPricing.GazettedDaysSurge | lib/ai-pricing.ts:214-246 | 26 January, 15 August and 2 October always surge, as a long weekend except on a Wednesday |
| AiPricing.FarDaysHaveNone | lib/ai-pricing.ts:223-246 | more than three days from every holiday there is no surge |
| Autopilot.DecideExact | lib/autopilot.ts:105-168 | accept at or above the floor, counter from band to floor, manual otherwise, automated only for eligible tier and mode |
| Autopilot.DecisionTable | lib/autopilot.ts:43-168 | accept and counter with band, floor, tier and mode in figures: mode auto and not low-ball, or hybrid and one of the two best tiers; the band from 0.85, 0.78 or 1.00 of the floor by vacancy; the counter open for an hour |
| Autopilot.ScoreIsAverage | lib/bidder-score.ts:51-79 | the score is the average of the counted ratios of the first ten bids, and the tier follows it; none counted is a newcomer |
| Autopilot.PastBidCounts | lib/bidder-score.ts:55-68 | a bid counts exactly with a positive offer and floor, with their quotient: the room's floor before the hotel's, the preferred price before the amount |
| Autopilot.BetterNeverDrops | lib/autopilot.ts:43-168 | a better offer, vacancy, mode or tier never makes the decision less automatic |
| Autopilot.CounterIsFloor | lib/autopilot.ts:159-164 | a counter is exactly the floor and above the offer |
| Autopilot.DeepLowballsStayManual | lib/autopilot.ts:105-168 | nothing under 0.78 of the floor is automated, nothing under the floor on a nearly full night |
| Autopilot.BetterHistoryNeverDrops | lib/bidder-score.ts:51-87 | raising ratios of already counted bids lowers neither tier nor decision |
| Autopilot.NewBidKeepsTierExactly | lib/bidder-score.ts:51-87 | a new bid keeps the tier's level exactly when its ratio and those of the nine most recent earlier bids reach the tier's least average; when nothing counts, exactly up to a newcomer's level |
| Autopilot.FirstBidCanDrop | lib/bidder-score.ts:71-76 | the failing input: a newcomer's single bid at half the floor lowers the tier |
| Catalog.CapacityForCategories | lib/catalog.ts:91-96 | the summing loop computes the average capacity, 2 for no categories |
| Catalog.AverageByCategory | lib/catalog.ts:80-96 | two for no categories, else the total over their number, where one more category adds its own capacity |
| Catalog.RoomsExact | lib/catalog.ts:128-139 | all adults seated, one per room at least; the least count fitting both groups, or the adult count when the children need more |
| Catalog.GuestsMonotone | lib/catalog.ts:128-139 | more adults or children never need fewer rooms |
| Catalog.OrderIrrelevant | lib/catalog.ts:91-139 | the order of room types does not matter |

## Left out

- Rendering, styling, scrolling, network plumbing, push, geolocation and all other user-interface code.
- Date texts that JavaScript repairs or reads outside `YYYY-MM-DD` of years 0000-9999 (a day 31 in a 30-day month, for instance) count as invalid dates.
- `extractBidRange`, occupation fields that no decision reads (guest name, note, provider, amount, source), and failing queries of `getOccupations`, which behave as empty tables.
- Availability.UnitsFreeForRange: a fractional room quantity or room count is not modelled; quantities are integers.
- InventoryRun.NoGuardedOversell: capacities stay fixed during a run, and bids are never deleted.
- InventoryRun.AdmissionFits: models the date-aware guard of the placement route only, not its static quantity check, its per-unit check or concurrent requests.
- ChannelSync.Sync: fetching, timeouts, failure counters, logs, notifications and the overbooking alert are not modelled; the unit guard is any function of the table and the row; deletes and id generation succeed; event dates are real dates, and others fail the run.
- ICal.ReadingUndoesPrinting: upper-casing covers the letters a-z only, and printed values are free of line breaks and, between their padding, trimmed.
- QueryString.ParseSerialize: parameters are ASCII; UTF-8 percent-encoding of other characters is not modelled.
- `configuredBrokerOrigin` accepts one text, and what URL parsing says about that text is taken as known.
- BidExpiry.ExpiryIsThreshold: timestamps are already read (absent, unreadable or an instant); how JavaScript reads a normalised text is not modelled, and `bid-cooldown` reads its own without normalising, which differs only outside UTC.
- A null bid, which is neither expired nor payable, and the partner check-in helpers of `lib/bid-expiry.ts`.
- AutoCancel.TicksExact: ticks are any sequence of clock readings; that the interval is not started for a window already expired at mount only removes ticks.
- Mirroring of windows and marks to the backend, `formatCountdown`, and storage writes that fail.
- HotelAffinity.SameTypeFirst: prices are non-negative, and its only caller passes positive ones (`components/hotel/SimilarStays.tsx:63-66`); `NegativePriceBreaksTypeOrder` shows why it matters. The human-readable reason attached to each candidate is not modelled.
- MarketFit.PercentileFalls: rounding to one decimal is not modelled; the market-fit score and the zone table are inputs.
- CalendarScope.ScopeKeyExact: ids contain no comma. The ids the application generates have none (`lib/sb-server.ts:293-295`, `app/api/onboard/rooms/route.ts:38`; with an id in its request that route updates the existing row); for other ids `ScopeKeysEqualExactly` holds, and `CommaCollides` shows a collision.
- CounterAddons.RoundTrip: a null or missing message, which parses to nothing, is not modelled; labels and icons are not modelled.
- Type checks of untyped commission rules, missing bonus lists and `NaN` amounts.
- AiPricing.PriceBounds: season, weekday, festival, lead-time, city, school and monsoon multipliers are inputs; the text factors, trend and percentage change are not modelled.
- Autopilot.BetterHistoryNeverDrops: the preferred price is taken as already extracted from the message; the cached mode lookup is not modelled.
