# ADS-B tracker core in Dafny

This project models the core of a small ADS-B flight tracker. A receiver
delivers Mode S / ADS-B messages, either as AVR text lines
(`*8DA46D4F99155818A8044075D32B;`) or as raw bytes. An external library
decodes each message. The `Tracker` then:

- files each message under the sender's 24-bit ICAO address;
- records the callsign, squawk, altitude, velocity and position the message
  reports;
- pairs even and odd Compact Position Reporting (CPR) halves into position
  fixes;
- keeps statistics: message counts per downlink format, a sample frame per
  unknown format, a histogram of the times between fixes, the most recent
  message time and the wall-clock message rate.

The terminal interface moves two cursors: the selected tab and the selected
table row. Both wrap around.

Modules:

- `Common` (common.dfy): `Option`, `Result`, the fixed-width integer ranges,
  and Rust's truncating division.
- `Text` (text.dfy): `str::trim` over Unicode whitespace.
- `Messages` (messages.dfy): the decoded-message vocabulary and `icao`.
- `Avr` (avr.dfy): `parse_avr`, with its round trip against hex encoding.
- `AircraftState` (aircraft.dfy): the aircraft record as a value;
  `update_position` as the function `PositionAfter`; the class `Aircraft`,
  whose `UpdatePosition` updates the record in place and is proved to
  follow `PositionAfter`.
- `TrackerState` (tracker_state.dfy): the tracker as a value;
  `update_with_message` as the function `AfterMessage`; the invariant it
  keeps; the queries.
- `Tracking` (tracker.dfy): the class `Tracker`. It holds a map from
  addresses to `Aircraft` objects. The constructor, `UpdateWithMessage`,
  `UpdateWithAvr` and `UpdateWithBinary` are proved to keep `Valid()` and to
  move `State()` exactly as `Init`, `AfterMessage`, `AfterAvr` and
  `AfterBinary` say. The steps they are built from are each proved against a
  step function of their own: `ApplyMessage`, `ApplyKnownMessage`,
  `RecordInterval` and `UpdateMessageTimes` over `State()`, and
  `UpdateAircraft`, `FindOrInsert` and `UpdateFiled` over the aircraft table
  `Records()`.
- `Cursors` (ui.dfy): `TabsState` and `StatefulTable`, with their
  next/previous arithmetic.

Representation choices:

- Times and durations are whole milliseconds (`Millis = int`).
- The message decoders and the global CPR position decoder are function
  parameters: `AvrDecoder`, `BinaryDecoder` and `Resolver`.
- The wall clock that `update_with_message` reads is the parameter `now`.
- `update_position` checks the pairing window with chrono's
  `num_seconds()`, which truncates toward zero. As a result, two halves pair
  when they are less than 31 seconds apart, in either order
  (`WithinWindowMillis`).
- `update_position` (src/tracker.rs:59-65) overwrites only the slot of the
  arriving half's parity. A second half of the same parity therefore still
  resolves a position when a half of the other parity is stored and within
  the window. `SameParityNeverResolves` covers the case with no other half
  stored; `SameParityAfterOtherHalf` shows the other case.

## Model

| member | source | states |
|---|---|---|
| Common.TruncDiv | src/tracker.rs:237 | the quotient is rounded toward zero for both signs, as Rust's signed `/` is |
| Text.Trim | src/tracker.rs:224 | definition: `trim_start` then `trim_end`, each cutting whitespace one character at a time |
| Text.TrimIsInfix | src/tracker.rs:224 | the trimmed callsign is a slice of the input; only whitespace is cut from either side; neither end of the result is whitespace |
| Text.TrimIdempotent | src/tracker.rs:224 | trimming an already trimmed callsign changes nothing |
| Messages.MessageIcao | src/tracker.rs:338-344 | an address is returned exactly when the message is not `Unknown`, and it is the message's own address |
| Avr.ParseAvr | src/tracker.rs:117-122 | definition: the slices at offsets 1, 3, 5, … below `len - 1`, each parsed as a base-16 byte, collected into one result that fails if any slice fails; an empty frame is refused |
| Avr.ParseAvrCollects | src/tracker.rs:117-122 | parsing equals walking the slices one at a time from the first, stopping with the error of the first slice that fails and otherwise gathering the bytes in order |
| Avr.HexByteRoundTrip | src/tracker.rs:120 | two upper-case hex digits of any byte parse back to that byte |
| Avr.ParseAvrRoundTrip | src/tracker.rs:117-122 | for any byte string and any start and end markers, parsing marker + hex + marker gives back exactly those bytes |
| Avr.ParseToAvr | src/tracker.rs:117-122 | parsing `*` + hex + `;` inverts encoding to AVR |
| Avr.ParseAvrExample | src/tracker.rs:128-132 | the frame `*8DA46D4F99155818A8044075D32B;` parses to the 14 bytes 141, 164, 109, 79, 153, 21, 88, 24, 168, 4, 64, 117, 211, 43 |
| Avr.ParseAvrBadSlice | src/tracker.rs:118-121 | one slice that is not a base-16 byte makes the whole parse fail |
| Avr.ParseAvrOddDigits | src/tracker.rs:118-121 | an odd number of hex digits fails, because the last slice takes in the closing `;` |
| Avr.ParseAvrPlusSign | src/tracker.rs:120 | a leading `+` in a slice is accepted by the unsigned parse: `*+F;` gives the single byte 15 |
| AircraftState.NewAircraft | src/tracker.rs:37-54 | a new aircraft has its address, last-seen time `time`, and every optional field empty |
| AircraftState.WithinWindowMillis | src/tracker.rs:70-71 | the 30-second window with truncated seconds is exactly a gap of less than 31000 ms, and it is symmetric |
| AircraftState.PositionAfter | src/tracker.rs:56-99 | definition of `update_position` on a record value: store the arriving half in its parity's slot; when both halves are stored and within the window, ask the resolver with the stored half first; on an answer set the coordinate and fix time and return the time since the previous fix |
| AircraftState.PositionAfterStores | src/tracker.rs:57-65 | the arriving half replaces only its own parity's slot, with its time; every non-position field is unchanged |
| AircraftState.PositionAfterFix | src/tracker.rs:67-98 | a fix happens exactly when the other half is stored, is within the window and resolves. The coordinate is the resolver's answer for (stored half, arriving half); the fix time is the arrival; the interval since the previous fix is returned when there was one. Otherwise position and fix time are unchanged and no interval is returned |
| AircraftState.PositionAfterUnpaired | src/tracker.rs:67-69 | with no stored half of the other parity, nothing resolves |
| AircraftState.PositionAfterStale | src/tracker.rs:70-71 | a pair 31 s or more apart, either way, gives no fix, and both halves stay stored |
| AircraftState.SameParityNeverResolves | src/tracker.rs:56-99 | any run of same-parity halves, with no other-parity half stored, never gives a fix |
| AircraftState.SameParityAfterOtherHalf | src/tracker.rs:72-75 | two even halves in a row can still give a fix when an odd half was stored before them |
| AircraftState.PairingScenario | src/tracker.rs:56-99 | even at 0 s then odd at 5 s give the resolver's coordinate at 5 s with no interval; an even half at 40 s, stale against the odd one, gives no fix: the coordinate and fix time stay, no interval is returned, and the half is stored |
| AircraftState.Aircraft.constructor | src/tracker.rs:37-54 | the object's value is `NewAircraft` |
| AircraftState.Aircraft.UpdatePosition | src/tracker.rs:56-99 | the in-place update moves the record and returns the interval exactly as `PositionAfter` |
| TrackerState.Increment | src/tracker.rs:175 | `entry(k).or_insert(0) += 1`: key `k` is added, its count grows by one, other counters are unchanged |
| TrackerState.TotalIncrement | src/tracker.rs:191-194 | bumping one downlink-format counter raises the map's total by exactly one |
| TrackerState.Init | src/tracker.rs:137-139 | definition: the default tracker, with every counter, map and timestamp empty |
| TrackerState.InitInvariant | src/tracker.rs:137-139 | the empty tracker satisfies the invariant |
| TrackerState.Bucket | src/tracker.rs:237 | the histogram key is a multiple of 100, rounded toward zero from the interval |
| TrackerState.LaterTime | src/tracker.rs:267-276 | the new most recent time is at least the message time and the old value, and is one of them |
| TrackerState.AfterUnknown | src/tracker.rs:173-178 | definition: bump the format's unknown counter and the unknown total, and keep the frame as the format's sample |
| TrackerState.AfterMessage | src/tracker.rs:180-212 | definition of `update_with_message`: count the message, then take the unknown path or the known path by its kind |
| TrackerState.AfterKnown | src/tracker.rs:189-281 | definition of the known path: count the format, file the report, record the fix interval, stamp the times |
| TrackerState.ApplyReport | src/tracker.rs:219-264 | definition: write the fields the report carries into the record, running `update_position` for an airborne position |
| TrackerState.Filed | src/tracker.rs:214-265 | definition: the record under the address, created on first sight, with the report applied and marked seen at `time` |
| TrackerState.ApplyReportKeepsAddress | src/tracker.rs:219-264 | a report never changes the record's address or last-seen time; only an airborne position yields an interval |
| TrackerState.IdentificationStoresTrimmedCallsign | src/tracker.rs:220-225 | an identification stores the trimmed callsign (a slice of the broadcast one, neither end whitespace) and changes nothing else |
| TrackerState.AfterMessageCountsOnce | src/tracker.rs:188-211 | every message raises `num_messages` by one and is counted once: as known or as unknown for its downlink format, never both |
| TrackerState.AfterUnknownMessage | src/tracker.rs:173-178 | an unknown message becomes its format's latest sample and changes no aircraft, timestamp or histogram |
| TrackerState.AfterKnownMessage | src/tracker.rs:214-280 | a known message files its sender under its address, created on first sight, marked seen at `time`. Other aircraft are unchanged; the most recent time becomes the maximum; the first wall-clock stamp is set once; the latest stamp is `now` |
| TrackerState.FiledUnderAddress | src/tracker.rs:214-265 | filing a report adds the sender's address to the table, with a record under its own address and seen at `time`, and leaves every other aircraft alone |
| TrackerState.MostRecentStep | src/tracker.rs:208-276 | an unknown message leaves the most recent message time alone; a known one moves it to the later of it and the message time |
| TrackerState.KnownStepKeepsInvariant | src/tracker.rs:188-280 | any step that counts one known message, files its sender and advances the timestamps keeps the invariant |
| TrackerState.FirstSightingIdentification | src/tracker.rs:214-225 | the first message from a new address, an identification, files exactly a new aircraft record seen at the message time whose only other set field is the trimmed callsign |
| TrackerState.HistogramCountsRepeatFixes | src/tracker.rs:234-240 | the histogram gains one entry, in the bucket of the time since the previous fix, exactly when a position message makes a new fix for an aircraft that had one; a first sighting, which has no previous fix, leaves it unchanged |
| TrackerState.HistogramOnlyFromPositions | src/tracker.rs:219-264 | messages other than airborne positions never change the histogram |
| TrackerState.AfterMessageInvariant | src/tracker.rs:180-281 | `update_with_message` keeps the invariant. The message total is the known total plus unknowns; unknown counters and samples have the same formats; aircraft are keyed by their own address; the three timestamps are set iff an aircraft is tracked; the most recent time bounds every last-seen time |
| TrackerState.FeedCounts | src/tracker.rs:180-211 | over any run of messages, the invariant holds and each message is counted, the unknown ones as unknown |
| TrackerState.FeedMostRecent | src/tracker.rs:267-276 | after any run, the most recent message time is the latest of the known messages' times and the earlier value, and is one of them |
| TrackerState.UnknownThrice | src/tracker.rs:173-178 | three unknown frames of one format: three messages, one counter at 3, the last frame kept, no aircraft |
| TrackerState.CurrentAircraft | src/tracker.rs:284-293 | definition: the records whose last-seen time is less than `interval` before `now` |
| TrackerState.AllAircraft | src/tracker.rs:296-298 | definition: every tracked record |
| TrackerState.MessagesPerSecond | src/tracker.rs:324-335 | definition: 1000 times the message count over the milliseconds between the first and the latest wall-clock stamp, infinite when none have elapsed, absent without both stamps |
| TrackerState.CurrentAircraftMonotone | src/tracker.rs:284-298 | a longer window never drops an aircraft, and every current aircraft is tracked |
| TrackerState.JustSeenIsCurrent | src/tracker.rs:265-291 | the sender of a known message is current at its time for any positive window, and not current exactly one window later |
| TrackerState.MessagesPerSecondMeaning | src/tracker.rs:324-335 | a rate exists iff a known message has arrived. It is `1000 * n / elapsed ms`, and infinite exactly when no wall-clock time has elapsed |
| Tracking.AfterAvr | src/tracker.rs:142-160 | definition of `update_with_avr` on a value: decoder errors are returned, a frame whose digits do not parse aborts, otherwise the message is applied with the parsed bytes |
| Tracking.AfterBinary | src/tracker.rs:163-171 | definition of `update_with_binary` on a value: decoder errors are returned, otherwise the message is applied with the frame itself |
| Tracking.AvrMatchesBinary | src/tracker.rs:142-171 | when the AVR decoder and the binary decoder return the same message, an AVR line that encodes some bytes updates the tracker exactly as the same bytes received in binary form do |
| Tracking.AvrBadDigitAborts | src/tracker.rs:149-158 | a decodable line with a slice that is not a hex byte aborts the update and leaves the tracker unchanged |
| Tracking.AfterAvrInvariant | src/tracker.rs:142-160 | an AVR update keeps the invariant; a failed one changes nothing |
| Tracking.Tracker.constructor | src/tracker.rs:137-139 | the new tracker is valid and its value is the empty state |
| Tracking.Tracker.UpdateUnknownMessageStatistics | src/tracker.rs:173-178 | the tracker's value moves as `AfterUnknown`; the aircraft table is untouched |
| Tracking.Tracker.UpdateWithMessage | src/tracker.rs:180-281 | the in-place update keeps `Valid()` and moves the value exactly as `AfterMessage` |
| Tracking.Tracker.ApplyMessage | src/tracker.rs:180-212 | the in-place body keeps every aircraft filed under its own address and moves the value as `AfterMessage` |
| Tracking.Tracker.ApplyKnownMessage | src/tracker.rs:189-281 | the known path keeps every aircraft filed under its own address and moves the value as `AfterKnown` |
| Tracking.Tracker.RecordInterval | src/tracker.rs:236-240 | the histogram moves as `RecordFix`: one more count in the interval's bucket when there is an interval, nothing else changes |
| Tracking.Tracker.UpdateAircraft | src/tracker.rs:214-265 | the aircraft table and the returned interval are those of `Filed`, and every aircraft stays filed under its own address |
| Tracking.Tracker.UpdateMessageTimes | src/tracker.rs:267-280 | the value moves as `StampTimes`: most recent time to the later one, first wall-clock stamp set once, latest stamp to `now` |
| Tracking.Tracker.FindOrInsert | src/tracker.rs:214-217 | the object returned is the one filed under the address, or a fresh one seen at `time` that is now filed there; no other entry changes |
| Tracking.Tracker.UpdateFiled | src/tracker.rs:219-265 | only the given aircraft's record changes, to the report applied and seen at `time`, and the interval is the report's |
| Tracking.Tracker.ApplyReportTo | src/tracker.rs:219-264 | the object's record and the returned interval are exactly those of `ApplyReport` |
| Tracking.Tracker.UpdateWithAvr | src/tracker.rs:142-160 | result and new value are those of `AfterAvr`: decoder errors are returned, a bad hex frame aborts, and otherwise the message is applied |
| Tracking.Tracker.UpdateWithBinary | src/tracker.rs:163-171 | result and new value are those of `AfterBinary` |
| Tracking.Tracker.GetCurrentAircraft | src/tracker.rs:284-293 | exactly the aircraft objects seen less than `interval` before `now`, whose values are `CurrentAircraft` |
| Tracking.Tracker.GetAllAircraft | src/tracker.rs:296-298 | exactly the tracked aircraft objects, whose values are `AllAircraft` |
| Tracking.Tracker.GetNumMessages | src/tracker.rs:300-302 | the message count, equal to the known total plus the unknown count |
| Tracking.Tracker.GetNumUnknownMessages | src/tracker.rs:304-306 | the unknown count, equal to the total of the unknown counters and at most the message count |
| Tracking.Tracker.GetUnknownMessageStatistics | src/tracker.rs:308-310 | the unknown counters; each is positive and at most the unknown count, and they sum to it |
| Tracking.Tracker.GetUnknownMessageData | src/tracker.rs:312-314 | the samples, for exactly the counted unknown formats |
| Tracking.Tracker.GetKnownMessageStatistics | src/tracker.rs:316-318 | the known counters; each is positive; they sum to the messages that were not unknown, and to zero iff no aircraft is tracked |
| Tracking.Tracker.GetMostRecentMessageTime | src/tracker.rs:320-322 | absent iff no aircraft is tracked, and otherwise at least every aircraft's last-seen time |
| Tracking.Tracker.GetMessagesPerSecondRealTime | src/tracker.rs:324-335 | the rate is `MessagesPerSecond` of the value, and it is present iff an aircraft is tracked |
| Cursors.NextIndex | src/ui.rs:24-26 | the next tab index is always in range |
| Cursors.PreviousIndex | src/ui.rs:28-34 | stepping back from a positive index lowers it; from 0 it goes to the last tab |
| Cursors.StepsUndoEachOther | src/ui.rs:24-34 | for an index in range, previous undoes next and next undoes previous, and previous stays in range |
| Cursors.NextTimesCompose | src/ui.rs:24-26 | `a` presses of next and then `b` more equal `a + b` presses |
| Cursors.NextTimesAdvances | src/ui.rs:24-26 | before the last tab is passed, `k` presses move `k` tabs on |
| Cursors.NextRoundTrip | src/ui.rs:24-26 | one press per tab comes back to the starting tab |
| Cursors.NextRow | src/ui.rs:87-99 | the next row is in range; with nothing selected it is the first row |
| Cursors.PreviousRow | src/ui.rs:101-113 | with nothing selected the first row is chosen; otherwise a positive row goes down |
| Cursors.RowsMoveLikeTabs | src/ui.rs:87-113 | from a selected row in range, the table cursor moves exactly as the tab cursor and stays in range |
| Cursors.TabsState.constructor | src/ui.rs:21-23 | the titles are stored and the first tab is selected |
| Cursors.TabsState.Next | src/ui.rs:24-26 | the index moves as `NextIndex`; the titles are unchanged |
| Cursors.TabsState.Previous | src/ui.rs:28-34 | the index moves as `PreviousIndex`; the titles are unchanged |
| Cursors.StatefulTable.constructor | src/ui.rs:61-86 | the 19 demonstration rows, with nothing selected |
| Cursors.StatefulTable.Next | src/ui.rs:87-99 | a row is now selected, as `NextRow` says; the rows are unchanged |
| Cursors.StatefulTable.Previous | src/ui.rs:101-113 | a row is now selected, as `PreviousRow` says; the rows are unchanged |

## Left out

- The program entry point (src/bin.rs) is not part of this model: reader threads, the stdin, TCP and Postgres readers, command-line handling and the shared `Arc<Mutex<Tracker>>`.
- The adsb crate's message decoders (`adsb::parse_avr`, `adsb::parse_binary`) and the global CPR decoder (`cpr::get_position`) are not part of this model. They appear as the function parameters `AvrDecoder`, `BinaryDecoder` and `Resolver`.
- `Utc::now()` is the parameter `now`.
- `DateTime<Utc>` and `chrono::Duration` are whole milliseconds. Sub-millisecond precision is dropped, so `num_milliseconds` is the identity here.
- Floating point (`f64` headings, speeds, coordinates and the message rate) is modelled as `real`. Rounding is not modelled. A rate with zero elapsed time, which is `+inf` in `f64`, is the constructor `Infinite`.
- Counters (`u64` message counts, `u32` histogram counts) are unbounded `nat`. Overflow after 2^64 (or 2^32) events is not modelled.
- `Tracking.Tracker.UpdateWithAvr`: the `panic!` on a frame whose hex digits do not parse is modelled as the error `Aborted`, with the tracker unchanged. An empty frame, where `frame.len() - 1` underflows, is `Aborted` too. The debugging `println!` is not modelled.
- `Avr.ParseAvr`: frames are sequences of `char`. Rust slices a `&str` by byte, and panics when a slice boundary falls inside a multi-byte character. That panic is not modelled, because every AVR line is ASCII.
- `Tracking.Tracker.GetCurrentAircraft`, `Tracking.Tracker.GetAllAircraft`: these return sets, not vectors. The `HashMap` iteration order is unspecified, and no caller relies on it.
- `Cursors.NextIndex`, `Cursors.PreviousIndex`, `Cursors.NextRow`, `Cursors.PreviousRow`: the panics on an empty list are excluded by their preconditions and not modelled. These are `% 0` in `next` with no titles (src/ui.rs:25), `len() - 1` underflowing in `previous` with no titles (src/ui.rs:32), and the same underflow on an empty table with a row selected (src/ui.rs:90, 105). The callers always build 2 tabs and 19 rows.
- `Cursors.StatefulTable`: tui's `TableState` is reduced to its selected row. Its scroll offset is not modelled.
- The drawing code in src/ui.rs (`draw` and the widgets it builds) and the `App` struct that bundles a `TabsState` with the tracker are not modelled. They lay out text on the terminal.
