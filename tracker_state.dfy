/** The tracker's state as a value, and what one decoded message does to it
    (`update_with_message` and the statistics it keeps). The `Tracker` class
    is proved to follow these definitions step for step. */
module TrackerState {
  import opened Common
  import opened Messages
  import opened Text
  import opened AircraftState

  /** A counter in a statistics map: an absent key counts zero, as with
      `entry(k).or_insert(0)`. */
  function Get<K>(m: map<K, nat>, k: K): nat {
    if k in m then m[k] else 0
  }

  /** `*m.entry(k).or_insert(0) += 1` */
  function Increment<K>(m: map<K, nat>, k: K): (r: map<K, nat>)
    ensures r.Keys == m.Keys + {k}
    ensures Get(r, k) == Get(m, k) + 1
    ensures forall j :: j in m && j != k ==> r[j] == m[j]
  {
    m[k := Get(m, k) + 1]
  }

  /** The sum of the counters for downlink formats `0 .. n-1`. */
  function SumBelow(m: map<byte, nat>, n: nat): nat
    requires n <= 0x100
  {
    if n == 0 then 0 else SumBelow(m, n - 1) + Get(m, n - 1)
  }

  /** How many downlink formats a `u8` can name. */
  function FormatCount(): nat {
    0x100
  }

  /** The sum of a per-downlink-format counter map. */
  function Total(m: map<byte, nat>): nat {
    SumBelow(m, FormatCount())
  }

  lemma {:induction false} SumBelowIncrement(m: map<byte, nat>, k: byte, n: nat)
    requires n <= 0x100
    ensures SumBelow(Increment(m, k), n) == SumBelow(m, n) + (if k < n then 1 else 0)
  {
    if n > 0 {
      SumBelowIncrement(m, k, n - 1);
    }
  }

  /** Bumping one counter raises the total by exactly one. */
  lemma TotalIncrement(m: map<byte, nat>, k: byte)
    ensures Total(Increment(m, k)) == Total(m) + 1
  {
    SumBelowIncrement(m, k, FormatCount());
  }

  lemma {:induction false} SumBelowEmpty(n: nat)
    requires n <= 0x100
    ensures SumBelow(map[], n) == 0
  {
    if n > 0 {
      SumBelowEmpty(n - 1);
    }
  }

  /** Every counter is part of the total. */
  lemma {:induction false} SumBelowBounds(m: map<byte, nat>, k: byte, n: nat)
    requires k < n <= 0x100
    ensures Get(m, k) <= SumBelow(m, n)
  {
    if k < n - 1 {
      SumBelowBounds(m, k, n - 1);
    }
  }

  /** The tracker's fields (`Tracker`), with every aircraft as a record value. */
  datatype TrackerState = TrackerState(
    aircraft: map<Icao, AircraftRecord>,
    numMessages: nat,
    numUnknownMessages: nat,
    unknownMessageCounts: map<byte, nat>,
    unknownMessageData: map<byte, seq<byte>>,
    knownMessageCounts: map<byte, nat>,
    mostRecentMessageTime: Option<Millis>,
    firstMessageRealTime: Option<Millis>,
    mostRecentMessageRealTime: Option<Millis>,
    posUpdateTimes: map<int, nat>)

  /** `Tracker::new` */
  function Init(): TrackerState {
    TrackerState(map[], 0, 0, map[], map[], map[], None, None, None, map[])
  }

  /** Every record is filed under its own address. */
  predicate KeyedByAddress(aircraft: map<Icao, AircraftRecord>) {
    forall k :: k in aircraft ==> aircraft[k].icaoAddress == k
  }

  /** What the tracker keeps true between messages:
      every message is counted once, as known or as unknown for its downlink
      format; a sample is kept for exactly the unknown formats seen; each
      aircraft is filed under its own address; the three timestamps are set
      exactly when some known message has arrived; and the most recent
      message time is at least every aircraft's last-seen time. */
  ghost predicate Invariant(s: TrackerState) {
    && s.numMessages == Total(s.knownMessageCounts) + s.numUnknownMessages
    && s.numUnknownMessages == Total(s.unknownMessageCounts)
    && s.unknownMessageData.Keys == s.unknownMessageCounts.Keys
    && (forall df :: df in s.unknownMessageCounts ==> s.unknownMessageCounts[df] > 0)
    && (forall df :: df in s.knownMessageCounts ==> s.knownMessageCounts[df] > 0)
    && KeyedByAddress(s.aircraft)
    && (s.aircraft == map[] <==> Total(s.knownMessageCounts) == 0)
    && (s.aircraft == map[] <==> s.mostRecentMessageTime.None?)
    && (s.aircraft == map[] <==> s.firstMessageRealTime.None?)
    && (s.aircraft == map[] <==> s.mostRecentMessageRealTime.None?)
    && (s.mostRecentMessageTime.Some? ==>
          forall k :: k in s.aircraft ==> s.aircraft[k].lastSeen <= s.mostRecentMessageTime.value)
  }

  lemma InitInvariant()
    ensures Invariant(Init())
  {
    SumBelowEmpty(FormatCount());
  }

  /** The histogram key for a time between fixes: the milliseconds rounded
      toward zero to a multiple of 100, `100 * (ms / 100)` in `i64`. */
  function Bucket(ms: Millis): (b: int)
    ensures b % 100 == 0
    ensures ms >= 0 ==> 0 <= b <= ms < b + 100
    ensures ms < 0 ==> b - 100 < ms <= b <= 0
  {
    100 * TruncDiv(ms, 100)
  }

  /** The later of the stored most recent time and `time`; a tie keeps the
      stored one. */
  function LaterTime(recent: Option<Millis>, time: Millis): (t: Millis)
    ensures time <= t
    ensures recent.Some? ==> recent.value <= t
    ensures t == time || (recent.Some? && t == recent.value)
  {
    match recent
    case Some(r) => if r < time then time else r
    case None => time
  }

  /** The field updates a known message carries to its aircraft record, and
      the time since the previous fix when an airborne position makes one. */
  function ApplyReport(a: AircraftRecord, kind: MessageKind, time: Millis, resolve: Resolver)
    : (AircraftRecord, Option<Millis>)
  {
    match kind
    case AdsbMessage(_, AircraftIdentification(callsign)) =>
      (a.(callsign := Some(Trim(callsign))), None)
    case AdsbMessage(_, AirbornePosition(altitude, cprFrame)) =>
      PositionAfter(a.(altitude := Some(altitude)), cprFrame, time, resolve)
    case AdsbMessage(_, AirborneVelocity(heading, groundSpeed, verticalRate, source)) =>
      (a.(heading := Some(heading), groundSpeed := Some(groundSpeed),
          verticalRate := Some(verticalRate), verticalRateSource := Some(source)), None)
    case ModeSMessage(_, SurveillanceIdentity(squawk)) =>
      (a.(squawk := Some(squawk)), None)
    case Unknown => (a, None)
  }

  /** The record a message from `icao` at `time` updates: the tracked one,
      or a fresh one if the address is new. */
  function RecordFor(aircraft: map<Icao, AircraftRecord>, icao: Icao, time: Millis): AircraftRecord {
    if icao in aircraft then aircraft[icao] else NewAircraft(icao, time)
  }

  /** `update_unknown_message_statistics` */
  function AfterUnknown(s: TrackerState, df: byte, data: seq<byte>): TrackerState {
    s.(unknownMessageCounts := Increment(s.unknownMessageCounts, df),
       unknownMessageData := s.unknownMessageData[df := data],
       numUnknownMessages := s.numUnknownMessages + 1)
  }

  /** `update_with_message` on a state value. `data` is the raw frame and
      `now` the wall-clock reading taken when the call starts. */
  function AfterMessage(s: TrackerState, message: Message, data: seq<byte>, time: Millis, now: Millis,
                        resolve: Resolver): TrackerState
  {
    var counted := s.(numMessages := s.numMessages + 1);
    if message.kind.Unknown? then AfterUnknown(counted, message.downlinkFormat, data)
    else AfterKnown(counted, message, time, now, resolve)
  }

  /** The aircraft table after a known message from `icao` is filed: its
      record (created on first sight) takes the report and is marked seen at
      `time`; also the time since the previous fix, if the report made one. */
  function Filed(aircraft: map<Icao, AircraftRecord>, icao: Icao, kind: MessageKind, time: Millis,
                 resolve: Resolver): (map<Icao, AircraftRecord>, Option<Millis>)
  {
    var report := ApplyReport(RecordFor(aircraft, icao, time), kind, time, resolve);
    (aircraft[icao := report.0.(lastSeen := time)], report.1)
  }

  /** The histogram step: a new fix counts once more in the bucket of the
      time since the aircraft's previous fix. */
  function RecordFix(s: TrackerState, interval: Option<Millis>): TrackerState {
    if interval.Some? then s.(posUpdateTimes := Increment(s.posUpdateTimes, Bucket(interval.value)))
    else s
  }

  /** The timestamp step: the most recent event time becomes the later of it
      and `time`, the first wall-clock stamp is set once, the latest one
      always. */
  function StampTimes(s: TrackerState, time: Millis, now: Millis): TrackerState {
    s.(mostRecentMessageTime := Some(LaterTime(s.mostRecentMessageTime, time)),
       firstMessageRealTime := if s.firstMessageRealTime.None? then Some(now) else s.firstMessageRealTime,
       mostRecentMessageRealTime := Some(now))
  }

  /** The part of `update_with_message` after the message is counted, for a
      message from a known sender. */
  function AfterKnown(s: TrackerState, message: Message, time: Millis, now: Millis, resolve: Resolver)
    : TrackerState
    requires !message.kind.Unknown?
  {
    var filed := Filed(s.aircraft, message.kind.icaoAddress, message.kind, time, resolve);
    StampTimes(RecordFix(Counted(s, message.downlinkFormat, filed.0), filed.1), time, now)
  }

  /** The known-message counting step: format `df` counted once more and the
      aircraft table replaced by `filed`. */
  function Counted(s: TrackerState, df: byte, filed: map<Icao, AircraftRecord>): TrackerState {
    s.(knownMessageCounts := Increment(s.knownMessageCounts, df), aircraft := filed)
  }

  /** A report never changes which aircraft a record belongs to. */
  lemma ApplyReportKeepsAddress(a: AircraftRecord, kind: MessageKind, time: Millis, resolve: Resolver)
    ensures ApplyReport(a, kind, time, resolve).0.icaoAddress == a.icaoAddress
    ensures ApplyReport(a, kind, time, resolve).0.lastSeen == a.lastSeen
    ensures ApplyReport(a, kind, time, resolve).1.Some? ==>
              kind.AdsbMessage? && kind.adsb.AirbornePosition?
  {
    if kind.AdsbMessage? && kind.adsb.AirbornePosition? {
      PositionAfterStores(a.(altitude := Some(kind.adsb.altitude)), kind.adsb.cprFrame, time, resolve);
    }
  }

  /** An identification stores the callsign with surrounding whitespace
      removed: a piece of the broadcast callsign that neither starts nor ends
      in whitespace, and nothing else of the record changes. */
  lemma IdentificationStoresTrimmedCallsign(a: AircraftRecord, icao: Icao, callsign: string, time: Millis,
                                            resolve: Resolver)
    ensures var (r, interval) := ApplyReport(a, AdsbMessage(icao, AircraftIdentification(callsign)), time, resolve);
      && interval.None? && r.callsign.Some? && r.(callsign := a.callsign) == a
      && (exists i, j :: 0 <= i <= j <= |callsign| && r.callsign.value == callsign[i..j])
      && (r.callsign.value == [] || (!IsWhitespace(r.callsign.value[0])
                                     && !IsWhitespace(r.callsign.value[|r.callsign.value| - 1])))
  {
    TrimIsInfix(callsign);
  }

  /** Every message is counted once: as known or as unknown for its downlink
      format, never both. */
  lemma AfterMessageCountsOnce(s: TrackerState, message: Message, data: seq<byte>, time: Millis, now: Millis,
                               resolve: Resolver)
    ensures var r := AfterMessage(s, message, data, time, now, resolve);
      var df := message.downlinkFormat;
      && r.numMessages == s.numMessages + 1
      && (if message.kind.Unknown? then
            && Get(r.unknownMessageCounts, df) == Get(s.unknownMessageCounts, df) + 1
            && Total(r.unknownMessageCounts) == Total(s.unknownMessageCounts) + 1
            && r.numUnknownMessages == s.numUnknownMessages + 1
            && r.knownMessageCounts == s.knownMessageCounts
          else
            && Get(r.knownMessageCounts, df) == Get(s.knownMessageCounts, df) + 1
            && Total(r.knownMessageCounts) == Total(s.knownMessageCounts) + 1
            && r.numUnknownMessages == s.numUnknownMessages
            && r.unknownMessageCounts == s.unknownMessageCounts)
  {
    TotalIncrement(s.unknownMessageCounts, message.downlinkFormat);
    TotalIncrement(s.knownMessageCounts, message.downlinkFormat);
  }

  /** An unknown message only feeds the unknown-message statistics: its
      frame becomes the latest sample for its downlink format, and no
      aircraft, timestamp or histogram changes. */
  lemma AfterUnknownMessage(s: TrackerState, message: Message, data: seq<byte>, time: Millis, now: Millis,
                            resolve: Resolver)
    requires message.kind.Unknown?
    ensures var r := AfterMessage(s, message, data, time, now, resolve);
      && r.unknownMessageData == s.unknownMessageData[message.downlinkFormat := data]
      && r.aircraft == s.aircraft && r.posUpdateTimes == s.posUpdateTimes
      && r.mostRecentMessageTime == s.mostRecentMessageTime
      && r.firstMessageRealTime == s.firstMessageRealTime
      && r.mostRecentMessageRealTime == s.mostRecentMessageRealTime
  {
  }

  /** A known message is filed under its sender's address (created on first
      sight), marks it seen at the message's time, leaves every other aircraft
      as it was, advances the most recent message time to the later of the two,
      and stamps the wall clock. */
  lemma AfterKnownMessage(s: TrackerState, message: Message, data: seq<byte>, time: Millis, now: Millis,
                          resolve: Resolver)
    requires KeyedByAddress(s.aircraft)
    requires !message.kind.Unknown?
    ensures var r := AfterMessage(s, message, data, time, now, resolve);
      var icao := MessageIcao(message).value;
      && r.aircraft.Keys == s.aircraft.Keys + {icao}
      && r.aircraft[icao].icaoAddress == icao
      && r.aircraft[icao].lastSeen == time
      && (forall k :: k in s.aircraft && k != icao ==> r.aircraft[k] == s.aircraft[k])
      && r.mostRecentMessageTime.Some? && time <= r.mostRecentMessageTime.value
      && (s.mostRecentMessageTime.Some? ==> s.mostRecentMessageTime.value <= r.mostRecentMessageTime.value)
      && (r.mostRecentMessageTime == Some(time) || r.mostRecentMessageTime == s.mostRecentMessageTime)
      && r.firstMessageRealTime == (if s.firstMessageRealTime.Some? then s.firstMessageRealTime else Some(now))
      && r.mostRecentMessageRealTime == Some(now)
      && r.unknownMessageData == s.unknownMessageData
  {
    var icao := message.kind.icaoAddress;
    assert MessageIcao(message) == Some(icao);
    var filed := Filed(s.aircraft, icao, message.kind, time, resolve);
    FiledUnderAddress(s.aircraft, icao, message.kind, time, resolve);
    KnownMessageSteps(s, message, data, time, now, resolve);
    StampedFix(Counted(s.(numMessages := s.numMessages + 1), message.downlinkFormat, filed.0), filed.1, time, now);
  }

  /** A known message goes through `update_with_message` step by step:
      counted and filed, then the histogram, then the timestamps. */
  lemma KnownMessageSteps(s: TrackerState, message: Message, data: seq<byte>, time: Millis, now: Millis,
                          resolve: Resolver)
    requires !message.kind.Unknown?
    ensures var filed := Filed(s.aircraft, message.kind.icaoAddress, message.kind, time, resolve);
      AfterMessage(s, message, data, time, now, resolve)
      == StampTimes(RecordFix(Counted(s.(numMessages := s.numMessages + 1), message.downlinkFormat, filed.0),
                              filed.1), time, now)
  {
    var plusOne := s.(numMessages := s.numMessages + 1);
    assert AfterMessage(s, message, data, time, now, resolve) == AfterKnown(plusOne, message, time, now, resolve);
  }

  /** The histogram and timestamp steps touch nothing but the histogram and
      the three timestamps. */
  lemma StampedFix(s: TrackerState, interval: Option<Millis>, time: Millis, now: Millis)
    ensures var r := StampTimes(RecordFix(s, interval), time, now);
      && r.aircraft == s.aircraft && r.unknownMessageData == s.unknownMessageData
      && r.mostRecentMessageTime == Some(LaterTime(s.mostRecentMessageTime, time))
      && r.firstMessageRealTime == (if s.firstMessageRealTime.Some? then s.firstMessageRealTime else Some(now))
      && r.mostRecentMessageRealTime == Some(now)
  {
  }

  /** Filing a report adds `icao` to the table, under its own address and
      seen at `time`, and leaves every other aircraft alone. */
  lemma FiledUnderAddress(aircraft: map<Icao, AircraftRecord>, icao: Icao, kind: MessageKind, time: Millis,
                          resolve: Resolver)
    requires KeyedByAddress(aircraft)
    ensures var f := Filed(aircraft, icao, kind, time, resolve).0;
      && f.Keys == aircraft.Keys + {icao}
      && f[icao].icaoAddress == icao && f[icao].lastSeen == time
      && (forall k :: k in aircraft && k != icao ==> f[k] == aircraft[k])
  {
    ApplyReportKeepsAddress(RecordFor(aircraft, icao, time), kind, time, resolve);
  }

  /** The first message from an aircraft not yet tracked creates a record
      holding only what that message reports: an identification gives a
      record with a callsign and nothing else. */
  lemma FirstSightingIdentification(s: TrackerState, df: byte, icao: Icao, callsign: string, data: seq<byte>,
                                    time: Millis, now: Millis, resolve: Resolver)
    requires icao !in s.aircraft
    ensures var r := AfterMessage(s, Message(df, AdsbMessage(icao, AircraftIdentification(callsign))),
                                  data, time, now, resolve);
      r.aircraft[icao] == NewAircraft(icao, time).(callsign := Some(Trim(callsign)))
  {
    var kind := AdsbMessage(icao, AircraftIdentification(callsign));
    var first := NewAircraft(icao, time);
    assert RecordFor(s.aircraft, icao, time) == first;
    assert Filed(s.aircraft, icao, kind, time, resolve).0[icao]
        == first.(callsign := Some(Trim(callsign)), lastSeen := time);
  }

  /** The position histogram gains one entry, in the bucket of the time since
      the aircraft's previous fix, exactly when an airborne position makes a
      new fix for an aircraft that already had one; otherwise it is
      unchanged. A first sighting is the record `NewAircraft` gives, which
      has no previous fix. */
  lemma HistogramCountsRepeatFixes(s: TrackerState, df: byte, icao: Icao, altitude: u16, frame: CprFrame,
                                   data: seq<byte>, time: Millis, now: Millis, resolve: Resolver)
    ensures var a := RecordFor(s.aircraft, icao, time);
      var r := AfterMessage(s, Message(df, AdsbMessage(icao, AirbornePosition(altitude, frame))),
                            data, time, now, resolve);
      if Resolves(a, frame, time, resolve) && a.lastPosSeen.Some? then
        r.posUpdateTimes == Increment(s.posUpdateTimes, Bucket(time - a.lastPosSeen.value))
      else
        r.posUpdateTimes == s.posUpdateTimes
  {
    var a := RecordFor(s.aircraft, icao, time);
    var b := a.(altitude := Some(altitude));
    var kind := AdsbMessage(icao, AirbornePosition(altitude, frame));
    PositionAfterFix(b, frame, time, resolve);
    assert Opposite(b, frame.parity) == Opposite(a, frame.parity);
    var filed := Filed(s.aircraft, icao, kind, time, resolve);
    assert filed.1 == PositionAfter(b, frame, time, resolve).1;
    KnownMessageSteps(s, Message(df, kind), data, time, now, resolve);
  }

  /** Messages other than airborne positions never touch the histogram. */
  lemma HistogramOnlyFromPositions(s: TrackerState, message: Message, data: seq<byte>, time: Millis,
                                   now: Millis, resolve: Resolver)
    requires !(message.kind.AdsbMessage? && message.kind.adsb.AirbornePosition?)
    ensures AfterMessage(s, message, data, time, now, resolve).posUpdateTimes == s.posUpdateTimes
  {
    if !message.kind.Unknown? {
      var icao := message.kind.icaoAddress;
      var record := RecordFor(s.aircraft, icao, time);
      ApplyReportKeepsAddress(record, message.kind, time, resolve);
    }
  }

  /** `update_with_message` keeps the tracker's invariant. */
  lemma AfterMessageInvariant(s: TrackerState, message: Message, data: seq<byte>, time: Millis, now: Millis,
                              resolve: Resolver)
    requires Invariant(s)
    ensures Invariant(AfterMessage(s, message, data, time, now, resolve))
  {
    AfterMessageCountsOnce(s, message, data, time, now, resolve);
    if message.kind.Unknown? {
      UnknownKeepsInvariant(s, message, data, time, now, resolve);
    } else {
      KnownKeepsInvariant(s, message, data, time, now, resolve);
    }
  }

  lemma UnknownKeepsInvariant(s: TrackerState, message: Message, data: seq<byte>, time: Millis, now: Millis,
                              resolve: Resolver)
    requires Invariant(s) && message.kind.Unknown?
    requires var r := AfterMessage(s, message, data, time, now, resolve);
      r.numUnknownMessages == s.numUnknownMessages + 1
      && Total(r.unknownMessageCounts) == Total(s.unknownMessageCounts) + 1
    ensures Invariant(AfterMessage(s, message, data, time, now, resolve))
  {
    var r := AfterMessage(s, message, data, time, now, resolve);
    assert r == s.(numMessages := s.numMessages + 1,
                   unknownMessageCounts := Increment(s.unknownMessageCounts, message.downlinkFormat),
                   unknownMessageData := s.unknownMessageData[message.downlinkFormat := data],
                   numUnknownMessages := s.numUnknownMessages + 1);
  }

  lemma KnownKeepsInvariant(s: TrackerState, message: Message, data: seq<byte>, time: Millis, now: Millis,
                            resolve: Resolver)
    requires Invariant(s) && !message.kind.Unknown?
    ensures Invariant(AfterMessage(s, message, data, time, now, resolve))
  {
    var r := AfterMessage(s, message, data, time, now, resolve);
    AfterKnownMessage(s, message, data, time, now, resolve);
    assert r.knownMessageCounts == Increment(s.knownMessageCounts, message.downlinkFormat);
    KnownStepKeepsInvariant(s, r, message.downlinkFormat, message.kind.icaoAddress, time);
  }

  /** The invariant survives any step that counts one known message of
      format `df`, files its sender `icao` as seen at `time` without
      disturbing the other aircraft, and advances the timestamps. */
  lemma KnownStepKeepsInvariant(s: TrackerState, r: TrackerState, df: byte, icao: Icao, time: Millis)
    requires Invariant(s)
    requires r.numMessages == s.numMessages + 1 && r.numUnknownMessages == s.numUnknownMessages
    requires r.unknownMessageCounts == s.unknownMessageCounts && r.unknownMessageData == s.unknownMessageData
    requires r.knownMessageCounts == Increment(s.knownMessageCounts, df)
    requires r.aircraft.Keys == s.aircraft.Keys + {icao}
    requires icao in r.aircraft && r.aircraft[icao].icaoAddress == icao && r.aircraft[icao].lastSeen == time
    requires forall k :: k in s.aircraft && k != icao ==> k in r.aircraft && r.aircraft[k] == s.aircraft[k]
    requires r.mostRecentMessageTime.Some? && time <= r.mostRecentMessageTime.value
    requires s.mostRecentMessageTime.Some? ==> s.mostRecentMessageTime.value <= r.mostRecentMessageTime.value
    requires r.firstMessageRealTime.Some? && r.mostRecentMessageRealTime.Some?
    ensures Invariant(r)
  {
    TotalIncrement(s.knownMessageCounts, df);
    forall k | k in r.aircraft
      ensures r.aircraft[k].icaoAddress == k && r.aircraft[k].lastSeen <= r.mostRecentMessageTime.value
    {
      if k != icao {
        assert k in s.aircraft;
      }
    }
  }

  /** One decoded message as the tracker receives it. */
  datatype Delivery = Delivery(message: Message, data: seq<byte>, time: Millis, now: Millis)

  /** The tracker after a run of deliveries, in order. */
  function Feed(s: TrackerState, ds: seq<Delivery>, resolve: Resolver): TrackerState
    decreases |ds|
  {
    if ds == [] then s
    else Feed(AfterMessage(s, ds[0].message, ds[0].data, ds[0].time, ds[0].now, resolve), ds[1..], resolve)
  }

  /** How many deliveries carry an unknown message. */
  function CountUnknown(ds: seq<Delivery>): (n: nat)
    ensures n <= |ds|
  {
    if ds == [] then 0
    else (if ds[0].message.kind.Unknown? then 1 else 0) + CountUnknown(ds[1..])
  }

  /** Over any run of deliveries the invariant holds throughout, every
      delivery is counted, and the unknown ones are counted as unknown. */
  lemma {:induction false} FeedCounts(s: TrackerState, ds: seq<Delivery>, resolve: Resolver)
    requires Invariant(s)
    ensures var r := Feed(s, ds, resolve);
      && Invariant(r)
      && r.numMessages == s.numMessages + |ds|
      && r.numUnknownMessages == s.numUnknownMessages + CountUnknown(ds)
      && Total(r.knownMessageCounts) == Total(s.knownMessageCounts) + |ds| - CountUnknown(ds)
    decreases |ds|
  {
    if ds != [] {
      var d := ds[0];
      AfterMessageInvariant(s, d.message, d.data, d.time, d.now, resolve);
      AfterMessageCountsOnce(s, d.message, d.data, d.time, d.now, resolve);
      FeedCounts(AfterMessage(s, d.message, d.data, d.time, d.now, resolve), ds[1..], resolve);
    }
  }

  /** One message moves the most recent message time only if it is known,
      and then to the later of the two. */
  lemma MostRecentStep(s: TrackerState, message: Message, data: seq<byte>, time: Millis, now: Millis,
                       resolve: Resolver)
    ensures var r := AfterMessage(s, message, data, time, now, resolve).mostRecentMessageTime;
      if message.kind.Unknown? then r == s.mostRecentMessageTime
      else r == Some(LaterTime(s.mostRecentMessageTime, time))
  {
    if !message.kind.Unknown? {
      var filed := Filed(s.aircraft, message.kind.icaoAddress, message.kind, time, resolve);
      KnownMessageSteps(s, message, data, time, now, resolve);
      StampedFix(Counted(s.(numMessages := s.numMessages + 1), message.downlinkFormat, filed.0), filed.1, time, now);
    }
  }

  /** After a run of deliveries the most recent message time is the latest
      event time among the known messages and the time stored before, and it
      is one of them. */
  lemma {:induction false} FeedMostRecent(s: TrackerState, ds: seq<Delivery>, resolve: Resolver)
    ensures var r := Feed(s, ds, resolve).mostRecentMessageTime;
      && (forall i :: 0 <= i < |ds| && !ds[i].message.kind.Unknown? ==> r.Some? && ds[i].time <= r.value)
      && (s.mostRecentMessageTime.Some? ==> r.Some? && s.mostRecentMessageTime.value <= r.value)
      && (r == s.mostRecentMessageTime
          || exists i :: 0 <= i < |ds| && !ds[i].message.kind.Unknown? && r == Some(ds[i].time))
    decreases |ds|
  {
    if ds != [] {
      var d := ds[0];
      var s1 := AfterMessage(s, d.message, d.data, d.time, d.now, resolve);
      var r := Feed(s, ds, resolve).mostRecentMessageTime;
      assert r == Feed(s1, ds[1..], resolve).mostRecentMessageTime;
      MostRecentStep(s, d.message, d.data, d.time, d.now, resolve);
      FeedMostRecent(s1, ds[1..], resolve);
      forall i | 0 <= i < |ds| && !ds[i].message.kind.Unknown?
        ensures r.Some? && ds[i].time <= r.value
      {
        if i > 0 {
          assert ds[1..][i - 1] == ds[i];
        }
      }
      if r != s1.mostRecentMessageTime {
        var i :| 0 <= i < |ds[1..]| && !ds[1..][i].message.kind.Unknown? && r == Some(ds[1..][i].time);
        assert ds[i + 1] == ds[1..][i];
      } else if r != s.mostRecentMessageTime {
        assert r == Some(ds[0].time);
      }
    }
  }

  /** Three frames of an unknown downlink format: three messages, all of them
      unknown, one counter at three, the last frame kept as the sample, and
      no aircraft. */
  lemma UnknownThrice(d1: seq<byte>, d2: seq<byte>, d3: seq<byte>, resolve: Resolver)
    ensures var m := Message(20, Unknown);
      var r := Feed(Init(), [Delivery(m, d1, 1, 1), Delivery(m, d2, 2, 2), Delivery(m, d3, 3, 3)], resolve);
      && r.numMessages == 3 && r.numUnknownMessages == 3
      && r.unknownMessageCounts == map[20 := 3]
      && r.unknownMessageData == map[20 := d3]
      && r.aircraft == map[] && r.knownMessageCounts == map[]
  {
    var m := Message(20, Unknown);
    var ds := [Delivery(m, d1, 1, 1), Delivery(m, d2, 2, 2), Delivery(m, d3, 3, 3)];
    var s1 := AfterMessage(Init(), m, d1, 1, 1, resolve);
    var s2 := AfterMessage(s1, m, d2, 2, 2, resolve);
    var s3 := AfterMessage(s2, m, d3, 3, 3, resolve);
    assert s1.unknownMessageCounts == map[20 := 1];
    assert s2.unknownMessageCounts == map[20 := 2];
    assert s3.unknownMessageCounts == map[20 := 3];
    assert s3.unknownMessageData == map[20 := d3];
    assert ds[1..] == [Delivery(m, d2, 2, 2), Delivery(m, d3, 3, 3)];
    assert ds[1..][1..] == [Delivery(m, d3, 3, 3)];
    assert Feed(s3, [], resolve) == s3;
    assert Feed(s2, [Delivery(m, d3, 3, 3)], resolve) == s3;
    assert Feed(s1, ds[1..], resolve) == s3;
  }

  /** `get_current_aircraft`: the aircraft seen less than `interval` before
      `now`. */
  function CurrentAircraft(s: TrackerState, interval: Millis, now: Millis): set<AircraftRecord> {
    set a | a in s.aircraft.Values && now - a.lastSeen < interval
  }

  /** `get_all_aircraft` */
  function AllAircraft(s: TrackerState): set<AircraftRecord> {
    s.aircraft.Values
  }

  /** A longer window never drops an aircraft, and every current aircraft is
      a tracked one. */
  lemma CurrentAircraftMonotone(s: TrackerState, shorter: Millis, longer: Millis, now: Millis)
    requires shorter <= longer
    ensures CurrentAircraft(s, shorter, now) <= CurrentAircraft(s, longer, now) <= AllAircraft(s)
  {
  }

  /** An aircraft a known message just came from is current at that
      message's time for any positive window, and one seen exactly `interval`
      ago is not. */
  lemma JustSeenIsCurrent(s: TrackerState, message: Message, data: seq<byte>, time: Millis, now: Millis,
                          interval: Millis, resolve: Resolver)
    requires Invariant(s)
    requires !message.kind.Unknown? && interval > 0
    ensures var r := AfterMessage(s, message, data, time, now, resolve);
      && r.aircraft[message.kind.icaoAddress] in CurrentAircraft(r, interval, time)
      && r.aircraft[message.kind.icaoAddress] !in CurrentAircraft(r, interval, time + interval)
  {
    AfterKnownMessage(s, message, data, time, now, resolve);
  }

  /** The message rate `get_messages_per_second_real_time` reports:
      `1000 * n / ms` in floating point, which is infinite when no wall-clock
      time has passed. */
  datatype Rate = PerSecond(value: real) | Infinite

  function MessagesPerSecond(s: TrackerState): Option<Rate> {
    match s.firstMessageRealTime
    case Some(start) =>
      (match s.mostRecentMessageRealTime
       case Some(end) =>
         if end - start == 0 then Some(Infinite)
         else Some(PerSecond(1000.0 * s.numMessages as real / (end - start) as real))
       case None => None)
    case None => None
  }

  /** A rate is reported exactly when some known message has arrived; it is
      messages per elapsed wall-clock second, and infinite only when no time
      has elapsed. */
  lemma MessagesPerSecondMeaning(s: TrackerState)
    requires Invariant(s)
    ensures var r := MessagesPerSecond(s);
      && (r.Some? <==> s.aircraft != map[])
      && (r.Some? ==>
            var elapsed := s.mostRecentMessageRealTime.value - s.firstMessageRealTime.value;
            (r.value.Infinite? <==> elapsed == 0)
            && (r.value.PerSecond? ==> r.value.value * elapsed as real == 1000.0 * s.numMessages as real))
      && (r.Some? ==> s.numMessages > 0)
  {
  }
}
