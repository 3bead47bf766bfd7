/** The `Tracker`: the table of aircraft keyed by address, updated in place as
    messages arrive, with its message statistics. The constructor and the
    public updates (`UpdateWithMessage`, `UpdateWithAvr`, `UpdateWithBinary`)
    are proved to keep `Valid()` and to move the tracker's value exactly as
    `TrackerState` prescribes. The steps they are built from are proved only
    against their own step functions, over `State()` or over the aircraft
    table `Records()`; run alone, a step need not keep the invariant. */
module Tracking {
  import opened Common
  import opened Messages
  import opened Text
  import opened Avr
  import opened AircraftState
  import opened TrackerState

  /** Why an update with a raw frame did not happen: the message decoder
      rejected the frame, or the frame's hex digits did not parse, where the
      tracker gives up (`panic!`). */
  datatype UpdateError = Rejected(error: ParserError) | Aborted

  /** The message decoders the tracker calls; they are not part of this model. */
  type AvrDecoder = string -> Result<Message, ParserError>
  type BinaryDecoder = seq<byte> -> Result<Message, ParserError>

  /** `update_with_avr` on a state value: decode the message, recover the
      frame's bytes, and update; on any failure the state is untouched. An
      empty frame is one the tracker gives up on too (its length minus one
      underflows). */
  function AfterAvr(s: TrackerState, frame: string, time: Millis, now: Millis, decode: AvrDecoder,
                    resolve: Resolver): (Result<(), UpdateError>, TrackerState)
  {
    match decode(frame)
    case Err(e) => (Err(Rejected(e)), s)
    case Ok(message) =>
      if |frame| == 0 then (Err(Aborted), s)
      else
        match ParseAvr(frame)
        case Ok(data) => (Ok(()), AfterMessage(s, message, data, time, now, resolve))
        case Err(_) => (Err(Aborted), s)
  }

  /** `update_with_binary` on a state value. */
  function AfterBinary(s: TrackerState, frame: seq<byte>, time: Millis, now: Millis, decode: BinaryDecoder,
                       resolve: Resolver): (Result<(), ParserError>, TrackerState)
  {
    match decode(frame)
    case Err(e) => (Err(e), s)
    case Ok(message) => (Ok(()), AfterMessage(s, message, frame, time, now, resolve))
  }

  /** A well-formed AVR line that the AVR decoder accepts, when the binary
      decoder returns the same message for the bytes it encodes, updates the
      tracker with exactly those bytes, just as the same bytes received in
      binary form do. */
  lemma AvrMatchesBinary(s: TrackerState, bytes: seq<byte>, time: Millis, now: Millis, decodeAvr: AvrDecoder,
                         decodeBinary: BinaryDecoder, message: Message, resolve: Resolver)
    requires decodeAvr(ToAvr(bytes)) == Ok(message) && decodeBinary(bytes) == Ok(message)
    ensures AfterAvr(s, ToAvr(bytes), time, now, decodeAvr, resolve).0 == Ok(())
    ensures AfterAvr(s, ToAvr(bytes), time, now, decodeAvr, resolve)
            == (Ok(()), AfterBinary(s, bytes, time, now, decodeBinary, resolve).1)
  {
    ParseToAvr(bytes);
  }

  /** A line the decoder accepts but whose hex digits do not parse aborts the
      update and leaves the tracker as it was. */
  lemma AvrBadDigitAborts(s: TrackerState, frame: string, k: nat, time: Millis, now: Millis,
                          decode: AvrDecoder, resolve: Resolver)
    requires |frame| >= 1 && decode(frame).Ok?
    requires k < PairCount(frame) && PairAt(frame, k).Err?
    ensures AfterAvr(s, frame, time, now, decode, resolve) == (Err(Aborted), s)
  {
    ParseAvrBadSlice(frame, k);
  }

  /** An AVR update keeps the invariant whether it succeeds or fails, and a
      failed one leaves the tracker as it was. */
  lemma AfterAvrInvariant(s: TrackerState, frame: string, time: Millis, now: Millis, decode: AvrDecoder,
                          resolve: Resolver)
    requires Invariant(s)
    ensures Invariant(AfterAvr(s, frame, time, now, decode, resolve).1)
    ensures AfterAvr(s, frame, time, now, decode, resolve).0.Err? ==>
              AfterAvr(s, frame, time, now, decode, resolve).1 == s
  {
    var d := decode(frame);
    if d.Ok? && |frame| > 0 && ParseAvr(frame).Ok? {
      AfterMessageInvariant(s, d.value, ParseAvr(frame).value, time, now, resolve);
    }
  }

  class Tracker {
    var aircraft: map<Icao, Aircraft>
    var numMessages: nat
    var numUnknownMessages: nat
    var unknownMessageCounts: map<byte, nat>
    var unknownMessageData: map<byte, seq<byte>>
    var knownMessageCounts: map<byte, nat>
    var mostRecentMessageTime: Option<Millis>
    var firstMessageRealTime: Option<Millis>
    var mostRecentMessageRealTime: Option<Millis>
    var posUpdateTimes: map<int, nat>

    /** The tracked aircraft as record values. */
    ghost function Records(): map<Icao, AircraftRecord>
      reads this`aircraft, aircraft.Values
    {
      map k | k in aircraft :: aircraft[k].Record()
    }

    /** The tracker's current value. */
    ghost function State(): TrackerState
      reads this, aircraft.Values
    {
      TrackerState(Records(), numMessages, numUnknownMessages, unknownMessageCounts, unknownMessageData,
                   knownMessageCounts, mostRecentMessageTime, firstMessageRealTime,
                   mostRecentMessageRealTime, posUpdateTimes)
    }

    /** Each aircraft object is filed under its own address (so no object is
        filed twice) and the value keeps the tracker's invariant. */
    ghost predicate Valid()
      reads this, aircraft.Values
    {
      && (forall k :: k in aircraft ==> aircraft[k].icaoAddress == k)
      && Invariant(State())
    }

    /** `Tracker::new` */
    constructor ()
      ensures Valid() && State() == Init()
    {
      aircraft := map[];
      numMessages, numUnknownMessages := 0, 0;
      unknownMessageCounts, unknownMessageData, knownMessageCounts := map[], map[], map[];
      mostRecentMessageTime, firstMessageRealTime, mostRecentMessageRealTime := None, None, None;
      posUpdateTimes := map[];
      new;
      assert Records() == map[];
      assert State() == Init();
      InitInvariant();
    }

    /** `update_unknown_message_statistics` */
    method UpdateUnknownMessageStatistics(df: byte, data: seq<byte>)
      modifies this
      ensures State() == AfterUnknown(old(State()), df, data)
      ensures aircraft == old(aircraft)
    {
      unknownMessageCounts := Increment(unknownMessageCounts, df);
      unknownMessageData := unknownMessageData[df := data];
      numUnknownMessages := numUnknownMessages + 1;
    }

    /** `update_with_message`; `now` is the wall-clock reading the call takes. */
    method UpdateWithMessage(message: Message, data: seq<byte>, time: Millis, now: Millis, resolve: Resolver)
      requires Valid()
      modifies this, aircraft.Values
      ensures Valid()
      ensures State() == AfterMessage(old(State()), message, data, time, now, resolve)
    {
      ghost var s0 := State();
      ApplyMessage(message, data, time, now, resolve);
      AfterMessageInvariant(s0, message, data, time, now, resolve);
    }

    /** The body of `update_with_message`, proved against `AfterMessage`
        without the invariant in view. */
    method ApplyMessage(message: Message, data: seq<byte>, time: Millis, now: Millis, resolve: Resolver)
      requires forall k :: k in aircraft ==> aircraft[k].icaoAddress == k
      modifies this, aircraft.Values
      ensures forall k :: k in aircraft ==> aircraft[k].icaoAddress == k
      ensures State() == AfterMessage(old(State()), message, data, time, now, resolve)
    {
      numMessages := numMessages + 1;
      if message.kind.Unknown? {
        UpdateUnknownMessageStatistics(message.downlinkFormat, data);
      } else {
        ApplyKnownMessage(message, time, now, resolve);
      }
    }

    /** `update_with_message` from the point where a message from a known
        sender has been counted. */
    method ApplyKnownMessage(message: Message, time: Millis, now: Millis, resolve: Resolver)
      requires !message.kind.Unknown?
      requires forall k :: k in aircraft ==> aircraft[k].icaoAddress == k
      modifies this, aircraft.Values
      ensures forall k :: k in aircraft ==> aircraft[k].icaoAddress == k
      ensures State() == AfterKnown(old(State()), message, time, now, resolve)
    {
      ghost var s0 := State();
      knownMessageCounts := Increment(knownMessageCounts, message.downlinkFormat);
      ghost var counted := s0.(knownMessageCounts := knownMessageCounts);
      assert State() == counted;
      var icao := message.kind.icaoAddress;
      var interval := UpdateAircraft(icao, message.kind, time, resolve);
      ghost var filed := Filed(s0.aircraft, icao, message.kind, time, resolve);
      assert State() == counted.(aircraft := filed.0);
      RecordInterval(interval);
      assert State() == RecordFix(counted.(aircraft := filed.0), filed.1);
      UpdateMessageTimes(time, now);
    }

    /** The histogram step of `update_with_message`: a new fix counts one
        more in the bucket of the time since the previous one. */
    method RecordInterval(interval: Option<Millis>)
      modifies this`posUpdateTimes
      ensures State() == RecordFix(old(State()), interval)
    {
      if interval.Some? {
        posUpdateTimes := Increment(posUpdateTimes, Bucket(interval.value));
      }
    }

    /** The aircraft half of `update_with_message` for a known message: file
        the report under `icao` (creating the record on first sight) and mark
        it seen at `time`. */
    method UpdateAircraft(icao: Icao, kind: MessageKind, time: Millis, resolve: Resolver)
      returns (interval: Option<Millis>)
      requires forall k :: k in aircraft ==> aircraft[k].icaoAddress == k
      modifies this`aircraft, aircraft.Values
      ensures forall k :: k in aircraft ==> aircraft[k].icaoAddress == k
      ensures (Records(), interval) == Filed(old(Records()), icao, kind, time, resolve)
    {
      ghost var before := Records();
      var a := FindOrInsert(icao, time);
      ghost var record := a.Record();
      assert record == RecordFor(before, icao, time);
      ghost var inserted := Records();
      interval := UpdateFiled(a, kind, time, resolve);
      ghost var report := ApplyReport(record, kind, time, resolve);
      assert a.Record() == report.0.(lastSeen := time);
      assert Records() == inserted[icao := a.Record()];
      assert inserted[icao := a.Record()] == before[icao := a.Record()];
    }

    /** The timestamp half of `update_with_message`: the most recent event
        time becomes the later of it and `time`, the first wall-clock stamp is
        set once, the latest one always. */
    method UpdateMessageTimes(time: Millis, now: Millis)
      modifies this`mostRecentMessageTime, this`firstMessageRealTime, this`mostRecentMessageRealTime
      ensures State() == StampTimes(old(State()), time, now)
    {
      var recent := mostRecentMessageTime;
      match recent {
        case Some(mostRecentTime) =>
          if mostRecentTime < time {
            recent := Some(time);
          }
        case None =>
          recent := Some(time);
      }
      var first := firstMessageRealTime;
      if first.None? {
        first := Some(now);
      }
      mostRecentMessageTime, firstMessageRealTime, mostRecentMessageRealTime := recent, first, Some(now);
    }

    /** The `entry(icao).or_insert_with(..)` step of `update_with_message`:
        the aircraft filed under `icao`, created and filed if there is none. */
    method FindOrInsert(icao: Icao, time: Millis) returns (a: Aircraft)
      requires forall k :: k in aircraft ==> aircraft[k].icaoAddress == k
      modifies this`aircraft
      ensures a.icaoAddress == icao && aircraft == old(aircraft)[icao := a]
      ensures a in old(aircraft.Values) || fresh(a)
      ensures forall k :: k in aircraft ==> aircraft[k].icaoAddress == k
      ensures a.Record() == RecordFor(old(Records()), icao, time)
      ensures Records() == old(Records())[icao := a.Record()]
    {
      if icao in aircraft {
        a := aircraft[icao];
      } else {
        a := new Aircraft(icao, time);
        aircraft := aircraft[icao := a];
      }
    }

    /** Writes a known message's report into the aircraft filed under its
        address and marks it seen at `time`; no other aircraft changes. */
    method UpdateFiled(a: Aircraft, kind: MessageKind, time: Millis, resolve: Resolver)
      returns (interval: Option<Millis>)
      requires a.icaoAddress in aircraft && aircraft[a.icaoAddress] == a
      requires forall k :: k in aircraft ==> aircraft[k].icaoAddress == k
      modifies a
      ensures Records() == old(Records())[a.icaoAddress := a.Record()]
      ensures var report := ApplyReport(old(a.Record()), kind, time, resolve);
        a.Record() == report.0.(lastSeen := time) && interval == report.1
    {
      interval := ApplyReportTo(a, kind, time, resolve);
      a.lastSeen := time;
      assert a.Record() == ApplyReport(old(a.Record()), kind, time, resolve).0.(lastSeen := time);
      forall k | k in aircraft && k != a.icaoAddress
        ensures aircraft[k].Record() == old(aircraft[k].Record())
      {
        assert aircraft[k] != a;
      }
    }

    /** The part of `update_with_message` that writes the reported fields
        into the aircraft's record, including `update_position` for an
        airborne position. */
    static method ApplyReportTo(a: Aircraft, kind: MessageKind, time: Millis, resolve: Resolver)
      returns (interval: Option<Millis>)
      modifies a
      ensures (a.Record(), interval) == ApplyReport(old(a.Record()), kind, time, resolve)
    {
      interval := None;
      match kind {
        case AdsbMessage(_, AircraftIdentification(callsign)) =>
          a.callsign := Some(Trim(callsign));
        case AdsbMessage(_, AirbornePosition(altitude, cprFrame)) =>
          a.altitude := Some(altitude);
          interval := a.UpdatePosition(cprFrame, time, resolve);
        case AdsbMessage(_, AirborneVelocity(heading, groundSpeed, verticalRate, source)) =>
          a.heading := Some(heading);
          a.groundSpeed := Some(groundSpeed);
          a.verticalRate := Some(verticalRate);
          a.verticalRateSource := Some(source);
        case ModeSMessage(_, SurveillanceIdentity(squawk)) =>
          a.squawk := Some(squawk);
        case Unknown =>
      }
    }

    /** `update_with_avr`: decode, recover the bytes, update; on failure the
        tracker is unchanged. */
    method UpdateWithAvr(frame: string, time: Millis, now: Millis, decode: AvrDecoder, resolve: Resolver)
      returns (r: Result<(), UpdateError>)
      requires Valid()
      modifies this, aircraft.Values
      ensures Valid()
      ensures (r, State()) == AfterAvr(old(State()), frame, time, now, decode, resolve)
    {
      var decoded := decode(frame);
      if decoded.Err? {
        return Err(Rejected(decoded.error));
      }
      if |frame| == 0 {
        return Err(Aborted);
      }
      var data := ParseAvr(frame);
      match data {
        case Ok(bytes) =>
          UpdateWithMessage(decoded.value, bytes, time, now, resolve);
          r := Ok(());
        case Err(_) =>
          r := Err(Aborted);
      }
    }

    /** `update_with_binary` */
    method UpdateWithBinary(frame: seq<byte>, time: Millis, now: Millis, decode: BinaryDecoder,
                            resolve: Resolver)
      returns (r: Result<(), ParserError>)
      requires Valid()
      modifies this, aircraft.Values
      ensures Valid()
      ensures (r, State()) == AfterBinary(old(State()), frame, time, now, decode, resolve)
    {
      var decoded := decode(frame);
      if decoded.Err? {
        return Err(decoded.error);
      }
      UpdateWithMessage(decoded.value, frame, time, now, resolve);
      r := Ok(());
    }

    /** `get_current_aircraft` */
    method GetCurrentAircraft(interval: Millis, now: Millis) returns (r: set<Aircraft>)
      requires Valid()
      ensures r == set a | a in aircraft.Values && now - a.lastSeen < interval
      ensures (set a | a in r :: a.Record()) == CurrentAircraft(State(), interval, now)
    {
      r := set k | k in aircraft && now - aircraft[k].lastSeen < interval :: aircraft[k];
      forall x | x in CurrentAircraft(State(), interval, now)
        ensures x in set a | a in r :: a.Record()
      {
        var k :| k in Records() && Records()[k] == x;
        assert aircraft[k] in r;
      }
      forall x | x in set a | a in r :: a.Record()
        ensures x in CurrentAircraft(State(), interval, now)
      {
        var a :| a in r && a.Record() == x;
        var k :| k in aircraft && aircraft[k] == a;
        assert Records()[k] == x;
      }
    }

    /** `get_all_aircraft` */
    method GetAllAircraft() returns (r: set<Aircraft>)
      requires Valid()
      ensures r == aircraft.Values
      ensures (set a | a in r :: a.Record()) == AllAircraft(State())
    {
      r := set k | k in aircraft :: aircraft[k];
      forall x | x in AllAircraft(State())
        ensures x in set a | a in r :: a.Record()
      {
        var k :| k in Records() && Records()[k] == x;
        assert aircraft[k] in r;
      }
      forall x | x in set a | a in r :: a.Record()
        ensures x in AllAircraft(State())
      {
        var a :| a in r && a.Record() == x;
        var k :| k in aircraft && aircraft[k] == a;
        assert Records()[k] == x;
      }
    }

    /** `get_num_messages`: every message, known or unknown. */
    method GetNumMessages() returns (n: nat)
      requires Valid()
      ensures n == numMessages == Total(knownMessageCounts) + numUnknownMessages
    {
      n := numMessages;
    }

    /** `get_num_unknown_messages` */
    method GetNumUnknownMessages() returns (n: nat)
      requires Valid()
      ensures n == numUnknownMessages == Total(unknownMessageCounts)
      ensures n <= numMessages
    {
      n := numUnknownMessages;
    }

    /** `get_unknown_message_statistics`: the count per unknown downlink
        format, each at least one. */
    method GetUnknownMessageStatistics() returns (r: map<byte, nat>)
      requires Valid()
      ensures r == unknownMessageCounts && Total(r) == numUnknownMessages
      ensures forall df :: df in r ==> 0 < r[df] <= numUnknownMessages
    {
      r := unknownMessageCounts;
      forall df | df in r
        ensures r[df] <= numUnknownMessages
      {
        SumBelowBounds(r, df, FormatCount());
      }
    }

    /** `get_unknown_message_data`: the latest frame of each unknown downlink
        format, for exactly the formats counted. */
    method GetUnknownMessageData() returns (r: map<byte, seq<byte>>)
      requires Valid()
      ensures r == unknownMessageData && r.Keys == unknownMessageCounts.Keys
    {
      r := unknownMessageData;
    }

    /** `get_known_message_statistics` */
    method GetKnownMessageStatistics() returns (r: map<byte, nat>)
      requires Valid()
      ensures r == knownMessageCounts && Total(r) + numUnknownMessages == numMessages
      ensures forall df :: df in r ==> 0 < r[df]
      ensures (Total(r) == 0) <==> aircraft == map[]
    {
      r := knownMessageCounts;
    }

    /** `get_most_recent_message_time`: absent until a known message arrives,
        then no earlier than any aircraft's last-seen time. */
    method GetMostRecentMessageTime() returns (r: Option<Millis>)
      requires Valid()
      ensures r == mostRecentMessageTime
      ensures r.None? <==> aircraft == map[]
      ensures r.Some? ==> forall a :: a in aircraft.Values ==> a.lastSeen <= r.value
    {
      r := mostRecentMessageTime;
      if r.Some? {
        forall a | a in aircraft.Values
          ensures a.lastSeen <= r.value
        {
          var k :| k in aircraft && aircraft[k] == a;
          assert Records()[k] == a.Record();
        }
      }
    }

    /** `get_messages_per_second_real_time` */
    method GetMessagesPerSecondRealTime() returns (r: Option<Rate>)
      requires Valid()
      ensures r == MessagesPerSecond(State())
      ensures r.Some? <==> aircraft != map[]
    {
      match firstMessageRealTime {
        case Some(start) =>
          match mostRecentMessageRealTime {
            case Some(end) =>
              if end - start == 0 {
                r := Some(Infinite);
              } else {
                r := Some(PerSecond(1000.0 * numMessages as real / (end - start) as real));
              }
            case None =>
              r := None;
          }
        case None =>
          r := None;
      }
      MessagesPerSecondMeaning(State());
    }
  }
}
