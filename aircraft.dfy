/** One tracked aircraft (`Aircraft` in the tracker): its latest reported
    fields and the Compact Position Reporting pairing state machine
    (`update_position`) that turns an even and an odd half into a fix. */
module AircraftState {
  import opened Common
  import opened Messages

  /** A stored CPR half with the event time it arrived at. */
  datatype Fragment = Fragment(frame: CprFrame, time: Millis)

  /** The value of an aircraft record: what a snapshot of `Aircraft` holds. */
  datatype AircraftRecord = AircraftRecord(
    icaoAddress: Icao,
    callsign: Option<string>,
    squawk: Option<Squawk>,
    altitude: Option<u16>,
    heading: Option<real>,
    groundSpeed: Option<real>,
    verticalRate: Option<i16>,
    latitude: Option<real>,
    longitude: Option<real>,
    verticalRateSource: Option<VerticalRateSource>,
    lastSeen: Millis,
    lastCprEven: Option<Fragment>,
    lastCprOdd: Option<Fragment>,
    lastPosSeen: Option<Millis>)

  /** `Aircraft::new`: a record for an address first seen at `time`, with
      nothing known about it yet. */
  function NewAircraft(icaoAddress: Icao, time: Millis): (a: AircraftRecord)
    ensures a.icaoAddress == icaoAddress && a.lastSeen == time
    ensures a.callsign.None? && a.squawk.None? && a.altitude.None? && a.heading.None?
    ensures a.groundSpeed.None? && a.verticalRate.None? && a.verticalRateSource.None?
    ensures a.latitude.None? && a.longitude.None? && a.lastPosSeen.None?
    ensures a.lastCprEven.None? && a.lastCprOdd.None?
  {
    AircraftRecord(icaoAddress, None, None, None, None, None, None, None, None, None,
                   time, None, None, None)
  }

  /** `Duration::num_seconds`: whole seconds, truncated toward zero. */
  function NumSeconds(d: Millis): int {
    TruncDiv(d, 1000)
  }

  /** The pairing window: `delta.num_seconds().abs() <= 30`. */
  predicate WithinWindow(evenTime: Millis, oddTime: Millis) {
    Abs(NumSeconds(evenTime - oddTime)) <= 30
  }

  /** Because the seconds are truncated, "30 seconds" admits every gap
      shorter than 31 whole seconds, in either order. */
  lemma WithinWindowMillis(evenTime: Millis, oddTime: Millis)
    ensures WithinWindow(evenTime, oddTime) <==> -31000 < evenTime - oddTime < 31000
    ensures WithinWindow(evenTime, oddTime) == WithinWindow(oddTime, evenTime)
  {
  }

  /** The stored half of the other parity. */
  function Opposite(a: AircraftRecord, p: Parity): Option<Fragment> {
    if p == Even then a.lastCprOdd else a.lastCprEven
  }

  /** `update_position` on a record value: the new record and, when a fix
      was made and an earlier one existed, the time since that earlier fix. */
  function PositionAfter(a: AircraftRecord, frame: CprFrame, when: Millis, resolve: Resolver)
    : (AircraftRecord, Option<Millis>)
  {
    var stored := if frame.parity == Even then a.(lastCprEven := Some(Fragment(frame, when)))
                  else a.(lastCprOdd := Some(Fragment(frame, when)));
    if stored.lastCprEven.Some? && stored.lastCprOdd.Some? then
      var even := stored.lastCprEven.value;
      var odd := stored.lastCprOdd.value;
      if WithinWindow(even.time, odd.time) then
        var position := if frame.parity == Even then resolve(odd.frame, even.frame)
                        else resolve(even.frame, odd.frame);
        match position
        case Some(p) =>
          var fixed := stored.(latitude := Some(p.latitude), longitude := Some(p.longitude),
                               lastPosSeen := Some(when));
          (fixed, if a.lastPosSeen.Some? then Some(when - a.lastPosSeen.value) else None)
        case None => (stored, None)
      else (stored, None)
    else (stored, None)
  }

  /** When a fragment yields a fix: the other half is stored, the two are
      within the window, and the resolver, given the stored half first and the
      arriving half second, finds a coordinate. */
  predicate Resolves(a: AircraftRecord, frame: CprFrame, when: Millis, resolve: Resolver) {
    var other := Opposite(a, frame.parity);
    && other.Some?
    && (if frame.parity == Even then WithinWindow(when, other.value.time)
        else WithinWindow(other.value.time, when))
    && resolve(other.value.frame, frame).Some?
  }

  /** The arriving fragment overwrites its own slot only; the other slot and
      every field outside the position state are left as they were. */
  lemma PositionAfterStores(a: AircraftRecord, frame: CprFrame, when: Millis, resolve: Resolver)
    ensures var r := PositionAfter(a, frame, when, resolve).0;
      && (if frame.parity == Even then r.lastCprEven == Some(Fragment(frame, when)) && r.lastCprOdd == a.lastCprOdd
          else r.lastCprOdd == Some(Fragment(frame, when)) && r.lastCprEven == a.lastCprEven)
      && r.(latitude := a.latitude, longitude := a.longitude, lastPosSeen := a.lastPosSeen,
            lastCprEven := a.lastCprEven, lastCprOdd := a.lastCprOdd) == a
  {
  }

  /** The fix changes exactly when `Resolves` holds: then the coordinate is the
      resolver's answer for (stored half, arriving half), the fix time is
      `when`, and the interval since the previous fix is reported if there was
      one; otherwise latitude, longitude and fix time are untouched and no
      interval is reported. */
  lemma PositionAfterFix(a: AircraftRecord, frame: CprFrame, when: Millis, resolve: Resolver)
    ensures var (r, interval) := PositionAfter(a, frame, when, resolve);
      if Resolves(a, frame, when, resolve) then
        var p := resolve(Opposite(a, frame.parity).value.frame, frame).value;
        && r.latitude == Some(p.latitude) && r.longitude == Some(p.longitude)
        && r.lastPosSeen == Some(when)
        && interval == (if a.lastPosSeen.Some? then Some(when - a.lastPosSeen.value) else None)
      else
        && r.latitude == a.latitude && r.longitude == a.longitude
        && r.lastPosSeen == a.lastPosSeen && interval.None?
  {
  }

  /** Without a stored half of the other parity nothing is resolved. */
  lemma PositionAfterUnpaired(a: AircraftRecord, frame: CprFrame, when: Millis, resolve: Resolver)
    requires Opposite(a, frame.parity).None?
    ensures var (r, interval) := PositionAfter(a, frame, when, resolve);
      interval.None? && r.latitude == a.latitude && r.longitude == a.longitude
      && r.lastPosSeen == a.lastPosSeen
  {
    PositionAfterFix(a, frame, when, resolve);
  }

  /** A stale pair (31 seconds or more apart) is not resolved, and both halves
      stay stored for a later pairing. */
  lemma PositionAfterStale(a: AircraftRecord, frame: CprFrame, when: Millis, resolve: Resolver)
    requires Opposite(a, frame.parity).Some?
    requires var t := Opposite(a, frame.parity).value.time; when - t >= 31000 || t - when >= 31000
    ensures var (r, interval) := PositionAfter(a, frame, when, resolve);
      && interval.None? && r.latitude == a.latitude && r.longitude == a.longitude
      && r.lastPosSeen == a.lastPosSeen
      && r.lastCprEven.Some? && r.lastCprOdd.Some?
  {
    var t := Opposite(a, frame.parity).value.time;
    WithinWindowMillis(when, t);
    WithinWindowMillis(t, when);
    PositionAfterFix(a, frame, when, resolve);
    PositionAfterStores(a, frame, when, resolve);
  }

  /** `update_position` applied to a run of fragments in arrival order. */
  function FeedFragments(a: AircraftRecord, fragments: seq<Fragment>, resolve: Resolver): AircraftRecord
    decreases |fragments|
  {
    if fragments == [] then a
    else FeedFragments(PositionAfter(a, fragments[0].frame, fragments[0].time, resolve).0,
                       fragments[1..], resolve)
  }

  /** Halves of one parity alone never give a fix, however many arrive, as
      long as no half of the other parity is stored. */
  lemma {:induction false} SameParityNeverResolves(a: AircraftRecord, p: Parity, fragments: seq<Fragment>,
                                                    resolve: Resolver)
    requires Opposite(a, p).None?
    requires forall i :: 0 <= i < |fragments| ==> fragments[i].frame.parity == p
    ensures var r := FeedFragments(a, fragments, resolve);
      r.latitude == a.latitude && r.longitude == a.longitude && r.lastPosSeen == a.lastPosSeen
      && Opposite(r, p).None?
    decreases |fragments|
  {
    if fragments != [] {
      var f := fragments[0];
      var next := PositionAfter(a, f.frame, f.time, resolve).0;
      PositionAfterUnpaired(a, f.frame, f.time, resolve);
      PositionAfterStores(a, f.frame, f.time, resolve);
      SameParityNeverResolves(next, p, fragments[1..], resolve);
    }
  }

  /** Two halves of the same parity in a row can still give a fix when a half
      of the other parity was stored before them: the second even half below
      pairs with the odd half that came first. */
  lemma SameParityAfterOtherHalf(a: AircraftRecord, odd: CprFrame, even1: CprFrame, even2: CprFrame,
                                 p: Position, resolve: Resolver)
    requires odd.parity == Odd && even1.parity == Even && even2.parity == Even
    requires resolve(odd, even1).None? && resolve(odd, even2) == Some(p)
    ensures var a1 := PositionAfter(a, odd, 0, resolve).0;
            var a2 := PositionAfter(a1, even1, 1000, resolve).0;
            var a3 := PositionAfter(a2, even2, 2000, resolve).0;
            a3.latitude == Some(p.latitude) && a3.lastPosSeen == Some(2000)
  {
    var a1 := PositionAfter(a, odd, 0, resolve).0;
    var a2 := PositionAfter(a1, even1, 1000, resolve).0;
    PositionAfterStores(a, odd, 0, resolve);
    PositionAfterStores(a1, even1, 1000, resolve);
    assert WithinWindow(2000, 0);
    PositionAfterFix(a2, even2, 2000, resolve);
  }

  /** The pairing scenario: an even half at 0 s and an odd half at 5 s give
      the resolver's coordinate. A later even half at 40 s, too far from the
      odd half, gives no fix: the coordinate and fix time stay, no interval is
      returned, and the half is stored. */
  lemma PairingScenario(even0: CprFrame, odd5: CprFrame, even40: CprFrame, p: Position, resolve: Resolver)
    requires even0.parity == Even && odd5.parity == Odd && even40.parity == Even
    requires resolve(even0, odd5) == Some(p)
    ensures var a0 := NewAircraft(0xA12345, 0);
            var (a1, i1) := PositionAfter(a0, even0, 0, resolve);
            var (a2, i2) := PositionAfter(a1, odd5, 5000, resolve);
            var (a3, i3) := PositionAfter(a2, even40, 40000, resolve);
            && i1.None? && a1.latitude.None?
            && a2.latitude == Some(p.latitude) && a2.longitude == Some(p.longitude)
            && a2.lastPosSeen == Some(5000) && i2.None?
            && a3.latitude == a2.latitude && a3.longitude == a2.longitude
            && a3.lastPosSeen == Some(5000) && i3.None?
            && a3.lastCprEven == Some(Fragment(even40, 40000))
  {
    var a0 := NewAircraft(0xA12345, 0);
    var a1 := PositionAfter(a0, even0, 0, resolve).0;
    var a2 := PositionAfter(a1, odd5, 5000, resolve).0;
    PositionAfterUnpaired(a0, even0, 0, resolve);
    assert WithinWindow(0, 5000);
    PositionAfterFix(a1, odd5, 5000, resolve);
    PositionAfterStale(a2, even40, 40000, resolve);
  }

  /** The record of one aircraft, updated in place by the tracker. */
  class Aircraft {
    const icaoAddress: Icao
    var callsign: Option<string>
    var squawk: Option<Squawk>
    var altitude: Option<u16>
    var heading: Option<real>
    var groundSpeed: Option<real>
    var verticalRate: Option<i16>
    var latitude: Option<real>
    var longitude: Option<real>
    var verticalRateSource: Option<VerticalRateSource>
    var lastSeen: Millis
    var lastCprEven: Option<Fragment>
    var lastCprOdd: Option<Fragment>
    var lastPosSeen: Option<Millis>

    /** The record's current value. */
    ghost function Record(): AircraftRecord
      reads this
    {
      AircraftRecord(icaoAddress, callsign, squawk, altitude, heading, groundSpeed, verticalRate,
                     latitude, longitude, verticalRateSource, lastSeen, lastCprEven, lastCprOdd,
                     lastPosSeen)
    }

    constructor (icaoAddress: Icao, time: Millis)
      ensures Record() == NewAircraft(icaoAddress, time)
    {
      this.icaoAddress := icaoAddress;
      callsign, squawk, altitude := None, None, None;
      heading, groundSpeed, verticalRate := None, None, None;
      latitude, longitude, verticalRateSource := None, None, None;
      lastSeen := time;
      lastCprEven, lastCprOdd, lastPosSeen := None, None, None;
    }

    /** `update_position`: store the fragment in its parity's slot, then try
        to resolve the pair. */
    method UpdatePosition(frame: CprFrame, when: Millis, resolve: Resolver) returns (interval: Option<Millis>)
      modifies this
      ensures (Record(), interval) == PositionAfter(old(Record()), frame, when, resolve)
    {
      var lastParity := frame.parity;
      match lastParity {
        case Even => lastCprEven := Some(Fragment(frame, when));
        case Odd => lastCprOdd := Some(Fragment(frame, when));
      }
      interval := None;
      if lastCprEven.Some? && lastCprOdd.Some? {
        var even, odd := lastCprEven.value, lastCprOdd.value;
        if WithinWindow(even.time, odd.time) {
          var position := match lastParity {
            case Even => resolve(odd.frame, even.frame)
            case Odd => resolve(even.frame, odd.frame)
          };
          if position.Some? {
            latitude := Some(position.value.latitude);
            longitude := Some(position.value.longitude);
            var previous := lastPosSeen;
            lastPosSeen := Some(when);
            if previous.Some? {
              interval := Some(when - previous.value);
            }
          }
        }
      }
    }
  }
}
