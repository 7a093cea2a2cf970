/** The records of a vehicle movement report after loading and timestamp parsing:
    one row per telemetry event, in file order. */
module Telemetry {

  /** A value that may be absent. `None` stands for pandas' `NaT`, the value an
      unparsable report date is coerced to; every comparison against it is false. */
  datatype Option<+T> = None | Some(value: T)

  /** Seconds since midnight of a reference day. */
  type Time = int

  // The VehicleStatus tags the scoring looks at; any other tag passes through.
  const StartUp: string := "Start up"
  const IgnitionOff: string := "Ignition off"
  const HarshBraking: string := "Harsh Braking"
  const SpeedViolation: string := "Speed Violation"
  const HealthCheckIgnitionOff: string := "Health Check; (Ignition off)"

  /** One event: its VehicleStatus, its MOBILESPEED in km/h and its parsed DateTime. */
  datatype Record = Record(status: string, speed: int, time: Option<Time>)

  /** A record with the trip number the trip numbering pass attached to it. */
  datatype Row = Row(rec: Record, trip: nat)

  /** The DateTime column of a sequence of records. */
  function Times(rs: seq<Record>): (ts: seq<Option<Time>>)
    ensures |ts| == |rs|
    ensures forall i :: 0 <= i < |rs| ==> ts[i] == rs[i].time
  {
    seq(|rs|, i requires 0 <= i < |rs| => rs[i].time)
  }

  lemma TimesCons(r: Record, s: seq<Record>)
    ensures Times([r] + s) == [r.time] + Times(s)
    ensures multiset(Times([r] + s)) == multiset{r.time} + multiset(Times(s))
  {
    assert Times([r] + s) == [r.time] + Times(s);
  }

  lemma TimesFront(rs: seq<Record>)
    requires |rs| > 0
    ensures multiset(Times(rs)) == multiset{rs[0].time} + multiset(Times(rs[1..]))
  {
    assert rs == [rs[0]] + rs[1..];
    TimesCons(rs[0], rs[1..]);
  }
}
