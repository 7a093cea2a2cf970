/** The report: the three analyses run over the same records. */
module Report {
  import opened Telemetry
  import Trips
  import Braking
  import Speeding
  import Night

  /** What the report prints, as data: the harsh-braking count, the listed
      speed violations and the outcome of the night-driving loop. */
  datatype Summary = Summary(brakingCount: nat, speedViolations: seq<Record>, nightTrips: Night.NightRun)

  function Summarize(rs: seq<Record>): Summary {
    Summary(|Braking.HarshBrakingEvents(rs)|, Speeding.SpeedViolations(rs), Night.NightDriving(Trips.Tag(rs)))
  }
}
