/** Speed-violation selection: the "Speed Violation" records at 70 km/h or
    more, in report order. Everything under 70 km/h is not a violation. */
module Speeding {
  import opened Telemetry
  import opened Seqs

  /** The fixed threshold below which a reading is never a violation. */
  const MinViolationSpeed: int := 70

  predicate IsViolation(r: Record) {
    r.status == SpeedViolation && r.speed >= MinViolationSpeed
  }

  /** The selected records are an order-preserving subsequence of the report
      that holds every qualifying record as often as the report does and no
      other record; in particular none is slower than 70 km/h. */
  function SpeedViolations(rs: seq<Record>): (v: seq<Record>)
    ensures IsSubseq(v, rs)
    ensures forall x :: multiset(v)[x] == if x.status == SpeedViolation && x.speed >= 70 then multiset(rs)[x] else 0
    ensures forall x :: x in v ==> x.status == SpeedViolation && x.speed >= 70
  {
    FilterIsSubseq(rs, IsViolation);
    Filter(rs, IsViolation)
  }
}
