/** Trip numbering: every record is tagged with the running, inclusive count
    of "Start up" records up to it (`(status == 'Start up').cumsum()`), so a
    trip is the run of records from one "Start up" to the next, and the
    records before the first "Start up" form trip 0. */
module Trips {
  import opened Telemetry

  predicate IsStartUp(r: Record) {
    r.status == StartUp
  }

  /** Reference definition: the number of "Start up" records in `rs`. */
  function CountStartUps(rs: seq<Record>): nat {
    if |rs| == 0 then 0
    else CountStartUps(rs[..|rs| - 1]) + (if IsStartUp(rs[|rs| - 1]) then 1 else 0)
  }

  /** The numbering fold, continuing from `seen` start-ups already counted. */
  function TagFrom(rs: seq<Record>, seen: nat): (rows: seq<Row>)
    ensures |rows| == |rs|
    ensures forall i :: 0 <= i < |rs| ==> rows[i].rec == rs[i]
  {
    if |rs| == 0 then []
    else
      var k := seen + (if IsStartUp(rs[0]) then 1 else 0);
      [Row(rs[0], k)] + TagFrom(rs[1..], k)
  }

  /** The records with their trip numbers attached, in file order. */
  function Tag(rs: seq<Record>): (rows: seq<Row>)
    ensures |rows| == |rs|
    ensures forall i :: 0 <= i < |rs| ==> rows[i].rec == rs[i]
  {
    TagFrom(rs, 0)
  }

  lemma {:induction false} CountStartUpsFront(rs: seq<Record>)
    requires |rs| > 0
    ensures CountStartUps(rs) == (if IsStartUp(rs[0]) then 1 else 0) + CountStartUps(rs[1..])
    decreases |rs|
  {
    if |rs| > 1 {
      var init := rs[..|rs| - 1];
      CountStartUpsFront(init);
      assert init[1..] == rs[1..][..|rs[1..]| - 1];
    } else {
      assert rs[..0] == [] && rs[1..] == [];
    }
  }

  lemma {:induction false} TagFromIsRunningCount(rs: seq<Record>, seen: nat)
    ensures forall i :: 0 <= i < |rs| ==> TagFrom(rs, seen)[i].trip == seen + CountStartUps(rs[..i + 1])
    decreases |rs|
  {
    if |rs| > 0 {
      var k := seen + (if IsStartUp(rs[0]) then 1 else 0);
      TagFromIsRunningCount(rs[1..], k);
      forall i | 0 <= i < |rs|
        ensures TagFrom(rs, seen)[i].trip == seen + CountStartUps(rs[..i + 1])
      {
        CountStartUpsFront(rs[..i + 1]);
        assert rs[..i + 1][0] == rs[0];
        if i > 0 {
          assert rs[..i + 1][1..] == rs[1..][..i];
          assert TagFrom(rs, seen)[i] == TagFrom(rs[1..], k)[i - 1];
        } else {
          assert rs[..1][1..] == [];
        }
      }
    }
  }

  /** The trip number of record i is the number of "Start up" records among
      records 0..i inclusive. */
  lemma TripNumberIsRunningCount(rs: seq<Record>, i: int)
    requires 0 <= i < |rs|
    ensures Tag(rs)[i].trip == CountStartUps(rs[..i + 1])
  {
    TagFromIsRunningCount(rs, 0);
  }

  /** The first record opens trip 1 if it is a "Start up" and belongs to trip 0
      otherwise; each later record stays on its predecessor's trip, or moves
      to the next trip exactly when it is a "Start up". */
  lemma TripNumberStep(rs: seq<Record>, i: int)
    requires 0 <= i < |rs|
    ensures Tag(rs)[i].trip == (if i == 0 then 0 else Tag(rs)[i - 1].trip) + (if IsStartUp(rs[i]) then 1 else 0)
  {
    TripNumberIsRunningCount(rs, i);
    if i == 0 {
      assert rs[..1][..0] == [];
    } else {
      TripNumberIsRunningCount(rs, i - 1);
      assert rs[..i + 1][..i] == rs[..i];
    }
  }

  /** Trip numbers never decrease along the report. */
  lemma {:induction false} TripNumbersMonotone(rs: seq<Record>, i: int, j: int)
    requires 0 <= i <= j < |rs|
    ensures Tag(rs)[i].trip <= Tag(rs)[j].trip
    decreases j - i
  {
    if i < j {
      TripNumbersMonotone(rs, i, j - 1);
      TripNumberStep(rs, j);
    }
  }

  /** A trip is a contiguous run of records. */
  lemma TripsContiguous(rs: seq<Record>, i: int, j: int, k: int)
    requires 0 <= i <= j <= k < |rs|
    requires Tag(rs)[i].trip == Tag(rs)[k].trip
    ensures Tag(rs)[j].trip == Tag(rs)[i].trip
  {
    TripNumbersMonotone(rs, i, j);
    TripNumbersMonotone(rs, j, k);
  }

  /** A "Start up" record is the first record of its trip, so it is the only
      "Start up" of that trip. */
  lemma StartUpOpensTrip(rs: seq<Record>, i: int, j: int)
    requires 0 <= i < |rs| && 0 <= j < |rs|
    requires IsStartUp(rs[j])
    requires Tag(rs)[i].trip == Tag(rs)[j].trip
    ensures j <= i
  {
    if i < j {
      TripNumberStep(rs, j);
      TripNumbersMonotone(rs, i, j - 1);
    }
  }

  /** Every trip numbered 1 or more is opened by a "Start up" record. */
  lemma {:induction false} TripHasOpeningStartUp(rs: seq<Record>, i: int)
    requires 0 <= i < |rs|
    requires Tag(rs)[i].trip >= 1
    ensures exists f :: 0 <= f <= i && IsStartUp(rs[f]) && Tag(rs)[f].trip == Tag(rs)[i].trip
    decreases i
  {
    TripNumberStep(rs, i);
    if !IsStartUp(rs[i]) {
      TripHasOpeningStartUp(rs, i - 1);
    }
  }

  /** Trip 0, the records before the first "Start up", holds no "Start up". */
  lemma TripZeroHasNoStartUp(rs: seq<Record>, i: int)
    requires 0 <= i < |rs|
    requires Tag(rs)[i].trip == 0
    ensures !IsStartUp(rs[i])
  {
    TripNumberStep(rs, i);
  }
}
