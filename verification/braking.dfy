/** Harsh-braking analysis: select the "Harsh Braking" records, sort them by
    time (absent times last), and drop every record whose time lies within
    120 seconds of its immediate predecessor in that sorted list. The
    comparison is with the raw predecessor, not with the last record kept. */
module Braking {
  import opened Telemetry
  import opened Seqs

  /** Sort order of DateTime: ascending, with NaT after every time. */
  predicate TimeLe(a: Option<Time>, b: Option<Time>) {
    match a
    case None => b.None?
    case Some(x) => b.None? || x <= b.value
  }

  lemma TimeLeTotal(a: Option<Time>, b: Option<Time>)
    ensures TimeLe(a, b) || TimeLe(b, a)
    ensures TimeLe(a, b) && TimeLe(b, a) ==> a == b
  {
  }

  predicate SortedTimes(ts: seq<Option<Time>>) {
    forall i, j :: 0 <= i < j < |ts| ==> TimeLe(ts[i], ts[j])
  }

  /** The records are in time order: their timestamps are sorted. */
  predicate SortedByTime(s: seq<Record>) {
    SortedTimes(Times(s))
  }

  /** Inserts `r` into a time-sorted sequence, before the first later time. */
  function Insert(r: Record, s: seq<Record>): (out: seq<Record>)
    ensures |out| == |s| + 1
  {
    if |s| == 0 || TimeLe(r.time, s[0].time) then [r] + s
    else [s[0]] + Insert(r, s[1..])
  }

  lemma {:induction false} InsertPermutes(r: Record, s: seq<Record>)
    ensures multiset(Insert(r, s)) == multiset(s) + multiset{r}
    decreases |s|
  {
    if |s| > 0 && !TimeLe(r.time, s[0].time) {
      InsertPermutes(r, s[1..]);
      assert s == [s[0]] + s[1..];
    }
  }

  lemma {:induction false} InsertKeepsTimes(r: Record, s: seq<Record>)
    ensures multiset(Times(Insert(r, s))) == multiset(Times(s)) + multiset{r.time}
    decreases |s|
  {
    if |s| == 0 || TimeLe(r.time, s[0].time) {
      TimesCons(r, s);
    } else {
      var rest := Insert(r, s[1..]);
      InsertKeepsTimes(r, s[1..]);
      TimesFront(s);
      TimesCons(s[0], rest);
    }
  }

  lemma {:induction false} InsertSorted(r: Record, s: seq<Record>)
    requires SortedByTime(s)
    ensures SortedByTime(Insert(r, s))
    decreases |s|
  {
    if |s| > 0 && !TimeLe(r.time, s[0].time) {
      var rest := Insert(r, s[1..]);
      InsertSorted(r, s[1..]);
      InsertPermutes(r, s[1..]);
      TimeLeTotal(r.time, s[0].time);
      forall k | 0 <= k < |rest|
        ensures TimeLe(s[0].time, rest[k].time)
      {
        assert rest[k] in multiset(s[1..]) + multiset{r};
        if rest[k] != r {
          var m :| 0 <= m < |s[1..]| && s[1..][m] == rest[k];
          assert s[m + 1] == rest[k];
        }
      }
    }
  }

  /** `sort_values(by='DateTime')` by insertion. */
  function SortByTime(rs: seq<Record>): (out: seq<Record>)
    ensures |out| == |rs|
  {
    if |rs| == 0 then [] else Insert(rs[0], SortByTime(rs[1..]))
  }

  lemma {:induction false} SortByTimePermutes(rs: seq<Record>)
    ensures multiset(SortByTime(rs)) == multiset(rs)
    decreases |rs|
  {
    if |rs| > 0 {
      SortByTimePermutes(rs[1..]);
      InsertPermutes(rs[0], SortByTime(rs[1..]));
      assert rs == [rs[0]] + rs[1..];
    }
  }

  lemma {:induction false} SortByTimeKeepsTimes(rs: seq<Record>)
    ensures multiset(Times(SortByTime(rs))) == multiset(Times(rs))
    decreases |rs|
  {
    if |rs| > 0 {
      var tail := SortByTime(rs[1..]);
      SortByTimeKeepsTimes(rs[1..]);
      InsertKeepsTimes(rs[0], tail);
      TimesFront(rs);
    }
  }

  lemma {:induction false} SortByTimeSorted(rs: seq<Record>)
    ensures SortedByTime(SortByTime(rs))
    decreases |rs|
  {
    if |rs| > 0 {
      SortByTimeSorted(rs[1..]);
      InsertSorted(rs[0], SortByTime(rs[1..]));
    }
  }

  /** The sorted records are a time-ordered permutation of the input, and
      their timestamps a permutation of the input's timestamps. */
  lemma SortByTimeSpec(rs: seq<Record>)
    ensures SortedByTime(SortByTime(rs))
    ensures multiset(SortByTime(rs)) == multiset(rs)
    ensures multiset(Times(SortByTime(rs))) == multiset(Times(rs))
  {
    SortByTimeSorted(rs);
    SortByTimePermutes(rs);
    SortByTimeKeepsTimes(rs);
  }

  /** Sorting a sequence that is already in time order changes nothing. */
  lemma {:induction false} SortKeepsSorted(rs: seq<Record>)
    requires SortedByTime(rs)
    ensures SortByTime(rs) == rs
    decreases |rs|
  {
    if |rs| > 0 {
      SortKeepsSorted(rs[1..]);
      assert rs == [rs[0]] + rs[1..];
    }
  }

  lemma SortedFirstIsLeast(a: seq<Option<Time>>, x: Option<Time>)
    requires SortedTimes(a) && x in a
    ensures TimeLe(a[0], x)
  {
  }

  lemma MultisetTail(a: seq<Option<Time>>)
    requires |a| > 0
    ensures multiset(a[1..]) == multiset(a) - multiset{a[0]}
  {
    assert a == [a[0]] + a[1..];
  }

  /** Two time-sorted sequences holding the same times are equal. */
  lemma {:induction false} SortedTimesUnique(a: seq<Option<Time>>, b: seq<Option<Time>>)
    requires SortedTimes(a) && SortedTimes(b)
    requires multiset(a) == multiset(b)
    ensures a == b
    decreases |a|
  {
    assert |a| == |multiset(a)| == |b|;
    if |a| > 0 {
      assert a[0] in multiset(b) && b[0] in multiset(a);
      SortedFirstIsLeast(b, a[0]);
      SortedFirstIsLeast(a, b[0]);
      TimeLeTotal(a[0], b[0]);
      MultisetTail(a);
      MultisetTail(b);
      SortedTimesUnique(a[1..], b[1..]);
      assert a == [a[0]] + a[1..] && b == [b[0]] + b[1..];
    }
  }

  /** `DateTime.diff()`: the gap to the predecessor, absent for the first
      element and wherever either time is NaT. */
  function Diff(ts: seq<Option<Time>>, i: int): Option<int>
    requires 0 <= i < |ts|
  {
    if i == 0 || ts[i - 1].None? || ts[i].None? then None
    else Some(ts[i].value - ts[i - 1].value)
  }

  function Abs(x: int): nat {
    if x < 0 then -x else x
  }

  /** The false-alarm mask `~(diff().dt.total_seconds().abs() <= 120)`; an
      absent difference compares false, so its element is kept. */
  function KeepMask(ts: seq<Option<Time>>): (f: seq<bool>)
    ensures |f| == |ts|
  {
    seq(|ts|, i requires 0 <= i < |ts| => !(Diff(ts, i).Some? && Abs(Diff(ts, i).value) <= 120))
  }

  /** The elements of `s` at the positions the mask marks, in order. */
  function Masked(s: seq<Record>, f: seq<bool>): (r: seq<Record>)
    requires |f| == |s|
    ensures |r| == CountTrue(f)
    ensures forall x :: x in r ==> x in s
    ensures |s| > 0 && f[0] ==> |r| > 0 && r[0] == s[0]
  {
    if |s| == 0 then []
    else (if f[0] then [s[0]] else []) + Masked(s[1..], f[1..])
  }

  lemma {:induction false} MaskedIsSubseq(s: seq<Record>, f: seq<bool>)
    requires |f| == |s|
    ensures IsSubseq(Masked(s, f), s)
    decreases |s|
  {
    if |s| > 0 {
      MaskedIsSubseq(s[1..], f[1..]);
      var r := Masked(s, f);
      if f[0] {
        assert r[0] == s[0] && r[1..] == Masked(s[1..], f[1..]);
      } else {
        assert r == Masked(s[1..], f[1..]);
      }
    }
  }

  /** Two records within 120 seconds of each other, both with a time. */
  predicate FalseAlarm(prev: Option<Time>, cur: Option<Time>) {
    prev.Some? && cur.Some? && Abs(cur.value - prev.value) <= 120
  }

  /** The suppression as a left-to-right pass: each record is checked
      against the record just before it. */
  function DropAfter(prev: Record, s: seq<Record>): seq<Record>
    decreases |s|
  {
    if |s| == 0 then []
    else (if FalseAlarm(prev.time, s[0].time) then [] else [s[0]]) + DropAfter(s[0], s[1..])
  }

  function DropFalseAlarms(s: seq<Record>): seq<Record> {
    if |s| == 0 then [] else [s[0]] + DropAfter(s[0], s[1..])
  }

  /** The mask of a sequence preceded by `prev`. */
  function MaskAfter(prev: Record, s: seq<Record>): (f: seq<bool>)
    ensures |f| == |s|
  {
    seq(|s|, i requires 0 <= i < |s| => !FalseAlarm(if i == 0 then prev.time else s[i - 1].time, s[i].time))
  }

  lemma {:induction false} DropAfterIsMasked(prev: Record, s: seq<Record>)
    ensures DropAfter(prev, s) == Masked(s, MaskAfter(prev, s))
    decreases |s|
  {
    if |s| > 0 {
      DropAfterIsMasked(s[0], s[1..]);
      assert MaskAfter(prev, s)[1..] == MaskAfter(s[0], s[1..]);
    }
  }

  /** The pass and the vectorised mask select the same records: the first
      record is kept, and record i > 0 is dropped exactly when both it and
      record i - 1 have a time and the two are at most 120 seconds apart. */
  lemma DropFalseAlarmsIsMasked(s: seq<Record>)
    ensures DropFalseAlarms(s) == Masked(s, KeepMask(Times(s)))
  {
    if |s| > 0 {
      DropAfterIsMasked(s[0], s[1..]);
      var f := KeepMask(Times(s));
      assert f[1..] == MaskAfter(s[0], s[1..]);
    }
  }

  predicate IsHarshBraking(r: Record) {
    r.status == HarshBraking
  }

  /** False-alarm suppression of a set of braking records: sort, then mask. */
  function Suppress(braking: seq<Record>): seq<Record> {
    DropFalseAlarms(SortByTime(braking))
  }

  /** The harsh-braking records that survive false-alarm suppression. */
  function HarshBrakingEvents(rs: seq<Record>): seq<Record> {
    Suppress(Filter(rs, IsHarshBraking))
  }

  /** The surviving records are a subsequence of the time-sorted
      "Harsh Braking" records, chosen by the false-alarm mask, and the first
      of them is always kept. */
  lemma HarshBrakingSelection(rs: seq<Record>)
    ensures var sorted := SortByTime(Filter(rs, IsHarshBraking));
      && HarshBrakingEvents(rs) == Masked(sorted, KeepMask(Times(sorted)))
      && IsSubseq(HarshBrakingEvents(rs), sorted)
      && (|sorted| > 0 ==> |HarshBrakingEvents(rs)| > 0 && HarshBrakingEvents(rs)[0] == sorted[0])
      && forall r :: r in HarshBrakingEvents(rs) ==> r in rs && IsHarshBraking(r)
  {
    var braking := Filter(rs, IsHarshBraking);
    var sorted := SortByTime(braking);
    var mask := KeepMask(Times(sorted));
    SortByTimeSpec(braking);
    DropFalseAlarmsIsMasked(sorted);
    MaskedIsSubseq(sorted, mask);
    var events := Masked(sorted, mask);
    forall r | r in events
      ensures r in rs && IsHarshBraking(r)
    {
      assert r in multiset(braking);
    }
  }

  /** The number of surviving events depends only on the multiset of the
      braking records' timestamps, not on their order in the report. */
  lemma SuppressCountDependsOnTimes(a: seq<Record>, b: seq<Record>)
    requires multiset(Times(a)) == multiset(Times(b))
    ensures |Suppress(a)| == |Suppress(b)|
  {
    var sa := SortByTime(a);
    var sb := SortByTime(b);
    SortByTimeSpec(a);
    SortByTimeSpec(b);
    SortedTimesUnique(Times(sa), Times(sb));
    DropFalseAlarmsIsMasked(sa);
    DropFalseAlarmsIsMasked(sb);
  }

  lemma SortedBrakingInput(s: seq<Record>)
    requires forall i :: 0 <= i < |s| ==> IsHarshBraking(s[i])
    requires SortedByTime(s)
    ensures HarshBrakingEvents(s) == DropFalseAlarms(s)
  {
    FilterAll(s, IsHarshBraking);
    SortKeepsSorted(s);
  }

  /** Three alerts at t, t + 60 and t + 121: the second is 60 s after the
      first and the third 61 s after the second, so only the first survives,
      although the third is 121 s after the only record kept. */
  lemma ChainedFalseAlarms(s: seq<Record>, t: int)
    requires |s| == 3 && forall i :: 0 <= i < |s| ==> IsHarshBraking(s[i])
    requires s[0].time == Some(t) && s[1].time == Some(t + 60) && s[2].time == Some(t + 121)
    ensures HarshBrakingEvents(s) == [s[0]]
  {
    assert DropFalseAlarms(s) == [s[0]] by {
      var tail := s[1..];
      assert tail[1..] == s[2..] && s[2..][1..] == [];
      assert DropAfter(s[2], []) == [];
      assert DropAfter(s[1], s[2..]) == [];
      assert DropAfter(s[0], tail) == [];
    }
    assert SortedByTime(s);
    SortedBrakingInput(s);
  }

  /** Two alerts 300 s apart both survive. */
  lemma DistantAlarmsKept(s: seq<Record>, t: int)
    requires |s| == 2 && forall i :: 0 <= i < |s| ==> IsHarshBraking(s[i])
    requires s[0].time == Some(t) && s[1].time == Some(t + 300)
    ensures HarshBrakingEvents(s) == s
  {
    assert DropFalseAlarms(s) == s by {
      assert s[1..][1..] == [];
      assert DropAfter(s[1], []) == [];
      assert DropAfter(s[0], s[1..]) == [s[1]];
      assert s == [s[0]] + [s[1]];
    }
    assert SortedByTime(s);
    SortedBrakingInput(s);
  }
}
