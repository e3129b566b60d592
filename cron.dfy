/** The `last_time` throttle of `_isCron`. */
module Cron {
  import opened Wrappers

  /** Whether a sync is due, and the marker stored afterwards. */
  datatype CronOutcome = CronOutcome(due: bool, marker: int)

  /**
   * The check-and-set on the stored marker: with no marker, or once at least
   * `cronTime` seconds have passed since it, the sync is due and the marker
   * moves to `now`; otherwise it is not due and the marker stays.
   */
  function CronGate(marker: Option<int>, cronTime: int, now: int): (o: CronOutcome)
    ensures o.due <==> (marker == None || now - marker.value >= cronTime)
    ensures o.due ==> o.marker == now
    ensures !o.due ==> marker == Some(o.marker)
  {
    match marker
    case None => CronOutcome(true, now)
    case Some(m) => if m + cronTime > now then CronOutcome(false, m) else CronOutcome(true, now)
  }

  /** The gate is not idempotent: with a positive period, a second check at
      the same moment is never due, whatever the first one answered. */
  lemma SecondCheckNotDue(marker: Option<int>, cronTime: int, now: int)
    requires cronTime > 0
    ensures !CronGate(Some(CronGate(marker, cronTime, now).marker), cronTime, now).due
  {
  }

  /** Two consecutive checks that both answer "due" are at least a period apart. */
  lemma DueChecksAreSpaced(marker: Option<int>, cronTime: int, t1: int, t2: int)
    requires CronGate(marker, cronTime, t1).due
    requires CronGate(Some(CronGate(marker, cronTime, t1).marker), cronTime, t2).due
    ensures t2 - t1 >= cronTime
  {
  }

  /** The stored marker after each check of a run, the first starting from `marker`. */
  function Markers(marker: Option<int>, cronTime: int, times: seq<int>): (r: seq<int>)
    ensures |r| == |times|
    decreases |times|
  {
    if times == [] then []
    else
      var o := CronGate(marker, cronTime, times[0]);
      [o.marker] + Markers(Some(o.marker), cronTime, times[1..])
  }

  /** Over a run of checks at non-decreasing times, the stored marker never
      moves backwards and never runs ahead of the latest check. */
  lemma {:induction false} MarkersMonotone(marker: Option<int>, cronTime: int, times: seq<int>)
    requires cronTime >= 0
    requires forall i, j :: 0 <= i < j < |times| ==> times[i] <= times[j]
    requires marker.Some? && times != [] ==> marker.value <= times[0]
    ensures forall i, j :: 0 <= i < j < |times| ==> Markers(marker, cronTime, times)[i] <= Markers(marker, cronTime, times)[j]
    ensures forall i :: 0 <= i < |times| ==> Markers(marker, cronTime, times)[i] <= times[i]
    decreases |times|
  {
    if times != [] {
      var o := CronGate(marker, cronTime, times[0]);
      var rest := times[1..];
      MarkersMonotone(Some(o.marker), cronTime, rest);
      var r := Markers(marker, cronTime, times);
      var r' := Markers(Some(o.marker), cronTime, rest);
      assert r == [o.marker] + r';
      forall j | 0 < j < |times| ensures r[0] <= r[j] {
        assert r[j] == r'[j - 1];
        if j > 1 {
          assert r'[0] <= r'[j - 1];
        }
        assert r'[0] == CronGate(Some(o.marker), cronTime, rest[0]).marker;
      }
    }
  }
}
