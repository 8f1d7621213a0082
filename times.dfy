/**
 Clock arithmetic of the trip planner: HHMM clock values, their conversion
 to a linear minute count, and the minimum-layover rule between two legs.
 */
module Times {

  /** The whole-hour part of the planner's HHMM clock encoding. */
  const HourBase := 100

  /** The minimum connection time between two consecutive legs, in minutes. */
  const MinLayover := 60

  /**
   The most, in minutes, by which a leg that departs before it arrives in
   raw HHMM can land before it leaves: from minute part 99 of one hour to
   minute 00 of the next.
   */
  const MaxMinuteOverflow := 39

  /** A clock value whose minute part (the last two digits) is a real minute. */
  predicate WellFormedTime(time: int)
  {
    time % HourBase < 60
  }

  /**
   Converts an HHMM clock value into minutes. The source's `time // 100`
   and `time % 100` round toward negative infinity; for the positive
   divisor 100 Dafny's Euclidean `/` and `%` agree with them on every
   integer, negative ones included. On a well-formed time the hours and
   minutes can be read back from the result.
   */
  function TimeToMinutes(time: int): (minutes: int)
    ensures WellFormedTime(time) ==> minutes / 60 == time / HourBase && minutes % 60 == time % HourBase
  {
    var hours := time / HourBase;
    var mins := time % HourBase;
    MinutesSplit(hours, mins);
    hours * 60 + mins
  }

  /** Division by 60 undoes `hours * 60 + mins` when the minute part is small. */
  lemma MinutesSplit(hours: int, mins: int)
    ensures 0 <= mins < 60 ==> (hours * 60 + mins) / 60 == hours && (hours * 60 + mins) % 60 == mins
  {
  }

  /**
   The layover check, with the source's three threshold tests kept; they
   collapse to the single condition "at least 60 minutes".
   */
  function ValidLayover(arrival: int, departure: int): (ok: bool)
    ensures ok <==> TimeToMinutes(departure) - TimeToMinutes(arrival) >= MinLayover
  {
    var layover := TimeToMinutes(departure) - TimeToMinutes(arrival);
    if layover >= 120 then true
    else if layover >= 90 then true
    else if layover >= 60 then true
    else false
  }

  /** On well-formed times the conversion preserves and reflects the order of clock values. */
  lemma MinutesOrderPreserving(a: int, b: int)
    requires WellFormedTime(a) && WellFormedTime(b)
    ensures a < b <==> TimeToMinutes(a) < TimeToMinutes(b)
  {
    var ha, ma := a / HourBase, a % HourBase;
    var hb, mb := b / HourBase, b % HourBase;
    assert a == ha * HourBase + ma && b == hb * HourBase + mb;
    assert TimeToMinutes(a) == ha * 60 + ma && TimeToMinutes(b) == hb * 60 + mb;
    if ha < hb {
      assert ha * 60 + ma < (ha + 1) * 60 <= hb * 60 + mb;
      assert ha * HourBase + ma < (ha + 1) * HourBase <= hb * HourBase + mb;
    } else if hb < ha {
      assert hb * 60 + mb < (hb + 1) * 60 <= ha * 60 + ma;
      assert hb * HourBase + mb < (hb + 1) * HourBase <= ha * HourBase + ma;
    }
  }

  /** Without the minute-part condition the order is not preserved: 1:99 lies after 2:00. */
  lemma MinuteOverflowBreaksOrder()
    ensures 199 < 200 && TimeToMinutes(199) == 159 && TimeToMinutes(200) == 120
  {
  }

  /** A raw HHMM order still bounds the converted times: the later value is at most 39 minutes behind. */
  lemma MinuteOverflowBound(a: int, b: int)
    requires a < b
    ensures TimeToMinutes(b) >= TimeToMinutes(a) - MaxMinuteOverflow
  {
    var ha, ma := a / HourBase, a % HourBase;
    var hb, mb := b / HourBase, b % HourBase;
    assert a == ha * HourBase + ma && b == hb * HourBase + mb;
    assert TimeToMinutes(a) == ha * 60 + ma && TimeToMinutes(b) == hb * 60 + mb;
    if ha < hb {
      assert ha * 60 + 60 <= hb * 60;
    }
  }
}
