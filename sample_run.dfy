/**
 * The demo driver's bookkeeping (sample_run.py): rendering a solver time
 * (minutes after 06:00) as a 12-hour clock string, and the loop that lines
 * up each stop's location, demand and time window for the solver.
 */
module SampleRun {
  import opened Common
  import opened Text

  /** Solver times count minutes from this hour of the morning. */
  const BaseHour: int := 6

  /**
   * format_time: hour 6 + minutes // 60 and minute minutes % 60 (floor
   * division and modulo, which Dafny's / and % by 60 agree with), "AM" below
   * hour 12, an hour above 12 reduced by 12 once, both fields rendered with
   * "{:02d}".
   */
  function FormatTime(minutes: int): string
  {
    var hour := BaseHour + minutes / 60;
    var mins := minutes % 60;
    var period := if hour < 12 then "AM" else "PM";
    var shown := if hour > 12 then hour - 12 else hour;
    ZeroPad2(shown) + ":" + ZeroPad2(mins) + " " + period
  }

  /** A 12-hour clock hour as a 24-hour one: "12 AM" is 0 and "12 PM" is 12. */
  function Hour24(h: nat, am: bool): nat
  {
    if am then (if h == 12 then 0 else h) else (if h == 12 then 12 else h + 12)
  }

  /**
   * Reference reading of a 12-hour clock string "HH:MM AM|PM" (hours 0..12,
   * "12 AM" being midnight) back to minutes after 06:00; None for anything
   * else.
   */
  function ParseClock(s: string): Option<int>
  {
    if |s| == 8 && IsDigit(s[0]) && IsDigit(s[1]) && s[2] == ':' && IsDigit(s[3]) && IsDigit(s[4])
       && s[5] == ' ' && (s[6] == 'A' || s[6] == 'P') && s[7] == 'M'
    then
      var h := ParseNat(s[0..2]);
      var m := ParseNat(s[3..5]);
      if h > 12 || m > 59 then None
      else
        Some((Hour24(h, s[6] == 'A') - BaseHour) * 60 + m)
    else None
  }

  /** The layout of a rendering whose hour field has two characters. */
  lemma FormatTimeLayout(minutes: int)
    requires |ZeroPad2(BaseHour + minutes / 60 - (if BaseHour + minutes / 60 > 12 then 12 else 0))| == 2
    ensures var s := FormatTime(minutes);
      var hour := BaseHour + minutes / 60;
      var shown := if hour > 12 then hour - 12 else hour;
      && |s| == 8
      && s[0..2] == ZeroPad2(shown)
      && s[2] == ':'
      && s[3..5] == ZeroPad2(minutes % 60)
      && s[5] == ' '
      && s[6] == (if hour < 12 then 'A' else 'P')
      && s[7] == 'M'
  {
    ZeroPad2Shape(minutes % 60);
  }

  /**
   * What a rendered time reads back as. From 00:00 to 23:59 (minutes -360 to
   * 1079) it is the same time; from midnight to 00:59 the next day (1080 to
   * 1139) the hour 24 is printed "12 ... PM" and reads back as noon; any
   * other time is not a valid clock string (a negative or above-12 hour).
   */
  lemma {:induction false} FormatTimeReadsBack(minutes: int)
    ensures -360 <= minutes < 1080 ==> ParseClock(FormatTime(minutes)) == Some(minutes)
    ensures 1080 <= minutes < 1140 ==> ParseClock(FormatTime(minutes)) == Some(minutes - 720)
    ensures (minutes < -360 || minutes >= 1140) ==> ParseClock(FormatTime(minutes)) == None
  {
    var hour := BaseHour + minutes / 60;
    var mins := minutes % 60;
    var shown := if hour > 12 then hour - 12 else hour;
    var s := FormatTime(minutes);
    ZeroPad2Shape(shown);
    assert minutes == (hour - BaseHour) * 60 + mins;
    if 0 <= shown < 100 {
      ReadRendered(minutes);
    } else if shown < 0 {
      assert s[0] == '-';
    } else {
      assert |s| > 8;
    }
  }

  /** A rendering with a two-digit hour field reads back through its two fields. */
  lemma ReadRendered(minutes: int)
    requires 0 <= BaseHour + minutes / 60 - (if BaseHour + minutes / 60 > 12 then 12 else 0) < 100
    ensures var hour := BaseHour + minutes / 60;
      var shown := if hour > 12 then hour - 12 else hour;
      ParseClock(FormatTime(minutes)) ==
        if shown > 12 then None else Some((Hour24(shown, hour < 12) - BaseHour) * 60 + minutes % 60)
  {
    var hour := BaseHour + minutes / 60;
    var mins := minutes % 60;
    var shown := if hour > 12 then hour - 12 else hour;
    var s := FormatTime(minutes);
    ZeroPad2Shape(shown);
    ZeroPad2Shape(mins);
    FormatTimeLayout(minutes);
    assert ParseNat(s[0..2]) == shown;
    assert ParseNat(s[3..5]) == mins;
  }

  lemma ZeroPad2Small(n: nat)
    requires n < 10
    ensures ZeroPad2(n) == ['0', DigitChar(n)]
  {
  }

  lemma ZeroPad2Tens(n: nat)
    requires 10 <= n < 100
    ensures ZeroPad2(n) == [DigitChar(n / 10), DigitChar(n % 10)]
  {
    assert NatToString(n / 10) == [DigitChar(n / 10)];
  }

  /** The rendering from its two fields, once hour and minute are known. */
  lemma FormatTimeFields(minutes: int, hour: int, mins: int)
    requires hour == BaseHour + minutes / 60 && mins == minutes % 60
    ensures FormatTime(minutes) ==
      ZeroPad2(if hour > 12 then hour - 12 else hour) + ":" + ZeroPad2(mins) + " " + (if hour < 12 then "AM" else "PM")
  {
  }

  lemma FormatTimeStart()
    ensures FormatTime(0) == "06:00 AM"
  {
    FormatTimeFields(0, 6, 0);
    ZeroPad2Small(6);
    ZeroPad2Small(0);
  }

  lemma FormatTimeHalfPast()
    ensures FormatTime(90) == "07:30 AM"
  {
    FormatTimeFields(90, 7, 30);
    ZeroPad2Small(7);
    ZeroPad2Tens(30);
  }

  lemma FormatTimeNoon()
    ensures FormatTime(375) == "12:15 PM"
  {
    FormatTimeFields(375, 12, 15);
    ZeroPad2Tens(12);
    ZeroPad2Tens(15);
  }

  lemma FormatTimeHourTwentyFive()
    ensures FormatTime(1140) == "13:00 PM"
  {
    FormatTimeFields(1140, 25, 0);
    ZeroPad2Tens(13);
    ZeroPad2Small(0);
  }

  /** Renderings named in the source's comments, and hour 25 shown as 13. */
  lemma FormatTimeExamples()
    ensures FormatTime(0) == "06:00 AM"
    ensures FormatTime(90) == "07:30 AM"
    ensures FormatTime(375) == "12:15 PM"
    ensures FormatTime(1140) == "13:00 PM"
  {
    FormatTimeStart();
    FormatTimeHalfPast();
    FormatTimeNoon();
    FormatTimeHourTwentyFive();
  }

  // ---------------------------------------------------------------------
  // Per-stop inputs
  // ---------------------------------------------------------------------

  /** One row of the stops table. */
  datatype StopRecord = StopRecord(stopId: int, lat: real, lon: real)

  const DepotWindow: Window := Window(0, 180)
  const StaffWindow: Window := Window(15, 120)
  const StudentWindow: Window := Window(30, 135)

  /**
   * The window rule: stop id 0 is the depot whatever else holds; a stop some
   * staff member boards at gets the staff window; any other stop the student
   * window. Every window is non-empty and a stop's window lies inside the
   * depot's.
   */
  function StopWindow(stopId: int, staffStops: set<int>): (w: Window)
    ensures w.lo < w.hi
    ensures stopId == 0 <==> w == DepotWindow
    ensures stopId != 0 ==> DepotWindow.lo < w.lo && w.hi < DepotWindow.hi
    ensures stopId != 0 ==> (w == StaffWindow <==> stopId in staffStops)
  {
    if stopId == 0 then DepotWindow
    else if stopId in staffStops then StaffWindow
    else StudentWindow
  }

  /** How many riders of a list board at the stop: groupby("stop_id").size(). */
  function Riders(boardings: seq<int>, stopId: int): (n: nat)
    ensures n == 0 <==> stopId !in boardings
    ensures n <= |boardings|
  {
    if boardings == [] then 0
    else Riders(boardings[..|boardings| - 1], stopId) + (if boardings[|boardings| - 1] == stopId then 1 else 0)
  }

  /**
   * The loop of run_demo that fills the three parallel lists: one entry per
   * stop row, in row order; the demand is the stop's students plus staff
   * (0 for a stop nobody boards at) and the window follows StopWindow.
   */
  method BuildStopInputs(stops: seq<StopRecord>, studentStops: seq<int>, staffStops: seq<int>)
    returns (locations: seq<Coord>, demands: seq<nat>, timeWindows: seq<Window>)
    ensures |locations| == |demands| == |timeWindows| == |stops|
    ensures forall i :: 0 <= i < |stops| ==>
      && locations[i] == (stops[i].lat, stops[i].lon)
      && demands[i] == Riders(studentStops, stops[i].stopId) + Riders(staffStops, stops[i].stopId)
      && timeWindows[i] == StopWindow(stops[i].stopId, set s | s in staffStops)
    ensures forall i :: 0 <= i < |stops| && stops[i].stopId != 0 && timeWindows[i] == StaffWindow ==> demands[i] > 0
  {
    var withStaff := set s | s in staffStops;
    locations, demands, timeWindows := [], [], [];
    var i := 0;
    while i < |stops|
      invariant 0 <= i <= |stops|
      invariant |locations| == |demands| == |timeWindows| == i
      invariant forall k :: 0 <= k < i ==>
        && locations[k] == (stops[k].lat, stops[k].lon)
        && demands[k] == Riders(studentStops, stops[k].stopId) + Riders(staffStops, stops[k].stopId)
        && timeWindows[k] == StopWindow(stops[k].stopId, withStaff)
    {
      var row := stops[i];
      locations := locations + [(row.lat, row.lon)];
      demands := demands + [Riders(studentStops, row.stopId) + Riders(staffStops, row.stopId)];
      var window;
      if row.stopId == 0 {
        window := DepotWindow;
      } else if row.stopId in withStaff {
        window := StaffWindow;
      } else {
        window := StudentWindow;
      }
      timeWindows := timeWindows + [window];
      i := i + 1;
    }
  }
}
