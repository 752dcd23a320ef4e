/** The KPI analysis of FMCopilot/analysis_tool.py (`calculate_kpi_insights`):
    decode the list of events, keep the "ProductionTotalPartCount" ones, sort
    them by timestamp, and report the time window, the part increase between
    the first and the last event, the last value seen per device and whether
    the last two values are equal (a stall). */
module KpiAggregator {
  import opened Wrappers
  import opened JsonValue
  import opened Timestamp
  import opened EventSort

  const TargetEvent: string := "ProductionTotalPartCount"
  const InvalidJsonMessage: string := "Invalid JSON input received by analysis tool."
  const NoEventsMessage: string := "No 'ProductionTotalPartCount' events found for analysis."

  /** A decoded event record: a JSON object. */
  type Event = map<string, Json>

  /** The exceptions the function lets escape, by the step that raises them. */
  datatype Fault =
    | NotIterable     // `for log in logs` over a number, a boolean or null: TypeError
    | NotAnObject     // `log.get` on an item that is not a dictionary: AttributeError
    | BadTimestamp    // EventOccured missing (KeyError), not a string (TypeError) or not a timestamp (ValueError)
    | BadPartCount    // the first or last event has no EventArgs.Value, or the two cannot be subtracted
    | BadDeviceEntry  // an event without DeviceName or EventArgs.Value, or a DeviceName that cannot be a key

  /** `average_rate_per_minute`: 0 when the window is not positive, otherwise
      the increase divided by the window in minutes, kept as the exact ratio
      `partIncrease * 60 / windowSeconds` (the float division and the rounding
      are not modelled). */
  datatype Rate = ZeroRate | PerMinute(partIncrease: int, windowSeconds: int)

  /** The analysis result: `overall_summary` (the window in seconds rather
      than in rounded minutes), `device_performance` and `warnings`. */
  datatype KpiReport = KpiReport(
    totalLogsAnalyzed: nat,
    windowSeconds: int,
    totalPartIncrease: int,
    averageRate: Rate,
    devicePerformance: map<Json, Json>,
    stallingDetected: bool,
    stallingDevice: Option<Json>)

  /** The report, an `{"error": message}` result, or an escaping exception. */
  datatype KpiOutcome = Report(report: KpiReport) | Error(message: string) | Raised(fault: Fault)

  /** What `for log in logs` visits, provided every visited item is a
      dictionary. A list visits its items; a dictionary or a string visits
      keys or characters, which have no `.get`, so only an empty one gets
      through; anything else is not iterable. */
  function Records(logs: Json): (r: Result<seq<Event>, Fault>)
    ensures logs.JArr? ==> (r.Success? <==> forall i :: 0 <= i < |logs.items| ==> logs.items[i].JObj?)
    ensures r.Success? && logs.JArr? ==>
              |r.value| == |logs.items| && forall i :: 0 <= i < |r.value| ==> logs.items[i] == JObj(r.value[i])
    ensures r.Success? && !logs.JArr? ==> r.value == []
    ensures logs == JObj(map[]) || logs == JStr([]) ==> r == Success([])
    ensures (logs.JObj? && logs.fields != map[]) || (logs.JStr? && logs.s != []) ==> r == Failure(NotAnObject)
    ensures (logs.JInt? || logs.JBool? || logs.JNull?) ==> r == Failure(NotIterable)
  {
    match logs
    case JArr(items) =>
      if forall i :: 0 <= i < |items| ==> items[i].JObj? then
        Success(seq(|items|, i requires 0 <= i < |items| => items[i].fields))
      else Failure(NotAnObject)
    case JObj(fields) => if fields == map[] then Success([]) else Failure(NotAnObject)
    case JStr(s) => if s == [] then Success([]) else Failure(NotAnObject)
    case _ => Failure(NotIterable)
  }

  predicate IsProductionEvent(e: Event) {
    Lookup(e, "EventName") == Some(JStr(TargetEvent))
  }

  /** The list comprehension of lines 21-24: the production events, in order. */
  function ProductionEvents(records: seq<Event>): (r: seq<Event>)
    ensures forall e :: e in r <==> e in records && IsProductionEvent(e)
    ensures |r| <= |records|
  {
    if records == [] then []
    else (if IsProductionEvent(records[0]) then [records[0]] else []) + ProductionEvents(records[1..])
  }

  /** The filter keeps each record by itself, so it distributes over
      concatenation and thereby keeps the input order. */
  lemma {:induction false} ProductionEventsAppend(a: seq<Event>, b: seq<Event>)
    ensures ProductionEvents(a + b) == ProductionEvents(a) + ProductionEvents(b)
  {
    if a == [] {
      assert a + b == b;
    } else {
      var ab := a + b;
      assert ab[0] == a[0];
      assert ab[1..] == a[1..] + b;
      var head := if IsProductionEvent(a[0]) then [a[0]] else [];
      assert ProductionEvents(ab) == head + ProductionEvents(a[1..] + b);
      assert ProductionEvents(a) == head + ProductionEvents(a[1..]);
      ProductionEventsAppend(a[1..], b);
    }
  }

  /** Lines 15-27: decoding, the filter and the two error results. Success
      carries the production events, never an empty list. */
  function ProductionStage(input: string, decode: string -> Option<Json>): (r: Result<seq<Event>, KpiOutcome>)
    ensures r == Failure(Error(InvalidJsonMessage)) <==> decode(input).None?
    ensures r == Failure(Error(NoEventsMessage)) <==>
              && decode(input).Some? && Records(decode(input).value).Success?
              && forall e :: e in Records(decode(input).value).value ==> !IsProductionEvent(e)
    ensures r.Success? ==>
              && decode(input).Some? && Records(decode(input).value).Success?
              && r.value == ProductionEvents(Records(decode(input).value).value) && r.value != []
    ensures decode(input).Some? && Records(decode(input).value).Failure? ==>
              r == Failure(Raised(Records(decode(input).value).error))
  {
    match decode(input)
    case None => Failure(Error(InvalidJsonMessage))
    case Some(logs) =>
      match Records(logs)
      case Failure(f) => Failure(Raised(f))
      case Success(records) =>
        var events := ProductionEvents(records);
        if events == [] then Failure(Error(NoEventsMessage))
        else assert events[0] in events; Success(events)
  }

  /** The sort key of an event: `datetime.strptime(x["EventOccured"], ...)`,
      as seconds; None where that raises. */
  function Occurred(e: Event): Option<int> {
    match Lookup(e, "EventOccured")
    case Some(JStr(text)) =>
      (match ParseTimestamp(text)
       case Some(t) => Some(Seconds(t))
       case None => None)
    case _ => None
  }

  /** The keys the sort computes for all events before it reorders any: each
      event with its key, or BadTimestamp if the key of one fails. The sort
      key of line 30 is `Occurred`. */
  function Stamp(events: seq<Event>, key: Event -> Option<int>): (r: Result<seq<Stamped>, Fault>)
    ensures r.Success? <==> forall i :: 0 <= i < |events| ==> key(events[i]).Some?
    ensures r.Failure? ==> r.error == BadTimestamp
    ensures r.Success? ==>
              && |r.value| == |events|
              && forall i :: 0 <= i < |events| ==> r.value[i] == Stamped(key(events[i]).value, events[i])
  {
    if events == [] then Success([])
    else
      match key(events[0])
      case None => Failure(BadTimestamp)
      case Some(seconds) =>
        match Stamp(events[1..], key)
        case Failure(f) => Failure(f)
        case Success(rest) =>
          assert forall i :: 1 <= i < |events| ==> events[i] == events[1..][i - 1];
          Success([Stamped(seconds, events[0])] + rest)
  }

  /** `event["EventArgs"]["Value"]`, or None where that raises. */
  function PartCount(e: Event): Option<Json> {
    match Lookup(e, "EventArgs")
    case Some(JObj(args)) => Lookup(args, "Value")
    case _ => None
  }

  /** `event["DeviceName"]`, or None where that raises. */
  function Device(e: Event): Option<Json> {
    Lookup(e, "DeviceName")
  }

  /** An event the device loop can store: it has a DeviceName usable as a key
      and an EventArgs.Value. */
  predicate DeviceEntryOk(e: Event) {
    Device(e).Some? && Hashable(Device(e).value) && PartCount(e).Some?
  }

  /** The integer a JSON value stands for in Python arithmetic: a number, or
      a boolean as 0 or 1. */
  function Numeric(j: Json): Option<int> {
    match j
    case JInt(i) => Some(i)
    case JBool(b) => Some(if b then 1 else 0)
    case _ => None
  }

  /** `end_value - start_value` for the first and last event, or None where a
      lookup raises or the values cannot be subtracted. */
  function Increase(sorted: seq<Stamped>): Option<int>
    requires sorted != []
  {
    match (PartCount(sorted[0].event), PartCount(sorted[|sorted| - 1].event))
    case (Some(startValue), Some(endValue)) =>
      (match (Numeric(startValue), Numeric(endValue))
       case (Some(a), Some(b)) => Some(b - a)
       case _ => None)
    case _ => None
  }

  /** Some event of `s` belongs to device `d`. */
  ghost predicate HasDevice(s: seq<Stamped>, d: Json) {
    exists i :: 0 <= i < |s| && Device(s[i].event) == Some(d)
  }

  /** Event `i` is the last event of `s` that belongs to device `d`. */
  ghost predicate LastOf(s: seq<Stamped>, i: int, d: Json) {
    && 0 <= i < |s| && Device(s[i].event) == Some(d)
    && forall j :: i < j < |s| ==> Device(s[j].event) != Some(d)
  }

  /** `m` maps exactly the device names of `s`, each to the value of that
      device's last event in `s`. */
  ghost predicate LastValueWins(m: map<Json, Json>, s: seq<Stamped>) {
    && (forall d :: d in m <==> HasDevice(s, d))
    && (forall d :: d in m ==> exists i :: LastOf(s, i, d) && PartCount(s[i].event) == Some(m[d]))
  }

  /** Lines 45-50: one pass over the sorted events, overwriting each device's
      entry with the event's value. An event that cannot be stored raises,
      and the partial dictionary is lost. */
  method DevicePerformance(sorted: seq<Stamped>) returns (r: Result<map<Json, Json>, Fault>)
    ensures r.Failure? <==> exists i :: 0 <= i < |sorted| && !DeviceEntryOk(sorted[i].event)
    ensures r.Failure? ==> r.error == BadDeviceEntry
    ensures r.Success? ==> LastValueWins(r.value, sorted)
  {
    var production: map<Json, Json> := map[];
    for n := 0 to |sorted|
      invariant forall i :: 0 <= i < n ==> DeviceEntryOk(sorted[i].event)
      invariant LastValueWins(production, sorted[..n])
    {
      var event := sorted[n].event;
      var device := Device(event);
      var value := PartCount(event);
      if device.None? || value.None? || !Hashable(device.value) {
        return Failure(BadDeviceEntry);
      }
      LastValueStep(production, sorted[..n], sorted[n]);
      assert sorted[..n + 1] == sorted[..n] + [sorted[n]];
      production := production[device.value := value.value];
    }
    assert sorted[..|sorted|] == sorted;
    return Success(production);
  }

  /** Overwriting the entry of a further event's device extends "last
      value wins" from `p` to `p + [x]`. */
  lemma LastValueStep(m: map<Json, Json>, p: seq<Stamped>, x: Stamped)
    requires Device(x.event).Some? && PartCount(x.event).Some?
    requires LastValueWins(m, p)
    ensures LastValueWins(m[Device(x.event).value := PartCount(x.event).value], p + [x])
  {
    var m' := m[Device(x.event).value := PartCount(x.event).value];
    DevicesStep(m, p, x);
    forall d | d in m'
      ensures exists i :: LastOf(p + [x], i, d) && PartCount((p + [x])[i].event) == Some(m'[d])
    {
      LastOfStep(m, p, x, d);
    }
  }

  /** After the step the table holds the devices of `p + [x]`. */
  lemma DevicesStep(m: map<Json, Json>, p: seq<Stamped>, x: Stamped)
    requires Device(x.event).Some? && PartCount(x.event).Some?
    requires forall d :: d in m <==> HasDevice(p, d)
    ensures forall d :: d in m[Device(x.event).value := PartCount(x.event).value] <==> HasDevice(p + [x], d)
  {
    var d0 := Device(x.event).value;
    var p' := p + [x];
    assert p'[|p|] == x;
    forall d
      ensures d in m[d0 := PartCount(x.event).value] <==> HasDevice(p', d)
    {
      if d != d0 {
        if d in m {
          var i :| 0 <= i < |p| && Device(p[i].event) == Some(d);
          assert p'[i] == p[i];
        }
        if HasDevice(p', d) {
          var i :| 0 <= i < |p'| && Device(p'[i].event) == Some(d);
          assert p[i] == p'[i];
        }
      }
    }
  }

  /** After the step each device's entry is the value of its last event in
      `p + [x]`. */
  lemma LastOfStep(m: map<Json, Json>, p: seq<Stamped>, x: Stamped, d: Json)
    requires Device(x.event).Some? && PartCount(x.event).Some?
    requires LastValueWins(m, p)
    requires d in m[Device(x.event).value := PartCount(x.event).value]
    ensures var m' := m[Device(x.event).value := PartCount(x.event).value];
            exists i :: LastOf(p + [x], i, d) && PartCount((p + [x])[i].event) == Some(m'[d])
  {
    if d == Device(x.event).value {
      LastOfAppended(p, x);
    } else {
      var i :| LastOf(p, i, d) && PartCount(p[i].event) == Some(m[d]);
      LastOfKept(p, x, i, d);
    }
  }

  /** An appended event is the last of its device. */
  lemma LastOfAppended(p: seq<Stamped>, x: Stamped)
    requires Device(x.event).Some?
    ensures LastOf(p + [x], |p|, Device(x.event).value) && (p + [x])[|p|] == x
  {
  }

  /** An event of another device stays the last of its own. */
  lemma LastOfKept(p: seq<Stamped>, x: Stamped, i: int, d: Json)
    requires LastOf(p, i, d) && Device(x.event) != Some(d)
    ensures LastOf(p + [x], i, d) && (p + [x])[i] == p[i]
  {
    var p' := p + [x];
    forall j | i < j < |p'|
      ensures Device(p'[j].event) != Some(d)
    {
      if j < |p| {
        assert p'[j] == p[j];
      }
    }
  }

  /** The report lines 53-70 build from sorted events whose first and last
      values can be subtracted and whose entries the device loop can store. */
  ghost predicate Summarizes(rep: KpiReport, s: seq<Stamped>)
    requires s != []
  {
    && Increase(s).Some?
    && rep.totalLogsAnalyzed == |s|
    && rep.windowSeconds == s[|s| - 1].seconds - s[0].seconds
    && rep.totalPartIncrease == Increase(s).value
    && rep.averageRate == (if rep.windowSeconds > 0 then PerMinute(rep.totalPartIncrease, rep.windowSeconds) else ZeroRate)
    && LastValueWins(rep.devicePerformance, s)
    && rep.stallingDetected == (|s| >= 2 && PartCount(s[|s| - 1].event) == PartCount(s[|s| - 2].event))
    && rep.stallingDevice == (if rep.stallingDetected then Device(s[|s| - 1].event) else None)
  }

  /** Lines 33-70 on the sorted events: the first exception that escapes, or
      the report. */
  ghost predicate Analyzed(r: KpiOutcome, s: seq<Stamped>) {
    && s != []
    && if Increase(s).None? then r == Raised(BadPartCount)
       else if exists i :: 0 <= i < |s| && !DeviceEntryOk(s[i].event) then r == Raised(BadDeviceEntry)
       else r.Report? && Summarizes(r.report, s)
  }

  /** `calculate_kpi_insights`. The production events are keyed by their
      timestamps, sorted in place (stably, as Python's sort is), and analysed;
      `sorted` is the order the analysis saw. */
  method CalculateKpiInsights(filteredJsonData: string, decode: string -> Option<Json>)
    returns (r: KpiOutcome, ghost sorted: seq<Stamped>)
    ensures ProductionStage(filteredJsonData, decode).Failure? ==>
              r == ProductionStage(filteredJsonData, decode).error
    ensures ProductionStage(filteredJsonData, decode).Success? ==>
              var events := ProductionStage(filteredJsonData, decode).value;
              && (Stamp(events, Occurred).Failure? ==> r == Raised(BadTimestamp))
              && (Stamp(events, Occurred).Success? ==>
                    && Sorted(sorted) && StablePermutation(Stamp(events, Occurred).value, sorted)
                    && Analyzed(r, sorted))
    ensures r.Report? ==>
              && ProductionStage(filteredJsonData, decode).Success?
              && r.report.totalLogsAnalyzed == |ProductionStage(filteredJsonData, decode).value|
  {
    var stage := ProductionStage(filteredJsonData, decode);
    if stage.Failure? {
      return stage.error, [];
    }
    var events := stage.value;
    var stamped := Stamp(events, Occurred);
    if stamped.Failure? {
      return Raised(stamped.error), [];
    }
    var s := SortedCopy(stamped.value);
    sorted := s;
    r := Analyze(s);
  }

  /** Line 30: the keyed events, sorted in place in a list of their own. */
  method SortedCopy(keyed: seq<Stamped>) returns (s: seq<Stamped>)
    ensures Sorted(s) && StablePermutation(keyed, s)
    ensures |s| == |keyed|
  {
    var a := new Stamped[|keyed|](i requires 0 <= i < |keyed| => keyed[i]);
    assert a[..] == keyed;
    SortByOccurred(a);
    s := a[..];
  }

  /** Lines 33-70 on the sorted events. */
  method Analyze(s: seq<Stamped>) returns (r: KpiOutcome)
    requires s != []
    ensures Analyzed(r, s)
    ensures r.Report? ==> r.report.totalLogsAnalyzed == |s|
  {
    var firstEvent, lastEvent := s[0], s[|s| - 1];
    var totalIncrease := Increase(s);
    if totalIncrease.None? {
      return Raised(BadPartCount);
    }
    var window := lastEvent.seconds - firstEvent.seconds;
    var devices := DevicePerformance(s);
    if devices.Failure? {
      return Raised(devices.error);
    }
    var isStalling := false;
    if |s| >= 2 && PartCount(s[|s| - 1].event) == PartCount(s[|s| - 2].event) {
      isStalling := true;
    }
    var rate := if window > 0 then PerMinute(totalIncrease.value, window) else ZeroRate;
    var stallingDevice := if isStalling then Device(lastEvent.event) else None;
    r := Report(KpiReport(|s|, window, totalIncrease.value, rate, devices.value, isStalling, stallingDevice));
  }

  // ---- Properties of the report ----

  /** On sorted events the window is never negative, the rate is 0 exactly
      when the window is empty, and a single event reports no increase, no
      rate and no stall. */
  lemma ReportBounds(rep: KpiReport, s: seq<Stamped>)
    requires s != [] && Sorted(s) && Summarizes(rep, s)
    ensures rep.windowSeconds >= 0
    ensures rep.averageRate == ZeroRate <==> rep.windowSeconds == 0
    ensures |s| == 1 ==>
              && rep.windowSeconds == 0 && rep.totalPartIncrease == 0 && rep.averageRate == ZeroRate
              && !rep.stallingDetected && rep.stallingDevice == None
  {
  }

  /** The device table keeps the last value of each device, not a sum: an
      event no later event of its device follows determines that device's
      entry. */
  lemma DeviceValueIsLast(m: map<Json, Json>, s: seq<Stamped>, i: int, d: Json)
    requires LastValueWins(m, s) && LastOf(s, i, d)
    ensures d in m && PartCount(s[i].event) == Some(m[d])
  {
    assert HasDevice(s, d);
    var k :| LastOf(s, k, d) && PartCount(s[k].event) == Some(m[d]);
  }

  /** A stall names the last event's device; its entry in the device table is
      the value the last two events share. */
  lemma StallingDeviceInTable(rep: KpiReport, s: seq<Stamped>)
    requires Analyzed(Report(rep), s)
    ensures rep.stallingDetected <==>
              |s| >= 2 && PartCount(s[|s| - 1].event) == PartCount(s[|s| - 2].event)
    ensures !rep.stallingDetected ==> rep.stallingDevice == None
    ensures rep.stallingDetected ==>
              && rep.stallingDevice == Some(s[|s| - 1].event["DeviceName"])
              && var d := rep.stallingDevice.value;
                 && d in rep.devicePerformance
                 && PartCount(s[|s| - 1].event) == Some(rep.devicePerformance[d])
                 && PartCount(s[|s| - 2].event) == Some(rep.devicePerformance[d])
  {
    var last := |s| - 1;
    assert DeviceEntryOk(s[last].event);
    if rep.stallingDetected {
      DeviceValueIsLast(rep.devicePerformance, s, last, Device(s[last].event).value);
    }
  }

  /** A production event with the given device, part count and timestamp. */
  function Reading(device: string, value: int, seconds: int): Stamped {
    Stamped(seconds, map["EventName" := JStr(TargetEvent), "DeviceName" := JStr(device),
                         "EventArgs" := JObj(map["Value" := JInt(value)])])
  }

  /** Two readings of one device, 10 then 30 parts, ten minutes apart: an
      increase of 20 over 600 seconds (2 parts per minute), the device's last
      value 30, no stall. */
  lemma TwoReadingsScenario(rep: KpiReport, t0: int)
    requires Summarizes(rep, [Reading("D1", 10, t0), Reading("D1", 30, t0 + 600)])
    ensures rep.totalLogsAnalyzed == 2 && rep.windowSeconds == 600 && rep.totalPartIncrease == 20
    ensures rep.averageRate == PerMinute(20, 600)
    ensures rep.devicePerformance == map[JStr("D1") := JInt(30)]
    ensures !rep.stallingDetected && rep.stallingDevice == None
  {
    var s := [Reading("D1", 10, t0), Reading("D1", 30, t0 + 600)];
    var m := rep.devicePerformance;
    assert HasDevice(s, JStr("D1")) by { assert Device(s[0].event) == Some(JStr("D1")); }
    DeviceValueIsLast(m, s, 1, JStr("D1"));
    forall d | d in m ensures d == JStr("D1") {
      var i :| 0 <= i < |s| && Device(s[i].event) == Some(d);
    }
  }
}
