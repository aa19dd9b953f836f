/** The leaderboard range queries (leaders_timerange and leaders_temprange
    in restapi.py): visit the records in sorted key order and keep those
    whose start time, or the temperature observed nearest to it, lies in an
    inclusive interval. */
module Queries {
  import opened Wrappers
  import opened Json
  import opened Timestamps
  import opened KeyOrder
  import opened ApiErrors
  import opened Weather

  /** One leaderboard event. */
  type Record = Object

  /** The leaderboard: composite key to event. */
  type Leaderboard = map<string, Record>

  /** ts_parse(record['start_date']). */
  function StartTime(rec: Record): Option<int> {
    TimeField(rec, "start_date")
  }

  /** weather['temperature']['value'] when Python can compare it with a
      number: an int, or a bool (which compares as 0 or 1). Anything else
      makes the source raise. */
  function Temperature(p: Properties): (r: Option<int>)
    ensures r.Some? <==> "temperature" in p && p["temperature"].Obj? && "value" in p["temperature"].fields
                         && (p["temperature"].fields["value"].Int? || p["temperature"].fields["value"].Bool?)
    ensures r.Some? && p["temperature"].fields["value"].Int? ==> r.value == p["temperature"].fields["value"].i
    ensures r.Some? && p["temperature"].fields["value"].Bool? ==> r.value == if p["temperature"].fields["value"].b then 1 else 0
  {
    if "temperature" in p && p["temperature"].Obj? && "value" in p["temperature"].fields then
      match p["temperature"].fields["value"]
      case Int(i) => Some(i)
      case Bool(b) => Some(if b then 1 else 0)
      case _ => None
    else None
  }

  /** The interval a query filters on. */
  datatype Window =
    | TimeWindow(lo: int, hi: int)
    | TempWindow(lo: int, hi: int, obs: seq<Properties>)

  /** Whether the record stored under key, whose parsed start time is given,
      is kept; or the failure the source raises on it. */
  function Decide(w: Window, key: string, start: Option<int>): Result<bool, Error> {
    match start
    case None => Err(MalformedRecord(key))
    case Some(t) =>
      match w
      case TimeWindow(lo, hi) => Ok(lo <= t && t <= hi)
      case TempWindow(lo, hi, obs) =>
        match Nearest(t, obs)
        case Err(e) => Err(e)
        case Ok(None) => Err(MissingWeather(key))
        case Ok(Some(p)) =>
          match Temperature(p)
          case None => Err(MissingWeather(key))
          case Some(v) => Ok(lo <= v && v <= hi)
  }

  /** The decision for each key of ks, in order. */
  function Decisions(w: Window, ks: seq<string>, events: Leaderboard): (ds: seq<Result<bool, Error>>)
    requires forall i :: 0 <= i < |ks| ==> ks[i] in events
    ensures |ds| == |ks|
  {
    if ks == [] then []
    else
      var n := |ks| - 1;
      Decisions(w, ks[..n], events) + [Decide(w, ks[n], StartTime(events[ks[n]]))]
  }

  /** The i-th decision is that of the i-th key. */
  lemma {:induction false} DecisionsAt(w: Window, ks: seq<string>, events: Leaderboard, i: nat)
    requires forall i :: 0 <= i < |ks| ==> ks[i] in events
    requires i < |ks|
    ensures Decisions(w, ks, events)[i] == Decide(w, ks[i], StartTime(events[ks[i]]))
  {
    var n := |ks| - 1;
    if i < n {
      DecisionsAt(w, ks[..n], events, i);
    }
  }

  /** The keys whose decision is true, in their order in ks; the first
      failing decision aborts the whole query. */
  function Select(ks: seq<string>, ds: seq<Result<bool, Error>>): (r: Result<seq<string>, Error>)
    requires |ks| == |ds|
    ensures r.Ok? ==> forall j :: 0 <= j < |r.value| ==> r.value[j] in ks
  {
    if ks == [] then Ok([])
    else
      var n := |ks| - 1;
      match Select(ks[..n], ds[..n])
      case Err(e) => Err(e)
      case Ok(sel) =>
        match ds[n]
        case Err(e) => Err(e)
        case Ok(keep) => Ok(if keep then sel + [ks[n]] else sel)
  }

  /** Select succeeds exactly when every decision does; it then keeps a key
      exactly when its decision is true, and otherwise reports the first
      failure. */
  lemma SelectSpec(ks: seq<string>, ds: seq<Result<bool, Error>>)
    requires |ks| == |ds|
    ensures Select(ks, ds).Ok? <==> forall i :: 0 <= i < |ds| ==> ds[i].Ok?
    ensures Select(ks, ds).Ok? ==>
              forall k :: k in Select(ks, ds).value <==>
                          exists i :: 0 <= i < |ks| && ks[i] == k && ds[i] == Ok(true)
    ensures Select(ks, ds).Err? ==>
              exists i :: 0 <= i < |ds| && ds[i] == Err(Select(ks, ds).error)
                          && forall j :: 0 <= j < i ==> ds[j].Ok?
  {
    SelectSucceeds(ks, ds);
    if Select(ks, ds).Ok? {
      SelectMembers(ks, ds);
    } else {
      SelectFirstError(ks, ds);
    }
  }

  lemma {:induction false} SelectSucceeds(ks: seq<string>, ds: seq<Result<bool, Error>>)
    requires |ks| == |ds|
    ensures Select(ks, ds).Ok? <==> forall i :: 0 <= i < |ds| ==> ds[i].Ok?
  {
    if ks != [] {
      var n := |ks| - 1;
      SelectSucceeds(ks[..n], ds[..n]);
      assert forall i :: 0 <= i < n ==> ds[..n][i] == ds[i];
    }
  }

  lemma {:induction false} SelectMembers(ks: seq<string>, ds: seq<Result<bool, Error>>)
    requires |ks| == |ds| && Select(ks, ds).Ok?
    ensures forall k :: k in Select(ks, ds).value <==>
                        exists i :: 0 <= i < |ks| && ks[i] == k && ds[i] == Ok(true)
  {
    if ks != [] {
      var n := |ks| - 1;
      var ks', ds' := ks[..n], ds[..n];
      SelectMembers(ks', ds');
      assert forall i :: 0 <= i < n ==> ks'[i] == ks[i] && ds'[i] == ds[i];
      var sel := Select(ks', ds').value;
      var r := Select(ks, ds).value;
      forall k ensures k in r <==> exists i :: 0 <= i < |ks| && ks[i] == k && ds[i] == Ok(true) {
        if k in r && k !in sel {
          assert ks[n] == k && ds[n] == Ok(true);
        }
      }
    }
  }

  lemma {:induction false} SelectFirstError(ks: seq<string>, ds: seq<Result<bool, Error>>)
    requires |ks| == |ds| && Select(ks, ds).Err?
    ensures exists i :: 0 <= i < |ds| && ds[i] == Err(Select(ks, ds).error)
                        && forall j :: 0 <= j < i ==> ds[j].Ok?
  {
    var n := |ks| - 1;
    var ks', ds' := ks[..n], ds[..n];
    if Select(ks', ds').Err? {
      SelectFirstError(ks', ds');
      var i :| 0 <= i < |ds'| && ds'[i] == Err(Select(ks', ds').error) && forall j :: 0 <= j < i ==> ds'[j].Ok?;
      assert ds[i] == ds'[i];
      assert forall j :: 0 <= j < i ==> ds[j] == ds'[j];
    } else {
      SelectSucceeds(ks', ds');
      assert forall j :: 0 <= j < n ==> ds[j] == ds'[j];
    }
  }

  /** Select keeps the keys in the order of ks, so sorted keys stay sorted. */
  lemma {:induction false} SelectSorted(ks: seq<string>, ds: seq<Result<bool, Error>>)
    requires |ks| == |ds| && StrictlySorted(ks) && Select(ks, ds).Ok?
    ensures StrictlySorted(Select(ks, ds).value)
  {
    if ks != [] {
      var n := |ks| - 1;
      var ks', ds' := ks[..n], ds[..n];
      assert StrictlySorted(ks');
      SelectSorted(ks', ds');
      var sel := Select(ks', ds').value;
      forall j | 0 <= j < |sel| ensures Less(sel[j], ks[n]) {
        assert sel[j] in ks';
      }
    }
  }

  /** One loop step: the prefix selection after one more decision. */
  lemma SelectStep(ks: seq<string>, ds: seq<Result<bool, Error>>, i: nat)
    requires |ks| == |ds| && i < |ks| && Select(ks[..i], ds[..i]).Ok?
    ensures ds[i].Err? ==> Select(ks[..i + 1], ds[..i + 1]) == Err(ds[i].error)
    ensures ds[i].Ok? ==>
              (Select(ks[..i + 1], ds[..i + 1]) ==
               Ok(if ds[i].value then Select(ks[..i], ds[..i]).value + [ks[i]] else Select(ks[..i], ds[..i]).value))
  {
    assert ks[..i + 1][..i] == ks[..i] && ds[..i + 1][..i] == ds[..i];
  }

  /** A failure in a prefix is the failure of the whole selection. */
  lemma {:induction false} SelectErrSticks(ks: seq<string>, ds: seq<Result<bool, Error>>, i: nat)
    requires |ks| == |ds| && i <= |ks| && Select(ks[..i], ds[..i]).Err?
    ensures Select(ks, ds) == Select(ks[..i], ds[..i])
    decreases |ks|
  {
    if i < |ks| {
      var n := |ks| - 1;
      assert ks[..n][..i] == ks[..i] && ds[..n][..i] == ds[..i];
      SelectErrSticks(ks[..n], ds[..n], i);
    } else {
      assert ks[..i] == ks && ds[..i] == ds;
    }
  }

  /** The records stored under the given keys, in that order. */
  function RecordsOf(events: Leaderboard, keys: seq<string>): seq<Record>
    requires forall i :: 0 <= i < |keys| ==> keys[i] in events
  {
    seq(|keys|, i requires 0 <= i < |keys| => events[keys[i]])
  }

  /** The records of the keys in ks whose decision is true, in the order
      of ks, or the first failing decision. */
  function SelectOver(w: Window, events: Leaderboard, ks: seq<string>): Result<seq<Record>, Error>
    requires forall i :: 0 <= i < |ks| ==> ks[i] in events
  {
    match Select(ks, Decisions(w, ks, events))
    case Err(e) => Err(e)
    case Ok(sel) => Ok(RecordsOf(events, sel))
  }

  /** The loop over sorted(events) shared by both endpoints: retlist holds
      the records kept so far, in key order. */
  ghost function Query(w: Window, events: Leaderboard): Result<seq<Record>, Error> {
    SortedKeysSpec(events.Keys);
    SelectOver(w, events, SortedKeys(events.Keys))
  }

  /** The keys a query keeps. */
  ghost function Chosen(w: Window, events: Leaderboard): set<string> {
    set k | k in events && Decide(w, k, StartTime(events[k])) == Ok(true)
  }

  /** The records under a set of keys, in ascending key order. */
  ghost function SortedRecords(events: Leaderboard, keys: set<string>): seq<Record>
    requires keys <= events.Keys
  {
    SortedKeysSpec(keys);
    RecordsOf(events, SortedKeys(keys))
  }

  /** A query succeeds exactly when every record's decision does. */
  lemma QuerySucceeds(w: Window, events: Leaderboard)
    ensures Query(w, events).Ok? <==> forall k :: k in events ==> Decide(w, k, StartTime(events[k])).Ok?
  {
    SortedKeysSpec(events.Keys);
    var ks := SortedKeys(events.Keys);
    var ds := Decisions(w, ks, events);
    SelectSpec(ks, ds);
    if !Query(w, events).Ok? {
      var i :| 0 <= i < |ds| && ds[i].Err?;
      DecisionsAt(w, ks, events, i);
      assert ks[i] in events;
    } else {
      forall k | k in events ensures Decide(w, k, StartTime(events[k])).Ok? {
        var i :| 0 <= i < |ks| && ks[i] == k;
        DecisionsAt(w, ks, events, i);
        assert ds[i].Ok?;
      }
    }
  }

  /** A successful query returns exactly the kept records, in ascending key order. */
  lemma QueryExact(w: Window, events: Leaderboard)
    requires Query(w, events).Ok?
    ensures Query(w, events).value == SortedRecords(events, Chosen(w, events))
  {
    SortedKeysSpec(events.Keys);
    var ks := SortedKeys(events.Keys);
    var ds := Decisions(w, ks, events);
    SelectSpec(ks, ds);
    SelectSorted(ks, ds);
    var sel := Select(ks, ds).value;
    var chosen := Chosen(w, events);
    SortedKeysSpec(chosen);
    forall k ensures k in sel <==> k in SortedKeys(chosen) {
      if k in chosen {
        var i :| 0 <= i < |ks| && ks[i] == k;
        DecisionsAt(w, ks, events, i);
        assert ds[i] == Ok(true);
      }
      if k in sel {
        var i :| 0 <= i < |ks| && ks[i] == k && ds[i] == Ok(true);
        DecisionsAt(w, ks, events, i);
      }
    }
    SortedUnique(sel, SortedKeys(chosen));
  }

  /** A failed query reports the failure of the least key whose decision fails. */
  lemma QueryFirstFailure(w: Window, events: Leaderboard)
    requires Query(w, events).Err?
    ensures exists k :: k in events && Decide(w, k, StartTime(events[k])) == Err(Query(w, events).error)
                        && forall k' :: k' in events && Less(k', k) ==> Decide(w, k', StartTime(events[k'])).Ok?
  {
    SortedKeysSpec(events.Keys);
    var ks := SortedKeys(events.Keys);
    var ds := Decisions(w, ks, events);
    SelectSpec(ks, ds);
    var e := Query(w, events).error;
    var i :| 0 <= i < |ds| && ds[i] == Err(e) && forall j :: 0 <= j < i ==> ds[j].Ok?;
    forall k' | k' in events && Less(k', ks[i]) ensures Decide(w, k', StartTime(events[k'])).Ok? {
      var j :| 0 <= j < |ks| && ks[j] == k';
      if j > i { LessAsymmetric(ks[i], ks[j]); }
      if j == i { LessIrreflexive(ks[i]); }
      assert j < i;
      DecisionsAt(w, ks, events, j);
    }
    DecisionsAt(w, ks, events, i);
    assert ks[i] in events;
  }

  /** No query failure is a bad request: those are raised before the loop. */
  lemma QueryNeverRejects(w: Window, events: Leaderboard)
    ensures Query(w, events).Err? ==> !Query(w, events).error.InvalidRequest?
  {
    if Query(w, events).Err? {
      QueryFirstFailure(w, events);
    }
  }

  /** The records under a smaller key set are among those under a larger one. */
  lemma SortedRecordsSubset(events: Leaderboard, small: set<string>, large: set<string>)
    requires small <= large <= events.Keys
    ensures forall x :: x in SortedRecords(events, small) ==> x in SortedRecords(events, large)
  {
    SortedKeysSpec(small);
    SortedKeysSpec(large);
    var ss, ls := SortedKeys(small), SortedKeys(large);
    forall x | x in SortedRecords(events, small) ensures x in SortedRecords(events, large) {
      var i :| 0 <= i < |ss| && x == events[ss[i]];
      assert ss[i] in large;
      var j :| 0 <= j < |ls| && ls[j] == ss[i];
      assert SortedRecords(events, large)[j] == x;
    }
  }

  /** The loop's early exit: the first failing decision fails the whole selection. */
  lemma SelectOverStops(w: Window, events: Leaderboard, ks: seq<string>, i: nat)
    requires forall i :: 0 <= i < |ks| ==> ks[i] in events
    requires i < |ks|
    requires Select(ks[..i], Decisions(w, ks, events)[..i]).Ok? && Decisions(w, ks, events)[i].Err?
    ensures SelectOver(w, events, ks) == Err(Decisions(w, ks, events)[i].error)
  {
    var ds := Decisions(w, ks, events);
    SelectStep(ks, ds, i);
    SelectErrSticks(ks, ds, i + 1);
  }

  /** The loop's normal end: every decision succeeded. */
  lemma SelectOverCompletes(w: Window, events: Leaderboard, ks: seq<string>, sel: seq<string>)
    requires forall i :: 0 <= i < |ks| ==> ks[i] in events
    requires Select(ks[..|ks|], Decisions(w, ks, events)[..|ks|]) == Ok(sel)
    requires forall j :: 0 <= j < |sel| ==> sel[j] in events
    ensures SelectOver(w, events, ks) == Ok(RecordsOf(events, sel))
  {
    var ds := Decisions(w, ks, events);
    assert ks[..|ks|] == ks && ds[..|ds|] == ds;
  }

  /** The body of both loops for one record: read its start_date, and for a
      temperature query look up the nearest observation and its temperature. */
  method DecideRecord(w: Window, key: string, event: Record) returns (d: Result<bool, Error>)
    ensures d == Decide(w, key, StartTime(event))
  {
    var dt := ReadTimeField(event, "start_date");
    if dt.None? {
      return Err(MalformedRecord(key));
    }
    match w
    case TimeWindow(lo, hi) =>
      d := Ok(dt.value >= lo && dt.value <= hi);
    case TempWindow(lo, hi, obs) =>
      var weather := WeatherFind(dt.value, obs);
      if weather.Err? {
        return Err(weather.error);
      }
      if weather.value.None? {
        return Err(MissingWeather(key));
      }
      var temp := Temperature(weather.value.value);
      if temp.None? {
        return Err(MissingWeather(key));
      }
      d := Ok(temp.value >= lo && temp.value <= hi);
  }

  /** The decision on the i-th key, computed as the loop body does. */
  method DecideAt(w: Window, events: Leaderboard, ks: seq<string>, i: nat) returns (d: Result<bool, Error>)
    requires forall j :: 0 <= j < |ks| ==> ks[j] in events
    requires i < |ks|
    ensures d == Decisions(w, ks, events)[i]
  {
    d := DecideRecord(w, ks[i], events[ks[i]]);
    DecisionsAt(w, ks, events, i);
  }

  /** The loop of both endpoints over the keys ks: decide each record and
      append it to retlist when kept; the first failure ends the request. */
  method SelectRecords(w: Window, events: Leaderboard, ks: seq<string>) returns (r: Result<seq<Record>, Error>)
    requires forall i :: 0 <= i < |ks| ==> ks[i] in events
    ensures r == SelectOver(w, events, ks)
  {
    ghost var ds := Decisions(w, ks, events);
    var retlist: seq<Record> := [];
    ghost var sel: seq<string> := [];
    for i := 0 to |ks|
      invariant Select(ks[..i], ds[..i]) == Ok(sel)
      invariant forall j :: 0 <= j < |sel| ==> sel[j] in events
      invariant retlist == RecordsOf(events, sel)
    {
      var event := events[ks[i]];
      var d := DecideAt(w, events, ks, i);
      if d.Err? {
        SelectOverStops(w, events, ks, i);
        return Err(d.error);
      }
      SelectStep(ks, ds, i);
      if d.value {
        retlist := retlist + [event];
        sel := sel + [ks[i]];
      }
    }
    SelectOverCompletes(w, events, ks, sel);
    return Ok(retlist);
  }

  /** for key in sorted(events): the shared loop over the sorted keys. */
  method RunQuery(w: Window, events: Leaderboard) returns (r: Result<seq<Record>, Error>)
    ensures r == Query(w, events)
  {
    var ks := SortKeys(events);
    SortedKeysSpec(events.Keys);
    r := SelectRecords(w, events, ks);
  }

  /** leaders_timerange: both bounds must parse and be in order, else a bad
      request, raised before the leaderboard is consulted. */
  ghost function Timerange(ts1: string, ts2: string, events: Leaderboard): Result<seq<Record>, Error> {
    var dt1 := ParseTimestamp(ts1);
    var dt2 := ParseTimestamp(ts2);
    if dt1.None? || dt2.None? || dt2.value < dt1.value then Err(InvalidRequest(BadTimestampsMessage))
    else Query(TimeWindow(dt1.value, dt2.value), events)
  }

  /** leaders_timerange after its parameters are read: parse and check the
      bounds, then run the query loop. */
  method LeadersTimerange(ts1: string, ts2: string, events: Leaderboard) returns (r: Result<seq<Record>, Error>)
    ensures r == Timerange(ts1, ts2, events)
  {
    var dt1 := TsParse(ts1);
    var dt2 := TsParse(ts2);
    if dt1.None? || dt2.None? || dt2.value < dt1.value {
      return Err(InvalidRequest(BadTimestampsMessage));
    }
    r := RunQuery(TimeWindow(dt1.value, dt2.value), events);
  }

  /** The request is rejected as a bad request exactly when a bound does
      not parse or the bounds are reversed. */
  lemma TimerangeRejects(ts1: string, ts2: string, events: Leaderboard)
    ensures (Timerange(ts1, ts2, events).Err? && Timerange(ts1, ts2, events).error.InvalidRequest?) <==>
            ParseTimestamp(ts1).None? || ParseTimestamp(ts2).None?
            || ParseTimestamp(ts2).value < ParseTimestamp(ts1).value
    ensures ParseTimestamp(ts1).None? || ParseTimestamp(ts2).None?
            || ParseTimestamp(ts2).value < ParseTimestamp(ts1).value ==>
              Timerange(ts1, ts2, events) == Err(InvalidRequest(BadTimestampsMessage))
  {
    if ParseTimestamp(ts1).Some? && ParseTimestamp(ts2).Some? {
      QueryNeverRejects(TimeWindow(ParseTimestamp(ts1).value, ParseTimestamp(ts2).value), events);
    }
  }

  /** The keys of the records whose start time parses and lies in [lo, hi]. */
  ghost function InTimeRange(events: Leaderboard, lo: int, hi: int): set<string> {
    set k | k in events && StartTime(events[k]).Some? && lo <= StartTime(events[k]).value <= hi
  }

  /** With valid bounds, the result is exactly the records whose start time
      lies in [lo, hi], both ends included, in ascending key order; it fails
      exactly when some start_date does not parse, on the least such key. */
  lemma TimerangeResult(ts1: string, ts2: string, events: Leaderboard, lo: int, hi: int)
    requires ParseTimestamp(ts1) == Some(lo) && ParseTimestamp(ts2) == Some(hi) && lo <= hi
    ensures Timerange(ts1, ts2, events).Ok? <==> forall k :: k in events ==> StartTime(events[k]).Some?
    ensures Timerange(ts1, ts2, events).Ok? ==>
              Timerange(ts1, ts2, events).value == SortedRecords(events, InTimeRange(events, lo, hi))
    ensures Timerange(ts1, ts2, events).Err? ==>
              exists k :: k in events && StartTime(events[k]).None?
                          && Timerange(ts1, ts2, events).error == MalformedRecord(k)
                          && forall k' :: k' in events && Less(k', k) ==> StartTime(events[k']).Some?
  {
    var w := TimeWindow(lo, hi);
    QuerySucceeds(w, events);
    if Query(w, events).Ok? {
      QueryExact(w, events);
      assert Chosen(w, events) == InTimeRange(events, lo, hi);
    } else {
      QueryFirstFailure(w, events);
    }
  }

  /** leaders_temprange, given what float() makes of its two parameters
      (None where it raises ValueError): an unreadable bound and reversed
      bounds are bad requests, raised before any data is consulted. */
  ghost function Temprange(temp1: Option<int>, temp2: Option<int>, events: Leaderboard, obs: seq<Properties>)
    : Result<seq<Record>, Error>
  {
    if temp1.None? || temp2.None? then Err(InvalidRequest(BadTemperatureMessage))
    else if temp2.value < temp1.value then Err(InvalidRequest(ReversedTemperaturesMessage))
    else Query(TempWindow(temp1.value, temp2.value, obs), events)
  }

  /** leaders_temprange: check the bounds float() has read, then run the
      query loop against the weather observations. */
  method LeadersTemprange(temp1: Option<int>, temp2: Option<int>, events: Leaderboard, obs: seq<Properties>)
    returns (r: Result<seq<Record>, Error>)
    ensures r == Temprange(temp1, temp2, events, obs)
  {
    if temp1.None? || temp2.None? {
      return Err(InvalidRequest(BadTemperatureMessage));
    }
    if temp2.value < temp1.value {
      return Err(InvalidRequest(ReversedTemperaturesMessage));
    }
    r := RunQuery(TempWindow(temp1.value, temp2.value, obs), events);
  }

  /** The request is rejected as a bad request exactly when a bound is not
      a number or the bounds are reversed, and the message says which. */
  lemma TemprangeRejects(temp1: Option<int>, temp2: Option<int>, events: Leaderboard, obs: seq<Properties>)
    ensures (Temprange(temp1, temp2, events, obs).Err? && Temprange(temp1, temp2, events, obs).error.InvalidRequest?) <==>
            temp1.None? || temp2.None? || temp2.value < temp1.value
    ensures Temprange(temp1, temp2, events, obs) == Err(InvalidRequest(BadTemperatureMessage)) <==>
            temp1.None? || temp2.None?
    ensures temp1.Some? && temp2.Some? && temp2.value < temp1.value ==>
              Temprange(temp1, temp2, events, obs) == Err(InvalidRequest(ReversedTemperaturesMessage))
  {
    if temp1.Some? && temp2.Some? {
      QueryNeverRejects(TempWindow(temp1.value, temp2.value, obs), events);
    }
  }

  /** The temperature of the observation nearest to a record's start time,
      when the record, the observations and the temperature are all usable. */
  function NearestTemperature(rec: Record, obs: seq<Properties>): Option<int> {
    match StartTime(rec)
    case None => None
    case Some(t) =>
      match Nearest(t, obs)
      case Ok(Some(p)) => Temperature(p)
      case _ => None
  }

  /** The keys of the records whose nearest temperature lies in [lo, hi]. */
  ghost function InTempRange(events: Leaderboard, obs: seq<Properties>, lo: int, hi: int): set<string> {
    set k | k in events && NearestTemperature(events[k], obs).Some?
              && lo <= NearestTemperature(events[k], obs).value <= hi
  }

  /** A temperature decision succeeds exactly when the record has a nearest
      temperature, and keeps the record exactly when it lies in [lo, hi]. */
  lemma TempDecision(lo: int, hi: int, obs: seq<Properties>, key: string, rec: Record)
    ensures Decide(TempWindow(lo, hi, obs), key, StartTime(rec)).Ok? <==> NearestTemperature(rec, obs).Some?
    ensures Decide(TempWindow(lo, hi, obs), key, StartTime(rec)) == Ok(true) <==>
              NearestTemperature(rec, obs).Some? && lo <= NearestTemperature(rec, obs).value <= hi
  {
  }

  /** With lo <= hi, the result is exactly the records whose nearest
      observation's temperature lies in [lo, hi], both ends included, in
      ascending key order; it fails exactly when some record has no such
      temperature. */
  lemma TemprangeResult(lo: int, hi: int, events: Leaderboard, obs: seq<Properties>)
    requires lo <= hi
    ensures Temprange(Some(lo), Some(hi), events, obs).Ok? <==>
              forall k :: k in events ==> NearestTemperature(events[k], obs).Some?
    ensures Temprange(Some(lo), Some(hi), events, obs).Ok? ==>
              Temprange(Some(lo), Some(hi), events, obs).value == SortedRecords(events, InTempRange(events, obs, lo, hi))
  {
    var w := TempWindow(lo, hi, obs);
    forall k | k in events {
      TempDecision(lo, hi, obs, k, events[k]);
    }
    QuerySucceeds(w, events);
    if Query(w, events).Ok? {
      QueryExact(w, events);
      assert Chosen(w, events) == InTempRange(events, obs, lo, hi);
    }
  }

  /** Widening the interval never drops a record. */
  lemma TemprangeWidening(lo: int, hi: int, lo': int, hi': int, events: Leaderboard, obs: seq<Properties>)
    requires lo' <= lo && hi <= hi'
    requires Temprange(Some(lo), Some(hi), events, obs).Ok?
    ensures Temprange(Some(lo'), Some(hi'), events, obs).Ok?
    ensures forall x :: x in Temprange(Some(lo), Some(hi), events, obs).value ==>
                        x in Temprange(Some(lo'), Some(hi'), events, obs).value
  {
    TemprangeResult(lo, hi, events, obs);
    TemprangeResult(lo', hi', events, obs);
    SortedRecordsSubset(events, InTempRange(events, obs, lo, hi), InTempRange(events, obs, lo', hi'));
  }
}
