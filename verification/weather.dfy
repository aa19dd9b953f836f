/** weather_find and the /weather endpoint (restapi.py): the observation
    nearest in time to a given instant. */
module Weather {
  import opened Wrappers
  import opened Json
  import opened Timestamps
  import opened ApiErrors

  /** The `properties` object of one feature of the weather feature collection. */
  type Properties = Object

  /** abs(dt - dte), in seconds. */
  function Distance(a: int, b: int): nat {
    if a >= b then a - b else b - a
  }

  /** ts_parse of each observation's timestamp, in collection order. */
  function ParsedTimes(obs: seq<Properties>): (opts: seq<Option<int>>)
    ensures |opts| == |obs|
  {
    if obs == [] then []
    else ParsedTimes(obs[..|obs| - 1]) + [TimeField(obs[|obs| - 1], "timestamp")]
  }

  /** The i-th parsed time is that of the i-th observation. */
  lemma {:induction false} ParsedTimesAt(obs: seq<Properties>, i: nat)
    requires i < |obs|
    ensures ParsedTimes(obs)[i] == TimeField(obs[i], "timestamp")
  {
    if i < |obs| - 1 {
      ParsedTimesAt(obs[..|obs| - 1], i);
    }
  }

  /** The parsed timestamps of all observations, or the index of the first
      one without a usable timestamp: weather_find raises there, since
      abs(dt - None) is a TypeError. */
  function ObservationTimes(obs: seq<Properties>): Result<seq<int>, nat> {
    Collect(ParsedTimes(obs))
  }

  /** Observation k is nearest to dt: no other is closer, and every earlier
      one is strictly farther (the first of equally near ones wins). */
  predicate NearestAt(dt: int, times: seq<int>, k: nat) {
    && k < |times|
    && (forall j :: 0 <= j < |times| ==> Distance(dt, times[k]) <= Distance(dt, times[j]))
    && (forall j :: 0 <= j < k ==> Distance(dt, times[k]) < Distance(dt, times[j]))
  }

  /** The running minimum of the scan: the last observation replaces the
      best so far only when strictly nearer. */
  function NearestIndex(dt: int, times: seq<int>): (k: nat)
    requires |times| > 0
    ensures NearestAt(dt, times, k)
  {
    if |times| == 1 then 0
    else
      var k := NearestIndex(dt, times[..|times| - 1]);
      if Distance(dt, times[|times| - 1]) < Distance(dt, times[k]) then |times| - 1 else k
  }

  /** The tie-break makes the nearest observation unique. */
  lemma NearestAtUnique(dt: int, times: seq<int>, k1: nat, k2: nat)
    requires NearestAt(dt, times, k1) && NearestAt(dt, times, k2)
    ensures k1 == k2
  {
    var d1, d2 := Distance(dt, times[k1]), Distance(dt, times[k2]);
  }

  /** What weather_find returns: None for an empty collection, otherwise the
      properties of the nearest observation. */
  function Nearest(dt: int, obs: seq<Properties>): Result<Option<Properties>, Error> {
    match ObservationTimes(obs)
    case Err(i) => Err(MalformedObservation(i))
    case Ok(times) => if obs == [] then Ok(None) else Ok(Some(obs[NearestIndex(dt, times)]))
  }

  /** Nearest fails exactly when some observation has no usable timestamp;
      otherwise it gives None only for an empty collection, and else the
      nearest observation, the first of equally near ones. */
  lemma NearestSpec(dt: int, obs: seq<Properties>)
    ensures Nearest(dt, obs).Ok? <==> forall i :: 0 <= i < |obs| ==> TimeField(obs[i], "timestamp").Some?
    ensures Nearest(dt, obs).Ok? ==> (Nearest(dt, obs).value.None? <==> obs == [])
    ensures Nearest(dt, obs).Ok? ==>
              && |ObservationTimes(obs).value| == |obs|
              && forall j :: 0 <= j < |obs| ==> ObservationTimes(obs).value[j] == TimeField(obs[j], "timestamp").value
    ensures Nearest(dt, obs).Ok? && obs != [] ==>
              exists k: nat :: NearestAt(dt, ObservationTimes(obs).value, k) && Nearest(dt, obs).value == Some(obs[k])
    ensures Nearest(dt, obs).Err? ==>
              exists i :: 0 <= i < |obs| && Nearest(dt, obs).error == MalformedObservation(i)
                          && TimeField(obs[i], "timestamp").None?
                          && forall j :: 0 <= j < i ==> TimeField(obs[j], "timestamp").Some?
  {
    var opts := ParsedTimes(obs);
    forall i | 0 <= i < |obs| ensures opts[i] == TimeField(obs[i], "timestamp") {
      ParsedTimesAt(obs, i);
    }
  }

  /** The scan's early exit: the first observation without a usable timestamp. */
  lemma NearestStops(dt: int, obs: seq<Properties>, i: nat)
    requires i < |obs| && Collect(ParsedTimes(obs)[..i]).Ok? && ParsedTimes(obs)[i].None?
    ensures Nearest(dt, obs) == Err(MalformedObservation(i))
  {
    CollectFirstNone(ParsedTimes(obs), i);
  }

  /** The scan's normal end: the running minimum is the nearest observation. */
  lemma NearestCompletes(dt: int, obs: seq<Properties>, times: seq<int>, k: nat)
    requires Collect(ParsedTimes(obs)[..|obs|]) == Ok(times)
    requires obs != [] ==> k == NearestIndex(dt, times)
    ensures Nearest(dt, obs) == if obs == [] then Ok(None) else Ok(Some(obs[k]))
  {
    assert ParsedTimes(obs)[..|obs|] == ParsedTimes(obs);
  }

  /** ts_parse(feature['properties']['timestamp']) for the i-th feature. */
  method ReadObservationTime(obs: seq<Properties>, i: nat) returns (t: Option<int>)
    requires i < |obs|
    ensures t == ParsedTimes(obs)[i]
  {
    t := ReadTimeField(obs[i], "timestamp");
    ParsedTimesAt(obs, i);
  }

  /** weather_find: one pass over the features keeping the smallest distance
      seen so far, replaced only on a strictly smaller one. */
  method WeatherFind(dt: int, obs: seq<Properties>) returns (r: Result<Option<Properties>, Error>)
    ensures r == Nearest(dt, obs)
  {
    var nearest: Option<nat> := None;
    var weather: Option<Properties> := None;
    ghost var times: seq<int> := [];
    ghost var k: nat := 0;
    for i := 0 to |obs|
      invariant Collect(ParsedTimes(obs)[..i]) == Ok(times)
      invariant nearest.None? <==> i == 0
      invariant weather.None? <==> i == 0
      invariant i > 0 ==> k == NearestIndex(dt, times) && nearest == Some(Distance(dt, times[k]))
                          && weather == Some(obs[k])
    {
      var dte := ReadObservationTime(obs, i);
      if dte.None? {
        NearestStops(dt, obs, i);
        return Err(MalformedObservation(i));
      }
      var distance := Distance(dt, dte.value);
      if nearest.None? || distance < nearest.value {
        nearest := Some(distance);
        weather := Some(obs[i]);
        k := i;
      }
      CollectNext(ParsedTimes(obs), i, times, dte.value);
      times := times + [dte.value];
    }
    NearestCompletes(dt, obs, times, k);
    return Ok(weather);
  }

  /** The /weather/<ts> endpoint: a timestamp that does not parse is a bad
      request, raised before the weather data is consulted; otherwise the
      nearest observation's properties (None for an empty collection). */
  method WeatherAtTime(ts: string, obs: seq<Properties>) returns (r: Result<Option<Properties>, Error>)
    ensures ParseTimestamp(ts).None? <==> r == Err(InvalidRequest(BadTimestampMessage))
    ensures ParseTimestamp(ts).Some? ==> r == Nearest(ParseTimestamp(ts).value, obs)
  {
    var dt := TsParse(ts);
    if dt.None? {
      return Err(InvalidRequest(BadTimestampMessage));
    }
    r := WeatherFind(dt.value, obs);
  }
}
