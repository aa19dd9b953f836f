# Leaderboard REST API and leaderboard update tool — Dafny model

This project models the core of a small leaderboard service with weather data.

- **The REST API** (`restapi.py`) answers three queries over two JSON datasets:
  - the leaderboard, which maps a composite key to an event record;
  - a collection of weather observations.

  The queries are:
  - the events whose `start_date` lies between two timestamps;
  - the events whose nearest weather observation has a temperature between two bounds;
  - the weather observation nearest to a timestamp.

  A bad request raises `InvalidUsage`, which becomes a 400 response whose body is the exception's dict.
- **The update tool** (`tools/update_leaderboard.py`) first loads the existing leaderboard, or starts from `{}` if it cannot be read. It then stores every entry of every event file under the key `start_date+athlete_name+rank`, so later entries overwrite earlier ones.

Modules (one file each):

- `Wrappers`: `Option`, `Result`, and `Collect`. `Collect` is the "first element that cannot be used raises" scan.
- `Json`: JSON values, and Python's `str()` of them.
- `Timestamps`: `ts_parse`. It has three fixed layouts tried in order.
  - A successful parse is a naive datetime.
  - It is represented as integer seconds on Python's proleptic Gregorian timeline: ordinal day × 86400 + time of day.
- `KeyOrder`: Python's `<` on `str` and `sorted()` over a dict's keys.
- `ApiErrors`: the `InvalidUsage` class and the failures a query can end in.
  - `InvalidRequest(message)` is `raise InvalidUsage(message)`; `Raise` builds that exception, with status 400.
  - `MalformedRecord(key)`, `MalformedObservation(index)` and `MissingWeather(key)` are the exceptions the code does not catch. They come from `None` or a missing key reaching a comparison or an index.
- `Weather`: `weather_find` and the `/weather/<ts>` body.
- `Queries`: the loop over `sorted(events)` that both range endpoints share, and the bodies of `/leaders/timerange` and `/leaders/temprange`.
- `UpdateLeaderboard`: `make_composite_key`, the merge loop, and the initial load.

Each imperative routine is a method with loops and invariants. Each method is proved equal to a specification function. The properties the code promises are proved as lemmas about those functions.

## Model

| member | source | states |
|---|---|---|
| Timestamps.ParseDateTime | restapi.py:18-22 | a successful parse under one layout is a valid datetime (year 1..9999, a real calendar day, seconds 0..59), and the text has exactly that layout's length |
| Timestamps.ParseIsRender | restapi.py:18-22 | a text a layout accepts spells the datetime it yields: every character is that datetime's written form in the layout, except the case of `T` and of the zone suffix |
| Timestamps.ParseSpelled | restapi.py:18-22 | every text that spells a valid datetime in a layout, in either case of `T` and the suffix, parses to that datetime |
| Timestamps.ParseDateTimeExact | restapi.py:18-22 | a layout parses a text to a datetime iff the text spells that datetime in the layout: the accepted texts are exactly the written forms |
| Timestamps.ParseRender | restapi.py:18-22 | every layout reads back exactly the datetime written in it: `+00:00` and `Z` are literal text, so no zone shift happens |
| Timestamps.ParseTimestampRender | restapi.py:54-66 | `ts_parse` of a valid datetime written in any of the three layouts returns that datetime's instant |
| Timestamps.ParseTimestampSpelled | restapi.py:54-66 | `ts_parse` of any text that spells a valid datetime in one of the layouts returns that datetime's instant |
| Timestamps.ParseTimestampSpells | restapi.py:54-66 | every text `ts_parse` accepts spells, in one of the layouts, a valid datetime whose instant is the result |
| Timestamps.TsParse | restapi.py:54-66 | the loop with `break` and `for/else` returns the first layout's parse that succeeds, or None once all three fail; it never raises |
| Timestamps.FirstParseIsFirstSuccess | restapi.py:56-65 | the result is None iff every layout fails; otherwise it is the parse of layout i, where every earlier layout failed, so later layouts are never consulted |
| Timestamps.SecondsOrder | restapi.py:110 | comparing instants in seconds is Python's field-by-field comparison of naive datetimes, and equal instants are equal datetimes |
| Timestamps.ReadTimeField | restapi.py:91 | `ts_parse(record[field])`; None when the field is not a string, and also for a missing field, where the code raises `KeyError` and the caller fails the same way |
| KeyOrder.LessTotal | restapi.py:117 | two different strings are ordered one way or the other |
| KeyOrder.LessTransitive | restapi.py:117 | Python's string order is transitive |
| KeyOrder.SortedKeysSpec | restapi.py:117 | `sorted(events)` lists every key exactly once, in strictly ascending order |
| KeyOrder.SortedUnique | restapi.py:117 | two strictly ascending lists with the same elements are equal, so "sorted" fixes the order of the output |
| KeyOrder.SortKeys | restapi.py:117 | the method computes the sorted key list |
| ApiErrors.InvalidUsage.constructor | restapi.py:33-40 | the message and payload are stored; the status is the given one, or 400 when none is given |
| ApiErrors.Raise | restapi.py:33-40 | `raise InvalidUsage(message)`, as at restapi.py:111, 138, 141 and 168: a new exception with that message, status 400 and no payload; this is what every `InvalidRequest(message)` stands for |
| ApiErrors.InvalidUsage.ToDict | restapi.py:42-45 | the keys are the payload's keys plus `message`; `message` maps to the message even when the payload has that key, and every other payload entry is kept |
| Weather.NearestIndex | restapi.py:90-94 | the running minimum is an index whose distance is no greater than any other, and strictly smaller than every earlier one |
| Weather.NearestAtUnique | restapi.py:92 | the strict `<` makes the nearest observation unique: the first of equally near ones |
| Weather.NearestSpec | restapi.py:87-95 | the result is an error iff some observation's timestamp does not parse, and the error names the first such one; otherwise it is None iff the collection is empty, else the properties of the nearest observation; the distances are measured from each observation's own parsed `timestamp`, one time per observation |
| Weather.ReadObservationTime | restapi.py:91 | the parsed timestamp of the i-th feature |
| Weather.WeatherFind | restapi.py:80-95 | the loop with its `nearest` and `weather` accumulators computes that result |
| Weather.WeatherAtTime | restapi.py:157-172 | an unparseable timestamp is rejected with "Error parsing timestamp parameter" before any weather is consulted; otherwise the result is the nearest observation's |
| Queries.Select | restapi.py:116-120 | every selected key is one of the keys visited |
| Queries.SelectSpec | restapi.py:116-120 | the selection succeeds iff every decision does; it then keeps a key iff its decision is true; otherwise it fails with the first failing decision |
| Queries.SelectSorted | restapi.py:117-120 | appending in visiting order keeps the selection a subsequence of the sorted keys, hence sorted |
| Queries.DecideRecord | restapi.py:118-119 | the loop body for one record (also restapi.py:149-152 for the temperature query), in the code's order of failures: an unparseable `start_date`, then an unusable observation, an absent nearest observation or a missing temperature; otherwise whether the value lies in the inclusive interval |
| Queries.SelectRecords | restapi.py:116-120 | the loop appends `events[key]` for every kept key in visiting order, or stops at the first failing record |
| Queries.RunQuery | restapi.py:116-121 | the loop over `sorted(events)` computes the query result |
| Queries.QuerySucceeds | restapi.py:116-121 | a query succeeds iff every record's decision succeeds |
| Queries.QueryExact | restapi.py:116-121 | a successful query returns exactly the kept records, in ascending key order |
| Queries.QueryFirstFailure | restapi.py:117-119 | a failed query reports the failure of a record whose decision fails, and every smaller key's decision succeeds |
| Queries.QueryNeverRejects | restapi.py:108-121 | the loop never raises `InvalidUsage`; that happens only in the bound checks before it |
| Queries.LeadersTimerange | restapi.py:97-121 | the body of `/leaders/timerange` computes the timerange result: validation, then the loop |
| Queries.TimerangeRejects | restapi.py:108-111 | the request is a bad request iff a bound does not parse or `dt2 < dt1`; either way the error is `InvalidRequest` with the message "Error parsing timestamp parameters", which `ApiErrors.Raise` turns into a status-400 `InvalidUsage` |
| Queries.TimerangeResult | restapi.py:116-121 | with valid bounds, the request succeeds iff every `start_date` parses; the result is then exactly the records with `dt1 <= start <= dt2`, both ends included, in ascending key order; otherwise the failure is the least key with an unparseable `start_date` |
| Queries.LeadersTemprange | restapi.py:123-155 | the body of `/leaders/temprange` computes the temprange result: validation, then the loop |
| Queries.TemprangeRejects | restapi.py:134-141 | the request is a bad request iff a bound is not a number or `temp2 < temp1`; the error is `InvalidUsage` with the message "Invalid temperature parameter" in the first case and "First temp must be less than or equal to second" in the second; `ApiErrors.Raise` gives either one status 400 |
| Queries.Temperature | restapi.py:151-152 | `weather['temperature']['value']` is usable iff the path exists through an object and ends in an integer or a boolean; an integer is itself and a boolean compares as 1 or 0; anything else makes the comparison raise |
| Queries.TempDecision | restapi.py:149-152 | a record's decision succeeds iff it has a nearest temperature, and keeps the record iff that temperature lies in the inclusive interval |
| Queries.TemprangeResult | restapi.py:147-155 | with `temp1 <= temp2`, the request succeeds iff every record has a nearest temperature; the result is then exactly the records whose nearest temperature is in `[temp1, temp2]`, in ascending key order |
| Queries.TemprangeWidening | restapi.py:152 | widening the interval keeps a successful request successful and drops no record |
| Json.Text | tools/update_leaderboard.py:30 | `str()` of a string is the string itself; `str()` of any other value is non-empty and contains no `'+'` |
| Json.IntTextInjective | tools/update_leaderboard.py:30 | `str()` of distinct integers differs |
| UpdateLeaderboard.MakeCompositeKey | tools/update_leaderboard.py:26-31 | the loop collects `str(d.get(k, ''))` for the keys in order, one text per key, and the key is their `'+'`-join |
| UpdateLeaderboard.SplitJoin | tools/update_leaderboard.py:31 | splitting a `'+'`-join of parts that contain no `'+'` gives the parts back |
| UpdateLeaderboard.KeyDependsOnlyOnFields | tools/update_leaderboard.py:24-31 | entries that agree on the key fields get the same key, whatever else they hold |
| UpdateLeaderboard.CompositeKeyInjective | tools/update_leaderboard.py:24-31 | when no key field's text contains `'+'`, equal keys mean equal texts of every key field |
| UpdateLeaderboard.SameKeySameEvent | tools/update_leaderboard.py:24-31 | two entries whose `start_date` and `athlete_name` are strings without `'+'` and whose `rank` is an integer share a key only if they agree on all three fields (the converse is `KeyDependsOnlyOnFields`) |
| UpdateLeaderboard.KeyCollision | tools/update_leaderboard.py:30-31 | a `'+'` inside a field lets two different entries share a key |
| UpdateLeaderboard.MergeKeys | tools/update_leaderboard.py:44-45 | the merged key set is the old keys united with the keys of the entries |
| UpdateLeaderboard.MergeLastWins | tools/update_leaderboard.py:44-45 | an entry whose key no later entry shares is the stored value under that key |
| UpdateLeaderboard.MergeUntouched | tools/update_leaderboard.py:44-45 | a key no entry produces is present afterwards iff it was before, with its old value |
| UpdateLeaderboard.MergeKeyed | tools/update_leaderboard.py:44-45 | if every dataset value is stored under its own key, that stays true after the merge |
| UpdateLeaderboard.MergeIdempotent | tools/update_leaderboard.py:44-45 | merging the same entries a second time changes nothing |
| UpdateLeaderboard.MergeAppend | tools/update_leaderboard.py:41-45 | merging two batches one after the other is merging their concatenation |
| UpdateLeaderboard.Iterated | tools/update_leaderboard.py:43-44 | `for entry in d['entries']` goes through a list's items; an empty dict or empty string gives no entries; a non-empty dict or string, or any other value, cannot be used as a list of entry dicts |
| UpdateLeaderboard.FileEntries | tools/update_leaderboard.py:43-45 | a decoded file yields entries iff it is a dict with an `entries` member that iterates to items which are all dicts; the entries are then exactly those dicts, in order |
| UpdateLeaderboard.MergeFilesResult | tools/update_leaderboard.py:41-45 | a run succeeds iff every file can be opened and decoded and has iterable `entries` of dicts; it then stores the merge of all entries, in file order, over the initial dataset |
| UpdateLeaderboard.MergeFilesFirstFailure | tools/update_leaderboard.py:41-44 | a failed run names the first bad file, and says whether it could not be read or was malformed |
| UpdateLeaderboard.UpdateSpec | tools/update_leaderboard.py:34-45 | over all batches: keys are the initial keys plus the entries' keys; the entry processed last under a key is the stored one, whether it came from the same batch or a different one; keys no entry produces keep their value; a dataset whose values are under their own keys stays so |
| UpdateLeaderboard.EmptyOnFailure | tools/update_leaderboard.py:34-38 | when the existing file cannot be loaded, the result holds exactly the keys of the merged entries |
| UpdateLeaderboard.UpdateUnchanged | tools/update_leaderboard.py:34-45 | a run whose files hold no entries writes back the loaded dataset unchanged |
| UpdateLeaderboard.UpdateDataset | tools/update_leaderboard.py:34-45 | the nested loop, which overwrites `data[key]` in place and stops at the first bad file or entry, computes the run's result |

## Left out

- **Flask and I/O.** These are not modelled:
  - Flask routing, `jsonify`, and the error handler that turns `InvalidUsage` into a response;
  - the 500 response an uncaught exception becomes;
  - `read_json_dict` and every `open` or `json.load`.

  The loaded datasets are parameters, and a file that cannot be read or decoded is `None`.
- **Writing the result.** `json.dump` of the result and the atomic `tempfile` plus `os.replace` step (tools/update_leaderboard.py:48-51) are not modelled. The model returns the dataset that would be written.
- **Errors on bad data follow the code.** Bad records and bad observations stop the query with an error; they are not skipped and they are not a 400.
  - An unparseable observation timestamp makes `abs(dt - None)` raise. `weather_find` therefore fails as a whole, and the model does the same.
  - A record without a parseable `start_date` also fails the query. The model reports it as `MalformedRecord`, and `Queries.TimerangeResult` states this.
  - These are exceptions the code does not catch, not `InvalidUsage`.
- **Python exception types are not distinguished.** The four `Error` kinds stand for the exceptions. `KeyError` and `TypeError` are not told apart.
- **Float parsing is abstract.** `float()` of the temperature parameters is not modelled. `Queries.LeadersTemprange` takes what it yields: an integer, or `None` where it raises `ValueError`.
- **No floating point.** Every JSON number in the model is an integer, and so are temperatures and bounds. NaN, infinities and fractional values are not modelled. `make_composite_key` applies `str()` to a float field the way Python does (`1.0` becomes `"1.0"`, `1e16` becomes `"1e+16"`); that is not modelled either. A JSON `true`/`false` temperature compares as 1/0, as in Python. Any other non-numeric temperature counts as unusable.
- **Timestamps.ParseDateTime is narrower than strptime.**
  - It reads fixed-width, zero-padded ASCII fields only.
  - `strptime` also accepts one-digit months, days, hours, minutes and seconds, and Unicode digits.
  - Case-insensitive matching of `T`, `Z` and `z` is modelled.
- **`str()` of containers is a placeholder.** `str()` of a JSON object or list (`Json.Text`) is a fixed placeholder (`{...}`, `[...]`) rather than Python's full rendering. This only affects composite keys built from container-valued fields.
- **Records are assumed to be dicts.**
  - Leaderboard records and the loaded leaderboard are assumed to be JSON objects. A leaderboard file whose top-level value is valid JSON but not an object is not modelled.
  - An event entry that is not a dict is modelled: it ends the run.
- **Weather observations carry no feature wrapper.** They are given as the sequence of their `properties` objects. A feature without `properties`, or a collection without `features`, is not modelled.
- **Concurrency is not modelled.** This covers the threaded server, and concurrent readers of the leaderboard file during the replace.
