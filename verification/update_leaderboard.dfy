/** The leaderboard update tool (tools/update_leaderboard.py): load the
    current dataset, or start empty when it cannot be read, and merge into
    it the entries of every event file given, each stored under a composite
    of its start_date, athlete_name and rank. Later entries overwrite earlier
    ones with the same key. */
module UpdateLeaderboard {
  import opened Wrappers
  import opened Json

  /** The leaderboard dataset: composite key to event entry. */
  type Dataset = map<string, Object>

  /** unique_key_fields: the fields that identify an event. */
  const UniqueKeyFields: seq<string> := ["start_date", "athlete_name", "rank"]

  /** The character the composite key joins the field texts with. */
  const Separator: char := '+'

  // ---------------------------------------------------------------- keys

  /** str(d.get(key, '')): the field's text, or "" when it is absent. */
  function FieldText(d: Object, key: string): string {
    if key in d then Text(d[key]) else ""
  }

  /** The texts of the given fields of d, in the order of keys. */
  function FieldTexts(d: Object, keys: seq<string>): (vals: seq<string>)
    ensures |vals| == |keys|
  {
    seq(|keys|, i requires 0 <= i < |keys| => FieldText(d, keys[i]))
  }

  /** '+'.join(parts). */
  function Join(parts: seq<string>): string {
    if parts == [] then ""
    else if |parts| == 1 then parts[0]
    else parts[0] + [Separator] + Join(parts[1..])
  }

  /** The position of the first separator in s. */
  function FirstSeparator(s: string): (i: nat)
    requires Separator in s
    ensures i < |s| && s[i] == Separator && Separator !in s[..i]
  {
    if s[0] == Separator then 0
    else
      var j := FirstSeparator(s[1..]);
      assert s[..j + 1] == [s[0]] + s[1..][..j];
      j + 1
  }

  /** s.split('+'): the pieces between separators, left to right. */
  function Split(s: string): (parts: seq<string>)
    ensures |parts| >= 1
    decreases |s|
  {
    if Separator !in s then [s]
    else
      var i := FirstSeparator(s);
      [s[..i]] + Split(s[i + 1..])
  }

  /** No part contains the separator. */
  predicate SeparatorFree(parts: seq<string>) {
    forall i :: 0 <= i < |parts| ==> Separator !in parts[i]
  }

  /** The first separator after a separator-free prefix is the one that
      ends the prefix. */
  lemma {:induction false} FirstSeparatorAfter(p: string, rest: string)
    requires Separator !in p
    ensures FirstSeparator(p + [Separator] + rest) == |p|
  {
    if p != [] {
      var s := p + [Separator] + rest;
      assert s[1..] == p[1..] + [Separator] + rest;
      FirstSeparatorAfter(p[1..], rest);
    }
  }

  /** Splitting a join of separator-free parts gives the parts back. */
  lemma {:induction false} SplitJoin(parts: seq<string>)
    requires |parts| >= 1 && SeparatorFree(parts)
    ensures Split(Join(parts)) == parts
  {
    if |parts| > 1 {
      var s := Join(parts);
      var p := parts[0];
      assert s == p + [Separator] + Join(parts[1..]);
      FirstSeparatorAfter(p, Join(parts[1..]));
      assert s[..|p|] == p && s[|p| + 1..] == Join(parts[1..]);
      assert s[|p|] == Separator;
      assert Split(s) == [p] + Split(Join(parts[1..]));
      assert SeparatorFree(parts[1..]);
      SplitJoin(parts[1..]);
      assert parts == [p] + parts[1..];
    }
  }

  /** What make_composite_key returns: the field texts joined with '+'. */
  function CompositeKey(d: Object, keys: seq<string>): string {
    Join(FieldTexts(d, keys))
  }

  /** make_composite_key: collect the field texts one by one, then join them. */
  method MakeCompositeKey(d: Object, keys: seq<string>) returns (key: string)
    ensures key == CompositeKey(d, keys)
  {
    var vals: seq<string> := [];
    for i := 0 to |keys|
      invariant vals == FieldTexts(d, keys[..i])
    {
      vals := vals + [FieldText(d, keys[i])];
    }
    assert keys[..|keys|] == keys;
    key := Join(vals);
  }

  /** The key under which the tool stores an entry. */
  function Key(entry: Object): string {
    CompositeKey(entry, UniqueKeyFields)
  }

  /** Entries that agree on the key fields (both absent, or both present
      with equal values) get the same key: nothing else enters it. */
  lemma KeyDependsOnlyOnFields(d1: Object, d2: Object, keys: seq<string>)
    requires forall i :: 0 <= i < |keys| ==>
               (keys[i] in d1 <==> keys[i] in d2) && (keys[i] in d1 ==> d1[keys[i]] == d2[keys[i]])
    ensures CompositeKey(d1, keys) == CompositeKey(d2, keys)
  {
    assert FieldTexts(d1, keys) == FieldTexts(d2, keys);
  }

  /** The key spells out the field texts, so when none of them contains
      '+' the key determines every key field's text. */
  lemma CompositeKeyInjective(d1: Object, d2: Object, keys: seq<string>)
    requires |keys| >= 1
    requires SeparatorFree(FieldTexts(d1, keys)) && SeparatorFree(FieldTexts(d2, keys))
    requires CompositeKey(d1, keys) == CompositeKey(d2, keys)
    ensures forall i :: 0 <= i < |keys| ==> FieldText(d1, keys[i]) == FieldText(d2, keys[i])
  {
    SplitJoin(FieldTexts(d1, keys));
    SplitJoin(FieldTexts(d2, keys));
    assert FieldTexts(d1, keys) == FieldTexts(d2, keys);
    forall i | 0 <= i < |keys| ensures FieldText(d1, keys[i]) == FieldText(d2, keys[i]) {
      assert FieldTexts(d1, keys)[i] == FieldTexts(d2, keys)[i];
    }
  }

  /** An entry whose start_date and athlete_name are strings without '+'
      and whose rank is an integer. */
  predicate PlainKeyFields(e: Object) {
    && "start_date" in e && e["start_date"].Str? && Separator !in e["start_date"].s
    && "athlete_name" in e && e["athlete_name"].Str? && Separator !in e["athlete_name"].s
    && "rank" in e && e["rank"].Int?
  }

  /** Two such entries under the same key agree on all three key fields:
      for them the key identifies the event. */
  lemma SameKeySameEvent(e1: Object, e2: Object)
    requires Key(e1) == Key(e2) && PlainKeyFields(e1) && PlainKeyFields(e2)
    ensures e1["start_date"] == e2["start_date"] && e1["athlete_name"] == e2["athlete_name"]
    ensures e1["rank"] == e2["rank"]
  {
    var t1, t2 := FieldTexts(e1, UniqueKeyFields), FieldTexts(e2, UniqueKeyFields);
    assert t1 == [e1["start_date"].s, e1["athlete_name"].s, Text(e1["rank"])];
    assert t2 == [e2["start_date"].s, e2["athlete_name"].s, Text(e2["rank"])];
    assert SeparatorFree(t1) && SeparatorFree(t2);
    CompositeKeyInjective(e1, e2, UniqueKeyFields);
    assert FieldText(e1, UniqueKeyFields[0]) == FieldText(e2, UniqueKeyFields[0]);
    assert FieldText(e1, UniqueKeyFields[1]) == FieldText(e2, UniqueKeyFields[1]);
    assert FieldText(e1, UniqueKeyFields[2]) == FieldText(e2, UniqueKeyFields[2]);
    IntTextInjective(e1["rank"].i, e2["rank"].i);
  }

  /** A '+' inside a field lets two different events share a key: the
      later one then replaces the earlier. */
  lemma KeyCollision()
    ensures var e1 := map["start_date" := Str("d"), "athlete_name" := Str("a+b"), "rank" := Str("1")];
            var e2 := map["start_date" := Str("d+a"), "athlete_name" := Str("b"), "rank" := Str("1")];
            e1 != e2 && Key(e1) == Key(e2)
  {
    var e1 := map["start_date" := Str("d"), "athlete_name" := Str("a+b"), "rank" := Str("1")];
    var e2 := map["start_date" := Str("d+a"), "athlete_name" := Str("b"), "rank" := Str("1")];
    assert e1["start_date"] != e2["start_date"];
    assert FieldTexts(e1, UniqueKeyFields) == ["d", "a+b", "1"];
    assert FieldTexts(e2, UniqueKeyFields) == ["d+a", "b", "1"];
  }

  // --------------------------------------------------------------- merge

  /** The keys of a sequence of entries. */
  ghost function KeysOf(entries: seq<Object>): set<string> {
    set i | 0 <= i < |entries| :: Key(entries[i])
  }

  /** for entry in entries: data[make_composite_key(entry, ...)] = entry */
  function MergeEntries(data: Dataset, entries: seq<Object>): Dataset {
    if entries == [] then data
    else
      var n := |entries| - 1;
      MergeEntries(data, entries[..n])[Key(entries[n]) := entries[n]]
  }

  /** The keys of a sequence of entries, one entry at a time. */
  lemma KeysOfSnoc(entries: seq<Object>)
    requires entries != []
    ensures KeysOf(entries) == KeysOf(entries[..|entries| - 1]) + {Key(entries[|entries| - 1])}
  {
    var n := |entries| - 1;
    var init := entries[..n];
    assert forall i :: 0 <= i < n ==> init[i] == entries[i];
    forall k | k in KeysOf(entries) ensures k in KeysOf(init) + {Key(entries[n])} {
      var i :| 0 <= i < |entries| && Key(entries[i]) == k;
      if i < n {
        assert Key(init[i]) == k;
      }
    }
    forall k | k in KeysOf(init) + {Key(entries[n])} ensures k in KeysOf(entries) {
      if k in KeysOf(init) {
        var i :| 0 <= i < n && Key(init[i]) == k;
        assert Key(entries[i]) == k;
      }
    }
  }

  /** The merged keys are the old keys together with the entries' keys. */
  lemma {:induction false} MergeKeys(data: Dataset, entries: seq<Object>)
    ensures MergeEntries(data, entries).Keys == data.Keys + KeysOf(entries)
  {
    if entries != [] {
      MergeKeys(data, entries[..|entries| - 1]);
      KeysOfSnoc(entries);
    }
  }

  /** Last write wins: an entry no later entry shares its key with is the
      stored value under that key. */
  lemma {:induction false} MergeLastWins(data: Dataset, entries: seq<Object>, i: nat)
    requires i < |entries|
    requires forall j :: i < j < |entries| ==> Key(entries[j]) != Key(entries[i])
    ensures Key(entries[i]) in MergeEntries(data, entries)
    ensures MergeEntries(data, entries)[Key(entries[i])] == entries[i]
  {
    var n := |entries| - 1;
    if i < n {
      forall j | i < j < n ensures Key(entries[..n][j]) != Key(entries[..n][i]) {
        assert entries[..n][j] == entries[j];
      }
      MergeLastWins(data, entries[..n], i);
      assert entries[..n][i] == entries[i];
    }
  }

  /** Nothing else changes: a key no entry produces keeps its old value,
      and is present afterwards exactly when it was before. */
  lemma {:induction false} MergeUntouched(data: Dataset, entries: seq<Object>, k: string)
    requires forall i :: 0 <= i < |entries| ==> Key(entries[i]) != k
    ensures k in MergeEntries(data, entries) <==> k in data
    ensures k in data ==> MergeEntries(data, entries)[k] == data[k]
  {
    if entries != [] {
      var n := |entries| - 1;
      forall i | 0 <= i < n ensures Key(entries[..n][i]) != k {
        assert entries[..n][i] == entries[i];
      }
      MergeUntouched(data, entries[..n], k);
    }
  }

  /** The last entry with a given key. */
  function LastWithKey(entries: seq<Object>, k: string): (i: nat)
    requires exists j :: 0 <= j < |entries| && Key(entries[j]) == k
    ensures i < |entries| && Key(entries[i]) == k
    ensures forall j :: i < j < |entries| ==> Key(entries[j]) != k
  {
    var n := |entries| - 1;
    if Key(entries[n]) == k then n
    else
      var init := entries[..n];
      assert forall j :: 0 <= j < n ==> init[j] == entries[j];
      LastWithKey(init, k)
  }

  /** Every key of a dataset stores an entry with that key. */
  predicate Keyed(data: Dataset) {
    forall k :: k in data ==> Key(data[k]) == k
  }

  /** Every entry is stored under its own composite key: a keyed dataset
      stays keyed. */
  lemma {:induction false} MergeKeyed(data: Dataset, entries: seq<Object>)
    requires Keyed(data)
    ensures Keyed(MergeEntries(data, entries))
  {
    var r := MergeEntries(data, entries);
    forall k | k in r ensures Key(r[k]) == k {
      if exists j :: 0 <= j < |entries| && Key(entries[j]) == k {
        MergeLastWins(data, entries, LastWithKey(entries, k));
      } else {
        MergeUntouched(data, entries, k);
      }
    }
  }

  /** Merging the same entries a second time changes nothing. */
  lemma MergeIdempotent(data: Dataset, entries: seq<Object>)
    ensures MergeEntries(MergeEntries(data, entries), entries) == MergeEntries(data, entries)
  {
    var once := MergeEntries(data, entries);
    var twice := MergeEntries(once, entries);
    MergeKeys(data, entries);
    MergeKeys(once, entries);
    forall k | k in twice ensures twice[k] == once[k] {
      if exists j :: 0 <= j < |entries| && Key(entries[j]) == k {
        var i := LastWithKey(entries, k);
        MergeLastWins(data, entries, i);
        MergeLastWins(once, entries, i);
      } else {
        MergeUntouched(once, entries, k);
      }
    }
  }

  /** Merging two lists of entries one after the other is merging their
      concatenation: batches fold left to right. */
  lemma {:induction false} MergeAppend(data: Dataset, a: seq<Object>, b: seq<Object>)
    ensures MergeEntries(data, a + b) == MergeEntries(MergeEntries(data, a), b)
  {
    if b != [] {
      var n := |b| - 1;
      assert (a + b)[..|a| + n] == a + b[..n];
      MergeAppend(data, a, b[..n]);
    } else {
      assert a + b == a;
    }
  }

  // --------------------------------------------------------------- files

  /** Why a run stops before anything is written: an event file that cannot
      be opened or decoded, or one whose contents are not a dict with
      iterable 'entries' of dicts. */
  datatype UpdateError = UnreadableFile(file: nat) | MalformedFile(file: nat)

  /** What `for entry in v` visits: a list's items. An empty dict or
      string visits nothing; a non-empty one yields strings, on which
      entry.get raises; any other value is not iterable. */
  function Iterated(v: Value): (r: Option<seq<Value>>)
    ensures v.Arr? ==> r == Some(v.items)
    ensures r.Some? && !v.Arr? ==> r.value == []
    ensures (v.Obj? && |v.fields| == 0) || v == Str("") ==> r == Some([])
    ensures (v.Obj? && |v.fields| > 0) || (v.Str? && v.s != "") ==> r.None?
    ensures r.Some? <==> v.Arr? || (v.Obj? && |v.fields| == 0) || v == Str("")
  {
    match v
    case Arr(items) => Some(items)
    case Obj(m) => if |m| == 0 then Some([]) else None
    case Str(s) => if s == "" then Some([]) else None
    case _ => None
  }

  /** An entry must be a dict for entry.get. */
  function AsObject(v: Value): Option<Object> {
    if v.Obj? then Some(v.fields) else None
  }

  function AsObjects(items: seq<Value>): (opts: seq<Option<Object>>)
    ensures |opts| == |items|
  {
    seq(|items|, i requires 0 <= i < |items| => AsObject(items[i]))
  }

  /** d['entries'] of one decoded file, when every entry is a dict. */
  function FileEntries(d: Value): (r: Option<seq<Object>>)
    ensures r.Some? <==> && d.Obj? && "entries" in d.fields && Iterated(d.fields["entries"]).Some?
                         && forall v :: v in Iterated(d.fields["entries"]).value ==> v.Obj?
    ensures r.Some? ==> && |r.value| == |Iterated(d.fields["entries"]).value|
                        && forall i :: 0 <= i < |r.value| ==> Obj(r.value[i]) == Iterated(d.fields["entries"]).value[i]
  {
    if d.Obj? && "entries" in d.fields then
      match Iterated(d.fields["entries"])
      case None => None
      case Some(items) =>
        match Collect(AsObjects(items))
        case Err(i) =>
          assert AsObjects(items)[i] == AsObject(items[i]);
          assert items[i] in items;
          None
        case Ok(es) =>
          assert forall i :: 0 <= i < |items| ==> AsObjects(items)[i] == AsObject(items[i]);
          Some(es)
    else None
  }

  /** The merge over the given files (None: a file that cannot be opened or
      decoded), in order; the first bad file ends the run. */
  function MergeFiles(data: Dataset, files: seq<Option<Value>>): Result<Dataset, UpdateError> {
    if files == [] then Ok(data)
    else
      var n := |files| - 1;
      match MergeFiles(data, files[..n])
      case Err(e) => Err(e)
      case Ok(prev) => MergeFile(prev, n, files[n])
  }

  /** One file of the run, the n-th: its entries merged into prev, or why
      it cannot be used. */
  function MergeFile(prev: Dataset, n: nat, file: Option<Value>): (r: Result<Dataset, UpdateError>)
    ensures r.Ok? <==> GoodFile(file)
    ensures r.Ok? ==> r.value == MergeEntries(prev, FileEntries(file.value).value)
    ensures r.Err? ==> r.error == if file.None? then UnreadableFile(n) else MalformedFile(n)
  {
    match file
    case None => Err(UnreadableFile(n))
    case Some(d) =>
      match FileEntries(d)
      case None => Err(MalformedFile(n))
      case Some(es) => Ok(MergeEntries(prev, es))
  }

  /** The initial load: the existing dataset, or {} when it cannot be read
      for any reason. */
  function Initial(existing: Option<Dataset>): Dataset {
    if existing.Some? then existing.value else map[]
  }

  /** The whole run: the dataset written back, or the failure that stops the
      run before anything is written. */
  function Update(existing: Option<Dataset>, files: seq<Option<Value>>): Result<Dataset, UpdateError> {
    MergeFiles(Initial(existing), files)
  }

  /** A file the merge can use. */
  predicate GoodFile(f: Option<Value>) {
    f.Some? && FileEntries(f.value).Some?
  }

  /** All entries of all files, in processing order. */
  function AllEntries(files: seq<Option<Value>>): seq<Object>
    requires forall i :: 0 <= i < |files| ==> GoodFile(files[i])
  {
    if files == [] then []
    else
      var n := |files| - 1;
      assert GoodFile(files[n]);
      AllEntries(files[..n]) + FileEntries(files[n].value).value
  }

  /** A run succeeds exactly when every file is good, and then it stores the
      fold of all their entries, in order, over the initial dataset. */
  lemma {:induction false} MergeFilesResult(data: Dataset, files: seq<Option<Value>>)
    ensures MergeFiles(data, files).Ok? <==> forall i :: 0 <= i < |files| ==> GoodFile(files[i])
    ensures MergeFiles(data, files).Ok? ==> MergeFiles(data, files).value == MergeEntries(data, AllEntries(files))
  {
    MergeFilesSucceeds(data, files);
    if files != [] && MergeFiles(data, files).Ok? {
      var n := |files| - 1;
      var init := files[..n];
      MergeFilesResult(data, init);
      assert forall i :: 0 <= i < n ==> init[i] == files[i];
      var es := FileEntries(files[n].value).value;
      assert AllEntries(files) == AllEntries(init) + es;
      MergeAppend(data, AllEntries(init), es);
    }
  }

  /** A run succeeds exactly when every file is good. */
  lemma {:induction false} MergeFilesSucceeds(data: Dataset, files: seq<Option<Value>>)
    ensures MergeFiles(data, files).Ok? <==> forall i :: 0 <= i < |files| ==> GoodFile(files[i])
  {
    if files != [] {
      var n := |files| - 1;
      var init := files[..n];
      MergeFilesSucceeds(data, init);
      assert forall i :: 0 <= i < n ==> init[i] == files[i];
      assert (forall i :: 0 <= i < |files| ==> GoodFile(files[i]))
             <==> (forall i :: 0 <= i < n ==> GoodFile(init[i])) && GoodFile(files[n]);
    }
  }

  /** A failed run names the first bad file, and why it is bad. */
  lemma {:induction false} MergeFilesFirstFailure(data: Dataset, files: seq<Option<Value>>)
    requires MergeFiles(data, files).Err?
    ensures var e := MergeFiles(data, files).error;
            && e.file < |files|
            && !GoodFile(files[e.file])
            && (e.UnreadableFile? <==> files[e.file].None?)
            && forall j :: 0 <= j < e.file ==> GoodFile(files[j])
  {
    var n := |files| - 1;
    if MergeFiles(data, files[..n]).Err? {
      MergeFilesFirstFailure(data, files[..n]);
      assert forall i :: 0 <= i < n ==> files[..n][i] == files[i];
    } else {
      MergeFilesResult(data, files[..n]);
      assert forall i :: 0 <= i < n ==> files[..n][i] == files[i];
    }
  }

  /** A successful run, over all batches together: the key set grows by
      the keys of the entries, the entry processed last under a key is the
      stored one, keys no entry produces keep their value, and a dataset
      whose entries are under their own keys stays so. */
  lemma UpdateSpec(existing: Option<Dataset>, files: seq<Option<Value>>)
    requires Update(existing, files).Ok?
    ensures forall i :: 0 <= i < |files| ==> GoodFile(files[i])
    ensures Update(existing, files).value.Keys == Initial(existing).Keys + KeysOf(AllEntries(files))
    ensures forall i :: 0 <= i < |AllEntries(files)|
                        && (forall j :: i < j < |AllEntries(files)| ==> Key(AllEntries(files)[j]) != Key(AllEntries(files)[i]))
                        ==> Update(existing, files).value[Key(AllEntries(files)[i])] == AllEntries(files)[i]
    ensures forall k :: k in Initial(existing) && k !in KeysOf(AllEntries(files)) ==>
                        k in Update(existing, files).value && Update(existing, files).value[k] == Initial(existing)[k]
    ensures Keyed(Initial(existing)) ==> Keyed(Update(existing, files).value)
  {
    var data := Initial(existing);
    MergeFilesResult(data, files);
    var all := AllEntries(files);
    MergeKeys(data, all);
    forall i | 0 <= i < |all| && (forall j :: i < j < |all| ==> Key(all[j]) != Key(all[i]))
      ensures Update(existing, files).value[Key(all[i])] == all[i]
    {
      MergeLastWins(data, all, i);
    }
    forall k | k in data && k !in KeysOf(all)
      ensures k in Update(existing, files).value && Update(existing, files).value[k] == data[k]
    {
      MergeUntouched(data, all, k);
    }
    if Keyed(data) {
      MergeKeyed(data, all);
    }
  }

  /** When the existing dataset cannot be read, the result holds exactly
      the keys of the merged entries. */
  lemma EmptyOnFailure(files: seq<Option<Value>>)
    requires Update(None, files).Ok?
    ensures forall i :: 0 <= i < |files| ==> GoodFile(files[i])
    ensures Update(None, files).value.Keys == KeysOf(AllEntries(files))
  {
    MergeFilesResult(map[], files);
    MergeKeys(map[], AllEntries(files));
  }

  /** A run whose files hold no entries writes the existing dataset back
      unchanged. */
  lemma {:induction false} UpdateUnchanged(existing: Dataset, files: seq<Option<Value>>)
    requires forall i :: 0 <= i < |files| ==> GoodFile(files[i])
    requires AllEntries(files) == []
    ensures Update(Some(existing), files) == Ok(existing)
  {
    MergeFilesResult(existing, files);
  }

  /** One more good file extends the merge. */
  lemma MergeFilesNext(data: Dataset, files: seq<Option<Value>>, f: nat, prev: Dataset, es: seq<Object>)
    requires f < |files| && MergeFiles(data, files[..f]) == Ok(prev)
    requires files[f].Some? && FileEntries(files[f].value) == Some(es)
    ensures MergeFiles(data, files[..f + 1]) == Ok(MergeEntries(prev, es))
  {
    assert files[..f + 1][..f] == files[..f];
  }

  /** The run stops at the first bad file. */
  lemma MergeFilesStops(data: Dataset, files: seq<Option<Value>>, f: nat)
    requires f < |files| && MergeFiles(data, files[..f]).Ok? && !GoodFile(files[f])
    ensures MergeFiles(data, files) == Err(if files[f].None? then UnreadableFile(f) else MalformedFile(f))
  {
    assert files[..f + 1][..f] == files[..f];
    MergeFilesErrSticks(data, files, f + 1);
  }

  /** A failure in a prefix of the files is the failure of the whole run. */
  lemma {:induction false} MergeFilesErrSticks(data: Dataset, files: seq<Option<Value>>, f: nat)
    requires f <= |files| && MergeFiles(data, files[..f]).Err?
    ensures MergeFiles(data, files) == MergeFiles(data, files[..f])
    decreases |files|
  {
    if f < |files| {
      var n := |files| - 1;
      assert files[..n][..f] == files[..f];
      MergeFilesErrSticks(data, files[..n], f);
    } else {
      assert files[..f] == files;
    }
  }

  /** The tool's main body: load (or start empty), then for every file and
      every entry in it, store the entry under its composite key. */
  method UpdateDataset(existing: Option<Dataset>, files: seq<Option<Value>>) returns (r: Result<Dataset, UpdateError>)
    ensures r == Update(existing, files)
  {
    var data: Dataset;
    if existing.Some? {
      data := existing.value;
    } else {
      data := map[];
    }
    for f := 0 to |files|
      invariant MergeFiles(Initial(existing), files[..f]) == Ok(data)
    {
      if files[f].None? {
        MergeFilesStops(Initial(existing), files, f);
        return Err(UnreadableFile(f));
      }
      var d := files[f].value;
      if !(d.Obj? && "entries" in d.fields) {
        MergeFilesStops(Initial(existing), files, f);
        return Err(MalformedFile(f));
      }
      var items := Iterated(d.fields["entries"]);
      if items.None? {
        MergeFilesStops(Initial(existing), files, f);
        return Err(MalformedFile(f));
      }
      ghost var prev := data;
      ghost var es: seq<Object> := [];
      for e := 0 to |items.value|
        invariant Collect(AsObjects(items.value)[..e]) == Ok(es)
        invariant data == MergeEntries(prev, es)
      {
        var item := items.value[e];
        if !item.Obj? {
          CollectFirstNone(AsObjects(items.value), e);
          MergeFilesStops(Initial(existing), files, f);
          return Err(MalformedFile(f));
        }
        var entry := item.fields;
        var key := MakeCompositeKey(entry, UniqueKeyFields);
        data := data[key := entry];
        CollectNext(AsObjects(items.value), e, es, entry);
        es := es + [entry];
        assert es[..|es| - 1] == es[..e];
      }
      assert AsObjects(items.value)[..|items.value|] == AsObjects(items.value);
      MergeFilesNext(Initial(existing), files, f, prev, es);
    }
    assert files[..|files|] == files;
    return Ok(data);
  }
}
