/** trimModelList (climlib/wrangle.py): reduce a list of CMIP xml files to
    one file per (model, realization) pair by a cascade of criteria. */
module Trim {
  import opened Wrappers
  import opened Text
  import opened Ordering
  import opened Criteria
  import opened Version
  import opened Meta

  /** The files the metadata reader can open, with the header of each. A
      file missing here is one that cannot be opened. */
  type MetaSource = map<FileName, Header>

  /** The criteria used when the caller names none. */
  const DefaultCriteria: seq<Criterion> := [CDate, Ver, TPoints]

  /** fn.split('/')[-1] */
  function Basename(fn: FileName): string
  {
    Last(Split(fn, '/'))
  }

  /** fn.split('/')[-1].split('.') */
  function NameFields(fn: FileName): seq<string>
  {
    Split(Basename(fn), '.')
  }

  /** The record built for one file: model from field 4 of the basename,
      realization from field 5, version weight from field 10, then
      getFileMeta; or the first exception on that way. */
  function Describe(fn: FileName, source: MetaSource): (r: Result<Record>)
    ensures r.Success? <==> |NameFields(fn)| >= 11 && VersionWeight(NameFields(fn)[10]).Success?
                            && fn in source && GetFileMeta(source[fn]).Success?
    ensures r.Success? ==> r.value.model == NameFields(fn)[4] && r.value.rip == NameFields(fn)[5]
                           && Success(r.value.ver) == VersionWeight(NameFields(fn)[10])
                           && r.value.cdate == GetFileMeta(source[fn]).value.cdate
                           && r.value.publish == GetFileMeta(source[fn]).value.publish
                           && r.value.tpoints == GetFileMeta(source[fn]).value.tpoints
  {
    var fields := NameFields(fn);
    if |fields| < 11 then Failure(MalformedName(fn))
    else
      match VersionWeight(fields[10])
      case Failure(e) => Failure(e)
      case Success(ver) =>
        if fn !in source then Failure(Unreadable(fn))
        else
          match GetFileMeta(source[fn])
          case Failure(e) => Failure(e)
          case Success(meta) => Success(Record(fields[4], fields[5], ver, meta.cdate, meta.publish, meta.tpoints))
  }

  /** describe with the metadata source fixed. */
  function Describer(source: MetaSource): FileName -> Result<Record>
  {
    fn => Describe(fn, source)
  }

  /** keyMap after the first loop, built with describe for each file, or the
      exception of the first file that could not be described. */
  function Records(files: seq<FileName>, describe: FileName -> Result<Record>): (r: Result<KeyMap>)
    ensures r.Success? <==> forall k :: 0 <= k < |files| ==> describe(files[k]).Success?
    ensures r.Success? ==> forall fn :: fn in r.value <==> fn in files
    ensures r.Success? ==> forall fn :: fn in r.value ==> describe(fn) == Success(r.value[fn])
    ensures r.Failure? ==> exists k :: 0 <= k < |files| && describe(files[k]) == Failure(r.error)
                              && forall j :: 0 <= j < k ==> describe(files[j]).Success?
    decreases |files|
  {
    if |files| == 0 then Success(map[])
    else
      var init := files[..|files| - 1];
      assert files == init + [Last(files)];
      match Records(init, describe)
      case Failure(e) => Failure(e)
      case Success(keyMap) =>
        match describe(Last(files))
        case Failure(e) => Failure(e)
        case Success(rec) => Success(keyMap[Last(files) := rec])
  }

  /** The order of keyMap.keys(): each file where it first occurs. */
  function Dedup(files: seq<FileName>): (keys: seq<FileName>)
    ensures forall fn :: fn in keys <==> fn in files
    ensures forall i, j :: 0 <= i < j < |keys| ==> keys[i] != keys[j]
    decreases |files|
  {
    if |files| == 0 then []
    else
      var keys := Dedup(files[..|files| - 1]);
      assert files == files[..|files| - 1] + [Last(files)];
      if Last(files) in keys then keys else keys + [Last(files)]
  }

  /** keyMap's keys keep the input order: they are a sublist of the files,
      each at its first occurrence. */
  lemma {:induction false} DedupOrder(files: seq<FileName>)
    ensures IsSublist(Dedup(files), files)
    ensures FirstOccurrenceOrder(Dedup(files), files)
    decreases |files|
  {
    if |files| > 0 {
      var init := files[..|files| - 1];
      DedupOrder(init);
      assert files == init + [Last(files)];
      SublistExtend(Dedup(init), init, Last(files));
      FirstOccurrenceKept(Dedup(init), init, Last(files));
      if Last(files) !in Dedup(init) {
        FirstOccurrenceJoined(Dedup(init), init, Last(files));
      }
    }
  }

  /** The files of one (model, realization) pair, in keyMap order. */
  function Group(keys: seq<FileName>, keyMap: KeyMap, model: string, rip: string): (g: seq<FileName>)
    requires Known(keys, keyMap)
    ensures forall fn :: fn in g <==> fn in keys && keyMap[fn].model == model && keyMap[fn].rip == rip
    decreases |keys|
  {
    if |keys| == 0 then []
    else
      var g := Group(keys[..|keys| - 1], keyMap, model, rip);
      var fn := Last(keys);
      assert keys == keys[..|keys| - 1] + [fn];
      if keyMap[fn].model == model && keyMap[fn].rip == rip then g + [fn] else g
  }

  /** filterXmls applied for each criterion in turn. */
  function Cascade(files: seq<FileName>, keyMap: KeyMap, criteria: seq<Criterion>): (r: seq<FileName>)
    requires Known(files, keyMap)
    ensures forall fn :: fn in r ==> fn in files
    decreases |criteria|
  {
    if |criteria| == 0 then files
    else Filter(Cascade(files, keyMap, criteria[..|criteria| - 1]), keyMap, Last(criteria))
  }

  /** A pair's files keep keyMap order. */
  lemma {:induction false} GroupSublist(keys: seq<FileName>, keyMap: KeyMap, model: string, rip: string)
    requires Known(keys, keyMap)
    ensures IsSublist(Group(keys, keyMap, model, rip), keys)
    decreases |keys|
  {
    if |keys| > 0 {
      var init, fn := keys[..|keys| - 1], Last(keys);
      assert keys == init + [fn];
      assert Known(init, keyMap);
      GroupSublist(init, keyMap, model, rip);
      var g := Group(init, keyMap, model, rip);
      SublistExtend(g, init, fn);
      assert Group(keys, keyMap, model, rip) == if keyMap[fn].model == model && keyMap[fn].rip == rip then g + [fn] else g;
    }
  }

  /** The cascade keeps the order of the files it is given. */
  lemma {:induction false} CascadeSublist(files: seq<FileName>, keyMap: KeyMap, criteria: seq<Criterion>)
    requires Known(files, keyMap)
    ensures IsSublist(Cascade(files, keyMap, criteria), files)
    decreases |criteria|
  {
    if |criteria| == 0 {
      SublistOfItself(files);
    } else {
      var before := Cascade(files, keyMap, criteria[..|criteria| - 1]);
      CascadeSublist(files, keyMap, criteria[..|criteria| - 1]);
      FilterSublist(before, keyMap, Last(criteria));
      SublistTransitive(Filter(before, keyMap, Last(criteria)), before, files);
    }
  }

  /** What is left of one pair's files after the whole cascade. */
  function Survivors(keys: seq<FileName>, keyMap: KeyMap, criteria: seq<Criterion>, model: string, rip: string)
    : seq<FileName>
    requires Known(keys, keyMap)
  {
    Cascade(Group(keys, keyMap, model, rip), keyMap, criteria)
  }

  /** The first survivor of one pair, if any. */
  function Pick(keys: seq<FileName>, keyMap: KeyMap, criteria: seq<Criterion>, model: string, rip: string)
    : (r: seq<FileName>)
    requires Known(keys, keyMap)
    ensures |r| <= 1
    ensures forall fn :: fn in r ==> fn in keys && keyMap[fn].model == model && keyMap[fn].rip == rip
  {
    var s := Survivors(keys, keyMap, criteria, model, rip);
    if |s| > 0 then [s[0]] else []
  }

  /** fn is a file of the input that comes first among the survivors of its own pair. */
  predicate Chosen(keys: seq<FileName>, keyMap: KeyMap, criteria: seq<Criterion>, fn: FileName)
    requires Known(keys, keyMap)
  {
    && fn in keys
    && var s := Survivors(keys, keyMap, criteria, keyMap[fn].model, keyMap[fn].rip);
    && |s| > 0 && s[0] == fn
  }

  /** The inner loop: one model, the realizations in the given order. */
  function OverRips(keys: seq<FileName>, keyMap: KeyMap, criteria: seq<Criterion>, model: string, rips: seq<string>)
    : (r: seq<FileName>)
    requires Known(keys, keyMap)
    ensures forall fn :: fn in r ==> Chosen(keys, keyMap, criteria, fn) && keyMap[fn].model == model && keyMap[fn].rip in rips
    decreases |rips|
  {
    if |rips| == 0 then []
    else
      var init := rips[..|rips| - 1];
      assert rips == init + [Last(rips)];
      OverRips(keys, keyMap, criteria, model, init) + Pick(keys, keyMap, criteria, model, Last(rips))
  }

  /** The outer loop: the models in the given order, each over all realizations. */
  function OverModels(keys: seq<FileName>, keyMap: KeyMap, criteria: seq<Criterion>, models: seq<string>, rips: seq<string>)
    : (r: seq<FileName>)
    requires Known(keys, keyMap)
    ensures forall fn :: fn in r ==> Chosen(keys, keyMap, criteria, fn) && keyMap[fn].model in models && keyMap[fn].rip in rips
    decreases |models|
  {
    if |models| == 0 then []
    else
      var init := models[..|models| - 1];
      assert models == init + [Last(models)];
      OverModels(keys, keyMap, criteria, init, rips) + OverRips(keys, keyMap, criteria, Last(models), rips)
  }

  function ModelsOf(keys: seq<FileName>, keyMap: KeyMap): (r: seq<string>)
    requires Known(keys, keyMap)
    ensures |r| == |keys| && forall k :: 0 <= k < |keys| ==> r[k] == keyMap[keys[k]].model
  {
    seq(|keys|, k requires 0 <= k < |keys| => keyMap[keys[k]].model)
  }

  function RipsOf(keys: seq<FileName>, keyMap: KeyMap): (r: seq<string>)
    requires Known(keys, keyMap)
    ensures |r| == |keys| && forall k :: 0 <= k < |keys| ==> r[k] == keyMap[keys[k]].rip
  {
    seq(|keys|, k requires 0 <= k < |keys| => keyMap[keys[k]].rip)
  }

  /** The selection from keyMap: every pair of the sorted models and the
      sorted realizations, each contributing its first survivor. */
  function Trim(keys: seq<FileName>, keyMap: KeyMap, criteria: seq<Criterion>): (r: seq<FileName>)
    requires Known(keys, keyMap)
    ensures forall fn :: fn in r ==> Chosen(keys, keyMap, criteria, fn)
  {
    OverModels(keys, keyMap, criteria, SortedSet(ModelsOf(keys, keyMap)), SortedSet(RipsOf(keys, keyMap)))
  }

  /** What trimModelList returns or raises. */
  function TrimSpec(files: seq<FileName>, source: MetaSource, criteria: seq<Criterion>): (r: Result<seq<FileName>>)
    ensures r.Failure? <==> exists k :: 0 <= k < |files| && Describe(files[k], source).Failure?
    ensures r.Failure? ==> exists k :: 0 <= k < |files| && Describe(files[k], source) == Failure(r.error)
                                && forall j :: 0 <= j < k ==> Describe(files[j], source).Success?
  {
    match Records(files, Describer(source))
    case Failure(e) => Failure(e)
    case Success(keyMap) => Success(Trim(Dedup(files), keyMap, criteria))
  }

  /** trimModelList: store the metadata of every file, then visit the
      sorted models and realizations and keep the first file that survives
      the criteria for each pair. */
  method TrimModelList(files: seq<FileName>, source: MetaSource, criteria: seq<Criterion> := DefaultCriteria)
    returns (r: Result<seq<FileName>>)
    ensures r == TrimSpec(files, source, criteria)
  {
    var stored := StoreMetadata(files, source);
    if stored.Failure? {
      return Failure(stored.error);
    }
    var Store(keyMap, keys, models, rips) := stored.value;
    // get unique models / rips, sorted
    SameMembers(files, keys, keyMap, models, rips);
    models := SortedSet(models);
    rips := SortedSet(rips);

    // loop over each model + realization and filter by the criteria
    var filesOut := SelectPerPair(keys, keyMap, criteria, models, rips);
    return Success(filesOut);
  }

  /** What the first loop of trimModelList has built. */
  datatype Store = Store(keyMap: KeyMap, keys: seq<FileName>, models: seq<string>, rips: seq<string>)

  /** The first loop of trimModelList: describe every file, in order, into
      keyMap (keys keeps keyMap's insertion order) and collect the model and
      realization of each file; the first file that cannot be described
      ends the loop with its error. */
  method StoreMetadata(files: seq<FileName>, source: MetaSource) returns (r: Result<Store>)
    ensures r.Failure? ==> Records(files, Describer(source)) == Failure(r.error)
    ensures r.Success? ==> Records(files, Describer(source)) == Success(r.value.keyMap)
    ensures r.Success? ==> r.value.keys == Dedup(files)
    ensures r.Success? ==> Collected(files, r.value.keyMap, r.value.models, r.value.rips)
  {
    var keyMap: KeyMap := map[];
    var keys: seq<FileName> := [];
    var models: seq<string> := [];
    var rips: seq<string> := [];
    for i := 0 to |files|
      invariant Records(files[..i], Describer(source)) == Success(keyMap)
      invariant keys == Dedup(files[..i])
      invariant Collected(files[..i], keyMap, models, rips)
    {
      var fn := files[i];
      var rec := Describe(fn, source);
      if rec.Failure? {
        FirstFailure(files, Describer(source), i);
        return Failure(rec.error);
      }
      RecordsStep(files, Describer(source), i, keyMap);
      assert fn in keyMap ==> keyMap[fn] == rec.value;
      CollectedStep(files, i, keyMap, models, rips, rec.value);
      models := models + [rec.value.model];
      rips := rips + [rec.value.rip];
      if fn !in keyMap {
        keys := keys + [fn];
      }
      keyMap := keyMap[fn := rec.value];
    }
    assert files[..|files|] == files;
    return Success(Store(keyMap, keys, models, rips));
  }

  /** The nested loops of trimModelList: for each model, then each
      realization, the first file the criteria leave, if any. */
  method SelectPerPair(keys: seq<FileName>, keyMap: KeyMap, criteria: seq<Criterion>, models: seq<string>, rips: seq<string>)
    returns (filesOut: seq<FileName>)
    requires Known(keys, keyMap)
    ensures filesOut == OverModels(keys, keyMap, criteria, models, rips)
  {
    filesOut := [];
    for a := 0 to |models|
      invariant filesOut == OverModels(keys, keyMap, criteria, models[..a], rips)
    {
      var picked := SelectPerRip(keys, keyMap, criteria, models[a], rips);
      OverModelsStep(keys, keyMap, criteria, models, rips, a);
      filesOut := filesOut + picked;
    }
    assert models[..|models|] == models;
  }

  /** The inner loop of trimModelList for one model: for each realization,
      the first file the criteria leave, if any. */
  method SelectPerRip(keys: seq<FileName>, keyMap: KeyMap, criteria: seq<Criterion>, model: string, rips: seq<string>)
    returns (picked: seq<FileName>)
    requires Known(keys, keyMap)
    ensures picked == OverRips(keys, keyMap, criteria, model, rips)
  {
    picked := [];
    for b := 0 to |rips|
      invariant picked == OverRips(keys, keyMap, criteria, model, rips[..b])
    {
      var rip := rips[b];
      var subFiles := ApplyCriteria(Group(keys, keyMap, model, rip), keyMap, criteria);
      OverRipsStep(keys, keyMap, criteria, model, rips, b);
      if |subFiles| > 0 {
        picked := picked + [subFiles[0]];
      }
    }
    assert rips[..|rips|] == rips;
  }

  /** The loop over the criteria: subFiles narrowed by filterXmls once per criterion. */
  method ApplyCriteria(group: seq<FileName>, keyMap: KeyMap, criteria: seq<Criterion>) returns (subFiles: seq<FileName>)
    requires Known(group, keyMap)
    ensures subFiles == Cascade(group, keyMap, criteria)
  {
    subFiles := group;
    for c := 0 to |criteria|
      invariant Known(subFiles, keyMap)
      invariant subFiles == Cascade(group, keyMap, criteria[..c])
    {
      assert criteria[..c + 1][..c] == criteria[..c];
      subFiles := FilterXmls(subFiles, keyMap, criteria[c]);
    }
    assert criteria[..|criteria|] == criteria;
  }

  /** models and rips hold, file by file, the model and realization keyMap stores for each file. */
  predicate Collected(files: seq<FileName>, keyMap: KeyMap, models: seq<string>, rips: seq<string>)
  {
    && |models| == |files| && |rips| == |files|
    && forall k :: 0 <= k < |files| ==>
         files[k] in keyMap && models[k] == keyMap[files[k]].model && rips[k] == keyMap[files[k]].rip
  }

  lemma CollectedStep(files: seq<FileName>, i: nat, keyMap: KeyMap, models: seq<string>, rips: seq<string>, rec: Record)
    requires i < |files|
    requires Collected(files[..i], keyMap, models, rips)
    requires files[i] in keyMap ==> keyMap[files[i]] == rec
    ensures Collected(files[..i + 1], keyMap[files[i] := rec], models + [rec.model], rips + [rec.rip])
  {
    var prefix := files[..i + 1];
    forall k | 0 <= k < i + 1
      ensures prefix[k] in keyMap[files[i] := rec]
      ensures (models + [rec.model])[k] == keyMap[files[i] := rec][prefix[k]].model
      ensures (rips + [rec.rip])[k] == keyMap[files[i] := rec][prefix[k]].rip
    {
      if k < i {
        assert prefix[k] == files[..i][k];
      }
    }
  }

  /** One turn of the first loop: the next file's record joins keyMap, and
      the file joins the key order unless keyMap already holds it. */
  lemma RecordsStep(files: seq<FileName>, describe: FileName -> Result<Record>, i: nat, keyMap: KeyMap)
    requires i < |files|
    requires Records(files[..i], describe) == Success(keyMap)
    requires describe(files[i]).Success?
    ensures Records(files[..i + 1], describe) == Success(keyMap[files[i] := describe(files[i]).value])
    ensures Dedup(files[..i + 1]) == if files[i] in keyMap then Dedup(files[..i]) else Dedup(files[..i]) + [files[i]]
  {
    var prefix := files[..i + 1];
    assert prefix[..|prefix| - 1] == files[..i];
    assert Last(prefix) == files[i];
    assert prefix == files[..i] + [files[i]];
  }

  lemma OverRipsStep(keys: seq<FileName>, keyMap: KeyMap, criteria: seq<Criterion>, model: string, rips: seq<string>, b: nat)
    requires Known(keys, keyMap) && b < |rips|
    ensures OverRips(keys, keyMap, criteria, model, rips[..b + 1])
         == OverRips(keys, keyMap, criteria, model, rips[..b]) + Pick(keys, keyMap, criteria, model, rips[b])
  {
    assert rips[..b + 1][..b] == rips[..b];
  }

  lemma OverModelsStep(keys: seq<FileName>, keyMap: KeyMap, criteria: seq<Criterion>, models: seq<string>, rips: seq<string>, a: nat)
    requires Known(keys, keyMap) && a < |models|
    ensures OverModels(keys, keyMap, criteria, models[..a + 1], rips)
         == OverModels(keys, keyMap, criteria, models[..a], rips) + OverRips(keys, keyMap, criteria, models[a], rips)
  {
    assert models[..a + 1][..a] == models[..a];
  }

  /** The first file whose description fails decides the exception. */
  lemma FirstFailure(files: seq<FileName>, describe: FileName -> Result<Record>, i: nat)
    requires i < |files|
    requires Records(files[..i], describe).Success?
    requires describe(files[i]).Failure?
    ensures Records(files, describe) == Failure(describe(files[i]).error)
  {
    assert forall j :: 0 <= j < i ==> describe(files[j]).Success? by {
      forall j | 0 <= j < i ensures describe(files[j]).Success? {
        assert files[..i][j] == files[j];
      }
    }
    var k :| 0 <= k < |files| && describe(files[k]) == Failure(Records(files, describe).error)
             && forall j :: 0 <= j < k ==> describe(files[j]).Success?;
    assert k == i;
  }

  /** The models (realizations) collected file by file are those of the keys. */
  lemma SameMembers(files: seq<FileName>, keys: seq<FileName>, keyMap: KeyMap,
                    models: seq<string>, rips: seq<string>)
    requires forall fn :: fn in keys <==> fn in files
    requires Collected(files, keyMap, models, rips)
    ensures Known(keys, keyMap)
    ensures SortedSet(models) == SortedSet(ModelsOf(keys, keyMap))
    ensures SortedSet(rips) == SortedSet(RipsOf(keys, keyMap))
  {
    var ms, rs := ModelsOf(keys, keyMap), RipsOf(keys, keyMap);
    forall x ensures x in models <==> x in ms {
      if x in models {
        var k :| 0 <= k < |files| && models[k] == x;
        assert files[k] in keys;
        var j :| 0 <= j < |keys| && keys[j] == files[k];
        assert ms[j] == x;
      }
      if x in ms {
        var j :| 0 <= j < |keys| && ms[j] == x;
        assert keys[j] in files;
        var k :| 0 <= k < |files| && files[k] == keys[j];
        assert models[k] == x;
      }
    }
    forall x ensures x in rips <==> x in rs {
      if x in rips {
        var k :| 0 <= k < |files| && rips[k] == x;
        assert files[k] in keys;
        var j :| 0 <= j < |keys| && keys[j] == files[k];
        assert rs[j] == x;
      }
      if x in rs {
        var j :| 0 <= j < |keys| && rs[j] == x;
        assert keys[j] in files;
        var k :| 0 <= k < |files| && files[k] == keys[j];
        assert rips[k] == x;
      }
    }
    SortedSetOfSameElements(models, ms);
    SortedSetOfSameElements(rips, rs);
  }

  // ---------------------------------------------------------------------------
  // What trimModelList promises
  // ---------------------------------------------------------------------------

  /** The first survivor of a pair is found in the inner loop's output once
      the pair's realization has been visited. */
  lemma {:induction false} OverRipsHasPick(keys: seq<FileName>, keyMap: KeyMap, criteria: seq<Criterion>,
                                           model: string, rips: seq<string>, rip: string)
    requires Known(keys, keyMap) && rip in rips
    ensures forall fn :: fn in Pick(keys, keyMap, criteria, model, rip) ==> fn in OverRips(keys, keyMap, criteria, model, rips)
    decreases |rips|
  {
    var init := rips[..|rips| - 1];
    assert rips == init + [Last(rips)];
    if rip != Last(rips) {
      OverRipsHasPick(keys, keyMap, criteria, model, init, rip);
    }
  }

  lemma {:induction false} OverModelsHasPick(keys: seq<FileName>, keyMap: KeyMap, criteria: seq<Criterion>,
                                             models: seq<string>, rips: seq<string>, model: string, rip: string)
    requires Known(keys, keyMap) && model in models && rip in rips
    ensures forall fn :: fn in Pick(keys, keyMap, criteria, model, rip) ==> fn in OverModels(keys, keyMap, criteria, models, rips)
    decreases |models|
  {
    var init := models[..|models| - 1];
    assert models == init + [Last(models)];
    if model == Last(models) {
      OverRipsHasPick(keys, keyMap, criteria, model, rips, rip);
    } else {
      OverModelsHasPick(keys, keyMap, criteria, init, rips, model, rip);
    }
  }

  /** A file is in the output exactly when it is an input file that comes
      first among the survivors of the criteria cascade for its own
      (model, realization) pair. */
  lemma TrimChosen(keys: seq<FileName>, keyMap: KeyMap, criteria: seq<Criterion>, fn: FileName)
    requires Known(keys, keyMap)
    ensures fn in Trim(keys, keyMap, criteria) <==> Chosen(keys, keyMap, criteria, fn)
  {
    if Chosen(keys, keyMap, criteria, fn) {
      var j :| 0 <= j < |keys| && keys[j] == fn;
      var model, rip := keyMap[fn].model, keyMap[fn].rip;
      assert ModelsOf(keys, keyMap)[j] == model && RipsOf(keys, keyMap)[j] == rip;
      OverModelsHasPick(keys, keyMap, criteria, SortedSet(ModelsOf(keys, keyMap)), SortedSet(RipsOf(keys, keyMap)), model, rip);
      assert fn in Pick(keys, keyMap, criteria, model, rip);
    }
  }

  /** The tie-break of trimModelList: of two files of one pair that both
      survive the criteria, the one later in keyMap order is never kept. */
  lemma TrimKeepsEarliest(keys: seq<FileName>, keyMap: KeyMap, criteria: seq<Criterion>, i: nat, j: nat)
    requires Known(keys, keyMap)
    requires forall a, b :: 0 <= a < b < |keys| ==> keys[a] != keys[b]
    requires i < j < |keys|
    requires var s := Survivors(keys, keyMap, criteria, keyMap[keys[j]].model, keyMap[keys[j]].rip);
      keys[i] in s && keys[j] in s
    ensures keys[j] !in Trim(keys, keyMap, criteria)
  {
    var model, rip := keyMap[keys[j]].model, keyMap[keys[j]].rip;
    var s := Survivors(keys, keyMap, criteria, model, rip);
    var q :| 0 <= q < |s| && s[q] == keys[i];
    if q > 0 {
      GroupSublist(keys, keyMap, model, rip);
      CascadeSublist(Group(keys, keyMap, model, rip), keyMap, criteria);
      SublistTransitive(s, Group(keys, keyMap, model, rip), keys);
      SublistOrder(s, keys, 0, q);
      var a, b :| 0 <= a < b < |keys| && keys[a] == s[0] && keys[b] == s[q];
      assert b == i;
      assert keys[a] != keys[j];
    }
    TrimChosen(keys, keyMap, criteria, keys[j]);
  }

  /** Of two keys, the one whose first occurrence comes first in xs comes first. */
  lemma FirstOccurrenceFirst(keys: seq<FileName>, xs: seq<FileName>, p: nat, i: nat, j: nat)
    requires FirstOccurrenceOrder(keys, xs)
    requires i < |keys| && j < |keys| && p < |xs|
    requires keys[i] == xs[p] && keys[j] !in xs[..p + 1]
    ensures i < j
  {
    assert xs[..p + 1][p] == xs[p];
    if j < i {
      assert false;
    }
  }

  /** The tie-break on the input list: when a file occurs before any
      occurrence of another file of its pair, and both survive the
      criteria, the later one is not in the selection. */
  lemma DedupKeepsEarliest(files: seq<FileName>, keyMap: KeyMap, criteria: seq<Criterion>, p: nat, g: FileName)
    requires Known(files, keyMap)
    requires p < |files| && g in files && g !in files[..p + 1]
    requires files[p] in Survivors(Dedup(files), keyMap, criteria, keyMap[g].model, keyMap[g].rip)
    requires g in Survivors(Dedup(files), keyMap, criteria, keyMap[g].model, keyMap[g].rip)
    ensures g !in Trim(Dedup(files), keyMap, criteria)
  {
    var keys := Dedup(files);
    DedupOrder(files);
    assert files[p] in keys && g in keys;
    var i :| 0 <= i < |keys| && keys[i] == files[p];
    var j :| 0 <= j < |keys| && keys[j] == g;
    FirstOccurrenceFirst(keys, files, p, i, j);
    TrimKeepsEarliest(keys, keyMap, criteria, i, j);
  }

  /** The same on trimModelList's result. */
  lemma TrimSpecKeepsEarliest(files: seq<FileName>, source: MetaSource, criteria: seq<Criterion>,
                              keyMap: KeyMap, p: nat, g: FileName)
    requires Records(files, Describer(source)) == Success(keyMap)
    requires p < |files| && g in files && g !in files[..p + 1]
    requires files[p] in Survivors(Dedup(files), keyMap, criteria, keyMap[g].model, keyMap[g].rip)
    requires g in Survivors(Dedup(files), keyMap, criteria, keyMap[g].model, keyMap[g].rip)
    ensures TrimSpec(files, source, criteria) == Success(Trim(Dedup(files), keyMap, criteria))
    ensures g !in TrimSpec(files, source, criteria).value
  {
    DedupKeepsEarliest(files, keyMap, criteria, p, g);
  }

  /** f comes before g in the visiting order: a smaller model, or the same
      model and a smaller realization. */
  predicate PairBelow(keyMap: KeyMap, f: FileName, g: FileName)
    requires f in keyMap && g in keyMap
  {
    Below(keyMap[f].model, keyMap[g].model)
    || (keyMap[f].model == keyMap[g].model && Below(keyMap[f].rip, keyMap[g].rip))
  }

  predicate Ascending(keyMap: KeyMap, r: seq<FileName>)
    requires Known(r, keyMap)
  {
    forall i, j :: 0 <= i < j < |r| ==> PairBelow(keyMap, r[i], r[j])
  }

  lemma {:induction false} OverRipsAscending(keys: seq<FileName>, keyMap: KeyMap, criteria: seq<Criterion>,
                                             model: string, rips: seq<string>)
    requires Known(keys, keyMap) && StrictlySorted(rips)
    ensures Known(OverRips(keys, keyMap, criteria, model, rips), keyMap)
    ensures Ascending(keyMap, OverRips(keys, keyMap, criteria, model, rips))
    decreases |rips|
  {
    var r := OverRips(keys, keyMap, criteria, model, rips);
    if |rips| > 0 {
      var init := rips[..|rips| - 1];
      var front := OverRips(keys, keyMap, criteria, model, init);
      var p := Pick(keys, keyMap, criteria, model, Last(rips));
      assert StrictlySorted(init);
      OverRipsAscending(keys, keyMap, criteria, model, init);
      assert r == front + p;
      forall i, j | 0 <= i < j < |r| ensures PairBelow(keyMap, r[i], r[j]) {
        if j >= |front| {
          assert i < |front| && r[j] == p[0];
          assert r[i] in front;
          var k :| 0 <= k < |init| && init[k] == keyMap[r[i]].rip;
          assert Below(rips[k], rips[|rips| - 1]);
        }
      }
    }
  }

  lemma AscendingConcat(keyMap: KeyMap, front: seq<FileName>, back: seq<FileName>)
    requires Known(front, keyMap) && Known(back, keyMap)
    requires Ascending(keyMap, front) && Ascending(keyMap, back)
    requires forall f, g :: f in front && g in back ==> PairBelow(keyMap, f, g)
    ensures Known(front + back, keyMap) && Ascending(keyMap, front + back)
  {
    var r := front + back;
    forall i, j | 0 <= i < j < |r| ensures PairBelow(keyMap, r[i], r[j]) {
      if i >= |front| {
        assert r[i] == back[i - |front|] && r[j] == back[j - |front|];
      } else if j >= |front| {
        assert r[i] == front[i] && r[j] == back[j - |front|];
      }
    }
  }

  lemma {:induction false} OverModelsAscending(keys: seq<FileName>, keyMap: KeyMap, criteria: seq<Criterion>,
                                               models: seq<string>, rips: seq<string>)
    requires Known(keys, keyMap) && StrictlySorted(models) && StrictlySorted(rips)
    ensures Known(OverModels(keys, keyMap, criteria, models, rips), keyMap)
    ensures Ascending(keyMap, OverModels(keys, keyMap, criteria, models, rips))
    decreases |models|
  {
    if |models| > 0 {
      var init := models[..|models| - 1];
      var front := OverModels(keys, keyMap, criteria, init, rips);
      var back := OverRips(keys, keyMap, criteria, Last(models), rips);
      assert StrictlySorted(init);
      OverModelsAscending(keys, keyMap, criteria, init, rips);
      OverRipsAscending(keys, keyMap, criteria, Last(models), rips);
      forall f, g | f in front && g in back ensures PairBelow(keyMap, f, g) {
        var k :| 0 <= k < |init| && init[k] == keyMap[f].model;
        assert Below(models[k], models[|models| - 1]);
      }
      AscendingConcat(keyMap, front, back);
    }
  }

  /** The output lists its files by sorted model, then by sorted
      realization, so no two of its files share a (model, realization) pair. */
  lemma TrimOnePerPair(keys: seq<FileName>, keyMap: KeyMap, criteria: seq<Criterion>)
    requires Known(keys, keyMap)
    ensures Known(Trim(keys, keyMap, criteria), keyMap)
    ensures Ascending(keyMap, Trim(keys, keyMap, criteria))
    ensures var r := Trim(keys, keyMap, criteria);
            forall i, j :: 0 <= i < j < |r| ==> keyMap[r[i]].model != keyMap[r[j]].model || keyMap[r[i]].rip != keyMap[r[j]].rip
  {
    var r := Trim(keys, keyMap, criteria);
    OverModelsAscending(keys, keyMap, criteria, SortedSet(ModelsOf(keys, keyMap)), SortedSet(RipsOf(keys, keyMap)));
    forall i, j | 0 <= i < j < |r|
      ensures keyMap[r[i]].model != keyMap[r[j]].model || keyMap[r[i]].rip != keyMap[r[j]].rip
    {
      assert PairBelow(keyMap, r[i], r[j]);
      BelowIrreflexive(keyMap[r[i]].model);
      BelowIrreflexive(keyMap[r[i]].rip);
    }
  }

  /** Criteria that all hold ints never empty a non-empty list. */
  lemma {:induction false} CascadeNumericNonEmpty(files: seq<FileName>, keyMap: KeyMap, criteria: seq<Criterion>)
    requires Known(files, keyMap) && |files| > 0
    requires forall k :: 0 <= k < |criteria| ==> Numeric(criteria[k])
    ensures |Cascade(files, keyMap, criteria)| > 0
    decreases |criteria|
  {
    if |criteria| > 0 {
      var init := criteria[..|criteria| - 1];
      CascadeNumericNonEmpty(files, keyMap, init);
      var s := Cascade(files, keyMap, init);
      assert Known(s, keyMap);
      if |s| >= 2 {
        FilterNumeric(s, keyMap, Last(criteria));
      }
    }
  }

  /** With criteria that all hold ints, as the default ones do, every
      (model, realization) pair of the input gets a file in the output. */
  lemma TrimCoversPairs(keys: seq<FileName>, keyMap: KeyMap, criteria: seq<Criterion>, fn: FileName)
    requires Known(keys, keyMap) && fn in keys
    requires forall k :: 0 <= k < |criteria| ==> Numeric(criteria[k])
    ensures exists g :: g in Trim(keys, keyMap, criteria) && keyMap[g].model == keyMap[fn].model && keyMap[g].rip == keyMap[fn].rip
  {
    var model, rip := keyMap[fn].model, keyMap[fn].rip;
    var group := Group(keys, keyMap, model, rip);
    assert fn in group;
    CascadeNumericNonEmpty(group, keyMap, criteria);
    var s := Survivors(keys, keyMap, criteria, model, rip);
    var g := s[0];
    assert g in s;
    assert Chosen(keys, keyMap, criteria, g);
    TrimChosen(keys, keyMap, criteria, g);
  }

  lemma DefaultCriteriaNumeric()
    ensures forall k :: 0 <= k < |DefaultCriteria| ==> Numeric(DefaultCriteria[k])
  {
  }

  /** With the default criteria every input pair gets a file. */
  lemma TrimDefaultCoversPairs(keys: seq<FileName>, keyMap: KeyMap, fn: FileName)
    requires Known(keys, keyMap) && fn in keys
    ensures exists g :: g in Trim(keys, keyMap, DefaultCriteria) && keyMap[g].model == keyMap[fn].model && keyMap[g].rip == keyMap[fn].rip
  {
    DefaultCriteriaNumeric();
    TrimCoversPairs(keys, keyMap, DefaultCriteria, fn);
  }

  /** Criteria listed one after another act as the first list, then the second. */
  lemma {:induction false} CascadeAppend(files: seq<FileName>, keyMap: KeyMap, first: seq<Criterion>, second: seq<Criterion>)
    requires Known(files, keyMap)
    ensures Known(Cascade(files, keyMap, first), keyMap)
    ensures Cascade(files, keyMap, first + second) == Cascade(Cascade(files, keyMap, first), keyMap, second)
    decreases |second|
  {
    var mid := Cascade(files, keyMap, first);
    assert Known(mid, keyMap);
    if |second| == 0 {
      assert first + second == first;
    } else {
      var init := second[..|second| - 1];
      CascadeAppend(files, keyMap, first, init);
      assert (first + second)[..|first + second| - 1] == first + init;
      assert Last(first + second) == Last(second);
    }
  }

  /** Fewer than two files pass through every criterion unchanged. */
  lemma {:induction false} CascadeShort(files: seq<FileName>, keyMap: KeyMap, criteria: seq<Criterion>)
    requires Known(files, keyMap) && |files| < 2
    ensures Cascade(files, keyMap, criteria) == files
    decreases |criteria|
  {
    if |criteria| > 0 {
      CascadeShort(files, keyMap, criteria[..|criteria| - 1]);
    }
  }

  /** Two or more candidates reach the publish criterion and none of them
      is published: the group has no survivor left. */
  lemma PublishEmptiesGroup(files: seq<FileName>, keyMap: KeyMap, before: seq<Criterion>, after: seq<Criterion>)
    requires Known(files, keyMap)
    requires |Cascade(files, keyMap, before)| >= 2
    requires forall fn :: fn in Cascade(files, keyMap, before) ==> !keyMap[fn].publish
    ensures Cascade(files, keyMap, before + [Publish] + after) == []
  {
    var mid := Cascade(files, keyMap, before);
    var crits := before + [Publish];
    assert crits[..|crits| - 1] == before;
    assert Cascade(files, keyMap, crits) == Filter(mid, keyMap, Publish);
    FilterPublish(mid, keyMap);
    CascadeAppend(files, keyMap, crits, after);
    CascadeShort([], keyMap, after);
  }

  /** A lone candidate is kept by the publish criterion even when it is not
      published: filterXmls returns lists shorter than two unchanged. */
  lemma LoneUnpublishedSurvives(fn: FileName, keyMap: KeyMap, criteria: seq<Criterion>)
    requires fn in keyMap && !keyMap[fn].publish
    ensures Cascade([fn], keyMap, criteria) == [fn]
  {
    CascadeShort([fn], keyMap, criteria);
  }

  /** Three candidates of one pair with version weights 20190101, 20200101 and 20200101. */
  function TieKeyMap(): KeyMap
  {
    map["a" := Record("X", "r1", 20190101, 0, false, 0),
        "b" := Record("X", "r1", 20200101, 0, false, 0),
        "c" := Record("X", "r1", 20200101, 0, false, 0)]
  }

  /** The largest version among the three files is 20200101. */
  lemma TieMaxVersion()
    ensures Optimum(["a", "c", "b"], TieKeyMap(), Ver) == Int(20200101)
  {
    var xs := IntsOf(Values(["a", "c", "b"], TieKeyMap(), Ver));
    assert xs == [20190101, 20200101, 20200101];
    assert xs[..2][..1] == [20190101];
    assert xs[..2] == [20190101, 20200101];
  }

  lemma TieMatching()
    ensures Matching(["a", "c", "b"], TieKeyMap(), Ver, Int(20200101)) == ["c", "b"]
  {
    var keys: seq<FileName> := ["a", "c", "b"];
    assert keys[..2][..1] == ["a"] && keys[..2] == ["a", "c"];
    assert ["a"][..0] == [];
    assert Matching(["a"], TieKeyMap(), Ver, Int(20200101)) == [];
    assert Matching(["a", "c"], TieKeyMap(), Ver, Int(20200101)) == ["c"];
  }

  /** With the criteria [ver], the two 2020 files tie and both survive. */
  lemma VersionTieCascade()
    ensures Cascade(["a", "c", "b"], TieKeyMap(), [Ver]) == ["c", "b"]
  {
    TieMaxVersion();
    TieMatching();
    assert [Ver][..0] == [];
  }

  lemma TieGroup()
    ensures Group(["a", "c", "b"], TieKeyMap(), "X", "r1") == ["a", "c", "b"]
  {
    var keys: seq<FileName> := ["a", "c", "b"];
    assert keys[..2][..1] == ["a"] && keys[..2] == ["a", "c"] && ["a"][..0] == [];
    assert Group(["a"], TieKeyMap(), "X", "r1") == ["a"];
    assert Group(["a", "c"], TieKeyMap(), "X", "r1") == ["a", "c"];
  }

  /** sorted(set(...)) of three equal strings is that string alone. */
  lemma SortedSetOfCopies(x: string)
    ensures SortedSet([x, x, x]) == [x]
  {
    var xs := [x, x, x];
    assert xs[..2][..1] == [x] && xs[..2] == [x, x] && [x][..0] == [];
    assert SortedSet([x]) == [x];
    assert SortedSet([x, x]) == [x];
  }

  lemma TieSortedSets()
    ensures SortedSet(ModelsOf(["a", "c", "b"], TieKeyMap())) == ["X"]
    ensures SortedSet(RipsOf(["a", "c", "b"], TieKeyMap())) == ["r1"]
  {
    assert ModelsOf(["a", "c", "b"], TieKeyMap()) == ["X", "X", "X"];
    assert RipsOf(["a", "c", "b"], TieKeyMap()) == ["r1", "r1", "r1"];
    SortedSetOfCopies("X");
    SortedSetOfCopies("r1");
  }

  /** ... and the first of them in input order, c, is the one kept, though
      b is the smaller name. */
  lemma VersionTieExample()
    ensures Trim(["a", "c", "b"], TieKeyMap(), [Ver]) == ["c"]
    ensures Below("b", "c")
  {
    var keys: seq<FileName> := ["a", "c", "b"];
    TieGroup();
    TieSortedSets();
    VersionTieCascade();
    assert Pick(keys, TieKeyMap(), [Ver], "X", "r1") == ["c"];
    assert ["X"][..0] == [] && ["r1"][..0] == [];
    assert OverRips(keys, TieKeyMap(), [Ver], "X", ["r1"]) == ["c"];
  }

  /** Two candidates of one pair: "old" has the newer version, "new" the later creation date. */
  function SwapKeyMap(): KeyMap
  {
    map["old" := Record("X", "r1", 20200101, 20100101, false, 0),
        "new" := Record("X", "r1", 20190101, 20210101, false, 0)]
  }

  lemma CreatedLaterWins()
    ensures Cascade(["old", "new"], SwapKeyMap(), [CDate]) == ["new"]
  {
    var files: seq<FileName> := ["old", "new"];
    assert files[..1] == ["old"] && ["old"][..0] == [] && [CDate][..0] == [];
    var cd := IntsOf(Values(files, SwapKeyMap(), CDate));
    assert cd == [20100101, 20210101] && cd[..1] == [20100101];
    assert Matching(["old"], SwapKeyMap(), CDate, Int(20210101)) == [];
  }

  lemma NewerVersionWins()
    ensures Cascade(["old", "new"], SwapKeyMap(), [Ver]) == ["old"]
  {
    var files: seq<FileName> := ["old", "new"];
    assert files[..1] == ["old"] && ["old"][..0] == [] && [Ver][..0] == [];
    var vs := IntsOf(Values(files, SwapKeyMap(), Ver));
    assert vs == [20200101, 20190101] && vs[..1] == [20200101];
    assert Matching(["old"], SwapKeyMap(), Ver, Int(20200101)) == ["old"];
  }

  /** The order of the criteria decides the survivor: the file created later
      and the file with the newer version swap places as winner when cdate
      and ver swap places in the cascade. */
  lemma CriteriaOrderMatters()
    ensures Cascade(["old", "new"], SwapKeyMap(), [CDate, Ver]) == ["new"]
    ensures Cascade(["old", "new"], SwapKeyMap(), [Ver, CDate]) == ["old"]
  {
    CreatedLaterWins();
    NewerVersionWins();
    CascadeAppend(["old", "new"], SwapKeyMap(), [CDate], [Ver]);
    CascadeAppend(["old", "new"], SwapKeyMap(), [Ver], [CDate]);
    CascadeShort(["new"], SwapKeyMap(), [Ver]);
    CascadeShort(["old"], SwapKeyMap(), [CDate]);
    assert [CDate] + [Ver] == [CDate, Ver] && [Ver] + [CDate] == [Ver, CDate];
  }

  /** The basename of dir/base, when base holds no '/', is base. */
  lemma BasenameOfPath(dir: string, base: string)
    requires '/' !in base
    ensures Basename(dir + "/" + base) == base
  {
    assert dir + "/" + base == dir + ['/'] + base;
    SplitAround(dir, base, '/');
    SplitWhole(base, '/');
  }

  /** A path dir/f0.f1.....fn is read as the fields f0 ... fn: model from
      field 4, realization from field 5, version from field 10; a name with
      fewer than eleven fields is malformed. */
  lemma DescribeOfPath(dir: string, fields: seq<string>, source: MetaSource)
    requires |fields| >= 1
    requires forall k :: 0 <= k < |fields| ==> '.' !in fields[k] && '/' !in fields[k]
    ensures var fn := dir + "/" + Join(fields, '.');
            && (|fields| < 11 ==> Describe(fn, source) == Failure(MalformedName(fn)))
            && (|fields| >= 11 && VersionWeight(fields[10]).Failure? ==>
                  Describe(fn, source) == Failure(VersionWeight(fields[10]).error))
            && (|fields| >= 11 && VersionWeight(fields[10]).Success? && fn !in source ==>
                  Describe(fn, source) == Failure(Unreadable(fn)))
            && (|fields| >= 11 && VersionWeight(fields[10]).Success? && fn in source ==>
                  match GetFileMeta(source[fn])
                  case Failure(e) => Describe(fn, source) == Failure(e)
                  case Success(meta) =>
                    Describe(fn, source) == Success(Record(fields[4], fields[5], VersionWeight(fields[10]).value,
                                                           meta.cdate, meta.publish, meta.tpoints)))
  {
    var base := Join(fields, '.');
    JoinAvoids(fields, '.', '/');
    BasenameOfPath(dir, base);
    SplitJoin(fields, '.');
  }
}
