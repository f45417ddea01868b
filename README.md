# climlib file selection, modelled in Dafny

climlib's `wrangle` module works with the CMIP xml index files of the LLNL
archive. This project models its file-selection logic and proves what that
logic promises:

- `filterXmls` keeps the candidates that reach the best value of one criterion:
  - for `cdate`, `ver` and `tpoints`, the largest integer;
  - for `publish`, `True`.
  Fewer than two candidates come back unchanged.
- `versionWeight` turns a version label into a recency score:
  - `latest` gives 0;
  - otherwise every `v` is dropped and the rest is read with `int()`;
  - a value below 10 is multiplied by 100000000.
- `getFileMeta`, once the xml is open, reads three things:
  - the creation date, reduced to an integer YYYYMMDD, with a fixed date when the attribute is missing;
  - the publish flag;
  - the number of time steps.
- `trimModelList` reduces a list of xml paths to one file per (model, realization) pair:
  - It reads model, realization and version from dot-fields 4, 5 and 10 of each basename.
  - It stores every file's record in `keyMap`.
  - It visits the sorted distinct models, and within each model the sorted distinct realizations.
  - For each pair it narrows the pair's files with `filterXmls`, once per criterion, in order.
  - It keeps the first file left, if any.
- `findInList` keeps the strings that contain every `*`-separated piece of a key.

Modules, one per file:

- `Wrappers` (wrappers.dfy): `Option`, `Result`, and the exceptions the code can raise.
- `Text` (text.dfy): the Python string operations the code relies on:
  - `str.split` and its inverse, join;
  - `str.replace(c, '')`;
  - `int()` on a string;
  - `isalpha`;
  - `key in s`.
- `Ordering` (ordering.dfy): Python's `<` on strings, `sorted(set(xs))`, and order-preserving sublists.
- `Version` (version.dfy): `versionWeight`.
- `Dates` (dates.dfy): the creation-date reduction of `getFileMeta`.
- `Meta` (meta.dfy): `getFileMeta` on an opened file's header, including the publish test.
- `Criteria` (filter.dfy): records, criteria and `filterXmls`.
- `Trim` (trim.dfy): `trimModelList`.
- `Find` (find.dfy): `findInList`.

How the loops are modelled:

- The functions that loop and append (`filterXmls`, `trimModelList`, `findInList`) are methods with loops.
- Each method is proved equal to a specification function that builds the same list element by element.
- The properties are lemmas about those functions.
- `trimModelList`'s loops are split across helper methods so that each proof stays small:
  - `Trim.StoreMetadata` holds the loop that stores the metadata;
  - `Trim.SelectPerPair` holds the loop over models;
  - `Trim.SelectPerRip` holds the loop over realizations;
  - `Trim.ApplyCriteria` holds the loop over the criteria.
- `Trim.SelectPerRip` collects one model's picks and `Trim.SelectPerPair` appends them. The output list is the same as when each pick is appended directly.

Where the code differs from what its documentation suggests, the model follows the code, except for the publish test of `getFileMeta`, where the model uses the intended test (see "## Findings" and the `Meta.GetFileMeta` line under "## Left out"):

- `v1` .. `v9` weigh 100000000 .. 900000000. That is above every eight-digit date, so an ordinal version beats every date-stamped one (`Version.OrdinalOutweighsDate`). `latest` weighs 0, as `v0` and `0` do; that is below every version of 1 or more, and negative versions such as `v-1` weigh less still.
- A pair with a single candidate keeps it whatever the criteria say, because `filterXmls` returns short lists unchanged. In particular, an unpublished lone file survives the `publish` criterion (`Trim.LoneUnpublishedSurvives`). A pair is left empty when two or more of its candidates reach `publish` and none of those is published (`Trim.PublishEmptiesGroup`). Published candidates that earlier criteria removed do not count.
- When several files tie after the whole cascade, the survivor is the first of them in `keyMap` order, which is the order of first occurrence in the input list (`Trim.TrimKeepsEarliest`, `Trim.TrimSpecKeepsEarliest`). It is not the smallest name: in `Trim.VersionTieExample` the input `a, c, b` keeps `c`.

## Model

| member | source | states |
|---|---|---|
| Text.Split | climlib/wrangle.py:153-155 | Python's `s.split(sep)`: at least one part and no part holds `sep`; `Text.SplitJoin` and `Text.JoinSplit` fix the parts |
| Text.ToInt | climlib/wrangle.py:81-84 | Python's `int(s)`: succeeds exactly on an optional sign followed by one or more ASCII digits, and otherwise raises ValueError naming `s`; `Text.ParseDigitsOf` gives the value |
| Text.Contains | climlib/wrangle.py:321 | Python's `key in s`: true only when `key` is no longer than `s`; `Text.ContainsAt` ties it to an independent definition |
| Text.Remove | climlib/wrangle.py:81 | `s.replace(c, '')` contains no `c`, keeps every other character, and is no longer than `s` |
| Text.SplitJoin | climlib/wrangle.py:153-155 | splitting a join of separator-free fields gives the fields back |
| Text.JoinSplit | climlib/wrangle.py:153-155 | joining the parts of a split gives the string back |
| Text.ContainsAt | climlib/wrangle.py:321 | `key in s` holds exactly when `key` starts at some position of `s` |
| Ordering.Below | climlib/wrangle.py:164-167 | Python's `<` on strings, which `sorted` uses: no string is below itself; `Ordering.BelowTotal` makes it total on distinct strings |
| Ordering.SortedSet | climlib/wrangle.py:164-167 | `sorted(set(xs))` is strictly increasing and holds exactly the elements of `xs` |
| Ordering.SortedSetOfSameElements | climlib/wrangle.py:164-167 | lists with the same elements give the same sorted list, whatever the set's iteration order |
| Ordering.BelowTotal | climlib/wrangle.py:166-167 | Python string order is total on distinct strings |
| Version.VersionWeight | climlib/wrangle.py:78-85 | a successful weight never lies strictly between 0 and 10 |
| Version.VersionWeightExamples | climlib/wrangle.py:73-85 | `latest` gives 0, `v1` gives 100000000, `v20160829` gives 20160829 |
| Version.VersionWeightOfNumber | climlib/wrangle.py:81-83 | `v<n>` and `<n>` weigh `n` when `n >= 10` and `n * 100000000` when `n < 10` |
| Version.VersionWeightRejects | climlib/wrangle.py:81 | a remainder holding a character `int()` cannot read raises the `int()` error |
| Version.VersionWeightRejectsBareV | climlib/wrangle.py:81 | `v` alone leaves an empty remainder and raises the `int()` error |
| Version.VersionWeightMonotone | climlib/wrangle.py:73-83 | among ordinal versions, and among date-like versions, a larger number weighs more |
| Version.OrdinalOutweighsDate | climlib/wrangle.py:75-83 | `v1`..`v9` outweigh every eight-digit date version, and `latest` weighs less than any date |
| Dates.CreationDate | climlib/wrangle.py:99-109 | the creation-date reduction: `EmptyDate` (the IndexError of `cdate[0]`) exactly when the attribute is the empty string, and any other failure is `int()`'s ValueError; its results are stated by `Dates.CreationDateIso`, `Dates.CreationDateFreeText`, `Dates.CreationDateMissing` and `Dates.CreationDateEmpty` |
| Dates.CreationDateIso | climlib/wrangle.py:104-109 | `YYYY-MM-DDT...` becomes the integer YYYYMMDD |
| Dates.CreationDateMissing | climlib/wrangle.py:99-103 | a missing `creation_date` reads as 19890306 |
| Dates.CreationDateFreeText | climlib/wrangle.py:105-107 | a timestamp starting with a letter becomes its last space-separated token followed by 0101 |
| Dates.CreationDateFreeTextExample | climlib/wrangle.py:105-107 | `Thu Aug 11 22:49:09 EST 2011` becomes 20110101 |
| Dates.CreationDateEmpty | climlib/wrangle.py:106 | an empty timestamp raises at `cdate[0]` |
| Meta.Find | climlib/wrangle.py:111 | `str.find` gives -1 exactly when the substring is absent, else the index of its first occurrence |
| Meta.PublishFlagAsWritten | climlib/wrangle.py:111 | the publish test as written, `bool(directory.find('publish'))`: false exactly when the directory starts with `publish` (see "## Findings") |
| Meta.PublishFlag | climlib/wrangle.py:110-114 | the corrected publish test: true exactly when `publish` occurs in the directory |
| Meta.PublishFlagAsWrittenDiffers | climlib/wrangle.py:111-114 | the test as written disagrees with the intended one exactly when the marker is missing or starts the directory |
| Meta.PublishFlagAsWrittenExamples | climlib/wrangle.py:111-114 | as written, `/data` counts as published and `publish/cmip5` does not |
| Meta.GetFileMeta | climlib/wrangle.py:98-121 | fails exactly when the creation date fails; the date is its reduction; publish is the marker test; tpoints is the length of the time axis, or 0 without one |
| Meta.GetFileMetaMissingDate | climlib/wrangle.py:99-103 | a header without `creation_date` reads as created on 19890306 |
| Criteria.Lookup | climlib/wrangle.py:161-162 | `cdate`, `ver` and `tpoints` hold ints and `publish` holds a bool |
| Criteria.Optimum | climlib/wrangle.py:57-60 | the value `filterXmls` keeps: `True` for `publish`; for an int criterion, a value some file holds and no file exceeds |
| Criteria.MaxOf | climlib/wrangle.py:58 | `np.max` returns an element of the list that no element exceeds |
| Criteria.Matching | climlib/wrangle.py:62-65 | keeps exactly the files whose value equals the optimum |
| Criteria.Filter | climlib/wrangle.py:49-66 | the result of `filterXmls`: only files it was given; `Criteria.FilterShortList`, `Criteria.FilterNumeric`, `Criteria.FilterPublish` and `Criteria.FilterSublist` state which ones and in what order |
| Criteria.FilterXmls | climlib/wrangle.py:24-66 | the method's result is the filter's result: short lists unchanged, else the files reaching the optimum of the last value's type |
| Criteria.FilterShortList | climlib/wrangle.py:46-50 | fewer than two files come back unchanged, whatever the criterion |
| Criteria.FilterSublist | climlib/wrangle.py:62-66 | the result is an order-preserving sublist of the input |
| Criteria.FilterNumeric | climlib/wrangle.py:57-65 | for an int criterion and two or more files, keeps exactly the files no other file exceeds, and keeps at least one |
| Criteria.FilterPublish | climlib/wrangle.py:59-65 | for `publish` and two or more files, keeps exactly the published files; none published gives an empty list |
| Criteria.FilteredTie | climlib/wrangle.py:57-65 | after an int criterion, every file left holds the optimum of what is left |
| Criteria.FilterIdempotent | climlib/wrangle.py:49-66 | filtering the result again by the same criterion changes nothing |
| Trim.Describe | climlib/wrangle.py:153-162 | the record of one file: it succeeds exactly when the basename has at least eleven fields, field 10 has a version weight, the file opens and its date parses; the model is field 4, the realization field 5, and `ver`, `cdate`, `publish` and `tpoints` come from `versionWeight` and `getFileMeta` |
| Trim.Records | climlib/wrangle.py:151-162 | keyMap succeeds exactly when every file can be described; its keys are the files; each value is that file's record; a failure is the first failing file's exception |
| Trim.Dedup | climlib/wrangle.py:161 | the keys of keyMap, each once, are exactly the input files |
| Trim.DedupOrder | climlib/wrangle.py:151-161 | keyMap's keys are an order-preserving sublist of the input, each at its first occurrence: of two keys, the earlier one occurs in the input before any occurrence of the later |
| Trim.Group | climlib/wrangle.py:174-176 | `subFiles` holds exactly the keys with the given model and realization |
| Trim.GroupSublist | climlib/wrangle.py:174-176 | `subFiles` keeps keyMap order |
| Trim.Cascade | climlib/wrangle.py:179-180 | narrowing by the criteria only keeps files it was given |
| Trim.CascadeSublist | climlib/wrangle.py:179-180 | narrowing by the criteria keeps the order of the files it was given |
| Trim.Pick | climlib/wrangle.py:183-184 | a pair contributes at most one file, of that pair |
| Trim.OverRips | climlib/wrangle.py:172-184 | every file the inner loop appends is chosen for its pair and has the loop's model |
| Trim.OverModels | climlib/wrangle.py:171-184 | every file the nested loops append is chosen for its pair |
| Trim.Trim | climlib/wrangle.py:163-184 | the selection of the nested loops: every file it returns is the first survivor of its own pair; `Trim.TrimChosen` gives the converse |
| Trim.TrimSpec | climlib/wrangle.py:150-185 | raises exactly when some file cannot be described, and then with the first such file's exception |
| Trim.TrimModelList | climlib/wrangle.py:124-185 | the method returns the specified selection, or the first exception; `criteria` defaults to `cdate, ver, tpoints` as in the signature |
| Trim.StoreMetadata | climlib/wrangle.py:147-162 | the first loop stops at the first file that cannot be described, with its exception; otherwise it leaves `keyMap` as specified, its keys in insertion order, and each file's model and realization in `models` and `rips` |
| Trim.SelectPerPair | climlib/wrangle.py:170-184 | the nested loops append exactly the first survivor of each sorted (model, realization) pair |
| Trim.SelectPerRip | climlib/wrangle.py:172-184 | for one model, the inner loop appends exactly the first survivor of each sorted realization's pair |
| Trim.ApplyCriteria | climlib/wrangle.py:179-180 | the criteria loop leaves the cascade of `filterXmls` over the criteria in order |
| Trim.FirstFailure | climlib/wrangle.py:151-156 | the first file whose record fails decides the exception |
| Trim.SameMembers | climlib/wrangle.py:158-167 | the sorted distinct models and realizations collected per file are those of keyMap's keys |
| Trim.TrimChosen | climlib/wrangle.py:171-184 | a file is in the output exactly when it is an input file that comes first among its own pair's survivors |
| Trim.TrimOnePerPair | climlib/wrangle.py:164-184 | the output is ordered by sorted model, then by sorted realization, so no two output files share a pair |
| Trim.CascadeNumericNonEmpty | climlib/wrangle.py:179-180 | int criteria never empty a non-empty group |
| Trim.TrimCoversPairs | climlib/wrangle.py:124-184 | with int criteria, as the defaults are (`Trim.TrimDefaultCoversPairs`), every pair of the input gets a file |
| Trim.TrimDefaultCoversPairs | climlib/wrangle.py:125 | with the default criteria `cdate, ver, tpoints`, every pair of the input gets a file |
| Trim.CascadeAppend | climlib/wrangle.py:179-180 | criteria listed one after another act as the first list, then the second |
| Trim.CascadeShort | climlib/wrangle.py:49-50 | fewer than two files pass through every criterion unchanged |
| Trim.PublishEmptiesGroup | climlib/wrangle.py:59-65 | two or more candidates reaching `publish`, none of them published, leave their pair with no survivor |
| Trim.LoneUnpublishedSurvives | climlib/wrangle.py:49-50 | a lone unpublished candidate survives every criterion, `publish` included |
| Trim.VersionTieCascade | climlib/wrangle.py:179-180 | files `a, c, b` with version weights 20190101, 20200101, 20200101 under `[ver]` leave `c, b`, the two 2020 files |
| Trim.VersionTieExample | climlib/wrangle.py:181-184 | of those tied files, the first in input order, `c`, is kept, although `b` is the smaller name |
| Trim.TrimKeepsEarliest | climlib/wrangle.py:174-184 | of two distinct keys of one pair that both survive the criteria, the later one in keyMap order is never kept |
| Trim.DedupKeepsEarliest | climlib/wrangle.py:151-184 | when a file occurs in the input before any occurrence of another file of its pair, and both survive the criteria, the later file is not selected |
| Trim.TrimSpecKeepsEarliest | climlib/wrangle.py:124-185 | the same on trimModelList's result: it succeeds, and the later file is not in it |
| Trim.CriteriaOrderMatters | climlib/wrangle.py:179-180 | swapping `cdate` and `ver` in the criteria swaps the survivor |
| Trim.BasenameOfPath | climlib/wrangle.py:153 | the last `/`-segment of `dir/base` is `base` |
| Trim.DescribeOfPath | climlib/wrangle.py:153-156 | a path `dir/f0.f1...` gives model f4, realization f5 and version weight of f10; fewer than eleven fields is malformed; then the version error, the open error, the metadata error |
| Find.Keep | climlib/wrangle.py:321 | the comprehension keeps exactly the strings containing the key |
| Find.KeepCounts | climlib/wrangle.py:321 | the comprehension keeps every copy of a matching string and no copy of any other |
| Find.Select | climlib/wrangle.py:319-323 | keeps exactly the strings that contain every piece |
| Find.SelectCounts | climlib/wrangle.py:319-323 | keeps every copy of a string that contains every piece, and no copy of any other |
| Find.FindInList | climlib/wrangle.py:304-323 | the method returns the strings containing every `*`-separated piece of the key |
| Find.KeepSelect | climlib/wrangle.py:320-321 | narrowing by one more piece is selecting by all pieces so far |
| Find.SelectSublist | climlib/wrangle.py:319-323 | the result is an order-preserving sublist of the input |
| Find.FindSingleKey | climlib/wrangle.py:319-323 | a key without `*` keeps exactly the strings containing it |
| Find.FindEmptyKey | climlib/wrangle.py:319-323 | the empty key keeps the whole list |
| Find.FindInListExample | climlib/wrangle.py:314-317 | `tom` over `tom, bob, tommy` gives `tom, tommy` |

## Left out

- Opening an xml with cdms2, reading its attributes, axes and directory, and closing it are I/O. The metadata source is a map from each file that can be opened to its header. A file missing from it raises `Unreadable`.
- `getXmlFiles` is not modelled. It matches paths on disk with glob, and its pattern building is string formatting.
- `esgfSearch`, `getAvailableModels`, `getModelSet` and `getCitationFromTrackingId` are not modelled. They are network clients.
- The `verbose` trace of `trimModelList` (climlib/wrangle.py:187-206) is not modelled. It is mostly console output, but not only that. Take a pair with two or more candidates and no survivor, which `publish` can produce. The trace never assigns `fn1` for that pair. It then raises `UnboundLocalError`, or prints a stale `* fn1` left from an earlier pair. The model returns `filesOut` as if `verbose` were False.
- `climlib/__init__.py` only re-exports names, so it is not modelled.
- Criterion keys other than `cdate`, `ver`, `tpoints` and `publish` are not modelled: the string keys `model` and `rip`, and unknown keys. An unknown key raises `KeyError` only when the group still holds two or more files, because `filterXmls` returns shorter lists before it reads the key (climlib/wrangle.py:49-50). `Criterion` has one constructor per supported key.
- Criteria.FilterXmls: requires every file to have a record. Python raises `KeyError` for such a file only when the list holds two or more files (climlib/wrangle.py:49-54); a shorter list comes back unchanged. `trimModelList` passes only keys of `keyMap` (lines 174-176), so the requires holds at its one call site (line 180).
- Criteria.MaxOf: numpy's integer type is an unbounded `int` here.
- Text.ParseInt: `int()` accepts an optional sign and ASCII digits only. Surrounding whitespace, `_` separators and non-ASCII digits are not modelled.
- Text.IsAlpha: `str.isalpha` is modelled for ASCII letters only.
- Meta.GetFileMeta: uses the corrected publish test (see Findings). The as-written test is `Meta.PublishFlagAsWritten`.

## Findings

| source | as written | input that shows it | evidently intended | confidence | as-written member | corrected member |
|---|---|---|---|---|---|---|
| climlib/wrangle.py:111 | the publish flag is `bool` of `str.find`. `find` gives -1 when the marker is absent, which is true, and 0 when the marker starts the directory, which is false | directory `/data` gives published; directory `publish/cmip5` gives not published | published exactly when `publish` occurs in the directory | high; not executed | Meta.PublishFlagAsWritten (shown by Meta.PublishFlagAsWrittenExamples and Meta.PublishFlagAsWrittenDiffers) | Meta.PublishFlag |
