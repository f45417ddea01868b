/** filterXmls (climlib/wrangle.py): keep the candidate files that reach the
    best value of one selection criterion. */
module Criteria {
  import opened Text
  import opened Ordering

  type FileName = string

  /** The keys trimModelList may pass as a criterion. */
  datatype Criterion = CDate | Ver | TPoints | Publish

  /** What a record holds under a criterion key: an int or a bool. */
  datatype Value = Int(n: int) | Bool(b: bool)

  /** The dictionary trimModelList stores per file. */
  datatype Record = Record(model: string, rip: string, ver: int, cdate: int, publish: bool, tpoints: int)

  /** keyMap: xml filename to its record. */
  type KeyMap = map<FileName, Record>

  /** cdate, ver and tpoints hold ints; publish holds a bool. */
  predicate Numeric(crit: Criterion)
  {
    crit != Publish
  }

  /** keyMap[fn][crit]. */
  function Lookup(rec: Record, crit: Criterion): (v: Value)
    ensures v.Int? <==> Numeric(crit)
  {
    match crit
    case CDate => Int(rec.cdate)
    case Ver => Int(rec.ver)
    case TPoints => Int(rec.tpoints)
    case Publish => Bool(rec.publish)
  }

  /** Every file has a record. */
  predicate Known(files: seq<FileName>, keyMap: KeyMap)
  {
    forall fn :: fn in files ==> fn in keyMap
  }

  /** The value of every file under crit, in file order. */
  function Values(files: seq<FileName>, keyMap: KeyMap, crit: Criterion): (vs: seq<Value>)
    requires Known(files, keyMap)
    ensures |vs| == |files|
    ensures forall k :: 0 <= k < |files| ==> vs[k] == Lookup(keyMap[files[k]], crit)
  {
    seq(|files|, k requires 0 <= k < |files| => Lookup(keyMap[files[k]], crit))
  }

  function IntsOf(vs: seq<Value>): (xs: seq<int>)
    requires forall k :: 0 <= k < |vs| ==> vs[k].Int?
    ensures |xs| == |vs|
    ensures forall k :: 0 <= k < |vs| ==> xs[k] == vs[k].n
  {
    seq(|vs|, k requires 0 <= k < |vs| => vs[k].n)
  }

  /** np.max on a non-empty list of ints. */
  function MaxOf(xs: seq<int>): (m: int)
    requires |xs| > 0
    ensures m in xs
    ensures forall k :: 0 <= k < |xs| ==> xs[k] <= m
    decreases |xs|
  {
    if |xs| == 1 then xs[0]
    else
      var m := MaxOf(xs[..|xs| - 1]);
      if Last(xs) > m then Last(xs) else m
  }

  /** The value filterXmls keeps: the largest int, or True. */
  function Optimum(files: seq<FileName>, keyMap: KeyMap, crit: Criterion): (best: Value)
    requires |files| > 0 && Known(files, keyMap)
    ensures !Numeric(crit) ==> best == Bool(true)
    ensures Numeric(crit) ==> best.Int? && exists k :: 0 <= k < |files| && Lookup(keyMap[files[k]], crit) == best
    ensures Numeric(crit) ==> forall k :: 0 <= k < |files| ==> Lookup(keyMap[files[k]], crit).n <= best.n
  {
    if Numeric(crit) then Int(MaxOf(IntsOf(Values(files, keyMap, crit)))) else Bool(true)
  }

  /** The files whose value under crit equals best, in their order. */
  function Matching(files: seq<FileName>, keyMap: KeyMap, crit: Criterion, best: Value): (r: seq<FileName>)
    requires Known(files, keyMap)
    ensures forall fn :: fn in r <==> fn in files && Lookup(keyMap[fn], crit) == best
    decreases |files|
  {
    if |files| == 0 then []
    else
      var r := Matching(files[..|files| - 1], keyMap, crit, best);
      assert files == files[..|files| - 1] + [Last(files)];
      if Lookup(keyMap[Last(files)], crit) == best then r + [Last(files)] else r
  }

  /** What filterXmls returns: fewer than two files come back as they are. */
  function Filter(files: seq<FileName>, keyMap: KeyMap, crit: Criterion): (r: seq<FileName>)
    requires Known(files, keyMap)
    ensures forall fn :: fn in r ==> fn in files
  {
    if |files| < 2 then files else Matching(files, keyMap, crit, Optimum(files, keyMap, crit))
  }

  /** filterXmls: read every value, take the optimum by the type of the
      last value read, then keep the files that reach it. */
  method FilterXmls(files: seq<FileName>, keyMap: KeyMap, crit: Criterion) returns (outList: seq<FileName>)
    requires Known(files, keyMap)
    ensures outList == Filter(files, keyMap, crit)
  {
    if |files| < 2 {
      return files;
    }
    // get values
    var values: seq<Value> := [];
    for i := 0 to |files|
      invariant |values| == i
      invariant forall k :: 0 <= k < i ==> values[k] == Lookup(keyMap[files[k]], crit)
    {
      values := values + [Lookup(keyMap[files[i]], crit)];
    }
    assert values == Values(files, keyMap, crit);
    // determine optimal value from the type of the last value read
    var v := values[|values| - 1];
    var vmax: Value;
    OptimumByLastValue(files, keyMap, crit);
    if v.Int? {
      vmax := Int(MaxOf(IntsOf(values)));
    } else {
      vmax := Bool(true);
    }
    // create output list
    outList := [];
    for i := 0 to |files|
      invariant Known(files[..i], keyMap)
      invariant outList == Matching(files[..i], keyMap, crit, vmax)
    {
      MatchingStep(files, keyMap, crit, vmax, i);
      if Lookup(keyMap[files[i]], crit) == vmax {
        outList := outList + [files[i]];
      }
    }
    assert files[..|files|] == files;
  }

  /** The optimum as filterXmls picks it, by the type of the last value. */
  lemma OptimumByLastValue(files: seq<FileName>, keyMap: KeyMap, crit: Criterion)
    requires Known(files, keyMap) && |files| >= 2
    ensures var values := Values(files, keyMap, crit);
      && (values[|values| - 1].Int? ==> forall k :: 0 <= k < |values| ==> values[k].Int?)
      && Optimum(files, keyMap, crit)
         == if values[|values| - 1].Int? then Int(MaxOf(IntsOf(values))) else Bool(true)
  {
  }

  /** One turn of the output loop: the next file joins the matches if it reaches best. */
  lemma MatchingStep(files: seq<FileName>, keyMap: KeyMap, crit: Criterion, best: Value, i: nat)
    requires Known(files, keyMap) && i < |files|
    ensures Known(files[..i + 1], keyMap)
    ensures Matching(files[..i + 1], keyMap, crit, best)
         == Matching(files[..i], keyMap, crit, best) + (if Lookup(keyMap[files[i]], crit) == best then [files[i]] else [])
  {
    assert files[..i + 1][..i] == files[..i];
  }

  // ---------------------------------------------------------------------------
  // What filterXmls promises
  // ---------------------------------------------------------------------------

  /** A list of fewer than two files is returned unchanged, whatever the criterion. */
  lemma FilterShortList(files: seq<FileName>, keyMap: KeyMap, crit: Criterion)
    requires Known(files, keyMap) && |files| < 2
    ensures Filter(files, keyMap, crit) == files
  {
  }

  lemma {:induction false} MatchingSublist(files: seq<FileName>, keyMap: KeyMap, crit: Criterion, best: Value)
    requires Known(files, keyMap)
    ensures IsSublist(Matching(files, keyMap, crit, best), files)
    decreases |files|
  {
    if |files| > 0 {
      var init := files[..|files| - 1];
      MatchingSublist(init, keyMap, crit, best);
      SublistExtend(Matching(init, keyMap, crit, best), init, Last(files));
      assert init + [Last(files)] == files;
    }
  }

  /** The result keeps input files only, in their input order. */
  lemma FilterSublist(files: seq<FileName>, keyMap: KeyMap, crit: Criterion)
    requires Known(files, keyMap)
    ensures IsSublist(Filter(files, keyMap, crit), files)
  {
    if |files| < 2 {
      SublistOfItself(files);
    } else {
      MatchingSublist(files, keyMap, crit, Optimum(files, keyMap, crit));
    }
  }

  lemma {:induction false} SublistOfItself(files: seq<FileName>)
    ensures IsSublist(files, files)
    decreases |files|
  {
    if |files| > 0 {
      SublistOfItself(files[..|files| - 1]);
    }
  }

  /** For an int criterion and two or more files, the result is exactly the
      files whose value no other file exceeds, and it is never empty. */
  lemma FilterNumeric(files: seq<FileName>, keyMap: KeyMap, crit: Criterion)
    requires Known(files, keyMap) && Numeric(crit) && |files| >= 2
    ensures forall fn :: fn in Filter(files, keyMap, crit) <==>
      fn in files && forall g :: g in files ==> Lookup(keyMap[g], crit).n <= Lookup(keyMap[fn], crit).n
    ensures |Filter(files, keyMap, crit)| > 0
  {
    var xs := IntsOf(Values(files, keyMap, crit));
    var top := MaxOf(xs);
    forall fn
      ensures fn in Filter(files, keyMap, crit) <==>
        fn in files && forall g :: g in files ==> Lookup(keyMap[g], crit).n <= Lookup(keyMap[fn], crit).n
    {
      if fn in files {
        var j :| 0 <= j < |xs| && xs[j] == top;
        assert Lookup(keyMap[files[j]], crit).n == top;
        forall g | g in files ensures Lookup(keyMap[g], crit).n <= top {
          var k :| 0 <= k < |files| && files[k] == g;
          assert xs[k] == Lookup(keyMap[g], crit).n;
        }
      }
    }
    var j :| 0 <= j < |xs| && xs[j] == top;
    assert Lookup(keyMap[files[j]], crit) == Int(top);
    assert files[j] in Filter(files, keyMap, crit);
  }

  /** For the publish criterion and two or more files, the result is exactly
      the published files, and empty when none is published. */
  lemma FilterPublish(files: seq<FileName>, keyMap: KeyMap)
    requires Known(files, keyMap) && |files| >= 2
    ensures forall fn :: fn in Filter(files, keyMap, Publish) <==> fn in files && keyMap[fn].publish
    ensures (forall fn :: fn in files ==> !keyMap[fn].publish) ==> Filter(files, keyMap, Publish) == []
  {
    var r := Filter(files, keyMap, Publish);
    if |r| > 0 {
      assert r[0] in r;
    }
  }

  lemma {:induction false} MatchingAll(files: seq<FileName>, keyMap: KeyMap, crit: Criterion, best: Value)
    requires Known(files, keyMap)
    requires forall fn :: fn in files ==> Lookup(keyMap[fn], crit) == best
    ensures Matching(files, keyMap, crit, best) == files
    decreases |files|
  {
    if |files| > 0 {
      var init := files[..|files| - 1];
      assert init + [Last(files)] == files;
      assert Known(init, keyMap) by {
        forall fn | fn in init ensures fn in files {}
      }
      assert forall fn :: fn in init ==> Lookup(keyMap[fn], crit) == best by {
        forall fn | fn in init ensures fn in files {}
      }
      MatchingAll(init, keyMap, crit, best);
      assert Lookup(keyMap[Last(files)], crit) == best;
    }
  }

  /** After an int criterion, every file left holds the optimum of what is left. */
  lemma FilteredTie(files: seq<FileName>, keyMap: KeyMap, crit: Criterion)
    requires Known(files, keyMap) && Numeric(crit) && |files| >= 2
    requires |Filter(files, keyMap, crit)| >= 2
    ensures var once := Filter(files, keyMap, crit);
      forall fn :: fn in once ==> Lookup(keyMap[fn], crit) == Optimum(once, keyMap, crit)
  {
    var once := Filter(files, keyMap, crit);
    var top := Optimum(files, keyMap, crit);
    assert forall fn :: fn in once ==> Lookup(keyMap[fn], crit) == top;
    var xs := IntsOf(Values(once, keyMap, crit));
    var j :| 0 <= j < |xs| && xs[j] == MaxOf(xs);
    assert once[j] in once;
    assert Optimum(once, keyMap, crit) == Lookup(keyMap[once[j]], crit);
  }

  /** Filtering a second time by the same criterion changes nothing. */
  lemma FilterIdempotent(files: seq<FileName>, keyMap: KeyMap, crit: Criterion)
    requires Known(files, keyMap)
    ensures Filter(Filter(files, keyMap, crit), keyMap, crit) == Filter(files, keyMap, crit)
  {
    var once := Filter(files, keyMap, crit);
    if |files| >= 2 && |once| >= 2 {
      if Numeric(crit) {
        FilteredTie(files, keyMap, crit);
      } else {
        FilterPublish(files, keyMap);
      }
      MatchingAll(once, keyMap, crit, Optimum(once, keyMap, crit));
    }
  }
}
