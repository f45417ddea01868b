/** findInList (climlib/wrangle.py): keep the strings of a list that contain
    every '*'-separated piece of a key. */
module Find {
  import opened Text
  import opened Ordering

  /** s contains every piece. */
  predicate HasAll(s: string, pieces: seq<string>)
  {
    forall k :: 0 <= k < |pieces| ==> Contains(s, pieces[k])
  }

  /** [s for s in xs if key in s] */
  function Keep(xs: seq<string>, key: string): (r: seq<string>)
    ensures forall s :: s in r <==> s in xs && Contains(s, key)
    decreases |xs|
  {
    if |xs| == 0 then []
    else
      var r := Keep(xs[..|xs| - 1], key);
      assert xs == xs[..|xs| - 1] + [Last(xs)];
      if Contains(Last(xs), key) then r + [Last(xs)] else r
  }

  /** The reference selection, in one pass: the strings of xs that contain
      every piece, in their order. */
  function Select(xs: seq<string>, pieces: seq<string>): (r: seq<string>)
    ensures forall s :: s in r <==> s in xs && HasAll(s, pieces)
    decreases |xs|
  {
    if |xs| == 0 then []
    else
      var r := Select(xs[..|xs| - 1], pieces);
      assert xs == xs[..|xs| - 1] + [Last(xs)];
      if HasAll(Last(xs), pieces) then r + [Last(xs)] else r
  }

  /** The comprehension keeps every copy of a string that contains the key. */
  lemma {:induction false} KeepCounts(xs: seq<string>, key: string)
    ensures forall s :: multiset(Keep(xs, key))[s] == if Contains(s, key) then multiset(xs)[s] else 0
    decreases |xs|
  {
    if |xs| > 0 {
      var init := xs[..|xs| - 1];
      KeepCounts(init, key);
      assert xs == init + [Last(xs)];
      assert multiset(xs) == multiset(init) + multiset{Last(xs)};
    }
  }

  /** The selection keeps every copy of a string that contains every piece. */
  lemma {:induction false} SelectCounts(xs: seq<string>, pieces: seq<string>)
    ensures forall s :: multiset(Select(xs, pieces))[s] == if HasAll(s, pieces) then multiset(xs)[s] else 0
    decreases |xs|
  {
    if |xs| > 0 {
      var init := xs[..|xs| - 1];
      SelectCounts(init, pieces);
      assert xs == init + [Last(xs)];
      assert multiset(xs) == multiset(init) + multiset{Last(xs)};
    }
  }

  /** findInList: narrow the list once per piece of the key. */
  method FindInList(keyString: string, inList: seq<string>) returns (outList: seq<string>)
    ensures outList == Select(inList, Split(keyString, '*'))
  {
    var pieces := Split(keyString, '*');
    outList := inList;
    SelectNone(inList);
    assert pieces[..0] == [];
    for i := 0 to |pieces|
      invariant outList == Select(inList, pieces[..i])
    {
      KeepStep(inList, pieces, i);
      outList := Keep(outList, pieces[i]);
    }
    assert pieces[..|pieces|] == pieces;
  }

  /** With no piece to look for, every string is kept. */
  lemma {:induction false} SelectNone(xs: seq<string>)
    ensures Select(xs, []) == xs
    decreases |xs|
  {
    if |xs| > 0 {
      SelectNone(xs[..|xs| - 1]);
      assert xs == xs[..|xs| - 1] + [Last(xs)];
    }
  }

  /** Narrowing by one more piece is selecting by all pieces so far. */
  lemma {:induction false} KeepSelect(xs: seq<string>, pieces: seq<string>, key: string)
    ensures Keep(Select(xs, pieces), key) == Select(xs, pieces + [key])
    decreases |xs|
  {
    if |xs| > 0 {
      var init := xs[..|xs| - 1];
      KeepSelect(init, pieces, key);
      var s := Last(xs);
      var r := Select(init, pieces);
      assert HasAll(s, pieces + [key]) <==> HasAll(s, pieces) && Contains(s, key) by {
        assert (pieces + [key])[|pieces|] == key;
        assert forall k :: 0 <= k < |pieces| ==> (pieces + [key])[k] == pieces[k];
      }
      if HasAll(s, pieces) {
        assert (r + [s])[..|r + [s]| - 1] == r;
      }
    }
  }

  lemma KeepStep(xs: seq<string>, pieces: seq<string>, i: nat)
    requires i < |pieces|
    ensures Keep(Select(xs, pieces[..i]), pieces[i]) == Select(xs, pieces[..i + 1])
  {
    KeepSelect(xs, pieces[..i], pieces[i]);
    assert pieces[..i] + [pieces[i]] == pieces[..i + 1];
  }

  /** The result keeps input strings only, in their input order. */
  lemma {:induction false} SelectSublist(xs: seq<string>, pieces: seq<string>)
    ensures IsSublist(Select(xs, pieces), xs)
    decreases |xs|
  {
    if |xs| > 0 {
      var init := xs[..|xs| - 1];
      SelectSublist(init, pieces);
      SublistExtend(Select(init, pieces), init, Last(xs));
      assert init + [Last(xs)] == xs;
    }
  }

  /** A key without '*' keeps exactly the strings that contain it. */
  lemma FindSingleKey(key: string, xs: seq<string>)
    requires '*' !in key
    ensures forall s :: s in Select(xs, Split(key, '*')) <==> s in xs && Contains(s, key)
  {
    SplitWhole(key, '*');
    forall s ensures HasAll(s, [key]) <==> Contains(s, key) {
      HasOne(s, key);
    }
  }

  lemma HasOne(s: string, key: string)
    ensures HasAll(s, [key]) <==> Contains(s, key)
  {
    assert [key][0] == key;
  }

  /** The empty key keeps the whole list: every string contains "". */
  lemma FindEmptyKey(xs: seq<string>)
    ensures Select(xs, Split("", '*')) == xs
  {
    assert Split("", '*') == [""];
    AllHaveEmpty(xs);
    SelectAll(xs, [""]);
  }

  lemma AllHaveEmpty(xs: seq<string>)
    ensures forall s :: s in xs ==> HasAll(s, [""])
  {
    forall s | s in xs ensures HasAll(s, [""]) {
      assert IsPrefix("", s);
    }
  }

  lemma {:induction false} SelectAll(xs: seq<string>, pieces: seq<string>)
    requires forall s :: s in xs ==> HasAll(s, pieces)
    ensures Select(xs, pieces) == xs
    decreases |xs|
  {
    if |xs| > 0 {
      var init := xs[..|xs| - 1];
      assert xs == init + [Last(xs)];
      assert forall s :: s in init ==> s in xs;
      SelectAll(init, pieces);
      assert Last(xs) in xs;
    }
  }

  lemma ExampleContains()
    ensures Contains("tom", "tom") && Contains("tommy", "tom") && !Contains("bob", "tom")
  {
    assert IsPrefix("tom", "tom");
    assert "tommy"[..3] == "tom";
    ContainsAt("bob", "tom");
    forall i | 0 <= i <= 3 ensures !IsPrefix("tom", "bob"[i..]) {
      if i == 0 { assert "bob"[0] != "tom"[0]; }
    }
  }

  /** The first two strings of the example: only "tom" is kept. */
  lemma ExamplePrefix()
    ensures Select(["tom", "bob"], ["tom"]) == ["tom"]
  {
    ExampleContains();
    HasOne("tom", "tom");
    HasOne("bob", "tom");
    var xs: seq<string> := ["tom", "bob"];
    assert xs[..1] == ["tom"] && ["tom"][..0] == [];
    assert Select(["tom"], ["tom"]) == ["tom"];
  }

  /** The example of the function's documentation. */
  lemma FindInListExample()
    ensures Select(["tom", "bob", "tommy"], Split("tom", '*')) == ["tom", "tommy"]
  {
    var xs: seq<string> := ["tom", "bob", "tommy"];
    SplitWhole("tom", '*');
    ExampleContains();
    HasOne("tommy", "tom");
    ExamplePrefix();
    assert xs[..2] == ["tom", "bob"];
  }
}
