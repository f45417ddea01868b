/** Python's ordering of strings (code point by code point, a proper prefix
    first) and `sorted(set(xs))`, which trimModelList uses to fix the order
    in which it visits models and realizations. */
module Ordering {

  /** a < b on Python strings. */
  predicate Below(a: string, b: string)
    ensures Below(a, b) ==> a != b
    decreases |a|
  {
    if |a| == 0 then |b| > 0
    else |b| > 0 && (a[0] < b[0] || (a[0] == b[0] && Below(a[1..], b[1..])))
  }

  lemma {:induction false} BelowIrreflexive(a: string)
    ensures !Below(a, a)
    decreases |a|
  {
    if |a| > 0 {
      BelowIrreflexive(a[1..]);
    }
  }

  lemma {:induction false} BelowTransitive(a: string, b: string, c: string)
    requires Below(a, b) && Below(b, c)
    ensures Below(a, c)
    decreases |a|
  {
    if |a| > 0 && a[0] == b[0] && b[0] == c[0] {
      BelowTransitive(a[1..], b[1..], c[1..]);
    }
  }

  /** Two different strings are ordered one way or the other. */
  lemma {:induction false} BelowTotal(a: string, b: string)
    requires a != b
    ensures Below(a, b) || Below(b, a)
    decreases |a|
  {
    if |a| > 0 && |b| > 0 && a[0] == b[0] {
      assert a == [a[0]] + a[1..] && b == [b[0]] + b[1..];
      BelowTotal(a[1..], b[1..]);
    }
  }

  predicate StrictlySorted(xs: seq<string>)
  {
    forall i, j :: 0 <= i < j < |xs| ==> Below(xs[i], xs[j])
  }

  /** Places x in a strictly sorted list unless it is already there. */
  function Insert(xs: seq<string>, x: string): (r: seq<string>)
    ensures forall y :: y in r <==> y in xs || y == x
    decreases |xs|
  {
    if |xs| == 0 then [x]
    else if x == xs[0] then xs
    else if Below(x, xs[0]) then [x] + xs
    else [xs[0]] + Insert(xs[1..], x)
  }

  lemma {:induction false} InsertSorted(xs: seq<string>, x: string)
    requires StrictlySorted(xs)
    ensures StrictlySorted(Insert(xs, x))
    decreases |xs|
  {
    if |xs| > 0 && x != xs[0] {
      if Below(x, xs[0]) {
        forall j | 0 <= j < |xs| ensures Below(x, xs[j]) {
          if j > 0 {
            BelowTransitive(x, xs[0], xs[j]);
          }
        }
      } else {
        BelowTotal(x, xs[0]);
        InsertSorted(xs[1..], x);
        var r := Insert(xs[1..], x);
        forall y | y in r ensures Below(xs[0], y) {
          if y != x {
            var j :| 0 <= j < |xs[1..]| && xs[1..][j] == y;
            assert xs[j + 1] == y;
          }
        }
      }
    }
  }

  /** sorted(set(xs)): the distinct elements of xs in increasing order. */
  function SortedSet(xs: seq<string>): (r: seq<string>)
    ensures StrictlySorted(r)
    ensures forall y :: y in r <==> y in xs
    decreases |xs|
  {
    if |xs| == 0 then []
    else
      var rest := SortedSet(xs[..|xs| - 1]);
      InsertSorted(rest, xs[|xs| - 1]);
      assert xs == xs[..|xs| - 1] + [xs[|xs| - 1]];
      Insert(rest, xs[|xs| - 1])
  }

  /** A strictly sorted list is fixed by its elements: how the set was built
      and in which order it was sorted do not matter. */
  lemma {:induction false} SortedUnique(a: seq<string>, b: seq<string>)
    requires StrictlySorted(a) && StrictlySorted(b)
    requires forall y :: y in a <==> y in b
    ensures a == b
    decreases |a|
  {
    if |b| > 0 {
      assert b[0] in a;
    }
    if |a| > 0 {
      assert a[0] in b;
      if a[0] != b[0] {
        var i :| 0 < i < |a| && a[i] == b[0];
        var j :| 0 < j < |b| && b[j] == a[0];
        BelowTransitive(a[0], b[0], a[0]);
        BelowIrreflexive(a[0]);
      }
      forall y ensures y in a[1..] <==> y in b[1..] {
        if y in a[1..] {
          var i :| 0 <= i < |a[1..]| && a[1..][i] == y;
          assert Below(a[0], a[i + 1]);
          BelowIrreflexive(a[0]);
          assert y in b;
        }
        if y in b[1..] {
          var i :| 0 <= i < |b[1..]| && b[1..][i] == y;
          assert Below(b[0], b[i + 1]);
          BelowIrreflexive(b[0]);
          assert y in a;
        }
      }
      SortedUnique(a[1..], b[1..]);
      assert a == [a[0]] + a[1..] && b == [b[0]] + b[1..];
    }
  }

  /** Lists with the same elements sort to the same list. */
  lemma SortedSetOfSameElements(xs: seq<string>, ys: seq<string>)
    requires forall y :: y in xs <==> y in ys
    ensures SortedSet(xs) == SortedSet(ys)
  {
    SortedUnique(SortedSet(xs), SortedSet(ys));
  }

  /** xs is ys with some elements deleted: an order-preserving sublist. */
  predicate IsSublist<T(==)>(xs: seq<T>, ys: seq<T>)
    decreases |ys|
  {
    if |xs| == 0 then true
    else if |ys| == 0 then false
    else (xs[|xs| - 1] == ys[|ys| - 1] && IsSublist(xs[..|xs| - 1], ys[..|ys| - 1]))
         || IsSublist(xs, ys[..|ys| - 1])
  }

  /** Every element of a sublist is an element of the whole. */
  lemma {:induction false} SublistMembers<T>(xs: seq<T>, ys: seq<T>)
    requires IsSublist(xs, ys)
    ensures forall x :: x in xs ==> x in ys
    decreases |ys|
  {
    if |xs| > 0 {
      var ys' := ys[..|ys| - 1];
      if xs[|xs| - 1] == ys[|ys| - 1] && IsSublist(xs[..|xs| - 1], ys') {
        SublistMembers(xs[..|xs| - 1], ys');
        assert xs == xs[..|xs| - 1] + [xs[|xs| - 1]];
      } else {
        SublistMembers(xs, ys');
      }
    }
  }

  /** A sublist stays one when the whole grows at its end. */
  lemma SublistExtend<T>(xs: seq<T>, ys: seq<T>, y: T)
    requires IsSublist(xs, ys)
    ensures IsSublist(xs, ys + [y]) && IsSublist(xs + [y], ys + [y])
  {
    assert (ys + [y])[..|ys|] == ys;
    assert (xs + [y])[..|xs|] == xs;
  }

  /** Being a sublist is transitive. */
  lemma {:induction false} SublistTransitive<T>(xs: seq<T>, ys: seq<T>, zs: seq<T>)
    requires IsSublist(xs, ys) && IsSublist(ys, zs)
    ensures IsSublist(xs, zs)
    decreases |zs|
  {
    if |xs| > 0 {
      assert |ys| > 0 && |zs| > 0;
      var zs' := zs[..|zs| - 1];
      if ys[|ys| - 1] == zs[|zs| - 1] && IsSublist(ys[..|ys| - 1], zs') {
        var ys' := ys[..|ys| - 1];
        if xs[|xs| - 1] == ys[|ys| - 1] && IsSublist(xs[..|xs| - 1], ys') {
          SublistTransitive(xs[..|xs| - 1], ys', zs');
        } else {
          SublistTransitive(xs, ys', zs');
        }
      } else {
        SublistTransitive(xs, ys, zs');
      }
    }
  }

  /** Two elements of a sublist appear in the whole in the same order. */
  lemma {:induction false} SublistOrder<T>(xs: seq<T>, ys: seq<T>, p: nat, q: nat)
    requires IsSublist(xs, ys) && p < q < |xs|
    ensures exists i, j :: 0 <= i < j < |ys| && ys[i] == xs[p] && ys[j] == xs[q]
    decreases |ys|
  {
    var xs', ys' := xs[..|xs| - 1], ys[..|ys| - 1];
    if xs[|xs| - 1] == ys[|ys| - 1] && IsSublist(xs', ys') {
      if q < |xs| - 1 {
        SublistOrder(xs', ys', p, q);
        var i, j :| 0 <= i < j < |ys'| && ys'[i] == xs'[p] && ys'[j] == xs'[q];
        assert ys[i] == xs[p] && ys[j] == xs[q];
      } else {
        SublistMembers(xs', ys');
        assert xs'[p] in xs';
        var i :| 0 <= i < |ys'| && ys'[i] == xs[p];
        assert ys[i] == xs[p] && ys[|ys| - 1] == xs[q];
      }
    } else {
      SublistOrder(xs, ys', p, q);
      var i, j :| 0 <= i < j < |ys'| && ys'[i] == xs[p] && ys'[j] == xs[q];
      assert ys[i] == xs[p] && ys[j] == xs[q];
    }
  }

  /** a occurs in xs before any occurrence of b. */
  predicate OccursBefore(xs: seq<string>, a: string, b: string)
  {
    exists p :: 0 <= p < |xs| && xs[p] == a && b !in xs[..p]
  }

  /** keys lists each element where it first occurs in xs: of two keys, the
      earlier one occurs in xs before any occurrence of the later one. */
  predicate FirstOccurrenceOrder(keys: seq<string>, xs: seq<string>)
  {
    forall i, j :: 0 <= i < j < |keys| ==> OccursBefore(xs, keys[i], keys[j])
  }

  /** What occurs before b in xs still does after appending to xs. */
  lemma OccursBeforeExtend(xs: seq<string>, a: string, b: string, x: string)
    requires OccursBefore(xs, a, b)
    ensures OccursBefore(xs + [x], a, b)
  {
    var p :| 0 <= p < |xs| && xs[p] == a && b !in xs[..p];
    assert (xs + [x])[..p] == xs[..p];
    assert (xs + [x])[p] == a;
  }

  /** Appending to xs keeps the order of the keys. */
  lemma FirstOccurrenceKept(keys: seq<string>, xs: seq<string>, x: string)
    requires FirstOccurrenceOrder(keys, xs)
    ensures FirstOccurrenceOrder(keys, xs + [x])
  {
    forall i, j | 0 <= i < j < |keys| ensures OccursBefore(xs + [x], keys[i], keys[j]) {
      OccursBeforeExtend(xs, keys[i], keys[j], x);
    }
  }

  /** An element new to xs joins the keys at the end. */
  lemma FirstOccurrenceJoined(keys: seq<string>, xs: seq<string>, x: string)
    requires FirstOccurrenceOrder(keys, xs)
    requires forall k :: k in keys ==> k in xs
    requires x !in xs
    ensures FirstOccurrenceOrder(keys + [x], xs + [x])
  {
    var ks := keys + [x];
    forall i, j | 0 <= i < j < |ks| ensures OccursBefore(xs + [x], ks[i], ks[j]) {
      if j < |keys| {
        OccursBeforeExtend(xs, keys[i], keys[j], x);
      } else {
        assert ks[i] == keys[i] && keys[i] in keys;
        var p :| 0 <= p < |xs| && xs[p] == keys[i];
        assert (xs + [x])[..p] == xs[..p];
        assert (xs + [x])[p] == ks[i];
      }
    }
  }
}
