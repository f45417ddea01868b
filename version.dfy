/** versionWeight (climlib/wrangle.py): a version tag of a CMIP xml
    becomes an integer that grows with recency. */
module Version {
  import opened Wrappers
  import opened Text

  /** Factor applied to a small ordinal version such as v1. */
  const OrdinalScale := 100000000

  /** 'latest' weighs 0; otherwise every 'v' is dropped, the rest is read
      with int(), and a value below 10 is scaled by OrdinalScale. */
  function VersionWeight(tag: string): (r: Result<int>)
    ensures r.Success? ==> !(0 < r.value < 10)
  {
    if tag == "latest" then Success(0)
    else
      match ToInt(Remove(tag, 'v'))
      case Failure(e) => Failure(e)
      case Success(n) => Success(if n < 10 then n * OrdinalScale else n)
  }

  /** The weight a natural number n stands for. */
  function Weight(n: nat): nat
  {
    if n < 10 then n * OrdinalScale else n
  }

  /** Dropping every 'v' from "v" + d leaves the digits d. */
  lemma StripVersionMarker(d: string)
    requires AllDigits(d)
    ensures Remove("v" + d, 'v') == d && Remove(d, 'v') == d
  {
    assert 'v' !in d by {
      forall k | 0 <= k < |d| ensures d[k] != 'v' {
        assert IsDigit(d[k]);
      }
    }
    RemoveConcat("v", d, 'v');
    RemoveAbsent(d, 'v');
    assert Remove("v", 'v') == "";
    assert "" + d == d;
  }

  /** A tag other than 'latest' whose remainder is a digit string d weighs Weight(d's value). */
  lemma VersionWeightOfDigits(tag: string, d: string)
    requires tag != "latest" && |d| > 0 && AllDigits(d)
    requires Remove(tag, 'v') == d
    ensures VersionWeight(tag) == Success(Weight(ParseNat(d)))
  {
    ParseIntDigits(d);
  }

  /** A tag "v<n>", or the bare number "<n>", weighs Weight(n). */
  lemma VersionWeightOfNumber(n: nat)
    ensures VersionWeight("v" + DigitsOf(n)) == Success(Weight(n))
    ensures VersionWeight(DigitsOf(n)) == Success(Weight(n))
  {
    var d := DigitsOf(n);
    StripVersionMarker(d);
    ParseDigitsOf(n);
    assert ("v" + d)[0] != "latest"[0];
    assert d[0] != "latest"[0] by { assert IsDigit(d[0]); }
    VersionWeightOfDigits("v" + d, d);
    VersionWeightOfDigits(d, d);
  }

  /** A tag whose remainder after dropping 'v' is empty or holds a
      character int() cannot read is rejected with a ValueError. */
  lemma VersionWeightRejects(tag: string, c: char)
    requires tag != "latest"
    requires c in tag && c != 'v' && !IsDigit(c) && c != '-' && c != '+'
    ensures VersionWeight(tag) == Failure(NotAnInteger(Remove(tag, 'v')))
  {
    var s := Remove(tag, 'v');
    assert c in s;
    if ParseInt(s).Some? {
      var k :| 0 <= k < |s| && s[k] == c;
    }
  }

  /** The remainder must not be empty: "v" alone is rejected. */
  lemma VersionWeightRejectsBareV()
    ensures VersionWeight("v") == Failure(NotAnInteger(""))
  {
    assert Remove("v", 'v') == "";
  }

  /** The examples of the function's documentation. */
  lemma VersionWeightExamples()
    ensures VersionWeight("latest") == Success(0)
    ensures VersionWeight("v1") == Success(100000000)
    ensures VersionWeight("v20160829") == Success(20160829)
  {
    VersionWeightOfNumber(1);
    assert DigitsOf(1) == "1";
    DateVersionExample();
  }

  lemma DateVersionDigits()
    ensures AllDigits("20160829") && ParseNat("20160829") == 20160829
  {
    FourDigits("2016");
    FourDigits("0829");
    ParseNatConcat("2016", "0829");
    assert "2016" + "0829" == "20160829";
    assert Pow10(4) == 10000;
  }

  lemma DateVersionExample()
    ensures VersionWeight("v20160829") == Success(20160829)
  {
    var d := "20160829";
    DateVersionDigits();
    StripVersionMarker(d);
    assert "v" + d == "v20160829";
    VersionWeightOfDigits("v20160829", d);
  }

  /** Among ordinal versions (1-9), and among date-like versions (10 and
      up), a larger number weighs more. */
  lemma VersionWeightMonotone(m: nat, n: nat)
    requires m < n
    requires n < 10 || 10 <= m
    ensures VersionWeight("v" + DigitsOf(m)).Success? && VersionWeight("v" + DigitsOf(n)).Success?
    ensures VersionWeight("v" + DigitsOf(m)).value < VersionWeight("v" + DigitsOf(n)).value
  {
    VersionWeightOfNumber(m);
    VersionWeightOfNumber(n);
  }

  /** An ordinal version v1..v9 outweighs every date-like version of at
      most eight digits, and 'latest' weighs less than either. */
  lemma OrdinalOutweighsDate(k: nat, date: nat)
    requires 1 <= k < 10 <= date < OrdinalScale
    ensures VersionWeight("v" + DigitsOf(k)).Success? && VersionWeight("v" + DigitsOf(date)).Success?
    ensures VersionWeight("v" + DigitsOf(k)).value > VersionWeight("v" + DigitsOf(date)).value
    ensures VersionWeight("latest").value < VersionWeight("v" + DigitsOf(date)).value
  {
    VersionWeightOfNumber(k);
    VersionWeightOfNumber(date);
  }
}
