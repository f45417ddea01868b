/** The Python string built-ins that wrangle.py leans on: str.split with a
    one-character separator, str.replace(c, ''), int() on a decimal string,
    and the substring test `key in s`. */
module Text {
  import opened Wrappers

  predicate IsDigit(c: char) { '0' <= c <= '9' }

  /** str.isalpha, restricted to ASCII letters. */
  predicate IsAlpha(c: char) { 'a' <= c <= 'z' || 'A' <= c <= 'Z' }

  predicate AllDigits(s: string) { forall k :: 0 <= k < |s| ==> IsDigit(s[k]) }

  function Last<T>(xs: seq<T>): T
    requires |xs| > 0
  {
    xs[|xs| - 1]
  }

  // ---------------------------------------------------------------------------
  // s.split(sep) and sep.join(parts)
  // ---------------------------------------------------------------------------

  /** s.split(sep): the maximal separator-free runs, empty ones included. */
  function Split(s: string, sep: char): (parts: seq<string>)
    ensures |parts| >= 1
    ensures forall k :: 0 <= k < |parts| ==> sep !in parts[k]
    decreases |s|
  {
    if |s| == 0 then [""]
    else
      var rest := Split(s[1..], sep);
      if s[0] == sep then [""] + rest
      else [[s[0]] + rest[0]] + rest[1..]
  }

  /** sep.join(parts). */
  function Join(parts: seq<string>, sep: char): string
    requires |parts| >= 1
    decreases |parts|
  {
    if |parts| == 1 then parts[0] else parts[0] + [sep] + Join(parts[1..], sep)
  }

  /** Joining the pieces of a split gives the string back. */
  lemma {:induction false} JoinSplit(s: string, sep: char)
    ensures Join(Split(s, sep), sep) == s
    decreases |s|
  {
    if |s| > 0 {
      var rest := Split(s[1..], sep);
      JoinSplit(s[1..], sep);
      if s[0] == sep {
        assert Split(s, sep)[1..] == rest;
      } else {
        var parts := Split(s, sep);
        var head := [s[0]] + rest[0];
        assert s == [s[0]] + s[1..];
        if |rest| == 1 {
          assert parts == [head];
        } else {
          assert parts == [head] + rest[1..];
          assert Join(parts, sep) == head + [sep] + Join(rest[1..], sep);
          assert Join(rest, sep) == rest[0] + [sep] + Join(rest[1..], sep);
        }
      }
    }
  }

  /** A separator splits the string into the pieces of each side. */
  lemma {:induction false} SplitAround(a: string, b: string, sep: char)
    ensures Split(a + [sep] + b, sep) == Split(a, sep) + Split(b, sep)
    decreases |a|
  {
    var s := a + [sep] + b;
    if |a| == 0 {
      assert s == [sep] + b && s[1..] == b;
    } else {
      assert s[1..] == a[1..] + [sep] + b;
      SplitAround(a[1..], b, sep);
    }
  }

  /** A string without the separator splits into itself alone. */
  lemma {:induction false} SplitWhole(s: string, sep: char)
    requires sep !in s
    ensures Split(s, sep) == [s]
    decreases |s|
  {
    if |s| > 0 {
      SplitWhole(s[1..], sep);
      assert [s[0]] + s[1..] == s;
    }
  }

  /** Splitting a join of separator-free pieces gives the pieces back. */
  lemma {:induction false} SplitJoin(parts: seq<string>, sep: char)
    requires |parts| >= 1
    requires forall k :: 0 <= k < |parts| ==> sep !in parts[k]
    ensures Split(Join(parts, sep), sep) == parts
    decreases |parts|
  {
    SplitWhole(parts[0], sep);
    if |parts| > 1 {
      SplitAround(parts[0], Join(parts[1..], sep), sep);
      SplitJoin(parts[1..], sep);
      assert [parts[0]] + parts[1..] == parts;
    }
  }

  /** A character that is neither the separator nor in any piece is not in the join. */
  lemma {:induction false} JoinAvoids(parts: seq<string>, sep: char, c: char)
    requires |parts| >= 1 && c != sep
    requires forall k :: 0 <= k < |parts| ==> c !in parts[k]
    ensures c !in Join(parts, sep)
    decreases |parts|
  {
    if |parts| > 1 {
      JoinAvoids(parts[1..], sep, c);
    }
  }

  // ---------------------------------------------------------------------------
  // s.replace(c, '')
  // ---------------------------------------------------------------------------

  /** s.replace(c, ''): every occurrence of c removed, the rest in order. */
  function Remove(s: string, c: char): (r: string)
    ensures c !in r
    ensures |r| <= |s|
    ensures forall d :: d in r <==> d in s && d != c
    decreases |s|
  {
    if |s| == 0 then ""
    else if Last(s) == c then Remove(s[..|s| - 1], c)
    else Remove(s[..|s| - 1], c) + [Last(s)]
  }

  /** Removing c from a string that has none changes nothing. */
  lemma {:induction false} RemoveAbsent(s: string, c: char)
    requires c !in s
    ensures Remove(s, c) == s
    decreases |s|
  {
    if |s| > 0 {
      var init := s[..|s| - 1];
      assert s == init + [Last(s)];
      assert c !in init;
      RemoveAbsent(init, c);
    }
  }

  /** Removal works piece by piece. */
  lemma {:induction false} RemoveConcat(a: string, b: string, c: char)
    ensures Remove(a + b, c) == Remove(a, c) + Remove(b, c)
    decreases |b|
  {
    if |b| > 0 {
      assert (a + b)[..|a + b| - 1] == a + b[..|b| - 1];
      RemoveConcat(a, b[..|b| - 1], c);
    } else {
      assert a + b == a;
    }
  }

  // ---------------------------------------------------------------------------
  // int(s) on decimal text
  // ---------------------------------------------------------------------------

  function DigitValue(c: char): nat
    requires IsDigit(c)
  {
    (c as int) - ('0' as int)
  }

  function Pow10(n: nat): nat
  {
    if n == 0 then 1 else 10 * Pow10(n - 1)
  }

  /** The value of a string of decimal digits (leading zeros allowed, as int() allows them). */
  function ParseNat(d: string): nat
    requires AllDigits(d)
    decreases |d|
  {
    if |d| == 0 then 0 else 10 * ParseNat(d[..|d| - 1]) + DigitValue(Last(d))
  }

  /** int(s): an optional sign followed by at least one decimal digit; anything else is a ValueError. */
  function ParseInt(s: string): (r: Option<int>)
    ensures r.Some? ==> |s| > 0 && AllDigits(s[1..]) && (IsDigit(s[0]) || s[0] == '-' || s[0] == '+')
  {
    if |s| > 0 && (s[0] == '-' || s[0] == '+') then
      if |s| > 1 && AllDigits(s[1..]) then
        var n: int := ParseNat(s[1..]);
        Some(if s[0] == '-' then -n else n)
      else None
    else if |s| > 0 && AllDigits(s) then Some(ParseNat(s))
    else None
  }

  /** int() that raises ValueError. */
  function ToInt(s: string): (r: Result<int>)
    ensures r.Success? <==> |s| > 0 && (AllDigits(s) || ((s[0] == '-' || s[0] == '+') && |s| > 1 && AllDigits(s[1..])))
    ensures r.Failure? ==> r.error == NotAnInteger(s)
  {
    match ParseInt(s)
    case Some(n) => Success(n)
    case None => Failure(NotAnInteger(s))
  }

  function Digit(k: nat): (c: char)
    requires k < 10
    ensures IsDigit(c) && DigitValue(c) == k
  {
    (('0' as int) + k) as char
  }

  /** str(n) for a natural number. */
  function DigitsOf(n: nat): (d: string)
    ensures |d| >= 1 && AllDigits(d)
    decreases n
  {
    if n < 10 then [Digit(n)] else DigitsOf(n / 10) + [Digit(n % 10)]
  }

  /** int(str(n)) == n for every natural number. */
  lemma {:induction false} ParseDigitsOf(n: nat)
    ensures ParseNat(DigitsOf(n)) == n
    decreases n
  {
    if n >= 10 {
      var d := DigitsOf(n);
      assert d[..|d| - 1] == DigitsOf(n / 10);
      ParseDigitsOf(n / 10);
    }
  }

  /** Digits written after a decimal number shift it left. */
  lemma {:induction false} ParseNatConcat(a: string, b: string)
    requires AllDigits(a) && AllDigits(b)
    ensures AllDigits(a + b)
    ensures ParseNat(a + b) == ParseNat(a) * Pow10(|b|) + ParseNat(b)
    decreases |b|
  {
    if |b| == 0 {
      assert a + b == a;
    } else {
      var b' := b[..|b| - 1];
      assert (a + b)[..|a + b| - 1] == a + b';
      assert Last(a + b) == Last(b);
      ParseNatConcat(a, b');
      var x, p, y, d := ParseNat(a), Pow10(|b'|), ParseNat(b'), DigitValue(Last(b));
      assert Pow10(|b|) == 10 * p;
      assert ParseNat(b) == 10 * y + d;
      assert ParseNat(a + b) == 10 * ParseNat(a + b') + d;
      ShiftLeft(x, p, y, d);
    }
  }

  lemma ShiftLeft(x: int, p: int, y: int, d: int)
    ensures 10 * (x * p + y) + d == x * (10 * p) + (10 * y + d)
  {
  }

  /** The value of a two-digit string. */
  lemma TwoDigits(d: string)
    requires |d| == 2 && AllDigits(d)
    ensures ParseNat(d) == 10 * DigitValue(d[0]) + DigitValue(d[1])
  {
    assert d[..1][..0] == [] && d[..|d| - 1] == d[..1];
    assert ParseNat(d[..1]) == DigitValue(d[0]);
  }

  /** The value of a four-digit string. */
  lemma FourDigits(d: string)
    requires |d| == 4 && AllDigits(d)
    ensures ParseNat(d) == 1000 * DigitValue(d[0]) + 100 * DigitValue(d[1]) + 10 * DigitValue(d[2]) + DigitValue(d[3])
  {
    assert d[..3][..2] == d[..2] && d[..2][..1] == d[..1] && d[..1][..0] == [];
    assert ParseNat(d[..1]) == DigitValue(d[0]);
    assert ParseNat(d[..2]) == 10 * DigitValue(d[0]) + DigitValue(d[1]);
    assert ParseNat(d[..3]) == 100 * DigitValue(d[0]) + 10 * DigitValue(d[1]) + DigitValue(d[2]);
  }

  /** A plain digit string is read by int() as its decimal value. */
  lemma ParseIntDigits(d: string)
    requires |d| > 0 && AllDigits(d)
    ensures ParseInt(d) == Some(ParseNat(d))
  {
    assert IsDigit(d[0]);
  }

  // ---------------------------------------------------------------------------
  // key in s
  // ---------------------------------------------------------------------------

  predicate IsPrefix(p: string, s: string)
  {
    |p| <= |s| && s[..|p|] == p
  }

  /** Python's substring test `key in s`. */
  predicate Contains(s: string, key: string)
    ensures Contains(s, key) ==> |key| <= |s|
    decreases |s|
  {
    IsPrefix(key, s) || (|s| > 0 && Contains(s[1..], key))
  }

  /** `key in s` holds exactly when key starts at some position of s. */
  lemma {:induction false} ContainsAt(s: string, key: string)
    ensures Contains(s, key) <==> exists i :: 0 <= i <= |s| && IsPrefix(key, s[i..])
    decreases |s|
  {
    assert s[0..] == s;
    if |s| > 0 {
      ContainsAt(s[1..], key);
      if Contains(s[1..], key) {
        var i :| 0 <= i <= |s[1..]| && IsPrefix(key, s[1..][i..]);
        assert s[1..][i..] == s[i + 1..];
        assert IsPrefix(key, s[i + 1..]);
      }
      if exists i :: 0 <= i <= |s| && IsPrefix(key, s[i..]) {
        var i :| 0 <= i <= |s| && IsPrefix(key, s[i..]);
        if i > 0 {
          assert s[1..][i - 1..] == s[i..];
          assert IsPrefix(key, s[1..][i - 1..]);
        }
      }
    }
  }

}
