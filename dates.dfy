/** The creation-date reduction inside getFileMeta (climlib/wrangle.py):
    a timestamp string becomes an integer YYYYMMDD. Opening the file is not
    modelled; the timestamp attribute, or its absence, is the input. */
module Dates {
  import opened Wrappers
  import opened Text

  /** Stands in for a missing creation_date attribute. */
  const DawnOfTime := "1989-03-06T17:00:00Z"

  /** A free-text date (first character a letter) keeps only its last
      space-separated token, followed by 0101; an ISO date keeps what precedes
      the first 'T' with its dashes dropped. */
  function CreationDate(attribute: Option<string>): (r: Result<int>)
    ensures r == Failure(EmptyDate) <==> attribute == Some("")
    ensures r.Failure? ==> r.error == EmptyDate || r.error.NotAnInteger?
  {
    var cdate := if attribute.Some? then attribute.value else DawnOfTime;
    if |cdate| == 0 then Failure(EmptyDate)
    else if IsAlpha(cdate[0]) then ToInt(Last(Split(cdate, ' ')) + "0101")
    else ToInt(Remove(Split(cdate, 'T')[0], '-'))
  }

  lemma DigitsHaveNo(d: string, c: char)
    requires AllDigits(d) && !IsDigit(c)
    ensures c !in d
  {
  }

  /** The text before the first 'T' of an ISO timestamp is its date. */
  lemma IsoDayPart(y: string, m: string, d: string, rest: string)
    requires AllDigits(y) && AllDigits(m) && AllDigits(d)
    ensures Split(y + "-" + m + "-" + d + "T" + rest, 'T')[0] == y + "-" + m + "-" + d
  {
    var day := y + "-" + m + "-" + d;
    assert day + "T" + rest == day + ['T'] + rest;
    DigitsHaveNo(y, 'T');
    DigitsHaveNo(m, 'T');
    DigitsHaveNo(d, 'T');
    assert 'T' !in day;
    SplitAround(day, rest, 'T');
    SplitWhole(day, 'T');
  }

  /** Dropping the dashes of YYYY-MM-DD leaves YYYYMMDD. */
  lemma IsoDropDashes(y: string, m: string, d: string)
    requires AllDigits(y) && AllDigits(m) && AllDigits(d)
    ensures Remove(y + "-" + m + "-" + d, '-') == y + m + d
  {
    DigitsHaveNo(y, '-');
    DigitsHaveNo(m, '-');
    DigitsHaveNo(d, '-');
    RemoveAbsent(y, '-');
    RemoveAbsent(m, '-');
    RemoveAbsent(d, '-');
    RemoveConcat(y + "-" + m + "-", d, '-');
    RemoveConcat(y + "-" + m, "-", '-');
    RemoveConcat(y + "-", m, '-');
    RemoveConcat(y, "-", '-');
    assert Remove("-", '-') == "";
  }

  /** The number YYYYMMDD read from its three digit groups. */
  lemma IsoValue(y: string, m: string, d: string)
    requires |m| == 2 && |d| == 2
    requires AllDigits(y) && AllDigits(m) && AllDigits(d)
    ensures AllDigits(y + m + d)
    ensures ParseNat(y + m + d) == ParseNat(y) * 10000 + ParseNat(m) * 100 + ParseNat(d)
  {
    var ym := y + m;
    ParseNatConcat(y, m);
    ParseNatConcat(ym, d);
    assert y + m + d == ym + d;
    assert Pow10(|m|) == 100 && Pow10(|d|) == 100;
    Place(ParseNat(y), ParseNat(m), ParseNat(d), ParseNat(ym));
  }

  lemma Place(y: int, m: int, d: int, ym: int)
    requires ym == y * 100 + m
    ensures ym * 100 + d == y * 10000 + m * 100 + d
  {
  }

  /** A timestamp that does not start with a letter is read up to its first 'T'. */
  lemma CreationDateNotFreeText(stamp: string)
    requires |stamp| > 0 && !IsAlpha(stamp[0])
    ensures CreationDate(Some(stamp)) == ToInt(Remove(Split(stamp, 'T')[0], '-'))
  {
  }

  /** What the ISO branch reads of YYYY-MM-DDT...: the digits YYYYMMDD. */
  lemma IsoDigits(y: string, m: string, d: string, rest: string)
    requires AllDigits(y) && AllDigits(m) && AllDigits(d)
    ensures Remove(Split(y + "-" + m + "-" + d + "T" + rest, 'T')[0], '-') == y + m + d
  {
    IsoDayPart(y, m, d, rest);
    IsoDropDashes(y, m, d);
  }

  /** int() of the digits YYYYMMDD. */
  lemma IsoInt(y: string, m: string, d: string)
    requires |y| > 0 && |m| == 2 && |d| == 2
    requires AllDigits(y) && AllDigits(m) && AllDigits(d)
    ensures ToInt(y + m + d) == Success(ParseNat(y) * 10000 + ParseNat(m) * 100 + ParseNat(d))
  {
    var digits := y + m + d;
    var value := ParseNat(y) * 10000 + ParseNat(m) * 100 + ParseNat(d);
    IsoValue(y, m, d);
    assert ParseNat(digits) == value;
    ParseIntDigits(digits);
  }

  /** An ISO timestamp YYYY-MM-DDT... becomes YYYYMMDD. */
  lemma CreationDateIso(y: string, m: string, d: string, rest: string)
    requires |y| > 0 && |m| == 2 && |d| == 2
    requires AllDigits(y) && AllDigits(m) && AllDigits(d)
    ensures CreationDate(Some(y + "-" + m + "-" + d + "T" + rest))
         == Success(ParseNat(y) * 10000 + ParseNat(m) * 100 + ParseNat(d))
  {
    var stamp := y + "-" + m + "-" + d + "T" + rest;
    assert stamp[0] == y[0] && IsDigit(y[0]);
    CreationDateNotFreeText(stamp);
    IsoDigits(y, m, d, rest);
    IsoInt(y, m, d);
  }

  lemma DawnOfTimeParts()
    ensures DawnOfTime == "1989" + "-" + "03" + "-" + "06" + "T" + "17:00:00Z"
    ensures AllDigits("1989") && AllDigits("03") && AllDigits("06")
  {
  }

  lemma DawnOfTimeValue()
    ensures ParseNat("1989") * 10000 + ParseNat("03") * 100 + ParseNat("06") == 19890306
  {
    FourDigits("1989");
    TwoDigits("03");
    TwoDigits("06");
  }

  /** A file without a creation_date counts as created on 6 March 1989. */
  lemma CreationDateMissing()
    ensures CreationDate(None) == Success(19890306)
  {
    DawnOfTimeParts();
    DawnOfTimeValue();
    CreationDateIso("1989", "03", "06", "17:00:00Z");
  }

  /** A free-text timestamp "... <year>" becomes <year>0101. */
  lemma {:induction false} CreationDateFreeText(words: string, year: string)
    requires |words| > 0 && IsAlpha(words[0])
    requires AllDigits(year)
    ensures CreationDate(Some(words + " " + year)) == Success(ParseNat(year) * 10000 + 101)
  {
    var stamp := words + " " + year;
    assert stamp == words + [' '] + year;
    DigitsHaveNo(year, ' ');
    SplitAround(words, year, ' ');
    SplitWhole(year, ' ');
    assert Last(Split(stamp, ' ')) == year;
    ParseNatConcat(year, "0101");
    FourDigits("0101");
    ParseIntDigits(year + "0101");
    assert stamp[0] == words[0];
  }

  lemma FreeTextExampleParts()
    ensures "Thu Aug 11 22:49:09 EST 2011" == "Thu Aug 11 22:49:09 EST" + " " + "2011"
    ensures AllDigits("2011") && ParseNat("2011") == 2011
  {
    FourDigits("2011");
  }

  /** The free-text example of the source's comment. */
  lemma CreationDateFreeTextExample()
    ensures CreationDate(Some("Thu Aug 11 22:49:09 EST 2011")) == Success(20110101)
  {
    FreeTextExampleParts();
    CreationDateFreeText("Thu Aug 11 22:49:09 EST", "2011");
  }

  /** An empty timestamp raises IndexError at cdate[0]. */
  lemma CreationDateEmpty()
    ensures CreationDate(Some("")) == Failure(EmptyDate)
  {
  }
}
