/** The precedence of `count_years_experience` worked out on small texts.
    Each text is a parameter fixed by the precondition, so that the verifier
    unfolds the scans only as far as each proof asks. */
module ExperienceExamples {
  import opened Text
  import opened Experience

  /** Text without digits matches neither pattern. */
  lemma {:induction false} NoDigitsNoMatches(s: string)
    requires forall i :: 0 <= i < |s| ==> !IsDigit(s[i])
    ensures YearMatches(s) == [] && PhraseMatches(s) == []
    decreases |s|
  {
    if s != [] {
      NoDigitsNoMatches(s[1..]);
    }
  }

  /** Indices that start no year are skipped by the scan. */
  lemma {:induction false} YearMatchesSkip(s: string, k: nat)
    requires k <= |s|
    requires forall i :: 0 <= i < k ==> !YearAt(s, i)
    ensures YearMatches(s) == YearMatches(s[k..])
    decreases k
  {
    if k > 0 {
      assert !YearAt(s, 0);
      forall i | 0 <= i < k - 1 ensures !YearAt(s[1..], i) {
        assert YearAt(s[1..], i) ==> YearAt(s, i + 1);
      }
      YearMatchesSkip(s[1..], k - 1);
      assert s[1..][k - 1..] == s[k..];
    }
  }

  /** After a phrase match the scan resumes where the match ended. */
  lemma PhraseMatchesResume(s: string, n: nat, len: nat)
    requires s != [] && PhraseAt(s) == Phrase(n, len)
    ensures PhraseMatches(s) == [n] + PhraseMatches(s[len..])
  {
  }

  /** Repeats count towards "two or more years": the same year twice gives 0. */
  lemma RepeatedYearGivesZero(s: string)
    requires s == "2020 2020"
    ensures CountYearsExperience(s) == 0
  {
    assert YearAt(s, 0);
    YearMatchesSkip(s[4..], 1);
    assert s[4..][1..] == "2020";
    assert YearMatches(s) == [2020, 2020];
  }

  lemma {:induction false} TwoYearsAtEnd(t: string)
    requires t == "2015-2020"
    ensures YearMatches(t) == [2015, 2020]
  {
    assert YearAt(t, 0) && YearValue(t, 0) == 2015;
    var u := t[4..];
    assert YearMatches(t) == [2015] + YearMatches(u);
    assert !YearAt(u, 0);
    YearMatchesSkip(u, 1);
    assert u[1..] == "2020";
  }

  lemma {:induction false} SpanYears(s: string)
    requires s == "10 years: 2015-2020"
    ensures YearMatches(s) == [2015, 2020]
  {
    assert forall i :: 0 <= i < 10 ==> !YearAt(s, i);
    YearMatchesSkip(s, 10);
    TwoYearsAtEnd(s[10..]);
  }

  lemma TenValue(ds: string)
    requires ds == "10"
    ensures DigitsValue(ds) == 10
  {
    var one := ds[..1];
    assert one == "1" && one[..0] == [];
    assert DigitsValue(one) == DigitsValue(one[..0]) * 10 + DigitValue('1') == 1;
    assert DigitsValue(ds) == DigitsValue(one) * 10 + DigitValue('0');
  }

  lemma TenYearsShape(s: string)
    requires s == "10 years: 2015-2020"
    ensures PhraseShape(s, 2, 1) && s[..2] == "10" && 7 < |s| && s[7] == 's'
  {
    assert s[3..7] == "year";
  }

  lemma TenYearsAtStart(s: string)
    requires s == "10 years: 2015-2020"
    ensures PhraseAt(s) == Phrase(10, 8)
  {
    TenYearsShape(s);
    PhraseAtMeaning(s);
    TenValue(s[..2]);
  }

  /** A span of years wins over an explicit "N years" phrase, even though
      the phrase says 10 and the span gives 5. */
  lemma YearSpanWinsOverPhrase(s: string)
    requires s == "10 years: 2015-2020"
    ensures PhraseAt(s) == Phrase(10, 8)
    ensures CountYearsExperience(s) == 5
  {
    TenYearsAtStart(s);
    SpanYears(s);
  }

  /** A year not preceded by a number and whitespace is no phrase. */
  lemma SinceYearHasNoPhrase(s: string)
    requires s == "3 years since 2019"
    ensures PhraseMatches(s[7..]) == []
  {
    var rest := s[7..];
    forall i | 0 <= i < |rest| ensures PhraseAt(rest[i..]).NoPhrase? {
      if i < 7 {
        assert !IsDigit(rest[i..][0]);
      } else {
        assert DigitRun(rest[i..]) == |rest| - i;
        assert rest[i..][|rest| - i..] == [];
      }
    }
    PhraseMatchesEmpty(rest);
  }

  lemma {:induction false} SingleYear(s: string)
    requires s == "3 years since 2019"
    ensures YearMatches(s) == [2019]
  {
    YearMatchesSkip(s, 14);
    assert s[14..] == "2019";
  }

  lemma ThreeYearsShape(s: string)
    requires s == "3 years since 2019"
    ensures PhraseShape(s, 1, 1) && s[..1] == "3" && 6 < |s| && s[6] == 's'
  {
    assert s[2..6] == "year";
  }

  lemma ThreeYearsAtStart(s: string)
    requires s == "3 years since 2019"
    ensures PhraseAt(s) == Phrase(3, 7)
  {
    ThreeYearsShape(s);
    PhraseAtMeaning(s);
    var ds := s[..1];
    assert DigitsValue(ds) == DigitsValue(ds[..0]) * 10 + DigitValue('3');
  }

  /** With a single year the phrase decides. */
  lemma SingleYearFallsBackToPhrase(s: string)
    requires s == "3 years since 2019"
    ensures CountYearsExperience(s) == 3
  {
    SingleYear(s);
    ThreeYearsAtStart(s);
    PhraseMatchesResume(s, 3, 7);
    SinceYearHasNoPhrase(s);
  }

  /** The phrase pattern is matched on the original text and is
      case-sensitive: "Years" is not "years". */
  lemma CapitalisedYearsNotMatched(s: string)
    requires s == "7 Years"
    ensures CountYearsExperience(s) == 0
  {
    assert DigitRun(s) == 1;
    assert SpaceRun(s[1..]) == 1;
    assert s[2] == 'Y';
    assert PhraseAt(s) == NoPhrase;
    NoDigitsNoMatches(s[1..]);
    YearMatchesSkip(s, 1);
  }
}
