/** `calculate_score`: the 0-100 quality score from the section flags, the
    number of distinct misspelled words, the word and page counts and the
    buzzwords found. */
module Scoring {
  import opened Sections

  /** `sum(sections.values())`: the number of flags that hold. */
  function TrueCount(sections: map<string, bool>): (n: nat)
    ensures n <= |sections.Keys|
  {
    var holding := set k | k in sections && sections[k];
    assert holding <= sections.Keys;
    SubsetCard(holding, sections.Keys);
    |holding|
  }

  lemma {:induction false} SubsetCard<T>(a: set<T>, b: set<T>)
    requires a <= b
    ensures |a| <= |b|
    decreases |b|
  {
    if b != {} {
      var x :| x in b;
      SubsetCard(a - {x}, b - {x});
    }
  }

  /** `min(spell_errors, 5) * 2`: two points per misspelled word, for at most
      five words. */
  function SpellPenalty(errors: nat): (p: nat)
    ensures p <= 10
    ensures errors >= 5 ==> p == 10
    ensures errors < 5 ==> p == 2 * errors
  {
    (if errors < 5 then errors else 5) * 2
  }

  /** Ten points for a length between 300 and 1000 words, bounds included. */
  function LengthBonus(wordCount: nat): (b: nat)
    ensures b == 10 <==> 300 <= wordCount <= 1000
    ensures b == 0 <==> !(300 <= wordCount <= 1000)
  {
    if 300 <= wordCount <= 1000 then 10 else 0
  }

  /** `3 + len(buzzwords)` when any buzzword was found, else nothing. */
  function BuzzwordBonus(buzzwords: seq<string>): (b: nat)
    ensures buzzwords == [] <==> b == 0
    ensures buzzwords != [] ==> b == 3 + |buzzwords|
  {
    if buzzwords == [] then 0 else 3 + |buzzwords|
  }

  /** Five points off for more than two pages. */
  function PagePenalty(pageCount: nat): (p: nat)
    ensures p == 5 <==> pageCount > 2
    ensures p == 0 <==> pageCount <= 2
  {
    if pageCount > 2 then 5 else 0
  }

  /** The score before it is clamped to 0..100. */
  function RawScore(sections: map<string, bool>, errors: nat, wordCount: nat, pageCount: nat,
                    buzzwords: seq<string>): int
    requires ProfessionalEmail in sections
  {
    TrueCount(sections) * 10 - SpellPenalty(errors)
    + (if sections[ProfessionalEmail] then 5 else 0)
    + LengthBonus(wordCount) + BuzzwordBonus(buzzwords) - PagePenalty(pageCount)
  }

  /** `max(0, min(100, x))`. */
  function Clamp(x: int): (c: int)
    ensures 0 <= c <= 100
    ensures 0 <= x <= 100 ==> c == x
    ensures x < 0 ==> c == 0
    ensures x > 100 ==> c == 100
  {
    if x < 0 then 0 else if x > 100 then 100 else x
  }

  function Score(sections: map<string, bool>, errors: nat, wordCount: nat, pageCount: nat,
                 buzzwords: seq<string>): (s: int)
    requires ProfessionalEmail in sections
    ensures 0 <= s <= 100
  {
    Clamp(RawScore(sections, errors, wordCount, pageCount, buzzwords))
  }

  /** `calculate_score(sections, spell_errors, word_count, page_count,
      buzzwords)`, accumulating into `score` one rule at a time. The lookup of
      the Professional Email flag fails on a dictionary without that key. */
  method CalculateScore(sections: map<string, bool>, errors: nat, wordCount: nat, pageCount: nat,
                        buzzwords: seq<string>) returns (score: int)
    requires ProfessionalEmail in sections
    ensures 0 <= score <= 100
    ensures score == Score(sections, errors, wordCount, pageCount, buzzwords)
  {
    score := 0;
    score := score + TrueCount(sections) * 10;
    score := score - (if errors < 5 then errors else 5) * 2;
    if sections[ProfessionalEmail] {
      score := score + 5;
    }
    if 300 <= wordCount <= 1000 {
      score := score + 10;
    }
    if buzzwords != [] {
      score := score + 3 + |buzzwords|;
    }
    if pageCount > 2 {
      score := score - 5;
    }
    score := if score > 100 then 100 else score;
    score := if score < 0 then 0 else score;
  }

  // ---------------------------------------------------------------------
  // Properties of the scoring rules.

  /** Changing one flag changes the count of true flags by what it adds and
      what it removes. */
  lemma TrueCountUpdate(sections: map<string, bool>, k: string, v: bool)
    ensures TrueCount(sections[k := v]) + (if k in sections && sections[k] then 1 else 0)
         == TrueCount(sections) + (if v then 1 else 0)
  {
    var updated := sections[k := v];
    TrueCountRemove(updated, k);
    assert updated - {k} == sections - {k};
    if k in sections {
      TrueCountRemove(sections, k);
    } else {
      assert sections - {k} == sections;
    }
  }

  /** Turning a section flag on never lowers the score. Before clamping it
      gains 10 points, or 15 for Professional Email (its flag and its bonus). */
  lemma SectionFlagMonotone(sections: map<string, bool>, k: string, errors: nat, wordCount: nat,
                            pageCount: nat, buzzwords: seq<string>)
    requires ProfessionalEmail in sections && k in sections && !sections[k]
    ensures RawScore(sections[k := true], errors, wordCount, pageCount, buzzwords)
         == RawScore(sections, errors, wordCount, pageCount, buzzwords)
            + (if k == ProfessionalEmail then 15 else 10)
    ensures Score(sections[k := true], errors, wordCount, pageCount, buzzwords)
         >= Score(sections, errors, wordCount, pageCount, buzzwords)
  {
    TrueCountUpdate(sections, k, true);
  }

  /** The length bonus band is closed at both ends. */
  lemma LengthBandEdges()
    ensures LengthBonus(300) == 10 && LengthBonus(1000) == 10
    ensures LengthBonus(299) == 0 && LengthBonus(1001) == 0
  {
  }

  /** More misspelled words never raise the score, and past five they no
      longer lower it. */
  lemma SpellingMonotone(sections: map<string, bool>, fewer: nat, more: nat, wordCount: nat,
                         pageCount: nat, buzzwords: seq<string>)
    requires ProfessionalEmail in sections && fewer <= more
    ensures Score(sections, more, wordCount, pageCount, buzzwords)
         <= Score(sections, fewer, wordCount, pageCount, buzzwords)
    ensures fewer >= 5 ==>
      (Score(sections, more, wordCount, pageCount, buzzwords)
       == Score(sections, fewer, wordCount, pageCount, buzzwords))
  {
  }

  /** Finding more buzzwords never lowers the score. */
  lemma BuzzwordsMonotone(sections: map<string, bool>, errors: nat, wordCount: nat, pageCount: nat,
                          found: seq<string>, more: seq<string>)
    requires ProfessionalEmail in sections && |found| <= |more|
    ensures Score(sections, errors, wordCount, pageCount, found)
         <= Score(sections, errors, wordCount, pageCount, more)
  {
  }

  /** For the dictionary `check_sections` builds, the flags contribute at
      most 70 points and the score before clamping lies between -15 and
      85 plus the buzzword bonus. */
  lemma RawScoreRange(sections: map<string, bool>, errors: nat, wordCount: nat, pageCount: nat,
                      buzzwords: seq<string>)
    requires sections.Keys == SectionNames
    ensures TrueCount(sections) <= 7
    ensures -15 <= RawScore(sections, errors, wordCount, pageCount, buzzwords)
                <= 85 + BuzzwordBonus(buzzwords)
  {
  }

  function Ind(b: bool): nat {
    if b then 1 else 0
  }

  /** Removing one key takes its flag out of the count. */
  lemma TrueCountRemove(sections: map<string, bool>, k: string)
    requires k in sections
    ensures TrueCount(sections) == TrueCount(sections - {k}) + Ind(sections[k])
  {
    var rest := sections - {k};
    var before := set x | x in sections && sections[x];
    var after := set x | x in rest && rest[x];
    assert after == before - {k};
    if sections[k] {
      assert before == after + {k};
    }
  }

  /** The three keyword flags, counted. */
  lemma KeywordFlagCount(flags: map<string, bool>)
    requires flags.Keys == {Education, Experience, Skills}
    ensures TrueCount(flags) == Ind(flags[Education]) + Ind(flags[Experience]) + Ind(flags[Skills])
  {
    NamesDistinct();
    var m1 := flags - {Education};
    var m2 := m1 - {Experience};
    TrueCountRemove(flags, Education);
    TrueCountRemove(m1, Experience);
    TrueCountRemove(m2, Skills);
    assert (m2 - {Skills}).Keys == {};
  }

  /** For the dictionary `check_sections` returns, the number of true flags
      is the number of detections that held. */
  lemma SectionCount(sections: map<string, bool>)
    requires sections.Keys == SectionNames
    ensures TrueCount(sections) == Ind(sections[Email]) + Ind(sections[Phone])
              + Ind(sections[ProfessionalEmail]) + Ind(sections[LinkedIn])
              + Ind(sections[Education]) + Ind(sections[Experience]) + Ind(sections[Skills])
  {
    NamesDistinct();
    var m1 := sections - {Email};
    var m2 := m1 - {Phone};
    var m3 := m2 - {ProfessionalEmail};
    var m4 := m3 - {LinkedIn};
    TrueCountRemove(sections, Email);
    TrueCountRemove(m1, Phone);
    TrueCountRemove(m2, ProfessionalEmail);
    TrueCountRemove(m3, LinkedIn);
    assert m4.Keys == {Education, Experience, Skills};
    KeywordFlagCount(m4);
  }

  /** A consumer address and nothing else, 50 words, no buzzwords: the Email
      flag alone gives 10 points. */
  lemma ConsumerEmailScenario(sections: map<string, bool>)
    requires sections.Keys == SectionNames
    requires sections[Email] && !sections[Phone] && !sections[ProfessionalEmail]
    requires !sections[LinkedIn] && !sections[Education] && !sections[Experience] && !sections[Skills]
    ensures Score(sections, 0, 50, 1, []) == 10
  {
    SectionCount(sections);
  }

  /** A business address, Education, Experience and Skills, 500 words on one
      page, two buzzwords: 50 + 5 + 10 + 5 = 70. */
  lemma ProfessionalScenario(sections: map<string, bool>)
    requires sections.Keys == SectionNames
    requires sections[Email] && !sections[Phone] && sections[ProfessionalEmail]
    requires !sections[LinkedIn] && sections[Education] && sections[Experience] && sections[Skills]
    ensures Score(sections, 0, 500, 1, ["python", "sql"]) == 70
  {
    SectionCount(sections);
  }
}
