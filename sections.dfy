/** `check_sections`: the dictionary of section flags. The Email, Phone,
    Professional Email and LinkedIn flags come from regular expressions that
    this model does not contain; they are parameters. Education, Experience
    and Skills are substring tests on the lower-cased text. */
module Sections {
  import opened Text

  const Email := "Email"
  const Phone := "Phone"
  const ProfessionalEmail := "Professional Email"
  const LinkedIn := "LinkedIn"
  const Education := "Education"
  const Experience := "Experience"
  const Skills := "Skills"

  /** The keys of the dictionary `check_sections` returns. */
  const SectionNames: set<string> :=
    {Email, Phone, ProfessionalEmail, LinkedIn, Education, Experience, Skills}

  /** The seven keys are seven different strings. */
  lemma NamesDistinct()
    ensures |Email| == |Phone| == 5 && Email[0] != Phone[0]
    ensures |ProfessionalEmail| == 18 && |LinkedIn| == 8 && |Education| == 9
    ensures |Experience| == 10 && |Skills| == 6
    ensures |SectionNames| == 7
  {
  }

  const EducationKeywords: seq<string> :=
    ["education", "degree", "bachelor", "master", "phd", "b.sc", "m.sc", "mba",
     "btech", "b.e.", "b.e", "mtech"]

  const ExperienceKeywords: seq<string> :=
    ["experience", "work history", "employment", "positions", "career profile",
     "professional experience"]

  /** Some keyword of the list occurs somewhere in `low`. */
  ghost predicate Mentions(low: string, keywords: seq<string>) {
    exists k, j :: 0 <= k < |keywords| && OccursAt(low, keywords[k], j)
  }

  /** `any(kw in low for kw in keywords)`, keyword by keyword. */
  function AnyIn(keywords: seq<string>, low: string): (found: bool)
    ensures found <==> Mentions(low, keywords)
    decreases |keywords|
  {
    if keywords == [] then false
    else if Contains(low, keywords[0]) then true
    else
      var rest := AnyIn(keywords[1..], low);
      assert forall k :: 0 < k < |keywords| ==> keywords[k] == keywords[1..][k - 1];
      rest
  }

  /** Items 5 to 7 of `check_sections`: the three keyword flags, each a
      substring test on the lower-cased text. */
  method KeywordSections(text: string) returns (education: bool, experience: bool, skills: bool)
    ensures education == Mentions(Lower(text), EducationKeywords)
    ensures experience == Mentions(Lower(text), ExperienceKeywords)
    ensures skills == Mentions(Lower(text), ["skill"])
  {
    education := AnyIn(EducationKeywords, Lower(text));
    experience := AnyIn(ExperienceKeywords, Lower(text));
    skills := Contains(Lower(text), "skill");
    assert skills == Mentions(Lower(text), ["skill"]) by {
      assert ["skill"][0] == "skill";
    }
  }

  /** `check_sections(text)`, filling the dictionary one key at a time. */
  method CheckSections(text: string, email: bool, phone: bool, professionalEmail: bool, linkedIn: bool)
    returns (checks: map<string, bool>)
    ensures checks.Keys == SectionNames
    ensures checks[Email] == email && checks[Phone] == phone
    ensures checks[ProfessionalEmail] == professionalEmail && checks[LinkedIn] == linkedIn
    ensures checks[Education] == Mentions(Lower(text), EducationKeywords)
    ensures checks[Experience] == Mentions(Lower(text), ExperienceKeywords)
    ensures checks[Skills] == Mentions(Lower(text), ["skill"])
  {
    var education, experience, skills := KeywordSections(text);
    checks := map[];
    checks := checks[Email := email];
    checks := checks[Phone := phone];
    checks := checks[ProfessionalEmail := professionalEmail];
    checks := checks[LinkedIn := linkedIn];
    checks := checks[Education := education];
    checks := checks[Experience := experience];
    checks := checks[Skills := skills];
  }

  /** An occurrence of an occurrence is an occurrence. */
  lemma OccursWithin(s: string, outer: string, inner: string, j: int, i: int)
    requires OccursAt(s, outer, j) && OccursAt(outer, inner, i)
    ensures OccursAt(s, inner, j + i)
  {
    forall t | 0 <= t < |inner| ensures s[j + i + t] == inner[t] {
      assert inner[t] == outer[i..i + |inner|][t] == outer[i + t];
      assert outer[i + t] == s[j..j + |outer|][i + t];
    }
  }

  /** A keyword that contains another keyword of the same list adds nothing:
      dropping it leaves the answer unchanged. */
  lemma KeywordSubsumed(keywords: seq<string>, a: nat, b: nat, low: string)
    requires a < |keywords| && b < |keywords| && a != b
    requires Contains(keywords[b], keywords[a])
    ensures Mentions(low, keywords) <==> Mentions(low, keywords[..b] + keywords[b + 1..])
  {
    var rest := keywords[..b] + keywords[b + 1..];
    assert forall k :: 0 <= k < b ==> rest[k] == keywords[k];
    assert forall k :: b < k < |keywords| ==> rest[k - 1] == keywords[k];
    if Mentions(low, keywords) {
      var k, j :| 0 <= k < |keywords| && OccursAt(low, keywords[k], j);
      if k == b {
        var i :| OccursAt(keywords[b], keywords[a], i);
        OccursWithin(low, keywords[b], keywords[a], j, i);
        k := a;
        j := j + i;
      }
      assert OccursAt(low, rest[if k < b then k else k - 1], j);
    }
    if Mentions(low, rest) {
      var k, j :| 0 <= k < |rest| && OccursAt(low, rest[k], j);
      assert OccursAt(low, keywords[if k < b then k else k + 1], j);
    }
  }

  /** "professional experience" is redundant beside "experience". */
  lemma ProfessionalExperienceRedundant(low: string)
    ensures Mentions(low, ExperienceKeywords) <==> Mentions(low, ExperienceKeywords[..5])
  {
    var kws := ExperienceKeywords;
    assert kws[5][13..] == kws[0];
    assert OccursAt(kws[5], kws[0], 13);
    KeywordSubsumed(kws, 0, 5, low);
    assert kws[..5] + kws[6..] == kws[..5];
  }

  /** "b.e." is redundant beside "b.e". */
  lemma DottedDegreeRedundant(low: string)
    ensures Mentions(low, EducationKeywords) <==>
      Mentions(low, EducationKeywords[..9] + EducationKeywords[10..])
  {
    var kws := EducationKeywords;
    assert kws[9][..3] == kws[10];
    assert OccursAt(kws[9], kws[10], 0);
    KeywordSubsumed(kws, 10, 9, low);
  }
}
