# Resume quality checker — verified model of the scoring core

The resume quality checker reads a résumé, finds which sections it has,
counts its words and pages, estimates the years of experience, looks for
buzzwords, and combines these into a score from 0 to 100. This project
models that core in Dafny and proves what its rules promise:

- `check_sections`: the section dictionary. The Education, Experience and
  Skills flags are keyword substring tests. The Email, Phone, Professional
  Email and LinkedIn flags are parameters.
- `word_page_count`: whitespace tokenisation as `str.split()` does it, and
  the 500-words-per-page estimate.
- `count_years_experience`: the `19xx`/`20xx` year scan, the
  "N year(s)" phrase scan, and how the two combine.
- `buzzword_check`: the fixed 65-entry vocabulary. One-token entries are
  matched between `\b` word boundaries; other entries are plain substrings.
- `calculate_score`: the additive score, clamped to 0..100.

Modules, one per file:

- `Text`: character classes, ASCII lower-casing, substring search.
- `Words`: `str.split()` and the page count.
- `Experience`: the two scans and their precedence.
- `ExperienceExamples`: the precedence worked out on small texts.
- `Buzzwords`: the vocabulary, the entry test and the loop.
- `Sections`: the section dictionary.
- `Scoring`: the score.

The methods follow the code where it changes state step by step:

- `Sections.CheckSections` fills the dictionary key by key.
- `Buzzwords.FindEntries` is the loop that appends to `found`.
- `Scoring.CalculateScore` accumulates into `score`.

Each method is proved against a specification function: `Mentions`,
`Matched` and `Score` respectively. The properties the code promises are
lemmas about those functions.

### Consequences of the code

- **Years before phrases.** Two or more year matches take precedence over
  any "N years" phrase, repeats included. "2020 2020" gives 0
  (`ExperienceExamples.RepeatedYearGivesZero`). "10 years: 2015-2020" gives
  5, not 10 (`ExperienceExamples.YearSpanWinsOverPhrase`).
- **Case in the phrase scan.** The phrase pattern at
  resume_quality_checker.py:88 runs on the original text, not the
  lower-cased one, so "7 Years" is not matched
  (`ExperienceExamples.CapitalisedYearsNotMatched`).
- **Email flags.** Email and Professional Email are both counted by the
  `sum` at resume_quality_checker.py:135, so a webmail address alone scores
  10 (`Scoring.ConsumerEmailScenario`). A business address earns 10 for
  Email, 10 for Professional Email and 5 for the bonus at :137-138; with
  Education, Experience, Skills, 500 words and two buzzwords the score is 70
  (`Scoring.ProfessionalScenario`).
- **Page count.** The page count is always computed from the word count
  (resume_quality_checker.py:101).

## Model

| member | source | states |
|---|---|---|
| Text.LowerChar | resume_quality_checker.py:121 | Lower-casing a character maps each ASCII capital to its small letter (32 code points on), changes nothing else, leaves no capital, and keeps word and whitespace characters in their classes |
| Text.Lower | resume_quality_checker.py:121 | `text.lower()` keeps the length and lower-cases every position |
| Text.SearchFrom | resume_quality_checker.py:129 | The search from index i succeeds iff the pattern occurs at some index at or after i |
| Text.Contains | resume_quality_checker.py:129 | `p in s` holds iff `p` occurs at some index of `s` |
| Words.TokenLength | resume_quality_checker.py:100 | The token prefix is whitespace-free and stops at whitespace or at the end |
| Words.Split | resume_quality_checker.py:100 | `str.split()` yields only non-empty tokens that contain no whitespace |
| Words.SplitToken | resume_quality_checker.py:100 | A token followed by whitespace or the end splits off as the first token |
| Words.SplitAtSpace | resume_quality_checker.py:100 | A whitespace character separates: splitting `a + [c] + b` gives the tokens of `a` followed by those of `b` |
| Words.SplitJoin | resume_quality_checker.py:100 | Splitting the single-space join of tokens gives the tokens back |
| Words.SplitKeepsText | resume_quality_checker.py:100 | The tokens laid end to end are exactly the non-whitespace characters of the text, in order |
| Words.PageCount | resume_quality_checker.py:101 | At least one page; one page exactly when there are at most 500 words; otherwise the least number of 500-word pages that holds the words |
| Words.WordPageCount | resume_quality_checker.py:99-102 | The word count is the number of `str.split()` tokens; the page count is at least 1, is 1 up to 500 words, and is the ceiling of words/500 |
| Experience.YearValue | resume_quality_checker.py:82-84 | A matched year is `int()` of its four digits, so it lies in 1900..2099 |
| Experience.YearMatches | resume_quality_checker.py:82-84 | Every year found lies in 1900..2099, and non-overlapping matches give at most one year per four characters |
| Experience.YearStarts | resume_quality_checker.py:82 | Each match the scan takes begins a `19dd`/`20dd` run and starts at least four characters after the previous one |
| Experience.YearMatchesAtStarts | resume_quality_checker.py:82-84 | The scan returns, in text order, exactly one year per match it takes, the value of the four digits there |
| Experience.YearStartsCover | resume_quality_checker.py:82 | Every index that begins a `19dd`/`20dd` run lies inside one of the matches the scan takes: no year is skipped except by overlap |
| Experience.YearMatchesEmpty | resume_quality_checker.py:82-83 | The year scan finds nothing iff no index starts a `19dd`/`20dd` run |
| Experience.DigitRun | resume_quality_checker.py:88 | The greedy `\d+` run is all digits and is followed by a non-digit or the end |
| Experience.SpaceRun | resume_quality_checker.py:88 | The greedy `\s+` run is all whitespace and is followed by non-whitespace or the end |
| Experience.PhraseAt | resume_quality_checker.py:88 | A phrase match consumes at least one character and no more than the text holds |
| Experience.PhraseAtMeaning | resume_quality_checker.py:88-89 | The pattern matches at the start iff the text begins with digits, then whitespace, then "year"; the match captures `int()` of those digits and consumes them, the whitespace and "year" or "years" |
| Experience.PhraseMatchesStep | resume_quality_checker.py:88 | One step of `findall`: after a match the scan resumes where it ended, otherwise one character on |
| Experience.PhraseValuesAtStarts | resume_quality_checker.py:88-89 | The phrase scan returns, in text order, one number per match it takes, the number the pattern captures there |
| Experience.PhraseStartsSpaced | resume_quality_checker.py:88 | The matches the phrase scan takes do not overlap: each ends at or before the next begins |
| Experience.PhraseStartsCover | resume_quality_checker.py:88 | Every index where the pattern matches lies inside one of the matches the scan takes |
| Experience.PhraseMatchesAtStarts | resume_quality_checker.py:88-89 | The three facts above together: what `re.findall(r'(\d+)\s+years?', text)` returns |
| Experience.PhraseMatchesEmpty | resume_quality_checker.py:88-89 | The phrase scan finds nothing iff the pattern matches at no index |
| Experience.Max | resume_quality_checker.py:86 | `max` returns an element that bounds every element from above |
| Experience.Min | resume_quality_checker.py:86 | `min` returns an element that bounds every element from below |
| Experience.CountYearsExperience | resume_quality_checker.py:80-91 | With two or more year matches: the difference between the largest and the smallest, at most 199, whatever the phrases say. Otherwise: the largest phrase number if there is one, else 0 |
| ExperienceExamples.RepeatedYearGivesZero | resume_quality_checker.py:82-86 | The same year twice is two matches and gives 0 |
| ExperienceExamples.YearSpanWinsOverPhrase | resume_quality_checker.py:82-90 | In "10 years: 2015-2020" the phrase matches with 10, yet the result is 5, from the span |
| ExperienceExamples.SingleYearFallsBackToPhrase | resume_quality_checker.py:88-90 | With a single year match, "3 years since 2019" gives 3, from the phrase |
| ExperienceExamples.CapitalisedYearsNotMatched | resume_quality_checker.py:88-91 | "7 Years" matches neither pattern and gives 0 |
| Buzzwords.BoundedSearchFrom | resume_quality_checker.py:126 | The bounded search from index i succeeds iff the entry occurs between `\b` boundaries at some index at or after i |
| Buzzwords.BoundedSearch | resume_quality_checker.py:126 | `re.search(r'\b'+re.escape(bw)+r'\b', low)` succeeds iff the entry occurs with a word boundary on both sides |
| Buzzwords.SingleTokenEntry | resume_quality_checker.py:125-127 | An entry that splits into one token is found iff it occurs between `\b` boundaries |
| Buzzwords.PhraseEntry | resume_quality_checker.py:128-130 | An entry of several space-separated tokens is found iff it is a substring |
| Buzzwords.NotInsideLongerWord | resume_quality_checker.py:126 | A one-token entry ending in a word character is not found where a word character follows it |
| Buzzwords.JavaNotInJavascript | resume_quality_checker.py:126 | "java" is not found in "javascript" |
| Buzzwords.TeamPlayerInParentheses | resume_quality_checker.py:129 | "team player" is found inside "(team player)" |
| Buzzwords.MatchedMembers | resume_quality_checker.py:122-131 | An entry is reported iff it is in the vocabulary and matches |
| Buzzwords.MatchedNoDuplicates | resume_quality_checker.py:122-131 | With a repeat-free vocabulary, no entry is reported twice |
| Buzzwords.MatchedInOrder | resume_quality_checker.py:122-131 | The report is a subsequence of the vocabulary, so vocabulary order is kept |
| Buzzwords.MatchedLength | resume_quality_checker.py:122-131 | The report is no longer than the vocabulary |
| Buzzwords.MatchedReport | resume_quality_checker.py:122-131 | Membership iff match, vocabulary order, no repeats from a repeat-free vocabulary, and bounded length, together |
| Buzzwords.FindEntries | resume_quality_checker.py:120-131 | The loop that appends each matching entry in turn returns exactly the matching entries in vocabulary order |
| Buzzwords.BuzzwordCheck | resume_quality_checker.py:104-131 | `buzzword_check` reports exactly the vocabulary entries that match the lower-cased text, in vocabulary order, each at most once, and no more entries than the vocabulary holds |
| Buzzwords.SymbolEndNeedsWordAfter | resume_quality_checker.py:126 | An entry ending in a non-word character is found only where a word character follows it |
| Buzzwords.CppMissedBeforeSpace | resume_quality_checker.py:126 | "c++" is not found in "c++ and java" |
| Buzzwords.DelimitedSearchFrom | resume_quality_checker.py:123 | The whole-word search from index i succeeds iff the entry occurs at some index at or after i with no word character beside it |
| Buzzwords.IntendedEntryMatches | resume_quality_checker.py:123-130 | One-token entries are found iff they occur with no word character directly before or after; phrases are found iff they are substrings |
| Buzzwords.DelimitedAgreesOnWordEnds | resume_quality_checker.py:126 | For an entry that begins and ends with a word character, whole-word matching and `\b` matching agree at every index |
| Buzzwords.IntendedFindsCpp | resume_quality_checker.py:123-127 | The whole-word test finds "c++" in "c++ and java" |
| Buzzwords.RulesAgreeOnWordEnds | resume_quality_checker.py:125-127 | For every one-token entry that begins and ends with a word character, the whole-word test gives the same answer as `\b` |
| Buzzwords.WholeWordBuzzwordCheck | resume_quality_checker.py:104-131 | With whole-word matching, the report keeps every property of `buzzword_check`: exact membership, vocabulary order, no repeats, bounded length |
| Sections.AnyIn | resume_quality_checker.py:67-70 | `any(kw in low for kw in keywords)` holds iff some keyword of the list occurs in the text |
| Sections.KeywordSections | resume_quality_checker.py:66-77 | Education, Experience and Skills hold iff a keyword from their list occurs in the lower-cased text; for Skills the list is just "skill" |
| Sections.CheckSections | resume_quality_checker.py:46-78 | The dictionary has exactly the seven section keys. The four regex flags are passed through. The keyword flags hold iff a keyword occurs in the lower-cased text |
| Sections.KeywordSubsumed | resume_quality_checker.py:67-75 | A keyword that contains another keyword of the same list can be dropped without changing the answer |
| Sections.ProfessionalExperienceRedundant | resume_quality_checker.py:74 | "professional experience" adds nothing beside "experience" |
| Sections.DottedDegreeRedundant | resume_quality_checker.py:69 | "b.e." adds nothing beside "b.e" |
| Scoring.TrueCount | resume_quality_checker.py:135 | The number of true flags is at most the number of keys |
| Scoring.SpellPenalty | resume_quality_checker.py:136 | The spelling penalty is never above 10: two points per error below five errors, 10 from five on |
| Scoring.LengthBonus | resume_quality_checker.py:139-140 | The length bonus is 10 iff the word count is from 300 to 1000, both included, and 0 otherwise |
| Scoring.BuzzwordBonus | resume_quality_checker.py:141-142 | No buzzwords give no bonus; otherwise the bonus is 3 plus the number found |
| Scoring.PagePenalty | resume_quality_checker.py:143-144 | Five points off iff there are more than two pages |
| Scoring.Clamp | resume_quality_checker.py:145 | The result lies in 0..100 and equals the input whenever the input does |
| Scoring.Score | resume_quality_checker.py:133-145 | The score is between 0 and 100 for every input |
| Scoring.CalculateScore | resume_quality_checker.py:133-145 | The step-by-step accumulation ends in 0..100 and equals the rule-by-rule score |
| Scoring.TrueCountRemove | resume_quality_checker.py:135 | Removing a key takes its flag out of the count |
| Scoring.TrueCountUpdate | resume_quality_checker.py:135 | Setting a flag changes the count by the flag it adds minus the one it replaces |
| Scoring.SectionFlagMonotone | resume_quality_checker.py:135-145 | Turning a flag on adds 10 before clamping (15 for Professional Email) and never lowers the score |
| Scoring.LengthBandEdges | resume_quality_checker.py:139-140 | 300 and 1000 words earn the bonus; 299 and 1001 do not |
| Scoring.SpellingMonotone | resume_quality_checker.py:136 | More spelling errors never raise the score; beyond five they no longer change it |
| Scoring.BuzzwordsMonotone | resume_quality_checker.py:141-142 | More buzzwords never lower the score |
| Scoring.RawScoreRange | resume_quality_checker.py:133-144 | For a seven-key section dictionary: at most 7 true flags, and the unclamped score lies between -15 and 85 plus the buzzword bonus |
| Scoring.SectionCount | resume_quality_checker.py:135 | For a seven-key section dictionary, the count of true flags is the number of its seven flags that hold |
| Scoring.ConsumerEmailScenario | resume_quality_checker.py:133-145 | A webmail address and no other section, 50 words, no errors or buzzwords: score 10 |
| Scoring.ProfessionalScenario | resume_quality_checker.py:133-145 | A business address, Education, Experience and Skills, 500 words on one page, two buzzwords, no errors: score 70 |

## Left out

- The Streamlit interface, per-file display and CSV export
  (resume_quality_checker.py:149-202): presentation only.
- Text extraction from PDF and DOCX files and the temporary files it
  uses (resume_quality_checker.py:13-45): file I/O and foreign parsers. The
  model starts from the extracted text.
- `spell_check` (resume_quality_checker.py:93-97): it calls the external
  LanguageTool service. The number of distinct misspelled words is a
  parameter of the score.
- The Email, Phone, Professional Email and LinkedIn regular expressions
  (resume_quality_checker.py:48-65): they are boolean parameters of
  `Sections.CheckSections`. So the model does not capture that Professional
  Email can only hold when Email does.
- Unicode in `str.lower()`, `\d` and `\w`: only the ASCII letters are
  lower-cased, and only ASCII digits and word characters are recognised.
  Whitespace is Python's full `str.isspace()` set, for both `str.split()`
  and `\s`.
- `int(word_count / 500)`: the floating-point division is modelled as
  exact integer division, which agrees for every word count a text can have.
- Scoring.CalculateScore: requires the Professional Email key (as do
  `Scoring.Score` and `Scoring.RawScore`). On a dictionary without it the
  lookup at resume_quality_checker.py:137 raises `KeyError`, which the model
  does not represent. `check_sections` always supplies the key
  (`Sections.CheckSections`).
- Buzzwords.BuzzwordCheck: the no-repeat guarantee is stated as "no
  repeats if the vocabulary has none". That the 65-entry vocabulary has no
  repeated entry is not proved: comparing all pairs of the literal list is
  beyond the verifier's resource budget.

## Findings

| source | as written | input that shows it | evidently intended | confidence | as-written member | corrected member |
|---|---|---|---|---|---|---|
| resume_quality_checker.py:125-127 | The entries "c++" and "c#" split into one token each, so they are searched as `\b` + entry + `\b`. After a non-word character, `\b` holds only before a word character. Such an entry is found only when a letter, digit or underscore follows it directly. | "c++ and java": "c++" is not reported | Whole-word matching, as the comment on line 123 says: no word character directly before or after the entry, so "c++" followed by a space is found | high; not executed | Buzzwords.CppMissedBeforeSpace | Buzzwords.IntendedFindsCpp |

`Buzzwords.SymbolEndNeedsWordAfter` states the as-written behaviour in
general. `Buzzwords.IntendedEntryMatches` is the corrected entry test.
`Buzzwords.RulesAgreeOnWordEnds` shows it changes nothing for entries that
begin and end with a word character. `Buzzwords.WholeWordBuzzwordCheck` is
the check with the correction, and it keeps every proved property of the
original.
