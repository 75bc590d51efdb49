/** `buzzword_check`: which entries of a fixed vocabulary occur in the
    lower-cased text. An entry that `str.split()` leaves as one token must
    occur between regex word boundaries `\b`; any other entry is a plain
    substring test. */
module Buzzwords {
  import opened Text
  import Words

  /** The vocabulary, in the order the source lists it. */
  const Vocabulary: seq<string> := [
    // soft skills and adjectives
    "team player", "self-motivated", "leadership", "synergy", "proactive", "hardworking",
    "dynamic", "results-driven", "detail-oriented", "innovative", "strategic", "goal oriented",
    "motivated", "passionate", "responsible", "organized", "adaptable", "communication",
    "problem solving", "critical thinking", "flexible", "fast learner",
    // technical skills
    "python", "java", "c++", "c#", "javascript", "sql", "excel", "tableau", "powerbi", "aws",
    "azure", "docker", "kubernetes", "react", "node", "git", "jira", "linux", "agile", "scrum",
    "html", "css", "typescript",
    // certifications and roles
    "pmp", "six sigma", "aws certified", "data analyst", "business analyst", "product manager",
    "devops", "cloud", "machine learning", "artificial intelligence", "deep learning", "nlp",
    "data science", "web development",
    // miscellaneous
    "project management", "client relations", "stakeholder engagement", "negotiation",
    "training", "mentoring"
  ]

  predicate NoDuplicates<T(==)>(xs: seq<T>) {
    forall i, j :: 0 <= i < j < |xs| ==> xs[i] != xs[j]
  }

  /** `xs` is `ys` with some elements left out and the rest kept in order
      (matched greedily from the end). */
  predicate IsSubsequence<T(==)>(xs: seq<T>, ys: seq<T>)
    decreases |ys|
  {
    if xs == [] then true
    else if ys == [] then false
    else if xs[|xs| - 1] == ys[|ys| - 1] then IsSubsequence(xs[..|xs| - 1], ys[..|ys| - 1])
    else IsSubsequence(xs, ys[..|ys| - 1])
  }

  // ---------------------------------------------------------------------
  // Matching one entry.

  /** The regex assertion `\b` at index `i` (0 <= i <= |s|): exactly one of
      the characters on either side is a word character; outside the text
      counts as a non-word character. */
  predicate WordBoundary(s: string, i: int) {
    (0 < i <= |s| && IsWordChar(s[i - 1])) != (0 <= i < |s| && IsWordChar(s[i]))
  }

  /** `\b` + `p` + `\b` matches at index `i`. */
  predicate BoundedAt(s: string, p: string, i: int) {
    OccursAt(s, p, i) && WordBoundary(s, i) && WordBoundary(s, i + |p|)
  }

  function BoundedSearchFrom(s: string, p: string, i: nat): (found: bool)
    ensures found <==> exists j :: i <= j && BoundedAt(s, p, j)
    decreases |s| - i
  {
    if i + |p| > |s| then false
    else if s[i..i + |p|] == p && WordBoundary(s, i) && WordBoundary(s, i + |p|) then
      assert BoundedAt(s, p, i); true
    else BoundedSearchFrom(s, p, i + 1)
  }

  /** `re.search(r'\b' + re.escape(p) + r'\b', s)` succeeds. */
  function BoundedSearch(s: string, p: string): (found: bool)
    ensures found <==> exists j :: BoundedAt(s, p, j)
  {
    BoundedSearchFrom(s, p, 0)
  }

  /** The test the loop body applies to entry `bw` and the lower-cased text:
      `len(bw.split()) == 1` selects the bounded search. */
  function EntryMatches(bw: string, low: string): bool {
    if |Words.Split(bw)| == 1 then BoundedSearch(low, bw) else Contains(low, bw)
  }

  /** A one-token entry is searched between word boundaries. */
  lemma SingleTokenEntry(bw: string, low: string)
    requires Words.IsToken(bw)
    ensures EntryMatches(bw, low) <==> exists j :: BoundedAt(low, bw, j)
  {
    Words.SplitToken(bw, []);
    assert bw + [] == bw;
  }

  /** An entry of two or more tokens separated by single spaces is a plain
      substring test, whatever surrounds it. */
  lemma PhraseEntry(ws: seq<string>, low: string)
    requires |ws| >= 2
    requires forall k :: 0 <= k < |ws| ==> Words.IsToken(ws[k])
    ensures EntryMatches(Words.Join(ws), low) <==> exists j :: OccursAt(low, Words.Join(ws), j)
  {
    Words.SplitJoin(ws);
  }

  /** A one-token entry ending in a word character is never found inside a
      longer word: a match needs a non-word character, or the end of the
      text, right after it. */
  lemma NotInsideLongerWord(s: string, p: string, i: int)
    requires p != [] && IsWordChar(p[|p| - 1])
    requires OccursAt(s, p, i) && i + |p| < |s| && IsWordChar(s[i + |p|])
    ensures !BoundedAt(s, p, i)
  {
  }

  /** "java" is not found inside "javascript". */
  lemma JavaNotInJavascript(bw: string, low: string)
    requires bw == "java" && low == "javascript"
    ensures !EntryMatches(bw, low)
  {
    SingleTokenEntry(bw, low);
    JavaOnlyAtStart(bw, low);
    assert low[..4] == bw;
    NotInsideLongerWord(low, bw, 0);
  }

  lemma JavaOnlyAtStart(bw: string, low: string)
    requires bw == "java" && low == "javascript"
    ensures forall j :: OccursAt(low, bw, j) ==> j == 0
  {
    forall j | OccursAt(low, bw, j) ensures j == 0 {
      assert low[j] == low[j..j + 4][0] == 'j';
    }
  }

  /** A two-word entry is found whatever punctuation surrounds it. */
  /** "team player" is the single-space join of two tokens. */
  lemma TeamPlayerTokens(bw: string)
    requires bw == "team player"
    ensures Words.IsToken(bw[..4]) && Words.IsToken(bw[5..])
    ensures Words.Join([bw[..4], bw[5..]]) == bw
  {
    var ws := [bw[..4], bw[5..]];
    assert ws[1..] == [bw[5..]];
    assert bw == ws[0] + " " + ws[1];
  }

  lemma TeamPlayerInParentheses(bw: string, low: string)
    requires bw == "team player" && low == "(team player)"
    ensures EntryMatches(bw, low)
  {
    TeamPlayerTokens(bw);
    TeamPlayerOccurs(bw, low);
    PhraseEntry([bw[..4], bw[5..]], low);
  }

  lemma TeamPlayerOccurs(bw: string, low: string)
    requires bw == "team player" && low == "(team player)"
    ensures OccursAt(low, bw, 1)
  {
    assert low[1..1 + |bw|] == bw;
  }

  // ---------------------------------------------------------------------
  // The loop over the vocabulary.

  /** The entry test the loop applies: `\b` matching as written, or the
      whole-word matching evidently intended (see below). */
  datatype Rule = AsWritten | WholeWord

  function Accepts(rule: Rule, bw: string, low: string): bool {
    match rule
    case AsWritten => EntryMatches(bw, low)
    case WholeWord => IntendedEntryMatches(bw, low)
  }

  /** The entries of `vocab` that `rule` accepts in `low`, in vocabulary
      order. */
  function Matched(vocab: seq<string>, low: string, rule: Rule): seq<string>
    decreases |vocab|
  {
    if vocab == [] then []
    else
      var last := vocab[|vocab| - 1];
      Matched(vocab[..|vocab| - 1], low, rule) + (if Accepts(rule, last, low) then [last] else [])
  }

  /** Exactly the matching entries are reported. */
  lemma {:induction false} MatchedMembers(vocab: seq<string>, low: string, rule: Rule)
    ensures forall bw :: bw in Matched(vocab, low, rule) <==> bw in vocab && Accepts(rule, bw, low)
    decreases |vocab|
  {
    if vocab != [] {
      var init := vocab[..|vocab| - 1];
      MatchedMembers(init, low, rule);
      assert vocab == init + [vocab[|vocab| - 1]];
    }
  }

  /** No entry is reported twice when the vocabulary has no repeats. */
  lemma {:induction false} MatchedNoDuplicates(vocab: seq<string>, low: string, rule: Rule)
    requires NoDuplicates(vocab)
    ensures NoDuplicates(Matched(vocab, low, rule))
    decreases |vocab|
  {
    if vocab != [] {
      var init := vocab[..|vocab| - 1];
      var last := vocab[|vocab| - 1];
      MatchedNoDuplicates(init, low, rule);
      MatchedMembers(init, low, rule);
      assert last !in init;
    }
  }

  lemma {:induction false} SubsequenceExtend<T>(xs: seq<T>, ys: seq<T>, z: T)
    requires IsSubsequence(xs, ys)
    ensures IsSubsequence(xs, ys + [z])
    decreases |ys|, 1
  {
    assert (ys + [z])[..|ys|] == ys;
    if xs != [] && xs[|xs| - 1] == z {
      SubsequenceDropLast(xs, ys);
    }
  }

  lemma {:induction false} SubsequenceDropLast<T>(xs: seq<T>, ys: seq<T>)
    requires xs != [] && IsSubsequence(xs, ys)
    ensures IsSubsequence(xs[..|xs| - 1], ys)
    decreases |ys|, 0
  {
    var ys' := ys[..|ys| - 1];
    assert ys == ys' + [ys[|ys| - 1]];
    if xs[|xs| - 1] == ys[|ys| - 1] {
      SubsequenceExtend(xs[..|xs| - 1], ys', ys[|ys| - 1]);
    } else {
      SubsequenceDropLast(xs, ys');
      SubsequenceExtend(xs[..|xs| - 1], ys', ys[|ys| - 1]);
    }
  }

  /** The report keeps vocabulary order. */
  lemma {:induction false} MatchedInOrder(vocab: seq<string>, low: string, rule: Rule)
    ensures IsSubsequence(Matched(vocab, low, rule), vocab)
    decreases |vocab|
  {
    if vocab != [] {
      var init := vocab[..|vocab| - 1];
      var last := vocab[|vocab| - 1];
      MatchedInOrder(init, low, rule);
      assert vocab == init + [last];
      if Accepts(rule, last, low) {
        var m := Matched(init, low, rule) + [last];
        assert Matched(vocab, low, rule) == m;
        assert m[..|m| - 1] == Matched(init, low, rule);
      } else {
        assert Matched(vocab, low, rule) == Matched(init, low, rule) + [];
        assert Matched(init, low, rule) + [] == Matched(init, low, rule);
        SubsequenceExtend(Matched(init, low, rule), init, last);
      }
    }
  }

  /** The loop of `buzzword_check`: walks `vocab` in order and appends each
      entry that matches `low`. */
  method FindEntries(vocab: seq<string>, low: string, rule: Rule) returns (found: seq<string>)
    ensures found == Matched(vocab, low, rule)
  {
    found := [];
    var k := 0;
    while k < |vocab|
      invariant 0 <= k <= |vocab|
      invariant found == Matched(vocab[..k], low, rule)
    {
      var bw := vocab[k];
      assert vocab[..k + 1][..k] == vocab[..k];
      if Accepts(rule, bw, low) {
        found := found + [bw];
      }
      k := k + 1;
    }
    assert vocab[..k] == vocab;
  }

  /** `buzzword_check(text)`: the vocabulary entries found in the lower-cased
      text, in vocabulary order. */
  method BuzzwordCheck(text: string) returns (found: seq<string>)
    ensures found == Matched(Vocabulary, Lower(text), AsWritten)
    ensures forall bw :: bw in found <==> bw in Vocabulary && EntryMatches(bw, Lower(text))
    ensures IsSubsequence(found, Vocabulary)
    ensures NoDuplicates(Vocabulary) ==> NoDuplicates(found)
    ensures |found| <= |Vocabulary|
  {
    var low := Lower(text);
    found := FindEntries(Vocabulary, low, AsWritten);
    MatchedReport(Vocabulary, low, AsWritten);
  }

  /** What the loop's result promises, for any vocabulary. */
  lemma MatchedReport(vocab: seq<string>, low: string, rule: Rule)
    ensures forall bw :: bw in Matched(vocab, low, rule) <==> bw in vocab && Accepts(rule, bw, low)
    ensures IsSubsequence(Matched(vocab, low, rule), vocab)
    ensures NoDuplicates(vocab) ==> NoDuplicates(Matched(vocab, low, rule))
    ensures |Matched(vocab, low, rule)| <= |vocab|
  {
    MatchedMembers(vocab, low, rule);
    MatchedInOrder(vocab, low, rule);
    if NoDuplicates(vocab) {
      MatchedNoDuplicates(vocab, low, rule);
    }
    MatchedLength(vocab, low, rule);
  }

  lemma {:induction false} MatchedLength(vocab: seq<string>, low: string, rule: Rule)
    ensures |Matched(vocab, low, rule)| <= |vocab|
    decreases |vocab|
  {
    if vocab != [] {
      MatchedLength(vocab[..|vocab| - 1], low, rule);
    }
  }

  // ---------------------------------------------------------------------
  // Entries that end in a non-word character ("c++", "c#").

  /** As written, `\b` after an entry that ends in a non-word character
      holds only before a word character: such an entry is found only when a
      letter, digit or underscore follows it directly. */
  lemma SymbolEndNeedsWordAfter(s: string, p: string, i: int)
    requires p != [] && !IsWordChar(p[|p| - 1])
    requires BoundedAt(s, p, i)
    ensures i + |p| < |s| && IsWordChar(s[i + |p|])
  {
  }

  /** "c++" followed by a space is not reported. */
  lemma CppMissedBeforeSpace(bw: string, low: string)
    requires bw == "c++" && low == "c++ and java"
    ensures !EntryMatches(bw, low)
  {
    SingleTokenEntry(bw, low);
    CppOnlyAtStart(bw, low);
    forall j | BoundedAt(low, bw, j) ensures false {
      SymbolEndNeedsWordAfter(low, bw, j);
    }
  }

  lemma CppOnlyAtStart(bw: string, low: string)
    requires bw == "c++" && low == "c++ and java"
    ensures forall j :: OccursAt(low, bw, j) ==> j == 0
  {
    forall j | OccursAt(low, bw, j) ensures j == 0 {
      assert low[j] == low[j..j + 3][0] == 'c';
    }
  }

  /** The evidently intended whole-word test: `p` at index `i` with no word
      character directly before or after it. */
  predicate DelimitedAt(s: string, p: string, i: int) {
    OccursAt(s, p, i)
    && (i == 0 || !IsWordChar(s[i - 1]))
    && (i + |p| == |s| || !IsWordChar(s[i + |p|]))
  }

  function DelimitedSearchFrom(s: string, p: string, i: nat): (found: bool)
    ensures found <==> exists j :: i <= j && DelimitedAt(s, p, j)
    decreases |s| - i
  {
    if i + |p| > |s| then false
    else if s[i..i + |p|] == p
      && (i == 0 || !IsWordChar(s[i - 1]))
      && (i + |p| == |s| || !IsWordChar(s[i + |p|])) then
      assert DelimitedAt(s, p, i); true
    else DelimitedSearchFrom(s, p, i + 1)
  }

  /** The entry test with whole-word matching in place of `\b`. */
  function IntendedEntryMatches(bw: string, low: string): (found: bool)
    ensures |Words.Split(bw)| == 1 ==> (found <==> exists j :: DelimitedAt(low, bw, j))
    ensures |Words.Split(bw)| != 1 ==> (found <==> exists j :: OccursAt(low, bw, j))
  {
    if |Words.Split(bw)| == 1 then DelimitedSearchFrom(low, bw, 0) else Contains(low, bw)
  }

  /** For an entry that begins and ends with a word character, whole-word
      matching and `\b` matching agree at every index. */
  lemma DelimitedAgreesOnWordEnds(s: string, p: string, i: int)
    requires p != [] && IsWordChar(p[0]) && IsWordChar(p[|p| - 1])
    ensures DelimitedAt(s, p, i) <==> BoundedAt(s, p, i)
  {
  }

  /** The intended test reports "c++" followed by a space. */
  lemma IntendedFindsCpp(bw: string, low: string)
    requires bw == "c++" && low == "c++ and java"
    ensures IntendedEntryMatches(bw, low)
  {
  }

  /** The two tests differ only on entries that begin or end with a non-word
      character: on every other one-token entry they agree. */
  lemma RulesAgreeOnWordEnds(bw: string, low: string)
    requires Words.IsToken(bw) && IsWordChar(bw[0]) && IsWordChar(bw[|bw| - 1])
    ensures IntendedEntryMatches(bw, low) == EntryMatches(bw, low)
  {
    SingleTokenEntry(bw, low);
    Words.SplitToken(bw, []);
    assert bw + [] == bw;
    forall j ensures DelimitedAt(low, bw, j) <==> BoundedAt(low, bw, j) {
      DelimitedAgreesOnWordEnds(low, bw, j);
    }
  }

  /** `buzzword_check` with whole-word matching for one-token entries: the
      same report, in the same order, with "c++" and "c#" found before a
      space or punctuation. */
  method WholeWordBuzzwordCheck(text: string) returns (found: seq<string>)
    ensures found == Matched(Vocabulary, Lower(text), WholeWord)
    ensures forall bw :: bw in found <==> bw in Vocabulary && IntendedEntryMatches(bw, Lower(text))
    ensures IsSubsequence(found, Vocabulary)
    ensures NoDuplicates(Vocabulary) ==> NoDuplicates(found)
    ensures |found| <= |Vocabulary|
  {
    var low := Lower(text);
    found := FindEntries(Vocabulary, low, WholeWord);
    MatchedReport(Vocabulary, low, WholeWord);
  }
}
