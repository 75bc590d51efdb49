/** `count_years_experience`: two regular-expression scans of the original
    (not lower-cased) text, each modelled as a left-to-right scan that
    collects non-overlapping matches, and the precedence that combines them. */
module Experience {
  import opened Text

  // ---------------------------------------------------------------------
  // The year scan: `re.findall(r'((?:19|20)\d{2})', text)`.
  // No word boundary is required, so a year may sit inside a longer digit run.

  /** A `19dd` or `20dd` run starts at index `i` of `s`. */
  predicate YearAt(s: string, i: int) {
    0 <= i && i + 4 <= |s|
    && ((s[i] == '1' && s[i + 1] == '9') || (s[i] == '2' && s[i + 1] == '0'))
    && IsDigit(s[i + 2]) && IsDigit(s[i + 3])
  }

  /** `int()` of the four characters of a year match. */
  function YearValue(s: string, i: int): (y: nat)
    requires YearAt(s, i)
    ensures y == DigitsValue(s[i..i + 4])
    ensures 1900 <= y <= 2099
  {
    var ds := s[i..i + 4];
    var hi := if s[i] == '1' then 19 else 20;
    assert DigitsValue([s[i]]) == DigitValue(s[i]) by {
      assert [s[i]][..0] == [];
    }
    assert DigitsValue([s[i], s[i + 1]]) == hi by {
      assert [s[i], s[i + 1]][..1] == [s[i]];
    }
    assert DigitsValue([s[i], s[i + 1], s[i + 2]]) == 10 * hi + DigitValue(s[i + 2]) by {
      assert [s[i], s[i + 1], s[i + 2]][..2] == [s[i], s[i + 1]];
    }
    assert DigitsValue(ds) == 100 * hi + 10 * DigitValue(s[i + 2]) + DigitValue(s[i + 3]) by {
      assert ds[..3] == [s[i], s[i + 1], s[i + 2]];
    }
    (if s[i] == '1' then 1900 else 2000) + 10 * DigitValue(s[i + 2]) + DigitValue(s[i + 3])
  }

  /** The years `findall` returns, in text order. A match consumes its four
      characters and the scan resumes after them. */
  function YearMatches(s: string): (ys: seq<nat>)
    ensures forall k :: 0 <= k < |ys| ==> 1900 <= ys[k] <= 2099
    ensures |ys| <= |s| / 4
    decreases |s|
  {
    if |s| < 4 then []
    else if YearAt(s, 0) then [YearValue(s, 0)] + YearMatches(s[4..])
    else YearMatches(s[1..])
  }

  /** Where the year matches start when the scan begins at index `p`: each
      start begins a year and lies at least four characters after the
      previous one. */
  ghost function YearStarts(s: string, p: nat): (ps: seq<nat>)
    ensures forall k :: 0 <= k < |ps| ==> p <= ps[k] && YearAt(s, ps[k])
    ensures forall k :: 0 < k < |ps| ==> ps[k - 1] + 4 <= ps[k]
    decreases |s| - p
  {
    if p + 4 > |s| then []
    else if YearAt(s, p) then [p] + YearStarts(s, p + 4)
    else YearStarts(s, p + 1)
  }

  /** What the year scan of the text from index `p` on returns: one year
      per start, in text order, each the value of the four digits there. */
  lemma {:induction false} YearMatchesAtStarts(s: string, p: nat)
    requires p <= |s|
    ensures |YearMatches(s[p..])| == |YearStarts(s, p)|
    ensures forall k :: 0 <= k < |YearStarts(s, p)| ==>
      YearMatches(s[p..])[k] == YearValue(s, YearStarts(s, p)[k])
    decreases |s| - p
  {
    var t := s[p..];
    if p + 4 <= |s| {
      var d := if YearAt(s, p) then 4 else 1;
      assert t[d..] == s[p + d..];
      assert YearAt(t, 0) == YearAt(s, p) by {
        assert t[..4] == s[p..p + 4];
      }
      YearMatchesAtStarts(s, p + d);
      if YearAt(s, p) {
        assert YearValue(t, 0) == YearValue(s, p) by {
          assert t[0..4] == s[p..p + 4];
        }
      }
    }
  }

  /** The scan misses no year: every index from `p` on that starts a year
      lies inside one of the matches. */
  lemma {:induction false} YearStartsCover(s: string, p: nat, i: int)
    requires p <= i && YearAt(s, i)
    ensures exists k :: 0 <= k < |YearStarts(s, p)| && YearStarts(s, p)[k] <= i < YearStarts(s, p)[k] + 4
    decreases |s| - p
  {
    var ps := YearStarts(s, p);
    if YearAt(s, p) && i < p + 4 {
      assert ps[0] == p;
    } else if YearAt(s, p) {
      var rest := YearStarts(s, p + 4);
      assert ps == [p] + rest;
      YearStartsCover(s, p + 4, i);
      var k :| 0 <= k < |rest| && rest[k] <= i < rest[k] + 4;
      assert ps[k + 1] == rest[k];
    } else {
      assert ps == YearStarts(s, p + 1);
      YearStartsCover(s, p + 1, i);
    }
  }

  /** The scan finds nothing exactly when no index starts a year. */
  lemma {:induction false} YearMatchesEmpty(s: string)
    ensures YearMatches(s) == [] <==> forall i :: !YearAt(s, i)
    decreases |s|
  {
    if |s| < 4 {
    } else if YearAt(s, 0) {
    } else {
      YearMatchesEmpty(s[1..]);
      forall i | YearAt(s, i) ensures YearAt(s[1..], i - 1) { }
      forall i | YearAt(s[1..], i) ensures YearAt(s, i + 1) { }
    }
  }

  // ---------------------------------------------------------------------
  // The phrase scan: `re.findall(r'(\d+)\s+years?', text)`, case-sensitive.
  // Greedy `\d+` and `\s+` never need to give characters back: a shorter
  // digit run is followed by a digit and a shorter whitespace run by
  // whitespace, neither of which the next part of the pattern accepts.

  /** Length of the run of digits that starts `s`. */
  function DigitRun(s: string): (n: nat)
    ensures n <= |s|
    ensures forall i :: 0 <= i < n ==> IsDigit(s[i])
    ensures n < |s| ==> !IsDigit(s[n])
  {
    if s == [] || !IsDigit(s[0]) then 0 else 1 + DigitRun(s[1..])
  }

  /** Length of the run of whitespace that starts `s`. */
  function SpaceRun(s: string): (n: nat)
    ensures n <= |s|
    ensures forall i :: 0 <= i < n ==> IsSpace(s[i])
    ensures n < |s| ==> !IsSpace(s[n])
  {
    if s == [] || !IsSpace(s[0]) then 0 else 1 + SpaceRun(s[1..])
  }

  datatype PhraseMatch = NoPhrase | Phrase(years: nat, length: nat)

  /** The phrase pattern tried at the start of `s`: the captured number and
      the number of characters the match consumes. */
  function PhraseAt(s: string): (m: PhraseMatch)
    ensures m.Phrase? ==> 0 < m.length <= |s|
  {
    var d := DigitRun(s);
    var w := SpaceRun(s[d..]);
    var k := d + w;
    if d == 0 || w == 0 || k + 4 > |s| || s[k..k + 4] != "year" then NoPhrase
    else
      var len := if k + 4 < |s| && s[k + 4] == 's' then k + 5 else k + 4;
      Phrase(DigitsValue(s[..d]), len)
  }

  /** The pattern's shape at the start of `s`: `d` digits, then `w`
      whitespace characters, then "year". */
  ghost predicate PhraseShape(s: string, d: nat, w: nat) {
    0 < d && 0 < w && d + w + 4 <= |s|
    && (forall i :: 0 <= i < d ==> IsDigit(s[i]))
    && (forall i :: d <= i < d + w ==> IsSpace(s[i]))
    && s[d + w..d + w + 4] == "year"
  }

  /** The pattern matches at the start of `s` exactly when `s` has that
      shape; the match then captures the value of the digits and consumes
      the digits, the whitespace and "year" or "years". Because a digit is
      not whitespace and 'y' is neither, the shape fixes `d` and `w`. */
  lemma PhraseAtMeaning(s: string)
    ensures PhraseAt(s).Phrase? <==> exists d: nat, w: nat :: PhraseShape(s, d, w)
    ensures forall d: nat, w: nat :: PhraseShape(s, d, w) ==>
      PhraseAt(s) == Phrase(DigitsValue(s[..d]),
                            if d + w + 4 < |s| && s[d + w + 4] == 's' then d + w + 5 else d + w + 4)
  {
    PhraseAtShape(s);
    forall d: nat, w: nat | PhraseShape(s, d, w) ensures d == DigitRun(s) && w == SpaceRun(s[d..]) {
      PhraseShapeUnique(s, d, w);
    }
  }

  /** A match has the shape, with the greedy runs. */
  lemma PhraseAtShape(s: string)
    ensures PhraseAt(s).Phrase? ==> PhraseShape(s, DigitRun(s), SpaceRun(s[DigitRun(s)..]))
  {
    var d := DigitRun(s);
    var w := SpaceRun(s[d..]);
    if PhraseAt(s).Phrase? {
      forall i | d <= i < d + w ensures IsSpace(s[i]) {
        assert s[i] == s[d..][i - d];
      }
    }
  }

  /** The digit run and the whitespace run of a shape are the greedy ones. */
  lemma PhraseShapeUnique(s: string, d: nat, w: nat)
    requires PhraseShape(s, d, w)
    ensures d == DigitRun(s) && w == SpaceRun(s[d..])
  {
    assert IsSpace(s[d]) && !IsDigit(s[d]);
    assert s[d + w] == s[d + w..d + w + 4][0] == 'y';
    assert !IsSpace(s[d + w]);
    assert forall i :: 0 <= i < w ==> s[d..][i] == s[d + i];
  }

  /** The numbers `findall` returns, in text order. */
  function PhraseMatches(s: string): (ns: seq<nat>)
    decreases |s|
  {
    if s == [] then []
    else match PhraseAt(s)
      case Phrase(n, len) => [n] + PhraseMatches(s[len..])
      case NoPhrase => PhraseMatches(s[1..])
  }

  // The positions the phrase scan visits, worked out on the table of what
  // the pattern does at every index of the text.

  /** `ms[i]` is the pattern tried at index `i` of `s`. */
  ghost function PhraseTable(s: string): (ms: seq<PhraseMatch>)
    ensures |ms| == |s|
    decreases |s|
  {
    if s == [] then [] else [PhraseAt(s)] + PhraseTable(s[1..])
  }

  lemma {:induction false} PhraseTableAt(s: string, i: nat)
    requires i < |s|
    ensures PhraseTable(s)[i] == PhraseAt(s[i..])
    decreases i
  {
    if i > 0 {
      PhraseTableAt(s[1..], i - 1);
      assert s[1..][i - 1..] == s[i..];
    }
  }

  /** Every match in the table consumes at least one character and stays
      inside the text. */
  ghost predicate Consumes(ms: seq<PhraseMatch>) {
    forall i :: 0 <= i < |ms| && ms[i].Phrase? ==> 0 < ms[i].length <= |ms| - i
  }

  lemma PhraseTableConsumes(s: string)
    ensures Consumes(PhraseTable(s))
  {
    forall i | 0 <= i < |s| ensures PhraseTable(s)[i] == PhraseAt(s[i..]) {
      PhraseTableAt(s, i);
    }
  }

  /** Where the scan reports matches when it begins at index `p`: it takes
      the match at `p` when there is one and resumes after it, and otherwise
      moves on by one character. */
  ghost function ScanStarts(ms: seq<PhraseMatch>, p: nat): (ps: seq<nat>)
    requires Consumes(ms)
    ensures forall k :: 0 <= k < |ps| ==> p <= ps[k] < |ms| && ms[ps[k]].Phrase?
    decreases |ms| - p
  {
    if p >= |ms| then []
    else if ms[p].Phrase? then [p] + ScanStarts(ms, p + ms[p].length)
    else ScanStarts(ms, p + 1)
  }

  /** Each reported match ends at or before the next one starts. */
  lemma {:induction false} ScanSpaced(ms: seq<PhraseMatch>, p: nat)
    requires Consumes(ms)
    ensures forall j, k :: 0 <= j && j + 1 == k < |ScanStarts(ms, p)| ==>
      ScanStarts(ms, p)[j] + ms[ScanStarts(ms, p)[j]].length <= ScanStarts(ms, p)[k]
    decreases |ms| - p
  {
    if p < |ms| {
      var ps := ScanStarts(ms, p);
      if ms[p].Phrase? {
        var rest := ScanStarts(ms, p + ms[p].length);
        assert ps == [p] + rest;
        ScanSpaced(ms, p + ms[p].length);
        forall j, k | 0 <= j && j + 1 == k < |ps| ensures ps[j] + ms[ps[j]].length <= ps[k] {
          assert ps[k] == rest[j];
          if j > 0 {
            assert ps[j] == rest[j - 1];
          }
        }
      } else {
        ScanSpaced(ms, p + 1);
      }
    }
  }

  /** The scan passes over no match: every index from `p` on where the table
      has a match lies inside one of the reported matches. */
  lemma {:induction false} ScanCover(ms: seq<PhraseMatch>, p: nat, i: nat) returns (k: nat)
    requires Consumes(ms) && p <= i < |ms| && ms[i].Phrase?
    ensures k < |ScanStarts(ms, p)|
    ensures ScanStarts(ms, p)[k] <= i < ScanStarts(ms, p)[k] + ms[ScanStarts(ms, p)[k]].length
    decreases |ms| - p
  {
    var ps := ScanStarts(ms, p);
    if ms[p].Phrase? && i < p + ms[p].length {
      k := 0;
    } else if ms[p].Phrase? {
      var rest := ScanStarts(ms, p + ms[p].length);
      assert ps == [p] + rest;
      var j := ScanCover(ms, p + ms[p].length, i);
      k := j + 1;
      assert ps[k] == rest[j];
    } else {
      assert ps == ScanStarts(ms, p + 1);
      k := ScanCover(ms, p + 1, i);
    }
  }

  /** The numbers the scan collects when it begins at index `p`. */
  ghost function ScanValues(ms: seq<PhraseMatch>, p: nat): (ns: seq<nat>)
    requires Consumes(ms)
    decreases |ms| - p
  {
    if p >= |ms| then []
    else if ms[p].Phrase? then [ms[p].years] + ScanValues(ms, p + ms[p].length)
    else ScanValues(ms, p + 1)
  }

  /** One number per reported match. */
  lemma {:induction false} ScanValuesLength(ms: seq<PhraseMatch>, p: nat)
    requires Consumes(ms)
    ensures |ScanValues(ms, p)| == |ScanStarts(ms, p)|
    decreases |ms| - p
  {
    if p < |ms| {
      ScanValuesLength(ms, p + StepLength(ms[p]));
    }
  }

  /** The `k`-th number collected is the one captured at the `k`-th start. */
  lemma {:induction false} ScanValueAt(ms: seq<PhraseMatch>, p: nat, k: nat)
    requires Consumes(ms) && k < |ScanStarts(ms, p)|
    ensures |ScanValues(ms, p)| == |ScanStarts(ms, p)|
    ensures ScanValues(ms, p)[k] == ms[ScanStarts(ms, p)[k]].years
    decreases |ms| - p
  {
    ScanValuesLength(ms, p);
    var next := p + StepLength(ms[p]);
    if ms[p].Phrase? {
      assert ScanValues(ms, p) == [ms[p].years] + ScanValues(ms, next);
      assert ScanStarts(ms, p) == [p] + ScanStarts(ms, next);
      if k > 0 {
        ScanValueAt(ms, next, k - 1);
      }
    } else {
      ScanValueAt(ms, next, k);
    }
  }

  /** How far one step of a scan advances past the match `m`: its length,
      or one character when nothing matched. */
  function StepLength(m: PhraseMatch): nat {
    if m.Phrase? then m.length else 1
  }

  /** What one step of a scan collects: the captured number, if any. */
  function StepValues(m: PhraseMatch): seq<nat> {
    if m.Phrase? then [m.years] else []
  }

  /** The step the scan over the table takes at index `p`. */
  lemma ScanValuesStep(ms: seq<PhraseMatch>, p: nat)
    requires Consumes(ms) && p < |ms|
    ensures 0 < StepLength(ms[p]) && p + StepLength(ms[p]) <= |ms|
    ensures ScanValues(ms, p) == StepValues(ms[p]) + ScanValues(ms, p + StepLength(ms[p]))
  {
  }

  /** The phrase scan of the text from `p` on is the scan over its table. */
  lemma {:induction false} PhraseMatchesFrom(s: string, p: nat)
    requires p <= |s|
    ensures Consumes(PhraseTable(s))
    ensures PhraseMatches(s[p..]) == ScanValues(PhraseTable(s), p)
    decreases |s| - p
  {
    PhraseTableConsumes(s);
    var ms := PhraseTable(s);
    if p < |s| {
      PhraseTableAt(s, p);
      PhraseMatchesStep(s, p, ms[p]);
      ScanValuesStep(ms, p);
      var d := StepLength(ms[p]);
      PhraseMatchesFrom(s, p + d);
      calc {
        PhraseMatches(s[p..]);
        StepValues(ms[p]) + PhraseMatches(s[p + d..]);
        StepValues(ms[p]) + ScanValues(ms, p + d);
        ScanValues(ms, p);
      }
    } else {
      assert s[p..] == [];
      assert ScanValues(ms, p) == [];
    }
  }

  /** One step of the phrase scan from index `p`, where the pattern gives
      `m`: past the match, or one character on. */
  lemma PhraseMatchesStep(s: string, p: nat, m: PhraseMatch)
    requires p < |s| && m == PhraseAt(s[p..])
    ensures p + StepLength(m) <= |s|
    ensures PhraseMatches(s[p..]) == StepValues(m) + PhraseMatches(s[p + StepLength(m)..])
  {
    assert s[p..][StepLength(m)..] == s[p + StepLength(m)..];
  }

  /** Where the phrase matches start. */
  ghost function PhraseStarts(s: string): (ps: seq<nat>)
    ensures forall k :: 0 <= k < |ps| ==> ps[k] < |s|
  {
    PhraseTableConsumes(s);
    ScanStarts(PhraseTable(s), 0)
  }

  /** One number per start, each the number the pattern captures there. */
  lemma PhraseValuesAtStarts(s: string)
    ensures |PhraseMatches(s)| == |PhraseStarts(s)|
    ensures forall k :: 0 <= k < |PhraseStarts(s)| ==>
      PhraseAt(s[PhraseStarts(s)[k]..]).Phrase? && PhraseMatches(s)[k] == PhraseAt(s[PhraseStarts(s)[k]..]).years
  {
    var ms := PhraseTable(s);
    PhraseTableConsumes(s);
    var ps := ScanStarts(ms, 0);
    assert ps == PhraseStarts(s);
    PhraseMatchesFrom(s, 0);
    assert s[0..] == s;
    ScanValuesLength(ms, 0);
    forall k | 0 <= k < |ps| ensures ms[ps[k]] == PhraseAt(s[ps[k]..]) && ScanValues(ms, 0)[k] == ms[ps[k]].years {
      PhraseTableAt(s, ps[k]);
      ScanValueAt(ms, 0, k);
    }
  }

  /** Each match ends at or before the next one starts. */
  lemma PhraseStartsSpaced(s: string)
    ensures forall j, k :: 0 <= j && j + 1 == k < |PhraseStarts(s)| ==>
      PhraseAt(s[PhraseStarts(s)[j]..]).Phrase?
      && PhraseStarts(s)[j] + PhraseAt(s[PhraseStarts(s)[j]..]).length <= PhraseStarts(s)[k]
  {
    var ms := PhraseTable(s);
    PhraseTableConsumes(s);
    var ps := ScanStarts(ms, 0);
    assert ps == PhraseStarts(s);
    ScanSpaced(ms, 0);
    forall k | 0 <= k < |ps| ensures ms[ps[k]] == PhraseAt(s[ps[k]..]) {
      PhraseTableAt(s, ps[k]);
    }
  }

  /** No index where the pattern matches is passed over outside a reported
      match. */
  lemma PhraseStartsCover(s: string)
    ensures forall i :: 0 <= i < |s| && PhraseAt(s[i..]).Phrase? ==>
      exists k :: (0 <= k < |PhraseStarts(s)| && PhraseStarts(s)[k] <= i
        && PhraseAt(s[PhraseStarts(s)[k]..]).Phrase?
        && i < PhraseStarts(s)[k] + PhraseAt(s[PhraseStarts(s)[k]..]).length)
  {
    var ms := PhraseTable(s);
    PhraseTableConsumes(s);
    var ps := ScanStarts(ms, 0);
    assert ps == PhraseStarts(s);
    forall i | 0 <= i < |s| && PhraseAt(s[i..]).Phrase?
      ensures exists k :: (0 <= k < |ps| && ps[k] <= i
        && PhraseAt(s[ps[k]..]).Phrase? && i < ps[k] + PhraseAt(s[ps[k]..]).length)
    {
      PhraseTableAt(s, i);
      var k := ScanCover(ms, 0, i);
      PhraseTableAt(s, ps[k]);
    }
  }

  /** What the phrase scan returns: one number per start, in text order, each
      the number the pattern captures there; each match ends at or before
      the next start; and no index where the pattern matches is passed over
      outside a reported match. */
  lemma PhraseMatchesAtStarts(s: string)
    ensures |PhraseMatches(s)| == |PhraseStarts(s)|
    ensures forall k :: 0 <= k < |PhraseStarts(s)| ==>
      PhraseAt(s[PhraseStarts(s)[k]..]).Phrase? && PhraseMatches(s)[k] == PhraseAt(s[PhraseStarts(s)[k]..]).years
    ensures forall j, k :: 0 <= j && j + 1 == k < |PhraseStarts(s)| ==>
      PhraseAt(s[PhraseStarts(s)[j]..]).Phrase?
      && PhraseStarts(s)[j] + PhraseAt(s[PhraseStarts(s)[j]..]).length <= PhraseStarts(s)[k]
    ensures forall i :: 0 <= i < |s| && PhraseAt(s[i..]).Phrase? ==>
      exists k :: (0 <= k < |PhraseStarts(s)| && PhraseStarts(s)[k] <= i
        && PhraseAt(s[PhraseStarts(s)[k]..]).Phrase?
        && i < PhraseStarts(s)[k] + PhraseAt(s[PhraseStarts(s)[k]..]).length)
  {
    PhraseValuesAtStarts(s);
    PhraseStartsSpaced(s);
    PhraseStartsCover(s);
  }

  /** The phrase scan finds nothing exactly when the pattern matches at no
      index. */
  lemma {:induction false} PhraseMatchesEmpty(s: string)
    ensures PhraseMatches(s) == [] <==> forall i :: 0 <= i < |s| ==> PhraseAt(s[i..]).NoPhrase?
    decreases |s|
  {
    if s != [] && PhraseAt(s).NoPhrase? {
      PhraseMatchesEmpty(s[1..]);
      assert s[0..] == s;
      forall i | 0 <= i < |s[1..]| ensures s[1..][i..] == s[i + 1..] { }
      assert forall i :: 0 < i < |s| ==> s[i..] == s[1..][i - 1..];
    } else if s != [] {
      assert s[0..] == s;
    }
  }

  // ---------------------------------------------------------------------

  function Max(xs: seq<nat>): (m: nat)
    requires xs != []
    ensures m in xs
    ensures forall k :: 0 <= k < |xs| ==> xs[k] <= m
  {
    if |xs| == 1 then xs[0]
    else var rest := Max(xs[1..]); if xs[0] >= rest then xs[0] else rest
  }

  function Min(xs: seq<nat>): (m: nat)
    requires xs != []
    ensures m in xs
    ensures forall k :: 0 <= k < |xs| ==> m <= xs[k]
  {
    if |xs| == 1 then xs[0]
    else var rest := Min(xs[1..]); if xs[0] <= rest then xs[0] else rest
  }

  /** `count_years_experience(text)`. Two or more year matches (repeats
      included) decide the result as the span between the latest and the
      earliest; only with fewer does the largest "N year(s)" number count;
      with neither the result is 0. */
  function CountYearsExperience(text: string): (n: nat)
    ensures |YearMatches(text)| >= 2 ==>
      n <= 199
      && (exists a, b :: 0 <= a < |YearMatches(text)| && 0 <= b < |YearMatches(text)|
            && YearMatches(text)[a] == YearMatches(text)[b] + n)
      && forall a, b :: 0 <= a < |YearMatches(text)| && 0 <= b < |YearMatches(text)| ==>
            YearMatches(text)[a] <= YearMatches(text)[b] + n
    ensures |YearMatches(text)| < 2 && PhraseMatches(text) != [] ==>
      n in PhraseMatches(text) && forall k :: 0 <= k < |PhraseMatches(text)| ==> PhraseMatches(text)[k] <= n
    ensures |YearMatches(text)| < 2 && PhraseMatches(text) == [] ==> n == 0
  {
    var years := YearMatches(text);
    if |years| >= 2 then
      var hi, lo := Max(years), Min(years);
      assert exists a, b :: 0 <= a < |years| && 0 <= b < |years| && hi == years[a] && lo == years[b];
      hi - lo
    else
      var phrases := PhraseMatches(text);
      if phrases != [] then Max(phrases) else 0
  }
}
