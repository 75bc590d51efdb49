/** Word and page counting: `word_page_count`, which splits the text on runs
    of whitespace as Python's `str.split()` does and estimates the page count
    at 500 words per page, rounding up, with at least one page. */
module Words {
  import opened Text

  const WordsPerPage := 500

  predicate NoSpace(w: string) {
    forall i :: 0 <= i < |w| ==> !IsSpace(w[i])
  }

  /** A token as `str.split()` produces it: non-empty and free of whitespace. */
  predicate IsToken(w: string) {
    w != [] && NoSpace(w)
  }

  /** Length of the whitespace-free prefix of `s`. */
  function TokenLength(s: string): (n: nat)
    ensures n <= |s|
    ensures NoSpace(s[..n])
    ensures n < |s| ==> IsSpace(s[n])
  {
    if s == [] || IsSpace(s[0]) then 0
    else
      var n := 1 + TokenLength(s[1..]);
      assert s[..n] == [s[0]] + s[1..][..n - 1];
      n
  }

  /** `str.split()` with no argument: leading, trailing and repeated
      whitespace produce no empty tokens. */
  function Split(s: string): (ws: seq<string>)
    ensures forall k :: 0 <= k < |ws| ==> IsToken(ws[k])
    decreases |s|
  {
    if s == [] then []
    else if IsSpace(s[0]) then Split(s[1..])
    else
      var n := TokenLength(s);
      [s[..n]] + Split(s[n..])
  }

  /** `" ".join(ws)`. */
  function Join(ws: seq<string>): string {
    if ws == [] then []
    else if |ws| == 1 then ws[0]
    else ws[0] + " " + Join(ws[1..])
  }

  /** The characters of `s` that are not whitespace, in order. */
  function NonSpace(s: string): (r: string)
    ensures NoSpace(r)
  {
    if s == [] then []
    else if IsSpace(s[0]) then NonSpace(s[1..])
    else [s[0]] + NonSpace(s[1..])
  }

  function Concat(ws: seq<string>): string {
    if ws == [] then [] else ws[0] + Concat(ws[1..])
  }

  lemma {:induction false} TokenLengthOfToken(w: string, rest: string)
    requires NoSpace(w)
    requires rest == [] || IsSpace(rest[0])
    ensures TokenLength(w + rest) == |w|
    decreases |w|
  {
    if w != [] {
      assert (w + rest)[1..] == w[1..] + rest;
      TokenLengthOfToken(w[1..], rest);
    } else {
      assert w + rest == rest;
    }
  }

  lemma {:induction false} SplitToken(w: string, rest: string)
    requires IsToken(w)
    requires rest == [] || IsSpace(rest[0])
    ensures Split(w + rest) == [w] + Split(rest)
  {
    TokenLengthOfToken(w, rest);
    assert (w + rest)[..|w|] == w;
    assert (w + rest)[|w|..] == rest;
  }

  /** Splitting the single-space join of tokens gives the tokens back. */
  lemma {:induction false} SplitJoin(ws: seq<string>)
    requires forall k :: 0 <= k < |ws| ==> IsToken(ws[k])
    ensures Split(Join(ws)) == ws
  {
    if ws == [] {
    } else if |ws| == 1 {
      SplitToken(ws[0], []);
      assert ws[0] + [] == ws[0];
      assert Split([]) == [];
    } else {
      var rest := Join(ws[1..]);
      assert ws[0] + " " + rest == ws[0] + (" " + rest);
      SplitToken(ws[0], " " + rest);
      assert (" " + rest)[1..] == rest;
      SplitJoin(ws[1..]);
      assert ws == [ws[0]] + ws[1..];
    }
  }

  /** A whitespace character always separates tokens: splitting around it
      splits the two sides independently. With `SplitToken` this fixes the
      result of `Split` on every text. */
  lemma {:induction false} SplitAtSpace(a: string, c: char, b: string)
    requires IsSpace(c)
    ensures Split(a + [c] + b) == Split(a) + Split(b)
    decreases |a|
  {
    var s := a + [c] + b;
    if a == [] {
      assert s == [c] + b;
      assert s[1..] == b;
    } else if IsSpace(a[0]) {
      assert s[1..] == a[1..] + [c] + b;
      SplitAtSpace(a[1..], c, b);
    } else {
      var m := TokenLength(a);
      var rest := a[m..] + [c] + b;
      assert s == a[..m] + rest;
      assert rest[0] == (if m < |a| then a[m] else c);
      TokenLengthOfToken(a[..m], rest);
      assert s[0] == a[0];
      assert s[..m] == a[..m];
      assert s[m..] == rest;
      assert Split(s) == [a[..m]] + Split(rest);
      assert Split(a) == [a[..m]] + Split(a[m..]);
      SplitAtSpace(a[m..], c, b);
    }
  }

  lemma {:induction false} NonSpaceAppend(a: string, b: string)
    ensures NonSpace(a + b) == NonSpace(a) + NonSpace(b)
    decreases |a|
  {
    if a == [] {
      assert a + b == b;
    } else {
      assert (a + b)[1..] == a[1..] + b;
      NonSpaceAppend(a[1..], b);
    }
  }

  lemma {:induction false} NonSpaceOfNoSpace(w: string)
    requires NoSpace(w)
    ensures NonSpace(w) == w
    decreases |w|
  {
    if w != [] {
      NonSpaceOfNoSpace(w[1..]);
      assert w == [w[0]] + w[1..];
    }
  }

  /** Splitting loses whitespace and nothing else: the tokens, laid end to
      end, are exactly the non-whitespace characters of the text. */
  lemma {:induction false} SplitKeepsText(s: string)
    ensures Concat(Split(s)) == NonSpace(s)
    decreases |s|
  {
    if s == [] {
    } else if IsSpace(s[0]) {
      SplitKeepsText(s[1..]);
    } else {
      var n := TokenLength(s);
      SplitKeepsText(s[n..]);
      assert s == s[..n] + s[n..];
      NonSpaceAppend(s[..n], s[n..]);
      NonSpaceOfNoSpace(s[..n]);
      var ws := Split(s);
      assert ws == [s[..n]] + Split(s[n..]);
      assert ws[1..] == Split(s[n..]);
    }
  }

  /** The page estimate `max(1, int(w / 500) + (1 if w % 500 else 0))`: the
      least number of 500-word pages that holds `w` words, and at least 1. */
  function PageCount(wordCount: nat): (pages: nat)
    ensures pages >= 1
    ensures pages == 1 <==> wordCount <= WordsPerPage
    ensures wordCount > 0 ==>
      (pages - 1) * WordsPerPage < wordCount <= pages * WordsPerPage
  {
    var ceil := wordCount / WordsPerPage + (if wordCount % WordsPerPage != 0 then 1 else 0);
    if ceil > 1 then ceil else 1
  }

  /** `word_page_count(text)`: the number of whitespace-separated tokens and
      the page estimate derived from it. */
  function WordPageCount(text: string): (counts: (nat, nat))
    ensures counts.0 == |Split(text)|
    ensures counts.1 >= 1
    ensures counts.0 <= WordsPerPage ==> counts.1 == 1
    ensures counts.0 > 0 ==>
      (counts.1 - 1) * WordsPerPage < counts.0 <= counts.1 * WordsPerPage
  {
    var words := |Split(text)|;
    (words, PageCount(words))
  }
}
