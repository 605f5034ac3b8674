/** `CodeDetector` of src/code_detector.py: cabinet and appliance codes such
    as DB24, SB42FH or MW30, found with `\b[A-Z]{2,4}\d{2,4}[A-Z]{0,3}\b`
    over the upper-cased text and deduplicated.

    Both ends of the pattern are word boundaries and the pattern consumes
    only word characters, so a match is always one whole word of the
    upper-cased text; the scanner below walks the text word by word. */
module CodeDetector {
  import opened Chars

  /** The code grammar: two to four capital letters, two to four digits,
      then up to three capital letters, and nothing else. */
  ghost predicate IsCode(w: string) {
    exists a: nat, b: nat :: 2 <= a <= 4 && a + 2 <= b <= a + 4 && b <= |w| <= b + 3 &&
      AllIn(w[..a], Upper) && AllIn(w[a..b], Digit) && AllIn(w[b..], Upper)
  }

  /** `w` is the grammar's letters, digits and letters, split greedily. */
  function MatchesCode(w: string): (b: bool)
    ensures b ==> 4 <= |w| <= 11 && IsUpper(w[0])
  {
    var (letters, r1) := SplitRun(w, Upper);
    var (digits, suffix) := SplitRun(r1, Digit);
    2 <= |letters| <= 4 && 2 <= |digits| <= 4 && |suffix| <= 3 && AllIn(suffix, Upper)
  }

  /** A greedy split that passes the bounds is a grammatical split. */
  lemma MatchesCodeSound(w: string)
    requires MatchesCode(w)
    ensures IsCode(w)
  {
    var (letters, r1) := SplitRun(w, Upper);
    var (digits, suffix) := SplitRun(r1, Digit);
    var a := |letters|;
    var b := a + |digits|;
    assert w == letters + (digits + suffix);
    assert w[..a] == letters && w[a..b] == digits && w[b..] == suffix;
  }

  /** A grammatical split is the greedy one, so the greedy split passes. */
  lemma MatchesCodeComplete(w: string)
    requires IsCode(w)
    ensures MatchesCode(w)
  {
    var a: nat, b: nat :| 2 <= a <= 4 && a + 2 <= b <= a + 4 && b <= |w| <= b + 3 &&
      AllIn(w[..a], Upper) && AllIn(w[a..b], Digit) && AllIn(w[b..], Upper);
    assert w[..a] + w[a..] == w;
    assert w[a..] == w[a..b] + w[b..];
    assert w[a..][0] == w[a..b][0] && In(w[a..b][0], Digit);
    SplitRunUnique(w[..a], w[a..], Upper);
    assert Stops(w[b..], Digit) by {
      if w[b..] != [] { assert In(w[b..][0], Upper); }
    }
    SplitRunUnique(w[a..b], w[b..], Digit);
  }

  /** The greedy split decides the grammar. */
  lemma MatchesCodeIff(w: string)
    ensures MatchesCode(w) <==> IsCode(w)
  {
    if MatchesCode(w) { MatchesCodeSound(w); }
    if IsCode(w) { MatchesCodeComplete(w); }
  }

  /** A code is 4 to 11 characters long. */
  lemma CodeLength(w: string)
    requires IsCode(w)
    ensures 4 <= |w| <= 11
  {
  }

  /** `u[i..j]` is a whole word of `u`: a maximal run of word characters. */
  predicate IsWordAt(u: string, i: nat, j: nat) {
    i < j <= |u| && AllIn(u[i..j], Word) &&
    (i == 0 || !IsWordChar(u[i - 1])) && (j == |u| || !IsWordChar(u[j]))
  }

  /** Position `i` does not sit inside a word. */
  predicate AtBoundary(u: string, i: nat) {
    i <= |u| && (i == 0 || i == |u| || !IsWordChar(u[i - 1]) || !IsWordChar(u[i]))
  }

  /** The end of the word that starts with the word character at `i`. */
  function WordEnd(u: string, i: nat): (j: nat)
    requires i < |u| && IsWordChar(u[i])
    ensures i < j <= |u| && AllIn(u[i..j], Word) && (j == |u| || !IsWordChar(u[j]))
  {
    var (word, rest) := SplitRun(u[i..], Word);
    WordEndRun(u, i);
    i + |word|
  }

  lemma WordEndRun(u: string, i: nat)
    requires i < |u| && IsWordChar(u[i])
    ensures var (word, rest) := SplitRun(u[i..], Word);
      |word| > 0 && u[i..i + |word|] == word && (i + |word| == |u| || !IsWordChar(u[i + |word|]))
  {
    var (word, rest) := SplitRun(u[i..], Word);
    assert u[i..] == word + rest;
    assert u[i..][0] == u[i] && In(u[i], Word);
    if i + |word| < |u| { assert rest[0] == u[i + |word|]; }
  }

  /** `findall` from position `i`, which must not sit inside a word: the
      words from there on that satisfy the grammar, left to right. */
  function FindCodes(u: string, i: nat): seq<string>
    requires AtBoundary(u, i)
    decreases |u| - i
  {
    if i == |u| then []
    else if !IsWordChar(u[i]) then FindCodes(u, i + 1)
    else
      var j := WordEnd(u, i);
      (if MatchesCode(u[i..j]) then [u[i..j]] else []) + FindCodes(u, j)
  }

  /** The word found at a boundary is a whole word. */
  lemma WordAtBoundary(u: string, i: nat)
    requires AtBoundary(u, i) && i < |u| && IsWordChar(u[i])
    ensures IsWordAt(u, i, WordEnd(u, i))
  {
  }

  /** No word starts strictly inside another. */
  lemma NoWordInside(u: string, i: nat, a: nat, b: nat)
    requires i < |u| && IsWordChar(u[i]) && i < a && IsWordAt(u, a, b)
    ensures WordEnd(u, i) <= a
  {
  }

  /** A whole word starting at a word character is the greedy run there. */
  lemma WordIsRun(u: string, a: nat, b: nat)
    requires IsWordAt(u, a, b)
    ensures SplitRun(u[a..], Word) == (u[a..b], u[b..])
  {
    assert u[a..] == u[a..b] + u[b..];
    assert Stops(u[b..], Word) by {
      if b < |u| { assert u[b..][0] == u[b]; }
    }
    SplitRunUnique(u[a..b], u[b..], Word);
  }

  /** The distinct codes of `text`: the whole words of the upper-cased text
      that satisfy the grammar. */
  ghost function CodeSet(text: string): set<string> {
    var u := UpperCase(text);
    set a: nat, b: nat | a < b <= |u| && IsWordAt(u, a, b) && IsCode(u[a..b]) :: u[a..b]
  }

  /** A run of word characters followed by a non-word character or the end
      is the word `WordEnd` finds. */
  lemma WordEndUnique(u: string, i: nat, j: nat)
    requires i < j <= |u| && AllIn(u[i..j], Word) && (j == |u| || !IsWordChar(u[j]))
    ensures WordEnd(u, i) == j
  {
  }

  /** The word at `|p| + k` of `p + v` is the word at `k` of `v`, shifted. */
  lemma ShiftWordEnd(p: string, v: string, k: nat)
    requires k < |v| && IsWordChar(v[k])
    ensures (p + v)[|p| + k] == v[k]
    ensures WordEnd(p + v, |p| + k) == |p| + WordEnd(v, k)
    ensures (p + v)[|p| + k..|p| + WordEnd(v, k)] == v[k..WordEnd(v, k)]
  {
    var u := p + v;
    var j := WordEnd(v, k);
    assert u[|p| + k..|p| + j] == v[k..j];
    if j < |v| { assert u[|p| + j] == v[j]; }
    WordEndUnique(u, |p| + k, |p| + j);
  }

  /** Scanning does not look behind a boundary: what precedes it does not
      change the codes found after it. */
  lemma {:induction false} FindCodesShift(p: string, v: string, k: nat)
    requires k <= |v| && AtBoundary(v, k) && AtBoundary(p + v, |p| + k)
    ensures FindCodes(p + v, |p| + k) == FindCodes(v, k)
    decreases |v| - k
  {
    if k < |v| {
      if !IsWordChar(v[k]) {
        assert (p + v)[|p| + k] == v[k];
        FindCodesShift(p, v, k + 1);
      } else {
        ShiftWordEnd(p, v, k);
        FindCodesShift(p, v, WordEnd(v, k));
      }
    }
  }

  /** A text that starts with a whole word: that word, if it is a code, then
      the codes of the rest. */
  lemma FindCodesFirstWord(w: string, v: string)
    requires w != [] && AllIn(w, Word) && (v == [] || !IsWordChar(v[0]))
    ensures FindCodes(w + v, 0) == (if MatchesCode(w) then [w] else []) + FindCodes(v, 0)
  {
    var u := w + v;
    assert u[..|w|] == w && u[0] == w[0];
    if v != [] { assert u[|w|] == v[0]; }
    WordEndUnique(u, 0, |w|);
    FindCodesAtWord(u, 0);
    FindCodesShift(w, v, 0);
  }

  /** One step of the scanner at a word character. */
  lemma FindCodesAtWord(u: string, i: nat)
    requires AtBoundary(u, i) && i < |u| && IsWordChar(u[i])
    ensures AtBoundary(u, WordEnd(u, i))
    ensures FindCodes(u, i) ==
              (if MatchesCode(u[i..WordEnd(u, i)]) then [u[i..WordEnd(u, i)]] else []) + FindCodes(u, WordEnd(u, i))
  {
  }

  /** A leading non-word character contributes nothing. */
  lemma FindCodesSeparator(c: char, v: string)
    requires !IsWordChar(c)
    ensures FindCodes([c] + v, 0) == FindCodes(v, 0)
  {
    assert ([c] + v)[0] == c;
    FindCodesShift([c], v, 0);
  }

  /** Every code found from `i` is a whole word of `u`, starting at `i` or
      later, that satisfies the grammar. */
  lemma {:induction false} FindCodesSound(u: string, i: nat)
    requires AtBoundary(u, i)
    ensures forall c :: c in FindCodes(u, i) ==>
              IsCode(c) && exists a: nat, b: nat :: i <= a < b <= |u| && IsWordAt(u, a, b) && u[a..b] == c
    decreases |u| - i
  {
    if i < |u| {
      if !IsWordChar(u[i]) {
        FindCodesSound(u, i + 1);
      } else {
        var j := WordEnd(u, i);
        FindCodesSound(u, j);
        if MatchesCode(u[i..j]) {
          MatchesCodeSound(u[i..j]);
          WordAtBoundary(u, i);
        }
      }
    }
  }

  /** Every whole word of `u` from `i` on that satisfies the grammar is found. */
  lemma {:induction false} FindCodesComplete(u: string, i: nat, a: nat, b: nat)
    requires AtBoundary(u, i) && i <= a && IsWordAt(u, a, b) && IsCode(u[a..b])
    ensures u[a..b] in FindCodes(u, i)
    decreases |u| - i
  {
    assert u[a] == u[a..b][0];
    if !IsWordChar(u[i]) {
      FindCodesComplete(u, i + 1, a, b);
    } else if a == i {
      WordAtBoundary(u, i);
      assert WordEnd(u, i) == b;
      MatchesCodeComplete(u[a..b]);
    } else {
      NoWordInside(u, i, a, b);
      FindCodesComplete(u, WordEnd(u, i), a, b);
    }
  }

  predicate NoDuplicates(xs: seq<string>) {
    forall p, q :: 0 <= p < q < |xs| ==> xs[p] != xs[q]
  }

  /** `list(set(codes))`: each code once. The order Python's set gives is
      unspecified; this keeps first occurrences. */
  function Dedup(xs: seq<string>): (r: seq<string>)
    ensures NoDuplicates(r)
    ensures forall x :: x in r <==> x in xs
  {
    if xs == [] then []
    else
      var r := Dedup(xs[..|xs| - 1]);
      var last := xs[|xs| - 1];
      assert xs == xs[..|xs| - 1] + [last];
      if last in r then r else r + [last]
  }

  /** `detect_codes` */
  function DetectCodes(text: string): (r: seq<string>)
    ensures NoDuplicates(r)
  {
    Dedup(FindCodes(UpperCase(text), 0))
  }

  /** `detect_codes` returns exactly the distinct whole words of the
      upper-cased text that satisfy the code grammar. */
  lemma DetectCodesSpec(text: string)
    ensures forall c :: c in DetectCodes(text) <==> c in CodeSet(text)
  {
    var u := UpperCase(text);
    FindCodesSound(u, 0);
    forall c | c in CodeSet(text) ensures c in FindCodes(u, 0) {
      var a: nat, b: nat :| a < b <= |u| && IsWordAt(u, a, b) && IsCode(u[a..b]) && u[a..b] == c;
      FindCodesComplete(u, 0, a, b);
    }
  }

  /** Every returned code satisfies the grammar, so it has 4 to 11 characters. */
  lemma DetectedAreCodes(text: string)
    ensures forall c :: c in DetectCodes(text) ==> IsCode(c) && 4 <= |c| <= 11
  {
    FindCodesSound(UpperCase(text), 0);
  }

  /** Detection does not depend on case. */
  lemma DetectCodesIgnoresCase(text: string)
    ensures DetectCodes(UpperCase(text)) == DetectCodes(text)
  {
    UpperIdempotent(text);
  }
}
