/** `DimensionParser` of src/dimension_parser.py: the combined pattern's
    left-to-right scan (`finditer`), `parse_dimension`, and
    `extract_dimensions_from_text`. */
module DimensionParser {
  import opened Chars
  import opened Wrappers
  import opened DimensionGrammar

  /** A token's bounding box `[x0, y0, x1, y1]`, passed through unchanged. */
  datatype BBox = BBox(x0: real, y0: real, x1: real, y1: real)

  /** One recognised measurement. `inches` is the exact value, before the
      source rounds it to two decimals. */
  datatype Dimension = Dimension(raw: string, inches: real, bbox: BBox)

  /** The three alternatives, in the order the combined pattern tries them. */
  datatype Form = Feet | Fraction | Simple

  predicate IsForm(d: Derivation, f: Form) {
    match f
    case Feet => d.FeetInches?
    case Fraction => d.MixedFraction?
    case Simple => d.SimpleInches?
  }

  /** `d` spells exactly the characters `s[i..j]`. */
  predicate Derives(s: seq<char>, i: nat, j: nat, d: Derivation) {
    i <= j <= |s| && WellFormed(d) && s[i..j] == Render(d)
  }

  /** Alternative `f` can match a substring that starts at position `i`. */
  ghost predicate FormMatchesAt(s: seq<char>, i: nat, f: Form) {
    exists j: nat, d: Derivation :: Derives(s, i, j, d) && IsForm(d, f)
  }

  function ScanForm(t: seq<char>, f: Form): (r: Option<(Derivation, seq<char>)>)
    ensures r.Some? ==> IsForm(r.value.0, f) && WellFormed(r.value.0) && RenderWith(r.value.0, r.value.1) == t
  {
    match f
    case Feet => ScanFeet(t)
    case Fraction => ScanFraction(t)
    case Simple => ScanSimple(t)
  }

  lemma SuffixDerives(s: seq<char>, i: nat, d: Derivation, rest: seq<char>)
    requires i <= |s| && WellFormed(d) && RenderWith(d, rest) == s[i..]
    ensures |rest| <= |s| - i && Derives(s, i, |s| - |rest|, d) && s[|s| - |rest|..] == rest
  {
    RenderConcat(d, rest);
    assert s[i..] == Render(d) + rest;
    assert s[i..][..|Render(d)|] == Render(d);
    assert s[i..|s| - |rest|] == s[i..][..|Render(d)|];
    assert s[|s| - |rest|..] == s[i..][|Render(d)|..];
  }

  lemma DerivesSuffix(s: seq<char>, i: nat, j: nat, d: Derivation)
    requires Derives(s, i, j, d)
    ensures RenderWith(d, s[j..]) == s[i..]
  {
    RenderConcat(d, s[j..]);
    assert s[i..] == s[i..j] + s[j..];
  }

  /** The scanner of alternative `f` succeeds at `i` exactly when `f` can match there. */
  lemma ScanFormIffMatches(s: seq<char>, i: nat, f: Form)
    requires i <= |s|
    ensures ScanForm(s[i..], f).Some? <==> FormMatchesAt(s, i, f)
  {
    if ScanForm(s[i..], f).Some? {
      var (d, rest) := ScanForm(s[i..], f).value;
      SuffixDerives(s, i, d, rest);
    }
    if FormMatchesAt(s, i, f) {
      var j: nat, d: Derivation :| Derives(s, i, j, d) && IsForm(d, f);
      DerivesSuffix(s, i, j, d);
      match f
      case Feet => FeetComplete(d, s[j..]);
      case Fraction => FractionPreferred(d, s[j..]);
      case Simple => SimpleComplete(d, s[j..]);
    }
  }

  // ---------------------------------------------------------------------------
  // The combined pattern at one position
  // ---------------------------------------------------------------------------

  /** A match of the combined pattern: `s[start..end]`, read as `form`. */
  datatype Match = Match(start: nat, end: nat, form: Derivation)

  /** The combined pattern anchored at `i`: feet and inches first, then the
      mixed fraction, then simple inches. */
  function MatchAt(s: seq<char>, i: nat): (r: Option<Match>)
    requires i <= |s|
    ensures r.Some? ==> r.value.start == i < r.value.end && Derives(s, i, r.value.end, r.value.form)
  {
    match ScanFeet(s[i..])
    case Some((d, rest)) => FoundAt(s, i, d, rest)
    case None =>
      match ScanFraction(s[i..])
      case Some((d, rest)) => FoundAt(s, i, d, rest)
      case None =>
        match ScanSimple(s[i..])
        case Some((d, rest)) => FoundAt(s, i, d, rest)
        case None => None
  }

  function FoundAt(s: seq<char>, i: nat, d: Derivation, rest: seq<char>): (r: Option<Match>)
    requires i <= |s| && WellFormed(d) && RenderWith(d, rest) == s[i..]
    ensures r.Some? && r.value.start == i < r.value.end && Derives(s, i, r.value.end, r.value.form)
    ensures r.value.form == d && r.value.end == |s| - |rest| && s[r.value.end..] == rest
  {
    SuffixDerives(s, i, d, rest);
    RenderEnds(d);
    Some(Match(i, |s| - |rest|, d))
  }

  /** Where feet and inches can match, the combined pattern takes exactly that derivation. */
  lemma MatchAtFeet(s: seq<char>, i: nat, j: nat, d: Derivation)
    requires Derives(s, i, j, d) && d.FeetInches?
    ensures MatchAt(s, i) == Some(Match(i, j, d))
  {
    DerivesSuffix(s, i, j, d);
    FeetComplete(d, s[j..]);
  }

  /** Where feet and inches cannot match but a mixed fraction can, the combined
      pattern takes a mixed fraction, with the longest whole part the text allows. */
  lemma MatchAtFraction(s: seq<char>, i: nat, j: nat, d: Derivation)
    requires Derives(s, i, j, d) && d.MixedFraction? && !FormMatchesAt(s, i, Feet)
    ensures MatchAt(s, i).Some? && MatchAt(s, i).value.form.MixedFraction?
    ensures |MatchAt(s, i).value.form.whole| >= |d.whole|
    ensures |MatchAt(s, i).value.form.whole| == |d.whole| ==>
              MatchAt(s, i).value.end == j && SameGroups(MatchAt(s, i).value.form, d)
  {
    ScanFormIffMatches(s, i, Feet);
    DerivesSuffix(s, i, j, d);
    FractionPreferred(d, s[j..]);
    var m := MatchAt(s, i).value;
    if |m.form.whole| == |d.whole| {
      assert s[i..][..|d.whole|] == d.whole;
      assert s[i..][..|d.whole|] == m.form.whole by { DerivesSuffix(s, i, m.end, m.form); }
    }
  }

  /** Where neither of the first two alternatives can match but simple inches
      can, the combined pattern takes exactly that derivation. */
  lemma MatchAtSimple(s: seq<char>, i: nat, j: nat, d: Derivation)
    requires Derives(s, i, j, d) && d.SimpleInches?
    requires !FormMatchesAt(s, i, Feet) && !FormMatchesAt(s, i, Fraction)
    ensures MatchAt(s, i) == Some(Match(i, j, d))
  {
    ScanFormIffMatches(s, i, Feet);
    ScanFormIffMatches(s, i, Fraction);
    DerivesSuffix(s, i, j, d);
    SimpleComplete(d, s[j..]);
    MatchAtThird(s, i, j, d);
  }

  /** When the first two scanners fail at `i`, the combined pattern takes what
      the simple-inches scanner finds. */
  lemma MatchAtThird(s: seq<char>, i: nat, j: nat, d: Derivation)
    requires i <= j <= |s| && ScanFeet(s[i..]).None? && ScanFraction(s[i..]).None?
    requires ScanSimple(s[i..]) == Some((d, s[j..]))
    ensures MatchAt(s, i) == Some(Match(i, j, d))
  {
    assert MatchAt(s, i) == FoundAt(s, i, d, s[j..]);
  }

  /** The combined pattern matches at `i` exactly when one of its alternatives
      can, and it reports the first alternative (in feet, fraction, simple
      order) that can. */
  lemma MatchAtOrder(s: seq<char>, i: nat)
    requires i <= |s|
    ensures MatchAt(s, i).Some? <==>
              FormMatchesAt(s, i, Feet) || FormMatchesAt(s, i, Fraction) || FormMatchesAt(s, i, Simple)
    ensures MatchAt(s, i).Some? ==>
              (MatchAt(s, i).value.form.FeetInches? <==> FormMatchesAt(s, i, Feet)) &&
              (MatchAt(s, i).value.form.MixedFraction? <==>
                 !FormMatchesAt(s, i, Feet) && FormMatchesAt(s, i, Fraction))
  {
    ScanFormIffMatches(s, i, Feet);
    ScanFormIffMatches(s, i, Fraction);
    ScanFormIffMatches(s, i, Simple);
  }

  // ---------------------------------------------------------------------------
  // finditer: leftmost, non-overlapping matches from left to right
  // ---------------------------------------------------------------------------

  /** Matches lie inside `[lo, hi)`, each non-empty, each starting where or
      after the previous one ends. */
  predicate Ordered(ms: seq<Match>, lo: nat, hi: nat)
    decreases |ms|
  {
    ms == [] || (lo <= ms[0].start < ms[0].end <= hi && Ordered(ms[1..], ms[0].end, hi))
  }

  lemma {:induction false} OrderedPairwise(ms: seq<Match>, lo: nat, hi: nat)
    requires Ordered(ms, lo, hi)
    ensures forall k :: 0 <= k < |ms| ==> lo <= ms[k].start < ms[k].end <= hi
    ensures forall a, b :: 0 <= a < b < |ms| ==> ms[a].end <= ms[b].start
    decreases |ms|
  {
    if ms != [] {
      var tl := ms[1..];
      OrderedPairwise(tl, ms[0].end, hi);
      assert forall k :: 1 <= k < |ms| ==> ms[k] == tl[k - 1];
    }
  }

  /** Every match of `ms` lies inside `text`. */
  predicate InText(ms: seq<Match>, text: string) {
    forall k :: 0 <= k < |ms| ==> ms[k].start <= ms[k].end <= |text| && WellFormed(ms[k].form)
  }

  /** The matches `finditer` yields from scan position `pos`. */
  function Scan(s: seq<char>, pos: nat): (ms: seq<Match>)
    requires pos <= |s|
    ensures Ordered(ms, pos, |s|)
    ensures InText(ms, s)
    decreases |s| - pos
  {
    if pos == |s| then []
    else
      match MatchAt(s, pos)
      case Some(m) =>
        var rest := Scan(s, m.end);
        ConsInOrder(s, m, rest);
        [m] + rest
      case None => Scan(s, pos + 1)
  }

  /** A match followed by matches from its end on are in order and in the text. */
  lemma ConsInOrder(s: seq<char>, m: Match, rest: seq<Match>)
    requires m.start < m.end <= |s| && WellFormed(m.form)
    requires Ordered(rest, m.end, |s|) && InText(rest, s)
    ensures Ordered([m] + rest, m.start, |s|) && InText([m] + rest, s)
  {
    assert ([m] + rest)[1..] == rest;
    assert forall k :: 1 <= k < |[m] + rest| ==> ([m] + rest)[k] == rest[k - 1];
  }

  /** The combined pattern matches at no position in `[a, b)`. */
  predicate NoMatchBetween(s: seq<char>, a: nat, b: nat)
    requires b <= |s|
    decreases b - a
  {
    a >= b || (MatchAt(s, a).None? && NoMatchBetween(s, a + 1, b))
  }

  lemma {:induction false} NoMatchBetweenAt(s: seq<char>, a: nat, b: nat, k: nat)
    requires b <= |s| && NoMatchBetween(s, a, b) && a <= k < b
    ensures MatchAt(s, k).None?
    decreases b - a
  {
    if a < k {
      NoMatchBetweenAt(s, a + 1, b, k);
    }
  }

  /** An independent description of a left-to-right leftmost-first scan: the
      first match starts at the least position from `pos` where the combined
      pattern matches, and the rest continue from its end. */
  ghost predicate LeftmostFirst(s: seq<char>, pos: nat, ms: seq<Match>)
    decreases |ms|
  {
    if ms == [] then
      pos <= |s| && NoMatchBetween(s, pos, |s|)
    else
      var m := ms[0];
      pos <= m.start <= |s| && MatchAt(s, m.start) == Some(m) &&
      NoMatchBetween(s, pos, m.start) &&
      LeftmostFirst(s, m.end, ms[1..])
  }

  /** The scan from `pos` is leftmost-first, and its first match (if any) is
      preceded by positions where nothing matches. */
  lemma {:induction false} ScanIsLeftmostFirst(s: seq<char>, pos: nat)
    requires pos <= |s|
    ensures LeftmostFirst(s, pos, Scan(s, pos))
    decreases |s| - pos
  {
    if pos < |s| {
      var r := MatchAt(s, pos);
      if r.Some? {
        var m := r.value;
        var rest := Scan(s, m.end);
        assert Scan(s, pos) == [m] + rest;
        ScanIsLeftmostFirst(s, m.end);
        assert ([m] + rest)[1..] == rest;
      } else {
        var rest := Scan(s, pos + 1);
        assert Scan(s, pos) == rest;
        ScanIsLeftmostFirst(s, pos + 1);
        if rest == [] {
          assert NoMatchBetween(s, pos + 1, |s|);
        } else {
          assert NoMatchBetween(s, pos + 1, rest[0].start);
        }
      }
    }
  }

  /** The scan is the only sequence of matches that is leftmost-first. */
  lemma {:induction false} LeftmostFirstIsScan(s: seq<char>, pos: nat, ms: seq<Match>)
    requires pos <= |s| && LeftmostFirst(s, pos, ms)
    ensures ms == Scan(s, pos)
    decreases |s| - pos
  {
    if pos < |s| {
      LeftmostFirstStep(s, pos, ms);
      if ms != [] && ms[0].start == pos {
        LeftmostFirstIsScan(s, ms[0].end, ms[1..]);
        assert ms == [ms[0]] + ms[1..];
      } else {
        LeftmostFirstIsScan(s, pos + 1, ms);
      }
    }
  }

  /** One step of a leftmost-first sequence: where the combined pattern
      matches, the sequence starts with that match, as the scan does;
      elsewhere the sequence, like the scan, is one from the next position. */
  lemma LeftmostFirstStep(s: seq<char>, pos: nat, ms: seq<Match>)
    requires pos < |s| && LeftmostFirst(s, pos, ms)
    ensures if ms != [] && ms[0].start == pos then
              ms[0].end > pos && LeftmostFirst(s, ms[0].end, ms[1..]) && Scan(s, pos) == [ms[0]] + Scan(s, ms[0].end)
            else
              LeftmostFirst(s, pos + 1, ms) && Scan(s, pos) == Scan(s, pos + 1)
  {
  }

  /** `finditer` as a loop that advances a scan position past each match. */
  method FindMatches(text: string) returns (ms: seq<Match>)
    ensures ms == Scan(text, 0)
  {
    ms := [];
    var pos := 0;
    while pos < |text|
      invariant pos <= |text|
      invariant ms + Scan(text, pos) == Scan(text, 0)
      decreases |text| - pos
    {
      match MatchAt(text, pos)
      case Some(m) =>
        ms := ms + [m];
        pos := m.end;
      case None =>
        pos := pos + 1;
    }
  }

  // ---------------------------------------------------------------------------
  // parse_dimension
  // ---------------------------------------------------------------------------

  /** Drops the leading whitespace of `s`. */
  function StripStart(s: string): (r: string)
    ensures |r| <= |s| && r == s[|s| - |r|..]
    ensures AllIn(s[..|s| - |r|], Space)
    ensures r == [] || !IsSpace(r[0])
    ensures s == [] || !IsSpace(s[0]) ==> r == s
  {
    if s != [] && IsSpace(s[0]) then
      var r := StripStart(s[1..]);
      SpaceBefore(s, r);
      r
    else s
  }

  /** A space in front of a stretch of spaces. */
  lemma SpaceBefore(s: string, r: string)
    requires s != [] && IsSpace(s[0]) && |r| <= |s| - 1 && AllIn(s[1..][..|s| - 1 - |r|], Space)
    ensures AllIn(s[..|s| - |r|], Space)
  {
    var p := s[..|s| - |r|];
    var q := s[1..][..|s| - 1 - |r|];
    forall k | 0 <= k < |p| ensures In(p[k], Space) {
      if k > 0 { assert p[k] == q[k - 1]; }
    }
  }

  /** Drops the trailing whitespace of `s`. */
  function StripEnd(s: string): (r: string)
    ensures |r| <= |s| && r == s[..|r|]
    ensures AllIn(s[|r|..], Space)
    ensures r == [] || !IsSpace(r[|r| - 1])
    ensures s == [] || !IsSpace(s[|s| - 1]) ==> r == s
  {
    if s != [] && IsSpace(s[|s| - 1]) then
      var r := StripEnd(s[..|s| - 1]);
      SpaceAfter(s, r);
      r
    else s
  }

  /** A stretch of spaces followed by a space. */
  lemma SpaceAfter(s: string, r: string)
    requires s != [] && IsSpace(s[|s| - 1]) && |r| <= |s| - 1 && AllIn(s[..|s| - 1][|r|..], Space)
    ensures AllIn(s[|r|..], Space)
  {
    var p := s[|r|..];
    var q := s[..|s| - 1][|r|..];
    forall k | 0 <= k < |p| ensures In(p[k], Space) {
      if k < |q| { assert p[k] == q[k]; }
    }
  }

  /** `str.strip()`: drops leading and trailing whitespace. */
  function Strip(s: string): (r: string)
    ensures |r| <= |s|
    ensures exists a: nat :: a + |r| <= |s| && r == s[a..a + |r|] &&
              AllIn(s[..a], Space) && AllIn(s[a + |r|..], Space)
    ensures r == [] || (!IsSpace(r[0]) && !IsSpace(r[|r| - 1]))
    ensures s == [] || (!IsSpace(s[0]) && !IsSpace(s[|s| - 1])) ==> r == s
  {
    var u := StripStart(s);
    var r := StripEnd(u);
    StripParts(s, u, r);
    r
  }

  /** Leading spaces, then the text, then trailing spaces. */
  lemma StripParts(s: string, u: string, r: string)
    requires |u| <= |s| && u == s[|s| - |u|..] && AllIn(s[..|s| - |u|], Space)
    requires |r| <= |u| && r == u[..|r|] && AllIn(u[|r|..], Space)
    ensures u != [] ==> u[|u| - 1] == s[|s| - 1]
    ensures exists a: nat :: a + |r| <= |s| && r == s[a..a + |r|] &&
              AllIn(s[..a], Space) && AllIn(s[a + |r|..], Space)
  {
    var a := |s| - |u|;
    assert s[a..a + |r|] == r && s[a + |r|..] == u[|r|..];
  }

  /** `pattern.search(t)` for alternative `f`, from position `i`: the match at
      the least position where `f` can match (see `SearchSpec`). */
  function Search(t: seq<char>, f: Form, i: nat): (r: Option<Match>)
    requires i <= |t|
    ensures r.Some? ==> i <= r.value.start && WellFormed(r.value.form) && IsForm(r.value.form, f)
    decreases |t| - i
  {
    match ScanForm(t[i..], f)
    case Some((d, rest)) => FoundAt(t, i, d, rest)
    case None => if i == |t| then None else Search(t, f, i + 1)
  }

  /** Alternative `f` matches at no position in `[a, b)`. */
  ghost predicate NoneBetween(t: seq<char>, f: Form, a: nat, b: nat) {
    forall k :: a <= k < b ==> !FormMatchesAt(t, k, f)
  }

  /** A search finds a match of `f` exactly when `f` matches somewhere from
      `i` on. */
  lemma {:induction false} SearchNone(t: seq<char>, f: Form, i: nat)
    requires i <= |t|
    ensures Search(t, f, i).None? <==> NoneBetween(t, f, i, |t| + 1)
    decreases |t| - i
  {
    ScanFormIffMatches(t, i, f);
    if ScanForm(t[i..], f).Some? {
      assert Search(t, f, i).Some?;
      assert FormMatchesAt(t, i, f);
    } else if i == |t| {
      assert Search(t, f, i).None?;
      forall k | i <= k < |t| + 1 ensures !FormMatchesAt(t, k, f) {
        assert k == i;
      }
    } else {
      assert Search(t, f, i) == Search(t, f, i + 1);
      SearchNone(t, f, i + 1);
      if NoneBetween(t, f, i + 1, |t| + 1) {
        forall k | i <= k < |t| + 1 ensures !FormMatchesAt(t, k, f) {
          if k > i { assert i + 1 <= k < |t| + 1; }
        }
      }
    }
  }

  /** The match a search finds is at the least position from `i` where `f`
      matches, spells the text it covers, and is what the scanner of `f`
      reads there. */
  lemma {:induction false} SearchFound(t: seq<char>, f: Form, i: nat)
    requires i <= |t| && Search(t, f, i).Some?
    ensures Derives(t, Search(t, f, i).value.start, Search(t, f, i).value.end, Search(t, f, i).value.form)
    ensures NoneBetween(t, f, i, Search(t, f, i).value.start)
    ensures ScanForm(t[Search(t, f, i).value.start..], f) ==
              Some((Search(t, f, i).value.form, t[Search(t, f, i).value.end..]))
    decreases |t| - i
  {
    if ScanForm(t[i..], f).Some? {
      SearchHere(t, f, i);
    } else {
      SearchSkip(t, f, i);
      SearchFound(t, f, i + 1);
    }
  }

  /** Where the scanner of `f` succeeds, the search stops. */
  lemma SearchHere(t: seq<char>, f: Form, i: nat)
    requires i <= |t| && ScanForm(t[i..], f).Some?
    ensures Search(t, f, i).Some? && Search(t, f, i).value.start == i
    ensures Derives(t, i, Search(t, f, i).value.end, Search(t, f, i).value.form)
    ensures ScanForm(t[i..], f) == Some((Search(t, f, i).value.form, t[Search(t, f, i).value.end..]))
  {
  }

  /** Where it fails, `f` cannot match there and the search moves on. */
  lemma SearchSkip(t: seq<char>, f: Form, i: nat)
    requires i <= |t| && ScanForm(t[i..], f).None? && Search(t, f, i).Some?
    ensures i < |t| && Search(t, f, i) == Search(t, f, i + 1) && !FormMatchesAt(t, i, f)
  {
    ScanFormIffMatches(t, i, f);
  }

  lemma SearchSpec(t: seq<char>, f: Form, i: nat)
    requires i <= |t|
    ensures Search(t, f, i).None? <==> NoneBetween(t, f, i, |t| + 1)
    ensures Search(t, f, i).Some? ==>
              Derives(t, Search(t, f, i).value.start, Search(t, f, i).value.end, Search(t, f, i).value.form) &&
              NoneBetween(t, f, i, Search(t, f, i).value.start) &&
              ScanForm(t[Search(t, f, i).value.start..], f) ==
                Some((Search(t, f, i).value.form, t[Search(t, f, i).value.end..]))
  {
    SearchNone(t, f, i);
    if Search(t, f, i).Some? { SearchFound(t, f, i); }
  }

  /** The derivation `parse_dimension` reads: after stripping, the first
      feet-and-inches expression anywhere in the text; failing that the first
      mixed fraction; failing that the first simple-inches expression. */
  function DimensionReading(text: string): (r: Option<Derivation>)
    ensures r.Some? ==> WellFormed(r.value)
  {
    var t := Strip(text);
    match Search(t, Feet, 0)
    case Some(m) => Some(m.form)
    case None =>
      match Search(t, Fraction, 0)
      case Some(m) => Some(m.form)
      case None =>
        match Search(t, Simple, 0)
        case Some(m) => Some(m.form)
        case None => None
  }

  /** `parse_dimension`: the number of inches of the reading, or None when
      there is no reading. */
  function ParseDimension(text: string): (r: Option<real>)
    ensures r.Some? ==> r.value >= 0.0
  {
    match DimensionReading(text)
    case Some(d) => Some(Value(d))
    case None => None
  }

  /** `parse_dimension` returns None exactly when no alternative can match anywhere in the stripped text. */
  lemma ParseDimensionNone(text: string)
    ensures ParseDimension(text).None? <==>
      forall k, f :: 0 <= k <= |Strip(text)| ==> !FormMatchesAt(Strip(text), k, f)
  {
    var t := Strip(text);
    assert ParseDimension(text).None? <==> DimensionReading(text).None?;
    SearchSpec(t, Feet, 0);
    SearchSpec(t, Fraction, 0);
    SearchSpec(t, Simple, 0);
    if DimensionReading(text).None? {
      forall k, f | 0 <= k <= |t| ensures !FormMatchesAt(t, k, f) {
        match f
        case Feet =>
        case Fraction =>
        case Simple =>
      }
    } else {
      if Search(t, Feet, 0).Some? {
        var m := Search(t, Feet, 0).value;
        assert FormMatchesAt(t, m.start, Feet);
      } else if Search(t, Fraction, 0).Some? {
        var m := Search(t, Fraction, 0).value;
        assert FormMatchesAt(t, m.start, Fraction);
      } else {
        var m := Search(t, Simple, 0).value;
        assert FormMatchesAt(t, m.start, Simple);
      }
    }
  }

  /** At the start of a text where alternative `f` matches, the search stops at once. */
  lemma SearchAtStart(t: seq<char>, f: Form, d: Derivation, rest: seq<char>)
    requires ScanForm(t, f) == Some((d, rest))
    ensures Search(t, f, 0) == Some(Match(0, |t| - |rest|, d))
  {
    assert t[0..] == t;
  }

  lemma EverySlice(t: seq<char>, i: nat, j: nat, p: char -> bool)
    requires i <= j <= |t| && Every(t, p)
    ensures Every(t[i..j], p)
  {
    forall k | 0 <= k < j - i ensures p(t[i..j][k]) { assert t[i..j][k] == t[i + k]; }
  }

  /** A text without a foot mark holds no feet-and-inches expression. */
  lemma NoFeetIn(t: seq<char>)
    requires Every(t, NotFootMark)
    ensures Search(t, Feet, 0).None?
  {
    forall k, j: nat, e: Derivation | 0 <= k <= |t| && Derives(t, k, j, e) && e.FeetInches?
      ensures false
    {
      EverySlice(t, k, j, NotFootMark);
      FeetHasFootMark(e);
    }
    SearchNone(t, Feet, 0);
  }

  /** A text without a slash holds no mixed fraction. */
  lemma NoFractionIn(t: seq<char>)
    requires Every(t, NotSlash)
    ensures Search(t, Fraction, 0).None?
  {
    forall k, j: nat, e: Derivation | 0 <= k <= |t| && Derives(t, k, j, e) && e.MixedFraction?
      ensures false
    {
      EverySlice(t, k, j, NotSlash);
      FractionHasSlash(e);
    }
    SearchNone(t, Fraction, 0);
  }

  /** No mixed fraction at `k0` has a longer whole part than `e0`. */
  ghost predicate LongestWhole(t: seq<char>, k0: nat, e0: Derivation)
    requires e0.MixedFraction?
  {
    forall j2: nat, e2: Derivation :: Derives(t, k0, j2, e2) && e2.MixedFraction? ==> |e2.whole| <= |e0.whole|
  }

  /** When a feet-and-inches expression occurs in the stripped text,
      `parse_dimension` returns the value of the leftmost one. */
  lemma ParseDimensionFeet(text: string, k: nat, j: nat, e: Derivation)
    requires Derives(Strip(text), k, j, e) && e.FeetInches?
    ensures exists k0: nat, j0: nat, e0: Derivation ::
              k0 <= k && Derives(Strip(text), k0, j0, e0) && e0.FeetInches? &&
              DimensionReading(text) == Some(e0) && NoneBetween(Strip(text), Feet, 0, k0)
  {
    var t := Strip(text);
    assert FormMatchesAt(t, k, Feet);
    SearchSpec(t, Feet, 0);
    var m := Search(t, Feet, 0).value;
    assert m.start <= k;
    assert DimensionReading(text) == Some(m.form);
  }

  /** When no feet-and-inches expression occurs but a mixed fraction does,
      `parse_dimension` returns the value of the leftmost mixed fraction, read
      with the longest whole part possible at that position. */
  lemma ParseDimensionFraction(text: string, k: nat, j: nat, e: Derivation)
    requires forall k1 :: 0 <= k1 <= |Strip(text)| ==> !FormMatchesAt(Strip(text), k1, Feet)
    requires Derives(Strip(text), k, j, e) && e.MixedFraction?
    ensures exists k0: nat, j0: nat, e0: Derivation ::
              k0 <= k && Derives(Strip(text), k0, j0, e0) && e0.MixedFraction? &&
              DimensionReading(text) == Some(e0) && NoneBetween(Strip(text), Fraction, 0, k0) &&
              LongestWhole(Strip(text), k0, e0)
  {
    var t := Strip(text);
    assert FormMatchesAt(t, k, Fraction);
    SearchSpec(t, Feet, 0);
    assert Search(t, Feet, 0).None?;
    SearchSpec(t, Fraction, 0);
    var m := Search(t, Fraction, 0).value;
    assert m.start <= k;
    FractionReading(text, m);
    ScannedLongest(t, m.start, m.form, t[m.end..]);
  }

  /** The mixed fraction the fraction scanner finds at `k0` has the longest
      whole part of any mixed fraction there. */
  lemma ScannedLongest(t: seq<char>, k0: nat, e0: Derivation, rest: seq<char>)
    requires k0 <= |t| && ScanForm(t[k0..], Fraction) == Some((e0, rest))
    ensures e0.MixedFraction? && LongestWhole(t, k0, e0)
  {
    forall j2: nat, e2: Derivation | Derives(t, k0, j2, e2) && e2.MixedFraction?
      ensures |e2.whole| <= |e0.whole|
    {
      DerivesSuffix(t, k0, j2, e2);
      FractionPreferred(e2, t[j2..]);
    }
  }

  /** When neither a feet-and-inches expression nor a mixed fraction occurs
      but simple inches do, `parse_dimension` returns the value of the
      leftmost simple-inches expression. */
  lemma ParseDimensionSimple(text: string, k: nat, j: nat, e: Derivation)
    requires forall k1 :: 0 <= k1 <= |Strip(text)| ==> !FormMatchesAt(Strip(text), k1, Feet)
    requires forall k1 :: 0 <= k1 <= |Strip(text)| ==> !FormMatchesAt(Strip(text), k1, Fraction)
    requires Derives(Strip(text), k, j, e) && e.SimpleInches?
    ensures exists k0: nat, j0: nat, e0: Derivation ::
              k0 <= k && Derives(Strip(text), k0, j0, e0) && e0.SimpleInches? &&
              DimensionReading(text) == Some(e0) && NoneBetween(Strip(text), Simple, 0, k0)
  {
    var t := Strip(text);
    assert FormMatchesAt(t, k, Simple);
    SearchSpec(t, Feet, 0);
    SearchSpec(t, Fraction, 0);
    SearchSpec(t, Simple, 0);
    assert Search(t, Feet, 0).None?;
    assert Search(t, Fraction, 0).None?;
    var m := Search(t, Simple, 0).value;
    assert m.start <= k;
    assert DimensionReading(text) == Some(m.form);
  }

  /** The text of a derivation has nothing to strip. */
  lemma StripRender(d: Derivation)
    requires WellFormed(d)
    ensures Strip(Render(d)) == Render(d)
  {
    RenderEnds(d);
  }

  /** A stripped text that starts with a feet-and-inches expression reads as
      the expression the feet scanner finds there. */
  lemma ReadFeetText(t: string, d: Derivation, rest: seq<char>)
    requires Strip(t) == t && ScanFeet(t) == Some((d, rest))
    ensures DimensionReading(t) == Some(d)
  {
    SearchAtStart(t, Feet, d, rest);
  }

  /** A stripped text where the search for feet and inches fails, starting
      with a mixed fraction, reads as the mixed fraction the fraction scanner
      finds there. */
  lemma ReadFractionText(t: string, d: Derivation, rest: seq<char>)
    requires Strip(t) == t && Search(t, Feet, 0).None? && ScanFraction(t) == Some((d, rest))
    ensures DimensionReading(t) == Some(d)
  {
    SearchAtStart(t, Fraction, d, rest);
    FractionReading(t, Match(0, |t| - |rest|, d));
  }

  /** When the search for feet and inches fails, the reading is the first
      mixed fraction found. */
  lemma FractionReading(text: string, m: Match)
    requires Search(Strip(text), Feet, 0).None? && Search(Strip(text), Fraction, 0) == Some(m)
    ensures DimensionReading(text) == Some(m.form)
  {
  }

  /** A stripped text where the searches for feet and inches and for a mixed
      fraction fail, starting with simple inches, reads as them. */
  lemma ReadSimpleText(t: string, d: Derivation, rest: seq<char>)
    requires Strip(t) == t && Search(t, Feet, 0).None? && Search(t, Fraction, 0).None?
    requires ScanSimple(t) == Some((d, rest))
    ensures DimensionReading(t) == Some(d)
  {
    SearchAtStart(t, Simple, d, rest);
  }

  /** The text of a feet-and-inches derivation reads as that derivation. */
  lemma RereadFeet(d: Derivation)
    requires d.FeetInches? && WellFormed(d)
    ensures DimensionReading(Render(d)) == Some(d)
  {
    StripRender(d);
    FeetComplete(d, []);
    ReadFeetText(Render(d), d, []);
  }

  /** The text of a simple-inches derivation reads as that derivation. */
  lemma RereadSimple(d: Derivation)
    requires d.SimpleInches? && WellFormed(d)
    ensures DimensionReading(Render(d)) == Some(d)
  {
    StripRender(d);
    SimpleHasNoFootMarkOrSlash(d);
    NoFeetIn(Render(d));
    NoFractionIn(Render(d));
    SimpleComplete(d, []);
    ReadSimpleText(Render(d), d, []);
  }

  /** The text of a mixed fraction reads as the mixed fraction the fraction
      scanner finds at its start. */
  lemma RereadFraction(d: Derivation)
    requires d.MixedFraction? && WellFormed(d)
    ensures ScanFraction(Render(d)).Some?
    ensures DimensionReading(Render(d)) == Some(ScanFraction(Render(d)).value.0)
  {
    StripRender(d);
    FractionHasNoFootMark(d);
    NoFeetIn(Render(d));
    FractionPreferred(d, []);
    var (e, rest) := ScanFraction(Render(d)).value;
    ReadFractionText(Render(d), e, rest);
  }

  /** The text of a feet-and-inches derivation parses to its value. */
  lemma ReparseFeet(d: Derivation)
    requires d.FeetInches? && WellFormed(d)
    ensures ParseDimension(Render(d)) == Some(Value(d))
  {
    RereadFeet(d);
  }

  /** The text of a simple-inches derivation parses to its value. */
  lemma ReparseSimple(d: Derivation)
    requires d.SimpleInches? && WellFormed(d)
    ensures ParseDimension(Render(d)) == Some(Value(d))
  {
    RereadSimple(d);
  }

  /** The text of a mixed fraction parses to its value when its whole part is
      set off from the numerator, or its numerator is one digit. */
  lemma ReparseFraction(d: Derivation)
    requires d.MixedFraction? && WellFormed(d)
    requires d.sp1 != [] || d.open || d.sp2 != [] || |d.num| == 1
    ensures ParseDimension(Render(d)) == Some(Value(d))
  {
    RereadFraction(d);
    FractionExact(d, []);
    ValueOfReading(Render(d), d);
  }

  /** A fraction match of the combined pattern is what the fraction scanner reads there. */
  lemma MatchAtScansFraction(s: string, i: nat)
    requires i <= |s| && MatchAt(s, i).Some? && MatchAt(s, i).value.form.MixedFraction?
    ensures ScanFraction(s[i..]) == Some((MatchAt(s, i).value.form, s[MatchAt(s, i).value.end..]))
  {
    var t := s[i..];
    var m := MatchAt(s, i).value;
    match ScanFeet(t)
    case Some((d, rest)) =>
      assert false;
    case None =>
      match ScanFraction(t)
      case None =>
        assert false;
      case Some((d, rest)) =>
        assert m == FoundAt(s, i, d, rest).value;
  }

  /** Reading the text of a match of the combined pattern again, on its own,
      gives a derivation with the same groups. */
  lemma RereadMatch(s: string, i: nat)
    requires i <= |s| && MatchAt(s, i).Some?
    ensures DimensionReading(s[i..MatchAt(s, i).value.end]).Some?
    ensures SameGroups(DimensionReading(s[i..MatchAt(s, i).value.end]).value, MatchAt(s, i).value.form)
  {
    var m := MatchAt(s, i).value;
    var d := m.form;
    assert s[i..m.end] == Render(d);
    match d
    case FeetInches(_, _, _, _, _, _, _) => RereadFeet(d);
    case SimpleInches(_, _, _) => RereadSimple(d);
    case MixedFraction(_, _, _, _, _, _) =>
      RereadFraction(d);
      var (e, restE) := ScanFraction(Render(d)).value;
      FractionPreferred(d, []);
      RereadFractionGroups(s, i, e, restE);
  }

  /** `parse_dimension` of the text of a match of the combined pattern is the
      value of the derivation the combined pattern read. */
  lemma ReparseMatch(s: string, i: nat)
    requires i <= |s| && MatchAt(s, i).Some?
    ensures ParseDimension(s[i..MatchAt(s, i).value.end]) == Some(Value(MatchAt(s, i).value.form))
  {
    RereadMatch(s, i);
    ValueOfReading(s[i..MatchAt(s, i).value.end], MatchAt(s, i).value.form);
  }

  lemma ValueOfReading(text: string, d: Derivation)
    requires DimensionReading(text).Some? && WellFormed(d) && SameGroups(DimensionReading(text).value, d)
    ensures ParseDimension(text) == Some(Value(d))
  {
    SameGroupsSameValue(DimensionReading(text).value, d);
  }

  /** A mixed fraction read from the text of a fraction match, with a whole
      part at least as long, has the groups of the one the match read. */
  lemma RereadFractionGroups(s: string, i: nat, e: Derivation, restE: seq<char>)
    requires i <= |s| && MatchAt(s, i).Some? && MatchAt(s, i).value.form.MixedFraction?
    requires e.MixedFraction? && WellFormed(e)
    requires RenderWith(e, restE) == s[i..MatchAt(s, i).value.end]
    requires |e.whole| >= |MatchAt(s, i).value.form.whole|
    ensures SameGroups(e, MatchAt(s, i).value.form)
  {
    var m := MatchAt(s, i).value;
    MatchAtScansFraction(s, i);
    FractionGroupsAt(s, i, m.end, e, restE, m.form);
  }

  lemma FractionGroupsAt(s: string, i: nat, j: nat, e: Derivation, restE: seq<char>, d: Derivation)
    requires i <= j <= |s| && ScanFraction(s[i..]) == Some((d, s[j..]))
    requires e.MixedFraction? && WellFormed(e) && RenderWith(e, restE) == s[i..j]
    requires |e.whole| >= |d.whole|
    ensures SameGroups(e, d)
  {
    SliceSplit(s, i, j);
    RenderWithMore(e, restE, s[j..]);
    FractionAgree(s[i..], e, restE + s[j..]);
  }

  lemma SliceSplit(s: seq<char>, i: nat, j: nat)
    requires i <= j <= |s|
    ensures s[i..] == s[i..j] + s[j..]
  {
  }

  /** Appending to the rest appends to the rendered text. */
  lemma RenderWithMore(d: Derivation, rest: seq<char>, x: seq<char>)
    ensures RenderWith(d, rest + x) == RenderWith(d, rest) + x
  {
    RenderConcat(d, rest);
    RenderConcat(d, rest + x);
  }

  /** Two readings of the same text as a mixed fraction, where the scanner's
      whole part is no longer than the other's, have the same groups. */
  lemma FractionAgree(t: seq<char>, e: Derivation, x: seq<char>)
    requires e.MixedFraction? && WellFormed(e) && RenderWith(e, x) == t
    requires ScanFraction(t).Some? && |e.whole| >= |ScanFraction(t).value.0.whole|
    ensures SameGroups(e, ScanFraction(t).value.0)
  {
    var (d, y) := ScanFraction(t).value;
    FractionPreferred(e, x);
    assert t[..|e.whole|] == e.whole;
    assert t[..|d.whole|] == d.whole;
  }

  // ---------------------------------------------------------------------------
  // extract_dimensions_from_text
  // ---------------------------------------------------------------------------

  /** All of `ds` carry `bbox` and a non-negative length. */
  predicate Boxed(ds: seq<Dimension>, bbox: BBox) {
    forall k :: 0 <= k < |ds| ==> ds[k].bbox == bbox && ds[k].inches >= 0.0
  }

  /** The dimension reported for one match: its raw text, the inches
      `parse_dimension` reads from that text, and the token's box; nothing
      when `parse_dimension` reads nothing. */
  function DimensionFor(text: string, m: Match, bbox: BBox): (r: seq<Dimension>)
    requires m.start <= m.end <= |text|
    ensures |r| <= 1 && Boxed(r, bbox)
    ensures r != [] ==> r[0].raw == text[m.start..m.end]
  {
    var raw := text[m.start..m.end];
    match ParseDimension(raw)
    case Some(v) => [Dimension(raw, v, bbox)]
    case None => []
  }

  /** The dimensions reported for the matches `ms`, in match order. */
  function DimensionsOf(text: string, ms: seq<Match>, bbox: BBox): (r: seq<Dimension>)
    requires InText(ms, text)
    ensures |r| <= |ms|
    ensures Boxed(r, bbox)
  {
    if ms == [] then []
    else
      assert InText(ms[1..], text) by {
        forall k | 0 <= k < |ms| - 1 ensures ms[1..][k] == ms[k + 1] { }
      }
      var head := DimensionFor(text, ms[0], bbox);
      var tail := DimensionsOf(text, ms[1..], bbox);
      BoxedConcat(head, tail, bbox);
      head + tail
  }

  lemma BoxedConcat(a: seq<Dimension>, b: seq<Dimension>, bbox: BBox)
    requires Boxed(a, bbox) && Boxed(b, bbox)
    ensures Boxed(a + b, bbox)
  {
    forall k | 0 <= k < |a + b| ensures (a + b)[k].bbox == bbox && (a + b)[k].inches >= 0.0 {
      if k >= |a| { assert (a + b)[k] == b[k - |a|]; }
    }
  }

  /** `extract_dimensions_from_text`: runs `finditer` over the token and keeps
      each match that `parse_dimension` reads, in order. */
  method ExtractDimensionsFromText(text: string, bbox: BBox) returns (dims: seq<Dimension>)
    ensures dims == DimensionsOf(text, Scan(text, 0), bbox)
  {
    var ms := FindMatches(text);
    dims := [];
    for k := 0 to |ms|
      invariant InText(ms[k..], text)
      invariant dims + DimensionsOf(text, ms[k..], bbox) == DimensionsOf(text, ms, bbox)
    {
      DimensionsStep(text, ms, k, bbox);
      ghost var before := dims;
      dims := AppendDimension(text, ms[k], bbox, dims);
      AppendAssoc(before, DimensionFor(text, ms[k], bbox), DimensionsOf(text, ms[k + 1..], bbox));
    }
  }

  /** The body of the loop over the matches: appends the match's dimension
      when `parse_dimension` reads its raw text. */
  method AppendDimension(text: string, m: Match, bbox: BBox, dims: seq<Dimension>) returns (r: seq<Dimension>)
    requires m.start <= m.end <= |text|
    ensures r == dims + DimensionFor(text, m, bbox)
  {
    var raw := text[m.start..m.end];
    var inches := ParseDimension(raw);
    DimensionForParse(text, m, bbox, inches);
    r := dims;
    if inches.Some? {
      r := dims + [Dimension(raw, inches.value, bbox)];
    }
  }

  lemma DimensionForParse(text: string, m: Match, bbox: BBox, inches: Option<real>)
    requires m.start <= m.end <= |text| && inches == ParseDimension(text[m.start..m.end])
    ensures inches.Some? ==> DimensionFor(text, m, bbox) == [Dimension(text[m.start..m.end], inches.value, bbox)]
    ensures inches.None? ==> DimensionFor(text, m, bbox) == []
  {
  }

  lemma AppendAssoc<T>(a: seq<T>, b: seq<T>, c: seq<T>)
    ensures (a + b) + c == a + (b + c)
  {
  }

  lemma DimensionsStep(text: string, ms: seq<Match>, k: nat, bbox: BBox)
    requires k < |ms| && InText(ms[k..], text)
    ensures InText(ms[k + 1..], text) && ms[k].start <= ms[k].end <= |text|
    ensures DimensionsOf(text, ms[k..], bbox) == DimensionFor(text, ms[k], bbox) + DimensionsOf(text, ms[k + 1..], bbox)
  {
    assert ms[k..][1..] == ms[k + 1..];
    assert ms[k..][0] == ms[k];
  }

  lemma DimensionsCons(text: string, m: Match, rest: seq<Match>, bbox: BBox, d: Dimension)
    requires m.start <= m.end <= |text| && InText([m] + rest, text) && DimensionFor(text, m, bbox) == [d]
    ensures InText(rest, text)
    ensures DimensionsOf(text, [m] + rest, bbox) == [d] + DimensionsOf(text, rest, bbox)
  {
    assert ([m] + rest)[1..] == rest;
  }

  /** The dimension reported for a match of the combined pattern is its raw
      text with the value of the derivation read there. */
  lemma MatchDimension(text: string, pos: nat, bbox: BBox)
    requires pos <= |text| && MatchAt(text, pos).Some?
    ensures DimensionFor(text, MatchAt(text, pos).value, bbox) ==
              [Dimension(text[pos..MatchAt(text, pos).value.end], Value(MatchAt(text, pos).value.form), bbox)]
  {
    ReparseMatch(text, pos);
  }

  /** One dimension per match, each with the matched text and the value of
      the derivation read there. */
  function Readings(text: string, ms: seq<Match>, bbox: BBox): seq<Dimension>
    requires InText(ms, text)
  {
    seq(|ms|, k requires 0 <= k < |ms| => Dimension(text[ms[k].start..ms[k].end], Value(ms[k].form), bbox))
  }

  lemma ReadingsCons(text: string, m: Match, rest: seq<Match>, bbox: BBox)
    requires m.start <= m.end <= |text| && WellFormed(m.form) && InText([m] + rest, text)
    ensures InText(rest, text)
    ensures Readings(text, [m] + rest, bbox) ==
              [Dimension(text[m.start..m.end], Value(m.form), bbox)] + Readings(text, rest, bbox)
  {
    var ms := [m] + rest;
    assert InText(rest, text) by {
      forall k | 0 <= k < |rest| ensures rest[k] == ms[k + 1] { }
    }
    var d := Dimension(text[m.start..m.end], Value(m.form), bbox);
    var r := Readings(text, ms, bbox);
    var t := Readings(text, rest, bbox);
    forall k | 0 <= k < |r| ensures r[k] == ([d] + t)[k] {
      if k > 0 {
        assert ms[k] == rest[k - 1];
      }
    }
  }

  /** The scan reports one dimension per match, worth the value of the
      derivation the combined pattern read there. */
  lemma {:induction false} ScanDimensions(text: string, pos: nat, bbox: BBox)
    requires pos <= |text|
    ensures DimensionsOf(text, Scan(text, pos), bbox) == Readings(text, Scan(text, pos), bbox)
    decreases |text| - pos
  {
    if pos < |text| {
      match MatchAt(text, pos)
      case Some(m) =>
        var rest := Scan(text, m.end);
        assert Scan(text, pos) == [m] + rest;
        ScanDimensions(text, m.end, bbox);
        MatchDimension(text, pos, bbox);
        ReadingsCons(text, m, rest, bbox);
        DimensionsCons(text, m, rest, bbox, Dimension(text[pos..m.end], Value(m.form), bbox));
      case None =>
        ScanDimensions(text, pos + 1, bbox);
    }
  }

  /** `extract_dimensions_from_text` reports one dimension per match of the
      combined pattern, in match order, each with the matched text, the
      value of the alternative that matched and the token's box. */
  lemma ExtractedDimensions(text: string, bbox: BBox)
    ensures |DimensionsOf(text, Scan(text, 0), bbox)| == |Scan(text, 0)|
    ensures forall k :: 0 <= k < |Scan(text, 0)| ==>
              DimensionsOf(text, Scan(text, 0), bbox)[k] ==
                Dimension(text[Scan(text, 0)[k].start..Scan(text, 0)[k].end], Value(Scan(text, 0)[k].form), bbox)
  {
    ScanDimensions(text, 0, bbox);
  }

  /** Every alternative ends in an inch mark, so without one nothing matches. */
  lemma NoMatchWithoutInchMark(s: string, i: nat)
    requires i <= |s| && Every(s, NotInchMark)
    ensures MatchAt(s, i).None?
  {
    if MatchAt(s, i).Some? {
      var m := MatchAt(s, i).value;
      RenderEnds(m.form);
    }
  }

  lemma {:induction false} ScanWithoutInchMark(s: string, pos: nat)
    requires pos <= |s| && Every(s, NotInchMark)
    ensures Scan(s, pos) == []
    decreases |s| - pos
  {
    if pos < |s| {
      NoMatchWithoutInchMark(s, pos);
      ScanWithoutInchMark(s, pos + 1);
    }
  }

  /** A token without an inch mark yields no dimensions. */
  lemma NoDimensionsWithoutInchMark(text: string, bbox: BBox)
    requires Every(text, NotInchMark)
    ensures DimensionsOf(text, Scan(text, 0), bbox) == []
  {
    ScanWithoutInchMark(text, 0);
  }
}
