// The three dimension grammars of src/dimension_parser.py, written as
// derivations (which characters fill which part of the pattern), and one
// greedy scanner per grammar that finds the derivation a backtracking regex
// engine settles on when the pattern is anchored at the start of a text.
//
//   feet and inches   (\d+)\s*['′]\s*(\d+(?:\.\d+)?)\s*["″]
//   mixed fraction    (\d+)\s*[\(]?\s*(\d+)\s*/\s*(\d+)\s*[\)]?\s*["″]
//   simple inches     (\d+(?:\.\d+)?)\s*["″]
module DimensionGrammar {
  import opened Chars
  import opened Wrappers

  /** `\d+(?:\.\d+)?`: the integer digits and the fraction digits; an empty
      `fracDigits` means the optional `.\d+` group did not take part. */
  datatype Decimal = Decimal(intDigits: seq<char>, fracDigits: seq<char>)

  // `\s*/\s*(\d+)\s*[\)]?\s*["″]`, the part of a mixed fraction after the numerator.
  datatype FractionTail =
    FractionTail(sp3: seq<char>, sp4: seq<char>, den: seq<char>, sp5: seq<char>,
                 close: bool, sp6: seq<char>, mark: char)

  /** One way the characters of a match fill one of the three alternatives. */
  datatype Derivation =
    | FeetInches(feet: seq<char>, sp1: seq<char>, footMark: char, sp2: seq<char>,
                 inches: Decimal, sp3: seq<char>, inchMark: char)
    | MixedFraction(whole: seq<char>, sp1: seq<char>, open: bool, sp2: seq<char>,
                    num: seq<char>, tail: FractionTail)
    | SimpleInches(amount: Decimal, sp: seq<char>, mark: char)

  // ---------------------------------------------------------------------------
  // The grammars: which derivations are allowed, and the text each one spells
  // ---------------------------------------------------------------------------

  predicate DecimalOk(x: Decimal) {
    |x.intDigits| > 0 && AllIn(x.intDigits, Digit) && AllIn(x.fracDigits, Digit)
  }

  predicate TailOk(t: FractionTail) {
    AllIn(t.sp3, Space) && AllIn(t.sp4, Space) && |t.den| > 0 && AllIn(t.den, Digit) &&
    AllIn(t.sp5, Space) && AllIn(t.sp6, Space) && IsInchMark(t.mark)
  }

  predicate WellFormed(d: Derivation) {
    match d
    case FeetInches(feet, sp1, fm, sp2, inches, sp3, im) =>
      |feet| > 0 && AllIn(feet, Digit) && AllIn(sp1, Space) && IsFootMark(fm) &&
      AllIn(sp2, Space) && DecimalOk(inches) && AllIn(sp3, Space) && IsInchMark(im)
    case MixedFraction(whole, sp1, _, sp2, num, tail) =>
      |whole| > 0 && AllIn(whole, Digit) && AllIn(sp1, Space) && AllIn(sp2, Space) &&
      |num| > 0 && AllIn(num, Digit) && TailOk(tail)
    case SimpleInches(amount, sp, mark) =>
      DecimalOk(amount) && AllIn(sp, Space) && IsInchMark(mark)
  }

  function Opt(present: bool, c: char): seq<char> {
    if present then [c] else []
  }

  /** The text of a decimal, followed by `rest`. */
  function DecimalWith(x: Decimal, rest: seq<char>): seq<char> {
    x.intDigits + (if x.fracDigits == [] then rest else ['.'] + (x.fracDigits + rest))
  }

  function TailWith(t: FractionTail, rest: seq<char>): seq<char> {
    t.sp3 + (['/'] + (t.sp4 + (t.den + (t.sp5 + (Opt(t.close, ')') + (t.sp6 + ([t.mark] + rest)))))))
  }

  /** The text a derivation spells, followed by `rest`. */
  function RenderWith(d: Derivation, rest: seq<char>): seq<char> {
    match d
    case FeetInches(feet, sp1, fm, sp2, inches, sp3, im) =>
      feet + (sp1 + ([fm] + (sp2 + DecimalWith(inches, sp3 + ([im] + rest)))))
    case MixedFraction(whole, sp1, open, sp2, num, tail) =>
      whole + (sp1 + (Opt(open, '(') + (sp2 + (num + TailWith(tail, rest)))))
    case SimpleInches(amount, sp, mark) =>
      DecimalWith(amount, sp + ([mark] + rest))
  }

  /** The text a derivation spells. */
  function Render(d: Derivation): seq<char> {
    RenderWith(d, [])
  }

  // ---------------------------------------------------------------------------
  // Values (exact, before Python's float conversion and rounding)
  // ---------------------------------------------------------------------------

  /** `float()` of a `\d+(?:\.\d+)?` group, as an exact rational. */
  function DecimalValue(x: Decimal): (v: real)
    requires DecimalOk(x)
    ensures v >= 0.0
  {
    DigitsValue(x.intDigits) as real + DecimalsValue(x.fracDigits)
  }

  /** `parse_fraction`: whole + numerator / denominator, and 0.0 for the
      whole expression when the denominator is zero (the ZeroDivisionError
      handler). */
  function FractionValue(whole: seq<char>, num: seq<char>, den: seq<char>): (v: real)
    requires AllIn(whole, Digit) && AllIn(num, Digit) && AllIn(den, Digit)
    ensures v >= 0.0
    ensures DigitsValue(den) == 0 ==> v == 0.0
  {
    if DigitsValue(den) == 0 then 0.0
    else DigitsValue(whole) as real + DigitsValue(num) as real / DigitsValue(den) as real
  }

  /** The number of inches `parse_dimension` computes from the groups of a derivation. */
  function Value(d: Derivation): (v: real)
    requires WellFormed(d)
    ensures v >= 0.0
  {
    match d
    case FeetInches(feet, _, _, _, inches, _, _) => DigitsValue(feet) as real * 12.0 + DecimalValue(inches)
    case MixedFraction(whole, _, _, _, num, tail) => FractionValue(whole, num, tail.den)
    case SimpleInches(amount, _, _) => DecimalValue(amount)
  }

  /** `e` and `d` are the same alternative with the same captured digit
      groups, the only parts `parse_dimension` converts to numbers. */
  predicate SameGroups(e: Derivation, d: Derivation) {
    match e
    case FeetInches(feet, _, _, _, inches, _, _) => d.FeetInches? && d.feet == feet && d.inches == inches
    case MixedFraction(whole, _, _, _, num, tail) =>
      d.MixedFraction? && d.whole == whole && d.num == num && d.tail.den == tail.den
    case SimpleInches(amount, _, _) => d.SimpleInches? && d.amount == amount
  }

  /** The value depends on the captured groups only. */
  lemma SameGroupsSameValue(e: Derivation, d: Derivation)
    requires WellFormed(e) && WellFormed(d) && SameGroups(e, d)
    ensures Value(e) == Value(d)
  {
  }

  // ---------------------------------------------------------------------------
  // Greedy scanners: each one reads one alternative at the start of `t` and
  // returns the derivation and the unread rest.
  // ---------------------------------------------------------------------------

  function ScanDecimal(t: seq<char>): (r: Option<(Decimal, seq<char>)>)
    ensures r.Some? ==> DecimalOk(r.value.0) && DecimalWith(r.value.0, r.value.1) == t
    ensures r.Some? ==> Stops(r.value.1, Digit)
    ensures r.None? <==> Stops(t, Digit)
  {
    var (ip, r1) := SplitRun(t, Digit);
    if ip == [] then None
    else if |r1| >= 2 && r1[0] == '.' && IsDigit(r1[1]) then
      var (fp, r2) := SplitRun(r1[1..], Digit);
      assert ['.'] + (fp + r2) == r1;
      Some((Decimal(ip, fp), r2))
    else
      Some((Decimal(ip, []), r1))
  }

  /** `\s*["″]`: whitespace, an inch mark, and the rest. */
  function ScanInchMark(t: seq<char>): (r: Option<(seq<char>, char, seq<char>)>)
    ensures r.Some? ==> AllIn(r.value.0, Space) && IsInchMark(r.value.1)
    ensures r.Some? ==> r.value.0 + ([r.value.1] + r.value.2) == t
  {
    var (sp, r1) := SplitRun(t, Space);
    if r1 == [] || !IsInchMark(r1[0]) then None
    else
      assert r1 == [r1[0]] + r1[1..];
      Some((sp, r1[0], r1[1..]))
  }

  /** `\s*[\)]?\s*["″]`: the end of a mixed fraction. */
  function ScanCloseMark(t: seq<char>): (r: Option<(seq<char>, bool, seq<char>, char, seq<char>)>)
    ensures r.Some? ==> AllIn(r.value.0, Space) && AllIn(r.value.2, Space) && IsInchMark(r.value.3)
    ensures r.Some? ==> r.value.0 + (Opt(r.value.1, ')') + (r.value.2 + ([r.value.3] + r.value.4))) == t
  {
    var (sp5, r1) := SplitRun(t, Space);
    var close := r1 != [] && r1[0] == ')';
    var r2 := if close then r1[1..] else r1;
    assert Opt(close, ')') + r2 == r1;
    match ScanInchMark(r2)
    case None => None
    case Some((sp6, mark, rest)) => Some((sp5, close, sp6, mark, rest))
  }

  function ScanTail(t: seq<char>): (r: Option<(FractionTail, seq<char>)>)
    ensures r.Some? ==> TailOk(r.value.0) && TailWith(r.value.0, r.value.1) == t
  {
    var (sp3, r1) := SplitRun(t, Space);
    if r1 == [] || r1[0] != '/' then None
    else
      assert r1 == ['/'] + r1[1..];
      var (sp4, r2) := SplitRun(r1[1..], Space);
      var (den, r3) := SplitRun(r2, Digit);
      if den == [] then None
      else
        match ScanCloseMark(r3)
        case None => None
        case Some((sp5, close, sp6, mark, rest)) =>
          Some((FractionTail(sp3, sp4, den, sp5, close, sp6, mark), rest))
  }

  /** The feet-and-inches alternative anchored at the start of `t`. */
  function ScanFeet(t: seq<char>): (r: Option<(Derivation, seq<char>)>)
    ensures r.Some? ==> r.value.0.FeetInches? && WellFormed(r.value.0) && RenderWith(r.value.0, r.value.1) == t
  {
    var (feet, r1) := SplitRun(t, Digit);
    if feet == [] then None
    else
      var (sp1, r2) := SplitRun(r1, Space);
      if r2 == [] || !IsFootMark(r2[0]) then None
      else
        assert r2 == [r2[0]] + r2[1..];
        var (sp2, r3) := SplitRun(r2[1..], Space);
        match ScanDecimal(r3)
        case None => None
        case Some((inches, r4)) =>
          match ScanInchMark(r4)
          case None => None
          case Some((sp3, mark, rest)) => Some((FeetInches(feet, sp1, r2[0], sp2, inches, sp3, mark), rest))
  }

  /** The mixed-fraction alternative anchored at the start of `t`. The engine
      first gives the whole part the entire digit run; when that fails it
      backtracks one digit at a time, and every shorter whole part leaves the
      same text after the numerator, so the only other candidate is the run
      minus its last digit, with that digit as the numerator. */
  function ScanFraction(t: seq<char>): (r: Option<(Derivation, seq<char>)>)
    ensures r.Some? ==> r.value.0.MixedFraction? && WellFormed(r.value.0) && RenderWith(r.value.0, r.value.1) == t
  {
    var (whole, r1) := SplitRun(t, Digit);
    if whole == [] then None else ScanFractionAfter(whole, r1)
  }

  /** The mixed fraction at the start of `whole + r1`, where `whole` is the
      entire digit run there. */
  function ScanFractionAfter(whole: seq<char>, r1: seq<char>): (r: Option<(Derivation, seq<char>)>)
    requires |whole| > 0 && AllIn(whole, Digit)
    ensures r.Some? ==> r.value.0.MixedFraction? && WellFormed(r.value.0) && RenderWith(r.value.0, r.value.1) == whole + r1
  {
    match ScanSeparatedFraction(whole, r1)
    case Some(found) => Some(found)
    case None =>
      if |whole| < 2 then None
      else
        var n := |whole| - 1;
        SplitLast(whole, r1);
        AllInPrefix(whole, n, Digit);
        ScanJoinedFraction(whole[..n], whole[n], r1)
  }

  /** The mixed fraction whose whole part is `init` and whose numerator is the
      single digit `last`, with nothing between them. */
  function ScanJoinedFraction(init: seq<char>, last: char, r1: seq<char>): (r: Option<(Derivation, seq<char>)>)
    requires |init| > 0 && AllIn(init, Digit) && IsDigit(last)
    ensures r.Some? ==> r.value.0.MixedFraction? && WellFormed(r.value.0)
    ensures r.Some? ==> r.value.0.whole == init && r.value.0.num == [last]
    ensures r.Some? ==> RenderWith(r.value.0, r.value.1) == init + ([last] + r1)
  {
    match ScanTail(r1)
    case None => None
    case Some((tail, rest)) =>
      var d := MixedFraction(init, [], false, [], [last], tail);
      assert AllIn([last], Digit) by {
        forall k | 0 <= k < 1 ensures In([last][k], Digit) { assert [last][k] == last; }
      }
      assert WellFormed(d);
      assert RenderWith(d, rest) == init + ([last] + r1) by {
        assert Opt(false, '(') == [];
        assert [] + ([last] + r1) == [last] + r1;
      }
      Some((d, rest))
  }

  /** `\s*[\(]?\s*`: what may separate the whole part from the numerator. */
  function ScanOpen(t: seq<char>): (r: (seq<char>, bool, seq<char>, seq<char>))
    ensures AllIn(r.0, Space) && AllIn(r.2, Space)
    ensures r.0 + (Opt(r.1, '(') + (r.2 + r.3)) == t
  {
    var (sp1, r1) := SplitRun(t, Space);
    var open := r1 != [] && r1[0] == '(';
    var r2 := if open then r1[1..] else r1;
    assert Opt(open, '(') + r2 == r1;
    var (sp2, r3) := SplitRun(r2, Space);
    (sp1, open, sp2, r3)
  }

  /** The mixed fraction whose whole part is the entire digit run `whole`. */
  function ScanSeparatedFraction(whole: seq<char>, r1: seq<char>): (r: Option<(Derivation, seq<char>)>)
    requires |whole| > 0 && AllIn(whole, Digit)
    ensures r.Some? ==> r.value.0.MixedFraction? && WellFormed(r.value.0) && r.value.0.whole == whole
    ensures r.Some? ==> RenderWith(r.value.0, r.value.1) == whole + r1
  {
    var (sp1, open, sp2, r4) := ScanOpen(r1);
    var (num, r5) := SplitRun(r4, Digit);
    if num == [] then None
    else
      match ScanTail(r5)
      case None => None
      case Some((tail, rest)) => Some((MixedFraction(whole, sp1, open, sp2, num, tail), rest))
  }

  /** The simple-inches alternative anchored at the start of `t`. */
  function ScanSimple(t: seq<char>): (r: Option<(Derivation, seq<char>)>)
    ensures r.Some? ==> r.value.0.SimpleInches? && WellFormed(r.value.0) && RenderWith(r.value.0, r.value.1) == t
  {
    match ScanDecimal(t)
    case None => None
    case Some((amount, r1)) =>
      match ScanInchMark(r1)
      case None => None
      case Some((sp, mark, rest)) => Some((SimpleInches(amount, sp, mark), rest))
  }

  // ---------------------------------------------------------------------------
  // Completeness: every derivation of an alternative at the start of a text is
  // found by that alternative's scanner (for the fraction: one with a whole
  // part at least as long, which is the engine's preference).
  // ---------------------------------------------------------------------------

  lemma SplitLast(w: seq<char>, rest: seq<char>)
    requires |w| > 0
    ensures w[..|w| - 1] + ([w[|w| - 1]] + rest) == w + rest
  {
    assert w[..|w| - 1] + [w[|w| - 1]] == w;
  }

  lemma DropLastOfConcat(a: seq<char>, b: seq<char>)
    requires |b| > 0
    ensures (a + b)[..|a + b| - 1] == a + b[..|b| - 1] && (a + b)[|a + b| - 1] == b[|b| - 1]
  {
  }

  lemma AllInPrefix(s: seq<char>, n: nat, cls: CharClass)
    requires n <= |s| && AllIn(s, cls)
    ensures AllIn(s[..n], cls)
  {
    forall k | 0 <= k < n ensures In(s[..n][k], cls) { assert s[..n][k] == s[k]; }
  }

  lemma AllInConcat(a: seq<char>, b: seq<char>, cls: CharClass)
    requires AllIn(a, cls) && AllIn(b, cls)
    ensures AllIn(a + b, cls)
  {
    forall k | 0 <= k < |a + b| ensures In((a + b)[k], cls) {
      if k >= |a| { assert (a + b)[k] == b[k - |a|]; }
    }
  }

  /** A run of class `cls` followed by `rest` starts with a character of class
      `cls` or, when the run is empty, with the first character of `rest`. */
  lemma StopsAfter(run: seq<char>, rest: seq<char>, cls: CharClass, other: CharClass)
    requires AllIn(run, cls) && Stops(rest, other)
    requires forall c :: In(c, cls) ==> !In(c, other)
    ensures Stops(run + rest, other)
  {
    if run != [] {
      assert (run + rest)[0] == run[0];
    } else {
      assert run + rest == rest;
    }
  }

  lemma {:induction false} DecimalComplete(x: Decimal, rest: seq<char>)
    requires DecimalOk(x)
    requires rest == [] || (!IsDigit(rest[0]) && rest[0] != '.')
    ensures ScanDecimal(DecimalWith(x, rest)) == Some((x, rest))
  {
    var ip, fp := x.intDigits, x.fracDigits;
    if fp == [] {
      SplitRunUnique(ip, rest, Digit);
    } else {
      var r1 := ['.'] + (fp + rest);
      SplitRunUnique(ip, r1, Digit);
      assert r1[1] == fp[0] && r1[1..] == fp + rest;
      SplitRunUnique(fp, rest, Digit);
    }
  }

  lemma InchMarkComplete(sp: seq<char>, mark: char, rest: seq<char>)
    requires AllIn(sp, Space) && IsInchMark(mark)
    ensures ScanInchMark(sp + ([mark] + rest)) == Some((sp, mark, rest))
  {
    assert ([mark] + rest)[0] == mark;
    SplitRunUnique(sp, [mark] + rest, Space);
    assert ([mark] + rest)[1..] == rest;
  }

  lemma CloseMarkComplete(sp5: seq<char>, close: bool, sp6: seq<char>, mark: char, rest: seq<char>)
    requires AllIn(sp5, Space) && AllIn(sp6, Space) && IsInchMark(mark)
    ensures ScanCloseMark(sp5 + (Opt(close, ')') + (sp6 + ([mark] + rest)))).Some?
    ensures ScanCloseMark(sp5 + (Opt(close, ')') + (sp6 + ([mark] + rest)))).value.4 == rest
  {
    var markRest := [mark] + rest;
    var r2 := sp6 + markRest;
    var r1 := Opt(close, ')') + r2;
    InchMarkComplete(sp6, mark, rest);
    if close {
      assert r1[0] == ')' && r1[1..] == r2;
      SplitRunUnique(sp5, r1, Space);
    } else {
      assert sp5 + r1 == (sp5 + sp6) + markRest;
      AllInConcat(sp5, sp6, Space);
      assert markRest[0] == mark;
      SplitRunUnique(sp5 + sp6, markRest, Space);
      InchMarkComplete([], mark, rest);
      assert [] + markRest == markRest;
    }
  }

  lemma {:induction false} TailComplete(x: FractionTail, rest: seq<char>)
    requires TailOk(x)
    ensures ScanTail(TailWith(x, rest)).Some?
    ensures ScanTail(TailWith(x, rest)).value.0.den == x.den
    ensures ScanTail(TailWith(x, rest)).value.1 == rest
  {
    var r3 := x.sp5 + (Opt(x.close, ')') + (x.sp6 + ([x.mark] + rest)));
    var r2 := x.den + r3;
    var r1 := ['/'] + (x.sp4 + r2);
    assert r1[0] == '/';
    SplitRunUnique(x.sp3, r1, Space);
    assert r1[1..] == x.sp4 + r2;
    assert r2[0] == x.den[0];
    SplitRunUnique(x.sp4, r2, Space);
    CloseMarkStopsDigits(x.sp5, x.close, x.sp6, x.mark, rest);
    SplitRunUnique(x.den, r3, Digit);
    CloseMarkComplete(x.sp5, x.close, x.sp6, x.mark, rest);
  }

  /** What follows the denominator does not start with a digit. */
  lemma CloseMarkStopsDigits(sp5: seq<char>, close: bool, sp6: seq<char>, mark: char, rest: seq<char>)
    requires AllIn(sp5, Space) && AllIn(sp6, Space) && IsInchMark(mark)
    ensures Stops(sp5 + (Opt(close, ')') + (sp6 + ([mark] + rest))), Digit)
  {
    var r3 := sp5 + (Opt(close, ')') + (sp6 + ([mark] + rest)));
    if sp5 != [] { assert r3[0] == sp5[0]; }
    else if close { assert r3[0] == ')'; }
    else if sp6 != [] { assert r3[0] == sp6[0]; }
    else { assert r3[0] == mark; }
  }

  /** A feet-and-inches derivation is the one the feet scanner finds. */
  lemma {:induction false} FeetComplete(d: Derivation, rest: seq<char>)
    requires d.FeetInches? && WellFormed(d)
    ensures ScanFeet(RenderWith(d, rest)) == Some((d, rest))
  {
    var r4 := d.sp3 + ([d.inchMark] + rest);
    var r3 := DecimalWith(d.inches, r4);
    var r2 := [d.footMark] + (d.sp2 + r3);
    var r1 := d.sp1 + r2;
    assert r2[0] == d.footMark && r2[1..] == d.sp2 + r3;
    StopsAfter(d.sp1, r2, Space, Digit);
    SplitRunUnique(d.feet, r1, Digit);
    SplitRunUnique(d.sp1, r2, Space);
    assert r3[0] == d.inches.intDigits[0];
    SplitRunUnique(d.sp2, r3, Space);
    assert r4 == [] || (!IsDigit(r4[0]) && r4[0] != '.') by {
      if d.sp3 != [] { assert r4[0] == d.sp3[0]; } else { assert r4[0] == d.inchMark; }
    }
    DecimalComplete(d.inches, r4);
    InchMarkComplete(d.sp3, d.inchMark, rest);
  }

  /** A simple-inches derivation is the one the simple scanner finds. */
  lemma {:induction false} SimpleComplete(d: Derivation, rest: seq<char>)
    requires d.SimpleInches? && WellFormed(d)
    ensures ScanSimple(RenderWith(d, rest)) == Some((d, rest))
  {
    var r1 := d.sp + ([d.mark] + rest);
    assert r1 == [] || (!IsDigit(r1[0]) && r1[0] != '.') by {
      if d.sp != [] { assert r1[0] == d.sp[0]; } else { assert r1[0] == d.mark; }
    }
    DecimalComplete(d.amount, r1);
    InchMarkComplete(d.sp, d.mark, rest);
  }

  /** What separates the whole part from the numerator is read up to the numerator. */
  lemma OpenComplete(sp1: seq<char>, open: bool, sp2: seq<char>, r: seq<char>)
    requires AllIn(sp1, Space) && AllIn(sp2, Space)
    requires r != [] && IsDigit(r[0])
    ensures ScanOpen(sp1 + (Opt(open, '(') + (sp2 + r))).3 == r
  {
    if open {
      var r1 := ['('] + (sp2 + r);
      assert r1[0] == '(' && r1[1..] == sp2 + r;
      SplitRunUnique(sp1, r1, Space);
      SplitRunUnique(sp2, r, Space);
    } else {
      assert sp1 + (Opt(open, '(') + (sp2 + r)) == (sp1 + sp2) + r;
      AllInConcat(sp1, sp2, Space);
      SplitRunUnique(sp1 + sp2, r, Space);
      SplitRunUnique([], r, Space);
      assert [] + r == r;
    }
  }

  /** A mixed fraction whose whole part is followed by a separator is found by
      the separated scanner, with the same groups and extent. */
  lemma {:induction false} SeparatedComplete(d: Derivation, rest: seq<char>)
    requires d.MixedFraction? && WellFormed(d)
    ensures ScanSeparatedFraction(d.whole, d.sp1 + (Opt(d.open, '(') + (d.sp2 + (d.num + TailWith(d.tail, rest))))).Some?
    ensures var r := ScanSeparatedFraction(d.whole, d.sp1 + (Opt(d.open, '(') + (d.sp2 + (d.num + TailWith(d.tail, rest))))).value;
            r.0.num == d.num && r.0.tail.den == d.tail.den && r.1 == rest
  {
    NumeratorRun(d, rest);
    SeparatedScan(d.whole, d.sp1, d.open, d.sp2, d.num, d.tail, rest);
  }

  /** The separated scanner reads the numerator and the tail that follow the
      separator, given that the numerator is the entire digit run there. */
  lemma SeparatedScan(whole: seq<char>, sp1: seq<char>, open: bool, sp2: seq<char>, num: seq<char>,
                      x: FractionTail, rest: seq<char>)
    requires |whole| > 0 && AllIn(whole, Digit) && AllIn(sp1, Space) && AllIn(sp2, Space)
    requires num != [] && TailOk(x) && SplitRun(num + TailWith(x, rest), Digit) == (num, TailWith(x, rest))
    ensures ScanSeparatedFraction(whole, sp1 + (Opt(open, '(') + (sp2 + (num + TailWith(x, rest))))).Some?
    ensures var r := ScanSeparatedFraction(whole, sp1 + (Opt(open, '(') + (sp2 + (num + TailWith(x, rest))))).value;
            r.0.num == num && r.0.tail.den == x.den && r.1 == rest
  {
    var tail := TailWith(x, rest);
    assert (num + tail)[0] == num[0] && IsDigit(num[0]);
    OpenComplete(sp1, open, sp2, num + tail);
    TailComplete(x, rest);
  }

  lemma NumeratorRun(d: Derivation, rest: seq<char>)
    requires d.MixedFraction? && WellFormed(d)
    ensures SplitRun(d.num + TailWith(d.tail, rest), Digit) == (d.num, TailWith(d.tail, rest))
  {
    var tail := TailWith(d.tail, rest);
    assert Stops(tail, Digit) by {
      if d.tail.sp3 != [] { assert tail[0] == d.tail.sp3[0]; } else { assert tail[0] == '/'; }
    }
    SplitRunUnique(d.num, tail, Digit);
  }

  /** `r` is a mixed-fraction match whose whole part is at least as long as
      that of `d`; when the lengths agree, it has the numerator and the
      denominator of `d` and ends where `d` does, before `rest`. */
  predicate PreferredOver(r: Option<(Derivation, seq<char>)>, d: Derivation, rest: seq<char>)
    requires d.MixedFraction?
  {
    r.Some? && r.value.0.MixedFraction? &&
    |r.value.0.whole| >= |d.whole| &&
    (|r.value.0.whole| == |d.whole| ==>
       r.value.0.num == d.num && r.value.0.tail.den == d.tail.den && r.value.1 == rest)
  }

  /** Whatever mixed-fraction derivation sits at the start of a text, the
      fraction scanner succeeds there, with a whole part at least as long;
      when the whole parts have the same length, the numerator, the
      denominator and the extent of the match are those of the derivation. */
  lemma {:induction false} FractionPreferred(d: Derivation, rest: seq<char>)
    requires d.MixedFraction? && WellFormed(d)
    ensures PreferredOver(ScanFraction(RenderWith(d, rest)), d, rest)
  {
    var t := RenderWith(d, rest);
    var tail := TailWith(d.tail, rest);
    var r1 := d.sp1 + (Opt(d.open, '(') + (d.sp2 + (d.num + tail)));
    assert t == d.whole + r1;
    if d.sp1 != [] || d.open || d.sp2 != [] {
      // The whole part is the entire digit run and the separated form succeeds.
      assert Stops(r1, Digit) by {
        if d.sp1 != [] { assert r1[0] == d.sp1[0]; }
        else if d.open { assert r1[0] == '('; }
        else { assert r1[0] == d.sp2[0]; }
      }
      SplitRunUnique(d.whole, r1, Digit);
      SeparatedComplete(d, rest);
    } else {
      // No separator: the digit run is the whole part and the numerator together.
      if |d.num| == 1 {
        JoinedExact(d, rest);
      } else {
        JoinedLongerWhole(d, rest);
      }
    }
  }

  /** On a text that starts with a digit run, the fraction scanner reads on
      from the end of that run. */
  lemma ScanFractionRun(run: seq<char>, tail: seq<char>)
    requires |run| > 0 && AllIn(run, Digit) && Stops(tail, Digit)
    ensures ScanFraction(run + tail) == ScanFractionAfter(run, tail)
  {
    SplitRunUnique(run, tail, Digit);
  }

  /** Right before a fraction tail there is no numerator to read: the tail
      starts with whitespace and a slash. */
  lemma NoNumeratorBeforeTail(run: seq<char>, x: FractionTail, rest: seq<char>)
    requires |run| > 0 && AllIn(run, Digit) && TailOk(x)
    ensures ScanSeparatedFraction(run, TailWith(x, rest)).None?
  {
    var after := ['/'] + (x.sp4 + (x.den + (x.sp5 + (Opt(x.close, ')') + (x.sp6 + ([x.mark] + rest))))));
    assert after[0] == '/';
    SplitRunUnique(x.sp3, after, Space);
    assert [] + after == after;
    SplitRunUnique([], after, Space);
    SplitRunUnique([], after, Digit);
  }

  /** The fraction scanner reads back the groups of a mixed fraction whose
      whole part is set off from the numerator, or whose numerator is one
      digit written right after the whole part. */
  lemma FractionExact(d: Derivation, rest: seq<char>)
    requires d.MixedFraction? && WellFormed(d)
    requires d.sp1 != [] || d.open || d.sp2 != [] || |d.num| == 1
    ensures ScanFraction(RenderWith(d, rest)).Some?
    ensures SameGroups(ScanFraction(RenderWith(d, rest)).value.0, d)
    ensures ScanFraction(RenderWith(d, rest)).value.1 == rest
  {
    var t := RenderWith(d, rest);
    var tail := TailWith(d.tail, rest);
    if d.sp1 != [] || d.open || d.sp2 != [] {
      var r1 := d.sp1 + (Opt(d.open, '(') + (d.sp2 + (d.num + tail)));
      assert t == d.whole + r1;
      assert Stops(r1, Digit) by {
        if d.sp1 != [] { assert r1[0] == d.sp1[0]; }
        else if d.open { assert r1[0] == '('; }
        else { assert r1[0] == d.sp2[0]; }
      }
      SplitRunUnique(d.whole, r1, Digit);
      SeparatedComplete(d, rest);
      assert ScanFraction(t) == ScanSeparatedFraction(d.whole, r1);
    } else {
      JoinedExact(d, rest);
    }
  }

  lemma JoinedExact(d: Derivation, rest: seq<char>)
    requires d.MixedFraction? && WellFormed(d)
    requires d.sp1 == [] && !d.open && d.sp2 == [] && |d.num| == 1
    ensures ScanFraction(RenderWith(d, rest)).Some?
    ensures SameGroups(ScanFraction(RenderWith(d, rest)).value.0, d)
    ensures ScanFraction(RenderWith(d, rest)).value.1 == rest
  {
    OneDigitNumerator(d.whole, d.num);
    JoinedRun(d, rest);
    JoinedScan(d.whole, d.num, d.tail, rest);
  }

  lemma OneDigitNumerator(whole: seq<char>, num: seq<char>)
    requires |num| == 1
    ensures whole + num[..|num| - 1] == whole && [num[|num| - 1]] == num
  {
    assert num[..0] == [];
  }

  /** A numerator of two or more digits written right after the whole part is
      not read as written: the engine gives the whole part every digit but the
      last, so `123/4"` reads as 12 and 3/4. */
  lemma JoinedLongerWhole(d: Derivation, rest: seq<char>)
    requires d.MixedFraction? && WellFormed(d)
    requires d.sp1 == [] && !d.open && d.sp2 == [] && |d.num| >= 2
    ensures ScanFraction(RenderWith(d, rest)).Some?
    ensures ScanFraction(RenderWith(d, rest)).value.0.whole == d.whole + d.num[..|d.num| - 1]
    ensures ScanFraction(RenderWith(d, rest)).value.0.num == [d.num[|d.num| - 1]]
  {
    JoinedRun(d, rest);
    JoinedScan(d.whole, d.num, d.tail, rest);
  }

  /** A digit run written right before a fraction tail is read as a whole part
      of all its digits but the last and a one-digit numerator, then the tail. */
  lemma JoinedScan(whole: seq<char>, num: seq<char>, x: FractionTail, rest: seq<char>)
    requires |whole| > 0 && |num| > 0 && AllIn(whole + num, Digit) && TailOk(x)
    ensures ScanFraction((whole + num) + TailWith(x, rest)).Some?
    ensures ScanFraction((whole + num) + TailWith(x, rest)).value.0.whole == whole + num[..|num| - 1]
    ensures ScanFraction((whole + num) + TailWith(x, rest)).value.0.num == [num[|num| - 1]]
    ensures ScanFraction((whole + num) + TailWith(x, rest)).value.0.tail.den == x.den
    ensures ScanFraction((whole + num) + TailWith(x, rest)).value.1 == rest
  {
    var run := whole + num;
    var tail := TailWith(x, rest);
    var n := |run| - 1;
    assert Stops(tail, Digit) by {
      if x.sp3 != [] { assert tail[0] == x.sp3[0]; } else { assert tail[0] == '/'; }
    }
    NoNumeratorBeforeTail(run, x, rest);
    AllInPrefix(run, n, Digit);
    FractionFallsBack(run, tail);
    TailComplete(x, rest);
    DropLastOfConcat(whole, num);
    assert ScanFraction(run + tail) == ScanJoinedFraction(run[..n], run[n], tail);
  }

  /** When no separated fraction follows a digit run, the fraction scanner
      gives the whole part every digit of the run but the last. */
  lemma FractionFallsBack(run: seq<char>, tail: seq<char>)
    requires |run| >= 2 && AllIn(run, Digit) && AllIn(run[..|run| - 1], Digit) && Stops(tail, Digit)
    requires ScanSeparatedFraction(run, tail).None?
    ensures ScanFraction(run + tail) == ScanJoinedFraction(run[..|run| - 1], run[|run| - 1], tail)
  {
    ScanFractionRun(run, tail);
  }

  /** Without a separator, the digit run of a mixed fraction is its whole part
      and numerator together. */
  lemma JoinedRun(d: Derivation, rest: seq<char>)
    requires d.MixedFraction? && WellFormed(d)
    requires d.sp1 == [] && !d.open && d.sp2 == []
    ensures RenderWith(d, rest) == (d.whole + d.num) + TailWith(d.tail, rest)
    ensures SplitRun(RenderWith(d, rest), Digit) == (d.whole + d.num, TailWith(d.tail, rest))
    ensures |d.whole + d.num| >= 2 && AllIn(d.whole + d.num, Digit) && Stops(TailWith(d.tail, rest), Digit)
  {
    var tail := TailWith(d.tail, rest);
    assert Stops(tail, Digit) by {
      if d.tail.sp3 != [] { assert tail[0] == d.tail.sp3[0]; } else { assert tail[0] == '/'; }
    }
    AllInConcat(d.whole, d.num, Digit);
    SplitRunUnique(d.whole + d.num, tail, Digit);
  }

  // ---------------------------------------------------------------------------
  // What the text of a derivation is made of
  // ---------------------------------------------------------------------------

  /** The text of a derivation followed by `rest` is its text, then `rest`. */
  lemma RenderConcat(d: Derivation, rest: seq<char>)
    ensures RenderWith(d, rest) == Render(d) + rest
  {
    match d
    case FeetInches(feet, sp1, fm, sp2, inches, sp3, im) => FeetConcat(d, rest);
    case MixedFraction(whole, sp1, open, sp2, num, tail) => FractionConcat(d, rest);
    case SimpleInches(amount, sp, mark) =>
      DecimalConcat(amount, sp + [mark], rest);
  }

  lemma FeetConcat(d: Derivation, rest: seq<char>)
    requires d.FeetInches?
    ensures RenderWith(d, rest) == Render(d) + rest
  {
    DecimalConcat(d.inches, d.sp3 + [d.inchMark], rest);
    Nest4(d.feet, d.sp1, [d.footMark], d.sp2, DecimalWith(d.inches, d.sp3 + [d.inchMark]), rest);
  }

  lemma FractionConcat(d: Derivation, rest: seq<char>)
    requires d.MixedFraction?
    ensures RenderWith(d, rest) == Render(d) + rest
  {
    TailConcat(d.tail, rest);
    Nest4(d.whole, d.sp1, Opt(d.open, '('), d.sp2, d.num + TailWith(d.tail, []), rest);
  }

  lemma Nest4(a: seq<char>, b: seq<char>, c: seq<char>, d: seq<char>, e: seq<char>, rest: seq<char>)
    ensures a + (b + (c + (d + (e + rest)))) == (a + (b + (c + (d + e)))) + rest
  {
  }

  lemma TailConcat(t: FractionTail, rest: seq<char>)
    ensures TailWith(t, rest) == TailWith(t, []) + rest
  {
    var e := t.sp6 + ([t.mark] + []);
    assert t.sp6 + ([t.mark] + rest) == e + rest;
    Nest4(t.sp3, ['/'], t.sp4, t.den, t.sp5 + (Opt(t.close, ')') + e), rest);
  }

  lemma DecimalConcat(x: Decimal, a: seq<char>, b: seq<char>)
    ensures DecimalWith(x, a + b) == DecimalWith(x, a) + b
  {
  }

  predicate NotFootMark(c: char) { !IsFootMark(c) }

  predicate NotSlash(c: char) { c != '/' }

  predicate NotInchMark(c: char) { !IsInchMark(c) }

  lemma PlainRun(x: seq<char>, cls: CharClass)
    requires AllIn(x, cls) && (cls == Digit || cls == Space)
    ensures Every(x, NotFootMark) && Every(x, NotSlash)
  {
    forall k | 0 <= k < |x| ensures NotFootMark(x[k]) && NotSlash(x[k]) {
      assert In(x[k], cls);
    }
  }

  lemma Single(c: char, p: char -> bool)
    requires p(c)
    ensures Every([c], p)
  {
    assert [c][0] == c;
  }

  lemma DecimalText(x: Decimal, rest: seq<char>)
    requires DecimalOk(x) && Every(rest, NotFootMark) && Every(rest, NotSlash)
    ensures Every(DecimalWith(x, rest), NotFootMark) && Every(DecimalWith(x, rest), NotSlash)
  {
    PlainRun(x.intDigits, Digit);
    PlainRun(x.fracDigits, Digit);
    var after := if x.fracDigits == [] then rest else ['.'] + (x.fracDigits + rest);
    if x.fracDigits != [] {
      Single('.', NotFootMark);
      Single('.', NotSlash);
      EveryConcat(x.fracDigits, rest, NotFootMark);
      EveryConcat(x.fracDigits, rest, NotSlash);
      EveryConcat(['.'], x.fracDigits + rest, NotFootMark);
      EveryConcat(['.'], x.fracDigits + rest, NotSlash);
    }
    EveryConcat(x.intDigits, after, NotFootMark);
    EveryConcat(x.intDigits, after, NotSlash);
  }

  /** A mixed fraction's text holds no foot mark. */
  lemma FractionHasNoFootMark(d: Derivation)
    requires d.MixedFraction? && WellFormed(d)
    ensures Every(Render(d), NotFootMark)
  {
    var t := d.tail;
    var p := NotFootMark;
    PlainRun(d.whole, Digit); PlainRun(d.sp1, Space); PlainRun(d.sp2, Space); PlainRun(d.num, Digit);
    PlainRun(t.sp3, Space); PlainRun(t.sp4, Space); PlainRun(t.den, Digit);
    PlainRun(t.sp5, Space); PlainRun(t.sp6, Space);
    Single(t.mark, p); Single('/', p);
    assert Every(Opt(t.close, ')'), p) by { if t.close { Single(')', p); } }
    assert Every(Opt(d.open, '('), p) by { if d.open { Single('(', p); } }
    var a1 := [t.mark] + [];
    var a2 := t.sp6 + a1;
    var a3 := Opt(t.close, ')') + a2;
    var a4 := t.sp5 + a3;
    var a5 := t.den + a4;
    var a6 := t.sp4 + a5;
    var a7 := ['/'] + a6;
    var a8 := t.sp3 + a7;
    var b1 := d.num + a8;
    var b2 := d.sp2 + b1;
    var b3 := Opt(d.open, '(') + b2;
    var b4 := d.sp1 + b3;
    assert Every([], p);
    EveryConcat([t.mark], [], p); EveryConcat(t.sp6, a1, p); EveryConcat(Opt(t.close, ')'), a2, p);
    EveryConcat(t.sp5, a3, p); EveryConcat(t.den, a4, p); EveryConcat(t.sp4, a5, p);
    EveryConcat(['/'], a6, p); EveryConcat(t.sp3, a7, p); EveryConcat(d.num, a8, p);
    EveryConcat(d.sp2, b1, p); EveryConcat(Opt(d.open, '('), b2, p); EveryConcat(d.sp1, b3, p);
    EveryConcat(d.whole, b4, p);
  }

  /** A simple-inches text holds no foot mark and no slash. */
  lemma SimpleHasNoFootMarkOrSlash(d: Derivation)
    requires d.SimpleInches? && WellFormed(d)
    ensures Every(Render(d), NotFootMark) && Every(Render(d), NotSlash)
  {
    PlainRun(d.sp, Space);
    Single(d.mark, NotFootMark);
    Single(d.mark, NotSlash);
    assert Every([], NotFootMark) && Every([], NotSlash);
    EveryConcat([d.mark], [], NotFootMark);
    EveryConcat([d.mark], [], NotSlash);
    EveryConcat(d.sp, [d.mark] + [], NotFootMark);
    EveryConcat(d.sp, [d.mark] + [], NotSlash);
    DecimalText(d.amount, d.sp + ([d.mark] + []));
  }

  /** A feet-and-inches text holds a foot mark. */
  lemma FeetHasFootMark(d: Derivation)
    requires d.FeetInches? && WellFormed(d)
    ensures |d.feet| + |d.sp1| < |Render(d)| && IsFootMark(Render(d)[|d.feet| + |d.sp1|])
  {
    var r := [d.footMark] + (d.sp2 + DecimalWith(d.inches, d.sp3 + [d.inchMark]));
    assert Render(d) == (d.feet + d.sp1) + r;
    assert r[0] == d.footMark;
  }

  /** A mixed-fraction text holds a slash. */
  lemma FractionHasSlash(d: Derivation)
    requires d.MixedFraction? && WellFormed(d)
    ensures exists k :: 0 <= k < |Render(d)| && Render(d)[k] == '/'
  {
    var head := d.whole + d.sp1 + Opt(d.open, '(') + d.sp2 + d.num + d.tail.sp3;
    var t := d.tail;
    var r := ['/'] + (t.sp4 + (t.den + (t.sp5 + (Opt(t.close, ')') + (t.sp6 + ([t.mark] + []))))));
    assert Render(d) == head + r;
    assert Render(d)[|head|] == '/';
  }

  /** Every text of a derivation starts with a digit and ends with an inch mark. */
  lemma RenderEnds(d: Derivation)
    requires WellFormed(d)
    ensures |Render(d)| >= 2 && IsDigit(Render(d)[0]) && IsInchMark(Render(d)[|Render(d)| - 1])
  {
    match d
    case FeetInches(_, _, _, _, _, _, _) => FeetEnds(d);
    case MixedFraction(_, _, _, _, _, _) => FractionEnds(d);
    case SimpleInches(_, _, _) => SimpleEnds(d);
  }

  lemma FeetEnds(d: Derivation)
    requires d.FeetInches? && WellFormed(d)
    ensures |Render(d)| >= 2 && IsDigit(Render(d)[0]) && IsInchMark(Render(d)[|Render(d)| - 1])
  {
    var r := Render(d);
    var mid := d.sp1 + ([d.footMark] + (d.sp2 + DecimalWith(d.inches, d.sp3)));
    DecimalConcat(d.inches, d.sp3, [d.inchMark] + []);
    assert r == d.feet + (mid + [d.inchMark]);
    assert r[0] == d.feet[0];
  }

  lemma FractionEnds(d: Derivation)
    requires d.MixedFraction? && WellFormed(d)
    ensures |Render(d)| >= 2 && IsDigit(Render(d)[0]) && IsInchMark(Render(d)[|Render(d)| - 1])
  {
    var r := Render(d);
    var t := d.tail;
    TailConcat(t, []);
    var tailText := TailWith(t, []);
    assert tailText == (t.sp3 + (['/'] + (t.sp4 + (t.den + (t.sp5 + (Opt(t.close, ')') + t.sp6)))))) + [t.mark];
    assert tailText[|tailText| - 1] == t.mark;
    assert r == d.whole + (d.sp1 + (Opt(d.open, '(') + (d.sp2 + (d.num + tailText))));
    assert r[0] == d.whole[0];
  }

  lemma SimpleEnds(d: Derivation)
    requires d.SimpleInches? && WellFormed(d)
    ensures |Render(d)| >= 2 && IsDigit(Render(d)[0]) && IsInchMark(Render(d)[|Render(d)| - 1])
  {
    var r := Render(d);
    DecimalConcat(d.amount, d.sp, [d.mark]);
    assert r == DecimalWith(d.amount, d.sp) + [d.mark];
    assert r[0] == d.amount.intDigits[0];
  }
}
