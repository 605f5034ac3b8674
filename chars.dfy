/** Character classes shared by the dimension grammar and the code recognizer,
    and the maximal-munch run splitter both scanners are built from.

    The model is restricted to ASCII letters, digits and whitespace plus the
    two Unicode prime marks; Unicode digits, Unicode whitespace and Unicode
    case mapping are not modelled. */
module Chars {

  /** `\d`, restricted to ASCII. */
  predicate IsDigit(c: char) {
    '0' <= c <= '9'
  }

  /** `\s`, restricted to the six ASCII whitespace characters. */
  predicate IsSpace(c: char) {
    c == ' ' || c == '\t' || c == '\n' || c == '\r' || c == '\U{0B}' || c == '\U{0C}'
  }

  /** The inch-mark class `["″]`: the ASCII double quote or U+2033 DOUBLE PRIME.
      The source file shows this class as mojibake (the UTF-8 bytes of U+2033
      decoded in another code page); the intended character is modelled. */
  predicate IsInchMark(c: char) {
    c == '"' || c == '\U{2033}'
  }

  /** The foot-mark class `['′]`: the ASCII apostrophe or U+2032 PRIME
      (shown as mojibake in the source, like the inch mark). */
  predicate IsFootMark(c: char) {
    c == '\'' || c == '\U{2032}'
  }

  /** `[A-Z]` */
  predicate IsUpper(c: char) {
    'A' <= c <= 'Z'
  }

  predicate IsLower(c: char) {
    'a' <= c <= 'z'
  }

  /** `\w`, restricted to ASCII: letters, digits and the underscore. */
  predicate IsWordChar(c: char) {
    IsUpper(c) || IsLower(c) || IsDigit(c) || c == '_'
  }

  /** The character classes a run can be made of. */
  datatype CharClass = Digit | Space | Upper | Word

  predicate In(c: char, cls: CharClass) {
    match cls
    case Digit => IsDigit(c)
    case Space => IsSpace(c)
    case Upper => IsUpper(c)
    case Word => IsWordChar(c)
  }

  predicate AllIn(s: seq<char>, cls: CharClass) {
    forall k :: 0 <= k < |s| ==> In(s[k], cls)
  }

  /** Every character of `s` satisfies `p`. */
  predicate Every(s: seq<char>, p: char -> bool) {
    forall k :: 0 <= k < |s| ==> p(s[k])
  }

  lemma EveryConcat(a: seq<char>, b: seq<char>, p: char -> bool)
    requires Every(a, p) && Every(b, p)
    ensures Every(a + b, p)
  {
    forall k | 0 <= k < |a + b| ensures p((a + b)[k]) {
      if k >= |a| { assert (a + b)[k] == b[k - |a|]; }
    }
  }

  /** True when `rest` cannot extend a run of class `cls`. */
  predicate Stops(rest: seq<char>, cls: CharClass) {
    rest == [] || !In(rest[0], cls)
  }

  /** Greedy `cls*`: splits `t` into its longest prefix of class `cls` and the rest. */
  function SplitRun(t: seq<char>, cls: CharClass): (r: (seq<char>, seq<char>))
    ensures r.0 + r.1 == t
    ensures AllIn(r.0, cls) && Stops(r.1, cls)
  {
    if t != [] && In(t[0], cls) then
      var (run, rest) := SplitRun(t[1..], cls);
      assert [t[0]] + (run + rest) == t;
      ([t[0]] + run, rest)
    else
      ([], t)
  }

  /** The greedy split is the only split into a run and a rest that stops it. */
  lemma {:induction false} SplitRunUnique(run: seq<char>, rest: seq<char>, cls: CharClass)
    requires AllIn(run, cls) && Stops(rest, cls)
    ensures SplitRun(run + rest, cls) == (run, rest)
  {
    if run != [] {
      var t := run + rest;
      assert t[0] == run[0] && In(t[0], cls);
      assert t[1..] == run[1..] + rest;
      assert AllIn(run[1..], cls) by {
        forall k | 0 <= k < |run| - 1 ensures In(run[1..][k], cls) {
          assert run[1..][k] == run[k + 1];
        }
      }
      SplitRunUnique(run[1..], rest, cls);
      assert SplitRun(t, cls) == ([t[0]] + SplitRun(t[1..], cls).0, SplitRun(t[1..], cls).1);
      assert [run[0]] + run[1..] == run;
    } else {
      assert run + rest == rest;
    }
  }

  /** No prefix of class `cls` is longer than the greedy run. */
  lemma {:induction false} SplitRunLongest(t: seq<char>, n: nat, cls: CharClass)
    requires n <= |t| && AllIn(t[..n], cls)
    ensures n <= |SplitRun(t, cls).0|
  {
    if n > 0 {
      assert t[0] == t[..n][0];
      assert t[1..][..n - 1] == t[..n][1..];
      SplitRunLongest(t[1..], n - 1, cls);
    }
  }

  /** Python's `str.upper()` on ASCII letters; other characters are unchanged. */
  function UpperChar(c: char): (u: char)
    ensures IsLower(c) ==> IsUpper(u)
    ensures !IsLower(c) ==> u == c
    ensures !IsLower(u)
  {
    if IsLower(c) then (c as int - 32) as char else c
  }

  function UpperCase(s: seq<char>): (u: seq<char>)
    ensures |u| == |s|
    ensures forall k :: 0 <= k < |s| ==> u[k] == UpperChar(s[k])
  {
    seq(|s|, k requires 0 <= k < |s| => UpperChar(s[k]))
  }

  /** Upper-casing twice is upper-casing once. */
  lemma UpperIdempotent(s: seq<char>)
    ensures UpperCase(UpperCase(s)) == UpperCase(s)
  {
  }

  /** Upper-casing works character by character. */
  lemma UpperCaseConcat(a: seq<char>, b: seq<char>)
    ensures UpperCase(a + b) == UpperCase(a) + UpperCase(b)
  {
  }

  /** Upper-casing keeps the word characters and only those. */
  lemma UpperKeepsWordChars(c: char)
    ensures IsWordChar(UpperChar(c)) == IsWordChar(c)
  {
  }

  /** The value of an unsigned decimal digit string. */
  function DigitsValue(ds: seq<char>): nat
    requires AllIn(ds, Digit)
  {
    if ds == [] then 0
    else 10 * DigitsValue(ds[..|ds| - 1]) + (ds[|ds| - 1] as int - '0' as int)
  }

  function Pow10(n: nat): (p: nat)
    ensures p >= 1
  {
    if n == 0 then 1 else 10 * Pow10(n - 1)
  }

  /** A string of `n` digits is worth less than `10^n`. */
  lemma {:induction false} DigitsValueBound(ds: seq<char>)
    requires AllIn(ds, Digit)
    ensures DigitsValue(ds) < Pow10(|ds|)
  {
    if ds != [] {
      var init := ds[..|ds| - 1];
      assert AllIn(init, Digit) by {
        forall k | 0 <= k < |init| ensures In(init[k], Digit) { assert init[k] == ds[k]; }
      }
      DigitsValueBound(init);
    }
  }

  /** The value of the digits after a decimal point, `0.d1d2...dn`, read
      from the right so that only divisions by ten occur. */
  function DecimalsValue(ds: seq<char>): (v: real)
    requires AllIn(ds, Digit)
    ensures 0.0 <= v < 1.0
  {
    if ds == [] then 0.0
    else ((ds[0] as int - '0' as int) as real + DecimalsValue(ds[1..])) / 10.0
  }
}
