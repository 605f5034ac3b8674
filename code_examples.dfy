/** The behaviour of `detect_codes` on the sentence of the repository's own
    test and on words that break the grammar's bounds. */
module CodeExamples {
  import opened Chars
  import opened CodeDetector

  /** A text that starts with a word and a separator. */
  lemma WordThen(w: string, sep: string, v: string)
    requires w != [] && AllIn(UpperCase(w), Word)
    requires sep in [" ", ", "]
    ensures FindCodes(UpperCase(w + sep + v), 0) ==
            (if MatchesCode(UpperCase(w)) then [UpperCase(w)] else []) + FindCodes(UpperCase(v), 0)
  {
    var c := sep[0];
    var v' := sep[1..] + v;
    assert w + sep + v == w + ([c] + v');
    UpperCaseConcat(w, [c] + v');
    UpperCaseConcat([c], v');
    assert UpperCase([c]) == [c];
    FindCodesFirstWord(UpperCase(w), [c] + UpperCase(v'));
    FindCodesSeparator(c, UpperCase(v'));
    if sep == ", " {
      assert v' == [' '] + v;
      UpperCaseConcat([' '], v);
      assert UpperCase([' ']) == [' '];
      FindCodesSeparator(' ', UpperCase(v));
    } else {
      assert v' == v;
    }
  }

  /** A text that is one word. */
  lemma OnlyWord(w: string)
    requires w != [] && AllIn(UpperCase(w), Word)
    ensures FindCodes(UpperCase(w), 0) == if MatchesCode(UpperCase(w)) then [UpperCase(w)] else []
  {
    assert UpperCase(w) + [] == UpperCase(w);
    FindCodesFirstWord(UpperCase(w), []);
  }

  /** A word of letters only is never a code. */
  lemma LettersOnly(w: string)
    requires w != [] && forall k :: 0 <= k < |w| ==> IsUpper(w[k]) || IsLower(w[k])
    ensures AllIn(UpperCase(w), Word) && !MatchesCode(UpperCase(w))
  {
    var u := UpperCase(w);
    assert AllIn(u, Upper);
    assert u + [] == u;
    SplitRunUnique(u, [], Upper);
    assert SplitRun([], Digit) == ([], []);
  }

  lemma DistinctCodes()
    ensures Dedup(["DB24", "SB42FH", "MW30"]) == ["DB24", "SB42FH", "MW30"]
  {
    assert ["DB24", "SB42FH", "MW30"][..2] == ["DB24", "SB42FH"];
    assert ["DB24", "SB42FH"][..1] == ["DB24"];
  }

  /** The words of the test sentence that are not codes. */
  lemma PlainWord(w: string)
    requires w in ["The", "kitchen", "has", "and", "cabinets"]
    ensures w != [] && AllIn(UpperCase(w), Word) && !MatchesCode(UpperCase(w))
  {
    LettersOnly(w);
  }

  /** The three plain words that open the test sentence contribute nothing. */
  lemma OpeningWords(v: string)
    ensures FindCodes(UpperCase("The" + " " + ("kitchen" + " " + ("has" + " " + v))), 0) == FindCodes(UpperCase(v), 0)
  {
    PlainWord("The");
    WordThen("The", " ", "kitchen" + " " + ("has" + " " + v));
    PlainWord("kitchen");
    WordThen("kitchen", " ", "has" + " " + v);
    PlainWord("has");
    WordThen("has", " ", v);
  }

  lemma MW30Code()
    ensures UpperCase("MW30") == "MW30" && AllIn("MW30", Word) && MatchesCode("MW30")
  {
    assert AllIn("", Upper);
    GreedyShape("MW", "30", "");
    assert MatchesCode("MW" + "30" + "");
    assert "MW" + "30" + "" == "MW30";
  }

  lemma SB42FHCode()
    ensures UpperCase("SB42FH") == "SB42FH" && AllIn("SB42FH", Word) && MatchesCode("SB42FH")
  {
    assert AllIn("FH", Upper);
    GreedyShape("SB", "42", "FH");
    assert MatchesCode("SB" + "42" + "FH");
    assert "SB" + "42" + "FH" == "SB42FH";
  }

  lemma DB24Code()
    ensures UpperCase("DB24") == "DB24" && AllIn("DB24", Word) && MatchesCode("DB24")
  {
    assert AllIn("", Upper);
    GreedyShape("DB", "24", "");
    assert MatchesCode("DB" + "24" + "");
    assert "DB" + "24" + "" == "DB24";
  }

  /** The words from "and" on. */
  lemma ClosingWords(last: string)
    requires last == "cabinets"
    ensures FindCodes(UpperCase("and" + " " + ("MW30" + " " + last)), 0) == ["MW30"]
  {
    PlainWord(last);
    OnlyWord(last);
    MW30Code();
    WordThen("MW30", " ", last);
    PlainWord("and");
    WordThen("and", " ", "MW30" + " " + last);
  }

  /** The words from DB24 on. */
  lemma CodeWords(last: string)
    requires last == "cabinets"
    ensures FindCodes(UpperCase("DB24" + ", " + ("SB42FH" + ", " + ("and" + " " + ("MW30" + " " + last)))), 0) ==
            ["DB24", "SB42FH", "MW30"]
  {
    ClosingWords(last);
    SB42FHCode();
    WordThen("SB42FH", ", ", "and" + " " + ("MW30" + " " + last));
    DB24Code();
    WordThen("DB24", ", ", "SB42FH" + ", " + ("and" + " " + ("MW30" + " " + last)));
  }

  lemma OpeningSplit(v: string)
    ensures "The kitchen has " + v == "The" + " " + ("kitchen" + " " + ("has" + " " + v))
  {
  }

  lemma ClosingSplit()
    ensures "DB24, SB42FH, and MW30 cabinets" ==
            "DB24" + ", " + ("SB42FH" + ", " + ("and" + " " + ("MW30" + " " + "cabinets")))
  {
  }

  lemma SentenceSplit()
    ensures "The kitchen has DB24, SB42FH, and MW30 cabinets" == "The kitchen has " + "DB24, SB42FH, and MW30 cabinets"
  {
  }

  /** The sentence of the repository's test yields DB24, SB42FH and MW30. */
  lemma KitchenExample()
    ensures DetectCodes("The kitchen has DB24, SB42FH, and MW30 cabinets") == ["DB24", "SB42FH", "MW30"]
  {
    SentenceSplit();
    ClosingSplit();
    OpeningSplit("DB24, SB42FH, and MW30 cabinets");
    OpeningWords("DB24, SB42FH, and MW30 cabinets");
    CodeWords("cabinets");
    DistinctCodes();
  }

  /** A word that is one word of the text: its upper-case form if that is
      a code, nothing otherwise. */
  lemma SingleWord(w: string)
    requires w != [] && AllIn(UpperCase(w), Word)
    ensures DetectCodes(w) == if MatchesCode(UpperCase(w)) then [UpperCase(w)] else []
  {
    OnlyWord(w);
    var u := UpperCase(w);
    assert [u][..0] == [];
    assert Dedup([u]) == [u];
    assert DetectCodes(w) == Dedup(FindCodes(u, 0));
  }

  /** A word made of letters, digits and a rest of upper-case word
      characters that does not start with a digit is its own upper-case form,
      and it is a code exactly when those three parts are within the bounds. */
  lemma GreedyShape(l: string, d: string, t: string)
    requires AllIn(l, Upper) && d != [] && AllIn(d, Digit) && Stops(t, Digit)
    requires AllIn(t, Word) && forall k :: 0 <= k < |t| ==> !IsLower(t[k])
    ensures var w := l + d + t; UpperCase(w) == w && AllIn(w, Word)
    ensures MatchesCode(l + d + t) <==> 2 <= |l| <= 4 && 2 <= |d| <= 4 && |t| <= 3 && AllIn(t, Upper)
  {
    var w := l + d + t;
    assert w == l + (d + t);
    assert Stops(d + t, Upper) by { assert (d + t)[0] == d[0]; }
    SplitRunUnique(l, d + t, Upper);
    SplitRunUnique(d, t, Digit);
    forall k | 0 <= k < |w| ensures IsWordChar(w[k]) && !IsLower(w[k]) {
      if k < |l| { assert w[k] == l[k]; }
      else if k < |l| + |d| { assert w[k] == d[k - |l|]; }
      else { assert w[k] == t[k - |l| - |d|]; }
    }
  }

  /** Five letters before the digits: no code, and not BCDE12 either. */
  lemma FiveLettersExample()
    ensures DetectCodes("ABCDE12") == []
  {
    assert "ABCDE" + "12" + "" == "ABCDE12";
    GreedyShape("ABCDE", "12", "");
    SingleWord("ABCDE" + "12" + "");
  }

  /** A trailing underscore is a word character: no code, and not DB24. */
  lemma TrailingUnderscoreExample()
    ensures DetectCodes("DB24_") == []
  {
    assert "DB" + "24" + "_" == "DB24_";
    GreedyShape("DB", "24", "_");
    SingleWord("DB" + "24" + "_");
  }

  /** Four trailing letters: no code, and not DB24ABC. */
  lemma ExtraLettersExample()
    ensures DetectCodes("DB24ABCD") == []
  {
    assert "DB" + "24" + "ABCD" == "DB24ABCD";
    GreedyShape("DB", "24", "ABCD");
    SingleWord("DB" + "24" + "ABCD");
  }

  /** A code inside a longer word is not found on its own: XDB24Y is the
      word, and it is itself a code. */
  lemma EmbeddedExample()
    ensures DetectCodes("XDB24Y") == ["XDB24Y"]
  {
    GreedyShape("XDB", "24", "Y");
    assert "XDB" + "24" + "Y" == "XDB24Y";
    SingleWord("XDB24Y");
  }

  /** Lower-case input is upper-cased first. */
  lemma LowerCaseExample()
    ensures DetectCodes("db24") == ["DB24"]
  {
    assert UpperCase("db24") == "DB24";
    DB24Code();
    SingleWord("db24");
  }
}
