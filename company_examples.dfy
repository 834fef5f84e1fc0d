/** Worked examples of `_normalize_company_name` (convert_excel.py), each
    taken through the stages of the function one at a time. */
module CompanyExamples {
  import opened Values
  import opened CompanyName

  // ---------------------------------------------------------------------------------
  // "Praha4": without whitespace the letter and the digit are pulled apart

  lemma PrahaDigitStage(s: string, t: string)
    requires s == "Praha4" && t == "Praha 4"
    ensures Sub(LetterDigit, s, 0) == t
  {
    assert s[0..4] + [s[4], ' ', s[5]] == t;
    forall k | 0 <= k < 4
      ensures MatchAt(LetterDigit, s, k).None?
    {
    }
    SubCopies(LetterDigit, s, 0, 4);
    assert MatchAt(LetterDigit, s, 4) == Some(6);
  }

  lemma PrahaPlain(s: string)
    requires s == "Praha4"
    ensures PyStrip(s) == s && !HasPySpace(s)
    ensures Sub(As, Sub(Sro, s, 0), 0) == s && SplitWords(s, 0) == s
  {
    PrahaStrip(s);
    PrahaNoForms(s);
    PrahaNoSplit(s);
  }

  lemma PrahaStrip(s: string)
    requires s == "Praha4"
    ensures PyStrip(s) == s && !HasPySpace(s)
  {
    StripUnchanged(s);
  }

  lemma PrahaNoForms(s: string)
    requires s == "Praha4"
    ensures Sub(As, Sub(Sro, s, 0), 0) == s
  {
    LegalFormsUntouched(s);
  }

  lemma PrahaNoSplit(s: string)
    requires s == "Praha4"
    ensures SplitWords(s, 0) == s
  {
    SplitWordsUnchanged(s, 0);
  }

  lemma PrahaSpaced(t: string)
    requires t == "Praha 4"
    ensures Sub(DigitLetter, t, 0) == t && Sub(Spaces, t, 0) == t && PyStrip(t) == t
  {
    PrahaNoDigitLetter(t);
    PrahaNoRun(t);
    PrahaStripped(t);
  }

  lemma PrahaNoDigitLetter(t: string)
    requires t == "Praha 4"
    ensures Sub(DigitLetter, t, 0) == t
  {
    SubUnchanged(DigitLetter, t, 0);
  }

  lemma PrahaNoRun(t: string)
    requires t == "Praha 4"
    ensures Sub(Spaces, t, 0) == t
  {
    CollapseUntouched(t);
  }

  lemma PrahaStripped(t: string)
    requires t == "Praha 4"
    ensures PyStrip(t) == t
  {
    StripUnchanged(t);
  }

  /** A name without whitespace: `Praha4` becomes `Praha 4`. */
  lemma SplitsLetterFromDigit(s: string, t: string)
    requires s == "Praha4" && t == "Praha 4"
    ensures NormalizeCompanyName(s) == t
  {
    PrahaPlain(s);
    PrahaDigitStage(s, t);
    PrahaSpaced(t);
  }

  // ---------------------------------------------------------------------------------
  // "Auto4 Brno": with whitespace nothing is split

  lemma AutoUnchanged(s: string)
    requires s == "Auto4 Brno"
    ensures PyStrip(s) == s && HasPySpace(s)
    ensures Sub(As, Sub(Sro, s, 0), 0) == s && Sub(Spaces, s, 0) == s
  {
    assert IsPySpace(s[5]);
    AutoStripped(s);
    AutoNoLegalForm(s);
    AutoNoDoubleSpace(s);
  }

  lemma AutoNoLegalForm(s: string)
    requires s == "Auto4 Brno"
    ensures Sub(As, Sub(Sro, s, 0), 0) == s
  {
    forall k | 0 <= k < |s| ensures !IsS(s[k]) {
    }
    LegalFormsUntouched(s);
  }

  lemma AutoNoDoubleSpace(s: string)
    requires s == "Auto4 Brno"
    ensures Sub(Spaces, s, 0) == s
  {
    forall k | 0 <= k < |s| - 1 ensures !(IsPySpace(s[k]) && IsPySpace(s[k + 1])) {
      assert k == 4 || k == 5 || !IsPySpace(s[k]);
    }
    CollapseUntouched(s);
  }

  lemma AutoStripped(s: string)
    requires s == "Auto4 Brno"
    ensures PyStrip(s) == s
  {
    StripUnchanged(s);
  }

  /** A name that already holds whitespace keeps its letters and digits
      together: `Auto4 Brno` stays as it is. */
  lemma KeepsDigitWithWhitespace(s: string)
    requires s == "Auto4 Brno"
    ensures NormalizeCompanyName(s) == s
  {
    AutoUnchanged(s);
  }

  // ---------------------------------------------------------------------------------
  // "Praha s.r.o.": the a.s. rewrite runs over the name's last letter

  /** `s.r.o.` written out with its dots, from index `a`, is matched whole. */
  lemma SroDotted(s: string, a: nat)
    requires a + 6 <= |s| && IsS(s[a]) && s[a + 1] == '.' && IsR(s[a + 2]) && s[a + 3] == '.'
    requires IsO(s[a + 4]) && s[a + 5] == '.' && (a + 6 == |s| || s[a + 6] != '.')
    ensures SroFrom(s, a) == Some(a + 6)
  {
    assert OptDot(s, a + 1) == a + 2 && SkipSpaces(s, a + 2) == a + 2;
    assert OptDot(s, a + 3) == a + 4 && SkipSpaces(s, a + 4) == a + 4;
    assert OptDot(s, a + 5) == a + 6 && OptDot(s, a + 6) == a + 6;
  }

  lemma PrahaSroAt(s: string)
    requires s == "Praha s.r.o."
    ensures MatchAt(Sro, s, 5) == Some(12)
  {
    assert |s| == 12 && IsPySpace(s[5]) && !IsPySpace(s[6]);
    assert IsS(s[6]) && s[7] == '.' && IsR(s[8]) && s[9] == '.' && IsO(s[10]) && s[11] == '.';
    assert SkipSpaces(s, 6) == 6;
    assert SkipSpaces(s, 5) == 6;
    SroDotted(s, 6);
  }

  lemma PrahaAsAt(s: string)
    requires s == "Praha s.r.o."
    ensures MatchAt(As, s, 4) == Some(8)
  {
    assert SkipSpaces(s, 4) == 4 && OptDot(s, 5) == 5 && SkipSpaces(s, 5) == 6;
    assert OptDot(s, OptDot(s, 7)) == 8;
  }

  lemma PrahaLegalFree()
    ensures SroFree("Praha s.r.o.", 0, 5)
    ensures AsFree("Praha s.r.o.", 0, 4) && AsFree("Praha s.r.o.", 8, 12)
  {
  }

  lemma PrahaSroStage(s: string)
    requires s == "Praha s.r.o."
    ensures Sub(Sro, s, 0) == s
  {
    assert s[0..5] + " s.r.o." == s;
    assert Sub(Sro, s, 0) == s[0..5] + Sub(Sro, s, 5) by {
      PrahaLegalFree();
      NoSroIn(s, 0, 5);
      SubCopies(Sro, s, 0, 5);
    }
    assert Sub(Sro, s, 5) == " s.r.o." by {
      PrahaSroAt(s);
      SubMatched(Sro, s, 5, 12);
    }
  }

  lemma PrahaAsAround(s: string)
    requires s == "Praha s.r.o."
    ensures Sub(As, s, 0) == s[0..4] + Sub(As, s, 4)
    ensures Sub(As, s, 8) == s[8..12]
  {
    assert s[8..12] + "" == s[8..12];
    PrahaLegalFree();
    NoAsIn(s, 0, 4);
    NoAsIn(s, 8, 12);
    SubCopies(As, s, 0, 4);
    SubCopies(As, s, 8, 12);
  }

  lemma PrahaAsStage(s: string, t: string)
    requires s == "Praha s.r.o." && t == "Prah a.s.r.o."
    ensures Sub(As, s, 0) == t
  {
    assert s[0..4] + (" a.s." + s[8..12]) == t;
    PrahaAsAround(s);
    assert Sub(As, s, 4) == " a.s." + Sub(As, s, 8) by {
      PrahaAsAt(s);
      SubMatched(As, s, 4, 8);
    }
  }

  lemma PrahaSroEnds(s: string, t: string)
    requires s == "Praha s.r.o." && t == "Prah a.s.r.o."
    ensures PyStrip(s) == s && HasPySpace(s)
    ensures Sub(Spaces, t, 0) == t && PyStrip(t) == t
  {
    assert IsPySpace(s[5]);
    StripUnchanged(s);
    CollapseUntouched(t);
    StripUnchanged(t);
  }

  /** The a.s. pattern allows whitespace between its letters, so once the
      s.r.o. form is in place it matches the `a` that ends `Praha` and the `s`
      of `s.r.o.`: `Praha s.r.o.` becomes `Prah a.s.r.o.`. */
  lemma LegalFormsOverlap(s: string, t: string)
    requires s == "Praha s.r.o." && t == "Prah a.s.r.o."
    ensures NormalizeCompanyName(s) == t
  {
    PrahaSroStage(s);
    PrahaAsStage(s, t);
    PrahaSroEnds(s, t);
  }

  // ---------------------------------------------------------------------------------
  // "HyundaiPrahaDomanskýs.r.o.", the example of the source's documentation.
  // Character checks over the literal are done seven or eight indices at a time.

  lemma DocPlain(s: string)
    requires s == "HyundaiPrahaDomanskýs.r.o."
    ensures PyStrip(s) == s && !HasPySpace(s)
  {
    StripUnchanged(s);
    DocNoSpace(s);
  }

  lemma DocNoSpace(s: string)
    requires s == "HyundaiPrahaDomanskýs.r.o."
    ensures !HasPySpace(s)
  {
    forall i | 0 <= i < |s| ensures !IsPySpace(s[i]) {
    }
  }

  lemma DocSroFreeStart()
    ensures SroFree("HyundaiPrahaDomanskýs.r.o.", 0, 8)
  {
  }

  lemma DocSroFreeMiddle()
    ensures SroFree("HyundaiPrahaDomanskýs.r.o.", 8, 16)
  {
  }

  lemma DocSroFreeEnd()
    ensures SroFree("HyundaiPrahaDomanskýs.r.o.", 16, 20)
  {
  }

  lemma DocSroAt(s: string)
    requires s == "HyundaiPrahaDomanskýs.r.o."
    ensures MatchAt(Sro, s, 20) == Some(26)
  {
    assert SkipSpaces(s, 20) == 20;
    assert OptDot(s, 21) == 22 && SkipSpaces(s, 22) == 22;
    assert OptDot(s, 23) == 24 && SkipSpaces(s, 24) == 24;
    assert OptDot(s, OptDot(s, 25)) == 26;
  }

  lemma DocSroStage(s: string, t: string)
    requires s == "HyundaiPrahaDomanskýs.r.o." && t == "HyundaiPrahaDomanský s.r.o."
    ensures Sub(Sro, s, 0) == t
  {
    assert s[0..20] + " s.r.o." == t;
    assert Sub(Sro, s, 0) == s[0..20] + Sub(Sro, s, 20) by {
      DocSroFreeStart();
      DocSroFreeMiddle();
      DocSroFreeEnd();
      NoSroIn(s, 0, 8);
      NoSroIn(s, 8, 16);
      NoSroIn(s, 16, 20);
      SubCopies(Sro, s, 0, 20);
    }
    assert Sub(Sro, s, 20) == " s.r.o." by {
      DocSroAt(s);
      SubMatched(Sro, s, 20, 26);
    }
  }

  lemma DocAsFreeStart()
    ensures AsFree("HyundaiPrahaDomanský s.r.o.", 0, 8)
  {
  }

  lemma DocAsFreeMiddle()
    ensures AsFree("HyundaiPrahaDomanský s.r.o.", 8, 16)
  {
  }

  lemma DocAsFreeEnd()
    ensures AsFree("HyundaiPrahaDomanský s.r.o.", 16, 20) && AsFree("HyundaiPrahaDomanský s.r.o.", 21, 27)
  {
  }

  lemma DocNoAs(t: string)
    requires t == "HyundaiPrahaDomanský s.r.o."
    ensures forall k :: 0 <= k < |t| ==> MatchAt(As, t, k).None?
  {
    DocAsFreeStart();
    DocAsFreeMiddle();
    DocAsFreeEnd();
    NoAsIn(t, 0, 8);
    NoAsIn(t, 8, 16);
    NoAsIn(t, 16, 20);
    NoAsIn(t, 21, 27);
    LegalFormAfterSpace(t, 20);
  }

  lemma DocAsStage(t: string)
    requires t == "HyundaiPrahaDomanský s.r.o."
    ensures Sub(As, t, 0) == t
  {
    DocNoAs(t);
    SubUnchanged(As, t, 0);
  }

  lemma DocSplitFreeStart()
    ensures SplitFree("HyundaiPrahaDomanský s.r.o.", 0, 7)
  {
  }

  lemma DocSplitFreePraha()
    ensures SplitFree("HyundaiPrahaDomanský s.r.o.", 8, 12)
  {
  }

  lemma DocSplitFreeEnd()
    ensures SplitFree("HyundaiPrahaDomanský s.r.o.", 13, 20) && SplitFree("HyundaiPrahaDomanský s.r.o.", 20, 27)
  {
  }

  lemma DocSplitLiteral()
    ensures "Hyundai" + (" " + ['P'] + "raha" + (" " + ['D'] + "omanský s.r.o.")) == "Hyundai Praha Domanský s.r.o."
  {
  }

  lemma DocSplitSlices(t: string)
    requires t == "HyundaiPrahaDomanský s.r.o."
    ensures t[0..7] == "Hyundai" && t[7] == 'P' && t[8..12] == "raha" && t[12] == 'D'
  {
  }

  lemma DocSplitTail(t: string)
    requires t == "HyundaiPrahaDomanský s.r.o."
    ensures t[13..27] == "omanský s.r.o."
  {
  }

  lemma DocSplitPieces(t: string, u: string)
    requires t == "HyundaiPrahaDomanský s.r.o." && u == "Hyundai Praha Domanský s.r.o."
    ensures t[0..7] + (" " + [t[7]] + t[8..12] + (" " + [t[12]] + t[13..27])) == u
  {
    DocSplitLiteral();
    DocSplitSlices(t);
    DocSplitTail(t);
  }

  lemma DocSplitHead(t: string)
    requires t == "HyundaiPrahaDomanský s.r.o."
    ensures SplitWords(t, 0) == t[0..7] + SplitWords(t, 7)
  {
    DocSplitFreeStart();
    NoWordStartIn(t, 0, 7);
    SplitWordsCopies(t, 0, 7);
  }

  lemma {:induction false} SplitFreeJoin(t: string, i: nat, j: nat, k: nat)
    requires i <= j <= k && SplitFree(t, i, j) && SplitFree(t, j, k)
    ensures SplitFree(t, i, k)
    decreases j - i
  {
    if i < j {
      SplitFreeJoin(t, i + 1, j, k);
    }
  }

  /** A word that starts at `i` and runs on to `j` gets one space, before it. */
  lemma SplitWordThrough(t: string, i: nat, j: nat)
    requires i < j <= |t| && WordStart(t, i) && SplitFree(t, i + 1, j)
    ensures SplitWords(t, i) == " " + [t[i]] + t[i + 1..j] + SplitWords(t, j)
  {
    var rest := SplitWords(t, j);
    SplitWordsAt(t, i);
    NoWordStartIn(t, i + 1, j);
    SplitWordsCopies(t, i + 1, j);
    assert " " + [t[i]] + (t[i + 1..j] + rest) == " " + [t[i]] + t[i + 1..j] + rest;
  }

  lemma DocSplitPraha(t: string)
    requires t == "HyundaiPrahaDomanský s.r.o."
    ensures SplitWords(t, 7) == " " + [t[7]] + t[8..12] + SplitWords(t, 12)
  {
    assert WordStart(t, 7);
    DocSplitFreePraha();
    SplitWordThrough(t, 7, 12);
  }

  lemma DocSplitDomansky(t: string)
    requires t == "HyundaiPrahaDomanský s.r.o."
    ensures SplitWords(t, 12) == " " + [t[12]] + t[13..27]
  {
    assert |t| == 27 && WordStart(t, 12);
    DocSplitFreeEnd();
    SplitFreeJoin(t, 13, 20, 27);
    SplitWordThrough(t, 12, 27);
    assert SplitWords(t, 27) == "";
    assert " " + [t[12]] + t[13..27] + "" == " " + [t[12]] + t[13..27];
  }

  lemma DocSplitStage(t: string, u: string)
    requires t == "HyundaiPrahaDomanský s.r.o." && u == "Hyundai Praha Domanský s.r.o."
    ensures SplitWords(t, 0) == u
  {
    DocSplitPieces(t, u);
    DocSplitHead(t);
    DocSplitPraha(t);
    DocSplitDomansky(t);
  }

  lemma DocNoDigits()
    ensures forall k :: 0 <= k < |"Hyundai Praha Domanský s.r.o."| ==> !IsPyDigit("Hyundai Praha Domanský s.r.o."[k])
  {
  }

  lemma DocNoDoubleSpace()
    ensures NoDoubleSpace("Hyundai Praha Domanský s.r.o.")
  {
  }

  lemma DocDigitStages(u: string)
    requires u == "Hyundai Praha Domanský s.r.o."
    ensures Sub(DigitLetter, Sub(LetterDigit, u, 0), 0) == u
  {
    DocNoDigits();
    NoDigitsUntouched(u);
  }

  lemma DocTidyStages(u: string)
    requires u == "Hyundai Praha Domanský s.r.o."
    ensures PyStrip(Sub(Spaces, u, 0)) == u
  {
    DocNoDoubleSpace();
    CollapseUntouched(u);
    StripUnchanged(u);
  }

  /** The example of the function's documentation: the legal form is spaced
      off and the run-together words are split,
      `HyundaiPrahaDomanskýs.r.o.` becomes `Hyundai Praha Domanský s.r.o.`. */
  lemma DocExample(s: string, u: string)
    requires s == "HyundaiPrahaDomanskýs.r.o." && u == "Hyundai Praha Domanský s.r.o."
    ensures NormalizeCompanyName(s) == u
  {
    var t := "HyundaiPrahaDomanský s.r.o.";
    DocPlain(s);
    DocSroStage(s, t);
    DocAsStage(t);
    DocSplitStage(t, u);
    DocDigitStages(u);
    DocTidyStages(u);
  }
}
