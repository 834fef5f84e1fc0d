/** `_normalize_company_name` of convert_excel.py: the clean-up applied to the
    service name column (KAPU) before the data set is written. Each regular
    expression of the source is a hand-written scanner here, with the
    semantics of Python's `re.sub`: the leftmost match wins, quantifiers are
    greedy, and scanning resumes after the end of each match. */
module CompanyName {
  import opened Values

  // ---------------------------------------------------------------------------------
  // Character classes

  /** Python's `\s` (and `str.strip`): the characters for which `str.isspace` holds. */
  predicate IsPySpace(c: char)
  {
    c == '\t' || c == '\n' || c == '\U{000B}' || c == '\U{000C}' || c == '\r'
    || ('\U{001C}' <= c <= '\U{001F}') || c == ' ' || c == '\U{0085}' || c == '\U{00A0}'
    || c == '\U{1680}' || ('\U{2000}' <= c <= '\U{200A}') || c == '\U{2028}' || c == '\U{2029}'
    || c == '\U{202F}' || c == '\U{205F}' || c == '\U{3000}'
  }

  /** `\d`, restricted to the ASCII digits. */
  predicate IsPyDigit(c: char)
  {
    '0' <= c <= '9'
  }

  /** `[a-zá-ž]`: a code-point range, so it also holds the capitals of Latin
      Extended-A that lie between `á` and `ž`. */
  predicate IsLowerClass(c: char)
  {
    'a' <= c <= 'z' || 'á' <= c <= 'ž'
  }

  /** `[A-ZÁ-Ž]`. */
  predicate IsUpperClass(c: char)
  {
    'A' <= c <= 'Z' || 'Á' <= c <= 'Ž'
  }

  /** `[a-zA-Zá-žÁ-Ž]`. */
  predicate IsLetterClass(c: char)
  {
    IsLowerClass(c) || IsUpperClass(c)
  }

  /** The letters of `s`, `r`, `o` and `a` under `re.IGNORECASE`, which also
      lets `s` match the long s `ſ`. */
  predicate IsS(c: char) { c == 's' || c == 'S' || c == 'ſ' }
  predicate IsR(c: char) { c == 'r' || c == 'R' }
  predicate IsO(c: char) { c == 'o' || c == 'O' }
  predicate IsA(c: char) { c == 'a' || c == 'A' }

  predicate HasPySpace(s: string)
  {
    exists i :: 0 <= i < |s| && IsPySpace(s[i])
  }

  // ---------------------------------------------------------------------------------
  // Scanning

  /** `\s*` from index `j`, greedily. */
  function SkipSpaces(s: string, j: nat): (r: nat)
    requires j <= |s|
    ensures j <= r <= |s|
    ensures r == |s| || !IsPySpace(s[r])
    ensures forall k :: j <= k < r ==> IsPySpace(s[k])
    decreases |s| - j
  {
    if j < |s| && IsPySpace(s[j]) then SkipSpaces(s, j + 1) else j
  }

  /** `\.?` at index `j`. */
  function OptDot(s: string, j: nat): (r: nat)
    requires j <= |s|
    ensures j <= r <= |s| && r <= j + 1
  {
    if j < |s| && s[j] == '.' then j + 1 else j
  }

  /** The substitutions of the source, in the order they are applied. */
  datatype Pattern =
    | Sro          // \s*(s\.?\s*r\.?\s*o\.?)\.?   ->  " s.r.o."   (ignoring case)
    | As           // \s*(a\.?\s*s\.?)\.?          ->  " a.s."     (ignoring case)
    | LetterDigit  // ([a-zA-Zá-žÁ-Ž])(\d)         ->  r"\1 \2"
    | DigitLetter  // (\d)([a-zA-Zá-žÁ-Ž])         ->  r"\1 \2"
    | Spaces       // \s{2,}                       ->  " "

  /** `s\.?\s*r\.?\s*o\.?` and the trailing `\.?` from index `a` (ignoring case). */
  function SroFrom(s: string, a: nat): (e: Option<nat>)
    requires a <= |s|
    ensures e.Some? ==> a < e.value <= |s|
  {
    if a < |s| && IsS(s[a]) then
      var b := SkipSpaces(s, OptDot(s, a + 1));
      if b < |s| && IsR(s[b]) then
        var c := SkipSpaces(s, OptDot(s, b + 1));
        if c < |s| && IsO(s[c]) then Some(OptDot(s, OptDot(s, c + 1))) else None
      else None
    else None
  }

  /** `a\.?\s*s\.?` and the trailing `\.?` from index `a` (ignoring case). */
  function AsFrom(s: string, a: nat): (e: Option<nat>)
    requires a <= |s|
    ensures e.Some? ==> a < e.value <= |s|
  {
    if a < |s| && IsA(s[a]) then
      var b := SkipSpaces(s, OptDot(s, a + 1));
      if b < |s| && IsS(s[b]) then Some(OptDot(s, OptDot(s, b + 1))) else None
    else None
  }

  /** The end of the match of `p` that starts at index `i`, if there is one.
      A greedy `\s*` or `\.?` that backtracks cannot help any of these
      patterns, since what it gives back is a space or a dot and the next atom
      wants a letter, so one greedy pass decides the match. */
  function MatchAt(p: Pattern, s: string, i: nat): (e: Option<nat>)
    requires i < |s|
    ensures e.Some? ==> i < e.value <= |s|
  {
    match p
    case Sro => SroFrom(s, SkipSpaces(s, i))
    case As => AsFrom(s, SkipSpaces(s, i))
    case LetterDigit =>
      if i + 1 < |s| && IsLetterClass(s[i]) && IsPyDigit(s[i + 1]) then Some(i + 2) else None
    case DigitLetter =>
      if i + 1 < |s| && IsPyDigit(s[i]) && IsLetterClass(s[i + 1]) then Some(i + 2) else None
    case Spaces =>
      var e := SkipSpaces(s, i);
      if e - i >= 2 then Some(e) else None
  }

  /** The replacement of a match `m` of `p`. */
  function Replacement(p: Pattern, m: string): string
    requires |m| >= 1
  {
    match p
    case Sro => " s.r.o."
    case As => " a.s."
    case LetterDigit => if |m| == 2 then [m[0], ' ', m[1]] else m
    case DigitLetter => if |m| == 2 then [m[0], ' ', m[1]] else m
    case Spaces => " "
  }

  /** `re.sub(p, repl, s)`, from index `i` on. */
  function Sub(p: Pattern, s: string, i: nat): string
    requires i <= |s|
    decreases |s| - i
  {
    if i == |s| then ""
    else
      match MatchAt(p, s, i)
      case Some(e) => Replacement(p, s[i..e]) + Sub(p, s, e)
      case None => [s[i]] + Sub(p, s, i + 1)
  }

  /** `(?<=[a-zá-ž])(?=[A-ZÁ-Ž][a-zá-ž])`: an empty match before index `i`. */
  predicate WordStart(s: string, i: nat)
  {
    0 < i && i + 1 < |s| && IsLowerClass(s[i - 1]) && IsUpperClass(s[i]) && IsLowerClass(s[i + 1])
  }

  /** `re.sub(r"(?<=[a-zá-ž])(?=[A-ZÁ-Ž][a-zá-ž])", " ", s)`, from index `i` on:
      a space before every word start, the lookarounds looking at `s` itself. */
  function SplitWords(s: string, i: nat): string
    requires i <= |s|
    decreases |s| - i
  {
    if i == |s| then "" else (if WordStart(s, i) then " " else "") + [s[i]] + SplitWords(s, i + 1)
  }

  /** The end of `s[..e]` once trailing whitespace is dropped. */
  function SkipSpacesBack(s: string, e: nat): (r: nat)
    requires e <= |s|
    ensures r <= e
    ensures r == 0 || !IsPySpace(s[r - 1])
    ensures forall k :: r <= k < e ==> IsPySpace(s[k])
  {
    if e > 0 && IsPySpace(s[e - 1]) then SkipSpacesBack(s, e - 1) else e
  }

  predicate AllPySpace(s: string)
  {
    forall k :: 0 <= k < |s| ==> IsPySpace(s[k])
  }

  /** `r` is the slice of `s` from index `a` with only whitespace around it. */
  predicate SliceBetweenSpaces(s: string, a: nat, r: string)
  {
    a + |r| <= |s| && r == s[a..a + |r|] && AllPySpace(s[..a]) && AllPySpace(s[a + |r|..])
  }

  /** `str.strip()`: the slice between the leading and the trailing whitespace.
      The result is a slice of `s` with only whitespace around it, and starts
      and ends with a character that is not whitespace. */
  function PyStrip(s: string): (r: string)
    ensures r == [] || (!IsPySpace(r[0]) && !IsPySpace(r[|r| - 1]))
    ensures exists a :: SliceBetweenSpaces(s, a, r)
  {
    var a := SkipSpaces(s, 0);
    var e := SkipSpacesBack(s, |s|);
    StripEnds(s, a, e);
    if a < e then s[a..e] else []
  }

  lemma StripEnds(s: string, a: nat, e: nat)
    requires a == SkipSpaces(s, 0) && e == SkipSpacesBack(s, |s|)
    ensures a < e ==> SliceBetweenSpaces(s, a, s[a..e])
    ensures a >= e ==> SliceBetweenSpaces(s, 0, [])
  {
    LeadingSpaces(s, a);
    TrailingSpaces(s, e);
    if a < e {
      assert s[a..e] == s[a..a + |s[a..e]|];
    } else {
      forall k | 0 <= k < |s| ensures IsPySpace(s[0..][k]) {
        assert s[0..][k] == s[k];
      }
    }
  }

  lemma LeadingSpaces(s: string, a: nat)
    requires a == SkipSpaces(s, 0)
    ensures AllPySpace(s[..a])
  {
    forall k | 0 <= k < a ensures IsPySpace(s[..a][k]) {
      assert s[..a][k] == s[k];
    }
  }

  lemma TrailingSpaces(s: string, e: nat)
    requires e == SkipSpacesBack(s, |s|)
    ensures AllPySpace(s[e..])
  {
    forall k | 0 <= k < |s| - e ensures IsPySpace(s[e..][k]) {
      assert s[e..][k] == s[e + k];
    }
  }

  /** `_normalize_company_name(name)` for a string `name`. */
  function NormalizeCompanyName(name: string): string
  {
    if name == "" then ""
    else
      var s := PyStrip(name);
      var hadWhitespace := HasPySpace(s);
      var legal := Sub(As, Sub(Sro, s, 0), 0);
      var split := if hadWhitespace then legal else Sub(DigitLetter, Sub(LetterDigit, SplitWords(legal, 0), 0), 0);
      PyStrip(Sub(Spaces, split, 0))
  }

  // ---------------------------------------------------------------------------------
  // Stages that leave their input alone

  /** Where `p` matches nowhere, `re.sub` returns its input. */
  lemma {:induction false} SubUnchanged(p: Pattern, s: string, i: nat)
    requires i <= |s|
    requires forall k :: i <= k < |s| ==> MatchAt(p, s, k).None?
    ensures Sub(p, s, i) == s[i..]
    decreases |s| - i
  {
    if i < |s| {
      assert s[i..] == [s[i]] + s[i + 1..];
      SubUnchanged(p, s, i + 1);
      SubStep(p, s, i);
    }
  }

  /** Up to the next match `re.sub` copies its input. */
  lemma {:induction false} SubCopies(p: Pattern, s: string, i: nat, j: nat)
    requires i <= j <= |s|
    requires forall k :: i <= k < j ==> MatchAt(p, s, k).None?
    ensures Sub(p, s, i) == s[i..j] + Sub(p, s, j)
    decreases j - i
  {
    if i < j {
      SubCopies(p, s, i + 1, j);
      SubStep(p, s, i);
      ConsSlice(s, i, j, Sub(p, s, j));
    }
  }

  lemma ConsSlice(s: string, i: nat, j: nat, rest: string)
    requires i < j <= |s|
    ensures [s[i]] + (s[i + 1..j] + rest) == s[i..j] + rest
  {
    assert s[i..j] == [s[i]] + s[i + 1..j];
  }

  /** Where `p` matches, `re.sub` puts in the replacement and goes on after the match. */
  lemma SubMatched(p: Pattern, s: string, i: nat, e: nat)
    requires i < |s| && MatchAt(p, s, i) == Some(e)
    ensures Sub(p, s, i) == Replacement(p, s[i..e]) + Sub(p, s, e)
  {
  }

  /** Where `p` does not match, `re.sub` copies one character. */
  lemma SubStep(p: Pattern, s: string, i: nat)
    requires i < |s| && MatchAt(p, s, i).None?
    ensures Sub(p, s, i) == [s[i]] + Sub(p, s, i + 1)
  {
  }

  /** The character after index `k` is neither a dot nor whitespace, so a
      legal form starting at `k` needs it to be its second letter. */
  predicate NextIsPlain(s: string, k: nat)
  {
    k + 1 < |s| && s[k + 1] != '.' && !IsPySpace(s[k + 1])
  }

  /** A legal form starts with its first letter, or with whitespace before it,
      and goes on with its second letter: where neither holds, none begins. */
  lemma NoLegalFormAt(s: string, k: nat)
    requires k < |s| && !IsPySpace(s[k])
    ensures !IsS(s[k]) || (NextIsPlain(s, k) && !IsR(s[k + 1])) ==> MatchAt(Sro, s, k).None?
    ensures !IsA(s[k]) || (NextIsPlain(s, k) && !IsS(s[k + 1])) ==> MatchAt(As, s, k).None?
  {
    assert SkipSpaces(s, k) == k;
    if NextIsPlain(s, k) {
      assert SkipSpaces(s, OptDot(s, k + 1)) == k + 1;
    }
  }

  /** Every index of `s[i..j]` holds a character that starts no s.r.o. form:
      one that is not whitespace and is not an `s` going on with an `r`. */
  predicate SroFree(s: string, i: nat, j: nat)
    decreases j - i
  {
    i >= j ||
    (i < |s| && !IsPySpace(s[i]) && (!IsS(s[i]) || (NextIsPlain(s, i) && !IsR(s[i + 1]))) && SroFree(s, i + 1, j))
  }

  /** Like `SroFree`, for the a.s. form. */
  predicate AsFree(s: string, i: nat, j: nat)
    decreases j - i
  {
    i >= j ||
    (i < |s| && !IsPySpace(s[i]) && (!IsA(s[i]) || (NextIsPlain(s, i) && !IsS(s[i + 1]))) && AsFree(s, i + 1, j))
  }

  lemma {:induction false} NoSroIn(s: string, i: nat, j: nat)
    requires SroFree(s, i, j) && j <= |s|
    ensures forall k :: i <= k < j ==> MatchAt(Sro, s, k).None?
    decreases j - i
  {
    if i < j {
      NoLegalFormAt(s, i);
      NoSroIn(s, i + 1, j);
    }
  }

  lemma {:induction false} NoAsIn(s: string, i: nat, j: nat)
    requires AsFree(s, i, j) && j <= |s|
    ensures forall k :: i <= k < j ==> MatchAt(As, s, k).None?
    decreases j - i
  {
    if i < j {
      NoLegalFormAt(s, i);
      NoAsIn(s, i + 1, j);
    }
  }

  /** Leading whitespace is part of a legal-form match: a match at a space is
      the match at the next character. */
  lemma LegalFormAfterSpace(s: string, k: nat)
    requires k + 1 < |s| && IsPySpace(s[k])
    ensures MatchAt(Sro, s, k) == MatchAt(Sro, s, k + 1)
    ensures MatchAt(As, s, k) == MatchAt(As, s, k + 1)
  {
    assert SkipSpaces(s, k) == SkipSpaces(s, k + 1);
  }

  /** A name without an `s` (in any case, or `ſ`) has no legal form to rewrite. */
  lemma LegalFormsUntouched(s: string)
    requires forall k :: 0 <= k < |s| ==> !IsS(s[k])
    ensures Sub(As, Sub(Sro, s, 0), 0) == s
  {
    SubUnchanged(Sro, s, 0);
    SubUnchanged(As, s, 0);
  }

  /** A name without two whitespace characters in a row has no run to collapse. */
  lemma CollapseUntouched(s: string)
    requires NoDoubleSpace(s)
    ensures Sub(Spaces, s, 0) == s
  {
    forall k | 0 <= k < |s|
      ensures MatchAt(Spaces, s, k).None?
    {
      if k + 1 < |s| {
        assert !(IsPySpace(s[k]) && IsPySpace(s[k + 1]));
      }
    }
    SubUnchanged(Spaces, s, 0);
  }

  /** Where no lower-case letter precedes a capital and a lower-case letter,
      no word is split. */
  lemma {:induction false} SplitWordsUnchanged(s: string, i: nat)
    requires i <= |s|
    requires forall k :: i <= k < |s| ==> !WordStart(s, k)
    ensures SplitWords(s, i) == s[i..]
    decreases |s| - i
  {
    if i < |s| {
      SplitWordsUnchanged(s, i + 1);
      assert s[i..] == [s[i]] + s[i + 1..];
    }
  }

  /** Up to the next word start `SplitWords` copies its input. */
  lemma {:induction false} SplitWordsCopies(s: string, i: nat, j: nat)
    requires i <= j <= |s|
    requires forall k :: i <= k < j ==> !WordStart(s, k)
    ensures SplitWords(s, i) == s[i..j] + SplitWords(s, j)
    decreases j - i
  {
    if i < j {
      SplitWordsCopies(s, i + 1, j);
      assert SplitWords(s, i) == [s[i]] + SplitWords(s, i + 1);
      assert s[i..j] == [s[i]] + s[i + 1..j];
      assert [s[i]] + (s[i + 1..j] + SplitWords(s, j)) == ([s[i]] + s[i + 1..j]) + SplitWords(s, j);
    }
  }

  /** No index of `s[i..j]` is a word start. */
  predicate SplitFree(s: string, i: nat, j: nat)
    decreases j - i
  {
    i >= j || (!WordStart(s, i) && SplitFree(s, i + 1, j))
  }

  lemma {:induction false} NoWordStartIn(s: string, i: nat, j: nat)
    requires SplitFree(s, i, j)
    ensures forall k :: i <= k < j ==> !WordStart(s, k)
    decreases j - i
  {
    if i < j {
      NoWordStartIn(s, i + 1, j);
    }
  }

  /** At a word start `SplitWords` puts in a space. */
  lemma SplitWordsAt(s: string, i: nat)
    requires i < |s| && WordStart(s, i)
    ensures SplitWords(s, i) == " " + [s[i]] + SplitWords(s, i + 1)
  {
  }

  /** A name without digits has no letter and digit to pull apart. */
  lemma NoDigitsUntouched(s: string)
    requires forall k :: 0 <= k < |s| ==> !IsPyDigit(s[k])
    ensures Sub(LetterDigit, s, 0) == s && Sub(DigitLetter, s, 0) == s
  {
    SubUnchanged(LetterDigit, s, 0);
    SubUnchanged(DigitLetter, s, 0);
  }

  lemma StripUnchanged(s: string)
    requires s == [] || (!IsPySpace(s[0]) && !IsPySpace(s[|s| - 1]))
    ensures PyStrip(s) == s
  {
  }

  // ---------------------------------------------------------------------------------
  // What a legal-form match is

  /** `c` itself unless it is a dot or whitespace. */
  function LetterOf(c: char): string
  {
    if c == '.' || IsPySpace(c) then [] else [c]
  }

  /** The characters of `m` that are neither dots nor whitespace. */
  function Letters(m: string): (r: string)
    ensures |r| <= |m|
  {
    if m == [] then [] else LetterOf(m[0]) + Letters(m[1..])
  }

  lemma {:induction false} LettersAppend(a: string, b: string)
    ensures Letters(a + b) == Letters(a) + Letters(b)
  {
    if a == [] {
      assert a + b == b;
    } else {
      assert (a + b)[0] == a[0] && (a + b)[1..] == a[1..] + b;
      LettersAppend(a[1..], b);
      assert LetterOf(a[0]) + (Letters(a[1..]) + Letters(b)) == (LetterOf(a[0]) + Letters(a[1..])) + Letters(b);
    }
  }

  /** A letter in front of a stretch without letters. */
  lemma LetterThenNone(c: char, g: string)
    requires c != '.' && !IsPySpace(c) && Letters(g) == []
    ensures Letters([c] + g) == [c]
  {
    assert ([c] + g)[0] == c && ([c] + g)[1..] == g;
  }

  lemma LettersOfSplit(s: string, i: nat, a: nat, e: nat)
    requires i <= a <= e <= |s|
    ensures Letters(s[i..e]) == Letters(s[i..a]) + Letters(s[a..e])
  {
    assert s[i..e] == s[i..a] + s[a..e];
    LettersAppend(s[i..a], s[a..e]);
  }

  /** A stretch of dots and whitespace holds no letters. */
  lemma {:induction false} LettersOfGap(s: string, i: nat, j: nat)
    requires i <= j <= |s|
    requires forall k :: i <= k < j ==> s[k] == '.' || IsPySpace(s[k])
    ensures Letters(s[i..j]) == []
    decreases j - i
  {
    if i < j {
      assert s[i..j][1..] == s[i + 1..j];
      LettersOfGap(s, i + 1, j);
    }
  }

  /** From a dot that may be there, then whitespace, to `b`: only a gap. */
  lemma GapBetween(s: string, a: nat, b: nat)
    requires a <= |s| && b == SkipSpaces(s, OptDot(s, a))
    ensures Letters(s[a..b]) == []
  {
    LettersOfGap(s, a, b);
  }

  /** One letter, then a gap. */
  lemma LetterThenGap(s: string, a: nat, b: nat)
    requires a < |s| && s[a] != '.' && !IsPySpace(s[a]) && b == SkipSpaces(s, OptDot(s, a + 1))
    ensures Letters(s[a..b]) == [s[a]]
  {
    LettersOfSplit(s, a, a + 1, b);
    GapBetween(s, a + 1, b);
    OneLetter(s, a);
  }

  lemma OneLetter(s: string, a: nat)
    requires a < |s| && s[a] != '.' && !IsPySpace(s[a])
    ensures Letters(s[a..a + 1]) == [s[a]]
  {
    assert s[a..a + 1] == [s[a]];
    LetterThenNone(s[a], []);
  }

  /** The last letter, and up to two dots. */
  lemma LetterThenDots(s: string, c: nat, e: nat)
    requires c < |s| && s[c] != '.' && !IsPySpace(s[c]) && e == OptDot(s, OptDot(s, c + 1))
    ensures Letters(s[c..e]) == [s[c]]
  {
    assert s[c..e] == [s[c]] + s[c + 1..e];
    LettersOfGap(s, c + 1, e);
    LetterThenNone(s[c], s[c + 1..e]);
  }

  /** The letters of four adjacent stretches. */
  lemma LettersOfFour(s: string, i: nat, a: nat, b: nat, c: nat, e: nat)
    requires i <= a <= b <= c <= e <= |s|
    ensures Letters(s[i..e]) == Letters(s[i..a]) + (Letters(s[a..b]) + (Letters(s[b..c]) + Letters(s[c..e])))
  {
    LettersOfSplit(s, i, a, e);
    LettersOfSplit(s, a, b, e);
    LettersOfSplit(s, b, c, e);
  }

  /** A match of the s.r.o. pattern is whitespace, dots and the three letters
      `s`, `r`, `o` in this order, in either case. */
  lemma SroMatchLetters(s: string, i: nat)
    requires i < |s| && MatchAt(Sro, s, i).Some?
    ensures var l := Letters(s[i..MatchAt(Sro, s, i).value]); |l| == 3 && IsS(l[0]) && IsR(l[1]) && IsO(l[2])
  {
    var a := SkipSpaces(s, i);
    assert MatchAt(Sro, s, i) == SroFrom(s, a);
    assert a < |s| && IsS(s[a]);
    var b := SkipSpaces(s, OptDot(s, a + 1));
    assert b < |s| && IsR(s[b]);
    var c := SkipSpaces(s, OptDot(s, b + 1));
    assert c < |s| && IsO(s[c]);
    var e := OptDot(s, OptDot(s, c + 1));
    assert MatchAt(Sro, s, i).value == e;
    assert Letters(s[i..e]) == Letters(s[i..a]) + (Letters(s[a..b]) + (Letters(s[b..c]) + Letters(s[c..e]))) by {
      LettersOfFour(s, i, a, b, c, e);
    }
    assert Letters(s[i..a]) == [] by { LettersOfGap(s, i, a); }
    assert Letters(s[a..b]) == [s[a]] by { LetterThenGap(s, a, b); }
    assert Letters(s[b..c]) == [s[b]] by { LetterThenGap(s, b, c); }
    assert Letters(s[c..e]) == [s[c]] by { LetterThenDots(s, c, e); }
    assert Letters(s[i..e]) == [] + ([s[a]] + ([s[b]] + [s[c]]));
  }

  /** A match of the a.s. pattern is whitespace, dots and the two letters `a`,
      `s` in this order, in either case. */
  lemma AsMatchLetters(s: string, i: nat)
    requires i < |s| && MatchAt(As, s, i).Some?
    ensures var l := Letters(s[i..MatchAt(As, s, i).value]); |l| == 2 && IsA(l[0]) && IsS(l[1])
  {
    var a := SkipSpaces(s, i);
    assert MatchAt(As, s, i) == AsFrom(s, a);
    assert a < |s| && IsA(s[a]);
    var b := SkipSpaces(s, OptDot(s, a + 1));
    assert b < |s| && IsS(s[b]);
    var e := OptDot(s, OptDot(s, b + 1));
    assert MatchAt(As, s, i).value == e;
    LettersOfFour(s, i, i, a, b, e);
    assert Letters(s[i..i]) == [];
    LettersOfGap(s, i, a);
    LetterThenGap(s, a, b);
    LetterThenDots(s, b, e);
    assert Letters(s[i..e]) == [] + ([] + ([s[a]] + [s[b]]));
  }

  // ---------------------------------------------------------------------------------
  // The result is tidy

  predicate NoDoubleSpace(r: string)
  {
    forall k :: 0 <= k < |r| - 1 ==> !(IsPySpace(r[k]) && IsPySpace(r[k + 1]))
  }

  /** No whitespace at either end and never two whitespace characters in a row. */
  predicate Tidy(r: string)
  {
    (r == [] || (!IsPySpace(r[0]) && !IsPySpace(r[|r| - 1]))) && NoDoubleSpace(r)
  }

  /** After `re.sub(r"\s{2,}", " ", s)` no two whitespace characters are adjacent,
      and the output starts with whitespace exactly when the input does. */
  lemma {:induction false} CollapseNoDoubleSpace(s: string, i: nat)
    requires i <= |s|
    ensures NoDoubleSpace(Sub(Spaces, s, i))
    ensures i < |s| ==> Sub(Spaces, s, i) != [] && (IsPySpace(Sub(Spaces, s, i)[0]) <==> IsPySpace(s[i]))
    decreases |s| - i
  {
    if i < |s| {
      var out := Sub(Spaces, s, i);
      match MatchAt(Spaces, s, i)
      case Some(e) =>
        CollapseNoDoubleSpace(s, e);
        var rest := Sub(Spaces, s, e);
        assert out == " " + rest;
        assert e < |s| ==> !IsPySpace(s[e]);
        assert e < |s| <==> rest != [];
      case None =>
        CollapseNoDoubleSpace(s, i + 1);
        var rest := Sub(Spaces, s, i + 1);
        assert out == [s[i]] + rest;
        assert IsPySpace(s[i]) ==> SkipSpaces(s, i) == i + 1;
        assert i + 1 < |s| <==> rest != [];
    }
  }

  lemma SliceNoDoubleSpace(s: string, a: nat, b: nat)
    requires a <= b <= |s| && NoDoubleSpace(s)
    ensures NoDoubleSpace(s[a..b])
  {
    var t := s[a..b];
    forall k | 0 <= k < |t| - 1
      ensures !(IsPySpace(t[k]) && IsPySpace(t[k + 1]))
    {
      assert t[k] == s[a + k] && t[k + 1] == s[a + k + 1];
    }
  }

  /** A normalised name never starts or ends with whitespace and never holds
      two whitespace characters in a row. */
  lemma NormalizedIsTidy(name: string)
    ensures Tidy(NormalizeCompanyName(name))
  {
    if name != "" {
      var s := PyStrip(name);
      var legal := Sub(As, Sub(Sro, s, 0), 0);
      var split := if HasPySpace(s) then legal else Sub(DigitLetter, Sub(LetterDigit, SplitWords(legal, 0), 0), 0);
      CollapseNoDoubleSpace(split, 0);
      StripTidy(Sub(Spaces, split, 0));
    }
  }

  /** Stripping a string without two whitespace characters in a row tidies it. */
  lemma StripTidy(c: string)
    requires NoDoubleSpace(c)
    ensures Tidy(PyStrip(c))
  {
    var a, e := SkipSpaces(c, 0), SkipSpacesBack(c, |c|);
    if a < e {
      SliceNoDoubleSpace(c, a, e);
    }
  }

  /** The empty name (the source's falsy value) stays empty. */
  lemma EmptyStaysEmpty()
    ensures NormalizeCompanyName("") == ""
  {
  }

  /** A name that is only whitespace becomes empty. */
  lemma BlankBecomesEmpty(name: string)
    requires forall k :: 0 <= k < |name| ==> IsPySpace(name[k])
    ensures NormalizeCompanyName(name) == ""
  {
    if name != "" {
      assert SkipSpaces(name, 0) == |name|;
    }
  }

  // ---------------------------------------------------------------------------------
  // Without whitespace, letters and digits are pulled apart

  /** No letter of `r` from index `i` on is directly followed by a digit. */
  predicate NoLetterDigit(r: string, i: nat)
  {
    forall k :: i <= k < |r| - 1 ==> !(IsLetterClass(r[k]) && IsPyDigit(r[k + 1]))
  }

  /** No digit of `r` from index `i` on is directly followed by a letter. */
  predicate NoDigitLetter(r: string, i: nat)
  {
    forall k :: i <= k < |r| - 1 ==> !(IsPyDigit(r[k]) && IsLetterClass(r[k + 1]))
  }

  lemma LetterDigitConcat(x: string, rest: string)
    requires x != [] && NoLetterDigit(x, 0) && NoLetterDigit(rest, 0)
    requires rest != [] ==> !(IsLetterClass(x[|x| - 1]) && IsPyDigit(rest[0]))
    ensures NoLetterDigit(x + rest, 0)
  {
    var r := x + rest;
    forall k | 0 <= k < |r| - 1
      ensures !(IsLetterClass(r[k]) && IsPyDigit(r[k + 1]))
    {
      if k + 1 < |x| {
        assert r[k] == x[k] && r[k + 1] == x[k + 1];
      } else if k + 1 == |x| {
        assert r[k] == x[|x| - 1] && r[k + 1] == rest[0];
      } else {
        assert r[k] == rest[k - |x|] && r[k + 1] == rest[k - |x| + 1];
      }
    }
  }

  lemma DigitLetterConcat(x: string, rest: string)
    requires x != [] && NoDigitLetter(x, 0) && NoDigitLetter(rest, 0)
    requires rest != [] ==> !(IsPyDigit(x[|x| - 1]) && IsLetterClass(rest[0]))
    ensures NoDigitLetter(x + rest, 0)
  {
    var r := x + rest;
    forall k | 0 <= k < |r| - 1
      ensures !(IsPyDigit(r[k]) && IsLetterClass(r[k + 1]))
    {
      if k + 1 < |x| {
        assert r[k] == x[k] && r[k + 1] == x[k + 1];
      } else if k + 1 == |x| {
        assert r[k] == x[|x| - 1] && r[k + 1] == rest[0];
      } else {
        assert r[k] == rest[k - |x|] && r[k + 1] == rest[k - |x| + 1];
      }
    }
  }

  /** `re.sub(r"([a-zA-Zá-žÁ-Ž])(\d)", r"\1 \2", s)` leaves no letter before a
      digit, and keeps the first character. */
  lemma {:induction false} LetterDigitSeparates(s: string, i: nat)
    requires i <= |s|
    ensures NoLetterDigit(Sub(LetterDigit, s, i), 0)
    ensures i < |s| ==> Sub(LetterDigit, s, i) != [] && Sub(LetterDigit, s, i)[0] == s[i]
    decreases |s| - i
  {
    if i < |s| {
      var out := Sub(LetterDigit, s, i);
      match MatchAt(LetterDigit, s, i)
      case Some(e) =>
        LetterDigitSeparates(s, e);
        var rest := Sub(LetterDigit, s, e);
        var x := [s[i], ' ', s[i + 1]];
        assert out == x + rest;
        assert e < |s| <==> rest != [];
        assert NoLetterDigit(x, 0) by {
          assert !IsPyDigit(x[1]) && !IsLetterClass(x[1]);
        }
        assert !IsLetterClass(x[2]) by {
          assert IsPyDigit(s[i + 1]);
        }
        LetterDigitConcat(x, rest);
      case None =>
        LetterDigitSeparates(s, i + 1);
        var rest := Sub(LetterDigit, s, i + 1);
        assert out == [s[i]] + rest;
        assert i + 1 < |s| <==> rest != [];
        LetterDigitConcat([s[i]], rest);
    }
  }

  /** A digit and a letter pulled apart, in front of a separated rest. */
  lemma DigitLetterMatched(s: string, i: nat, rest: string)
    requires i + 1 < |s| && IsPyDigit(s[i]) && IsLetterClass(s[i + 1]) && NoLetterDigit(s, i)
    requires NoDigitLetter(rest, 0) && NoLetterDigit(rest, 0)
    requires (i + 2 < |s| <==> rest != []) && (rest != [] ==> rest[0] == s[i + 2])
    ensures NoDigitLetter([s[i], ' ', s[i + 1]] + rest, 0) && NoLetterDigit([s[i], ' ', s[i + 1]] + rest, 0)
  {
    var x := [s[i], ' ', s[i + 1]];
    assert NoLetterDigit(x, 0) && NoDigitLetter(x, 0) by {
      assert !IsPyDigit(x[1]) && !IsLetterClass(x[1]);
    }
    assert !IsPyDigit(x[2]);
    if rest != [] {
      assert !(IsLetterClass(s[i + 1]) && IsPyDigit(s[i + 2]));
    }
    LetterDigitConcat(x, rest);
    DigitLetterConcat(x, rest);
  }

  /** A character copied unchanged, in front of a separated rest. */
  lemma DigitLetterCopied(s: string, i: nat, rest: string)
    requires i < |s| && NoLetterDigit(s, i)
    requires !(i + 1 < |s| && IsPyDigit(s[i]) && IsLetterClass(s[i + 1]))
    requires NoDigitLetter(rest, 0) && NoLetterDigit(rest, 0)
    requires (i + 1 < |s| <==> rest != []) && (rest != [] ==> rest[0] == s[i + 1])
    ensures NoDigitLetter([s[i]] + rest, 0) && NoLetterDigit([s[i]] + rest, 0)
  {
    if rest != [] {
      assert !(IsLetterClass(s[i]) && IsPyDigit(s[i + 1]));
    }
    LetterDigitConcat([s[i]], rest);
    DigitLetterConcat([s[i]], rest);
  }

  /** `re.sub(r"(\d)([a-zA-Zá-žÁ-Ž])", r"\1 \2", s)` leaves no digit before a
      letter, and creates no letter before a digit. */
  lemma {:induction false} DigitLetterSeparates(s: string, i: nat)
    requires i <= |s| && NoLetterDigit(s, i)
    ensures NoDigitLetter(Sub(DigitLetter, s, i), 0) && NoLetterDigit(Sub(DigitLetter, s, i), 0)
    ensures i < |s| ==> Sub(DigitLetter, s, i) != [] && Sub(DigitLetter, s, i)[0] == s[i]
    decreases |s| - i
  {
    if i < |s| {
      var out := Sub(DigitLetter, s, i);
      match MatchAt(DigitLetter, s, i)
      case Some(e) =>
        DigitLetterSeparates(s, e);
        var rest := Sub(DigitLetter, s, e);
        assert out == [s[i], ' ', s[i + 1]] + rest;
        assert e < |s| <==> rest != [];
        DigitLetterMatched(s, i, rest);
      case None =>
        DigitLetterSeparates(s, i + 1);
        var rest := Sub(DigitLetter, s, i + 1);
        assert out == [s[i]] + rest;
        assert i + 1 < |s| <==> rest != [];
        DigitLetterCopied(s, i, rest);
    }
  }

  /** Collapsing whitespace puts no letter next to a digit. */
  lemma {:induction false} CollapseKeepsSeparation(s: string, i: nat)
    requires i <= |s| && NoLetterDigit(s, i) && NoDigitLetter(s, i)
    ensures NoLetterDigit(Sub(Spaces, s, i), 0) && NoDigitLetter(Sub(Spaces, s, i), 0)
    ensures i < |s| ==>
      Sub(Spaces, s, i) != [] && (Sub(Spaces, s, i)[0] == s[i] || (IsPySpace(s[i]) && IsPySpace(Sub(Spaces, s, i)[0])))
    decreases |s| - i
  {
    if i < |s| {
      var out := Sub(Spaces, s, i);
      match MatchAt(Spaces, s, i)
      case Some(e) =>
        CollapseKeepsSeparation(s, e);
        var rest := Sub(Spaces, s, e);
        assert out == " " + rest;
        assert e < |s| <==> rest != [];
      case None =>
        CollapseKeepsSeparation(s, i + 1);
        var rest := Sub(Spaces, s, i + 1);
        assert out == [s[i]] + rest;
        assert i + 1 < |s| <==> rest != [];
    }
  }

  lemma SliceKeepsSeparation(s: string, a: nat, b: nat)
    requires a <= b <= |s| && NoLetterDigit(s, 0) && NoDigitLetter(s, 0)
    ensures NoLetterDigit(s[a..b], 0) && NoDigitLetter(s[a..b], 0)
  {
    var t := s[a..b];
    forall k | 0 <= k < |t| - 1
      ensures !(IsLetterClass(t[k]) && IsPyDigit(t[k + 1])) && !(IsPyDigit(t[k]) && IsLetterClass(t[k + 1]))
    {
      assert t[k] == s[a + k] && t[k + 1] == s[a + k + 1];
    }
  }

  /** For a name that had no whitespace once stripped, no letter of the result
      touches a digit: `Praha4` becomes `Praha 4`, `4ever` becomes `4 ever`. */
  lemma SeparatedWithoutWhitespace(name: string)
    requires !HasPySpace(PyStrip(name))
    ensures NoLetterDigit(NormalizeCompanyName(name), 0) && NoDigitLetter(NormalizeCompanyName(name), 0)
  {
    if name != "" {
      var s := PyStrip(name);
      var legal := Sub(As, Sub(Sro, s, 0), 0);
      var first := Sub(LetterDigit, SplitWords(legal, 0), 0);
      var split := Sub(DigitLetter, first, 0);
      LetterDigitSeparates(SplitWords(legal, 0), 0);
      DigitLetterSeparates(first, 0);
      var collapsed := Sub(Spaces, split, 0);
      CollapseKeepsSeparation(split, 0);
      var a, e := SkipSpaces(collapsed, 0), SkipSpacesBack(collapsed, |collapsed|);
      if a < e {
        SliceKeepsSeparation(collapsed, a, e);
      }
    }
  }
}
