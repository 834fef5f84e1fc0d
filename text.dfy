/** Text normalisation of servisy_data.js: lower-casing, diacritic folding,
    word splitting, substring search, HTML escaping and `substring`. */
module Text {
  import opened Values

  // ---------------------------------------------------------------------------------
  // Characters

  /** ECMAScript WhiteSpace and LineTerminator: what `\s` matches and `trim` removes. */
  predicate IsJsSpace(c: char)
  {
    c == '\t' || c == '\n' || c == '\U{000B}' || c == '\U{000C}' || c == '\r' || c == ' '
    || c == '\U{00A0}' || c == '\U{1680}' || ('\U{2000}' <= c <= '\U{200A}')
    || c == '\U{2028}' || c == '\U{2029}' || c == '\U{202F}' || c == '\U{205F}'
    || c == '\U{3000}' || c == '\U{FEFF}'
  }

  /** The range U+0000-U+007E that `removeDiacritics` leaves alone. */
  predicate IsPlain(c: char)
  {
    c as int <= 0x7E
  }

  /** The fixed folding table of `removeDiacritics` (`diacriticsMap`): each of its
      letters maps to exactly one ASCII letter; `None` for characters not in it.
      The source repeats the entries for ë, Ë, ö, Ö, ü and Ü with the same values. */
  function DiacriticBase(c: char): Option<char>
  {
    match c
    case 'à' => Some('a')
    case 'á' => Some('a')
    case 'â' => Some('a')
    case 'ã' => Some('a')
    case 'ä' => Some('a')
    case 'å' => Some('a')
    case 'è' => Some('e')
    case 'é' => Some('e')
    case 'ê' => Some('e')
    case 'ë' => Some('e')
    case 'ì' => Some('i')
    case 'í' => Some('i')
    case 'î' => Some('i')
    case 'ï' => Some('i')
    case 'ò' => Some('o')
    case 'ó' => Some('o')
    case 'ô' => Some('o')
    case 'õ' => Some('o')
    case 'ö' => Some('o')
    case 'ù' => Some('u')
    case 'ú' => Some('u')
    case 'û' => Some('u')
    case 'ü' => Some('u')
    case 'ý' => Some('y')
    case 'ÿ' => Some('y')
    case 'ñ' => Some('n')
    case 'ç' => Some('c')
    case 'À' => Some('A')
    case 'Á' => Some('A')
    case 'Â' => Some('A')
    case 'Ã' => Some('A')
    case 'Ä' => Some('A')
    case 'Å' => Some('A')
    case 'È' => Some('E')
    case 'É' => Some('E')
    case 'Ê' => Some('E')
    case 'Ë' => Some('E')
    case 'Ì' => Some('I')
    case 'Í' => Some('I')
    case 'Î' => Some('I')
    case 'Ï' => Some('I')
    case 'Ò' => Some('O')
    case 'Ó' => Some('O')
    case 'Ô' => Some('O')
    case 'Õ' => Some('O')
    case 'Ö' => Some('O')
    case 'Ù' => Some('U')
    case 'Ú' => Some('U')
    case 'Û' => Some('U')
    case 'Ü' => Some('U')
    case 'Ý' => Some('Y')
    case 'Ÿ' => Some('Y')
    case 'Ñ' => Some('N')
    case 'Ç' => Some('C')
    case 'č' => Some('c')
    case 'Č' => Some('C')
    case 'ď' => Some('d')
    case 'Ď' => Some('D')
    case 'ě' => Some('e')
    case 'Ě' => Some('E')
    case 'ň' => Some('n')
    case 'Ň' => Some('N')
    case 'ř' => Some('r')
    case 'Ř' => Some('R')
    case 'š' => Some('s')
    case 'Š' => Some('S')
    case 'ť' => Some('t')
    case 'Ť' => Some('T')
    case 'ů' => Some('u')
    case 'Ů' => Some('U')
    case 'ž' => Some('z')
    case 'Ž' => Some('Z')
    case _ => None
  }

  predicate InTable(c: char)
  {
    DiacriticBase(c).Some?
  }

  predicate IsAsciiLetter(c: char)
  {
    'a' <= c <= 'z' || 'A' <= c <= 'Z'
  }

  /** `toLowerCase` of one character, for ASCII and the letters of the table;
      every other character is left as it is. */
  function LowerChar(c: char): (r: char)
    ensures IsPlain(c) ==> IsPlain(r)
    ensures InTable(c) ==> InTable(r)
  {
    if 'A' <= c <= 'Z' then (c as int + 32) as char
    else
      match c
      case 'À' => 'à'
      case 'Á' => 'á'
      case 'Â' => 'â'
      case 'Ã' => 'ã'
      case 'Ä' => 'ä'
      case 'Å' => 'å'
      case 'È' => 'è'
      case 'É' => 'é'
      case 'Ê' => 'ê'
      case 'Ë' => 'ë'
      case 'Ì' => 'ì'
      case 'Í' => 'í'
      case 'Î' => 'î'
      case 'Ï' => 'ï'
      case 'Ò' => 'ò'
      case 'Ó' => 'ó'
      case 'Ô' => 'ô'
      case 'Õ' => 'õ'
      case 'Ö' => 'ö'
      case 'Ù' => 'ù'
      case 'Ú' => 'ú'
      case 'Û' => 'û'
      case 'Ü' => 'ü'
      case 'Ý' => 'ý'
      case 'Ÿ' => 'ÿ'
      case 'Ñ' => 'ñ'
      case 'Ç' => 'ç'
      case 'Č' => 'č'
      case 'Ď' => 'ď'
      case 'Ě' => 'ě'
      case 'Ň' => 'ň'
      case 'Ř' => 'ř'
      case 'Š' => 'š'
      case 'Ť' => 'ť'
      case 'Ů' => 'ů'
      case 'Ž' => 'ž'
      case _ => c
  }

  lemma TableShape()
    ensures forall c :: InTable(c) ==> !IsPlain(c) && IsAsciiLetter(DiacriticBase(c).value)
  {
  }

  /** `String.prototype.toLowerCase`. */
  function ToLower(s: string): (r: string)
    ensures |r| == |s|
    ensures forall i :: 0 <= i < |s| ==> r[i] == LowerChar(s[i])
  {
    seq(|s|, i requires 0 <= i < |s| => LowerChar(s[i]))
  }

  /** `normalize(value)`: `''` for null, otherwise `String(value).toLowerCase()`. */
  function Normalize(v: Value): string
  {
    if v.Null? then "" else ToLower(AsString(v))
  }

  /** The capitals of the folding table. */
  predicate IsTableCapital(c: char)
  {
    match c
    case 'À' => true
    case 'Á' => true
    case 'Â' => true
    case 'Ã' => true
    case 'Ä' => true
    case 'Å' => true
    case 'È' => true
    case 'É' => true
    case 'Ê' => true
    case 'Ë' => true
    case 'Ì' => true
    case 'Í' => true
    case 'Î' => true
    case 'Ï' => true
    case 'Ò' => true
    case 'Ó' => true
    case 'Ô' => true
    case 'Õ' => true
    case 'Ö' => true
    case 'Ù' => true
    case 'Ú' => true
    case 'Û' => true
    case 'Ü' => true
    case 'Ý' => true
    case 'Ÿ' => true
    case 'Ñ' => true
    case 'Ç' => true
    case 'Č' => true
    case 'Ď' => true
    case 'Ě' => true
    case 'Ň' => true
    case 'Ř' => true
    case 'Š' => true
    case 'Ť' => true
    case 'Ů' => true
    case 'Ž' => true
    case _ => false
  }

  /** An ASCII capital or a capital of the table. */
  predicate IsCapital(c: char)
  {
    'A' <= c <= 'Z' || IsTableCapital(c)
  }

  /** Every capital of the table folds to an ASCII capital ... */
  lemma TableCapitalFoldsUp(c: char)
    requires IsTableCapital(c)
    ensures InTable(c) && 'A' <= DiacriticBase(c).value <= 'Z'
  {
  }

  /** ... and every other letter of the table folds to a small ASCII letter. */
  lemma OtherTableLettersFoldDown()
    ensures forall c :: InTable(c) && !IsTableCapital(c) ==> 'a' <= DiacriticBase(c).value <= 'z'
  {
  }

  /** Lower-casing leaves every character that is not a capital alone. */
  lemma LowerOfNonCapital(c: char)
    requires !IsCapital(c)
    ensures LowerChar(c) == c
  {
  }

  /** Lower-casing leaves no capital behind. */
  lemma LowerCharNotCapital(c: char)
    ensures !IsCapital(LowerChar(c))
  {
    if 'A' <= c <= 'Z' {
    } else if IsTableCapital(c) {
      TableCapitalLowered(c);
    } else {
      LowerOfNonCapital(c);
    }
  }

  lemma TableCapitalLowered(c: char)
    requires IsTableCapital(c)
    ensures !IsCapital(LowerChar(c))
  {
  }

  /** `normalize` gives lower-case text: it holds no ASCII capital and no
      capital of the table, so lower-casing it again changes nothing. */
  lemma {:induction false} NormalizeIsLowerCase(v: Value)
    ensures forall i :: 0 <= i < |Normalize(v)| ==> !IsCapital(Normalize(v)[i])
    ensures ToLower(Normalize(v)) == Normalize(v)
  {
    var s := CellString(v);
    var r := Normalize(v);
    assert r == ToLower(s);
    forall i | 0 <= i < |r|
      ensures !IsCapital(r[i]) && LowerChar(r[i]) == r[i]
    {
      LowerCharNotCapital(s[i]);
      LowerOfNonCapital(r[i]);
    }
    assert ToLower(r) == r;
  }

  // ---------------------------------------------------------------------------------
  // Diacritic folding

  /** `.replace(/[̀-ͯ]/g, '')`: drops combining diacritical marks. */
  function StripMarks(s: string): (r: string)
    ensures forall i :: 0 <= i < |r| ==> !IsMark(r[i])
    ensures |r| <= |s|
    ensures (forall i :: 0 <= i < |s| ==> !IsMark(s[i])) ==> r == s
    ensures (forall i :: 0 <= i < |s| ==> IsMark(s[i])) ==> r == []
  {
    if s == [] then []
    else
      assert forall i :: 0 <= i < |s| - 1 ==> s[1..][i] == s[i + 1];
      (if IsMark(s[0]) then [] else [s[0]]) + StripMarks(s[1..])
  }

  /** A combining diacritical mark, U+0300-U+036F. */
  predicate IsMark(c: char)
  {
    '\U{0300}' <= c <= '\U{036F}'
  }

  /** The strip works character by character; with the two cases of its
      contract this says it keeps exactly the non-marks, in order. */
  lemma {:induction false} StripMarksAppend(a: string, b: string)
    ensures StripMarks(a + b) == StripMarks(a) + StripMarks(b)
    decreases |a|
  {
    if a == [] {
      assert a + b == b;
    } else {
      assert (a + b)[1..] == a[1..] + b;
      StripMarksAppend(a[1..], b);
    }
  }

  /** The replacement `removeDiacritics` computes for one character. `decompose`
      stands for `char.normalize('NFD')`, whose Unicode tables are not modelled. */
  function FoldChar(c: char, decompose: char -> string): string
  {
    if IsPlain(c) then [c]
    else if InTable(c) then [DiacriticBase(c).value]
    else StripMarks(decompose(c))
  }

  /** `removeDiacritics(str)`. */
  function RemoveDiacritics(s: string, decompose: char -> string): string
  {
    if s == [] then [] else FoldChar(s[0], decompose) + RemoveDiacritics(s[1..], decompose)
  }

  /** The text both the highlighter and the filter compare against:
      `removeDiacritics(String(x).toLowerCase())`. */
  function Fold(s: string, decompose: char -> string): string
  {
    RemoveDiacritics(ToLower(s), decompose)
  }

  /** Text made only of U+0000-U+007E and of table letters: the domain on which
      folding needs no Unicode decomposition. */
  predicate Foldable(s: string)
  {
    forall i :: 0 <= i < |s| ==> IsPlain(s[i]) || InTable(s[i])
  }

  /** The single character a foldable character folds to. */
  function BaseChar(c: char): (r: char)
    requires IsPlain(c) || InTable(c)
    ensures IsPlain(r)
  {
    TableShape();
    if IsPlain(c) then c else DiacriticBase(c).value
  }

  lemma {:induction false} RemoveDiacriticsAppend(a: string, b: string, decompose: char -> string)
    ensures RemoveDiacritics(a + b, decompose) == RemoveDiacritics(a, decompose) + RemoveDiacritics(b, decompose)
    decreases |a|
  {
    if a != [] {
      assert (a + b)[1..] == a[1..] + b;
      RemoveDiacriticsAppend(a[1..], b, decompose);
    } else {
      assert a + b == b;
    }
  }

  /** On foldable text `removeDiacritics` is length-preserving and index-aligned:
      character i of the result is the base letter of character i of the input,
      whatever the decomposition does. */
  lemma {:induction false} RemoveDiacriticsAligned(s: string, decompose: char -> string)
    requires Foldable(s)
    ensures |RemoveDiacritics(s, decompose)| == |s|
    ensures forall i :: 0 <= i < |s| ==> RemoveDiacritics(s, decompose)[i] == BaseChar(s[i])
    decreases |s|
  {
    if s != [] {
      assert Foldable(s[1..]) by {
        forall i | 0 <= i < |s[1..]| ensures IsPlain(s[1..][i]) || InTable(s[1..][i]) {
          assert s[1..][i] == s[i + 1];
        }
      }
      RemoveDiacriticsAligned(s[1..], decompose);
      var r := RemoveDiacritics(s, decompose);
      assert r == [BaseChar(s[0])] + RemoveDiacritics(s[1..], decompose);
      forall i | 0 <= i < |s| ensures r[i] == BaseChar(s[i]) {
        if i > 0 {
          assert r[i] == RemoveDiacritics(s[1..], decompose)[i - 1];
          assert s[1..][i - 1] == s[i];
        }
      }
    }
  }

  /** Characters U+0000-U+007E pass through unchanged; table letters become their
      base letter; the result of folding foldable text is plain. */
  lemma RemoveDiacriticsFixesPlain(s: string, decompose: char -> string)
    requires Foldable(s)
    ensures |RemoveDiacritics(s, decompose)| == |s|
    ensures forall i :: 0 <= i < |s| && IsPlain(s[i]) ==> RemoveDiacritics(s, decompose)[i] == s[i]
    ensures forall i :: 0 <= i < |s| && InTable(s[i]) ==>
              RemoveDiacritics(s, decompose)[i] == DiacriticBase(s[i]).value && IsAsciiLetter(RemoveDiacritics(s, decompose)[i])
    ensures forall i :: 0 <= i < |s| ==> IsPlain(RemoveDiacritics(s, decompose)[i])
  {
    RemoveDiacriticsAligned(s, decompose);
    TableShape();
  }

  /** Folding is idempotent on foldable text. */
  lemma RemoveDiacriticsIdempotent(s: string, decompose: char -> string)
    requires Foldable(s)
    ensures Foldable(RemoveDiacritics(s, decompose))
    ensures RemoveDiacritics(RemoveDiacritics(s, decompose), decompose) == RemoveDiacritics(s, decompose)
  {
    var r := RemoveDiacritics(s, decompose);
    RemoveDiacriticsAligned(s, decompose);
    assert Foldable(r);
    RemoveDiacriticsAligned(r, decompose);
  }

  /** `removeDiacritics` of plain text is the text itself. */
  lemma RemoveDiacriticsOfPlain(s: string, decompose: char -> string)
    requires forall i :: 0 <= i < |s| ==> IsPlain(s[i])
    ensures RemoveDiacritics(s, decompose) == s
  {
    RemoveDiacriticsAligned(s, decompose);
  }

  /** Lower-casing keeps text foldable. */
  lemma ToLowerFoldable(s: string)
    requires Foldable(s)
    ensures Foldable(ToLower(s))
  {
  }

  /** On foldable text `Fold` is index-aligned too. */
  lemma FoldAligned(s: string, decompose: char -> string)
    requires Foldable(s)
    ensures |Fold(s, decompose)| == |s|
    ensures forall i :: 0 <= i < |s| ==> Fold(s, decompose)[i] == BaseChar(LowerChar(s[i]))
  {
    ToLowerFoldable(s);
    RemoveDiacriticsAligned(ToLower(s), decompose);
  }

  // ---------------------------------------------------------------------------------
  // Words

  /** Drops the leading whitespace of `s`. */
  function DropSpaces(s: string): (r: string)
    ensures |r| <= |s| && r == s[|s| - |r|..]
    ensures r == [] || !IsJsSpace(r[0])
  {
    if s != [] && IsJsSpace(s[0]) then DropSpaces(s[1..]) else s
  }

  lemma {:induction false} DroppedAreSpaces(s: string)
    ensures forall i :: 0 <= i < |s| - |DropSpaces(s)| ==> IsJsSpace(s[i])
    decreases |s|
  {
    if s != [] && IsJsSpace(s[0]) {
      DroppedAreSpaces(s[1..]);
      forall i | 0 < i < |s| - |DropSpaces(s)| ensures IsJsSpace(s[i]) {
        assert s[i] == s[1..][i - 1];
      }
    }
  }

  /** The leading run of non-whitespace characters of `s`. */
  function TakeWord(s: string): (w: string)
    ensures |w| <= |s| && w == s[..|w|]
    ensures s != [] && !IsJsSpace(s[0]) ==> |w| > 0
    ensures |w| == |s| || IsJsSpace(s[|w|])
  {
    if s == [] || IsJsSpace(s[0]) then [] else [s[0]] + TakeWord(s[1..])
  }

  lemma {:induction false} TakeWordHasNoSpace(s: string)
    ensures NoSpace(TakeWord(s))
    decreases |s|
  {
    if s != [] && !IsJsSpace(s[0]) {
      TakeWordHasNoSpace(s[1..]);
      var w := TakeWord(s);
      assert w == [s[0]] + TakeWord(s[1..]);
      forall i | 0 < i < |w| ensures !IsJsSpace(w[i]) {
        assert w[i] == TakeWord(s[1..])[i - 1];
      }
    }
  }

  /** `s.split(/\s+/).filter(w => w.length > 0)`: the maximal runs of
      non-whitespace characters, in order. */
  function Words(s: string): seq<string>
    decreases |s|
  {
    var t := DropSpaces(s);
    if t == [] then []
    else
      var w := TakeWord(t);
      [w] + Words(t[|w|..])
  }

  predicate NoSpace(w: string)
  {
    forall j :: 0 <= j < |w| ==> !IsJsSpace(w[j])
  }

  /** Every word is non-empty and free of whitespace. */
  lemma {:induction false} WordsShape(s: string)
    ensures forall i :: 0 <= i < |Words(s)| ==> |Words(s)[i]| > 0 && NoSpace(Words(s)[i])
    decreases |s|
  {
    var t := DropSpaces(s);
    if t != [] {
      var w := TakeWord(t);
      TakeWordHasNoSpace(t);
      assert NoSpace(w);
      var rest := Words(t[|w|..]);
      WordsShape(t[|w|..]);
      assert Words(s) == [w] + rest;
      WordsCons(w, rest);
    }
  }

  lemma WordsCons(w: string, rest: seq<string>)
    requires |w| > 0 && NoSpace(w)
    requires forall i :: 0 <= i < |rest| ==> |rest[i]| > 0 && NoSpace(rest[i])
    ensures forall i :: 0 <= i < |[w] + rest| ==> |([w] + rest)[i]| > 0 && NoSpace(([w] + rest)[i])
  {
    var ws := [w] + rest;
    forall i | 0 <= i < |ws| ensures |ws[i]| > 0 && NoSpace(ws[i]) {
      if i > 0 {
        assert ws[i] == rest[i - 1];
      }
    }
  }

  /** `s` without its whitespace. */
  function RemoveSpaces(s: string): (r: string)
    ensures forall i :: 0 <= i < |r| ==> !IsJsSpace(r[i])
  {
    if s == [] then [] else (if IsJsSpace(s[0]) then [] else [s[0]]) + RemoveSpaces(s[1..])
  }

  lemma ConcatAssoc(a: string, b: string, c: string)
    ensures (a + b) + c == a + (b + c)
  {
  }

  /** `parts.join(sep)`. */
  function Join(parts: seq<string>, sep: string): string
  {
    if parts == [] then "" else if |parts| == 1 then parts[0] else parts[0] + sep + Join(parts[1..], sep)
  }

  function Concat(ws: seq<string>): string
  {
    if ws == [] then [] else ws[0] + Concat(ws[1..])
  }

  lemma {:induction false} RemoveSpacesAppend(a: string, b: string)
    ensures RemoveSpaces(a + b) == RemoveSpaces(a) + RemoveSpaces(b)
    decreases |a|
  {
    if a == [] {
      assert a + b == b;
    } else {
      assert (a + b)[1..] == a[1..] + b;
      RemoveSpacesAppend(a[1..], b);
    }
  }

  /** A lone space is dropped. */
  lemma RemoveSpacesSpace()
    ensures RemoveSpaces(" ") == []
  {
    assert " "[1..] == [];
  }

  lemma {:induction false} RemoveSpacesOfSpaces(s: string)
    requires forall i :: 0 <= i < |s| ==> IsJsSpace(s[i])
    ensures RemoveSpaces(s) == []
    decreases |s|
  {
    if s != [] {
      RemoveSpacesOfSpaces(s[1..]);
    }
  }

  lemma {:induction false} RemoveSpacesOfWord(s: string)
    requires forall i :: 0 <= i < |s| ==> !IsJsSpace(s[i])
    ensures RemoveSpaces(s) == s
    decreases |s|
  {
    if s != [] {
      RemoveSpacesOfWord(s[1..]);
    }
  }

  /** Leading whitespace contributes nothing once whitespace is removed. */
  lemma RemoveSpacesDropped(s: string)
    ensures RemoveSpaces(s) == RemoveSpaces(DropSpaces(s))
  {
    var t := DropSpaces(s);
    assert s == s[..|s| - |t|] + t;
    DroppedAreSpaces(s);
    RemoveSpacesAppend(s[..|s| - |t|], t);
    RemoveSpacesOfSpaces(s[..|s| - |t|]);
  }

  /** The first word survives whitespace removal whole. */
  lemma RemoveSpacesFirstWord(t: string)
    ensures RemoveSpaces(t) == TakeWord(t) + RemoveSpaces(t[|TakeWord(t)|..])
  {
    var w := TakeWord(t);
    TakeWordHasNoSpace(t);
    assert t == w + t[|w|..];
    RemoveSpacesAppend(w, t[|w|..]);
    RemoveSpacesOfWord(w);
  }

  /** Splitting loses only whitespace: the words, put back together, are the
      input with its whitespace removed. */
  lemma {:induction false} WordsCoverInput(s: string)
    ensures Concat(Words(s)) == RemoveSpaces(s)
    decreases |s|
  {
    var t := DropSpaces(s);
    RemoveSpacesDropped(s);
    if t != [] {
      var w := TakeWord(t);
      RemoveSpacesFirstWord(t);
      WordsCoverInput(t[|w|..]);
      assert ([w] + Words(t[|w|..]))[1..] == Words(t[|w|..]);
    }
  }

  // ---------------------------------------------------------------------------------
  // Substring search

  /** `w` occurs in `s` at offset `k`. */
  predicate OccursAt(s: string, w: string, k: int)
  {
    0 <= k && k + |w| <= |s| && s[k..k + |w|] == w
  }

  /** `s.indexOf(w, from)` (for `from <= |s|` or non-empty `w`, the only calls made). */
  function IndexOf(s: string, w: string, from: nat): (k: int)
    ensures k == -1 || (from <= k && k + |w| <= |s|)
    decreases |s| - from
  {
    if from + |w| > |s| then -1
    else if s[from..from + |w|] == w then from
    else IndexOf(s, w, from + 1)
  }

  /** `indexOf` finds the first occurrence at or after `from`, and -1 means there is none. */
  lemma {:induction false} IndexOfFirst(s: string, w: string, from: nat)
    ensures IndexOf(s, w, from) == -1 || (from <= IndexOf(s, w, from) && OccursAt(s, w, IndexOf(s, w, from)))
    ensures IndexOf(s, w, from) == -1 ==> forall j :: from <= j ==> !OccursAt(s, w, j)
    ensures IndexOf(s, w, from) != -1 ==> forall j :: from <= j < IndexOf(s, w, from) ==> !OccursAt(s, w, j)
    decreases |s| - from
  {
    if from + |w| <= |s| && s[from..from + |w|] != w {
      IndexOfFirst(s, w, from + 1);
    }
  }

  /** `s.indexOf(w) !== -1`. */
  predicate Contains(s: string, w: string)
  {
    IndexOf(s, w, 0) != -1
  }

  lemma ContainsIff(s: string, w: string)
    ensures Contains(s, w) <==> exists k :: OccursAt(s, w, k)
  {
    IndexOfFirst(s, w, 0);
    if Contains(s, w) {
      assert OccursAt(s, w, IndexOf(s, w, 0));
    }
  }

  // ---------------------------------------------------------------------------------
  // HTML escaping and substring

  /** Escaping of one character, as in "escaping a string" of the HTML Living
      Standard, section 13.3 (Serializing HTML fragments), outside attribute mode. */
  function EscapeChar(c: char): string
  {
    if c == '&' then "&amp;"
    else if c == '\U{00A0}' then "&nbsp;"
    else if c == '<' then "&lt;"
    else if c == '>' then "&gt;"
    else [c]
  }

  predicate Special(c: char)
  {
    c == '&' || c == '\U{00A0}' || c == '<' || c == '>'
  }

  /** `escapeHtml(text)` on the string form of `text`. */
  function EscapeHtml(s: string): (r: string)
    ensures forall i :: 0 <= i < |r| ==> r[i] != '<'
  {
    if s == [] then [] else EscapeChar(s[0]) + EscapeHtml(s[1..])
  }

  /** Escaping changes exactly the four special characters: text without them
      escapes to itself. */
  lemma {:induction false} EscapeHtmlIdentity(s: string)
    ensures (forall i :: 0 <= i < |s| ==> !Special(s[i])) <==> EscapeHtml(s) == s
    decreases |s|
  {
    if s != [] {
      EscapeHtmlIdentity(s[1..]);
      if Special(s[0]) {
        EscapeLength(s[1..]);
        assert |EscapeHtml(s)| > |s|;
      } else {
        assert EscapeHtml(s) == [s[0]] + EscapeHtml(s[1..]);
        assert s == [s[0]] + s[1..];
      }
    }
  }

  lemma {:induction false} EscapeLength(s: string)
    ensures |EscapeHtml(s)| >= |s|
    decreases |s|
  {
    if s != [] {
      EscapeLength(s[1..]);
    }
  }

  /** `s.substring(a, b)`: both ends clamped to the length, swapped when reversed. */
  function JsSubstring(s: string, a: nat, b: nat): (r: string)
    ensures a <= b <= |s| ==> r == s[a..b]
  {
    var x := if a < |s| then a else |s|;
    var y := if b < |s| then b else |s|;
    if x <= y then s[x..y] else s[y..x]
  }

  // ---------------------------------------------------------------------------------
  // Trimming

  function TrimEnd(s: string): (r: string)
    ensures |r| <= |s| && r == s[..|r|]
    ensures r == [] || !IsJsSpace(r[|r| - 1])
  {
    if s != [] && IsJsSpace(s[|s| - 1]) then TrimEnd(s[..|s| - 1]) else s
  }

  lemma {:induction false} TrimmedAreSpaces(s: string)
    ensures forall i :: |TrimEnd(s)| <= i < |s| ==> IsJsSpace(s[i])
    decreases |s|
  {
    if s != [] && IsJsSpace(s[|s| - 1]) {
      TrimmedAreSpaces(s[..|s| - 1]);
    }
  }

  /** `String.prototype.trim`. */
  function Trim(s: string): string
  {
    TrimEnd(DropSpaces(s))
  }

  /** `trim` removes whitespace at both ends and nothing else. */
  lemma TrimShape(s: string)
    ensures Trim(s) == [] || (!IsJsSpace(Trim(s)[0]) && !IsJsSpace(Trim(s)[|Trim(s)| - 1]))
    ensures RemoveSpaces(Trim(s)) == RemoveSpaces(s)
  {
    TrimEnds(s);
    TrimKeepsNonSpace(s);
  }

  /** `trim` leaves a string alone when neither end is whitespace. */
  lemma TrimOfTrimmed(s: string)
    requires s == [] || (!IsJsSpace(s[0]) && !IsJsSpace(s[|s| - 1]))
    ensures Trim(s) == s
  {
  }

  lemma TrimEnds(s: string)
    ensures Trim(s) == [] || (!IsJsSpace(Trim(s)[0]) && !IsJsSpace(Trim(s)[|Trim(s)| - 1]))
  {
    var t := DropSpaces(s);
    var r := TrimEnd(t);
    if r != [] {
      assert r[0] == t[0];
    }
  }

  lemma TrimKeepsNonSpace(s: string)
    ensures RemoveSpaces(Trim(s)) == RemoveSpaces(s)
  {
    DropSpacesKeepsNonSpace(s);
    TrimEndKeepsNonSpace(DropSpaces(s));
  }

  lemma DropSpacesKeepsNonSpace(s: string)
    ensures RemoveSpaces(DropSpaces(s)) == RemoveSpaces(s)
  {
    var t := DropSpaces(s);
    var lead := s[..|s| - |t|];
    DroppedAreSpaces(s);
    assert s == lead + t;
    RemoveSpacesAppend(lead, t);
    RemoveSpacesOfSpaces(lead);
  }

  lemma TrimEndKeepsNonSpace(t: string)
    ensures RemoveSpaces(TrimEnd(t)) == RemoveSpaces(t)
  {
    var r := TrimEnd(t);
    var tail := t[|r|..];
    TrimmedAreSpaces(t);
    assert t == r + tail;
    RemoveSpacesAppend(r, tail);
    RemoveSpacesOfSpaces(tail);
  }
}
