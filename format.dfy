/** The display formatters of servisy_data.js for phone numbers, postal codes,
    prices and opening hours. The generic `normalizeDisplayText` they fall back
    on is a parameter `display`. */
module Format {
  import opened Values
  import opened Text

  // ---------------------------------------------------------------------------------
  // Digits

  /** `\d` of a JavaScript regular expression: the ASCII digits only. */
  predicate IsDigit(c: char)
  {
    '0' <= c <= '9'
  }

  predicate AllDigits(s: string)
  {
    forall i :: 0 <= i < |s| ==> IsDigit(s[i])
  }

  /** `s.replace(/\D/g, '')`. */
  function Digits(s: string): (d: string)
    ensures AllDigits(d)
    ensures |d| <= |s|
    ensures AllDigits(s) ==> d == s
    ensures (forall i :: 0 <= i < |s| ==> !IsDigit(s[i])) ==> d == []
  {
    if s == [] then []
    else
      assert forall i :: 0 <= i < |s| - 1 ==> s[1..][i] == s[i + 1];
      (if IsDigit(s[0]) then [s[0]] else []) + Digits(s[1..])
  }

  /** `Digits` works character by character; with the two cases of its
      contract this says it keeps exactly the digits, in order. */
  lemma {:induction false} DigitsAppend(a: string, b: string)
    ensures Digits(a + b) == Digits(a) + Digits(b)
    decreases |a|
  {
    if a == [] {
      assert a + b == b;
    } else {
      var c, h := a + b, if IsDigit(a[0]) then [a[0]] else [];
      assert c[0] == a[0] && c[1..] == a[1..] + b;
      DigitsAppend(a[1..], b);
      assert Digits(c) == h + Digits(c[1..]);
      assert Digits(a) == h + Digits(a[1..]);
    }
  }

  /** A string of digits is left alone by `Digits` exactly when it is all digits. */
  lemma DigitsFixed(s: string)
    ensures Digits(s) == s <==> AllDigits(s)
  {
  }

  // ---------------------------------------------------------------------------------
  // Grouping digits in threes

  /** `digits.replace(/(\d{3})(?=\d)/g, '$1 ')`: a space after every full block of
      three that another digit follows, counting from the left. */
  function GroupFromLeft(d: string): string
    decreases |d|
  {
    if |d| <= 3 then d else d[..3] + " " + GroupFromLeft(d[3..])
  }

  /** The blocks of `formatCurrencyCZK`: a space before every full block of three,
      counting from the right. */
  function GroupFromRight(d: string): string
    decreases |d|
  {
    if |d| <= 3 then d else GroupFromRight(d[..|d| - 3]) + " " + d[|d| - 3..]
  }

  lemma RemoveSpacesOfDigits(d: string)
    requires AllDigits(d)
    ensures RemoveSpaces(d) == d
  {
    RemoveSpacesOfWord(d);
  }

  /** Spaces stand exactly at every fourth position, counting from the left. */
  predicate SpacedFromLeft(r: string)
  {
    forall i :: 0 <= i < |r| ==> (r[i] == ' ' <==> i % 4 == 3)
  }

  /** Spaces stand exactly at every fourth position, counting from the right end. */
  predicate SpacedFromRight(r: string)
  {
    forall i :: 0 <= i < |r| ==> (r[i] == ' ' <==> (|r| - i) % 4 == 0)
  }

  lemma DigitsNotSpaces(d: string)
    requires AllDigits(d)
    ensures forall i :: 0 <= i < |d| ==> d[i] != ' ' && !IsJsSpace(d[i])
  {
  }

  lemma LeftStep(block: string, tail: string)
    requires |block| == 3 && AllDigits(block) && SpacedFromLeft(tail)
    ensures SpacedFromLeft(block + " " + tail)
  {
    var r := block + " " + tail;
    DigitsNotSpaces(block);
    forall i | 0 <= i < |r| ensures r[i] == ' ' <==> i % 4 == 3 {
      if i >= 4 {
        assert r[i] == tail[i - 4];
      } else if i < 3 {
        assert r[i] == block[i];
      }
    }
  }

  lemma RightStep(head: string, block: string)
    requires |block| == 3 && AllDigits(block) && SpacedFromRight(head)
    ensures SpacedFromRight(head + " " + block)
  {
    var r := head + " " + block;
    DigitsNotSpaces(block);
    forall i | 0 <= i < |r| ensures r[i] == ' ' <==> (|r| - i) % 4 == 0 {
      if i < |head| {
        assert r[i] == head[i];
        assert |r| - i == (|head| - i) + 4;
      } else if i > |head| {
        assert r[i] == block[i - |head| - 1];
      }
    }
  }

  /** Dropping the spaces of a block, a space and the rest. */
  lemma RemoveSpacesAround(a: string, b: string)
    requires AllDigits(a)
    ensures RemoveSpaces(a + " " + b) == a + RemoveSpaces(b)
  {
    calc {
      RemoveSpaces(a + " " + b);
      { ConcatAssoc(a, " ", b); }
      RemoveSpaces(a + (" " + b));
      { RemoveSpacesAppend(a, " " + b); }
      RemoveSpaces(a) + RemoveSpaces(" " + b);
      { RemoveSpacesAppend(" ", b); RemoveSpacesSpace(); }
      RemoveSpaces(a) + RemoveSpaces(b);
      { RemoveSpacesOfDigits(a); }
      a + RemoveSpaces(b);
    }
  }

  lemma RemoveSpacesBeforeBlock(head: string, block: string)
    requires AllDigits(block)
    ensures RemoveSpaces(head + " " + block) == RemoveSpaces(head) + block
  {
    calc {
      RemoveSpaces(head + " " + block);
      { RemoveSpacesAppend(head + " ", block); }
      RemoveSpaces(head + " ") + RemoveSpaces(block);
      { RemoveSpacesAppend(head, " "); RemoveSpacesSpace(); }
      RemoveSpaces(head) + RemoveSpaces(block);
      { RemoveSpacesOfDigits(block); }
      RemoveSpaces(head) + block;
    }
  }

  /** Grouping from the left only inserts spaces: one after every block of
      three, counting from the left, and the digits are kept in order. */
  lemma {:induction false} GroupFromLeftShape(d: string)
    requires AllDigits(d)
    ensures RemoveSpaces(GroupFromLeft(d)) == d
    ensures SpacedFromLeft(GroupFromLeft(d))
    ensures d != [] ==> |GroupFromLeft(d)| == |d| + (|d| - 1) / 3
    ensures d != [] ==> GroupFromLeft(d)[0] == d[0] && GroupFromLeft(d)[|GroupFromLeft(d)| - 1] == d[|d| - 1]
    decreases |d|
  {
    if |d| <= 3 {
      RemoveSpacesOfDigits(d);
      DigitsNotSpaces(d);
    } else {
      var tail := GroupFromLeft(d[3..]);
      DigitsSplit(d, 3);
      GroupFromLeftShape(d[3..]);
      assert GroupFromLeft(d) == d[..3] + " " + tail;
      assert RemoveSpaces(GroupFromLeft(d)) == d by {
        RemoveSpacesAround(d[..3], tail);
        SplitJoin(d, 3);
      }
      LeftStep(d[..3], tail);
    }
  }

  /** Grouping from the right only inserts spaces: one before every block of
      three, counting from the right end, and the digits are kept in order. */
  lemma GroupFromRightShape(d: string)
    requires AllDigits(d)
    ensures RemoveSpaces(GroupFromRight(d)) == d
    ensures SpacedFromRight(GroupFromRight(d))
    ensures d != [] ==> |GroupFromRight(d)| == |d| + (|d| - 1) / 3
  {
    GroupFromRightKeepsDigits(d);
    GroupFromRightSpaced(d);
  }

  lemma {:induction false} GroupFromRightKeepsDigits(d: string)
    requires AllDigits(d)
    ensures RemoveSpaces(GroupFromRight(d)) == d
    decreases |d|
  {
    if |d| <= 3 {
      RemoveSpacesOfDigits(d);
    } else {
      var n := |d| - 3;
      var head := GroupFromRight(d[..n]);
      DigitsSplit(d, n);
      GroupFromRightKeepsDigits(d[..n]);
      calc {
        RemoveSpaces(GroupFromRight(d));
        RemoveSpaces(head + " " + d[n..]);
        { RemoveSpacesBeforeBlock(head, d[n..]); }
        RemoveSpaces(head) + d[n..];
        d[..n] + d[n..];
        { SplitJoin(d, n); }
        d;
      }
    }
  }

  lemma DigitsSplit(d: string, n: nat)
    requires AllDigits(d) && n <= |d|
    ensures AllDigits(d[..n]) && AllDigits(d[n..])
  {
    assert forall i :: 0 <= i < |d| - n ==> d[n..][i] == d[n + i];
  }

  lemma SplitJoin(d: string, n: nat)
    requires n <= |d|
    ensures d[..n] + d[n..] == d
  {
  }

  lemma {:induction false} GroupFromRightSpaced(d: string)
    requires AllDigits(d)
    ensures SpacedFromRight(GroupFromRight(d))
    ensures d != [] ==> |GroupFromRight(d)| == |d| + (|d| - 1) / 3
    decreases |d|
  {
    if |d| <= 3 {
      forall i | 0 <= i < |d| ensures d[i] != ' ' && (|d| - i) % 4 != 0 {
        assert IsDigit(d[i]);
        assert 1 <= |d| - i <= 3;
      }
    } else {
      var n := |d| - 3;
      var head := GroupFromRight(d[..n]);
      DigitsSplit(d, n);
      GroupFromRightSpaced(d[..n]);
      assert GroupFromRight(d) == head + " " + d[n..];
      assert |d[n..]| == 3;
      RightStep(head, d[n..]);
    }
  }

  // ---------------------------------------------------------------------------------
  // formatPhoneDisplay

  /** The separators of `/[,\.;\/\|\s]+/`. */
  predicate IsPhoneSeparator(c: char)
  {
    c == ',' || c == '.' || c == ';' || c == '/' || c == '|' || IsJsSpace(c)
  }

  function DropSeparators(s: string): (r: string)
    ensures |r| <= |s| && r == s[|s| - |r|..]
    ensures r == [] || !IsPhoneSeparator(r[0])
  {
    if s != [] && IsPhoneSeparator(s[0]) then DropSeparators(s[1..]) else s
  }

  lemma {:induction false} DroppedAreSeparators(s: string)
    ensures forall i :: 0 <= i < |s| - |DropSeparators(s)| ==> IsPhoneSeparator(s[i])
    decreases |s|
  {
    if s != [] && IsPhoneSeparator(s[0]) {
      DroppedAreSeparators(s[1..]);
      forall i | 0 < i < |s| - |DropSeparators(s)| ensures IsPhoneSeparator(s[i]) {
        assert s[i] == s[1..][i - 1];
      }
    }
  }

  function TakeNumber(s: string): (w: string)
    ensures |w| <= |s| && w == s[..|w|]
    ensures s != [] && !IsPhoneSeparator(s[0]) ==> |w| > 0
    ensures NoSeparator(w)
  {
    if s == [] || IsPhoneSeparator(s[0]) then [] else [s[0]] + TakeNumber(s[1..])
  }

  /** `raw.split(/[,\.;\/\|\s]+/).filter(p => !!p)`: the maximal runs of
      non-separators. */
  function PhoneParts(s: string): (parts: seq<string>)
    ensures forall k :: 0 <= k < |parts| ==> parts[k] != [] && NoSeparator(parts[k])
    decreases |s|
  {
    var t := DropSeparators(s);
    if t == [] then []
    else
      var w := TakeNumber(t);
      var rest := PhoneParts(t[|w|..]);
      PartsCons(w, rest);
      [w] + rest
  }

  predicate NoSeparator(w: string)
  {
    forall i :: 0 <= i < |w| ==> !IsPhoneSeparator(w[i])
  }

  lemma PartsCons(w: string, rest: seq<string>)
    requires w != [] && NoSeparator(w)
    requires forall k :: 0 <= k < |rest| ==> rest[k] != [] && NoSeparator(rest[k])
    ensures forall k :: 0 <= k < |[w] + rest| ==> ([w] + rest)[k] != [] && NoSeparator(([w] + rest)[k])
  {
    var ps := [w] + rest;
    forall k | 0 <= k < |ps| ensures ps[k] != [] && NoSeparator(ps[k]) {
      if k > 0 {
        assert ps[k] == rest[k - 1];
      }
    }
  }

  /** `s` without its separators. */
  function RemoveSeparators(s: string): (r: string)
    ensures forall i :: 0 <= i < |r| ==> !IsPhoneSeparator(r[i])
    ensures (forall i :: 0 <= i < |s| ==> !IsPhoneSeparator(s[i])) ==> r == s
    ensures (forall i :: 0 <= i < |s| ==> IsPhoneSeparator(s[i])) ==> r == []
  {
    if s == [] then []
    else
      assert forall i :: 0 <= i < |s| - 1 ==> s[1..][i] == s[i + 1];
      (if IsPhoneSeparator(s[0]) then [] else [s[0]]) + RemoveSeparators(s[1..])
  }

  lemma {:induction false} RemoveSeparatorsAppend(a: string, b: string)
    ensures RemoveSeparators(a + b) == RemoveSeparators(a) + RemoveSeparators(b)
    decreases |a|
  {
    if a == [] {
      assert a + b == b;
    } else {
      assert (a + b)[1..] == a[1..] + b;
      RemoveSeparatorsAppend(a[1..], b);
    }
  }

  /** Leading separators contribute nothing once separators are removed. */
  lemma RemoveSeparatorsDropped(s: string)
    ensures RemoveSeparators(s) == RemoveSeparators(DropSeparators(s))
  {
    var t := DropSeparators(s);
    var front := s[..|s| - |t|];
    DroppedAreSeparators(s);
    forall i | 0 <= i < |front| ensures IsPhoneSeparator(front[i]) {
      assert front[i] == s[i];
    }
    assert RemoveSeparators(front) == [];
    assert s == front + t;
    RemoveSeparatorsAppend(front, t);
  }

  /** The first number survives separator removal whole. */
  lemma RemoveSeparatorsFirstNumber(t: string)
    ensures RemoveSeparators(t) == TakeNumber(t) + RemoveSeparators(t[|TakeNumber(t)|..])
  {
    var w := TakeNumber(t);
    assert t == w + t[|w|..];
    RemoveSeparatorsAppend(w, t[|w|..]);
  }

  /** Splitting loses only separators: the parts, put back together, are the
      input with its separators removed. */
  lemma {:induction false} PhonePartsCoverInput(s: string)
    ensures Concat(PhoneParts(s)) == RemoveSeparators(s)
    decreases |s|
  {
    var t := DropSeparators(s);
    RemoveSeparatorsDropped(s);
    if t != [] {
      var w := TakeNumber(t);
      RemoveSeparatorsFirstNumber(t);
      PhonePartsCoverInput(t[|w|..]);
      assert ([w] + PhoneParts(t[|w|..]))[1..] == PhoneParts(t[|w|..]);
    }
  }

  /** `formatOne(num)` of `formatPhoneDisplay`. */
  function FormatOne(num: string): string
  {
    var digits := Digits(num);
    if digits == "" then ""
    else if |digits| == 9 then digits[..3] + " " + digits[3..6] + " " + digits[6..]
    else Trim(GroupFromLeft(digits))
  }

  /** `parts.map(format).filter(p => !!p)`, with `format` the `formatOne` of
      `formatPhoneDisplay`. */
  function FormatAll(parts: seq<string>, format: string -> string): (formatted: seq<string>)
    ensures forall k :: 0 <= k < |formatted| ==> formatted[k] != ""
    ensures |formatted| <= |parts|
    ensures (forall k :: 0 <= k < |parts| ==> format(parts[k]) != "") ==>
      |formatted| == |parts| && forall k :: 0 <= k < |parts| ==> formatted[k] == format(parts[k])
    ensures (forall k :: 0 <= k < |parts| ==> format(parts[k]) == "") ==> formatted == []
  {
    if parts == [] then []
    else
      assert forall k :: 0 <= k < |parts| - 1 ==> parts[1..][k] == parts[k + 1];
      (if format(parts[0]) == "" then [] else [format(parts[0])]) + FormatAll(parts[1..], format)
  }

  /** `map` then `filter` works part by part; with the two cases of its
      contract this says it keeps the non-empty formatted parts, in order. */
  lemma {:induction false} FormatAllAppend(a: seq<string>, b: seq<string>, format: string -> string)
    ensures FormatAll(a + b, format) == FormatAll(a, format) + FormatAll(b, format)
    decreases |a|
  {
    if a == [] {
      assert a + b == b;
    } else {
      assert (a + b)[1..] == a[1..] + b;
      FormatAllAppend(a[1..], b, format);
    }
  }

  /** `formatPhoneDisplay(value)`. */
  function PhoneDisplay(v: Value): string
  {
    if v.Null? then ""
    else
      var parts := PhoneParts(AsString(v));
      if parts == [] then "" else Join(FormatAll(parts, FormatOne), ", ")
  }

  /** Nine digits grouped `3 3 3` by the dedicated rule. */
  lemma NineDigits(d: string)
    requires |d| == 9
    ensures GroupFromLeft(d) == d[..3] + " " + d[3..6] + " " + d[6..]
  {
    var tail := d[3..];
    assert tail[..3] == d[3..6] && tail[3..] == d[6..];
    assert GroupFromLeft(tail) == d[3..6] + " " + d[6..];
    ConcatAssoc(d[..3] + " ", d[3..6] + " ", d[6..]);
  }

  /** A number is its digits grouped in threes from the left, whatever
      separators it was written with; the nine-digit rule `3 3 3` is the same
      grouping, and the final `trim` changes nothing. */
  lemma FormatOneGroups(num: string)
    ensures FormatOne(num) == GroupFromLeft(Digits(num))
  {
    var d := Digits(num);
    if d != "" {
      if |d| == 9 {
        NineDigits(d);
      } else {
        var r := GroupFromLeft(d);
        GroupFromLeftShape(d);
        DigitsNotSpaces(d);
        TrimOfTrimmed(r);
      }
    }
  }

  /** A run of nine digits takes the dedicated `3 3 3` branch. */
  lemma FormatOneNine(num: string)
    requires |num| == 9 && AllDigits(num)
    ensures FormatOne(num) == num[..3] + " " + num[3..6] + " " + num[6..]
  {
    assert Digits(num) == num;
  }

  /** A run of six digits is two blocks of three. */
  lemma FormatOneSix(num: string)
    requires |num| == 6 && AllDigits(num)
    ensures FormatOne(num) == num[..3] + " " + num[3..]
  {
    FormatOneGroups(num);
    assert Digits(num) == num;
    GroupSix(num);
  }

  lemma GroupSix(d: string)
    requires |d| == 6
    ensures GroupFromLeft(d) == d[..3] + " " + d[3..]
  {
    assert |d[3..]| == 3;
  }

  /** The two numbers of the source's example `725321989.725321`. */
  lemma PhoneExampleNine()
    ensures FormatOne("725321989") == "725 321 989"
  {
    var long := "725321989";
    assert AllDigits(long) by {
      forall i | 0 <= i < |long| ensures IsDigit(long[i]) { }
    }
    FormatOneNine(long);
    NineBlocks();
  }

  lemma NineBlocks()
    ensures var long := "725321989"; long[..3] + " " + long[3..6] + " " + long[6..] == "725 321 989"
  {
    var long := "725321989";
    assert long[..3] == "725" && long[3..6] == "321" && long[6..] == "989";
  }

  lemma PhoneExampleSix()
    ensures FormatOne("725321") == "725 321"
  {
    var short := "725321";
    assert AllDigits(short) by {
      forall i | 0 <= i < |short| ensures IsDigit(short[i]) { }
    }
    FormatOneSix(short);
    SixBlocks();
  }

  lemma SixBlocks()
    ensures var short := "725321"; short[..3] + " " + short[3..] == "725 321"
  {
    var short := "725321";
    assert short[..3] == "725" && short[3..] == "321";
  }

  // ---------------------------------------------------------------------------------
  // formatZipDisplay

  predicate HasSpace(s: string)
  {
    exists i :: 0 <= i < |s| && IsJsSpace(s[i])
  }

  /** `formatZipDisplay(value)`. */
  function ZipDisplay(v: Value, display: string -> string): string
  {
    if v.Null? then ""
    else
      var s := Trim(AsString(v));
      if s == "" then ""
      else if HasSpace(s) then display(s)
      else
        var digits := Digits(s);
        if |digits| == 5 && digits == s then digits[..3] + " " + digits[3..] else display(s)
  }

  /** A postal code of exactly five digits (after trimming) is shown as
      `ddd dd`; anything else is empty, or passed to the generic display. */
  lemma ZipFiveDigits(v: Value, display: string -> string)
    requires !v.Null?
    ensures var s := Trim(AsString(v));
      (|s| == 5 && AllDigits(s) ==> ZipDisplay(v, display) == s[..3] + " " + s[3..])
      && (!(|s| == 5 && AllDigits(s)) ==> ZipDisplay(v, display) == "" || ZipDisplay(v, display) == display(s))
  {
    var s := Trim(AsString(v));
    if |s| == 5 && AllDigits(s) {
      assert !HasSpace(s) by {
        forall i | 0 <= i < |s| ensures !IsJsSpace(s[i]) {
          assert IsDigit(s[i]);
        }
      }
    }
    DigitsFixed(s);
  }

  /** Removing the inserted space gives the postal code back. */
  lemma ZipRoundTrip(s: string)
    requires |s| == 5 && AllDigits(s)
    ensures RemoveSpaces(s[..3] + " " + s[3..]) == s
  {
    RemoveSpacesAppend(s[..3] + " ", s[3..]);
    RemoveSpacesAppend(s[..3], " ");
    RemoveSpacesOfDigits(s[..3]);
    RemoveSpacesOfDigits(s[3..]);
    assert s == s[..3] + s[3..];
  }

  // ---------------------------------------------------------------------------------
  // formatCurrencyCZK

  /** The price as `formatCurrencyCZK` shows it. */
  function CurrencyDisplay(v: Value, display: string -> string): string
  {
    if v.Null? then ""
    else
      var s := Trim(AsString(v));
      if s == "" then ""
      else if Contains(ToLower(s), "kč") then display(s)
      else
        var digits := Digits(s);
        if digits == "" then display(s) + " Kč" else GroupFromRight(digits) + " Kč"
  }

  /** `formatCurrencyCZK(value)`. */
  method FormatCurrencyCZK(v: Value, display: string -> string) returns (r: string)
    ensures r == CurrencyDisplay(v, display)
  {
    if v.Null? {
      return "";
    }
    var s := Trim(AsString(v));
    if s == "" {
      return "";
    }
    if Contains(ToLower(s), "kč") {
      return display(s);
    }
    var digits := Digits(s);
    if digits == "" {
      return display(s) + " Kč";
    }
    var out := GroupDigits(digits);
    return out + " Kč";
  }

  /** The loop of `formatCurrencyCZK`: three digits at a time come off the right
      end, each block with a space before it. */
  method GroupDigits(digits: string) returns (out: string)
    ensures out == GroupFromRight(digits)
  {
    var rest := digits;
    out := "";
    while |rest| > 3
      invariant GroupFromRight(rest) + out == GroupFromRight(digits)
      decreases |rest|
    {
      var n := |rest| - 3;
      ConcatAssoc(GroupFromRight(rest[..n]), " " + rest[n..], out);
      out := " " + rest[n..] + out;
      rest := rest[..n];
    }
    out := rest + out;
  }

  /** A price without a unit is its digits grouped in threes from the right,
      followed by ` Kč`. */
  lemma CurrencyGroups(v: Value, display: string -> string)
    requires !v.Null?
    requires var s := Trim(AsString(v)); s != "" && !Contains(ToLower(s), "kč") && Digits(s) != ""
    ensures var d := Digits(Trim(AsString(v)));
      CurrencyDisplay(v, display) == GroupFromRight(d) + " Kč"
      && RemoveSpaces(GroupFromRight(d)) == d
      && |GroupFromRight(d)| == |d| + (|d| - 1) / 3
  {
    GroupFromRightShape(Digits(Trim(AsString(v))));
  }

  // ---------------------------------------------------------------------------------
  // formatOpeningHoursDisplay

  const Days: seq<string> := ["Po", "Út", "St", "Čt", "Pá", "So", "Ne"]

  /** `s.split(c)` for a one-character separator: the pieces between the
      occurrences of `c`, empty ones included. */
  function SplitOn(s: string, c: char): (parts: seq<string>)
    ensures |parts| >= 1
    ensures forall k :: 0 <= k < |parts| ==> c !in parts[k]
  {
    if s == [] then [""]
    else
      var rest := SplitOn(s[1..], c);
      if s[0] == c then [""] + rest else [[s[0]] + rest[0]] + rest[1..]
  }

  /** Splitting and joining back with the separator gives the input. */
  lemma {:induction false} SplitOnJoin(s: string, c: char)
    ensures Join(SplitOn(s, c), [c]) == s
  {
    if s != [] {
      var rest := SplitOn(s[1..], c);
      SplitOnJoin(s[1..], c);
      if s[0] == c {
        assert ([""] + rest)[1..] == rest;
        assert s == [c] + s[1..];
      } else {
        var parts := [[s[0]] + rest[0]] + rest[1..];
        if |rest| == 1 {
          assert parts == [[s[0]] + rest[0]];
        } else {
          assert parts[1..] == rest[1..];
          ConcatAssoc([s[0]], rest[0], [c] + Join(rest[1..], [c]));
        }
        assert s == [s[0]] + s[1..];
      }
    }
  }

  /** `part.replace(/\.+$/, '')`. */
  function StripTrailingDots(s: string): (r: string)
    ensures |r| <= |s| && r == s[..|r|]
    ensures r == [] || r[|r| - 1] != '.'
    ensures forall i :: |r| <= i < |s| ==> s[i] == '.'
  {
    if s != [] && s[|s| - 1] == '.' then StripTrailingDots(s[..|s| - 1]) else s
  }

  /** `s.replace(a, b)` with a one-character string: only the first occurrence. */
  function ReplaceFirst(s: string, a: char, b: char): (r: string)
    ensures |r| == |s|
  {
    if s == [] then []
    else if s[0] == a then [b] + s[1..]
    else [s[0]] + ReplaceFirst(s[1..], a, b)
  }

  /** One day's segment: trailing dots and whitespace removed, a dash meaning
      closed, and the first `-` of a time range turned into an en dash. */
  function CleanSegment(part: string): string
  {
    var cleaned := Trim(StripTrailingDots(part));
    if cleaned == "" || cleaned == "-" || cleaned == "–" then "" else ReplaceFirst(cleaned, '-', '–')
  }

  function CleanSegments(parts: seq<string>): (segments: seq<string>)
    ensures |segments| == |parts|
    ensures forall k :: 0 <= k < |parts| ==> segments[k] == CleanSegment(parts[k])
  {
    seq(|parts|, k requires 0 <= k < |parts| => CleanSegment(parts[k]))
  }

  /** Days `start` to `end` (both included) have the value `value`; an empty
      value means closed. */
  datatype Run = Run(start: nat, end: nat, value: string)

  /** The runs the loop of `formatOpeningHoursDisplay` collects, one segment at a time. */
  function Runs(segments: seq<string>): (rs: seq<Run>)
    requires segments != []
    ensures rs != [] && rs[|rs| - 1].end == |segments| - 1
  {
    if |segments| == 1 then [Run(0, 0, segments[0])]
    else
      var n := |segments| - 1;
      var rs := Runs(segments[..n]);
      var last := rs[|rs| - 1];
      if last.value == segments[n] then rs[..|rs| - 1] + [last.(end := n)]
      else rs + [Run(n, n, segments[n])]
  }

  /** `rs` splits the days `0..|segments|-1` into consecutive, non-empty runs
      of equal segments, and no two neighbouring runs have the same value, so
      every run is as long as it can be. */
  predicate MaximalRuns(rs: seq<Run>, segments: seq<string>)
  {
    rs != [] && rs[0].start == 0 && rs[|rs| - 1].end == |segments| - 1
    && (forall k :: 0 <= k < |rs| ==> rs[k].start <= rs[k].end < |segments|)
    && (forall k :: 0 <= k < |rs| - 1 ==> rs[k + 1].start == rs[k].end + 1)
    && (forall k, i :: 0 <= k < |rs| && rs[k].start <= i <= rs[k].end ==> segments[i] == rs[k].value)
    && (forall k :: 0 <= k < |rs| - 1 ==> rs[k].value != rs[k + 1].value)
  }

  lemma {:induction false} RunsAreMaximal(segments: seq<string>)
    requires segments != []
    ensures MaximalRuns(Runs(segments), segments)
    decreases |segments|
  {
    if |segments| > 1 {
      var n := |segments| - 1;
      var pre := segments[..n];
      RunsAreMaximal(pre);
      var rs := Runs(pre);
      var last := rs[|rs| - 1];
      assert forall i :: 0 <= i < n ==> segments[i] == pre[i];
      if last.value == segments[n] {
        RunsExtend(rs, pre, segments);
      } else {
        RunsAppend(rs, pre, segments);
      }
    }
  }

  lemma RunsExtend(rs: seq<Run>, pre: seq<string>, segments: seq<string>)
    requires segments != [] && pre == segments[..|segments| - 1] && MaximalRuns(rs, pre)
    requires rs[|rs| - 1].value == segments[|segments| - 1]
    ensures MaximalRuns(rs[..|rs| - 1] + [rs[|rs| - 1].(end := |segments| - 1)], segments)
  {
    var m := |rs| - 1;
    var rs' := rs[..m] + [rs[m].(end := |segments| - 1)];
    assert forall k :: 0 <= k < m ==> rs'[k] == rs[k];
    forall k, i | 0 <= k < |rs'| && rs'[k].start <= i <= rs'[k].end
      ensures segments[i] == rs'[k].value
    {
      if i < |pre| {
        assert segments[i] == pre[i];
      }
    }
  }

  lemma RunsAppend(rs: seq<Run>, pre: seq<string>, segments: seq<string>)
    requires |segments| > 1 && pre == segments[..|segments| - 1] && MaximalRuns(rs, pre)
    requires rs[|rs| - 1].value != segments[|segments| - 1]
    ensures MaximalRuns(rs + [Run(|segments| - 1, |segments| - 1, segments[|segments| - 1])], segments)
  {
    var rs' := rs + [Run(|segments| - 1, |segments| - 1, segments[|segments| - 1])];
    assert forall k :: 0 <= k < |rs| ==> rs'[k] == rs[k];
    forall k, i | 0 <= k < |rs'| && rs'[k].start <= i <= rs'[k].end
      ensures segments[i] == rs'[k].value
    {
      if k < |rs| {
        assert segments[i] == pre[i];
      }
    }
  }

  /** `pushGroup`'s label: one day, or the first and last day of the run. */
  function RunLabel(r: Run): string
    requires r.start <= r.end < |Days|
  {
    if r.start == r.end then Days[r.start] else Days[r.start] + "–" + Days[r.end]
  }

  /** One entry of the result: the label and the hours, or `zavřeno` (closed). */
  function RunText(r: Run): string
    requires r.start <= r.end < |Days|
  {
    if r.value == "" then RunLabel(r) + " zavřeno" else RunLabel(r) + " " + r.value
  }

  function RunTexts(rs: seq<Run>): seq<string>
    requires forall k :: 0 <= k < |rs| ==> rs[k].start <= rs[k].end < |Days|
  {
    seq(|rs|, k requires 0 <= k < |rs| => RunText(rs[k]))
  }

  /** The opening hours as `formatOpeningHoursDisplay` shows them. */
  function HoursDisplay(v: Value, display: string -> string): string
  {
    if v.Null? then ""
    else
      var raw := Trim(AsString(v));
      if raw == "" then ""
      else
        var segments := CleanSegments(SplitOn(raw, '|'));
        if |segments| != |Days| then display(raw)
        else
          RunsAreMaximal(segments);
          Join(RunTexts(Runs(segments)), "; ")
  }

  /** `formatOpeningHoursDisplay(value)`. */
  method FormatOpeningHoursDisplay(v: Value, display: string -> string) returns (r: string)
    ensures r == HoursDisplay(v, display)
  {
    if v.Null? {
      return "";
    }
    var raw := Trim(AsString(v));
    if raw == "" {
      return "";
    }
    var segments := CleanSegments(SplitOn(raw, '|'));
    if |segments| != |Days| {
      return display(raw);
    }
    var groups := CollectRuns(segments);
    RunsAreMaximal(segments);
    r := Join(RunTexts(groups), "; ");
  }

  /** The loop of `formatOpeningHoursDisplay` with `pushGroup`: a run ends when
      a segment differs from the current value. */
  method CollectRuns(segments: seq<string>) returns (groups: seq<Run>)
    requires segments != []
    ensures groups == Runs(segments)
  {
    groups := [];
    var currentValue := segments[0];
    var currentStart := 0;
    assert segments[..1] == [segments[0]];
    for i := 1 to |segments|
      invariant currentStart < i
      invariant groups + [Run(currentStart, i - 1, currentValue)] == Runs(segments[..i])
    {
      RunsPrefixStep(segments, i, groups, currentStart, currentValue);
      if segments[i] != currentValue {
        groups := groups + [Run(currentStart, i - 1, currentValue)];
        currentValue := segments[i];
        currentStart := i;
      }
    }
    groups := groups + [Run(currentStart, |segments| - 1, currentValue)];
    assert segments[..|segments|] == segments;
  }

  /** One more segment either extends the last run or opens a new one. */
  lemma RunsPrefixStep(segments: seq<string>, i: nat, groups: seq<Run>, start: nat, value: string)
    requires 1 <= i < |segments|
    requires groups + [Run(start, i - 1, value)] == Runs(segments[..i])
    ensures segments[i] != value ==> groups + [Run(start, i - 1, value)] + [Run(i, i, segments[i])] == Runs(segments[..i + 1])
    ensures segments[i] == value ==> groups + [Run(start, i, value)] == Runs(segments[..i + 1])
  {
    assert segments[..i + 1][..i] == segments[..i];
    var rs := Runs(segments[..i]);
    assert rs[|rs| - 1] == Run(start, i - 1, value);
    assert rs[..|rs| - 1] == groups;
  }

  /** The week of the source's example: five equal working days, a closed weekend. */
  lemma HoursExampleRuns()
    ensures var h := "7:00–17:30";
      Runs([h, h, h, h, h, "", ""]) == [Run(0, 4, h), Run(5, 6, "")]
  {
    FiveAndTwo("7:00–17:30", "");
  }

  /** Five days of one value followed by two of another make two runs, one
      day at a time. */
  lemma FiveAndTwo(h: string, c: string)
    requires h != c
    ensures Runs([h, h, h, h, h, c, c]) == [Run(0, 4, h), Run(5, 6, c)]
  {
    SixDays(h, c);
    var s := [h, h, h, h, h, c, c];
    assert s[..6] == [h, h, h, h, h, c];
  }

  lemma SixDays(h: string, c: string)
    requires h != c
    ensures Runs([h, h, h, h, h, c]) == [Run(0, 4, h), Run(5, 5, c)]
  {
    FiveDays(h);
    var s := [h, h, h, h, h, c];
    assert s[..5] == [h, h, h, h, h];
  }

  lemma FiveDays(h: string)
    ensures Runs([h, h, h, h, h]) == [Run(0, 4, h)]
  {
    FourDays(h);
    var s := [h, h, h, h, h];
    assert s[..4] == [h, h, h, h];
  }

  lemma FourDays(h: string)
    ensures Runs([h, h, h, h]) == [Run(0, 3, h)]
  {
    ThreeDays(h);
    var s := [h, h, h, h];
    assert s[..3] == [h, h, h];
  }

  lemma ThreeDays(h: string)
    ensures Runs([h, h, h]) == [Run(0, 2, h)]
  {
    TwoDays(h);
    var s := [h, h, h];
    assert s[..2] == [h, h];
  }

  lemma TwoDays(h: string)
    ensures Runs([h, h]) == [Run(0, 1, h)]
  {
    var s := [h, h];
    assert s[..1] == [h];
  }

  /** Those two runs read as the source's comment shows. */
  lemma HoursExampleText()
    ensures Join(RunTexts([Run(0, 4, "7:00–17:30"), Run(5, 6, "")]), "; ") == "Po–Pá 7:00–17:30; So–Ne zavřeno"
  {
    var first, second := Run(0, 4, "7:00–17:30"), Run(5, 6, "");
    assert RunTexts([first, second]) == [RunText(first), RunText(second)];
    WeekdaysText();
    WeekendText();
    JoinTwo(RunText(first), RunText(second), "; ");
    WeekJoined();
  }

  lemma JoinTwo(a: string, b: string, sep: string)
    ensures Join([a, b], sep) == a + sep + b
  {
    assert [a, b][1..] == [b];
  }

  lemma WeekJoined()
    ensures "Po–Pá 7:00–17:30" + "; " + "So–Ne zavřeno" == "Po–Pá 7:00–17:30; So–Ne zavřeno"
  {
  }

  lemma WeekdaysText()
    ensures RunText(Run(0, 4, "7:00–17:30")) == "Po–Pá 7:00–17:30"
  {
    assert RunLabel(Run(0, 4, "7:00–17:30")) == "Po–Pá";
  }

  lemma WeekendText()
    ensures RunText(Run(5, 6, "")) == "So–Ne zavřeno"
  {
    assert RunLabel(Run(5, 6, "")) == "So–Ne";
  }

  /** A dash with trailing dots, as the source's example ends, means closed. */
  lemma ClosedSegment()
    ensures CleanSegment("-.") == ""
  {
    assert StripTrailingDots("-.") == "-";
    TrimOfTrimmed("-");
  }

  /** Seven segments cut into runs tile the week from Monday to Sunday. */
  lemma HoursCoverWeek(segments: seq<string>)
    requires |segments| == |Days|
    ensures var rs := Runs(segments);
      rs[0].start == 0 && rs[|rs| - 1].end == 6 && |rs| <= 7
      && (forall k :: 0 <= k < |rs| - 1 ==> rs[k + 1].start == rs[k].end + 1 && rs[k].value != rs[k + 1].value)
  {
    RunsAreMaximal(segments);
    RunsCount(Runs(segments), segments);
  }

  /** There are no more runs than days. */
  lemma {:induction false} RunsCount(rs: seq<Run>, segments: seq<string>)
    requires MaximalRuns(rs, segments)
    ensures |rs| <= |segments|
  {
    forall k | 0 <= k < |rs| ensures rs[k].start >= k {
      RunStartBound(rs, segments, k);
    }
  }

  lemma {:induction false} RunStartBound(rs: seq<Run>, segments: seq<string>, k: nat)
    requires MaximalRuns(rs, segments) && k < |rs|
    ensures rs[k].start >= k
  {
    if k > 0 {
      RunStartBound(rs, segments, k - 1);
    }
  }
}
