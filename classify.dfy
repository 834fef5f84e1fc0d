/** The tab a service belongs to (`classifyType` in servisy_data.js), decided by
    the "Druh" column alone. */
module Classify {
  import opened Values
  import opened Text

  /** The five tabs. */
  datatype Category = Auta | Bus | Moto | Skla | Pdr

  /** The name a category has in the page (`'auta'`, `'bus'`, ...). */
  function CategoryName(c: Category): string
  {
    match c
    case Auta => "auta"
    case Bus => "bus"
    case Moto => "moto"
    case Skla => "skla"
    case Pdr => "pdr"
  }

  /** The column the spreadsheet export calls "Unnamed: 11" ("Druh", the kind of service). */
  const DruhColumn: string := "Unnamed: 11"

  /** `normalize(record['Unnamed: 11'])`. */
  function Druh(record: Record): string
  {
    Normalize(record.Get(DruhColumn))
  }

  /** `druh.replace(/\s+/g, '')`. */
  function DruhCompact(druh: string): string
  {
    RemoveSpaces(druh)
  }

  /** `removeDiacritics(druh).replace(/\s+/g, '')`. */
  function DruhKey(druh: string, decompose: char -> string): string
  {
    RemoveSpaces(RemoveDiacritics(druh, decompose))
  }

  predicate IsAsciiAlnum(c: char)
  {
    'a' <= c <= 'z' || '0' <= c <= '9'
  }

  /** `s.replace(/[^a-z0-9]/g, '')`. */
  function KeepAlnum(s: string): (r: string)
    ensures forall i :: 0 <= i < |r| ==> IsAsciiAlnum(r[i])
    ensures |r| <= |s|
    ensures (forall i :: 0 <= i < |s| ==> IsAsciiAlnum(s[i])) ==> r == s
    ensures (forall i :: 0 <= i < |s| ==> !IsAsciiAlnum(s[i])) ==> r == []
  {
    if s == [] then []
    else
      assert forall i :: 0 <= i < |s| - 1 ==> s[1..][i] == s[i + 1];
      (if IsAsciiAlnum(s[0]) then [s[0]] else []) + KeepAlnum(s[1..])
  }

  /** `KeepAlnum` works character by character; with the two cases of its
      contract this says it keeps exactly the small letters and digits, in order. */
  lemma {:induction false} KeepAlnumAppend(a: string, b: string)
    ensures KeepAlnum(a + b) == KeepAlnum(a) + KeepAlnum(b)
    decreases |a|
  {
    if a == [] {
      assert a + b == b;
    } else {
      assert (a + b)[1..] == a[1..] + b;
      KeepAlnumAppend(a[1..], b);
    }
  }

  /** `removeDiacritics(druh).toLowerCase().replace(/[^a-z0-9]/g, '')`. */
  function MotoKey(druh: string, decompose: char -> string): string
  {
    KeepAlnum(ToLower(RemoveDiacritics(druh, decompose)))
  }

  predicate IsPdr(druh: string)
  {
    druh != "" && (Contains(druh, "pdr opravy") || Contains(druh, "pdr"))
  }

  predicate IsGlass(druh: string, decompose: char -> string)
  {
    DruhKey(druh, decompose) == "autosklodirect" || DruhKey(druh, decompose) == "mobilniautosklodirect"
  }

  predicate IsMoto(druh: string, decompose: char -> string)
  {
    druh != "" &&
    (Contains(MotoKey(druh, decompose), "autorizovanyservisdirectmotocykly")
     || Contains(MotoKey(druh, decompose), "autorizovanyservisdirectmoto")
     || Contains(MotoKey(druh, decompose), "autorizovanyservismotocykly"))
  }

  predicate IsBus(druh: string)
  {
    DruhCompact(druh) == "autorizovanýnákladníservisdirect" || DruhCompact(druh) == "neautorizovanýnákladníservis"
  }

  /** `classifyType(record)`: the rules are tried in the order pdr, skla, moto, bus,
      and everything else is auta. The columns "Unnamed: 12" and "KAPU" that the
      source also normalises take no part in the decision. */
  function ClassifyType(record: Record, decompose: char -> string): Category
  {
    var druh := Druh(record);
    if IsPdr(druh) then Pdr
    else if IsGlass(druh, decompose) then Skla
    else if IsMoto(druh, decompose) then Moto
    else if IsBus(druh) then Bus
    else Auta
  }

  // ---------------------------------------------------------------------------------
  // Properties

  /** A longer needle found means its prefix is found as well. */
  lemma ContainsPrefix(s: string, long: string, short: string)
    requires short <= long && Contains(s, long)
    ensures Contains(s, short)
  {
    ContainsIff(s, long);
    ContainsIff(s, short);
    var k :| OccursAt(s, long, k);
    assert s[k..k + |short|] == long[..|short|] == short;
    assert OccursAt(s, short, k);
  }

  /** Nothing occurs in the empty string but the empty string. */
  lemma NotInEmpty(w: string)
    requires w != ""
    ensures !Contains("", w)
  {
    ContainsIff("", w);
  }

  /** A record is in the PDR tab exactly when its "Druh" contains `pdr`: the
      `'pdr opravy'` test and the emptiness guard add nothing. */
  lemma PdrIff(record: Record, decompose: char -> string)
    ensures ClassifyType(record, decompose) == Pdr <==> Contains(Druh(record), "pdr")
  {
    var druh := Druh(record);
    if Contains(druh, "pdr opravy") {
      ContainsPrefix(druh, "pdr opravy", "pdr");
    }
    if druh == "" {
      NotInEmpty("pdr");
    }
  }

  /** The moto test reduces to two needles: the `...directmotocykly` needle
      contains `...directmoto`, and the emptiness guard adds nothing. */
  lemma MotoIff(record: Record, decompose: char -> string)
    ensures ClassifyType(record, decompose) == Moto <==>
      !Contains(Druh(record), "pdr") && !IsGlass(Druh(record), decompose) &&
      (Contains(MotoKey(Druh(record), decompose), "autorizovanyservisdirectmoto")
       || Contains(MotoKey(Druh(record), decompose), "autorizovanyservismotocykly"))
  {
    var druh := Druh(record);
    var key := MotoKey(druh, decompose);
    PdrIff(record, decompose);
    assert IsMoto(druh, decompose) <==>
      Contains(key, "autorizovanyservisdirectmoto") || Contains(key, "autorizovanyservismotocykly")
    by {
      LongMotoNeedle(key);
      if druh == "" {
        MotoKeyOfEmpty(decompose);
      }
    }
  }

  /** Skla is the second rule: a glass "Druh" key wins over moto and bus, loses to pdr. */
  lemma SklaIff(record: Record, decompose: char -> string)
    ensures ClassifyType(record, decompose) == Skla <==>
      !Contains(Druh(record), "pdr") && IsGlass(Druh(record), decompose)
  {
    PdrIff(record, decompose);
  }

  /** Bus is the last explicit rule: it applies only when no earlier rule did. */
  lemma BusIff(record: Record, decompose: char -> string)
    ensures ClassifyType(record, decompose) == Bus <==>
      !Contains(Druh(record), "pdr") && !IsGlass(Druh(record), decompose)
      && !IsMoto(Druh(record), decompose) && IsBus(Druh(record))
  {
    PdrIff(record, decompose);
  }

  /** Two records with the same "Druh" cell land in the same tab, whatever
      their other columns hold. */
  lemma DecidedByDruh(r1: Record, r2: Record, decompose: char -> string)
    requires r1.Get(DruhColumn) == r2.Get(DruhColumn)
    ensures ClassifyType(r1, decompose) == ClassifyType(r2, decompose)
  {
    assert Druh(r1) == Druh(r2);
  }

  /** `...directmotocykly` starts with `...directmoto`. */
  lemma LongMotoNeedle(key: string)
    ensures Contains(key, "autorizovanyservisdirectmotocykly") ==> Contains(key, "autorizovanyservisdirectmoto")
  {
    var long, short := "autorizovanyservisdirectmotocykly", "autorizovanyservisdirectmoto";
    assert short <= long by {
      assert long[..|short|] == short;
    }
    if Contains(key, long) {
      ContainsPrefix(key, long, short);
    }
  }

  lemma MotoKeyOfEmpty(decompose: char -> string)
    ensures MotoKey("", decompose) == ""
    ensures !Contains(MotoKey("", decompose), "autorizovanyservisdirectmoto")
    ensures !Contains(MotoKey("", decompose), "autorizovanyservismotocykly")
  {
    assert RemoveDiacritics("", decompose) == [];
    assert ToLower([]) == [];
    NotInEmpty("autorizovanyservisdirectmoto");
    NotInEmpty("autorizovanyservismotocykly");
  }

  /** A record whose "Druh" is missing or empty is in the Auta tab. */
  lemma EmptyDruhIsAuta(record: Record, decompose: char -> string)
    requires Druh(record) == ""
    ensures ClassifyType(record, decompose) == Auta
  {
    assert DruhKey("", decompose) == "";
    assert DruhCompact("") == "";
  }

  /** "PDR opravy", the value the PDR tab is named after, lands in it. */
  lemma PdrExample(decompose: char -> string)
    ensures ClassifyType(Record([(DruhColumn, Str("PDR opravy"))]), decompose) == Pdr
  {
    var druh := Druh(Record([(DruhColumn, Str("PDR opravy"))]));
    assert druh[..3] == "pdr";
    assert OccursAt(druh, "pdr", 0);
    ContainsIff(druh, "pdr");
  }
}
