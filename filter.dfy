/** The filter of `applyFilter` in servisy_data.js: the groups of the selected
    tab, narrowed by the search term when it is not empty. A group matches when
    one of its branch records contains every search word somewhere in the
    folded text of all its columns. */
module Filter {
  import opened Values
  import opened Text
  import opened Classify
  import opened Grouping

  /** The tab a `currentTypeFilter` value selects: any value other than
      `bus`, `moto`, `skla` or `pdr` selects Auta. */
  function SelectorCategory(typeFilter: string): (c: Category)
    ensures c != Auta ==> typeFilter == CategoryName(c)
    ensures c == Auta ==> forall d :: d != Auta ==> typeFilter != CategoryName(d)
  {
    if typeFilter == "bus" then Bus
    else if typeFilter == "moto" then Moto
    else if typeFilter == "skla" then Skla
    else if typeFilter == "pdr" then Pdr
    else Auta
  }

  /** Every tab button selects its own tab. */
  lemma SelectorOfName(c: Category)
    ensures SelectorCategory(CategoryName(c)) == c
  {
  }

  /** The groups for which `keep` holds, in their order (`Array.prototype.filter`). */
  function Keep(gs: seq<Group>, keep: Group -> bool): (r: seq<Group>)
    ensures |r| <= |gs|
  {
    if gs == [] then []
    else (if keep(gs[0]) then [gs[0]] else []) + Keep(gs[1..], keep)
  }

  /** `Keep` keeps exactly the groups that pass, and keeps their order. */
  lemma {:induction false} KeepMembers(gs: seq<Group>, keep: Group -> bool, g: Group)
    ensures g in Keep(gs, keep) <==> g in gs && keep(g)
  {
    if gs != [] {
      KeepMembers(gs[1..], keep, g);
      assert gs == [gs[0]] + gs[1..];
    }
  }

  /** `r` is `gs` with some elements left out, the rest in their order. */
  predicate Subsequence<T(==)>(r: seq<T>, gs: seq<T>)
    decreases |gs|
  {
    r == [] ||
    (gs != [] && ((r[0] == gs[0] && Subsequence(r[1..], gs[1..])) || Subsequence(r, gs[1..])))
  }

  /** `Keep` picks a subsequence: a later group never comes before an earlier one. */
  lemma {:induction false} KeepIsSubsequence(gs: seq<Group>, keep: Group -> bool)
    ensures Subsequence(Keep(gs, keep), gs)
  {
    if gs != [] {
      KeepIsSubsequence(gs[1..], keep);
      if keep(gs[0]) {
        assert ([gs[0]] + Keep(gs[1..], keep))[1..] == Keep(gs[1..], keep);
      } else {
        assert [] + Keep(gs[1..], keep) == Keep(gs[1..], keep);
      }
    }
  }

  /** The searchable text of one cell: `''` for a missing value, else
      `removeDiacritics(String(value).toLowerCase())`. */
  function CellSearchText(v: Value, decompose: char -> string): string
  {
    if v.Null? then "" else Fold(AsString(v), decompose)
  }

  /** The searchable text of a record: its cells in the order of `allColumns`,
      joined with single spaces. */
  function CombinedText(record: Record, allColumns: seq<string>, decompose: char -> string): string
  {
    Join(seq(|allColumns|, i requires 0 <= i < |allColumns| => CellSearchText(record.Get(allColumns[i]), decompose)), " ")
  }

  /** Every search word occurs in the record's combined text. */
  predicate RecordMatches(record: Record, allColumns: seq<string>, words: seq<string>, decompose: char -> string)
  {
    forall j :: 0 <= j < |words| ==> Contains(CombinedText(record, allColumns, decompose), words[j])
  }

  /** Some branch of the group matches. */
  predicate GroupMatches(g: Group, allColumns: seq<string>, words: seq<string>, decompose: char -> string)
  {
    exists i :: 0 <= i < |g.records| && RecordMatches(g.records[i], allColumns, words, decompose)
  }

  /** `groupedRecords.filter(group => (group.type || 'auta') === ...)`: the groups of one tab. */
  function OfTab(groups: seq<Group>, selected: Category): seq<Group>
  {
    Keep(groups, (g: Group) => g.category == selected)
  }

  /** `base.filter(group => group.records.some(...))`: the groups with a matching branch. */
  function Matching(base: seq<Group>, allColumns: seq<string>, words: seq<string>, decompose: char -> string): seq<Group>
  {
    Keep(base, (g: Group) => GroupMatches(g, allColumns, words, decompose))
  }

  /** The groups `applyFilter` renders, `searchTerm` being the trimmed input. */
  function Shown(groups: seq<Group>, typeFilter: string, searchTerm: string, allColumns: seq<string>,
                 decompose: char -> string): seq<Group>
  {
    var base := OfTab(groups, SelectorCategory(typeFilter));
    var normalizedSearchTerm := Fold(searchTerm, decompose);
    if normalizedSearchTerm == "" then base
    else Matching(base, allColumns, Words(normalizedSearchTerm), decompose)
  }

  lemma OfTabIff(groups: seq<Group>, selected: Category, g: Group)
    ensures g in OfTab(groups, selected) <==> g in groups && g.category == selected
  {
    KeepMembers(groups, (g: Group) => g.category == selected, g);
  }

  lemma MatchingIff(base: seq<Group>, allColumns: seq<string>, words: seq<string>, decompose: char -> string, g: Group)
    ensures g in Matching(base, allColumns, words, decompose) <==> g in base && GroupMatches(g, allColumns, words, decompose)
  {
    KeepMembers(base, (g: Group) => GroupMatches(g, allColumns, words, decompose), g);
  }

  /** A group is shown exactly when it belongs to the selected tab and, for a
      non-empty search term, one of its branches contains every search word. */
  lemma ShownIff(groups: seq<Group>, typeFilter: string, searchTerm: string, allColumns: seq<string>,
                 decompose: char -> string, g: Group)
    ensures g in Shown(groups, typeFilter, searchTerm, allColumns, decompose) <==>
      g in groups && g.category == SelectorCategory(typeFilter) &&
      (Fold(searchTerm, decompose) == "" || GroupMatches(g, allColumns, Words(Fold(searchTerm, decompose)), decompose))
  {
    var base := OfTab(groups, SelectorCategory(typeFilter));
    OfTabIff(groups, SelectorCategory(typeFilter), g);
    MatchingIff(base, allColumns, Words(Fold(searchTerm, decompose)), decompose, g);
  }

  /** The shown groups keep the order of `groupedRecords`. */
  lemma ShownInOrder(groups: seq<Group>, typeFilter: string, searchTerm: string, allColumns: seq<string>,
                     decompose: char -> string)
    ensures Subsequence(Shown(groups, typeFilter, searchTerm, allColumns, decompose), groups)
  {
    var selected := SelectorCategory(typeFilter);
    var base := OfTab(groups, selected);
    KeepIsSubsequence(groups, (g: Group) => g.category == selected);
    var words := Words(Fold(searchTerm, decompose));
    KeepIsSubsequence(base, (g: Group) => GroupMatches(g, allColumns, words, decompose));
    SubsequenceTransitive(Matching(base, allColumns, words, decompose), base, groups);
  }

  lemma {:induction false} SubsequenceTransitive<T>(a: seq<T>, b: seq<T>, c: seq<T>)
    requires Subsequence(a, b) && Subsequence(b, c)
    ensures Subsequence(a, c)
    decreases |c|
  {
    if a != [] {
      if Subsequence(b, c[1..]) {
        SubsequenceTransitive(a, b, c[1..]);
      } else if a[0] == b[0] && Subsequence(a[1..], b[1..]) {
        SubsequenceTransitive(a[1..], b[1..], c[1..]);
      } else {
        SubsequenceTransitive(a, b[1..], c[1..]);
      }
    }
  }

  /** A search word that occurs in one cell occurs in the combined text, so a
      group matches a one-word search as soon as one branch has the word in one
      column. */
  lemma {:induction false} JoinContains(parts: seq<string>, sep: string, i: nat, w: string)
    requires i < |parts| && Contains(parts[i], w)
    ensures Contains(Join(parts, sep), w)
  {
    if |parts| > 1 {
      var rest := Join(parts[1..], sep);
      ConcatAssoc(parts[0], sep, rest);
      if i == 0 {
        ContainsInPrefix(parts[0], sep + rest, w);
      } else {
        JoinContains(parts[1..], sep, i - 1, w);
        ContainsInSuffix(parts[0] + sep, rest, w);
      }
    }
  }

  lemma ContainsInPrefix(a: string, b: string, w: string)
    requires Contains(a, w)
    ensures Contains(a + b, w)
  {
    ContainsIff(a, w);
    ContainsIff(a + b, w);
    var k :| OccursAt(a, w, k);
    assert (a + b)[k..k + |w|] == a[k..k + |w|];
    assert OccursAt(a + b, w, k);
  }

  lemma ContainsInSuffix(a: string, b: string, w: string)
    requires Contains(b, w)
    ensures Contains(a + b, w)
  {
    ContainsIff(b, w);
    ContainsIff(a + b, w);
    var k :| OccursAt(b, w, k);
    assert (a + b)[|a| + k..|a| + k + |w|] == b[k..k + |w|];
    assert OccursAt(a + b, w, |a| + k);
  }

  /** A branch whose column `allColumns[c]` contains the (folded) word matches
      the one-word search for it. */
  lemma CellMatch(record: Record, allColumns: seq<string>, c: nat, w: string, decompose: char -> string)
    requires c < |allColumns| && Contains(CellSearchText(record.Get(allColumns[c]), decompose), w)
    ensures RecordMatches(record, allColumns, [w], decompose)
  {
    var parts := seq(|allColumns|, i requires 0 <= i < |allColumns| => CellSearchText(record.Get(allColumns[i]), decompose));
    JoinContains(parts, " ", c, w);
  }
}
