/** How `buildGroupsFromRawRecords` in servisy_data.js turns the flat list of
    branch records into services: one group per tab and per key made of the
    columns KAPU, Likvidace and KAM, in order of first appearance. The
    specification here is generic in the function that gives a record its tab
    and key; the page's own tagging is `Browser.TagFor`. */
module Grouping {
  import opened Values
  import opened Text
  import opened Classify

  /** `DISPLAY_COLUMNS_ORDER`: the overview columns, which also make the group key. */
  const DisplayColumnsOrder: seq<string> := ["KAPU", "Likvidace", "KAM"]

  const LegendColumn: string := "Legenda:"

  /** A service: every branch record with the same tab and key. `displayRecord`
      is the first of them. */
  datatype Group = Group(key: string, category: Category, displayRecord: Record, records: seq<Record>)

  /** What decides the group of a record: its tab and its key. */
  datatype Tag = Tag(category: Category, key: string)

  function TagOf(g: Group): Tag
  {
    Tag(g.category, g.key)
  }

  /** `DISPLAY_COLUMNS_ORDER.map(col => record[col] != null ? String(record[col]) : '').join('||')`. */
  function GroupKey(record: Record): string
  {
    Join([CellString(record.Get("KAPU")), CellString(record.Get("Likvidace")), CellString(record.Get("KAM"))], "||")
  }

  /** The spreadsheet's header row: its "Legenda:" cell holds the string "Stav". */
  predicate IsLegendRow(record: Record)
  {
    record.Get(LegendColumn) == Str("Stav")
  }

  /** The records that are grouped: all of them, except a legend row at index 0. */
  function Kept(rawRecords: seq<Record>): (rs: seq<Record>)
    ensures rs == rawRecords || (rawRecords != [] && rs == rawRecords[1..])
  {
    if rawRecords != [] && IsLegendRow(rawRecords[0]) then rawRecords[1..] else rawRecords
  }

  // ---------------------------------------------------------------------------------
  // The grouping, one record at a time

  /** The index of the group with tag `t`, or `|gs|` when there is none. */
  function FindTag(gs: seq<Group>, t: Tag): (i: nat)
    ensures i <= |gs|
    ensures i < |gs| ==> TagOf(gs[i]) == t
    ensures forall j :: 0 <= j < i ==> TagOf(gs[j]) != t
  {
    if gs == [] then 0
    else if TagOf(gs[0]) == t then 0
    else 1 + FindTag(gs[1..], t)
  }

  /** One iteration of the `forEach`: open a new group for an unseen tag, or
      append the record to the group that has it. */
  function AddRecord(gs: seq<Group>, r: Record, tag: Record -> Tag): seq<Group>
  {
    var t := tag(r);
    var i := FindTag(gs, t);
    if i == |gs| then gs + [Group(t.key, t.category, r, [r])]
    else gs[i := gs[i].(records := gs[i].records + [r])]
  }

  /** The groups built from `rs`. */
  function Grouped(rs: seq<Record>, tag: Record -> Tag): seq<Group>
  {
    if rs == [] then [] else AddRecord(Grouped(rs[..|rs| - 1], tag), rs[|rs| - 1], tag)
  }

  /** One more record is one more step of the grouping. */
  lemma GroupedSnoc(rs: seq<Record>, r: Record, tag: Record -> Tag)
    ensures Grouped(rs + [r], tag) == AddRecord(Grouped(rs, tag), r, tag)
  {
    assert (rs + [r])[..|rs|] == rs;
  }

  /** How the kept records grow as the `forEach` index moves on: the legend row
      at index 0 is skipped, every other record is appended. */
  lemma KeptStep(raw: seq<Record>, i: nat)
    requires i < |raw|
    ensures Kept(raw[..i + 1]) == if i == 0 && IsLegendRow(raw[0]) then Kept(raw[..i]) else Kept(raw[..i]) + [raw[i]]
  {
    if i > 0 {
      assert raw[..i + 1][0] == raw[..i][0] == raw[0];
      if IsLegendRow(raw[0]) {
        assert raw[..i + 1][1..] == raw[..i][1..] + [raw[i]];
      } else {
        assert raw[..i + 1] == raw[..i] + [raw[i]];
      }
    }
  }

  // ---------------------------------------------------------------------------------
  // Independent description of the result

  /** The distinct tags of `rs` in order of first appearance. */
  function FirstTags(rs: seq<Record>, tag: Record -> Tag): seq<Tag>
  {
    if rs == [] then []
    else
      var pre := FirstTags(rs[..|rs| - 1], tag);
      if tag(rs[|rs| - 1]) in pre then pre else pre + [tag(rs[|rs| - 1])]
  }

  /** The records of `rs` whose tag is `t`, in their order. */
  function WithTag(rs: seq<Record>, t: Tag, tag: Record -> Tag): seq<Record>
  {
    if rs == [] then []
    else WithTag(rs[..|rs| - 1], t, tag) + (if tag(rs[|rs| - 1]) == t then [rs[|rs| - 1]] else [])
  }

  predicate Distinct(ts: seq<Tag>)
  {
    forall i, j :: 0 <= i < j < |ts| ==> ts[i] != ts[j]
  }

  /** A tag is among the first tags exactly when some record has it. */
  lemma {:induction false} FirstTagsMembers(rs: seq<Record>, tag: Record -> Tag, t: Tag)
    ensures t in FirstTags(rs, tag) <==> exists i :: 0 <= i < |rs| && tag(rs[i]) == t
  {
    if rs != [] {
      var pre := rs[..|rs| - 1];
      FirstTagsMembers(pre, tag, t);
      if exists i :: 0 <= i < |rs| && tag(rs[i]) == t {
        var i :| 0 <= i < |rs| && tag(rs[i]) == t;
        if i < |pre| {
          assert tag(pre[i]) == t;
        }
      }
      if exists i :: 0 <= i < |pre| && tag(pre[i]) == t {
        var i :| 0 <= i < |pre| && tag(pre[i]) == t;
        assert tag(rs[i]) == t;
      }
    }
  }

  lemma {:induction false} FirstTagsDistinct(rs: seq<Record>, tag: Record -> Tag)
    ensures Distinct(FirstTags(rs, tag))
  {
    if rs != [] {
      FirstTagsDistinct(rs[..|rs| - 1], tag);
    }
  }

  /** No record with a tag that has not been seen. */
  lemma {:induction false} WithTagUnseen(rs: seq<Record>, t: Tag, tag: Record -> Tag)
    requires t !in FirstTags(rs, tag)
    ensures WithTag(rs, t, tag) == []
  {
    if rs != [] {
      WithTagUnseen(rs[..|rs| - 1], t, tag);
    }
  }

  lemma {:induction false} WithTagSeen(rs: seq<Record>, t: Tag, tag: Record -> Tag)
    requires t in FirstTags(rs, tag)
    ensures WithTag(rs, t, tag) != []
  {
    if rs != [] {
      var pre := rs[..|rs| - 1];
      if tag(rs[|rs| - 1]) != t {
        WithTagSeen(pre, t, tag);
      }
    }
  }

  /** What a correct grouping of `rs` looks like: one group per distinct tag, in
      order of first appearance, holding exactly the records with that tag in
      their order, displayed by the first of them. */
  predicate GroupsOf(gs: seq<Group>, rs: seq<Record>, tag: Record -> Tag)
  {
    |gs| == |FirstTags(rs, tag)|
    && (forall j :: 0 <= j < |gs| ==> TagOf(gs[j]) == FirstTags(rs, tag)[j])
    && (forall j :: 0 <= j < |gs| ==> gs[j].records == WithTag(rs, TagOf(gs[j]), tag))
    && (forall j :: 0 <= j < |gs| ==> gs[j].records != [] && gs[j].displayRecord == gs[j].records[0])
  }

  /** The grouping meets that description. */
  lemma {:induction false} GroupedIsGroupsOf(rs: seq<Record>, tag: Record -> Tag)
    ensures GroupsOf(Grouped(rs, tag), rs, tag)
  {
    if rs != [] {
      var pre := rs[..|rs| - 1];
      var r := rs[|rs| - 1];
      assert rs == pre + [r];
      GroupedIsGroupsOf(pre, tag);
      FirstTagsDistinct(pre, tag);
      var gs := Grouped(pre, tag);
      if FindTag(gs, tag(r)) == |gs| {
        GroupsOfNew(gs, pre, r, tag);
      } else {
        GroupsOfOld(gs, pre, r, tag);
      }
    }
  }

  lemma WithTagSnoc(rs: seq<Record>, r: Record, t: Tag, tag: Record -> Tag)
    ensures WithTag(rs + [r], t, tag) == WithTag(rs, t, tag) + (if tag(r) == t then [r] else [])
  {
    assert (rs + [r])[..|rs|] == rs;
  }

  lemma FirstTagsSnoc(rs: seq<Record>, r: Record, tag: Record -> Tag)
    ensures FirstTags(rs + [r], tag) == if tag(r) in FirstTags(rs, tag) then FirstTags(rs, tag) else FirstTags(rs, tag) + [tag(r)]
  {
    assert (rs + [r])[..|rs|] == rs;
  }

  /** A record with an unseen tag opens a group at the end. */
  lemma GroupsOfNew(gs: seq<Group>, pre: seq<Record>, r: Record, tag: Record -> Tag)
    requires GroupsOf(gs, pre, tag) && FindTag(gs, tag(r)) == |gs|
    ensures GroupsOf(AddRecord(gs, r, tag), pre + [r], tag)
  {
    var t := tag(r);
    var ft := FirstTags(pre, tag);
    assert t !in ft by {
      forall j | 0 <= j < |ft| ensures ft[j] != t {
        assert TagOf(gs[j]) == ft[j];
      }
    }
    FirstTagsSnoc(pre, r, tag);
    var g := Group(t.key, t.category, r, [r]);
    assert AddRecord(gs, r, tag) == gs + [g];
    forall j | 0 <= j < |gs| ensures gs[j].records == WithTag(pre + [r], TagOf(gs[j]), tag) {
      WithTagSnoc(pre, r, TagOf(gs[j]), tag);
      assert TagOf(gs[j]) == ft[j];
    }
    assert g.records == WithTag(pre + [r], t, tag) by {
      WithTagSnoc(pre, r, t, tag);
      WithTagUnseen(pre, t, tag);
    }
    GroupsOfAppend(gs, g, pre + [r], tag);
  }

  lemma GroupsOfAppend(gs: seq<Group>, g: Group, rs: seq<Record>, tag: Record -> Tag)
    requires |rs| > 0 && FirstTags(rs, tag) == FirstTags(rs[..|rs| - 1], tag) + [TagOf(g)]
    requires |gs| == |FirstTags(rs[..|rs| - 1], tag)|
    requires forall j :: 0 <= j < |gs| ==> TagOf(gs[j]) == FirstTags(rs, tag)[j]
    requires forall j :: 0 <= j < |gs| ==> gs[j].records == WithTag(rs, TagOf(gs[j]), tag)
    requires forall j :: 0 <= j < |gs| ==> gs[j].records != [] && gs[j].displayRecord == gs[j].records[0]
    requires g.records == WithTag(rs, TagOf(g), tag) && g.records != [] && g.displayRecord == g.records[0]
    ensures GroupsOf(gs + [g], rs, tag)
  {
    var gs' := gs + [g];
    forall j | 0 <= j < |gs'| ensures gs'[j] == if j < |gs| then gs[j] else g { }
  }

  /** A record with a seen tag goes to the end of that tag's group. */
  lemma GroupsOfOld(gs: seq<Group>, pre: seq<Record>, r: Record, tag: Record -> Tag)
    requires GroupsOf(gs, pre, tag) && Distinct(FirstTags(pre, tag)) && FindTag(gs, tag(r)) < |gs|
    ensures GroupsOf(AddRecord(gs, r, tag), pre + [r], tag)
  {
    var t := tag(r);
    var ft := FirstTags(pre, tag);
    var i := FindTag(gs, t);
    assert ft[i] == t;
    FirstTagsSnoc(pre, r, tag);
    var gs' := AddRecord(gs, r, tag);
    assert gs' == gs[i := gs[i].(records := gs[i].records + [r])];
    forall j | 0 <= j < |gs'| ensures gs'[j].records == WithTag(pre + [r], TagOf(gs'[j]), tag) {
      WithTagSnoc(pre, r, TagOf(gs'[j]), tag);
      if j != i {
        assert ft[j] != ft[i];
      }
    }
  }

  /** The groups' tags are pairwise different. */
  lemma GroupedTagsDistinct(rs: seq<Record>, tag: Record -> Tag)
    ensures forall i, j :: 0 <= i < j < |Grouped(rs, tag)| ==> TagOf(Grouped(rs, tag)[i]) != TagOf(Grouped(rs, tag)[j])
  {
    GroupedIsGroupsOf(rs, tag);
    FirstTagsDistinct(rs, tag);
  }

  /** Every record is in the group of its tag, and every group is non-empty. */
  lemma GroupedCoversRecords(rs: seq<Record>, tag: Record -> Tag, k: nat)
    requires k < |rs|
    ensures exists j :: 0 <= j < |Grouped(rs, tag)| && TagOf(Grouped(rs, tag)[j]) == tag(rs[k])
  {
    GroupedIsGroupsOf(rs, tag);
    FirstTagsMembers(rs, tag, tag(rs[k]));
    var ft := FirstTags(rs, tag);
    var j :| 0 <= j < |ft| && ft[j] == tag(rs[k]);
    assert TagOf(Grouped(rs, tag)[j]) == tag(rs[k]);
  }

  function TotalRecords(gs: seq<Group>): nat
  {
    if gs == [] then 0 else TotalRecords(gs[..|gs| - 1]) + |gs[|gs| - 1].records|
  }

  lemma {:induction false} TotalAppend(gs: seq<Group>, g: Group)
    ensures TotalRecords(gs + [g]) == TotalRecords(gs) + |g.records|
  {
    assert (gs + [g])[..|gs|] == gs;
  }

  lemma {:induction false} TotalUpdate(gs: seq<Group>, i: nat, g: Group)
    requires i < |gs|
    ensures TotalRecords(gs[i := g]) + |gs[i].records| == TotalRecords(gs) + |g.records|
    decreases |gs|
  {
    var n := |gs| - 1;
    if i < n {
      assert gs[i := g][..n] == gs[..n][i := g];
      TotalUpdate(gs[..n], i, g);
    } else {
      assert gs[i := g][..n] == gs[..n];
    }
  }

  /** Grouping loses no record and duplicates none. */
  lemma {:induction false} GroupedKeepsCount(rs: seq<Record>, tag: Record -> Tag)
    ensures TotalRecords(Grouped(rs, tag)) == |rs|
  {
    if rs != [] {
      var pre := rs[..|rs| - 1];
      var r := rs[|rs| - 1];
      GroupedKeepsCount(pre, tag);
      var gs := Grouped(pre, tag);
      var i := FindTag(gs, tag(r));
      if i == |gs| {
        TotalAppend(gs, Group(tag(r).key, tag(r).category, r, [r]));
      } else {
        TotalUpdate(gs, i, gs[i].(records := gs[i].records + [r]));
      }
    }
  }

  // ---------------------------------------------------------------------------------
  // The key

  predicate NoBar(s: string)
  {
    forall i :: 0 <= i < |s| ==> s[i] != '|'
  }

  /** The index of the first `|` in `s`, or `|s|`. */
  function FirstBar(s: string): nat
  {
    if s == [] then 0 else if s[0] == '|' then 0 else 1 + FirstBar(s[1..])
  }

  lemma {:induction false} FirstBarAfter(a: string, x: string)
    requires NoBar(a) && x != [] && x[0] == '|'
    ensures FirstBar(a + x) == |a|
    decreases |a|
  {
    if a == [] {
      assert a + x == x;
    } else {
      assert (a + x)[1..] == a[1..] + x;
      FirstBarAfter(a[1..], x);
    }
  }

  lemma SplitAtBar(a: string, x: string, a': string, x': string)
    requires NoBar(a) && NoBar(a') && x != [] && x[0] == '|' && x' != [] && x'[0] == '|'
    requires a + x == a' + x'
    ensures a == a' && x == x'
  {
    FirstBarAfter(a, x);
    FirstBarAfter(a', x');
    assert a == (a + x)[..|a|] == (a' + x')[..|a'|] == a';
    assert x == (a + x)[|a|..] == (a' + x')[|a'|..] == x';
  }

  lemma KeyShape(a: string, b: string, c: string)
    ensures Join([a, b, c], "||") == a + ("||" + (b + ("||" + c)))
  {
    assert [a, b, c][1..] == [b, c];
    assert [b, c][1..] == [c];
    assert Join([c], "||") == c;
    assert Join([b, c], "||") == (b + "||") + c;
    assert Join([a, b, c], "||") == (a + "||") + ((b + "||") + c);
    ConcatAssoc(a, "||", (b + "||") + c);
    ConcatAssoc(b, "||", c);
  }

  /** As long as no key column contains `|`, two records share a key only when
      they agree on KAPU, Likvidace and KAM. */
  lemma GroupKeyInjective(r1: Record, r2: Record)
    requires forall col :: col in DisplayColumnsOrder ==> NoBar(CellString(r1.Get(col))) && NoBar(CellString(r2.Get(col)))
    requires GroupKey(r1) == GroupKey(r2)
    ensures forall col :: col in DisplayColumnsOrder ==> CellString(r1.Get(col)) == CellString(r2.Get(col))
  {
    var a, b, c := CellString(r1.Get("KAPU")), CellString(r1.Get("Likvidace")), CellString(r1.Get("KAM"));
    var a', b', c' := CellString(r2.Get("KAPU")), CellString(r2.Get("Likvidace")), CellString(r2.Get("KAM"));
    assert "KAPU" in DisplayColumnsOrder && "Likvidace" in DisplayColumnsOrder && "KAM" in DisplayColumnsOrder;
    KeyShape(a, b, c);
    KeyShape(a', b', c');
    SplitAtBar(a, "||" + (b + ("||" + c)), a', "||" + (b' + ("||" + c')));
    assert b + ("||" + c) == ("||" + (b + ("||" + c)))[2..] == ("||" + (b' + ("||" + c')))[2..] == b' + ("||" + c');
    SplitAtBar(b, "||" + c, b', "||" + c');
    assert c == ("||" + c)[2..] == ("||" + c')[2..] == c';
  }

  /** The key does not tell `|` inside a value from the separator: a service
      named "||" and a service with IČ "||" get the same key. */
  lemma GroupKeyCollision()
    ensures GroupKey(Record([("KAPU", Str("||"))])) == GroupKey(Record([("Likvidace", Str("||"))]))
  {
    var r1 := Record([("KAPU", Str("||"))]);
    var r2 := Record([("Likvidace", Str("||"))]);
    assert r1.Get("KAPU") == Str("||") && r1.Get("Likvidace") == Null && r1.Get("KAM") == Null;
    assert r2.Get("KAPU") == Null && r2.Get("Likvidace") == Str("||") && r2.Get("KAM") == Null;
    KeyShape("||", "", "");
    KeyShape("", "||", "");
  }
}
