/** The match highlighter of servisy_data.js (`highlightTextPlain` and its inner
    `findOriginalPosition`): every occurrence of every search word becomes a span
    of the escaped text, the spans are sorted and merged, and `<mark>` tags are
    spliced in around the merged spans. */
module Highlight {
  import opened Values
  import opened Text

  /** A half-open range `[start, end)` of the escaped text. */
  datatype Span = Span(start: nat, end: nat)

  const OpenTag: string := "<mark class=\"highlight\">"
  const CloseTag: string := "</mark>"

  // ---------------------------------------------------------------------------------
  // findOriginalPosition

  /** The folding `findOriginalPosition` applies to one escaped character,
      `removeDiacritics(c.toLowerCase())` (see `CountsIff`); the scan below takes
      it as its parameter `fold`. */
  function CharFold(decompose: char -> string): char -> string
  {
    c => FoldChar(LowerChar(c), decompose)
  }

  /** Whether `findOriginalPosition` counts an escaped character: its folded form
      is not empty. */
  predicate Counts(c: char, fold: char -> string)
  {
    fold(c) != []
  }

  lemma CountsIff(c: char, decompose: char -> string)
    ensures Counts(c, CharFold(decompose)) <==> Fold([c], decompose) != []
  {
    assert ToLower([c]) == [LowerChar(c)];
    assert RemoveDiacritics([LowerChar(c)], decompose) == FoldChar(LowerChar(c), decompose) + RemoveDiacritics([], decompose);
  }

  /** Which characters of `e` are counted. */
  function CountMask(e: string, fold: char -> string): (m: seq<bool>)
    ensures |m| == |e|
  {
    if e == [] then [] else [Counts(e[0], fold)] + CountMask(e[1..], fold)
  }

  /** The mask has one entry per character of `e`, telling whether it counts. */
  lemma {:induction false} CountMaskAt(e: string, fold: char -> string, i: nat)
    requires i < |e|
    ensures CountMask(e, fold)[i] == Counts(e[i], fold)
  {
    if i > 0 {
      CountMaskAt(e[1..], fold, i - 1);
    }
  }

  /** The scan of `findOriginalPosition(pos)` from index `i` on over the counted
      characters `m`, `count` counted characters having been passed. */
  function PositionFrom(m: seq<bool>, pos: nat, i: nat, count: nat): (r: nat)
    requires i <= |m|
    ensures i <= r <= |m|
    decreases |m| - i
  {
    if i == |m| then |m|
    else if m[i] then
      if count == pos then i else PositionFrom(m, pos, i + 1, count + 1)
    else PositionFrom(m, pos, i + 1, count)
  }

  /** `findOriginalPosition(pos)` over the escaped text `e`: the index of the
      pos-th counted character, or the length of `e` when there are fewer. */
  function OriginalPosition(e: string, pos: nat, fold: char -> string): (r: nat)
    ensures r <= |e|
  {
    PositionFrom(CountMask(e, fold), pos, 0, 0)
  }

  method FindOriginalPosition(escapedText: string, normalizedPos: nat, fold: char -> string)
    returns (p: nat)
    ensures p == OriginalPosition(escapedText, normalizedPos, fold)
  {
    ghost var m := CountMask(escapedText, fold);
    var normalizedCount := 0;
    for i := 0 to |escapedText|
      invariant PositionFrom(m, normalizedPos, i, normalizedCount)
             == OriginalPosition(escapedText, normalizedPos, fold)
    {
      CountMaskAt(escapedText, fold, i);
      if Counts(escapedText[i], fold) {
        if normalizedCount == normalizedPos {
          return i;
        }
        normalizedCount := normalizedCount + 1;
      }
    }
    return |escapedText|;
  }

  lemma {:induction false} PositionFromMonotone(m: seq<bool>, p1: nat, p2: nat, i: nat, count: nat)
    requires i <= |m| && count <= p1 <= p2
    ensures PositionFrom(m, p1, i, count) <= PositionFrom(m, p2, i, count)
    decreases |m| - i
  {
    if i < |m| {
      if m[i] {
        if count != p1 {
          PositionFromMonotone(m, p1, p2, i + 1, count + 1);
        }
      } else {
        PositionFromMonotone(m, p1, p2, i + 1, count);
      }
    }
  }

  /** A later normalised offset never maps to an earlier escaped offset. */
  lemma OriginalPositionMonotone(e: string, p1: nat, p2: nat, fold: char -> string)
    requires p1 <= p2
    ensures OriginalPosition(e, p1, fold) <= OriginalPosition(e, p2, fold)
  {
    PositionFromMonotone(CountMask(e, fold), p1, p2, 0, 0);
  }

  predicate AllCount(e: string, fold: char -> string)
  {
    forall i :: 0 <= i < |e| ==> Counts(e[i], fold)
  }

  lemma {:induction false} PositionFromIdentity(m: seq<bool>, pos: nat, i: nat)
    requires (forall j :: 0 <= j < |m| ==> m[j]) && i <= |m| && i <= pos
    ensures PositionFrom(m, pos, i, i) == if pos < |m| then pos else |m|
    decreases |m| - i
  {
    if i < |m| && i != pos {
      PositionFromIdentity(m, pos, i + 1);
    }
  }

  /** When every character counts, `findOriginalPosition` is the identity clamped
      to the length of the text. */
  lemma OriginalPositionIdentity(e: string, pos: nat, fold: char -> string)
    requires AllCount(e, fold)
    ensures OriginalPosition(e, pos, fold) == if pos < |e| then pos else |e|
  {
    forall i | 0 <= i < |e|
      ensures CountMask(e, fold)[i]
    {
      CountMaskAt(e, fold, i);
    }
    PositionFromIdentity(CountMask(e, fold), pos, 0);
  }

  /** Every character of foldable text counts. */
  lemma FoldableCounts(s: string, decompose: char -> string)
    requires Foldable(s)
    ensures AllCount(s, CharFold(decompose))
  {
    forall i | 0 <= i < |s| ensures Counts(s[i], CharFold(decompose)) {
      assert IsPlain(LowerChar(s[i])) || InTable(LowerChar(s[i]));
    }
  }

  // ---------------------------------------------------------------------------------
  // Scanning the words

  /** The span an occurrence of length `len` at normalised offset `k` is given,
      `m` being the counted characters of the escaped text. */
  function SpanAt(m: seq<bool>, k: nat, len: nat): Span
  {
    Span(PositionFrom(m, k, 0, 0), PositionFrom(m, k + len, 0, 0))
  }

  /** The spans the `while (true)` scan of one word pushes, from `searchIndex` on. */
  function WordSpans(norm: string, w: string, m: seq<bool>, from: nat): seq<Span>
    decreases |norm| + 1 - from
  {
    var k := IndexOf(norm, w, from);
    if k == -1 then []
    else [SpanAt(m, k, |w|)] + WordSpans(norm, w, m, k + 1)
  }

  /** The spans pushed for all the words, word by word. */
  function AllSpans(norm: string, words: seq<string>, m: seq<bool>): seq<Span>
  {
    if words == [] then []
    else WordSpans(norm, words[0], m, 0) + AllSpans(norm, words[1..], m)
  }

  lemma SpansAssoc(a: seq<Span>, b: seq<Span>, c: seq<Span>)
    ensures (a + b) + c == a + (b + c)
  {
  }

  lemma AllSpansStep(norm: string, words: seq<string>, j: nat, m: seq<bool>)
    requires j < |words|
    ensures AllSpans(norm, words[j..], m) == WordSpans(norm, words[j], m, 0) + AllSpans(norm, words[j + 1..], m)
  {
    assert words[j..][0] == words[j] && words[j..][1..] == words[j + 1..];
  }

  method ScanWords(normalizedText: string, searchWords: seq<string>, escapedText: string, fold: char -> string)
    returns (ranges: seq<Span>)
    ensures ranges == AllSpans(normalizedText, searchWords, CountMask(escapedText, fold))
  {
    ghost var m := CountMask(escapedText, fold);
    ranges := [];
    for j := 0 to |searchWords|
      invariant ranges + AllSpans(normalizedText, searchWords[j..], m) == AllSpans(normalizedText, searchWords, m)
    {
      AllSpansStep(normalizedText, searchWords, j, m);
      var found := ScanWord(normalizedText, searchWords[j], escapedText, fold);
      SpansAssoc(ranges, found, AllSpans(normalizedText, searchWords[j + 1..], m));
      ranges := ranges + found;
    }
    assert searchWords[|searchWords|..] == [];
  }

  /** The `while (true)` loop over the occurrences of one word. */
  method ScanWord(normalizedText: string, word: string, escapedText: string, fold: char -> string)
    returns (ranges: seq<Span>)
    ensures ranges == WordSpans(normalizedText, word, CountMask(escapedText, fold), 0)
  {
    ghost var m := CountMask(escapedText, fold);
    ranges := [];
    var searchIndex: nat := 0;
    while true
      invariant searchIndex <= |normalizedText| + 1
      invariant ranges + WordSpans(normalizedText, word, m, searchIndex) == WordSpans(normalizedText, word, m, 0)
      decreases |normalizedText| + 1 - searchIndex
    {
      var matchIndex, sp := NextMatch(normalizedText, word, escapedText, fold, searchIndex);
      if matchIndex == -1 {
        assert ranges + [] == ranges;
        break;
      }
      SpansAssoc(ranges, [sp], WordSpans(normalizedText, word, m, matchIndex + 1));
      ranges := ranges + [sp];
      searchIndex := matchIndex + 1;
    }
  }

  /** One pass of the loop: the next occurrence at or after `searchIndex`, and the
      span pushed for it. */
  method NextMatch(normalizedText: string, word: string, escapedText: string, fold: char -> string, searchIndex: nat)
    returns (matchIndex: int, sp: Span)
    ensures matchIndex == -1 || searchIndex <= matchIndex <= |normalizedText|
    ensures matchIndex == -1 ==> WordSpans(normalizedText, word, CountMask(escapedText, fold), searchIndex) == []
    ensures matchIndex != -1 ==> WordSpans(normalizedText, word, CountMask(escapedText, fold), searchIndex)
                                 == [sp] + WordSpans(normalizedText, word, CountMask(escapedText, fold), matchIndex + 1)
  {
    matchIndex := IndexOf(normalizedText, word, searchIndex);
    sp := Span(0, 0);
    if matchIndex != -1 {
      var originalStart := FindOriginalPosition(escapedText, matchIndex, fold);
      var originalEnd := FindOriginalPosition(escapedText, matchIndex + |word|, fold);
      sp := Span(originalStart, originalEnd);
    }
  }

  /** Every occurrence at or after `from`, overlapping ones included, yields its span. */
  lemma {:induction false} WordSpansComplete(norm: string, w: string, m: seq<bool>, from: nat, k: nat)
    requires from <= k && OccursAt(norm, w, k)
    ensures SpanAt(m, k, |w|) in WordSpans(norm, w, m, from)
    decreases |norm| + 1 - from
  {
    IndexOfFirst(norm, w, from);
    var k0 := IndexOf(norm, w, from);
    if k0 != k {
      WordSpansComplete(norm, w, m, k0 + 1, k);
    }
  }

  /** Every span of a word comes from an occurrence of it. */
  lemma {:induction false} WordSpansSound(norm: string, w: string, m: seq<bool>, from: nat, sp: Span)
    requires sp in WordSpans(norm, w, m, from)
    ensures exists k: nat :: from <= k && OccursAt(norm, w, k) && sp == SpanAt(m, k, |w|)
    decreases |norm| + 1 - from
  {
    IndexOfFirst(norm, w, from);
    var k0 := IndexOf(norm, w, from);
    if sp != SpanAt(m, k0, |w|) {
      WordSpansSound(norm, w, m, k0 + 1, sp);
    }
  }

  /** The spans of the occurrences of the words are exactly the pushed spans. */
  lemma {:induction false} AllSpansIff(norm: string, words: seq<string>, m: seq<bool>, sp: Span)
    ensures sp in AllSpans(norm, words, m) <==>
            exists j: nat, k: nat :: j < |words| && OccursAt(norm, words[j], k) && sp == SpanAt(m, k, |words[j]|)
  {
    if words != [] {
      AllSpansIff(norm, words[1..], m, sp);
      if sp in WordSpans(norm, words[0], m, 0) {
        WordSpansSound(norm, words[0], m, 0, sp);
      }
      if exists j: nat, k: nat :: j < |words| && OccursAt(norm, words[j], k) && sp == SpanAt(m, k, |words[j]|) {
        var j: nat, k: nat :| j < |words| && OccursAt(norm, words[j], k) && sp == SpanAt(m, k, |words[j]|);
        if j == 0 {
          WordSpansComplete(norm, words[0], m, 0, k);
        } else {
          assert words[1..][j - 1] == words[j];
        }
      }
    }
  }

  /** Spans that start no later than they end and stay within `n`. */
  predicate WellFormed(rs: seq<Span>, n: nat)
  {
    forall i :: 0 <= i < |rs| ==> rs[i].start <= rs[i].end <= n
  }

  lemma SpanAtWellFormed(m: seq<bool>, k: nat, len: nat)
    ensures SpanAt(m, k, len).start <= SpanAt(m, k, len).end <= |m|
  {
    PositionFromMonotone(m, k, k + len, 0, 0);
  }

  lemma {:induction false} WordSpansWellFormed(norm: string, w: string, m: seq<bool>, from: nat)
    ensures WellFormed(WordSpans(norm, w, m, from), |m|)
    decreases |norm| + 1 - from
  {
    var k := IndexOf(norm, w, from);
    if k != -1 {
      SpanAtWellFormed(m, k, |w|);
      WordSpansWellFormed(norm, w, m, k + 1);
    }
  }

  lemma {:induction false} AllSpansWellFormed(norm: string, words: seq<string>, m: seq<bool>)
    ensures WellFormed(AllSpans(norm, words, m), |m|)
  {
    if words != [] {
      WordSpansWellFormed(norm, words[0], m, 0);
      AllSpansWellFormed(norm, words[1..], m);
    }
  }

  // ---------------------------------------------------------------------------------
  // Sorting (`highlightedRanges.sort((a, b) => a.start - b.start)`, a stable sort)

  predicate SortedByStart(rs: seq<Span>)
  {
    forall i, j :: 0 <= i < j < |rs| ==> rs[i].start <= rs[j].start
  }

  function InsertByStart(x: Span, rs: seq<Span>): seq<Span>
  {
    if rs == [] || x.start <= rs[0].start then [x] + rs
    else [rs[0]] + InsertByStart(x, rs[1..])
  }

  /** A stable insertion sort by start: the result `Array.prototype.sort` gives. */
  function SortByStart(rs: seq<Span>): seq<Span>
  {
    if rs == [] then [] else InsertByStart(rs[0], SortByStart(rs[1..]))
  }

  /** Inserting keeps the list ordered by start and adds exactly `x`. */
  lemma InsertByStartProps(x: Span, rs: seq<Span>)
    requires SortedByStart(rs)
    ensures SortedByStart(InsertByStart(x, rs))
    ensures multiset(InsertByStart(x, rs)) == multiset(rs) + multiset{x}
  {
    InsertByStartSorted(x, rs);
    InsertByStartPerm(x, rs);
  }

  lemma {:induction false} InsertByStartPerm(x: Span, rs: seq<Span>)
    ensures multiset(InsertByStart(x, rs)) == multiset(rs) + multiset{x}
  {
    if rs != [] && x.start > rs[0].start {
      InsertByStartPerm(x, rs[1..]);
      var t := InsertByStart(x, rs[1..]);
      assert InsertByStart(x, rs) == [rs[0]] + t;
      assert multiset([rs[0]] + t) == multiset{rs[0]} + multiset(t);
      assert rs == [rs[0]] + rs[1..];
      assert multiset(rs) == multiset{rs[0]} + multiset(rs[1..]);
    } else {
      assert InsertByStart(x, rs) == [x] + rs;
    }
  }

  lemma {:induction false} InsertByStartSorted(x: Span, rs: seq<Span>)
    requires SortedByStart(rs)
    ensures SortedByStart(InsertByStart(x, rs))
  {
    if rs != [] && x.start > rs[0].start {
      assert SortedByStart(rs[1..]) by {
        forall i, j | 0 <= i < j < |rs[1..]| ensures rs[1..][i].start <= rs[1..][j].start {
          assert rs[1..][i] == rs[i + 1] && rs[1..][j] == rs[j + 1];
        }
      }
      InsertByStartSorted(x, rs[1..]);
      InsertByStartPerm(x, rs[1..]);
      var t := InsertByStart(x, rs[1..]);
      assert InsertByStart(x, rs) == [rs[0]] + t;
      assert forall i :: 0 <= i < |rs[1..]| ==> rs[0].start <= rs[1..][i].start by {
        forall i | 0 <= i < |rs[1..]| ensures rs[0].start <= rs[1..][i].start {
          assert rs[1..][i] == rs[i + 1];
        }
      }
      StartsFrom(t, rs[1..], x, rs[0].start);
      ConsSorted(rs[0], t);
    } else {
      assert InsertByStart(x, rs) == [x] + rs;
      assert forall i :: 0 <= i < |rs| ==> x.start <= rs[i].start by {
        forall i | 0 <= i < |rs| ensures x.start <= rs[i].start {
          if i > 0 {
            assert rs[0].start <= rs[i].start;
          }
        }
      }
      ConsSorted(x, rs);
    }
  }

  /** A permutation of `s` and `x` starts no earlier than `lo` when they do not. */
  lemma StartsFrom(t: seq<Span>, s: seq<Span>, x: Span, lo: nat)
    requires multiset(t) == multiset(s) + multiset{x}
    requires lo <= x.start && forall i :: 0 <= i < |s| ==> lo <= s[i].start
    ensures forall i :: 0 <= i < |t| ==> lo <= t[i].start
  {
    forall i | 0 <= i < |t| ensures lo <= t[i].start {
      assert t[i] in multiset(t);
      if t[i] != x {
        assert t[i] in multiset(s);
      }
    }
  }

  lemma ConsSorted(a: Span, t: seq<Span>)
    requires SortedByStart(t) && forall i :: 0 <= i < |t| ==> a.start <= t[i].start
    ensures SortedByStart([a] + t)
  {
    forall i, j | 0 <= i < j < |[a] + t| ensures ([a] + t)[i].start <= ([a] + t)[j].start {
      if i > 0 {
        assert ([a] + t)[i] == t[i - 1];
      }
      assert ([a] + t)[j] == t[j - 1];
    }
  }

  /** Sorting orders by start and permutes. */
  lemma {:induction false} SortByStartProps(rs: seq<Span>)
    ensures SortedByStart(SortByStart(rs))
    ensures multiset(SortByStart(rs)) == multiset(rs)
  {
    if rs != [] {
      SortByStartProps(rs[1..]);
      InsertByStartProps(rs[0], SortByStart(rs[1..]));
      assert rs == [rs[0]] + rs[1..];
    }
  }

  lemma SortByStartWellFormed(rs: seq<Span>, n: nat)
    requires WellFormed(rs, n)
    ensures WellFormed(SortByStart(rs), n)
  {
    SortByStartProps(rs);
    var s := SortByStart(rs);
    forall i | 0 <= i < |s| ensures s[i].start <= s[i].end <= n {
      assert s[i] in multiset(rs);
    }
  }

  // ---------------------------------------------------------------------------------
  // Merging

  function Max(a: nat, b: nat): nat
  {
    if a < b then b else a
  }

  /** One step of the merge loop: push a span that starts after the last merged
      span ends, otherwise extend the last merged span. */
  function Absorb(ms: seq<Span>, r: Span): seq<Span>
  {
    if ms == [] || r.start > ms[|ms| - 1].end then ms + [r]
    else ms[..|ms| - 1] + [Span(ms[|ms| - 1].start, Max(ms[|ms| - 1].end, r.end))]
  }

  /** The merge loop run over `rs`. */
  function Merged(rs: seq<Span>): seq<Span>
  {
    if rs == [] then [] else Absorb(Merged(rs[..|rs| - 1]), rs[|rs| - 1])
  }

  method MergeRanges(highlightedRanges: seq<Span>) returns (mergedRanges: seq<Span>)
    ensures mergedRanges == Merged(highlightedRanges)
  {
    mergedRanges := [];
    for i := 0 to |highlightedRanges|
      invariant mergedRanges == Merged(highlightedRanges[..i])
    {
      MergedSnoc(highlightedRanges, i);
      var r := highlightedRanges[i];
      if |mergedRanges| == 0 || r.start > mergedRanges[|mergedRanges| - 1].end {
        mergedRanges := mergedRanges + [Span(r.start, r.end)];
      } else {
        AbsorbLast(mergedRanges, r);
        var last := mergedRanges[|mergedRanges| - 1];
        mergedRanges := mergedRanges[|mergedRanges| - 1 := Span(last.start, Max(last.end, r.end))];
      }
    }
    assert highlightedRanges[..|highlightedRanges|] == highlightedRanges;
  }

  lemma MergedSnoc(rs: seq<Span>, i: nat)
    requires i < |rs|
    ensures Merged(rs[..i + 1]) == Absorb(Merged(rs[..i]), rs[i])
  {
    assert rs[..i + 1][..i] == rs[..i];
  }

  /** Extending the last merged span is an update of its last entry. */
  lemma AbsorbLast(ms: seq<Span>, r: Span)
    requires ms != [] && r.start <= ms[|ms| - 1].end
    ensures Absorb(ms, r) == ms[|ms| - 1 := Span(ms[|ms| - 1].start, Max(ms[|ms| - 1].end, r.end))]
  {
  }

  /** Merged spans are ordered and each starts strictly after the previous one ends. */
  predicate Separated(ms: seq<Span>)
  {
    forall j :: 0 <= j < |ms| - 1 ==> ms[j].end < ms[j + 1].start
  }

  predicate Inside(r: Span, ms: seq<Span>)
  {
    exists j :: 0 <= j < |ms| && ms[j].start <= r.start && r.end <= ms[j].end
  }

  predicate Covered(rs: seq<Span>, p: nat)
  {
    exists i :: 0 <= i < |rs| && rs[i].start <= p < rs[i].end
  }

  /** One merge step keeps the merged spans well-formed and separated. */
  lemma AbsorbShape(ms: seq<Span>, x: Span, n: nat)
    requires WellFormed(ms, n) && Separated(ms) && x.start <= x.end <= n
    requires ms != [] ==> ms[|ms| - 1].start <= x.start
    ensures WellFormed(Absorb(ms, x), n) && Separated(Absorb(ms, x))
    ensures Absorb(ms, x) != [] && Absorb(ms, x)[|Absorb(ms, x)| - 1].start <= x.start
  {
    if ms != [] && x.start <= ms[|ms| - 1].end {
      var k := |ms| - 1;
      var m := Absorb(ms, x);
      assert forall i :: 0 <= i < k ==> m[i] == ms[i];
    }
  }

  /** The merge loop keeps its spans well-formed and separated, and the last
      merged span starts no later than the last span absorbed. */
  lemma {:induction false} MergedShape(rs: seq<Span>, n: nat)
    requires SortedByStart(rs) && WellFormed(rs, n)
    ensures WellFormed(Merged(rs), n) && Separated(Merged(rs))
    ensures rs != [] ==> Merged(rs) != [] && Merged(rs)[|Merged(rs)| - 1].start <= rs[|rs| - 1].start
    decreases |rs|
  {
    if rs != [] {
      var pre := rs[..|rs| - 1];
      assert forall i :: 0 <= i < |pre| ==> pre[i] == rs[i];
      MergedShape(pre, n);
      AbsorbShape(Merged(pre), rs[|rs| - 1], n);
    }
  }

  lemma AbsorbKeepsInside(ms: seq<Span>, x: Span, r: Span)
    requires Inside(r, ms)
    ensures Inside(r, Absorb(ms, x))
  {
    var j :| 0 <= j < |ms| && ms[j].start <= r.start && r.end <= ms[j].end;
    var m := Absorb(ms, x);
    assert m[j].start <= r.start && r.end <= m[j].end;
  }

  lemma AbsorbHoldsNew(ms: seq<Span>, x: Span)
    requires ms != [] ==> ms[|ms| - 1].start <= x.start
    ensures Inside(x, Absorb(ms, x))
  {
    var m := Absorb(ms, x);
    assert m[|m| - 1].start <= x.start && x.end <= m[|m| - 1].end;
  }

  /** Every input span lies inside one merged span. */
  lemma {:induction false} MergedContains(rs: seq<Span>, n: nat)
    requires SortedByStart(rs) && WellFormed(rs, n)
    ensures forall i :: 0 <= i < |rs| ==> Inside(rs[i], Merged(rs))
    decreases |rs|
  {
    if rs != [] {
      var pre := rs[..|rs| - 1];
      assert forall i :: 0 <= i < |pre| ==> pre[i] == rs[i];
      MergedContains(pre, n);
      MergedShape(pre, n);
      var x := rs[|rs| - 1];
      forall i | 0 <= i < |rs| ensures Inside(rs[i], Merged(rs)) {
        if i < |pre| {
          AbsorbKeepsInside(Merged(pre), x, pre[i]);
        } else {
          AbsorbHoldsNew(Merged(pre), x);
        }
      }
    }
  }

  lemma AbsorbCoverage(ms: seq<Span>, x: Span, p: nat)
    requires ms != [] ==> ms[|ms| - 1].start <= x.start
    ensures Covered(Absorb(ms, x), p) <==> Covered(ms, p) || x.start <= p < x.end
  {
    if ms == [] || x.start > ms[|ms| - 1].end {
      CoveredAppend(ms, x, p);
    } else {
      var last := ms[|ms| - 1];
      CoveredAppend(ms[..|ms| - 1], Span(last.start, Max(last.end, x.end)), p);
      CoveredAppend(ms[..|ms| - 1], last, p);
      assert ms[..|ms| - 1] + [last] == ms;
    }
  }

  /** Merging marks exactly the positions some input span marks. */
  lemma {:induction false} MergedCoverage(rs: seq<Span>, n: nat, p: nat)
    requires SortedByStart(rs) && WellFormed(rs, n)
    ensures Covered(Merged(rs), p) <==> Covered(rs, p)
    decreases |rs|
  {
    if rs != [] {
      var pre := rs[..|rs| - 1];
      assert forall i :: 0 <= i < |pre| ==> pre[i] == rs[i];
      MergedCoverage(pre, n, p);
      MergedShape(pre, n);
      CoveredAppend(pre, rs[|rs| - 1], p);
      assert pre + [rs[|rs| - 1]] == rs;
      AbsorbCoverage(Merged(pre), rs[|rs| - 1], p);
    }
  }

  lemma CoveredAppend(ms: seq<Span>, x: Span, p: nat)
    ensures Covered(ms + [x], p) <==> Covered(ms, p) || x.start <= p < x.end
  {
    if Covered(ms, p) {
      var i :| 0 <= i < |ms| && ms[i].start <= p < ms[i].end;
      assert (ms + [x])[i] == ms[i];
    }
    if x.start <= p < x.end {
      assert (ms + [x])[|ms|] == x;
    }
  }

  // ---------------------------------------------------------------------------------
  // Splicing the tags in

  /** The text from `lastIndex` up to a span, then the span wrapped in a mark. */
  function Piece(e: string, lastIndex: nat, r: Span): string
  {
    JsSubstring(e, lastIndex, r.start) + (OpenTag + (JsSubstring(e, r.start, r.end) + CloseTag))
  }

  /** The `forEach` that assembles the result, from `lastIndex` on. */
  function SpliceFrom(e: string, ms: seq<Span>, lastIndex: nat): string
  {
    if ms == [] then JsSubstring(e, lastIndex, |e|)
    else Piece(e, lastIndex, ms[0]) + SpliceFrom(e, ms[1..], ms[0].end)
  }

  method SpliceMarks(escapedText: string, mergedRanges: seq<Span>) returns (result: string)
    ensures result == SpliceFrom(escapedText, mergedRanges, 0)
  {
    result := "";
    var lastIndex: nat := 0;
    for i := 0 to |mergedRanges|
      invariant result + SpliceFrom(escapedText, mergedRanges[i..], lastIndex) == SpliceFrom(escapedText, mergedRanges, 0)
    {
      var range := mergedRanges[i];
      assert mergedRanges[i..][0] == range && mergedRanges[i..][1..] == mergedRanges[i + 1..];
      ghost var before := result;
      ghost var rest := SpliceFrom(escapedText, mergedRanges[i + 1..], range.end);
      assert SpliceFrom(escapedText, mergedRanges[i..], lastIndex) == Piece(escapedText, lastIndex, range) + rest;
      result := result + JsSubstring(escapedText, lastIndex, range.start);
      var marked := OpenTag + (JsSubstring(escapedText, range.start, range.end) + CloseTag);
      result := result + marked;
      ConcatAssoc(before, JsSubstring(escapedText, lastIndex, range.start), marked);
      ConcatAssoc(before, Piece(escapedText, lastIndex, range), rest);
      lastIndex := range.end;
    }
    result := result + JsSubstring(escapedText, lastIndex, |escapedText|);
  }

  /** Deletes every `<mark class="highlight">` and `</mark>` tag. */
  function Unmark(s: string): string
    decreases |s|
  {
    if s == [] then []
    else if OpenTag <= s then Unmark(s[|OpenTag|..])
    else if CloseTag <= s then Unmark(s[|CloseTag|..])
    else [s[0]] + Unmark(s[1..])
  }

  predicate NoLt(s: string)
  {
    forall i :: 0 <= i < |s| ==> s[i] != '<'
  }

  lemma {:induction false} UnmarkPlain(a: string, b: string)
    requires NoLt(a)
    ensures Unmark(a + b) == a + Unmark(b)
    decreases |a|
  {
    if a != [] {
      assert (a + b)[0] == a[0] && (a + b)[1..] == a[1..] + b;
      assert OpenTag[0] == '<' && CloseTag[0] == '<';
      UnmarkPlain(a[1..], b);
    } else {
      assert a + b == b;
    }
  }

  lemma UnmarkTags(b: string)
    ensures Unmark(OpenTag + b) == Unmark(b)
    ensures Unmark(CloseTag + b) == Unmark(b)
  {
    assert (OpenTag + b)[..|OpenTag|] == OpenTag;
    assert (OpenTag + b)[|OpenTag|..] == b;
    assert (CloseTag + b)[..|CloseTag|] == CloseTag;
    assert (CloseTag + b)[|CloseTag|..] == b;
    assert (CloseTag + b)[1] == '/' != OpenTag[1];
  }

  lemma NoLtSlice(e: string, i: nat, j: nat)
    requires NoLt(e) && i <= j <= |e|
    ensures NoLt(e[i..j])
  {
    assert forall k :: 0 <= k < j - i ==> e[i..j][k] == e[i + k];
  }

  /** Deleting the tags from one piece and what follows it. */
  lemma UnmarkPiece(e: string, lastIndex: nat, r: Span, rest: string)
    requires NoLt(e) && lastIndex <= r.start <= r.end <= |e|
    ensures Unmark(Piece(e, lastIndex, r) + rest) == e[lastIndex..r.end] + Unmark(rest)
  {
    var a := e[lastIndex..r.start];
    var b := e[r.start..r.end];
    var tail := CloseTag + rest;
    var y := b + tail;
    assert NoLt(a) && NoLt(b) by {
      NoLtSlice(e, lastIndex, r.start);
      NoLtSlice(e, r.start, r.end);
    }
    assert Piece(e, lastIndex, r) + rest == a + (OpenTag + y) by {
      assert Piece(e, lastIndex, r) == a + (OpenTag + (b + CloseTag));
      ConcatAssoc(a, OpenTag + (b + CloseTag), rest);
      ConcatAssoc(OpenTag, b + CloseTag, rest);
      ConcatAssoc(b, CloseTag, rest);
    }
    assert Unmark(a + (OpenTag + y)) == a + Unmark(OpenTag + y) by {
      UnmarkPlain(a, OpenTag + y);
    }
    assert Unmark(OpenTag + y) == Unmark(y) by {
      UnmarkTags(y);
    }
    assert Unmark(y) == b + Unmark(tail) by {
      UnmarkPlain(b, tail);
    }
    assert Unmark(tail) == Unmark(rest) by {
      UnmarkTags(rest);
    }
    assert a + (b + Unmark(rest)) == e[lastIndex..r.end] + Unmark(rest) by {
      ConcatAssoc(a, b, Unmark(rest));
      assert a + b == e[lastIndex..r.end];
    }
  }

  /** Deleting the tags from the spliced text gives back the text from `lastIndex` on. */
  lemma {:induction false} UnmarkSplice(e: string, ms: seq<Span>, lastIndex: nat)
    requires NoLt(e) && WellFormed(ms, |e|) && Separated(ms) && lastIndex <= |e|
    requires ms != [] ==> lastIndex <= ms[0].start
    ensures Unmark(SpliceFrom(e, ms, lastIndex)) == e[lastIndex..]
    decreases |ms|
  {
    if ms == [] {
      assert SpliceFrom(e, ms, lastIndex) == e[lastIndex..] + [] by {
        assert e[lastIndex..] + [] == e[lastIndex..] == e[lastIndex..|e|];
      }
      assert Unmark(e[lastIndex..] + []) == e[lastIndex..] + Unmark([]) by {
        NoLtSlice(e, lastIndex, |e|);
        assert e[lastIndex..] == e[lastIndex..|e|];
        UnmarkPlain(e[lastIndex..], []);
      }
    } else {
      var r := ms[0];
      var rest := SpliceFrom(e, ms[1..], r.end);
      assert SpliceFrom(e, ms, lastIndex) == Piece(e, lastIndex, r) + rest;
      assert Unmark(rest) == e[r.end..] by {
        assert WellFormed(ms[1..], |e|) && Separated(ms[1..]);
        UnmarkSplice(e, ms[1..], r.end);
      }
      assert Unmark(Piece(e, lastIndex, r) + rest) == e[lastIndex..r.end] + Unmark(rest) by {
        UnmarkPiece(e, lastIndex, r, rest);
      }
      SliceJoin(e, lastIndex, r.end);
    }
  }

  lemma SliceJoin(e: string, i: nat, j: nat)
    requires i <= j <= |e|
    ensures e[i..j] + e[j..] == e[i..]
  {
  }

  // ---------------------------------------------------------------------------------
  // highlightTextPlain

  /** The words of the search term: `removeDiacritics(String(searchTerm).toLowerCase())`
      split on whitespace, empty pieces dropped. */
  function SearchWords(searchTerm: string, decompose: char -> string): seq<string>
  {
    Words(Fold(searchTerm, decompose))
  }

  predicate AllWordsPresent(norm: string, words: seq<string>)
  {
    forall j :: 0 <= j < |words| ==> Contains(norm, words[j])
  }

  /** The merged spans of `text` for the search term. */
  function MarkedSpans(text: string, searchTerm: string, decompose: char -> string): seq<Span>
  {
    Merged(SortByStart(AllSpans(Fold(text, decompose), SearchWords(searchTerm, decompose), CountMask(EscapeHtml(text), CharFold(decompose)))))
  }

  /** What `highlightTextPlain(text, searchTerm)` returns. */
  function Highlighted(text: Value, searchTerm: string, decompose: char -> string): string
  {
    if searchTerm == "" || Falsy(text) then EscapeHtml(CellString(text))
    else
      var s := AsString(text);
      var words := SearchWords(searchTerm, decompose);
      if words == [] || !AllWordsPresent(Fold(s, decompose), words) then EscapeHtml(s)
      else SpliceFrom(EscapeHtml(s), MarkedSpans(s, searchTerm, decompose), 0)
  }

  method HighlightTextPlain(text: Value, searchTerm: string, decompose: char -> string) returns (r: string)
    ensures r == Highlighted(text, searchTerm, decompose)
    ensures searchTerm == "" || Falsy(text) ==> r == EscapeHtml(CellString(text))
    ensures SearchWords(searchTerm, decompose) == [] ==> r == EscapeHtml(CellString(text))
    ensures (exists j :: 0 <= j < |SearchWords(searchTerm, decompose)|
               && !Contains(Fold(AsString(text), decompose), SearchWords(searchTerm, decompose)[j]))
            ==> r == EscapeHtml(CellString(text))
    ensures Unmark(r) == EscapeHtml(CellString(text))
  {
    HighlightRoundTrip(text, searchTerm, decompose);
    if searchTerm == "" || Falsy(text) {
      return EscapeHtml(CellString(text));
    }
    var s := AsString(text);
    var escapedText := EscapeHtml(s);
    var normalizedText := Fold(s, decompose);
    var normalizedSearchTerm := Fold(searchTerm, decompose);
    var searchWords := Words(normalizedSearchTerm);
    if |searchWords| == 0 {
      return escapedText;
    }
    var allWordsPresent := forall j | 0 <= j < |searchWords| :: Contains(normalizedText, searchWords[j]);
    if !allWordsPresent {
      return escapedText;
    }
    var highlightedRanges := ScanWords(normalizedText, searchWords, escapedText, CharFold(decompose));
    highlightedRanges := SortByStart(highlightedRanges);
    var mergedRanges := MergeRanges(highlightedRanges);
    r := SpliceMarks(escapedText, mergedRanges);
  }

  /** The marked spans of any text are well-formed and separated. */
  lemma MarkedSpansShape(text: string, searchTerm: string, decompose: char -> string)
    ensures WellFormed(MarkedSpans(text, searchTerm, decompose), |EscapeHtml(text)|)
    ensures Separated(MarkedSpans(text, searchTerm, decompose))
  {
    var e := EscapeHtml(text);
    var m := CountMask(e, CharFold(decompose));
    var spans := AllSpans(Fold(text, decompose), SearchWords(searchTerm, decompose), m);
    AllSpansWellFormed(Fold(text, decompose), SearchWords(searchTerm, decompose), m);
    SortByStartProps(spans);
    SortByStartWellFormed(spans, |e|);
    MergedShape(SortByStart(spans), |e|);
  }

  /** Deleting the inserted tags gives back exactly the escaped text, for every
      text and every search term. */
  lemma HighlightRoundTrip(text: Value, searchTerm: string, decompose: char -> string)
    ensures Unmark(Highlighted(text, searchTerm, decompose)) == EscapeHtml(CellString(text))
  {
    var e := EscapeHtml(CellString(text));
    if searchTerm == "" || Falsy(text) || SearchWords(searchTerm, decompose) == []
       || !AllWordsPresent(Fold(AsString(text), decompose), SearchWords(searchTerm, decompose)) {
      UnmarkPlain(e, []);
      assert e + [] == e;
    } else {
      var s := AsString(text);
      MarkedSpansShape(s, searchTerm, decompose);
      UnmarkSplice(EscapeHtml(s), MarkedSpans(s, searchTerm, decompose), 0);
    }
  }

  /** Text on which the escaped offsets and the normalised offsets agree. */
  predicate PlainText(s: string)
  {
    Foldable(s) && forall i :: 0 <= i < |s| ==> !Special(s[i])
  }

  /** On plain text escaping changes nothing and every character counts. */
  lemma PlainTextShape(s: string, decompose: char -> string)
    requires PlainText(s)
    ensures EscapeHtml(s) == s
    ensures |Fold(s, decompose)| == |s|
    ensures forall i :: 0 <= i < |s| ==> CountMask(s, CharFold(decompose))[i]
  {
    EscapeHtmlIdentity(s);
    FoldAligned(s, decompose);
    FoldableCounts(s, decompose);
    forall i | 0 <= i < |s|
      ensures CountMask(s, CharFold(decompose))[i]
    {
      CountMaskAt(s, CharFold(decompose), i);
    }
  }

  /** A pushed span lies inside one merged span. */
  lemma SpanMarked(norm: string, words: seq<string>, m: seq<bool>, sp: Span)
    requires sp in AllSpans(norm, words, m)
    ensures Inside(sp, Merged(SortByStart(AllSpans(norm, words, m))))
  {
    var spans := AllSpans(norm, words, m);
    AllSpansWellFormed(norm, words, m);
    SortByStartProps(spans);
    SortByStartWellFormed(spans, |m|);
    var sorted := SortByStart(spans);
    MergedContains(sorted, |m|);
    assert sp in multiset(sorted);
    var i :| 0 <= i < |sorted| && sorted[i] == sp;
  }

  /** When every character counts, an occurrence `[k, k + |w|)` of a word lies
      inside a merged span. */
  lemma OccurrenceInside(norm: string, words: seq<string>, m: seq<bool>, j: nat, k: nat)
    requires forall i :: 0 <= i < |m| ==> m[i]
    requires j < |words| && OccursAt(norm, words[j], k) && |norm| <= |m|
    ensures Inside(Span(k, k + |words[j]|), Merged(SortByStart(AllSpans(norm, words, m))))
  {
    var sp := SpanAt(m, k, |words[j]|);
    PositionFromIdentity(m, k, 0);
    PositionFromIdentity(m, k + |words[j]|, 0);
    assert sp == Span(k, k + |words[j]|);
    AllSpansIff(norm, words, m, sp);
    SpanMarked(norm, words, m, sp);
  }

  /** On plain text an occurrence `[k, k + |w|)` of a search word lies inside a mark. */
  lemma OccurrenceMarked(s: string, searchTerm: string, decompose: char -> string, j: nat, k: nat)
    requires PlainText(s)
    requires j < |SearchWords(searchTerm, decompose)|
    requires OccursAt(Fold(s, decompose), SearchWords(searchTerm, decompose)[j], k)
    ensures Inside(Span(k, k + |SearchWords(searchTerm, decompose)[j]|), MarkedSpans(s, searchTerm, decompose))
  {
    PlainTextShape(s, decompose);
    OccurrenceInside(Fold(s, decompose), SearchWords(searchTerm, decompose), CountMask(s, CharFold(decompose)), j, k);
  }

  /** On text free of `&`, `<`, `>` and U+00A0 whose characters are ASCII or table
      letters, the marks are spliced into the text itself, and every occurrence
      `[k, k + |w|)` of every search word lies inside a mark. */
  lemma HighlightCoversOccurrences(text: Value, searchTerm: string, decompose: char -> string)
    requires !Falsy(text) && searchTerm != "" && PlainText(AsString(text))
    requires SearchWords(searchTerm, decompose) != []
    requires AllWordsPresent(Fold(AsString(text), decompose), SearchWords(searchTerm, decompose))
    ensures Highlighted(text, searchTerm, decompose)
            == SpliceFrom(AsString(text), MarkedSpans(AsString(text), searchTerm, decompose), 0)
    ensures forall j: nat, k: nat :: j < |SearchWords(searchTerm, decompose)|
              && OccursAt(Fold(AsString(text), decompose), SearchWords(searchTerm, decompose)[j], k)
              ==> Inside(Span(k, k + |SearchWords(searchTerm, decompose)[j]|), MarkedSpans(AsString(text), searchTerm, decompose))
  {
    var s := AsString(text);
    PlainTextShape(s, decompose);
    forall j: nat, k: nat | j < |SearchWords(searchTerm, decompose)| && OccursAt(Fold(s, decompose), SearchWords(searchTerm, decompose)[j], k)
      ensures Inside(Span(k, k + |SearchWords(searchTerm, decompose)[j]|), MarkedSpans(s, searchTerm, decompose))
    {
      OccurrenceMarked(s, searchTerm, decompose, j, k);
    }
  }
}
