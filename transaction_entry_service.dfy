/** The service layer: grouping entries into date sections, and the in-memory
    halves of loading, creating and deleting entries. */
module TransactionEntryService {
  import opened Wrappers
  import opened JsArrays
  import opened TransactionEntryInterface

  /** The date label of an entry. The application formats the entry's
      (txnYear, txnMonth, txnDay) as an en-GB date string; the model keeps that
      formatting abstract, so every property below holds for any labelling. */
  type DateLabel = TransactionEntry -> string

  /** A date formatting: (txnYear, txnMonth, txnDay) to a display string. */
  type DateFormat = (Option<int>, Option<int>, Option<int>) -> string

  /** The label the application gives an entry: its date fields, formatted.
      It looks at nothing else of the entry. */
  function DateLabelOf(fmt: DateFormat): (labelOf: DateLabel)
    ensures forall e: TransactionEntry, e': TransactionEntry ::
              e.txnYear == e'.txnYear && e.txnMonth == e'.txnMonth && e.txnDay == e'.txnDay
              ==> labelOf(e) == labelOf(e')
  {
    (e: TransactionEntry) => fmt(e.txnYear, e.txnMonth, e.txnDay)
  }

  // ---------------------------------------------------------------------------
  // Specification of the grouping
  // ---------------------------------------------------------------------------

  /** `entries.map(labelOf)`. */
  function Labels(es: seq<TransactionEntry>, labelOf: DateLabel): (ls: seq<string>)
    ensures |ls| == |es|
    ensures forall i :: 0 <= i < |es| ==> ls[i] == labelOf(es[i])
  {
    seq(|es|, i requires 0 <= i < |es| => labelOf(es[i]))
  }

  /** `[...new Set(s)]`: the distinct elements of `s`, each kept where it first
      occurs (a JavaScript Set iterates in insertion order). */
  function Distinct<T(==)>(s: seq<T>): (d: seq<T>)
    ensures forall x :: x in d ==> x in s
  {
    if s == [] then []
    else
      var d := Distinct(s[..|s| - 1]);
      if s[|s| - 1] in d then d else d + [s[|s| - 1]]
  }

  ghost predicate NoDuplicates<T>(s: seq<T>)
  {
    forall i, j :: 0 <= i < j < |s| ==> s[i] != s[j]
  }

  /** The predicate "equals `x`". */
  function EqualTo<T(==)>(x: T): T -> bool
  {
    (y: T) => y == x
  }

  /** The position where `x` first occurs in `s`: `findIndex` with an
      equality predicate. */
  function FirstPosition<T(==)>(s: seq<T>, x: T): (k: nat)
    requires x in s
    ensures k < |s| && s[k] == x
    ensures forall j :: 0 <= j < k ==> s[j] != x
  {
    var j :| 0 <= j < |s| && s[j] == x;
    assert EqualTo(x)(s[j]);
    var k := FirstIndex(s, EqualTo(x));
    assert forall i :: 0 <= i < k ==> !EqualTo(x)(s[i]);
    k
  }

  /** The entries of `es` whose label is `t`, in input order. */
  function Filter(es: seq<TransactionEntry>, labelOf: DateLabel, t: string): (f: seq<TransactionEntry>)
    ensures |f| <= |es|
  {
    if es == [] then []
    else
      Filter(es[..|es| - 1], labelOf, t)
      + (if labelOf(es[|es| - 1]) == t then [es[|es| - 1]] else [])
  }

  /** The input positions of the entries `Filter` keeps, in increasing order. */
  function MatchIndices(es: seq<TransactionEntry>, labelOf: DateLabel, t: string): seq<nat>
  {
    if es == [] then []
    else
      MatchIndices(es[..|es| - 1], labelOf, t)
      + (if labelOf(es[|es| - 1]) == t then [|es| - 1] else [])
  }

  /** One section per title, each holding the entries with that label. */
  function SectionsFor(es: seq<TransactionEntry>, labelOf: DateLabel, titles: seq<string>)
    : (ss: seq<EntriesInDateSections>)
    ensures |ss| == |titles|
  {
    if titles == [] then []
    else
      SectionsFor(es, labelOf, titles[..|titles| - 1])
      + [EntriesInDateSections(Filter(es, labelOf, titles[|titles| - 1]), titles[|titles| - 1])]
  }

  /** What `transformEntriesToDateSections(es)` returns. */
  function DateSections(es: seq<TransactionEntry>, labelOf: DateLabel): (ss: seq<EntriesInDateSections>)
    ensures |ss| <= |es|
  {
    DistinctNoLonger(Labels(es, labelOf));
    SectionsFor(es, labelOf, Distinct(Labels(es, labelOf)))
  }

  /** The titles of a list of sections. */
  function Titles(ss: seq<EntriesInDateSections>): (ts: seq<string>)
    ensures |ts| == |ss|
    ensures forall i :: 0 <= i < |ss| ==> ts[i] == ss[i].title
  {
    seq(|ss|, i requires 0 <= i < |ss| => ss[i].title)
  }

  /** All the sections' entries, section after section. */
  function Flatten(ss: seq<EntriesInDateSections>): seq<TransactionEntry>
  {
    if ss == [] then [] else Flatten(ss[..|ss| - 1]) + ss[|ss| - 1].data
  }

  /** The sum of the sizes of the sections' `data` lists. */
  function TotalSize(ss: seq<EntriesInDateSections>): nat
  {
    if ss == [] then 0 else TotalSize(ss[..|ss| - 1]) + |ss[|ss| - 1].data|
  }

  // ---------------------------------------------------------------------------
  // The grouping, as the source computes it
  // ---------------------------------------------------------------------------

  /** `transformEntriesToDateSections`: collects the distinct labels, then for
      each of them rescans all entries and pushes those that carry it. It has
      no `modifies` clause, so it cannot change the entry array it reads. */
  method TransformEntriesToDateSections(entries: JsArray<TransactionEntry>, labelOf: DateLabel)
    returns (entryByDates: seq<EntriesInDateSections>)
    ensures entryByDates == DateSections(entries.elems, labelOf)
  {
    var es := entries.elems;
    var distinctTxnDates := Distinct(Labels(es, labelOf));
    entryByDates := [];
    var i := 0;
    while i < |distinctTxnDates|
      invariant 0 <= i <= |distinctTxnDates|
      invariant entryByDates == SectionsFor(es, labelOf, distinctTxnDates[..i])
    {
      var distinctTxnDate := distinctTxnDates[i];
      var dataOnTxnDate: seq<TransactionEntry> := [];
      var j := 0;
      while j < |es|
        invariant 0 <= j <= |es|
        invariant dataOnTxnDate == Filter(es[..j], labelOf, distinctTxnDate)
      {
        if labelOf(es[j]) == distinctTxnDate {
          dataOnTxnDate := dataOnTxnDate + [es[j]];
        }
        assert es[..j + 1][..j] == es[..j];
        j := j + 1;
      }
      assert es[..j] == es;
      assert distinctTxnDates[..i + 1][..i] == distinctTxnDates[..i];
      entryByDates := entryByDates + [EntriesInDateSections(dataOnTxnDate, distinctTxnDate)];
      i := i + 1;
    }
    assert distinctTxnDates[..i] == distinctTxnDates;
  }

  // ---------------------------------------------------------------------------
  // Properties of the grouping
  // ---------------------------------------------------------------------------

  /** The distinct labels are exactly the labels that occur, with no repeats. */
  lemma {:induction false} DistinctMembers<T>(s: seq<T>)
    ensures NoDuplicates(Distinct(s))
    ensures forall x :: x in Distinct(s) <==> x in s
  {
    if s != [] {
      var p := s[..|s| - 1];
      DistinctMembers(p);
      assert s == p + [s[|s| - 1]];
    }
  }

  /** Dropping repeats never lengthens a list. */
  lemma {:induction false} DistinctNoLonger<T>(s: seq<T>)
    ensures |Distinct(s)| <= |s|
  {
    if s != [] {
      DistinctNoLonger(s[..|s| - 1]);
    }
  }

  /** Occurrences after the first do not move the first occurrence. */
  lemma FirstPositionExtend<T>(s: seq<T>, t: seq<T>, x: T)
    requires x in s
    ensures FirstPosition(s + t, x) == FirstPosition(s, x)
  {
    var q := FirstPosition(s, x);
    assert (s + t)[q] == x;
  }

  /** The distinct labels come in the order in which each first occurs. */
  lemma {:induction false} DistinctFirstOccurrenceOrder<T>(s: seq<T>)
    ensures forall x :: x in Distinct(s) ==> x in s
    ensures forall i, j :: 0 <= i < j < |Distinct(s)| ==>
              FirstPosition(s, Distinct(s)[i]) < FirstPosition(s, Distinct(s)[j])
  {
    DistinctMembers(s);
    if s != [] {
      var p, x := s[..|s| - 1], s[|s| - 1];
      assert s == p + [x];
      DistinctMembers(p);
      DistinctFirstOccurrenceOrder(p);
      var d, d' := Distinct(s), Distinct(p);
      forall i, j | 0 <= i < j < |d|
        ensures FirstPosition(s, d[i]) < FirstPosition(s, d[j])
      {
        FirstPositionExtend(p, [x], d'[i]);
        if j < |d'| {
          FirstPositionExtend(p, [x], d'[j]);
        } else {
          assert d[j] == x && x !in p;
          assert FirstPosition(s, x) == |p|;
        }
      }
    }
  }

  /** An entry is in `Filter(es, labelOf, t)` exactly when it is an input entry
      labelled `t`. */
  lemma {:induction false} FilterMembers(es: seq<TransactionEntry>, labelOf: DateLabel, t: string)
    ensures forall e :: e in Filter(es, labelOf, t) <==> e in es && labelOf(e) == t
  {
    if es != [] {
      var p := es[..|es| - 1];
      FilterMembers(p, labelOf, t);
      assert es == p + [es[|es| - 1]];
    }
  }

  /** No input entry labelled `t`, nothing kept. */
  lemma {:induction false} FilterNone(es: seq<TransactionEntry>, labelOf: DateLabel, t: string)
    requires forall e :: e in es ==> labelOf(e) != t
    ensures Filter(es, labelOf, t) == []
  {
    if es != [] {
      FilterNone(es[..|es| - 1], labelOf, t);
      assert es[|es| - 1] in es;
    }
  }

  /** `Filter` keeps the input order: its i-th entry is the input entry at
      `MatchIndices[i]`, those positions increase strictly, and they are exactly
      the positions whose entry is labelled `t`. */
  lemma {:induction false} FilterKeepsInputOrder(es: seq<TransactionEntry>, labelOf: DateLabel, t: string)
    ensures var f, idx := Filter(es, labelOf, t), MatchIndices(es, labelOf, t);
            |idx| == |f| &&
            (forall i :: 0 <= i < |idx| ==> idx[i] < |es| && f[i] == es[idx[i]]) &&
            (forall i, j :: 0 <= i < j < |idx| ==> idx[i] < idx[j]) &&
            (forall k :: 0 <= k < |es| ==> (k in idx <==> labelOf(es[k]) == t))
  {
    if es != [] {
      var p := es[..|es| - 1];
      FilterKeepsInputOrder(p, labelOf, t);
      var idx' := MatchIndices(p, labelOf, t);
      assert forall i :: 0 <= i < |idx'| ==> idx'[i] < |p|;
      forall k | 0 <= k < |p|
        ensures es[k] == p[k]
      {
      }
    }
  }

  /** Section `i` is titled with the i-th title and holds the entries so labelled. */
  lemma {:induction false} SectionsForAt(es: seq<TransactionEntry>, labelOf: DateLabel, titles: seq<string>)
    ensures |SectionsFor(es, labelOf, titles)| == |titles|
    ensures forall i :: 0 <= i < |titles| ==>
              SectionsFor(es, labelOf, titles)[i] == EntriesInDateSections(Filter(es, labelOf, titles[i]), titles[i])
  {
    if titles != [] {
      SectionsForAt(es, labelOf, titles[..|titles| - 1]);
    }
  }

  /** Dropping the last element keeps a list free of repeats. */
  lemma NoDuplicatesPrefix<T>(s: seq<T>)
    requires s != [] && NoDuplicates(s)
    ensures NoDuplicates(s[..|s| - 1])
    ensures s[|s| - 1] !in s[..|s| - 1]
  {
  }

  /** One more title adds its section's entries at the end. */
  lemma FlattenSectionsForSnoc(es: seq<TransactionEntry>, labelOf: DateLabel, ts: seq<string>, t: string)
    ensures Flatten(SectionsFor(es, labelOf, ts + [t])) == Flatten(SectionsFor(es, labelOf, ts)) + Filter(es, labelOf, t)
  {
    assert (ts + [t])[..|ts|] == ts;
    var ss := SectionsFor(es, labelOf, ts + [t]);
    assert ss[..|ss| - 1] == SectionsFor(es, labelOf, ts);
  }

  /** One more input entry is collected for its own label only. */
  lemma FilterSnoc(es: seq<TransactionEntry>, x: TransactionEntry, labelOf: DateLabel, t: string)
    ensures Filter(es + [x], labelOf, t) == Filter(es, labelOf, t) + (if labelOf(x) == t then [x] else [])
  {
    assert (es + [x])[..|es|] == es;
  }

  /** An entry whose label is none of the titles changes no section. */
  lemma {:induction false} SectionsForIgnoresOtherLabel(es: seq<TransactionEntry>, x: TransactionEntry,
                                                        labelOf: DateLabel, titles: seq<string>)
    requires labelOf(x) !in titles
    ensures SectionsFor(es + [x], labelOf, titles) == SectionsFor(es, labelOf, titles)
  {
    if titles != [] {
      var ts, t := titles[..|titles| - 1], titles[|titles| - 1];
      assert titles == ts + [t];
      assert labelOf(x) != t && labelOf(x) !in ts;
      SectionsForIgnoresOtherLabel(es, x, labelOf, ts);
      FilterSnoc(es, x, labelOf, t);
      assert Filter(es + [x], labelOf, t) == Filter(es, labelOf, t);
    }
  }

  /** An entry labelled with the last title, and with no earlier one, is
      appended to the combined contents. */
  lemma AddEntryAtLastTitle(es: seq<TransactionEntry>, x: TransactionEntry,
                            labelOf: DateLabel, titles: seq<string>)
    requires titles != [] && labelOf(x) == titles[|titles| - 1]
    requires labelOf(x) !in titles[..|titles| - 1]
    ensures Flatten(SectionsFor(es + [x], labelOf, titles)) == Flatten(SectionsFor(es, labelOf, titles)) + [x]
  {
    var ts, t := titles[..|titles| - 1], titles[|titles| - 1];
    var a, f := Flatten(SectionsFor(es, labelOf, ts)), Filter(es, labelOf, t);
    assert Flatten(SectionsFor(es, labelOf, titles)) == a + f by {
      assert titles == ts + [t];
      FlattenSectionsForSnoc(es, labelOf, ts, t);
    }
    assert Flatten(SectionsFor(es + [x], labelOf, titles)) == a + (f + [x]) by {
      assert titles == ts + [t];
      SectionsForIgnoresOtherLabel(es, x, labelOf, ts);
      FilterSnoc(es, x, labelOf, t);
      FlattenSectionsForSnoc(es + [x], labelOf, ts, t);
    }
    assert a + (f + [x]) == (a + f) + [x];
  }

  /** An entry not labelled with the last title leaves that title's section
      as it was. */
  lemma AddEntryBeforeLastTitle(es: seq<TransactionEntry>, x: TransactionEntry,
                                labelOf: DateLabel, titles: seq<string>)
    requires titles != [] && labelOf(x) != titles[|titles| - 1]
    ensures var ts, t := titles[..|titles| - 1], titles[|titles| - 1];
            Flatten(SectionsFor(es + [x], labelOf, titles)) == Flatten(SectionsFor(es + [x], labelOf, ts)) + Filter(es, labelOf, t) &&
            Flatten(SectionsFor(es, labelOf, titles)) == Flatten(SectionsFor(es, labelOf, ts)) + Filter(es, labelOf, t)
  {
    var ts, t := titles[..|titles| - 1], titles[|titles| - 1];
    assert titles == ts + [t];
    FilterSnoc(es, x, labelOf, t);
    assert Filter(es + [x], labelOf, t) == Filter(es, labelOf, t);
    FlattenSectionsForSnoc(es, labelOf, ts, t);
    FlattenSectionsForSnoc(es + [x], labelOf, ts, t);
  }

  /** An entry whose label is one of the distinct titles is added exactly once. */
  lemma {:induction false} FlattenAddEntryWithTitle(es: seq<TransactionEntry>, x: TransactionEntry,
                                                    labelOf: DateLabel, titles: seq<string>)
    requires NoDuplicates(titles) && labelOf(x) in titles
    ensures multiset(Flatten(SectionsFor(es + [x], labelOf, titles)))
            == multiset(Flatten(SectionsFor(es, labelOf, titles))) + multiset{x}
  {
    var ts, t := titles[..|titles| - 1], titles[|titles| - 1];
    NoDuplicatesPrefix(titles);
    if labelOf(x) == t {
      AddEntryAtLastTitle(es, x, labelOf, titles);
    } else {
      assert labelOf(x) in ts by {
        assert titles == ts + [t];
      }
      FlattenAddEntryWithTitle(es, x, labelOf, ts);
      AddEntryBeforeLastTitle(es, x, labelOf, titles);
      var a, a', f := Flatten(SectionsFor(es, labelOf, ts)), Flatten(SectionsFor(es + [x], labelOf, ts)), Filter(es, labelOf, t);
      assert multiset(a' + f) == multiset(a + f) + multiset{x};
    }
  }

  /** Sections titled with the labels that occur hold the entries exactly once
      each, when no title repeats: adding one entry to the input adds it once. */
  lemma FlattenAddEntry(es: seq<TransactionEntry>, x: TransactionEntry,
                        labelOf: DateLabel, titles: seq<string>)
    requires NoDuplicates(titles)
    ensures multiset(Flatten(SectionsFor(es + [x], labelOf, titles)))
            == multiset(Flatten(SectionsFor(es, labelOf, titles)))
               + (if labelOf(x) in titles then multiset{x} else multiset{})
  {
    if labelOf(x) in titles {
      FlattenAddEntryWithTitle(es, x, labelOf, titles);
    } else {
      SectionsForIgnoresOtherLabel(es, x, labelOf, titles);
    }
  }

  /** With no input entries every section is empty. */
  lemma {:induction false} FlattenNoEntries(labelOf: DateLabel, titles: seq<string>)
    ensures Flatten(SectionsFor([], labelOf, titles)) == []
  {
    if titles != [] {
      FlattenNoEntries(labelOf, titles[..|titles| - 1]);
    }
  }

  /** Sections over distinct titles that cover every entry's label together
      hold each input entry exactly as often as the input does. */
  lemma {:induction false} FlattenIsPermutation(es: seq<TransactionEntry>, labelOf: DateLabel, titles: seq<string>)
    requires NoDuplicates(titles)
    requires forall e :: e in es ==> labelOf(e) in titles
    ensures multiset(Flatten(SectionsFor(es, labelOf, titles))) == multiset(es)
  {
    if es == [] {
      FlattenNoEntries(labelOf, titles);
    } else {
      var p, x := es[..|es| - 1], es[|es| - 1];
      assert es == p + [x];
      FlattenIsPermutation(p, labelOf, titles);
      FlattenAddEntry(p, x, labelOf, titles);
    }
  }

  /** `TotalSize` counts the flattened entries. */
  lemma {:induction false} TotalSizeIsFlattenLength(ss: seq<EntriesInDateSections>)
    ensures TotalSize(ss) == |Flatten(ss)|
  {
    if ss != [] {
      TotalSizeIsFlattenLength(ss[..|ss| - 1]);
    }
  }

  /** The grouping is a complete partition of the input: together the sections
      hold every input entry exactly as often as the input does, so their sizes
      add up to the input length. */
  lemma DateSectionsPartition(es: seq<TransactionEntry>, labelOf: DateLabel)
    ensures multiset(Flatten(DateSections(es, labelOf))) == multiset(es)
    ensures TotalSize(DateSections(es, labelOf)) == |es|
  {
    var ls := Labels(es, labelOf);
    DistinctMembers(ls);
    forall e | e in es
      ensures labelOf(e) in Distinct(ls)
    {
      var k :| 0 <= k < |es| && es[k] == e;
      assert ls[k] == labelOf(e);
    }
    FlattenIsPermutation(es, labelOf, Distinct(ls));
    TotalSizeIsFlattenLength(DateSections(es, labelOf));
    assert |multiset(Flatten(DateSections(es, labelOf)))| == |multiset(es)|;
  }

  /** Every section of the grouping holds at least one entry. */
  lemma DateSectionsNonEmpty(es: seq<TransactionEntry>, labelOf: DateLabel)
    ensures forall i :: 0 <= i < |DateSections(es, labelOf)| ==> |DateSections(es, labelOf)[i].data| > 0
  {
    var ls := Labels(es, labelOf);
    var d := Distinct(ls);
    var ss := DateSections(es, labelOf);
    DistinctMembers(ls);
    SectionsForAt(es, labelOf, d);
    forall i | 0 <= i < |ss|
      ensures |ss[i].data| > 0
    {
      assert d[i] in d;
      var k :| 0 <= k < |ls| && ls[k] == d[i];
      FilterMembers(es, labelOf, d[i]);
      assert es[k] in Filter(es, labelOf, d[i]);
    }
  }

  /** The section titles are the distinct labels of the input, no title repeats,
      they are ordered by where each label first occurs, and every section has
      at least one entry. */
  lemma DateSectionsTitles(es: seq<TransactionEntry>, labelOf: DateLabel)
    ensures var ss := DateSections(es, labelOf);
            (forall t :: t in Titles(ss) <==> t in Labels(es, labelOf)) &&
            NoDuplicates(Titles(ss)) &&
            (forall i, j :: 0 <= i < j < |ss| ==>
               FirstPosition(Labels(es, labelOf), ss[i].title) < FirstPosition(Labels(es, labelOf), ss[j].title)) &&
            (forall i :: 0 <= i < |ss| ==> |ss[i].data| > 0)
  {
    var ls := Labels(es, labelOf);
    var d := Distinct(ls);
    var ss := DateSections(es, labelOf);
    DistinctMembers(ls);
    DistinctFirstOccurrenceOrder(ls);
    SectionsForAt(es, labelOf, d);
    assert Titles(ss) == d;
    DateSectionsNonEmpty(es, labelOf);
  }

  /** Every input entry lies in exactly one section, the one titled with its label;
      and each section holds exactly the input entries with its title as label. */
  lemma DateSectionsMembership(es: seq<TransactionEntry>, labelOf: DateLabel)
    ensures var ss := DateSections(es, labelOf);
            (forall i, e :: 0 <= i < |ss| ==> (e in ss[i].data <==> e in es && labelOf(e) == ss[i].title)) &&
            (forall e :: e in es ==> exists i :: 0 <= i < |ss| && ss[i].title == labelOf(e) && e in ss[i].data) &&
            (forall i, j, e :: 0 <= i < |ss| && 0 <= j < |ss| && e in ss[i].data && e in ss[j].data ==> i == j)
  {
    var ls := Labels(es, labelOf);
    var d := Distinct(ls);
    var ss := DateSections(es, labelOf);
    DistinctMembers(ls);
    SectionsForAt(es, labelOf, d);
    forall i | 0 <= i < |ss|
      ensures forall e :: e in ss[i].data <==> e in es && labelOf(e) == ss[i].title
    {
      FilterMembers(es, labelOf, d[i]);
    }
    forall e | e in es
      ensures exists i :: 0 <= i < |ss| && ss[i].title == labelOf(e) && e in ss[i].data
    {
      var k :| 0 <= k < |es| && es[k] == e;
      assert ls[k] == labelOf(e) && ls[k] in ls;
      var i :| 0 <= i < |d| && d[i] == labelOf(e);
      assert ss[i].title == labelOf(e) && e in ss[i].data;
    }
  }
  /** Entries with the same date fields land in the same section. */
  lemma SameDateSameSection(es: seq<TransactionEntry>, fmt: DateFormat, e: TransactionEntry, e': TransactionEntry, i: nat)
    requires e in es && e' in es
    requires e.txnYear == e'.txnYear && e.txnMonth == e'.txnMonth && e.txnDay == e'.txnDay
    requires i < |DateSections(es, DateLabelOf(fmt))| && e in DateSections(es, DateLabelOf(fmt))[i].data
    ensures e' in DateSections(es, DateLabelOf(fmt))[i].data
  {
    DateSectionsMembership(es, DateLabelOf(fmt));
  }


  /** Within each section the entries keep their relative input order: the
      section's data is the input restricted to the strictly increasing
      positions whose entry carries the section's title. */
  lemma DateSectionsKeepInputOrder(es: seq<TransactionEntry>, labelOf: DateLabel, i: nat)
    requires i < |DateSections(es, labelOf)|
    ensures var s, idx := DateSections(es, labelOf)[i], MatchIndices(es, labelOf, DateSections(es, labelOf)[i].title);
            |idx| == |s.data| &&
            (forall n :: 0 <= n < |idx| ==> idx[n] < |es| && s.data[n] == es[idx[n]]) &&
            (forall m, n :: 0 <= m < n < |idx| ==> idx[m] < idx[n]) &&
            (forall k :: 0 <= k < |es| ==> (k in idx <==> labelOf(es[k]) == s.title))
  {
    var d := Distinct(Labels(es, labelOf));
    SectionsForAt(es, labelOf, d);
    FilterKeepsInputOrder(es, labelOf, d[i]);
  }

  /** Pushing one entry regroups incrementally: when its label already has a
      section, the entry is appended to that section and nothing else changes;
      otherwise a new section holding just the entry is added at the end. */
lemma DateSectionsAfterPush(es: seq<TransactionEntry>, x: TransactionEntry, labelOf: DateLabel)
    ensures var before, after := DateSections(es, labelOf), DateSections(es + [x], labelOf);
            (labelOf(x) in Labels(es, labelOf) ==>
               |after| == |before| &&
               forall i :: 0 <= i < |before| ==>
                 after[i] == EntriesInDateSections(
                   before[i].data + (if before[i].title == labelOf(x) then [x] else []), before[i].title)) &&
            (labelOf(x) !in Labels(es, labelOf) ==>
               after == before + [EntriesInDateSections([x], labelOf(x))])
  {
    if labelOf(x) in Labels(es, labelOf) {
      DateSectionsAfterPushKnownLabel(es, x, labelOf);
    } else {
      DateSectionsAfterPushNewLabel(es, x, labelOf);
    }
  }

  /** Pushing an entry whose label already occurs appends it to that label's
      section and changes nothing else. */
  lemma DateSectionsAfterPushKnownLabel(es: seq<TransactionEntry>, x: TransactionEntry, labelOf: DateLabel)
    requires labelOf(x) in Labels(es, labelOf)
    ensures var before, after := DateSections(es, labelOf), DateSections(es + [x], labelOf);
            |after| == |before| &&
            forall i :: 0 <= i < |before| ==>
              after[i] == EntriesInDateSections(
                before[i].data + (if before[i].title == labelOf(x) then [x] else []), before[i].title)
  {
    var ls, lx := Labels(es, labelOf), labelOf(x);
    var d := Distinct(ls);
    assert Labels(es + [x], labelOf) == ls + [lx];
    assert (ls + [lx])[..|ls|] == ls;
    DistinctMembers(ls);
    assert Distinct(ls + [lx]) == d;
    SectionsForAt(es, labelOf, d);
    SectionsForAt(es + [x], labelOf, d);
    forall i | 0 <= i < |d|
      ensures Filter(es + [x], labelOf, d[i]) == Filter(es, labelOf, d[i]) + (if d[i] == lx then [x] else [])
    {
      FilterSnoc(es, x, labelOf, d[i]);
    }
  }

  /** Pushing an entry with a new label adds a one-entry section at the end. */
  lemma DateSectionsAfterPushNewLabel(es: seq<TransactionEntry>, x: TransactionEntry, labelOf: DateLabel)
    requires labelOf(x) !in Labels(es, labelOf)
    ensures DateSections(es + [x], labelOf) == DateSections(es, labelOf) + [EntriesInDateSections([x], labelOf(x))]
  {
    var ls, lx := Labels(es, labelOf), labelOf(x);
    var d := Distinct(ls);
    assert DateSections(es + [x], labelOf) == SectionsFor(es + [x], labelOf, d + [lx]) by {
      assert Labels(es + [x], labelOf) == ls + [lx];
      assert (ls + [lx])[..|ls|] == ls;
      DistinctMembers(ls);
    }
    assert SectionsFor(es + [x], labelOf, d) == SectionsFor(es, labelOf, d) by {
      DistinctMembers(ls);
      SectionsForIgnoresOtherLabel(es, x, labelOf, d);
    }
    assert Filter(es + [x], labelOf, lx) == [x] by {
      forall e | e in es
        ensures labelOf(e) != lx
      {
        var k :| 0 <= k < |es| && es[k] == e;
        assert ls[k] == labelOf(e);
      }
      FilterNone(es, labelOf, lx);
      FilterSnoc(es, x, labelOf, lx);
    }
    assert (d + [lx])[..|d|] == d;
  }



  /** The first two entries of the worked example, on different dates, give
      one section each. */
  lemma GroupingExamplePrefix(coffee: TransactionEntry, salary: TransactionEntry, labelOf: DateLabel)
    requires labelOf(coffee) != labelOf(salary)
    ensures DateSections([coffee, salary], labelOf)
            == [EntriesInDateSections([coffee], labelOf(coffee)),
                EntriesInDateSections([salary], labelOf(salary))]
  {
    DateSectionsAfterPush([], coffee, labelOf);
    assert [] + [coffee] == [coffee];
    assert DateSections([coffee], labelOf) == [EntriesInDateSections([coffee], labelOf(coffee))];
    DateSectionsAfterPush([coffee], salary, labelOf);
    assert [coffee] + [salary] == [coffee, salary];
    assert Labels([coffee], labelOf) == [labelOf(coffee)];
  }

  /** The worked example of the grouping: two entries on one date around one
      on another give two sections, the first holding the two in input order. */
  lemma GroupingExample(coffee: TransactionEntry, salary: TransactionEntry, tea: TransactionEntry,
                        labelOf: DateLabel)
    requires labelOf(coffee) == labelOf(tea) != labelOf(salary)
    ensures DateSections([coffee, salary, tea], labelOf)
            == [EntriesInDateSections([coffee, tea], labelOf(coffee)),
                EntriesInDateSections([salary], labelOf(salary))]
  {
    var c, sl := labelOf(coffee), labelOf(salary);
    GroupingExamplePrefix(coffee, salary, labelOf);
    DateSectionsAfterPush([coffee, salary], tea, labelOf);
    assert [coffee, salary] + [tea] == [coffee, salary, tea];
    assert Labels([coffee, salary], labelOf)[0] == labelOf(tea);
    var three := DateSections([coffee, salary, tea], labelOf);
    assert three[0] == EntriesInDateSections([coffee] + [tea], c);
    assert three[1] == EntriesInDateSections([salary] + [], sl);
    assert [coffee] + [tea] == [coffee, tea] && [salary] + [] == [salary];
  }

  /** No entries, no sections. */
  lemma DateSectionsOfEmpty(labelOf: DateLabel)
    ensures DateSections([], labelOf) == []
  {
  }

  // ---------------------------------------------------------------------------
  // In-memory list updates after persistence
  // ---------------------------------------------------------------------------

  /** The `findIndex` predicate of the delete: `entry.id === id`. An entry
      without an id never matches. */
  function MatchesId(id: int): (p: TransactionEntry -> bool)
    ensures forall e :: p(e) <==> e.id.Some? && e.id.value == id
  {
    (e: TransactionEntry) => e.id == Some(id)
  }

  /** The entry list after the delete's `splice(findIndex(...), 1)`, as written. */
  function AfterDelete(s: seq<TransactionEntry>, id: int): (r: seq<TransactionEntry>)
    ensures |r| == if s == [] then 0 else |s| - 1
    ensures multiset(r) <= multiset(s)
  {
    SpliceReassembles(s, FirstIndex(s, MatchesId(id)), 1);
    Spliced(s, FirstIndex(s, MatchesId(id)), 1)
  }

  /** When some entry has the id, exactly the first such entry is removed and
      the others keep their order. */
  lemma AfterDeleteFound(s: seq<TransactionEntry>, id: int, k: nat)
    requires k < |s| && s[k].id == Some(id)
    requires forall j :: 0 <= j < k ==> s[j].id != Some(id)
    ensures AfterDelete(s, id) == s[..k] + s[k + 1..]
  {
    assert MatchesId(id)(s[k]);
    SpliceOneAt(s, k);
  }

  /** When no entry has the id, `findIndex` yields -1 and `splice(-1, 1)`
      removes the LAST entry of a non-empty list. */
  lemma AfterDeleteMissing(s: seq<TransactionEntry>, id: int)
    requires forall e :: e in s ==> e.id != Some(id)
    ensures s != [] ==> AfterDelete(s, id) == s[..|s| - 1]
    ensures s == [] ==> AfterDelete(s, id) == []
  {
    var p := MatchesId(id);
    forall j | 0 <= j < |s|
      ensures !p(s[j])
    {
      assert s[j] in s;
    }
    assert FirstIndex(s, p) == -1;
    if s != [] {
      SpliceMinusOneRemovesLast(s);
    }
  }

  /** A delete for an id that is not in the list: the evidently intended
      in-memory update, which leaves the list alone. */
  function AfterDeleteCorrected(s: seq<TransactionEntry>, id: int): (r: seq<TransactionEntry>)
    ensures (forall i :: 0 <= i < |s| ==> s[i].id != Some(id)) ==> r == s
    ensures (exists i :: 0 <= i < |s| && s[i].id == Some(id)) ==> |r| == |s| - 1
    ensures multiset(r) <= multiset(s)
  {
    SpliceReassembles(s, FirstIndex(s, MatchesId(id)), 1);
    var k := FirstIndex(s, MatchesId(id));
    if k < 0 then s else Spliced(s, k, 1)
  }

  /** The corrected update is a no-op when no entry has the id. */
  lemma AfterDeleteCorrectedMissing(s: seq<TransactionEntry>, id: int)
    requires forall e :: e in s ==> e.id != Some(id)
    ensures AfterDeleteCorrected(s, id) == s
  {
    var p := MatchesId(id);
    forall j | 0 <= j < |s|
      ensures !p(s[j])
    {
      assert s[j] in s;
    }
  }

  /** When some entry has the id, the corrected update agrees with the
      original: it removes the first entry with the id. */
  lemma AfterDeleteCorrectedFound(s: seq<TransactionEntry>, id: int, k: nat)
    requires k < |s| && s[k].id == Some(id)
    requires forall j :: 0 <= j < k ==> s[j].id != Some(id)
    ensures AfterDeleteCorrected(s, id) == AfterDelete(s, id) == s[..k] + s[k + 1..]
  {
    assert MatchesId(id)(s[k]);
    AfterDeleteFound(s, id, k);
  }

  /** The discrepancy on a concrete list: deleting id 2 from a list holding
      only the entry with id 1 removes that unrelated entry. */
  lemma DeleteMissingIdRemovesUnrelatedEntry()
    ensures var one := TransactionEntry(Some(1), Some(1), Some(0), Some(2021), Some("Coffee"), Some(3.0), Some(true));
            AfterDelete([one], 2) == [] && AfterDeleteCorrected([one], 2) == [one]
  {
    var one := TransactionEntry(Some(1), Some(1), Some(0), Some(2021), Some("Coffee"), Some(3.0), Some(true));
    AfterDeleteMissing([one], 2);
    AfterDeleteCorrectedMissing([one], 2);
  }

  /** `getTransactionEntries`: on success the state gets the freshly found
      array and keeps `onAddEntry`; if `find` throws, the state stays. */
  method GetTransactionEntries(found: Outcome<seq<TransactionEntry>>, state: State) returns (next: State)
    ensures found.Threw? ==> next == state
    ensures found.Returned? ==>
              fresh(next.transactionEntries) && next.transactionEntries.elems == found.value &&
              next.onAddEntry == state.onAddEntry
  {
    if found.Threw? {
      return state;
    }
    var transactionEntries := new JsArray(found.value);
    next := state.(transactionEntries := transactionEntries);
  }

  /** `createTransactionEntry`: once `save` returns the saved entry, it is
      pushed onto the state's own array (shared by the old and the new state)
      and the add-entry panel closes; if `save` throws, nothing changes. */
  method CreateTransactionEntry(saved: Outcome<TransactionEntry>, state: State) returns (next: State)
    modifies state.transactionEntries
    ensures saved.Threw? ==> next == state && unchanged(state.transactionEntries)
    ensures saved.Returned? ==>
              next == State(state.transactionEntries, false) &&
              state.transactionEntries.elems == old(state.transactionEntries.elems) + [saved.value]
  {
    if saved.Threw? {
      return state;
    }
    var transactionEntries := state.transactionEntries;
    var _ := transactionEntries.Push(saved.value);
    next := state.(transactionEntries := transactionEntries, onAddEntry := false);
  }

  /** `deleteTransactionEntry`, as written: once the repository delete returns,
      the first entry with the id is spliced out of the state's own array, and
      when there is none `splice(-1, 1)` removes the last entry. If the delete
      throws, nothing changes. */
  method DeleteTransactionEntry(id: int, deleted: Outcome<()>, state: State) returns (next: State)
    modifies state.transactionEntries
    ensures next == state
    ensures deleted.Threw? ==> unchanged(state.transactionEntries)
    ensures deleted.Returned? ==>
              state.transactionEntries.elems == AfterDelete(old(state.transactionEntries.elems), id)
  {
    if deleted.Threw? {
      return state;
    }
    var currentEntries := state.transactionEntries;
    var index := currentEntries.FindIndex(MatchesId(id));
    var _ := currentEntries.Splice(index, 1);
    next := state.(transactionEntries := currentEntries);
  }

  /** `deleteTransactionEntry` with the missing-id case treated as a no-op. */
  method DeleteTransactionEntryCorrected(id: int, deleted: Outcome<()>, state: State) returns (next: State)
    modifies state.transactionEntries
    ensures next == state
    ensures deleted.Threw? ==> unchanged(state.transactionEntries)
    ensures deleted.Returned? ==>
              state.transactionEntries.elems == AfterDeleteCorrected(old(state.transactionEntries.elems), id)
  {
    if deleted.Threw? {
      return state;
    }
    var currentEntries := state.transactionEntries;
    var index := currentEntries.FindIndex(MatchesId(id));
    if index >= 0 {
      var _ := currentEntries.Splice(index, 1);
    }
    next := state.(transactionEntries := currentEntries);
  }
}
