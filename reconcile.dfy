/**
 * hds.extract_fragments: reads the newest fragment number out of the
 * inspector's text and reconciles a live stream's window of fragment
 * descriptors with it, backfilling the numbers it skipped; the non-live
 * branch converts every fragment record into a descriptor.
 */
module Reconcile {
  import opened Wrappers
  import opened PyText
  import opened RunTable

  /** One dict of a live stream's window. */
  datatype Descriptor = Descriptor(segment: string, fragment: int, duration: int, discontinuity: int, pulled: bool)

  /** The list of descriptors (check_frag, frag_list) that callers share and grow in place. */
  class FragmentWindow {
    var entries: seq<Descriptor>

    constructor (initial: seq<Descriptor>)
      ensures entries == initial
    {
      entries := initial;
    }

    /** list.append */
    method Append(d: Descriptor)
      modifies this
      ensures entries == old(entries) + [d]
    {
      entries := entries + [d];
    }

    /** entries[i].update({'pulled': True}) */
    method MarkPulled(i: nat)
      requires i < |entries|
      modifies this
      ensures entries == old(entries)[i := old(entries)[i].(pulled := true)]
    {
      entries := entries[i := entries[i].(pulled := true)];
    }
  }

  /** Some descriptor of the window carries fragment number frag. */
  predicate HasFragment(window: seq<Descriptor>, frag: int)
  {
    exists i :: 0 <= i < |window| && window[i].fragment == frag
  }

  /** hds.check_for_dups: scans the window and answers as soon as a descriptor carries frag. */
  method CheckForDups(frag: int, arr: seq<Descriptor>) returns (r: bool)
    ensures r <==> HasFragment(arr, frag)
  {
    for i := 0 to |arr|
      invariant forall k :: 0 <= k < i ==> arr[k].fragment != frag
    {
      if arr[i].fragment == frag {
        return true;
      }
    }
    return false;
  }

  lemma HasFragmentAppend(a: seq<Descriptor>, b: seq<Descriptor>, frag: int)
    ensures HasFragment(a + b, frag) <==> HasFragment(a, frag) || HasFragment(b, frag)
  {
    if HasFragment(a, frag) {
      var i :| 0 <= i < |a| && a[i].fragment == frag;
      assert (a + b)[i] == a[i];
    }
    if HasFragment(b, frag) {
      var i :| 0 <= i < |b| && b[i].fragment == frag;
      assert (a + b)[|a| + i] == b[i];
    }
    if HasFragment(a + b, frag) {
      var i :| 0 <= i < |a + b| && (a + b)[i].fragment == frag;
      if i >= |a| {
        assert b[i - |a|] == (a + b)[i];
      } else {
        assert a[i] == (a + b)[i];
      }
    }
  }

  /** No fragment number of the window lies outside lo..hi. */
  lemma HasFragmentInRange(window: seq<Descriptor>, frag: int, lo: int, hi: int)
    requires forall k :: 0 <= k < |window| ==> lo <= window[k].fragment <= hi
    requires HasFragment(window, frag)
    ensures lo <= frag <= hi
  {
  }

  /** The window is ordered by fragment number. */
  predicate SortedByFragment(w: seq<Descriptor>)
  {
    forall i, j :: 0 <= i < j < |w| ==> w[i].fragment <= w[j].fragment
  }

  /** No two descriptors of the window carry the same fragment number. */
  predicate UniqueFragments(w: seq<Descriptor>)
  {
    forall i, j :: 0 <= i < j < |w| ==> w[i].fragment != w[j].fragment
  }

  /** Insert d after every descriptor whose number is not greater: one step of a stable sort. */
  function InsertByFragment(d: Descriptor, s: seq<Descriptor>): (r: seq<Descriptor>)
    ensures multiset(r) == multiset(s) + multiset{d}
  {
    if |s| == 0 then [d]
    else if d.fragment < s[0].fragment then [d] + s
    else
      assert s == [s[0]] + s[1..];
      [s[0]] + InsertByFragment(d, s[1..])
  }

  /** Inserting into a sorted window keeps it sorted; the first element is d or the old first. */
  lemma {:induction false} InsertSorted(d: Descriptor, s: seq<Descriptor>)
    requires SortedByFragment(s)
    ensures SortedByFragment(InsertByFragment(d, s))
    ensures var r := InsertByFragment(d, s); |r| > 0 && (r[0] == d || (|s| > 0 && r[0] == s[0]))
  {
    if |s| == 0 {
      assert InsertByFragment(d, s) == [d];
    } else if d.fragment < s[0].fragment {
      var r := [d] + s;
      assert InsertByFragment(d, s) == r;
      forall i, j | 0 <= i < j < |r| ensures r[i].fragment <= r[j].fragment {
        assert r[j] == s[j - 1];
        if i > 0 {
          assert r[i] == s[i - 1];
        }
      }
    } else {
      var tail := s[1..];
      assert SortedByFragment(tail) by {
        forall i, j | 0 <= i < j < |tail| ensures tail[i].fragment <= tail[j].fragment {
          assert tail[i] == s[i + 1] && tail[j] == s[j + 1];
        }
      }
      InsertSorted(d, tail);
      var rest := InsertByFragment(d, tail);
      assert s[0].fragment <= rest[0].fragment by {
        if rest[0] != d {
          assert rest[0] == s[1];
        }
      }
      var r := [s[0]] + rest;
      assert InsertByFragment(d, s) == r;
      forall i, j | 0 <= i < j < |r| ensures r[i].fragment <= r[j].fragment {
        assert r[j] == rest[j - 1];
        if i > 0 {
          assert r[i] == rest[i - 1];
        } else {
          assert rest[0].fragment <= rest[j - 1].fragment;
        }
      }
    }
  }

  /** sorted(window, key=lambda k: k['fragment']): a stable insertion sort. */
  function SortByFragment(s: seq<Descriptor>): (r: seq<Descriptor>)
    ensures SortedByFragment(r)
    ensures multiset(r) == multiset(s)
  {
    if |s| == 0 then []
    else
      assert s == s[..|s| - 1] + [s[|s| - 1]];
      var sorted := SortByFragment(s[..|s| - 1]);
      InsertSorted(s[|s| - 1], sorted);
      InsertByFragment(s[|s| - 1], sorted)
  }

  /** Two windows holding the same descriptors hold the same fragment numbers. */
  lemma SameDescriptorsSameFragments(a: seq<Descriptor>, b: seq<Descriptor>, f: int)
    requires multiset(a) == multiset(b)
    ensures HasFragment(a, f) <==> HasFragment(b, f)
  {
    if HasFragment(a, f) {
      var i :| 0 <= i < |a| && a[i].fragment == f;
      assert a[i] in multiset(b);
      var j :| 0 <= j < |b| && b[j] == a[i];
    }
    if HasFragment(b, f) {
      var j :| 0 <= j < |b| && b[j].fragment == f;
      assert b[j] in multiset(a);
      var i :| 0 <= i < |a| && a[i] == b[j];
    }
  }

  /** A window with a descriptor in front is unique exactly when the rest is and lacks its number. */
  lemma UniqueCons(x: Descriptor, s: seq<Descriptor>)
    ensures UniqueFragments([x] + s) <==> UniqueFragments(s) && !HasFragment(s, x.fragment)
  {
    var w := [x] + s;
    assert forall i :: 0 <= i < |s| ==> w[i + 1] == s[i];
    if UniqueFragments(w) {
      forall i, j | 0 <= i < j < |s| ensures s[i].fragment != s[j].fragment {
        assert w[i + 1] == s[i] && w[j + 1] == s[j];
      }
      forall i | 0 <= i < |s| ensures s[i].fragment != x.fragment {
        assert w[0] == x && w[i + 1] == s[i];
      }
    }
    if UniqueFragments(s) && !HasFragment(s, x.fragment) {
      forall i, j | 0 <= i < j < |w| ensures w[i].fragment != w[j].fragment {
        if i > 0 {
          assert w[i] == s[i - 1] && w[j] == s[j - 1];
        } else {
          assert w[j] == s[j - 1];
        }
      }
    }
  }

  /** Inserting a descriptor whose number is new keeps the numbers unique. */
  lemma {:induction false} InsertKeepsUnique(d: Descriptor, s: seq<Descriptor>)
    requires UniqueFragments(s) && !HasFragment(s, d.fragment)
    ensures UniqueFragments(InsertByFragment(d, s))
  {
    if |s| == 0 {
      assert InsertByFragment(d, s) == [d];
    } else if d.fragment < s[0].fragment {
      UniqueCons(d, s);
    } else {
      var rest := InsertByFragment(d, s[1..]);
      assert s == [s[0]] + s[1..];
      UniqueCons(s[0], s[1..]);
      HasFragmentAppend([s[0]], s[1..], d.fragment);
      InsertKeepsUnique(d, s[1..]);
      assert multiset(rest) == multiset(s[1..] + [d]);
      SameDescriptorsSameFragments(rest, s[1..] + [d], s[0].fragment);
      HasFragmentAppend(s[1..], [d], s[0].fragment);
      UniqueCons(s[0], rest);
    }
  }

  /** Sorting keeps fragment numbers unique. */
  lemma {:induction false} SortKeepsUnique(s: seq<Descriptor>)
    requires UniqueFragments(s)
    ensures UniqueFragments(SortByFragment(s))
  {
    if |s| > 0 {
      var init := s[..|s| - 1];
      var last := s[|s| - 1];
      assert s == init + [last];
      SortKeepsUnique(init);
      assert !HasFragment(SortByFragment(init), last.fragment) by {
        SameDescriptorsSameFragments(init, SortByFragment(init), last.fragment);
      }
      InsertKeepsUnique(last, SortByFragment(init));
    }
  }

  /** Inserting a descriptor at least as large as all others appends it. */
  lemma {:induction false} InsertLargest(d: Descriptor, s: seq<Descriptor>)
    requires forall k :: 0 <= k < |s| ==> s[k].fragment <= d.fragment
    ensures InsertByFragment(d, s) == s + [d]
  {
    if |s| > 0 {
      InsertLargest(d, s[1..]);
      assert s == [s[0]] + s[1..];
    }
  }

  /** Sorting a window that is already in order leaves it as it is: sorted is stable. */
  lemma {:induction false} SortSortedIsIdentity(s: seq<Descriptor>)
    requires SortedByFragment(s)
    ensures SortByFragment(s) == s
  {
    if |s| > 0 {
      var init := s[..|s| - 1];
      var last := s[|s| - 1];
      assert SortedByFragment(init) by {
        forall i, j | 0 <= i < j < |init| ensures init[i].fragment <= init[j].fragment {
          assert init[i] == s[i] && init[j] == s[j];
        }
      }
      SortSortedIsIdentity(init);
      forall k | 0 <= k < |init| ensures init[k].fragment <= last.fragment {
        assert init[k] == s[k];
      }
      InsertLargest(last, init);
      assert SortByFragment(s) == InsertByFragment(last, SortByFragment(init));
    }
  }

  /** The descriptors of the window that carry number f, in window order. */
  function WithFragment(s: seq<Descriptor>, f: int): (r: seq<Descriptor>)
  {
    if |s| == 0 then [] else (if s[0].fragment == f then [s[0]] else []) + WithFragment(s[1..], f)
  }

  lemma {:induction false} WithFragmentAppend(a: seq<Descriptor>, b: seq<Descriptor>, f: int)
    ensures WithFragment(a + b, f) == WithFragment(a, f) + WithFragment(b, f)
  {
    if |a| == 0 {
      assert a + b == b;
    } else {
      var head := if a[0].fragment == f then [a[0]] else [];
      var ab := a + b;
      assert ab[0] == a[0] && ab[1..] == a[1..] + b;
      assert WithFragment(ab, f) == head + WithFragment(a[1..] + b, f);
      WithFragmentAppend(a[1..], b, f);
      assert WithFragment(a, f) == head + WithFragment(a[1..], f);
    }
  }

  lemma {:induction false} WithFragmentAbove(s: seq<Descriptor>, f: int)
    requires forall k :: 0 <= k < |s| ==> s[k].fragment > f
    ensures WithFragment(s, f) == []
  {
    if |s| > 0 {
      WithFragmentAbove(s[1..], f);
    }
  }

  /** An insertion step puts d after every descriptor of a sorted window that carries its number. */
  lemma {:induction false} InsertKeepsOrder(d: Descriptor, s: seq<Descriptor>, f: int)
    requires SortedByFragment(s)
    ensures WithFragment(InsertByFragment(d, s), f) == WithFragment(s, f) + (if d.fragment == f then [d] else [])
  {
    if |s| == 0 {
      assert InsertByFragment(d, s) == [d];
      assert [d][1..] == [];
    } else if d.fragment < s[0].fragment {
      var r := [d] + s;
      assert InsertByFragment(d, s) == r;
      assert r[1..] == s;
      if d.fragment == f {
        WithFragmentAbove(s, f);
      }
    } else {
      var tail := s[1..];
      assert SortedByFragment(tail) by {
        forall i, j | 0 <= i < j < |tail| ensures tail[i].fragment <= tail[j].fragment {
          assert tail[i] == s[i + 1] && tail[j] == s[j + 1];
        }
      }
      var head := if s[0].fragment == f then [s[0]] else [];
      var rest := InsertByFragment(d, tail);
      var r := [s[0]] + rest;
      assert InsertByFragment(d, s) == r;
      assert r[0] == s[0] && r[1..] == rest;
      assert WithFragment(r, f) == head + WithFragment(rest, f);
      assert WithFragment(s, f) == head + WithFragment(tail, f);
      InsertKeepsOrder(d, tail, f);
    }
  }

  /**
   * sorted is stable: for every fragment number, the descriptors carrying it
   * come out of the sort in the order they went in.
   */
  lemma {:induction false} SortStable(s: seq<Descriptor>, f: int)
    ensures WithFragment(SortByFragment(s), f) == WithFragment(s, f)
  {
    if |s| > 0 {
      var init := s[..|s| - 1];
      var last := s[|s| - 1];
      var tail := if last.fragment == f then [last] else [];
      assert WithFragment([last], f) == tail by {
        assert [last][1..] == [];
      }
      assert WithFragment(s, f) == WithFragment(init, f) + tail by {
        assert s == init + [last];
        WithFragmentAppend(init, [last], f);
      }
      var sortedInit := SortByFragment(init);
      assert SortByFragment(s) == InsertByFragment(last, sortedInit);
      SortStable(init, f);
      InsertKeepsOrder(last, sortedInit, f);
    }
  }

  /** The parts extract_fragments works on once both sections are cut out of the lines. */
  datatype Tables = Tables(segments: seq<string>, fragments: seq<string>, residual: seq<string>)

  /** extract_segment_section, then extract_fragment_section on what is left. */
  function CutTables(lines: seq<string>): (r: Tables)
  {
    var rest := WithoutSegmentSection(lines);
    Tables(SegmentSection(lines), FragmentSection(rest), WithoutFragmentSection(rest))
  }

  /** Everything the live branch reads from the tables without raising IndexError or ValueError. */
  predicate LiveTablesOk(t: Tables)
  {
    |t.segments| > 0 &&
    (forall i :: 0 <= i < |t.segments| ==> SegmentRecordOk(t.segments[i])) &&
    SegmentNumberOk(t.segments[|t.segments| - 1]) &&
    |t.fragments| > 0 && FragmentRecordsOk(t.fragments)
  }

  /** The fragment table parsed record by record. */
  function Entries(records: seq<string>): (r: seq<FragmentEntry>)
    requires FragmentRecordsOk(records)
    ensures |r| == |records|
    ensures forall i :: 0 <= i < |records| ==> r[i] == ParseFragmentRecord(records[i])
  {
    seq(|records|, i requires 0 <= i < |records| => ParseFragmentRecord(records[i]))
  }

  /**
   * What the live branch reads out of the tables: the newest segment
   * number (as text), the segment total, the newest and the oldest
   * fragment record, the residual line count and the parsed records.
   */
  datatype LiveView = LiveView(segment: string, total: int, newest: FragmentEntry, oldest: int,
                               residualLength: nat, entries: seq<FragmentEntry>)

  function ViewOf(t: Tables): (r: LiveView)
    requires LiveTablesOk(t)
  {
    LiveView(SegmentNumber(t.segments), SegmentTotal(t.segments, |t.segments|), NewestRecord(t.fragments),
             OldestNumber(t.fragments), |t.residual|, Entries(t.fragments))
  }

  /** segment_num[1]: the raw segment number of the newest segment record. */
  function SegmentNumber(segments: seq<string>): (r: string)
    requires |segments| > 0 && SegmentNumberOk(segments[|segments| - 1])
  {
    ValueText(Fields(segments[|segments| - 1])[0])
  }

  /** The newest (last) fragment record, parsed. */
  function NewestRecord(fragments: seq<string>): (r: FragmentEntry)
    requires |fragments| > 0 && FragmentRecordOk(fragments[|fragments| - 1])
  {
    ParseFragmentRecord(fragments[|fragments| - 1])
  }

  /** The number of the oldest (first) fragment record. */
  function OldestNumber(fragments: seq<string>): (r: int)
    requires |fragments| > 0 && FragmentRecordOk(fragments[0])
  {
    IntField(fragments[0], 0)
  }

  /**
   * The view's newest and oldest records are the last and the first parsed
   * record, and the newest carries the last record's number, duration and
   * discontinuity (0 unless it has four fields).
   */
  lemma ViewRecords(t: Tables)
    requires LiveTablesOk(t)
    ensures FragmentRecordOk(t.fragments[|t.fragments| - 1])
    ensures var v := ViewOf(t);
      |v.entries| == |t.fragments| && v.entries[0].number == v.oldest && v.entries[|v.entries| - 1] == v.newest
    ensures var v := ViewOf(t); var last := t.fragments[|t.fragments| - 1];
      v.newest.number == IntField(last, 0) && v.newest.duration == IntField(last, 2) &&
      v.newest.discontinuity == (if |Fields(last)| == 4 then IntField(last, 3) else 0)
  {
  }

  /** current_frag, by the two-branch formula that tests the residual line count (hds.py:200-209). */
  function CurrentFrom(total: int, newest: int, oldest: int, residualLength: nat): (r: int)
  {
    if residualLength > 1 then (total - (newest - oldest)) + newest - 1
    else total + newest - 1
  }

  /** current_frag of a poll. */
  function CurrentFragment(v: LiveView): (r: int)
  {
    CurrentFrom(v.total, v.newest.number, v.oldest, v.residualLength)
  }

  /**
   * Whenever the live branch can read its tables, at least five lines are
   * left over, so the first formula always applies: the newest fragment is
   * the segment total counted from the oldest record.
   */
  lemma CurrentFromOldest(lines: seq<string>)
    requires LiveTablesOk(CutTables(lines))
    ensures ViewOf(CutTables(lines)).residualLength >= RecordOffset
    ensures var v := ViewOf(CutTables(lines)); CurrentFragment(v) == v.total + v.oldest - 1
  {
    var t := CutTables(lines);
    var rest := WithoutSegmentSection(lines);
    assert SegmentSection(lines) != [];
    FragmentsHeaderAfterSegmentCut(lines);
    var k := FindKeyedLine(rest, FragmentsHeader).value;
    assert FragmentStart(rest) == k + RecordOffset;
    assert FragmentSection(rest) != [];
    assert |t.residual| == k + RecordOffset;
  }

  /** Index of the first parsed entry at or after from whose number is frag. */
  function FirstEntryFrom(entries: seq<FragmentEntry>, frag: int, from: nat): (r: Option<nat>)
    requires from <= |entries|
    ensures r.Some? ==> from <= r.value < |entries| && entries[r.value].number == frag
    ensures r.Some? ==> forall j :: from <= j < r.value ==> entries[j].number != frag
    ensures r.None? <==> forall j :: from <= j < |entries| ==> entries[j].number != frag
    decreases |entries| - from
  {
    if from == |entries| then None
    else if entries[from].number == frag then Some(from)
    else FirstEntryFrom(entries, frag, from + 1)
  }

  /** Searching the text records and searching the parsed entries find the same index. */
  lemma {:induction false} FirstEntryMatchesRecord(records: seq<string>, frag: int, from: nat)
    requires FragmentRecordsOk(records) && from <= |records|
    ensures FirstRecordFrom(records, frag, from) == FirstEntryFrom(Entries(records), frag, from)
    decreases |records| - from
  {
    if from < |records| {
      ParsedNumber(records[from]);
      FirstEntryMatchesRecord(records, frag, from + 1);
    }
  }

  /** The descriptor built for a backfilled number: from its entry when the table has one. */
  function BackfillEntry(entries: seq<FragmentEntry>, live: FragmentEntry, segment: string, miss: int): (d: Descriptor)
    ensures d.segment == segment && d.fragment == miss && !d.pulled
  {
    match FirstEntryFrom(entries, miss, 0)
    case None => Descriptor(segment, miss, live.duration, live.discontinuity, false)
    case Some(j) => Descriptor(segment, miss, entries[j].duration, entries[j].discontinuity, false)
  }

  /** The discon after backfilling miss: field 3 of its record when that has four fields. */
  function BackfillDiscon(entries: seq<FragmentEntry>, miss: int, discon: Option<string>): (r: Option<string>)
  {
    match FirstEntryFrom(entries, miss, 0)
    case None => discon
    case Some(j) => if entries[j].rawDiscontinuity.Some? then entries[j].rawDiscontinuity else discon
  }

  /**
   * A backfilled number that has a record takes that record's duration and
   * discontinuity (the first such record when there are several).
   */
  lemma BackfillFromRecord(records: seq<string>, live: FragmentEntry, segment: string, miss: int, j: nat)
    requires FragmentRecordsOk(records) && j < |records|
    requires FieldInt(records[j], 0) == Some(miss)
    requires forall k {:trigger FieldInt(records[k], 0)} :: 0 <= k < j ==> FieldInt(records[k], 0) != Some(miss)
    ensures FragmentRecordOk(records[j])
    ensures BackfillEntry(Entries(records), live, segment, miss) ==
      Descriptor(segment, miss, IntField(records[j], 2),
                 if |Fields(records[j])| == 4 then IntField(records[j], 3) else 0, false)
  {
    FirstEntryMatchesRecord(records, miss, 0);
    var r := FirstRecordFrom(records, miss, 0);
    assert r.Some?;
    assert !(r.value < j) && !(r.value > j);
  }

  /** A backfilled number without a record takes the newest record's duration and discontinuity. */
  lemma BackfillWithoutRecord(records: seq<string>, live: FragmentEntry, segment: string, miss: int)
    requires FragmentRecordsOk(records)
    requires forall k {:trigger FieldInt(records[k], 0)} :: 0 <= k < |records| ==> FieldInt(records[k], 0) != Some(miss)
    ensures BackfillEntry(Entries(records), live, segment, miss) ==
      Descriptor(segment, miss, live.duration, live.discontinuity, false)
  {
    FirstEntryMatchesRecord(records, miss, 0);
  }

  /** What the backfill loop has appended, and the discon it carries. */
  datatype Backfilled = Backfilled(added: seq<Descriptor>, discon: Option<string>)

  /**
   * The backfill loop after n rounds: round k (from 0) visits high - k and
   * appends a descriptor for it unless the grown window already holds it.
   */
  function Backfill(window: seq<Descriptor>, entries: seq<FragmentEntry>, live: FragmentEntry, segment: string,
                    high: int, n: nat, discon: Option<string>): (r: Backfilled)
  {
    if n == 0 then Backfilled([], discon)
    else
      var prev := Backfill(window, entries, live, segment, high, n - 1, discon);
      var miss := high - (n - 1);
      if HasFragment(window + prev.added, miss) then prev
      else Backfilled(prev.added + [BackfillEntry(entries, live, segment, miss)],
                      BackfillDiscon(entries, miss, prev.discon))
  }

  /** Every number of added lies in lo..hi. */
  predicate InRange(added: seq<Descriptor>, lo: int, hi: int)
  {
    forall k :: 0 <= k < |added| ==> lo <= added[k].fragment <= hi
  }

  /** The numbers of added strictly decrease. */
  predicate Descending(added: seq<Descriptor>)
  {
    forall k, l :: 0 <= k < l < |added| ==> added[k].fragment > added[l].fragment
  }

  /** Every descriptor of added is the one BackfillEntry builds for its number. */
  predicate BuiltFrom(added: seq<Descriptor>, entries: seq<FragmentEntry>, live: FragmentEntry, segment: string)
  {
    forall k :: 0 <= k < |added| ==> added[k] == BackfillEntry(entries, live, segment, added[k].fragment)
  }

  /** A number of lo..hi is in added exactly when the window lacks it. */
  predicate FillsGaps(window: seq<Descriptor>, added: seq<Descriptor>, lo: int, hi: int)
  {
    forall m :: lo <= m <= hi ==> (HasFragment(added, m) <==> !HasFragment(window, m))
  }

  /**
   * After n rounds the backfill has appended descriptors for numbers of
   * high - n + 1 .. high only, in descending order, each built by
   * BackfillEntry.
   */
  lemma {:induction false} BackfillShape(window: seq<Descriptor>, entries: seq<FragmentEntry>, live: FragmentEntry,
                                         segment: string, high: int, n: nat, discon: Option<string>)
    ensures InRange(Backfill(window, entries, live, segment, high, n, discon).added, high - n + 1, high)
    ensures Descending(Backfill(window, entries, live, segment, high, n, discon).added)
    ensures BuiltFrom(Backfill(window, entries, live, segment, high, n, discon).added, entries, live, segment)
  {
    if n > 0 {
      BackfillShape(window, entries, live, segment, high, n - 1, discon);
      var r := Backfill(window, entries, live, segment, high, n - 1, discon);
      var prev := r.added;
      var miss := high - (n - 1);
      if !HasFragment(window + prev, miss) {
        var e := BackfillEntry(entries, live, segment, miss);
        var added := prev + [e];
        assert Backfill(window, entries, live, segment, high, n, discon) ==
          Backfilled(added, BackfillDiscon(entries, miss, r.discon));
        assert InRange(added, miss, high) by {
          forall k | 0 <= k < |added| ensures miss <= added[k].fragment <= high {
            if k < |prev| { assert added[k] == prev[k]; }
          }
        }
        assert Descending(added) by {
          forall k, l | 0 <= k < l < |added| ensures added[k].fragment > added[l].fragment {
            assert added[k] == prev[k];
            if l < |prev| { assert added[l] == prev[l]; }
          }
        }
        assert BuiltFrom(added, entries, live, segment) by {
          forall k | 0 <= k < |added| ensures added[k] == BackfillEntry(entries, live, segment, added[k].fragment) {
            if k < |prev| { assert added[k] == prev[k]; }
          }
        }
      }
    }
  }

  /** A one-descriptor window holds exactly its own number. */
  lemma HasFragmentSingle(e: Descriptor, m: int)
    ensures HasFragment([e], m) <==> e.fragment == m
  {
    assert [e][0] == e;
  }

  /**
   * After n rounds the backfill holds exactly the numbers of
   * high - n + 1 .. high that the window lacks.
   */
  lemma {:induction false} BackfillFillsGaps(window: seq<Descriptor>, entries: seq<FragmentEntry>, live: FragmentEntry,
                                             segment: string, high: int, n: nat, discon: Option<string>)
    ensures FillsGaps(window, Backfill(window, entries, live, segment, high, n, discon).added, high - n + 1, high)
  {
    if n > 0 {
      BackfillFillsGaps(window, entries, live, segment, high, n - 1, discon);
      BackfillShape(window, entries, live, segment, high, n - 1, discon);
      var r := Backfill(window, entries, live, segment, high, n - 1, discon);
      var prev := r.added;
      var miss := high - (n - 1);
      assert !HasFragment(prev, miss) by {
        if HasFragment(prev, miss) {
          HasFragmentInRange(prev, miss, miss + 1, high);
        }
      }
      HasFragmentAppend(window, prev, miss);
      if !HasFragment(window + prev, miss) {
        var e := BackfillEntry(entries, live, segment, miss);
        var added := prev + [e];
        assert Backfill(window, entries, live, segment, high, n, discon) ==
          Backfilled(added, BackfillDiscon(entries, miss, r.discon));
        forall m | miss <= m <= high ensures HasFragment(added, m) <==> !HasFragment(window, m) {
          HasFragmentAppend(prev, [e], m);
          HasFragmentSingle(e, m);
        }
      }
    }
  }

  /** The number of rounds the backfill loop runs: xrange's length, none when the gap is 1. */
  function BackfillRounds(gap: int): (r: nat)
  {
    if gap == 1 || gap < 0 then 0 else gap
  }

  /** The backfill of a later poll (a window of more than the placeholder). */
  function LaterPollBackfill(v: LiveView, window: seq<Descriptor>): (r: Backfilled)
    requires |window| > 0
  {
    var current := CurrentFragment(v);
    var gap := current - window[|window| - 1].fragment;
    Backfill(window, v.entries, v.newest, v.segment, current - 1, BackfillRounds(gap), v.newest.rawDiscontinuity)
  }

  /** The descriptors one live poll appends to the window. */
  function Appended(v: LiveView, window: seq<Descriptor>): (r: seq<Descriptor>)
    requires |window| > 0
  {
    if |window| == 1 then [Descriptor(v.segment, CurrentFragment(v), v.newest.duration, v.newest.discontinuity, false)]
    else LaterPollBackfill(v, window).added
  }

  /** durations[0]: segment number, newest fragment, its duration, the sorted window, discon. */
  datatype PollResult = PollResult(segment: string, current: int, duration: int,
                                   window: seq<Descriptor>, discon: Option<string>)

  /** What a live call of extract_fragments returns; discon None stands for the initial 0. */
  function LivePoll(v: LiveView, window: seq<Descriptor>): (r: PollResult)
    requires |window| > 0
  {
    PollResult(v.segment, CurrentFragment(v), v.newest.duration,
               SortByFragment(window + Appended(v, window)),
               if |window| == 1 then v.newest.rawDiscontinuity else LaterPollBackfill(v, window).discon)
  }

  /**
   * The first poll appends one unpulled descriptor for the newest fragment,
   * with the newest record's duration and discontinuity (0 unless it has
   * four fields).
   */
  lemma FirstPollAppendsNewest(t: Tables, window: seq<Descriptor>)
    requires LiveTablesOk(t) && |window| == 1
    ensures FragmentRecordOk(t.fragments[|t.fragments| - 1])
    ensures var last := t.fragments[|t.fragments| - 1];
      Appended(ViewOf(t), window) ==
        [Descriptor(ViewOf(t).segment, CurrentFragment(ViewOf(t)), IntField(last, 2),
                    if |Fields(last)| == 4 then IntField(last, 3) else 0, false)]
  {
    ViewRecords(t);
  }

  /**
   * A later poll appends exactly the numbers strictly between the window's
   * last number and the newest fragment that the window does not hold yet.
   */
  lemma LaterPollAppendsMissing(v: LiveView, window: seq<Descriptor>, m: int)
    requires |window| > 1
    ensures HasFragment(Appended(v, window), m) <==>
      window[|window| - 1].fragment < m < CurrentFragment(v) && !HasFragment(window, m)
  {
    var current := CurrentFragment(v);
    var last := window[|window| - 1].fragment;
    var n := BackfillRounds(current - last);
    BackfillShape(window, v.entries, v.newest, v.segment, current - 1, n, v.newest.rawDiscontinuity);
    BackfillFillsGaps(window, v.entries, v.newest, v.segment, current - 1, n, v.newest.rawDiscontinuity);
    var added := Appended(v, window);
    assert added == Backfill(window, v.entries, v.newest, v.segment, current - 1, n, v.newest.rawDiscontinuity).added;
    assert HasFragment(window, last);
    if HasFragment(added, m) {
      HasFragmentInRange(added, m, current - n, current - 1);
    }
  }

  /** A later poll never appends the newest fragment itself. */
  lemma NewestNeverBackfilled(v: LiveView, window: seq<Descriptor>)
    requires |window| > 1
    ensures !HasFragment(Appended(v, window), CurrentFragment(v))
  {
    LaterPollAppendsMissing(v, window, CurrentFragment(v));
  }

  /** A later poll whose newest fragment is at most one past the window's last appends nothing. */
  lemma SmallGapAppendsNothing(v: LiveView, window: seq<Descriptor>)
    requires |window| > 1
    requires CurrentFragment(v) - window[|window| - 1].fragment <= 1
    ensures Appended(v, window) == []
    ensures LivePoll(v, window).window == SortByFragment(window)
  {
    assert window + [] == window;
  }

  /**
   * Backfilled descriptors are appended in descending order, unpulled,
   * under the newest segment number, each built from its own record or
   * from the newest one.
   */
  lemma LaterPollDescending(v: LiveView, window: seq<Descriptor>)
    requires |window| > 1
    ensures Descending(Appended(v, window))
    ensures BuiltFrom(Appended(v, window), v.entries, v.newest, v.segment)
    ensures forall k :: 0 <= k < |Appended(v, window)| ==>
      !Appended(v, window)[k].pulled && Appended(v, window)[k].segment == v.segment
  {
    var current := CurrentFragment(v);
    var n := BackfillRounds(current - window[|window| - 1].fragment);
    BackfillShape(window, v.entries, v.newest, v.segment, current - 1, n, v.newest.rawDiscontinuity);
  }

  /** A later poll keeps the window's fragment numbers unique, and so does the sorted copy it returns. */
  lemma LaterPollKeepsUnique(v: LiveView, window: seq<Descriptor>)
    requires |window| > 1
    requires UniqueFragments(window)
    ensures UniqueFragments(window + Appended(v, window))
    ensures UniqueFragments(LivePoll(v, window).window)
  {
    var added := Appended(v, window);
    var grown := window + added;
    LaterPollDescending(v, window);
    forall i, j | 0 <= i < j < |grown| ensures grown[i].fragment != grown[j].fragment {
      if j >= |window| && i < |window| {
        var m := grown[j].fragment;
        assert added[j - |window|] == grown[j];
        assert HasFragment(added, m);
        LaterPollAppendsMissing(v, window, m);
        assert window[i] == grown[i];
      } else if i >= |window| {
        assert added[i - |window|] == grown[i] && added[j - |window|] == grown[j];
      }
    }
    SortKeepsUnique(grown);
  }

  /** The returned window is the grown window, sorted, with the same descriptors. */
  lemma PollWindowSorted(v: LiveView, window: seq<Descriptor>)
    requires |window| > 0
    ensures SortedByFragment(LivePoll(v, window).window)
    ensures multiset(LivePoll(v, window).window) == multiset(window) + multiset(Appended(v, window))
  {
  }

  /** From last = 10 to newest = 14, with no records, the backfill appends 13, 12 and 11 in that order. */
  lemma BackfillTenToFourteen(live: FragmentEntry)
    ensures var w := [Descriptor("1", 10, 4000, 0, true)];
      var d13 := Descriptor("1", 13, live.duration, live.discontinuity, false);
      var d12 := Descriptor("1", 12, live.duration, live.discontinuity, false);
      var d11 := Descriptor("1", 11, live.duration, live.discontinuity, false);
      Backfill(w, [], live, "1", 13, BackfillRounds(14 - 10), None) == Backfilled([d13, d12, d11], None)
  {
    var w := [Descriptor("1", 10, 4000, 0, true)];
    var d13 := Descriptor("1", 13, live.duration, live.discontinuity, false);
    var d12 := Descriptor("1", 12, live.duration, live.discontinuity, false);
    var d11 := Descriptor("1", 11, live.duration, live.discontinuity, false);
    assert !HasFragment(w, 13);
    assert Backfill(w, [], live, "1", 13, 1, None) == Backfilled([d13], None);
    assert !HasFragment(w + [d13], 12) by {
      HasFragmentAppend(w, [d13], 12);
    }
    assert Backfill(w, [], live, "1", 13, 2, None) == Backfilled([d13, d12], None);
    assert !HasFragment(w + [d13, d12], 11) by {
      HasFragmentAppend(w, [d13, d12], 11);
    }
    assert [d13, d12] + [d11] == [d13, d12, d11];
    assert Backfill(w, [], live, "1", 13, 3, None) == Backfilled([d13, d12, d11], None);
    assert (w + [d13, d12, d11])[0].fragment == 10;
  }

  /**
   * Lines 226-240 of the backfill loop: the descriptor for miss, from its
   * record when is_in_fragment_run_table finds one, and the new discon.
   */
  method BuildBackfillEntry(records: seq<string>, live: FragmentEntry, segment: string, miss: int,
                            discon0: Option<string>) returns (toAdd: Descriptor, discon: Option<string>)
    requires FragmentRecordsOk(records)
    ensures toAdd == BackfillEntry(Entries(records), live, segment, miss)
    ensures discon == BackfillDiscon(Entries(records), miss, discon0)
  {
    forall i | 0 <= i < |records| ensures IsIntField(records[i], 0) {
      assert FragmentRecordOk(records[i]);
    }
    discon := discon0;
    toAdd := Descriptor(segment, miss, live.duration, live.discontinuity, false);
    var fragle := IsInFragmentRunTable(miss, records);
    SearchReadableRecords(records, miss, 0);
    FirstEntryMatchesRecord(records, miss, 0);
    if fragle.Ok? && fragle.value.Some? {
      var e := ParseFragmentRecord(records[fragle.value.value]);
      if e.rawDiscontinuity.Some? {
        discon := e.rawDiscontinuity;
      }
      toAdd := Descriptor(segment, miss, e.duration, e.discontinuity, false);
    }
  }

  /** The backfill loop of extract_fragments: for i in xrange(len - 1, len + gap - 1). */
  method BackfillWindow(window: FragmentWindow, records: seq<string>, live: FragmentEntry, segment: string,
                        current: int, gap: int, discon0: Option<string>) returns (discon: Option<string>)
    requires FragmentRecordsOk(records) && |window.entries| > 0 && gap != 1
    modifies window
    ensures window.entries == old(window.entries) +
      Backfill(old(window.entries), Entries(records), live, segment, current - 1, BackfillRounds(gap), discon0).added
    ensures discon ==
      Backfill(old(window.entries), Entries(records), live, segment, current - 1, BackfillRounds(gap), discon0).discon
  {
    ghost var w0 := window.entries;
    ghost var entries := Entries(records);
    ghost var added: seq<Descriptor> := [];
    var start := |window.entries| - 1;
    var stop := |window.entries| + gap - 1;
    var miss := current;
    discon := discon0;
    var i := start;
    while i < stop
      invariant start <= i && i - start <= BackfillRounds(gap)
      invariant miss == current - (i - start)
      invariant window.entries == w0 + added
      invariant Backfill(w0, entries, live, segment, current - 1, i - start, discon0) == Backfilled(added, discon)
    {
      miss := miss - 1;
      var dup := CheckForDups(miss, window.entries);
      if !dup {
        var toAdd;
        toAdd, discon := BuildBackfillEntry(records, live, segment, miss, discon);
        window.Append(toAdd);
        added := added + [toAdd];
      }
      i := i + 1;
    }
  }

  /** Lines 172-182: the segment total over every record and the newest segment number. */
  method ReadSegments(segments: seq<string>) returns (total: int, segmentNum: string)
    requires |segments| > 0 && forall i :: 0 <= i < |segments| ==> SegmentRecordOk(segments[i])
    requires SegmentNumberOk(segments[|segments| - 1])
    ensures total == SegmentTotal(segments, |segments|)
    ensures segmentNum == SegmentNumber(segments)
  {
    total := 0;
    if |segments| > 1 {
      total := SumSegmentCounts(segments);
    } else {
      assert SegmentRecordOk(segments[|segments| - 1]);
      total := total + IntField(segments[|segments| - 1], 1);
    }
    segmentNum := ValueText(Fields(segments[|segments| - 1])[0]);
  }

  /** Lines 190-209: the newest record and current_frag by the residual-length test. */
  method ReadNewest(fragments: seq<string>, total: int, residualLength: nat) returns (newest: FragmentEntry, current: int)
    requires |fragments| > 0
    requires FragmentRecordOk(fragments[0]) && FragmentRecordOk(fragments[|fragments| - 1])
    ensures newest == NewestRecord(fragments)
    ensures current == CurrentFrom(total, newest.number, OldestNumber(fragments), residualLength)
  {
    newest := ParseFragmentRecord(fragments[|fragments| - 1]);
    if residualLength > 1 {
      var fragDiff := newest.number - IntField(fragments[0], 0);
      current := (total - fragDiff) + newest.number - 1;
    } else {
      current := total + newest.number - 1;
    }
  }

  /** The two section extractions at the head of extract_fragments. */
  method CutSections(runTable: LineBuffer) returns (t: Tables)
    modifies runTable
    ensures t == CutTables(old(runTable.lines)) && runTable.lines == t.residual
  {
    var segments := runTable.ExtractSegmentSection();
    var fragments := runTable.ExtractFragmentSection();
    t := Tables(segments, fragments, runTable.lines);
  }

  /** Lines 212-251: grow the window from the values read out of the tables and return the poll. */
  method ApplyPoll(window: FragmentWindow, records: seq<string>, ghost v: LiveView,
                   segmentNum: string, newest: FragmentEntry, current: int) returns (result: PollResult)
    requires FragmentRecordsOk(records) && v.entries == Entries(records)
    requires v.segment == segmentNum && v.newest == newest && CurrentFragment(v) == current
    requires |window.entries| > 0
    modifies window
    ensures window.entries == old(window.entries) + Appended(v, old(window.entries))
    ensures result == LivePoll(v, old(window.entries))
  {
    ghost var w0 := window.entries;
    var discon := newest.rawDiscontinuity;
    if |window.entries| == 1 {
      window.Append(Descriptor(segmentNum, current, newest.duration, newest.discontinuity, false));
      assert window.entries == w0 + Appended(v, w0);
    } else {
      var gap := current - window.entries[|window.entries| - 1].fragment;
      assert LaterPollBackfill(v, w0) == Backfill(w0, Entries(records), newest, segmentNum, current - 1, BackfillRounds(gap), discon);
      if gap != 1 {
        discon := BackfillWindow(window, records, newest, segmentNum, current, gap, discon);
      } else {
        assert window.entries + [] == window.entries;
      }
      assert window.entries == w0 + Appended(v, w0);
      assert discon == LaterPollBackfill(v, w0).discon;
    }
    result := PollResult(segmentNum, current, newest.duration, SortByFragment(window.entries), discon);
  }

  /** The live branch on the cut tables: lines 171-251. */
  method PollLive(t: Tables, window: FragmentWindow) returns (result: PollResult)
    requires LiveTablesOk(t) && |window.entries| > 0
    modifies window
    ensures window.entries == old(window.entries) + Appended(ViewOf(t), old(window.entries))
    ensures result == LivePoll(ViewOf(t), old(window.entries))
  {
    var total, segmentNum := ReadSegments(t.segments);
    assert FragmentRecordOk(t.fragments[0]) && FragmentRecordOk(t.fragments[|t.fragments| - 1]);
    var newest, current := ReadNewest(t.fragments, total, |t.residual|);
    result := ApplyPoll(window, t.fragments, ViewOf(t), segmentNum, newest, current);
  }

  /** hds.extract_fragments(file_name, run_table, check_frag, live=True) */
  method ExtractFragmentsLive(runTable: LineBuffer, window: FragmentWindow) returns (result: PollResult)
    requires LiveTablesOk(CutTables(runTable.lines)) && |window.entries| > 0
    modifies runTable, window
    ensures runTable.lines == CutTables(old(runTable.lines)).residual
    ensures window.entries == old(window.entries) + Appended(ViewOf(CutTables(old(runTable.lines))), old(window.entries))
    ensures result == LivePoll(ViewOf(CutTables(old(runTable.lines))), old(window.entries))
  {
    var t := CutSections(runTable);
    result := PollLive(t, window);
  }

  /** One dict of the non-live list: no segment key. */
  datatype VodDescriptor = VodDescriptor(fragment: int, duration: int, discontinuity: int, pulled: bool)

  /** The list the non-live branch appends to and returns. */
  class VodFragmentList {
    var entries: seq<VodDescriptor>

    constructor (initial: seq<VodDescriptor>)
      ensures entries == initial
    {
      entries := initial;
    }

    /** list.append */
    method Append(d: VodDescriptor)
      modifies this
      ensures entries == old(entries) + [d]
    {
      entries := entries + [d];
    }
  }

  /** Everything the non-live branch reads without raising. */
  predicate VodTablesOk(t: Tables)
  {
    |t.segments| > 0 && |Fields(t.segments[|t.segments| - 1])| >= 2 && FragmentRecordsOk(t.fragments)
  }

  /** The descriptor the non-live branch builds from one parsed record. */
  function VodEntry(e: FragmentEntry): (r: VodDescriptor)
  {
    VodDescriptor(e.number, e.duration, e.discontinuity, false)
  }

  /** The descriptors of the first n parsed records, in table order. */
  function VodEntries(entries: seq<FragmentEntry>, n: nat): (r: seq<VodDescriptor>)
    requires n <= |entries|
    ensures |r| == n
  {
    if n == 0 then [] else VodEntries(entries, n - 1) + [VodEntry(entries[n - 1])]
  }

  /**
   * The non-live branch yields one unpulled descriptor per fragment record,
   * in table order, carrying the record's number, duration and
   * discontinuity (0 unless the record has four fields).
   */
  lemma {:induction false} VodEntriesFromRecords(records: seq<string>, n: nat, i: nat)
    requires FragmentRecordsOk(records) && n <= |records| && i < n
    ensures FragmentRecordOk(records[i])
    ensures VodEntries(Entries(records), n)[i] ==
      VodDescriptor(IntField(records[i], 0), IntField(records[i], 2),
                    if |Fields(records[i])| == 4 then IntField(records[i], 3) else 0, false)
  {
    VodEntriesAt(Entries(records), n, i);
    assert Entries(records)[i] == ParseFragmentRecord(records[i]);
  }

  /** Entry i of the non-live list is the descriptor of parsed record i. */
  lemma {:induction false} VodEntriesAt(entries: seq<FragmentEntry>, n: nat, i: nat)
    requires n <= |entries| && i < n
    ensures VodEntries(entries, n)[i] == VodEntry(entries[i])
  {
    if i < n - 1 {
      VodEntriesAt(entries, n - 1, i);
    }
  }

  /** The loop of lines 273-286: one appended descriptor per record. */
  method AppendVodEntries(list: VodFragmentList, fragments: seq<string>)
    requires FragmentRecordsOk(fragments)
    modifies list
    ensures list.entries == old(list.entries) + VodEntries(Entries(fragments), |fragments|)
  {
    ghost var l0 := list.entries;
    ghost var entries := Entries(fragments);
    var i := 0;
    while i < |fragments|
      invariant 0 <= i <= |fragments|
      invariant list.entries == l0 + VodEntries(entries, i)
    {
      list.Append(VodEntry(ParseFragmentRecord(fragments[i])));
      i := i + 1;
    }
  }

  /** The non-live branch on the cut tables: lines 266-287. */
  method VodFromTables(t: Tables, list: VodFragmentList) returns (r: seq<VodDescriptor>)
    requires VodTablesOk(t)
    modifies list
    ensures list.entries == old(list.entries) + VodEntries(Entries(t.fragments), |t.fragments|)
    ensures r == list.entries
  {
    var newestSegment := Fields(t.segments[|t.segments| - 1]);
    var totalText := Split(newestSegment[1], '=');
    AppendVodEntries(list, t.fragments);
    r := list.entries;
  }

  /** hds.extract_fragments(file_name, run_table, check_frag, live=False) */
  method ExtractFragmentsVod(runTable: LineBuffer, list: VodFragmentList) returns (r: seq<VodDescriptor>)
    requires VodTablesOk(CutTables(runTable.lines))
    modifies runTable, list
    ensures runTable.lines == CutTables(old(runTable.lines)).residual
    ensures list.entries == old(list.entries) +
      VodEntries(Entries(CutTables(old(runTable.lines)).fragments), |CutTables(old(runTable.lines)).fragments|)
    ensures r == list.entries
  {
    var t := CutSections(runTable);
    r := VodFromTables(t, list);
  }
}
