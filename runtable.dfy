/**
 * The text the bootstrap inspector prints: "key: value" lines in which a
 * `segments` header and a `fragments` header each open a table whose records
 * start five lines further down. A record is a comma-separated list of
 * `name=value` fields. Extracting a section cuts it out of the caller's list.
 */
module RunTable {
  import opened Wrappers
  import opened PyText

  const SegmentsHeader: string := "segments"
  const FragmentsHeader: string := "fragments"
  /** The records of a table start this many lines after its header. */
  const RecordOffset: nat := 5

  /** A half-open range of line indices. */
  datatype Span = Span(start: nat, end: nat)

  /** Index of the last line below upto whose key is name. */
  function LastKeyedBefore(lines: seq<string>, name: string, upto: nat): (r: Option<nat>)
    requires upto <= |lines|
    ensures r.Some? ==> r.value < upto && Key(lines[r.value]) == name
    ensures r.Some? ==> forall j {:trigger Key(lines[j])} :: r.value < j < upto ==> Key(lines[j]) != name
    ensures r.None? <==> forall j {:trigger Key(lines[j])} :: 0 <= j < upto ==> Key(lines[j]) != name
  {
    if upto == 0 then None
    else if Key(lines[upto - 1]) == name then Some(upto - 1)
    else LastKeyedBefore(lines, name, upto - 1)
  }

  /** Five lines past the last `segments` header below upto, or 0 when there is none. */
  function SegmentStartBefore(lines: seq<string>, upto: nat): (r: nat)
    requires upto <= |lines|
  {
    match LastKeyedBefore(lines, SegmentsHeader, upto)
    case None => 0
    case Some(j) => j + RecordOffset
  }

  /**
   * Where extract_segment_section cuts: from five past the last `segments`
   * header before the first `fragments` header, up to that `fragments`
   * header; the end is 0 when there is no `fragments` header.
   */
  function SegmentSpan(lines: seq<string>): (r: Span)
    ensures r.end <= |lines|
  {
    match FindKeyedLine(lines, FragmentsHeader)
    case None => Span(SegmentStartBefore(lines, |lines|), 0)
    case Some(f) => Span(SegmentStartBefore(lines, f), f)
  }

  /** The lines extract_segment_section returns. */
  function SegmentSection(lines: seq<string>): (r: seq<string>)
    ensures forall i {:trigger Key(r[i])} :: 0 <= i < |r| ==> Key(r[i]) != FragmentsHeader
  {
    var span := SegmentSpan(lines);
    if span.start < span.end then lines[span.start..span.end] else []
  }

  /** The lines extract_segment_section leaves in the caller's list. */
  function WithoutSegmentSection(lines: seq<string>): (r: seq<string>)
  {
    var span := SegmentSpan(lines);
    if span.start < span.end then lines[..span.start] + lines[span.end..] else lines
  }

  /** Five lines past the first `fragments` header, or 0 when there is none. */
  function FragmentStart(lines: seq<string>): (r: nat)
  {
    match FindKeyedLine(lines, FragmentsHeader)
    case None => 0
    case Some(k) => k + RecordOffset
  }

  /** The lines extract_fragment_section returns: all of them when there is no header. */
  function FragmentSection(lines: seq<string>): (r: seq<string>)
  {
    var k := FragmentStart(lines);
    if k < |lines| then lines[k..] else []
  }

  /** The lines extract_fragment_section leaves in the caller's list. */
  function WithoutFragmentSection(lines: seq<string>): (r: seq<string>)
  {
    var k := FragmentStart(lines);
    if k < |lines| then lines[..k] else lines
  }

  /**
   * Cutting out the segment section and putting it back where it was gives
   * the original lines; an empty section leaves the lines untouched.
   */
  lemma SegmentSectionSplice(lines: seq<string>)
    ensures var span := SegmentSpan(lines);
      var rest := WithoutSegmentSection(lines);
      SegmentSection(lines) == [] ==> rest == lines
    ensures var span := SegmentSpan(lines);
      var rest := WithoutSegmentSection(lines);
      SegmentSection(lines) != [] ==>
        span.start <= |rest| && rest[..span.start] + SegmentSection(lines) + rest[span.start..] == lines
  {
    var span := SegmentSpan(lines);
    if span.start < span.end {
      SpliceSpan(lines, span.start, span.end);
    }
  }

  /** Removing lines[a..b] and re-inserting it at a restores the lines. */
  lemma SpliceSpan(lines: seq<string>, a: nat, b: nat)
    requires a < b <= |lines|
    ensures var rest := lines[..a] + lines[b..];
      a <= |rest| && rest[..a] + lines[a..b] + rest[a..] == lines
  {
    var rest := lines[..a] + lines[b..];
    assert rest[..a] == lines[..a];
    assert rest[a..] == lines[b..];
    assert lines == lines[..a] + lines[a..b] + lines[b..];
  }

  /**
   * Once a non-empty segment section is cut out, the first `fragments`
   * header sits where the section started.
   */
  lemma FragmentsHeaderAfterSegmentCut(lines: seq<string>)
    requires SegmentSection(lines) != []
    ensures FindKeyedLine(WithoutSegmentSection(lines), FragmentsHeader) == Some(SegmentSpan(lines).start)
  {
    var span := SegmentSpan(lines);
    assert FindKeyedLine(lines, FragmentsHeader) == Some(span.end);
    FirstKeyedAfterCut(lines, FragmentsHeader, span.start, span.end);
  }

  /** Cutting out lines[a..b] in front of the first keyed line b moves that line to a. */
  lemma FirstKeyedAfterCut(lines: seq<string>, key: string, a: nat, b: nat)
    requires a < b < |lines| && FindKeyedLine(lines, key) == Some(b)
    ensures FindKeyedLine(lines[..a] + lines[b..], key) == Some(a)
  {
    var rest := lines[..a] + lines[b..];
    assert rest[a] == lines[b];
    forall j | 0 <= j < a ensures Key(rest[j]) != key {
      assert rest[j] == lines[j];
    }
    UniqueFirstKeyed(rest, key, a);
  }

  /** The scan finds an index exactly when it is the first keyed one. */
  lemma UniqueFirstKeyed(lines: seq<string>, key: string, i: nat)
    requires i < |lines| && Key(lines[i]) == key
    requires forall j {:trigger Key(lines[j])} :: 0 <= j < i ==> Key(lines[j]) != key
    ensures FindKeyedLine(lines, key) == Some(i)
  {
    var r := FindKeyedLine(lines, key);
    assert r.Some?;
    assert !(r.value < i) && !(r.value > i);
  }

  /** A keyed line with no keyed line before it is the one the scan finds. */
  lemma FirstKeyedFound(lines: seq<string>, key: string, i: nat)
    requires i < |lines| && Key(lines[i]) == key
    requires LastKeyedBefore(lines, key, i).None?
    ensures FindKeyedLine(lines, key) == Some(i)
  {
    UniqueFirstKeyed(lines, key, i);
  }

  /** With no keyed line anywhere the scan finds nothing. */
  lemma NoKeyedFound(lines: seq<string>, key: string)
    requires LastKeyedBefore(lines, key, |lines|).None?
    ensures FindKeyedLine(lines, key).None?
  {
  }

  /**
   * Extracting the fragment section splits the lines in two: the residue
   * followed by the section is the original.
   */
  lemma FragmentSectionSplit(lines: seq<string>)
    ensures WithoutFragmentSection(lines) + FragmentSection(lines) == lines
    ensures FindKeyedLine(lines, FragmentsHeader).None? ==> FragmentSection(lines) == lines
    ensures FindKeyedLine(lines, FragmentsHeader).None? ==> WithoutFragmentSection(lines) == []
    ensures FragmentSection(lines) != [] && FindKeyedLine(lines, FragmentsHeader).Some? ==>
      |WithoutFragmentSection(lines)| == FindKeyedLine(lines, FragmentsHeader).value + RecordOffset
  {
    var k := FragmentStart(lines);
    if k < |lines| {
      assert lines == lines[..k] + lines[k..];
    } else {
      assert lines + [] == lines;
    }
  }

  /** A Python list of lines that the extractors cut sections out of in place. */
  class LineBuffer {
    var lines: seq<string>

    constructor (initial: seq<string>)
      ensures lines == initial
    {
      lines := initial;
    }

    /** list.pop(i) */
    method Pop(i: nat) returns (x: string)
      requires i < |lines|
      modifies this
      ensures x == old(lines)[i]
      ensures lines == old(lines)[..i] + old(lines)[i + 1..]
    {
      x := lines[i];
      lines := lines[..i] + lines[i + 1..];
    }

    /**
     * The loop both extractors end with: for j in xrange(start, end), pop
     * the line at start and append it to the section.
     */
    method PopSpan(start: nat, end: nat) returns (section: seq<string>)
      requires start < end ==> end <= |lines|
      modifies this
      ensures start < end ==> section == old(lines)[start..end]
      ensures start < end ==> lines == old(lines)[..start] + old(lines)[end..]
      ensures start >= end ==> section == [] && lines == old(lines)
    {
      section := [];
      ghost var original := lines;
      var j := start;
      while j < end
        invariant start < end ==> start <= j <= end
        invariant start < end ==> lines == original[..start] + original[j..]
        invariant start < end ==> section == original[start..j]
        invariant start >= end ==> j == start && lines == original && section == []
      {
        var x := Pop(start);
        section := section + [x];
        j := j + 1;
      }
    }

    /** hds.extract_segment_section */
    method ExtractSegmentSection() returns (section: seq<string>)
      modifies this
      ensures section == SegmentSection(old(lines))
      ensures lines == WithoutSegmentSection(old(lines))
    {
      var segmentStart, fragmentStart := ScanSegmentHeaders(lines);
      section := PopSpan(segmentStart, fragmentStart);
    }

    /** hds.extract_fragment_section */
    method ExtractFragmentSection() returns (section: seq<string>)
      modifies this
      ensures section == FragmentSection(old(lines))
      ensures lines == WithoutFragmentSection(old(lines))
    {
      var fragmentStart := ScanFragmentsHeader(lines);
      var fragmentEnd := |lines|;
      section := PopSpan(fragmentStart, fragmentEnd);
    }
  }

  /**
   * The header scan of extract_segment_section: the start is five past the
   * last `segments` header seen before the first `fragments` header, which
   * ends the scan and gives the end (0 when there is none).
   */
  method ScanSegmentHeaders(lines: seq<string>) returns (segmentStart: nat, fragmentStart: nat)
    ensures Span(segmentStart, fragmentStart) == SegmentSpan(lines)
  {
    segmentStart, fragmentStart := 0, 0;
    var i := 0;
    while i < |lines|
      invariant 0 <= i <= |lines|
      invariant segmentStart == SegmentStartBefore(lines, i)
      invariant LastKeyedBefore(lines, FragmentsHeader, i).None?
      invariant fragmentStart == 0
    {
      var key := Key(lines[i]);
      if key == SegmentsHeader {
        segmentStart := i + RecordOffset;
      }
      if key == FragmentsHeader {
        fragmentStart := i;
        FirstKeyedFound(lines, FragmentsHeader, i);
        return;
      }
      i := i + 1;
    }
    NoKeyedFound(lines, FragmentsHeader);
  }

  /** The header scan of extract_fragment_section: five past the first `fragments` header, or 0. */
  method ScanFragmentsHeader(lines: seq<string>) returns (fragmentStart: nat)
    ensures fragmentStart == FragmentStart(lines)
  {
    fragmentStart := 0;
    var i := 0;
    while i < |lines|
      invariant 0 <= i <= |lines|
      invariant LastKeyedBefore(lines, FragmentsHeader, i).None?
    {
      if Key(lines[i]) == FragmentsHeader {
        fragmentStart := i + RecordOffset;
        FirstKeyedFound(lines, FragmentsHeader, i);
        return;
      }
      i := i + 1;
    }
    NoKeyedFound(lines, FragmentsHeader);
  }

  /** record.split(',') */
  function Fields(record: string): (r: seq<string>)
  {
    Split(record, ',')
  }

  /** The field has a value after '=' (field.split('=')[1] exists). */
  predicate HasValue(field: string)
  {
    |Split(field, '=')| >= 2
  }

  /** field.split('=')[1] */
  function ValueText(field: string): (r: string)
    requires HasValue(field)
  {
    Split(field, '=')[1]
  }

  /** int(record.split(',')[i].split('=')[1]), None where an IndexError or ValueError is raised. */
  function FieldInt(record: string, i: nat): (r: Option<int>)
  {
    var fields := Fields(record);
    if i < |fields| && HasValue(fields[i]) then ParseInt(ValueText(fields[i])) else None
  }

  /** Field i of the record exists and int() accepts its value. */
  predicate IsIntField(record: string, i: nat)
  {
    FieldInt(record, i).Some?
  }

  /** int(record.split(',')[i].split('=')[1]) */
  function IntField(record: string, i: nat): (r: int)
    requires IsIntField(record, i)
  {
    FieldInt(record, i).value
  }

  /** What hds.py reads of a segment record: the fragment count in field 1. */
  predicate SegmentRecordOk(record: string)
  {
    IsIntField(record, 1)
  }

  /** What hds.py reads of the newest segment record: also the number after '=' in field 0. */
  predicate SegmentNumberOk(record: string)
  {
    HasValue(Fields(record)[0])
  }

  /**
   * What hds.py reads of a fragment record: the number (field 0), the
   * duration (field 2) and, when there are exactly four fields, the
   * discontinuity (field 3).
   */
  predicate FragmentRecordOk(record: string)
  {
    var fields := Fields(record);
    |fields| >= 3 && IsIntField(record, 0) && IsIntField(record, 2) &&
    (|fields| == 4 ==> IsIntField(record, 3))
  }

  predicate FragmentRecordsOk(records: seq<string>)
  {
    forall i :: 0 <= i < |records| ==> FragmentRecordOk(records[i])
  }

  /** A parsed fragment record; rawDiscontinuity is the text of field 3 when there are four fields. */
  datatype FragmentEntry = FragmentEntry(number: int, duration: int, discontinuity: int, rawDiscontinuity: Option<string>)

  function ParseFragmentRecord(record: string): (r: FragmentEntry)
    requires FragmentRecordOk(record)
  {
    if |Fields(record)| == 4 then
      FragmentEntry(IntField(record, 0), IntField(record, 2), IntField(record, 3),
                    Some(ValueText(Fields(record)[3])))
    else
      FragmentEntry(IntField(record, 0), IntField(record, 2), 0, None)
  }

  /** The parsed number is what field 0 yields. */
  lemma ParsedNumber(record: string)
    requires FragmentRecordOk(record)
    ensures FieldInt(record, 0) == Some(ParseFragmentRecord(record).number)
  {
  }

  /** The sum of the fragment counts (field 1) of the first n segment records. */
  function SegmentTotal(segments: seq<string>, n: nat): (r: int)
    requires n <= |segments|
    requires forall i :: 0 <= i < |segments| ==> SegmentRecordOk(segments[i])
  {
    if n == 0 then 0
    else
      assert SegmentRecordOk(segments[n - 1]);
      SegmentTotal(segments, n - 1) + IntField(segments[n - 1], 1)
  }

  /**
   * The summing loop of extract_fragments: total_num_of_frag_in_seg over
   * every segment record.
   */
  method SumSegmentCounts(segments: seq<string>) returns (total: int)
    requires forall i :: 0 <= i < |segments| ==> SegmentRecordOk(segments[i])
    ensures total == SegmentTotal(segments, |segments|)
  {
    total := 0;
    var i := 0;
    while i < |segments|
      invariant 0 <= i <= |segments|
      invariant total == SegmentTotal(segments, i)
    {
      assert SegmentRecordOk(segments[i]);
      total := total + IntField(segments[i], 1);
      i := i + 1;
    }
  }

  /** Index of the first fragment record at or after from whose number is frag. */
  function FirstRecordFrom(records: seq<string>, frag: int, from: nat): (r: Option<nat>)
    requires from <= |records|
    ensures r.Some? ==> from <= r.value < |records| && FieldInt(records[r.value], 0) == Some(frag)
    ensures r.Some? ==> forall j {:trigger FieldInt(records[j], 0)} :: from <= j < r.value ==> FieldInt(records[j], 0) != Some(frag)
    ensures r.None? <==> forall j {:trigger FieldInt(records[j], 0)} :: from <= j < |records| ==> FieldInt(records[j], 0) != Some(frag)
    decreases |records| - from
  {
    if from == |records| then None
    else if FieldInt(records[from], 0) == Some(frag) then Some(from)
    else FirstRecordFrom(records, frag, from + 1)
  }

  /** Index of the first fragment record whose number is frag. */
  function FirstRecordWith(records: seq<string>, frag: int): (r: Option<nat>)
  {
    FirstRecordFrom(records, frag, 0)
  }

  /** The exception int(record.split(',')[i].split('=')[1]) raises when FieldInt has no value. */
  function FieldError(record: string, i: nat): (e: PyError)
  {
    var fields := Fields(record);
    if i < |fields| && HasValue(fields[i]) then ValueError else IndexError
  }

  /**
   * The scan of is_in_fragment_run_table from index from on: the index of
   * the first record numbered frag, None when the scan runs out, or the
   * exception of the first record before any match whose number cannot be
   * read.
   */
  function SearchRecords(records: seq<string>, frag: int, from: nat): (r: Result<Option<nat>>)
    requires from <= |records|
    ensures r.Ok? && r.value.Some? ==>
      from <= r.value.value < |records| && FieldInt(records[r.value.value], 0) == Some(frag)
    ensures r.Ok? ==> forall j {:trigger FieldInt(records[j], 0)} ::
      from <= j < (if r.value.Some? then r.value.value else |records|) ==>
        FieldInt(records[j], 0).Some? && FieldInt(records[j], 0) != Some(frag)
    decreases |records| - from
  {
    if from == |records| then Ok(None)
    else match FieldInt(records[from], 0)
      case None => Err(FieldError(records[from], 0))
      case Some(n) => if n == frag then Ok(Some(from)) else SearchRecords(records, frag, from + 1)
  }

  /** On records whose numbers all read, the scan returns the first record numbered frag. */
  lemma {:induction false} SearchReadableRecords(records: seq<string>, frag: int, from: nat)
    requires from <= |records|
    requires forall j :: from <= j < |records| ==> IsIntField(records[j], 0)
    ensures SearchRecords(records, frag, from) == Ok(FirstRecordFrom(records, frag, from))
    decreases |records| - from
  {
    if from < |records| {
      var n := FieldInt(records[from], 0);
      assert n.Some? by {
        assert IsIntField(records[from], 0);
      }
      if n.value == frag {
        assert SearchRecords(records, frag, from) == Ok(Some(from));
      } else {
        assert SearchRecords(records, frag, from) == SearchRecords(records, frag, from + 1);
        assert FirstRecordFrom(records, frag, from) == FirstRecordFrom(records, frag, from + 1);
        SearchReadableRecords(records, frag, from + 1);
      }
    }
  }

  /**
   * hds.is_in_fragment_run_table: the index of the first record numbered
   * frag (index 0 counts as found), None where the source returns False,
   * and the exception int() or an index raises on an unreadable record
   * met before the match.
   */
  method IsInFragmentRunTable(frag: int, records: seq<string>) returns (r: Result<Option<nat>>)
    ensures r == SearchRecords(records, frag, 0)
  {
    var j := 0;
    while j < |records|
      invariant 0 <= j <= |records|
      invariant SearchRecords(records, frag, j) == SearchRecords(records, frag, 0)
    {
      var tempFrag := Split(records[j], ',');
      var tempFragmentNum := Split(tempFrag[0], '=');
      if |tempFragmentNum| < 2 {
        return Err(IndexError);
      }
      match ParseInt(tempFragmentNum[1])
      case None =>
        return Err(ValueError);
      case Some(n) =>
        if n == frag {
          return Ok(Some(j));
        }
      j := j + 1;
    }
    r := Ok(None);
  }
}
