/** The authoritative line-by-line scan of the event journal (src/server/events.py), the reference the
    cached index of src/server/event_index.py must agree with. */
module JournalScan {
  import opened Common

  /** The header fields a scan keeps of one event. */
  datatype Fields = Fields(
    rawSequence: nat, eventType: string, executionId: Option<string>, chatThreadId: Option<string>, runId: string)

  /** What reading one line gives: a header, a header recovered by full validation, a complete but
      invalid value, or bytes that do not begin with a complete JSON value (a torn append). */
  datatype Reading = Header(fields: Fields) | Validated(fields: Fields) | Invalid | Torn
  type Reader = Bytes -> Reading

  datatype Record = Record(offset: nat, length: nat, sequence: nat, fields: Fields)

  datatype Scan =
    | Scanned(records: seq<Record>, torn: Option<nat>, safeCount: nat, safeBoundary: nat)
    | Corrupt(offset: nat)

  /** Legacy sequences are repaired to be strictly increasing. */
  function NextSequence(raw: nat, last: nat): nat {
    if raw > last then raw else last + 1
  }

  function LastSequence(records: seq<Record>): nat {
    if records == [] then 0 else records[|records|-1].sequence
  }

  /** The end of the line that begins at `at`, its newline included. */
  function LineEnd(bytes: Bytes, at: nat): (end: nat)
    requires at < |bytes|
    ensures at < end <= |bytes|
    ensures end == |bytes| || bytes[end-1] == NEWLINE
    ensures forall k :: at <= k < end - 1 ==> bytes[k] != NEWLINE
    decreases |bytes| - at
  {
    if bytes[at] == NEWLINE || at + 1 == |bytes| then at + 1 else LineEnd(bytes, at + 1)
  }

  function Grown(records: seq<Record>, at: nat, end: nat, f: Fields): seq<Record>
    requires at < end
  {
    records + [Record(at, end - at, NextSequence(f.rawSequence, LastSequence(records)), f)]
  }

  /** `_scan_stream_unlocked`: extend `records` from `at`. */
  function ScanFrom(read: Reader, bytes: Bytes, records: seq<Record>, at: nat, safeCount: nat, safeBoundary: nat): Scan
    decreases |bytes| - at
  {
    if at >= |bytes| then Scanned(records, None, safeCount, safeBoundary)
    else
      var end := LineEnd(bytes, at);
      match read(bytes[at..end])
      case Torn => if end == |bytes| then Scanned(records, Some(at), safeCount, safeBoundary) else Corrupt(at)
      case Invalid => Corrupt(at)
      case Header(f) => ScanOn(read, bytes, records, at, end, f, safeCount, safeBoundary)
      case Validated(f) => ScanOn(read, bytes, records, at, end, f, safeCount, safeBoundary)
  }

  function ScanOn(read: Reader, bytes: Bytes, records: seq<Record>, at: nat, end: nat, f: Fields,
                  safeCount: nat, safeBoundary: nat): Scan
    requires at < end <= |bytes|
    decreases |bytes| - at, 0
  {
    var grown := Grown(records, at, end, f);
    if bytes[end-1] == NEWLINE then ScanFrom(read, bytes, grown, end, |grown|, end)
    else ScanFrom(read, bytes, grown, end, safeCount, safeBoundary)
  }

  function FullScan(read: Reader, bytes: Bytes): Scan {
    ScanFrom(read, bytes, [], 0, 0, 0)
  }

  /** `records` is exactly what a scan of `prefix` finds, every line complete and terminated. */
  predicate Indexes(read: Reader, prefix: Bytes, records: seq<Record>) {
    FullScan(read, prefix) == Scanned(records, None, |records|, |prefix|)
  }

  /** A line of a prefix is the same line of the whole, once its newline is inside the prefix. */
  lemma {:induction false} LineEndInPrefix(prefix: Bytes, bytes: Bytes, at: nat)
    requires prefix <= bytes && at < |prefix|
    requires prefix[LineEnd(prefix, at)-1] == NEWLINE
    ensures LineEnd(bytes, at) == LineEnd(prefix, at)
    decreases |prefix| - at
  {
    if prefix[at] != NEWLINE && at + 1 < |prefix| {
      LineEndInPrefix(prefix, bytes, at + 1);
    }
  }

  /** A scan's safe boundary never goes back, and counts no more records than were found. */
  lemma {:induction false} SafeBoundaryGrows(read: Reader, bytes: Bytes, records: seq<Record>,
                                             at: nat, count: nat, safe: nat)
    requires safe <= at <= |bytes| && count <= |records|
    ensures var scan := ScanFrom(read, bytes, records, at, count, safe);
            scan.Scanned? ==>
              && safe <= scan.safeBoundary <= |bytes|
              && scan.safeCount <= |scan.records|
              && records <= scan.records
    decreases |bytes| - at
  {
    if at < |bytes| {
      var end := LineEnd(bytes, at);
      var reading := read(bytes[at..end]);
      if reading.Header? || reading.Validated? {
        var f := reading.fields;
        var grown := Grown(records, at, end, f);
        if bytes[end-1] == NEWLINE {
          SafeBoundaryGrows(read, bytes, grown, end, |grown|, end);
        } else {
          SafeBoundaryGrows(read, bytes, grown, end, count, safe);
        }
      }
    }
  }

  /** One unrolling of the scan at a line that was read. */
  lemma ScanLine(read: Reader, bytes: Bytes, records: seq<Record>, at: nat, count: nat, safe: nat)
    requires at < |bytes|
    requires var reading := read(bytes[at..LineEnd(bytes, at)]); reading.Header? || reading.Validated?
    ensures var end := LineEnd(bytes, at);
            var grown := Grown(records, at, end, read(bytes[at..end]).fields);
            ScanFrom(read, bytes, records, at, count, safe) ==
            if bytes[end-1] == NEWLINE then ScanFrom(read, bytes, grown, end, |grown|, end)
            else Scanned(grown, None, count, safe)
  {
    var end := LineEnd(bytes, at);
    assert ScanFrom(read, bytes, records, at, count, safe)
        == ScanOn(read, bytes, records, at, end, read(bytes[at..end]).fields, count, safe);
    if bytes[end-1] != NEWLINE {
      var grown := Grown(records, at, end, read(bytes[at..end]).fields);
      assert ScanFrom(read, bytes, grown, end, count, safe) == Scanned(grown, None, count, safe);
    }
  }

  lemma {:induction false} ResumeAt(read: Reader, prefix: Bytes, bytes: Bytes, records: seq<Record>,
                                    at: nat, found: seq<Record>)
    requires prefix <= bytes && at <= |prefix|
    requires ScanFrom(read, prefix, records, at, |records|, at) == Scanned(found, None, |found|, |prefix|)
    ensures ScanFrom(read, bytes, records, at, |records|, at)
         == ScanFrom(read, bytes, found, |prefix|, |found|, |prefix|)
    decreases |prefix| - at
  {
    if at < |prefix| {
      var end := LineEnd(prefix, at);
      assert prefix[at..end] == bytes[at..end];
      var reading := read(prefix[at..end]);
      assert reading.Header? || reading.Validated?;
      var f := reading.fields;
      var grown := Grown(records, at, end, f);
      ScanLine(read, prefix, records, at, |records|, at);
      assert prefix[end-1] == NEWLINE;
      LineEndInPrefix(prefix, bytes, at);
      ScanLine(read, bytes, records, at, |records|, at);
      ResumeAt(read, prefix, bytes, grown, end, found);
    }
  }

  /** Scanning on from the end of an indexed prefix is scanning the whole journal. */
  lemma ResumeIsFullScan(read: Reader, prefix: Bytes, bytes: Bytes, records: seq<Record>)
    requires prefix <= bytes && Indexes(read, prefix, records)
    ensures ScanFrom(read, bytes, records, |prefix|, |records|, |prefix|) == FullScan(read, bytes)
  {
    ResumeAt(read, prefix, bytes, [], 0, records);
  }

  lemma {:induction false} SafePart(read: Reader, bytes: Bytes, records: seq<Record>, at: nat)
    requires at <= |bytes|
    ensures var scan := ScanFrom(read, bytes, records, at, |records|, at);
            scan.Scanned? ==>
              && at <= scan.safeBoundary <= |bytes| && |records| <= scan.safeCount <= |scan.records|
              && ScanFrom(read, bytes[..scan.safeBoundary], records, at, |records|, at)
                 == Scanned(scan.records[..scan.safeCount], None, scan.safeCount, scan.safeBoundary)
    decreases |bytes| - at
  {
    var scan := ScanFrom(read, bytes, records, at, |records|, at);
    SafeBoundaryGrows(read, bytes, records, at, |records|, at);
    if at < |bytes| && scan.Scanned? {
      var end := LineEnd(bytes, at);
      var reading := read(bytes[at..end]);
      if !reading.Torn? { ScanLine(read, bytes, records, at, |records|, at); }
      if reading.Torn? || bytes[end-1] != NEWLINE {
        assert scan.safeBoundary == at && scan.safeCount == |records|;
        assert scan.records[..|records|] == records;
      } else {
        var f := reading.fields;
        var grown := Grown(records, at, end, f);
        SafePart(read, bytes, grown, end);
        var prefix := bytes[..scan.safeBoundary];
        assert end <= |prefix|;
        PrefixLine(bytes, prefix, at);
        assert prefix[at..end] == bytes[at..end];
        ScanLine(read, prefix, records, at, |records|, at);
      }
    } else {
      assert at == |bytes| ==> scan.records[..|records|] == records;
    }
  }

  lemma {:induction false} PrefixLine(bytes: Bytes, prefix: Bytes, at: nat)
    requires prefix <= bytes && at < |prefix| && LineEnd(bytes, at) <= |prefix|
    ensures LineEnd(prefix, at) == LineEnd(bytes, at)
    decreases |bytes| - at
  {
    if bytes[at] != NEWLINE && at + 1 < |bytes| {
      PrefixLine(bytes, prefix, at + 1);
    }
  }

  /** What a scan calls safe is exactly the index of the prefix up to its safe boundary. */
  lemma SafePartIsIndexed(read: Reader, bytes: Bytes)
    requires FullScan(read, bytes).Scanned?
    ensures var scan := FullScan(read, bytes);
            && scan.safeBoundary <= |bytes| && scan.safeCount <= |scan.records|
            && Indexes(read, bytes[..scan.safeBoundary], scan.records[..scan.safeCount])
  {
    SafePart(read, bytes, [], 0);
  }

  /** Where the last of `records` ends. */
  function End(records: seq<Record>): nat {
    if records == [] then 0 else records[|records|-1].offset + records[|records|-1].length
  }

  /** One line of an indexed prefix, and what is left to scan after it. */
  lemma IndexedLine(read: Reader, prefix: Bytes, records: seq<Record>, at: nat, found: seq<Record>)
    requires at < |prefix|
    requires ScanFrom(read, prefix, records, at, |records|, at) == Scanned(found, None, |found|, |prefix|)
    ensures var end := LineEnd(prefix, at);
            var reading := read(prefix[at..end]);
            && prefix[end-1] == NEWLINE && (reading.Header? || reading.Validated?)
            && ScanFrom(read, prefix, Grown(records, at, end, reading.fields), end, |records| + 1, end)
               == Scanned(found, None, |found|, |prefix|)
  {
    LineWasRead(read, prefix, records, at);
    ScanLine(read, prefix, records, at, |records|, at);
  }

  lemma LineWasRead(read: Reader, bytes: Bytes, records: seq<Record>, at: nat)
    requires at < |bytes|
    requires var scan := ScanFrom(read, bytes, records, at, |records|, at); scan.Scanned? && scan.torn.None?
    ensures var reading := read(bytes[at..LineEnd(bytes, at)]); reading.Header? || reading.Validated?
  {
  }

  lemma {:induction false} FirstFound(read: Reader, prefix: Bytes, records: seq<Record>, at: nat,
                                      found: seq<Record>, k: nat)
    requires at <= |prefix| && End(records) == at && |records| <= k <= |found|
    requires ScanFrom(read, prefix, records, at, |records|, at) == Scanned(found, None, |found|, |prefix|)
    ensures records <= found && at <= End(found[..k]) <= |prefix|
    ensures ScanFrom(read, prefix[..End(found[..k])], records, at, |records|, at)
         == Scanned(found[..k], None, k, End(found[..k]))
    decreases |prefix| - at
  {
    SafeBoundaryGrows(read, prefix, records, at, |records|, at);
    if k == |records| {
      assert found[..k] == records;
    } else {
      assert at < |prefix|;
      var end := LineEnd(prefix, at);
      var grown := Grown(records, at, end, read(prefix[at..end]).fields);
      IndexedLine(read, prefix, records, at, found);
      FirstFound(read, prefix, grown, end, found, k);
      var shorter := prefix[..End(found[..k])];
      PrefixLine(prefix, shorter, at);
      assert shorter[at..end] == prefix[at..end];
      ScanLine(read, shorter, records, at, |records|, at);
    }
  }

  /** The first records of an index are the index of the bytes they cover. */
  lemma FirstRecordsAreIndexed(read: Reader, prefix: Bytes, records: seq<Record>, k: nat)
    requires Indexes(read, prefix, records) && k <= |records|
    ensures End(records[..k]) <= |prefix| && Indexes(read, prefix[..End(records[..k])], records[..k])
  {
    FirstFound(read, prefix, [], 0, records, k);
  }

  /** Resuming after `records`, which end at `boundary`, is a full scan exactly if they index the bytes
      before it, as long as the scan finds no corrupt line. */
  lemma ResumeIsFullScanExactly(read: Reader, bytes: Bytes, records: seq<Record>, boundary: nat)
    requires End(records) == boundary
    requires ScanFrom(read, bytes, records, boundary, |records|, boundary).Scanned?
    ensures ScanFrom(read, bytes, records, boundary, |records|, boundary) == FullScan(read, bytes) <==>
              boundary <= |bytes| && Indexes(read, bytes[..boundary], records)
  {
    var scan := ScanFrom(read, bytes, records, boundary, |records|, boundary);
    if boundary <= |bytes| && Indexes(read, bytes[..boundary], records) {
      ResumeIsFullScan(read, bytes[..boundary], bytes, records);
    }
    if scan == FullScan(read, bytes) {
      SafePartIsIndexed(read, bytes);
      assert boundary <= |bytes|;
      ResumedSafePartIsIndexedExactly(read, bytes, records, boundary);
    }
  }

  /** What a resumed scan calls safe is an index of its bytes exactly under the same condition, even when
      the resumed scan ends in a line a full scan would not reach. */
  lemma ResumedSafePartIsIndexedExactly(read: Reader, bytes: Bytes, records: seq<Record>, boundary: nat)
    requires End(records) == boundary <= |bytes|
    requires ScanFrom(read, bytes, records, boundary, |records|, boundary).Scanned?
    ensures var scan := ScanFrom(read, bytes, records, boundary, |records|, boundary);
            && boundary <= scan.safeBoundary <= |bytes| && |records| <= scan.safeCount <= |scan.records|
            && (Indexes(read, bytes[..scan.safeBoundary], scan.records[..scan.safeCount]) <==>
                  Indexes(read, bytes[..boundary], records))
  {
    var scan := ScanFrom(read, bytes, records, boundary, |records|, boundary);
    SafePart(read, bytes, records, boundary);
    SafeBoundaryGrows(read, bytes, records, boundary, |records|, boundary);
    if Indexes(read, bytes[..boundary], records) {
      ResumeIsFullScan(read, bytes[..boundary], bytes, records);
      SafePartIsIndexed(read, bytes);
    }
    if Indexes(read, bytes[..scan.safeBoundary], scan.records[..scan.safeCount]) {
      FirstRecordsAreIndexed(read, bytes[..scan.safeBoundary], scan.records[..scan.safeCount], |records|);
      assert scan.records[..scan.safeCount][..|records|] == records;
      assert bytes[..scan.safeBoundary][..boundary] == bytes[..boundary];
    }
  }

  // ---- what a scan finds, line by line ----

  /** [lo, hi) is one line of the journal, its newline included if it has one. */
  ghost predicate IsLine(bytes: Bytes, lo: nat, hi: nat) {
    && lo < hi <= |bytes|
    && (lo == 0 || bytes[lo-1] == NEWLINE) && (hi == |bytes| || bytes[hi-1] == NEWLINE)
    && forall k :: lo <= k < hi - 1 ==> bytes[k] != NEWLINE
  }

  /** A line that is complete but invalid, or torn with others after it. */
  ghost predicate CorruptLine(read: Reader, bytes: Bytes, lo: nat, hi: nat)
    requires lo <= hi <= |bytes|
  {
    read(bytes[lo..hi]).Invalid? || (read(bytes[lo..hi]).Torn? && hi < |bytes|)
  }

  /** The record is one line of the journal and carries the fields read off it. */
  ghost predicate OfLine(read: Reader, bytes: Bytes, record: Record) {
    && IsLine(bytes, record.offset, record.offset + record.length)
    && var reading := read(bytes[record.offset..record.offset+record.length]);
       reading == Header(record.fields) || reading == Validated(record.fields)
  }

  ghost predicate AllOfLines(read: Reader, bytes: Bytes, records: seq<Record>, from: nat) {
    forall i :: from <= i < |records| ==> OfLine(read, bytes, records[i])
  }

  /** A line of the journal at or after `at` is corrupt. */
  ghost predicate SomeCorrupt(read: Reader, bytes: Bytes, at: nat) {
    exists lo: nat, hi: nat :: at <= lo && IsLine(bytes, lo, hi) && CorruptLine(read, bytes, lo, hi)
  }

  /** The last line is torn and begins where the records end, or there is none such and they end the journal. */
  ghost predicate TornTail(read: Reader, bytes: Bytes, records: seq<Record>, torn: Option<nat>) {
    match torn
    case None => End(records) == |bytes|
    case Some(tail) => tail == End(records) && IsLine(bytes, tail, |bytes|) && read(bytes[tail..|bytes|]).Torn?
  }

  /** All records are safe unless the last one's line has no newline yet. */
  ghost predicate SafeCount(bytes: Bytes, records: seq<Record>, count: nat, boundary: nat) {
    if records == [] || (0 < End(records) <= |bytes| && bytes[End(records)-1] == NEWLINE)
    then count == |records| && boundary == End(records)
    else count == |records| - 1 && boundary == records[|records|-1].offset
  }

  /** What a scan on from `records` is: it raises exactly if a line from there on is corrupt; otherwise it
      finds the lines there, a torn last one set aside, and how much of them is safe. */
  ghost predicate Tells(read: Reader, bytes: Bytes, records: seq<Record>, at: nat, scan: Scan) {
    match scan
    case Corrupt(_) => SomeCorrupt(read, bytes, at)
    case Scanned(found, torn, count, boundary) =>
      && !SomeCorrupt(read, bytes, at) && records <= found && AllOfLines(read, bytes, found, |records|)
      && TornTail(read, bytes, found, torn) && SafeCount(bytes, found, count, boundary)
  }

  lemma FirstLine(bytes: Bytes, at: nat)
    requires at < |bytes| && (at == 0 || bytes[at-1] == NEWLINE)
    ensures IsLine(bytes, at, LineEnd(bytes, at))
    ensures forall lo: nat, hi: nat :: at <= lo && IsLine(bytes, lo, hi) ==>
              (lo == at && hi == LineEnd(bytes, at)) || LineEnd(bytes, at) <= lo
  {
  }

  lemma CorruptLater(read: Reader, bytes: Bytes, at: nat)
    requires at < |bytes| && (at == 0 || bytes[at-1] == NEWLINE)
    ensures var end := LineEnd(bytes, at);
            SomeCorrupt(read, bytes, at) <==> CorruptLine(read, bytes, at, end) || SomeCorrupt(read, bytes, end)
  {
    FirstLine(bytes, at);
    var end := LineEnd(bytes, at);
    if SomeCorrupt(read, bytes, end) {
      var lo: nat, hi: nat :| end <= lo && IsLine(bytes, lo, hi) && CorruptLine(read, bytes, lo, hi);
      assert at <= lo;
    }
  }

  lemma NoLineAtEnd(read: Reader, bytes: Bytes)
    ensures !SomeCorrupt(read, bytes, |bytes|)
  {
  }

  /** A scan from a line's start. */
  lemma {:induction false} ScanTells(read: Reader, bytes: Bytes, records: seq<Record>, at: nat)
    requires at <= |bytes| && End(records) == at && (at == 0 <==> records == [])
    requires at == 0 || bytes[at-1] == NEWLINE
    ensures Tells(read, bytes, records, at, ScanFrom(read, bytes, records, at, |records|, at))
    decreases |bytes| - at
  {
    if at == |bytes| {
      NoLineAtEnd(read, bytes);
    } else {
      var end := LineEnd(bytes, at);
      var reading := read(bytes[at..end]);
      CorruptLater(read, bytes, at);
      FirstLine(bytes, at);
      if reading.Header? || reading.Validated? {
        ReadLineTells(read, bytes, records, at);
      } else if reading.Torn? && end == |bytes| {
        NoLineAtEnd(read, bytes);
      }
    }
  }

  lemma {:induction false} ReadLineTells(read: Reader, bytes: Bytes, records: seq<Record>, at: nat)
    requires at < |bytes| && End(records) == at && (at == 0 <==> records == [])
    requires at == 0 || bytes[at-1] == NEWLINE
    requires var reading := read(bytes[at..LineEnd(bytes, at)]); reading.Header? || reading.Validated?
    ensures Tells(read, bytes, records, at, ScanFrom(read, bytes, records, at, |records|, at))
    decreases |bytes| - at, 0
  {
    var end := LineEnd(bytes, at);
    var grown := Grown(records, at, end, read(bytes[at..end]).fields);
    ScanLine(read, bytes, records, at, |records|, at);
    CorruptLater(read, bytes, at);
    FirstLine(bytes, at);
    assert OfLine(read, bytes, grown[|records|]);
    if bytes[end-1] == NEWLINE {
      ScanTells(read, bytes, grown, end);
      GrownTells(read, bytes, records, grown, at, end, ScanFrom(read, bytes, grown, end, |grown|, end));
    } else {
      NoLineAtEnd(read, bytes);
    }
  }

  lemma GrownTells(read: Reader, bytes: Bytes, records: seq<Record>, grown: seq<Record>, at: nat, end: nat, scan: Scan)
    requires |grown| == |records| + 1 && records <= grown && OfLine(read, bytes, grown[|records|])
    requires SomeCorrupt(read, bytes, at) <==> SomeCorrupt(read, bytes, end)
    requires Tells(read, bytes, grown, end, scan)
    ensures Tells(read, bytes, records, at, scan)
  {
    if scan.Scanned? {
      assert scan.records[|records|] == grown[|records|];
    }
  }

  /** A full scan raises exactly if some line is corrupt; otherwise its records are the journal's lines, each
      with the fields read off it, up to a torn last line; and all of them are safe but one without newline. */
  lemma FullScanTells(read: Reader, bytes: Bytes)
    ensures Tells(read, bytes, [], 0, FullScan(read, bytes))
  {
    ScanTells(read, bytes, [], 0);
  }
}
