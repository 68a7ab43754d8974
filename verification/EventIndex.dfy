/** The disposable sidecar index of the event journal (src/server/event_index.py).  SHA-256 is modelled
    as an injective wrapper around the content it covers, and sidecar lines as the values they decode to. */
module EventIndex {
  import opened Common
  import opened JournalScan

  // ---- sequence repair ----

  function Repair(raws: seq<nat>): (out: seq<nat>)
    ensures |out| == |raws|
  {
    if raws == [] then []
    else
      var before := Repair(raws[..|raws|-1]);
      before + [NextSequence(raws[|raws|-1], if before == [] then 0 else before[|before|-1])]
  }

  /** Strictly increasing positive numbers, none below the raw one in its place. */
  ghost predicate Cursor(raws: seq<nat>, out: seq<nat>) {
    && |out| == |raws|
    && (forall i :: 0 <= i < |out| ==> raws[i] <= out[i] && 1 <= out[i])
    && (forall i, j :: 0 <= i < j < |out| ==> out[i] < out[j])
  }

  ghost predicate Below(a: seq<nat>, b: seq<nat>) {
    |a| == |b| && forall i :: 0 <= i < |a| ==> a[i] <= b[i]
  }

  lemma CursorAppend(raws: seq<nat>, raw: nat, out: seq<nat>, next: nat)
    requires Cursor(raws, out) && next == NextSequence(raw, if out == [] then 0 else out[|out|-1])
    ensures Cursor(raws + [raw], out + [next])
  {
    var grown := out + [next];
    forall i, j | 0 <= i < j < |grown|
      ensures grown[i] < grown[j]
    {
      assert j == |out| ==> out[i] <= out[|out|-1];
    }
  }

  lemma {:induction false} RepairIsCursor(raws: seq<nat>)
    ensures Cursor(raws, Repair(raws))
  {
    if raws != [] {
      var n := |raws| - 1;
      var before := Repair(raws[..n]);
      RepairIsCursor(raws[..n]);
      CursorAppend(raws[..n], raws[n], before, NextSequence(raws[n], if before == [] then 0 else before[|before|-1]));
      assert raws[..n] + [raws[n]] == raws;
    }
  }

  lemma CursorPrefix(raws: seq<nat>, out: seq<nat>)
    requires raws != [] && Cursor(raws, out)
    ensures Cursor(raws[..|raws|-1], out[..|raws|-1])
  {
  }

  lemma {:induction false} RepairIsBelow(raws: seq<nat>, other: seq<nat>)
    requires Cursor(raws, other)
    ensures Below(Repair(raws), other)
  {
    if raws != [] {
      var n := |raws| - 1;
      CursorPrefix(raws, other);
      RepairIsBelow(raws[..n], other[..n]);
      assert n > 0 ==> Repair(raws[..n])[n-1] <= other[n-1] < other[n];
    }
  }

  /** The repair is the pointwise least strictly increasing positive sequence above the raw one. */
  lemma RepairIsLeast(raws: seq<nat>, other: seq<nat>)
    ensures Cursor(raws, Repair(raws))
    ensures Cursor(raws, other) ==> Below(Repair(raws), other)
  {
    RepairIsCursor(raws);
    if Cursor(raws, other) {
      RepairIsBelow(raws, other);
    }
  }

  lemma {:induction false} RepairFixesCursors(raws: seq<nat>, out: seq<nat>)
    requires Cursor(raws, out)
    ensures Repair(out) == out
  {
    if out != [] {
      var n := |out| - 1;
      CursorPrefix(raws, out);
      RepairFixesCursors(raws[..n], out[..n]);
      assert out == out[..n] + [out[n]];
      assert n > 0 ==> out[n-1] < out[n];
    }
  }

  /** Repairing a repaired sequence changes nothing. */
  lemma {:induction false} RepairIsIdempotent(raws: seq<nat>)
    ensures Repair(Repair(raws)) == Repair(raws)
  {
    RepairIsCursor(raws);
    RepairFixesCursors(raws, Repair(raws));
  }

  // ---- records that tile a prefix ----

  function Raws(records: seq<Record>): seq<nat> {
    seq(|records|, i requires 0 <= i < |records| => records[i].fields.rawSequence)
  }

  function Sequences(records: seq<Record>): seq<nat> {
    seq(|records|, i requires 0 <= i < |records| => records[i].sequence)
  }

  /** Non-empty ranges, each starting where the one before it ended, the first at zero. */
  predicate Tiles(records: seq<Record>) {
    forall i :: 0 <= i < |records| ==> records[i].length > 0 && records[i].offset == End(records[..i])
  }

  predicate Repaired(records: seq<Record>) {
    forall i :: 0 <= i < |records| ==>
                  records[i].sequence == NextSequence(records[i].fields.rawSequence, LastSequence(records[..i]))
  }

  predicate WellIndexed(records: seq<Record>) {
    Tiles(records) && Repaired(records)
  }

  lemma WellIndexedStep(records: seq<Record>, record: Record)
    ensures WellIndexed(records + [record]) <==>
              && WellIndexed(records) && record.length > 0 && record.offset == End(records)
              && record.sequence == NextSequence(record.fields.rawSequence, LastSequence(records))
  {
    var grown := records + [record];
    assert grown[..|records|] == records;
    forall i | 0 <= i < |records|
      ensures grown[..i] == records[..i] && grown[i] == records[i]
    {
    }
  }

  lemma RepairedStep(records: seq<Record>, record: Record)
    ensures Repaired(records + [record]) <==>
              Repaired(records) && record.sequence == NextSequence(record.fields.rawSequence, LastSequence(records))
  {
    var grown := records + [record];
    assert grown[..|records|] == records;
    assert forall i :: 0 <= i < |records| ==> grown[..i] == records[..i];
  }

  lemma RepairStep(raws: seq<nat>, raw: nat)
    ensures Repair(raws + [raw]) == Repair(raws) + [NextSequence(raw, if raws == [] then 0 else Repair(raws)[|raws|-1])]
  {
    assert (raws + [raw])[..|raws|] == raws;
  }

  lemma {:induction false} RepairedIsRepair(records: seq<Record>)
    ensures Repaired(records) <==> Sequences(records) == Repair(Raws(records))
  {
    if records != [] {
      var n := |records| - 1;
      assert records == records[..n] + [records[n]];
      RepairedIsRepair(records[..n]);
      RepairedIsRepairStep(records[..n], records[n]);
    }
  }

  lemma FieldsAppended(before: seq<Record>, record: Record)
    ensures Raws(before + [record]) == Raws(before) + [record.fields.rawSequence]
    ensures Sequences(before + [record]) == Sequences(before) + [record.sequence]
    ensures before != [] ==> LastSequence(before) == Sequences(before)[|before|-1]
  {
  }

  lemma RepairedIsRepairStep(before: seq<Record>, record: Record)
    requires Repaired(before) <==> Sequences(before) == Repair(Raws(before))
    ensures Repaired(before + [record]) <==> Sequences(before + [record]) == Repair(Raws(before + [record]))
  {
    var raw, repaired := record.fields.rawSequence, Repair(Raws(before));
    FieldsAppended(before, record);
    RepairedStep(before, record);
    RepairStep(Raws(before), raw);
    var last := if before == [] then 0 else repaired[|before|-1];
    AppendEqual(Sequences(before), record.sequence, repaired, NextSequence(raw, last));
  }

  lemma AppendEqual(s: seq<nat>, x: nat, t: seq<nat>, y: nat)
    requires |s| == |t|
    ensures s + [x] == t + [y] <==> s == t && x == y
  {
    assert (s + [x])[..|s|] == s && (t + [y])[..|t|] == t;
    assert (s + [x])[|s|] == x && (t + [y])[|t|] == y;
  }

  /** Well-indexed records cover every byte before their end exactly once, and their sequences are the
      least cursor above the raw ones. */
  lemma WellIndexedTiles(records: seq<Record>, byte: nat)
    requires WellIndexed(records) && byte < End(records)
    ensures exists i :: 0 <= i < |records| && Covers(records[i], byte)
    ensures forall i, j :: 0 <= i < j < |records| ==> !(Covers(records[i], byte) && Covers(records[j], byte))
    ensures Cursor(Raws(records), Sequences(records))
    ensures forall other :: Cursor(Raws(records), other) ==> Below(Sequences(records), other)
  {
    SomeCovers(records, byte);
    forall i, j | 0 <= i < j < |records|
      ensures !(Covers(records[i], byte) && Covers(records[j], byte))
    {
      EndsBefore(records, i, j);
    }
    RepairedIsRepair(records);
    RepairIsCursor(Raws(records));
    forall other | Cursor(Raws(records), other)
      ensures Below(Sequences(records), other)
    {
      RepairIsBelow(Raws(records), other);
    }
  }

  ghost predicate Covers(record: Record, byte: nat) {
    record.offset <= byte < record.offset + record.length
  }

  lemma {:induction false} SomeCovers(records: seq<Record>, byte: nat)
    requires Tiles(records) && byte < End(records)
    ensures exists i :: 0 <= i < |records| && Covers(records[i], byte)
  {
    var n := |records| - 1;
    if byte < records[n].offset {
      var before := records[..n];
      assert forall i :: 0 <= i < n ==> before[..i] == records[..i];
      SomeCovers(before, byte);
      var i :| 0 <= i < |before| && Covers(before[i], byte);
      assert Covers(records[i], byte);
    } else {
      assert Covers(records[n], byte);
    }
  }

  lemma {:induction false} EndsBefore(records: seq<Record>, i: nat, j: nat)
    requires Tiles(records) && i < j < |records|
    ensures records[i].offset + records[i].length <= records[j].offset
    decreases j
  {
    assert records[..j][j-1] == records[j-1];
    if i < j - 1 {
      EndsBefore(records, i, j - 1);
    }
  }

  lemma GrownIsWellIndexed(records: seq<Record>, at: nat, end: nat, f: Fields)
    requires WellIndexed(records) && End(records) == at < end
    ensures WellIndexed(Grown(records, at, end, f)) && End(Grown(records, at, end, f)) == end
  {
    WellIndexedStep(records, Grown(records, at, end, f)[|records|]);
  }

  ghost predicate PassesChecks(scan: Scan, bytes: Bytes) {
    scan.Scanned? ==> WellIndexed(scan.records) && (scan.torn.None? ==> End(scan.records) == |bytes|)
  }

  /** One line read: what is left to scan, from records that still pass. */
  lemma LinePassesChecks(read: Reader, bytes: Bytes, records: seq<Record>, at: nat, count: nat, safe: nat)
    requires at < |bytes| && WellIndexed(records) && End(records) == at
    requires var reading := read(bytes[at..LineEnd(bytes, at)]); reading.Header? || reading.Validated?
    ensures var end := LineEnd(bytes, at);
            var grown := Grown(records, at, end, read(bytes[at..end]).fields);
            && WellIndexed(grown) && End(grown) == end
            && if bytes[end-1] == NEWLINE
               then ScanFrom(read, bytes, records, at, count, safe) == ScanFrom(read, bytes, grown, end, |grown|, end)
               else PassesChecks(ScanFrom(read, bytes, records, at, count, safe), bytes)
  {
    GrownIsWellIndexed(records, at, LineEnd(bytes, at), read(bytes[at..LineEnd(bytes, at)]).fields);
    ScanLine(read, bytes, records, at, count, safe);
  }

  lemma StopPassesChecks(read: Reader, bytes: Bytes, records: seq<Record>, at: nat, count: nat, safe: nat)
    requires at <= |bytes| && WellIndexed(records) && End(records) == at
    requires at < |bytes| ==> var reading := read(bytes[at..LineEnd(bytes, at)]); reading.Torn? || reading.Invalid?
    ensures PassesChecks(ScanFrom(read, bytes, records, at, count, safe), bytes)
  {
    var scan := ScanFrom(read, bytes, records, at, count, safe);
    assert scan.Scanned? ==> scan.records == records && (scan.torn.None? ==> at == |bytes|);
  }

  /** A scan's own records pass the sidecar's checks. */
  lemma {:induction false} ScanIsWellIndexed(read: Reader, bytes: Bytes, records: seq<Record>,
                                             at: nat, count: nat, safe: nat)
    requires at <= |bytes| && WellIndexed(records) && End(records) == at
    ensures PassesChecks(ScanFrom(read, bytes, records, at, count, safe), bytes)
    decreases |bytes| - at
  {
    if at < |bytes| && var reading := read(bytes[at..LineEnd(bytes, at)]); reading.Header? || reading.Validated? {
      var end := LineEnd(bytes, at);
      LinePassesChecks(read, bytes, records, at, count, safe);
      if bytes[end-1] == NEWLINE {
        var grown := Grown(records, at, end, read(bytes[at..end]).fields);
        ScanIsWellIndexed(read, bytes, grown, end, |grown|, end);
      }
    } else {
      StopPassesChecks(read, bytes, records, at, count, safe);
    }
  }

  // ---- the source file ----

  datatype Sha = Sha(content: Bytes)
  datatype FileStat = FileStat(device: nat, inode: nat, size: nat, mtime: nat, ctime: nat)
  datatype Identity = Identity(stat: FileStat, prefix: Sha)
  datatype File = File(device: nat, inode: nat, mtime: nat, ctime: nat, bytes: Bytes) {
    function Stat(): FileStat {
      FileStat(device, inode, |bytes|, mtime, ctime)
    }
  }

  const HASH_CHUNK := 64 * 1024

  /** `_prefix_digest`: hash exactly `boundary` bytes; each read may come back short of what was asked,
      as `shortfall` decides, but is empty only at the end of the stream. */
  method PrefixDigest(stream: Bytes, boundary: nat, shortfall: nat -> nat) returns (digest: Option<Sha>)
    ensures digest == if boundary <= |stream| then Some(Sha(stream[..boundary])) else None
  {
    var hashed: Bytes := [];
    var remaining := boundary;
    var position := 0;
    while remaining > 0
      invariant 0 <= remaining && position == |hashed| && position + remaining == boundary
      invariant position <= |stream| && hashed == stream[..position]
    {
      var asked := if remaining < HASH_CHUNK then remaining else HASH_CHUNK;
      var available := if |stream| - position < asked then |stream| - position else asked;
      var short := shortfall(position);
      var got := if available > 1 + short then available - short else if available > 0 then 1 else 0;
      if got == 0 {
        return None;
      }
      hashed := hashed + stream[position..position+got];
      remaining := remaining - got;
      position := position + got;
    }
    return Some(Sha(hashed));
  }

  /** `_source_identity`.  `view` is the one file state a call saw when its three stats agree; None when
      the file could not be read or changed under the call. */
  function SourceIdentity(view: Option<File>, boundary: nat): Option<Identity> {
    if view.None? || boundary > |view.value.bytes| then None
    else Some(Identity(view.value.Stat(), Sha(view.value.bytes[..boundary])))
  }

  method ReadIdentity(view: Option<File>, boundary: nat, shortfall: nat -> nat) returns (identity: Option<Identity>)
    ensures identity == SourceIdentity(view, boundary)
  {
    if view.None? || boundary > |view.value.bytes| {
      return None;
    }
    var prefix := PrefixDigest(view.value.bytes, boundary, shortfall);
    return Some(Identity(view.value.Stat(), prefix.value));
  }

  predicate PrefixUnchanged(current: Identity, expected: Identity) {
    && current.stat.device == expected.stat.device && current.stat.inode == expected.stat.inode
    && current.stat.size >= expected.stat.size
    && (current.stat.size == expected.stat.size ==>
          current.stat.mtime == expected.stat.mtime && current.stat.ctime == expected.stat.ctime)
    && current.prefix == expected.prefix
  }

  // ---- the sidecar ----

  const FORMAT := "vibesys-event-index"
  const VERSION := 4

  /** A sidecar line as it decodes; `Other` is any line that decodes to none of these. */
  datatype Line =
    | HeaderLine(format: string, version: nat, source: Identity, boundary: nat, count: nat)
    | RecordLine(record: Record)
    | FooterLine(sha: LineSha)
    | Other(text: string)

  datatype LineSha = LineSha(covered: seq<Line>)
  type Sidecar = seq<Line>
  datatype Loaded = Loaded(records: seq<Record>, boundary: nat)

  function RecordLines(records: seq<Record>): seq<Line> {
    seq(|records|, i requires 0 <= i < |records| => RecordLine(records[i]))
  }

  function Encode(source: Identity, boundary: nat, records: seq<Record>): Sidecar {
    var body := [HeaderLine(FORMAT, VERSION, source, boundary, |records|)] + RecordLines(records);
    body + [FooterLine(LineSha(body))]
  }

  /** What it takes for `sidecar` to load as `index`, the file being seen as `before` and then `after`. */
  ghost predicate Loads(sidecar: Sidecar, before: Option<File>, after: Option<File>, index: Loaded) {
    && sidecar != [] && sidecar[0].HeaderLine?
    && sidecar == Encode(sidecar[0].source, index.boundary, index.records)
    && WellIndexed(index.records) && End(index.records) == index.boundary
    && SourceIdentity(before, index.boundary).Some?
    && PrefixUnchanged(SourceIdentity(before, index.boundary).value, sidecar[0].source)
    && SourceIdentity(after, index.boundary) == SourceIdentity(before, index.boundary)
  }

  /** However a sidecar was produced, the records it loads cover every byte before the boundary exactly
      once, and their sequences are the least cursor above the raw ones. */
  lemma LoadedRecordsTile(sidecar: Sidecar, before: Option<File>, after: Option<File>, index: Loaded, byte: nat)
    requires Loads(sidecar, before, after, index) && byte < index.boundary
    ensures var records := index.records;
            && (exists i :: 0 <= i < |records| && Covers(records[i], byte))
            && (forall i, j :: 0 <= i < j < |records| ==> !(Covers(records[i], byte) && Covers(records[j], byte)))
            && Cursor(Raws(records), Sequences(records))
            && (forall other :: Cursor(Raws(records), other) ==> Below(Sequences(records), other))
  {
    WellIndexedTiles(index.records, byte);
  }

  /** `_load_records`, from the line after the header. */
  method LoadRecords(sidecar: Sidecar, count: nat, boundary: nat) returns (loaded: Option<seq<Record>>)
    requires sidecar != []
    ensures loaded.Some? ==>
              && |loaded.value| == count < |sidecar| && sidecar[1..count+1] == RecordLines(loaded.value)
              && WellIndexed(loaded.value) && End(loaded.value) == boundary
    ensures loaded.None? ==>
              forall records: seq<Record> ::
                |records| == count < |sidecar| && sidecar[1..count+1] == RecordLines(records)
                ==> !(WellIndexed(records) && End(records) == boundary)
  {
    var records: seq<Record> := [];
    var expectedOffset, lastSequence := 0, 0;
    for i := 0 to count
      invariant |records| == i < |sidecar| && sidecar[1..i+1] == RecordLines(records)
      invariant WellIndexed(records) && End(records) == expectedOffset && LastSequence(records) == lastSequence
    {
      if i + 1 >= |sidecar| || !sidecar[i+1].RecordLine? {
        RejectLine(sidecar, count, i);
        return None;
      }
      var record := sidecar[i+1].record;
      WellIndexedStep(records, record);
      if record.offset != expectedOffset || record.length <= 0
         || record.sequence != NextSequence(record.fields.rawSequence, lastSequence) {
        RejectRecord(sidecar, count, records, record);
        return None;
      }
      RecordLinesStep(sidecar, records, record);
      records := records + [record];
      expectedOffset := expectedOffset + record.length;
      lastSequence := record.sequence;
    }
    if expectedOffset != boundary {
      forall other: seq<Record> | |other| == count && sidecar[1..count+1] == RecordLines(other)
        ensures other == records
      {
        SameLines(other, records);
      }
      return None;
    }
    return Some(records);
  }

  lemma RecordLinesStep(sidecar: Sidecar, records: seq<Record>, record: Record)
    requires |records| + 1 < |sidecar|
    requires sidecar[1..|records|+1] == RecordLines(records) && sidecar[|records|+1] == RecordLine(record)
    ensures sidecar[1..|records|+2] == RecordLines(records + [record])
  {
    assert sidecar[1..|records|+2] == sidecar[1..|records|+1] + [sidecar[|records|+1]];
    assert RecordLines(records + [record]) == RecordLines(records) + [RecordLine(record)];
  }

  lemma SameLines(a: seq<Record>, b: seq<Record>)
    requires RecordLines(a) == RecordLines(b)
    ensures a == b
  {
    assert |a| == |RecordLines(a)| == |b|;
    forall i | 0 <= i < |a|
      ensures a[i] == b[i]
    {
      assert RecordLines(a)[i] == RecordLine(a[i]);
      assert RecordLines(b)[i] == RecordLine(b[i]);
    }
  }

  lemma RejectLine(sidecar: Sidecar, count: nat, i: nat)
    requires sidecar != [] && i < count && (i + 1 >= |sidecar| || !sidecar[i+1].RecordLine?)
    ensures forall records: seq<Record> ::
              |records| == count < |sidecar| ==> sidecar[1..count+1] != RecordLines(records)
  {
    forall records: seq<Record> | |records| == count < |sidecar|
      ensures sidecar[1..count+1] != RecordLines(records)
    {
      assert RecordLines(records)[i].RecordLine?;
      assert sidecar[1..count+1][i] == sidecar[i+1];
    }
  }

  lemma RejectRecord(sidecar: Sidecar, count: nat, before: seq<Record>, record: Record)
    requires |before| < count && |before| + 1 < |sidecar|
    requires sidecar[1..|before|+1] == RecordLines(before) && sidecar[|before|+1] == RecordLine(record)
    requires !WellIndexed(before + [record])
    ensures forall records: seq<Record> ::
              |records| == count < |sidecar| && sidecar[1..count+1] == RecordLines(records) ==> !WellIndexed(records)
  {
    forall records: seq<Record> | |records| == count < |sidecar| && sidecar[1..count+1] == RecordLines(records)
      ensures !WellIndexed(records)
    {
      var n := |before| + 1;
      assert RecordLines(records)[..n] == RecordLines(records[..n]);
      TakeOfSlice(sidecar, count, n);
      RecordLinesStep(sidecar, before, record);
      SameLines(records[..n], before + [record]);
      if WellIndexed(records) {
        WellIndexedPrefix(records, n);
      }
    }
  }

  lemma TakeOfSlice(sidecar: Sidecar, count: nat, n: nat)
    requires n <= count < |sidecar|
    ensures sidecar[1..count+1][..n] == sidecar[1..n+1]
  {
    var a, b := sidecar[1..count+1][..n], sidecar[1..n+1];
    assert |a| == |b|;
    forall i | 0 <= i < n
      ensures a[i] == b[i]
    {
      assert a[i] == sidecar[1..count+1][i];
    }
  }

  lemma WellIndexedPrefix(records: seq<Record>, n: nat)
    requires WellIndexed(records) && n <= |records|
    ensures WellIndexed(records[..n])
  {
    forall i | 0 <= i < n
      ensures records[..n][..i] == records[..i]
    {
    }
  }

  lemma LoadsShape(sidecar: Sidecar, before: Option<File>, after: Option<File>, index: Loaded)
    requires Loads(sidecar, before, after, index)
    ensures var count := |index.records|;
            && |sidecar| == count + 2
            && sidecar[0] == HeaderLine(FORMAT, VERSION, sidecar[0].source, index.boundary, count)
            && sidecar[1..count+1] == RecordLines(index.records)
            && sidecar[count+1] == FooterLine(LineSha(sidecar[..count+1]))
  {
  }

  /** `load_event_index`: loads exactly what `Loads` describes, and nothing otherwise. */
  method LoadEventIndex(sidecar: Option<Sidecar>, before: Option<File>, after: Option<File>, shortfall: nat -> nat)
    returns (index: Option<Loaded>)
    ensures index.Some? ==> sidecar.Some? && Loads(sidecar.value, before, after, index.value)
    ensures index.None? && sidecar.Some? ==> forall other :: !Loads(sidecar.value, before, after, other)
  {
    if sidecar.None? {
      return None;
    }
    var lines := sidecar.value;
    forall other | Loads(lines, before, after, other)
      ensures var count := |other.records|;
              && |lines| == count + 2
              && lines[0] == HeaderLine(FORMAT, VERSION, lines[0].source, other.boundary, count)
              && lines[1..count+1] == RecordLines(other.records)
              && lines[count+1] == FooterLine(LineSha(lines[..count+1]))
    {
      LoadsShape(lines, before, after, other);
    }
    if lines == [] || !lines[0].HeaderLine? || lines[0].format != FORMAT || lines[0].version != VERSION {
      return None;
    }
    var boundary, count := lines[0].boundary, lines[0].count;
    var current := ReadIdentity(before, boundary, shortfall);
    if current.None? || !PrefixUnchanged(current.value, lines[0].source) {
      return None;
    }
    var records := LoadRecords(lines, count, boundary);
    if records.None? || count + 1 >= |lines| || !lines[count+1].FooterLine? {
      return None;
    }
    if lines[count+1].sha != LineSha(lines[..count+1]) || count + 2 != |lines| {
      return None;
    }
    var still := ReadIdentity(after, boundary, shortfall);
    if still != current {
      return None;
    }
    assert lines == [lines[0]] + lines[1..count+1] + [lines[count+1]];
    assert lines[..count+1] == [lines[0]] + lines[1..count+1];
    return Some(Loaded(records.value, boundary));
  }

  /** Where an OSError may strike a write: up to the atomic replacement, or closing the directory after it. */
  datatype Fault = NoFault | BeforePublication | AfterPublication

  /** `write_event_index`, the source being seen as `first` and, just before publication, as `second`.
      The sidecar changes only by whole publication; a write that reports success has published. */
  method WriteEventIndex(previous: Option<Sidecar>, first: Option<File>, second: Option<File>, records: seq<Record>,
                         recordCount: nat, boundary: nat, expected: FileStat, fault: Fault, shortfall: nat -> nat)
    returns (ok: bool, sidecar: Option<Sidecar>)
    ensures sidecar == Published(previous, first, second, records, recordCount, boundary, expected, fault)
    ensures ok == Succeeds(first, second, records, recordCount, boundary, expected, fault)
  {
    var identity := ReadIdentity(first, boundary, shortfall);
    if identity.None? || identity.value.stat != expected {
      return false, previous;
    }
    if fault.BeforePublication? {
      return false, previous;
    }
    var temporary := [HeaderLine(FORMAT, VERSION, identity.value, boundary, recordCount)];
    var digest := temporary;
    var written := 0;
    for i := 0 to |records|
      invariant written == i
      invariant temporary == digest
             == [HeaderLine(FORMAT, VERSION, identity.value, boundary, recordCount)] + RecordLines(records[..i])
    {
      assert RecordLines(records[..i+1]) == RecordLines(records[..i]) + [RecordLine(records[i])];
      temporary := temporary + [RecordLine(records[i])];
      digest := digest + [RecordLine(records[i])];
      written := written + 1;
    }
    assert records[..|records|] == records;
    temporary := temporary + [FooterLine(LineSha(digest))];
    var still := ReadIdentity(second, boundary, shortfall);
    if written != recordCount || still != identity {
      return false, previous;
    }
    return fault.NoFault?, Some(temporary);
  }

  predicate MayPublish(first: Option<File>, second: Option<File>, records: seq<Record>, recordCount: nat,
                       boundary: nat, expected: FileStat)
  {
    var identity := SourceIdentity(first, boundary);
    && identity.Some? && identity.value.stat == expected
    && |records| == recordCount && SourceIdentity(second, boundary) == identity
  }

  function Published(previous: Option<Sidecar>, first: Option<File>, second: Option<File>, records: seq<Record>,
                     recordCount: nat, boundary: nat, expected: FileStat, fault: Fault): Option<Sidecar>
  {
    if MayPublish(first, second, records, recordCount, boundary, expected) && !fault.BeforePublication?
    then Some(Encode(SourceIdentity(first, boundary).value, boundary, records))
    else previous
  }

  predicate Succeeds(first: Option<File>, second: Option<File>, records: seq<Record>, recordCount: nat,
                     boundary: nat, expected: FileStat, fault: Fault)
  {
    MayPublish(first, second, records, recordCount, boundary, expected) && fault.NoFault?
  }

  /** A write that returns False has left the old sidecar exactly unless closing the directory failed after
      a new one was published; one that returns True has published. */
  lemma FalseKeepsTheSidecarExactly(previous: Option<Sidecar>, first: Option<File>, second: Option<File>,
                                    records: seq<Record>, recordCount: nat, boundary: nat, expected: FileStat,
                                    fault: Fault)
    ensures var sidecar := Published(previous, first, second, records, recordCount, boundary, expected, fault);
            var may := MayPublish(first, second, records, recordCount, boundary, expected);
            var fresh' := if may then Some(Encode(SourceIdentity(first, boundary).value, boundary, records)) else None;
            if Succeeds(first, second, records, recordCount, boundary, expected, fault) then sidecar == fresh'
            else sidecar != previous <==> may && fault.AfterPublication? && fresh' != previous
  {
  }

  /** It does happen: the first index of an empty journal, and a directory that fails to close. */
  lemma PublishedYetFalse()
    ensures var file := File(1, 1, 1, 1, []);
            var sidecar := Published(None, Some(file), Some(file), [], 0, 0, file.Stat(), AfterPublication);
            && !Succeeds(Some(file), Some(file), [], 0, 0, file.Stat(), AfterPublication)
            && sidecar == Some(Encode(Identity(file.Stat(), Sha([])), 0, []))
  {
    var file := File(1, 1, 1, 1, []);
    assert SourceIdentity(Some(file), 0) == Some(Identity(file.Stat(), Sha([])));
  }

  // ---- the cache agrees with the scan ----

  /** The sidecar was written for a scan: its records index the very prefix its digest covers. */
  ghost predicate Honest(read: Reader, sidecar: Sidecar) {
    exists source: Identity, records ::
      && sidecar == Encode(source, |source.prefix.content|, records)
      && Indexes(read, source.prefix.content, records)
  }

  lemma EncodeIsInjective(a: Identity, i: nat, r: seq<Record>, b: Identity, j: nat, s: seq<Record>)
    requires Encode(a, i, r) == Encode(b, j, s)
    ensures a == b && i == j && r == s
  {
    var x, y := Encode(a, i, r), Encode(b, j, s);
    assert x[0] == HeaderLine(FORMAT, VERSION, a, i, |r|) && y[0] == HeaderLine(FORMAT, VERSION, b, j, |s|);
    assert x[1..|r|+1] == RecordLines(r) && y[1..|s|+1] == RecordLines(s);
    SameLines(r, s);
  }

  /** Whatever happened to the file since an honest sidecar was written, a successful load returns the
      scan of the file's current first `boundary` bytes, and scanning on from there is a full scan. */
  lemma LoadAgreesWithScan(read: Reader, sidecar: Sidecar, before: Option<File>, after: Option<File>, index: Loaded)
    requires Honest(read, sidecar) && Loads(sidecar, before, after, index)
    ensures after.Some? && index.boundary <= |after.value.bytes|
    ensures Indexes(read, after.value.bytes[..index.boundary], index.records)
    ensures ScanFrom(read, after.value.bytes, index.records, index.boundary, |index.records|, index.boundary)
         == FullScan(read, after.value.bytes)
  {
    var source: Identity, records :|
      sidecar == Encode(source, |source.prefix.content|, records) && Indexes(read, source.prefix.content, records);
    EncodeIsInjective(source, |source.prefix.content|, records, sidecar[0].source, index.boundary, index.records);
    assert after.value.bytes[..index.boundary] == source.prefix.content;
    ResumeIsFullScan(read, source.prefix.content, after.value.bytes, records);
  }

  function Take<T>(s: seq<T>, n: nat): seq<T> {
    if n <= |s| then s[..n] else s
  }

  /** As far as the load can tell, `now` is the file `earlier` or that file grown: the same device and inode,
      not shorter, untouched if as long, and with the same first `boundary` bytes. */
  predicate SameOrGrown(earlier: File, now: File, boundary: nat)
    requires boundary <= |earlier.bytes|
  {
    && now.device == earlier.device && now.inode == earlier.inode
    && |now.bytes| >= |earlier.bytes|
    && (|now.bytes| == |earlier.bytes| ==> now.mtime == earlier.mtime && now.ctime == earlier.ctime)
    && now.bytes[..boundary] == earlier.bytes[..boundary]
  }

  /** What was written loads back, exactly as written, if and only if the file is the same or grown as far
      as the load can tell. */
  lemma LoadsBackExactly(read: Reader, earlier: File, now: File, boundary: nat, records: seq<Record>, index: Loaded)
    requires boundary <= |earlier.bytes| && Indexes(read, earlier.bytes[..boundary], records)
    ensures Loads(Encode(SourceIdentity(Some(earlier), boundary).value, boundary, records), Some(now), Some(now), index)
            <==> index == Loaded(records, boundary) && SameOrGrown(earlier, now, boundary)
  {
    var source := SourceIdentity(Some(earlier), boundary).value;
    var sidecar := Encode(source, boundary, records);
    ScanIsWellIndexed(read, earlier.bytes[..boundary], [], 0, 0, 0);
    if Loads(sidecar, Some(now), Some(now), index) {
      EncodeIsInjective(source, boundary, records, sidecar[0].source, index.boundary, index.records);
    }
  }

  // ---- one attach, while the file may change under it ----

  /** One attach of the journal and the file as each of its steps finds it: the two identity reads of the
      load, the stat taken before the scan, the bytes the scan reads, and the two identity reads of the
      write.  Nothing says that these are the same file. */
  datatype Attach = Attach(
    loadBefore: Option<File>, loadAfter: Option<File>,
    statted: Option<FileStat>, scanned: Bytes,
    writeBefore: Option<File>, writeAfter: Option<File>,
    readOnly: bool, fault: Fault)

  /** What the stat before the scan is taken for: a file that still has it when the write reads its
      identity holds the bytes the scan read. */
  predicate StatPinsScan(a: Attach) {
    a.statted.Some? && a.writeBefore.Some? && a.writeBefore.value.Stat() == a.statted.value ==>
      a.writeBefore.value.bytes == a.scanned
  }

  ghost predicate Hits(sidecar: Option<Sidecar>, a: Attach, index: Loaded) {
    sidecar.Some? && Loads(sidecar.value, a.loadBefore, a.loadAfter, index)
  }

  ghost predicate Known(known: string -> bool, records: seq<Record>) {
    forall i :: 0 <= i < |records| ==> known(records[i].fields.eventType)
  }

  /** The cached index an attach resumes from: one that loads and names only known event types. */
  ghost function Cached(known: string -> bool, sidecar: Option<Sidecar>, a: Attach): (hit: Option<Loaded>)
    ensures hit.Some? ==> Hits(sidecar, a, hit.value)
  {
    if index: Loaded :| Hits(sidecar, a, index) && Known(known, index.records) then Some(index) else None
  }

  /** A sidecar holds one index, so which one an attach resumes from is no choice. */
  lemma CachedIsTheIndex(known: string -> bool, sidecar: Option<Sidecar>, a: Attach, index: Loaded)
    requires Hits(sidecar, a, index) && Known(known, index.records)
    ensures Cached(known, sidecar, a) == Some(index)
  {
    var hit := Cached(known, sidecar, a).value;
    var source := sidecar.value[0].source;
    EncodeIsInjective(source, hit.boundary, hit.records, source, index.boundary, index.records);
  }

  ghost function Resumed(read: Reader, scanned: Bytes, index: Loaded): Scan {
    ScanFrom(read, scanned, index.records, index.boundary, |index.records|, index.boundary)
  }

  /** `_scan_unlocked`: resume from the cache on a hit, else scan the whole file. */
  ghost function AttachScan(read: Reader, known: string -> bool, sidecar: Option<Sidecar>, a: Attach): Scan {
    match Cached(known, sidecar, a)
    case Some(index) => Resumed(read, a.scanned, index)
    case None => FullScan(read, a.scanned)
  }

  /** What publishing a scan's safe part leaves as the sidecar. */
  function PublishedScan(sidecar: Option<Sidecar>, scan: Scan, a: Attach): Option<Sidecar>
    requires scan.Scanned?
  {
    if a.statted.None? then sidecar
    else Published(sidecar, a.writeBefore, a.writeAfter, Take(scan.records, scan.safeCount), scan.safeCount,
                   scan.safeBoundary, a.statted.value, a.fault)
  }

  /** The attach writes a new sidecar: every check of the write holds and nothing fails before it. */
  ghost predicate Writes(scan: Scan, a: Attach) {
    && scan.Scanned? && a.statted.Some? && !a.fault.BeforePublication?
    && MayPublish(a.writeBefore, a.writeAfter, Take(scan.records, scan.safeCount), scan.safeCount,
                  scan.safeBoundary, a.statted.value)
  }

  /** The sidecar afterwards.  Nothing is published by a scan that raised, by a read-only attach, or
      when the cache already reached the safe boundary. */
  ghost function AttachSidecar(read: Reader, known: string -> bool, sidecar: Option<Sidecar>, a: Attach)
    : Option<Sidecar>
  {
    var hit, scan := Cached(known, sidecar, a), AttachScan(read, known, sidecar, a);
    if scan.Corrupt? || a.readOnly || (hit.Some? && scan.safeBoundary == hit.value.boundary) then sidecar
    else PublishedScan(sidecar, scan, a)
  }

  ghost predicate HonestIfAny(read: Reader, sidecar: Option<Sidecar>) {
    sidecar.Some? ==> Honest(read, sidecar.value)
  }

  /** What a write publishes is honest exactly if the scan's safe part indexes the bytes the scan read. */
  lemma PublishedIsHonestExactly(read: Reader, sidecar: Option<Sidecar>, scan: Scan, a: Attach)
    requires StatPinsScan(a) && Writes(scan, a) && scan.safeCount <= |scan.records|
    ensures PublishedScan(sidecar, scan, a).Some? && scan.safeBoundary <= |a.scanned|
    ensures Honest(read, PublishedScan(sidecar, scan, a).value) <==>
              Indexes(read, a.scanned[..scan.safeBoundary], scan.records[..scan.safeCount])
  {
    var source := SourceIdentity(a.writeBefore, scan.safeBoundary).value;
    var records := scan.records[..scan.safeCount];
    var written := Encode(source, scan.safeBoundary, records);
    assert source.prefix.content == a.scanned[..scan.safeBoundary];
    assert PublishedScan(sidecar, scan, a) == Some(written);
    if Honest(read, written) {
      var other: Identity, others :|
        written == Encode(other, |other.prefix.content|, others) && Indexes(read, other.prefix.content, others);
      EncodeIsInjective(source, scan.safeBoundary, records, other, |other.prefix.content|, others);
    }
  }

  /** After a full scan every write is honest, whatever the file did before the scan and after it. */
  lemma WriteAfterFullScanIsHonest(read: Reader, sidecar: Option<Sidecar>, a: Attach)
    requires StatPinsScan(a) && FullScan(read, a.scanned).Scanned? && HonestIfAny(read, sidecar)
    ensures HonestIfAny(read, PublishedScan(sidecar, FullScan(read, a.scanned), a))
  {
    SafePartIsIndexed(read, a.scanned);
    if Writes(FullScan(read, a.scanned), a) {
      PublishedIsHonestExactly(read, sidecar, FullScan(read, a.scanned), a);
    }
  }

  /** The records resumed from are the index of the bytes the scan did not read again. */
  ghost predicate StillIndexes(read: Reader, index: Loaded, scanned: Bytes) {
    index.boundary <= |scanned| && Indexes(read, scanned[..index.boundary], index.records)
  }

  /** A resumed scan that gets past the boundary, and writes, writes an honest sidecar exactly if the
      records it resumed from still index the file it read. */
  lemma WriteAfterResumeIsHonestExactly(read: Reader, sidecar: Option<Sidecar>, a: Attach, index: Loaded)
    requires Hits(sidecar, a, index) && StatPinsScan(a)
    requires var scan := Resumed(read, a.scanned, index); Writes(scan, a) && scan.safeBoundary != index.boundary
    ensures var written := PublishedScan(sidecar, Resumed(read, a.scanned, index), a);
            written.Some? && (Honest(read, written.value) <==> StillIndexes(read, index, a.scanned))
  {
    assert index.boundary < |a.scanned|;
    ResumedSafePartIsIndexedExactly(read, a.scanned, index.records, index.boundary);
    PublishedIsHonestExactly(read, sidecar, Resumed(read, a.scanned, index), a);
  }

  /** Likewise for what the attach itself sees: unless it stops at a corrupt line, it is the full scan
      exactly if the records resumed from still index the file. */
  lemma AttachSeesFullScanExactly(read: Reader, known: string -> bool, sidecar: Option<Sidecar>, a: Attach)
    requires AttachScan(read, known, sidecar, a).Scanned?
    ensures var hit := Cached(known, sidecar, a);
            AttachScan(read, known, sidecar, a) == FullScan(read, a.scanned) <==>
              (hit.Some? ==> StillIndexes(read, hit.value, a.scanned))
  {
    var hit := Cached(known, sidecar, a);
    if hit.Some? {
      ResumeIsFullScanExactly(read, a.scanned, hit.value.records, hit.value.boundary);
    }
  }

  // ---- every attach of every history ----

  ghost function SidecarAfter(read: Reader, known: string -> bool, history: seq<Attach>): Option<Sidecar> {
    if history == [] then None
    else AttachSidecar(read, known, SidecarAfter(read, known, history[..|history|-1]), history[|history|-1])
  }

  /** On a hit, the records resumed from still index the file when the scan reads it. */
  ghost predicate Settled(read: Reader, known: string -> bool, sidecar: Option<Sidecar>, a: Attach) {
    var hit := Cached(known, sidecar, a);
    StatPinsScan(a) && (hit.Some? ==> StillIndexes(read, hit.value, a.scanned))
  }

  /** The journal is only appended to between the load and the scan. */
  predicate OnlyGrows(a: Attach) {
    a.loadAfter.Some? ==> a.loadAfter.value.bytes <= a.scanned
  }

  lemma GrowingIsSettled(read: Reader, known: string -> bool, sidecar: Option<Sidecar>, a: Attach)
    requires HonestIfAny(read, sidecar) && StatPinsScan(a) && OnlyGrows(a)
    ensures Settled(read, known, sidecar, a)
  {
    var hit := Cached(known, sidecar, a);
    if hit.Some? {
      LoadAgreesWithScan(read, sidecar.value, a.loadBefore, a.loadAfter, hit.value);
      assert a.scanned[..hit.value.boundary] == a.loadAfter.value.bytes[..hit.value.boundary];
    }
  }

  lemma SettledAttachIsHonest(read: Reader, known: string -> bool, sidecar: Option<Sidecar>, a: Attach)
    requires HonestIfAny(read, sidecar) && Settled(read, known, sidecar, a)
    ensures HonestIfAny(read, AttachSidecar(read, known, sidecar, a))
  {
    var hit, scan := Cached(known, sidecar, a), AttachScan(read, known, sidecar, a);
    if scan.Scanned? {
      if hit.None? {
        WriteAfterFullScanIsHonest(read, sidecar, a);
      } else if Writes(scan, a) && scan.safeBoundary != hit.value.boundary {
        WriteAfterResumeIsHonestExactly(read, sidecar, a, hit.value);
      }
    }
  }

  /** Every attach of the history is settled. */
  ghost predicate AllSettled(read: Reader, known: string -> bool, history: seq<Attach>) {
    history == [] ||
    (var before := history[..|history|-1];
     && AllSettled(read, known, before)
     && Settled(read, known, SidecarAfter(read, known, before), history[|history|-1]))
  }

  /** Over any history in which no file is replaced between an attach's load and its scan by one its
      records do not index, the sidecar stays honest. */
  lemma {:induction false} SidecarStaysHonest(read: Reader, known: string -> bool, history: seq<Attach>)
    requires AllSettled(read, known, history)
    ensures HonestIfAny(read, SidecarAfter(read, known, history))
  {
    if history != [] {
      var before := history[..|history|-1];
      SidecarStaysHonest(read, known, before);
      SettledAttachIsHonest(read, known, SidecarAfter(read, known, before), history[|history|-1]);
    }
  }

  /** A journal that only grows while it is attached settles every history: it may be edited, truncated or
      replaced between attaches, after a scan and during a write, and cache writes may fail anywhere. */
  lemma {:induction false} GrowingHistoriesSettle(read: Reader, known: string -> bool, history: seq<Attach>)
    requires forall i :: 0 <= i < |history| ==> StatPinsScan(history[i]) && OnlyGrows(history[i])
    ensures AllSettled(read, known, history)
  {
    if history != [] {
      var before := history[..|history|-1];
      GrowingHistoriesSettle(read, known, before);
      SidecarStaysHonest(read, known, before);
      GrowingIsSettled(read, known, SidecarAfter(read, known, before), history[|history|-1]);
    }
  }

  /** After any such history an attach of a journal that only grows meanwhile sees exactly what a scan of
      the whole file finds. */
  lemma EveryAttachIsAFullScan(read: Reader, known: string -> bool, history: seq<Attach>, a: Attach)
    requires forall i :: 0 <= i < |history| ==> StatPinsScan(history[i]) && OnlyGrows(history[i])
    requires OnlyGrows(a)
    ensures AttachScan(read, known, SidecarAfter(read, known, history), a) == FullScan(read, a.scanned)
  {
    var sidecar := SidecarAfter(read, known, history);
    GrowingHistoriesSettle(read, known, history);
    SidecarStaysHonest(read, known, history);
    var hit := Cached(known, sidecar, a);
    if hit.Some? {
      LoadAgreesWithScan(read, sidecar.value, a.loadBefore, a.loadAfter, hit.value);
      assert a.scanned[..hit.value.boundary] == a.loadAfter.value.bytes[..hit.value.boundary];
      ResumeIsFullScan(read, a.scanned[..hit.value.boundary], a.scanned, hit.value.records);
    }
  }

  /** An attach leaves the sidecar alone if it only reads, found a corrupt line, or got no further than the
      cache; otherwise it changes it exactly when its write goes through. */
  lemma AttachWritesExactly(read: Reader, known: string -> bool, sidecar: Option<Sidecar>, a: Attach)
    ensures var hit, scan := Cached(known, sidecar, a), AttachScan(read, known, sidecar, a);
            var after := AttachSidecar(read, known, sidecar, a);
            if a.readOnly || scan.Corrupt? || (hit.Some? && scan.safeBoundary == hit.value.boundary) || !Writes(scan, a)
            then after == sidecar
            else after == Some(Encode(SourceIdentity(a.writeBefore, scan.safeBoundary).value, scan.safeBoundary,
                                      Take(scan.records, scan.safeCount)))
  {
  }

  /** What an attach writes serves the next: one that finds the file as it was, or grown, resumes from exactly
      the safe part of that scan, if it knows all its event types. */
  lemma NextAttachResumes(read: Reader, known: string -> bool, sidecar: Option<Sidecar>, a: Attach, b: Attach)
    requires HonestIfAny(read, sidecar) && Settled(read, known, sidecar, a) && !a.readOnly
    requires var hit, scan := Cached(known, sidecar, a), AttachScan(read, known, sidecar, a);
             && Writes(scan, a) && !(hit.Some? && scan.safeBoundary == hit.value.boundary)
             && Known(known, Take(scan.records, scan.safeCount))
             && b.loadBefore.Some? && b.loadAfter == b.loadBefore && scan.safeBoundary <= |a.writeBefore.value.bytes|
             && SameOrGrown(a.writeBefore.value, b.loadBefore.value, scan.safeBoundary)
    ensures var scan := AttachScan(read, known, sidecar, a);
            Cached(known, AttachSidecar(read, known, sidecar, a), b)
              == Some(Loaded(Take(scan.records, scan.safeCount), scan.safeBoundary))
  {
    var scan := AttachScan(read, known, sidecar, a);
    var index := Loaded(Take(scan.records, scan.safeCount), scan.safeBoundary);
    var after := AttachSidecar(read, known, sidecar, a);
    AttachWritesExactly(read, known, sidecar, a);
    WrittenIndexes(read, known, sidecar, a);
    LoadsBackExactly(read, a.writeBefore.value, b.loadBefore.value, index.boundary, index.records, index);
    assert Hits(after, b, index);
    CachedIsTheIndex(known, after, b, index);
  }

  lemma WrittenIndexes(read: Reader, known: string -> bool, sidecar: Option<Sidecar>, a: Attach)
    requires HonestIfAny(read, sidecar) && Settled(read, known, sidecar, a)
    requires Writes(AttachScan(read, known, sidecar, a), a)
    ensures var scan := AttachScan(read, known, sidecar, a);
            && scan.safeBoundary <= |a.writeBefore.value.bytes|
            && Indexes(read, a.writeBefore.value.bytes[..scan.safeBoundary], Take(scan.records, scan.safeCount))
  {
    var hit := Cached(known, sidecar, a);
    if hit.Some? {
      ResumeIsFullScan(read, a.scanned[..hit.value.boundary], a.scanned, hit.value.records);
    }
    SafePartIsIndexed(read, a.scanned);
  }

  // ---- a journal replaced between the load and the stat ----

  /** A reader for which a line is its first byte's event. */
  function FirstByte(line: Bytes): Reading {
    if line == [] then Torn else Header(Fields(line[0], "e", None, None, "r"))
  }

  const OLD := File(1, 1, 0, 0, [1, 10])
  const REPLACEMENT := File(1, 2, 0, 0, [2, 10, 3, 10])
  const OLD_INDEX := Loaded([Record(0, 2, 1, Fields(1, "e", None, None, "r"))], 2)

  /** The load sees the old file; everything after it sees the replacement. */
  const REPLACED :=
    Attach(Some(OLD), Some(OLD), Some(REPLACEMENT.Stat()), REPLACEMENT.bytes,
           Some(REPLACEMENT), Some(REPLACEMENT), false, NoFault)

  lemma OneLineScan(bytes: Bytes)
    requires |bytes| == 2 && bytes[0] != NEWLINE && bytes[1] == NEWLINE
    ensures var record := Record(0, 2, NextSequence(bytes[0], 0), Fields(bytes[0], "e", None, None, "r"));
            FullScan(FirstByte, bytes) == Scanned([record], None, 1, 2)
  {
    assert LineEnd(bytes, 0) == LineEnd(bytes, 1) == 2;
    assert bytes[0..2] == bytes;
    ScanLine(FirstByte, bytes, [], 0, 0, 0);
  }

  lemma OldIsIndexed()
    ensures Indexes(FirstByte, OLD.bytes, OLD_INDEX.records)
    ensures !Indexes(FirstByte, REPLACEMENT.bytes[..2], OLD_INDEX.records)
  {
    OneLineScan(OLD.bytes);
    OneLineScan(REPLACEMENT.bytes[..2]);
  }

  lemma ReplacementIsResumed() returns (scan: Scan)
    ensures scan == Resumed(FirstByte, REPLACEMENT.bytes, OLD_INDEX)
    ensures scan == Scanned(OLD_INDEX.records + [Record(2, 2, 3, Fields(3, "e", None, None, "r"))], None, 2, 4)
  {
    var bytes := REPLACEMENT.bytes;
    scan := Resumed(FirstByte, bytes, OLD_INDEX);
    assert LineEnd(bytes, 2) == 4 by { assert LineEnd(bytes, 3) == 4; }
    assert bytes[2..4] == [3, 10];
    ScanLine(FirstByte, bytes, OLD_INDEX.records, 2, 1, 2);
  }

  /** An honest sidecar, a journal replaced between the load and the stat, and the attach publishes one
      that is not honest: the stat is taken too late to notice. */
  lemma ReplacedJournalIsPublishedDishonestly()
    ensures var sidecar := Some(Encode(SourceIdentity(Some(OLD), 2).value, 2, OLD_INDEX.records));
            var after := AttachSidecar(FirstByte, _ => true, sidecar, REPLACED);
            && Honest(FirstByte, sidecar.value) && StatPinsScan(REPLACED)
            && after.Some? && !Honest(FirstByte, after.value)
  {
    OldIsIndexed();
    var source := SourceIdentity(Some(OLD), 2).value;
    assert OLD.bytes[..2] == OLD.bytes;
    var sidecar := Some(Encode(source, 2, OLD_INDEX.records));
    assert Honest(FirstByte, sidecar.value);
    LoadsBackExactly(FirstByte, OLD, OLD, 2, OLD_INDEX.records, OLD_INDEX);
    CachedIsTheIndex(_ => true, sidecar, REPLACED, OLD_INDEX);
    var scan := ReplacementIsResumed();
    assert Take(scan.records, 2) == scan.records;
    WriteAfterResumeIsHonestExactly(FirstByte, sidecar, REPLACED, OLD_INDEX);
  }
}
