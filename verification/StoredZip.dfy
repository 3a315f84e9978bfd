/**
 The stored (uncompressed) ZIP writer of the diagnostic bundle, and a reader that follows sections
 4.3.7, 4.3.12, 4.3.16 and 4.4.7 of PKWARE's APPNOTE.  Everything the writer accepts, the reader
 recovers.
 */
module StoredZip {
  import opened Wrappers
  import opened LittleEndian
  import Crc32

  const U16_MAX: nat := 0xffff
  const U32_MAX: nat := 0xffff_ffff

  const LOCAL_SIGNATURE: nat := 0x0403_4b50
  const CENTRAL_SIGNATURE: nat := 0x0201_4b50
  const END_SIGNATURE: nat := 0x0605_4b50

  /** One file of the bundle; the name is already UTF-8. */
  datatype Entry = Entry(name: seq<Byte>, data: seq<Byte>)

  datatype ZipError = NameTooLong | EntryTooLarge | ArchiveTooLarge | IndexTooLarge | TooManyEntries

  // ---------------------------------------------------------------------------------------------
  // The bytes of an archive
  // ---------------------------------------------------------------------------------------------

  function LocalFields(e: Entry): seq<Field> {
    [Field(LOCAL_SIGNATURE, 4), Field(20, 2), Field(0, 2), Field(0, 2), Field(0, 2), Field(0, 2),
     Field(Crc32.Checksum(e.data), 4), Field(|e.data|, 4), Field(|e.data|, 4), Field(|e.name|, 2),
     Field(0, 2)]
  }

  function CentralFields(e: Entry, offset: nat): seq<Field> {
    [Field(CENTRAL_SIGNATURE, 4), Field(20, 2), Field(20, 2), Field(0, 2), Field(0, 2), Field(0, 2),
     Field(0, 2), Field(Crc32.Checksum(e.data), 4), Field(|e.data|, 4), Field(|e.data|, 4),
     Field(|e.name|, 2), Field(0, 2), Field(0, 2), Field(0, 2), Field(0, 2), Field(0, 4),
     Field(offset, 4)]
  }

  function EndFields(count: nat, centralSize: nat, centralOffset: nat): seq<Field> {
    [Field(END_SIGNATURE, 4), Field(0, 2), Field(0, 2), Field(count, 2), Field(count, 2),
     Field(centralSize, 4), Field(centralOffset, 4), Field(0, 2)]
  }

  function Local(e: Entry): seq<Byte> {
    Encode(LocalFields(e)) + e.name + e.data
  }

  function Central(e: Entry, offset: nat): seq<Byte> {
    Encode(CentralFields(e, offset)) + e.name
  }

  function Body(entries: seq<Entry>): seq<Byte> {
    if entries == [] then [] else Local(entries[0]) + Body(entries[1..])
  }

  function Index(entries: seq<Entry>, offset: nat): seq<Byte>
    decreases |entries|, offset
  {
    if entries == [] then [] else
      Central(entries[0], offset) + Index(entries[1..], offset + |Local(entries[0])|)
  }

  function Archive(entries: seq<Entry>): seq<Byte> {
    var body, index := Body(entries), Index(entries, 0);
    body + index + Encode(EndFields(|entries|, |index|, |body|))
  }

  /** What the format's 16 and 32 bit fields can hold. */
  predicate Acceptable(entries: seq<Entry>) {
    && (forall e | e in entries :: |e.name| <= U16_MAX && |e.data| <= U32_MAX)
    && |Body(entries)| <= U32_MAX
    && |Index(entries, 0)| <= U32_MAX
    && |entries| <= U16_MAX
  }

  // ---------------------------------------------------------------------------------------------
  // The writer
  // ---------------------------------------------------------------------------------------------

  /** The entry, if any, at which the writer gives up, and why. */
  function FirstProblem(entries: seq<Entry>, offset: nat): Option<ZipError>
    decreases |entries|, offset
  {
    if entries == [] then None
    else if |entries[0].name| > U16_MAX then Some(NameTooLong)
    else if |entries[0].data| > U32_MAX then Some(EntryTooLarge)
    else if |Local(entries[0])| > U32_MAX || offset + |Local(entries[0])| > U32_MAX then Some(ArchiveTooLarge)
    else FirstProblem(entries[1..], offset + |Local(entries[0])|)
  }

  function Written(entries: seq<Entry>): Result<seq<Byte>, ZipError> {
    var problem := FirstProblem(entries, 0);
    if problem.Some? then Err(problem.value)
    else if |Index(entries, 0)| > U32_MAX then Err(IndexTooLarge)
    else if |entries| > U16_MAX then Err(TooManyEntries)
    else Ok(Archive(entries))
  }

  /** The local header of one entry, without its data. */
  method LocalHeader(e: Entry) returns (local: seq<Byte>)
    ensures local + e.data == Local(e)
  {
    var crc := Crc32.Compute(e.data);
    var fields := [Field(LOCAL_SIGNATURE, 4), Field(20, 2), Field(0, 2), Field(0, 2), Field(0, 2), Field(0, 2),
                   Field(crc, 4), Field(|e.data|, 4), Field(|e.data|, 4), Field(|e.name|, 2), Field(0, 2)];
    assert fields == LocalFields(e);
    local := Encode(fields) + e.name;
  }

  /** The loop of the writer: append to the file and to the index, and advance the offset. */
  method Write(entries: seq<Entry>) returns (result: Result<seq<Byte>, ZipError>)
    ensures result == Written(entries)
  {
    hide Encode, LocalFields, CentralFields, Local, Central;
    var file: seq<Byte> := [];
    var central: seq<Byte> := [];
    var offset: nat := 0;
    for i := 0 to |entries|
      invariant offset == |file| <= U32_MAX
      invariant file + Body(entries[i..]) == Body(entries)
      invariant central + Index(entries[i..], offset) == Index(entries, 0)
      invariant FirstProblem(entries[i..], offset) == FirstProblem(entries, 0)
    {
      var e := entries[i];
      ghost var rest := entries[i + 1..];
      assert entries[i..] == [e] + rest;
      PeelEntry(e, rest, file, central, offset);
      if |e.name| > U16_MAX { return Err(NameTooLong); }
      if |e.data| > U32_MAX { return Err(EntryTooLarge); }
      var local := LocalHeader(e);
      file := file + local + e.data;
      central := central + Central(e, offset);
      if |local| + |e.data| > U32_MAX { return Err(ArchiveTooLarge); }
      if offset + (|local| + |e.data|) > U32_MAX { return Err(ArchiveTooLarge); }
      offset := offset + (|local| + |e.data|);
    }
    assert entries[|entries|..] == [];
    assert file == Body(entries) && central == Index(entries, 0);
    var centralOffset := offset;
    file := file + central;
    if |central| > U32_MAX { return Err(IndexTooLarge); }
    if |entries| > U16_MAX { return Err(TooManyEntries); }
    file := file + Encode(EndFields(|entries|, |central|, centralOffset));
    return Ok(file);
  }

  /** One turn of the writer's loop, on the specification's side. */
  lemma PeelEntry(e: Entry, rest: seq<Entry>, file: seq<Byte>, central: seq<Byte>, offset: nat)
    ensures forall local :: local + e.data == Local(e) ==>
      (file + local + e.data) + Body(rest) == file + Body([e] + rest)
    ensures var next := offset + |Local(e)|;
      && (central + Central(e, offset)) + Index(rest, next) == central + Index([e] + rest, offset)
      && FirstProblem([e] + rest, offset) ==
         (if |e.name| > U16_MAX then Some(NameTooLong)
          else if |e.data| > U32_MAX then Some(EntryTooLarge)
          else if |Local(e)| > U32_MAX || next > U32_MAX then Some(ArchiveTooLarge)
          else FirstProblem(rest, next))
  {
    hide Encode, LocalFields, CentralFields, Local, Central;
    assert ([e] + rest)[1..] == rest;
    forall local: seq<Byte> | local + e.data == Local(e)
      ensures (file + local + e.data) + Body(rest) == file + Body([e] + rest)
    {
      assert (file + local + e.data) + Body(rest) == file + ((local + e.data) + Body(rest));
    }
  }

  /** The writer succeeds exactly on what the format can hold. */
  lemma AcceptsExactlyAcceptable(entries: seq<Entry>)
    ensures Written(entries).Ok? <==> Acceptable(entries)
  {
    NoProblemExactly(entries, 0);
  }

  lemma {:induction false} NoProblemExactly(entries: seq<Entry>, offset: nat)
    ensures FirstProblem(entries, offset) == None <==>
      && (forall e | e in entries :: |e.name| <= U16_MAX && |e.data| <= U32_MAX)
      && (entries == [] || offset + |Body(entries)| <= U32_MAX)
    decreases |entries|
  {
    hide LocalFields, Encode, Local;
    if entries != [] {
      var e, rest := entries[0], entries[1..];
      assert entries == [e] + rest;
      NoProblemExactly(rest, offset + |Local(e)|);
      assert |Body(entries)| == |Local(e)| + |Body(rest)|;
      assert rest == [] ==> |Body(rest)| == 0;
    }
  }

  // ---------------------------------------------------------------------------------------------
  // A reader
  // ---------------------------------------------------------------------------------------------

  const LOCAL_WIDTHS: seq<nat> := [4, 2, 2, 2, 2, 2, 4, 4, 4, 2, 2]
  const CENTRAL_WIDTHS: seq<nat> := [4, 2, 2, 2, 2, 2, 2, 4, 4, 4, 2, 2, 2, 2, 2, 4, 4]
  const END_WIDTHS: seq<nat> := [4, 2, 2, 2, 2, 4, 4, 2]

  const LOCAL_LENGTH: nat := 30
  const CENTRAL_LENGTH: nat := 46
  const END_LENGTH: nat := 22

  /** A file as a reader finds it. */
  datatype Found = Found(name: seq<Byte>, data: seq<Byte>, size: nat, crc: nat)

  /** The values of a record at a position, when the archive is long enough to hold it. */
  function RecordAt(archive: seq<Byte>, at: nat, widths: seq<nat>): (values: Option<seq<nat>>)
    ensures values.Some? ==> |values.value| == |widths|
  {
    if at + Length(widths) <= |archive| then Some(Decode(archive[at..], widths)) else None
  }

  function Slice(archive: seq<Byte>, at: nat, length: nat): Option<seq<Byte>> {
    if at + length <= |archive| then Some(archive[at..at + length]) else None
  }

  /**
   The local header of a stored file (sections 4.3.7 and 4.4): version 2.0, no flags, method 0, no time, both
   sizes the same, and no extra field.
   */
  predicate IsStoredLocal(v: seq<nat>)
    requires |v| == |LOCAL_WIDTHS|
  {
    && v[0] == 0x0403_4b50 && v[1] == 20 && v[2] == 0 && v[3] == 0 && v[4] == 0 && v[5] == 0
    && v[7] == v[8] && v[10] == 0
  }

  /**
   Its central record (section 4.3.12): the same, made by version 2.0 too, with no comment, on the first disk,
   and without attributes.
   */
  predicate IsStoredCentral(v: seq<nat>)
    requires |v| == |CENTRAL_WIDTHS|
  {
    && v[0] == 0x0201_4b50 && v[1] == 20 && v[2] == 20 && v[3] == 0 && v[4] == 0 && v[5] == 0 && v[6] == 0
    && v[8] == v[9] && v[11] == 0 && v[12] == 0 && v[13] == 0 && v[14] == 0 && v[15] == 0
  }

  /** The end record of an archive on one disk without a comment (section 4.3.16). */
  predicate IsSingleDiskEnd(v: seq<nat>)
    requires |v| == |END_WIDTHS|
  {
    v[0] == 0x0605_4b50 && v[1] == 0 && v[2] == 0 && v[3] == v[4] && v[7] == 0
  }

  /** The name and data behind a local header. */
  function ReadLocal(archive: seq<Byte>, at: nat): Option<Found> {
    hide RecordAt;
    var record := RecordAt(archive, at, LOCAL_WIDTHS);
    if record.None? then None else
      var v := record.value;
      if !IsStoredLocal(v) then None else
        var name := Slice(archive, at + LOCAL_LENGTH, v[9]);
        var data := Slice(archive, at + LOCAL_LENGTH + v[9] + v[10], v[7]);
        if name.None? || data.None? then None else
          Some(Found(name.value, data.value, v[8], v[6]))
  }

  /** Walk `count` central records from `at`, following each to its local header. */
  function ReadIndex(archive: seq<Byte>, at: nat, count: nat): Option<seq<Found>>
    decreases count, at
  {
    hide RecordAt, ReadLocal;
    if count == 0 then Some([]) else
      var record := RecordAt(archive, at, CENTRAL_WIDTHS);
      if record.None? then None else
        var v := record.value;
        if !IsStoredCentral(v) then None else
          var name := Slice(archive, at + CENTRAL_LENGTH, v[10]);
          var found := ReadLocal(archive, v[16]);
          if name.None? || found.None? || found.value.name != name.value
             || found.value.crc != v[7] || found.value.size != v[8] || |found.value.data| != v[9] then None else
            var more := ReadIndex(archive, at + CENTRAL_LENGTH + v[10] + v[11] + v[12], count - 1);
            if more.None? then None else Some([found.value] + more.value)
  }

  /** Start from the end-of-central-directory record. */
  function Read(archive: seq<Byte>): Option<seq<Found>> {
    hide Decode;
    if |archive| < END_LENGTH then None else
      var end := |archive| - END_LENGTH;
      var v := Decode(archive[end..], END_WIDTHS);
      if !IsSingleDiskEnd(v) || v[6] + v[5] != end then None
      else ReadIndex(archive, v[6], v[4])
  }

  /** What the reader should find for an entry, and for all of them. */
  function Recovered(e: Entry): Found {
    Found(e.name, e.data, |e.data|, Crc32.Checksum(e.data))
  }

  function Expected(entries: seq<Entry>): seq<Found> {
    seq(|entries|, i requires 0 <= i < |entries| => Recovered(entries[i]))
  }

  // ---------------------------------------------------------------------------------------------
  // Round trip
  // ---------------------------------------------------------------------------------------------

  lemma Capacities()
    ensures Capacity(2) == U16_MAX + 1 && Capacity(4) == U32_MAX + 1
  {
  }

  lemma LocalFits(e: Entry)
    requires |e.name| <= U16_MAX && |e.data| <= U32_MAX
    ensures Fits(LocalFields(e))
  {
    hide Capacity;
    Capacities();
  }

  lemma LocalWidths(e: Entry)
    ensures Widths(LocalFields(e)) == LOCAL_WIDTHS
  {
  }

  lemma CentralFits(e: Entry, offset: nat)
    requires |e.name| <= U16_MAX && |e.data| <= U32_MAX && offset <= U32_MAX
    ensures Fits(CentralFields(e, offset))
  {
    hide Capacity;
    Capacities();
  }

  lemma CentralWidths(e: Entry, offset: nat)
    ensures Widths(CentralFields(e, offset)) == CENTRAL_WIDTHS
  {
  }

  lemma EndFits(count: nat, size: nat, offset: nat)
    requires count <= U16_MAX && size <= U32_MAX && offset <= U32_MAX
    ensures Fits(EndFields(count, size, offset))
  {
    hide Capacity;
    Capacities();
  }

  lemma EndWidths(count: nat, size: nat, offset: nat)
    ensures Widths(EndFields(count, size, offset)) == END_WIDTHS
  {
  }

  lemma EndLength()
    ensures Length(END_WIDTHS) == END_LENGTH
  {
    hide Length;
    LengthOfSix(4, 2, 2, 2, 2, 4);
    LengthCons(4, [2]);
    LengthCons(2, []);
    LengthOfNone();
    LengthSplit([4, 2, 2, 2, 2, 4], [4, 2]);
    assert END_WIDTHS == [4, 2, 2, 2, 2, 4] + [4, 2] && [4, 2] == [4] + [2] && [2] == [2] + [];
  }

  lemma LocalLayout(e: Entry)
    requires |e.name| <= U16_MAX && |e.data| <= U32_MAX
    ensures Fits(LocalFields(e)) && Widths(LocalFields(e)) == LOCAL_WIDTHS
    ensures |Encode(LocalFields(e))| == LOCAL_LENGTH
  {
    hide Encode, Fits, Widths, Length, LocalFields;
    EncodedLength(LocalFields(e));
    LocalFits(e);
    LocalWidths(e);
    LocalLength();
  }

  lemma LengthOfFive(a: nat, b: nat, c: nat, d: nat, e: nat)
    ensures Length([a, b, c, d, e]) == a + b + c + d + e
  {
    hide Length;
    LengthCons(a, [b, c, d, e]);
    LengthCons(b, [c, d, e]);
    LengthCons(c, [d, e]);
    LengthCons(d, [e]);
    LengthCons(e, []);
    LengthOfNone();
    assert [a, b, c, d, e] == [a] + [b, c, d, e] && [b, c, d, e] == [b] + [c, d, e];
    assert [c, d, e] == [c] + [d, e] && [d, e] == [d] + [e] && [e] == [e] + [];
  }

  lemma LengthOfNone()
    ensures Length([]) == 0
  {
  }

  lemma LengthCons(width: nat, rest: seq<nat>)
    ensures Length([width] + rest) == width + Length(rest)
  {
  }

  lemma LengthOfSix(a: nat, b: nat, c: nat, d: nat, e: nat, f: nat)
    ensures Length([a, b, c, d, e, f]) == a + b + c + d + e + f
  {
    LengthOfFive(b, c, d, e, f);
    LengthCons(a, [b, c, d, e, f]);
    assert [a, b, c, d, e, f] == [a] + [b, c, d, e, f];
  }

  lemma LocalLength()
    ensures Length(LOCAL_WIDTHS) == LOCAL_LENGTH
  {
    var front, back: seq<nat> := [4, 2, 2, 2, 2, 2], [4, 4, 4, 2, 2];
    hide Length;
    LengthOfSix(4, 2, 2, 2, 2, 2);
    LengthOfFive(4, 4, 4, 2, 2);
    LengthSplit(front, back);
    assert LOCAL_WIDTHS == front + back;
  }

  lemma CentralLayout(e: Entry, offset: nat)
    requires |e.name| <= U16_MAX && |e.data| <= U32_MAX && offset <= U32_MAX
    ensures Fits(CentralFields(e, offset)) && Widths(CentralFields(e, offset)) == CENTRAL_WIDTHS
    ensures |Encode(CentralFields(e, offset))| == CENTRAL_LENGTH
  {
    hide Encode, Fits, Widths, Length, CentralFields;
    EncodedLength(CentralFields(e, offset));
    CentralFits(e, offset);
    CentralWidths(e, offset);
    CentralLength();
  }

  lemma CentralLength()
    ensures Length(CENTRAL_WIDTHS) == CENTRAL_LENGTH
  {
    var front, middle, back: seq<nat> := [4, 2, 2, 2, 2, 2], [2, 4, 4, 4, 2, 2], [2, 2, 2, 4, 4];
    hide Length;
    LengthOfSix(4, 2, 2, 2, 2, 2);
    LengthOfSix(2, 4, 4, 4, 2, 2);
    LengthOfFive(2, 2, 2, 4, 4);
    LengthSplit(front, middle);
    LengthSplit(front + middle, back);
    assert front + middle == [4, 2, 2, 2, 2, 2, 2, 4, 4, 4, 2, 2];
    assert CENTRAL_WIDTHS == front + middle + back;
  }

  lemma EndLayout(count: nat, size: nat, offset: nat)
    requires count <= U16_MAX && size <= U32_MAX && offset <= U32_MAX
    ensures Fits(EndFields(count, size, offset)) && Widths(EndFields(count, size, offset)) == END_WIDTHS
    ensures |Encode(EndFields(count, size, offset))| == END_LENGTH
  {
    hide Encode, Fits, Widths, Length, EndFields;
    EncodedLength(EndFields(count, size, offset));
    EndFits(count, size, offset);
    EndWidths(count, size, offset);
    EndLength();
  }

  /** A record found anywhere in an archive decodes to the values it was written from. */
  lemma RecordFound(archive: seq<Byte>, before: seq<Byte>, fields: seq<Field>, after: seq<Byte>)
    requires archive == before + Encode(fields) + after && Fits(fields)
    ensures RecordAt(archive, |before|, Widths(fields)) == Some(Values(fields))
  {
    RecordRoundTrip(fields, after);
    assert archive[|before|..] == Encode(fields) + after;
  }

  lemma SliceFound(archive: seq<Byte>, before: seq<Byte>, middle: seq<Byte>, after: seq<Byte>)
    requires archive == before + middle + after
    ensures Slice(archive, |before|, |middle|) == Some(middle)
  {
  }

  lemma LocalFound(archive: seq<Byte>, before: seq<Byte>, e: Entry, after: seq<Byte>)
    requires |e.name| <= U16_MAX && |e.data| <= U32_MAX
    requires archive == before + Local(e) + after
    ensures ReadLocal(archive, |before|) == Some(Recovered(e))
  {
    hide Encode, Decode, Length, Fits;
    LocalLayout(e);
    var header := Encode(LocalFields(e));
    assert archive == before + header + (e.name + e.data + after);
    RecordFound(archive, before, LocalFields(e), e.name + e.data + after);
    assert archive == (before + header) + e.name + (e.data + after);
    SliceFound(archive, before + header, e.name, e.data + after);
    assert archive == (before + header + e.name) + e.data + after;
    SliceFound(archive, before + header + e.name, e.data, after);
    var v := RecordAt(archive, |before|, LOCAL_WIDTHS).value;
    assert v == Values(LocalFields(e));
  }

  /** One central record and the local header it points to, anywhere in an archive. */
  lemma CentralFound(archive: seq<Byte>, done: seq<Byte>, e: Entry, middle: seq<Byte>, after: seq<Byte>)
    requires |e.name| <= U16_MAX && |e.data| <= U32_MAX && |done| <= U32_MAX
    requires archive == done + Local(e) + middle + Central(e, |done|) + after
    ensures var at := |done| + |Local(e)| + |middle|;
      && RecordAt(archive, at, CENTRAL_WIDTHS) == Some(Values(CentralFields(e, |done|)))
      && Slice(archive, at + CENTRAL_LENGTH, |e.name|) == Some(e.name)
      && ReadLocal(archive, |done|) == Some(Recovered(e))
      && |Central(e, |done|)| == CENTRAL_LENGTH + |e.name|
  {
    hide Encode, Decode, Length, Fits, ReadLocal, RecordAt, Slice, Local, CentralFields;
    CentralLayout(e, |done|);
    var record := Encode(CentralFields(e, |done|));
    var before := done + Local(e) + middle;
    assert archive == before + record + (e.name + after);
    RecordFound(archive, before, CentralFields(e, |done|), e.name + after);
    assert archive == (before + record) + e.name + after;
    SliceFound(archive, before + record, e.name, after);
    assert archive == done + Local(e) + (middle + Central(e, |done|) + after);
    LocalFound(archive, done, e, middle + Central(e, |done|) + after);
  }

  /** One step of the walk, from what stands at its position. */
  lemma WalkStep(archive: seq<Byte>, at: nat, count: nat, e: Entry, offset: nat, more: seq<Found>)
    requires RecordAt(archive, at, CENTRAL_WIDTHS) == Some(Values(CentralFields(e, offset)))
    requires Slice(archive, at + CENTRAL_LENGTH, |e.name|) == Some(e.name)
    requires ReadLocal(archive, offset) == Some(Recovered(e))
    requires ReadIndex(archive, at + CENTRAL_LENGTH + |e.name|, count) == Some(more)
    ensures ReadIndex(archive, at, count + 1) == Some([Recovered(e)] + more)
  {
    hide RecordAt, ReadLocal, Slice, CentralFields;
    CentralValues(e, offset);
  }

  lemma Regroup(done: seq<Byte>, local: seq<Byte>, body: seq<Byte>, read: seq<Byte>, record: seq<Byte>, tail: seq<Byte>)
    ensures done + (local + body) + read + record + tail == done + local + (body + read) + record + tail
    ensures done + (local + body) + read + record + tail == (done + local) + body + (read + record) + tail
  {
  }

  /** Reading the index of the entries not yet read. */
  lemma {:induction false} IndexFound(archive: seq<Byte>, done: seq<Byte>, rest: seq<Entry>, read: seq<Byte>,
                                      end: seq<Byte>)
    requires forall e | e in rest :: |e.name| <= U16_MAX && |e.data| <= U32_MAX
    requires |done| + |Body(rest)| <= U32_MAX
    requires archive == done + Body(rest) + read + (Index(rest, |done|) + end)
    ensures ReadIndex(archive, |done| + |Body(rest)| + |read|, |rest|) == Some(Expected(rest))
    decreases |rest|
  {
    hide RecordAt, ReadLocal, Slice, CentralFields, Local, Central;
    if rest != [] {
      var e, more := rest[0], rest[1..];
      var record, body := Central(e, |done|), Body(more);
      var tail := Index(more, |done + Local(e)|) + end;
      assert Index(rest, |done|) + end == record + tail;
      assert archive == done + (Local(e) + body) + read + record + tail;
      Regroup(done, Local(e), body, read, record, tail);
      CentralFound(archive, done, e, body + read, tail);
      IndexFound(archive, done + Local(e), more, read + record, end);
      WalkStep(archive, |done| + |Body(rest)| + |read|, |more|, e, |done|, Expected(more));
      assert Expected(rest) == [Recovered(e)] + Expected(more);
    }
  }

  lemma CentralValues(e: Entry, offset: nat)
    ensures var v := Values(CentralFields(e, offset));
      && |v| == |CENTRAL_WIDTHS| && IsStoredCentral(v) && v[7] == Crc32.Checksum(e.data)
      && v[9] == |e.data| && v[10] == |e.name| && v[16] == offset
  {
    hide CentralFields, Values;
    CentralListed(e, offset);
  }

  /** Whatever the writer accepts, the reader recovers: names, data, sizes and checksums, in order. */
  lemma RoundTrip(entries: seq<Entry>)
    requires Written(entries).Ok?
    ensures Read(Written(entries).value) == Some(Expected(entries))
  {
    hide Encode, Decode, Length, Fits, ReadIndex;
    AcceptsExactlyAcceptable(entries);
    var archive, body, index := Archive(entries), Body(entries), Index(entries, 0);
    var fields := EndFields(|entries|, |index|, |body|);
    EndLayout(|entries|, |index|, |body|);
    assert archive == (body + index) + Encode(fields) + [];
    RecordFound(archive, body + index, fields, []);
    assert archive == [] + body + [] + (index + Encode(fields));
    IndexFound(archive, [], entries, [], Encode(fields));
  }

  // ---------------------------------------------------------------------------------------------
  // Every field, at its place
  // ---------------------------------------------------------------------------------------------

  /** Where the local header of the i-th entry stands: headers of 30 bytes, with the names and data behind them. */
  function LocalStart(entries: seq<Entry>, i: nat): nat
    requires i <= |entries|
  {
    if i == 0 then 0 else LocalStart(entries, i - 1) + 30 + |entries[i - 1].name| + |entries[i - 1].data|
  }

  /** Where its central record stands: behind all files, records of 46 bytes with the names behind them. */
  function CentralStart(entries: seq<Entry>, i: nat): nat
    requires i <= |entries|
  {
    if i == 0 then LocalStart(entries, |entries|) else CentralStart(entries, i - 1) + 46 + |entries[i - 1].name|
  }

  lemma {:induction false} BodySplits(a: seq<Entry>, b: seq<Entry>)
    ensures Body(a + b) == Body(a) + Body(b)
    decreases |a|
  {
    hide Local;
    if a == [] {
      assert a + b == b;
    } else {
      assert (a + b)[1..] == a[1..] + b;
      BodySplits(a[1..], b);
    }
  }

  lemma {:induction false} IndexSplits(a: seq<Entry>, b: seq<Entry>, offset: nat)
    ensures Index(a + b, offset) == Index(a, offset) + Index(b, offset + |Body(a)|)
    decreases |a|
  {
    hide Local, Central;
    if a == [] {
      assert a + b == b;
    } else {
      assert (a + b)[1..] == a[1..] + b;
      IndexSplits(a[1..], b, offset + |Local(a[0])|);
    }
  }

  lemma {:induction false} BodyLength(entries: seq<Entry>, i: nat)
    requires i <= |entries| && forall e | e in entries :: |e.name| <= U16_MAX && |e.data| <= U32_MAX
    ensures |Body(entries[..i])| == LocalStart(entries, i)
    decreases i
  {
    hide LocalFields, Encode;
    if i > 0 {
      BodyLength(entries, i - 1);
      LocalLayout(entries[i - 1]);
      BodySplits(entries[..i - 1], [entries[i - 1]]);
      assert entries[..i] == entries[..i - 1] + [entries[i - 1]];
      assert Body([entries[i - 1]]) == Local(entries[i - 1]);
    }
  }

  lemma {:induction false} IndexLength(entries: seq<Entry>, i: nat)
    requires i <= |entries| && forall e | e in entries :: |e.name| <= U16_MAX && |e.data| <= U32_MAX
    requires LocalStart(entries, |entries|) <= U32_MAX
    ensures LocalStart(entries, |entries|) + |Index(entries[..i], 0)| == CentralStart(entries, i)
    decreases i
  {
    hide CentralFields, Encode, Central, Index, Body;
    if i == 0 {
      NoIndex();
    } else {
      IndexLength(entries, i - 1);
      BodyLength(entries, i - 1);
      StartsGrow(entries, i - 1);
      CentralBytes(entries[i - 1], LocalStart(entries, i - 1));
      IndexSplits(entries[..i - 1], [entries[i - 1]], 0);
      assert entries[..i] == entries[..i - 1] + [entries[i - 1]];
      IndexOfOne(entries[i - 1], LocalStart(entries, i - 1));
    }
  }

  lemma NoIndex()
    ensures Index([], 0) == []
  {
  }

  lemma CentralBytes(e: Entry, offset: nat)
    requires |e.name| <= U16_MAX && |e.data| <= U32_MAX && offset <= U32_MAX
    ensures |Central(e, offset)| == 46 + |e.name|
  {
    hide CentralFields, Encode;
    CentralLayout(e, offset);
  }

  lemma IndexOfOne(e: Entry, offset: nat)
    ensures Index([e], offset) == Central(e, offset)
  {
    hide Local, Central;
    assert [e][1..] == [];
  }

  lemma {:induction false} StartsGrow(entries: seq<Entry>, i: nat)
    requires i <= |entries|
    ensures LocalStart(entries, i) <= LocalStart(entries, |entries|)
    decreases |entries| - i
  {
    if i < |entries| {
      StartsGrow(entries, i + 1);
    }
  }

  /** The bytes between the local header of an entry and its central record, and those behind that. */
  function Between(entries: seq<Entry>, i: nat): seq<Byte>
    requires i < |entries|
  {
    Body(entries[i + 1..]) + Index(entries[..i], 0)
  }

  function Behind(entries: seq<Entry>, i: nat): seq<Byte>
    requires i < |entries|
  {
    Index(entries[i + 1..], |Body(entries[..i])| + |Local(entries[i])|)
    + Encode(EndFields(|entries|, |Index(entries, 0)|, |Body(entries)|))
  }

  lemma Regrouped(done: seq<Byte>, local: seq<Byte>, body: seq<Byte>, read: seq<Byte>, record: seq<Byte>,
                  tail: seq<Byte>, end: seq<Byte>)
    ensures (done + (local + body)) + (read + (record + tail)) + end ==
      done + local + (body + read) + record + (tail + end)
  {
  }

  /** The archive around one entry. */
  lemma ArchiveAround(entries: seq<Entry>, i: nat)
    requires Acceptable(entries) && i < |entries|
    ensures var done := Body(entries[..i]);
      && |done| <= U32_MAX
      && Archive(entries) ==
        done + Local(entries[i]) + Between(entries, i) + Central(entries[i], |done|) + Behind(entries, i)
  {
    hide Local, Central, Encode, EndFields, Body, Index;
    var e, front, rest := entries[i], entries[..i], entries[i + 1..];
    var done := Body(front);
    assert entries == front + ([e] + rest);
    BodySplits(front, [e] + rest);
    BodySplits([e], rest);
    BodyOfOne(e);
    IndexSplits(front, [e] + rest, 0);
    IndexSplits([e], rest, |done|);
    IndexOfOne(e, |done|);
    Regrouped(done, Local(e), Body(rest), Index(front, 0), Central(e, |done|), Index(rest, |done| + |Local(e)|),
              Encode(EndFields(|entries|, |Index(entries, 0)|, |Body(entries)|)));
  }

  lemma BodyAround(entries: seq<Entry>, i: nat)
    requires i < |entries|
    ensures |Body(entries)| == |Body(entries[..i])| + |Local(entries[i])| + |Body(entries[i + 1..])|
  {
    hide Local, Body;
    assert entries == entries[..i] + ([entries[i]] + entries[i + 1..]);
    BodySplits(entries[..i], [entries[i]] + entries[i + 1..]);
    BodySplits([entries[i]], entries[i + 1..]);
    BodyOfOne(entries[i]);
  }

  lemma AllFit(entries: seq<Entry>)
    requires Acceptable(entries)
    ensures forall e | e in entries :: |e.name| <= U16_MAX && |e.data| <= U32_MAX
    ensures |Body(entries)| <= U32_MAX
  {
  }

  /** Where the two records of an entry stand in it. */
  lemma PlacesAround(entries: seq<Entry>, i: nat)
    requires Acceptable(entries) && i < |entries|
    ensures |Body(entries[..i])| == LocalStart(entries, i)
    ensures |Body(entries[..i])| + |Local(entries[i])| + |Between(entries, i)| == CentralStart(entries, i)
  {
    hide Local, Body, Index, Acceptable, LocalStart, CentralStart;
    AllFit(entries);
    assert entries[..|entries|] == entries;
    BodyAround(entries, i);
    BodyLength(entries, i);
    BodyLength(entries, |entries|);
    IndexLength(entries, i);
  }

  lemma BodyOfOne(e: Entry)
    ensures Body([e]) == Local(e)
  {
    hide Local;
    assert [e][1..] == [];
  }

  /** Each entry's two records, field by field, and what stands behind them. */
  lemma RecordsExact(entries: seq<Entry>, i: nat)
    requires Written(entries).Ok? && i < |entries|
    ensures var archive, e := Written(entries).value, entries[i];
      var local, central, crc := LocalStart(entries, i), CentralStart(entries, i), Crc32.Checksum(e.data);
      && RecordAt(archive, local, [4, 2, 2, 2, 2, 2, 4, 4, 4, 2, 2])
         == Some([0x0403_4b50, 20, 0, 0, 0, 0, crc, |e.data|, |e.data|, |e.name|, 0])
      && Slice(archive, local + 30, |e.name|) == Some(e.name)
      && Slice(archive, local + 30 + |e.name|, |e.data|) == Some(e.data)
      && RecordAt(archive, central, [4, 2, 2, 2, 2, 2, 2, 4, 4, 4, 2, 2, 2, 2, 2, 4, 4])
         == Some([0x0201_4b50, 20, 20, 0, 0, 0, 0, crc, |e.data|, |e.data|, |e.name|, 0, 0, 0, 0, 0, local])
      && Slice(archive, central + 46, |e.name|) == Some(e.name)
  {
    hide Encode, Decode, Length, Fits, RecordAt, Slice, ReadLocal, Written, Archive, Local, Central, EndFields,
         Crc32.Checksum, Body, Index, Between, Behind, LocalFields, CentralFields, Values, Acceptable;
    AcceptsExactlyAcceptable(entries);
    WrittenIsArchive(entries);
    ArchiveAround(entries, i);
    PlacesAround(entries, i);
    EntryFits(entries, i);
    var e, done := entries[i], Body(entries[..i]);
    CentralFound(Archive(entries), done, e, Between(entries, i), Behind(entries, i));
    CentralListed(e, |done|);
    RegroupTail(done, Local(e), Between(entries, i), Central(e, |done|), Behind(entries, i));
    LocalAt(Archive(entries), done, e, Between(entries, i) + Central(e, |done|) + Behind(entries, i));
    LocalListed(e);
  }

  lemma EntryFits(entries: seq<Entry>, i: nat)
    requires Acceptable(entries) && i < |entries|
    ensures |entries[i].name| <= U16_MAX && |entries[i].data| <= U32_MAX
  {
  }

  lemma RegroupTail(a: seq<Byte>, b: seq<Byte>, c: seq<Byte>, d: seq<Byte>, e: seq<Byte>)
    ensures a + b + c + d + e == a + b + (c + d + e)
  {
  }

  lemma WrittenIsArchive(entries: seq<Entry>)
    requires Written(entries).Ok?
    ensures Written(entries).value == Archive(entries)
  {
    hide Archive, Index;
  }

  lemma LocalListed(e: Entry)
    ensures Values(LocalFields(e)) ==
      [0x0403_4b50, 20, 0, 0, 0, 0, Crc32.Checksum(e.data), |e.data|, |e.data|, |e.name|, 0]
  {
  }

  lemma CentralListed(e: Entry, offset: nat)
    ensures Values(CentralFields(e, offset)) ==
      [0x0201_4b50, 20, 20, 0, 0, 0, 0, Crc32.Checksum(e.data), |e.data|, |e.data|, |e.name|, 0, 0, 0, 0, 0, offset]
  {
  }

  /** What stands at a local header, piece by piece. */
  lemma LocalAt(archive: seq<Byte>, before: seq<Byte>, e: Entry, after: seq<Byte>)
    requires |e.name| <= U16_MAX && |e.data| <= U32_MAX
    requires archive == before + Local(e) + after
    ensures RecordAt(archive, |before|, LOCAL_WIDTHS) == Some(Values(LocalFields(e)))
    ensures Slice(archive, |before| + LOCAL_LENGTH, |e.name|) == Some(e.name)
    ensures Slice(archive, |before| + LOCAL_LENGTH + |e.name|, |e.data|) == Some(e.data)
  {
    hide Encode, Decode, Length, Fits, RecordAt, Slice;
    LocalLayout(e);
    var header := Encode(LocalFields(e));
    assert archive == before + header + (e.name + e.data + after);
    RecordFound(archive, before, LocalFields(e), e.name + e.data + after);
    assert archive == (before + header) + e.name + (e.data + after);
    SliceFound(archive, before + header, e.name, e.data + after);
    assert archive == (before + header + e.name) + e.data + after;
    SliceFound(archive, before + header + e.name, e.data, after);
  }

  /** The end record, field by field, and nothing behind it. */
  lemma EndExact(entries: seq<Entry>)
    requires Written(entries).Ok?
    ensures var archive, n := Written(entries).value, |entries|;
      var first, end := CentralStart(entries, 0), CentralStart(entries, n);
      && RecordAt(archive, end, [4, 2, 2, 2, 2, 4, 4, 2])
         == Some([0x0605_4b50, 0, 0, n, n, end - first, first, 0])
      && |archive| == end + 22
  {
    hide Encode, Decode, Length, Fits, RecordAt, Written, Body, Index, EndFields, Values, LocalStart, CentralStart;
    AcceptsExactlyAcceptable(entries);
    WrittenIsArchive(entries);
    var n := |entries|;
    assert entries[..n] == entries;
    BodyLength(entries, n);
    IndexLength(entries, n);
    FirstCentral(entries);
    var body, index := Body(entries), Index(entries, 0);
    EndLayout(n, |index|, |body|);
    var fields := EndFields(n, |index|, |body|);
    assert Archive(entries) == (body + index) + Encode(fields) + [];
    RecordFound(Archive(entries), body + index, fields, []);
    EndListed(n, |index|, |body|);
  }

  lemma FirstCentral(entries: seq<Entry>)
    ensures CentralStart(entries, 0) == LocalStart(entries, |entries|)
  {
  }

  lemma EndListed(count: nat, size: nat, offset: nat)
    ensures Values(EndFields(count, size, offset)) == [0x0605_4b50, 0, 0, count, count, size, offset, 0]
  {
  }

  /** The three signatures as the format writes them: PK and a number, lowest byte first. */
  lemma Signatures(e: Entry, offset: nat, count: nat, size: nat)
    ensures Local(e)[..4] == [0x50, 0x4b, 0x03, 0x04]
    ensures Central(e, offset)[..4] == [0x50, 0x4b, 0x01, 0x02]
    ensures Encode(EndFields(count, size, offset))[..4] == [0x50, 0x4b, 0x05, 0x06]
  {
    hide Encode, Bytes;
    FirstField(LocalFields(e));
    FirstField(CentralFields(e, offset));
    FirstField(EndFields(count, size, offset));
    FourBytes(0x0403_4b50);
    FourBytes(0x0201_4b50);
    FourBytes(0x0605_4b50);
    FrontOfThree(Encode(LocalFields(e)), e.name, e.data);
    FrontOfThree(Encode(CentralFields(e, offset)), e.name, []);
    assert Central(e, offset) + [] == Central(e, offset);
  }

  lemma FrontOfThree(a: seq<Byte>, b: seq<Byte>, c: seq<Byte>)
    requires |a| >= 4
    ensures (a + b + c)[..4] == a[..4]
  {
  }

  lemma FirstField(fields: seq<Field>)
    requires fields != [] && fields[0].width == 4
    ensures |Encode(fields)| >= 4 && Encode(fields)[..4] == Bytes(fields[0].value, 4)
  {
  }

  lemma BytesStep(value: nat, width: nat)
    requires width > 0
    ensures Bytes(value, width) == [value % 256] + Bytes(value / 256, width - 1)
  {
  }

  lemma FourBytes(value: nat)
    ensures Bytes(value, 4) ==
      [value % 256, value / 256 % 256, value / 256 / 256 % 256, value / 256 / 256 / 256 % 256]
  {
    hide Bytes;
    BytesStep(value, 4);
    BytesStep(value / 256, 3);
    BytesStep(value / 256 / 256, 2);
    BytesStep(value / 256 / 256 / 256, 1);
  }
}
