/** The ZIP writer and reader: a flat list of deflated files, no encryption, no ZIP64.
    The layout follows sections 4.3.7, 4.3.12 and 4.3.16 of the PKWARE APPNOTE. */
module Zip {
  import opened Wrappers
  import opened Words
  import Text
  import Crc32

  const LOCAL_HEADER_SIGNATURE := 0x0403_4b50
  const CENTRAL_HEADER_SIGNATURE := 0x0201_4b50
  const END_OF_CENTRAL_DIRECTORY_SIGNATURE := 0x0605_4b50
  const VERSION_NEEDED := 20
  const VERSION_MADE_BY := 0x0314
  const FLAG_UTF8 := 0x0800
  const METHOD_DEFLATE := 8
  const EXTERNAL_ATTRIBUTES := 0x81A4_0000
  const MAX_UINT32 := 0xFFFF_FFFF
  const MAX_ENTRIES := 0xFFFF

  datatype ZipEntry = ZipEntry(name: string, data: Bytes)

  datatype ZipError =
    | TooManyEntries(count: nat)
    | RefusedName(name: string)
    | TooLarge
    | OutOfRange
    | EndNotFound
    | BadCentralEntry
    | InflateFailed
    | ChecksumMismatch(name: string)

  /** The library calls the archive is built on: raw DEFLATE and UTF-8 decoding. */
  datatype Codec = Codec(deflate: Bytes -> Bytes, inflate: Bytes -> Option<Bytes>, decodeName: Bytes -> string)

  ghost predicate Lossless(codec: Codec) {
    && (forall data :: codec.inflate(codec.deflate(data)) == Some(data))
    && (forall name | IsAscii(name) :: codec.decodeName(Ascii(name)) == name)
  }

  predicate IsAscii(name: string) {
    forall i :: 0 <= i < |name| ==> name[i] as int < 128
  }

  /** UTF-8 of an ASCII name. */
  function Ascii(name: string): (bytes: Bytes)
    requires IsAscii(name)
    ensures |bytes| == |name|
  {
    seq(|name|, i requires 0 <= i < |name| => name[i] as int as byte)
  }

  // ---------- entry names ----------

  predicate IsSafeNameChar(c: char) {
    'A' <= c <= 'Z' || 'a' <= c <= 'z' || '0' <= c <= '9' || c in "._-"
  }

  predicate IsSafeSegment(segment: string) {
    && segment != ""
    && (forall i :: 0 <= i < |segment| ==> IsSafeNameChar(segment[i]))
    && exists i :: 0 <= i < |segment| && segment[i] != '.'
  }

  predicate IsSafeEntryName(name: string) {
    forall segment :: segment in Text.Split(name, "/") ==> IsSafeSegment(segment)
  }

  /** How an extractor walks a path below its target directory: `.` and empty segments stay, `..` goes up. */
  function Walk(at: seq<string>, segments: seq<string>): Option<seq<string>>
    decreases |segments|
  {
    if segments == [] then Some(at)
    else if segments[0] == "" || segments[0] == "." then Walk(at, segments[1..])
    else if segments[0] == ".." then
      if at == [] then None else Walk(at[..|at| - 1], segments[1..])
    else Walk(at + [segments[0]], segments[1..])
  }

  /** A safe name stays below the target directory and reaches a file of exactly that name there. */
  lemma SafeNameStaysInside(name: string)
    requires IsSafeEntryName(name)
    ensures Walk([], Text.Split(name, "/")) == Some(Text.Split(name, "/"))
    ensures IsAscii(name)
  {
    WalkSafeSegments([], Text.Split(name, "/"));
    JoinIsAscii(Text.Split(name, "/"));
    assert [] + Text.Split(name, "/") == Text.Split(name, "/");
  }

  lemma {:induction false} WalkSafeSegments(at: seq<string>, segments: seq<string>)
    requires forall segment :: segment in segments ==> IsSafeSegment(segment)
    ensures Walk(at, segments) == Some(at + segments)
    decreases |segments|
  {
    if segments == [] {
      assert at + segments == at;
    } else {
      assert IsSafeSegment(segments[0]);
      WalkSafeSegments(at + [segments[0]], segments[1..]);
      assert at + [segments[0]] + segments[1..] == at + segments;
    }
  }

  lemma {:induction false} JoinIsAscii(segments: seq<string>)
    requires forall segment :: segment in segments ==> IsSafeSegment(segment)
    ensures IsAscii(Text.Join(segments, "/"))
  {
    if segments != [] {
      assert IsSafeSegment(segments[0]);
      JoinIsAscii(segments[1..]);
    }
  }

  // ---------- the timestamp ----------

  datatype Moment = Moment(year: int, month: nat, day: nat, hours: nat, minutes: nat, seconds: nat)

  ghost predicate ValidMoment(m: Moment) {
    m.month < 12 && 1 <= m.day <= 31 && m.hours < 24 && m.minutes < 60 && m.seconds < 60
  }

  datatype DosDateTime = DosDateTime(time: nat, date: nat)

  function ClampYear(year: int): int {
    if year < 1980 then 1980 else if year > 2107 then 2107 else year
  }

  function ToDosDateTime(m: Moment): (d: DosDateTime)
    requires ValidMoment(m)
    ensures d.time < TWO_TO_THE_16 && d.date < TWO_TO_THE_16
  {
    DosDateTime(m.hours * 2048 + m.minutes * 32 + m.seconds / 2,
                (ClampYear(m.year) - 1980) * 512 + (m.month + 1) * 32 + m.day)
  }

  /** Year, month from zero, day, hours, minutes and seconds, as a reader of the archive takes them out of the fields. */
  function DosFields(d: DosDateTime): (int, int, int, int, int, int) {
    (1980 + d.date / 512, d.date / 32 % 16 - 1, d.date % 32, d.time / 2048, d.time / 32 % 64, d.time % 32 * 2)
  }

  /** The DOS fields read back to the same moment, the year clamped and the seconds rounded down to even. */
  lemma DosDateTimeReadsBack(m: Moment)
    requires ValidMoment(m)
    ensures DosFields(ToDosDateTime(m))
      == (ClampYear(m.year), m.month, m.day, m.hours, m.minutes, m.seconds - m.seconds % 2)
  {
    var d := ToDosDateTime(m);
    assert d.date / 32 == (ClampYear(m.year) - 1980) * 16 + m.month + 1;
    assert d.time / 32 == m.hours * 64 + m.minutes;
  }

  // ---------- little-endian fields ----------

  function LE16(n: nat): (b: Bytes)
    requires n < TWO_TO_THE_16
    ensures |b| == 2
  {
    [(n % 256) as byte, (n / 256) as byte]
  }

  function LE32(n: nat): (b: Bytes)
    requires n < TWO_TO_THE_32
    ensures |b| == 4
  {
    [(n % 256) as byte, (n / 0x100 % 256) as byte, (n / 0x1_0000 % 256) as byte, (n / 0x100_0000) as byte]
  }

  function Read16(b: Bytes, at: nat): Result<nat, ZipError> {
    if at + 2 > |b| then Err(OutOfRange) else Ok(b[at] as nat + 256 * b[at + 1] as nat)
  }

  function Read32(b: Bytes, at: nat): Result<nat, ZipError> {
    if at + 4 > |b| then Err(OutOfRange)
    else Ok(b[at] as nat + 0x100 * b[at + 1] as nat + 0x1_0000 * b[at + 2] as nat + 0x100_0000 * b[at + 3] as nat)
  }

  lemma Read16Written(b: Bytes, at: nat, n: nat)
    requires n < TWO_TO_THE_16 && at + 2 <= |b| && b[at..at + 2] == LE16(n)
    ensures Read16(b, at) == Ok(n)
  {
    var w := b[at..at + 2];
    assert b[at] == w[0] && b[at + 1] == w[1];
  }

  lemma Read32Written(b: Bytes, at: nat, n: nat)
    requires n < TWO_TO_THE_32 && at + 4 <= |b| && b[at..at + 4] == LE32(n)
    ensures Read32(b, at) == Ok(n)
  {
    var w := b[at..at + 4];
    assert b[at] == w[0] && b[at + 1] == w[1] && b[at + 2] == w[2] && b[at + 3] == w[3];
    assert n / 0x1_0000 == n / 0x100 / 0x100 && n / 0x100_0000 == n / 0x1_0000 / 0x100;
  }

  method WriteUInt16LE(buf: array<byte>, n: nat, at: nat)
    requires n < TWO_TO_THE_16 && at + 2 <= buf.Length
    modifies buf
    ensures buf[..at + 2] == old(buf[..at]) + LE16(n)
    ensures forall k :: at + 2 <= k < buf.Length ==> buf[k] == old(buf[k])
  {
    buf[at], buf[at + 1] := (n % 256) as byte, (n / 256) as byte;
  }

  method WriteUInt32LE(buf: array<byte>, n: nat, at: nat)
    requires n < TWO_TO_THE_32 && at + 4 <= buf.Length
    modifies buf
    ensures buf[..at + 4] == old(buf[..at]) + LE32(n)
    ensures forall k :: at + 4 <= k < buf.Length ==> buf[k] == old(buf[k])
  {
    buf[at], buf[at + 1] := (n % 256) as byte, (n / 0x100 % 256) as byte;
    buf[at + 2], buf[at + 3] := (n / 0x1_0000 % 256) as byte, (n / 0x100_0000) as byte;
  }

  // ---------- the archive layout ----------

  /** What both headers of one entry say about it. */
  datatype Facts = Facts(stamp: DosDateTime, checksum: nat, compressedSize: nat, size: nat, nameLength: nat) {
    predicate Fit() {
      && stamp.time < TWO_TO_THE_16 && stamp.date < TWO_TO_THE_16
      && checksum < TWO_TO_THE_32 && compressedSize < TWO_TO_THE_32 && size < TWO_TO_THE_32
      && nameLength < TWO_TO_THE_16
    }
  }

  function LocalHeader(f: Facts): (b: Bytes)
    requires f.Fit()
    ensures |b| == 30
  {
    LE32(LOCAL_HEADER_SIGNATURE) + LE16(VERSION_NEEDED) + LE16(FLAG_UTF8) + LE16(METHOD_DEFLATE)
    + LE16(f.stamp.time) + LE16(f.stamp.date) + LE32(f.checksum) + LE32(f.compressedSize) + LE32(f.size)
    + LE16(f.nameLength) + LE16(0)
  }

  function CentralHeader(f: Facts, offset: nat): (b: Bytes)
    requires f.Fit() && offset < TWO_TO_THE_32
    ensures |b| == 46
  {
    LE32(CENTRAL_HEADER_SIGNATURE) + LE16(VERSION_MADE_BY) + LE16(VERSION_NEEDED) + LE16(FLAG_UTF8)
    + LE16(METHOD_DEFLATE) + LE16(f.stamp.time) + LE16(f.stamp.date) + LE32(f.checksum)
    + LE32(f.compressedSize) + LE32(f.size) + LE16(f.nameLength)
    + LE16(0) + LE16(0) + LE16(0) + LE16(0) + LE32(EXTERNAL_ATTRIBUTES) + LE32(offset)
  }

  function EndRecord(count: nat, size: nat, offset: nat): (b: Bytes)
    requires count < TWO_TO_THE_16 && size < TWO_TO_THE_32 && offset < TWO_TO_THE_32
    ensures |b| == 22
  {
    LE32(END_OF_CENTRAL_DIRECTORY_SIGNATURE) + LE16(0) + LE16(0) + LE16(count) + LE16(count)
    + LE32(size) + LE32(offset) + LE16(0)
  }

  function FactsOf(codec: Codec, e: ZipEntry, stamp: DosDateTime): Facts {
    Facts(stamp, Value(Crc32.Checksum(e.data)), |codec.deflate(e.data)|, |e.data|, |e.name|)
  }

  /** The header fields of this entry hold its sizes, and its name is one the writer accepts. */
  ghost predicate Fits(codec: Codec, e: ZipEntry) {
    && IsSafeEntryName(e.name)
    && |e.name| < TWO_TO_THE_16 && |e.data| < TWO_TO_THE_32 && |codec.deflate(e.data)| < TWO_TO_THE_32
  }

  lemma FactsFit(codec: Codec, e: ZipEntry, stamp: DosDateTime)
    requires Fits(codec, e) && stamp.time < TWO_TO_THE_16 && stamp.date < TWO_TO_THE_16
    ensures FactsOf(codec, e, stamp).Fit() && IsAscii(e.name)
  {
    SafeNameStaysInside(e.name);
    ValueBound(Crc32.Checksum(e.data));
    PowersOfTwo();
  }

  ghost predicate Encodable(codec: Codec, entries: seq<ZipEntry>, stamp: DosDateTime) {
    && stamp.time < TWO_TO_THE_16 && stamp.date < TWO_TO_THE_16
    && forall i :: 0 <= i < |entries| ==> Fits(codec, entries[i])
  }

  ghost function LocalPart(codec: Codec, e: ZipEntry, stamp: DosDateTime): Bytes
    requires Encodable(codec, [e], stamp)
  {
    assert Fits(codec, [e][0]);
    FactsFit(codec, e, stamp);
    LocalHeader(FactsOf(codec, e, stamp)) + Ascii(e.name) + codec.deflate(e.data)
  }

  ghost function CentralPart(codec: Codec, e: ZipEntry, stamp: DosDateTime, offset: nat): Bytes
    requires Encodable(codec, [e], stamp) && offset < TWO_TO_THE_32
  {
    assert Fits(codec, [e][0]);
    FactsFit(codec, e, stamp);
    CentralHeader(FactsOf(codec, e, stamp), offset) + Ascii(e.name)
  }

  /** All local headers, names and compressed data, in order. */
  ghost function Locals(codec: Codec, entries: seq<ZipEntry>, stamp: DosDateTime): Bytes
    requires Encodable(codec, entries, stamp)
  {
    if entries == [] then []
    else
      var n := |entries| - 1;
      Locals(codec, entries[..n], stamp) + LocalPart(codec, entries[n], stamp)
  }

  ghost predicate OffsetsFit(codec: Codec, entries: seq<ZipEntry>, stamp: DosDateTime)
    requires Encodable(codec, entries, stamp)
  {
    |Locals(codec, entries, stamp)| < TWO_TO_THE_32
  }

  /** The central directory: each entry's header points back at where its local part starts. */
  ghost function Centrals(codec: Codec, entries: seq<ZipEntry>, stamp: DosDateTime): Bytes
    requires Encodable(codec, entries, stamp) && OffsetsFit(codec, entries, stamp)
  {
    if entries == [] then []
    else
      var n := |entries| - 1;
      var offset := |Locals(codec, entries[..n], stamp)|;
      Centrals(codec, entries[..n], stamp) + CentralPart(codec, entries[n], stamp, offset)
  }

  /** Everything the writer demands of its input. */
  ghost predicate Writable(codec: Codec, entries: seq<ZipEntry>, stamp: DosDateTime) {
    && |entries| <= MAX_ENTRIES
    && DistinctNames(entries)
    && Encodable(codec, entries, stamp)
    && OffsetsFit(codec, entries, stamp)
    && |Centrals(codec, entries, stamp)| < TWO_TO_THE_32
  }

  ghost function Archive(codec: Codec, entries: seq<ZipEntry>, stamp: DosDateTime): Bytes
    requires Writable(codec, entries, stamp)
  {
    var locals, centrals := Locals(codec, entries, stamp), Centrals(codec, entries, stamp);
    locals + centrals + EndRecord(|entries|, |centrals|, |locals|)
  }

  lemma {:induction false} PrefixWritable(codec: Codec, entries: seq<ZipEntry>, stamp: DosDateTime, i: nat)
    requires Encodable(codec, entries, stamp) && i <= |entries|
    ensures Encodable(codec, entries[..i], stamp)
    ensures Locals(codec, entries[..i], stamp) <= Locals(codec, entries, stamp)
    ensures OffsetsFit(codec, entries, stamp) ==>
      && OffsetsFit(codec, entries[..i], stamp)
      && Centrals(codec, entries[..i], stamp) <= Centrals(codec, entries, stamp)
    decreases |entries|
  {
    hide Fits, LocalPart, CentralPart;
    if i == |entries| {
      assert entries[..i] == entries;
    } else {
      var n := |entries| - 1;
      assert entries[..n][..i] == entries[..i];
      PrefixWritable(codec, entries[..n], stamp, i);
    }
  }

  // ---------- the writer ----------

  lemma ZeroField()
    ensures LE16(0) == [0, 0]
  {
  }

  lemma FourZeroFields(b: Bytes, written: Bytes)
    requires |b| == |written| + 8 && b[..|written|] == written
    requires forall k :: |written| <= k < |b| ==> b[k] == 0
    ensures b == written + LE16(0) + LE16(0) + LE16(0) + LE16(0)
  {
    ZeroField();
  }

  /** The fields both headers have in common. */
  method WriteFacts(buf: array<byte>, f: Facts, at: nat)
    requires f.Fit() && at + 24 <= buf.Length
    modifies buf
    ensures buf[..at + 24] == old(buf[..at]) + LE16(VERSION_NEEDED) + LE16(FLAG_UTF8) + LE16(METHOD_DEFLATE)
      + LE16(f.stamp.time) + LE16(f.stamp.date) + LE32(f.checksum) + LE32(f.compressedSize) + LE32(f.size)
      + LE16(f.nameLength)
    ensures forall k :: at + 24 <= k < buf.Length ==> buf[k] == old(buf[k])
  {
    hide LE16, LE32;
    WriteUInt16LE(buf, VERSION_NEEDED, at);
    WriteUInt16LE(buf, FLAG_UTF8, at + 2);
    WriteUInt16LE(buf, METHOD_DEFLATE, at + 4);
    WriteUInt16LE(buf, f.stamp.time, at + 6);
    WriteUInt16LE(buf, f.stamp.date, at + 8);
    WriteUInt32LE(buf, f.checksum, at + 10);
    WriteUInt32LE(buf, f.compressedSize, at + 14);
    WriteUInt32LE(buf, f.size, at + 18);
    WriteUInt16LE(buf, f.nameLength, at + 22);
  }

  method LocalHeaderBuffer(f: Facts) returns (local: array<byte>)
    requires f.Fit()
    ensures fresh(local) && local[..] == LocalHeader(f)
  {
    hide LE16, LE32;
    local := new byte[30](_ => 0);
    WriteUInt32LE(local, LOCAL_HEADER_SIGNATURE, 0);
    WriteFacts(local, f, 4);
    WriteUInt16LE(local, 0, 28);
    assert local[..] == local[..30];
  }

  method CentralHeaderBuffer(f: Facts, offset: nat) returns (central: array<byte>)
    requires f.Fit() && offset < TWO_TO_THE_32
    ensures fresh(central) && central[..] == CentralHeader(f, offset)
  {
    hide LE16, LE32;
    central := new byte[46](_ => 0);
    WriteUInt32LE(central, CENTRAL_HEADER_SIGNATURE, 0);
    WriteUInt16LE(central, VERSION_MADE_BY, 4);
    WriteFacts(central, f, 6);
    FourZeroFields(central[..38], central[..30]);
    WriteUInt32LE(central, EXTERNAL_ATTRIBUTES, 38);
    WriteUInt32LE(central, offset, 42);
    assert central[..] == central[..46];
  }

  method EndRecordBuffer(count: nat, size: nat, offset: nat) returns (end: array<byte>)
    requires count < TWO_TO_THE_16 && size < TWO_TO_THE_32 && offset < TWO_TO_THE_32
    ensures fresh(end) && end[..] == EndRecord(count, size, offset)
  {
    hide LE16, LE32;
    end := new byte[22](_ => 0);
    WriteUInt32LE(end, END_OF_CENTRAL_DIRECTORY_SIGNATURE, 0);
    ZeroField();
    assert end[4..8] == LE16(0) + LE16(0);
    assert end[..8] == end[..4] + end[4..8];
    WriteUInt16LE(end, count, 8);
    WriteUInt16LE(end, count, 10);
    WriteUInt32LE(end, size, 12);
    WriteUInt32LE(end, offset, 16);
    assert end[20..22] == LE16(0);
    assert end[..] == end[..20] + end[20..22];
  }

  function Names(entries: seq<ZipEntry>): set<string> {
    set e | e in entries :: e.name
  }

  ghost predicate DistinctNames(entries: seq<ZipEntry>) {
    forall i, j :: 0 <= i < j < |entries| ==> entries[i].name != entries[j].name
  }

  /** Builds the archive exactly when every name, size and offset fits; the archive is the layout above. */
  method CreateZip(codec: Codec, table: array<Crc32.Register>, entries: seq<ZipEntry>, modifiedAt: Moment)
    returns (r: Result<Bytes, ZipError>)
    requires Crc32.IsCrcTable(table[..]) && ValidMoment(modifiedAt)
    ensures r.Ok? <==> Writable(codec, entries, ToDosDateTime(modifiedAt))
    ensures r.Ok? ==> r.value == Archive(codec, entries, ToDosDateTime(modifiedAt))
    ensures |entries| > MAX_ENTRIES ==> r == Err(TooManyEntries(|entries|))
  {
    if |entries| > MAX_ENTRIES {
      return Err(TooManyEntries(|entries|));
    }
    var stamp := ToDosDateTime(modifiedAt);
    var localParts, centralParts: Bytes := [], [];
    var seen: set<string> := {};
    var offset := 0;
    for i := 0 to |entries|
      invariant Encodable(codec, entries[..i], stamp) && OffsetsFit(codec, entries[..i], stamp)
      invariant seen == Names(entries[..i]) && DistinctNames(entries[..i])
      invariant localParts == Locals(codec, entries[..i], stamp) && offset == |localParts|
      invariant centralParts == Centrals(codec, entries[..i], stamp)
    {
      var entry := entries[i];
      ExtendNames(entries, i);
      var checked := CheckEntry(codec, entry, seen);
      if checked.Err? {
        NotWritable(codec, entries, stamp, i);
        return Err(checked.error);
      }
      seen := seen + {entry.name};
      var local, central := EntryParts(codec, table, entry, checked.value, stamp, offset);
      ExtendPrefix(codec, entries, stamp, i);
      localParts := localParts + local;
      offset := offset + |local|;
      if offset > MAX_UINT32 {
        OffsetTooLarge(codec, entries, stamp, i + 1);
        return Err(TooLarge);
      }
      centralParts := centralParts + central;
    }
    assert entries[..|entries|] == entries;
    if |centralParts| > MAX_UINT32 {
      return Err(OutOfRange);
    }
    var end := EndRecordBuffer(|entries|, |centralParts|, offset);
    return Ok(localParts + centralParts + end[..]);
  }

  /** Refuses a bad or repeated name, then a size no header field can hold; gives the compressed data. */
  method CheckEntry(codec: Codec, entry: ZipEntry, seen: set<string>) returns (r: Result<Bytes, ZipError>)
    ensures r.Ok? <==> Fits(codec, entry) && entry.name !in seen
    ensures r.Ok? ==> r.value == codec.deflate(entry.data)
    ensures r == Err(RefusedName(entry.name)) <==> !IsSafeEntryName(entry.name) || entry.name in seen
  {
    if !IsSafeEntryName(entry.name) || entry.name in seen {
      return Err(RefusedName(entry.name));
    }
    var compressed := codec.deflate(entry.data);
    if |compressed| > MAX_UINT32 || |entry.data| > MAX_UINT32 || |entry.name| > 0xFFFF {
      return Err(OutOfRange);
    }
    return Ok(compressed);
  }

  lemma ExtendNames(entries: seq<ZipEntry>, i: nat)
    requires i < |entries|
    ensures Names(entries[..i + 1]) == Names(entries[..i]) + {entries[i].name}
    ensures DistinctNames(entries[..i]) && entries[i].name !in Names(entries[..i]) ==> DistinctNames(entries[..i + 1])
    ensures entries[i].name in Names(entries[..i]) ==> !DistinctNames(entries)
  {
    assert entries[..i + 1] == entries[..i] + [entries[i]];
    forall j | 0 <= j < i ensures entries[j].name in Names(entries[..i]) {
      assert entries[..i][j] in entries[..i];
    }
    if entries[i].name in Names(entries[..i]) {
      var e :| e in entries[..i] && e.name == entries[i].name;
      var j :| 0 <= j < i && entries[..i][j] == e;
      assert entries[j].name == entries[i].name;
    }
  }

  lemma NotWritable(codec: Codec, entries: seq<ZipEntry>, stamp: DosDateTime, i: nat)
    requires i < |entries|
    requires !Fits(codec, entries[i]) || !DistinctNames(entries)
    ensures !Writable(codec, entries, stamp)
  {
  }

  lemma OffsetTooLarge(codec: Codec, entries: seq<ZipEntry>, stamp: DosDateTime, i: nat)
    requires i <= |entries| && Encodable(codec, entries[..i], stamp) && !OffsetsFit(codec, entries[..i], stamp)
    ensures !Writable(codec, entries, stamp)
  {
    if Encodable(codec, entries, stamp) {
      PrefixWritable(codec, entries, stamp, i);
    }
  }

  method EntryParts(codec: Codec, table: array<Crc32.Register>, entry: ZipEntry, compressed: Bytes,
                    stamp: DosDateTime, offset: nat)
    returns (localPart: Bytes, centralPart: Bytes)
    requires Crc32.IsCrcTable(table[..])
    requires Encodable(codec, [entry], stamp) && offset < TWO_TO_THE_32
    requires compressed == codec.deflate(entry.data)
    ensures localPart == LocalPart(codec, entry, stamp)
    ensures centralPart == CentralPart(codec, entry, stamp, offset)
  {
    assert Fits(codec, [entry][0]);
    FactsFit(codec, entry, stamp);
    var checksum := Crc32.Compute(table, entry.data);
    var facts := Facts(stamp, Value(checksum), |compressed|, |entry.data|, |entry.name|);
    var name := Ascii(entry.name);
    var local := LocalHeaderBuffer(facts);
    var central := CentralHeaderBuffer(facts, offset);
    return local[..] + name + compressed, central[..] + name;
  }

  lemma ExtendPrefix(codec: Codec, entries: seq<ZipEntry>, stamp: DosDateTime, i: nat)
    requires i < |entries| && Encodable(codec, entries[..i], stamp) && Fits(codec, entries[i])
    ensures Encodable(codec, entries[..i + 1], stamp)
    ensures Locals(codec, entries[..i + 1], stamp)
         == Locals(codec, entries[..i], stamp) + LocalPart(codec, entries[i], stamp)
    ensures OffsetsFit(codec, entries[..i], stamp) && OffsetsFit(codec, entries[..i + 1], stamp) ==>
      Centrals(codec, entries[..i + 1], stamp)
      == Centrals(codec, entries[..i], stamp)
         + CentralPart(codec, entries[i], stamp, |Locals(codec, entries[..i], stamp)|)
  {
    assert entries[..i + 1][..i] == entries[..i];
    assert entries[..i + 1] == entries[..i] + [entries[i]];
  }

  // ---------- the reader ----------

  const END_SIGNATURE: Bytes := [0x50, 0x4b, 0x05, 0x06]

  predicate EndSignatureAt(archive: Bytes, at: nat) {
    at + 4 <= |archive| && archive[at..at + 4] == END_SIGNATURE
  }

  /** The last end-record signature that starts at or before `from`. */
  function LastSignature(archive: Bytes, from: int): (r: Option<nat>)
    ensures r.Some? ==> r.value <= from && EndSignatureAt(archive, r.value)
    ensures forall at: nat :: at <= from && EndSignatureAt(archive, at) ==> r.Some? && at <= r.value
    decreases from + 1
  {
    if from < 0 then None
    else if EndSignatureAt(archive, from) then Some(from)
    else LastSignature(archive, from - 1)
  }

  /** `lastIndexOf` counts a negative start from the end of the buffer. */
  function FindEnd(archive: Bytes): Option<nat> {
    var start := |archive| - 22;
    LastSignature(archive, if start < 0 then start + |archive| else start)
  }

  /** `subarray` clamps both ends. */
  function Slice(b: Bytes, lo: nat, hi: nat): Bytes {
    var h := if hi > |b| then |b| else hi;
    if lo > h then [] else b[lo..h]
  }

  datatype CentralFields = CentralFields(method_: nat, checksum: nat, compressedSize: nat, nameLength: nat,
                                         extraLength: nat, commentLength: nat, localOffset: nat)

  function ReadCentral(archive: Bytes, cursor: nat): Result<CentralFields, ZipError> {
    var signature :- Read32(archive, cursor);
    if signature != CENTRAL_HEADER_SIGNATURE then Err(BadCentralEntry) else
    var method_ :- Read16(archive, cursor + 10);
    var checksum :- Read32(archive, cursor + 16);
    var compressedSize :- Read32(archive, cursor + 20);
    var nameLength :- Read16(archive, cursor + 28);
    var extraLength :- Read16(archive, cursor + 30);
    var commentLength :- Read16(archive, cursor + 32);
    var localOffset :- Read32(archive, cursor + 42);
    Ok(CentralFields(method_, checksum, compressedSize, nameLength, extraLength, commentLength, localOffset))
  }

  /** The compressed bytes a central header points at, found through the lengths in the local header. */
  function ReadRaw(archive: Bytes, c: CentralFields): Result<Bytes, ZipError> {
    var localNameLength :- Read16(archive, c.localOffset + 26);
    var localExtraLength :- Read16(archive, c.localOffset + 28);
    var dataStart := c.localOffset + 30 + localNameLength + localExtraLength;
    Ok(Slice(archive, dataStart, dataStart + c.compressedSize))
  }

  function Unpack(codec: Codec, c: CentralFields, name: string, raw: Bytes): Result<ZipEntry, ZipError> {
    var data := if c.method_ == METHOD_DEFLATE then codec.inflate(raw) else Some(raw);
    if data.None? then Err(InflateFailed)
    else if Value(Crc32.Checksum(data.value)) != c.checksum then Err(ChecksumMismatch(name))
    else Ok(ZipEntry(name, data.value))
  }

  /** The entry whose central header starts at the cursor, and where the next header starts. */
  function ReadEntry(codec: Codec, archive: Bytes, cursor: nat): Result<(ZipEntry, nat), ZipError> {
    var c :- ReadCentral(archive, cursor);
    var name := codec.decodeName(Slice(archive, cursor + 46, cursor + 46 + c.nameLength));
    var raw :- ReadRaw(archive, c);
    var entry :- Unpack(codec, c, name, raw);
    Ok((entry, cursor + 46 + c.nameLength + c.extraLength + c.commentLength))
  }

  function ReadEntries(codec: Codec, archive: Bytes, cursor: nat, count: nat): Result<seq<ZipEntry>, ZipError>
    decreases count
  {
    if count == 0 then Ok([]) else
    var first :- ReadEntry(codec, archive, cursor);
    var rest :- ReadEntries(codec, archive, first.1, count - 1);
    Ok([first.0] + rest)
  }

  function Contents(codec: Codec, archive: Bytes): Result<seq<ZipEntry>, ZipError> {
    var end := FindEnd(archive);
    if end.None? then Err(EndNotFound) else
    var count :- Read16(archive, end.value + 10);
    var cursor :- Read32(archive, end.value + 16);
    ReadEntries(codec, archive, cursor, count)
  }

  method ReadZip(codec: Codec, table: array<Crc32.Register>, archive: Bytes)
    returns (r: Result<seq<ZipEntry>, ZipError>)
    requires Crc32.IsCrcTable(table[..])
    ensures r == Contents(codec, archive)
  {
    hide ReadEntry, Read16, Read32, FindEnd;
    var end := FindEnd(archive);
    if end.None? {
      return Err(EndNotFound);
    }
    var count: nat :- Read16(archive, end.value + 10);
    var start: nat :- Read32(archive, end.value + 16);
    var cursor: nat := start;
    var entries: seq<ZipEntry> := [];
    var index: nat := 0;
    ghost var all := ReadEntries(codec, archive, start, count);
    assert all.Ok? ==> [] + all.value == all.value;
    while index < count
      invariant index <= count
      invariant all == Prepend(entries, ReadEntries(codec, archive, cursor, count - index))
    {
      var read: (ZipEntry, nat) :- ReadOne(codec, table, archive, cursor);
      PrependOne(entries, read.0, ReadEntries(codec, archive, read.1, count - index - 1));
      entries := entries + [read.0];
      cursor := read.1;
      index := index + 1;
    }
    assert entries + [] == entries;
    return Ok(entries);
  }

  method ReadOne(codec: Codec, table: array<Crc32.Register>, archive: Bytes, cursor: nat)
    returns (r: Result<(ZipEntry, nat), ZipError>)
    requires Crc32.IsCrcTable(table[..])
    ensures r == ReadEntry(codec, archive, cursor)
  {
    var c :- ReadCentral(archive, cursor);
    var name := codec.decodeName(Slice(archive, cursor + 46, cursor + 46 + c.nameLength));
    var raw :- ReadRaw(archive, c);
    var data := if c.method_ == METHOD_DEFLATE then codec.inflate(raw) else Some(raw);
    if data.None? {
      return Err(InflateFailed);
    }
    var checksum := Crc32.Compute(table, data.value);
    if Value(checksum) != c.checksum {
      return Err(ChecksumMismatch(name));
    }
    return Ok((ZipEntry(name, data.value), cursor + 46 + c.nameLength + c.extraLength + c.commentLength));
  }

  function Prepend(entries: seq<ZipEntry>, rest: Result<seq<ZipEntry>, ZipError>): Result<seq<ZipEntry>, ZipError> {
    if rest.Err? then rest else Ok(entries + rest.value)
  }

  lemma PrependOne(entries: seq<ZipEntry>, e: ZipEntry, rest: Result<seq<ZipEntry>, ZipError>)
    ensures Prepend(entries, Prepend([e], rest)) == Prepend(entries + [e], rest)
  {
    if rest.Ok? {
      assert entries + ([e] + rest.value) == entries + [e] + rest.value;
    }
  }

  // ---------- reading back what was written ----------

  /** The end record is found where it was written, whatever signatures the data contains. */
  lemma EndIsFound(body: Bytes, count: nat, size: nat, offset: nat)
    requires count < TWO_TO_THE_16 && size < TWO_TO_THE_32 && offset < TWO_TO_THE_32
    ensures FindEnd(body + EndRecord(count, size, offset)) == Some(|body|)
  {
    var end := EndRecord(count, size, offset);
    var archive := body + end;
    assert archive[|body|..|body| + 4] == end[..4] == LE32(END_OF_CENTRAL_DIRECTORY_SIGNATURE) == END_SIGNATURE;
  }

  lemma EndReadsBack(body: Bytes, count: nat, size: nat, offset: nat)
    requires count < TWO_TO_THE_16 && size < TWO_TO_THE_32 && offset < TWO_TO_THE_32
    ensures var archive := body + EndRecord(count, size, offset);
      Read16(archive, |body| + 10) == Ok(count) && Read32(archive, |body| + 16) == Ok(offset)
  {
    var end := EndRecord(count, size, offset);
    var archive := body + end;
    assert archive[|body| + 10..|body| + 12] == end[10..12] == LE16(count);
    Read16Written(archive, |body| + 10, count);
    assert archive[|body| + 16..|body| + 20] == end[16..20] == LE32(offset);
    Read32Written(archive, |body| + 16, offset);
  }

  lemma CentralReadsBack(archive: Bytes, cursor: nat, f: Facts, offset: nat)
    requires f.Fit() && offset < TWO_TO_THE_32
    requires StandsAt(archive, cursor, CentralHeader(f, offset))
    ensures ReadCentral(archive, cursor)
         == Ok(CentralFields(METHOD_DEFLATE, f.checksum, f.compressedSize, f.nameLength, 0, 0, offset))
  {
    var h := CentralHeader(f, offset);
    SubSlice(archive, cursor, h, 0, 4);
    assert h[0..4] == LE32(CENTRAL_HEADER_SIGNATURE);
    Read32Written(archive, cursor, CENTRAL_HEADER_SIGNATURE);
    SubSlice(archive, cursor, h, 10, 12);
    assert h[10..12] == LE16(METHOD_DEFLATE);
    Read16Written(archive, cursor + 10, METHOD_DEFLATE);
    SubSlice(archive, cursor, h, 16, 20);
    assert h[16..20] == LE32(f.checksum);
    Read32Written(archive, cursor + 16, f.checksum);
    SubSlice(archive, cursor, h, 20, 24);
    assert h[20..24] == LE32(f.compressedSize);
    Read32Written(archive, cursor + 20, f.compressedSize);
    SubSlice(archive, cursor, h, 28, 30);
    assert h[28..30] == LE16(f.nameLength);
    Read16Written(archive, cursor + 28, f.nameLength);
    SubSlice(archive, cursor, h, 30, 32);
    assert h[30..32] == LE16(0);
    Read16Written(archive, cursor + 30, 0);
    SubSlice(archive, cursor, h, 32, 34);
    assert h[32..34] == LE16(0);
    Read16Written(archive, cursor + 32, 0);
    SubSlice(archive, cursor, h, 42, 46);
    assert h[42..46] == LE32(offset);
    Read32Written(archive, cursor + 42, offset);
  }

  lemma SubSlice(archive: Bytes, at: nat, part: Bytes, lo: nat, hi: nat)
    requires lo <= hi <= |part| && StandsAt(archive, at, part)
    ensures StandsAt(archive, at + lo, part[lo..hi])
  {
    forall k | lo <= k < hi ensures archive[at + k] == part[k] {
      assert archive[at..at + |part|][k] == archive[at + k];
    }
    assert archive[at + lo..at + hi] == part[lo..hi];
  }

  predicate StandsAt(archive: Bytes, at: nat, part: Bytes) {
    at + |part| <= |archive| && archive[at..at + |part|] == part
  }

  lemma LocalReadsBack(archive: Bytes, offset: nat, f: Facts)
    requires f.Fit() && StandsAt(archive, offset, LocalHeader(f))
    ensures Read16(archive, offset + 26) == Ok(f.nameLength) && Read16(archive, offset + 28) == Ok(0)
  {
    var h := LocalHeader(f);
    SubSlice(archive, offset, h, 26, 28);
    assert h[26..28] == LE16(f.nameLength);
    Read16Written(archive, offset + 26, f.nameLength);
    SubSlice(archive, offset, h, 28, 30);
    assert h[28..30] == LE16(0);
    Read16Written(archive, offset + 28, 0);
  }

  lemma CentralPartReadsBack(codec: Codec, archive: Bytes, cursor: nat, f: Facts, offset: nat, name: Bytes)
    requires f.Fit() && offset < TWO_TO_THE_32
    requires StandsAt(archive, cursor, CentralHeader(f, offset) + name)
    ensures ReadCentral(archive, cursor)
         == Ok(CentralFields(METHOD_DEFLATE, f.checksum, f.compressedSize, f.nameLength, 0, 0, offset))
    ensures Slice(archive, cursor + 46, cursor + 46 + |name|) == name
  {
    var part := CentralHeader(f, offset) + name;
    SubSlice(archive, cursor, part, 0, 46);
    assert part[0..46] == CentralHeader(f, offset);
    CentralReadsBack(archive, cursor, f, offset);
    SubSlice(archive, cursor, part, 46, |part|);
    assert part[46..] == name;
  }

  lemma LocalPartReadsBack(archive: Bytes, offset: nat, f: Facts, name: Bytes, compressed: Bytes, c: CentralFields)
    requires f.Fit() && |name| == f.nameLength
    requires StandsAt(archive, offset, LocalHeader(f) + name + compressed)
    requires c.localOffset == offset && c.compressedSize == |compressed|
    ensures ReadRaw(archive, c) == Ok(compressed)
  {
    var part := LocalHeader(f) + name + compressed;
    SubSlice(archive, offset, part, 0, 30);
    assert part[0..30] == LocalHeader(f);
    LocalReadsBack(archive, offset, f);
    SubSlice(archive, offset, part, 30 + |name|, |part|);
    assert part[30 + |name|..] == compressed;
  }

  lemma ReadEntryFromParts(codec: Codec, archive: Bytes, cursor: nat, c: CentralFields, name: Bytes, raw: Bytes, e: ZipEntry)
    requires ReadCentral(archive, cursor) == Ok(c)
    requires Slice(archive, cursor + 46, cursor + 46 + c.nameLength) == name
    requires ReadRaw(archive, c) == Ok(raw)
    requires Unpack(codec, c, codec.decodeName(name), raw) == Ok(e)
    ensures ReadEntry(codec, archive, cursor) == Ok((e, cursor + 46 + c.nameLength + c.extraLength + c.commentLength))
  {
    hide ReadCentral, ReadRaw, Unpack, Slice;
  }

  lemma UnpackDeflated(codec: Codec, c: CentralFields, e: ZipEntry)
    requires Lossless(codec)
    requires c.method_ == METHOD_DEFLATE && c.checksum == Value(Crc32.Checksum(e.data))
    ensures Unpack(codec, c, e.name, codec.deflate(e.data)) == Ok(e)
  {
  }

  /** One entry's central and local parts, wherever they stand, read back as that entry. */
  lemma EntryReadsBack(codec: Codec, archive: Bytes, cursor: nat, e: ZipEntry, stamp: DosDateTime, offset: nat)
    requires Lossless(codec) && Encodable(codec, [e], stamp) && offset < TWO_TO_THE_32
    requires StandsAt(archive, cursor, CentralPart(codec, e, stamp, offset))
    requires StandsAt(archive, offset, LocalPart(codec, e, stamp))
    ensures ReadEntry(codec, archive, cursor) == Ok((e, cursor + 46 + |e.name|))
  {
    hide ReadCentral, ReadRaw, Unpack, Slice, ReadEntry, StandsAt, LocalHeader, CentralHeader, Crc32.Checksum, Value;
    assert Fits(codec, [e][0]);
    FactsFit(codec, e, stamp);
    var f := FactsOf(codec, e, stamp);
    var c := CentralFields(METHOD_DEFLATE, f.checksum, f.compressedSize, f.nameLength, 0, 0, offset);
    var name, raw := Ascii(e.name), codec.deflate(e.data);
    CentralPartReadsBack(codec, archive, cursor, f, offset, name);
    LocalPartReadsBack(archive, offset, f, name, raw, c);
    UnpackDeflated(codec, c, e);
    ReadEntryFromParts(codec, archive, cursor, c, name, raw, e);
  }

  ghost function CentralsSize(entries: seq<ZipEntry>): nat {
    if entries == [] then 0 else CentralsSize(entries[..|entries| - 1]) + 46 + |entries[|entries| - 1].name|
  }

  lemma {:induction false} SizeOfCentrals(codec: Codec, entries: seq<ZipEntry>, stamp: DosDateTime)
    requires Encodable(codec, entries, stamp) && OffsetsFit(codec, entries, stamp)
    ensures |Centrals(codec, entries, stamp)| == CentralsSize(entries)
  {
    if entries != [] {
      PrefixWritable(codec, entries, stamp, |entries| - 1);
      SizeOfCentrals(codec, entries[..|entries| - 1], stamp);
    }
  }

  lemma LocalStands(codec: Codec, entries: seq<ZipEntry>, stamp: DosDateTime, i: nat, after: Bytes)
    requires Encodable(codec, entries, stamp) && i < |entries|
    ensures Encodable(codec, entries[..i], stamp) && Encodable(codec, [entries[i]], stamp)
    ensures StandsAt(Locals(codec, entries, stamp) + after, |Locals(codec, entries[..i], stamp)|,
                     LocalPart(codec, entries[i], stamp))
  {
    hide Fits, LocalPart, StandsAt;
    PrefixWritable(codec, entries, stamp, i);
    PrefixWritable(codec, entries, stamp, i + 1);
    ExtendPrefix(codec, entries, stamp, i);
    var section := Locals(codec, entries, stamp);
    assert section + after == [] + section + after;
    PartStands(section + after, [], Locals(codec, entries[..i], stamp), LocalPart(codec, entries[i], stamp), section, after);
  }

  lemma CentralStands(codec: Codec, entries: seq<ZipEntry>, stamp: DosDateTime, i: nat, before: Bytes, after: Bytes)
    requires Encodable(codec, entries, stamp) && OffsetsFit(codec, entries, stamp) && i < |entries|
    ensures Encodable(codec, entries[..i], stamp) && Encodable(codec, [entries[i]], stamp)
    ensures OffsetsFit(codec, entries[..i], stamp)
    ensures StandsAt(before + Centrals(codec, entries, stamp) + after, |before| + CentralsSize(entries[..i]),
                     CentralPart(codec, entries[i], stamp, |Locals(codec, entries[..i], stamp)|))
  {
    hide CentralPart, LocalPart, StandsAt;
    PrefixWritable(codec, entries, stamp, i);
    PrefixWritable(codec, entries, stamp, i + 1);
    ExtendPrefix(codec, entries, stamp, i);
    SizeOfCentrals(codec, entries[..i], stamp);
    var section := Centrals(codec, entries, stamp);
    var offset := |Locals(codec, entries[..i], stamp)|;
    PartStands(before + section + after, before, Centrals(codec, entries[..i], stamp),
               CentralPart(codec, entries[i], stamp, offset), section, after);
  }

  /** The k-th header starts after the headers of the first k entries and reads back as entry k. */
  ghost predicate ReadsNext(codec: Codec, archive: Bytes, entries: seq<ZipEntry>, base: nat, k: nat)
    requires k < |entries|
  {
    ReadEntry(codec, archive, base + CentralsSize(entries[..k])) == Ok((entries[k], base + CentralsSize(entries[..k + 1])))
  }

  lemma {:induction false} ReadEntriesStepwise(codec: Codec, archive: Bytes, entries: seq<ZipEntry>, base: nat, i: nat)
    requires i <= |entries|
    requires forall k: nat :: k < |entries| ==> ReadsNext(codec, archive, entries, base, k)
    ensures ReadEntries(codec, archive, base + CentralsSize(entries[..i]), |entries| - i) == Ok(entries[i..])
    decreases |entries| - i
  {
    hide ReadEntry;
    if i < |entries| {
      assert ReadsNext(codec, archive, entries, base, i);
      ReadEntriesStepwise(codec, archive, entries, base, i + 1);
      assert [entries[i]] + entries[i + 1..] == entries[i..];
    }
  }

  /** A part of a section keeps its place when the section is followed by more. */
  lemma PartStands(archive: Bytes, before: Bytes, prefix: Bytes, part: Bytes, section: Bytes, after: Bytes)
    requires archive == before + section + after
    requires prefix + part <= section
    ensures StandsAt(archive, |before| + |prefix|, part)
  {
    assert section[|prefix|..|prefix| + |part|] == (prefix + part)[|prefix|..] == part;
    assert archive[|before|..|before| + |section|] == section;
  }

  lemma EntryIsNext(codec: Codec, entries: seq<ZipEntry>, stamp: DosDateTime, k: nat)
    requires Lossless(codec) && Writable(codec, entries, stamp) && k < |entries|
    ensures ReadsNext(codec, Archive(codec, entries, stamp), entries, |Locals(codec, entries, stamp)|, k)
  {
    hide ReadEntry, StandsAt, LocalPart, CentralPart, EndRecord, Locals, Centrals, Fits, DistinctNames, Lossless;
    var locals, centrals := Locals(codec, entries, stamp), Centrals(codec, entries, stamp);
    var end := EndRecord(|entries|, |centrals|, |locals|);
    assert locals + centrals + end == locals + (centrals + end);
    LocalStands(codec, entries, stamp, k, centrals + end);
    CentralStands(codec, entries, stamp, k, locals, end);
    EntryReadsBack(codec, Archive(codec, entries, stamp), |locals| + CentralsSize(entries[..k]), entries[k], stamp,
                   |Locals(codec, entries[..k], stamp)|);
    assert entries[..k + 1][..k] == entries[..k];
  }

  lemma ContentsFromParts(codec: Codec, archive: Bytes, end: nat, count: nat, cursor: nat, entries: seq<ZipEntry>)
    requires FindEnd(archive) == Some(end)
    requires Read16(archive, end + 10) == Ok(count) && Read32(archive, end + 16) == Ok(cursor)
    requires ReadEntries(codec, archive, cursor, count) == Ok(entries)
    ensures Contents(codec, archive) == Ok(entries)
  {
    hide FindEnd, Read16, Read32, ReadEntry;
  }

  lemma AllEntriesRead(codec: Codec, entries: seq<ZipEntry>, stamp: DosDateTime)
    requires Lossless(codec) && Writable(codec, entries, stamp)
    ensures ReadEntries(codec, Archive(codec, entries, stamp), |Locals(codec, entries, stamp)|, |entries|) == Ok(entries)
  {
    hide ReadsNext, ReadEntry, Archive, Locals, Centrals;
    var archive, base := Archive(codec, entries, stamp), |Locals(codec, entries, stamp)|;
    forall k: nat | k < |entries| ensures ReadsNext(codec, archive, entries, base, k) {
      EntryIsNext(codec, entries, stamp, k);
    }
    ReadEntriesStepwise(codec, archive, entries, base, 0);
    assert entries[..0] == [] && entries[0..] == entries;
  }

  /** Reading an archive gives back exactly the entries it was built from, in order. */
  lemma RoundTrip(codec: Codec, entries: seq<ZipEntry>, stamp: DosDateTime)
    requires Lossless(codec) && Writable(codec, entries, stamp)
    ensures Contents(codec, Archive(codec, entries, stamp)) == Ok(entries)
  {
    hide FindEnd, Read16, Read32, EndRecord;
    var locals, centrals := Locals(codec, entries, stamp), Centrals(codec, entries, stamp);
    EndIsFound(locals + centrals, |entries|, |centrals|, |locals|);
    EndReadsBack(locals + centrals, |entries|, |centrals|, |locals|);
    AllEntriesRead(codec, entries, stamp);
    ContentsFromParts(codec, Archive(codec, entries, stamp), |locals + centrals|, |entries|, |locals|, entries);
  }

  /** The checksum test of the reader rejects data that differs from what was written only inside
      four consecutive bytes. */
  lemma ChangedDataIsRejected(codec: Codec, c: CentralFields, name: string, raw: Bytes,
                              prefix: Bytes, u: Bytes, v: Bytes, suffix: Bytes)
    requires |u| == |v| <= 4 && u != v
    requires c.checksum == Value(Crc32.Checksum(prefix + u + suffix))
    requires codec.inflate(raw) == Some(prefix + v + suffix) && c.method_ == METHOD_DEFLATE
    ensures Unpack(codec, c, name, raw) == Err(ChecksumMismatch(name))
  {
    var a, b := prefix + u + suffix, prefix + v + suffix;
    Crc32.ChecksumDetectsByteChange(prefix, u, v, suffix);
    ToBitsOfValue(Crc32.Checksum(a));
    ToBitsOfValue(Crc32.Checksum(b));
  }
}
