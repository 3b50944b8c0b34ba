/** What the reader makes of an archive whose compressed data was damaged after it was written. */
module ZipDamage {
  import opened Wrappers
  import opened Words
  import opened Zip

  /** Two archives of one length that may differ from lo to hi only. */
  ghost predicate SameOutside(a: Bytes, b: Bytes, lo: nat, hi: nat) {
    lo <= hi <= |a| == |b| && a[..lo] == b[..lo] && a[hi..] == b[hi..]
  }

  lemma StandsOutside(a: Bytes, b: Bytes, lo: nat, hi: nat, at: nat, part: Bytes)
    requires SameOutside(a, b, lo, hi) && StandsAt(a, at, part) && (at + |part| <= lo || hi <= at)
    ensures StandsAt(b, at, part)
  {
    forall i | 0 <= i < |part| ensures a[at + i] == b[at + i] == part[i] {
      assert a[at..at + |part|][i] == a[at + i];
      assert if at + i < lo then a[..lo][at + i] == b[..lo][at + i] else a[hi..][at + i - hi] == b[hi..][at + i - hi];
    }
  }

  /** Where the compressed data of entry k starts. */
  ghost function DataStart(codec: Codec, entries: seq<ZipEntry>, stamp: DosDateTime, k: nat): nat
    requires Writable(codec, entries, stamp) && k < |entries|
  {
    PrefixWritable(codec, entries, stamp, k);
    |Locals(codec, entries[..k], stamp)| + 30 + |entries[k].name|
  }

  ghost function DataEnd(codec: Codec, entries: seq<ZipEntry>, stamp: DosDateTime, k: nat): nat
    requires Writable(codec, entries, stamp) && k < |entries|
  {
    DataStart(codec, entries, stamp, k) + |codec.deflate(entries[k].data)|
  }

  lemma LocalPartSize(codec: Codec, e: ZipEntry, stamp: DosDateTime)
    requires Encodable(codec, [e], stamp)
    ensures |LocalPart(codec, e, stamp)| == 30 + |e.name| + |codec.deflate(e.data)|
  {
    assert Fits(codec, [e][0]);
    FactsFit(codec, e, stamp);
  }

  /** The local part of entry j ends before those of entry k and all later ones start. */
  lemma LocalEnds(codec: Codec, entries: seq<ZipEntry>, stamp: DosDateTime, j: nat, k: nat)
    requires Encodable(codec, entries, stamp) && j < k <= |entries|
    ensures Encodable(codec, entries[..j], stamp) && Encodable(codec, entries[..k], stamp)
    ensures Encodable(codec, [entries[j]], stamp)
    ensures |Locals(codec, entries[..j], stamp)| + |LocalPart(codec, entries[j], stamp)| <= |Locals(codec, entries[..k], stamp)|
  {
    hide Fits, LocalPart, Locals;
    PrefixWritable(codec, entries, stamp, j);
    PrefixWritable(codec, entries, stamp, k);
    ExtendPrefix(codec, entries, stamp, j);
    PrefixWritable(codec, entries[..k], stamp, j + 1);
    assert entries[..k][..j + 1] == entries[..j + 1];
  }

  lemma DataInside(codec: Codec, entries: seq<ZipEntry>, stamp: DosDateTime, k: nat)
    requires Writable(codec, entries, stamp) && k < |entries|
    ensures DataEnd(codec, entries, stamp, k) <= |Locals(codec, entries, stamp)|
  {
    hide Locals, LocalPart;
    LocalEnds(codec, entries, stamp, k, |entries|);
    LocalPartSize(codec, entries[k], stamp);
    assert entries[..|entries|] == entries;
  }

  /** The header and name of every entry stand in the damaged archive, and so do the whole local parts of the others. */
  lemma PartsStand(codec: Codec, entries: seq<ZipEntry>, stamp: DosDateTime, k: nat, damaged: Bytes, j: nat)
    requires Writable(codec, entries, stamp) && j <= k < |entries|
    requires SameOutside(Archive(codec, entries, stamp), damaged,
               DataStart(codec, entries, stamp, k), DataEnd(codec, entries, stamp, k))
    ensures Encodable(codec, entries[..j], stamp) && Encodable(codec, [entries[j]], stamp)
    ensures OffsetsFit(codec, entries[..j], stamp)
    ensures var offset := |Locals(codec, entries[..j], stamp)|;
      StandsAt(damaged, |Locals(codec, entries, stamp)| + CentralsSize(entries[..j]),
               CentralPart(codec, entries[j], stamp, offset))
      && (j < k ==> StandsAt(damaged, offset, LocalPart(codec, entries[j], stamp)))
      && StandsAt(damaged, offset, LocalHead(codec, entries[j], stamp))
  {
    hide LocalPart, CentralPart, EndRecord, Locals, Centrals, Fits, DistinctNames, StandsAt, LocalHead;
    var archive := Archive(codec, entries, stamp);
    var locals, centrals := Locals(codec, entries, stamp), Centrals(codec, entries, stamp);
    var end := EndRecord(|entries|, |centrals|, |locals|);
    var lo, hi := DataStart(codec, entries, stamp, k), DataEnd(codec, entries, stamp, k);
    assert archive == locals + (centrals + end);
    DataInside(codec, entries, stamp, k);
    LocalStands(codec, entries, stamp, j, centrals + end);
    CentralStands(codec, entries, stamp, j, locals, end);
    var offset := |Locals(codec, entries[..j], stamp)|;
    StandsOutside(archive, damaged, lo, hi, |locals| + CentralsSize(entries[..j]),
                  CentralPart(codec, entries[j], stamp, offset));
    HeadStands(codec, archive, entries[j], stamp, offset);
    LocalPartSize(codec, entries[j], stamp);
    if j < k {
      LocalEnds(codec, entries, stamp, j, k);
      StandsOutside(archive, damaged, lo, hi, offset, LocalPart(codec, entries[j], stamp));
    }
    StandsOutside(archive, damaged, lo, hi, offset, LocalHead(codec, entries[j], stamp));
  }

  /** The local header and name of an entry. */
  ghost function LocalHead(codec: Codec, e: ZipEntry, stamp: DosDateTime): (head: Bytes)
    requires Encodable(codec, [e], stamp)
    ensures |head| == 30 + |e.name|
  {
    assert Fits(codec, [e][0]);
    FactsFit(codec, e, stamp);
    LocalHeader(FactsOf(codec, e, stamp)) + Ascii(e.name)
  }

  lemma HeadStands(codec: Codec, archive: Bytes, e: ZipEntry, stamp: DosDateTime, offset: nat)
    requires Encodable(codec, [e], stamp) && StandsAt(archive, offset, LocalPart(codec, e, stamp))
    ensures StandsAt(archive, offset, LocalHead(codec, e, stamp))
  {
    hide StandsAt;
    var head := LocalHead(codec, e, stamp);
    var part := LocalPart(codec, e, stamp);
    assert part == head + codec.deflate(e.data);
    SubSlice(archive, offset, part, 0, |head|);
    assert part[0..|head|] == head;
  }

  lemma EarlierReads(codec: Codec, entries: seq<ZipEntry>, stamp: DosDateTime, k: nat, damaged: Bytes, j: nat)
    requires Lossless(codec) && Writable(codec, entries, stamp) && j < k < |entries|
    requires SameOutside(Archive(codec, entries, stamp), damaged,
               DataStart(codec, entries, stamp, k), DataEnd(codec, entries, stamp, k))
    ensures ReadsNext(codec, damaged, entries, |Locals(codec, entries, stamp)|, j)
  {
    hide ReadEntry, StandsAt, LocalPart, CentralPart, Archive, Locals, Centrals, Fits, DistinctNames, Lossless, DataStart, DataEnd;
    PartsStand(codec, entries, stamp, k, damaged, j);
    EntryReadsBack(codec, damaged, |Locals(codec, entries, stamp)| + CentralsSize(entries[..j]), entries[j], stamp,
                   |Locals(codec, entries[..j], stamp)|);
    assert entries[..j + 1][..j] == entries[..j];
  }

  /** An entry whose parts stand but for its data is read as that data, whatever it is now. */
  lemma DamagedEntry(codec: Codec, damaged: Bytes, cursor: nat, e: ZipEntry, stamp: DosDateTime, offset: nat,
                     prefix: Bytes, u: Bytes, v: Bytes, suffix: Bytes)
    requires Lossless(codec) && Encodable(codec, [e], stamp) && offset < TWO_TO_THE_32
    requires StandsAt(damaged, cursor, CentralPart(codec, e, stamp, offset))
    requires StandsAt(damaged, offset, LocalHead(codec, e, stamp))
    requires |u| == |v| <= 4 && u != v && e.data == prefix + u + suffix
    requires var lo := offset + 30 + |e.name|;
      lo + |codec.deflate(e.data)| <= |damaged|
      && codec.inflate(damaged[lo..lo + |codec.deflate(e.data)|]) == Some(prefix + v + suffix)
    ensures ReadEntry(codec, damaged, cursor) == Err(ChecksumMismatch(e.name))
  {
    hide ReadCentral, ReadRaw, Unpack, Slice, StandsAt, LocalHeader, CentralHeader, Crc32.Checksum, Value;
    assert Fits(codec, [e][0]);
    FactsFit(codec, e, stamp);
    var f := FactsOf(codec, e, stamp);
    var c := CentralFields(METHOD_DEFLATE, f.checksum, f.compressedSize, f.nameLength, 0, 0, offset);
    var lo := offset + 30 + |e.name|;
    var raw := damaged[lo..lo + c.compressedSize];
    CentralPartReadsBack(codec, damaged, cursor, f, offset, Ascii(e.name));
    RawReadsBack(damaged, offset, f, Ascii(e.name), c);
    ChangedDataIsRejected(codec, c, e.name, raw, prefix, u, v, suffix);
  }

  lemma RawReadsBack(archive: Bytes, offset: nat, f: Facts, name: Bytes, c: CentralFields)
    requires f.Fit() && |name| == f.nameLength && c.localOffset == offset
    requires StandsAt(archive, offset, LocalHeader(f) + name) && offset + 30 + |name| + c.compressedSize <= |archive|
    ensures ReadRaw(archive, c)
         == Ok(archive[offset + 30 + |name|..offset + 30 + |name| + c.compressedSize])
  {
    hide Read16, LocalHeader;
    var part := LocalHeader(f) + name;
    SubSlice(archive, offset, part, 0, 30);
    assert part[0..30] == LocalHeader(f);
    LocalReadsBack(archive, offset, f);
  }

  lemma {:induction false} ErrorStepwise(codec: Codec, archive: Bytes, entries: seq<ZipEntry>, base: nat, i: nat, k: nat, e: ZipError)
    requires i <= k < |entries|
    requires forall j: nat :: j < k ==> ReadsNext(codec, archive, entries, base, j)
    requires ReadEntry(codec, archive, base + CentralsSize(entries[..k])) == Err(e)
    ensures ReadEntries(codec, archive, base + CentralsSize(entries[..i]), |entries| - i) == Err(e)
    decreases k - i
  {
    hide ReadEntry;
    if i < k {
      assert ReadsNext(codec, archive, entries, base, i);
      ErrorStepwise(codec, archive, entries, base, i + 1, k, e);
    }
  }

  lemma EndStillFound(codec: Codec, entries: seq<ZipEntry>, stamp: DosDateTime, damaged: Bytes, lo: nat, hi: nat)
    requires Writable(codec, entries, stamp) && hi <= |Locals(codec, entries, stamp)|
    requires SameOutside(Archive(codec, entries, stamp), damaged, lo, hi)
    ensures var end := |Locals(codec, entries, stamp)| + |Centrals(codec, entries, stamp)|;
      FindEnd(damaged) == Some(end) && Read16(damaged, end + 10) == Ok(|entries|)
      && Read32(damaged, end + 16) == Ok(|Locals(codec, entries, stamp)|)
  {
    hide FindEnd, Read16, Read32, EndRecord, Locals, Centrals, DistinctNames;
    var archive := Archive(codec, entries, stamp);
    var locals, centrals := Locals(codec, entries, stamp), Centrals(codec, entries, stamp);
    var end := EndRecord(|entries|, |centrals|, |locals|);
    var n := |locals| + |centrals|;
    assert archive[hi..][n - hi..] == archive[n..] == end;
    assert damaged[hi..][n - hi..] == damaged[n..];
    assert damaged == damaged[..n] + end;
    EndIsFound(damaged[..n], |entries|, |centrals|, |locals|);
    EndReadsBack(damaged[..n], |entries|, |centrals|, |locals|);
  }

  /** An archive is written, and then the compressed data of entry k is overwritten so that it decompresses to a text that
      differs from the entry's inside four consecutive bytes. Reading then fails with a checksum error that names the
      entry. */
  lemma DamagedDataIsRejected(codec: Codec, entries: seq<ZipEntry>, stamp: DosDateTime, k: nat, damaged: Bytes,
                              prefix: Bytes, u: Bytes, v: Bytes, suffix: Bytes)
    requires Lossless(codec) && Writable(codec, entries, stamp) && k < |entries|
    requires |u| == |v| <= 4 && u != v && entries[k].data == prefix + u + suffix
    requires var lo, hi := DataStart(codec, entries, stamp, k), DataEnd(codec, entries, stamp, k);
      SameOutside(Archive(codec, entries, stamp), damaged, lo, hi)
      && codec.inflate(damaged[lo..hi]) == Some(prefix + v + suffix)
    ensures Contents(codec, damaged) == Err(ChecksumMismatch(entries[k].name))
  {
    hide ReadEntry, ReadsNext, Archive, Locals, Centrals, LocalPart, LocalHead, CentralPart, StandsAt, FindEnd, Read16, Read32;
    hide Fits, DistinctNames;
    var base := |Locals(codec, entries, stamp)|;
    DataInside(codec, entries, stamp, k);
    EndStillFound(codec, entries, stamp, damaged, DataStart(codec, entries, stamp, k), DataEnd(codec, entries, stamp, k));
    forall j: nat | j < k ensures ReadsNext(codec, damaged, entries, base, j) {
      EarlierReads(codec, entries, stamp, k, damaged, j);
    }
    PartsStand(codec, entries, stamp, k, damaged, k);
    DamagedEntry(codec, damaged, base + CentralsSize(entries[..k]), entries[k], stamp,
                 |Locals(codec, entries[..k], stamp)|, prefix, u, v, suffix);
    ErrorStepwise(codec, damaged, entries, base, 0, k, ChecksumMismatch(entries[k].name));
    assert entries[..0] == [];
  }
}
