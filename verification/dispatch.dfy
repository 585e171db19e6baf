/** The version dispatch the viewer runs after reading the header: pick the
    index layout from the major version, and for 2.x and 3.x archives decode
    every index entry in slot order. The result is the header, the chosen
    layout and the ordered list of decoded entries. */
module Dispatch {
  import opened LittleEndian
  import opened Errors
  import opened Slicer
  import opened Dbpf

  /** The index layout a header announces, with the values each layout needs. */
  datatype IndexLayout =
      /** 1.x: index offset relative (slot 10), entry minor version slot 15 - 1. No entries are decoded. */
    | LegacyV1(relativeOffset: U32, subVersionMinor: U32)
      /** 2.x and 3.x: index at the absolute offset in slot 16. */
    | Current(absoluteOffset: U32)
      /** Any other major version: recognised, not decoded. */
    | Unsupported(major: U32)

  /** A decoded archive: its header words, the layout chosen, and the index
      entries in slot order. */
  datatype Archive = Archive(header: HeaderWords, layout: IndexLayout, entries: seq<IndexEntry>)

  function MajorVersion(h: HeaderWords): U32 { h[1] }
  function EntryCount(h: HeaderWords): U32 { h[9] }
  function LegacyIndexOffset(h: HeaderWords): U32 { h[10] }
  function LegacyIndexMinor(h: HeaderWords): U32 { h[15] }
  function IndexOffset(h: HeaderWords): U32 { h[16] }

  predicate IsCurrentMajor(major: U32) {
    major == 2 || major == 3
  }

  /** Chooses the index layout from the header. The 1.x path computes
      `slot15 - 1` in unsigned 32-bit arithmetic, which underflows when slot 15
      is 0; that is reported as a failure. */
  function SelectLayout(h: HeaderWords): (r: Result<IndexLayout>)
    ensures r.Ok? <==> MajorVersion(h) != 1 || LegacyIndexMinor(h) >= 1
    ensures r.Ok? ==> (r.value.LegacyV1? <==> MajorVersion(h) == 1)
    ensures r.Ok? ==> (r.value.Current? <==> IsCurrentMajor(MajorVersion(h)))
    ensures r.Ok? && r.value.LegacyV1? ==>
              r.value.relativeOffset == LegacyIndexOffset(h) && r.value.subVersionMinor + 1 == LegacyIndexMinor(h)
    ensures r.Ok? && r.value.Current? ==> r.value.absoluteOffset == IndexOffset(h)
    ensures r.Err? ==> r.error == SubVersionUnderflow
  {
    var major := MajorVersion(h);
    if major == 1 then
      if LegacyIndexMinor(h) == 0 then Err(SubVersionUnderflow)
      else Ok(LegacyV1(LegacyIndexOffset(h), LegacyIndexMinor(h) - 1))
    else if IsCurrentMajor(major) then
      Ok(Current(IndexOffset(h)))
    else
      Ok(Unsupported(major))
  }


  /** True if every one of the first `count` entries lies in the file. */
  predicate AllEntriesInFile(file: seq<Byte>, indexOffset: U32, count: nat) {
    forall k :: 0 <= k < count ==> EntryInFile(file, indexOffset, k)
  }

  /** The first `count` entries of the index at `indexOffset`, read in
      ascending slot order. The first entry that cannot be read aborts the
      whole list and is reported by its index. */
  function ReadIndexEntries(file: seq<Byte>, indexOffset: U32, count: U32): (r: Result<seq<IndexEntry>>)
    ensures r.Ok? <==> AllEntriesInFile(file, indexOffset, count)
    ensures r.Ok? ==> |r.value| == count
    ensures r.Ok? ==> forall k :: 0 <= k < count ==> r.value[k] == EntryAt(file, indexOffset, k)
    ensures r.Err? ==> r.error.EntryReadFailed? && r.error.index < count
    ensures r.Err? ==> !EntryInFile(file, indexOffset, r.error.index)
    ensures r.Err? ==> AllEntriesInFile(file, indexOffset, r.error.index)
    decreases count
  {
    if count == 0 then
      Ok([])
    else
      var prefix :- ReadIndexEntries(file, indexOffset, count - 1);
      var entry := ReadIndexV2Processed(file, indexOffset, count - 1);
      if entry.Err? then
        Err(EntryReadFailed(count - 1))
      else
        Ok(prefix + [entry.value])
  }

  /** A list whose every entry lies in the file and decodes to the given
      value is read as exactly those values. */
  lemma EntriesReadAs(file: seq<Byte>, indexOffset: U32, entries: seq<IndexEntry>)
    requires |entries| < 0x1_0000_0000
    requires forall k :: 0 <= k < |entries| ==>
               EntryInFile(file, indexOffset, k) && EntryAt(file, indexOffset, k) == entries[k]
    ensures ReadIndexEntries(file, indexOffset, |entries|) == Ok(entries)
  {
    var r := ReadIndexEntries(file, indexOffset, |entries|);
    assert AllEntriesInFile(file, indexOffset, |entries|);
    assert r.value == entries;
  }

  /** Whether the list decodes depends only on its last entry: entries lie
      further into the file as their index grows. */
  lemma AllEntriesInFileIffLast(file: seq<Byte>, indexOffset: U32, count: nat)
    ensures AllEntriesInFile(file, indexOffset, count)
            <==> count == 0 || EntryInFile(file, indexOffset, count - 1)
  {
  }

  /** The entry loop of the viewer: entries are read one by one in ascending
      order and appended; any failed read abandons the list. */
  method ReadIndexList(file: seq<Byte>, indexOffset: U32, count: U32) returns (r: Result<seq<IndexEntry>>)
    ensures r == ReadIndexEntries(file, indexOffset, count)
  {
    var list: seq<IndexEntry> := [];
    var n: U32 := 0;
    while n < count
      invariant n <= count
      invariant ReadIndexEntries(file, indexOffset, n) == Ok(list)
    {
      var entry := ReadIndexV2Processed(file, indexOffset, n);
      if entry.Err? {
        r := Err(EntryReadFailed(n));
        FirstFailureIsReported(file, indexOffset, n, count);
        return;
      }
      list := list + [entry.value];
      n := n + 1;
    }
    r := Ok(list);
  }

  /** If the entries before `n` are readable and entry `n` is not, reading any
      longer list fails at `n`. */
  lemma FirstFailureIsReported(file: seq<Byte>, indexOffset: U32, n: U32, count: U32)
    requires n < count
    requires AllEntriesInFile(file, indexOffset, n)
    requires !EntryInFile(file, indexOffset, n)
    ensures ReadIndexEntries(file, indexOffset, count) == Err(EntryReadFailed(n))
  {
  }

  /** Decodes an archive as the viewer does at start-up: the header, then the
      layout by major version, then for 2.x and 3.x all `slot 9` entries from
      the absolute offset in slot 16. */
  function DecodeArchive(file: seq<Byte>): (r: Result<Archive>)
    ensures r.Ok? ==> |file| >= HeaderSize && file[..4] == Magic
    ensures r.Ok? ==> forall i :: 0 <= i < HeaderSlots ==> r.value.header[i] == Slicer32(file, i)
    ensures r.Ok? && !IsCurrentMajor(MajorVersion(r.value.header)) ==> r.value.entries == []
    ensures r.Ok? && IsCurrentMajor(MajorVersion(r.value.header)) ==>
              |r.value.entries| == EntryCount(r.value.header)
              && forall k :: 0 <= k < |r.value.entries| ==>
                   EntryInFile(file, IndexOffset(r.value.header), k)
                   && r.value.entries[k] == EntryAt(file, IndexOffset(r.value.header), k)
  {
    var h :- ReadHeaderProcessed(file);
    var layout :- SelectLayout(h);
    var entries :- if layout.Current? then ReadIndexEntries(file, layout.absoluteOffset, EntryCount(h)) else Ok([]);
    Ok(Archive(h, layout, entries))
  }

  /** A file whose header cannot be read fails with the header's failure. */
  lemma DecodeBadHeader(file: seq<Byte>)
    requires !(|file| >= HeaderSize && file[..4] == Magic)
    ensures DecodeArchive(file).Err?
    ensures |file| < HeaderSize ==> DecodeArchive(file).error == IoFailure(0, HeaderSize)
    ensures |file| >= HeaderSize ==> DecodeArchive(file).error == InvalidSignature(file[..4])
  {
  }

  /** Major version 1: no entries are decoded; the layout carries the
      relative offset and `slot15 - 1`, or the decode fails if that underflows. */
  lemma DecodeLegacy(file: seq<Byte>)
    requires |file| >= HeaderSize && file[..4] == Magic
    requires Slicer32(file, 1) == 1
    ensures DecodeArchive(file).Ok? <==> Slicer32(file, 15) >= 1
    ensures DecodeArchive(file).Ok? ==>
              DecodeArchive(file).value.entries == []
              && DecodeArchive(file).value.layout == LegacyV1(Slicer32(file, 10), Slicer32(file, 15) - 1)
    ensures DecodeArchive(file).Err? ==> DecodeArchive(file).error == SubVersionUnderflow
  {
  }

  /** Major version 2 or 3: the decode succeeds exactly when every entry lies
      in the file, and otherwise reports the first entry that does not. */
  lemma DecodeCurrent(file: seq<Byte>)
    requires |file| >= HeaderSize && file[..4] == Magic
    requires IsCurrentMajor(Slicer32(file, 1))
    ensures var count := Slicer32(file, 9);
            var offset := Slicer32(file, 16);
            && (DecodeArchive(file).Ok? <==> count == 0 || EntryInFile(file, offset, count - 1))
            && (DecodeArchive(file).Ok? ==> DecodeArchive(file).value.layout == Current(offset))
            && (DecodeArchive(file).Err? ==>
                  exists k :: 0 <= k < count && DecodeArchive(file).error == EntryReadFailed(k)
                              && !EntryInFile(file, offset, k) && AllEntriesInFile(file, offset, k))
  {
    var h := ReadHeaderProcessed(file).value;
    assert SelectLayout(h) == Ok(Current(IndexOffset(h)));
    AllEntriesInFileIffLast(file, IndexOffset(h), EntryCount(h));
  }

  /** Any other major version: an empty index, not a failure. */
  lemma DecodeUnsupported(file: seq<Byte>)
    requires |file| >= HeaderSize && file[..4] == Magic
    requires Slicer32(file, 1) != 1 && !IsCurrentMajor(Slicer32(file, 1))
    ensures DecodeArchive(file).Ok?
    ensures DecodeArchive(file).value.layout == Unsupported(Slicer32(file, 1))
    ensures DecodeArchive(file).value.entries == []
  {
  }

  /** An entry count of 0 gives an empty index, and nothing past the header
      is read: the result is the same for the header bytes alone. */
  lemma DecodeEmptyIndex(file: seq<Byte>)
    requires |file| >= HeaderSize && file[..4] == Magic
    requires IsCurrentMajor(Slicer32(file, 1)) && Slicer32(file, 9) == 0
    ensures DecodeArchive(file).Ok? && DecodeArchive(file).value.entries == []
    ensures DecodeArchive(file[..HeaderSize]) == DecodeArchive(file)
  {
    var head := file[..HeaderSize];
    assert head[..4] == file[..4];
    forall i | 0 <= i < HeaderSlots
      ensures Slicer32(head, i) == Slicer32(file, i)
    {
    }
    assert ReadHeaderProcessed(head).value == ReadHeaderProcessed(file).value;
  }

  // --------------------------------------------------- synthetic archives

  /** The 32-byte records of `entries`, back to back. */
  function EncodeEntries(entries: seq<IndexEntry>): (r: seq<Byte>)
    requires forall k :: 0 <= k < |entries| ==> entries[k].Encodable()
    ensures |r| == IndexEntrySize * |entries|
  {
    if |entries| == 0 then [] else EncodeIndexEntry(entries[0]) + EncodeEntries(entries[1..])
  }

  /** Record `k` of the encoded entries is the encoding of entry `k`. */
  lemma {:induction false} EncodeEntriesSlot(entries: seq<IndexEntry>, k: nat)
    requires forall j :: 0 <= j < |entries| ==> entries[j].Encodable()
    requires k < |entries|
    ensures EncodeEntries(entries)[IndexEntrySize * k .. IndexEntrySize * k + IndexEntrySize]
            == EncodeIndexEntry(entries[k])
  {
    if k > 0 {
      EncodeEntriesSlot(entries[1..], k - 1);
      SliceOfAppend(EncodeIndexEntry(entries[0]), EncodeEntries(entries[1..]), IndexEntrySize * (k - 1), IndexEntrySize * (k - 1) + IndexEntrySize);
    }
  }

  /** A 2.x/3.x archive laid out as header, the 4-byte index preamble, then
      the entry records, with the index placed directly after the header. */
  function EncodeArchive(h: HeaderWords, preamble: U32, entries: seq<IndexEntry>): (r: seq<Byte>)
    requires forall k :: 0 <= k < |entries| ==> entries[k].Encodable()
    ensures |r| == HeaderSize + IndexPreambleSize + IndexEntrySize * |entries|
  {
    EncodeWords(h) + IndexBytes(preamble, entries)
  }

  /** The index part of a synthetic archive: the preamble word, then the records. */
  function IndexBytes(preamble: U32, entries: seq<IndexEntry>): (r: seq<Byte>)
    requires forall k :: 0 <= k < |entries| ==> entries[k].Encodable()
    ensures |r| == IndexPreambleSize + IndexEntrySize * |entries|
  {
    LeBytes(preamble, IndexPreambleSize) + EncodeEntries(entries)
  }

  /** The header of a synthetic archive reads back as the words it was written from. */
  lemma EncodedHeaderReads(h: HeaderWords, preamble: U32, entries: seq<IndexEntry>)
    requires forall k :: 0 <= k < |entries| ==> entries[k].Encodable()
    requires h[0] == MagicWord
    ensures ReadHeaderProcessed(EncodeArchive(h, preamble, entries)) == Ok(h)
  {
    var head := EncodeWords(h);
    var file := head + IndexBytes(preamble, entries);
    assert file[..4] == Magic by {
      EncodeWordsSlot(h, 0);
      MagicBytes();
      assert file[..4] == head[..4];
    }
    var r := ReadHeaderProcessed(file);
    forall i | 0 <= i < HeaderSlots
      ensures r.value[i] == h[i]
    {
      EncodedSlotReads(h, i);
      Slicer32OfPrefix(head, IndexBytes(preamble, entries), i);
    }
    assert r.value == h;
  }

  /** Entry `k` of a synthetic archive lies in the file and decodes to `entries[k]`. */
  lemma EncodedEntryReads(h: HeaderWords, preamble: U32, entries: seq<IndexEntry>, k: nat)
    requires forall j :: 0 <= j < |entries| ==> entries[j].Encodable()
    requires k < |entries|
    ensures EntryInFile(EncodeArchive(h, preamble, entries), HeaderSize, k)
    ensures EntryAt(EncodeArchive(h, preamble, entries), HeaderSize, k) == entries[k]
  {
    var file := EncodeArchive(h, preamble, entries);
    var body := EncodeEntries(entries);
    var pos := IndexEntryPosition(HeaderSize, k);
    var head := EncodeWords(h) + LeBytes(preamble, IndexPreambleSize);
    assert file == head + body;
    SliceOfAppend(head, body, IndexEntrySize * k, IndexEntrySize * k + IndexEntrySize);
    EncodeEntriesSlot(entries, k);
    ProcessEncodedIndexEntry(entries[k]);
  }

  /** Header words and entries written into a file decode back to themselves. */
  lemma DecodeEncodedArchive(h: HeaderWords, preamble: U32, entries: seq<IndexEntry>)
    requires forall k :: 0 <= k < |entries| ==> entries[k].Encodable()
    requires h[0] == MagicWord && IsCurrentMajor(h[1])
    requires h[9] == |entries| && h[16] == HeaderSize
    ensures DecodeArchive(EncodeArchive(h, preamble, entries)) == Ok(Archive(h, Current(HeaderSize), entries))
  {
    var file := EncodeArchive(h, preamble, entries);
    EncodedHeaderReads(h, preamble, entries);
    assert SelectLayout(h) == Ok(Current(HeaderSize));
    EncodedEntriesRead(h, preamble, entries);
  }

  /** The whole index of a synthetic archive reads back as the entries written. */
  lemma EncodedEntriesRead(h: HeaderWords, preamble: U32, entries: seq<IndexEntry>)
    requires forall k :: 0 <= k < |entries| ==> entries[k].Encodable()
    requires |entries| < 0x1_0000_0000
    ensures ReadIndexEntries(EncodeArchive(h, preamble, entries), HeaderSize, |entries|) == Ok(entries)
  {
    var file := EncodeArchive(h, preamble, entries);
    forall k | 0 <= k < |entries|
      ensures EntryInFile(file, HeaderSize, k) && EntryAt(file, HeaderSize, k) == entries[k]
    {
      EncodedEntryReads(h, preamble, entries, k);
    }
    EntriesReadAs(file, HeaderSize, entries);
  }
}
