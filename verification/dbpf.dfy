/** Header and v2 index-entry decoding of src/dbpf/mod.rs. The archive is an
    immutable byte sequence; every seek-then-read of the source becomes a
    bounds-checked subsequence of it. */
module Dbpf {
  import opened LittleEndian
  import opened Errors
  import opened Slicer

  const HeaderSize: nat := 96
  const HeaderSlots: nat := 24
  const IndexEntrySize: nat := 32
  /** The 4-byte word that precedes the entry array of a v2 index. */
  const IndexPreambleSize: nat := 4

  /** The signature bytes, ASCII "DBPF". */
  const Magic: seq<Byte> := [0x44, 0x42, 0x50, 0x46]
  /** Slot 0 of a valid header read as a little-endian word. */
  const MagicWord: U32 := 0x4650_4244

  /** The signature bytes are the little-endian encoding of the signature word. */
  lemma MagicBytes()
    ensures LeBytes(MagicWord, 4) == Magic
  {
  }

  /** A decoded header: its 24 slots as 32-bit words. */
  type HeaderWords = h: seq<U32> | |h| == 24 witness seq(24, _ => 0)

  // ---------------------------------------------------------------- signature

  /** The text of bytes that are all ASCII, one character per byte. */
  function AsciiText(bytes: seq<Byte>): (r: string)
    requires forall j :: 0 <= j < |bytes| ==> bytes[j] < 0x80
    ensures |r| == |bytes|
    ensures forall j :: 0 <= j < |bytes| ==> r[j] as int == bytes[j]
  {
    seq(|bytes|, j requires 0 <= j < |bytes| => bytes[j] as char)
  }

  /** True if `needle` occurs in `hay` at some position. */
  predicate Contains(hay: string, needle: string) {
    exists i :: 0 <= i <= |hay| && OccursAt(hay, needle, i)
  }

  /** True if `needle` occurs in `hay` starting at position `i`. */
  predicate OccursAt(hay: string, needle: string, i: nat) {
    i + |needle| <= |hay| && hay[i .. i + |needle|] == needle
  }

  /** A string contains another of the same length exactly when they are equal. */
  lemma ContainsSameLength(hay: string, needle: string)
    requires |hay| == |needle|
    ensures Contains(hay, needle) <==> hay == needle
  {
    if hay == needle {
      assert OccursAt(hay, needle, 0);
    }
  }

  /** Checks the four signature bytes. The source decodes them as UTF-8 (and
      panics if they are not valid UTF-8), then asks whether the text contains
      "DBPF". Four bytes with a non-ASCII byte among them can never contain
      that text, so they fail too. */
  function CheckSignature(sig: seq<Byte>): (r: Result<string>)
    requires |sig| == 4
    ensures r.Ok? <==> sig == Magic
    ensures r.Ok? ==> r.value == "DBPF"
    ensures r.Err? ==> r.error == InvalidSignature(sig)
  {
    if forall j :: 0 <= j < |sig| ==> sig[j] < 0x80 then
      var text := AsciiText(sig);
      ContainsSameLength(text, "DBPF");
      assert text == "DBPF" <==> sig == Magic by {
        if sig == Magic {
          assert forall j :: 0 <= j < 4 ==> text[j] == "DBPF"[j];
        }
        if text == "DBPF" {
          assert forall j :: 0 <= j < 4 ==> sig[j] == Magic[j];
        }
      }
      if Contains(text, "DBPF") then Ok(text) else Err(InvalidSignature(sig))
    else
      Err(InvalidSignature(sig))
  }

  // ------------------------------------------------------------------- header

  /** Reads the 96 header bytes from the start of `file` and checks their
      signature. A short file is an I/O failure; a wrong signature (a panic in
      the source) is an InvalidSignature failure. */
  function ReadHeaderRaw(file: seq<Byte>): (r: Result<seq<Byte>>)
    ensures r.Ok? <==> |file| >= HeaderSize && file[..4] == Magic
    ensures r.Ok? ==> r.value == file[..HeaderSize]
    ensures |file| < HeaderSize ==> r == Err(IoFailure(0, HeaderSize))
    ensures |file| >= HeaderSize && file[..4] != Magic ==> r == Err(InvalidSignature(file[..4]))
  {
    if |file| < HeaderSize then
      Err(IoFailure(0, HeaderSize))
    else
      var raw := file[..HeaderSize];
      assert SlicerRaw(raw, 0) == file[..4];
      var _ :- CheckSignature(SlicerRaw(raw, 0));
      Ok(raw)
  }

  /** Decodes the 96 header bytes into the 24 little-endian words of its slots.
      It never fails, and it loses nothing: the words encode back to the bytes. */
  function ProcessHeader(raw: seq<Byte>): (r: Result<HeaderWords>)
    requires |raw| == HeaderSize
    ensures r.Ok?
    ensures EncodeWords(r.value) == raw
  {
    EncodeDecodeWords(raw);
    Ok(DecodeWords(raw, HeaderSlots))
  }

  /** A header decodes back to the words it was encoded from. */
  lemma ProcessEncodedHeader(h: HeaderWords)
    ensures ProcessHeader(EncodeWords(h)) == Ok(h)
  {
    DecodeEncodeWords(h);
  }

  /** Reads and decodes the header: succeeds exactly when the file holds 96
      bytes starting with "DBPF", and then slot `i` is the little-endian word
      at bytes [4i, 4i + 4) of the file. */
  function ReadHeaderProcessed(file: seq<Byte>): (r: Result<HeaderWords>)
    ensures r.Ok? <==> |file| >= HeaderSize && file[..4] == Magic
    ensures r.Ok? ==> forall i :: 0 <= i < HeaderSlots ==> r.value[i] == Slicer32(file, i)
    ensures r.Ok? ==> r.value[0] == MagicWord
    ensures r.Err? ==> r.error == ReadHeaderRaw(file).error
  {
    var raw :- ReadHeaderRaw(file);
    var r := ProcessHeader(raw);
    assert forall i :: 0 <= i < HeaderSlots ==> r.value[i] == Slicer32(file, i) by {
      forall i | 0 <= i < HeaderSlots
        ensures r.value[i] == Slicer32(file, i)
      {
        assert raw[4 * i .. 4 * i + 4] == file[4 * i .. 4 * i + 4];
      }
    }
    r
  }

  // -------------------------------------------------------------------- index

  /** The absolute byte position of v2 index entry `i`: past the 4-byte
      preamble at `indexOffset`, then 32 bytes per entry. */
  function IndexEntryPosition(indexOffset: U32, i: nat): nat {
    indexOffset + IndexPreambleSize + IndexEntrySize * i
  }

  /** The same position computed, as the source does, in 32-bit arithmetic
      that wraps around. */
  function IndexEntryPositionU32(indexOffset: U32, i: U32): U32 {
    ((indexOffset + IndexPreambleSize) % 0x1_0000_0000 + (i * IndexEntrySize) % 0x1_0000_0000) % 0x1_0000_0000
  }

  /** While the position fits in 32 bits, the 32-bit computation is exact;
      beyond that it wraps to a different, smaller position. */
  lemma IndexEntryPositionFits(indexOffset: U32, i: U32)
    ensures IndexEntryPosition(indexOffset, i) < 0x1_0000_0000
            <==> IndexEntryPositionU32(indexOffset, i) == IndexEntryPosition(indexOffset, i)
  {
  }

  /** True if the 32 bytes of entry `i` of the index at `indexOffset` lie in `file`. */
  predicate EntryInFile(file: seq<Byte>, indexOffset: U32, i: nat) {
    IndexEntryPosition(indexOffset, i) + IndexEntrySize <= |file|
  }

  /** Later entries lie further into the file: if one entry is in the file,
      so is every entry before it. */
  lemma EntryInFileMonotone(file: seq<Byte>, indexOffset: U32, i: nat, j: nat)
    requires i <= j && EntryInFile(file, indexOffset, j)
    ensures EntryInFile(file, indexOffset, i)
  {
  }

  /** Reads the 32 raw bytes of index entry `i`; fails when they are not all
      in the file (a short read in the source). */
  function ReadIndexV2Raw(file: seq<Byte>, indexOffset: U32, i: U32): (r: Result<seq<Byte>>)
    ensures r.Ok? <==> EntryInFile(file, indexOffset, i)
    ensures r.Ok? ==> |r.value| == IndexEntrySize
    ensures r.Ok? ==> forall j :: 0 <= j < IndexEntrySize ==>
                        r.value[j] == file[IndexEntryPosition(indexOffset, i) + j]
    ensures r.Err? ==> r.error == IoFailure(IndexEntryPosition(indexOffset, i), IndexEntrySize)
  {
    var pos := IndexEntryPosition(indexOffset, i);
    if pos + IndexEntrySize <= |file| then
      Ok(file[pos .. pos + IndexEntrySize])
    else
      Err(IoFailure(pos, IndexEntrySize))
  }

  /** A decoded v2 index entry; the fields are the source's array positions 0 to 8. */
  datatype IndexEntry = IndexEntry(
    typeId: U32,
    groupId: U32,
    instanceHigh: U32,
    instanceLow: U32,
    fileLocation: U32,
    sizeUncompressed: U32,
    sizeCompressed: U32,
    compressionFlag: U32,
    unknownFlag: U32)
  {
    /** True of the entries a 32-byte record can hold: the uncompressed size
        keeps 28 bits and each flag 16. */
    predicate Encodable() {
      sizeUncompressed < 0x1000_0000 && compressionFlag < 0x1_0000 && unknownFlag < 0x1_0000
    }
  }

  /** `w & 0x0FFFFFFF`: the low 28 bits of a word. */
  function Mask28(w: U32): (r: U32)
    ensures r < 0x1000_0000
    ensures r == w % 0x1000_0000
  {
    Mask28IsRemainder(w);
    And(w, 0x0FFF_FFFF)
  }

  lemma Mask28IsRemainder(w: nat)
    ensures And(w, 0x0FFF_FFFF) == w % 0x1000_0000
  {
    Pow2TwentyEight();
    AndLowMask(w, 28);
  }

  lemma Pow2TwentyEight()
    ensures Pow2(28) == 0x1000_0000
  {
    assert Pow2(7) == 0x80;
    Pow2Add(7, 7);
    Pow2Add(14, 14);
  }

  /** Decodes a 32-byte v2 index record. */
  function ProcessIndexV2(raw: seq<Byte>): (e: IndexEntry)
    requires |raw| == IndexEntrySize
    ensures e.Encodable()
    ensures e.typeId == Slicer32(raw, 0) && e.groupId == Slicer32(raw, 1)
    ensures e.instanceHigh == Slicer32(raw, 2) && e.instanceLow == Slicer32(raw, 3)
    ensures e.fileLocation == Slicer32(raw, 4) && e.sizeCompressed == Slicer32(raw, 6)
    ensures e.sizeUncompressed == Slicer32(raw, 5) % 0x1000_0000
    ensures e.compressionFlag + 0x1_0000 * e.unknownFlag == Slicer32(raw, 7)
  {
    WordIsTwoHalves(raw, 7);
    IndexEntry(
      Slicer32(raw, 0),
      Slicer32(raw, 1),
      Slicer32(raw, 2),
      Slicer32(raw, 3),
      Slicer32(raw, 4),
      Mask28(Slicer32(raw, 5)),
      Slicer32(raw, 6),
      Slicer16(raw, 7, 0),
      Slicer16(raw, 7, 2))
  }

  /** The eight words of a record holding `e`: the two flags share word 7. */
  function EntryWords(e: IndexEntry): (w: seq<U32>)
    requires e.Encodable()
  {
    [e.typeId, e.groupId, e.instanceHigh, e.instanceLow, e.fileLocation,
     e.sizeUncompressed, e.sizeCompressed, e.compressionFlag + 0x1_0000 * e.unknownFlag]
  }

  /** The 32-byte v2 record holding `e`, with the reserved top bits of the
      uncompressed size clear. */
  function EncodeIndexEntry(e: IndexEntry): (r: seq<Byte>)
    requires e.Encodable()
    ensures |r| == IndexEntrySize
  {
    EncodeWords(EntryWords(e))
  }

  /** Decoding an encoded entry gives the entry back. */
  lemma ProcessEncodedIndexEntry(e: IndexEntry)
    requires e.Encodable()
    ensures ProcessIndexV2(EncodeIndexEntry(e)) == e
  {
    var raw := EncodeIndexEntry(e);
    var w := EntryWords(e);
    EncodedSlotReads(w, 0);
    EncodedSlotReads(w, 1);
    EncodedSlotReads(w, 2);
    EncodedSlotReads(w, 3);
    EncodedSlotReads(w, 4);
    EncodedSlotReads(w, 5);
    EncodedSlotReads(w, 6);
    EncodedSlotReads(w, 7);
    var d := ProcessIndexV2(raw);
    assert d.sizeUncompressed == e.sizeUncompressed by {
      ModUnique(e.sizeUncompressed, 0x1000_0000, 0, e.sizeUncompressed);
    }
    HalvesUnique(d.compressionFlag, d.unknownFlag, e.compressionFlag, e.unknownFlag);
  }

  /** A word splits into 16-bit halves in one way only. */
  lemma HalvesUnique(lo: nat, hi: nat, lo': nat, hi': nat)
    requires lo < 0x1_0000 && lo' < 0x1_0000
    requires lo + 0x1_0000 * hi == lo' + 0x1_0000 * hi'
    ensures lo == lo' && hi == hi'
  {
  }

  /** `raw` with the top four bits of byte 23 (the reserved bits of the
      uncompressed-size word) cleared. */
  function ClearReservedBits(raw: seq<Byte>): (r: seq<Byte>)
    requires |raw| == IndexEntrySize
  {
    raw[23 := raw[23] % 0x10]
  }

  /** Decoding then encoding a record gives it back with only its reserved
      bits cleared: the decoder drops those four bits and nothing else. */
  lemma EncodeProcessedIndexEntry(raw: seq<Byte>)
    requires |raw| == IndexEntrySize
    ensures EncodeIndexEntry(ProcessIndexV2(raw)) == ClearReservedBits(raw)
  {
    var e := ProcessIndexV2(raw);
    var c := ClearReservedBits(raw);
    var w := EntryWords(e);
    assert w == DecodeWords(c, 8) by {
      forall k | 0 <= k < 8
        ensures w[k] == Slicer32(c, k)
      {
        if k == 5 {
          ReservedBitsOfSize(raw);
        } else if k == 7 {
          WordIsTwoHalves(raw, 7);
        }
      }
    }
    EncodeDecodeWords(c);
  }

  /** The 28-bit size is the size word of the record with its reserved bits cleared. */
  lemma ReservedBitsOfSize(raw: seq<Byte>)
    requires |raw| == IndexEntrySize
    ensures Slicer32(raw, 5) % 0x1000_0000 == Slicer32(ClearReservedBits(raw), 5)
  {
  }

  /** The reserved top four bits of byte 23 do not affect the decoded entry. */
  lemma ReservedBitsIgnored(raw: seq<Byte>, raw': seq<Byte>)
    requires |raw| == IndexEntrySize && |raw'| == IndexEntrySize
    requires forall j :: 0 <= j < IndexEntrySize && j != 23 ==> raw[j] == raw'[j]
    requires raw[23] % 0x10 == raw'[23] % 0x10
    ensures ProcessIndexV2(raw) == ProcessIndexV2(raw')
  {
    ReservedBitsOfSize(raw);
    ReservedBitsOfSize(raw');
    assert ClearReservedBits(raw) == ClearReservedBits(raw');
  }

  /** The decoded entry `k` of the index at `indexOffset`. */
  function EntryAt(file: seq<Byte>, indexOffset: U32, k: nat): IndexEntry
    requires EntryInFile(file, indexOffset, k)
  {
    var pos := IndexEntryPosition(indexOffset, k);
    ProcessIndexV2(file[pos .. pos + IndexEntrySize])
  }

  /** Reads and decodes index entry `i`; fails exactly when its 32 bytes are
      not all in the file. */
  function ReadIndexV2Processed(file: seq<Byte>, indexOffset: U32, i: U32): (r: Result<IndexEntry>)
    ensures r.Ok? <==> EntryInFile(file, indexOffset, i)
    ensures r.Ok? ==> r.value == EntryAt(file, indexOffset, i)
    ensures r.Err? ==> r.error == IoFailure(IndexEntryPosition(indexOffset, i), IndexEntrySize)
  {
    var raw :- ReadIndexV2Raw(file, indexOffset, i);
    ghost var pos := IndexEntryPosition(indexOffset, i);
    assert raw == file[pos .. pos + IndexEntrySize];
    Ok(ProcessIndexV2(raw))
  }
}
