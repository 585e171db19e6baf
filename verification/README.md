# DBPF archive decoder — a Dafny model

This project models the binary decoding layer of a DBPF ("Database Packed
File") game-archive viewer. It covers four steps. Little-endian field
extraction from 4-byte slots. The "DBPF" signature check. Decoding the 96-byte
header into 24 words. Decoding the 32-byte version-2 index records into the
nine fields of an index entry: type, group, instance high and low, file
location, uncompressed size, compressed size, compression flag and unknown
flag. On top of these sits the version dispatch that the viewer runs at
start-up. Major version 1 takes the legacy path and decodes no entries.
Versions 2 and 3 decode `slot 9` entries in ascending order, starting at the
absolute offset in slot 16. Any other version gives an empty index.

The archive is an immutable `seq<Byte>` with bytes in 0..255. Each seek
followed by `read_exact` becomes a bounds-checked subsequence of it. Panics and
`expect`s become `DecodeError` values in a `Result`. When a slicer is asked for
bytes past the end of its buffer, its out-of-range slice index panics. That is
a programming error rather than a file error, so it is a `requires`. The
slicers' `expect("Not enough data in the Vector")` cannot fire, because a slice
of exactly 4 (or 2) bytes always converts to an array.

Modules, one per source file plus two shared ones:

- `LittleEndian` (little_endian.dfy) holds bytes, `LeValue`/`LeBytes` and the
  bit-by-bit `And` used for the 28-bit mask.
- `Errors` (errors.dfy) holds `DecodeError` and `Result`.
- `Slicer` (slicer.dfy) models `src/dbpf/slicer.rs`.
- `Dbpf` (dbpf.dfy) models `src/dbpf/mod.rs`.
- `Dispatch` (dispatch.dfy) models the version dispatch block of `src/main.rs`.

Each decoder has a synthetic encoder as its partner: `LeBytes`, `EncodeWords`,
`EncodeIndexEntry` and `EncodeArchive`. The round-trip lemmas connect each
decoder with its encoder in both directions where the decoder loses nothing.
The index-entry decoder loses exactly the four reserved bits, and the lemmas
state that too.

Points of the code the model makes explicit:

- The uncompressed size, word 5, is the only masked field
  (src/dbpf/mod.rs:90).
- The code's `contains("DBPF")` check is modelled literally. It is then proved
  to be equality on four characters.
- The code reports a failed entry read through `expect`, with no index. The
  model's `EntryReadFailed` carries the index of the first entry that failed.
  Which entry that is follows from the code's ascending loop.

## Model

| member | source | states |
|---|---|---|
| Slicer.Slicer32 | src/dbpf/slicer.rs:1-7 | the word in slot k is byte 4k plus 256 times byte 4k+1 plus 65536 times byte 4k+2 plus 16777216 times byte 4k+3, below 2^32; callable only when 4k+4 bytes exist (the source panics otherwise) |
| Slicer.SlicerRaw | src/dbpf/slicer.rs:9-15 | returns exactly the four bytes of slot k, unchanged; requires 4k+4 bytes |
| Slicer.Slicer16 | src/dbpf/slicer.rs:17-23 | the half-word at 4k+s is byte 4k+s plus 256 times byte 4k+s+1, below 65536; requires 4k+s+2 bytes |
| Slicer.RawAndWordAgree | src/dbpf/slicer.rs:1-15 | the word of a slot is the little-endian value of the slot's raw bytes |
| Slicer.WordIsTwoHalves | src/dbpf/slicer.rs:1-23 | a word equals its low half-word plus 65536 times its high half-word |
| Slicer.Slicer32Encoded | src/dbpf/slicer.rs:6 | reading slot k yields v if and only if the slot holds the 4-byte little-endian encoding of v |
| Slicer.Slicer32OfPrefix | src/dbpf/slicer.rs:1-7 | a word depends only on its own slot: bytes appended after it do not change it |
| Slicer.EncodedSlotReads | src/dbpf/slicer.rs:6 | in a run of encoded words, slot i reads back as word i |
| Slicer.DecodeEncodeWords | src/dbpf/slicer.rs:6 | decoding a run of encoded words gives the words back |
| Slicer.EncodeDecodeWords | src/dbpf/slicer.rs:6 | encoding the words decoded from a whole number of slots gives the bytes back |
| LittleEndian.LeValueOfLeBytes | src/dbpf/slicer.rs:6 | a value below 256^n encoded in n little-endian bytes reads back as itself |
| LittleEndian.LeBytesOfLeValue | src/dbpf/slicer.rs:6 | re-encoding the value of n bytes reproduces those bytes |
| LittleEndian.LeValueInjective | src/dbpf/slicer.rs:6 | byte sequences of equal length have equal values if and only if they are equal |
| LittleEndian.AndLowMask | src/dbpf/mod.rs:90 | ANDing a number with k one-bits leaves its remainder modulo 2^k |
| Dbpf.MagicBytes | src/dbpf/mod.rs:38 | the signature word 0x46504244 is the little-endian encoding of the bytes 'D','B','P','F' |
| Dbpf.ContainsSameLength | src/dbpf/mod.rs:38 | for texts of equal length, `contains` holds if and only if they are equal |
| Dbpf.CheckSignature | src/dbpf/mod.rs:34-40 | succeeds if and only if the four bytes are 'D','B','P','F', and then returns the text "DBPF"; otherwise fails with InvalidSignature carrying the bytes found |
| Dbpf.ReadHeaderRaw | src/dbpf/mod.rs:43-54 | succeeds if and only if the file has 96 bytes and starts with "DBPF", returning bytes [0, 96) unchanged; a short file is an I/O failure at position 0, otherwise a bad signature is InvalidSignature |
| Dbpf.ProcessHeader | src/dbpf/mod.rs:56-62 | always succeeds, and the 24 words re-encode to exactly the 96 input bytes |
| Dbpf.ProcessEncodedHeader | src/dbpf/mod.rs:56-62 | decoding the encoding of 24 header words returns those words |
| Dbpf.ReadHeaderProcessed | src/dbpf/mod.rs:65-69 | succeeds under the same condition as the raw read; slot i is then the little-endian word at file bytes [4i, 4i+4), and slot 0 is the signature word 0x46504244; a failure is the raw read's failure |
| Dbpf.IndexEntryPositionFits | src/dbpf/mod.rs:78 | the 32-bit computation of offset + 4 + 32i equals the exact position if and only if the position is below 2^32 |
| Dbpf.EntryInFileMonotone | src/dbpf/mod.rs:78 | if entry j lies in the file, every entry i <= j does |
| Dbpf.ReadIndexV2Raw | src/dbpf/mod.rs:76-81 | succeeds if and only if the 32 bytes at offset + 4 + 32i lie in the file, returning exactly those bytes; otherwise an I/O failure naming that range |
| Dbpf.Mask28 | src/dbpf/mod.rs:90 | `w & 0x0FFFFFFF` is below 2^28 and equals w modulo 2^28 |
| Dbpf.ProcessIndexV2 | src/dbpf/mod.rs:83-95 | fields 0-4 and 6 are words 0-4 and 6 unchanged; the uncompressed size is word 5 modulo 2^28; the flags are both below 65536 and compression flag plus 65536 times unknown flag equals word 7 |
| Dbpf.ProcessEncodedIndexEntry | src/dbpf/mod.rs:83-95 | decoding the 32-byte record of any representable entry returns that entry, so every field is read from its own word |
| Dbpf.EncodeProcessedIndexEntry | src/dbpf/mod.rs:83-95 | re-encoding a decoded record gives the record back with only the top four bits of byte 23 cleared, so words 0-4 and 6-7 are copied unchanged |
| Dbpf.HalvesUnique | src/dbpf/mod.rs:92-93 | a word splits into a low and a high 16-bit half in only one way |
| Dbpf.ReservedBitsOfSize | src/dbpf/mod.rs:90 | the masked size is the size word of the record with byte 23's top four bits cleared |
| Dbpf.ReservedBitsIgnored | src/dbpf/mod.rs:90 | two records that differ only in the top four bits of byte 23 decode to the same entry |
| Dbpf.ReadIndexV2Processed | src/dbpf/mod.rs:97-100 | succeeds if and only if the entry's 32 bytes are in the file, and is then the decoded record at offset + 4 + 32i; otherwise the raw read's I/O failure |
| Dispatch.SelectLayout | src/main.rs:48-83 | major 1 gives the legacy layout with offset slot 10 and sub-version slot15 - 1, failing with SubVersionUnderflow exactly when slot 15 is 0; major 2 or 3 gives the current layout at slot 16; any other major is Unsupported |
| Dispatch.ReadIndexEntries | src/main.rs:73-80 | succeeds if and only if all `count` entries lie in the file, giving exactly `count` entries with entry k decoded from offset + 4 + 32k; otherwise it fails with the lowest index whose entry does not lie in the file |
| Dispatch.AllEntriesInFileIffLast | src/main.rs:76-79 | all entries lie in the file if and only if the count is 0 or the last entry does |
| Dispatch.EntriesReadAs | src/main.rs:76-80 | when every one of the first n entries lies in the file and decodes to a given value, the list read is exactly those n values in order |
| Dispatch.ReadIndexList | src/main.rs:76-80 | the ascending read-and-append loop computes exactly the reference list, including which failure aborts it |
| Dispatch.FirstFailureIsReported | src/main.rs:78 | when the entries before n are readable and entry n is not, a list of any longer count fails at entry n |
| Dispatch.DecodeArchive | src/main.rs:34-83 | on success the file starts with a valid header whose slots are the file's words; with major 2 or 3 it holds `slot 9` entries, entry k decoded from slot16 + 4 + 32k; with any other major the entry list is empty |
| Dispatch.DecodeBadHeader | src/main.rs:34 | a short file fails with the header I/O failure, and a bad signature fails with InvalidSignature |
| Dispatch.DecodeLegacy | src/main.rs:49-71 | with major 1, the decode succeeds if and only if slot 15 is at least 1; it then has no entries and layout LegacyV1(slot10, slot15 - 1), and otherwise fails with SubVersionUnderflow |
| Dispatch.DecodeCurrent | src/main.rs:73-80 | with major 2 or 3, the decode succeeds if and only if the count is 0 or the last entry lies in the file; a failure names the first entry outside the file |
| Dispatch.DecodeUnsupported | src/main.rs:82 | any major other than 1, 2 or 3 succeeds with an empty list and layout Unsupported(major) |
| Dispatch.DecodeEmptyIndex | src/main.rs:76 | an entry count of 0 gives an empty list, and the same result as the header bytes alone, so nothing past the header is read |
| Dispatch.EncodedHeaderReads | src/dbpf/mod.rs:65-69 | the header of a synthetic archive reads back as the words written |
| Dispatch.EncodedEntryReads | src/dbpf/mod.rs:97-100 | entry k of a synthetic archive lies in the file and decodes to the entry written |
| Dispatch.EncodedEntriesRead | src/main.rs:76-80 | the whole index of a synthetic archive reads back as the entries written, in order |
| Dispatch.DecodeEncodedArchive | src/main.rs:34-80 | a synthetic 2.x/3.x archive decodes to exactly the header words and entries it was built from, with header, preamble word and records laid out back to back |

## Left out

- The imgui/winit table viewer (src/main.rs:84-159) is presentation only. It reads the decoded list and nothing else.
- Command-line handling, process exit and opening the file are left out. They are operating-system I/O.
- `BufReader` handles, cursor state and the two readers over one file handle are left out. The model reads position-explicit subsequences of an immutable byte sequence instead.
- `println!` and `dbg!` output is diagnostic only. The values printed on the 1.x path are kept in `LegacyV1`.
- Non-ASCII signature bytes are not decoded as UTF-8. Any four bytes other than "DBPF" fail, and that holds whether the source's UTF-8 decoding would panic or not.
- The legacy 1.x index-entry layout and the hole table are not decoded. The source does not implement them.
- Dbpf.ReadIndexV2Raw: computes the entry position `offset + 4 + 32i` exactly, in unbounded integers. The source computes it in u32, which panics in a debug build and wraps around in a release build once it passes 2^32. `Dbpf.IndexEntryPositionFits` states where the two agree.
- Slicer.Slicer32: does not model the `usize` overflow of `offset * 4`. No record in the source is large enough for it.
- Dispatch.SelectLayout: reports the u32 underflow of `slot15 - 1` as a failure. It does not model the wrapped value that a release build would print.
- Index entries are a datatype with named fields rather than the source's `[u32; 9]`. The field order is the array order.
