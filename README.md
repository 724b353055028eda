# BFS archive container, modelled in Dafny

BFS packs a folder into a single archive and unpacks it again. The archive
is the three bytes `'B' 'F' 'S'` (66, 70, 83), then one entry per archived
file, laid end to end with no index:

    path bytes (ASCII) ++ [0x00] ++ N as 4 little-endian bytes ++ N bytes of compressed contents

This project models the container codec of `BFSCompress`:

- `CompressBFS` (module `BfsEncoder`, `encoder.dfy`). It takes a directory
  walk, given as a sequence of files, plus the ignore list. It grows the
  archive one file at a time, skipping every file whose enumerated path is a
  line of the ignore list.
- `DecompressBFS` (module `BfsDecoder`, `decoder.dfy`). It checks the
  signature, then drives a byte cursor over the rest of the archive. Each
  pass reads a path up to NUL, a 4-byte length and the payload, decompresses
  the payload, and writes it into the output folder. The folder is the class
  `FileSystem`: a map from relative path to contents.
- The layout itself (module `BfsFormat`, `format.dfy`). `EntryBytes` says
  what one entry looks like; the constant `NullTerminator` is the 0 byte that
  ends every path (`BFS/Compression/BFSCompress.cs:22`). `ReadPath`, `TakePayload` and `ParseEntry` say
  what one pass of the decoder's loop reads.
- `Bytes` (`bytes.dfy`) holds the rest:
  - the little-endian length field;
  - the `(uint)` and `(int)` casts;
  - the two path conversions: ASCII encoding, and `(char)byte`;
  - the compression codec. The codec is an abstract pair of functions. The
    only thing assumed of it is that decompression undoes compression
    (`Inverse`).
- `BfsRoundTrip` (`roundtrip.dfy`) puts both halves together. Decoding what
  the encoder produced writes every archived file back. It also proves the
  converse: whatever the decoder reads to the end is a sequence of
  well-formed entries.

The imperative code keeps its form:
- `CompressBFS` is a loop that appends to a byte sequence.
- `DecompressBFS` and its loop `ExtractEntries` move a cursor through nested
  loops (`ReadRelativePath` is the inner one) and call
  `FileSystem.WriteAllBytes`.
- `AdvanceCounter` moves the cursor.

Each method is proved against the functions above:
- `CompressBFS` returns `Archive(...)`.
- `DecompressBFS` returns the error of `Decode(...)`, and leaves the folder
  equal to `ApplyWrites` of the writes `Decode` lists.

The decoder has two payload readings:
- `Decode` (`Reading.Checked`) stops with `TruncatedPayload` when fewer bytes
  are left than the length field declares. The methods follow this reading.
- `DecodeAsWritten` (`Reading.AsWritten`) is the source's
  `Take((int)size)`. It silently takes the short slice, and takes nothing
  when the cast turns the size negative.

See "## Findings" for why the two differ.

Each error the source raises by throwing is a `DecodeError` value:
- `SignatureMismatch`, or `SignatureTruncated` for archives shorter than 3
  bytes (an out-of-range index in the source);
- `MissingTerminator`: the path runs to the end of the archive;
- `TruncatedLength`: fewer than 4 length bytes;
- `TruncatedPayload`;
- `CorruptPayload`: the codec rejects the payload.

Files written before the error stay written, as in the source.

## Model

| member | source | states |
|---|---|---|
| Bytes.Le32 | BFS/Compression/BFSCompress.cs:79 | the length field is always exactly 4 bytes |
| Bytes.ReadLe32 | BFS/Compression/BFSCompress.cs:145 | the 4 bytes read back as a value below 2^32 |
| Bytes.Le32RoundTrip | BFS/Compression/BFSCompress.cs:79 | reading back a written length field gives the length (for any length below 2^32) |
| Bytes.ReadLe32RoundTrip | BFS/Compression/BFSCompress.cs:145 | writing a length read from any 4 bytes gives those 4 bytes back, so the field encoding is a bijection |
| Bytes.UintCast | BFS/Compression/BFSCompress.cs:79 | the `(uint)` cast of the payload length is below 2^32, and is the length itself when the length fits |
| Bytes.IntCast | BFS/Compression/BFSCompress.cs:158 | the `(int)` cast of the size is within the int range, and is negative exactly when the size is 2^31 or more |
| Bytes.CharAscii | BFS/Compression/BFSCompress.cs:72 | an ASCII character is encoded as its own code; any other character becomes '?' once per UTF-16 code unit: once up to U+FFFF, twice above it (a surrogate pair) |
| Bytes.AsciiBytes | BFS/Compression/BFSCompress.cs:72 | a path of n characters is encoded to between n and 2n bytes |
| Bytes.AsciiAppend | BFS/Compression/BFSCompress.cs:72 | the encoding works character by character: encoding two strings one after the other gives their encodings one after the other |
| Bytes.AsciiKept | BFS/Compression/BFSCompress.cs:72 | an all-ASCII path is encoded to exactly one byte per character, each byte the character's code |
| Bytes.SupplementaryCharacterTwoMarks | BFS/Compression/BFSCompress.cs:72 | the path "\U{1F600}.txt" is encoded as `3F 3F 2E 74 78 74`: the emoji is a surrogate pair and becomes two '?' |
| Bytes.Latin1 | BFS/Compression/BFSCompress.cs:141 | appending `(char)b` for each path byte gives one character per byte |
| Bytes.AsciiRoundTrip | BFS/Compression/BFSCompress.cs:141 | for an ASCII path without NUL, the ASCII bytes written at line 72 are one per character, decoding them gives the path back, and none of them is the terminator |
| Bytes.NonAsciiPathIsReplaced | BFS/Compression/BFSCompress.cs:72 | in a path with a non-ASCII character, the first such character comes back as '?' at its own position, so the path does not survive the round trip |
| BfsFormat.EntryBytes | BFS/Compression/BFSCompress.cs:72-82 | one entry takes exactly the path's bytes, one NUL, 4 length bytes and the payload's bytes |
| BfsFormat.Serialize | BFS/Compression/BFSCompress.cs:60-88 | entries laid end to end take at least 5 bytes each |
| BfsFormat.EntryBytesLayout | BFS/Compression/BFSCompress.cs:72-82 | an entry's bytes hold the path, the NUL, the 4-byte length of the payload and the payload, at those offsets, and nothing else |
| BfsFormat.SerializeAppend | BFS/Compression/BFSCompress.cs:72-82 | one more entry appends exactly its bytes to the serialised entries |
| BfsFormat.ReadPath | BFS/Compression/BFSCompress.cs:126-142 | a path read from the cursor ends at a NUL, holds no NUL itself, is the bytes between cursor and NUL, and leaves the cursor just past the NUL; the only failure is a missing terminator |
| BfsFormat.ReadPathAt | BFS/Compression/BFSCompress.cs:126-142 | the path ends at the first NUL at or after the cursor, whichever it is |
| BfsFormat.ReadPathFindsTerminator | BFS/Compression/BFSCompress.cs:129 | the path is read exactly when some NUL follows the cursor |
| BfsFormat.NoTerminator | BFS/Compression/BFSCompress.cs:129 | with no NUL from the cursor on, reading the path fails with a missing terminator |
| BfsFormat.ReadPathAfter | BFS/Compression/BFSCompress.cs:126-142 | the path read at the start of an entry does not depend on the bytes before it |
| BfsFormat.Take | BFS/Compression/BFSCompress.cs:158 | `Take(count)` gives nothing for a count of zero or less, and otherwise the first `count` bytes or all of them if fewer |
| BfsFormat.TakePayload | BFS/Compression/BFSCompress.cs:158 | the payload is the bytes right after the length field; the checked reading succeeds exactly when `size` bytes are left and then takes exactly `size`; the legacy reading always succeeds with at most `size` bytes |
| BfsFormat.ParseEntry | BFS/Compression/BFSCompress.cs:123-168 | after one pass the cursor has moved by exactly `|path| + 1 + 4 + |payload|`, also when the payload is empty; the path is NUL-free |
| BfsFormat.ParseEntryAt | BFS/Compression/BFSCompress.cs:126-158 | a NUL-terminated path, a length field and a payload that is all there parse as that entry, with the cursor just past the payload |
| BfsFormat.ParseAfterPath | BFS/Compression/BFSCompress.cs:145-158 | after the path, the length is the 4 bytes after the NUL and the payload is the next `size` bytes |
| BfsFormat.ParsedIsEntryBytes | BFS/Compression/BFSCompress.cs:123-168 | whatever one pass accepts is exactly the encoding of the entry it returns, and that entry is well formed |
| BfsFormat.ParseEntryBytes | BFS/Compression/BFSCompress.cs:123-168 | parsing the bytes the encoder emits for a well-formed entry gives the entry back, whatever precedes or follows it |
| BfsFormat.EntryFieldsAt | BFS/Compression/BFSCompress.cs:72-82 | inside an archive, an entry's path, NUL, length field and payload sit at their offsets from the entry start |
| BfsFormat.ParseEntryAsWritten | BFS/Compression/BFSCompress.cs:158 | when the payload is all there and its length is below 2^31, `Take((int)size)` reads the same entry as the checked reading |
| BfsEncoder.IgnoreList | BFS/Compression/BFSCompress.cs:41-43 | the ignore list is the ignore file's lines when the file is enabled and exists, and empty otherwise |
| BfsEncoder.EncodeFile | BFS/Compression/BFSCompress.cs:72-82 | a file's entry holds its compressed contents, and a path encoding of between one and two bytes per path character |
| BfsEncoder.Archive | BFS/Compression/BFSCompress.cs:46-94 | every archive the encoder returns starts with the 3 bytes "BFS" |
| BfsEncoder.Included | BFS/Compression/BFSCompress.cs:60-63 | the files that pass the ignore filter are never more than the files walked |
| BfsEncoder.IncludedMembers | BFS/Compression/BFSCompress.cs:60-63 | a file is archived exactly when the walk enumerates it and its enumerated path is not a line of the ignore list |
| BfsEncoder.IncludedAppend | BFS/Compression/BFSCompress.cs:60-63 | the filter keeps walk order: filtering two walks one after the other gives the two filtered walks one after the other |
| BfsEncoder.EncodeFiles | BFS/Compression/BFSCompress.cs:60-82 | one entry per archived file |
| BfsEncoder.CompressBFS | BFS/Compression/BFSCompress.cs:35-95 | the loop returns the signature followed by the entries of the included files in walk order, and the result starts with "BFS" |
| BfsEncoder.EncodeStep | BFS/Compression/BFSCompress.cs:60-88 | each enumerated file appends its entry, or nothing when it is ignored |
| BfsEncoder.SerializeConcat | BFS/Compression/BFSCompress.cs:60-88 | the entries of two lists of files are the first list's entries then the second's |
| BfsEncoder.ArchiveSplit | BFS/Compression/BFSCompress.cs:60-88 | the archive of a walk split in two is the first half's archive followed by the second half's entries, with nothing between |
| BfsEncoder.ArchiveSignature | BFS/Compression/BFSCompress.cs:46-50 | every archive starts with 66, 70, 83; it is exactly those 3 bytes if and only if no file is included (line 94 returns it as is) |
| BfsEncoder.IgnoredFileContributesNothing | BFS/Compression/BFSCompress.cs:62-63 | removing an ignored file from the walk leaves the archive unchanged |
| BfsEncoder.IncludedFileContributesEntry | BFS/Compression/BFSCompress.cs:72-82 | any other file contributes exactly `ascii(relativePath) ++ [0] ++ LE32(|c|) ++ c` with `c` its compressed contents, between the archive of the files before it and the entries of the files after it |
| BfsEncoder.SingleFileEntry | BFS/Compression/BFSCompress.cs:62-82 | a one-file walk whose file is not ignored serialises to that file's entry |
| BfsEncoder.NoIgnoreFileKeepsEverything | BFS/Compression/BFSCompress.cs:41-43 | with the ignore file disabled or absent, every enumerated file is archived, in walk order |
| BfsDecoder.DecodeFrom | BFS/Compression/BFSCompress.cs:121-191 | the loop over the entries reports a truncated payload only under the checked reading, and then with more bytes declared than left |
| BfsDecoder.DecodeWith | BFS/Compression/BFSCompress.cs:104-191 | a decoding that writes anything or ends without an error had an archive starting with "BFS"; a truncated payload is reported only by the checked reading |
| BfsDecoder.Decode | BFS/Compression/BFSCompress.cs:102-191 | a truncated payload error always declares more bytes than are left |
| BfsDecoder.DecodeAsWritten | BFS/Compression/BFSCompress.cs:158 | the loop as written never stops for a short payload: `Take` hands it whatever bytes are left |
| BfsDecoder.ApplyWrites | BFS/Compression/BFSCompress.cs:184 | performing the writes keeps every file the folder had and leaves a file at every path written |
| BfsDecoder.CheckSignature | BFS/Compression/BFSCompress.cs:106-112 | the signature check reports only signature errors |
| BfsDecoder.CheckSignatureSound | BFS/Compression/BFSCompress.cs:109-112 | the byte-by-byte check passes if and only if the archive is at least 3 bytes and starts with "BFS" |
| BfsDecoder.SignatureRejected | BFS/Compression/BFSCompress.cs:109-112 | a failed signature check ends decoding with that error, before any write |
| BfsDecoder.SignedBody | BFS/Compression/BFSCompress.cs:106-115 | any bytes after "BFS" pass the check and are exactly what the loop reads |
| BfsDecoder.DecodeBody | BFS/Compression/BFSCompress.cs:115 | once the signature matches, decoding is the loop over the bytes after it |
| BfsDecoder.FileSystem.constructor | BFS/Program.cs:81 | a new output folder holds no file; `DecompressBFS` itself works on a folder with any contents |
| BfsDecoder.FileSystem.WriteAllBytes | BFS/Compression/BFSCompress.cs:184 | a write creates or overwrites one file and changes no other |
| BfsDecoder.AdvanceCounter | BFS/Compression/BFSCompress.cs:202-206 | the counter moves by exactly the step |
| BfsDecoder.PathMissing | BFS/Compression/BFSCompress.cs:129 | a pass that reaches the end of the archive before a NUL stops with a missing terminator and writes nothing |
| BfsDecoder.LengthMissing | BFS/Compression/BFSCompress.cs:145 | a pass with fewer than 4 bytes after the NUL stops with a truncated length and writes nothing |
| BfsDecoder.PayloadMissing | BFS/Compression/BFSCompress.cs:158 | a pass whose declared size exceeds the bytes left stops with a truncated payload and writes nothing |
| BfsDecoder.PayloadRejected | BFS/Compression/BFSCompress.cs:161 | a pass whose payload the codec rejects stops before writing |
| BfsDecoder.EntryWritten | BFS/Compression/BFSCompress.cs:158-184 | a pass that parses one entry and decompresses it writes the data under the entry's path, then goes on where the parse ended |
| BfsDecoder.EntryStep | BFS/Compression/BFSCompress.cs:161-168 | the extraction loop's invariant carries over one written entry, with the cursor on the next entry's first byte |
| BfsDecoder.ReadRelativePath | BFS/Compression/BFSCompress.cs:123-142 | the inner loop finds a NUL exactly when `ReadPath` does, and returns the path as `(char)` of each byte, with the cursor just past the NUL |
| BfsDecoder.DecompressBFS | BFS/Compression/BFSCompress.cs:102-193 | the method returns the decoder's error, and leaves the folder as the decoder's writes applied in order to what it was |
| BfsDecoder.ExtractEntries | BFS/Compression/BFSCompress.cs:121-191 | the cursor loop returns the error of `DecodeFrom`, and its file writes are exactly the writes `DecodeFrom` lists, in order |
| BfsDecoder.LoopErrorsAreFormatErrors | BFS/Compression/BFSCompress.cs:121-191 | the loop over the entries never reports a signature error |
| BfsDecoder.SignatureGate | BFS/Compression/BFSCompress.cs:104-112 | decoding stops with a signature error if and only if the archive does not start with "BFS" (shorter than 3 bytes included), and then nothing is written |
| BfsDecoder.EmptyArchive | BFS/Compression/BFSCompress.cs:121 | the bare signature decodes without error and writes nothing |
| BfsDecoder.LastWriteWins | BFS/Compression/BFSCompress.cs:184 | after the writes, a path holds the data of the last write to it |
| BfsDecoder.UnwrittenPathUnchanged | BFS/Compression/BFSCompress.cs:184 | a path no write names is present after the writes exactly when it was before, with the same contents |
| BfsDecoder.CutInPath | BFS/Compression/BFSCompress.cs:126-142 | an archive cut inside an entry's path fails with a missing terminator |
| BfsDecoder.CutAfterPath | BFS/Compression/BFSCompress.cs:126-142 | an archive cut after an entry's NUL still reads the whole path |
| BfsDecoder.CutKeepsPath | BFS/Compression/BFSCompress.cs:72-73 | a prefix of an entry that reaches past the NUL starts with the path and the NUL |
| BfsDecoder.CutInLength | BFS/Compression/BFSCompress.cs:145 | an archive cut inside the length field fails with a truncated length that says how many length bytes are left |
| BfsDecoder.CutInPayload | BFS/Compression/BFSCompress.cs:158 | an archive cut inside the payload fails with a truncated payload that gives the declared and the available size |
| BfsDecoder.CutKeepsLength | BFS/Compression/BFSCompress.cs:79 | a cut after the length field still reads the declared length |
| BfsDecoder.CutEntryFails | BFS/Compression/BFSCompress.cs:123-158 | a cut strictly inside one entry always makes its pass fail |
| BfsDecoder.TruncatedEntryFails | BFS/Compression/BFSCompress.cs:121-191 | after any number of complete entries, a cut strictly inside the next entry makes decoding fail, and the cut entry is never written |
| BfsDecoder.EntryParsesWithin | BFS/Compression/BFSCompress.cs:123-168 | an encoded entry inside a body parses to itself and ends where its bytes end |
| BfsDecoder.FailureAhead | BFS/Compression/BFSCompress.cs:121-191 | a failure further on is a failure from here too, with at most one more write |
| BfsDecoder.TruncatedArchiveFails | BFS/Compression/BFSCompress.cs:102-193 | an archive of complete entries followed by a cut entry fails to decode, and writes at most the complete entries |
| BfsDecoder.TruncatedBodyFails | BFS/Compression/BFSCompress.cs:121-191 | the same for the bytes after the signature |
| BfsDecoder.ArchiveOutcome | BFS/Compression/BFSCompress.cs:104-121 | decoding "BFS" followed by a body is the loop over that body |
| BfsDecoder.SignedDecode | BFS/Compression/BFSCompress.cs:104-121 | the same under either reading |
| BfsDecoder.ShortPayloadAcceptedAsWritten | BFS/Compression/BFSCompress.cs:158 | whenever the codec accepts the 2 bytes `00 41`, the archive "BFS" `a` NUL `05 00 00 00` `00 41` is accepted by the legacy reading, which writes file `a` from those 2 bytes without an error; the checked reading stops with a truncated payload (5 declared, 2 left) and writes nothing |
| BfsDecoder.ShortBodyAsWritten | BFS/Compression/BFSCompress.cs:158 | the legacy loop writes file `a` from the short payload and ends without error |
| BfsDecoder.ShortBodyChecked | BFS/Compression/BFSCompress.cs:158 | the checked loop stops on the short payload before writing |
| BfsDecoder.ShortPayloadEntry | BFS/Compression/BFSCompress.cs:158 | one pass over the short body: the legacy reading takes the 2 bytes `00 41`, the checked reading fails |
| BfsRoundTrip.FileWrites | BFS/Compression/BFSCompress.cs:178-184 | one write per archived file |
| BfsRoundTrip.PayloadLimit | BFS/Compression/BFSCompress.cs:158 | no reading takes more than the length field can declare |
| BfsRoundTrip.EncodedEntryReadsBack | BFS/Compression/BFSCompress.cs:72-82 | the entry of a file with a portable path and a compressed size below 2^32 is well formed, and its path decodes to the relative path |
| BfsRoundTrip.DecodeEncodedFiles | BFS/Compression/BFSCompress.cs:121-191 | decoding the entries of archivable files, wherever they start, writes each file back with its original contents, in order, and ends without an error |
| BfsRoundTrip.EncodedSplit | BFS/Compression/BFSCompress.cs:60-88 | the entries of a list of files are the first file's entry followed by the rest's entries |
| BfsRoundTrip.FirstFileWritten | BFS/Compression/BFSCompress.cs:158-184 | the decoder turns an encoded file's entry back into a write of that file's path and original contents |
| BfsRoundTrip.RoundTrip | BFS/Compression/BFSCompress.cs:72-184 | decoding the archive of a walk succeeds and writes exactly the files the ignore list lets through, with their original contents, in walk order. This holds for portable paths and compressed sizes below 2^32. It holds for the legacy reading too when the sizes are below 2^31 |
| BfsRoundTrip.ExtractedFileRestored | BFS/Compression/BFSCompress.cs:184 | after extraction, an archived file that no later archived file shares a path with holds its original contents |
| BfsRoundTrip.OnlyArchivedPathsWritten | BFS/Compression/BFSCompress.cs:184 | extraction leaves every path that no archived file has exactly as it was |
| BfsRoundTrip.AcceptedIsSerialization | BFS/Compression/BFSCompress.cs:121-168 | a body the decoder reads to the end without an error is nothing but well-formed entries laid end to end |
| BfsRoundTrip.AcceptedEntries | BFS/Compression/BFSCompress.cs:121-168 | the same, producing the entries |
| BfsRoundTrip.AcceptedStep | BFS/Compression/BFSCompress.cs:121-168 | an error-free decoding parses its first entry and goes on error-free after it |

## Left out

- Progress reporting is not modelled: `ShellProgressBar`, the `#if CLI` blocks, and the `progressBar.Tick` inside `AdvanceCounter`. They observe the loop and do not change the archive.
- The command-line front end in `BFS/Program.cs` is not part of this model.
- The real file system is not modelled. `Directory.EnumerateFiles`, `File.ReadAllLines`, `File.ReadAllBytes` and `File.Exists` become inputs: the walk, the optional ignore-file lines, and each file's bytes. `File.WriteAllBytes` becomes an update of the `FileSystem` map.
- `Directory.CreateDirectory` is not modelled. Folders are implicit in the map's keys.
- Path handling is not modelled: `Path.GetRelativePath`, `Path.Join`, `Path.GetDirectoryName`, separators and absolute paths. The relative path is an opaque string that comes with each walked file. A path that climbs out of the output folder is therefore not detected.
- The `bfs == null` check is not modelled. A Dafny sequence cannot be null.
- `CLZF2.Compress` and `CLZF2.Decompress` are abstract functions. Their source is not part of this model. `Inverse` is the only thing assumed of them. A decompressor failure is modelled as `None` (`CorruptPayload`) in place of whatever CLZF2 throws.
- The LINQ `Skip`/`ElementAt`/`Count` rescans are not modelled. The cursor indexes the sequence directly. This changes cost, not results.
- `BitConverter`'s host byte order is not modelled. The model is fixed to little-endian.
- The decoder's cursor is an unbounded `int`. The source's `int currentByte` cannot pass 2^31 for any .NET array anyway.
- Paths are sequences of Unicode scalar values. A character above U+FFFF stands for the surrogate pair of the .NET string and is encoded as two '?' (`CharAscii`). An unpaired surrogate cannot be written in a Dafny string, so paths holding one are not modelled.
- Writing a file cannot fail in the model. In the source, `File.WriteAllBytes` (line 184) and `Directory.CreateDirectory` (line 181) throw and end decoding when the target cannot be written. Examples: an entry with an empty path, whose target is the output folder itself (`Path.Join` at line 178); a file `a` followed by a file `a/b`, whose parent folder is a file; a read-only target. The model writes every entry into the map instead. Path separators and `..` components are not interpreted either: a path is a plain key.
- BfsEncoder.CompressBFS: the `(uint)` cast of the compressed length is modelled as wrapping modulo 2^32 (`UintCast`). The round trip needs sizes below 2^32, which every .NET byte array meets.
- BfsDecoder.ExtractEntries: follows the checked reading, like `DecompressBFS` below; the source's loop is `DecodeAsWritten`.
- BfsDecoder.DecompressBFS: follows the checked reading. It stops with `TruncatedPayload` where the source takes the short slice (see Findings). The source's behaviour is `DecodeAsWritten`.
- BfsDecoder.TruncatedArchiveFails: covers cuts strictly inside an entry only. An archive cut exactly at an entry boundary is a shorter valid archive, and no decoder of this format can tell, because there is no index and no entry count.
- BfsRoundTrip.RoundTrip: requires paths that are ASCII and free of NUL (`PortablePath`). Other paths are changed by the ASCII encoding (`NonAsciiPathIsReplaced`), or are cut at the first NUL.

## Findings

| source | as written | input that shows it | evidently intended | confidence | as-written member | corrected member |
|---|---|---|---|---|---|---|
| BFS/Compression/BFSCompress.cs:158 | the payload is `Take((int)size)` of the bytes left, which silently yields fewer than `size` bytes when the archive is short (and no bytes when `size` is 2^31 or more); decoding goes on and writes the file | "BFS", path `a`, NUL, length `05 00 00 00`, then only the 2 payload bytes `00 41`: provided the codec accepts those 2 bytes (for LZF they are a complete stream, one literal `A`), file `a` is written from them with no error | a declared length larger than the bytes left is a truncated archive and stops decoding before the write | not executed | BfsDecoder.ShortPayloadAcceptedAsWritten | BfsDecoder.TruncatedArchiveFails |
