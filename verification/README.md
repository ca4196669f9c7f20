# DHC archive engine — a Dafny model

This project models the container format and the codec dispatch of the Dynamic Hybrid
Compression engine, the `DHC` class in `src/extract/extract.py`. It also proves properties of
that model.

- `Classifier` models `_analyze_data`: the content category from the leading magic bytes.
- `Registry` models the tables `__init__` builds and `_select_best_algorithm`:
  - the candidate list per category;
  - the name-keyed compression and decompression tables.
- `Codecs` models the nine `_compress_*` and nine `_decompress_*` methods.
  - zlib, bz2, lzma, PIL and pydub come in as arrow-typed fields of a `Libraries` value.
  - Each compressor returns the metadata `{'algorithm': <its own name>}`.
  - The three image decompressors are the identity.
- `Bytes`, `Utf8` and `Header` model what the container is built from:
  - the file cursor's short-reading `read`;
  - the 4-byte `struct` `'I'` field, in little-endian order;
  - strict UTF-8 encoding and decoding;
  - the JSON header. The JSON library is a `HeaderCodec` parameter, assumed to keep a
    dict's keys and their order (`OrderPreserving`).
- `Container` models `_compress_file`, `_compress_folder` and `_decompress_file` as byte
  transformations.
  - The two loops of `_compress_folder` are the method `CompressFolder`, with its helper
    `WriteFolder`. The reading loop of `_decompress_file` is the method `ReadEntries`, with
    its helper `ReadBlockAt`.
  - Each method is proved equal to a function over values: `FolderArchiveOf`,
    `FolderArchive`, `ParseEntries` and `ReadBlock`.
  - The dict `compressed_files` is an insertion-ordered sequence. `Put` updates it as Python
    does: an existing key keeps its position and takes the new value.
- `Properties` states what the format does and does not guarantee:
  - A folder archive round-trips when its paths are ASCII, whatever bytes follow it.
  - A non-ASCII path breaks the framing.
  - A single-file archive cannot be read back at all.
  - A truncated path raises. A payload cut short goes unnoticed only in the last block.
  - A missing length field raises.
  - The reader ignores header keys and matches blocks to header items by position.

The code behaves in ways a reader may not expect:

- The reader has no single-file mode. It always parses folder blocks, so archives from
  `_compress_file` are unreadable (`SingleFileArchiveUnreadable`).
- A path cut short raises: `struct.error` when no length field follows it, or
  `UnicodeDecodeError` when the cut splits a character (`TruncatedPathFails`).
- A payload cut short is read as whatever bytes remain, with no error
  (`TruncatedPayloadReadsShort`). That is silent only for the last header item. For an
  earlier item the cursor is at the end of the file, so the next length read raises
  `struct.error` (`MissingLengthFails`).
- Blocks are matched to header items by position, not by path (`KeysAreNeverRead`).
- The path length written is a count of characters, not of UTF-8 bytes
  (`ReadFrameNeedsAscii`, `NonAsciiPathBreaksReading`).
- The algorithms are registered as `lz77`, `lz78`, `lzma`, `jpeg`, `png`, `webp`, `mp3`,
  `flac` and `aac`.
- There is no path containment check on decompression, and none is modelled.

## Model

| member | source | states |
|---|---|---|
| Bytes.ReadAt | src/extract/extract.py:101 | `f.read(n)` yields `n` bytes, or every remaining byte when fewer remain |
| Bytes.U32 | src/extract/extract.py:90 | `struct.pack('I', n)` writes four bytes, which `FromU32` reads back as `n` (`U32RoundTrip`) |
| Bytes.FromU32 | src/extract/extract.py:100 | `struct.unpack('I', b)` on four bytes gives a value below 2^32, and every four bytes are the packing of that value (`U32Inverse`) |
| Bytes.Pack | src/extract/extract.py:71 | packing succeeds exactly for lengths below 2^32; the four bytes unpack to the same length; otherwise it fails with `struct.error` |
| Bytes.UnpackAt | src/extract/extract.py:100 | unpacking succeeds exactly when four bytes remain; the value is below 2^32, its encoding is those four bytes, and otherwise it fails with `struct.error` |
| Bytes.U32RoundTrip | src/extract/extract.py:90 | unpacking the four bytes `struct.pack('I', n)` writes gives back `n` |
| Bytes.U32Inverse | src/extract/extract.py:105 | any four bytes are the packing of the value they unpack to |
| Utf8.EncodeChar | src/extract/extract.py:94 | one character encodes to one to four bytes, and to exactly one byte iff it is ASCII |
| Utf8.Encode | src/extract/extract.py:94 | the encoding of a string has at least one byte per character |
| Utf8.DecodeFirst | src/extract/extract.py:106 | a decoded scalar value consumes between one byte and the whole rest of the buffer; the bytes it consumed are that character's encoding (`EncodeCharOfDecodeFirst`) |
| Utf8.Decode | src/extract/extract.py:106 | a decoded string has no more characters than its input has bytes; the input is exactly its encoding (`EncodeDecode`), and the encoding of any string decodes (`DecodeEncode`) |
| Utf8.EncodeCharOfDecodeFirst | src/extract/extract.py:106 | the bytes the decoder consumed for one character are exactly that character's UTF-8 encoding |
| Utf8.EncodeDecode | src/extract/extract.py:106 | bytes that decode are exactly the UTF-8 encoding of the string they decode to |
| Utf8.DecodeCons | src/extract/extract.py:106 | a decoded non-empty buffer is its first character followed by the decoding of the rest |
| Utf8.EncodeCons | src/extract/extract.py:94 | the encoding of a string is its first character's encoding followed by the encoding of the rest |
| Utf8.DecodeFirstEncodeChar | src/extract/extract.py:106 | the decoder reads back the character at the head of an encoding, consuming exactly its encoded bytes, whatever follows |
| Utf8.DecodeEncode | src/extract/extract.py:106 | decoding the UTF-8 encoding of any string gives back the string |
| Utf8.EncodedLengthIsCharCountIffAscii | src/extract/extract.py:93-94 | `len(path)` equals the encoded path's byte length iff the path is ASCII |
| Header.Lookup | src/extract/extract.py:109 | `d[key]` is missing exactly when no field has that key; otherwise it is the value of the first field with that key |
| Classifier.Analyze | src/extract/extract.py:117-124 | Image iff the data starts with FF D8; Audio iff not and it starts with "ID3" or FF FB; Text otherwise, the empty buffer included |
| Classifier.CategoryDecidedByFirstThreeBytes | src/extract/extract.py:117-124 | bytes after the third never change the category |
| Classifier.ShortBufferIsText | src/extract/extract.py:117-124 | a buffer shorter than two bytes is Text |
| Registry.Select | src/extract/extract.py:126-128 | the choice is the first candidate of the category, belongs to that category's family, and is registered under its own name in both dispatch tables |
| Registry.LookupDecompressor | src/extract/extract.py:32-42 | a found algorithm is registered under the looked-up name; nothing is found iff no algorithm has that name |
| Registry.CandidatesAreTheFamily | src/extract/extract.py:15-19 | each category lists exactly the algorithms of its family |
| Registry.NamesAreDistinct | src/extract/extract.py:21-31 | no two algorithms share a name |
| Registry.TablesAreKeyedByName | src/extract/extract.py:21-42 | both tables register every algorithm under its name, have the same keys, and map each key back to the algorithm of that name |
| Registry.SelectedAlgorithms | src/extract/extract.py:126-128 | the policy picks lz77 for text, jpeg for images and mp3 for audio |
| Codecs.AlgorithmOf | src/extract/extract.py:109-110 | the lookup succeeds iff `meta` is a mapping whose 'algorithm' is a registered name, and returns the algorithm of that name; a string `meta` and a missing key fail with their own errors |
| Codecs.Compress | src/extract/extract.py:131-198 | a compressor returns the tag naming itself, which selects the same algorithm on reading; the text compressors never fail; failures are codec failures |
| Codecs.Decompress | src/extract/extract.py:200-240 | the image decompressors return their input unchanged; failures are codec failures |
| Codecs.Tag | src/extract/extract.py:131-198 | the metadata a compressor returns is a dict whose 'algorithm' is that algorithm's registered name |
| Codecs.TagNamesItsAlgorithm | src/extract/extract.py:131-198 | the metadata each compressor writes is a well-formed dict that dispatches to that compressor's own decompressor |
| Codecs.TextCodecsRoundTrip | src/extract/extract.py:131-144 | with lossless libraries, lz77, lz78 and lzma decompress what they compressed to the original bytes |
| Container.Put | src/extract/extract.py:86 | dict assignment: an existing path keeps its position and takes the new value, a new path goes last, and the keys stay distinct |
| Container.Chosen | src/extract/extract.py:82-83 | the algorithm applied to a file belongs to the family of the file's category and is registered under its own name |
| Container.CollectFiles | src/extract/extract.py:77-86 | the filled dict has distinct keys, exactly the walked paths, and a compressor's own tag as every item's metadata; any failure is a codec failure |
| Container.Frame | src/extract/extract.py:93-96 | a block is 8 bytes of lengths, the UTF-8 path and the payload |
| Container.Body | src/extract/extract.py:92-96 | the blocks take at least eight bytes per item; they are the items' frames one after the other (`BodyFrames`) |
| Container.HeaderFields | src/extract/extract.py:89 | the header maps each path to its metadata, in dict order |
| Container.FolderArchive | src/extract/extract.py:88-96 | writing succeeds iff the header and every path and payload length fit in 32 bits; the output is the header length, the header, then the blocks; otherwise it fails with `struct.error` |
| Container.FolderArchiveOf | src/extract/extract.py:75-96 | `_compress_folder` fails only with a codec failure or `struct.error`, and succeeds only when every file was compressed; the loops compute it (`CompressFolder`) and it reads back as the files (`CompressFolderRoundTrip`) |
| Container.CompressFile | src/extract/extract.py:61-73 | succeeds iff the chosen compressor succeeds and the header length fits; the output is the header length, the tag header, then the bare payload the chosen compressor produced; text input always succeeds when the tag header fits |
| Container.CompressFolder | src/extract/extract.py:75-96 | the two loops of `_compress_folder` produce exactly the specified folder archive, or its failure |
| Container.WriteFolder | src/extract/extract.py:88-96 | the writing loop appends one block per dict item and yields exactly `FolderArchive` |
| Container.DecodePath | src/extract/extract.py:106 | a decoded path is the string whose UTF-8 encoding the bytes are; the encoding of any string decodes; otherwise `UnicodeDecodeError` |
| Container.ReadBlock | src/extract/extract.py:105-108 | one block's reads advance the cursor by at least 8 bytes and stay within the data; fewer than four bytes left raise `struct.error`; the only errors are `struct.error` and `UnicodeDecodeError` |
| Container.ParseEntries | src/extract/extract.py:104-110 | a successful read yields one entry per header item, each with the algorithm its item's metadata names |
| Container.ParseArchive | src/extract/extract.py:98-110 | an archive under 4 bytes raises `struct.error`; a successful read parsed its header into a mapping with one item per entry |
| Container.DecompressFile | src/extract/extract.py:98-110 | the reader yields exactly `ParseArchive` of the archive |
| Container.ReadEntries | src/extract/extract.py:104-110 | the reading loop, with its file cursor, yields exactly `ParseEntries` |
| Container.ReadBlockAt | src/extract/extract.py:105-108 | the four cursor-advancing reads of one iteration yield exactly `ReadBlock` |
| Container.ParseEntriesStep | src/extract/extract.py:104-110 | one loop turn: a failed block read or a failed lookup ends the loop with that error; otherwise one entry is taken and the cursor moves on |
| Properties.ReadFrame | src/extract/extract.py:105-108 | a block written for an ASCII path reads back as its path and payload, with the cursor just past it |
| Properties.ReadFrameNeedsAscii | src/extract/extract.py:93-94 | a written block that reads back as its own path had an ASCII path |
| Properties.TruncatedPayloadReadsShort | src/extract/extract.py:107-108 | a payload cut short reads as whatever bytes remain, with the cursor at the end, and no error |
| Properties.TruncatedPathFails | src/extract/extract.py:105-107 | a path cut short raises `struct.error` or `UnicodeDecodeError` |
| Properties.UndecodablePathFails | src/extract/extract.py:106 | path bytes that are not UTF-8 make the block read raise `UnicodeDecodeError` |
| Properties.ShortRead | src/extract/extract.py:108 | `read(k)` with fewer than `k` bytes left returns the rest of the file |
| Properties.MissingLengthFails | src/extract/extract.py:105 | with header items left to read, fewer than four bytes where a length belongs raise `struct.error` |
| Properties.KeysAreNeverRead | src/extract/extract.py:104-109 | the result of reading depends on the header items' metadata and order, never on their keys |
| Properties.BodyFrames | src/extract/extract.py:92-96 | the written body is the items' blocks, one after the other |
| Properties.FramesAreBlocks | src/extract/extract.py:105-108 | consecutive blocks written for ASCII paths are recovered one after the other by the reader |
| Properties.BodyReadsBack | src/extract/extract.py:104-110 | recovered blocks pair with the header items at the same positions and yield the table's entries |
| Properties.HeaderIsWellFormed | src/extract/extract.py:89 | a dict with distinct paths and well-formed metadata is a header the JSON round trip keeps |
| Properties.LaidOutReadsBack | src/extract/extract.py:98-110 | any bytes laid out as the folder writer lays out a table with ASCII paths read back as that table's entries, whatever bytes follow |
| Properties.FolderRoundTrip | src/extract/extract.py:88-110 | a folder archive with ASCII paths reads back as its table, path, payload and algorithm per item, in dict order, whatever bytes follow |
| Properties.SingleFileArchiveUnreadable | src/extract/extract.py:61-73 | reading any single-file archive fails, with `struct.error`, `UnicodeDecodeError` or the `TypeError` of indexing a string |
| Properties.HeaderWithoutBlocksFails | src/extract/extract.py:105 | a non-empty folder archive cut after its header raises `struct.error` |
| Properties.NonAsciiPathBreaksReading | src/extract/extract.py:93-94 | a folder holding one file named "é" is written with path length 1 and cannot be read back |
| Properties.LeadByteAlone | src/extract/extract.py:106 | "é" encodes to two bytes whose lead byte alone does not decode |
| Properties.CollectFilesLast | src/extract/extract.py:78-86 | the dict after the last walked file is the earlier dict with that file's compressed item put in |
| Properties.CollectFilesSucceedsIff | src/extract/extract.py:77-86 | filling the dict succeeds iff every file's chosen compressor accepts its contents |
| Properties.CollectDistinct | src/extract/extract.py:77-86 | for a walk with distinct paths the dict has one item per file, in walk order, each the file's compressed payload and its compressor's tag |
| Properties.CompressFolderRoundTrip | src/extract/extract.py:75-110 | compressing a folder with distinct ASCII paths and reading the archive gives one entry per file, in walk order, with its path, its chosen algorithm and that algorithm's payload |
| Properties.FolderFilesRestored | src/extract/extract.py:104-110 | with lossless libraries, each text file of a folder decompresses to its original bytes and each image comes back as stored |

## Left out

- File I/O, `os.walk` and `os.path.relpath`: the walk is given as a sequence of (relative
  path, contents) pairs in walk order. Path separators and the order of the walk are not
  modelled.
- The JSON library is not part of this model. It is the `HeaderCodec` parameter, and only the
  two shapes the engine writes are represented: strings, and objects whose fields keep their
  order. The UTF-8 decoding of the header bytes is folded into `loads`.
- zlib, bz2, lzma, PIL and pydub are not part of this model. They are functions in a
  `Libraries` value, and being lossless is a hypothesis of the lemmas that need it.
- Container.ParseEntries: stops at the decompressor lookup, and the decompressor is applied
  afterwards (`FolderFilesRestored`). In the code, a decompressor that raises on an early
  block is reported before a later block's read error; in the model, the read error wins.
- The file writes and `os.makedirs` in the reading loop are not modelled. A file written
  before a later failure is not represented.
- File names that are not valid UTF-8: on POSIX `os.walk` yields them with lone surrogates,
  and `file_path.encode('utf-8')` then raises `UnicodeEncodeError` after the header and the
  earlier blocks are written. Paths here are strings of Unicode scalar values, so every path
  encodes and this error is not modelled.
- The native byte order and alignment of `struct` `'I'` are fixed to 4-byte little-endian.
- `compress` and `decompress`, which only dispatch on whether the input is a file or a
  directory, are not modelled, and neither is the usage example under `__main__`.
- No path containment check is modelled, because the code performs none.
