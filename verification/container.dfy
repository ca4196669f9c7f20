/**
 * The .dhc container: `_compress_file`, `_compress_folder` and the parsing half of
 * `_decompress_file`. An archive is a 4-byte header length, the JSON header, then either
 * the bare payload (one file) or one framed block per file (a folder).
 */
module Container {
  import opened Wrappers
  import opened Errors
  import opened Bytes
  import Utf8
  import opened Header
  import opened Classifier
  import opened Registry
  import opened Codecs

  /** One item of the `compressed_files` dict: relative path -> (payload, metadata). */
  datatype Stored = Stored(path: string, payload: Bytes, meta: Json)

  /** `compressed_files`, a dict that keeps insertion order. */
  type FileTable = seq<Stored>

  /** What the reader takes from one framed block and the header item at the same position. */
  datatype Entry = Entry(path: string, payload: Bytes, algorithm: Algorithm)

  function Paths(t: FileTable): set<string> {
    set i | 0 <= i < |t| :: t[i].path
  }

  predicate DistinctPaths(t: FileTable) {
    forall i, j :: 0 <= i < j < |t| ==> t[i].path != t[j].path
  }

  /** Metadata as a compressor returns it: a tag naming a registered algorithm. */
  predicate IsTag(meta: Json) {
    AlgorithmOf(meta).Success? && meta == Tag(AlgorithmOf(meta).value)
  }

  // ---------------------------------------------------------------- writing

  /**
   * `compressed_files[path] = (payload, meta)`: an existing key keeps its position and
   * takes the new value; a new key goes at the end.
   */
  function Put(t: FileTable, path: string, payload: Bytes, meta: Json): (r: FileTable)
    requires DistinctPaths(t)
    ensures |r| == if path in Paths(t) then |t| else |t| + 1
    ensures forall i :: 0 <= i < |t| ==> r[i] == if t[i].path == path then Stored(path, payload, meta) else t[i]
    ensures path !in Paths(t) ==> r[|t|] == Stored(path, payload, meta)
    ensures Paths(r) == Paths(t) + {path}
    ensures DistinctPaths(r)
  {
    if t == [] then [Stored(path, payload, meta)]
    else if t[0].path == path then
      PutHead(t, Stored(path, payload, meta));
      var r := [Stored(path, payload, meta)] + t[1..];
      assert forall i :: 0 < i < |t| ==> r[i] == t[i] && t[i].path != path;
      r
    else
      var tail := Put(t[1..], path, payload, meta);
      PutTail(t, path, tail);
      var r := [t[0]] + tail;
      assert forall i :: 0 < i < |r| ==> r[i] == tail[i - 1];
      assert forall i :: 0 < i < |t| ==> t[i] == t[1..][i - 1];
      r
  }

  lemma PutHead(t: FileTable, s: Stored)
    requires t != [] && DistinctPaths(t) && t[0].path == s.path
    ensures DistinctPaths([s] + t[1..])
    ensures Paths([s] + t[1..]) == Paths(t)
  {
    var r := [s] + t[1..];
    PathsCons(t);
    PathsCons(r);
    assert r[1..] == t[1..];
  }

  lemma PutTail(t: FileTable, path: string, tail: FileTable)
    requires t != [] && DistinctPaths(t) && t[0].path != path
    requires DistinctPaths(tail) && Paths(tail) == Paths(t[1..]) + {path}
    ensures DistinctPaths([t[0]] + tail)
    ensures Paths([t[0]] + tail) == Paths(t) + {path}
  {
    var r := [t[0]] + tail;
    PathsCons(t);
    PathsCons(r);
    assert r[1..] == tail;
    forall j | 0 < j < |r| ensures r[j].path != t[0].path {
      assert r[j].path in Paths(tail);
    }
  }

  lemma PathsCons(t: FileTable)
    requires t != []
    ensures Paths(t) == {t[0].path} + Paths(t[1..])
  {
    forall p | p in Paths(t) ensures p in {t[0].path} + Paths(t[1..]) {
      var i :| 0 <= i < |t| && t[i].path == p;
      if i > 0 { assert t[1..][i - 1].path == p; }
    }
    forall p | p in Paths(t[1..]) ensures p in Paths(t) {
      var i :| 0 <= i < |t[1..]| && t[1..][i].path == p;
      assert t[i + 1].path == p;
    }
  }

  /** The relative paths the directory walk produced. */
  function WalkedPaths(files: seq<(string, Bytes)>): set<string> {
    set i | 0 <= i < |files| :: files[i].0
  }

  lemma WalkedPathsSnoc(files: seq<(string, Bytes)>)
    requires files != []
    ensures WalkedPaths(files) == WalkedPaths(files[..|files| - 1]) + {files[|files| - 1].0}
  {
    var init := files[..|files| - 1];
    forall p | p in WalkedPaths(files) ensures p in WalkedPaths(init) + {files[|files| - 1].0} {
      var i :| 0 <= i < |files| && files[i].0 == p;
      if i < |init| { assert init[i].0 == p; }
    }
  }

  /** `_analyze_data` then `_select_best_algorithm`: the algorithm both writers apply to a file's contents. */
  function Chosen(data: Bytes): (a: Algorithm)
    ensures Family(a) == Analyze(data)
    ensures Name(a) in CompressionMethods && CompressionMethods[Name(a)] == a
  {
    Select(Analyze(data))
  }

  /**
   * The loop of `_compress_folder` that fills `compressed_files`: each file is classified,
   * given its category's first algorithm and compressed; the first codec error aborts.
   * `files` lists (relative path, contents) in the order the directory walk yields them.
   */
  function CollectFiles(libs: Libraries, files: seq<(string, Bytes)>): (r: Result<FileTable, Error>)
    ensures r.Success? ==> DistinctPaths(r.value) && Paths(r.value) == WalkedPaths(files)
    ensures r.Success? ==> forall i :: 0 <= i < |r.value| ==> IsTag(r.value[i].meta)
    ensures r.Failure? ==> r.error == CodecFailure
    decreases |files|
  {
    if files == [] then Success([])
    else
      var t :- CollectFiles(libs, files[..|files| - 1]);
      var entry := files[|files| - 1];
      var a := Chosen(entry.1);
      var c :- Compress(libs, a, entry.1);
      TagNamesItsAlgorithm(a);
      WalkedPathsSnoc(files);
      PutKeepsTags(t, entry.0, c.0, c.1);
      Success(Put(t, entry.0, c.0, c.1))
  }

  lemma PutKeepsTags(t: FileTable, path: string, payload: Bytes, meta: Json)
    requires DistinctPaths(t) && IsTag(meta)
    requires forall i :: 0 <= i < |t| ==> IsTag(t[i].meta)
    ensures forall i :: 0 <= i < |Put(t, path, payload, meta)| ==> IsTag(Put(t, path, payload, meta)[i].meta)
  {
    var r := Put(t, path, payload, meta);
    forall i | 0 <= i < |r| ensures IsTag(r[i].meta) {
      if i < |t| { assert r[i].meta == if t[i].path == path then meta else t[i].meta; }
    }
  }

  predicate Fits(s: Stored) {
    |s.path| < U32Limit && |s.payload| < U32Limit
  }

  predicate AllFit(t: FileTable) {
    forall i :: 0 <= i < |t| ==> Fits(t[i])
  }

  /**
   * One block of a folder archive. The path length written is `len(file_path)`, a count
   * of characters, while the path itself is written as UTF-8.
   */
  function Frame(s: Stored): (r: Bytes)
    requires Fits(s)
    ensures |r| == 8 + |Utf8.Encode(s.path)| + |s.payload|
  {
    U32(|s.path|) + Utf8.Encode(s.path) + U32(|s.payload|) + s.payload
  }

  /** The blocks of every table item, in dict order. */
  function Body(t: FileTable): (r: Bytes)
    requires AllFit(t)
    ensures |r| >= 8 * |t|
  {
    if t == [] then [] else Frame(t[0]) + Body(t[1..])
  }

  /** `{k: v[1] for k, v in compressed_files.items()}`: path -> metadata, in dict order. */
  function HeaderFields(t: FileTable): (r: seq<Field>)
    ensures |r| == |t|
    ensures forall i :: 0 <= i < |t| ==> r[i] == Field(t[i].path, t[i].meta)
  {
    if t == [] then [] else [Field(t[0].path, t[0].meta)] + HeaderFields(t[1..])
  }

  /**
   * The write half of `_compress_folder`: the header length, the header, then the blocks.
   * Any length that does not fit in 32 bits makes `struct.pack` raise.
   */
  function FolderArchive(codec: HeaderCodec, t: FileTable): (r: Result<Bytes, Error>)
    ensures r.Success? <==> |codec.dumps(JObject(HeaderFields(t)))| < U32Limit && AllFit(t)
    ensures r.Success? ==>
      var h := codec.dumps(JObject(HeaderFields(t)));
      |r.value| == 4 + |h| + |Body(t)| && FromU32(r.value[..4]) == |h| &&
      r.value[4..4 + |h|] == h && r.value[4 + |h|..] == Body(t)
    ensures r.Failure? ==> r.error == StructPackRange
  {
    var h := codec.dumps(JObject(HeaderFields(t)));
    if |h| >= U32Limit || !AllFit(t) then Failure(StructPackRange)
    else
      var r := U32(|h|) + h + Body(t);
      U32RoundTrip(|h|);
      assert r[..4] == U32(|h|) && r[4..4 + |h|] == h && r[4 + |h|..] == Body(t);
      Success(r)
  }

  /**
   * `_compress_folder` as a whole: a codec failure while filling the dict, `struct.error`
   * while writing, or the archive of the filled dict.
   */
  function FolderArchiveOf(libs: Libraries, codec: HeaderCodec, files: seq<(string, Bytes)>): (r: Result<Bytes, Error>)
    ensures r.Success? ==> CollectFiles(libs, files).Success?
    ensures r.Failure? ==> r.error == CodecFailure || r.error == StructPackRange
  {
    var t :- CollectFiles(libs, files);
    FolderArchive(codec, t)
  }

  /**
   * `_compress_file`: the header length, the header `{'algorithm': name}`, then the
   * payload with no framing at all.
   */
  function CompressFile(libs: Libraries, codec: HeaderCodec, data: Bytes): (r: Result<Bytes, Error>)
    ensures r.Success? <==>
      Compress(libs, Chosen(data), data).Success? && |codec.dumps(Tag(Chosen(data)))| < U32Limit
    ensures r.Success? ==>
      var a := Chosen(data);
      var h := codec.dumps(Tag(a));
      4 + |h| <= |r.value| && FromU32(r.value[..4]) == |h| && r.value[4..4 + |h|] == h &&
      Compress(libs, a, data) == Success((r.value[4 + |h|..], Tag(a)))
    ensures Analyze(data) == Text && |codec.dumps(Tag(Lz77))| < U32Limit ==> r.Success?
  {
    var a := Chosen(data);
    var (payload, meta) :- Compress(libs, a, data);
    var h := codec.dumps(meta);
    var lengthField :- Pack(|h|);
    var r := lengthField + h + payload;
    assert r[..4] == lengthField && r[4..4 + |h|] == h && r[4 + |h|..] == payload;
    Success(r)
  }

  lemma BodySnoc(t: FileTable, i: nat)
    requires i < |t| && AllFit(t[..i + 1])
    ensures Body(t[..i + 1]) == Body(t[..i]) + Frame(t[i])
    decreases i
  {
    if i > 0 {
      assert t[..i + 1][1..] == t[1..][..i];
      assert t[..i][1..] == t[1..][..i - 1];
      BodySnoc(t[1..], i - 1);
    } else {
      assert t[..1] == [t[0]] && t[..1][1..] == [];
    }
  }

  lemma CollectPrefixFails(libs: Libraries, files: seq<(string, Bytes)>, k: nat)
    requires k <= |files|
    requires CollectFiles(libs, files[..k]).Failure?
    ensures CollectFiles(libs, files).Failure?
    decreases |files| - k
  {
    if k < |files| {
      assert files[..k + 1][..k] == files[..k];
      CollectPrefixFails(libs, files, k + 1);
    } else {
      assert files[..k] == files;
    }
  }

  /**
   * `_compress_folder`: a first loop fills the dict, a second appends the blocks to the
   * output entry by entry.
   */
  method CompressFolder(libs: Libraries, codec: HeaderCodec, files: seq<(string, Bytes)>) returns (r: Result<Bytes, Error>)
    ensures r == FolderArchiveOf(libs, codec, files)
  {
    var table: FileTable := [];
    for i := 0 to |files|
      invariant CollectFiles(libs, files[..i]) == Success(table)
    {
      var (path, data) := files[i];
      assert files[..i + 1][..i] == files[..i];
      var c := Compress(libs, Chosen(data), data);
      if c.Failure? {
        CollectPrefixFails(libs, files, i + 1);
        return Failure(c.error);
      }
      table := Put(table, path, c.value.0, c.value.1);
    }
    assert files[..|files|] == files;
    r := WriteFolder(codec, table);
  }

  /** The `with open(output_path, 'wb')` block of `_compress_folder`. */
  method WriteFolder(codec: HeaderCodec, table: FileTable) returns (r: Result<Bytes, Error>)
    ensures r == FolderArchive(codec, table)
  {
    var h := codec.dumps(JObject(HeaderFields(table)));
    if |h| >= U32Limit {
      return Failure(StructPackRange);
    }
    var out := U32(|h|) + h;
    ghost var prefix := out;
    for i := 0 to |table|
      invariant AllFit(table[..i])
      invariant out == prefix + Body(table[..i])
    {
      var s := table[i];
      if |s.path| >= U32Limit || |s.payload| >= U32Limit {
        assert !Fits(table[i]);
        return Failure(StructPackRange);
      }
      ghost var before := out;
      out := out + U32(|s.path|) + Utf8.Encode(s.path);
      out := out + U32(|s.payload|) + s.payload;
      AppendFrame(prefix, table, i, before, out);
    }
    assert table[..|table|] == table;
    assert AllFit(table);
    r := Success(out);
  }

  /** Writing the four fields of item `i` extends the body by that item's frame. */
  lemma AppendFrame(prefix: Bytes, t: FileTable, i: nat, before: Bytes, after: Bytes)
    requires i < |t| && AllFit(t[..i]) && Fits(t[i])
    requires before == prefix + Body(t[..i])
    requires after == before + U32(|t[i].path|) + Utf8.Encode(t[i].path) + U32(|t[i].payload|) + t[i].payload
    ensures AllFit(t[..i + 1]) && after == prefix + Body(t[..i + 1])
  {
    AllFitSnoc(t, i);
    BodySnoc(t, i);
    var f := Frame(t[i]);
    assert after == before + f by {
      AppendFour(before, U32(|t[i].path|), Utf8.Encode(t[i].path), U32(|t[i].payload|), t[i].payload);
    }
    AppendThree(prefix, Body(t[..i]), f);
  }

  lemma AppendThree(a: Bytes, b: Bytes, c: Bytes)
    ensures a + b + c == a + (b + c)
  {
  }

  lemma AppendFour(a: Bytes, b: Bytes, c: Bytes, d: Bytes, e: Bytes)
    ensures a + b + c + d + e == a + (b + c + d + e)
  {
  }

  lemma AllFitSnoc(t: FileTable, i: nat)
    requires i < |t| && AllFit(t[..i]) && Fits(t[i])
    ensures AllFit(t[..i + 1])
  {
    assert t[..i + 1] == t[..i] + [t[i]];
  }

  // ---------------------------------------------------------------- reading

  /**
   * `f.read(n).decode('utf-8')`: the path whose UTF-8 encoding the bytes are, or
   * `UnicodeDecodeError` when they are the encoding of no string.
   */
  function DecodePath(b: Bytes): (r: Result<string, Error>)
    ensures r.Success? ==> Utf8.Encode(r.value) == b
    ensures forall s :: Utf8.Encode(s) == b ==> r.Success?
    ensures r.Failure? ==> r.error == UnicodeDecode
  {
    var decoded := Utf8.Decode(b);
    assert forall s :: Utf8.Encode(s) == b ==> decoded.Some? by {
      forall s | Utf8.Encode(s) == b ensures decoded.Some? {
        Utf8.DecodeEncode(s);
      }
    }
    if decoded.Some? then Utf8.EncodeDecode(b); Success(decoded.value)
    else Failure(UnicodeDecode)
  }

  /**
   * One block read at cursor `pos`: path length, path, payload length, payload, and the
   * cursor after them. A 4-byte length that is not there fails; a short path or payload
   * is taken as whatever remains.
   */
  function ReadBlock(data: Bytes, pos: nat): (r: Result<(string, Bytes, nat), Error>)
    requires pos <= |data|
    ensures r.Success? ==> pos + 8 <= r.value.2 <= |data|
    ensures pos + 4 > |data| ==> r == Failure(StructUnpackSize)
    ensures r.Failure? ==> r.error == StructUnpackSize || r.error == UnicodeDecode
  {
    var pathLen :- UnpackAt(data, pos);
    var pathBytes := ReadAt(data, pos + 4, pathLen);
    var path :- DecodePath(pathBytes);
    var next := pos + 4 + |pathBytes|;
    var payloadLen :- UnpackAt(data, next);
    var payload := ReadAt(data, next + 4, payloadLen);
    Success((path, payload, next + 4 + |payload|))
  }

  /**
   * The loop of `_decompress_file` from cursor `pos`: for each header item, in order, read
   * one block and take the decompressor from that item's metadata, whatever path the
   * block holds. Bytes after the last block are never looked at.
   */
  function ParseEntries(items: seq<Field>, data: Bytes, pos: nat): (r: Result<seq<Entry>, Error>)
    requires pos <= |data|
    ensures r.Success? ==> |r.value| == |items|
    ensures r.Success? ==> forall i :: 0 <= i < |items| ==> AlgorithmOf(items[i].value) == Success(r.value[i].algorithm)
    decreases |items|
  {
    if items == [] then Success([])
    else
      var block :- ReadBlock(data, pos);
      var algorithm :- AlgorithmOf(items[0].value);
      var rest :- ParseEntries(items[1..], data, block.2);
      assert forall i :: 1 <= i < |items| ==> items[i] == items[1..][i - 1];
      Success([Entry(block.0, block.1, algorithm)] + rest)
  }

  /** `_decompress_file` up to the decompressor call: the header, then the blocks. */
  function ParseArchive(codec: HeaderCodec, data: Bytes): (r: Result<seq<Entry>, Error>)
    ensures |data| < 4 ==> r == Failure(StructUnpackSize)
    ensures r.Success? ==>
      4 <= |data| &&
      var header := codec.loads(ReadAt(data, 4, FromU32(data[..4])));
      header.Some? && header.value.JObject? && |r.value| == |header.value.fields|
  {
    var headerLen :- UnpackAt(data, 0);
    var headerBytes := ReadAt(data, 4, headerLen);
    var header :- match codec.loads(headerBytes)
      case None => Failure(JsonDecode)
      case Some(j) => Success(j);
    match header
    case JString(_) => Failure(HeaderNotMapping)
    case JObject(items) => ParseEntries(items, data, 4 + |headerBytes|)
  }

  /** `Success(prefix + value)`, or the failure unchanged. */
  function Prepend(prefix: seq<Entry>, r: Result<seq<Entry>, Error>): (res: Result<seq<Entry>, Error>)
    ensures res.Success? <==> r.Success?
    ensures r.Success? ==> res.value == prefix + r.value
    ensures r.Failure? ==> res == r
  {
    match r
    case Success(v) => Success(prefix + v)
    case Failure(e) => Failure(e)
  }

  /** `_decompress_file`: read the header, then one block per header item. */
  method DecompressFile(codec: HeaderCodec, archive: Bytes) returns (r: Result<seq<Entry>, Error>)
    ensures r == ParseArchive(codec, archive)
  {
    var headerLen :- UnpackAt(archive, 0);
    var headerBytes := ReadAt(archive, 4, headerLen);
    var loaded := codec.loads(headerBytes);
    if loaded.None? {
      return Failure(JsonDecode);
    }
    if loaded.value.JString? {
      return Failure(HeaderNotMapping);
    }
    r := ReadEntries(loaded.value.fields, archive, 4 + |headerBytes|);
  }

  /** The loop of `_decompress_file`, with the file cursor `pos` advanced by each read. */
  method ReadEntries(items: seq<Field>, archive: Bytes, start: nat) returns (r: Result<seq<Entry>, Error>)
    requires start <= |archive|
    ensures r == ParseEntries(items, archive, start)
  {
    var pos: nat := start;
    var entries: seq<Entry> := [];
    PrependNothing(items, archive, start);
    for i := 0 to |items|
      invariant pos <= |archive|
      invariant ParseEntries(items, archive, start) == Prepend(entries, ParseEntries(items[i..], archive, pos))
    {
      var block := ReadBlockAt(archive, pos);
      var algorithm := AlgorithmOf(items[i].value);
      ParseEntriesStep(items, archive, i, pos);
      if block.Failure? {
        return Failure(block.error);
      }
      if algorithm.Failure? {
        return Failure(algorithm.error);
      }
      var (path, payload, next) := block.value;
      PrependSnoc(entries, Entry(path, payload, algorithm.value), ParseEntries(items[i + 1..], archive, next));
      entries := entries + [Entry(path, payload, algorithm.value)];
      pos := next;
    }
    assert items[|items|..] == [] && entries + [] == entries;
    r := Success(entries);
  }

  lemma PrependNothing(items: seq<Field>, data: Bytes, pos: nat)
    requires pos <= |data|
    ensures ParseEntries(items, data, pos) == Prepend([], ParseEntries(items[0..], data, pos))
  {
    assert items[0..] == items;
    var whole := ParseEntries(items, data, pos);
    if whole.Success? { assert [] + whole.value == whole.value; }
  }

  /** One turn of the reading loop: a failed read or lookup ends it, otherwise one entry is taken. */
  lemma ParseEntriesStep(items: seq<Field>, data: Bytes, i: nat, pos: nat)
    requires i < |items| && pos <= |data|
    ensures ReadBlock(data, pos).Failure? ==>
      ParseEntries(items[i..], data, pos) == Failure(ReadBlock(data, pos).error)
    ensures ReadBlock(data, pos).Success? && AlgorithmOf(items[i].value).Failure? ==>
      ParseEntries(items[i..], data, pos) == Failure(AlgorithmOf(items[i].value).error)
    ensures ReadBlock(data, pos).Success? && AlgorithmOf(items[i].value).Success? ==>
      var b := ReadBlock(data, pos).value;
      ParseEntries(items[i..], data, pos) ==
        Prepend([Entry(b.0, b.1, AlgorithmOf(items[i].value).value)], ParseEntries(items[i + 1..], data, b.2))
  {
    assert items[i..][0] == items[i] && items[i..][1..] == items[i + 1..];
  }

  /** The first item of a non-empty header once its block has been read. */
  lemma ParseEntriesCons(items: seq<Field>, data: Bytes, pos: nat, block: (string, Bytes, nat))
    requires items != [] && pos <= |data|
    requires ReadBlock(data, pos) == Success(block) && AlgorithmOf(items[0].value).Success?
    ensures block.2 <= |data|
    ensures ParseEntries(items, data, pos) ==
      Prepend([Entry(block.0, block.1, AlgorithmOf(items[0].value).value)], ParseEntries(items[1..], data, block.2))
  {
  }

  lemma PrependSnoc(entries: seq<Entry>, e: Entry, r: Result<seq<Entry>, Error>)
    ensures Prepend(entries, Prepend([e], r)) == Prepend(entries + [e], r)
  {
    if r.Success? { assert entries + ([e] + r.value) == (entries + [e]) + r.value; }
  }

  /** The four reads of one loop iteration, each advancing the cursor by what it got. */
  method ReadBlockAt(archive: Bytes, start: nat) returns (r: Result<(string, Bytes, nat), Error>)
    requires start <= |archive|
    ensures r == ReadBlock(archive, start)
  {
    var pos: nat := start;
    var pathLen :- UnpackAt(archive, pos);
    pos := pos + 4;
    var pathBytes := ReadAt(archive, pos, pathLen);
    pos := pos + |pathBytes|;
    var path :- DecodePath(pathBytes);
    var payloadLen :- UnpackAt(archive, pos);
    pos := pos + 4;
    var payload := ReadAt(archive, pos, payloadLen);
    pos := pos + |payload|;
    r := Success((path, payload, pos));
  }
}
