/**
 * What the container promises across its writer and its reader: folder archives with
 * ASCII paths read back block for block, and the ways every other archive does not.
 */
module Properties {
  import opened Wrappers
  import opened Errors
  import opened Bytes
  import Utf8
  import opened Header
  import opened Classifier
  import opened Registry
  import opened Codecs
  import opened Container

  /** `f` sits in `data` at `pos`. */
  predicate FrameAt(data: Bytes, pos: nat, f: Bytes) {
    pos + |f| <= |data| && data[pos..pos + |f|] == f
  }

  lemma SliceWithin(data: Bytes, pos: nat, f: Bytes, a: nat, b: nat)
    requires FrameAt(data, pos, f) && a <= b <= |f|
    ensures data[pos + a..pos + b] == f[a..b]
  {
    forall k | 0 <= k < b - a ensures data[pos + a..pos + b][k] == f[a..b][k] {
      assert data[pos + a..pos + b][k] == data[pos..pos + |f|][a + k];
    }
  }

  lemma FrameAtSplit(data: Bytes, pos: nat, f: Bytes, g: Bytes)
    requires FrameAt(data, pos, f + g)
    ensures FrameAt(data, pos, f) && FrameAt(data, pos + |f|, g)
  {
    SliceWithin(data, pos, f + g, 0, |f|);
    SliceWithin(data, pos, f + g, |f|, |f| + |g|);
    assert (f + g)[..|f|] == f && (f + g)[|f|..|f| + |g|] == g;
  }

  /** What a reader that gets every block right yields for a table: one entry per item, in order. */
  function EntriesOf(t: FileTable): (r: seq<Entry>)
    requires forall i :: 0 <= i < |t| ==> AlgorithmOf(t[i].meta).Success?
    ensures |r| == |t|
    ensures forall i :: 0 <= i < |t| ==>
      r[i].path == t[i].path && r[i].payload == t[i].payload && AlgorithmOf(t[i].meta) == Success(r[i].algorithm)
  {
    if t == [] then [] else [Entry(t[0].path, t[0].payload, AlgorithmOf(t[0].meta).value)] + EntriesOf(t[1..])
  }

  // ---------------------------------------------------------------- one block

  /** The path length and the path bytes of a written block, as the reader takes them. */
  lemma FrameHead(s: Stored, data: Bytes, pos: nat)
    requires Fits(s) && FrameAt(data, pos, Frame(s))
    ensures pos + 4 + |s.path| <= |data|
    ensures UnpackAt(data, pos) == Success(|s.path|)
    ensures ReadAt(data, pos + 4, |s.path|) == Utf8.Encode(s.path)[..|s.path|]
  {
    var f := Frame(s);
    var n := |s.path|;
    assert f[..4] == U32(n) && f[4..4 + n] == Utf8.Encode(s.path)[..n];
    SliceWithin(data, pos, f, 0, 4);
    SliceWithin(data, pos, f, 4, 4 + n);
    U32RoundTrip(n);
  }

  /** The payload length and the payload of a written block whose path encodes to one byte per character. */
  lemma FrameTail(s: Stored, data: Bytes, pos: nat)
    requires Fits(s) && FrameAt(data, pos, Frame(s)) && |Utf8.Encode(s.path)| == |s.path|
    ensures UnpackAt(data, pos + 4 + |s.path|) == Success(|s.payload|)
    ensures ReadAt(data, pos + 8 + |s.path|, |s.payload|) == s.payload
    ensures pos + 8 + |s.path| + |s.payload| == pos + |Frame(s)|
  {
    var head := U32(|s.path|) + Utf8.Encode(s.path);
    var tail := U32(|s.payload|) + s.payload;
    assert Frame(s) == head + tail by {
      AppendThree(head, U32(|s.payload|), s.payload);
    }
    FrameAtSplit(data, pos, head, tail);
    FrameAtSplit(data, pos + |head|, U32(|s.payload|), s.payload);
    U32RoundTrip(|s.payload|);
  }

  /**
   * The four reads of a block at `pos`: a length `n`, `n` bytes that decode to `path`, a
   * length, and that many bytes of payload.
   */
  predicate FieldsAt(data: Bytes, pos: nat, n: nat, path: string, payload: Bytes) {
    pos + 8 + n + |payload| <= |data| &&
    UnpackAt(data, pos) == Success(n) && Utf8.Decode(ReadAt(data, pos + 4, n)) == Some(path) &&
    UnpackAt(data, pos + 4 + n) == Success(|payload|) && ReadAt(data, pos + 8 + n, |payload|) == payload
  }

  /** The four reads of a block written for an ASCII path give back its path and payload. */
  lemma FrameFields(s: Stored, data: Bytes, pos: nat)
    requires Fits(s) && FrameAt(data, pos, Frame(s)) && Utf8.IsAscii(s.path)
    ensures |Frame(s)| == 8 + |s.path| + |s.payload|
    ensures FieldsAt(data, pos, |s.path|, s.path, s.payload)
  {
    var n := |s.path|;
    var e := Utf8.Encode(s.path);
    Utf8.EncodedLengthIsCharCountIffAscii(s.path);
    FrameHead(s, data, pos);
    FrameTail(s, data, pos);
    assert e[..n] == e;
    Utf8.DecodeEncode(s.path);
  }

  /** A block whose four reads succeed: the reader returns the path, the payload and the cursor past them. */
  lemma ReadFields(data: Bytes, pos: nat, n: nat, path: string, payload: Bytes)
    requires FieldsAt(data, pos, n, path, payload)
    ensures ReadBlock(data, pos) == Success((path, payload, pos + 8 + n + |payload|))
  {
  }

  /** A block written for an ASCII path reads back as the path, the payload and the cursor just past the block. */
  lemma ReadFrame(s: Stored, data: Bytes, pos: nat)
    requires Fits(s) && FrameAt(data, pos, Frame(s)) && Utf8.IsAscii(s.path)
    ensures ReadBlock(data, pos) == Success((s.path, s.payload, pos + |Frame(s)|))
  {
    FrameFields(s, data, pos);
    ReadFields(data, pos, |s.path|, s.path, s.payload);
  }

  /**
   * A block that reads back as the path it was written for had an ASCII path: the
   * character-count prefix frames a block exactly when the path is ASCII.
   */
  lemma ReadFrameNeedsAscii(s: Stored, data: Bytes, pos: nat)
    requires Fits(s) && FrameAt(data, pos, Frame(s))
    requires ReadBlock(data, pos).Success? && ReadBlock(data, pos).value.0 == s.path
    ensures Utf8.IsAscii(s.path)
  {
    FrameHead(s, data, pos);
    var pathBytes := ReadAt(data, pos + 4, |s.path|);
    assert Utf8.Decode(pathBytes) == Some(s.path);
    Utf8.EncodedLengthIsCharCountIffAscii(s.path);
  }

  /**
   * A block whose payload is cut short reads without complaint: the payload is whatever
   * bytes remain and the cursor stops at the end of the data.
   */
  lemma TruncatedPayloadReadsShort(data: Bytes, pos: nat, n: nat, path: string, m: nat)
    requires pos + 8 + n <= |data|
    requires UnpackAt(data, pos) == Success(n)
    requires Utf8.Decode(ReadAt(data, pos + 4, n)) == Some(path)
    requires UnpackAt(data, pos + 4 + n) == Success(m)
    requires |data| < pos + 8 + n + m
    ensures ReadBlock(data, pos) == Success((path, data[pos + 8 + n..], |data|))
  {
    var rest := ReadAt(data, pos + 8 + n, m);
    assert ReadBlock(data, pos) == Success((path, rest, pos + 8 + n + |rest|));
    ShortRead(data, pos + 8 + n, m);
  }

  /**
   * A path cut short does not go unnoticed: the short read leaves the cursor at the end of
   * the data, so either the cut splits a character or the payload length is missing.
   */
  lemma TruncatedPathFails(data: Bytes, pos: nat, n: nat)
    requires pos <= |data| && UnpackAt(data, pos) == Success(n)
    requires |data| < pos + 4 + n
    ensures ReadBlock(data, pos) == Failure(StructUnpackSize) || ReadBlock(data, pos) == Failure(UnicodeDecode)
  {
    ShortRead(data, pos + 4, n);
  }

  /** Path bytes that are not UTF-8 make the block's read raise. */
  lemma UndecodablePathFails(data: Bytes, pos: nat, n: nat)
    requires pos <= |data| && UnpackAt(data, pos) == Success(n)
    requires Utf8.Decode(ReadAt(data, pos + 4, n)).None?
    ensures ReadBlock(data, pos) == Failure(UnicodeDecode)
  {
  }

  /** `f.read(k)` with fewer than `k` bytes left returns the rest of the file. */
  lemma ShortRead(data: Bytes, pos: nat, k: nat)
    requires pos <= |data| < pos + k
    ensures ReadAt(data, pos, k) == data[pos..]
    ensures pos + |ReadAt(data, pos, k)| == |data|
  {
  }

  /** With items left to read, fewer than four bytes where a length belongs is a `struct.error`. */
  lemma MissingLengthFails(items: seq<Field>, data: Bytes, pos: nat)
    requires items != [] && pos <= |data| < pos + 4
    ensures ParseEntries(items, data, pos) == Failure(StructUnpackSize)
  {
  }

  /** The reader never looks at a header key: only the items' metadata and their order count. */
  lemma {:induction false} KeysAreNeverRead(items: seq<Field>, others: seq<Field>, data: Bytes, pos: nat)
    requires pos <= |data| && |items| == |others|
    requires forall i :: 0 <= i < |items| ==> items[i].value == others[i].value
    ensures ParseEntries(items, data, pos) == ParseEntries(others, data, pos)
    decreases |items|
  {
    if items != [] {
      var block := ReadBlock(data, pos);
      if block.Success? && block.value.2 <= |data| {
        KeysAreNeverRead(items[1..], others[1..], data, block.value.2);
      }
    }
  }

  // ---------------------------------------------------------------- folder archives

  /** From `pos`, the reader's blocks give back the paths and payloads of `t`, one after the other. */
  predicate BlocksAt(data: Bytes, pos: nat, t: FileTable)
    decreases |t|
  {
    pos <= |data| &&
    (t == [] ||
     (ReadBlock(data, pos).Success? && ReadBlock(data, pos).value.0 == t[0].path &&
      ReadBlock(data, pos).value.1 == t[0].payload && BlocksAt(data, ReadBlock(data, pos).value.2, t[1..])))
  }

  /** The frames of `t`, one after the other from `pos`. */
  predicate FramesAt(data: Bytes, pos: nat, t: FileTable)
    requires AllFit(t)
    decreases |t|
  {
    t == [] || (FrameAt(data, pos, Frame(t[0])) && FramesAt(data, pos + |Frame(t[0])|, t[1..]))
  }

  /** A written body is its frames, one after the other. */
  lemma {:induction false} BodyFrames(t: FileTable, data: Bytes, pos: nat)
    requires AllFit(t) && FrameAt(data, pos, Body(t))
    ensures FramesAt(data, pos, t)
    decreases |t|
  {
    if t != [] {
      assert Body(t) == Frame(t[0]) + Body(t[1..]);
      FrameAtSplit(data, pos, Frame(t[0]), Body(t[1..]));
      BodyFrames(t[1..], data, pos + |Frame(t[0])|);
    }
  }

  /** The frames of a table with ASCII paths are blocks the reader recovers. */
  lemma {:induction false} FramesAreBlocks(t: FileTable, data: Bytes, pos: nat)
    requires AllFit(t) && forall i :: 0 <= i < |t| ==> Utf8.IsAscii(t[i].path)
    requires pos <= |data| && FramesAt(data, pos, t)
    ensures BlocksAt(data, pos, t)
    decreases |t|
  {
    if t != [] {
      var next := pos + |Frame(t[0])|;
      ReadFrame(t[0], data, pos);
      TailAscii(t);
      FramesAreBlocks(t[1..], data, next);
      BlocksAtCons(data, pos, t, next);
    }
  }

  lemma TailAscii(t: FileTable)
    requires t != [] && AllFit(t) && forall i :: 0 <= i < |t| ==> Utf8.IsAscii(t[i].path)
    ensures AllFit(t[1..]) && forall i :: 0 <= i < |t[1..]| ==> Utf8.IsAscii(t[1..][i].path)
  {
    assert forall i :: 0 <= i < |t[1..]| ==> t[1..][i] == t[i + 1];
  }

  lemma BlocksAtCons(data: Bytes, pos: nat, t: FileTable, next: nat)
    requires t != [] && pos <= |data|
    requires ReadBlock(data, pos) == Success((t[0].path, t[0].payload, next)) && BlocksAt(data, next, t[1..])
    ensures BlocksAt(data, pos, t)
  {
  }

  /** Blocks the reader recovers read back, each paired with the item at its position. */
  lemma {:induction false} BodyReadsBack(t: FileTable, data: Bytes, pos: nat)
    requires pos <= |data| && BlocksAt(data, pos, t)
    requires forall i :: 0 <= i < |t| ==> AlgorithmOf(t[i].meta).Success?
    ensures ParseEntries(HeaderFields(t), data, pos) == Success(EntriesOf(t))
    decreases |t|
  {
    if t != [] {
      var items := HeaderFields(t);
      var next := ReadBlock(data, pos).value.2;
      assert items[0].value == t[0].meta && AlgorithmOf(t[0].meta).Success?;
      assert items[1..] == HeaderFields(t[1..]);
      assert forall i :: 0 <= i < |t[1..]| ==> AlgorithmOf(t[1..][i].meta).Success? by {
        assert forall i :: 0 <= i < |t[1..]| ==> t[1..][i] == t[i + 1];
      }
      BodyReadsBack(t[1..], data, next);
      ParseEntriesCons(items, data, pos, (t[0].path, t[0].payload, next));
      assert EntriesOf(t) == [Entry(t[0].path, t[0].payload, AlgorithmOf(t[0].meta).value)] + EntriesOf(t[1..]);
    }
  }

  /** A table with distinct keys and well-formed metadata is a header the JSON round trip keeps. */
  lemma HeaderIsWellFormed(t: FileTable)
    requires DistinctPaths(t) && forall i :: 0 <= i < |t| ==> WellFormed(t[i].meta)
    ensures WellFormed(JObject(HeaderFields(t)))
  {
    assert DistinctKeys(HeaderFields(t));
  }

  /** An archive laid out as a length field, a header and a body, with bytes appended. */
  lemma ArchiveParts(archive: Bytes, trailing: Bytes, h: Bytes, body: Bytes)
    requires |archive| == 4 + |h| + |body| && FromU32(archive[..4]) == |h|
    requires archive[4..4 + |h|] == h && archive[4 + |h|..] == body
    ensures UnpackAt(archive + trailing, 0) == Success(|h|)
    ensures ReadAt(archive + trailing, 4, |h|) == h
    ensures FrameAt(archive + trailing, 4 + |h|, body)
  {
    var data := archive + trailing;
    assert data[..4] == archive[..4];
    assert data[4..4 + |h|] == archive[4..4 + |h|];
    assert data[4 + |h|..4 + |h| + |body|] == archive[4 + |h|..];
  }

  /** An archive whose length field and header bytes parse to a mapping goes on to its blocks. */
  lemma ParseHeader(codec: HeaderCodec, data: Bytes, h: Bytes, items: seq<Field>)
    requires 4 + |h| <= |data| && UnpackAt(data, 0) == Success(|h|) && ReadAt(data, 4, |h|) == h
    requires codec.loads(h) == Some(JObject(items))
    ensures ParseArchive(codec, data) == ParseEntries(items, data, 4 + |h|)
  {
  }

  /** `archive` is laid out as the folder writer lays out `t`: header length, header, body. */
  predicate LaidOut(codec: HeaderCodec, t: FileTable, archive: Bytes) {
    AllFit(t) &&
    var h := codec.dumps(JObject(HeaderFields(t)));
    |archive| == 4 + |h| + |Body(t)| && FromU32(archive[..4]) == |h| &&
    archive[4..4 + |h|] == h && archive[4 + |h|..] == Body(t)
  }

  /** The written body of a table with ASCII paths parses back to the table's entries. */
  lemma BodyParses(t: FileTable, data: Bytes, pos: nat)
    requires AllFit(t) && forall i :: 0 <= i < |t| ==> Utf8.IsAscii(t[i].path)
    requires forall i :: 0 <= i < |t| ==> AlgorithmOf(t[i].meta).Success?
    requires FrameAt(data, pos, Body(t))
    ensures ParseEntries(HeaderFields(t), data, pos) == Success(EntriesOf(t))
  {
    BodyFrames(t, data, pos);
    FramesAreBlocks(t, data, pos);
    BodyReadsBack(t, data, pos);
  }

  /** The header of a laid-out archive reads back, and the reader goes on to the body after it. */
  lemma LaidOutHeader(codec: HeaderCodec, t: FileTable, archive: Bytes, trailing: Bytes, p: nat)
    requires OrderPreserving(codec)
    requires DistinctPaths(t) && forall i :: 0 <= i < |t| ==> WellFormed(t[i].meta)
    requires LaidOut(codec, t, archive)
    requires p == 4 + |codec.dumps(JObject(HeaderFields(t)))|
    ensures AllFit(t) && p <= |archive + trailing|
    ensures ParseArchive(codec, archive + trailing) == ParseEntries(HeaderFields(t), archive + trailing, p)
    ensures FrameAt(archive + trailing, p, Body(t))
  {
    var h := codec.dumps(JObject(HeaderFields(t)));
    ArchiveParts(archive, trailing, h, Body(t));
    HeaderIsWellFormed(t);
    ParseHeader(codec, archive + trailing, h, HeaderFields(t));
  }

  /** The reading half of the folder round trip, for any bytes laid out as the writer lays them out. */
  lemma LaidOutReadsBack(codec: HeaderCodec, t: FileTable, archive: Bytes, trailing: Bytes)
    requires OrderPreserving(codec)
    requires DistinctPaths(t)
    requires forall i :: 0 <= i < |t| ==> WellFormed(t[i].meta) && Utf8.IsAscii(t[i].path)
    requires forall i :: 0 <= i < |t| ==> AlgorithmOf(t[i].meta).Success?
    requires LaidOut(codec, t, archive)
    ensures ParseArchive(codec, archive + trailing) == Success(EntriesOf(t))
  {
    var p := 4 + |codec.dumps(JObject(HeaderFields(t)))|;
    LaidOutHeader(codec, t, archive, trailing, p);
    BodyParses(t, archive + trailing, p);
  }

  /**
   * Reading a folder archive whose paths are all ASCII yields the table it was written
   * from: every path and payload, in dict order, with the algorithm its metadata names.
   * Bytes appended after the last block change nothing.
   */
  lemma FolderRoundTrip(codec: HeaderCodec, t: FileTable, trailing: Bytes)
    requires OrderPreserving(codec)
    requires DistinctPaths(t)
    requires forall i :: 0 <= i < |t| ==> WellFormed(t[i].meta) && Utf8.IsAscii(t[i].path)
    requires forall i :: 0 <= i < |t| ==> AlgorithmOf(t[i].meta).Success?
    requires FolderArchive(codec, t).Success?
    ensures ParseArchive(codec, FolderArchive(codec, t).value + trailing) == Success(EntriesOf(t))
  {
    LaidOutReadsBack(codec, t, FolderArchive(codec, t).value, trailing);
  }

  /**
   * A single-file archive cannot be read back: its header is the compressor's own
   * `{'algorithm': name}`, so the reader takes "algorithm" for a path, reads a block out of
   * the payload and then fails, at the latest when it indexes the name string.
   */
  lemma SingleFileArchiveUnreadable(libs: Libraries, codec: HeaderCodec, data: Bytes, trailing: Bytes)
    requires OrderPreserving(codec)
    requires CompressFile(libs, codec, data).Success?
    ensures var r := ParseArchive(codec, CompressFile(libs, codec, data).value + trailing);
      r.Failure? && (r.error == StructUnpackSize || r.error == UnicodeDecode || r.error == MetaNotMapping)
  {
    var archive := CompressFile(libs, codec, data).value;
    var x := archive + trailing;
    var a := Chosen(data);
    var h := codec.dumps(Tag(a));
    assert x[..4] == archive[..4];
    assert ReadAt(x, 4, |h|) == archive[4..4 + |h|] == h;
    TagNamesItsAlgorithm(a);
    assert codec.loads(h) == Some(Tag(a));
    assert AlgorithmOf(Tag(a).fields[0].value) == Failure(MetaNotMapping);
  }

  /** A folder archive cut off after its header fails on the first missing length. */
  lemma HeaderWithoutBlocksFails(codec: HeaderCodec, t: FileTable)
    requires OrderPreserving(codec)
    requires t != [] && DistinctPaths(t) && forall i :: 0 <= i < |t| ==> WellFormed(t[i].meta)
    requires FolderArchive(codec, t).Success?
    ensures var h := codec.dumps(JObject(HeaderFields(t)));
      ParseArchive(codec, FolderArchive(codec, t).value[..4 + |h|]) == Failure(StructUnpackSize)
  {
    var archive := FolderArchive(codec, t).value;
    var h := codec.dumps(JObject(HeaderFields(t)));
    var x := archive[..4 + |h|];
    assert x[..4] == archive[..4];
    assert ReadAt(x, 4, |h|) == archive[4..4 + |h|] == h;
    HeaderIsWellFormed(t);
    assert codec.loads(h) == Some(JObject(HeaderFields(t)));
    MissingLengthFails(HeaderFields(t), x, 4 + |h|);
  }

  /**
   * The smallest non-ASCII case: a single file named "é" is written with a path length of
   * one, so the reader takes the first byte of its two-byte encoding and the decode fails.
   */
  lemma NonAsciiPathBreaksReading(codec: HeaderCodec, payload: Bytes)
    requires OrderPreserving(codec)
    requires FolderArchive(codec, [Stored("\U{E9}", payload, Tag(Lz77))]).Success?
    ensures ParseArchive(codec, FolderArchive(codec, [Stored("\U{E9}", payload, Tag(Lz77))]).value) == Failure(UnicodeDecode)
  {
    LaidOutNonAscii(codec, payload, FolderArchive(codec, [Stored("\U{E9}", payload, Tag(Lz77))]).value);
  }

  lemma LaidOutNonAscii(codec: HeaderCodec, payload: Bytes, archive: Bytes)
    requires OrderPreserving(codec)
    requires LaidOut(codec, [Stored("\U{E9}", payload, Tag(Lz77))], archive)
    ensures ParseArchive(codec, archive) == Failure(UnicodeDecode)
  {
    var t := [Stored("\U{E9}", payload, Tag(Lz77))];
    var h := codec.dumps(JObject(HeaderFields(t)));
    var p := 4 + |h|;
    assert codec.loads(h) == Some(JObject(HeaderFields(t))) by {
      TagNamesItsAlgorithm(Lz77);
      HeaderIsWellFormed(t);
    }
    ArchiveParts(archive, [], h, Body(t));
    assert archive + [] == archive;
    ParseHeader(codec, archive, h, HeaderFields(t));
    assert ReadBlock(archive, p) == Failure(UnicodeDecode) by {
      assert Body(t) == Frame(t[0]) + [];
      FrameHead(t[0], archive, p);
      LeadByteAlone();
      UndecodablePathFails(archive, p, 1);
    }
    ParseEntriesStep(HeaderFields(t), archive, 0, p);
    assert HeaderFields(t)[0..] == HeaderFields(t);
  }

  /** "é" takes two bytes in UTF-8, and its lead byte alone does not decode. */
  lemma LeadByteAlone()
    ensures Utf8.Encode("\U{E9}")[..1] == [0xC3]
    ensures Utf8.Decode([0xC3]).None?
  {
    assert Utf8.Encode("\U{E9}") == [0xC3, 0xA9];
    assert Utf8.DecodeFirst([0xC3]) == None;
  }

  // ---------------------------------------------------------------- from the walk to the reader

  predicate DistinctWalk(files: seq<(string, Bytes)>) {
    forall i, j :: 0 <= i < j < |files| ==> files[i].0 != files[j].0
  }

  /** The dict after the last file of the walk: the dict before it, with that file's item put in. */
  lemma CollectFilesLast(libs: Libraries, files: seq<(string, Bytes)>)
    requires files != [] && CollectFiles(libs, files).Success?
    ensures var n := |files| - 1;
      CollectFiles(libs, files[..n]).Success? && Compress(libs, Chosen(files[n].1), files[n].1).Success? &&
      var c := Compress(libs, Chosen(files[n].1), files[n].1).value;
      CollectFiles(libs, files).value == Put(CollectFiles(libs, files[..n]).value, files[n].0, c.0, c.1)
  {
  }

  /** Whether each file's chosen compressor accepts its contents. */
  predicate AllCompress(libs: Libraries, files: seq<(string, Bytes)>) {
    forall i :: 0 <= i < |files| ==> Compress(libs, Chosen(files[i].1), files[i].1).Success?
  }

  lemma AllCompressSnoc(libs: Libraries, files: seq<(string, Bytes)>)
    requires files != []
    ensures AllCompress(libs, files) <==>
      AllCompress(libs, files[..|files| - 1]) && Compress(libs, Chosen(files[|files| - 1].1), files[|files| - 1].1).Success?
  {
    var init := files[..|files| - 1];
    assert forall i :: 0 <= i < |init| ==> init[i] == files[i];
  }

  /** Filling the dict fails exactly when one of the files fails to compress. */
  lemma {:induction false} CollectFilesSucceedsIff(libs: Libraries, files: seq<(string, Bytes)>)
    ensures CollectFiles(libs, files).Success? <==> AllCompress(libs, files)
    decreases |files|
  {
    if files != [] {
      CollectFilesSucceedsIff(libs, files[..|files| - 1]);
      AllCompressSnoc(libs, files);
      var n := |files| - 1;
      var last := files[n];
      var t := CollectFiles(libs, files[..n]);
      var c := Compress(libs, Chosen(last.1), last.1);
      assert CollectFiles(libs, files).Success? <==> t.Success? && c.Success?;
    }
  }

  /** Item `s` of the dict is what compressing the walked file `f` stores. */
  predicate StoredAs(libs: Libraries, f: (string, Bytes), s: Stored) {
    s.path == f.0 && s.meta == Tag(Chosen(f.1)) && Compress(libs, Chosen(f.1), f.1) == Success((s.payload, s.meta))
  }

  lemma StoredAsSnoc(libs: Libraries, files: seq<(string, Bytes)>, t: FileTable, r: FileTable)
    requires files != [] && |t| == |files| - 1 && |r| == |files|
    requires forall i :: 0 <= i < |t| ==> StoredAs(libs, files[..|t|][i], t[i]) && r[i] == t[i]
    requires var f := files[|t|]; var c := Compress(libs, Chosen(f.1), f.1);
      c.Success? && r[|t|] == Stored(f.0, c.value.0, c.value.1)
    ensures forall i :: 0 <= i < |files| ==> StoredAs(libs, files[i], r[i])
  {
    forall i | 0 <= i < |files| ensures StoredAs(libs, files[i], r[i]) {
      if i < |t| {
        assert files[..|t|][i] == files[i];
      }
    }
  }

  /**
   * When the walk yields each relative path once, the dict holds one item per file, in walk
   * order, each the file's compressed payload and its compressor's tag.
   */
  lemma {:induction false} CollectDistinct(libs: Libraries, files: seq<(string, Bytes)>)
    requires DistinctWalk(files) && CollectFiles(libs, files).Success?
    ensures |CollectFiles(libs, files).value| == |files|
    ensures forall i :: 0 <= i < |files| ==> StoredAs(libs, files[i], CollectFiles(libs, files).value[i])
    decreases |files|
  {
    if files != [] {
      var n := |files| - 1;
      var init := files[..n];
      assert forall i :: 0 <= i < n ==> init[i] == files[i];
      CollectFilesLast(libs, files);
      CollectDistinct(libs, init);
      var t := CollectFiles(libs, init).value;
      var c := Compress(libs, Chosen(files[n].1), files[n].1).value;
      var r := CollectFiles(libs, files).value;
      assert files[n].0 !in Paths(t) by {
        assert files[n].0 !in WalkedPaths(init);
      }
      forall i | 0 <= i < n ensures r[i] == t[i] {
        assert t[i].path in Paths(t);
      }
      StoredAsSnoc(libs, files, t, r);
    }
  }

  /**
   * `_compress_folder` then `_decompress_file`: for a walk with distinct ASCII paths the
   * reader yields one entry per file, in walk order, with the file's path, the algorithm
   * chosen for its contents and the payload that algorithm produced.
   */
  lemma CompressFolderRoundTrip(libs: Libraries, codec: HeaderCodec, files: seq<(string, Bytes)>, trailing: Bytes)
    requires OrderPreserving(codec)
    requires DistinctWalk(files) && forall i :: 0 <= i < |files| ==> Utf8.IsAscii(files[i].0)
    requires FolderArchiveOf(libs, codec, files).Success?
    ensures var r := ParseArchive(codec, FolderArchiveOf(libs, codec, files).value + trailing);
      r.Success? && |r.value| == |files| &&
      forall i :: 0 <= i < |files| ==>
        r.value[i].path == files[i].0 && r.value[i].algorithm == Chosen(files[i].1) &&
        Compress(libs, Chosen(files[i].1), files[i].1).Success? &&
        Compress(libs, Chosen(files[i].1), files[i].1).value.0 == r.value[i].payload
  {
    var t := CollectFiles(libs, files).value;
    CollectDistinct(libs, files);
    forall i | 0 <= i < |t| ensures WellFormed(t[i].meta) && Utf8.IsAscii(t[i].path) && AlgorithmOf(t[i].meta).Success? {
      TagNamesItsAlgorithm(Chosen(files[i].1));
    }
    FolderRoundTrip(codec, t, trailing);
    var entries := EntriesOf(t);
    forall i | 0 <= i < |files| ensures entries[i].algorithm == Chosen(files[i].1) {
      TagNamesItsAlgorithm(Chosen(files[i].1));
    }
  }

  /**
   * With lossless byte compressors, every text file of the folder comes back byte for byte
   * and every image comes back as the re-encoded image that was stored.
   */
  lemma FolderFilesRestored(libs: Libraries, codec: HeaderCodec, files: seq<(string, Bytes)>, trailing: Bytes, i: nat)
    requires LosslessLibraries(libs) && OrderPreserving(codec)
    requires DistinctWalk(files) && forall k :: 0 <= k < |files| ==> Utf8.IsAscii(files[k].0)
    requires FolderArchiveOf(libs, codec, files).Success?
    requires i < |files|
    ensures var r := ParseArchive(codec, FolderArchiveOf(libs, codec, files).value + trailing);
      r.Success? && i < |r.value| &&
      (Analyze(files[i].1) == Text ==> Decompress(libs, r.value[i].algorithm, r.value[i].payload) == Success(files[i].1)) &&
      (Analyze(files[i].1) == Image ==> Decompress(libs, r.value[i].algorithm, r.value[i].payload) == Success(r.value[i].payload))
  {
    CompressFolderRoundTrip(libs, codec, files, trailing);
    var a := Chosen(files[i].1);
    if Analyze(files[i].1) == Text {
      TextCodecsRoundTrip(libs, a, files[i].1);
    }
  }
}
