/** `DHC._analyze_data`: a content category from a buffer's leading magic bytes. */
module Classifier {
  import opened Bytes

  datatype Category = Text | Image | Audio

  const JpegStart: Bytes := [0xFF, 0xD8]     // JPEG start-of-image marker
  const Id3Tag: Bytes := [0x49, 0x44, 0x33]  // "ID3"
  const MpegSync: Bytes := [0xFF, 0xFB]      // MPEG-1 layer III frame sync

  /** `bytes.startswith(prefix)`. */
  predicate StartsWith(data: Bytes, prefix: Bytes) {
    |prefix| <= |data| && data[..|prefix|] == prefix
  }

  /**
   * First match wins: the JPEG marker gives Image, then an ID3 tag or a frame sync gives
   * Audio, and every other buffer, the empty one included, is Text.
   */
  function Analyze(data: Bytes): (c: Category)
    ensures c == Image <==> StartsWith(data, JpegStart)
    ensures c == Audio <==> !StartsWith(data, JpegStart) && (StartsWith(data, Id3Tag) || StartsWith(data, MpegSync))
    ensures c == Text <==> !StartsWith(data, JpegStart) && !StartsWith(data, Id3Tag) && !StartsWith(data, MpegSync)
  {
    if |data| >= 2 && data[0] == 0xFF && data[1] == 0xD8 then
      assert data[..2] == JpegStart;
      Image
    else if |data| >= 3 && data[0] == 0x49 && data[1] == 0x44 && data[2] == 0x33 then
      assert data[..3] == Id3Tag;
      Audio
    else if |data| >= 2 && data[0] == 0xFF && data[1] == 0xFB then
      assert data[..2] == MpegSync;
      Audio
    else
      Text
  }

  /** The category depends on the first three bytes and nothing after them. */
  lemma CategoryDecidedByFirstThreeBytes(data: Bytes, more: Bytes)
    requires |data| >= 3
    ensures Analyze(data + more) == Analyze(data)
  {
    var d := data + more;
    assert d[..2] == data[..2] && d[..3] == data[..3];
  }

  /** A buffer shorter than every signature, the empty one included, is Text. */
  lemma ShortBufferIsText(data: Bytes)
    requires |data| < 2
    ensures Analyze(data) == Text
  {
  }
}
