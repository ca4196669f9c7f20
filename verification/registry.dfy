/**
 * The tables `DHC.__init__` builds: the candidate algorithms per content category
 * (`self.algorithms`), the name-keyed `compression_methods` and `decompression_methods`,
 * and `_select_best_algorithm`.
 */
module Registry {
  import opened Wrappers
  import opened Classifier

  datatype Algorithm = Lz77 | Lz78 | Lzma | Jpeg | Png | Webp | Mp3 | Flac | Aac

  /** The string each algorithm is registered under and recorded with in archive headers. */
  function Name(a: Algorithm): string {
    match a
    case Lz77 => "lz77"
    case Lz78 => "lz78"
    case Lzma => "lzma"
    case Jpeg => "jpeg"
    case Png => "png"
    case Webp => "webp"
    case Mp3 => "mp3"
    case Flac => "flac"
    case Aac => "aac"
  }

  /** The content category an algorithm is meant for. */
  function Family(a: Algorithm): Category {
    match a
    case Lz77 | Lz78 | Lzma => Text
    case Jpeg | Png | Webp => Image
    case Mp3 | Flac | Aac => Audio
  }

  /** `self.algorithms`: the ordered candidates for each category. */
  const Candidates: map<Category, seq<Algorithm>> :=
    map[Text := [Lz77, Lz78, Lzma], Image := [Jpeg, Png, Webp], Audio := [Mp3, Flac, Aac]]

  /** `self.compression_methods`, keyed by name. */
  const CompressionMethods: map<string, Algorithm> :=
    map["lz77" := Lz77, "lz78" := Lz78, "lzma" := Lzma,
        "jpeg" := Jpeg, "png" := Png, "webp" := Webp,
        "mp3" := Mp3, "flac" := Flac, "aac" := Aac]

  /** `self.decompression_methods`, keyed by name. */
  const DecompressionMethods: map<string, Algorithm> :=
    map["lz77" := Lz77, "lz78" := Lz78, "lzma" := Lzma,
        "jpeg" := Jpeg, "png" := Png, "webp" := Webp,
        "mp3" := Mp3, "flac" := Flac, "aac" := Aac]

  /** `_select_best_algorithm`: the first candidate registered for the category. */
  function Select(c: Category): (a: Algorithm)
    ensures c in Candidates && |Candidates[c]| > 0 && Candidates[c][0] == a
    ensures Family(a) == c
    ensures Name(a) in CompressionMethods && CompressionMethods[Name(a)] == a
    ensures Name(a) in DecompressionMethods && DecompressionMethods[Name(a)] == a
  {
    assert c in Candidates by { assert c == Text || c == Image || c == Audio; }
    Candidates[c][0]
  }

  /** `decompression_methods[name]`: which registered decompressor a header name selects. */
  function LookupDecompressor(name: string): (r: Option<Algorithm>)
    ensures r.Some? ==> Name(r.value) == name
    ensures r.None? <==> forall a: Algorithm :: Name(a) != name
  {
    if name in DecompressionMethods then Some(DecompressionMethods[name]) else None
  }

  /** Each category's candidates are exactly the algorithms of that family. */
  lemma CandidatesAreTheFamily(c: Category, a: Algorithm)
    ensures c in Candidates && (a in Candidates[c] <==> Family(a) == c)
  {
  }

  /** No two algorithms share a name, so a recorded name identifies its algorithm. */
  lemma NamesAreDistinct(a: Algorithm, b: Algorithm)
    ensures Name(a) == Name(b) ==> a == b
  {
  }

  /**
   * Both dispatch tables register every algorithm under its own name, and nothing else:
   * they have the same keys and each key maps back to the algorithm of that name.
   */
  lemma TablesAreKeyedByName(a: Algorithm, k: string)
    ensures Name(a) in CompressionMethods && CompressionMethods[Name(a)] == a
    ensures Name(a) in DecompressionMethods && DecompressionMethods[Name(a)] == a
    ensures k in CompressionMethods <==> k in DecompressionMethods
    ensures k in CompressionMethods ==> Name(CompressionMethods[k]) == k
  {
  }

  /** The policy picks lz77 for text, jpeg for images and mp3 for audio. */
  lemma SelectedAlgorithms()
    ensures Select(Text) == Lz77 && Select(Image) == Jpeg && Select(Audio) == Mp3
  {
  }
}
