/** The exceptions the archive engine can raise, one constructor per Python error site. */
module Errors {

  datatype Error =
    | StructPackRange    // struct.pack('I', n) with n outside 0 .. 2^32 - 1
    | StructUnpackSize   // struct.unpack('I', b) with fewer than 4 bytes left in the file
    | UnicodeDecode      // bytes.decode('utf-8') on ill-formed UTF-8
    | JsonDecode         // the header bytes are not a JSON document
    | HeaderNotMapping   // AttributeError: the decoded header has no .items()
    | MetaNotMapping     // TypeError: meta['algorithm'] where meta is a string
    | MissingAlgorithm   // KeyError: meta has no 'algorithm' key
    | UnknownAlgorithm   // KeyError / TypeError: decompression_methods[name] with an unregistered name
    | CodecFailure       // zlib, bz2, lzma, PIL or pydub rejected the bytes it was given
}
