/**
 * Decompressing a gzip archive into a buffer that grows until it is large
 * enough (bzlreg/decompress.cc). The inflater itself (libdeflate) is an
 * oracle: `gunzip` gives the full decompression of a stream, or None when
 * the stream is not valid gzip.
 */
module Decompress {
  import opened Common

  /** The outcome of `libdeflate_gzip_decompress`. */
  datatype GzipResult = Success(data: seq<byte>) | InsufficientSpace | BadData

  /** One call of the inflater into an output buffer of `capacity` bytes:
      the whole decompression when it fits, else a request for more room. */
  function GzipDecompress(stream: Option<seq<byte>>, capacity: nat): (r: GzipResult)
    ensures r.Success? ==> stream == Some(r.data) && |r.data| <= capacity
    ensures r == InsufficientSpace <==> stream.Some? && |stream.value| > capacity
    ensures r == BadData <==> stream.None?
  {
    match stream
    case None => BadData
    case Some(d) => if |d| <= capacity then Success(d) else InsufficientSpace
  }

  /** What `decompress_archive` returns: the decompressed bytes, or nothing
      when the stream is not valid gzip. */
  function Decompressed(stream: Option<seq<byte>>): seq<byte> {
    match stream
    case Some(d) => d
    case None => []
  }

  /** `decompress_archive`: start with nine times the compressed size and
      grow by the compressed size while the inflater asks for more room.
      An empty stream is never valid gzip (a gzip member starts with a
      ten-byte header, section 2.3 of RFC 1952), so the loop ends. */
  method DecompressArchive(compressed: seq<byte>, gunzip: seq<byte> -> Option<seq<byte>>)
    returns (out: seq<byte>, ghost capacity: nat, ghost rounds: nat)
    requires gunzip([]) == None
    ensures out == Decompressed(gunzip(compressed))
    ensures capacity == 9 * |compressed| + rounds * |compressed|
    ensures gunzip(compressed).Some? ==> |out| <= capacity
    ensures rounds > 0 ==> |out| > capacity - |compressed|
  {
    var n := |compressed|;
    var stream := gunzip(compressed);
    var guessedSize := 9 * n;
    rounds := 0;
    var result := GzipDecompress(stream, guessedSize);
    if n == 0 {
      assert compressed == [];
    }
    while result == InsufficientSpace
      invariant n == 0 ==> stream.None?
      invariant guessedSize == 9 * n + rounds * n
      invariant result == GzipDecompress(stream, guessedSize)
      invariant rounds > 0 ==> stream.Some? && |stream.value| > guessedSize - n
      decreases if stream.Some? then |stream.value| - guessedSize else 0
    {
      guessedSize := guessedSize + n;
      rounds := rounds + 1;
      result := GzipDecompress(stream, guessedSize);
    }
    capacity := guessedSize;
    if !result.Success? {
      return [], capacity, rounds;
    }
    out := result.data;
  }
}
