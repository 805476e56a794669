/** Bounded chunk transport of staging evidence: the exporter on the remote host, its chunk reader, and the
    collector that reassembles and checks the payload.

    Compression, hashing and JSON parsing are functions of a Codec value; the remote reads are a function from
    chunk index to response, so any response at all may come back. */
module Transport {
  import opened Results
  import opened Base64

  const VERSION := "findb-evidence-gzip-v1"
  const CHUNK_CHARS: nat := 16_000
  const MAX_RAW_BYTES: nat := 8 * 1024 * 1024
  const MAX_COMPRESSED_BYTES: nat := 2 * 1024 * 1024
  const MAX_CHUNKS: nat := 175

  /** Decompression yields a value only for one complete stream without trailing data. */
  datatype Codec<!P> = Codec(compress: Bytes -> Bytes, decompress: Bytes -> Option<Bytes>, sha256: Bytes -> string,
                             parseObject: Bytes -> Option<P>)

  ghost predicate Lossless<P(!new)>(codec: Codec<P>) {
    && (forall raw :: codec.decompress(codec.compress(raw)) == Some(raw))
    && (forall raw :: codec.compress(raw) != [])
    && codec.parseObject([]).None?
  }

  ghost predicate CollisionFree<P(!new)>(codec: Codec<P>) {
    forall a, b :: codec.sha256(a) == codec.sha256(b) ==> a == b
  }

  datatype Envelope = Envelope(transport: string, nonce: string, rawBytes: int, compressedBytes: int, chunks: int,
                               sha256: string, rawSha256: string, data: Option<string>)

  datatype Chunk = Chunk(transport: string, nonce: string, index: int, data: string)

  datatype Error = RawBudgetExceeded | PayloadInvalid | CompressedBudgetExceeded | ChunkBudgetExceeded
                 | IndexInvalid | IdentityMismatch | BudgetInvalid | InlineDataInvalid | ChunkOrderInvalid
                 | TransportInvalid

  // ----- The remote side -----

  function Export<P>(codec: Codec<P>, raw: Bytes, nonce: string): Result<Envelope, Error> {
    if |raw| > MAX_RAW_BYTES then Err(RawBudgetExceeded)
    else if codec.parseObject(raw).None? then Err(PayloadInvalid)
    else
      var compressed := codec.compress(raw);
      if |compressed| > MAX_COMPRESSED_BYTES then Err(CompressedBudgetExceeded)
      else
        var data := Encode(compressed);
        var chunks := (|data| + CHUNK_CHARS - 1) / CHUNK_CHARS;
        if !(1 <= chunks <= MAX_CHUNKS) then Err(ChunkBudgetExceeded)
        else Ok(Envelope(VERSION, nonce, |raw|, |compressed|, chunks, codec.sha256(compressed), codec.sha256(raw),
                         if chunks == 1 then Some(data) else None))
  }

  function Min(a: int, b: int): int { if a < b then a else b }

  /** seek and read: at most size bytes from the offset, none past the end */
  function Slice(artifact: Bytes, offset: nat, size: nat): Bytes {
    var start := Min(offset, |artifact|);
    artifact[start..Min(start + size, |artifact|)]
  }

  function ReadChunk(artifact: Bytes, nonce: string, index: int): Result<Chunk, Error> {
    if !(0 <= index < MAX_CHUNKS) then Err(IndexInvalid)
    else
      var size := CHUNK_CHARS / 4 * 3;
      Ok(Chunk(VERSION, nonce, index, Encode(Slice(artifact, index * size, size))))
  }

  // ----- The collector -----

  function EncodedSize(compressedBytes: int): int {
    4 * ((compressedBytes + 2) / 3)
  }

  predicate WithinBudget(envelope: Envelope) {
    && 1 <= envelope.rawBytes <= MAX_RAW_BYTES
    && 1 <= envelope.compressedBytes <= MAX_COMPRESSED_BYTES
    && 1 <= envelope.chunks <= MAX_CHUNKS
    && envelope.chunks == (EncodedSize(envelope.compressedBytes) + CHUNK_CHARS - 1) / CHUNK_CHARS
  }

  function Join(chunks: seq<string>): string {
    if chunks == [] then "" else chunks[0] + Join(chunks[1..])
  }

  predicate SizesExact(envelope: Envelope, chunks: seq<string>) {
    && |chunks| == envelope.chunks
    && forall i :: 0 <= i < |chunks| ==>
         |chunks[i]| == Min(CHUNK_CHARS, EncodedSize(envelope.compressedBytes) - i * CHUNK_CHARS)
  }

  function DecodeTransport<P>(codec: Codec<P>, envelope: Envelope, chunks: seq<string>, nonce: string): Result<P, Error> {
    if envelope.transport != VERSION || envelope.nonce != nonce then Err(TransportInvalid)
    else if !WithinBudget(envelope) || !SizesExact(envelope, chunks) then Err(TransportInvalid)
    else
      var compressed := Decode(Join(chunks));
      if compressed.None? || |compressed.value| != envelope.compressedBytes
         || codec.sha256(compressed.value) != envelope.sha256 then Err(TransportInvalid)
      else
        var raw := codec.decompress(compressed.value);
        if raw.None? || |raw.value| != envelope.rawBytes || codec.sha256(raw.value) != envelope.rawSha256 then
          Err(TransportInvalid)
        else
          var payload := codec.parseObject(raw.value);
          if payload.None? then Err(TransportInvalid) else Ok(payload.value)
  }

  /** The response that belongs to chunk index of this transport. */
  predicate Answers(response: Result<Chunk, Error>, nonce: string, index: int) {
    response.Ok? && response.value.transport == VERSION && response.value.nonce == nonce && response.value.index == index
  }

  /** The collector's loop over the remote reads and the final decoding. */
  method SsmProbe<P>(codec: Codec<P>, envelope: Envelope, nonce: string, read: int -> Result<Chunk, Error>)
    returns (result: Result<P, Error>)
    ensures result == Probed(codec, envelope, nonce, read)
  {
    if envelope.transport != VERSION || envelope.nonce != nonce {
      return Err(IdentityMismatch);
    }
    if !WithinBudget(envelope) {
      return Err(BudgetInvalid);
    }
    var chunks: seq<string> := [];
    if envelope.chunks == 1 {
      if envelope.data.None? {
        return Err(InlineDataInvalid);
      }
      chunks := [envelope.data.value];
    } else {
      if envelope.data.Some? {
        return Err(InlineDataInvalid);
      }
      for index := 0 to envelope.chunks
        invariant |chunks| == index
        invariant forall k :: 0 <= k < index ==> Answers(read(k), nonce, k) && chunks[k] == read(k).value.data
      {
        var response := read(index);
        if !Answers(response, nonce, index) {
          return Err(ChunkOrderInvalid);
        }
        chunks := chunks + [response.value.data];
      }
      assert chunks == Received(read, nonce, envelope.chunks);
    }
    result := DecodeTransport(codec, envelope, chunks, nonce);
  }

  ghost predicate AllAnswer(read: int -> Result<Chunk, Error>, nonce: string, count: int) {
    forall k {:trigger read(k)} :: 0 <= k < count ==> Answers(read(k), nonce, k)
  }

  ghost function Received(read: int -> Result<Chunk, Error>, nonce: string, count: nat): (chunks: seq<string>)
    requires AllAnswer(read, nonce, count)
    ensures |chunks| == count && forall k :: 0 <= k < count ==> chunks[k] == read(k).value.data
  {
    seq(count, k requires 0 <= k < count && read(k).Ok? => read(k).value.data)
  }

  ghost function Probed<P>(codec: Codec<P>, envelope: Envelope, nonce: string, read: int -> Result<Chunk, Error>): Result<P, Error> {
    if envelope.transport != VERSION || envelope.nonce != nonce then Err(IdentityMismatch)
    else if !WithinBudget(envelope) then Err(BudgetInvalid)
    else if (envelope.chunks == 1) != envelope.data.Some? then Err(InlineDataInvalid)
    else if envelope.chunks == 1 then DecodeTransport(codec, envelope, [envelope.data.value], nonce)
    else if !AllAnswer(read, nonce, envelope.chunks) then Err(ChunkOrderInvalid)
    else DecodeTransport(codec, envelope, Received(read, nonce, envelope.chunks), nonce)
  }
}
