/** The transport round trip and what the checks of the collector rule out. */
module TransportTheory {
  import opened Results
  import opened Base64
  import opened Transport

  const SLICE: nat := 12_000

  // ----- Ceiling arithmetic -----

  /** The chunk count is the number of 12,000-byte slices, and the compressed budget fits the chunk budget. */
  lemma ChunkCount(n: nat)
    requires 1 <= n <= MAX_COMPRESSED_BYTES
    ensures (EncodedSize(n) + CHUNK_CHARS - 1) / CHUNK_CHARS == (n + SLICE - 1) / SLICE
    ensures 1 <= (n + SLICE - 1) / SLICE <= MAX_CHUNKS
  {
    var k := (n + SLICE - 1) / SLICE;
    assert SLICE * (k - 1) < n <= SLICE * k;
    GroupsOfSlices(k - 1, n);
    GroupsOfSlices(k, n);
    assert CHUNK_CHARS * (k - 1) < EncodedSize(n) <= CHUNK_CHARS * k;
  }

  /** A slice holds 4,000 groups of three bytes, a chunk 4,000 groups of four characters. */
  lemma GroupsOfSlices(k: int, n: nat)
    requires 0 <= k
    ensures n <= SLICE * k ==> EncodedSize(n) <= CHUNK_CHARS * k
    ensures n > SLICE * k ==> EncodedSize(n) > CHUNK_CHARS * k
  {
    assert SLICE * k == 3 * (4000 * k) && CHUNK_CHARS * k == 4 * (4000 * k);
    var m := 4000 * k;
    assert n <= 3 * m ==> (n + 2) / 3 <= m;
    assert n > 3 * m ==> (n + 2) / 3 >= m + 1;
  }

  /** The exporter's chunk check cannot fire after its size check: an export fails only on its raw size, on a
      payload that is no object, or on its compressed size. */
  lemma ExportFailsOnlyOnSizeOrPayload<P(!new)>(codec: Codec<P>, raw: Bytes, nonce: string)
    requires Lossless(codec)
    ensures Export(codec, raw, nonce).Ok? <==>
              |raw| <= MAX_RAW_BYTES && codec.parseObject(raw).Some? && |codec.compress(raw)| <= MAX_COMPRESSED_BYTES
  {
    var compressed := codec.compress(raw);
    EncodedLength(compressed);
    if |compressed| <= MAX_COMPRESSED_BYTES {
      ChunkCount(|compressed|);
    }
  }

  // ----- Slices -----

  ghost function SliceAt(data: Bytes, i: nat): Bytes {
    Slice(data, i * SLICE, SLICE)
  }

  /** Encoded slices: each has the exact length that the decoder demands, and together they are the encoded whole. */
  lemma SliceEncodes(data: Bytes, i: nat)
    requires i * SLICE < |data|
    ensures |Encode(SliceAt(data, i))| == Min(CHUNK_CHARS, EncodedSize(|data|) - i * CHUNK_CHARS)
  {
    var s := SliceAt(data, i);
    EncodedLength(s);
    var rest := |data| - i * SLICE;
    assert |s| == Min(SLICE, rest);
    EncodedRemainder(|data|, i);
    GroupsOfSlices(1, rest);
  }

  lemma EncodedRemainder(n: nat, i: nat)
    requires i * SLICE <= n
    ensures EncodedSize(n) - i * CHUNK_CHARS == EncodedSize(n - i * SLICE)
  {
    var m := 4000 * i;
    assert i * SLICE == 3 * m && i * CHUNK_CHARS == 4 * m;
    assert (n - 3 * m + 2) / 3 == (n + 2) / 3 - m;
  }

  ghost function EncodedSlices(data: Bytes, count: nat): seq<string> {
    seq(count, i requires 0 <= i => Encode(SliceAt(data, i)))
  }

  lemma {:induction false} JoinAppend(chunks: seq<string>, last: string)
    ensures Join(chunks + [last]) == Join(chunks) + last
  {
    if chunks != [] {
      JoinAppend(chunks[1..], last);
      assert (chunks + [last])[1..] == chunks[1..] + [last];
    }
  }

  lemma SliceExtends(data: Bytes, i: nat)
    requires i * SLICE < |data|
    ensures |data[..i * SLICE]| % 3 == 0
    ensures data[..i * SLICE] + SliceAt(data, i) == data[..Min((i + 1) * SLICE, |data|)]
  {
    assert i * SLICE == 3 * (4000 * i);
  }

  lemma {:induction false} SlicesJoin(data: Bytes, count: nat)
    requires count > 0 ==> (count - 1) * SLICE < |data|
    ensures Join(EncodedSlices(data, count)) == Encode(data[..Min(count * SLICE, |data|)])
    decreases count
  {
    if count > 0 {
      var i: nat := count - 1;
      SlicesJoin(data, i);
      var s := SliceAt(data, i);
      assert EncodedSlices(data, count) == EncodedSlices(data, i) + [Encode(s)];
      JoinAppend(EncodedSlices(data, i), Encode(s));
      SliceExtends(data, i);
      EncodeSplits(data[..i * SLICE], s);
    }
  }

  /** For every payload within budget: cutting the artifact into ceil(n / 12000) slices, encoding each and joining
      the texts is encoding the whole, and every size is the one the decoder checks. */
  lemma ChunksReassemble(data: Bytes)
    requires 1 <= |data| <= MAX_COMPRESSED_BYTES
    ensures var chunks := EncodedSlices(data, (|data| + SLICE - 1) / SLICE);
            && Join(chunks) == Encode(data)
            && forall i :: 0 <= i < |chunks| ==> |chunks[i]| == Min(CHUNK_CHARS, EncodedSize(|data|) - i * CHUNK_CHARS)
  {
    var count := (|data| + SLICE - 1) / SLICE;
    assert (count - 1) * SLICE < |data| <= count * SLICE;
    SlicesJoin(data, count);
    assert data[..|data|] == data;
    forall i | 0 <= i < count
      ensures |EncodedSlices(data, count)[i]| == Min(CHUNK_CHARS, EncodedSize(|data|) - i * CHUNK_CHARS)
    {
      assert i * SLICE < |data|;
      SliceEncodes(data, i);
    }
  }

  // ----- Round trip -----

  ghost predicate Serves(read: int -> Result<Chunk, Error>, artifact: Bytes, nonce: string) {
    forall i :: 0 <= i < MAX_CHUNKS ==> read(i) == ReadChunk(artifact, nonce, i)
  }

  /** The decoder accepts the encoded slices of an exported artifact. */
  lemma SlicesDecode<P(!new)>(codec: Codec<P>, raw: Bytes, nonce: string)
    requires Lossless(codec) && Export(codec, raw, nonce).Ok?
    ensures var compressed, envelope := codec.compress(raw), Export(codec, raw, nonce).value;
            && WithinBudget(envelope) && envelope.chunks == (|compressed| + SLICE - 1) / SLICE
            && DecodeTransport(codec, envelope, EncodedSlices(compressed, envelope.chunks), nonce)
               == Ok(codec.parseObject(raw).value)
  {
    var compressed, envelope := codec.compress(raw), Export(codec, raw, nonce).value;
    EncodedLength(compressed);
    ChunkCount(|compressed|);
    ChunksReassemble(compressed);
    DecodeEncode(compressed);
    assert |raw| > 0 by { if raw == [] { assert codec.parseObject([]).None?; } }
  }

  lemma ServedChunk(read: int -> Result<Chunk, Error>, artifact: Bytes, nonce: string, k: nat)
    requires Serves(read, artifact, nonce) && k < MAX_CHUNKS
    ensures Answers(read(k), nonce, k) && read(k).value.data == Encode(SliceAt(artifact, k))
  {
    assert read(k) == ReadChunk(artifact, nonce, k);
  }

  lemma ServedChunks(read: int -> Result<Chunk, Error>, artifact: Bytes, nonce: string, count: nat)
    requires Serves(read, artifact, nonce) && count <= MAX_CHUNKS
    ensures AllAnswer(read, nonce, count) && Received(read, nonce, count) == EncodedSlices(artifact, count)
  {
    forall k {:trigger read(k)} | 0 <= k < count
      ensures Answers(read(k), nonce, k) && read(k).value.data == EncodedSlices(artifact, count)[k]
    {
      ServedChunk(read, artifact, nonce, k);
    }
    var received, slices := Received(read, nonce, count), EncodedSlices(artifact, count);
    assert |received| == |slices| && forall k :: 0 <= k < count ==> received[k] == slices[k];
  }

  /** Whatever is exported is received: the collector returns the very payload the exporter parsed. */
  lemma ExportedPayloadIsReceived<P(!new)>(codec: Codec<P>, raw: Bytes, nonce: string, read: int -> Result<Chunk, Error>)
    requires Lossless(codec) && Export(codec, raw, nonce).Ok?
    requires Serves(read, codec.compress(raw), nonce)
    ensures Probed(codec, Export(codec, raw, nonce).value, nonce, read) == Ok(codec.parseObject(raw).value)
  {
    var compressed, envelope := codec.compress(raw), Export(codec, raw, nonce).value;
    SlicesDecode(codec, raw, nonce);
    ServedChunks(read, compressed, nonce, envelope.chunks);
    if envelope.chunks == 1 {
      assert SliceAt(compressed, 0) == compressed;
      assert EncodedSlices(compressed, 1) == [envelope.data.value];
    }
  }

  /** Whatever the reads return, an accepted payload is the exported one, if the hash has no collisions. */
  lemma AcceptedPayloadIsTheExportedOne<P(!new)>(codec: Codec<P>, raw: Bytes, nonce: string, read: int -> Result<Chunk, Error>)
    requires Lossless(codec) && CollisionFree(codec) && Export(codec, raw, nonce).Ok?
    requires Probed(codec, Export(codec, raw, nonce).value, nonce, read).Ok?
    ensures Probed(codec, Export(codec, raw, nonce).value, nonce, read).value == codec.parseObject(raw).value
  {
    var envelope := Export(codec, raw, nonce).value;
    var chunks := if envelope.chunks == 1 then [envelope.data.value] else Received(read, nonce, envelope.chunks);
    var compressed := Decode(Join(chunks)).value;
    assert codec.sha256(compressed) == codec.sha256(codec.compress(raw));
  }

  // ----- Both ends in plain terms -----

  /** What an export yields: it succeeds for an object of at most eight mebibytes that compresses to at most two, and the
      envelope tells the sizes, the hashes and the number of chunks; a single chunk travels inline. */
  lemma ExportIs<P(!new)>(codec: Codec<P>, raw: Bytes, nonce: string)
    requires Lossless(codec)
    ensures Export(codec, raw, nonce).Ok? <==>
              |raw| <= 8_388_608 && codec.parseObject(raw) != None && |codec.compress(raw)| <= 2_097_152
    ensures Export(codec, raw, nonce).Ok? ==>
      var envelope, compressed := Export(codec, raw, nonce).value, codec.compress(raw);
      && envelope.transport == "findb-evidence-gzip-v1" && envelope.nonce == nonce
      && envelope.rawBytes == |raw| && envelope.compressedBytes == |compressed|
      && envelope.rawSha256 == codec.sha256(raw) && envelope.sha256 == codec.sha256(compressed)
      && 16_000 * (envelope.chunks - 1) < |Encode(compressed)| <= 16_000 * envelope.chunks
      && envelope.data == if envelope.chunks == 1 then Some(Encode(compressed)) else None
  {
    ExportFailsOnlyOnSizeOrPayload(codec, raw, nonce);
    EncodedLength(codec.compress(raw));
  }

  /** Chunk number i holds the encoding of 12,000 bytes of the artifact, or of what is left of it. */
  lemma ChunkIs(artifact: Bytes, nonce: string, i: int)
    ensures ReadChunk(artifact, nonce, i).Ok? <==> 0 <= i < 175
    ensures 0 <= i < 175 && 12_000 * (i + 1) <= |artifact| ==>
      ReadChunk(artifact, nonce, i)
        == Ok(Chunk("findb-evidence-gzip-v1", nonce, i, Encode(artifact[12_000 * i..12_000 * (i + 1)])))
    ensures 0 <= i < 175 && 12_000 * i <= |artifact| < 12_000 * (i + 1) ==>
      ReadChunk(artifact, nonce, i) == Ok(Chunk("findb-evidence-gzip-v1", nonce, i, Encode(artifact[12_000 * i..])))
  {
    if 0 <= i < 175 && 12_000 * i <= |artifact| < 12_000 * (i + 1) {
      assert artifact[12_000 * i..|artifact|] == artifact[12_000 * i..];
    }
  }

  /** The texts of all chunks: inline if there is one, otherwise the answers, each with its own number. */
  ghost predicate Delivered(envelope: Envelope, nonce: string, read: int -> Result<Chunk, Error>, texts: seq<string>) {
    && |texts| == envelope.chunks
    && (envelope.chunks == 1 ==> envelope.data == Some(texts[0]))
    && (envelope.chunks != 1 ==> envelope.data == None)
    && (envelope.chunks != 1 ==> forall k :: 0 <= k < |texts| ==>
          read(k) == Ok(Chunk("findb-evidence-gzip-v1", nonce, k, texts[k])))
  }

  /** The declared sizes keep the budgets and fit together. */
  ghost predicate Budgeted(envelope: Envelope) {
    && 1 <= envelope.rawBytes <= 8_388_608 && 1 <= envelope.compressedBytes <= 2_097_152 && 1 <= envelope.chunks <= 175
    && 16_000 * (envelope.chunks - 1) < 4 * ((envelope.compressedBytes + 2) / 3) <= 16_000 * envelope.chunks
  }

  lemma BudgetIs(envelope: Envelope)
    ensures WithinBudget(envelope) <==> Budgeted(envelope)
  {
    if 1 <= envelope.compressedBytes <= 2_097_152 {
      var n, k := EncodedSize(envelope.compressedBytes), envelope.chunks;
      assert (n + 15_999) / 16_000 == k <==> 16_000 * (k - 1) < n <= 16_000 * k;
    }
  }

  /** Full texts but for the last one, which has what is left. */
  ghost predicate FullTexts(envelope: Envelope, texts: seq<string>) {
    && (forall i :: 0 <= i < |texts| - 1 ==> |texts[i]| == 16_000)
    && (texts != [] ==> |texts[|texts| - 1]| == 4 * ((envelope.compressedBytes + 2) / 3) - 16_000 * (|texts| - 1))
  }

  lemma SizesAre(envelope: Envelope, texts: seq<string>)
    requires Budgeted(envelope) && |texts| == envelope.chunks
    ensures SizesExact(envelope, texts) <==> FullTexts(envelope, texts)
  {
    var n := EncodedSize(envelope.compressedBytes);
    assert forall i :: 0 <= i < |texts| - 1 ==> n - i * CHUNK_CHARS > 16_000;
    if SizesExact(envelope, texts) {
      assert |texts[|texts| - 1]| == Min(CHUNK_CHARS, n - (|texts| - 1) * CHUNK_CHARS);
    }
  }

  /** The payload that the joined texts stand for, with every size and hash as declared. */
  ghost predicate Unpacks<P(!new)>(codec: Codec<P>, envelope: Envelope, texts: seq<string>, payload: P) {
    exists compressed, raw ::
      && Decode(Join(texts)) == Some(compressed) && codec.decompress(compressed) == Some(raw)
      && |compressed| == envelope.compressedBytes && codec.sha256(compressed) == envelope.sha256
      && |raw| == envelope.rawBytes && codec.sha256(raw) == envelope.rawSha256
      && codec.parseObject(raw) == Some(payload)
  }

  /** Main result: the payloads that the collector accepts, in plain terms, whatever the reads answer. */
  lemma AcceptedIs<P(!new)>(codec: Codec<P>, envelope: Envelope, nonce: string, read: int -> Result<Chunk, Error>, payload: P)
    ensures Probed(codec, envelope, nonce, read) == Ok(payload) <==>
      && envelope.transport == "findb-evidence-gzip-v1" && envelope.nonce == nonce && Budgeted(envelope)
      && exists texts :: Delivered(envelope, nonce, read, texts) && FullTexts(envelope, texts)
                         && Unpacks(codec, envelope, texts, payload)
  {
    BudgetIs(envelope);
    if Budgeted(envelope) {
      forall texts | Delivered(envelope, nonce, read, texts)
        ensures TextsOf(envelope, nonce, read) == Some(texts)
      {
        TextsAre(envelope, nonce, read, texts);
      }
      var texts := TextsOf(envelope, nonce, read);
      if texts.Some? {
        DeliveredTexts(envelope, nonce, read);
        DecodesIff(codec, envelope, nonce, texts.value, payload);
      }
    }
  }

  ghost function TextsOf(envelope: Envelope, nonce: string, read: int -> Result<Chunk, Error>): Option<seq<string>> {
    if (envelope.chunks == 1) != envelope.data.Some? || envelope.chunks < 0 then None
    else if envelope.chunks == 1 then Some([envelope.data.value])
    else if AllAnswer(read, nonce, envelope.chunks) then Some(Received(read, nonce, envelope.chunks))
    else None
  }

  lemma TextsAre(envelope: Envelope, nonce: string, read: int -> Result<Chunk, Error>, texts: seq<string>)
    requires Budgeted(envelope) && Delivered(envelope, nonce, read, texts)
    ensures TextsOf(envelope, nonce, read) == Some(texts)
  {
    if envelope.chunks == 1 {
      assert texts == [texts[0]];
    } else {
      forall k {:trigger read(k)} | 0 <= k < envelope.chunks ensures Answers(read(k), nonce, k) {
        assert read(k) == Ok(Chunk("findb-evidence-gzip-v1", nonce, k, texts[k]));
      }
      assert Received(read, nonce, envelope.chunks) == texts;
    }
  }

  lemma DeliveredTexts(envelope: Envelope, nonce: string, read: int -> Result<Chunk, Error>)
    requires Budgeted(envelope) && TextsOf(envelope, nonce, read).Some?
    ensures Delivered(envelope, nonce, read, TextsOf(envelope, nonce, read).value)
  {
    var texts := TextsOf(envelope, nonce, read).value;
    if envelope.chunks != 1 {
      forall k | 0 <= k < |texts| ensures read(k) == Ok(Chunk("findb-evidence-gzip-v1", nonce, k, texts[k])) {
        assert Answers(read(k), nonce, k);
      }
    }
  }

  lemma DecodesIff<P(!new)>(codec: Codec<P>, envelope: Envelope, nonce: string, texts: seq<string>, payload: P)
    requires Budgeted(envelope) && |texts| == envelope.chunks
    ensures DecodeTransport(codec, envelope, texts, nonce) == Ok(payload) <==>
      && envelope.transport == "findb-evidence-gzip-v1" && envelope.nonce == nonce
      && FullTexts(envelope, texts) && Unpacks(codec, envelope, texts, payload)
  {
    BudgetIs(envelope);
    SizesAre(envelope, texts);
  }
}
