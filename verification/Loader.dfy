/** The ingest pipeline of `rag/loader.py`: parse, chunk, embed, store; one caller at a time. */
module Loader {
  import opened Prelude
  import opened Text
  import opened Parser
  import opened Chunker
  import opened Embedder
  import opened ChunkStore

  datatype LoadError = ParseFailed(ParseError) | EmbedFailed(EmbedError) | StoreFailed(StoreError)

  datatype Settings = Settings(chunkSize: int, overlap: int, batchSize: int)

  datatype Source = Source(content: string, documentId: string, source: string, metadata: map<string, string>)

  function Contents(cs: seq<Chunk>): seq<string> {
    seq(|cs|, i requires 0 <= i < |cs| => cs[i].content)
  }

  /** The chunks of a source that parses. */
  function ChunksOfSource(src: Source, s: Settings, ids: nat -> string): seq<Chunk>
    requires s.overlap < s.chunkSize
  {
    match Parse(src.content, src.documentId, src.source, src.metadata)
    case Err(_) => []
    case Ok(doc) => Chunks(doc, s.chunkSize, s.overlap, ids)
  }

  /** What `ingest` returns, and the table it leaves. */
  function Ingested(rows: Rows, src: Source, s: Settings, ids: nat -> string, endpoint: Endpoint): (Result<nat, LoadError>, Rows)
    requires s.overlap < s.chunkSize
  {
    var existing := CountOf(rows, src.documentId);
    if existing > 0 then (Ok(existing), rows)
    else
      match Parse(src.content, src.documentId, src.source, src.metadata)
      case Err(e) => (Err(ParseFailed(e)), rows)
      case Ok(doc) =>
        var cs := Chunks(doc, s.chunkSize, s.overlap, ids);
        if cs == [] then (Ok(0), rows)
        else
          match Embedded(Contents(cs), s.batchSize, endpoint)
          case Err(e) => (Err(EmbedFailed(e)), rows)
          case Ok(vs) =>
            if |cs| != |vs| then (Err(StoreFailed(LengthMismatch)), rows)
            else (Ok(|cs|), InsertAll(rows, cs, vs))
  }

  function Reingested(rows: Rows, src: Source, s: Settings, ids: nat -> string, endpoint: Endpoint): (Result<nat, LoadError>, Rows)
    requires s.overlap < s.chunkSize
  {
    Ingested(Without(rows, src.documentId), src, s, ids, endpoint)
  }

  class DocumentLoader {
    const chunker: SlidingWindowChunker
    const batchSize: int
    const retriever: PgVectorRetriever

    function Config(): Settings {
      Settings(chunker.chunkSize, chunker.overlap, batchSize)
    }

    constructor (chunker: SlidingWindowChunker, batchSize: int, retriever: PgVectorRetriever)
      ensures this.chunker == chunker && this.batchSize == batchSize && this.retriever == retriever
    {
      this.chunker := chunker;
      this.batchSize := batchSize;
      this.retriever := retriever;
    }

    method Ingest(src: Source, ids: nat -> string, endpoint: Endpoint) returns (r: Result<nat, LoadError>)
      requires chunker.Valid()
      modifies retriever
      ensures (r, retriever.rows) == Ingested(old(retriever.rows), src, Config(), ids, endpoint)
    {
      var existing := retriever.CountByDocument(src.documentId);
      if existing > 0 { return Ok(existing); }
      var parsed := Parse(src.content, src.documentId, src.source, src.metadata);
      if parsed.Err? { return Err(ParseFailed(parsed.error)); }
      var chunks := chunker.ChunkDocument(parsed.value, ids);
      if chunks == [] { return Ok(0); }
      var embeddings := Embed(Contents(chunks), batchSize, endpoint);
      if embeddings.Err? { return Err(EmbedFailed(embeddings.error)); }
      var stored := retriever.StoreChunks(chunks, embeddings.value);
      if stored.Err? { return Err(StoreFailed(LengthMismatch)); }
      return Ok(|chunks|);
    }

    method Reingest(src: Source, ids: nat -> string, endpoint: Endpoint) returns (r: Result<nat, LoadError>)
      requires chunker.Valid()
      modifies retriever
      ensures (r, retriever.rows) == Reingested(old(retriever.rows), src, Config(), ids, endpoint)
    {
      retriever.DeleteDocument(src.documentId);
      r := Ingest(src, ids, endpoint);
    }
  }

  // ---------------------------------------------------------------- what the table holds

  /** Fresh UUIDs: pairwise distinct and unknown to the table. */
  ghost predicate FreshSupply(ids: nat -> string, rows: Rows) {
    && (forall i: nat :: ids(i) !in rows)
    && (forall i: nat, j: nat :: i < j ==> ids(i) != ids(j))
  }

  /** Settings as the pipeline is meant to be built, and an endpoint that answers. */
  ghost predicate Working(s: Settings, endpoint: Endpoint, vector: string -> Vector) {
    0 <= s.overlap < s.chunkSize && s.batchSize >= 1 && Answers(endpoint, vector)
  }

  lemma SourceChunks(src: Source, s: Settings, ids: nat -> string, rows: Rows)
    requires Split(src.content) != [] && 0 <= s.overlap < s.chunkSize && FreshSupply(ids, rows)
    ensures Parse(src.content, src.documentId, src.source, src.metadata).Ok?
    ensures var cs := ChunksOfSource(src, s, ids);
      && cs != [] && FreshIds(rows, cs)
      && forall i :: 0 <= i < |cs| ==> cs[i].documentId == src.documentId && cs[i].chunkId == ids(i) && cs[i].chunkIndex == i
  {
    hide Chunks, Split, Parse;
    ParseNormalises(src.content, src.documentId, src.source, src.metadata);
    ParsedId(src);
    var doc := Parse(src.content, src.documentId, src.source, src.metadata).value;
    var cs := ChunksOfSource(src, s, ids);
    assert cs == Chunks(doc, s.chunkSize, s.overlap, ids);
    ChunkCount(doc, s.chunkSize, s.overlap, ids);
    forall i | 0 <= i < |cs| ensures cs[i].documentId == src.documentId && cs[i].chunkId == ids(i) && cs[i].chunkIndex == i {
      ChunkShape(doc, s.chunkSize, s.overlap, ids, i);
    }
  }

  lemma ParsedId(src: Source)
    ensures var p := Parse(src.content, src.documentId, src.source, src.metadata); p.Ok? ==> p.value.documentId == src.documentId
  {
  }

  /** The row of chunk i of a source: its document, its number, the caller's metadata, the stripped text
      between its offsets in the normalised content, and the embedding of that text. */
  predicate RowIs(row: Row, src: Source, s: Settings, i: nat, c: Chunk, vector: string -> Vector) {
    var text := Join(Split(src.content));
    && row.documentId == src.documentId && row.chunkIndex == i && row.metadata == src.metadata
    && c.startChar == i * (4 * s.chunkSize - 4 * s.overlap) && c.startChar < c.endChar <= |text|
    && row.content == Strip(text[c.startChar..c.endChar]) != []
    && row.embedding == vector(row.content)
  }

  lemma StoredRow(src: Source, s: Settings, ids: nat -> string, i: nat, vector: string -> Vector)
    requires Split(src.content) != [] && 0 <= s.overlap < s.chunkSize && i < |ChunksOfSource(src, s, ids)|
    ensures var c := ChunksOfSource(src, s, ids)[i]; RowIs(RowOf(c, vector(c.content)), src, s, i, c, vector)
  {
    hide Chunks, Split, Strip, Join, Parse, Normal;
    ParseNormalises(src.content, src.documentId, src.source, src.metadata);
    var doc := Parse(src.content, src.documentId, src.source, src.metadata).value;
    ChunkShape(doc, s.chunkSize, s.overlap, ids, i);
  }

  /** Ingesting a new document stores exactly its chunks, one row each under its fresh id, every row with
      the embedding of its own content, and touches no other row. */
  lemma IngestStores(rows: Rows, src: Source, s: Settings, ids: nat -> string, endpoint: Endpoint, vector: string -> Vector)
    requires Working(s, endpoint, vector) && FreshSupply(ids, rows)
    requires CountOf(rows, src.documentId) == 0 && Split(src.content) != []
    ensures var (r, after) := Ingested(rows, src, s, ids, endpoint); var cs := ChunksOfSource(src, s, ids);
      && r == Ok(|cs|) && |cs| >= 1
      && CountOf(after, src.documentId) == |cs|
      && IdsOf(after, src.documentId) == ChunkIds(cs)
      && Without(after, src.documentId) == Without(rows, src.documentId)
      && OthersUntouched(rows, after, src.documentId)
      && forall i :: 0 <= i < |cs| ==>
           cs[i].chunkId in after && RowIs(after[cs[i].chunkId], src, s, i, cs[i], vector)
  {
    hide Parse, Split, Chunks, Embedded, InsertAll, RowOf, Without, FreshIds, FreshSupply, ChunkIds, RowIs, OthersUntouched;
    SourceChunks(src, s, ids, rows);
    var cs := ChunksOfSource(src, s, ids);
    EmbedAligned(Contents(cs), s.batchSize, endpoint, vector);
    var vs := VectorsOf(Contents(cs), vector);
    assert Ingested(rows, src, s, ids, endpoint) == (Ok(|cs|), InsertAll(rows, cs, vs));
    StoredDocument(rows, cs, vs, src.documentId);
    assert IdsOf(rows, src.documentId) == {};
    forall i | 0 <= i < |cs|
      ensures var after := InsertAll(rows, cs, vs);
        cs[i].chunkId in after && RowIs(after[cs[i].chunkId], src, s, i, cs[i], vector)
    {
      InsertedRow(rows, cs, vs, i);
      StoredRow(src, s, ids, i, vector);
    }
  }

  /** Ingesting a stored document again, whatever is passed, returns the same count and changes nothing. */
  lemma IngestIdempotent(rows: Rows, src: Source, s: Settings, ids: nat -> string, endpoint: Endpoint,
                         again: Source, s': Settings, ids': nat -> string, endpoint': Endpoint)
    requires s.overlap < s.chunkSize && s'.overlap < s'.chunkSize && again.documentId == src.documentId
    requires FreshSupply(ids, rows) && 0 <= s.overlap
    ensures var (r, after) := Ingested(rows, src, s, ids, endpoint);
      r.Ok? ==> Ingested(after, again, s', ids', endpoint') == (r, after)
  {
    hide Parse, Split, Chunks, Embedded, InsertAll, RowOf, Without, FreshIds, FreshSupply, ChunkIds, IdsOf;
    var (r, after) := Ingested(rows, src, s, ids, endpoint);
    if r.Ok? && CountOf(rows, src.documentId) == 0 {
      ParseNormalises(src.content, src.documentId, src.source, src.metadata);
      SourceChunks(src, s, ids, rows);
      var cs := ChunksOfSource(src, s, ids);
      var vs := Embedded(Contents(cs), s.batchSize, endpoint).value;
      assert after == InsertAll(rows, cs, vs);
      StoredDocument(rows, cs, vs, src.documentId);
    }
  }

  lemma DeleteForgets(rows: Rows, documentId: string)
    ensures CountOf(Without(rows, documentId), documentId) == 0
    ensures Without(Without(rows, documentId), documentId) == Without(rows, documentId)
    ensures forall id :: id in Without(rows, documentId) ==> id in rows
  {
    assert IdsOf(Without(rows, documentId), documentId) == {};
  }

  /** After `reingest` the document's rows are exactly its new chunks and every other document's rows are
      what they were. */
  lemma ReingestReplaces(rows: Rows, src: Source, s: Settings, ids: nat -> string, endpoint: Endpoint, vector: string -> Vector)
    requires Working(s, endpoint, vector) && FreshSupply(ids, rows) && Split(src.content) != []
    ensures var (r, after) := Reingested(rows, src, s, ids, endpoint); var cs := ChunksOfSource(src, s, ids);
      && r == Ok(|cs|) && |cs| >= 1
      && IdsOf(after, src.documentId) == ChunkIds(cs)
      && Without(after, src.documentId) == Without(rows, src.documentId)
      && OthersUntouched(rows, after, src.documentId)
      && forall i :: 0 <= i < |cs| ==>
           cs[i].chunkId in after && RowIs(after[cs[i].chunkId], src, s, i, cs[i], vector)
  {
    hide Parse, Split, Chunks, Embedded, InsertAll, RowOf, IdsOf, ChunkIds, ChunksOfSource, Ingested, RowIs, Without, OthersUntouched;
    DeleteForgets(rows, src.documentId);
    OthersUntouchedIff(rows, Reingested(rows, src, s, ids, endpoint).1, src.documentId);
    IngestStores(Without(rows, src.documentId), src, s, ids, endpoint, vector);
  }

  /** What makes the pipeline fail: no words, a batch the endpoint does not answer, or a number of vectors
      that is not the number of chunks. */
  ghost predicate PipelineFails(src: Source, s: Settings, ids: nat -> string, endpoint: Endpoint)
    requires s.overlap < s.chunkSize
  {
    var cs := ChunksOfSource(src, s, ids);
    Split(src.content) == [] || (cs != [] && !Served(Contents(cs), s.batchSize, endpoint))
  }

  /** When the two operations fail, and what failure leaves: a failed `ingest` changes nothing, a failed
      `reingest` has deleted the document. */
  lemma FailureLeaves(rows: Rows, src: Source, s: Settings, ids: nat -> string, endpoint: Endpoint)
    requires s.overlap < s.chunkSize
    ensures var (r, after) := Ingested(rows, src, s, ids, endpoint);
      && (r.Err? <==> CountOf(rows, src.documentId) == 0 && PipelineFails(src, s, ids, endpoint))
      && (r.Err? ==> after == rows)
    ensures var (r, after) := Reingested(rows, src, s, ids, endpoint);
      && (r.Err? <==> PipelineFails(src, s, ids, endpoint))
      && (r.Err? ==> after == Without(rows, src.documentId))
  {
    hide Without, CountOf;
    DeleteForgets(rows, src.documentId);
    IngestFailsIff(rows, src, s, ids, endpoint);
    IngestFailsIff(Without(rows, src.documentId), src, s, ids, endpoint);
  }

  lemma IngestFailsIff(rows: Rows, src: Source, s: Settings, ids: nat -> string, endpoint: Endpoint)
    requires s.overlap < s.chunkSize
    ensures var (r, after) := Ingested(rows, src, s, ids, endpoint);
      && (r.Err? <==> CountOf(rows, src.documentId) == 0 && PipelineFails(src, s, ids, endpoint))
      && (r.Err? ==> after == rows)
  {
    hide Parse, Split, Chunks, Embedded, InsertAll, CountOf, Served;
    ParseNormalises(src.content, src.documentId, src.source, src.metadata);
    var cs := ChunksOfSource(src, s, ids);
    if cs != [] { OnePerTextIff(Contents(cs), s.batchSize, endpoint); }
  }

  /** Built as intended and with a working endpoint, `reingest` fails exactly on content without words. */
  lemma WorkingFailsIff(rows: Rows, src: Source, s: Settings, ids: nat -> string, endpoint: Endpoint, vector: string -> Vector)
    requires Working(s, endpoint, vector)
    ensures PipelineFails(src, s, ids, endpoint) <==> Split(src.content) == []
    ensures var (r, after) := Reingested(rows, src, s, ids, endpoint);
      && (r.Err? <==> Split(src.content) == [])
      && (r.Err? ==> after == Without(rows, src.documentId))
  {
    hide ChunksOfSource, Split, Embedded, Served, Reingested, Ingested, Without;
    FailureLeaves(rows, src, s, ids, endpoint);
    var cs := ChunksOfSource(src, s, ids);
    if cs != [] {
      EmbedAligned(Contents(cs), s.batchSize, endpoint, vector);
      OnePerTextIff(Contents(cs), s.batchSize, endpoint);
    }
  }

  /** The document had rows and has none any more. */
  predicate Lost(rows: Rows, after: Rows, documentId: string) {
    CountOf(rows, documentId) > 0 && CountOf(after, documentId) == 0
  }

  /** `reingest` loses a document exactly when it had rows and the pipeline fails or makes no chunks; with an
      overlap of zero or more it makes some. No other document's rows are touched either way. */
  lemma DocumentLostIff(rows: Rows, src: Source, s: Settings, ids: nat -> string, endpoint: Endpoint)
    requires s.overlap < s.chunkSize && FreshSupply(ids, rows)
    ensures var (r, after) := Reingested(rows, src, s, ids, endpoint);
      && (Lost(rows, after, src.documentId)
          <==> CountOf(rows, src.documentId) > 0
               && (PipelineFails(src, s, ids, endpoint) || ChunksOfSource(src, s, ids) == []))
      && (s.overlap >= 0 ==>
          (Lost(rows, after, src.documentId) <==> CountOf(rows, src.documentId) > 0 && PipelineFails(src, s, ids, endpoint)))
      && OthersUntouched(rows, after, src.documentId)
  {
    hide Parse, Split, Chunks, Embedded, InsertAll, Without, CountOf, IdsOf, FreshSupply, FreshIds, PipelineFails, OthersUntouched;
    OthersUntouchedIff(rows, Reingested(rows, src, s, ids, endpoint).1, src.documentId);
    FailureLeaves(rows, src, s, ids, endpoint);
    var kept := Without(rows, src.documentId);
    DeleteForgets(rows, src.documentId);
    var (r, after) := Reingested(rows, src, s, ids, endpoint);
    var cs := ChunksOfSource(src, s, ids);
    if r.Ok? && cs != [] {
      assert FreshSupply(ids, kept) by { FreshStays(ids, rows, src.documentId); }
      SourceIds(src, s, ids, kept);
      var vs := Embedded(Contents(cs), s.batchSize, endpoint).value;
      assert after == InsertAll(kept, cs, vs);
      StoredDocument(kept, cs, vs, src.documentId);
    }
    if r.Ok? && s.overlap >= 0 {
      ParseNormalises(src.content, src.documentId, src.source, src.metadata);
      SourceChunks(src, s, ids, rows);
    }
  }

  lemma FreshStays(ids: nat -> string, rows: Rows, documentId: string)
    requires FreshSupply(ids, rows)
    ensures FreshSupply(ids, Without(rows, documentId))
  {
  }

  /** Under every setting the chunks of a source carry its id and fresh ids of their own. */
  lemma SourceIds(src: Source, s: Settings, ids: nat -> string, rows: Rows)
    requires s.overlap < s.chunkSize && FreshSupply(ids, rows)
    ensures var cs := ChunksOfSource(src, s, ids);
      FreshIds(rows, cs) && forall i :: 0 <= i < |cs| ==> cs[i].documentId == src.documentId
  {
    hide Windows, ChunksOf, Split;
    var cs := ChunksOfSource(src, s, ids);
    var parsed := Parse(src.content, src.documentId, src.source, src.metadata);
    if parsed.Ok? {
      var ws := WindowsOf(parsed.value.content, s.chunkSize, s.overlap);
      ChunksNumbered(parsed.value, ws, 0, ids);
      assert cs == ChunksOf(parsed.value, ws, 0, ids);
      assert forall i :: 0 <= i < |cs| ==> Numbered(cs[i], parsed.value, 0 + i, ids);
    }
  }

  /** Every row carries the embedding of its own content. */
  ghost predicate Aligned(rows: Rows, vector: string -> Vector) {
    forall id :: id in rows ==> rows[id].embedding == vector(rows[id].content)
  }

  /** Neither operation ever breaks that, whatever the settings, even when ids collide, batches fail or the
      embedder yields the wrong number of vectors. */
  lemma StaysAligned(rows: Rows, src: Source, s: Settings, ids: nat -> string, endpoint: Endpoint, vector: string -> Vector)
    requires Aligned(rows, vector) && s.overlap < s.chunkSize && Honest(endpoint, vector)
    ensures Aligned(Ingested(rows, src, s, ids, endpoint).1, vector)
    ensures Aligned(Reingested(rows, src, s, ids, endpoint).1, vector)
  {
    hide Ingested, Without, Honest;
    IngestAligned(rows, src, s, ids, endpoint, vector);
    assert Aligned(Without(rows, src.documentId), vector) by { WithoutAligned(rows, src.documentId, vector); }
    IngestAligned(Without(rows, src.documentId), src, s, ids, endpoint, vector);
  }

  lemma WithoutAligned(rows: Rows, documentId: string, vector: string -> Vector)
    requires Aligned(rows, vector)
    ensures Aligned(Without(rows, documentId), vector)
  {
  }

  lemma IngestAligned(rows: Rows, src: Source, s: Settings, ids: nat -> string, endpoint: Endpoint, vector: string -> Vector)
    requires Aligned(rows, vector) && s.overlap < s.chunkSize && Honest(endpoint, vector)
    ensures Aligned(Ingested(rows, src, s, ids, endpoint).1, vector)
  {
    hide Parse, Chunks, Embedded, InsertAll, CountOf, Honest;
    var cs := ChunksOfSource(src, s, ids);
    EmbeddedAligned(Contents(cs), s.batchSize, endpoint, vector);
    var vs := VectorsOf(Contents(cs), vector);
    InsertAligned(rows, cs, vs, vector);
  }

  lemma InsertAligned(rows: Rows, cs: seq<Chunk>, vs: seq<Vector>, vector: string -> Vector)
    requires Aligned(rows, vector) && vs == VectorsOf(Contents(cs), vector)
    ensures Aligned(InsertAll(rows, cs, vs), vector)
  {
    hide InsertAll;
    var after := InsertAll(rows, cs, vs);
    forall id | id in after ensures after[id].embedding == vector(after[id].content) {
      InsertAllKeeps(rows, cs, vs, id);
    }
  }
}
