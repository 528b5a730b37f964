/** The chunk table of `rag/retriever.py`: rows keyed by chunk id, with insert-if-absent, count and
    delete. Vector search is not modelled. */
module ChunkStore {
  import opened Prelude
  import opened Chunker
  import opened Embedder

  datatype Row = Row(documentId: string, content: string, chunkIndex: nat, embedding: Vector, metadata: map<string, string>)

  type Rows = map<string, Row>

  datatype StoreError = LengthMismatch

  function RowOf(c: Chunk, e: Vector): Row {
    Row(c.documentId, c.content, c.chunkIndex, e, c.metadata)
  }

  /** INSERT ... ON CONFLICT (id) DO NOTHING */
  function InsertIfAbsent(rows: Rows, c: Chunk, e: Vector): Rows {
    if c.chunkId in rows then rows else rows[c.chunkId := RowOf(c, e)]
  }

  function InsertAll(rows: Rows, cs: seq<Chunk>, es: seq<Vector>): Rows
    requires |cs| == |es|
  {
    if cs == [] then rows
    else
      var n := |cs| - 1;
      InsertIfAbsent(InsertAll(rows, cs[..n], es[..n]), cs[n], es[n])
  }

  function IdsOf(rows: Rows, documentId: string): set<string> {
    set id | id in rows && rows[id].documentId == documentId
  }

  function CountOf(rows: Rows, documentId: string): nat {
    |IdsOf(rows, documentId)|
  }

  function Without(rows: Rows, documentId: string): Rows {
    map id | id in rows && rows[id].documentId != documentId :: rows[id]
  }

  class PgVectorRetriever {
    var rows: Rows

    constructor ()
      ensures rows == map[]
    {
      rows := map[];
    }

    method StoreChunks(chunks: seq<Chunk>, embeddings: seq<Vector>) returns (r: Result<(), StoreError>)
      modifies this
      ensures r.Err? <==> |chunks| != |embeddings|
      ensures r.Err? ==> rows == old(rows)
      ensures r.Ok? ==> rows == InsertAll(old(rows), chunks, embeddings)
    {
      if |chunks| != |embeddings| { return Err(LengthMismatch); }
      assert chunks[..|chunks|] == chunks && embeddings[..|embeddings|] == embeddings;
      for i := 0 to |chunks|
        invariant rows == InsertAll(old(rows), chunks[..i], embeddings[..i])
      {
        assert chunks[..i + 1][..i] == chunks[..i] && embeddings[..i + 1][..i] == embeddings[..i];
        rows := InsertIfAbsent(rows, chunks[i], embeddings[i]);
      }
      return Ok(());
    }

    method CountByDocument(documentId: string) returns (n: nat)
      ensures n == CountOf(rows, documentId)
    {
      n := CountOf(rows, documentId);
    }

    method DeleteDocument(documentId: string)
      modifies this
      ensures rows == Without(old(rows), documentId)
      ensures forall id :: id in rows <==> id in old(rows) && old(rows)[id].documentId != documentId
      ensures forall id :: id in rows ==> rows[id] == old(rows)[id]
    {
      rows := Without(rows, documentId);
    }
  }

  /** Both tables hold the same rows of other documents. */
  ghost predicate OthersUntouched(rows: Rows, after: Rows, documentId: string) {
    && (forall id :: id in rows && rows[id].documentId != documentId ==> id in after && after[id] == rows[id])
    && (forall id :: id in after && after[id].documentId != documentId ==> id in rows && rows[id] == after[id])
  }

  lemma OthersUntouchedIff(rows: Rows, after: Rows, documentId: string)
    ensures OthersUntouched(rows, after, documentId) <==> Without(after, documentId) == Without(rows, documentId)
  {
    var a, b := Without(rows, documentId), Without(after, documentId);
    if OthersUntouched(rows, after, documentId) {
      assert a.Keys == b.Keys;
      forall id | id in a ensures a[id] == b[id] {}
    }
    if a == b {
      forall id | id in rows && rows[id].documentId != documentId ensures id in after && after[id] == rows[id] {
        assert id in a && a[id] == b[id];
      }
      forall id | id in after && after[id].documentId != documentId ensures id in rows && rows[id] == after[id] {
        assert id in b && a[id] == b[id];
      }
    }
  }

  // ---------------------------------------------------------------- insertion

  /** The chunks carry pairwise distinct ids, none of them in the table. */
  predicate FreshIds(rows: Rows, cs: seq<Chunk>) {
    && (forall i :: 0 <= i < |cs| ==> cs[i].chunkId !in rows)
    && (forall i, j :: 0 <= i < j < |cs| ==> cs[i].chunkId != cs[j].chunkId)
  }

  function ChunkIds(cs: seq<Chunk>): set<string> {
    set c | c in cs :: c.chunkId
  }

  lemma {:induction false} InsertAllKeeps(rows: Rows, cs: seq<Chunk>, es: seq<Vector>, id: string)
    requires |cs| == |es|
    ensures id in rows ==> id in InsertAll(rows, cs, es) && InsertAll(rows, cs, es)[id] == rows[id]
    ensures id in InsertAll(rows, cs, es) && id !in rows ==>
      exists i :: 0 <= i < |cs| && cs[i].chunkId == id && InsertAll(rows, cs, es)[id] == RowOf(cs[i], es[i])
  {
    if cs != [] {
      var n := |cs| - 1;
      InsertAllKeeps(rows, cs[..n], es[..n], id);
      assert cs[n].chunkId == id ==> cs[n] == cs[n];
    }
  }

  lemma {:induction false} InsertAllKeys(rows: Rows, cs: seq<Chunk>, es: seq<Vector>)
    requires |cs| == |es|
    ensures InsertAll(rows, cs, es).Keys == rows.Keys + ChunkIds(cs)
  {
    hide RowOf;
    if cs != [] {
      var n := |cs| - 1;
      InsertAllKeys(rows, cs[..n], es[..n]);
      ChunkIdsSnoc(cs);
    }
  }

  lemma ChunkIdsSnoc(cs: seq<Chunk>)
    requires cs != []
    ensures ChunkIds(cs) == ChunkIds(cs[..|cs| - 1]) + {cs[|cs| - 1].chunkId}
  {
    assert cs == cs[..|cs| - 1] + [cs[|cs| - 1]];
  }

  lemma {:induction false} DistinctIds(rows: Rows, cs: seq<Chunk>)
    requires FreshIds(rows, cs)
    ensures |ChunkIds(cs)| == |cs| && ChunkIds(cs) !! rows.Keys
  {
    if cs != [] {
      DistinctIds(rows, cs[..|cs| - 1]);
      ChunkIdsSnoc(cs);
    }
  }

  /** With fresh ids every chunk gets its row. */
  lemma {:induction false} InsertedRow(rows: Rows, cs: seq<Chunk>, es: seq<Vector>, i: nat)
    requires |cs| == |es| && FreshIds(rows, cs) && i < |cs|
    ensures cs[i].chunkId in InsertAll(rows, cs, es) && InsertAll(rows, cs, es)[cs[i].chunkId] == RowOf(cs[i], es[i])
    decreases |cs|
  {
    hide RowOf;
    var n := |cs| - 1;
    if i < n {
      InsertedRow(rows, cs[..n], es[..n], i);
    } else {
      InsertAllKeys(rows, cs[..n], es[..n]);
    }
  }

  lemma RowDocument(c: Chunk, e: Vector)
    ensures RowOf(c, e).documentId == c.documentId
  {
  }

  /** The rows of a document after storing its chunks are its old ones and one per chunk; the rows of
      every other document are untouched. */
  lemma StoredDocument(rows: Rows, cs: seq<Chunk>, es: seq<Vector>, documentId: string)
    requires |cs| == |es| && FreshIds(rows, cs)
    requires forall i :: 0 <= i < |cs| ==> cs[i].documentId == documentId
    ensures IdsOf(InsertAll(rows, cs, es), documentId) == IdsOf(rows, documentId) + ChunkIds(cs)
    ensures CountOf(InsertAll(rows, cs, es), documentId) == CountOf(rows, documentId) + |cs|
    ensures Without(InsertAll(rows, cs, es), documentId) == Without(rows, documentId)
    ensures OthersUntouched(rows, InsertAll(rows, cs, es), documentId)
  {
    hide OthersUntouched, InsertAll, IdsOf, CountOf, Without, RowOf;
    OthersUntouchedIff(rows, InsertAll(rows, cs, es), documentId);
    var after := InsertAll(rows, cs, es);
    InsertAllKeys(rows, cs, es);
    DistinctIds(rows, cs);
    forall id | id in ChunkIds(cs) ensures id in after && after[id].documentId == documentId {
      var i :| 0 <= i < |cs| && cs[i].chunkId == id;
      InsertedRow(rows, cs, es, i);
      RowDocument(cs[i], es[i]);
    }
    forall id | id in rows ensures after[id] == rows[id] {
      InsertAllKeeps(rows, cs, es, id);
    }
    AddedRows(rows, after, ChunkIds(cs), documentId);
  }

  ghost predicate Added(rows: Rows, after: Rows, ids: set<string>, documentId: string) {
    && after.Keys == rows.Keys + ids && ids !! rows.Keys
    && (forall id :: id in rows ==> after[id] == rows[id])
    && (forall id :: id in ids ==> after[id].documentId == documentId)
  }

  lemma AddedRows(rows: Rows, after: Rows, ids: set<string>, documentId: string)
    requires Added(rows, after, ids, documentId)
    ensures IdsOf(after, documentId) == IdsOf(rows, documentId) + ids
    ensures CountOf(after, documentId) == CountOf(rows, documentId) + |ids|
    ensures Without(after, documentId) == Without(rows, documentId)
  {
    hide Without;
    IdsAdded(rows, after, ids, documentId);
    assert IdsOf(rows, documentId) !! ids;
    OthersKept(rows, after, ids, documentId);
  }

  lemma IdsAdded(rows: Rows, after: Rows, ids: set<string>, documentId: string)
    requires Added(rows, after, ids, documentId)
    ensures IdsOf(after, documentId) == IdsOf(rows, documentId) + ids
  {
    var a, b := IdsOf(rows, documentId), IdsOf(after, documentId);
    forall id | id in b ensures id in a + ids {
      assert id in rows || id in ids;
    }
    forall id | id in a + ids ensures id in b {
      if id in a { assert id in after; }
      if id in ids { assert id in after; }
    }
  }

  lemma OthersKept(rows: Rows, after: Rows, ids: set<string>, documentId: string)
    requires Added(rows, after, ids, documentId)
    ensures Without(after, documentId) == Without(rows, documentId)
  {
    var a, b := Without(rows, documentId), Without(after, documentId);
    forall id ensures id in a <==> id in b {
      if id in a { assert id in after; }
      if id in b { assert id in rows || id in ids; }
    }
    assert a.Keys == b.Keys;
    forall id | id in a ensures a[id] == b[id] {}
  }
}
