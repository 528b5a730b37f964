/** The batched embedding client of `rag/embedder.py`. The HTTP endpoint is a function from the batch
    offset and the batch to a reply, whose items may come in any order. */
module Embedder {
  import opened Prelude
  import opened StableSort

  type Vector = seq<real>

  datatype Item = Item(index: int, embedding: Vector)

  datatype Reply = Reply(status: int, data: seq<Item>)

  type Endpoint = (nat, seq<string>) -> Reply

  datatype EmbedError = EmbeddingError(status: int) | ZeroBatchSize

  function ByIndex(): Item -> real {
    (item: Item) => item.index as real
  }

  function Vectors(items: seq<Item>): seq<Vector> {
    seq(|items|, i requires 0 <= i < |items| => items[i].embedding)
  }

  /** `_embed_batch` */
  function EmbedBatch(reply: Reply): Result<seq<Vector>, EmbedError> {
    if reply.status != 200 then Err(EmbeddingError(reply.status))
    else Ok(Vectors(Sort(reply.data, ByIndex())))
  }

  function BatchAt(texts: seq<string>, i: nat, batchSize: nat): seq<string>
    requires i <= |texts|
  {
    texts[i..MinInt(i + batchSize, |texts|)]
  }

  /** The embeddings of texts[i..], batch after batch; the first failing batch ends it. */
  function EmbedFrom(texts: seq<string>, i: nat, batchSize: nat, endpoint: Endpoint): Result<seq<Vector>, EmbedError>
    requires batchSize > 0
    decreases |texts| - i
  {
    if i >= |texts| then Ok([])
    else
      match EmbedBatch(endpoint(i, BatchAt(texts, i, batchSize)))
      case Err(e) => Err(e)
      case Ok(first) =>
        match EmbedFrom(texts, i + batchSize, batchSize, endpoint)
        case Err(e) => Err(e)
        case Ok(rest) => Ok(first + rest)
  }

  /** `embed`, including what Python's range does with a batch size of zero or less. */
  function Embedded(texts: seq<string>, batchSize: int, endpoint: Endpoint): Result<seq<Vector>, EmbedError> {
    if texts == [] then Ok([])
    else if batchSize == 0 then Err(ZeroBatchSize)
    else if batchSize < 0 then Ok([])
    else EmbedFrom(texts, 0, batchSize, endpoint)
  }

  method Embed(texts: seq<string>, batchSize: int, endpoint: Endpoint) returns (r: Result<seq<Vector>, EmbedError>)
    ensures r == Embedded(texts, batchSize, endpoint)
  {
    if texts == [] { return Ok([]); }
    if batchSize == 0 { return Err(ZeroBatchSize); }
    var all: seq<Vector> := [];
    var i := 0;
    assert forall rest: seq<Vector> :: all + rest == rest;
    while batchSize > 0 && i < |texts|
      invariant i >= 0
      invariant batchSize > 0 ==>
        Embedded(texts, batchSize, endpoint) ==
          match EmbedFrom(texts, i, batchSize, endpoint)
          case Err(e) => Err(e)
          case Ok(rest) => Ok(all + rest)
      invariant batchSize < 0 ==> all == []
      decreases |texts| - i
    {
      var batch := BatchAt(texts, i, batchSize);
      var result := EmbedBatch(endpoint(i, batch));
      if result.Err? { return Err(result.error); }
      ghost var before := all;
      all := all + result.value;
      i := i + batchSize;
      assert forall rest: seq<Vector> :: before + (result.value + rest) == all + rest;
    }
    assert all + [] == all;
    return Ok(all);
  }

  // ---------------------------------------------------------------- alignment

  function VectorsOf(texts: seq<string>, vector: string -> Vector): seq<Vector> {
    seq(|texts|, i requires 0 <= i < |texts| => vector(texts[i]))
  }

  /** The reply to a batch in request order. */
  function InOrder(batch: seq<string>, vector: string -> Vector): seq<Item> {
    seq(|batch|, i requires 0 <= i < |batch| => Item(i, vector(batch[i])))
  }

  /** What the endpoint answers with status 200 is the vector of each text, tagged with its index, in any
      order. It may fail on any batch. */
  ghost predicate Honest(endpoint: Endpoint, vector: string -> Vector) {
    forall i: nat, batch: seq<string> {:trigger endpoint(i, batch)} ::
      endpoint(i, batch).status == 200 ==> multiset(endpoint(i, batch).data) == multiset(InOrder(batch, vector))
  }

  /** And it answers every batch so. */
  ghost predicate Answers(endpoint: Endpoint, vector: string -> Vector) {
    && Honest(endpoint, vector)
    && forall i: nat, batch: seq<string> {:trigger endpoint(i, batch)} :: endpoint(i, batch).status == 200
  }

  lemma BatchAligned(reply: Reply, batch: seq<string>, vector: string -> Vector)
    requires reply.status == 200 && multiset(reply.data) == multiset(InOrder(batch, vector))
    ensures EmbedBatch(reply) == Ok(VectorsOf(batch, vector))
  {
    var key := ByIndex();
    var items := InOrder(batch, vector);
    assert forall i :: 0 <= i < |items| ==> key(items[i]) == i as real;
    SortRestores(reply.data, items, key);
    assert Vectors(items) == VectorsOf(batch, vector);
  }

  // ---------------------------------------------------------------- failure

  /** Every batch of texts[i..] is answered with status 200. */
  ghost predicate AllAnswered(texts: seq<string>, i: nat, batchSize: nat, endpoint: Endpoint) {
    forall k: nat {:trigger Offset(i, k, batchSize)} :: Offset(i, k, batchSize) < |texts| ==>
      endpoint(Offset(i, k, batchSize), BatchAt(texts, Offset(i, k, batchSize), batchSize)).status == 200
  }

  /** Where batch k of texts[i..] starts. */
  function Offset(i: nat, k: nat, batchSize: nat): nat {
    i + k * batchSize
  }

  /** How many items the replies to the batches of texts[i..] hold. */
  function ItemsReceived(texts: seq<string>, i: nat, batchSize: nat, endpoint: Endpoint): nat
    requires batchSize > 0
    decreases |texts| - i
  {
    if i >= |texts| then 0
    else |endpoint(i, BatchAt(texts, i, batchSize)).data| + ItemsReceived(texts, i + batchSize, batchSize, endpoint)
  }

  lemma AllAnsweredStep(texts: seq<string>, i: nat, batchSize: nat, endpoint: Endpoint)
    requires i < |texts|
    ensures AllAnswered(texts, i, batchSize, endpoint) <==>
      endpoint(i, BatchAt(texts, i, batchSize)).status == 200 && AllAnswered(texts, i + batchSize, batchSize, endpoint)
  {
    assert Offset(i, 0, batchSize) == i;
    forall k: nat {:trigger Offset(i + batchSize, k, batchSize)}
      ensures Offset(i + batchSize, k, batchSize) == Offset(i, k + 1, batchSize)
    {
      assert (k + 1) * batchSize == k * batchSize + batchSize;
    }
    if endpoint(i, BatchAt(texts, i, batchSize)).status == 200 && AllAnswered(texts, i + batchSize, batchSize, endpoint) {
      forall k: nat | Offset(i, k, batchSize) < |texts|
        ensures endpoint(Offset(i, k, batchSize), BatchAt(texts, Offset(i, k, batchSize), batchSize)).status == 200
      {
        if k > 0 { assert Offset(i + batchSize, k - 1, batchSize) == Offset(i, k, batchSize); }
      }
    }
  }

  lemma BatchLength(reply: Reply)
    ensures EmbedBatch(reply).Ok? <==> reply.status == 200
    ensures reply.status == 200 ==> |EmbedBatch(reply).value| == |reply.data|
  {
    SortIsStable(reply.data, ByIndex());
  }

  lemma {:induction false} EmbedFromOkIff(texts: seq<string>, i: nat, batchSize: nat, endpoint: Endpoint)
    requires batchSize > 0
    ensures var r := EmbedFrom(texts, i, batchSize, endpoint);
      && (r.Ok? <==> AllAnswered(texts, i, batchSize, endpoint))
      && (r.Ok? ==> |r.value| == ItemsReceived(texts, i, batchSize, endpoint))
    decreases |texts| - i
  {
    hide EmbedBatch, AllAnswered, BatchAt;
    if i < |texts| {
      AllAnsweredStep(texts, i, batchSize, endpoint);
      BatchLength(endpoint(i, BatchAt(texts, i, batchSize)));
      EmbedFromOkIff(texts, i + batchSize, batchSize, endpoint);
    } else {
      NothingToAnswer(texts, i, batchSize, endpoint);
    }
  }

  /** Whatever is embedded is aligned, even if other batches fail. */
  lemma {:induction false} EmbedFromAligned(texts: seq<string>, i: nat, batchSize: nat, endpoint: Endpoint, vector: string -> Vector)
    requires batchSize > 0 && i <= |texts| && Honest(endpoint, vector)
    ensures var r := EmbedFrom(texts, i, batchSize, endpoint); r.Ok? ==> r.value == VectorsOf(texts[i..], vector)
    decreases |texts| - i
  {
    hide EmbedBatch, InOrder;
    if i < |texts| {
      var batch := BatchAt(texts, i, batchSize);
      var reply := endpoint(i, batch);
      BatchLength(reply);
      if reply.status == 200 {
        BatchAligned(reply, batch, vector);
        var first := VectorsOf(batch, vector);
        var next := i + batchSize;
        if next <= |texts| {
          EmbedFromAligned(texts, next, batchSize, endpoint, vector);
          assert first + VectorsOf(texts[next..], vector) == VectorsOf(texts[i..], vector);
        } else {
          assert first + [] == VectorsOf(texts[i..], vector);
        }
      }
    } else {
      assert VectorsOf(texts[i..], vector) == [];
    }
  }

  /** Where the embedder yields one vector per text, entry i is the embedding of text i, for every batch
      size and every order in which the endpoint returns the items. */
  lemma EmbeddedAligned(texts: seq<string>, batchSize: int, endpoint: Endpoint, vector: string -> Vector)
    requires Honest(endpoint, vector)
    ensures var r := Embedded(texts, batchSize, endpoint); r.Ok? && |r.value| == |texts| ==> r.value == VectorsOf(texts, vector)
    ensures var r := Embedded(texts, batchSize, endpoint); r.Ok? && batchSize > 0 ==> r.value == VectorsOf(texts, vector)
  {
    if batchSize > 0 {
      EmbedFromAligned(texts, 0, batchSize, endpoint, vector);
      assert texts[0..] == texts;
    }
  }

  /** If the endpoint answers, the result is the embeddings of the texts in order. */
  lemma EmbedAligned(texts: seq<string>, batchSize: int, endpoint: Endpoint, vector: string -> Vector)
    requires batchSize >= 1 && Answers(endpoint, vector)
    ensures Embedded(texts, batchSize, endpoint) == Ok(VectorsOf(texts, vector))
  {
    hide EmbedBatch, InOrder;
    EmbeddedAligned(texts, batchSize, endpoint, vector);
    EmbedFromOkIff(texts, 0, batchSize, endpoint);
  }

  lemma NothingToAnswer(texts: seq<string>, i: nat, batchSize: nat, endpoint: Endpoint)
    requires i >= |texts|
    ensures AllAnswered(texts, i, batchSize, endpoint)
  {
    assert forall k: nat :: k * batchSize >= 0;
  }

  /** The endpoint answers every batch, and its replies hold as many items as there are texts. */
  ghost predicate Served(texts: seq<string>, batchSize: int, endpoint: Endpoint) {
    batchSize >= 1 && AllAnswered(texts, 0, batchSize, endpoint) && ItemsReceived(texts, 0, batchSize, endpoint) == |texts|
  }

  /** There is one vector per text exactly when every batch is answered and no item is missing or extra. */
  lemma OnePerTextIff(texts: seq<string>, batchSize: int, endpoint: Endpoint)
    requires texts != []
    ensures var r := Embedded(texts, batchSize, endpoint);
      (r.Ok? && |r.value| == |texts|) <==> Served(texts, batchSize, endpoint)
  {
    hide AllAnswered, ItemsReceived;
    if batchSize > 0 { EmbedFromOkIff(texts, 0, batchSize, endpoint); }
  }

  /** When embedding fails, the error carries the status of the first batch that was not answered. */
  lemma {:induction false} FirstFailure(texts: seq<string>, i: nat, batchSize: nat, endpoint: Endpoint) returns (k: nat)
    requires batchSize > 0 && EmbedFrom(texts, i, batchSize, endpoint).Err?
    ensures Offset(i, k, batchSize) < |texts|
    ensures var status := endpoint(Offset(i, k, batchSize), BatchAt(texts, Offset(i, k, batchSize), batchSize)).status;
      status != 200 && EmbedFrom(texts, i, batchSize, endpoint).error == EmbeddingError(status)
    ensures forall j: nat :: j < k && Offset(i, j, batchSize) < |texts| ==>
      endpoint(Offset(i, j, batchSize), BatchAt(texts, Offset(i, j, batchSize), batchSize)).status == 200
    decreases |texts| - i
  {
    hide EmbedBatch, BatchAt, Offset;
    var reply := endpoint(i, BatchAt(texts, i, batchSize));
    BatchLength(reply);
    BatchError(reply);
    FirstOffset(i, batchSize);
    if reply.status != 200 {
      k := 0;
    } else {
      var k' := FirstFailure(texts, i + batchSize, batchSize, endpoint);
      k := k' + 1;
      NextOffset(i, k', batchSize);
      forall j: nat | j < k && Offset(i, j, batchSize) < |texts|
        ensures endpoint(Offset(i, j, batchSize), BatchAt(texts, Offset(i, j, batchSize), batchSize)).status == 200
      {
        if j > 0 { NextOffset(i, j - 1, batchSize); }
      }
    }
  }

  lemma BatchError(reply: Reply)
    ensures reply.status != 200 ==> EmbedBatch(reply) == Err(EmbeddingError(reply.status))
  {
  }

  lemma FirstOffset(i: nat, batchSize: nat)
    ensures Offset(i, 0, batchSize) == i
  {
  }

  lemma NextOffset(i: nat, k: nat, batchSize: nat)
    ensures Offset(i + batchSize, k, batchSize) == Offset(i, k + 1, batchSize)
  {
    assert (k + 1) * batchSize == k * batchSize + batchSize;
  }
}
