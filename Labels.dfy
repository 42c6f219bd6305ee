/**
  * Label resolution through the `wbgetentities` endpoint: the identifiers are
  * sent in consecutive chunks of at most fifty, and every chunk's answer is
  * merged into one identifier-to-label map. The answers are inputs, one per
  * chunk request, in request order.
  */
module Labels {
  import opened Wrappers

  /** The endpoint's per-request maximum number of identifiers. */
  const ChunkSize: nat := 50

  /** The message of the error raised for a reply whose HTTP status is not 200. */
  const ApiFailedMessage: string := "Could not get labels for ids from wikidata API."

  /** One entity of an answer; its `labels` member maps a language to the label text. */
  datatype Entity = Entity(labels: Option<map<string, string>>)

  /** A decoded answer: an embedded `error` object (its `info` text) or the `entities` member. */
  datatype Body = ErrorBody(info: string) | EntitiesBody(entities: map<string, Entity>)

  /** The HTTP status and decoded body of one chunk request. */
  datatype Reply = Reply(status: int, body: Body)

  function Min(a: int, b: int): int { if a < b then a else b }

  /**
    * `[ids[i : i + 50] for i in range(0, len(ids), 50)]`: ceil(n/50) chunks,
    * each non-empty and at most fifty long, all but the last exactly fifty.
    */
  function Chunks<T>(ids: seq<T>): (chunks: seq<seq<T>>)
    ensures |chunks| == (|ids| + ChunkSize - 1) / ChunkSize
    ensures forall k :: 0 <= k < |chunks| ==> 1 <= |chunks[k]| <= ChunkSize
    ensures forall k :: 0 <= k < |chunks| - 1 ==> |chunks[k]| == ChunkSize
  {
    seq((|ids| + ChunkSize - 1) / ChunkSize,
        k requires 0 <= k < (|ids| + ChunkSize - 1) / ChunkSize =>
          ids[k * ChunkSize .. Min((k + 1) * ChunkSize, |ids|)])
  }

  /** The concatenation of a sequence of chunks. */
  function Flatten<T>(chunks: seq<seq<T>>): seq<T>
  {
    if chunks == [] then [] else chunks[0] + Flatten(chunks[1..])
  }

  /** Beyond the first fifty, the chunks of a list are its first fifty followed by the chunks of the rest. */
  lemma ChunksUnfold<T>(ids: seq<T>)
    requires |ids| > ChunkSize
    ensures Chunks(ids) == [ids[..ChunkSize]] + Chunks(ids[ChunkSize..])
  {
    var rest := ids[ChunkSize..];
    var a, b := Chunks(ids), [ids[..ChunkSize]] + Chunks(rest);
    assert |a| == |b|;
    forall k | 0 <= k < |a| ensures a[k] == b[k] {
      if k > 0 {
        assert b[k] == Chunks(rest)[k - 1] == rest[(k - 1) * ChunkSize .. Min(k * ChunkSize, |rest|)];
      }
    }
  }

  /** The chunks concatenate back to the identifier list, in order. */
  lemma {:induction false} ChunksConcatenate<T>(ids: seq<T>)
    ensures Flatten(Chunks(ids)) == ids
    decreases |ids|
  {
    if |ids| > ChunkSize {
      ChunksUnfold(ids);
      ChunksConcatenate(ids[ChunkSize..]);
      assert ids[..ChunkSize] + ids[ChunkSize..] == ids;
    } else if ids != [] {
      assert (|ids| + ChunkSize - 1) / ChunkSize == 1;
      assert Chunks(ids)[0] == ids[0 .. |ids|] == ids;
      assert Chunks(ids) == [ids];
    }
  }

  /** A reply aborts the call: its status is not 200, or it carries an `error`. */
  predicate Fails(reply: Reply)
  {
    reply.status != 200 || reply.body.ErrorBody?
  }

  /** The message of the error a failing reply raises. */
  function FailureMessage(reply: Reply): string
    requires Fails(reply)
  {
    if reply.status != 200 then ApiFailedMessage else reply.body.info
  }

  /** The entities a reply contributes (none for an error body). */
  function EntitiesOf(reply: Reply): map<string, Entity>
  {
    if reply.body.EntitiesBody? then reply.body.entities else map[]
  }

  /** An entity's label in `lang`, or `""` when it has none there. */
  function LabelOf(e: Entity, lang: string): string
  {
    if e.labels.Some? && lang in e.labels.value then e.labels.value[lang] else ""
  }

  /** `data` updated with every entity of one answer. */
  function Merge(data: map<string, string>, entities: map<string, Entity>, lang: string): map<string, string>
  {
    data + map id | id in entities :: LabelOf(entities[id], lang)
  }

  /**
    * Folds the chunk replies into `data` in order; the first failing reply
    * aborts the fold and nothing accumulated so far is returned.
    */
  function Resolve(replies: seq<Reply>, lang: string, data: map<string, string>): Result<map<string, string>, string>
    decreases |replies|
  {
    if replies == [] then Success(data)
    else if Fails(replies[0]) then Failure(FailureMessage(replies[0]))
    else Resolve(replies[1..], lang, Merge(data, replies[0].body.entities, lang))
  }

  /** The call fails exactly when some reply fails, and with the first failing reply's message. */
  lemma {:induction false} ResolveFailure(replies: seq<Reply>, lang: string, data: map<string, string>)
    ensures Resolve(replies, lang, data).Failure? <==> exists k :: 0 <= k < |replies| && Fails(replies[k])
    ensures Resolve(replies, lang, data).Failure? ==> exists k ::
      && 0 <= k < |replies|
      && Fails(replies[k])
      && (forall j :: 0 <= j < k ==> !Fails(replies[j]))
      && Resolve(replies, lang, data).error == FailureMessage(replies[k])
    decreases |replies|
  {
    if replies != [] && !Fails(replies[0]) {
      var rest := replies[1..];
      var data' := Merge(data, replies[0].body.entities, lang);
      ResolveFailure(rest, lang, data');
      if exists k :: 0 <= k < |rest| && Fails(rest[k]) {
        var k :| 0 <= k < |rest| && Fails(rest[k]);
        assert Fails(replies[k + 1]);
      }
      if Resolve(replies, lang, data).Failure? {
        var k :| && 0 <= k < |rest|
                 && Fails(rest[k])
                 && (forall j :: 0 <= j < k ==> !Fails(rest[j]))
                 && Resolve(rest, lang, data').error == FailureMessage(rest[k]);
        forall j | 0 <= j < k + 1 ensures !Fails(replies[j]) {
          if j > 0 { assert replies[j] == rest[j - 1]; }
        }
        assert replies[k + 1] == rest[k];
      }
    }
  }

  /**
    * On success the keys are those of `data` plus every entity of every
    * reply: an entity is never left out, whatever its labels.
    */
  lemma {:induction false} ResolveKeys(replies: seq<Reply>, lang: string, data: map<string, string>, id: string)
    requires Resolve(replies, lang, data).Success?
    ensures id in Resolve(replies, lang, data).value <==>
              id in data || exists k :: 0 <= k < |replies| && id in EntitiesOf(replies[k])
    decreases |replies|
  {
    if replies != [] {
      var rest := replies[1..];
      ResolveKeys(rest, lang, Merge(data, replies[0].body.entities, lang), id);
      if exists k :: 0 <= k < |rest| && id in EntitiesOf(rest[k]) {
        var k :| 0 <= k < |rest| && id in EntitiesOf(rest[k]);
        assert id in EntitiesOf(replies[k + 1]);
      }
      if exists k :: 0 <= k < |replies| && id in EntitiesOf(replies[k]) {
        var k :| 0 <= k < |replies| && id in EntitiesOf(replies[k]);
        if k > 0 { assert id in EntitiesOf(rest[k - 1]); }
      }
    }
  }

  /**
    * On success an entity's entry is its label in `lang` (or `""`) from the
    * last reply that lists it.
    */
  lemma {:induction false} ResolveLabelOf(replies: seq<Reply>, lang: string, data: map<string, string>,
                                          k: nat, id: string)
    requires Resolve(replies, lang, data).Success?
    requires k < |replies| && id in EntitiesOf(replies[k])
    requires forall j :: k < j < |replies| ==> id !in EntitiesOf(replies[j])
    ensures id in Resolve(replies, lang, data).value
    ensures Resolve(replies, lang, data).value[id] == LabelOf(EntitiesOf(replies[k])[id], lang)
    decreases |replies|
  {
    var rest := replies[1..];
    var data' := Merge(data, replies[0].body.entities, lang);
    if k == 0 {
      forall j | 0 <= j < |rest| ensures id !in EntitiesOf(rest[j]) {
        assert rest[j] == replies[j + 1];
      }
      ResolveKeepsUntouched(rest, lang, data', id);
    } else {
      forall j | k - 1 < j < |rest| ensures id !in EntitiesOf(rest[j]) {
        assert rest[j] == replies[j + 1];
      }
      ResolveLabelOf(rest, lang, data', k - 1, id);
    }
  }

  /** An entry of `data` that no reply lists survives unchanged. */
  lemma {:induction false} ResolveKeepsUntouched(replies: seq<Reply>, lang: string, data: map<string, string>, id: string)
    requires Resolve(replies, lang, data).Success?
    requires id in data
    requires forall j :: 0 <= j < |replies| ==> id !in EntitiesOf(replies[j])
    ensures id in Resolve(replies, lang, data).value
    ensures Resolve(replies, lang, data).value[id] == data[id]
    decreases |replies|
  {
    if replies != [] {
      var rest := replies[1..];
      forall j | 0 <= j < |rest| ensures id !in EntitiesOf(rest[j]) {
        assert rest[j] == replies[j + 1];
      }
      ResolveKeepsUntouched(rest, lang, Merge(data, replies[0].body.entities, lang), id);
    }
  }

  /**
    * Adds every entity of one answer to `data`: its label in `lang` when it
    * has one, `""` otherwise.
    */
  method MergeEntities(data: map<string, string>, entities: map<string, Entity>, lang: string)
    returns (merged: map<string, string>)
    ensures merged == Merge(data, entities, lang)
    ensures merged.Keys == data.Keys + entities.Keys
  {
    merged := data;
    var todo := entities.Keys;
    while todo != {}
      invariant todo <= entities.Keys
      invariant merged == data + map id | id in entities.Keys - todo :: LabelOf(entities[id], lang)
      decreases todo
    {
      var prop :| prop in todo;
      var value := entities[prop];
      if value.labels.Some? && lang in value.labels.value {
        merged := merged[prop := value.labels.value[lang]];
      } else {
        merged := merged[prop := ""];
      }
      todo := todo - {prop};
    }
  }

  /**
    * Requests the labels of `ids` in `lang` (English unless given) chunk by
    * chunk, `replies[k]` being the answer to the k-th chunk. Returns the merged map or the first failure, and the
    * chunks actually requested: all of them on success, and on failure those
    * up to and including the one whose reply failed.
    */
  method FetchAndFormatLabelsForIds(ids: seq<string>, replies: seq<Reply>, lang: string := "en")
    returns (r: Result<map<string, string>, string>, sent: seq<seq<string>>)
    requires |replies| == |Chunks(ids)|
    ensures r == Resolve(replies, lang, map[])
    ensures |sent| <= |replies| && sent == Chunks(ids)[..|sent|]
    ensures r.Success? ==> sent == Chunks(ids)
    ensures r.Failure? ==>
      && 1 <= |sent|
      && Fails(replies[|sent| - 1])
      && forall j :: 0 <= j < |sent| - 1 ==> !Fails(replies[j])
  {
    var chunks := Chunks(ids);
    var data: map<string, string> := map[];
    sent := [];
    var i := 0;
    while i < |chunks|
      invariant 0 <= i <= |chunks|
      invariant sent == chunks[..i]
      invariant forall j :: 0 <= j < i ==> !Fails(replies[j])
      invariant Resolve(replies[i..], lang, data) == Resolve(replies, lang, map[])
    {
      sent := sent + [chunks[i]];
      var reply := replies[i];
      assert replies[i..][0] == reply && replies[i..][1..] == replies[i + 1..];
      if reply.status != 200 {
        return Failure(ApiFailedMessage), sent;
      }
      match reply.body {
        case ErrorBody(info) =>
          return Failure(info), sent;
        case EntitiesBody(entities) =>
          data := MergeEntities(data, entities, lang);
      }
      i := i + 1;
    }
    r := Success(data);
  }
}
