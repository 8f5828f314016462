/**
 * The MongoDB side of the adapter, as pure functions over an in-memory store: a
 * database maps collection names to collections, a collection maps each document's
 * `_id` to the document. Each function is the effect of one driver call that
 * MongoDBManager issues (insert_one, insert_many, update with $push or $set,
 * update_many with upsert, find_one), together with the connection-error boundary.
 */
module MongoStore {
  import opened Values

  type Collection = map<Value, Document>
  type Database = map<string, Collection>

  /** The fixed remediation message of the adapter's ConnectionError. */
  const ConnectionMessage: string :=
    "Connection to MongoDB server could not be established. "
    + "Make sure you are running a MongoDB server and that the MongoDB "
    + "Manager has been configured to connect over the correct port. "
    + "For more information see "
    + "https://docs.mongodb.com/manual/tutorial/."

  /**
   * catch_timeout: the wrapped call's result passes through unchanged, except that
   * pymongo's ServerSelectionTimeoutError becomes ConnectionError with the fixed message.
   */
  function CatchTimeout<T>(r: Result<T>): (c: Result<T>)
    ensures r.Ok? ==> c == r
    ensures r.Err? && r.error.ServerSelectionTimeout? ==> c == Err(ConnectionError(ConnectionMessage))
    ensures r.Err? && !r.error.ServerSelectionTimeout? ==> c == r
  {
    if r.Err? && r.error.ServerSelectionTimeout? then Err(ConnectionError(ConnectionMessage)) else r
  }

  /** No raw timeout leaves the boundary, and wrapping twice is wrapping once. */
  lemma CatchTimeoutBoundary<T>(r: Result<T>)
    ensures !(CatchTimeout(r).Err? && CatchTimeout(r).error.ServerSelectionTimeout?)
    ensures CatchTimeout(CatchTimeout(r)) == CatchTimeout(r)
  {
  }

  /** Every document is stored under its own `_id`. */
  predicate WellKeyed(c: Collection) {
    forall id :: id in c ==> "_id" in c[id] && c[id]["_id"] == id
  }

  predicate DatabaseWellKeyed(db: Database) {
    forall t :: t in db ==> WellKeyed(db[t])
  }

  /** collection.insert_one(doc): a new `_id` is inserted, an existing one is a duplicate-key error. */
  function InsertOne(c: Collection, doc: Document): (r: Result<Collection>)
    requires "_id" in doc
    ensures r.Ok? <==> doc["_id"] !in c
    ensures r.Err? ==> r.error == DuplicateKeyError
    ensures r.Ok? ==> r.value.Keys == c.Keys + {doc["_id"]} && r.value[doc["_id"]] == doc
    ensures r.Ok? ==> forall id :: id in c ==> r.value[id] == c[id]
    ensures r.Ok? && WellKeyed(c) ==> WellKeyed(r.value)
  {
    if doc["_id"] in c then Err(DuplicateKeyError) else Ok(c[doc["_id"] := doc])
  }

  /**
   * collection.insert_many(docs), ordered: documents are inserted one after another and
   * the first duplicate stops the batch; those before it stay inserted.
   */
  function InsertMany(c: Collection, docs: seq<Document>): (r: (Collection, Option<Error>))
    requires forall i :: 0 <= i < |docs| ==> "_id" in docs[i]
    ensures r.1.None? || r.1 == Some(BulkWriteError)
    ensures r.1.None? <==> FreshIds(c, docs)
    ensures Keeps(c, r.0)
    ensures r.1.None? ==> r.0 == c + BatchMap(docs)
    ensures WellKeyed(c) ==> WellKeyed(r.0)
    decreases |docs|
  {
    if docs == [] then (c, None)
    else
      assert forall i :: 0 < i < |docs| ==> docs[1..][i - 1] == docs[i];
      match InsertOne(c, docs[0])
      case Err(_) => (c, Some(BulkWriteError))
      case Ok(c') =>
        FreshIdsStep(c, docs);
        UpdateThenMerge(c, docs[0]["_id"], docs[0], BatchMap(docs[1..]));
        InsertMany(c', docs[1..])
  }

  /** Every document of c is still stored, unchanged, in c'. */
  predicate Keeps(c: Collection, c': Collection) {
    forall id :: id in c ==> id in c' && c'[id] == c[id]
  }

  /** The batch as a collection: each document under its own `_id`, a later one winning on a shared `_id`. */
  function BatchMap(docs: seq<Document>): Collection
    requires forall i :: 0 <= i < |docs| ==> "_id" in docs[i]
    decreases |docs|
  {
    if docs == [] then map[] else map[docs[0]["_id"] := docs[0]] + BatchMap(docs[1..])
  }

  /** Storing one entry and then merging b is merging the entry and b. */
  lemma UpdateThenMerge<K, V>(c: map<K, V>, k: K, v: V, b: map<K, V>)
    ensures c[k := v] + b == c + (map[k := v] + b)
  {
  }

  /** Merging a one-entry map: its key joins b's keys; under a key b lacks, the entry's value. */
  lemma SingletonMerge<K, V>(k: K, v: V, b: map<K, V>)
    ensures (map[k := v] + b).Keys == {k} + b.Keys
    ensures k !in b ==> (map[k := v] + b)[k] == v
    ensures forall x :: x in b ==> (map[k := v] + b)[x] == b[x]
  {
  }

  /** The batch map holds exactly the batch's `_id`s. */
  lemma {:induction false} BatchMapKeys(docs: seq<Document>)
    requires forall i :: 0 <= i < |docs| ==> "_id" in docs[i]
    ensures BatchMap(docs).Keys == IdSet(docs)
    decreases |docs|
  {
    if docs != [] {
      BatchMapKeys(docs[1..]);
      IdSetStep(docs);
      SingletonMerge(docs[0]["_id"], docs[0], BatchMap(docs[1..]));
    }
  }

  /** A batch with distinct `_id`s maps each `_id` to its own document. */
  lemma {:induction false} BatchMapContents(docs: seq<Document>)
    requires forall i :: 0 <= i < |docs| ==> "_id" in docs[i]
    requires forall i, j :: 0 <= i < j < |docs| ==> docs[i]["_id"] != docs[j]["_id"]
    ensures forall i :: 0 <= i < |docs| ==> docs[i]["_id"] in BatchMap(docs) && BatchMap(docs)[docs[i]["_id"]] == docs[i]
    decreases |docs|
  {
    if docs != [] {
      var rest := docs[1..];
      var k := docs[0]["_id"];
      assert forall i :: 0 <= i < |rest| ==> rest[i] == docs[i + 1];
      BatchMapContents(rest);
      BatchMapKeys(rest);
      assert k !in IdSet(rest) by {
        forall x | x in IdSet(rest) ensures x != k {
          var i :| 0 <= i < |rest| && rest[i]["_id"] == x;
          assert docs[0]["_id"] != docs[i + 1]["_id"];
        }
      }
      SingletonMerge(k, docs[0], BatchMap(rest));
      forall i | 0 < i < |docs|
        ensures docs[i]["_id"] in BatchMap(docs) && BatchMap(docs)[docs[i]["_id"]] == docs[i]
      {
        assert docs[i] == rest[i - 1];
      }
    }
  }

  /** The `_id`s of a batch are its first `_id` and those of the rest. */
  lemma IdSetStep(docs: seq<Document>)
    requires docs != [] && forall i :: 0 <= i < |docs| ==> "_id" in docs[i]
    ensures IdSet(docs) == {docs[0]["_id"]} + IdSet(docs[1..])
  {
    var rest := docs[1..];
    forall x | x in IdSet(docs) ensures x in {docs[0]["_id"]} + IdSet(rest) {
      var i :| 0 <= i < |docs| && docs[i]["_id"] == x;
      if i > 0 { assert rest[i - 1] == docs[i]; }
    }
    forall x | x in IdSet(rest) ensures x in IdSet(docs) {
      var i :| 0 <= i < |rest| && rest[i]["_id"] == x;
      assert rest[i] == docs[i + 1];
    }
  }

  /** A successful ordered insert_many stores every document of the batch under its `_id`, and nothing else. */
  lemma InsertManyStores(c: Collection, docs: seq<Document>)
    requires forall i :: 0 <= i < |docs| ==> "_id" in docs[i]
    requires FreshIds(c, docs)
    ensures InsertMany(c, docs).1.None?
    ensures InsertMany(c, docs).0.Keys == c.Keys + IdSet(docs)
    ensures forall i :: 0 <= i < |docs| ==> InsertMany(c, docs).0[docs[i]["_id"]] == docs[i]
  {
    BatchMapKeys(docs);
    BatchMapContents(docs);
  }

  /** The `_id`s of a batch are pairwise distinct and none is stored yet: an ordered insert_many takes them all. */
  predicate FreshIds(c: Collection, docs: seq<Document>)
    requires forall i :: 0 <= i < |docs| ==> "_id" in docs[i]
  {
    && (forall i :: 0 <= i < |docs| ==> docs[i]["_id"] !in c)
    && (forall i, j :: 0 <= i < j < |docs| ==> docs[i]["_id"] != docs[j]["_id"])
  }

  /** The `_id`s of a batch. */
  function IdSet(docs: seq<Document>): set<Value>
    requires forall i :: 0 <= i < |docs| ==> "_id" in docs[i]
  {
    set i | 0 <= i < |docs| :: docs[i]["_id"]
  }

  /** A batch is fresh exactly when its first `_id` is new and the rest is fresh once the first is stored. */
  lemma FreshIdsStep(c: Collection, docs: seq<Document>)
    requires docs != [] && forall i :: 0 <= i < |docs| ==> "_id" in docs[i]
    requires docs[0]["_id"] !in c
    ensures FreshIds(c, docs) <==> FreshIds(c[docs[0]["_id"] := docs[0]], docs[1..])
  {
    var c' := c[docs[0]["_id"] := docs[0]];
    var rest := docs[1..];
    assert forall i :: 0 < i < |docs| ==> rest[i - 1] == docs[i];
    if FreshIds(c', rest) {
      forall i, j | 0 <= i < j < |docs|
        ensures docs[i]["_id"] != docs[j]["_id"]
      {
        if i > 0 {
          assert rest[i - 1] == docs[i] && rest[j - 1] == docs[j];
        } else {
          assert rest[j - 1]["_id"] !in c';
        }
      }
      forall i | 0 <= i < |docs|
        ensures docs[i]["_id"] !in c
      {
        if i > 0 {
          assert rest[i - 1]["_id"] !in c';
        }
      }
    }
    if FreshIds(c, docs) {
      forall i | 0 <= i < |rest|
        ensures rest[i]["_id"] !in c'
      {
        assert rest[i] == docs[i + 1];
      }
      forall i, j | 0 <= i < j < |rest|
        ensures rest[i]["_id"] != rest[j]["_id"]
      {
        assert rest[i] == docs[i + 1] && rest[j] == docs[j + 1];
      }
    }
  }

  /** A batch whose first `_id` is already stored fails at once and stores nothing. */
  lemma InsertManyFirstTaken(c: Collection, docs: seq<Document>)
    requires docs != [] && forall i :: 0 <= i < |docs| ==> "_id" in docs[i]
    requires docs[0]["_id"] in c
    ensures InsertMany(c, docs) == (c, Some(BulkWriteError))
  {
  }

  const RequiredUserConfigId: string := "required_user_config"
  const RequiredMetadataConfigId: string := "required_metadata_config"

  /** The two spec documents _create_spec_config seeds, each with an empty config. */
  function SpecSeed(): seq<Document> {
    [map["_id" := VStr(RequiredUserConfigId), "config" := VMap(map[])],
     map["_id" := VStr(RequiredMetadataConfigId), "config" := VMap(map[])]]
  }

  /** The two seed documents carry the two spec ids, which differ. */
  lemma SeedIdsDistinct()
    ensures SpecSeed()[0]["_id"] == VStr(RequiredUserConfigId) && SpecSeed()[1]["_id"] == VStr(RequiredMetadataConfigId)
    ensures VStr(RequiredUserConfigId) != VStr(RequiredMetadataConfigId)
  {
    assert RequiredUserConfigId[9] != RequiredMetadataConfigId[9];
  }

  /**
   * Seeding a spec collection that already holds `required_user_config`: the first insert
   * fails, so the batch stops with BulkWriteError and nothing is stored.
   */
  lemma SpecSeedUserConfigTaken(c: Collection)
    requires VStr(RequiredUserConfigId) in c
    ensures InsertMany(c, SpecSeed()) == (c, Some(BulkWriteError))
  {
    SeedIdsDistinct();
    InsertManyFirstTaken(c, SpecSeed());
  }

  /**
   * Seeding a spec collection that holds only `required_metadata_config`: the ordered batch
   * stores `required_user_config`, then stops at the second document with BulkWriteError.
   */
  lemma SpecSeedMetadataConfigTaken(c: Collection)
    requires VStr(RequiredUserConfigId) !in c && VStr(RequiredMetadataConfigId) in c
    ensures InsertMany(c, SpecSeed()) == (c[VStr(RequiredUserConfigId) := SpecSeed()[0]], Some(BulkWriteError))
  {
    var seed := SpecSeed();
    SeedIdsDistinct();
    var c' := c[VStr(RequiredUserConfigId) := seed[0]];
    assert InsertOne(c, seed[0]) == Ok(c');
    assert seed[1..] == [seed[1]];
    InsertManyFirstTaken(c', seed[1..]);
  }

  /** Seeding a collection that holds neither spec id adds exactly the two spec documents. */
  lemma SpecSeedFresh(c: Collection)
    requires VStr(RequiredUserConfigId) !in c && VStr(RequiredMetadataConfigId) !in c
    ensures InsertMany(c, SpecSeed()).1 == None
    ensures InsertMany(c, SpecSeed()).0
            == c[VStr(RequiredUserConfigId) := SpecSeed()[0]][VStr(RequiredMetadataConfigId) := SpecSeed()[1]]
  {
    var seed := SpecSeed();
    assert seed[1..][1..] == [];
    assert VStr(RequiredUserConfigId) != VStr(RequiredMetadataConfigId);
  }

  /**
   * spec_collection.update_many({'_id': id}, {'$set': {'config': spec}}, upsert=True):
   * the document's config is replaced wholesale, and the document is created if absent.
   */
  function UpsertConfig(c: Collection, id: string, spec: Document): (r: Collection)
    ensures r.Keys == c.Keys + {VStr(id)}
    ensures VStr(id) in c ==> r[VStr(id)] == c[VStr(id)]["config" := VMap(spec)]
    ensures VStr(id) !in c ==> r[VStr(id)] == map["_id" := VStr(id), "config" := VMap(spec)]
    ensures forall other :: other in c && other != VStr(id) ==> r[other] == c[other]
    ensures WellKeyed(c) ==> WellKeyed(r)
  {
    var doc := if VStr(id) in c then c[VStr(id)] else map["_id" := VStr(id)];
    c[VStr(id) := doc["config" := VMap(spec)]]
  }

  /** collection.find_one({'_id': id}). */
  function FindOne(c: Collection, id: Value): (r: Option<Document>)
    ensures r.Some? <==> id in c
    ensures r.Some? ==> r.value == c[id]
  {
    if id in c then Some(c[id]) else None
  }

  /**
   * collection.update({'_id': id}, {'$push': {'version_history': entry}}): appends entry
   * to the matched record's history (starting one if the field is missing); a record
   * whose history is not an array refuses the push; no matching record, no change.
   */
  function PushVersion(c: Collection, id: Value, entry: Value): (r: Result<Collection>)
    ensures r.Err? <==> id in c && "version_history" in c[id] && !c[id]["version_history"].VList?
    ensures r.Err? ==> r.error == OperationFailure
    ensures r.Ok? ==> r.value.Keys == c.Keys && forall other :: other in c && other != id ==> r.value[other] == c[other]
    ensures r.Ok? && WellKeyed(c) ==> WellKeyed(r.value)
  {
    if id !in c then Ok(c)
    else
      var doc := c[id];
      if "version_history" !in doc then Ok(c[id := doc["version_history" := VList([entry])]])
      else match doc["version_history"]
        case VList(xs) => Ok(c[id := doc["version_history" := VList(xs + [entry])]])
        case _ => Err(OperationFailure)
  }

  /** The push extends the history by exactly the entry and touches no other field of the record. */
  lemma PushVersionAppends(c: Collection, id: Value, entry: Value, xs: seq<Value>)
    requires id in c && "version_history" in c[id] && c[id]["version_history"] == VList(xs)
    ensures PushVersion(c, id, entry).Ok?
    ensures PushVersion(c, id, entry).value[id]["version_history"] == VList(xs + [entry])
    ensures forall f :: f in c[id] && f != "version_history" ==> PushVersion(c, id, entry).value[id][f] == c[id][f]
    ensures PushVersion(c, id, entry).value[id].Keys == c[id].Keys
  {
  }

  /** A series of pushes, one driver call per entry, stopping at the first failure. */
  function PushAll(c: Collection, id: Value, entries: seq<Value>): Result<Collection>
    decreases |entries|
  {
    if entries == [] then Ok(c)
    else match PushVersion(c, id, entries[0])
      case Err(e) => Err(e)
      case Ok(c') => PushAll(c', id, entries[1..])
  }

  /** Pushes h1, h2, h3 onto a history xs leave xs + [h1, h2, h3]: the history is append-only and keeps call order. */
  lemma {:induction false} PushAllInOrder(c: Collection, id: Value, entries: seq<Value>, xs: seq<Value>)
    requires id in c && "version_history" in c[id] && c[id]["version_history"] == VList(xs)
    ensures PushAll(c, id, entries).Ok?
    ensures id in PushAll(c, id, entries).value && "version_history" in PushAll(c, id, entries).value[id]
    ensures PushAll(c, id, entries).value[id]["version_history"] == VList(xs + entries)
    ensures PushAll(c, id, entries).value.Keys == c.Keys
    ensures forall other :: other in c && other != id ==> PushAll(c, id, entries).value[other] == c[other]
    decreases |entries|
  {
    if entries != [] {
      PushVersionAppends(c, id, entries[0], xs);
      var c' := PushVersion(c, id, entries[0]).value;
      PushAllInOrder(c', id, entries[1..], xs + [entries[0]]);
      AppendFirst(xs, entries);
    }
  }

  /** Appending the first element and then the rest is appending the whole sequence. */
  lemma AppendFirst<T>(xs: seq<T>, ys: seq<T>)
    requires ys != []
    ensures xs + [ys[0]] + ys[1..] == xs + ys
  {
    assert [ys[0]] + ys[1..] == ys;
  }

  /** A record's `archive_metadata` as a map: empty when the field is absent (or not a map). */
  function MetadataOf(doc: Document): Document {
    if "archive_metadata" in doc && doc["archive_metadata"].VMap? then doc["archive_metadata"].fields else map[]
  }

  /**
   * One record after `$set` of `archive_metadata.<k>` for every key k of m: each supplied key
   * takes its value, every other metadata key and every other field keeps its value; an
   * absent field starts as an empty map; a field that is not a map refuses the `$set`.
   */
  function SetDocMetadata(doc: Document, m: Document): (r: Result<Document>)
    ensures r.Err? <==> "archive_metadata" in doc && !doc["archive_metadata"].VMap?
    ensures r.Err? ==> r.error == OperationFailure
    ensures r.Ok? ==> r.value.Keys == doc.Keys + {"archive_metadata"} && r.value["archive_metadata"].VMap?
    ensures r.Ok? ==> forall f :: f in doc && f != "archive_metadata" ==> r.value[f] == doc[f]
    ensures r.Ok? ==> MetadataOf(r.value).Keys == MetadataOf(doc).Keys + m.Keys
    ensures r.Ok? ==> forall k :: k in m ==> MetadataOf(r.value)[k] == m[k]
    ensures r.Ok? ==> forall k :: k in MetadataOf(doc) && k !in m ==> MetadataOf(r.value)[k] == MetadataOf(doc)[k]
  {
    if "archive_metadata" in doc && !doc["archive_metadata"].VMap? then Err(OperationFailure)
    else Ok(doc["archive_metadata" := VMap(MetadataOf(doc) + m)])
  }

  /** Assigning a key twice keeps the second value. */
  lemma Reassigned<K, V>(c: map<K, V>, k: K, a: V, b: V)
    ensures c[k := a][k := b] == c[k := b]
  {
  }

  /** Merging dicts one after another is merging their union. */
  lemma MergeAssociative<K, V>(a: map<K, V>, b: map<K, V>, c: map<K, V>)
    ensures a + b + c == a + (b + c)
  {
  }

  /** One more `$set` of a single key on top of the keys of m: the same as setting m[k := v] at once. */
  lemma SetDocMetadataStep(doc: Document, m: Document, k: string, v: Value)
    requires SetDocMetadata(doc, m).Ok?
    ensures SetDocMetadata(SetDocMetadata(doc, m).value, map[k := v]) == SetDocMetadata(doc, m[k := v])
  {
    var after := VMap(MetadataOf(doc) + m[k := v]);
    MergeAssociative(MetadataOf(doc), m, map[k := v]);
    assert m + map[k := v] == m[k := v];
    Reassigned(doc, "archive_metadata", VMap(MetadataOf(doc) + m), after);
  }

  /** Two rounds of `$set` act as one round with the union, the later round winning on shared keys. */
  lemma SetDocMetadataTwice(doc: Document, m1: Document, m2: Document)
    requires SetDocMetadata(doc, m1).Ok?
    ensures SetDocMetadata(SetDocMetadata(doc, m1).value, m2) == SetDocMetadata(doc, m1 + m2)
  {
    var after := VMap(MetadataOf(doc) + (m1 + m2));
    MergeAssociative(MetadataOf(doc), m1, m2);
    Reassigned(doc, "archive_metadata", VMap(MetadataOf(doc) + m1), after);
  }

  /**
   * _update_metadata's effect on the collection: the record with that `_id` gets every key
   * of m set; no matching record, no change; nothing to set, no call at all.
   */
  function SetMetadata(c: Collection, id: Value, m: Document): (r: Result<Collection>)
    ensures r.Err? <==> m != map[] && id in c && SetDocMetadata(c[id], m).Err?
    ensures r.Err? ==> r.error == OperationFailure
    ensures r.Ok? ==> r.value.Keys == c.Keys && forall other :: other in c && other != id ==> r.value[other] == c[other]
    ensures r.Ok? && id in c && m != map[] ==> r.value[id] == SetDocMetadata(c[id], m).value
    ensures r.Ok? && WellKeyed(c) ==> WellKeyed(r.value)
    ensures m == map[] || id !in c ==> r == Ok(c)
  {
    if id !in c || m == map[] then Ok(c)
    else match SetDocMetadata(c[id], m)
      case Err(e) => Err(e)
      case Ok(doc) => Ok(c[id := doc])
  }

  /** One `$set` of `archive_metadata.<k>` to v: SetMetadata of a single key. */
  function SetMetadataField(c: Collection, id: Value, k: string, v: Value): Result<Collection> {
    SetMetadata(c, id, map[k := v])
  }

  /** Setting the keys of m one more key at a time: the loop step of _update_metadata. */
  lemma SetMetadataStep(c: Collection, id: Value, m: Document, k: string, v: Value)
    requires SetMetadata(c, id, m).Ok? && m != map[]
    ensures SetMetadataField(SetMetadata(c, id, m).value, id, k, v) == SetMetadata(c, id, m[k := v])
  {
    if id in c {
      SetDocMetadataStep(c[id], m, k, v);
      var c1 := c[id := SetDocMetadata(c[id], m).value];
      var d2 := SetDocMetadata(c[id], m[k := v]).value;
      assert k in map[k := v] && k in m[k := v];
      assert SetMetadataField(c1, id, k, v) == Ok(c1[id := d2]);
      Reassigned(c, id, SetDocMetadata(c[id], m).value, d2);
    }
  }

  /** Two update_metadata calls act as one with the union, the later call winning on shared keys. */
  lemma SetMetadataLastWriteWins(c: Collection, id: Value, m1: Document, m2: Document)
    requires SetMetadata(c, id, m1).Ok?
    ensures SetMetadata(SetMetadata(c, id, m1).value, id, m2) == SetMetadata(c, id, m1 + m2)
  {
    if m1 == map[] {
      assert m1 + m2 == m2;
    } else if m2 == map[] {
      assert m1 + m2 == m1;
    } else if id in c {
      SetDocMetadataTwice(c[id], m1, m2);
      var d2 := SetDocMetadata(c[id], m1 + m2).value;
      Reassigned(c, id, SetDocMetadata(c[id], m1).value, d2);
    }
  }

  /** A field of the record with `_id` name: a bare KeyError when there is no record, KeyError(field) when it lacks the field. */
  function RecordField(c: Collection, name: string, field: string): (r: Result<Value>)
    ensures r.Ok? <==> VStr(name) in c && field in c[VStr(name)]
    ensures r.Ok? ==> r.value == c[VStr(name)][field]
    ensures VStr(name) !in c ==> r == Err(KeyError(""))
    ensures VStr(name) in c && field !in c[VStr(name)] ==> r == Err(KeyError(field))
  {
    match FindOne(c, VStr(name))
    case None => Err(KeyError(""))
    case Some(doc) => if field in doc then Ok(doc[field]) else Err(KeyError(field))
  }

  const SpecFields: set<string> := {"authority_name", "archive_path", "versioned"}

  /** _get_archive_spec: those of authority_name, archive_path and versioned present in the record. */
  function ArchiveSpec(c: Collection, name: string): (r: Result<Document>)
    ensures r.Ok? <==> VStr(name) in c
    ensures r.Err? ==> r.error == KeyError("")
    ensures r.Ok? ==> r.value.Keys == c[VStr(name)].Keys * SpecFields
    ensures r.Ok? ==> forall k :: k in r.value ==> r.value[k] == c[VStr(name)][k]
  {
    match FindOne(c, VStr(name))
    case None => Err(KeyError(""))
    case Some(doc) => Ok(map k | k in doc && k in SpecFields :: doc[k])
  }

  /**
   * _get_latest_hash over a `version_history` value: None for an empty history, the
   * `checksum` of the last entry otherwise; what Python raises when the value or its last
   * element has another shape.
   */
  function LastChecksum(history: Value): (r: Result<Option<Value>>)
    ensures history.VList? && history.items == [] ==> r == Ok(None)
    ensures history.VList? && history.items != [] && history.items[|history.items| - 1].VMap?
            && "checksum" in history.items[|history.items| - 1].fields
            ==> r == Ok(Some(history.items[|history.items| - 1].fields["checksum"]))
  {
    match history
    case VList(xs) =>
      if |xs| == 0 then Ok(None)
      else (match xs[|xs| - 1]
        case VMap(entry) => if "checksum" in entry then Ok(Some(entry["checksum"])) else Err(KeyError("checksum"))
        case _ => Err(TypeError))
    case VStr(s) => if |s| == 0 then Ok(None) else Err(TypeError)
    case VMap(m) => if |m| == 0 then Ok(None) else Err(KeyError("-1"))
    case _ => Err(TypeError)
  }

  /** _get_latest_hash(name): the history's last checksum, or the lookup's KeyError. */
  function LatestHash(c: Collection, name: string): Result<Option<Value>> {
    match RecordField(c, name, "version_history")
    case Err(e) => Err(e)
    case Ok(history) => LastChecksum(history)
  }

  /** After a push of an entry carrying a checksum, that checksum is the latest hash. */
  lemma PushThenLatestHash(c: Collection, name: string, entry: Document, xs: seq<Value>)
    requires VStr(name) in c && "version_history" in c[VStr(name)] && c[VStr(name)]["version_history"] == VList(xs)
    requires "checksum" in entry
    ensures PushVersion(c, VStr(name), VMap(entry)).Ok?
    ensures LatestHash(PushVersion(c, VStr(name), VMap(entry)).value, name) == Ok(Some(entry["checksum"]))
  {
    PushVersionAppends(c, VStr(name), VMap(entry), xs);
  }

  /** A freshly inserted record reads back, through _get_archive_spec, as its own spec fields. */
  lemma InsertedRecordSpec(c: Collection, rec: Document, name: string)
    requires "_id" in rec && rec["_id"] == VStr(name) && VStr(name) !in c
    ensures InsertOne(c, rec).Ok?
    ensures ArchiveSpec(InsertOne(c, rec).value, name) == Ok(map k | k in rec && k in SpecFields :: rec[k])
  {
  }
}
