/**
 * BaseDataManager together with its MongoDB backend, as one stateful object over an
 * in-memory database. The public operations (create_archive_table, delete_table,
 * set_required_*, update, update_metadata, create_archive, get_*) and the backend
 * primitives they call are methods and functions of one class; the database, the two
 * required-config caches and the lazily named spec collection are its fields.
 *
 * Whether the MongoDB server answers is fixed per manager (`reachable`); when it does
 * not, the first round trip of every operation (listing the collection names) fails.
 */
module MongoManager {
  import opened Values
  import opened MongoStore
  import BaseManager
  import Timestamp
  import Requirements

  function TableExists(name: string): string { "Table \"" + name + "\" already exists" }
  function TableNotFound(name: string): string { "Table \"" + name + "\" not found" }
  function ArchiveExists(name: string): string { "Archive \"" + name + "\" already exists" }
  function ArchiveNotFound(name: string): string { "Archive \"" + name + "\" not found" }
  /** pymongo's CollectionInvalid text for create_collection on an existing name. */
  function CollectionExists(name: string): string { "collection " + name + " already exists" }

  /** The spec document set_required_archive_metadata writes; the reader uses RequiredMetadataConfigId. */
  const RequiredArchiveMetadataId: string := "required_archive_metadata"

  /** The spec collection _create_spec_config leaves behind in a freshly created spec table. */
  function SeededSpecCollection(): (c: Collection)
    ensures c.Keys == {VStr(RequiredUserConfigId), VStr(RequiredMetadataConfigId)}
    ensures "config" in c[VStr(RequiredUserConfigId)] && c[VStr(RequiredUserConfigId)]["config"] == VMap(map[])
    ensures "config" in c[VStr(RequiredMetadataConfigId)] && c[VStr(RequiredMetadataConfigId)]["config"] == VMap(map[])
  {
    SeedIdsDistinct();
    map[][VStr(RequiredUserConfigId) := SpecSeed()[0]][VStr(RequiredMetadataConfigId) := SpecSeed()[1]]
  }

  /** Seeding an empty spec table succeeds and leaves exactly the seeded spec collection. */
  lemma SeedingEmptySpecTable()
    ensures InsertMany(map[], SpecSeed()) == (SeededSpecCollection(), None)
  {
    SpecSeedFresh(map[]);
  }

  /** Taking one more key out of the removed set puts its entry back. */
  lemma RemovedOneMore<K, V>(m: map<K, V>, todo: set<K>, k: K)
    requires k in todo && k in m
    ensures (m - todo)[k := m[k]] == m - (todo - {k})
  {
  }

  /** Removing no keys leaves the map as it is. */
  lemma RemovedNone<K, V>(m: map<K, V>)
    ensures m - {} == m
  {
  }

  /** Storing one entry in an empty map gives the one-entry map. */
  lemma EmptyUpdated<K, V>(m: map<K, V>, k: K, v: V)
    requires m == map[]
    ensures m[k := v] == map[k := v]
  {
  }

  class MongoDBManager {
    const tableName: string
    const specTableName: string
    const reachable: bool
    var db: Database
    var requiredUserConfigCache: Option<Document>
    var requiredArchiveMetadataCache: Option<Document>
    var specColl: Option<string>

    ghost predicate Valid()
      reads this`db
    {
      specTableName == BaseManager.SpecTableName(tableName) && DatabaseWellKeyed(db)
    }

    /** MongoDBManager(database_name, table_name): the selected database is `server`; nothing is cached yet. */
    constructor (tableName: string, reachable: bool, server: Database)
      requires DatabaseWellKeyed(server)
      ensures Valid()
      ensures this.tableName == tableName && this.reachable == reachable && db == server
      ensures requiredUserConfigCache == None && requiredArchiveMetadataCache == None && specColl == None
    {
      this.tableName := tableName;
      this.specTableName := BaseManager.SpecTableName(tableName);
      this.reachable := reachable;
      db := server;
      requiredUserConfigCache := None;
      requiredArchiveMetadataCache := None;
      specColl := None;
    }

    /** _get_table_names (behind catch_timeout): the database's collection names. */
    function TableNames(): (r: Result<set<string>>)
      reads this`db
      ensures r.Ok? <==> reachable
      ensures r.Ok? ==> r.value == db.Keys
      ensures r.Err? ==> r.error == ConnectionError(ConnectionMessage)
    {
      CatchTimeout(if reachable then Ok(db.Keys) else Err(ServerSelectionTimeout))
    }

    /** The `collection` property: this manager's archive table, or KeyError when it is not listed. */
    function ArchiveCollection(): (r: Result<Collection>)
      reads this`db
      ensures r.Ok? <==> reachable && tableName in db
      ensures r.Ok? ==> r.value == db[tableName]
      ensures !reachable ==> r == Err(ConnectionError(ConnectionMessage))
      ensures reachable && tableName !in db ==> r == Err(KeyError(TableNotFound(tableName)))
    {
      match TableNames()
      case Err(e) => Err(e)
      case Ok(names) => if tableName in names then Ok(db[tableName]) else Err(KeyError(TableNotFound(tableName)))
    }

    /** The `spec_collection` property: the paired spec table, or KeyError when it is not listed. */
    function SpecCollection(): (r: Result<Collection>)
      reads this`db
      ensures r.Ok? <==> reachable && specTableName in db
      ensures r.Ok? ==> r.value == db[specTableName]
      ensures !reachable ==> r == Err(ConnectionError(ConnectionMessage))
      ensures reachable && specTableName !in db ==> r == Err(KeyError(TableNotFound(specTableName)))
    {
      match TableNames()
      case Err(e) => Err(e)
      case Ok(names) => if specTableName in names then Ok(db[specTableName]) else Err(KeyError(TableNotFound(specTableName)))
    }

    // ---------------------------------------------------------------- tables

    /** _create_archive_table(name): refuses a listed `name`, but creates this manager's own table. */
    method BackendCreateArchiveTable(name: string) returns (r: Result<()>)
      requires Valid()
      modifies this`db
      ensures Valid()
      ensures !reachable ==> r == Err(ConnectionError(ConnectionMessage)) && db == old(db)
      ensures reachable && name in old(db) ==> r == Err(KeyError(TableExists(name))) && db == old(db)
      ensures reachable && name !in old(db) && tableName in old(db)
              ==> r == Err(CollectionInvalid(CollectionExists(tableName))) && db == old(db)
      ensures reachable && name !in old(db) && tableName !in old(db) ==> r == Ok(()) && db == old(db)[tableName := map[]]
    {
      var names := TableNames();
      if names.Err? {
        return Err(names.error);
      }
      if name in names.value {
        return Err(KeyError(TableExists(name)));
      }
      if tableName in db {
        return Err(CollectionInvalid(CollectionExists(tableName)));
      }
      db := db[tableName := map[]];
      r := Ok(());
    }

    /** _create_spec_table(name): ignores `name` and creates this manager's spec table unless it is listed. */
    method BackendCreateSpecTable(name: string) returns (r: Result<()>)
      requires Valid()
      modifies this`db
      ensures Valid()
      ensures !reachable ==> r == Err(ConnectionError(ConnectionMessage)) && db == old(db)
      ensures reachable && specTableName in old(db) ==> r == Err(KeyError(TableExists(specTableName))) && db == old(db)
      ensures reachable && specTableName !in old(db) ==> r == Ok(()) && db == old(db)[specTableName := map[]]
    {
      var names := TableNames();
      if names.Err? {
        return Err(names.error);
      }
      if specTableName in names.value {
        return Err(KeyError(TableExists(specTableName)));
      }
      db := db[specTableName := map[]];
      r := Ok(());
    }

    /**
     * _create_spec_config(name): names the spec collection after `name` the first time, then
     * inserts the two spec documents into this manager's spec table.
     */
    method BackendCreateSpecConfig(name: string) returns (r: Result<()>)
      requires Valid()
      modifies this`db, this`specColl
      ensures Valid()
      ensures specColl == if old(specColl).None? then Some(BaseManager.SpecTableName(name)) else old(specColl)
      ensures !reachable ==> r == Err(ConnectionError(ConnectionMessage)) && db == old(db)
      ensures reachable && specTableName !in old(db) ==> r == Err(KeyError(TableNotFound(specTableName))) && db == old(db)
      ensures reachable && specTableName in old(db)
              ==> db == old(db)[specTableName := InsertMany(old(db)[specTableName], SpecSeed()).0]
                  && r == (match InsertMany(old(db)[specTableName], SpecSeed()).1 case None => Ok(()) case Some(e) => Err(e))
    {
      if specColl.None? {
        specColl := Some(BaseManager.SpecTableName(name));
      }
      var spec := SpecCollection();
      if spec.Err? {
        return CatchTimeout(Err(spec.error));
      }
      var (seeded, failure) := InsertMany(spec.value, SpecSeed());
      db := db[specTableName := seeded];
      r := match failure case None => Ok(()) case Some(e) => Err(e);
    }

    /**
     * create_archive_table(name, raise_on_err): archive table, spec table, spec documents, in
     * that order, stopping at the first error; the lenient mode turns a KeyError into success.
     */
    method CreateArchiveTable(name: string, raiseOnErr: bool) returns (r: Result<()>)
      requires Valid()
      modifies this`db, this`specColl
      ensures Valid()
      ensures !reachable ==> r == Err(ConnectionError(ConnectionMessage)) && db == old(db) && specColl == old(specColl)
      ensures reachable && name in old(db)
              ==> r == (if raiseOnErr then Err(KeyError(TableExists(name))) else Ok(()))
                  && db == old(db) && specColl == old(specColl)
      ensures reachable && name !in old(db) && tableName in old(db)
              ==> r == Err(CollectionInvalid(CollectionExists(tableName))) && db == old(db) && specColl == old(specColl)
      ensures reachable && name !in old(db) && tableName !in old(db) && specTableName in old(db)
              ==> r == (if raiseOnErr then Err(KeyError(TableExists(specTableName))) else Ok(()))
                  && db == old(db)[tableName := map[]] && specColl == old(specColl)
      ensures reachable && name !in old(db) && tableName !in old(db) && specTableName !in old(db)
              ==> r == Ok(()) && db == old(db)[tableName := map[]][specTableName := SeededSpecCollection()]
                  && specColl == if old(specColl).None? then Some(BaseManager.SpecTableName(name)) else old(specColl)
    {
      BaseManager.SpecTableNameDistinct(tableName, tableName);
      SeedingEmptySpecTable();
      r := BackendCreateArchiveTable(name);
      if r.Ok? {
        r := BackendCreateSpecTable(name);
        if r.Ok? {
          r := BackendCreateSpecConfig(name);
        }
      }
      if !raiseOnErr && r.Err? && r.error.KeyError? {
        r := Ok(());
      }
    }

    /** _delete_table(name): drops a listed table, KeyError otherwise. */
    method BackendDeleteTable(name: string) returns (r: Result<()>)
      requires Valid()
      modifies this`db
      ensures Valid()
      ensures !reachable ==> r == Err(ConnectionError(ConnectionMessage)) && db == old(db)
      ensures reachable && name !in old(db) ==> r == Err(KeyError(TableNotFound(name))) && db == old(db)
      ensures reachable && name in old(db) ==> r == Ok(()) && db == old(db) - {name}
    {
      var names := TableNames();
      if names.Err? {
        return Err(names.error);
      }
      if name !in names.value {
        return Err(KeyError(TableNotFound(name)));
      }
      db := db - {name};
      r := Ok(());
    }

    /**
     * delete_table(name, raise_on_err): strict mode drops `name` and then its spec table;
     * lenient mode drops only `name` and treats a missing table as done. No name means this
     * manager's table.
     */
    method DeleteTable(name: Option<string>, raiseOnErr: bool) returns (r: Result<()>)
      requires Valid()
      modifies this`db
      ensures Valid()
      ensures var t := if name.Some? then name.value else tableName;
        && (!reachable ==> r == Err(ConnectionError(ConnectionMessage)) && db == old(db))
        && (reachable && t !in old(db) ==> r == (if raiseOnErr then Err(KeyError(TableNotFound(t))) else Ok(())) && db == old(db))
        && (reachable && t in old(db) && !raiseOnErr ==> r == Ok(()) && db == old(db) - {t})
        && (reachable && t in old(db) && raiseOnErr && BaseManager.SpecTableName(t) !in old(db)
            ==> r == Err(KeyError(TableNotFound(BaseManager.SpecTableName(t)))) && db == old(db) - {t})
        && (reachable && t in old(db) && raiseOnErr && BaseManager.SpecTableName(t) in old(db)
            ==> r == Ok(()) && db == old(db) - {t, BaseManager.SpecTableName(t)})
    {
      var t := if name.Some? then name.value else tableName;
      BaseManager.SpecTableNameDistinct(t, t);
      if raiseOnErr {
        r := BackendDeleteTable(t);
        if r.Ok? {
          r := BackendDeleteTable(BaseManager.SpecTableName(t));
          assert db == old(db) - {t} - {BaseManager.SpecTableName(t)};
        }
      } else {
        r := BackendDeleteTable(t);
        if r.Err? && r.error.KeyError? {
          r := Ok(());
        }
      }
    }

    // ---------------------------------------------------------------- spec documents

    /** update_spec_config / _update_spec_config: replace a spec document's config, creating it if absent. */
    method UpdateSpecConfig(documentName: string, spec: Document) returns (r: Result<()>)
      requires Valid()
      modifies this`db
      ensures Valid()
      ensures !reachable ==> r == Err(ConnectionError(ConnectionMessage)) && db == old(db)
      ensures reachable && specTableName !in old(db) ==> r == Err(KeyError(TableNotFound(specTableName))) && db == old(db)
      ensures reachable && specTableName in old(db)
              ==> r == Ok(()) && db == old(db)[specTableName := UpsertConfig(old(db)[specTableName], documentName, spec)]
    {
      var specs := SpecCollection();
      if specs.Err? {
        return Err(specs.error);
      }
      db := db[specTableName := UpsertConfig(specs.value, documentName, spec)];
      r := Ok(());
    }

    /** _get_required_user_config / _get_required_archive_metadata, with the property's dict check: the stored config. */
    function StoredRequiredConfig(documentName: string): (r: Result<Document>)
      reads this`db
      ensures r.Ok? ==> reachable && specTableName in db && VStr(documentName) in db[specTableName]
                        && "config" in db[specTableName][VStr(documentName)]
                        && db[specTableName][VStr(documentName)]["config"] == VMap(r.value)
      ensures reachable && specTableName in db && VStr(documentName) !in db[specTableName] ==> r == Err(TypeError)
      ensures reachable && specTableName in db && VStr(documentName) in db[specTableName]
              ==> var doc := db[specTableName][VStr(documentName)];
                  r == if "config" !in doc then Err(KeyError("config"))
                       else if doc["config"].VMap? then Ok(doc["config"].fields)
                       else Err(AssertionError)
      ensures !reachable ==> r == Err(ConnectionError(ConnectionMessage))
      ensures reachable && specTableName !in db ==> r == Err(KeyError(TableNotFound(specTableName)))
    {
      match SpecCollection()
      case Err(e) => Err(e)
      case Ok(specs) =>
        match FindOne(specs, VStr(documentName))
        case None => Err(TypeError)
        case Some(doc) =>
          if "config" !in doc then Err(KeyError("config"))
          else if doc["config"].VMap? then Ok(doc["config"].fields)
          else Err(AssertionError)
    }

    /** What the `required_user_config` property yields now: the cached value, or the stored one. */
    function RequiredUserConfigView(): Result<Document>
      reads this`db, this`requiredUserConfigCache
    {
      if requiredUserConfigCache.Some? then Ok(requiredUserConfigCache.value) else StoredRequiredConfig(RequiredUserConfigId)
    }

    /** What the `required_archive_metadata` property yields now: the cached value, or document 'required_metadata_config'. */
    function RequiredArchiveMetadataView(): Result<Document>
      reads this`db, this`requiredArchiveMetadataCache
    {
      if requiredArchiveMetadataCache.Some? then Ok(requiredArchiveMetadataCache.value)
      else StoredRequiredConfig(RequiredMetadataConfigId)
    }

    /** The `required_user_config` property: fetch on first use and cache; later reads return the cache. */
    method RequiredUserConfig() returns (r: Result<Document>)
      modifies this`requiredUserConfigCache
      ensures old(requiredUserConfigCache).Some? ==> r == Ok(old(requiredUserConfigCache).value)
                                                     && requiredUserConfigCache == old(requiredUserConfigCache)
      ensures old(requiredUserConfigCache).None? ==> r == StoredRequiredConfig(RequiredUserConfigId)
      ensures r == old(RequiredUserConfigView())
      ensures requiredUserConfigCache == if r.Ok? then Some(r.value) else None
    {
      if requiredUserConfigCache.None? {
        r := StoredRequiredConfig(RequiredUserConfigId);
        if r.Ok? {
          requiredUserConfigCache := Some(r.value);
        }
      } else {
        r := Ok(requiredUserConfigCache.value);
      }
    }

    /** The `required_archive_metadata` property: fetch document 'required_metadata_config' on first use and cache it. */
    method RequiredArchiveMetadata() returns (r: Result<Document>)
      modifies this`requiredArchiveMetadataCache
      ensures old(requiredArchiveMetadataCache).Some? ==> r == Ok(old(requiredArchiveMetadataCache).value)
                                                          && requiredArchiveMetadataCache == old(requiredArchiveMetadataCache)
      ensures old(requiredArchiveMetadataCache).None? ==> r == StoredRequiredConfig(RequiredMetadataConfigId)
      ensures r == old(RequiredArchiveMetadataView())
      ensures requiredArchiveMetadataCache == if r.Ok? then Some(r.value) else None
    {
      if requiredArchiveMetadataCache.None? {
        r := StoredRequiredConfig(RequiredMetadataConfigId);
        if r.Ok? {
          requiredArchiveMetadataCache := Some(r.value);
        }
      } else {
        r := Ok(requiredArchiveMetadataCache.value);
      }
    }

    /** set_required_user_config: replace document 'required_user_config', then drop the cached copy. */
    method SetRequiredUserConfig(userConfig: Document) returns (r: Result<()>)
      requires Valid()
      modifies this`db, this`requiredUserConfigCache
      ensures Valid()
      ensures !reachable ==> r == Err(ConnectionError(ConnectionMessage)) && db == old(db)
      ensures reachable && specTableName !in old(db) ==> r == Err(KeyError(TableNotFound(specTableName))) && db == old(db)
      ensures reachable && specTableName in old(db)
              ==> r == Ok(()) && db == old(db)[specTableName := UpsertConfig(old(db)[specTableName], RequiredUserConfigId, userConfig)]
      ensures requiredUserConfigCache == if r.Ok? then None else old(requiredUserConfigCache)
    {
      r := UpdateSpecConfig(RequiredUserConfigId, userConfig);
      if r.Ok? {
        requiredUserConfigCache := None;
      }
    }

    /**
     * set_required_archive_metadata: replace document 'required_archive_metadata' (which the
     * reader never consults), then drop the cached copy.
     */
    method SetRequiredArchiveMetadata(metadataConfig: Document) returns (r: Result<()>)
      requires Valid()
      modifies this`db, this`requiredArchiveMetadataCache
      ensures Valid()
      ensures !reachable ==> r == Err(ConnectionError(ConnectionMessage)) && db == old(db)
      ensures reachable && specTableName !in old(db) ==> r == Err(KeyError(TableNotFound(specTableName))) && db == old(db)
      ensures reachable && specTableName in old(db)
              ==> r == Ok(()) && db == old(db)[specTableName := UpsertConfig(old(db)[specTableName], RequiredArchiveMetadataId, metadataConfig)]
      ensures requiredArchiveMetadataCache == if r.Ok? then None else old(requiredArchiveMetadataCache)
    {
      r := UpdateSpecConfig(RequiredArchiveMetadataId, metadataConfig);
      if r.Ok? {
        requiredArchiveMetadataCache := None;
      }
    }

    // ---------------------------------------------------------------- versions and metadata

    /** _update (behind catch_timeout): push `entry` onto the record's version_history. */
    method BackendUpdate(archiveName: string, entry: Document) returns (r: Result<()>)
      requires Valid()
      modifies this`db
      ensures Valid()
      ensures match old(ArchiveCollection())
        case Err(e) => r == Err(e) && db == old(db)
        case Ok(c) => match PushVersion(c, VStr(archiveName), VMap(entry))
          case Err(e) => r == Err(e) && db == old(db)
          case Ok(c') => r == Ok(()) && db == old(db)[tableName := c']
    {
      var coll := ArchiveCollection();
      if coll.Err? {
        return CatchTimeout(Err(coll.error));
      }
      var pushed := PushVersion(coll.value, VStr(archiveName), VMap(entry));
      if pushed.Err? {
        return CatchTimeout(Err(pushed.error));
      }
      db := db[tableName := pushed.value];
      r := Ok(());
    }

    /**
     * update(archive_name, version_metadata): stamp the entry (overwriting `updated`,
     * stringifying `version`) and append it. The stamped entry is returned because the
     * source stamps the caller's dict in place.
     */
    method Update(archiveName: string, versionMetadata: Document, now: Timestamp.DateTime)
      returns (r: Result<()>, stamped: Document)
      requires Valid()
      modifies this`db
      ensures Valid()
      ensures stamped == BaseManager.StampVersion(versionMetadata, now)
      ensures match old(ArchiveCollection())
        case Err(e) => r == Err(e) && db == old(db)
        case Ok(c) => match PushVersion(c, VStr(archiveName), VMap(stamped))
          case Err(e) => r == Err(e) && db == old(db)
          case Ok(c') => r == Ok(()) && db == old(db)[tableName := c']
    {
      stamped := BaseManager.StampVersion(versionMetadata, now);
      r := BackendUpdate(archiveName, stamped);
    }

    /**
     * update_metadata / _update_metadata: one `$set` of `archive_metadata.<key>` per supplied
     * key, each through a fresh lookup of the archive table.
     */
    method UpdateMetadata(archiveName: string, archiveMetadata: Document) returns (r: Result<()>)
      requires Valid()
      modifies this`db
      ensures Valid()
      ensures archiveMetadata == map[] ==> r == Ok(()) && db == old(db)
      ensures archiveMetadata != map[] ==> match old(ArchiveCollection())
        case Err(e) => r == Err(e) && db == old(db)
        case Ok(c) => match SetMetadata(c, VStr(archiveName), archiveMetadata)
          case Err(e) => r == Err(e) && db == old(db)
          case Ok(c') => r == Ok(()) && db == old(db)[tableName := c']
    {
      var id := VStr(archiveName);
      var todo := archiveMetadata.Keys;
      var done: Document := map[];
      while todo != {}
        invariant todo <= archiveMetadata.Keys
        invariant done == archiveMetadata - todo
        invariant Valid()
        invariant done == map[] ==> db == old(db)
        invariant done != map[] ==> && old(ArchiveCollection()).Ok?
                                    && SetMetadata(old(db)[tableName], id, done).Ok?
                                    && db == old(db)[tableName := SetMetadata(old(db)[tableName], id, done).value]
        decreases todo
      {
        var k :| k in todo;
        var coll := ArchiveCollection();
        if coll.Err? {
          return Err(coll.error);
        }
        var step := SetMetadataField(coll.value, id, k, archiveMetadata[k]);
        if done != map[] {
          SetMetadataStep(old(db)[tableName], id, done, k, archiveMetadata[k]);
          if step.Ok? {
            Reassigned(old(db), tableName, coll.value, step.value);
          }
        } else {
          EmptyUpdated(done, k, archiveMetadata[k]);
        }
        if step.Err? {
          return Err(step.error);
        }
        db := db[tableName := step.value];
        RemovedOneMore(archiveMetadata, todo, k);
        done := done[k := archiveMetadata[k]];
        todo := todo - {k};
      }
      RemovedNone(archiveMetadata);
      r := Ok(());
    }

    // ---------------------------------------------------------------- archives

    /** _create_archive (behind catch_timeout): insert the record; a taken `_id` is KeyError('Archive "<name>" already exists'). */
    method BackendCreateArchive(archiveName: string, record: Document) returns (r: Result<()>)
      requires Valid() && "_id" in record
      modifies this`db
      ensures Valid()
      ensures match old(ArchiveCollection())
        case Err(e) => r == Err(e) && db == old(db)
        case Ok(c) =>
          if record["_id"] in c then r == Err(KeyError(ArchiveExists(archiveName))) && db == old(db)
          else r == Ok(()) && db == old(db)[tableName := c[record["_id"] := record]]
    {
      var coll := ArchiveCollection();
      if coll.Err? {
        return CatchTimeout(Err(coll.error));
      }
      var inserted := InsertOne(coll.value, record);
      if inserted.Err? {
        return Err(KeyError(ArchiveExists(archiveName)));
      }
      db := db[tableName := inserted.value];
      r := Ok(());
    }

    /** _create_if_not_exists: _create_archive with every KeyError swallowed. */
    method BackendCreateIfNotExists(archiveName: string, record: Document) returns (r: Result<()>)
      requires Valid() && "_id" in record
      modifies this`db
      ensures Valid()
      ensures !reachable ==> r == Err(ConnectionError(ConnectionMessage)) && db == old(db)
      ensures reachable && tableName !in old(db) ==> r == Ok(()) && db == old(db)
      ensures reachable && tableName in old(db) && record["_id"] in old(db)[tableName] ==> r == Ok(()) && db == old(db)
      ensures reachable && tableName in old(db) && record["_id"] !in old(db)[tableName]
              ==> r == Ok(()) && db == old(db)[tableName := old(db)[tableName][record["_id"] := record]]
    {
      r := BackendCreateArchive(archiveName, record);
      if r.Err? && r.error.KeyError? {
        r := Ok(());
      }
    }

    /** _get_archive_listing (behind catch_timeout): the full record with `_id` archive_name, if any. */
    function ArchiveListing(archiveName: string): (r: Result<Option<Document>>)
      reads this`db
      ensures r.Ok? <==> reachable && tableName in db
      ensures r.Ok? ==> r.value == FindOne(db[tableName], VStr(archiveName))
    {
      CatchTimeout(match ArchiveCollection()
        case Err(e) => Err(e)
        case Ok(c) => Ok(FindOne(c, VStr(archiveName))))
    }

    /** _get_archive_spec: a bare KeyError for a missing record, else its authority_name, archive_path, versioned. */
    function GetArchiveSpec(archiveName: string): (r: Result<Document>)
      reads this`db
      ensures r.Ok? <==> reachable && tableName in db && VStr(archiveName) in db[tableName]
      ensures r.Ok? ==> r == ArchiveSpec(db[tableName], archiveName)
      ensures reachable && tableName in db && VStr(archiveName) !in db[tableName] ==> r == Err(KeyError(""))
      ensures reachable && tableName !in db ==> r == Err(KeyError(TableNotFound(tableName)))
      ensures !reachable ==> r == Err(ConnectionError(ConnectionMessage))
    {
      match ArchiveListing(archiveName)
      case Err(e) => Err(e)
      case Ok(_) => ArchiveSpec(db[tableName], archiveName)
    }

    /**
     * get_archive: the backend spec plus `archive_name`; any KeyError on the way becomes
     * KeyError('Archive "<name>" not found').
     */
    function GetArchive(archiveName: string): (r: Result<Document>)
      reads this`db
      ensures r.Ok? <==> reachable && tableName in db && VStr(archiveName) in db[tableName]
      ensures r.Ok? ==> && r.value.Keys == (db[tableName][VStr(archiveName)].Keys * SpecFields) + {"archive_name"}
                        && r.value["archive_name"] == VStr(archiveName)
                        && forall k :: k in SpecFields && k in db[tableName][VStr(archiveName)]
                                       ==> r.value[k] == db[tableName][VStr(archiveName)][k]
      ensures reachable && r.Err? ==> r.error == KeyError(ArchiveNotFound(archiveName))
      ensures !reachable ==> r == Err(ConnectionError(ConnectionMessage))
    {
      match GetArchiveSpec(archiveName)
      case Ok(spec) => Ok(spec["archive_name" := VStr(archiveName)])
      case Err(e) => if e.KeyError? then Err(KeyError(ArchiveNotFound(archiveName))) else Err(e)
    }

    /** _get_authority_name: the record's authority_name. */
    function GetAuthorityName(archiveName: string): (r: Result<Value>)
      reads this`db
      ensures r.Ok? <==> reachable && tableName in db && VStr(archiveName) in db[tableName]
                         && "authority_name" in db[tableName][VStr(archiveName)]
      ensures r.Ok? ==> r.value == db[tableName][VStr(archiveName)]["authority_name"]
      ensures reachable && tableName in db && VStr(archiveName) !in db[tableName] ==> r == Err(KeyError(""))
      ensures reachable && tableName in db && VStr(archiveName) in db[tableName] && "authority_name" !in db[tableName][VStr(archiveName)]
              ==> r == Err(KeyError("authority_name"))
    {
      match ArchiveListing(archiveName)
      case Err(e) => Err(e)
      case Ok(_) => RecordField(db[tableName], archiveName, "authority_name")
    }

    /** _get_archive_path: the record's archive_path. */
    function GetArchivePath(archiveName: string): (r: Result<Value>)
      reads this`db
      ensures r.Ok? <==> reachable && tableName in db && VStr(archiveName) in db[tableName]
                         && "archive_path" in db[tableName][VStr(archiveName)]
      ensures r.Ok? ==> r.value == db[tableName][VStr(archiveName)]["archive_path"]
      ensures reachable && tableName in db && VStr(archiveName) !in db[tableName] ==> r == Err(KeyError(""))
      ensures reachable && tableName in db && VStr(archiveName) in db[tableName] && "archive_path" !in db[tableName][VStr(archiveName)]
              ==> r == Err(KeyError("archive_path"))
    {
      match ArchiveListing(archiveName)
      case Err(e) => Err(e)
      case Ok(_) => RecordField(db[tableName], archiveName, "archive_path")
    }

    /** get_metadata / _get_archive_metadata: the record's archive_metadata. */
    function GetMetadata(archiveName: string): (r: Result<Value>)
      reads this`db
      ensures r.Ok? <==> reachable && tableName in db && VStr(archiveName) in db[tableName]
                         && "archive_metadata" in db[tableName][VStr(archiveName)]
      ensures r.Ok? ==> r.value == db[tableName][VStr(archiveName)]["archive_metadata"]
      ensures reachable && tableName in db && VStr(archiveName) !in db[tableName] ==> r == Err(KeyError(""))
    {
      match ArchiveListing(archiveName)
      case Err(e) => Err(e)
      case Ok(_) => RecordField(db[tableName], archiveName, "archive_metadata")
    }

    /** get_version_history / _get_version_history: the record's version_history. */
    function GetVersionHistory(archiveName: string): (r: Result<Value>)
      reads this`db
      ensures r.Ok? <==> reachable && tableName in db && VStr(archiveName) in db[tableName]
                         && "version_history" in db[tableName][VStr(archiveName)]
      ensures r.Ok? ==> r.value == db[tableName][VStr(archiveName)]["version_history"]
      ensures reachable && tableName in db && VStr(archiveName) !in db[tableName] ==> r == Err(KeyError(""))
    {
      match ArchiveCollection()
      case Err(e) => Err(e)
      case Ok(c) => RecordField(c, archiveName, "version_history")
    }

    /** get_latest_hash / _get_latest_hash: None for an empty history, else the last entry's checksum. */
    function GetLatestHash(archiveName: string): (r: Result<Option<Value>>)
      reads this`db
      ensures reachable && tableName in db && VStr(archiveName) in db[tableName]
              && "version_history" in db[tableName][VStr(archiveName)]
              ==> r == LastChecksum(db[tableName][VStr(archiveName)]["version_history"])
      ensures reachable && tableName in db && VStr(archiveName) !in db[tableName] ==> r == Err(KeyError(""))
      ensures !reachable ==> r == Err(ConnectionError(ConnectionMessage))
    {
      match ArchiveCollection()
      case Err(e) => Err(e)
      case Ok(c) => LatestHash(c, archiveName)
    }

    /** delete_archive_record / _delete_archive_record: remove the record with that `_id`, if any. */
    method DeleteArchiveRecord(archiveName: string) returns (r: Result<()>)
      requires Valid()
      modifies this`db
      ensures Valid()
      ensures match old(ArchiveCollection())
        case Err(e) => r == Err(e) && db == old(db)
        case Ok(c) => r == Ok(()) && db == old(db)[tableName := c - {VStr(archiveName)}]
    {
      var coll := ArchiveCollection();
      if coll.Err? {
        return Err(coll.error);
      }
      db := db[tableName := coll.value - {VStr(archiveName)}];
      r := Ok(());
    }

    /** _get_archive_names: the `_id` of every record in the archive table. */
    function ArchiveNames(): (r: Result<set<Value>>)
      reads this`db
      ensures r.Ok? <==> reachable && tableName in db
      ensures r.Ok? ==> r.value == db[tableName].Keys
    {
      match ArchiveCollection()
      case Err(e) => Err(e)
      case Ok(c) => Ok(c.Keys)
    }

    /** _get_document_count: the number of spec documents. */
    function SpecDocumentCount(): (r: Result<nat>)
      reads this`db
      ensures r.Ok? <==> reachable && specTableName in db
      ensures r.Ok? ==> r.value == |db[specTableName]|
    {
      match SpecCollection()
      case Err(e) => Err(e)
      case Ok(c) => Ok(|c|)
    }

    /** _get_spec_documents: every spec document (its argument is ignored). */
    function SpecDocuments(name: string): (r: Result<set<Document>>)
      reads this`db
      ensures r.Ok? <==> reachable && specTableName in db
      ensures r.Ok? ==> r.value == db[specTableName].Values
    {
      match SpecCollection()
      case Err(e) => Err(e)
      case Ok(c) => Ok(c.Values)
    }

    /** create_archive's check of user_config passes: the required user config is readable and (without the helper) covered. */
    predicate UserConfigAccepted(userConfig: Document, helper: bool)
      reads this`db, this`requiredUserConfigCache
    {
      RequiredUserConfigView().Ok? && (helper || RequiredUserConfigView().value.Keys <= userConfig.Keys)
    }

    /** create_archive's check of the metadata passes: the required archive metadata is readable and (without the helper) covered. */
    predicate MetadataAccepted(metadata: Document, helper: bool)
      reads this`db, this`requiredArchiveMetadataCache
    {
      RequiredArchiveMetadataView().Ok? && (helper || RequiredArchiveMetadataView().value.Keys <= metadata.Keys)
    }

    /** The metadata half of create_archive's checks: read the required archive metadata, then check_requirements. */
    method CheckMetadataRequirements(metadata: Document, helper: bool, answer: (string, Value) -> Value)
      returns (r: Result<Document>)
      modifies this`requiredArchiveMetadataCache
      ensures requiredArchiveMetadataCache
              == if old(RequiredArchiveMetadataView()).Ok? then Some(old(RequiredArchiveMetadataView()).value) else None
      ensures r.Ok? <==> old(MetadataAccepted(metadata, helper))
      ensures r.Ok? ==> r.value == if helper then Requirements.Populated(metadata, old(RequiredArchiveMetadataView()).value, answer)
                                   else metadata
      ensures old(RequiredArchiveMetadataView()).Err? ==> r == Err(old(RequiredArchiveMetadataView()).error)
      ensures old(RequiredArchiveMetadataView()).Ok? && !old(MetadataAccepted(metadata, helper))
              ==> && r.Err? && r.error.MissingRequirement?
                  && r.error.key in old(RequiredArchiveMetadataView()).value && r.error.key !in metadata
                  && r.error.description == old(RequiredArchiveMetadataView()).value[r.error.key]
    {
      var requiredMetadata := RequiredArchiveMetadata();
      if requiredMetadata.Err? {
        return Err(requiredMetadata.error);
      }
      r := Requirements.CheckRequirements(metadata, requiredMetadata.value, helper, answer);
    }

    /**
     * The validation half of create_archive: user_config against the required user config,
     * then the archive metadata against the required archive metadata, each read through its
     * caching property. Ok carries the (possibly helper-filled) metadata and user_config.
     */
    method CheckArchiveRequirements(metadata: Document, userConfig: Document, helper: bool,
                                    answer: (string, Value) -> Value)
      returns (r: Result<(Document, Document)>)
      modifies this`requiredUserConfigCache, this`requiredArchiveMetadataCache
      ensures requiredUserConfigCache
              == if old(RequiredUserConfigView()).Ok? then Some(old(RequiredUserConfigView()).value) else None
      ensures requiredArchiveMetadataCache
              == if !old(UserConfigAccepted(userConfig, helper)) then old(requiredArchiveMetadataCache)
                 else if old(RequiredArchiveMetadataView()).Ok? then Some(old(RequiredArchiveMetadataView()).value)
                 else None
      ensures r.Ok? <==> old(UserConfigAccepted(userConfig, helper)) && old(MetadataAccepted(metadata, helper))
      ensures r.Ok? ==> r.value == if helper
                                   then (Requirements.Populated(metadata, old(RequiredArchiveMetadataView()).value, answer),
                                         Requirements.Populated(userConfig, old(RequiredUserConfigView()).value, answer))
                                   else (metadata, userConfig)
      ensures old(RequiredUserConfigView()).Err? ==> r == Err(old(RequiredUserConfigView()).error)
      ensures old(UserConfigAccepted(userConfig, helper)) && old(RequiredArchiveMetadataView()).Err?
              ==> r == Err(old(RequiredArchiveMetadataView()).error)
      ensures old(RequiredUserConfigView()).Ok? && !old(UserConfigAccepted(userConfig, helper))
              ==> && r.Err? && r.error.MissingRequirement?
                  && r.error.key in old(RequiredUserConfigView()).value && r.error.key !in userConfig
                  && r.error.description == old(RequiredUserConfigView()).value[r.error.key]
      ensures old(UserConfigAccepted(userConfig, helper)) && old(RequiredArchiveMetadataView()).Ok?
              && !old(MetadataAccepted(metadata, helper))
              ==> && r.Err? && r.error.MissingRequirement?
                  && r.error.key in old(RequiredArchiveMetadataView()).value && r.error.key !in metadata
                  && r.error.description == old(RequiredArchiveMetadataView()).value[r.error.key]
    {
      var required := RequiredUserConfig();
      if required.Err? {
        return Err(required.error);
      }
      var user := Requirements.CheckRequirements(userConfig, required.value, helper, answer);
      if user.Err? {
        return Err(user.error);
      }
      var meta := CheckMetadataRequirements(metadata, helper, answer);
      if meta.Err? {
        return Err(meta.error);
      }
      r := Ok((meta.value, user.value));
    }

    /** The persistence half of create_archive: insert (strict) or insert unless present (lenient), then get_archive. */
    method PersistArchive(archiveName: string, record: Document, raiseOnErr: bool) returns (r: Result<Document>)
      requires Valid() && "_id" in record
      modifies this`db
      ensures Valid()
      ensures !reachable ==> r == Err(ConnectionError(ConnectionMessage)) && db == old(db)
      ensures reachable && tableName !in old(db)
              ==> db == old(db) && r == if raiseOnErr then Err(KeyError(TableNotFound(tableName))) else GetArchive(archiveName)
      ensures reachable && tableName in old(db) && record["_id"] in old(db)[tableName]
              ==> db == old(db) && r == if raiseOnErr then Err(KeyError(ArchiveExists(archiveName))) else GetArchive(archiveName)
      ensures reachable && tableName in old(db) && record["_id"] !in old(db)[tableName]
              ==> db == old(db)[tableName := old(db)[tableName][record["_id"] := record]] && r == GetArchive(archiveName)
    {
      var persisted: Result<()>;
      if raiseOnErr {
        persisted := BackendCreateArchive(archiveName, record);
      } else {
        persisted := BackendCreateIfNotExists(archiveName, record);
      }
      if persisted.Err? {
        return Err(persisted.error);
      }
      r := GetArchive(archiveName);
    }

    /**
     * create_archive: validate, build the record, persist it, return get_archive. The ghost
     * `record` is the record handed to the store, present exactly when validation passed.
     */
    method CreateArchive(archiveName: string, authorityName: string, archivePath: string, versioned: bool,
                         raiseOnErr: bool, metadata: Document, userConfig: Document, helper: bool,
                         answer: (string, Value) -> Value, now: Timestamp.DateTime)
      returns (r: Result<Document>, ghost record: Option<Document>)
      requires Valid()
      modifies this`db, this`requiredUserConfigCache, this`requiredArchiveMetadataCache
      ensures Valid()
      // both required configs are read through their caching properties
      ensures requiredUserConfigCache
              == if old(RequiredUserConfigView()).Ok? then Some(old(RequiredUserConfigView()).value) else None
      ensures requiredArchiveMetadataCache
              == if !old(UserConfigAccepted(userConfig, helper)) then old(requiredArchiveMetadataCache)
                 else if old(RequiredArchiveMetadataView()).Ok? then Some(old(RequiredArchiveMetadataView()).value)
                 else None
      // validation happens before any write
      ensures record.Some? <==> old(UserConfigAccepted(userConfig, helper)) && old(MetadataAccepted(metadata, helper))
      ensures record.None? ==> r.Err? && db == old(db)
      ensures old(RequiredUserConfigView()).Err? ==> r == Err(old(RequiredUserConfigView()).error)
      ensures old(UserConfigAccepted(userConfig, helper)) && old(RequiredArchiveMetadataView()).Err?
              ==> r == Err(old(RequiredArchiveMetadataView()).error)
      ensures old(RequiredUserConfigView()).Ok? && !old(UserConfigAccepted(userConfig, helper))
              ==> && r.Err? && r.error.MissingRequirement?
                  && r.error.key in old(RequiredUserConfigView()).value && r.error.key !in userConfig
                  && r.error.description == old(RequiredUserConfigView()).value[r.error.key]
      ensures old(UserConfigAccepted(userConfig, helper)) && old(RequiredArchiveMetadataView()).Ok?
              && !old(MetadataAccepted(metadata, helper))
              ==> && r.Err? && r.error.MissingRequirement?
                  && r.error.key in old(RequiredArchiveMetadataView()).value && r.error.key !in metadata
                  && r.error.description == old(RequiredArchiveMetadataView()).value[r.error.key]
      // the record handed to the store
      ensures record.Some?
              ==> record.value == BaseManager.ArchiveRecord(archiveName, authorityName, archivePath, versioned,
                                    if helper then Requirements.Populated(metadata, old(RequiredArchiveMetadataView()).value, answer)
                                    else metadata,
                                    if helper then Requirements.Populated(userConfig, old(RequiredUserConfigView()).value, answer)
                                    else userConfig,
                                    now)
      // what persisting it does
      ensures record.Some? && !reachable ==> r == Err(ConnectionError(ConnectionMessage)) && db == old(db)
      ensures record.Some? && reachable && tableName !in old(db)
              ==> db == old(db) && r == if raiseOnErr then Err(KeyError(TableNotFound(tableName))) else GetArchive(archiveName)
      ensures record.Some? && reachable && tableName in old(db) && record.value["_id"] in old(db)[tableName]
              ==> db == old(db) && r == if raiseOnErr then Err(KeyError(ArchiveExists(archiveName))) else GetArchive(archiveName)
      ensures record.Some? && reachable && tableName in old(db) && record.value["_id"] !in old(db)[tableName]
              ==> db == old(db)[tableName := old(db)[tableName][record.value["_id"] := record.value]] && r == GetArchive(archiveName)
      ensures r.Ok? ==> record.Some? && r == GetArchive(archiveName)
    {
      var checked := CheckArchiveRequirements(metadata, userConfig, helper, answer);
      if checked.Err? {
        return Err(checked.error), None;
      }
      var (meta, user) := checked.value;
      var built := BaseManager.ArchiveRecord(archiveName, authorityName, archivePath, versioned, meta, user, now);
      record := Some(built);
      r := PersistArchive(archiveName, built, raiseOnErr);
    }
  }
}
