/**
 * End-to-end uses of a MongoDBManager against a fresh, reachable server: each method
 * drives the public operations in the order a client would and states what it observes.
 */
module Scenarios {
  import opened Values
  import opened MongoStore
  import opened MongoManager
  import Timestamp
  import BaseManager

  const Table: string := "archives"

  /** The spec fields get_archive reports for a record created without user_config overrides. */
  function CreatedSpec(name: string, authority: string, path: string, versioned: bool): Document {
    map["authority_name" := VStr(authority), "archive_path" := VStr(path),
        "versioned" := VBool(versioned), "archive_name" := VStr(name)]
  }

  /** A manager over `server` whose tables were just created (create_archive_table, strict). */
  method SetUp() returns (m: MongoDBManager)
    ensures fresh(m) && m.Valid() && m.tableName == Table && m.reachable
    ensures m.db == map[Table := map[], BaseManager.SpecTableName(Table) := SeededSpecCollection()]
    ensures m.requiredUserConfigCache == None && m.requiredArchiveMetadataCache == None
  {
    m := new MongoDBManager(Table, true, map[]);
    var created := m.CreateArchiveTable(Table, true);
    assert created == Ok(());
  }

  /** Two dicts with the same keys and the same value under each key are equal. */
  lemma SameEntries<K, V>(a: map<K, V>, b: map<K, V>)
    requires a.Keys == b.Keys && forall k :: k in a ==> a[k] == b[k]
    ensures a == b
  {
  }

  /** The spec fields of a record create_archive built with a user_config that leaves them alone. */
  lemma CreatedRecordSpecFields(name: string, authority: string, path: string, versioned: bool,
                                metadata: Document, userConfig: Document, now: Timestamp.DateTime)
    requires userConfig.Keys !! SpecFields
    ensures var rec := BaseManager.ArchiveRecord(name, authority, path, versioned, metadata, userConfig, now);
            && rec.Keys * SpecFields == SpecFields
            && rec["authority_name"] == VStr(authority)
            && rec["archive_path"] == VStr(path)
            && rec["versioned"] == VBool(versioned)
  {
    var rec := BaseManager.ArchiveRecord(name, authority, path, versioned, metadata, userConfig, now);
    assert SpecFields <= BaseManager.RecordFields;
    assert "authority_name" !in userConfig && "archive_path" !in userConfig && "versioned" !in userConfig;
  }

  /** get_archive of a record create_archive stored with a user_config that leaves `_id` and the spec fields alone. */
  lemma GetCreatedArchive(m: MongoDBManager, name: string, authority: string, path: string, versioned: bool,
                          metadata: Document, userConfig: Document, now: Timestamp.DateTime)
    requires m.reachable && m.tableName in m.db && VStr(name) in m.db[m.tableName]
    requires "_id" !in userConfig && userConfig.Keys !! SpecFields
    requires m.db[m.tableName][VStr(name)]
             == BaseManager.ArchiveRecord(name, authority, path, versioned, metadata, userConfig, now)
    ensures m.GetArchive(name) == Ok(CreatedSpec(name, authority, path, versioned))
  {
    CreatedRecordSpecFields(name, authority, path, versioned, metadata, userConfig, now);
    GetArchiveOfSpec(m, name, authority, path, versioned);
  }

  /** get_archive of a stored record holding all three spec fields with the given values. */
  lemma GetArchiveOfSpec(m: MongoDBManager, name: string, authority: string, path: string, versioned: bool)
    requires m.reachable && m.tableName in m.db && VStr(name) in m.db[m.tableName]
    requires var rec := m.db[m.tableName][VStr(name)];
             && rec.Keys * SpecFields == SpecFields
             && rec["authority_name"] == VStr(authority)
             && rec["archive_path"] == VStr(path)
             && rec["versioned"] == VBool(versioned)
    ensures m.GetArchive(name) == Ok(CreatedSpec(name, authority, path, versioned))
  {
    var rec := m.db[m.tableName][VStr(name)];
    var r := m.GetArchive(name);
    var expected := CreatedSpec(name, authority, path, versioned);
    assert r.Ok? && r.value.Keys == expected.Keys;
    assert r.value["authority_name"] == rec["authority_name"];
    assert r.value["archive_path"] == rec["archive_path"];
    assert r.value["versioned"] == rec["versioned"];
    SameEntries(r.value, expected);
  }

  /** create_archive(name, authority, path) with nothing required and no metadata or user_config. */
  method PlainCreate(m: MongoDBManager, name: string, authority: string, path: string, raiseOnErr: bool,
                     now: Timestamp.DateTime)
    returns (r: Result<Document>)
    requires m.Valid() && m.reachable && m.tableName == Table && Table in m.db
    requires m.RequiredUserConfigView() == Ok(map[]) && m.RequiredArchiveMetadataView() == Ok(map[])
    modifies m`db, m`requiredUserConfigCache, m`requiredArchiveMetadataCache
    ensures m.Valid() && Table in m.db
    ensures m.requiredUserConfigCache == Some(map[]) && m.requiredArchiveMetadataCache == Some(map[])
    ensures VStr(name) !in old(m.db[Table])
            ==> m.db == old(m.db)[Table := old(m.db[Table])[VStr(name) := BaseManager.ArchiveRecord(name, authority, path, true, map[], map[], now)]]
    ensures VStr(name) in old(m.db[Table]) ==> m.db == old(m.db)
    ensures VStr(name) in old(m.db[Table]) && raiseOnErr ==> r == Err(KeyError(ArchiveExists(name)))
    ensures !(VStr(name) in old(m.db[Table]) && raiseOnErr) ==> r == m.GetArchive(name)
  {
    ghost var record;
    r, record := m.CreateArchive(name, authority, path, true, raiseOnErr, map[], map[], false, (k, d) => VNull, now);
    assert record.value["_id"] == VStr(name);
  }

  /** With nothing required, create_archive followed by get_archive yields exactly the spec fields and the name. */
  method CreateThenGet(name: string, authority: string, path: string, now: Timestamp.DateTime)
    returns (r: Result<Document>)
    ensures r == Ok(CreatedSpec(name, authority, path, true))
  {
    var m := SetUp();
    assert m.RequiredUserConfigView() == Ok(map[]);
    assert m.RequiredArchiveMetadataView() == Ok(map[]);
    r := PlainCreate(m, name, authority, path, true, now);
    GetCreatedArchive(m, name, authority, path, true, map[], map[], now);
  }

  /** A manager whose archive table holds the one record create_archive made for `name` (no requirements, no extras). */
  method WithArchive(name: string, authority: string, now: Timestamp.DateTime) returns (m: MongoDBManager)
    ensures fresh(m) && m.Valid() && m.tableName == Table && m.reachable
    ensures Table in m.db
    ensures m.db[Table] == map[VStr(name) := BaseManager.ArchiveRecord(name, authority, name, true, map[], map[], now)]
    ensures m.requiredUserConfigCache == Some(map[]) && m.requiredArchiveMetadataCache == Some(map[])
  {
    m := SetUp();
    assert m.RequiredUserConfigView() == Ok(map[]);
    assert m.RequiredArchiveMetadataView() == Ok(map[]);
    var r := PlainCreate(m, name, authority, name, true, now);
  }

  /** The entry update() appends for a version whose checksum is h. */
  function Stamped(h: string, now: Timestamp.DateTime): Value {
    VMap(BaseManager.StampVersion(map["checksum" := VStr(h)], now))
  }

  /** The record's version history, when it is a list. */
  predicate HistoryIs(m: MongoDBManager, name: string, xs: seq<Value>)
    reads m
  {
    m.tableName in m.db && VStr(name) in m.db[m.tableName] && "version_history" in m.db[m.tableName][VStr(name)]
    && m.db[m.tableName][VStr(name)]["version_history"] == VList(xs)
  }

  /** update(name, {'checksum': h}) on an existing record appends the stamped entry. */
  method UpdateChecksum(m: MongoDBManager, name: string, h: string, now: Timestamp.DateTime, ghost xs: seq<Value>)
    requires m.Valid() && m.reachable && HistoryIs(m, name, xs)
    modifies m
    ensures m.Valid() && HistoryIs(m, name, xs + [Stamped(h, now)])
  {
    PushVersionAppends(m.db[m.tableName], VStr(name), Stamped(h, now), xs);
    var r, stamped := m.Update(name, map["checksum" := VStr(h)], now);
  }

  /** Appending three entries one at a time to an empty history lists them in that order. */
  lemma Three<T>(a: T, b: T, c: T)
    ensures [] + [a] + [b] + [c] == [a, b, c]
  {
  }

  /** get_version_history reads back the history HistoryIs describes. */
  lemma ReadHistory(m: MongoDBManager, name: string, xs: seq<Value>)
    requires m.reachable && HistoryIs(m, name, xs)
    ensures m.GetVersionHistory(name) == Ok(VList(xs))
  {
  }

  /** get_latest_hash is the checksum of the last stamped entry. */
  lemma ReadLatestHash(m: MongoDBManager, name: string, xs: seq<Value>, h: string, now: Timestamp.DateTime)
    requires m.reachable && HistoryIs(m, name, xs + [Stamped(h, now)])
    ensures m.GetLatestHash(name) == Ok(Some(VStr(h)))
  {
    var ys := xs + [Stamped(h, now)];
    ReadHistory(m, name, ys);
    assert ys[|ys| - 1] == Stamped(h, now);
    assert Stamped(h, now).fields["checksum"] == VStr(h);
  }

  /** Three updates leave three stamped entries in call order, and the latest hash is the last checksum. */
  method VersionsInOrder(name: string, h1: string, h2: string, h3: string, now: Timestamp.DateTime)
    returns (history: Result<Value>, latest: Result<Option<Value>>)
    ensures history == Ok(VList([Stamped(h1, now), Stamped(h2, now), Stamped(h3, now)]))
    ensures latest == Ok(Some(VStr(h3)))
  {
    var m := WithArchive(name, "local", now);
    assert HistoryIs(m, name, []);
    UpdateChecksum(m, name, h1, now, []);
    ghost var xs1 := [] + [Stamped(h1, now)];
    UpdateChecksum(m, name, h2, now, xs1);
    ghost var xs2 := xs1 + [Stamped(h2, now)];
    UpdateChecksum(m, name, h3, now, xs2);
    ghost var xs3 := xs2 + [Stamped(h3, now)];
    Three(Stamped(h1, now), Stamped(h2, now), Stamped(h3, now));
    ReadHistory(m, name, xs3);
    ReadLatestHash(m, name, xs2, h3, now);
    history := m.GetVersionHistory(name);
    latest := m.GetLatestHash(name);
  }

  /**
   * A second create_archive of a taken name: strict mode raises 'Archive "<name>" already
   * exists'; lenient mode keeps the first record and returns it.
   */
  method DuplicateCreate(name: string, first: string, second: string, now: Timestamp.DateTime)
    returns (strict: Result<Document>, lenient: Result<Document>)
    ensures strict == Err(KeyError(ArchiveExists(name)))
    ensures lenient == Ok(CreatedSpec(name, first, name, true))
  {
    var m := WithArchive(name, first, now);
    assert m.RequiredUserConfigView() == Ok(map[]) && m.RequiredArchiveMetadataView() == Ok(map[]);
    strict := PlainCreate(m, name, second, name, true, now);
    assert m.RequiredUserConfigView() == Ok(map[]) && m.RequiredArchiveMetadataView() == Ok(map[]);
    lenient := PlainCreate(m, name, second, name, false, now);
    GetCreatedArchive(m, name, first, name, true, map[], map[], now);
  }

  const UsernamePrompt: Value := VStr("Your user name")

  /** A fresh table pair after set_required_user_config({'username': ...}). */
  method SetUpRequiringUsername() returns (m: MongoDBManager)
    ensures fresh(m) && m.Valid() && m.tableName == Table && m.reachable
    ensures Table in m.db && m.db[Table] == map[]
    ensures m.RequiredUserConfigView() == Ok(map["username" := UsernamePrompt])
    ensures m.RequiredArchiveMetadataView() == Ok(map[])
  {
    m := SetUp();
    BaseManager.SpecTableNameDistinct(Table, Table);
    var configured := m.SetRequiredUserConfig(map["username" := UsernamePrompt]);
  }

  /** Once 'username' is required, create_archive without it names the key and writes nothing. */
  method MissingUsernameRejected(name: string, now: Timestamp.DateTime)
    returns (r: Result<Document>, namesAfter: Result<set<Value>>)
    ensures r == Err(MissingRequirement("username", UsernamePrompt))
    ensures namesAfter == Ok({})
  {
    var m := SetUpRequiringUsername();
    assert "username" in m.RequiredUserConfigView().value;
    assert !m.UserConfigAccepted(map[], false);
    ghost var record;
    ghost var before := m.db;
    r, record := m.CreateArchive(name, "local", name, true, true, map[], map[], false, (k, d) => VNull, now);
    assert record.None? && m.db == before;
    namesAfter := m.ArchiveNames();
    assert namesAfter.value == m.db[Table].Keys == {};
  }

  /** Once 'username' is required, create_archive with it succeeds. */
  method SuppliedUsernameAccepted(name: string, now: Timestamp.DateTime) returns (r: Result<Document>)
    ensures r == Ok(CreatedSpec(name, "local", name, true))
  {
    var m := SetUpRequiringUsername();
    var userConfig := map["username" := VStr("alice")];
    ghost var record;
    r, record := m.CreateArchive(name, "local", name, true, true, map[], userConfig, false, (k, d) => VNull, now);
    assert record.value["_id"] == VStr(name);
    GetCreatedArchive(m, name, "local", name, true, map[], userConfig, now);
  }

  /** A fresh table pair after set_required_archive_metadata({'source': ...}): neither view requires anything. */
  method SetUpRequiringSource() returns (m: MongoDBManager)
    ensures fresh(m) && m.Valid() && m.tableName == Table && m.reachable
    ensures Table in m.db && m.db[Table] == map[]
    ensures m.RequiredUserConfigView() == Ok(map[])
    ensures m.RequiredArchiveMetadataView() == Ok(map[])
  {
    m := SetUp();
    BaseManager.SpecTableNameDistinct(Table, Table);
    var configured := m.SetRequiredArchiveMetadata(map["source" := VStr("Where the data comes from")]);
    assert m.RequiredUserConfigView() == Ok(map[]);
  }

  /**
   * set_required_archive_metadata writes a spec document the requirement check never
   * reads, so an archive without the "required" key is still created.
   */
  method ArchiveMetadataRequirementUnread(name: string, now: Timestamp.DateTime) returns (r: Result<Document>)
    ensures r == Ok(CreatedSpec(name, "local", name, true))
  {
    var m := SetUpRequiringSource();
    ghost var record;
    r, record := m.CreateArchive(name, "local", name, true, true, map[], map[], false, (k, d) => VNull, now);
    assert record.value["_id"] == VStr(name);
    GetCreatedArchive(m, name, "local", name, true, map[], map[], now);
  }

  /** After delete_archive_record, get_archive reports the archive as not found. */
  method DeleteThenGet(name: string, now: Timestamp.DateTime) returns (r: Result<Document>)
    ensures r == Err(KeyError(ArchiveNotFound(name)))
  {
    var m := WithArchive(name, "local", now);
    var deleted := m.DeleteArchiveRecord(name);
    r := m.GetArchive(name);
  }

  /** The record's archive_metadata, when it is a map. */
  predicate MetadataIs(m: MongoDBManager, name: string, md: Document)
    reads m
  {
    m.tableName in m.db && VStr(name) in m.db[m.tableName] && "archive_metadata" in m.db[m.tableName][VStr(name)]
    && m.db[m.tableName][VStr(name)]["archive_metadata"] == VMap(md)
  }

  /** update_metadata(name, md) on a record whose metadata is a map merges md into it. */
  method UpdateMetadataOf(m: MongoDBManager, name: string, md: Document, ghost before: Document)
    requires m.Valid() && m.reachable && MetadataIs(m, name, before) && md != map[]
    modifies m
    ensures m.Valid() && MetadataIs(m, name, before + md)
  {
    var r := m.UpdateMetadata(name, md);
  }

  /** Merging a dict whose keys all reappear in the second leaves just the second. */
  lemma Overwritten<K, V>(a: map<K, V>, b: map<K, V>)
    requires a.Keys <= b.Keys
    ensures a + b == b
  {
  }

  /** Two update_metadata calls: keys accumulate and the later value of a shared key wins. */
  method MetadataLastWriteWins(name: string, v1: Value, v2: Value, w: Value, now: Timestamp.DateTime)
    returns (r: Result<Value>)
    ensures r == Ok(VMap(map["source" := v2, "units" := w]))
  {
    var m := WithArchive(name, "local", now);
    var first := map["source" := v1];
    var second := map["source" := v2, "units" := w];
    assert MetadataIs(m, name, map[]);
    assert "source" in first && "source" in second;
    UpdateMetadataOf(m, name, first, map[]);
    Overwritten(map[], first);
    UpdateMetadataOf(m, name, second, first);
    Overwritten(first, second);
    r := m.GetMetadata(name);
  }

  /** Strict delete_table drops the table and its spec table; lenient drops only the table. */
  method DeleteTableModes() returns (lenientLeft: Result<set<string>>, strictLeft: Result<set<string>>)
    ensures lenientLeft == Ok({BaseManager.SpecTableName(Table)})
    ensures strictLeft == Ok({})
  {
    var spec := BaseManager.SpecTableName(Table);
    BaseManager.SpecTableNameDistinct(Table, Table);
    var lenient := SetUp();
    var r1 := lenient.DeleteTable(None, false);
    assert lenient.db.Keys == {spec};
    lenientLeft := lenient.TableNames();
    var strict := SetUp();
    var r2 := strict.DeleteTable(None, true);
    assert strict.db.Keys == {};
    strictLeft := strict.TableNames();
  }
}
