# DataFS metadata catalog in Dafny

DataFS keeps a catalog of data archives in a document store. Each archive has a name, an authority, a path, a version history and free-form metadata. This project models the catalog core:

- `BaseDataManager`, the abstract manager contract;
- `MongoDBManager`, its MongoDB backend;
- the pure helpers of the `datafs` command line.

The two manager classes become one Dafny class, `MongoManager.MongoDBManager`. Its fields are:

- `db`, an in-memory database: collection name → (`_id` value → document);
- the two lazily filled required-config caches;
- the lazily named spec collection.

The table name, the spec-table name (`<table>.spec`) and whether the server answers are constants of the manager.

Every public operation is a method with a `modifies` clause: table creation and deletion, spec-config writes, `update`, `update_metadata`, `create_archive` and `delete_archive_record`. Its `ensures` give the whole new state and the result in every case, including every error case. The readers (`get_archive`, `get_metadata`, `get_version_history`, `get_latest_hash`, the table and spec listings) are functions that read only `db`.

Errors are values of `Values.Error`: `KeyError(msg)`, `ConnectionError(msg)`, `NotImplemented(msg)`, and the pymongo and Python failures the code lets escape. Operations return a `Result`.

Modules:

| file | module | contents |
|---|---|---|
| values.dfy | `Values` | documents (`map<string, Value>`), `Value`, `Error`, `Result`, `Option` |
| timestamp.dfy | `Timestamp` | `create_timestamp`: `%Y%m%d-%H%M%S` over an injected UTC time, with a parser and round trip |
| requirements.dfy | `Requirements` | the requirement check `create_archive` applies to user_config and metadata |
| base_manager.dfy | `BaseManager` | the pure parts of `BaseDataManager`: spec-table name, version stamping, the archive record, `search` |
| mongo_store.dfy | `MongoStore` | each pymongo call the backend issues, as a pure function on collections, plus `catch_timeout` |
| mongo_manager.dfy | `MongoManager` | the stateful manager class |
| cli.dfy | `Cli` | the `--key value` pair parser, `configure`'s merge and required-key check, `list`'s prefix filter |
| scenarios.dfy | `Scenarios` | client call sequences on a fresh manager, with what each observes |

Behaviour kept exactly as the code has it:

- `_create_archive_table(name)` refuses a listed `name` but creates the manager's own table (`manager_mongo.py:86-90`). pymongo's `CollectionInvalid` escapes when the manager's own table already exists.
- `_create_spec_table(name)` ignores `name` (`manager_mongo.py:97-103`).
- `_create_spec_config` catches only `TypeError`. Run on a spec table that already holds a seed document, the ordered `insert_many` stores the seeds before the first taken `_id` and then raises `BulkWriteError`, which escapes (`MongoStore.SpecSeedUserConfigTaken`, `MongoStore.SpecSeedMetadataConfigTaken`). Inside `create_archive_table` this cannot happen: there `_create_spec_config` runs only right after `_create_spec_table` has created an empty spec table.
- `set_required_archive_metadata` writes spec document `required_archive_metadata`. The `required_archive_metadata` property reads document `required_metadata_config`. A requirement set this way is therefore never enforced (`Scenarios.ArchiveMetadataRequirementUnread`).
- Lenient `delete_table` drops only the main table, and strict `delete_table` drops the table and then its spec table (`Scenarios.DeleteTableModes`).
- `update` overwrites `updated` and turns `version` into `str(version)`, which is `"None"` when it is absent.
- `user_config` keys overwrite the record's base fields, `_id` included. For that reason collections are keyed by `Value`, not by the archive name.
- `_create_if_not_exists` swallows every KeyError. That includes "table not found" raised by the `collection` property, not only the duplicate-id error.
- `configure` merges the parsed pairs into the profile's `user_config`, but checks the required keys against `api.user_config`.

Further behaviour of the code that the model keeps:

- The lenient modes do not single out a NotFound or AlreadyExists condition: `create_archive_table` and `_create_if_not_exists` swallow every KeyError, and lenient `delete_table` skips the spec table.
- `search` always fails, because no backend implements `_search` (`BaseManager.Search`).

## Model

| member | source | states |
|---|---|---|
| BaseManager.SpecTableName | datafs/managers/manager.py:20 | the spec table is the table name followed by exactly `.spec` |
| BaseManager.SpecTableNameDistinct | datafs/managers/manager.py:20 | a spec table never coincides with its own archive table, and distinct tables have distinct spec tables |
| BaseManager.StampVersion | datafs/managers/manager.py:166-168 | the stamped entry has the caller's keys plus `updated`/`version`; `updated` is the timestamp whether or not it was supplied; `version` is a string: `"None"` when absent or None, unchanged when already a string, `"True"`/`"False"` for a bool, the decimal digits (after `-` when negative) for an int; every other key is kept |
| BaseManager.PyIntStrRoundTrip | datafs/managers/manager.py:167-168 | `str()` of an int parses back to it: a leading `-` exactly for a negative int, then the digits of its magnitude |
| BaseManager.StampVersionIdempotent | datafs/managers/manager.py:166-168 | stamping an already stamped entry at the same time changes nothing |
| BaseManager.ArchiveRecord | datafs/managers/manager.py:215-226 | the record's keys are the seven base fields plus the user_config keys; user_config wins on shared keys; otherwise `_id` is the name, authority/path/versioned are as given, the history is empty, the metadata sits under `archive_metadata`, and `creation_date` is the timestamp |
| BaseManager.Search | datafs/managers/manager.py:322-338 | search always fails: NotImplementedError for exactly one term (the base `_search` stub), a TypeError for any other count |
| Timestamp.Format | datafs/managers/manager.py:311-319 | for a valid time with a four-digit year the stamp has 15 characters with `-` at position 8 |
| Timestamp.DecimalRoundTrip | datafs/managers/manager.py:15 | reading the `%Y` digits back gives the number |
| Timestamp.Pad2RoundTrip | datafs/managers/manager.py:15 | reading a `%m`/`%d`/`%H`/`%M`/`%S` field back gives the number |
| Timestamp.FormatRoundTrip | datafs/managers/manager.py:15 | every stamp of a valid time with a four-digit year parses back to that time |
| Timestamp.FormatInjective | datafs/managers/manager.py:311-319 | distinct valid times give distinct stamps |
| Requirements.Populated | datafs/managers/manager.py:205-213 | with the helper, the checked map holds everything supplied, and every missing required key gets its answer |
| Requirements.PopulatedComplete | datafs/managers/manager.py:205-213 | when every required key is supplied, the helper adds nothing |
| Requirements.CheckRequirements | datafs/managers/manager.py:205-213 | without the helper: Ok exactly when the required keys are covered, returning the map unchanged; otherwise the error names a required key that is missing, with its description. With the helper: Ok with the populated map |
| MongoStore.CatchTimeout | datafs/managers/manager_mongo.py:15-31 | a result passes unchanged, except that a server-selection timeout becomes ConnectionError with the fixed message |
| MongoStore.CatchTimeoutBoundary | datafs/managers/manager_mongo.py:15-31 | no timeout leaves the wrapper, and wrapping twice equals wrapping once |
| MongoStore.InsertOne | datafs/managers/manager_mongo.py:171 | a new `_id` is added with its document and every other document is kept; a taken `_id` is DuplicateKeyError |
| MongoStore.InsertMany | datafs/managers/manager_mongo.py:201 | the ordered batch succeeds exactly when its `_id`s are pairwise distinct and none is stored yet, and then the result is the collection merged with the batch keyed by `_id`; the only failure is BulkWriteError; documents already stored are never changed |
| MongoStore.InsertManyStores | datafs/managers/manager_mongo.py:201 | a batch with fresh, distinct `_id`s succeeds and leaves exactly the old `_id`s plus the batch's, each batch document stored under its own `_id` |
| MongoStore.InsertManyFirstTaken | datafs/managers/manager_mongo.py:201 | a batch whose first `_id` is taken fails at once and stores nothing |
| MongoStore.SpecSeedUserConfigTaken | datafs/managers/manager_mongo.py:195-205 | seeding a spec table that already holds `required_user_config` raises BulkWriteError and changes nothing |
| MongoStore.SpecSeedMetadataConfigTaken | datafs/managers/manager_mongo.py:195-205 | seeding a spec table that holds only `required_metadata_config` stores `required_user_config` and then raises BulkWriteError |
| MongoStore.SpecSeedFresh | datafs/managers/manager_mongo.py:190-201 | seeding a collection without the two spec ids adds exactly `required_user_config` and `required_metadata_config`, and nothing fails |
| MongoManager.SeedingEmptySpecTable | datafs/managers/manager_mongo.py:195-201 | seeding an empty spec table succeeds and leaves exactly the seeded spec collection |
| MongoManager.SeededSpecCollection | datafs/managers/manager_mongo.py:195-201 | a fresh spec table holds exactly the two spec documents, each with `config = {}` |
| MongoStore.UpsertConfig | datafs/managers/manager_mongo.py:161 | the document's `config` is replaced wholesale (the document is created when absent), and every other document is unchanged |
| MongoStore.FindOne | datafs/managers/manager_mongo.py:219 | finds the document with that `_id` exactly when there is one |
| MongoStore.PushVersion | datafs/managers/manager_mongo.py:146-147 | fails exactly when the record's history is not an array; otherwise no other record changes |
| MongoStore.PushVersionAppends | datafs/managers/manager_mongo.py:146-147 | a push extends the history by exactly the entry and leaves every other field of the record alone |
| MongoStore.PushAllInOrder | datafs/managers/manager_mongo.py:145-147 | successive pushes onto history xs leave xs followed by the entries in call order |
| MongoStore.SetDocMetadata | datafs/managers/manager_mongo.py:151-152 | `$set` of `archive_metadata.<k>` per key: supplied keys take their values, other metadata keys and other fields keep theirs; a non-map field refuses |
| MongoStore.SetDocMetadataStep | datafs/managers/manager_mongo.py:150-152 | one more single-key `$set` equals setting the enlarged map at once |
| MongoStore.SetDocMetadataTwice | datafs/managers/manager_mongo.py:150-152 | two rounds of `$set` equal one round with the union, the later round winning |
| MongoStore.SetMetadata | datafs/managers/manager_mongo.py:149-152 | only the matched record changes; a missing record or an empty map changes nothing |
| MongoStore.SetMetadataStep | datafs/managers/manager_mongo.py:150-152 | the per-key loop of `_update_metadata` builds up SetMetadata of the keys done so far |
| MongoStore.SetMetadataLastWriteWins | datafs/managers/manager_mongo.py:149-152 | two update_metadata calls equal one call with the union, the later value winning on shared keys |
| MongoStore.RecordField | datafs/managers/manager_mongo.py:249-256 | the field of the matched record; a bare KeyError without a record, KeyError(field) without the field |
| MongoStore.ArchiveSpec | datafs/managers/manager_mongo.py:221-229 | a bare KeyError for a missing id; otherwise exactly those of authority_name, archive_path and versioned that the record has, with their values |
| MongoStore.LastChecksum | datafs/managers/manager_mongo.py:267-275 | an empty history gives None; otherwise the last entry's checksum |
| MongoStore.PushThenLatestHash | datafs/managers/manager_mongo.py:267-275 | after pushing an entry with a checksum, the latest hash is that checksum |
| MongoStore.InsertedRecordSpec | datafs/managers/manager_mongo.py:221-229 | a freshly inserted record reads back as its own spec fields |
| MongoManager.MongoDBManager.constructor | datafs/managers/manager_mongo.py:50-62 | a new manager over the selected database has both caches and the spec collection unset |
| MongoManager.MongoDBManager.TableNames | datafs/managers/manager_mongo.py:82-84 | the database's collection names when the server answers; ConnectionError otherwise |
| MongoManager.MongoDBManager.ArchiveCollection | datafs/managers/manager_mongo.py:111-119 | the archive table when listed; KeyError('Table "<t>" not found') when not; ConnectionError without a server |
| MongoManager.MongoDBManager.SpecCollection | datafs/managers/manager_mongo.py:121-130 | the spec table when listed; KeyError('Table "<t>.spec" not found') when not; ConnectionError without a server |
| MongoManager.MongoDBManager.BackendCreateArchiveTable | datafs/managers/manager_mongo.py:86-90 | refuses a listed `name`; otherwise creates the manager's own table, or fails with CollectionInvalid when that table exists |
| MongoManager.MongoDBManager.BackendCreateSpecTable | datafs/managers/manager_mongo.py:97-103 | ignores its argument; creates the manager's spec table unless it is listed |
| MongoManager.MongoDBManager.BackendCreateSpecConfig | datafs/managers/manager_mongo.py:189-205 | names the spec collection on first use and seeds the spec table with the two spec documents; a missing spec table is KeyError |
| MongoManager.MongoDBManager.CreateArchiveTable | datafs/managers/manager.py:51-80 | archive table, spec table, spec documents, in order, stopping at the first error; lenient mode turns a KeyError into success and skips the remaining steps |
| MongoManager.MongoDBManager.BackendDeleteTable | datafs/managers/manager_mongo.py:105-109 | drops a listed table and nothing else; KeyError('Table "<t>" not found') otherwise |
| MongoManager.MongoDBManager.DeleteTable | datafs/managers/manager.py:145-156 | strict mode drops the table and then its spec table; lenient mode drops only the table and treats a missing table as done; no name means the manager's table |
| MongoManager.MongoDBManager.UpdateSpecConfig | datafs/managers/manager_mongo.py:154-161 | replaces the named spec document's config in the spec table, creating it if absent |
| MongoManager.MongoDBManager.StoredRequiredConfig | datafs/managers/manager_mongo.py:295-301 | Ok exactly when the spec document has a dict `config`, giving that dict; a missing document is the TypeError of subscripting None, a document without `config` is KeyError('config'), a non-dict config fails the property's assertion; a missing spec table is its KeyError and no server is ConnectionError |
| MongoManager.MongoDBManager.RequiredUserConfig | datafs/managers/manager.py:29-39 | the first read fetches and caches the stored config; later reads return the cache unchanged |
| MongoManager.MongoDBManager.RequiredArchiveMetadata | datafs/managers/manager.py:41-49 | the first read fetches document `required_metadata_config` and caches it; later reads return the cache unchanged |
| MongoManager.MongoDBManager.SetRequiredUserConfig | datafs/managers/manager.py:103-122 | replaces document `required_user_config` and drops the cached copy |
| MongoManager.MongoDBManager.SetRequiredArchiveMetadata | datafs/managers/manager.py:124-143 | replaces document `required_archive_metadata` (not the one the reader uses) and drops the cached copy |
| MongoManager.MongoDBManager.BackendUpdate | datafs/managers/manager_mongo.py:144-147 | pushes the entry onto the record's history; the table lookup's error or a refused push leaves the store unchanged |
| MongoManager.MongoDBManager.Update | datafs/managers/manager.py:158-170 | stamps the entry and appends exactly the stamped entry to the history |
| MongoManager.MongoDBManager.UpdateMetadata | datafs/managers/manager_mongo.py:149-152 | the per-key `$set` loop leaves the table as SetMetadata of the whole map; an empty map makes no call |
| MongoManager.MongoDBManager.BackendCreateArchive | datafs/managers/manager_mongo.py:163-173 | inserts the record under a new `_id` and leaves every other record alone; a taken id is KeyError('Archive "<name>" already exists') with no change |
| MongoManager.MongoDBManager.BackendCreateIfNotExists | datafs/managers/manager_mongo.py:175-186 | like BackendCreateArchive, but every KeyError (duplicate id or missing table) becomes success with no change |
| MongoManager.MongoDBManager.ArchiveListing | datafs/managers/manager_mongo.py:209-219 | the full record with that `_id`, if any |
| MongoManager.MongoDBManager.GetArchiveSpec | datafs/managers/manager_mongo.py:221-229 | succeeds exactly when the record exists, giving ArchiveSpec of it; a missing record is a bare KeyError, a missing table its KeyError, no server ConnectionError |
| MongoManager.MongoDBManager.GetArchive | datafs/managers/manager.py:239-257 | the record's spec fields plus `archive_name`; every KeyError becomes KeyError('Archive "<name>" not found') |
| MongoManager.MongoDBManager.GetAuthorityName | datafs/managers/manager_mongo.py:231-238 | the record's authority_name, exactly when the record and field exist; a missing record is a bare KeyError, a record without the field KeyError('authority_name') |
| MongoManager.MongoDBManager.GetArchivePath | datafs/managers/manager_mongo.py:240-247 | the record's archive_path, exactly when the record and field exist; a missing record is a bare KeyError, a record without the field KeyError('archive_path') |
| MongoManager.MongoDBManager.GetMetadata | datafs/managers/manager.py:259-274 | the record's archive_metadata; a bare KeyError for a missing record |
| MongoManager.MongoDBManager.GetVersionHistory | datafs/managers/manager_mongo.py:258-265 | the record's version_history; a bare KeyError for a missing record |
| MongoManager.MongoDBManager.GetLatestHash | datafs/managers/manager.py:276-292 | LastChecksum of the stored history; a bare KeyError for a missing record; ConnectionError without a server |
| MongoManager.MongoDBManager.DeleteArchiveRecord | datafs/managers/manager_mongo.py:277-279 | removes the record with that `_id`, if any, and nothing else |
| MongoManager.MongoDBManager.ArchiveNames | datafs/managers/manager_mongo.py:281-285 | the `_id` of every record in the archive table |
| MongoManager.MongoDBManager.SpecDocumentCount | datafs/managers/manager_mongo.py:287-289 | the number of spec documents |
| MongoManager.MongoDBManager.SpecDocuments | datafs/managers/manager_mongo.py:291-292 | every spec document, whatever the argument |
| MongoManager.MongoDBManager.CheckMetadataRequirements | datafs/managers/manager.py:210-213 | the metadata check reads the required archive metadata through its cache; Ok exactly when it is readable and covered (or the helper fills it) |
| MongoManager.MongoDBManager.CheckArchiveRequirements | datafs/managers/manager.py:199-213 | user_config is checked first, then metadata; Ok exactly when both pass; otherwise the first failure is reported, and a missing key is named with its description |
| MongoManager.MongoDBManager.PersistArchive | datafs/managers/manager.py:228-237 | strict: insert or fail on a taken id or missing table; lenient: insert unless present; a successful call returns get_archive |
| MongoManager.MongoDBManager.CreateArchive | datafs/managers/manager.py:179-237 | a rejected requirement writes nothing; otherwise the stored record is ArchiveRecord of the checked maps; duplicates fail in strict mode and keep the first record in lenient mode; success returns get_archive of the stored record |
| Cli.OptionName | datafs/datafs.py:75 | `arg[2:]`: the argument is its first two characters followed by the name, and is empty when shorter |
| Cli.OptionNameOfFlag | datafs/datafs.py:75 | the option name of `--name` is `name` |
| Cli.ParsePairs | datafs/datafs.py:75 | Ok exactly for an even-length argument list; an odd length is IndexError |
| Cli.ParsePairsHasOption | datafs/datafs.py:75 | every name given at an even position is a key of the parsed dict |
| Cli.ParsePairsKeyOrigin | datafs/datafs.py:75 | every key of the parsed dict is the name at some even position, and the lemma returns that position |
| Cli.ParsePairsKeys | datafs/datafs.py:75 | the parsed dict's keys are exactly the names at even positions |
| Cli.ParsePairsLastWins | datafs/datafs.py:75 | each name maps to the value after its last occurrence |
| Cli.MergeUserConfig | datafs/datafs.py:76 | the profile's user_config gains every parsed pair, overriding keys it had, and keeps the rest |
| Cli.CheckConfigured | datafs/datafs.py:82-84 | Ok exactly when every required key is in `api.user_config`; otherwise KeyError naming a missing key |
| Cli.Configure | datafs/datafs.py:75-86 | odd arguments fail with IndexError; a missing required key fails with its KeyError and nothing is written; otherwise the merged user_config is what gets written |
| Cli.FilterPrefix | datafs/datafs.py:140 | a name is listed exactly when it is an archive name starting with the prefix |
| Cli.FilterPrefixAppend | datafs/datafs.py:140 | the filter keeps the original order (it distributes over concatenation) |
| Cli.FilterEmptyPrefix | datafs/datafs.py:136 | the default prefix `''` lists every archive |
| Cli.FilterPrefixIdempotent | datafs/datafs.py:140 | filtering twice with the same prefix equals filtering once |
| Scenarios.SetUp | datafs/managers/manager.py:69-72 | strict create_archive_table on an empty database leaves an empty archive table and a seeded spec table |
| Scenarios.GetCreatedArchive | datafs/managers/manager.py:239-257 | get_archive of a created record gives exactly authority_name, archive_path, versioned and archive_name |
| Scenarios.CreateThenGet | datafs/managers/manager.py:179-237 | with nothing required, create_archive then get_archive yields the given spec fields and the name |
| Scenarios.VersionsInOrder | datafs/managers/manager.py:158-170 | updates with checksums h1, h2, h3 leave the history [h1, h2, h3] stamped, and the latest hash is h3 |
| Scenarios.DuplicateCreate | datafs/managers/manager.py:228-237 | a second create_archive of a name fails with 'Archive "<name>" already exists' in strict mode, and returns the first record's spec in lenient mode |
| Scenarios.MissingUsernameRejected | datafs/managers/manager.py:205-208 | once `username` is required, create_archive without it fails naming `username` and leaves the archive table empty |
| Scenarios.SuppliedUsernameAccepted | datafs/managers/manager.py:205-208 | once `username` is required, create_archive with it succeeds |
| Scenarios.ArchiveMetadataRequirementUnread | datafs/managers/manager.py:142 | a requirement set through set_required_archive_metadata is not enforced by create_archive |
| Scenarios.DeleteThenGet | datafs/managers/manager.py:294-306 | after delete_archive_record, get_archive reports 'Archive "<name>" not found' |
| Scenarios.MetadataLastWriteWins | datafs/managers/manager.py:172-177 | two update_metadata calls accumulate keys, and the later value of a shared key wins |
| Scenarios.DeleteTableModes | datafs/managers/manager.py:145-156 | after create_archive_table, lenient delete_table leaves only the spec table and strict delete_table leaves nothing |

## Left out

- Talking to a MongoDB server: `MongoClient`, the lazy `_db` handle, client keyword arguments and the `config`/`database_name`/`table_name` properties. The database is a map, and whether the server answers is a constant of each manager. A server that fails part-way through an operation is not modelled.
- `time.gmtime()`: the clock is an injected `Timestamp.DateTime`.
- `datafs/config/helpers.py`, where `check_requirements` lives, is not part of this model. Its behaviour is modelled from its call sites in `create_archive`. Interactive prompting is an injected `answer(key, description)` function.
- Requirements.CheckRequirements: visits the required keys in an arbitrary order (Python dict order is not modelled). Its contract therefore names *a* missing key, not the first one in insertion order.
- MongoManager.MongoDBManager.ArchiveNames: returns a set. The order of `find` results is not modelled.
- MongoManager.MongoDBManager.SpecDocuments: returns a set of documents, not a list in store order.
- MongoManager.MongoDBManager.Update: returns the stamped entry rather than mutating the caller's dict in place. Aliasing between the caller's dict and the stored entry is not modelled.
- BaseManager.StampVersion: `str()` of a list or dict version is a fixed placeholder, not Python's repr.
- Floating-point values: `Value` has strings, booleans, None, integers, lists and dicts. A float version or float metadata value, and its `str()`, cannot be represented.
- Timestamp.FormatRoundTrip: holds only for four-digit years. For other years `%Y` has a different width.
- Dotted-path semantics of `$set`/`$push` beyond one level (`archive_metadata.<key>` with a key that itself contains dots) are not modelled.
- `search` term matching: no backend implements `_search`, so only the failure of the base stub is modelled.
- Command wiring in `datafs.py`: click, YAML configuration loading, profile selection, `interactive_configuration` (the `--helper` branch of `configure`), writing the config file, `create_archive`/`upload` forwarding, and the `DataAPI` behind `api.archives`.
- `configure` updates the in-memory profile before it raises. The model returns only the merged map on success and no state on failure.
- File transfer services (`datafs/services`), `datafs/core/ada_api.py`, the S3 tutorial script, the command-line integration test and the DynamoDB manager are outside the catalog core.
