/**
 * The pure parts of BaseDataManager: the paired spec-table name, the stamping that
 * `update` applies to a version entry, the record `create_archive` builds, and the
 * `search` entry point that no backend implements.
 */
module BaseManager {
  import opened Values
  import Timestamp

  const SpecSuffix: string := ".spec"

  /** The spec table paired with archive table `tableName`. */
  function SpecTableName(tableName: string): (r: string)
    ensures |r| == |tableName| + |SpecSuffix| && r[..|tableName|] == tableName && r[|tableName|..] == SpecSuffix
  {
    tableName + SpecSuffix
  }

  /** A spec table is never its own archive table, and distinct archive tables have distinct spec tables. */
  lemma SpecTableNameDistinct(a: string, b: string)
    ensures SpecTableName(a) != a
    ensures SpecTableName(a) == SpecTableName(b) ==> a == b
  {
    assert |SpecTableName(a)| != |a|;
    if SpecTableName(a) == SpecTableName(b) {
      assert a == SpecTableName(a)[..|a|] == SpecTableName(b)[..|b|] == b;
    }
  }

  /** Python's str() of an int: its decimal digits, after a minus sign when negative. */
  function PyIntStr(i: int): string {
    if i < 0 then "-" + Timestamp.Decimal(-i) else Timestamp.Decimal(i)
  }

  /** Python's str() of a stored value. A list or dict is rendered as a fixed placeholder, not as its repr. */
  function PyStr(v: Value): string {
    match v
    case VStr(s) => s
    case VBool(b) => if b then "True" else "False"
    case VInt(i) => PyIntStr(i)
    case VNull => "None"
    case VList(_) => "<list>"
    case VMap(_) => "<dict>"
  }

  /**
   * What `update` does to the caller's version entry before appending it: `updated`
   * is overwritten with the current timestamp and `version` becomes str() of the
   * supplied version (of None when there is none).
   */
  function StampVersion(versionMetadata: Document, now: Timestamp.DateTime): (r: Document)
    ensures r.Keys == versionMetadata.Keys + {"updated", "version"}
    ensures r["updated"] == VStr(Timestamp.Format(now))
    ensures r["version"].VStr?
    ensures ("version" !in versionMetadata || versionMetadata["version"] == VNull) ==> r["version"] == VStr("None")
    ensures "version" in versionMetadata && versionMetadata["version"].VStr? ==> r["version"] == versionMetadata["version"]
    ensures "version" in versionMetadata && versionMetadata["version"].VBool?
            ==> r["version"] == VStr(if versionMetadata["version"].b then "True" else "False")
    ensures "version" in versionMetadata && versionMetadata["version"].VInt? && versionMetadata["version"].i >= 0
            ==> r["version"] == VStr(Timestamp.Decimal(versionMetadata["version"].i))
    ensures "version" in versionMetadata && versionMetadata["version"].VInt? && versionMetadata["version"].i < 0
            ==> r["version"] == VStr("-" + Timestamp.Decimal(-versionMetadata["version"].i))
    ensures forall k :: k in versionMetadata && k != "updated" && k != "version" ==> r[k] == versionMetadata[k]
  {
    var stamped := versionMetadata["updated" := VStr(Timestamp.Format(now))];
    var version := if "version" in stamped then stamped["version"] else VNull;
    stamped["version" := VStr(PyStr(version))]
  }

  /** The rendered int reads back: its digits parse to the magnitude, with a leading minus exactly for a negative int. */
  lemma PyIntStrRoundTrip(i: int)
    ensures |PyIntStr(i)| >= 1 && (PyIntStr(i)[0] == '-' <==> i < 0)
    ensures i >= 0 ==> Timestamp.AllDigits(PyIntStr(i)) && Timestamp.ParseDecimal(PyIntStr(i)) == i
    ensures i < 0 ==> Timestamp.AllDigits(PyIntStr(i)[1..]) && Timestamp.ParseDecimal(PyIntStr(i)[1..]) == -i
  {
    if i < 0 {
      Timestamp.DecimalRoundTrip(-i);
      assert PyIntStr(i)[1..] == Timestamp.Decimal(-i);
    } else {
      Timestamp.DecimalRoundTrip(i);
      assert Timestamp.IsDigit(PyIntStr(i)[0]);
    }
  }

  /** Stamping an already stamped entry at the same time changes nothing. */
  lemma StampVersionIdempotent(versionMetadata: Document, now: Timestamp.DateTime)
    ensures StampVersion(StampVersion(versionMetadata, now), now) == StampVersion(versionMetadata, now)
  {
    var once := StampVersion(versionMetadata, now);
    var twice := StampVersion(once, now);
    assert twice.Keys == once.Keys;
    forall k | k in once
      ensures twice[k] == once[k]
    {
    }
  }

  /** The fields create_archive writes before merging user_config. */
  const RecordFields: set<string> :=
    {"_id", "authority_name", "archive_path", "versioned", "version_history", "archive_metadata", "creation_date"}

  /** The fields create_archive sets before user_config is merged in. */
  function BaseRecord(archiveName: string, authorityName: string, archivePath: string, versioned: bool,
                      metadata: Document): (r: Document)
    ensures r.Keys == RecordFields - {"creation_date"}
    ensures r["_id"] == VStr(archiveName) && r["authority_name"] == VStr(authorityName)
    ensures r["archive_path"] == VStr(archivePath) && r["versioned"] == VBool(versioned)
    ensures r["version_history"] == VList([]) && r["archive_metadata"] == VMap(metadata)
  {
    map[
      "_id" := VStr(archiveName),
      "authority_name" := VStr(authorityName),
      "archive_path" := VStr(archivePath),
      "versioned" := VBool(versioned),
      "version_history" := VList([]),
      "archive_metadata" := VMap(metadata)]
  }

  /**
   * The record create_archive persists: the base fields, then user_config merged at top
   * level (a user_config key replaces a base field of the same name), then
   * `creation_date` kept if user_config supplied it and set to the timestamp otherwise.
   */
  function ArchiveRecord(archiveName: string, authorityName: string, archivePath: string, versioned: bool,
                         metadata: Document, userConfig: Document, now: Timestamp.DateTime): (r: Document)
    ensures r.Keys == RecordFields + userConfig.Keys
    ensures forall k :: k in userConfig ==> r[k] == userConfig[k]
    ensures "_id" !in userConfig ==> r["_id"] == VStr(archiveName)
    ensures "authority_name" !in userConfig ==> r["authority_name"] == VStr(authorityName)
    ensures "archive_path" !in userConfig ==> r["archive_path"] == VStr(archivePath)
    ensures "versioned" !in userConfig ==> r["versioned"] == VBool(versioned)
    ensures "version_history" !in userConfig ==> r["version_history"] == VList([])
    ensures "archive_metadata" !in userConfig ==> r["archive_metadata"] == VMap(metadata)
    ensures "creation_date" !in userConfig ==> r["creation_date"] == VStr(Timestamp.Format(now))
  {
    var merged := BaseRecord(archiveName, authorityName, archivePath, versioned, metadata) + userConfig;
    merged["creation_date" := if "creation_date" in merged then merged["creation_date"] else VStr(Timestamp.Format(now))]
  }

  const NotImplementedMessage: string := "BaseDataManager cannot be used directly. Use a subclass."

  /**
   * search(*terms) forwards the terms as separate arguments to `_search(self, search_terms)`,
   * which no backend overrides: one term reaches the base stub, any other count is a call
   * with the wrong number of arguments.
   */
  function Search(terms: seq<string>): (r: Result<seq<Document>>)
    ensures r.Err?
    ensures r.error.NotImplemented? <==> |terms| == 1
  {
    if |terms| == 1 then Err(NotImplemented(NotImplementedMessage)) else Err(TypeError)
  }
}
