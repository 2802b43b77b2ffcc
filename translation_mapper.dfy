/**
 * TranslationMapper: the `translation` table, one row per (entry id, language, revision).
 *
 * The table is a map from TranslationKey to the rest of the row.  The four queries are
 * functions of that map with the SQL's filtering, ordering, DISTINCT and LIMIT; `insert`
 * and `delete` are methods of a class holding the map.  The key is the table's primary key,
 * so inserting a key that is already stored fails as a duplicate-key error.
 */
module TranslationStore {
  import opened Wrappers
  import opened TranslationKeys
  import opened Ordering

  /** The non-key columns of a row. */
  datatype Row = Row(title: Option<string>, content: Option<string>, createdAt: int)

  type Table = map<TranslationKey, Row>

  function RowOf(t: Translation): Row {
    Row(t.title, t.content, t.createdAt)
  }

  /** The row mapper: a stored row read back as a Translation. */
  function ReadRow(table: Table, key: TranslationKey): (r: Translation)
    requires key in table
    ensures r.key == key && RowOf(r) == table[key]
  {
    Translation(key, table[key].title, table[key].content, table[key].createdAt)
  }

  /** `entry_id = ? AND language = ?` */
  predicate Selects(key: TranslationKey, entryId: Int64, language: string) {
    key.entryId == entryId && key.language == language
  }

  function LanguagesOf(table: Table, entryId: Int64): set<string> {
    set k | k in table && k.entryId == entryId :: k.language
  }

  function RevisionsOf(table: Table, entryId: Int64, language: string): set<Int32> {
    set k | k in table && Selects(k, entryId, language) :: k.revision
  }

  /** `ORDER BY revision`: revisions compare as integers. */
  function RevisionLess(a: Int32, b: Int32): bool {
    a < b
  }

  lemma RevisionLessIsStrictTotal()
    ensures StrictTotal(RevisionLess)
  {
  }

  // ---------------------------------------------------------------------------
  // Queries

  /** `SELECT DISTINCT language … WHERE entry_id = ? ORDER BY language DESC` */
  function AvailableLanguage(table: Table, entryId: Int64): (r: seq<string>)
    ensures forall l :: l in r <==> exists k :: k in table && k.entryId == entryId && k.language == l
    ensures forall i, j :: 0 <= i < j < |r| ==> StrLess(r[j], r[i])
  {
    StrLessIsStrictTotal();
    var r := SortDescending(LanguagesOf(table, entryId), StrLess);
    assert forall l :: l in LanguagesOf(table, entryId) ==>
      exists k :: k in table && k.entryId == entryId && k.language == l;
    r
  }

  /** The rows of `revisions`, each read back with its content left out (`NULL AS content`). */
  function RowsWithoutContent(table: Table, entryId: Int64, language: string, revisions: seq<Int32>)
    : (r: seq<Translation>)
    requires forall v :: v in revisions ==> v in RevisionsOf(table, entryId, language)
    ensures |r| == |revisions|
    ensures forall i :: 0 <= i < |r| ==>
      r[i].key == TranslationKey(entryId, language, revisions[i]) && r[i].key in table &&
      r[i].title == table[r[i].key].title && r[i].content == None &&
      r[i].createdAt == table[r[i].key].createdAt
  {
    if revisions == [] then []
    else
      var v := revisions[0];
      assert v in RevisionsOf(table, entryId, language);
      var k :| k in table && Selects(k, entryId, language) && k.revision == v;
      var key := TranslationKey(entryId, language, v);
      assert k == key;
      [Translation(key, table[key].title, None, table[key].createdAt)]
        + RowsWithoutContent(table, entryId, language, revisions[1..])
  }

  /**
   * `SELECT … NULL AS content … WHERE entry_id = ? AND language = ? ORDER BY revision DESC`
   */
  function AllRevisionsOfTranslation(table: Table, entryId: Int64, language: string)
    : (r: seq<Translation>)
    ensures forall i :: 0 <= i < |r| ==>
      r[i].key in table && Selects(r[i].key, entryId, language) &&
      r[i].title == table[r[i].key].title && r[i].content == None &&
      r[i].createdAt == table[r[i].key].createdAt
    ensures forall k :: k in table && Selects(k, entryId, language) ==>
      exists i :: 0 <= i < |r| && r[i].key == k
    ensures forall i, j :: 0 <= i < j < |r| ==> r[j].key.revision < r[i].key.revision
  {
    RevisionLessIsStrictTotal();
    var revisions := SortDescending(RevisionsOf(table, entryId, language), RevisionLess);
    var r := RowsWithoutContent(table, entryId, language, revisions);
    forall k | k in table && Selects(k, entryId, language)
      ensures exists i :: 0 <= i < |r| && r[i].key == k
    {
      assert k.revision in RevisionsOf(table, entryId, language);
      var i :| 0 <= i < |revisions| && revisions[i] == k.revision;
      assert r[i].key == k;
    }
    r
  }

  /**
   * `SELECT … WHERE entry_id = ? AND language = ? ORDER BY revision DESC LIMIT 1`
   */
  function LatestTranslation(table: Table, entryId: Int64, language: string)
    : (r: Option<Translation>)
    ensures r.None? <==> forall k :: k in table ==> !Selects(k, entryId, language)
    ensures r.Some? ==>
      r.value.key in table && Selects(r.value.key, entryId, language) &&
      RowOf(r.value) == table[r.value.key] &&
      forall k :: k in table && Selects(k, entryId, language) ==> k.revision <= r.value.key.revision
  {
    var revisions := RevisionsOf(table, entryId, language);
    if revisions == {} then
      assert forall k :: k in table && Selects(k, entryId, language) ==> k.revision in revisions;
      None
    else
      RevisionLessIsStrictTotal();
      var m := Greatest(revisions, RevisionLess);
      var k :| k in table && Selects(k, entryId, language) && k.revision == m;
      assert forall k' :: k' in table && Selects(k', entryId, language) ==> k'.revision in revisions;
      Some(ReadRow(table, k))
  }

  /** `SELECT … WHERE entry_id = ? AND language = ? AND revision = ?` */
  function GetTranslation(table: Table, key: TranslationKey): (r: Option<Translation>)
    ensures r.Some? <==> key in table
    ensures r.Some? ==> r.value.key == key && RowOf(r.value) == table[key]
  {
    if key in table then Some(ReadRow(table, key)) else None
  }

  // ---------------------------------------------------------------------------
  // Updates

  datatype InsertError = DuplicateKey

  class TranslationMapper {
    var table: Table

    constructor(initial: Table)
      ensures table == initial
    {
      table := initial;
    }

    /** `INSERT INTO translation …`: one row, or a duplicate-key error when the key is stored. */
    method Insert(translation: Translation) returns (r: Result<int, InsertError>)
      modifies this
      ensures translation.key in old(table) ==> r == Failure(DuplicateKey) && table == old(table)
      ensures translation.key !in old(table) ==>
        r == Success(1) && table == old(table)[translation.key := RowOf(translation)]
    {
      if translation.key in table {
        r := Failure(DuplicateKey);
      } else {
        table := table[translation.key := RowOf(translation)];
        r := Success(1);
      }
    }

    /** `DELETE FROM translation WHERE …`: the number of rows removed. */
    method Delete(key: TranslationKey) returns (n: int)
      modifies this
      ensures n == if key in old(table) then 1 else 0
      ensures table == old(table) - {key}
    {
      n := if key in table then 1 else 0;
      table := table - {key};
    }
  }

  // ---------------------------------------------------------------------------
  // Properties of the queries over the updates

  /** The latest translation is the first of all revisions, with its content. */
  lemma LatestIsFirstRevision(table: Table, entryId: Int64, language: string)
    ensures var all := AllRevisionsOfTranslation(table, entryId, language);
      match LatestTranslation(table, entryId, language)
      case None => all == []
      case Some(latest) => (|all| > 0 && all[0] == latest.(content := None))
  {
    var all := AllRevisionsOfTranslation(table, entryId, language);
    match LatestTranslation(table, entryId, language)
    case None =>
    case Some(latest) =>
      assert exists i :: 0 <= i < |all| && all[i].key == latest.key;
  }

  /** A row inserted under a fresh key reads back as the inserted translation. */
  lemma InsertThenGet(table: Table, translation: Translation)
    ensures GetTranslation(table[translation.key := RowOf(translation)], translation.key)
      == Some(translation)
  {
  }

  /** Inserting or deleting one key leaves every other key's row as it was. */
  lemma UpdatesKeepOtherKeys(table: Table, key: TranslationKey, row: Row, other: TranslationKey)
    requires other != key
    ensures GetTranslation(table[key := row], other) == GetTranslation(table, other)
    ensures GetTranslation(table - {key}, other) == GetTranslation(table, other)
  {
  }

  /** After a delete, the key is no longer found. */
  lemma DeleteThenGet(table: Table, key: TranslationKey)
    ensures GetTranslation(table - {key}, key) == None
  {
  }

  /** A row above every stored revision of its entry and language becomes the latest. */
  lemma InsertAboveLatest(table: Table, translation: Translation)
    requires forall k :: (k in table && Selects(k, translation.key.entryId, translation.key.language)
      ==> k.revision < translation.key.revision)
    ensures LatestTranslation(table[translation.key := RowOf(translation)],
                              translation.key.entryId, translation.key.language) == Some(translation)
  {
    var key := translation.key;
    var after := table[key := RowOf(translation)];
    var latest := LatestTranslation(after, key.entryId, key.language);
    assert key in after && Selects(key, key.entryId, key.language);
    assert latest.Some?;
  }
}
