/**
 * TranslationController: the HTTP handlers over the translation table.
 *
 * Storing a translation appends a revision: the first one for an entry and language is 1,
 * each later one is the latest revision plus one, and a submission whose title and content
 * both equal the latest revision's is rejected with 400.  A status exception thrown by a
 * handler is modelled as the response it produces.
 */
module TranslationWeb {
  import opened Wrappers
  import opened TranslationKeys
  import opened TranslationStore
  import opened CreateRequest

  datatype Body =
    | TranslationBody(translation: Translation)
    | TranslationsBody(translations: seq<Translation>)
    | LanguagesBody(languages: seq<string>)
    | ErrorBody(error: string, status: int, details: seq<Violation>)
    | ReasonBody(reason: string)
    | NoBody

  datatype Response = Response(status: int, body: Body)

  const NotFound: Response := Response(404, ReasonBody("The requested translation is not found."))
  const NoChange: Response := Response(400, ReasonBody("There is no change from the latest state."))
  /** An exception from the table (a duplicate key) that no handler catches. */
  const ServerError: Response := Response(500, ReasonBody("Internal Server Error"))

  /** What the entry translator hands back for `postTranslationAutomatically`. */
  datatype Translated = Translated(entryId: Int64, language: string, title: Option<string>, content: Option<string>)

  // ---------------------------------------------------------------------------
  // addNewTranslation, as a function of the table

  datatype AddOutcome = Added(translation: Translation) | Rejected(response: Response)

  datatype AddResult = AddResult(outcome: AddOutcome, table: Table)

  /** The revision a new translation gets: 1, or the latest revision's `nextRevision()`. */
  function NextRevisionFor(table: Table, entryId: Int64, language: string): Int32 {
    match LatestTranslation(table, entryId, language)
    case None => 1
    case Some(latest) => NextRevision(latest.key)
  }

  /** The latest revision has the submitted title and content (compared null-safely). */
  predicate Unchanged(table: Table, entryId: Int64, language: string,
                      title: Option<string>, content: Option<string>)
  {
    match LatestTranslation(table, entryId, language)
    case None => false
    case Some(latest) => latest.title == title && latest.content == content
  }

  /** The response and the new table of `addNewTranslation`. */
  function AddNew(table: Table, entryId: Int64, language: string,
                  title: Option<string>, content: Option<string>, now: int): (r: AddResult)
    ensures r.outcome.Rejected? ==> r.table == table
    ensures r.outcome.Rejected? <==>
      Unchanged(table, entryId, language, title, content) ||
      TranslationKey(entryId, language, NextRevisionFor(table, entryId, language)) in table
    ensures r.outcome.Added? ==>
      var t := r.outcome.translation;
      t == Translation(TranslationKey(entryId, language, NextRevisionFor(table, entryId, language)),
                       title, content, now) &&
      t.key !in table && r.table == table[t.key := RowOf(t)] && |r.table| == |table| + 1
  {
    if Unchanged(table, entryId, language, title, content) then
      AddResult(Rejected(NoChange), table)
    else
      var key := TranslationKey(entryId, language, NextRevisionFor(table, entryId, language));
      var t := Translation(key, title, content, now);
      if key in table then AddResult(Rejected(ServerError), table)
      else
        assert table[key := RowOf(t)].Keys == table.Keys + {key};
        AddResult(Added(t), table[key := RowOf(t)])
  }

  // ---------------------------------------------------------------------------
  // The handlers

  class TranslationController {
    const mapper: TranslationMapper

    constructor(mapper: TranslationMapper)
      ensures this.mapper == mapper
    {
      this.mapper := mapper;
    }

    /** `GET translations/{entryId}`: every revision, newest first, without content. */
    method GetAllRevisionsOfTranslation(entryId: Int64, language: string) returns (resp: Response)
      ensures resp == Response(200, TranslationsBody(AllRevisionsOfTranslation(mapper.table, entryId, language)))
    {
      resp := Response(200, TranslationsBody(AllRevisionsOfTranslation(mapper.table, entryId, language)));
    }

    /** `GET translations/{entryId}/latest`: 404 when the entry has no translation in the language. */
    method GetLatestTranslation(entryId: Int64, language: string) returns (resp: Response)
      ensures resp == NotFound <==> forall k :: k in mapper.table ==> !Selects(k, entryId, language)
      ensures resp != NotFound ==>
        resp.status == 200 && resp.body.TranslationBody? &&
        var t := resp.body.translation;
        t.key in mapper.table && Selects(t.key, entryId, language) && RowOf(t) == mapper.table[t.key] &&
        forall k :: k in mapper.table && Selects(k, entryId, language) ==> k.revision <= t.key.revision
    {
      var latest := LatestTranslation(mapper.table, entryId, language);
      if latest.None? {
        return NotFound;
      }
      resp := Response(200, TranslationBody(latest.value));
    }

    /** `GET translations/{entryId}/languages` */
    method GetAvailableLanguage(entryId: Int64) returns (resp: Response)
      ensures resp == Response(200, LanguagesBody(AvailableLanguage(mapper.table, entryId)))
    {
      resp := Response(200, LanguagesBody(AvailableLanguage(mapper.table, entryId)));
    }

    /** `GET translations/{entryId}/revisions/{revision}`: 404 when that revision is not stored. */
    method GetTranslation(entryId: Int64, revision: Int32, language: string) returns (resp: Response)
      ensures var key := TranslationKey(entryId, language, revision);
        (resp == NotFound <==> key !in mapper.table) &&
        (key in mapper.table ==>
          resp.status == 200 && resp.body.TranslationBody? &&
          resp.body.translation.key == key && RowOf(resp.body.translation) == mapper.table[key])
    {
      var found := TranslationStore.GetTranslation(mapper.table, TranslationKey(entryId, language, revision));
      if found.None? {
        return NotFound;
      }
      resp := Response(200, TranslationBody(found.value));
    }

    /** `addNewTranslation`: reads the latest revision, then inserts the next one. */
    method AddNewTranslation(entryId: Int64, language: string, title: Option<string>,
                             content: Option<string>, now: int) returns (r: AddOutcome)
      modifies mapper
      ensures r == AddNew(old(mapper.table), entryId, language, title, content, now).outcome
      ensures mapper.table == AddNew(old(mapper.table), entryId, language, title, content, now).table
    {
      var next: Int32 := 1;
      var latest := LatestTranslation(mapper.table, entryId, language);
      if latest.Some? {
        if latest.value.title == title && latest.value.content == content {
          return Rejected(NoChange);
        }
        next := NextRevision(latest.value.key);
      }
      var translation := Translation(TranslationKey(entryId, language, next), title, content, now);
      var inserted := mapper.Insert(translation);
      if inserted.Failure? {
        return Rejected(ServerError);
      }
      r := Added(translation);
    }

    /** `POST translations/{entryId}`: 201 with the new revision, or 400 with the violations. */
    method PostTranslation(entryId: Int64, request: TranslationCreateRequest, now: int)
      returns (resp: Response)
      modifies mapper
      ensures !IsValid(request) ==>
        resp == Response(400, ErrorBody("Bad Request", 400, Validate(request))) &&
        mapper.table == old(mapper.table)
      ensures IsValid(request) ==>
        var a := AddNew(old(mapper.table), entryId, request.language.value, request.title, request.content, now);
        mapper.table == a.table &&
        resp == match a.outcome
          case Added(t) => Response(201, TranslationBody(t))
          case Rejected(failure) => failure
    {
      ValidIffNoNull(request);
      var violations := Validate(request);
      if violations == [] {
        var outcome := AddNewTranslation(entryId, request.language.value, request.title, request.content, now);
        match outcome
        case Added(t) => resp := Response(201, TranslationBody(t));
        case Rejected(failure) => resp := failure;
      } else {
        resp := Response(400, ErrorBody("Bad Request", 400, violations));
      }
    }

    /**
     * `POST translations/{entryId}/auto`: the entry translator's result stored as a new
     * revision.  A failure of the translator is the response it maps to.
     */
    method PostTranslationAutomatically(entryId: Int64, language: string,
                                        translator: (Int64, string) -> Result<Translated, Response>,
                                        now: int)
      returns (resp: Response)
      modifies mapper
      ensures translator(entryId, language).Failure? ==>
        resp == translator(entryId, language).error && mapper.table == old(mapper.table)
      ensures translator(entryId, language).Success? ==>
        var tr := translator(entryId, language).value;
        var a := AddNew(old(mapper.table), tr.entryId, tr.language, tr.title, tr.content, now);
        mapper.table == a.table &&
        resp == match a.outcome
          case Added(t) => Response(201, TranslationBody(t))
          case Rejected(failure) => failure
    {
      match translator(entryId, language)
      case Failure(failure) =>
        resp := failure;
      case Success(tr) =>
        var outcome := AddNewTranslation(tr.entryId, tr.language, tr.title, tr.content, now);
        match outcome
        case Added(t) => resp := Response(201, TranslationBody(t));
        case Rejected(failure) => resp := failure;
    }

    /** `DELETE translations/{entryId}/revisions/{revision}`: 204 whether or not a row existed. */
    method DeleteTranslation(entryId: Int64, revision: Int32, language: string) returns (resp: Response)
      modifies mapper
      ensures resp == Response(204, NoBody)
      ensures mapper.table == old(mapper.table) - {TranslationKey(entryId, language, revision)}
    {
      var _ := mapper.Delete(TranslationKey(entryId, language, revision));
      resp := Response(204, NoBody);
    }
  }

  // ---------------------------------------------------------------------------
  // Properties of addNewTranslation

  /** The first translation of an entry in a language gets revision 1. */
  lemma FirstRevisionIsOne(table: Table, entryId: Int64, language: string,
                           title: Option<string>, content: Option<string>, now: int)
    requires forall k :: k in table ==> !Selects(k, entryId, language)
    ensures AddNew(table, entryId, language, title, content, now).outcome
      == Added(Translation(TranslationKey(entryId, language, 1), title, content, now))
  {
    assert TranslationKey(entryId, language, 1) !in table;
  }

  /** A changed translation gets the latest revision plus one. */
  lemma NextRevisionIsLatestPlusOne(table: Table, entryId: Int64, language: string,
                                    title: Option<string>, content: Option<string>, now: int)
    requires LatestTranslation(table, entryId, language).Some?
    requires LatestTranslation(table, entryId, language).value.key.revision < MaxInt32
    requires !Unchanged(table, entryId, language, title, content)
    ensures var latest := LatestTranslation(table, entryId, language).value;
      AddNew(table, entryId, language, title, content, now).outcome
        == Added(Translation(TranslationKey(entryId, language, latest.key.revision + 1), title, content, now))
  {
    var latest := LatestTranslation(table, entryId, language).value;
    NextRevisionIncrements(latest.key);
  }

  /** Submitting the latest title and content again is rejected with 400 and stores nothing. */
  lemma UnchangedIsRejected(table: Table, entryId: Int64, language: string,
                            title: Option<string>, content: Option<string>, now: int)
    requires LatestTranslation(table, entryId, language).Some?
    requires LatestTranslation(table, entryId, language).value.title == title
    requires LatestTranslation(table, entryId, language).value.content == content
    ensures AddNew(table, entryId, language, title, content, now) == AddResult(Rejected(NoChange), table)
  {
  }

  /** Below the largest revision, a changed translation is always stored, and becomes the latest. */
  lemma AddedBecomesLatest(table: Table, entryId: Int64, language: string,
                           title: Option<string>, content: Option<string>, now: int)
    requires !Unchanged(table, entryId, language, title, content)
    requires forall k :: k in table && Selects(k, entryId, language) ==> k.revision < MaxInt32
    ensures var a := AddNew(table, entryId, language, title, content, now);
      a.outcome.Added? && LatestTranslation(a.table, entryId, language) == Some(a.outcome.translation)
  {
    var latest := LatestTranslation(table, entryId, language);
    if latest.Some? {
      NextRevisionIncrements(latest.value.key);
    }
    var t := Translation(TranslationKey(entryId, language, NextRevisionFor(table, entryId, language)),
                         title, content, now);
    assert forall k :: k in table && Selects(k, entryId, language) ==> k.revision < t.key.revision;
    InsertAboveLatest(table, t);
  }

  /**
   * At the largest revision, `nextRevision()` wraps: the translation stored next gets revision
   * -2^31 and the one at 2^31-1 stays the latest.
   */
  lemma WrappedRevisionIsNotLatest(table: Table, entryId: Int64, language: string,
                                   title: Option<string>, content: Option<string>, now: int)
    requires LatestTranslation(table, entryId, language).Some?
    requires LatestTranslation(table, entryId, language).value.key.revision == MaxInt32
    requires !Unchanged(table, entryId, language, title, content)
    requires TranslationKey(entryId, language, MinInt32) !in table
    ensures var a := AddNew(table, entryId, language, title, content, now);
      a.outcome.Added? && a.outcome.translation.key.revision == MinInt32 &&
      LatestTranslation(a.table, entryId, language) == LatestTranslation(table, entryId, language)
  {
    var latest := LatestTranslation(table, entryId, language).value;
    NextRevisionWraps(latest.key);
    var a := AddNew(table, entryId, language, title, content, now);
    var after := LatestTranslation(a.table, entryId, language).value;
    assert latest.key in a.table;
  }
}
