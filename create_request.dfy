/**
 * TranslationCreateRequest: the body of a request that stores a new translation revision,
 * and its validator — three not-null constraints, checked in declaration order.
 */
module CreateRequest {
  import opened Wrappers

  /** The three fields are nullable Java strings. */
  datatype TranslationCreateRequest = TranslationCreateRequest(
    language: Option<string>,
    title: Option<string>,
    content: Option<string>)

  /** One constraint violation: the field it names and the message key of the broken constraint. */
  datatype Violation = Violation(field: string, messageKey: string)

  const NotNullKey: string := "object.notNull"

  /** The position of a constrained field in the validator's declaration. */
  function FieldRank(field: string): nat {
    if field == "language" then 0 else if field == "title" then 1 else 2
  }

  function NotNull(field: string, value: Option<string>): seq<Violation> {
    if value.None? then [Violation(field, NotNullKey)] else []
  }

  /** The violations of the request, in constraint declaration order. */
  function Validate(req: TranslationCreateRequest): (r: seq<Violation>)
    ensures forall v :: v in r ==> v.field in {"language", "title", "content"} && v.messageKey == NotNullKey
    ensures Violation("language", NotNullKey) in r <==> req.language.None?
    ensures Violation("title", NotNullKey) in r <==> req.title.None?
    ensures Violation("content", NotNullKey) in r <==> req.content.None?
    ensures forall i, j :: 0 <= i < j < |r| ==> FieldRank(r[i].field) < FieldRank(r[j].field)
  {
    NotNull("language", req.language) + NotNull("title", req.title) + NotNull("content", req.content)
  }

  /** `ConstraintViolations.isValid()`: there is no violation. */
  predicate IsValid(req: TranslationCreateRequest) {
    Validate(req) == []
  }

  /** A request is valid exactly when none of its fields is null. */
  lemma ValidIffNoNull(req: TranslationCreateRequest)
    ensures IsValid(req) <==> req.language.Some? && req.title.Some? && req.content.Some?
  {
    if !IsValid(req) {
      var v := Validate(req)[0];
      assert v in Validate(req);
    }
  }

  /** Only nullness is checked: empty strings are accepted. */
  lemma EmptyStringsAreValid()
    ensures IsValid(TranslationCreateRequest(Some(""), Some(""), Some("")))
  {
  }

  /** An empty request yields three violations naming language, title and content, in that order. */
  lemma AllNullViolations()
    ensures Validate(TranslationCreateRequest(None, None, None))
      == [Violation("language", NotNullKey), Violation("title", NotNullKey), Violation("content", NotNullKey)]
  {
  }
}
