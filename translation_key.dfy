/**
 * TranslationKey: the identity of one stored translation revision, and Translation, the
 * stored record itself.
 *
 * Java's boxed `Long` and `Integer` are modelled by their value ranges; `nextRevision`
 * adds one with Java `int` arithmetic, so it wraps from 2^31-1 to -2^31.
 */
module TranslationKeys {
  import opened Wrappers

  const MinInt32: int := -0x8000_0000
  const MaxInt32: int := 0x7fff_ffff

  /** A Java `int` (and the value of a non-null `Integer`). */
  type Int32 = x: int | -0x8000_0000 <= x < 0x8000_0000

  /** A Java `long` (and the value of a non-null `Long`). */
  type Int64 = x: int | -0x8000_0000_0000_0000 <= x < 0x8000_0000_0000_0000

  /** Reduction of an exact integer to the 32-bit two's-complement range. */
  function WrapInt32(x: int): (r: Int32)
    ensures (r - x) % 0x1_0000_0000 == 0
    ensures MinInt32 <= x <= MaxInt32 ==> r == x
  {
    (x + 0x8000_0000) % 0x1_0000_0000 - 0x8000_0000
  }

  datatype TranslationKey = TranslationKey(entryId: Int64, language: string, revision: Int32)

  /** `revision + 1` in Java `int` arithmetic. */
  function NextRevision(key: TranslationKey): (r: Int32)
    ensures (r - (key.revision + 1)) % 0x1_0000_0000 == 0
  {
    WrapInt32(key.revision + 1)
  }

  /**
   * A stored translation.  `title` and `content` are nullable Java strings; `createdAt` is the
   * creation instant, as a number.
   */
  datatype Translation = Translation(
    key: TranslationKey,
    title: Option<string>,
    content: Option<string>,
    createdAt: int)

  // ---------------------------------------------------------------------------
  // Properties of nextRevision

  /** Below the largest `int`, the next revision is one more than the current one. */
  lemma NextRevisionIncrements(key: TranslationKey)
    requires key.revision < MaxInt32
    ensures NextRevision(key) == key.revision + 1
  {
  }

  /** At the largest `int`, the next revision wraps to the smallest one. */
  lemma NextRevisionWraps(key: TranslationKey)
    requires key.revision == MaxInt32
    ensures NextRevision(key) == MinInt32
  {
  }

  /** The next revision is larger exactly when the current one is below the largest `int`. */
  lemma NextRevisionGrows(key: TranslationKey)
    ensures NextRevision(key) > key.revision <==> key.revision < MaxInt32
  {
    if key.revision == MaxInt32 {
      NextRevisionWraps(key);
    } else {
      NextRevisionIncrements(key);
    }
  }

  /** Only the revision matters: entry id and language do not. */
  lemma NextRevisionOnlyUsesRevision(a: TranslationKey, b: TranslationKey)
    requires a.revision == b.revision
    ensures NextRevision(a) == NextRevision(b)
  {
  }

  /** Record equality: two keys are equal exactly when all three components are. */
  lemma KeyEquality(a: TranslationKey, b: TranslationKey)
    ensures a == b <==> a.entryId == b.entryId && a.language == b.language && a.revision == b.revision
  {
  }
}
