/** `findTranslation` (`src/lib/shared/util/findTranslation.svelte.ts`):
    picks the translation for the current locale, which the caller passes
    in instead of reading the settings store. */
module Translations {
  import opened Wrappers

  /** Anything with a `locale`. */
  datatype Localized<T> = Localized(locale: string, content: T)

  /** Some element's locale is exactly `locale`. */
  predicate HasExact<T>(ts: seq<Localized<T>>, locale: string) {
    exists j :: 0 <= j < |ts| && ts[j].locale == locale
  }

  /** `j` is the first element whose locale is exactly `locale`. */
  predicate FirstExact<T>(ts: seq<Localized<T>>, locale: string, j: int) {
    0 <= j < |ts| && ts[j].locale == locale && forall k :: 0 <= k < j ==> ts[k].locale != locale
  }

  /** `j` is what is kept without an exact match: the last element after the
      first whose locale contains `locale`, or else the first element. */
  predicate Fallback<T>(ts: seq<Localized<T>>, locale: string, j: int) {
    0 <= j < |ts| && (j == 0 || Includes(ts[j].locale, locale)) &&
    forall k :: j < k < |ts| ==> !Includes(ts[k].locale, locale)
  }

  /** `findTranslation(translations)` with the current locale `locale`:
      the first element is kept, a later one replaces it when its locale
      contains `locale`, and the scan stops at an exact match. An empty
      list gives `None` (`undefined`, whatever the non-null assertion
      claims). */
  method FindTranslation<T>(translations: seq<Localized<T>>, locale: string) returns (translation: Option<Localized<T>>)
    ensures translation.None? <==> translations == []
    ensures forall j :: FirstExact(translations, locale, j) ==> translation == Some(translations[j])
    ensures !HasExact(translations, locale) && translations != [] ==>
      exists j :: Fallback(translations, locale, j) && translation == Some(translations[j])
  {
    translation := None;
    ghost var kept := -1;
    var i := 0;
    while i < |translations|
      invariant 0 <= i <= |translations|
      invariant forall k :: 0 <= k < i ==> translations[k].locale != locale
      invariant i == 0 <==> translation.None?
      invariant i > 0 ==> 0 <= kept < i && translation == Some(translations[kept])
      invariant i > 0 ==> (kept == 0 || Includes(translations[kept].locale, locale))
      invariant forall k :: kept < k < i ==> !Includes(translations[k].locale, locale)
    {
      var t := translations[i];
      if translation.None? || Includes(t.locale, locale) {
        translation := Some(t);
        kept := i;
      }
      if t.locale == locale {
        IncludesSelf(locale);
        assert FirstExact(translations, locale, i);
        ExactIsFirst(translations, locale, i);
        return;
      }
      i := i + 1;
    }
    assert translations != [] ==> Fallback(translations, locale, kept);
  }

  /** Every string contains itself. */
  lemma IncludesSelf(s: string)
    ensures Includes(s, s)
  {
  }

  /** There is only one first exact match. */
  lemma ExactIsFirst<T>(ts: seq<Localized<T>>, locale: string, j: int)
    requires FirstExact(ts, locale, j)
    ensures forall k :: FirstExact(ts, locale, k) ==> k == j
  {
  }

  /** The fallback is determined: at most one position qualifies. */
  lemma FallbackUnique<T>(ts: seq<Localized<T>>, locale: string, j1: int, j2: int)
    requires Fallback(ts, locale, j1) && Fallback(ts, locale, j2)
    ensures j1 == j2
  {
  }
}
