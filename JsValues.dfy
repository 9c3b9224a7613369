/**
 * The JavaScript and Drizzle conventions for optional values that both
 * services rely on: truthiness, `a || b`, and how `set()` treats a key
 * that is absent.
 */
module JsValues {
  import opened Wrappers

  /** JavaScript truthiness of an optional string: present and not empty. */
  predicate Truthy(v: Option<string>) {
    v.Some? && v.value != ""
  }

  /** `a || b` on optional strings. */
  function Or(a: Option<string>, b: Option<string>): Option<string> {
    if Truthy(a) then a else b
  }

  /** `v || null`. */
  function OrNull(v: Option<string>): Option<string> {
    Or(v, None)
  }

  /** `v || ''`. */
  function OrEmpty(v: Option<string>): string {
    if Truthy(v) then v.value else ""
  }

  /** A Drizzle `set` entry: an absent key keeps the column, a present one overwrites it. */
  function Patch<T>(current: T, supplied: Option<T>): T {
    match supplied
    case None => current
    case Some(v) => v
  }

  /** A nullable column written from an optional `string` field. */
  function PatchNullable(current: Option<string>, supplied: Option<string>): Option<string> {
    match supplied
    case None => current
    case Some(v) => Some(v)
  }

  /** A nullable column written from `given || null`: the given value when truthy, NULL otherwise. */
  predicate KeptOrNull(stored: Option<string>, given: Option<string>) {
    && (Truthy(given) ==> stored == given)
    && (!Truthy(given) ==> stored == None)
  }

  /** A column after a `set` entry: the supplied value when the key is present, the old value when absent. */
  predicate Patched<T(==)>(after: T, before: T, supplied: Option<T>) {
    && (supplied.Some? ==> after == supplied.value)
    && (supplied.None? ==> after == before)
  }

  /** The same for a nullable column: a supplied string is stored as it is, even when empty. */
  predicate PatchedNullable(after: Option<string>, before: Option<string>, supplied: Option<string>) {
    && (supplied.Some? ==> after == supplied)
    && (supplied.None? ==> after == before)
  }

  /** `v || null` never stores an empty string, and keeps every truthy value. */
  lemma OrNullFacts(v: Option<string>)
    ensures OrNull(v) != Some("")
    ensures Truthy(v) <==> OrNull(v) == v && v.Some?
    ensures !Truthy(v) <==> OrNull(v) == None
  {
  }

  /** `v || ''` reads a NULL and an empty string alike, and any other value as itself. */
  lemma OrEmptyFacts(v: Option<string>)
    ensures OrEmpty(v) == v.GetOr("")
  {
  }
}
