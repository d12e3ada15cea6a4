/**
 Localized-value extraction: how the plugin turns an untyped field value into
 one display string for a locale (src/utils/extractLocalizedString.ts).
 */
module Localized {
  import opened Wrappers
  import opened JsText

  /**
   An untyped field value as the plugin sees it. `Obj` lists an object's own
   properties in `Object.keys` order (keys are distinct); `Primitive` is a number
   or boolean, carrying its JavaScript string form; `Null` stands for `null` and
   `undefined`.
   */
  datatype Value =
    | Str(s: string)
    | Obj(entries: seq<(string, Value)>)
    | Primitive(text: string)
    | Null

  /** Entry `i` is the first one, in key order, whose key starts with `prefix`. */
  ghost predicate IsFirstWithPrefix(entries: seq<(string, Value)>, prefix: string, i: int) {
    && 0 <= i < |entries|
    && StartsWith(entries[i].0, prefix)
    && forall j | 0 <= j < i :: !StartsWith(entries[j].0, prefix)
  }

  /** No key of the object starts with `prefix`. */
  ghost predicate NoKeyWithPrefix(entries: seq<(string, Value)>, prefix: string) {
    forall j | 0 <= j < |entries| :: !StartsWith(entries[j].0, prefix)
  }

  /**
   The first key, in key order from entry `from` on, that starts with `prefix`,
   answered as the index of its entry.
   */
  function FindKey(entries: seq<(string, Value)>, prefix: string, from: nat): (r: Option<nat>)
    requires from <= |entries|
    ensures r.Some? ==> from <= r.value < |entries| && StartsWith(entries[r.value].0, prefix)
    ensures r.Some? ==> forall j | from <= j < r.value :: !StartsWith(entries[j].0, prefix)
    ensures r.None? ==> forall j | from <= j < |entries| :: !StartsWith(entries[j].0, prefix)
    decreases |entries| - from
  {
    if from == |entries| then None
    else if StartsWith(entries[from].0, prefix) then Some(from)
    else FindKey(entries, prefix, from + 1)
  }

  /** JavaScript truthiness of the key found: no key, or the key "", counts as not found. */
  predicate KeyFound(entries: seq<(string, Value)>, found: Option<nat>) {
    found.Some? && found.value < |entries| && entries[found.value].0 != ""
  }

  /** The value itself when it is a non-empty string, else "". */
  function NonEmptyStringOr(v: Value): (r: string)
    ensures r != "" <==> v.Str? && v.s != ""
    ensures r != "" ==> r == v.s
  {
    match v
    case Str(s) => if |s| > 0 then s else ""
    case _ => ""
  }

  /**
   `extractLocalizedString(input, locale)`. A string is returned as it is; for
   an object the first key starting with `locale` is chosen, and only when there
   is none and `locale` has a region part is the base language (the text before
   the first "-") tried; the chosen key's value is returned when it is a
   non-empty string. Everything else yields "".
   */
  function Extract(input: Value, locale: string): (r: string)
    // A string input is returned unchanged, whatever the locale.
    ensures input.Str? ==> r == input.s
    // null, undefined, numbers and booleans yield "".
    ensures input.Null? || input.Primitive? ==> r == ""
    // The first key starting with the full locale decides, with no fallback.
    ensures input.Obj? ==> forall i | IsFirstWithPrefix(input.entries, locale, i) ::
      r == (if input.entries[i].0 == "" then "" else NonEmptyStringOr(input.entries[i].1))
    // With no full-locale key and a region part, the base language decides.
    ensures input.Obj? && NoKeyWithPrefix(input.entries, locale) && '-' in locale ==>
      forall i | IsFirstWithPrefix(input.entries, BeforeFirst(locale, '-'), i) ::
        r == (if input.entries[i].0 == "" then "" else NonEmptyStringOr(input.entries[i].1))
    // Nothing matches: "".
    ensures input.Obj? && NoKeyWithPrefix(input.entries, locale) && '-' !in locale ==> r == ""
    ensures (input.Obj? && NoKeyWithPrefix(input.entries, locale) &&
             NoKeyWithPrefix(input.entries, BeforeFirst(locale, '-'))) ==> r == ""
    // The result is the input string, one of the object's string values, or "".
    ensures r == "" || (input.Str? && r == input.s)
      || (input.Obj? && exists i | 0 <= i < |input.entries| :: input.entries[i].1 == Str(r))
  {
    match input
    case Str(s) => s
    case Obj(entries) =>
      var full := FindKey(entries, locale, 0);
      var closest :=
        if !KeyFound(entries, full) && '-' in locale
        then FindKey(entries, BeforeFirst(locale, '-'), 0)
        else full;
      if !KeyFound(entries, closest) then ""
      else NonEmptyStringOr(entries[closest.value].1)
    case Primitive(_) => ""
    case Null => ""
  }
}
