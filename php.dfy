/**
 * The few PHP value semantics the widget relies on.
 *
 * A PHP string is a byte string; here each `char` of a Dafny `string` stands
 * for one byte. A widget instance is a PHP array from setting names to
 * strings; reading a key it does not hold yields `null`, modelled as `None`.
 */
module Php {
  import opened Wrappers

  /** The settings array of one widget instance. */
  type Instance = map<string, string>

  /** `$instance[key]`: the stored string, or `null` when the key is absent. */
  function Get(instance: Instance, key: string): (v: Option<string>)
    ensures v.Some? <==> key in instance
    ensures v.Some? ==> v.value == instance[key]
  {
    if key in instance then Some(instance[key]) else None
  }

  /** PHP's `empty()` on a string: true exactly for `""` and `"0"`. */
  predicate IsEmpty(s: string) {
    s == "" || s == "0"
  }

  /** PHP's `empty()` on a possibly-null string. */
  predicate IsEmptyValue(v: Option<string>) {
    v.None? || IsEmpty(v.value)
  }

  /** A possibly-null string used where a string is expected: `null` reads as `""`. */
  function StringOf(v: Option<string>): string {
    v.GetOr("")
  }
}
