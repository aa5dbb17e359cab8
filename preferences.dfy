/** The activity's `SharedPreferences` file as an in-memory map from key to
    stored value. A value is stored either as a `Long` or as a `Boolean`. */
module Preferences {

  datatype PrefValue = LongPref(long: int) | BooleanPref(boolean: bool)

  type Prefs = map<string, PrefValue>

  /** `getLong` throws unless the key is absent or holds a `Long`. */
  predicate LongOrAbsent(p: Prefs, key: string) {
    key in p ==> p[key].LongPref?
  }

  /** `getBoolean` throws unless the key is absent or holds a `Boolean`. */
  predicate BooleanOrAbsent(p: Prefs, key: string) {
    key in p ==> p[key].BooleanPref?
  }

  function GetLong(p: Prefs, key: string, default: int): int
    requires LongOrAbsent(p, key)
  {
    if key in p then p[key].long else default
  }

  function GetBoolean(p: Prefs, key: string, default: bool): bool
    requires BooleanOrAbsent(p, key)
  {
    if key in p then p[key].boolean else default
  }

  function PutLong(p: Prefs, key: string, value: int): Prefs {
    p[key := LongPref(value)]
  }

  function PutBoolean(p: Prefs, key: string, value: bool): Prefs {
    p[key := BooleanPref(value)]
  }

  /** A key never written reads as the default the reader gives; a value
      written is read back, whatever the default; and writing one key leaves
      every reading of every other key as it was. */
  lemma PutThenGet(p: Prefs, key: string, other: string, value: int, flag: bool, default: int, b: bool)
    requires other != key
    ensures key !in p ==> GetLong(p, key, default) == default && GetBoolean(p, key, b) == b
    ensures GetLong(PutLong(p, key, value), key, default) == value
    ensures GetBoolean(PutBoolean(p, key, flag), key, !flag) == flag
    ensures LongOrAbsent(p, other) ==> GetLong(PutLong(p, key, value), other, default) == GetLong(p, other, default)
    ensures LongOrAbsent(p, other) ==> GetLong(PutBoolean(p, key, flag), other, default) == GetLong(p, other, default)
    ensures BooleanOrAbsent(p, other) ==> GetBoolean(PutLong(p, key, value), other, b) == GetBoolean(p, other, b)
    ensures BooleanOrAbsent(p, other) ==> GetBoolean(PutBoolean(p, key, flag), other, b) == GetBoolean(p, other, b)
  {
  }
}
