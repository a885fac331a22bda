/** The translation store: locale -> key -> value, mutated in place by add. */
module Translations {
  import opened Common

  type Container = map<string, map<string, Value>>

  /** What the loader hands to add: one (key, value, locale) triple. */
  datatype Entry = Entry(key: string, value: Value, locale: string)

  /** The partition of a locale; a locale never added reads as empty. */
  function Partition(c: Container, locale: string): map<string, Value>
  {
    if locale in c then c[locale] else map[]
  }

  /** has(key, locale) on the container c. */
  predicate Contains(c: Container, key: string, locale: string)
    // exactly the pairs get can return: an absent locale has no keys
    ensures Contains(c, key, locale) <==> locale in c && key in c[locale]
  {
    key in Partition(c, locale)
  }

  /** get(key, locale): container[locale][key], a KeyError naming the missing
      locale or the missing key otherwise. */
  function Lookup(c: Container, key: string, locale: string): (r: Result<Value>)
    ensures r.Success? <==> Contains(c, key, locale)
    ensures r.Success? ==> r.value == c[locale][key]
    ensures locale !in c ==> r == Failure(KeyNotFound(locale))
    ensures locale in c && key !in c[locale] ==> r == Failure(KeyNotFound(key))
  {
    if locale !in c then Failure(KeyNotFound(locale))
    else if key !in c[locale] then Failure(KeyNotFound(key))
    else Success(c[locale][key])
  }

  /** add(key, value, locale): setdefault(locale, {})[key] = value. */
  function Insert(c: Container, key: string, value: Value, locale: string): (r: Container)
    ensures locale in r && key in r[locale] && r[locale][key] == value
    // the locale's partition gains the key, keeping its other entries
    ensures r[locale].Keys == Partition(c, locale).Keys + {key}
    ensures forall k :: k in Partition(c, locale) && k != key ==> r[locale][k] == Partition(c, locale)[k]
    // no locale is lost and every other locale is untouched
    ensures r.Keys == c.Keys + {locale}
    ensures forall l :: l in c && l != locale ==> r[l] == c[l]
  {
    c[locale := Partition(c, locale)[key := value]]
  }

  /** The store after a sequence of add calls, applied left to right. */
  function AddAll(c: Container, entries: seq<Entry>): Container
  {
    if entries == [] then c
    else
      var last := entries[|entries| - 1];
      Insert(AddAll(c, entries[..|entries| - 1]), last.key, last.value, last.locale)
  }

  /** After add, the pair is present and get returns exactly the new value,
      whatever was stored there before (the code overwrites). */
  lemma AddThenGet(c: Container, key: string, value: Value, locale: string)
    ensures Contains(Insert(c, key, value, locale), key, locale)
    ensures Lookup(Insert(c, key, value, locale), key, locale) == Success(value)
  {
  }

  /** Two adds of the same pair: the second value wins. */
  lemma AddOverwrites(c: Container, key: string, v1: Value, v2: Value, locale: string)
    ensures Lookup(Insert(Insert(c, key, v1, locale), key, v2, locale), key, locale) == Success(v2)
  {
  }

  /** add touches only the (locale, key) entry: every other pair keeps its
      presence and its value, and every other locale's partition is unchanged. */
  lemma AddFrame(c: Container, key: string, value: Value, locale: string, k: string, l: string)
    requires k != key || l != locale
    ensures Contains(Insert(c, key, value, locale), k, l) <==> Contains(c, k, l)
    ensures Lookup(Insert(c, key, value, locale), k, l).Success? ==>
              Lookup(Insert(c, key, value, locale), k, l) == Lookup(c, k, l)
    ensures l != locale ==> Partition(Insert(c, key, value, locale), l) == Partition(c, l)
  {
  }

  /** add on an unseen locale creates its partition holding just that entry;
      the locales already present are all kept. */
  lemma AddCreatesPartition(c: Container, key: string, value: Value, locale: string)
    ensures Insert(c, key, value, locale).Keys == c.Keys + {locale}
    ensures locale !in c ==> Insert(c, key, value, locale)[locale] == map[key := value]
  {
  }

  /** has is false, without error, for a locale that was never added. */
  lemma HasUnknownLocale(c: Container, key: string, locale: string)
    requires locale !in c
    ensures !Contains(c, key, locale)
    ensures Lookup(c, key, locale) == Failure(KeyNotFound(locale))
  {
  }

  /** A run of adds never removes a pair: presence only grows. */
  lemma {:induction false} AddAllKeeps(c: Container, entries: seq<Entry>, key: string, locale: string)
    requires Contains(c, key, locale)
    ensures Contains(AddAll(c, entries), key, locale)
  {
    if entries != [] {
      AddAllKeeps(c, entries[..|entries| - 1], key, locale);
    }
  }

  /** The same for every pair at once. */
  lemma AddAllGrows(c: Container, entries: seq<Entry>)
    ensures forall k, l :: Contains(c, k, l) ==> Contains(AddAll(c, entries), k, l)
  {
    forall k, l | Contains(c, k, l)
      ensures Contains(AddAll(c, entries), k, l)
    {
      AddAllKeeps(c, entries, k, l);
    }
  }

  /** A pair present after a run of adds was present before or was added by one
      of the entries. */
  lemma {:induction false} AddAllOnlyFromEntries(c: Container, entries: seq<Entry>, key: string, locale: string)
    requires Contains(AddAll(c, entries), key, locale)
    ensures Contains(c, key, locale) ||
            exists i :: 0 <= i < |entries| && entries[i].key == key && entries[i].locale == locale
  {
    if entries != [] {
      var n := |entries| - 1;
      if entries[n].key != key || entries[n].locale != locale {
        AddAllOnlyFromEntries(c, entries[..n], key, locale);
        if !Contains(c, key, locale) {
          var i :| 0 <= i < n && entries[..n][i].key == key && entries[..n][i].locale == locale;
          assert entries[i] == entries[..n][i];
        }
      }
    }
  }

  /** The module-level container of translations.py. */
  class Store {
    var container: Container

    constructor ()
      ensures container == map[]
    {
      container := map[];
    }

    method Add(key: string, value: Value, locale: string)
      modifies this
      ensures container == Insert(old(container), key, value, locale)
    {
      var partition := if locale in container then container[locale] else map[];
      container := container[locale := partition[key := value]];
    }

    method Has(key: string, locale: string) returns (b: bool)
      ensures b <==> Contains(container, key, locale)
    {
      b := locale in container && key in container[locale];
    }

    method Get(key: string, locale: string) returns (r: Result<Value>)
      ensures r == Lookup(container, key, locale)
    {
      if locale !in container {
        return Failure(KeyNotFound(locale));
      }
      if key !in container[locale] {
        return Failure(KeyNotFound(key));
      }
      r := Success(container[locale][key]);
    }
  }
}
