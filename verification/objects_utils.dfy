/** `objectsUtils.skipField` (src/core/utils/objectsUtils.ts): a copy of an
    object without one key, built by rest destructuring. */
module ObjectsUtils {

  /** The object without `key`; every other key keeps its value. The input
      is a value and is never changed. */
  function SkipField<K, V>(entity: map<K, V>, key: K): (rest: map<K, V>)
    ensures key !in rest
    ensures rest.Keys == entity.Keys - {key}
    ensures forall k :: k in rest ==> rest[k] == entity[k]
  {
    entity - {key}
  }

  /** Skipping a key the object does not have gives an equal object. */
  lemma SkipAbsentField<K, V>(entity: map<K, V>, key: K)
    requires key !in entity
    ensures SkipField(entity, key) == entity
  {
  }

  /** Skipping the same key twice is skipping it once. */
  lemma SkipFieldIdempotent<K, V>(entity: map<K, V>, key: K)
    ensures SkipField(SkipField(entity, key), key) == SkipField(entity, key)
  {
  }
}
