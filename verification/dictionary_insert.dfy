/** `insert(key:value:)` (Dictionary.swift): store a value only when the
    key is absent, and report whether it was stored together with the value
    the dictionary now holds for the key. */
module DictionaryInsert {

  /** The mutated dictionary and the returned `(Bool, Value)` pair. */
  datatype Inserted<K, V> = Inserted(dict: map<K, V>, inserted: bool, stored: V)

  function Insert<K, V>(d: map<K, V>, key: K, value: V): (r: Inserted<K, V>)
    ensures r.inserted <==> key !in d
    ensures key in r.dict && r.dict[key] == r.stored
    ensures r.inserted ==> r.stored == value
    ensures !r.inserted ==> r.dict == d
    ensures r.dict.Keys == d.Keys + {key}
    ensures forall k :: k in d ==> r.dict[k] == d[k]
  {
    if key in d then Inserted(d, false, d[key])
    else Inserted(d[key := value], true, value)
  }

  /** A second insert under the same key changes nothing and reports the
      value the first one left there, whatever value it offers. */
  lemma {:induction false} SecondInsertIsNoOp<K, V>(d: map<K, V>, key: K, first: V, second: V)
    ensures var r := Insert(d, key, first);
      Insert(r.dict, key, second) == Inserted(r.dict, false, r.stored)
  {
  }

  /** Inserting is the same as a plain assignment exactly when the key was
      absent. */
  lemma InsertVersusAssignment<K, V>(d: map<K, V>, key: K, value: V)
    ensures Insert(d, key, value).dict == d[key := value] <==> key !in d || d[key] == value
  {
    if key in d && Insert(d, key, value).dict == d[key := value] {
      assert d[key := value][key] == value;
    }
  }
}
