/**
 Python dictionaries whose insertion order matters: setting an existing key keeps its place,
 a new key goes to the end, and `pop(next(iter(d)))` removes the oldest entry.
 */
module OrderedDict {
  import opened JsonValue

  type Dict<K, V> = seq<(K, V)>

  function Find<K(==), V>(d: Dict<K, V>, key: K): Option<V> {
    if d == [] then None else if d[0].0 == key then Some(d[0].1) else Find(d[1..], key)
  }

  predicate Unique<K(==), V>(d: Dict<K, V>) {
    d == [] || (Find(d[1..], d[0].0).None? && Unique(d[1..]))
  }

  function Put<K(==), V>(d: Dict<K, V>, key: K, value: V): Dict<K, V> {
    if d == [] then [(key, value)]
    else if d[0].0 == key then [(key, value)] + d[1..]
    else [d[0]] + Put(d[1..], key, value)
  }

  function Remove<K(==), V>(d: Dict<K, V>, key: K): Dict<K, V> {
    if d == [] then [] else if d[0].0 == key then d[1..] else [d[0]] + Remove(d[1..], key)
  }

  lemma {:induction false} PutSpec<K, V>(d: Dict<K, V>, key: K, value: V)
    requires Unique(d)
    ensures Unique(Put(d, key, value))
    ensures forall x :: Find(Put(d, key, value), x) == if x == key then Some(value) else Find(d, x)
    ensures if Find(d, key).Some? then |Put(d, key, value)| == |d| else Put(d, key, value) == d + [(key, value)]
  {
    if d != [] {
      if d[0].0 == key {
        assert Put(d, key, value)[1..] == d[1..];
      } else {
        PutSpec(d[1..], key, value);
        assert Put(d, key, value)[1..] == Put(d[1..], key, value);
      }
    }
  }

  lemma {:induction false} RemoveSpec<K, V>(d: Dict<K, V>, key: K)
    requires Unique(d)
    ensures Unique(Remove(d, key))
    ensures forall x :: Find(Remove(d, key), x) == if x == key then None else Find(d, x)
    ensures |Remove(d, key)| == if Find(d, key).Some? then |d| - 1 else |d|
  {
    if d != [] && d[0].0 != key {
      RemoveSpec(d[1..], key);
      assert Remove(d, key)[1..] == Remove(d[1..], key);
    }
  }

  lemma DropFirstSpec<K, V>(d: Dict<K, V>)
    requires Unique(d) && d != []
    ensures Unique(d[1..])
    ensures forall x :: Find(d[1..], x) == if x == d[0].0 then None else Find(d, x)
  {
  }

  lemma {:induction false} EntryFound<K, V>(d: Dict<K, V>, i: nat)
    requires i < |d|
    ensures Find(d, d[i].0).Some?
  {
    if i > 0 {
      EntryFound(d[1..], i - 1);
    }
  }

  lemma {:induction false} FoundAt<K, V>(d: Dict<K, V>, key: K) returns (p: nat)
    requires Find(d, key).Some?
    ensures p < |d| && d[p].0 == key && Find(d, key) == Some(d[p].1)
  {
    if d[0].0 == key {
      p := 0;
    } else {
      var q := FoundAt(d[1..], key);
      p := q + 1;
    }
  }

  /** Setting an existing key changes the entry at its place. */
  lemma {:induction false} PutAt<K, V>(d: Dict<K, V>, key: K, value: V) returns (p: nat)
    requires Find(d, key).Some?
    ensures p < |d| && d[p].0 == key && Put(d, key, value) == d[p := (key, value)]
  {
    if d[0].0 == key {
      p := 0;
    } else {
      var q := PutAt(d[1..], key, value);
      p := q + 1;
    }
  }

  /** Removing a key closes the gap it leaves. */
  lemma {:induction false} RemoveAt<K, V>(d: Dict<K, V>, key: K) returns (p: nat)
    ensures p <= |d|
    ensures if Find(d, key).Some? then p < |d| && Remove(d, key) == d[..p] + d[p + 1..] else Remove(d, key) == d
  {
    if d == [] || d[0].0 == key {
      p := 0;
    } else {
      var q := RemoveAt(d[1..], key);
      p := q + 1;
    }
  }
}
