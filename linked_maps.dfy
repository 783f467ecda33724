/** A `LinkedHashMap<String, Object>` as the sequence of its entries in
    insertion order, with the three operations the key uses: `get`, `put` and
    `remove`. */
module LinkedMaps {
  import opened Values

  type Entry = (string, Value)

  /** The entries of a map, in iteration (insertion) order. */
  type Bindings = seq<Entry>

  /** No key occurs in two entries: what every `java.util.Map` guarantees. */
  predicate Distinct(m: Bindings) {
    forall i, j :: 0 <= i < j < |m| ==> m[i].0 != m[j].0
  }

  /** The keys of the entries. */
  function Keys(m: Bindings): set<string> {
    set e | e in m :: e.0
  }

  /** What the map associates with each key, forgetting the order. */
  function Content(m: Bindings): map<string, Value> {
    if m == [] then map[] else Content(m[1..])[m[0].0 := m[0].1]
  }

  /** `map.get(key)`: the bound value, or `null` for a key that is absent. */
  function Get(m: Bindings, key: string): Value {
    if key in Content(m) then Content(m)[key] else Null
  }

  /** `map.put(key, value)`: a present key keeps its place and takes the new
      value (see `PutKeepsOrder`); an absent key is appended at the end. */
  function Put(m: Bindings, key: string, value: Value): (r: Bindings)
    ensures Content(r) == Content(m)[key := value]
    ensures Distinct(m) ==> Distinct(r)
  {
    if m == [] then [(key, value)]
    else if m[0].0 == key then
      DistinctCons(m);
      [(key, value)] + m[1..]
    else
      var rest := Put(m[1..], key, value);
      PrependKept(m, rest, {key});
      [m[0]] + rest
  }

  /** `put` on a present key leaves every key where it was; on an absent key
      it appends the new entry. */
  lemma {:induction false} PutKeepsOrder(m: Bindings, key: string, value: Value)
    ensures key in Keys(m) ==>
              |Put(m, key, value)| == |m| &&
              forall i :: 0 <= i < |m| ==> Put(m, key, value)[i].0 == m[i].0
    ensures key !in Keys(m) ==> Put(m, key, value) == m + [(key, value)]
  {
    if m != [] && m[0].0 != key {
      PutKeepsOrder(m[1..], key, value);
      KeysCons(m);
    }
  }

  /** `map.remove(key)`: drops the entry of `key`, if any; the other entries
      keep their order. */
  function Remove(m: Bindings, key: string): (r: Bindings)
    ensures Content(r) == Content(m) - {key}
    ensures Distinct(m) ==> Distinct(r)
  {
    if m == [] then []
    else
      var rest := Remove(m[1..], key);
      DistinctCons(m);
      if m[0].0 == key then
        UpdateRemoved(Content(m[1..]), key, m[0].1);
        rest
      else
        PrependKept(m, rest, {});
        [m[0]] + rest
  }

  /** `remove` keeps exactly the entries whose key differs, in their order:
      an absent key leaves the map as it is, and in a map without duplicates
      a present key's entry is cut out where it stands. */
  lemma {:induction false} RemoveKeepsOthers(m: Bindings, key: string)
    ensures forall e :: e in Remove(m, key) <==> e in m && e.0 != key
    ensures key !in Keys(m) ==> Remove(m, key) == m
    ensures Distinct(m) && key in Keys(m) ==>
              exists j :: 0 <= j < |m| && m[j].0 == key && Remove(m, key) == m[..j] + m[j + 1..]
  {
    if m != [] {
      RemoveKeepsOthers(m[1..], key);
    }
    if key !in Keys(m) {
      RemoveAbsent(m, key);
    } else if Distinct(m) {
      var j := RemoveCutsOut(m, key);
    }
  }

  /** Removing an absent key changes nothing. */
  lemma {:induction false} RemoveAbsent(m: Bindings, key: string)
    requires key !in Keys(m)
    ensures Remove(m, key) == m
  {
    if m != [] {
      KeysCons(m);
      RemoveAbsent(m[1..], key);
    }
  }

  /** In a map without duplicates, removing a present key cuts its one entry out. */
  lemma {:induction false} RemoveCutsOut(m: Bindings, key: string) returns (j: nat)
    requires Distinct(m) && key in Keys(m)
    ensures j < |m| && m[j].0 == key && Remove(m, key) == m[..j] + m[j + 1..]
  {
    KeysCons(m);
    DistinctCons(m);
    var t := m[1..];
    if m[0].0 == key {
      RemoveAbsent(t, key);
      assert m[..0] + m[1..] == t;
      j := 0;
    } else {
      var i := RemoveCutsOut(t, key);
      assert m[..i + 1] + m[i + 2..] == [m[0]] + (t[..i] + t[i + 1..]);
      j := i + 1;
    }
  }

  /** A map without duplicates is its first entry, whose key the rest lacks,
      followed by a map without duplicates. */
  lemma DistinctCons(m: Bindings)
    requires m != []
    ensures Distinct(m) <==> m[0].0 !in Keys(m[1..]) && Distinct(m[1..])
  {
    if !Distinct(m) && m[0].0 !in Keys(m[1..]) {
      var i, j :| 0 <= i < j < |m| && m[i].0 == m[j].0;
      if i > 0 {
        assert m[1..][i - 1].0 == m[1..][j - 1].0;
      }
    }
  }

  /** Any entry followed by a map without duplicates that lacks its key is
      again without duplicates. */
  lemma DistinctPrepend(e: Entry, rest: Bindings)
    requires e.0 !in Keys(rest) && Distinct(rest)
    ensures Distinct([e] + rest)
  {
    var r := [e] + rest;
    forall i, j | 0 <= i < j < |r| ensures r[i].0 != r[j].0 {
      if i == 0 {
        assert r[j] in rest;
      }
    }
  }

  /** The first entry can be kept in front of a rewritten rest whose keys
      are the old ones plus some the first key is not among. */
  lemma PrependKept(m: Bindings, rest: Bindings, extra: set<string>)
    requires m != [] && m[0].0 !in extra
    requires Content(rest).Keys <= Content(m[1..]).Keys + extra
    requires Distinct(m[1..]) ==> Distinct(rest)
    ensures Distinct(m) ==> Distinct([m[0]] + rest)
  {
    if Distinct(m) {
      DistinctCons(m);
      ContentKeys(rest);
      ContentKeys(m[1..]);
      DistinctPrepend(m[0], rest);
    }
  }

  lemma KeysEmpty(m: Bindings)
    ensures Keys(m) == {} ==> m == []
  {
    if m != [] {
      assert m[0].0 in Keys(m);
    }
  }

  lemma KeysCons(m: Bindings)
    requires m != []
    ensures Keys(m) == {m[0].0} + Keys(m[1..])
  {
    assert m == [m[0]] + m[1..];
  }

  lemma {:induction false} ContentKeys(m: Bindings)
    ensures Content(m).Keys == Keys(m)
  {
    if m != [] {
      ContentKeys(m[1..]);
      KeysCons(m);
    }
  }

  /** In a map without duplicate keys every entry is what `Content` shows. */
  lemma {:induction false} ContentAt(m: Bindings, i: nat)
    requires Distinct(m) && i < |m|
    ensures m[i].0 in Content(m) && Content(m)[m[i].0] == m[i].1
  {
    if i > 0 {
      ContentAt(m[1..], i - 1);
    }
  }

  /** Dropping the first entry of a map without duplicates drops its key. */
  lemma ContentTail(m: Bindings)
    requires Distinct(m) && m != []
    ensures Content(m[1..]) == Content(m) - {m[0].0}
  {
    ContentKeys(m[1..]);
    DistinctCons(m);
    UpdateThenRemove(Content(m[1..]), m[0].0, m[0].1);
  }

  lemma UpdateRemoved(c: map<string, Value>, key: string, value: Value)
    ensures c[key := value] - {key} == c - {key}
  {
    assert (c[key := value] - {key}).Keys == (c - {key}).Keys;
  }

  lemma UpdateThenRemove(c: map<string, Value>, key: string, value: Value)
    requires key !in c
    ensures c[key := value] - {key} == c
  {
    assert (c[key := value] - {key}).Keys == c.Keys;
  }

  /** Dropping the entry at position `j` drops its key and nothing else. */
  lemma {:induction false} ContentRemoveAt(m: Bindings, j: nat)
    requires Distinct(m) && j < |m|
    ensures Distinct(m[..j] + m[j + 1..])
    ensures Content(m[..j] + m[j + 1..]) == Content(m) - {m[j].0}
  {
    var r := m[..j] + m[j + 1..];
    if j == 0 {
      assert r == m[1..];
      ContentTail(m);
    } else {
      var t := m[1..];
      ContentRemoveAt(t, j - 1);
      assert r == [m[0]] + (t[..j - 1] + t[j..]);
      assert r[1..] == t[..j - 1] + t[j..];
      ContentKeys(t[..j - 1] + t[j..]);
      assert m[0].0 != m[j].0;
    }
  }

  /** Appending an entry with a new key keeps the keys distinct and adds
      its binding. */
  lemma {:induction false} AppendFresh(m: Bindings, e: Entry)
    requires Distinct(m) && e.0 !in Keys(m)
    ensures Distinct(m + [e])
    ensures Content(m + [e]) == Content(m)[e.0 := e.1]
  {
    var r := m + [e];
    forall i, j | 0 <= i < j < |r| ensures r[i].0 != r[j].0 {
      if j == |m| {
        assert r[i] == m[i] && m[i] in m;
      }
    }
    if m != [] {
      KeysCons(m);
      DistinctCons(m);
      assert r[1..] == m[1..] + [e];
      AppendFresh(m[1..], e);
    }
  }

  /** The contribution of one entry to `generateMapHashCode`:
      `Objects.hashCode(key) ^ hash(value)`, the value hashed deeply. */
  function EntryHash(e: Entry): Hash {
    Xor(StringHash(e.0), ValueHash(e.1))
  }

  /** The exact sum of the entry hashes; the map hash is its low 32 bits. */
  function EntrySum(m: Bindings): int {
    if m == [] then 0 else EntryHash(m[0]) + EntrySum(m[1..])
  }

  /** The named-parameter part of the key's hash: the entry hashes added up
      with Java's wrap-around. */
  function MapHash(m: Bindings): Hash {
    Wrap(EntrySum(m))
  }

  /** An entry appended adds its hash to the sum. */
  lemma {:induction false} EntrySumAppend(m: Bindings, e: Entry)
    ensures EntrySum(m + [e]) == EntrySum(m) + EntryHash(e)
  {
    if m == [] {
      assert m + [e] == [e];
    } else {
      var r := m + [e];
      assert r[0] == m[0];
      assert r[1..] == m[1..] + [e];
      EntrySumAppend(m[1..], e);
      assert EntrySum(r) == EntryHash(m[0]) + EntrySum(r[1..]);
    }
  }

  /** Taking one entry out of the sum, wherever it sits. */
  lemma {:induction false} EntrySumRemoveAt(m: Bindings, j: nat)
    requires j < |m|
    ensures EntrySum(m) == EntryHash(m[j]) + EntrySum(m[..j] + m[j + 1..])
  {
    var r := m[..j] + m[j + 1..];
    if j == 0 {
      assert r == m[1..];
    } else {
      var t := m[1..];
      EntrySumRemoveAt(t, j - 1);
      assert r[0] == m[0];
      assert r[1..] == t[..j - 1] + t[j..];
      assert t[j - 1] == m[j];
    }
  }

  /** The map hash does not depend on the order of the entries: two maps
      without duplicate keys that associate the same values with the same
      keys have the same hash, whatever order their entries were put in. */
  lemma {:induction false} MapHashOrderInsensitive(m1: Bindings, m2: Bindings)
    requires Distinct(m1) && Distinct(m2) && Content(m1) == Content(m2)
    ensures EntrySum(m1) == EntrySum(m2) && MapHash(m1) == MapHash(m2)
    decreases |m1|
  {
    ContentKeys(m1);
    ContentKeys(m2);
    KeysEmpty(m1);
    KeysEmpty(m2);
    if m1 != [] {
      var key := m1[0].0;
      assert key in Keys(m2);
      var j :| 0 <= j < |m2| && m2[j].0 == key;
      ContentAt(m1, 0);
      ContentAt(m2, j);
      assert m2[j] == m1[0];
      var rest2 := m2[..j] + m2[j + 1..];
      EntrySumRemoveAt(m2, j);
      ContentRemoveAt(m2, j);
      ContentTail(m1);
      MapHashOrderInsensitive(m1[1..], rest2);
    }
  }
}
