/** Two places where the key's code parts from what `Object.equals` and the
    purpose of canonicalisation require: named-map equality only looks one
    way, and a placeholder already called `normalized_param_<n>` is
    overwritten by the re-keying. Each is shown on the model of the code as
    written, next to a corrected definition with the intended property
    proved. */
module Findings {
  import opened Optional
  import opened Values
  import opened LinkedMaps
  import opened Placeholders
  import opened Rekeying
  import opened QueryKeys

  // ---------------------------------------------------------------------
  // Finding 1: `mapEquals(a, b)` only checks the entries of `a`

  lemma XorSelf(h: Hash)
    ensures Xor(h, h) == 0
  {
    assert (h as bv32) ^ (h as bv32) == 0;
  }

  /** An entry whose key and value are the same string hashes to 0, so it
      changes neither the map hash nor the key's hash. */
  lemma SelfEntryHash(s: string)
    ensures EntryHash((s, Str(s))) == 0
  {
    XorSelf(StringHash(s));
  }

  /** The canonical maps with and without the extra entry: the second is
      the first with `c -> "c"` added. */
  lemma ExtraEntryCanonical(queryString: string, orig: Bindings)
    requires Distinct(orig) && "c" !in Keys(orig) && "c" !in Names(Tokenize(queryString))
    ensures var m1 := CanonicalNamed(queryString, orig);
            var m2 := CanonicalNamed(queryString, orig + [("c", Str("c"))]);
            && Distinct(m1) && Distinct(m2)
            && "c" !in Content(m1)
            && Content(m2) == Content(m1)["c" := Str("c")]
  {
    var e: Entry := ("c", Str("c"));
    var orig2 := orig + [e];
    var names := Names(Tokenize(queryString));
    var o := Content(orig);
    AppendFresh(orig, e);
    ContentKeys(orig);
    forall j: nat | 0 <= j < |names| ensures "c" != CanonicalName(j) {
      NotCanonical("c", j);
    }
    ContentOfRekey(orig, orig, names, 0);
    ContentOfRekey(orig2, orig2, names, 0);
    RekeyContentExtra(o, o, names, 0, "c", Str("c"));
    RekeyContentNoNewKeys(o, o, names, 0, "c");
  }

  /** Adding an entry that hashes to 0 and that the map lacks keeps the map
      hash. */
  lemma ExtraEntryHash(m1: Bindings, m2: Bindings)
    requires Distinct(m1) && Distinct(m2)
    requires "c" !in Content(m1) && Content(m2) == Content(m1)["c" := Str("c")]
    ensures MapHash(m1) == MapHash(m2)
  {
    var e: Entry := ("c", Str("c"));
    var m := m1 + [e];
    assert e.0 !in Keys(m1) by {
      ContentKeys(m1);
    }
    AppendFresh(m1, e);
    assert Distinct(m) && Content(m) == Content(m2);
    MapHashOrderInsensitive(m, m2);
    EntrySumAppend(m1, e);
    SelfEntryHash("c");
    assert EntrySum(m1) == EntrySum(m2);
  }

  /** The smaller map is covered by the larger one, not the reverse. */
  lemma ExtraEntryOneWay(m1: Bindings, m2: Bindings)
    requires Distinct(m1) && Distinct(m2)
    requires "c" !in Content(m1) && Content(m2) == Content(m1)["c" := Str("c")]
    ensures Covered(m1, m2) && !Covered(m2, m1)
  {
    forall i | 0 <= i < |m1| ensures m1[i].1 == Get(m2, m1[i].0) {
      ContentAt(m1, i);
    }
    ContentKeys(m2);
    assert "c" in Keys(m2);
    var j :| 0 <= j < |m2| && m2[j].0 == "c";
    ContentAt(m2, j);
  }

  /** As written: add to the named map an entry `c -> "c"` that the query
      never mentions. The canonical map only gains that entry, the hash does
      not change, and `k1.equals(k2)` holds while `k2.equals(k1)` does not:
      `equals` is not symmetric. */
  lemma EqualsNotSymmetric(queryString: string, firstRow: int32, maxRows: int32,
                           softDeletion: bool, singleResult: bool,
                           orig: Bindings, positionalParameters: Option<seq<Value>>, id1: Uuid, id2: Uuid)
    requires Distinct(orig) && "c" !in Keys(orig) && "c" !in Names(Tokenize(queryString))
    ensures var k1 := Construct(queryString, firstRow, maxRows, softDeletion, singleResult,
                                Some(orig), positionalParameters, id1);
            var k2 := Construct(queryString, firstRow, maxRows, softDeletion, singleResult,
                                Some(orig + [("c", Str("c"))]), positionalParameters, id2);
            && HashCode(k1) == HashCode(k2)
            && Equals(k1, k2) && !Equals(k2, k1)
            && !SymmetricEquals(k1, k2) && !SymmetricEquals(k2, k1)
  {
    var orig2 := orig + [("c", Str("c"))];
    ExtraEntryCanonical(queryString, orig);
    ExtraEntryHash(CanonicalNamed(queryString, orig), CanonicalNamed(queryString, orig2));
    ExtraEntryOneWay(CanonicalNamed(queryString, orig), CanonicalNamed(queryString, orig2));
    var k1 := Construct(queryString, firstRow, maxRows, softDeletion, singleResult, Some(orig), positionalParameters, id1);
    var k2 := Construct(queryString, firstRow, maxRows, softDeletion, singleResult, Some(orig2), positionalParameters, id2);
    assert HashCode(k1) == HashCode(k2);
    EqualsMeaning(k1, k2);
    EqualsMeaning(k2, k1);
  }

  /** Corrected: `mapEquals` in both directions, as `equals` on two maps
      would be. */
  predicate SymmetricEquals(a: QueryKey, b: QueryKey) {
    Equals(a, b) && MapEquals(b.namedParameters, a.namedParameters)
  }

  /** `get` agrees on every key exactly when each map covers the other. */
  lemma CoveredBothWays(a: Bindings, b: Bindings)
    requires Distinct(a) && Distinct(b)
    ensures Covered(a, b) && Covered(b, a) <==> forall key :: Get(a, key) == Get(b, key)
  {
    if Covered(a, b) && Covered(b, a) {
      forall key ensures Get(a, key) == Get(b, key) {
        ContentKeys(a);
        ContentKeys(b);
        if key in Content(a) {
          var i :| 0 <= i < |a| && a[i].0 == key;
          ContentAt(a, i);
        } else if key in Content(b) {
          var i :| 0 <= i < |b| && b[i].0 == key;
          ContentAt(b, i);
        }
      }
    }
    if forall key :: Get(a, key) == Get(b, key) {
      forall i | 0 <= i < |a| ensures a[i].1 == Get(b, a[i].0) {
        ContentAt(a, i);
      }
      forall i | 0 <= i < |b| ensures b[i].1 == Get(a, b[i].0) {
        ContentAt(b, i);
      }
    }
  }

  /** The corrected equality is symmetric, and on keys the constructor
      built it means: equal hashes, fields and positional arrays, and named
      maps both absent or giving the same `get` on every key. */
  lemma SymmetricEqualsMeaning(a: QueryKey, b: QueryKey)
    requires Valid(a) && Valid(b)
    ensures SymmetricEquals(a, b) <==> SymmetricEquals(b, a)
    ensures SymmetricEquals(a, b) <==>
              && a.hashCode == b.hashCode
              && a.queryString == b.queryString
              && a.firstRow == b.firstRow && a.maxRows == b.maxRows
              && a.softDeletion == b.softDeletion && a.singleResult == b.singleResult
              && a.positionalParameters == b.positionalParameters
              && ((a.namedParameters.None? && b.namedParameters.None?) ||
                  (a.namedParameters.Some? && b.namedParameters.Some? &&
                   forall key :: Get(a.namedParameters.value, key) == Get(b.namedParameters.value, key)))
  {
    EqualsMeaning(a, b);
    EqualsMeaning(b, a);
    MapEqualsMeaning(a.namedParameters, b.namedParameters);
    MapEqualsMeaning(b.namedParameters, a.namedParameters);
    if a.namedParameters.Some? && b.namedParameters.Some? {
      CoveredBothWays(a.namedParameters.value, b.namedParameters.value);
    }
  }

  /** Keys with the same identity are equal under the corrected equality,
      in both directions. */
  lemma SameIdentitySymmetricEquals(a: QueryKey, b: QueryKey)
    requires Valid(a) && Valid(b) && SameIdentity(a, b)
    ensures SymmetricEquals(a, b) && SymmetricEquals(b, a)
  {
    SameIdentityEqual(a, b);
  }

  // ---------------------------------------------------------------------
  // Finding 2: a placeholder named like a canonical name is overwritten

  /** The query `:a :normalized_param_0`. */
  function CollidingTokens(a: string): seq<Token> {
    [Ph(a), Lit(' '), Ph(CanonicalName(0))]
  }

  lemma CollidingScan(a: string)
    requires IsName(a)
    ensures Tokenize(Render(CollidingTokens(a))) == CollidingTokens(a)
    ensures Names(CollidingTokens(a)) == [a, CanonicalName(0)]
  {
    CanonicalNameFacts(0);
    var ts := CollidingTokens(a);
    assert WellFormed(ts);
    TokenizeRender(ts);
    assert ts[1..] == [Lit(' '), Ph(CanonicalName(0))];
    assert ts[1..][1..] == [Ph(CanonicalName(0))];
    assert ts[1..][1..][1..] == [];
    assert Names(ts[1..][1..]) == [CanonicalName(0)];
    assert Names(ts[1..]) == [CanonicalName(0)];
  }

  /** The two updates of the loop on `:a :normalized_param_0`. */
  lemma CollidingUpdates(o: map<string, Value>, a: string, v: Value, w: Value)
    requires a != CanonicalName(0) && a != CanonicalName(1) && CanonicalName(0) != CanonicalName(1)
    requires o == map[CanonicalName(0) := w][a := v]
    ensures RekeyContent(o, o, [a, CanonicalName(0)], 0) == map[CanonicalName(1) := w]
  {
    var n0 := CanonicalName(0);
    var c1 := (o - {a})[n0 := GetOr(o, a)];
    assert c1 == map[n0 := v];
    assert [a, n0][1..] == [n0];
    assert RekeyContent(o, o, [a, n0], 0) == RekeyContent(c1, o, [n0], 1);
    var c2 := (c1 - {n0})[CanonicalName(1) := GetOr(o, n0)];
    assert c2 == map[CanonicalName(1) := w];
    assert RekeyContent(c1, o, [n0], 1) == RekeyContent(c2, o, [], 2);
  }

  /** For a name `a` that does not look canonical, the constructor's map
      for `:a :normalized_param_0` holds only `normalized_param_1`: the value
      bound to `a` was written to `normalized_param_0` and then dropped. */
  lemma CollidingContent(a: string, v: Value, w: Value)
    requires IsName(a) && !HasCanonicalPrefix(a)
    ensures Distinct([(a, v), (CanonicalName(0), w)])
    ensures Content(CanonicalNamed(Render(CollidingTokens(a)), [(a, v), (CanonicalName(0), w)]))
            == map[CanonicalName(1) := w]
  {
    var n0 := CanonicalName(0);
    var orig := [(a, v), (n0, w)];
    NotCanonical(a, 0);
    NotCanonical(a, 1);
    CanonicalNameFacts(1);
    assert orig[1..] == [(n0, w)];
    assert orig[1..][1..] == [];
    assert Content(orig[1..]) == map[n0 := w];
    assert Distinct(orig);
    CollidingScan(a);
    ContentOfRekey(orig, orig, [a, n0], 0);
    CollidingUpdates(Content(orig), a, v, w);
  }

  /** As written: `:a :normalized_param_0` with `a -> v1` and
      `:b :normalized_param_0` with `b -> v2` give equal keys, both ways,
      whatever `v1` and `v2` are: the value bound to the first placeholder
      takes no part in the key. */
  lemma CanonicalNameCollision(v1: Value, v2: Value, w: Value,
                               firstRow: int32, maxRows: int32, softDeletion: bool, singleResult: bool,
                               positionalParameters: Option<seq<Value>>, id1: Uuid, id2: Uuid)
    ensures var k1 := Construct(Render(CollidingTokens("a")), firstRow, maxRows, softDeletion, singleResult,
                                Some([("a", v1), (CanonicalName(0), w)]), positionalParameters, id1);
            var k2 := Construct(Render(CollidingTokens("b")), firstRow, maxRows, softDeletion, singleResult,
                                Some([("b", v2), (CanonicalName(0), w)]), positionalParameters, id2);
            Equals(k1, k2) && Equals(k2, k1)
  {
    var o1 := [("a", v1), (CanonicalName(0), w)];
    var o2 := [("b", v2), (CanonicalName(0), w)];
    assert IsName("a") && IsName("b");
    CollidingContent("a", v1, w);
    CollidingContent("b", v2, w);
    CollidingScan("a");
    CollidingScan("b");
    assert Normalize(CollidingTokens("a"), 0) == Normalize(CollidingTokens("b"), 0);
    var k1 := Construct(Render(CollidingTokens("a")), firstRow, maxRows, softDeletion, singleResult, Some(o1), positionalParameters, id1);
    var k2 := Construct(Render(CollidingTokens("b")), firstRow, maxRows, softDeletion, singleResult, Some(o2), positionalParameters, id2);
    ConstructValid(Render(CollidingTokens("a")), firstRow, maxRows, softDeletion, singleResult, Some(o1), positionalParameters, id1);
    ConstructValid(Render(CollidingTokens("b")), firstRow, maxRows, softDeletion, singleResult, Some(o2), positionalParameters, id2);
    SameIdentityEqual(k1, k2);
  }

  /** Corrected re-keying, first half: remove every matched name. */
  function RemoveAll(m: Bindings, names: seq<string>): Bindings
    decreases |names|
  {
    if names == [] then m else RemoveAll(Remove(m, names[0]), names[1..])
  }

  /** Corrected re-keying, second half: put the canonical names, counted
      from `i`, with the values the original map binds to the matches. */
  function PutCanonical(m: Bindings, orig: Bindings, names: seq<string>, i: nat): Bindings
    decreases |names|
  {
    if names == [] then m
    else PutCanonical(Put(m, CanonicalName(i), Get(orig, names[0])), orig, names[1..], i + 1)
  }

  /** Corrected re-keying: all removals before any put, so no put is undone. */
  function FixedRekey(orig: Bindings, names: seq<string>): Bindings {
    PutCanonical(RemoveAll(orig, names), orig, names, 0)
  }

  lemma {:induction false} RemoveAllContent(m: Bindings, names: seq<string>)
    ensures Content(RemoveAll(m, names)) == Content(m) - (set n | n in names)
    decreases |names|
  {
    if names != [] {
      RemoveAllContent(Remove(m, names[0]), names[1..]);
      assert (set n | n in names) == {names[0]} + (set n | n in names[1..]);
    }
  }

  lemma {:induction false} PutCanonicalFrame(m: Bindings, orig: Bindings, names: seq<string>, i: nat, x: string)
    requires forall j: nat :: i <= j < i + |names| ==> x != CanonicalName(j)
    ensures x in Content(PutCanonical(m, orig, names, i)) <==> x in Content(m)
    ensures x in Content(m) ==> Content(PutCanonical(m, orig, names, i))[x] == Content(m)[x]
    decreases |names|
  {
    if names != [] {
      assert x != CanonicalName(i);
      PutCanonicalFrame(Put(m, CanonicalName(i), Get(orig, names[0])), orig, names[1..], i + 1, x);
    }
  }

  lemma {:induction false} PutCanonicalSlot(m: Bindings, orig: Bindings, names: seq<string>, i: nat, j: nat)
    requires j < |names|
    ensures CanonicalName(i + j) in Content(PutCanonical(m, orig, names, i))
    ensures Content(PutCanonical(m, orig, names, i))[CanonicalName(i + j)] == Get(orig, names[j])
    decreases |names|
  {
    var m1 := Put(m, CanonicalName(i), Get(orig, names[0]));
    if j == 0 {
      CanonicalNameFacts(i);
      forall k: nat | i + 1 <= k < i + 1 + |names[1..]| ensures CanonicalName(i) != CanonicalName(k) {
        CanonicalNameFacts(k);
      }
      PutCanonicalFrame(m1, orig, names[1..], i + 1, CanonicalName(i));
    } else {
      assert names[1..][j - 1] == names[j];
      PutCanonicalSlot(m1, orig, names[1..], i + 1, j - 1);
      assert i + 1 + (j - 1) == i + j;
    }
  }

  /** The corrected map gives every canonical name the value of its match,
      with no condition on the names, and keeps exactly the other keys that
      are neither matched nor canonical. */
  lemma FixedRekeyHoldsEveryMatch(orig: Bindings, names: seq<string>)
    ensures forall j :: 0 <= j < |names| ==> Get(FixedRekey(orig, names), CanonicalName(j)) == Get(orig, names[j])
    ensures forall x :: x !in names && (forall j: nat :: j < |names| ==> x != CanonicalName(j)) ==>
              Get(FixedRekey(orig, names), x) == Get(orig, x)
  {
    var r := RemoveAll(orig, names);
    RemoveAllContent(orig, names);
    forall j | 0 <= j < |names| ensures Get(FixedRekey(orig, names), CanonicalName(j)) == Get(orig, names[j]) {
      PutCanonicalSlot(r, orig, names, 0, j);
    }
    forall x | x !in names && (forall j: nat :: j < |names| ==> x != CanonicalName(j))
      ensures Get(FixedRekey(orig, names), x) == Get(orig, x)
    {
      PutCanonicalFrame(r, orig, names, 0, x);
    }
  }

  /** On the colliding query the corrected map keeps the value of `a`. */
  lemma FixedRekeySeparatesCollision(v1: Value, v2: Value, w: Value)
    requires v1 != v2
    ensures Get(FixedRekey([("a", v1), (CanonicalName(0), w)], ["a", CanonicalName(0)]), CanonicalName(0)) == v1
    ensures Get(FixedRekey([("b", v2), (CanonicalName(0), w)], ["b", CanonicalName(0)]), CanonicalName(0)) == v2
  {
    FixedRekeyHoldsEveryMatch([("a", v1), (CanonicalName(0), w)], ["a", CanonicalName(0)]);
    FixedRekeyHoldsEveryMatch([("b", v2), (CanonicalName(0), w)], ["b", CanonicalName(0)]);
    assert [("a", v1), (CanonicalName(0), w)][1..] == [(CanonicalName(0), w)];
    assert [("b", v2), (CanonicalName(0), w)][1..] == [(CanonicalName(0), w)];
    NotCanonical("a", 0);
    NotCanonical("b", 0);
  }

  /** Where no matched name looks canonical, the corrected map has the same
      content as the one the code builds: the correction changes nothing
      else. */
  lemma FixedAgreesWithRekey(orig: Bindings, names: seq<string>)
    requires Distinct(orig)
    requires forall k :: 0 <= k < |names| ==> !HasCanonicalPrefix(names[k])
    ensures Content(FixedRekey(orig, names)) == Content(Rekey(orig, orig, names, 0))
  {
    var o := Content(orig);
    var r := RemoveAll(orig, names);
    var fixed := Content(FixedRekey(orig, names));
    var written := RekeyContent(o, o, names, 0);
    ContentOfRekey(orig, orig, names, 0);
    RemoveAllContent(orig, names);
    forall x ensures (x in fixed <==> x in written) && (x in fixed ==> fixed[x] == written[x]) {
      if j: nat :| j < |names| && x == CanonicalName(j) {
        PutCanonicalSlot(r, orig, names, 0, j);
        RekeyContentCanonical(o, o, names, 0, j);
      } else {
        PutCanonicalFrame(r, orig, names, 0, x);
        if x in names {
          var k :| 0 <= k < |names| && names[k] == x;
          RekeyContentDropsMatched(o, o, names, 0, x);
        } else {
          RekeyContentFrame(o, o, names, 0, x);
        }
      }
    }
    assert fixed.Keys == written.Keys;
  }
}
