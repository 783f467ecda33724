/** The constructor's re-keying of the named parameters: for the i-th match,
    `namedParameters.remove(name)` followed by
    `namedParameters.put("normalized_param_" + i, originalNamedParameters.get(name))`. */
module Rekeying {
  import opened Values
  import opened LinkedMaps
  import opened Placeholders

  /** The loop's map updates for the matches `names`, counted from `i`, on
      the map `m`, looking values up in the original map `orig`. */
  function Rekey(m: Bindings, orig: Bindings, names: seq<string>, i: nat): Bindings
    decreases |names|
  {
    if names == [] then m
    else Rekey(Put(Remove(m, names[0]), CanonicalName(i), Get(orig, names[0])), orig, names[1..], i + 1)
  }

  /** `get` on a map's content: `null` for an absent key. */
  function GetOr(c: map<string, Value>, key: string): Value {
    if key in c then c[key] else Null
  }

  /** The same updates on contents, where entry order is forgotten. */
  function RekeyContent(c: map<string, Value>, o: map<string, Value>, names: seq<string>, i: nat): map<string, Value>
    decreases |names|
  {
    if names == [] then c
    else RekeyContent((c - {names[0]})[CanonicalName(i) := GetOr(o, names[0])], o, names[1..], i + 1)
  }

  /** The re-keyed map has no duplicate keys, and its content is given by the
      content of the maps it starts from: entry order plays no part. */
  lemma {:induction false} ContentOfRekey(m: Bindings, orig: Bindings, names: seq<string>, i: nat)
    requires Distinct(m)
    ensures Distinct(Rekey(m, orig, names, i))
    ensures Content(Rekey(m, orig, names, i)) == RekeyContent(Content(m), Content(orig), names, i)
    decreases |names|
  {
    if names != [] {
      var m1 := Put(Remove(m, names[0]), CanonicalName(i), Get(orig, names[0]));
      ContentOfRekey(m1, orig, names[1..], i + 1);
    }
  }

  /** A name without the canonical prefix is no canonical name. */
  lemma NotCanonical(x: string, j: nat)
    requires !HasCanonicalPrefix(x)
    ensures x != CanonicalName(j)
  {
    CanonicalNameFacts(j);
  }

  /** A key that is not matched and is none of the canonical names the
      updates put is left as it was: present with its value, or absent. */
  lemma {:induction false} RekeyContentFrame(c: map<string, Value>, o: map<string, Value>, names: seq<string>, i: nat, x: string)
    requires x !in names
    requires forall j: nat :: i <= j < i + |names| ==> x != CanonicalName(j)
    ensures x in RekeyContent(c, o, names, i) <==> x in c
    ensures x in c ==> RekeyContent(c, o, names, i)[x] == c[x]
    decreases |names|
  {
    if names != [] {
      assert x != CanonicalName(i);
      RekeyContentFrame((c - {names[0]})[CanonicalName(i) := GetOr(o, names[0])], o, names[1..], i + 1, x);
    }
  }

  /** When no matched name has the canonical prefix, the canonical name
      `normalized_param_(i+j)` ends up holding the value the original map
      binds to the j-th match (`null` if it binds none). */
  lemma {:induction false} RekeyContentCanonical(c: map<string, Value>, o: map<string, Value>, names: seq<string>, i: nat, j: nat)
    requires forall k :: 0 <= k < |names| ==> !HasCanonicalPrefix(names[k])
    requires j < |names|
    ensures CanonicalName(i + j) in RekeyContent(c, o, names, i)
    ensures RekeyContent(c, o, names, i)[CanonicalName(i + j)] == GetOr(o, names[j])
    decreases |names|
  {
    var c1 := (c - {names[0]})[CanonicalName(i) := GetOr(o, names[0])];
    var rest := names[1..];
    if j == 0 {
      CanonicalNameFacts(i);
      forall k: nat | i + 1 <= k < i + 1 + |rest| ensures CanonicalName(i) != CanonicalName(k) {
        CanonicalNameFacts(k);
      }
      RekeyContentFrame(c1, o, rest, i + 1, CanonicalName(i));
    } else {
      assert rest[j - 1] == names[j];
      RekeyContentCanonical(c1, o, rest, i + 1, j - 1);
      assert i + 1 + (j - 1) == i + j;
    }
  }

  /** Every key of the result was a key before or is one of the canonical
      names put. */
  lemma {:induction false} RekeyContentKeys(c: map<string, Value>, o: map<string, Value>, names: seq<string>, i: nat, x: string)
    requires x in RekeyContent(c, o, names, i)
    ensures x in c || exists j: nat :: i <= j < i + |names| && x == CanonicalName(j)
    decreases |names|
  {
    if names != [] {
      var c1 := (c - {names[0]})[CanonicalName(i) := GetOr(o, names[0])];
      RekeyContentKeys(c1, o, names[1..], i + 1, x);
    }
  }

  /** A key without the canonical prefix that the map lacks never appears. */
  lemma {:induction false} RekeyContentNoNewKeys(c: map<string, Value>, o: map<string, Value>, names: seq<string>, i: nat, x: string)
    requires x !in c && !HasCanonicalPrefix(x)
    ensures x !in RekeyContent(c, o, names, i)
    decreases |names|
  {
    if names != [] {
      NotCanonical(x, i);
      RekeyContentNoNewKeys((c - {names[0]})[CanonicalName(i) := GetOr(o, names[0])], o, names[1..], i + 1, x);
    }
  }

  /** A matched name without the canonical prefix is absent from the result. */
  lemma {:induction false} RekeyContentDropsMatched(c: map<string, Value>, o: map<string, Value>, names: seq<string>, i: nat, x: string)
    requires x in names && !HasCanonicalPrefix(x)
    ensures x !in RekeyContent(c, o, names, i)
    decreases |names|
  {
    var c1 := (c - {names[0]})[CanonicalName(i) := GetOr(o, names[0])];
    if names[0] == x {
      NotCanonical(x, i);
      RekeyContentNoNewKeys(c1, o, names[1..], i + 1, x);
    } else {
      RekeyContentDropsMatched(c1, o, names[1..], i + 1, x);
    }
  }

  /** A binding whose key is neither matched nor a canonical name put
      passes through the updates untouched. */
  lemma {:induction false} RekeyContentExtra(c: map<string, Value>, o: map<string, Value>, names: seq<string>, i: nat, x: string, v: Value)
    requires x !in names
    requires forall j: nat :: i <= j < i + |names| ==> x != CanonicalName(j)
    ensures RekeyContent(c[x := v], o[x := v], names, i) == RekeyContent(c, o, names, i)[x := v]
    decreases |names|
  {
    if names != [] {
      var n0 := names[0];
      assert x != n0 && x != CanonicalName(i);
      assert GetOr(o[x := v], n0) == GetOr(o, n0);
      var c1 := (c - {n0})[CanonicalName(i) := GetOr(o, n0)];
      assert (c[x := v] - {n0})[CanonicalName(i) := GetOr(o[x := v], n0)] == c1[x := v];
      RekeyContentExtra(c1, o, names[1..], i + 1, x, v);
    }
  }

  /** Move the binding of `x`, if any, to `y`. */
  function RenameKey(c: map<string, Value>, x: string, y: string): map<string, Value> {
    if x in c then (c - {x})[y := c[x]] else c
  }

  /** The bindings with the key `x` renamed to `y`, in place. */
  function RenameBinding(m: Bindings, x: string, y: string): (r: Bindings)
    ensures |r| == |m|
    ensures forall k :: 0 <= k < |m| ==> r[k] == if m[k].0 == x then (y, m[k].1) else m[k]
  {
    if m == [] then [] else [if m[0].0 == x then (y, m[0].1) else m[0]] + RenameBinding(m[1..], x, y)
  }

  /** Renaming a key to one the map lacks keeps the keys distinct. */
  lemma RenameBindingDistinct(m: Bindings, x: string, y: string)
    requires Distinct(m) && y !in Keys(m)
    ensures Distinct(RenameBinding(m, x, y))
  {
    var r := RenameBinding(m, x, y);
    forall i, j | 0 <= i < j < |r| ensures r[i].0 != r[j].0 {
      assert m[i] in m && m[j] in m;
    }
  }

  /** ... and moves the binding of `x` to `y` in the content. */
  lemma {:induction false} RenameBindingContent(m: Bindings, x: string, y: string)
    requires Distinct(m) && y !in Keys(m)
    ensures Content(RenameBinding(m, x, y)) == RenameKey(Content(m), x, y)
  {
    if m != [] {
      var r := RenameBinding(m, x, y);
      var t := m[1..];
      var c' := Content(t);
      assert Distinct(t) by {
        forall i, j | 0 <= i < j < |t| ensures t[i].0 != t[j].0 {
          assert t[i] == m[i + 1] && t[j] == m[j + 1];
        }
      }
      assert y !in Keys(t) by {
        KeysCons(m);
      }
      RenameBindingContent(t, x, y);
      assert r[1..] == RenameBinding(t, x, y);
      assert Content(r) == RenameKey(c', x, y)[r[0].0 := r[0].1];
      assert y != m[0].0 by {
        assert m[0] in m;
      }
      if m[0].0 == x {
        assert x !in c' by {
          ContentKeys(t);
        }
        assert RenameKey(Content(m), x, y) == c'[y := m[0].1];
      } else {
        assert RenameKey(Content(m), x, y) == RenameKey(c', x, y)[m[0].0 := m[0].1];
      }
    }
  }

  /** Replace every occurrence of `x` in a list of names by `y`. */
  function Substitute(names: seq<string>, x: string, y: string): (r: seq<string>)
    ensures |r| == |names|
    ensures forall k :: 0 <= k < |names| ==> r[k] == if names[k] == x then y else names[k]
  {
    if names == [] then []
    else [if names[0] == x then y else names[0]] + Substitute(names[1..], x, y)
  }

  /** Renaming a parameter consistently, in the matches and in both maps,
      to a name that is used nowhere, renames it in the result and changes
      nothing else. */
  lemma {:induction false} RekeyContentRename(c: map<string, Value>, o: map<string, Value>, names: seq<string>, i: nat, x: string, y: string)
    requires y !in c && y !in o && y !in names
    requires !HasCanonicalPrefix(x) && !HasCanonicalPrefix(y)
    ensures RekeyContent(RenameKey(c, x, y), RenameKey(o, x, y), Substitute(names, x, y), i)
            == RenameKey(RekeyContent(c, o, names, i), x, y)
    decreases |names|
  {
    if names != [] {
      var n0 := names[0];
      var cn := CanonicalName(i);
      var c1 := (c - {n0})[cn := GetOr(o, n0)];
      var c' := RenameKey(c, x, y);
      var o' := RenameKey(o, x, y);
      var ns' := Substitute(names, x, y);
      assert ns'[1..] == Substitute(names[1..], x, y);
      NotCanonical(x, i);
      NotCanonical(y, i);
      var c1' := (c' - {ns'[0]})[cn := GetOr(o', ns'[0])];
      if n0 == x {
        assert c1' == c1;
        assert x !in c1;
        RekeyContentRename(c1, o, names[1..], i + 1, x, y);
      } else {
        assert n0 != y;
        assert c1' == RenameKey(c1, x, y);
        RekeyContentRename(c1, o, names[1..], i + 1, x, y);
      }
    }
  }
}
