/** The parameters the key reads from a `javax.persistence.Query`
    (`QueryKey.getNamedParameters` and `QueryKey.getPositionalParameters`). */
module Parameters {
  import opened Optional
  import opened Values
  import opened LinkedMaps

  /** A JPA parameter position: positions count from 1. */
  type Position = p: int | p >= 1 witness 1

  /** A declared parameter: its name and position, either of which may be
      `null`, and the value the query binds to it. */
  datatype Parameter = Parameter(name: Option<string>, position: Option<Position>, value: Value)

  /** What the key reads from the query: `getParameters()` (possibly
      `null`), `getFirstResult()` and `getMaxResults()`. */
  datatype JpaQuery = JpaQuery(parameters: Option<seq<Parameter>>, firstResult: int32, maxResults: int32)

  // ---------------------------------------------------------------------
  // `getParameterValue`

  /** `getParameterValue(name)`: the value bound to the first parameter
      declared with that name (`null` if there is none). */
  function ValueByName(ps: seq<Parameter>, name: string): (v: Value)
    ensures (exists k :: 0 <= k < |ps| && ps[k].name == Some(name)) ==>
              exists k :: 0 <= k < |ps| && ps[k].name == Some(name) && v == ps[k].value &&
                forall k' :: 0 <= k' < k ==> ps[k'].name != Some(name)
    ensures (forall k :: 0 <= k < |ps| ==> ps[k].name != Some(name)) ==> v == Null
  {
    if ps == [] then Null
    else if ps[0].name == Some(name) then ps[0].value
    else
      var v := ValueByName(ps[1..], name);
      assert forall k :: 0 < k < |ps| ==> ps[k] == ps[1..][k - 1];
      v
  }

  /** `getParameterValue(position)`: the value bound to the first parameter
      declared at that position (`null` if there is none). */
  function ValueAtPosition(ps: seq<Parameter>, p: Position): (v: Value)
    ensures (exists k :: 0 <= k < |ps| && ps[k].position == Some(p)) ==>
              exists k :: 0 <= k < |ps| && ps[k].position == Some(p) && v == ps[k].value &&
                forall k' :: 0 <= k' < k ==> ps[k'].position != Some(p)
    ensures (forall k :: 0 <= k < |ps| ==> ps[k].position != Some(p)) ==> v == Null
  {
    if ps == [] then Null
    else if ps[0].position == Some(p) then ps[0].value
    else
      var v := ValueAtPosition(ps[1..], p);
      assert forall k :: 0 < k < |ps| ==> ps[k] == ps[1..][k - 1];
      v
  }

  // ---------------------------------------------------------------------
  // `String.compareTo` and the sort of the names

  /** `a.compareTo(b) < 0`: the first differing character decides, and a
      proper prefix comes first. */
  predicate Less(a: string, b: string) {
    if a == [] then b != []
    else if b == [] then false
    else if a[0] != b[0] then a[0] < b[0]
    else Less(a[1..], b[1..])
  }

  lemma {:induction false} LessIrreflexive(a: string)
    ensures !Less(a, a)
  {
    if a != [] {
      LessIrreflexive(a[1..]);
    }
  }

  lemma {:induction false} LessTransitive(a: string, b: string, c: string)
    requires Less(a, b) && Less(b, c)
    ensures Less(a, c)
  {
    if a != [] && b != [] && c != [] && a[0] == b[0] && b[0] == c[0] {
      LessTransitive(a[1..], b[1..], c[1..]);
    }
  }

  lemma {:induction false} LessTotal(a: string, b: string)
    ensures a == b || Less(a, b) || Less(b, a)
  {
    if a != [] && b != [] && a[0] == b[0] {
      LessTotal(a[1..], b[1..]);
      if a[1..] == b[1..] {
        assert a == [a[0]] + a[1..] && b == [b[0]] + b[1..];
      }
    }
  }

  /** Strictly increasing in the order of `compareTo`. */
  predicate StrictlySorted(s: seq<string>) {
    forall i, j :: 0 <= i < j < |s| ==> Less(s[i], s[j])
  }

  lemma StrictlySortedCons(a: string, t: seq<string>)
    ensures StrictlySorted([a] + t) <==> (forall y :: y in t ==> Less(a, y)) && StrictlySorted(t)
  {
    var s := [a] + t;
    assert forall j :: 0 < j < |s| ==> s[j] == t[j - 1];
    if (forall y :: y in t ==> Less(a, y)) && StrictlySorted(t) {
      forall i, j | 0 <= i < j < |s| ensures Less(s[i], s[j]) {
        if i == 0 {
          assert s[j] in t;
        } else {
          assert s[i] == t[i - 1];
        }
      }
    }
    if StrictlySorted(s) {
      forall y | y in t ensures Less(a, y) {
        var j :| 0 <= j < |t| && t[j] == y;
        assert s[0] == a && s[j + 1] == y;
      }
      forall i, j | 0 <= i < j < |t| ensures Less(t[i], t[j]) {
        assert s[i + 1] == t[i] && s[j + 1] == t[j];
      }
    }
  }

  /** Put `x` in its place in a sorted list, unless it is there already. */
  function Insert(x: string, s: seq<string>): (r: seq<string>)
    ensures forall y :: y in r <==> y == x || y in s
    ensures StrictlySorted(s) ==> StrictlySorted(r)
  {
    if s == [] then [x]
    else if x == s[0] then s
    else if Less(x, s[0]) then
      StrictlySortedCons(x, s);
      StrictlySortedCons(s[0], s[1..]);
      assert s == [s[0]] + s[1..];
      forall y | y in s ensures StrictlySorted(s) ==> Less(x, y) {
        if StrictlySorted(s) && y != s[0] {
          LessTransitive(x, s[0], y);
        }
      }
      [x] + s
    else
      var rest := Insert(x, s[1..]);
      assert s == [s[0]] + s[1..];
      StrictlySortedCons(s[0], s[1..]);
      StrictlySortedCons(s[0], rest);
      LessTotal(x, s[0]);
      [s[0]] + rest
  }

  /** The names `sorted()`, a repeated name kept once (as the merge function
      of `toMap` does). */
  function SortDistinct(ns: seq<string>): (r: seq<string>)
    ensures StrictlySorted(r)
    ensures forall y :: y in r <==> y in ns
  {
    if ns == [] then [] else Insert(ns[0], SortDistinct(ns[1..]))
  }

  /** There is one strictly sorted list of a given set of names: the result
      of the sort depends on the names and not on the order in which the
      parameters were declared. */
  lemma {:induction false} StrictlySortedUnique(s: seq<string>, t: seq<string>)
    requires StrictlySorted(s) && StrictlySorted(t)
    requires forall y :: y in s <==> y in t
    ensures s == t
  {
    assert s != [] ==> s[0] in s;
    assert t != [] ==> t[0] in t;
    if s != [] && t != [] {
      StrictlySortedCons(s[0], s[1..]);
      StrictlySortedCons(t[0], t[1..]);
      assert s == [s[0]] + s[1..] && t == [t[0]] + t[1..];
      if s[0] != t[0] {
        assert t[0] in s;
        assert s[0] in t;
        LessTransitive(s[0], t[0], s[0]);
        LessIrreflexive(s[0]);
      }
      forall y ensures y in s[1..] <==> y in t[1..] {
        LessIrreflexive(y);
        assert y in s <==> y == s[0] || y in s[1..];
        assert y in t <==> y == t[0] || y in t[1..];
      }
      StrictlySortedUnique(s[1..], t[1..]);
    }
  }

  // ---------------------------------------------------------------------
  // `getNamedParameters`

  /** `getParameters().stream().map(Parameter::getName).filter(Objects::nonNull)`. */
  function DeclaredNames(ps: seq<Parameter>): (r: seq<string>)
    ensures forall n :: n in r <==> exists k :: 0 <= k < |ps| && ps[k].name == Some(n)
  {
    if ps == [] then []
    else
      var rest := DeclaredNames(ps[1..]);
      assert forall k :: 0 < k < |ps| ==> ps[k] == ps[1..][k - 1];
      if ps[0].name.Some? then [ps[0].name.value] + rest else rest
  }

  /** The collected map: each name bound to `getParameterValue(name)`, in
      the order of the names. */
  function BindAll(ps: seq<Parameter>, names: seq<string>): (r: Bindings)
    ensures |r| == |names|
    ensures forall k :: 0 <= k < |names| ==> r[k] == (names[k], ValueByName(ps, names[k]))
  {
    if names == [] then [] else [(names[0], ValueByName(ps, names[0]))] + BindAll(ps, names[1..])
  }

  /** `getNamedParameters(jpaQuery)`. */
  function NamedParameters(parameters: Option<seq<Parameter>>): Option<Bindings> {
    if parameters.None? then None
    else
      var names := DeclaredNames(parameters.value);
      if names == [] then None else Some(BindAll(parameters.value, SortDistinct(names)))
  }

  /** The keys of a map, in iteration order. */
  function KeyList(m: Bindings): (r: seq<string>)
    ensures |r| == |m| && forall k :: 0 <= k < |m| ==> r[k] == m[k].0
  {
    if m == [] then [] else [m[0].0] + KeyList(m[1..])
  }

  /** Binding a strictly sorted list of names gives a map without
      duplicates whose keys, in order, are that list. */
  lemma BindSorted(ps: seq<Parameter>, sorted: seq<string>)
    requires StrictlySorted(sorted)
    ensures var m := BindAll(ps, sorted);
            && Distinct(m)
            && KeyList(m) == sorted
            && (forall n :: n in Keys(m) <==> n in sorted)
  {
    var m := BindAll(ps, sorted);
    assert KeyList(m) == sorted;
    forall i, j | 0 <= i < j < |m| ensures m[i].0 != m[j].0 {
      LessIrreflexive(m[i].0);
    }
    forall n ensures n in Keys(m) <==> n in sorted {
      if n in sorted {
        var i :| 0 <= i < |sorted| && sorted[i] == n;
        assert m[i] in m;
      }
    }
  }

  /** The named map is absent exactly when there is no parameter list or no
      parameter has a name. Otherwise its keys, in iteration order, are the
      declared names, each once, sorted; and each is bound to the value of
      the first parameter with that name. */
  lemma NamedExtraction(parameters: Option<seq<Parameter>>)
    ensures NamedParameters(parameters).None? <==>
              parameters.None? || forall k :: 0 <= k < |parameters.value| ==> parameters.value[k].name.None?
    ensures NamedParameters(parameters).Some? ==>
              var m := NamedParameters(parameters).value;
              && Distinct(m)
              && StrictlySorted(KeyList(m))
              && (forall n :: n in Keys(m) <==>
                    exists k :: 0 <= k < |parameters.value| && parameters.value[k].name == Some(n))
              && (forall i :: 0 <= i < |m| ==> m[i].1 == ValueByName(parameters.value, m[i].0))
  {
    if parameters.Some? {
      var ps := parameters.value;
      var names := DeclaredNames(ps);
      forall k | 0 <= k < |ps| ensures ps[k].name.Some? ==> ps[k].name.value in names {
      }
      if names != [] {
        assert names[0] in names;
        BindSorted(ps, SortDistinct(names));
      }
    }
  }

  // ---------------------------------------------------------------------
  // `getPositionalParameters`

  /** The declared positions, in declaration order (the list `positions`). */
  function PositionList(ps: seq<Parameter>): (r: seq<Position>)
    ensures forall p :: p in r <==> exists k :: 0 <= k < |ps| && ps[k].position == Some(p)
  {
    if ps == [] then []
    else
      var init := ps[..|ps| - 1];
      var last := ps[|ps| - 1];
      var rest := PositionList(init);
      assert forall k :: 0 <= k < |ps| - 1 ==> ps[k] == init[k];
      if last.position.Some? then rest + [last.position.value] else rest
  }

  /** The largest declared position, 0 when there is none (the variable `max`). */
  function MaxPosition(ps: seq<Parameter>): (max: nat)
    ensures forall k :: 0 <= k < |ps| && ps[k].position.Some? ==> ps[k].position.value <= max
    ensures max == 0 || exists k :: 0 <= k < |ps| && ps[k].position == Some(max)
  {
    if ps == [] then 0
    else
      var init := ps[..|ps| - 1];
      var last := ps[|ps| - 1];
      var m := MaxPosition(init);
      assert forall k :: 0 <= k < |ps| - 1 ==> ps[k] == init[k];
      if last.position.Some? && last.position.value > m then last.position.value else m
  }

  /** Slot `j` of the array: the value at position `j + 1` if a parameter is
      declared there, and `null` otherwise. */
  function Slot(ps: seq<Parameter>, j: nat): Value {
    if j + 1 in PositionList(ps) then ValueAtPosition(ps, j + 1) else Null
  }

  /** `getPositionalParameters(jpaQuery)`: absent without a parameter list or
      without a declared position; otherwise an array as long as the largest
      position, holding each declared value at index `position - 1`. */
  function PositionalParameters(parameters: Option<seq<Parameter>>): Option<seq<Value>> {
    if parameters.None? || PositionList(parameters.value) == [] then None
    else Some(seq(MaxPosition(parameters.value), j requires 0 <= j => Slot(parameters.value, j)))
  }

  /** The positional array is absent exactly when there is no parameter
      list or no parameter has a position. Otherwise its length is the
      largest declared position; each declared position `p` holds at index
      `p - 1` the value of the first parameter declared there; and every
      other slot is `null`. */
  lemma PositionalExtraction(parameters: Option<seq<Parameter>>)
    ensures PositionalParameters(parameters).None? <==>
              parameters.None? || forall k :: 0 <= k < |parameters.value| ==> parameters.value[k].position.None?
    ensures PositionalParameters(parameters).Some? ==>
              var a := PositionalParameters(parameters).value;
              var ps := parameters.value;
              && (exists k :: 0 <= k < |ps| && ps[k].position == Some(|a| as Position))
              && (forall k :: 0 <= k < |ps| && ps[k].position.Some? ==>
                    ps[k].position.value <= |a| && a[ps[k].position.value - 1] == ValueAtPosition(ps, ps[k].position.value))
              && (forall j :: 0 <= j < |a| && (forall k :: 0 <= k < |ps| ==> ps[k].position != Some(j + 1)) ==>
                    a[j] == Null)
  {
    if parameters.Some? {
      var ps := parameters.value;
      var positions := PositionList(ps);
      forall k | 0 <= k < |ps| ensures ps[k].position.Some? ==> ps[k].position.value in positions {
      }
      if positions != [] {
        assert positions[0] in positions;
        var max := MaxPosition(ps);
        var a := PositionalParameters(parameters).value;
        assert |a| == max;
        forall j | 0 <= j < |a| ensures a[j] == Slot(ps, j) {
        }
        forall j | 0 <= j < |a| && j + 1 !in positions ensures a[j] == Null {
        }
      }
    }
  }

  /** The two loops of `getPositionalParameters`: collect the positions and
      their maximum, then fill a fresh array of that length. */
  method GetPositionalParameters(parameters: Option<seq<Parameter>>) returns (r: Option<seq<Value>>)
    ensures r == PositionalParameters(parameters)
  {
    if parameters.None? {
      return None;
    }
    var ps := parameters.value;
    var max := 0;
    var positions: seq<Position> := [];
    for k := 0 to |ps|
      invariant positions == PositionList(ps[..k])
      invariant max == MaxPosition(ps[..k])
    {
      assert ps[..k + 1][..k] == ps[..k];
      if ps[k].position.Some? {
        positions := positions + [ps[k].position.value];
        if ps[k].position.value > max {
          max := ps[k].position.value;
        }
      }
    }
    assert ps[..|ps|] == ps;
    forall t | 0 <= t < |positions| ensures positions[t] <= max {
      assert positions[t] in positions;
    }
    if positions == [] {
      return None;
    }
    var a := new Value[max](_ => Null);
    FillSlots(a, ps, positions);
    assert a[..] == seq(max, j requires 0 <= j => Slot(ps, j));
    r := Some(a[..]);
  }

  /** `positions.forEach(position -> positionalParameters[position - 1] =
      jpaQuery.getParameterValue(position))` on an array of `null`s. */
  method FillSlots(a: array<Value>, ps: seq<Parameter>, positions: seq<Position>)
    requires forall j :: 0 <= j < a.Length ==> a[j] == Null
    requires forall t :: 0 <= t < |positions| ==> positions[t] <= a.Length
    modifies a
    ensures forall j :: 0 <= j < a.Length ==>
              a[j] == if j + 1 in positions then ValueAtPosition(ps, j + 1) else Null
  {
    for t := 0 to |positions|
      invariant forall j :: 0 <= j < a.Length ==>
                  a[j] == if j + 1 in positions[..t] then ValueAtPosition(ps, j + 1) else Null
    {
      var p := positions[t];
      a[p - 1] := ValueAtPosition(ps, p);
      assert positions[..t + 1] == positions[..t] + [p];
    }
    assert positions[..|positions|] == positions;
  }
}
