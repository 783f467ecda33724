/** The query-result cache key: built once from the query, then compared and
    hashed on its canonical parts only. */
module QueryKeys {
  import opened Optional
  import opened Values
  import opened LinkedMaps
  import opened Placeholders
  import opened Rekeying
  import opened Parameters

  /** The random `id` a key is given; identity never looks at it. */
  type Uuid = nat

  /** The fields of a key. `queryString` and `namedParameters` are the
      canonical text and map; the originals are kept beside them. */
  datatype QueryKey = QueryKey(
    originalQueryString: string,
    queryString: string,
    firstRow: int32,
    maxRows: int32,
    softDeletion: bool,
    singleResult: bool,
    originalNamedParameters: Option<Bindings>,
    namedParameters: Option<Bindings>,
    positionalParameters: Option<seq<Value>>,
    hashCode: Hash,
    id: Uuid)

  // ---------------------------------------------------------------------
  // Hash

  /** `31 * result + h` in `int` arithmetic. */
  function Step(result: Hash, h: Hash): Hash {
    Wrap(31 * result + h)
  }

  /** `generateHashCode()`, given the hash the named map contributes. */
  function CombineHash(k: QueryKey, namedHash: Hash): Hash {
    var r0 := Step(1, StringHash(k.queryString));
    var r1 := Step(r0, IntBits(k.firstRow));
    var r2 := Step(r1, IntBits(k.maxRows));
    var r3 := Step(r2, BoolHash(k.softDeletion));
    var r4 := Step(r3, BoolHash(k.singleResult));
    var r5 := Step(r4, if k.positionalParameters.None? then 0 else DeepHashCode(k.positionalParameters.value));
    Step(r5, namedHash)
  }

  /** `generateHashCode()`: an absent array or map contributes 0. */
  function GenerateHashCode(k: QueryKey): Hash {
    CombineHash(k, if k.namedParameters.None? then 0 else MapHash(k.namedParameters.value))
  }

  /** `generateMapHashCode(map)`: the loop over the entries, adding each
      entry's `hash(key) ^ hash(value)` to an `int` accumulator. */
  method GenerateMapHashCode(m: Bindings) returns (result: Hash)
    ensures result == MapHash(m)
  {
    result := 0;
    AccumulateStart(m);
    for i := 0 to |m|
      invariant Accumulated(result, m, i)
    {
      AccumulateStep(result, m, i);
      result := Wrap(result + EntryHash(m[i]));
    }
    AccumulateEnd(result, m);
  }

  /** What the loop keeps: the wrapped total of what is added so far and
      what is left is the map hash. */
  predicate Accumulated(result: Hash, m: Bindings, i: nat) {
    i <= |m| && Wrap(result + EntrySum(m[i..])) == MapHash(m)
  }

  lemma AccumulateStart(m: Bindings)
    ensures Accumulated(0, m, 0)
  {
    assert m[0..] == m;
  }

  /** One turn of that loop keeps the total. */
  lemma AccumulateStep(result: Hash, m: Bindings, i: nat)
    requires i < |m| && Accumulated(result, m, i)
    ensures Accumulated(Wrap(result + EntryHash(m[i])), m, i + 1)
  {
    assert m[i..][1..] == m[i + 1..];
    WrapAdd(result + EntryHash(m[i]), EntrySum(m[i + 1..]));
  }

  lemma AccumulateEnd(result: Hash, m: Bindings)
    requires Accumulated(result, m, |m|)
    ensures result == MapHash(m)
  {
    assert m[|m|..] == [];
    WrapHash(result);
  }

  /** A key as the constructor leaves it: the stored hash is the one its
      fields give, and its named map has no duplicate keys. */
  predicate Valid(k: QueryKey) {
    && k.hashCode == GenerateHashCode(k)
    && (k.namedParameters.Some? ==> Distinct(k.namedParameters.value))
  }

  // ---------------------------------------------------------------------
  // Construction

  /** The canonical named map: the original map re-keyed along the matches. */
  function CanonicalNamed(q: string, orig: Bindings): Bindings {
    Rekey(orig, orig, Names(Tokenize(q)), 0)
  }

  /** The key the constructor builds. */
  function Construct(queryString: string, firstRow: int32, maxRows: int32,
                     softDeletion: bool, singleResult: bool,
                     namedParameters: Option<Bindings>, positionalParameters: Option<seq<Value>>,
                     id: Uuid): QueryKey
  {
    var k := QueryKey(
      queryString,
      if namedParameters.None? then queryString else CanonicalText(queryString),
      firstRow, maxRows, softDeletion, singleResult,
      namedParameters,
      if namedParameters.None? then None else Some(CanonicalNamed(queryString, namedParameters.value)),
      positionalParameters, 0, id);
    k.(hashCode := GenerateHashCode(k))
  }

  /** The pattern matches at `pos`, and the greedy name runs up to `end`. */
  lemma ScanMatchAt(q: string, pos: nat, end: nat)
    requires pos + 2 <= end <= |q| && MatchesAt(q[pos..])
    requires forall j :: pos + 1 <= j < end ==> IsWordChar(q[j])
    requires end == |q| || !IsWordChar(q[end])
    ensures Tokenize(q[pos..]) == [Ph(q[pos + 1..end])] + Tokenize(q[end..])
  {
    var s := q[pos..];
    var w := WordRun(s[1..]);
    assert w == end - pos - 1;
    assert s[1..1 + w] == q[pos + 1..end];
    assert s[1 + w..] == q[end..];
  }

  /** The greedy `[\w_$]+` of a match starting at `pos`: the end of the name. */
  method ScanName(q: string, pos: nat) returns (end: nat)
    requires pos < |q| && MatchesAt(q[pos..])
    ensures pos + 2 <= end <= |q|
    ensures Tokenize(q[pos..]) == [Ph(q[pos + 1..end])] + Tokenize(q[end..])
  {
    end := pos + 2;
    while end < |q| && IsWordChar(q[end])
      invariant pos + 2 <= end <= |q|
      invariant forall j :: pos + 1 <= j < end ==> IsWordChar(q[j])
    {
      end := end + 1;
    }
    ScanMatchAt(q, pos, end);
  }

  /** Where the scan stands, for the text: the buffer, followed by the text
      not yet copied and the rewrite of what is left to scan, is the
      canonical text. */
  predicate TextProgress(q: string, builder: string, last: nat, pos: nat, i: nat) {
    last <= pos <= |q| &&
    builder + q[last..pos] + Render(Normalize(Tokenize(q[pos..]), i)) == CanonicalText(q)
  }

  /** Where the scan stands, for the map: the updates still to come take
      the map to the canonical map. */
  predicate MapProgress(q: string, orig: Bindings, bindings: Bindings, pos: nat, i: nat)
    requires pos <= |q|
  {
    Rekey(bindings, orig, Names(Tokenize(q[pos..])), i) == CanonicalNamed(q, orig)
  }

  /** A match at `pos` ending at `end`: the buffer takes the text before it
      and its replacement, and the scan resumes after it. */
  lemma MatchText(q: string, builder: string, last: nat, pos: nat, end: nat, i: nat)
    requires TextProgress(q, builder, last, pos, i)
    requires pos + 2 <= end <= |q|
    requires Tokenize(q[pos..]) == [Ph(q[pos + 1..end])] + Tokenize(q[end..])
    ensures TextProgress(q, builder + q[last..pos] + ([':'] + CanonicalName(i)), end, end, i + 1)
  {
    var ts := Tokenize(q[end..]);
    assert ([Ph(q[pos + 1..end])] + ts)[1..] == ts;
    var us := Normalize(ts, i + 1);
    assert Normalize(Tokenize(q[pos..]), i) == [Ph(CanonicalName(i))] + us;
    assert ([Ph(CanonicalName(i))] + us)[1..] == us;
    var replacement := [':'] + CanonicalName(i);
    var rest := Render(us);
    assert Render(Normalize(Tokenize(q[pos..]), i)) == replacement + rest;
    assert q[end..end] == [];
    assert builder + q[last..pos] + (replacement + rest) == (builder + q[last..pos] + replacement) + q[end..end] + rest;
  }

  /** ... and the map has the name's binding moved to `normalized_param_i`. */
  lemma MatchMap(q: string, orig: Bindings, bindings: Bindings, pos: nat, end: nat, i: nat)
    requires pos + 2 <= end <= |q|
    requires MapProgress(q, orig, bindings, pos, i)
    requires Tokenize(q[pos..]) == [Ph(q[pos + 1..end])] + Tokenize(q[end..])
    ensures MapProgress(q, orig, Put(Remove(bindings, q[pos + 1..end]), CanonicalName(i), Get(orig, q[pos + 1..end])),
                        end, i + 1)
  {
    var name := q[pos + 1..end];
    var ts := Tokenize(q[end..]);
    assert ([Ph(name)] + ts)[1..] == ts;
    assert Names(Tokenize(q[pos..])) == [name] + Names(ts);
    assert ([name] + Names(ts))[1..] == Names(ts);
  }

  /** A character that starts no match is scanned as itself. */
  lemma LiteralScan(q: string, pos: nat)
    requires pos < |q| && !MatchesAt(q[pos..])
    ensures Tokenize(q[pos..]) == [Lit(q[pos])] + Tokenize(q[pos + 1..])
  {
    assert q[pos..] == [q[pos]] + q[pos + 1..];
    ScanLiteral(q[pos], q[pos + 1..]);
  }

  /** Copying one character that is no match moves it from the rewrite of
      what is left to the text still to copy. */
  lemma CopyOne(builder: string, pending: string, c: char, ts: seq<Token>, i: nat, target: string)
    requires builder + pending + Render(Normalize([Lit(c)] + ts, i)) == target
    ensures builder + (pending + [c]) + Render(Normalize(ts, i)) == target
  {
    assert ([Lit(c)] + ts)[1..] == ts;
    var us := Normalize(ts, i);
    assert Normalize([Lit(c)] + ts, i) == [Lit(c)] + us;
    assert ([Lit(c)] + us)[1..] == us;
    assert Render([Lit(c)] + us) == [c] + Render(us);
  }

  /** Such a character stays in the text still to copy... */
  lemma LiteralText(q: string, builder: string, last: nat, pos: nat, i: nat)
    requires TextProgress(q, builder, last, pos, i)
    requires pos < |q| && Tokenize(q[pos..]) == [Lit(q[pos])] + Tokenize(q[pos + 1..])
    ensures TextProgress(q, builder, last, pos + 1, i)
  {
    CopyOne(builder, q[last..pos], q[pos], Tokenize(q[pos + 1..]), i, CanonicalText(q));
    assert q[last..pos + 1] == q[last..pos] + [q[pos]];
  }

  /** ... and leaves the map alone. */
  lemma LiteralMap(q: string, orig: Bindings, bindings: Bindings, pos: nat, i: nat)
    requires pos < |q| && Tokenize(q[pos..]) == [Lit(q[pos])] + Tokenize(q[pos + 1..])
    requires MapProgress(q, orig, bindings, pos, i)
    ensures MapProgress(q, orig, bindings, pos + 1, i)
  {
    assert ([Lit(q[pos])] + Tokenize(q[pos + 1..]))[1..] == Tokenize(q[pos + 1..]);
  }

  /** One turn of the `while (m.find())` loop, from where the last search
      stopped: on a match, `m.group().substring(1)` is the name without its
      colon; the map drops it and takes `normalized_param_i` bound to the
      original map's value for it; `appendReplacement` adds the text before
      the match and `:normalized_param_i` to the buffer; the count goes up. */
  method FindStep(q: string, orig: Bindings, builder: string, bindings: Bindings, last: nat, pos: nat, i: nat)
    returns (builder': string, bindings': Bindings, last': nat, pos': nat, i': nat)
    requires pos < |q|
    requires TextProgress(q, builder, last, pos, i) && MapProgress(q, orig, bindings, pos, i)
    ensures pos < pos' <= |q|
    ensures TextProgress(q, builder', last', pos', i') && MapProgress(q, orig, bindings', pos', i')
  {
    if MatchesAt(q[pos..]) {
      var end := ScanName(q, pos);
      var name := q[pos + 1..end];
      MatchText(q, builder, last, pos, end, i);
      MatchMap(q, orig, bindings, pos, end, i);
      bindings' := Put(Remove(bindings, name), CanonicalName(i), Get(orig, name));
      builder' := builder + q[last..pos] + ([':'] + CanonicalName(i));
      i' := i + 1;
      last' := end;
      pos' := end;
    } else {
      LiteralScan(q, pos);
      LiteralText(q, builder, last, pos, i);
      LiteralMap(q, orig, bindings, pos, i);
      builder', bindings', last', pos', i' := builder, bindings, last, pos + 1, i;
    }
  }

  /** The matching loop of the constructor and `appendTail`: the buffer
      ends up holding the canonical text and the copied map the canonical
      map. */
  method Canonicalize(q: string, orig: Bindings) returns (text: string, bindings: Bindings)
    ensures text == CanonicalText(q)
    ensures bindings == CanonicalNamed(q, orig)
  {
    bindings := orig;         // new LinkedHashMap<>(originalNamedParameters)
    var builder := "";        // the StringBuffer
    var i: nat := 0;          // matches so far
    var last: nat := 0;       // where the next appendReplacement copies from
    var pos: nat := 0;        // where the next find looks
    ScanStarts(q, orig);
    while pos < |q|
      invariant TextProgress(q, builder, last, pos, i) && MapProgress(q, orig, bindings, pos, i)
      decreases |q| - pos
    {
      builder, bindings, last, pos, i := FindStep(q, orig, builder, bindings, last, pos, i);
    }
    ScanEnds(q, orig, builder, bindings, last, i);
    text := builder + q[last..];   // appendTail
  }

  /** Before the first search nothing is copied and nothing re-keyed. */
  lemma ScanStarts(q: string, orig: Bindings)
    ensures TextProgress(q, "", 0, 0, 0) && MapProgress(q, orig, orig, 0, 0)
  {
    assert q[0..] == q;
  }

  /** After the last search the buffer lacks only the tail, and the map is
      the canonical map. */
  lemma ScanEnds(q: string, orig: Bindings, builder: string, bindings: Bindings, last: nat, i: nat)
    requires TextProgress(q, builder, last, |q|, i) && MapProgress(q, orig, bindings, |q|, i)
    ensures last <= |q|
    ensures builder + q[last..] == CanonicalText(q)
    ensures bindings == CanonicalNamed(q, orig)
  {
    assert q[|q|..] == [];
    assert q[last..|q|] == q[last..];
  }

  /** The constructor (`new QueryKey(...)`): copy the fields; when the named
      map is present, rewrite the text and re-key a copy of the map; then
      compute the hash once. */
  method New(queryString: string, firstRow: int32, maxRows: int32,
             softDeletion: bool, singleResult: bool,
             namedParameters: Option<Bindings>, positionalParameters: Option<seq<Value>>,
             id: Uuid) returns (k: QueryKey)
    ensures k == Construct(queryString, firstRow, maxRows, softDeletion, singleResult,
                           namedParameters, positionalParameters, id)
  {
    var text := queryString;
    var named: Option<Bindings> := None;
    if namedParameters.Some? {
      var canonical, bindings := Canonicalize(queryString, namedParameters.value);
      text := canonical;
      named := Some(bindings);
    }
    var mapHash := 0;
    if named.Some? {
      mapHash := GenerateMapHashCode(named.value);
    }
    var k0 := QueryKey(queryString, text, firstRow, maxRows, softDeletion, singleResult,
                       namedParameters, named, positionalParameters, 0, id);
    k := k0.(hashCode := CombineHash(k0, mapHash));
  }

  /** `QueryKey.create(queryString, softDeletion, singleResult, jpaQuery)`. */
  method Create(queryString: string, softDeletion: bool, singleResult: bool, jpaQuery: JpaQuery, id: Uuid)
    returns (k: QueryKey)
    ensures k == Construct(queryString, jpaQuery.firstResult, jpaQuery.maxResults, softDeletion, singleResult,
                           NamedParameters(jpaQuery.parameters), PositionalParameters(jpaQuery.parameters), id)
  {
    var named := NamedParameters(jpaQuery.parameters);
    var positional := GetPositionalParameters(jpaQuery.parameters);
    k := New(queryString, jpaQuery.firstResult, jpaQuery.maxResults, softDeletion, singleResult,
             named, positional, id);
  }

  // ---------------------------------------------------------------------
  // Equality

  /** The test `mapEquals` puts one value of `a` and `b.get(key)` to: equal
      references (two `null`s) pass, one `null` fails, different classes
      fail, arrays compare deeply and anything else with `equals`. */
  predicate ValuesMatch(aValue: Value, bValue: Value) {
    if aValue.Null? && bValue.Null? then true
    else if aValue.Null? || bValue.Null? then false
    else if ClassOf(aValue) != ClassOf(bValue) then false
    else if aValue.Arr? then ArraysDeepEquals(aValue.elems, bValue.elems)
    else ScalarEquals(aValue, bValue)
  }

  /** `mapEquals(a, b)`: two absent maps are equal, one absent map is not;
      otherwise every entry of `a` must match `b.get(key)`. */
  predicate MapEquals(a: Option<Bindings>, b: Option<Bindings>) {
    if a.None? && b.None? then true
    else if a.None? || b.None? then false
    else forall i :: 0 <= i < |a.value| ==> ValuesMatch(a.value[i].1, Get(b.value, a.value[i].0))
  }

  /** The loop of `mapEquals`, leaving at the first entry that does not match. */
  method MapEqualsScan(a: Option<Bindings>, b: Option<Bindings>) returns (r: bool)
    ensures r == MapEquals(a, b)
  {
    if a.None? && b.None? {
      return true;
    }
    if a.None? || b.None? {
      return false;
    }
    var entries := a.value;
    for i := 0 to |entries|
      invariant forall j :: 0 <= j < i ==> ValuesMatch(entries[j].1, Get(b.value, entries[j].0))
    {
      var aValue := entries[i].1;
      var bValue := Get(b.value, entries[i].0);
      if aValue.Null? && bValue.Null? {
        continue;
      }
      if aValue.Null? || bValue.Null? {
        return false;
      }
      if ClassOf(aValue) != ClassOf(bValue) {
        return false;
      }
      if aValue.Arr? {
        if !ArraysDeepEquals(aValue.elems, bValue.elems) {
          return false;
        }
      } else if !ScalarEquals(aValue, bValue) {
        return false;
      }
    }
    return true;
  }

  /** `Arrays.deepEquals` on two possibly `null` `Object[]`. */
  predicate PositionalEquals(a: Option<seq<Value>>, b: Option<seq<Value>>) {
    if a.None? || b.None? then a.None? && b.None?
    else ArraysDeepEquals(a.value, b.value)
  }

  /** `equalsFields(queryKey)`. */
  predicate EqualsFields(a: QueryKey, b: QueryKey) {
    && a.queryString == b.queryString
    && a.firstRow == b.firstRow
    && a.maxRows == b.maxRows
    && a.softDeletion == b.softDeletion
    && a.singleResult == b.singleResult
  }

  /** `equalsParams(queryKey)`. */
  predicate EqualsParams(a: QueryKey, b: QueryKey) {
    PositionalEquals(a.positionalParameters, b.positionalParameters)
    && MapEquals(a.namedParameters, b.namedParameters)
  }

  /** `a.equals(b)`: the stored hashes first, then the fields, then the
      parameters. */
  predicate Equals(a: QueryKey, b: QueryKey) {
    a.hashCode == b.hashCode && EqualsFields(a, b) && EqualsParams(a, b)
  }

  /** `hashCode()`: the value stored by the constructor. */
  function HashCode(k: QueryKey): Hash {
    k.hashCode
  }

  // ---------------------------------------------------------------------
  // What equality means

  /** The test on one entry is equality of the values. */
  lemma ValuesMatchIsEquality(aValue: Value, bValue: Value)
    ensures ValuesMatch(aValue, bValue) <==> aValue == bValue
  {
    if aValue.Arr? && bValue.Arr? {
      ArraysDeepEqualsIsEquality(aValue.elems, bValue.elems);
    }
  }

  /** Every binding of `a` is what `b.get` gives for its key: a `null` value
      counts as matching a missing key. */
  predicate Covered(a: Bindings, b: Bindings) {
    forall i :: 0 <= i < |a| ==> a[i].1 == Get(b, a[i].0)
  }

  /** `mapEquals` is: both absent, or both present and `a` covered by `b`. */
  lemma MapEqualsMeaning(a: Option<Bindings>, b: Option<Bindings>)
    ensures MapEquals(a, b) <==> (a.None? && b.None?) || (a.Some? && b.Some? && Covered(a.value, b.value))
  {
    if a.Some? && b.Some? {
      forall i | 0 <= i < |a.value|
        ensures ValuesMatch(a.value[i].1, Get(b.value, a.value[i].0)) <==> a.value[i].1 == Get(b.value, a.value[i].0)
      {
        ValuesMatchIsEquality(a.value[i].1, Get(b.value, a.value[i].0));
      }
    }
  }

  /** `equals`, spelled out: the stored hashes, the canonical text, both
      bounds and both flags are equal, the positional arrays are equal
      element by element (or both absent), and the named maps are both
      absent or the first covered by the second. The original text, the
      original map and the `id` play no part. */
  lemma EqualsMeaning(a: QueryKey, b: QueryKey)
    ensures Equals(a, b) <==>
              && a.hashCode == b.hashCode
              && a.queryString == b.queryString
              && a.firstRow == b.firstRow && a.maxRows == b.maxRows
              && a.softDeletion == b.softDeletion && a.singleResult == b.singleResult
              && a.positionalParameters == b.positionalParameters
              && ((a.namedParameters.None? && b.namedParameters.None?) ||
                  (a.namedParameters.Some? && b.namedParameters.Some? &&
                   Covered(a.namedParameters.value, b.namedParameters.value)))
  {
    MapEqualsMeaning(a.namedParameters, b.namedParameters);
    if a.positionalParameters.Some? && b.positionalParameters.Some? {
      ArraysDeepEqualsIsEquality(a.positionalParameters.value, b.positionalParameters.value);
    }
  }

  /** Equal keys have equal `hashCode()`, as the hash is compared first. */
  lemma EqualKeysHaveEqualHash(a: QueryKey, b: QueryKey)
    requires Equals(a, b)
    ensures HashCode(a) == HashCode(b)
  {
  }

  /** An absent named map contributes 0 to the hash, as an empty one does;
      yet absent and empty are unequal, in both directions. */
  lemma AbsentNamedMapHashesAsEmpty(k: QueryKey)
    ensures GenerateHashCode(k.(namedParameters := None)) == GenerateHashCode(k.(namedParameters := Some([])))
    ensures !Equals(k.(namedParameters := None), k.(namedParameters := Some([])))
    ensures !Equals(k.(namedParameters := Some([])), k.(namedParameters := None))
  {
    assert MapHash([]) == 0;
  }

  /** The fields identity does not look at can be anything. */
  lemma IdentityIgnoresOriginalsAndId(a: QueryKey, b: QueryKey, text: string, orig: Option<Bindings>, id: Uuid)
    ensures Equals(a.(originalQueryString := text, originalNamedParameters := orig, id := id), b) <==> Equals(a, b)
    ensures Equals(b, a.(originalQueryString := text, originalNamedParameters := orig, id := id)) <==> Equals(b, a)
  {
  }

  /** A map without duplicate keys covers itself. */
  lemma CoveredReflexive(m: Bindings)
    requires Distinct(m)
    ensures Covered(m, m)
  {
    forall i | 0 <= i < |m| ensures m[i].1 == Get(m, m[i].0) {
      ContentAt(m, i);
    }
  }

  /** Maps with the same content cover each other. */
  lemma CoveredBySameContent(a: Bindings, b: Bindings)
    requires Distinct(a) && Content(a) == Content(b)
    ensures Covered(a, b)
  {
    forall i | 0 <= i < |a| ensures a[i].1 == Get(b, a[i].0) {
      ContentAt(a, i);
    }
  }

  /** A key the constructor built equals itself. */
  lemma EqualsReflexive(k: QueryKey)
    requires Valid(k)
    ensures Equals(k, k)
  {
    EqualsMeaning(k, k);
    if k.namedParameters.Some? {
      CoveredReflexive(k.namedParameters.value);
    }
  }

  /** The reference reading of "the same query": the canonical text, the
      bounds, the flags and the positional array are equal, and the named
      maps are both absent or associate the same values with the same keys,
      in whatever order. */
  predicate SameIdentity(a: QueryKey, b: QueryKey) {
    && a.queryString == b.queryString
    && a.firstRow == b.firstRow && a.maxRows == b.maxRows
    && a.softDeletion == b.softDeletion && a.singleResult == b.singleResult
    && a.positionalParameters == b.positionalParameters
    && ((a.namedParameters.None? && b.namedParameters.None?) ||
        (a.namedParameters.Some? && b.namedParameters.Some? &&
         Content(a.namedParameters.value) == Content(b.namedParameters.value)))
  }

  /** The hash is a function of that identity: the order of the named
      entries does not change it. */
  lemma HashRespectsIdentity(a: QueryKey, b: QueryKey)
    requires Valid(a) && Valid(b) && SameIdentity(a, b)
    ensures a.hashCode == b.hashCode
  {
    if a.namedParameters.Some? {
      MapHashOrderInsensitive(a.namedParameters.value, b.namedParameters.value);
    }
  }

  /** Two keys the constructor built with the same identity are equal, in
      both directions. */
  lemma SameIdentityEqual(a: QueryKey, b: QueryKey)
    requires Valid(a) && Valid(b) && SameIdentity(a, b)
    ensures Equals(a, b) && Equals(b, a)
  {
    HashRespectsIdentity(a, b);
    EqualsMeaning(a, b);
    EqualsMeaning(b, a);
    if a.namedParameters.Some? {
      CoveredBySameContent(a.namedParameters.value, b.namedParameters.value);
      CoveredBySameContent(b.namedParameters.value, a.namedParameters.value);
    }
  }

  // ---------------------------------------------------------------------
  // What the constructor promises

  /** The constructor leaves a key whose stored hash is the one its fields
      give and whose named map has no duplicate keys. */
  lemma ConstructValid(queryString: string, firstRow: int32, maxRows: int32,
                       softDeletion: bool, singleResult: bool,
                       namedParameters: Option<Bindings>, positionalParameters: Option<seq<Value>>, id: Uuid)
    requires namedParameters.Some? ==> Distinct(namedParameters.value)
    ensures Valid(Construct(queryString, firstRow, maxRows, softDeletion, singleResult,
                            namedParameters, positionalParameters, id))
  {
    if namedParameters.Some? {
      ContentOfRekey(namedParameters.value, namedParameters.value, Names(Tokenize(queryString)), 0);
    }
  }

  /** The text and the maps the constructor keeps: without a named map the
      text is kept verbatim and there is no canonical map; with one, a
      rescan of the canonical text finds the same cut as the original, each
      character between and after matches copied, and the k-th match
      renamed `normalized_param_k`, a repeated name getting a new index at
      each occurrence. */
  lemma ConstructText(queryString: string, firstRow: int32, maxRows: int32,
                      softDeletion: bool, singleResult: bool,
                      namedParameters: Option<Bindings>, positionalParameters: Option<seq<Value>>, id: Uuid)
    ensures var k := Construct(queryString, firstRow, maxRows, softDeletion, singleResult,
                               namedParameters, positionalParameters, id);
            && k.originalQueryString == queryString
            && k.originalNamedParameters == namedParameters
            && k.positionalParameters == positionalParameters
            && k.firstRow == firstRow && k.maxRows == maxRows
            && k.softDeletion == softDeletion && k.singleResult == singleResult
            && k.id == id
            && (namedParameters.None? ==> k.queryString == queryString && k.namedParameters.None?)
            && (namedParameters.Some? ==> k.namedParameters.Some?)
    ensures namedParameters.Some? ==>
              var k := Construct(queryString, firstRow, maxRows, softDeletion, singleResult,
                                 namedParameters, positionalParameters, id);
              var ts := Tokenize(queryString);
              var us := Tokenize(k.queryString);
              && |us| == |ts|
              && (forall j :: 0 <= j < |ts| && ts[j].Lit? ==> us[j] == ts[j])
              && (forall j :: 0 <= j < |ts| && ts[j].Ph? ==> us[j] == Ph(CanonicalName(|Names(ts[..j])|)))
              && |Names(us)| == |Names(ts)|
              && (forall n :: 0 <= n < |Names(ts)| ==> Names(us)[n] == CanonicalName(n))
  {
    if namedParameters.Some? {
      CanonicalTextRescan(queryString);
      NormalizeShape(Tokenize(queryString), 0);
    }
  }

  /** The canonical map, when no matched name itself looks like a canonical
      name: `normalized_param_j` is bound to the value the original map
      gives the j-th match (`null` when it has none); no matched name is
      left; every other original binding keeps its name and value; and
      there are no other keys. */
  lemma ConstructNamed(queryString: string, firstRow: int32, maxRows: int32,
                       softDeletion: bool, singleResult: bool,
                       orig: Bindings, positionalParameters: Option<seq<Value>>, id: Uuid)
    requires Distinct(orig)
    requires forall j :: 0 <= j < |Names(Tokenize(queryString))| ==> !HasCanonicalPrefix(Names(Tokenize(queryString))[j])
    ensures var k := Construct(queryString, firstRow, maxRows, softDeletion, singleResult,
                               Some(orig), positionalParameters, id);
            var c := Content(k.namedParameters.value);
            var names := Names(Tokenize(queryString));
            && (forall j :: 0 <= j < |names| ==> CanonicalName(j) in c && c[CanonicalName(j)] == Get(orig, names[j]))
            && (forall j :: 0 <= j < |names| ==> names[j] !in c)
            && (forall x :: x in Content(orig) && x !in names && (forall j: nat :: j < |names| ==> x != CanonicalName(j)) ==>
                  x in c && c[x] == Content(orig)[x])
            && (forall x :: x in c ==> x in Content(orig) || exists j: nat :: j < |names| && x == CanonicalName(j))
  {
    var names := Names(Tokenize(queryString));
    var o := Content(orig);
    ContentOfRekey(orig, orig, names, 0);
    var c := RekeyContent(o, o, names, 0);
    forall j | 0 <= j < |names| ensures CanonicalName(j) in c && c[CanonicalName(j)] == Get(orig, names[j]) {
      RekeyContentCanonical(o, o, names, 0, j);
    }
    forall j | 0 <= j < |names| ensures names[j] !in c {
      RekeyContentDropsMatched(o, o, names, 0, names[j]);
    }
    forall x | x in o && x !in names && (forall j: nat :: j < |names| ==> x != CanonicalName(j))
      ensures x in c && c[x] == o[x]
    {
      RekeyContentFrame(o, o, names, 0, x);
    }
    forall x | x in c ensures x in o || exists j: nat :: j < |names| && x == CanonicalName(j) {
      RekeyContentKeys(o, o, names, 0, x);
    }
  }

  /** The order in which the named parameters were put in the map does not
      matter: the keys are equal both ways and hash alike. */
  lemma ConstructIgnoresNamedOrder(queryString: string, firstRow: int32, maxRows: int32,
                                   softDeletion: bool, singleResult: bool,
                                   orig1: Bindings, orig2: Bindings,
                                   positionalParameters: Option<seq<Value>>, id1: Uuid, id2: Uuid)
    requires Distinct(orig1) && Distinct(orig2) && Content(orig1) == Content(orig2)
    ensures var k1 := Construct(queryString, firstRow, maxRows, softDeletion, singleResult,
                                Some(orig1), positionalParameters, id1);
            var k2 := Construct(queryString, firstRow, maxRows, softDeletion, singleResult,
                                Some(orig2), positionalParameters, id2);
            Equals(k1, k2) && Equals(k2, k1) && HashCode(k1) == HashCode(k2)
  {
    var names := Names(Tokenize(queryString));
    ContentOfRekey(orig1, orig1, names, 0);
    ContentOfRekey(orig2, orig2, names, 0);
    ConstructValid(queryString, firstRow, maxRows, softDeletion, singleResult, Some(orig1), positionalParameters, id1);
    ConstructValid(queryString, firstRow, maxRows, softDeletion, singleResult, Some(orig2), positionalParameters, id2);
    SameIdentityEqual(Construct(queryString, firstRow, maxRows, softDeletion, singleResult, Some(orig1), positionalParameters, id1),
                      Construct(queryString, firstRow, maxRows, softDeletion, singleResult, Some(orig2), positionalParameters, id2));
  }

  /** Renaming one placeholder `x` to a fresh `y`, in the text and in the
      map, gives the same canonical text and an equal key both ways,
      provided neither name looks like a canonical name. */
  lemma ConstructIgnoresRenaming(queryString: string, firstRow: int32, maxRows: int32,
                                 softDeletion: bool, singleResult: bool,
                                 orig: Bindings, positionalParameters: Option<seq<Value>>,
                                 id1: Uuid, id2: Uuid, x: string, y: string)
    requires Distinct(orig) && y !in Keys(orig)
    requires x in Names(Tokenize(queryString)) && y !in Names(Tokenize(queryString))
    requires IsName(y) && !HasCanonicalPrefix(x) && !HasCanonicalPrefix(y)
    ensures var renamed := Render(Rename(Tokenize(queryString), Substitute(Names(Tokenize(queryString)), x, y)));
            var k1 := Construct(queryString, firstRow, maxRows, softDeletion, singleResult,
                                Some(orig), positionalParameters, id1);
            var k2 := Construct(renamed, firstRow, maxRows, softDeletion, singleResult,
                                Some(RenameBinding(orig, x, y)), positionalParameters, id2);
            && Names(Tokenize(renamed)) == Substitute(Names(Tokenize(queryString)), x, y)
            && k2.queryString == k1.queryString
            && Equals(k1, k2) && Equals(k2, k1)
  {
    var ts := Tokenize(queryString);
    var names := Names(ts);
    var ns := Substitute(names, x, y);
    var renamed := Render(Rename(ts, ns));
    var orig' := RenameBinding(orig, x, y);
    TokenizeWellFormed(queryString);
    WellFormedNames(ts);
    RenamedTextSameCanonicalText(queryString, ns);
    RenameBindingDistinct(orig, x, y);
    RenameBindingContent(orig, x, y);
    var o := Content(orig);
    ContentKeys(orig);
    ContentOfRekey(orig, orig, names, 0);
    ContentOfRekey(orig', orig', ns, 0);
    RekeyContentRename(o, o, names, 0, x, y);
    RekeyContentDropsMatched(o, o, names, 0, x);
    var k1 := Construct(queryString, firstRow, maxRows, softDeletion, singleResult, Some(orig), positionalParameters, id1);
    var k2 := Construct(renamed, firstRow, maxRows, softDeletion, singleResult, Some(orig'), positionalParameters, id2);
    ConstructValid(queryString, firstRow, maxRows, softDeletion, singleResult, Some(orig), positionalParameters, id1);
    ConstructValid(renamed, firstRow, maxRows, softDeletion, singleResult, Some(orig'), positionalParameters, id2);
    SameIdentityEqual(k1, k2);
  }
}
