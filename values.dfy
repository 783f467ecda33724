/** An optional value: `None` stands for a Java `null` reference where the
    source distinguishes "absent" from any present value. */
module Optional {
  datatype Option<+T> = None | Some(value: T)
}

/** The Java values a query parameter can be bound to, with the deep equality
    and the hash codes of `java.util.Arrays` and `java.lang.String`. */
module Values {

  /** A Java `int`. */
  newtype int32 = x: int | -0x8000_0000 <= x < 0x8000_0000

  const TwoTo32: int := 0x1_0000_0000

  /** The 32 bits of a Java `int` hash code, read as an unsigned number. */
  type Hash = h: int | 0 <= h < 0x1_0000_0000

  /** Java's `int` wrap-around: the low 32 bits of an exact result. */
  function Wrap(x: int): Hash {
    x % TwoTo32
  }

  /** Adding to an already wrapped sum wraps the same as adding exactly:
      an `int` accumulator agrees with the exact sum modulo 2^32. */
  lemma WrapAdd(x: int, y: int)
    ensures Wrap(Wrap(x) + y) == Wrap(x + y)
  {
    var q := x / TwoTo32;
    assert x == q * TwoTo32 + Wrap(x);
    assert Wrap(x) + y == (x + y) - q * TwoTo32;
    ModMultiple(x + y, -q);
  }

  /** A value already in range wraps to itself. */
  lemma WrapHash(h: Hash)
    ensures Wrap(h) == h
  {
  }

  lemma {:induction false} ModMultiple(z: int, q: int)
    ensures (z + q * TwoTo32) % TwoTo32 == z % TwoTo32
    decreases if q < 0 then -q else q
  {
    if q > 0 {
      ModMultiple(z, q - 1);
      assert z + q * TwoTo32 == (z + (q - 1) * TwoTo32) + TwoTo32;
    } else if q < 0 {
      ModMultiple(z, q + 1);
      assert z + q * TwoTo32 == (z + (q + 1) * TwoTo32) - TwoTo32;
    }
  }

  /** Java's `^` on two `int`s. */
  function Xor(a: Hash, b: Hash): Hash {
    ((a as bv32) ^ (b as bv32)) as int
  }

  /** A bound parameter value: `null`, an `Integer`, a `String`, or an
      `Object[]` whose elements are again values. */
  datatype Value =
    | Null
    | Int(i: int32)
    | Str(s: string)
    | Arr(elems: seq<Value>)

  /** The runtime class of a non-null value. */
  datatype Class = IntegerClass | StringClass | ObjectArrayClass

  function ClassOf(v: Value): Class
    requires !v.Null?
  {
    match v
    case Int(_) => IntegerClass
    case Str(_) => StringClass
    case Arr(_) => ObjectArrayClass
  }

  /** The two's-complement bits of a Java `int` (`Integer.hashCode`). */
  function IntBits(x: int32): Hash {
    Wrap(x as int)
  }

  /** `Boolean.hashCode`. */
  function BoolHash(b: bool): Hash {
    if b then 1231 else 1237
  }

  /** `String.hashCode`: `h = 31 * h + c` over the characters, from the left. */
  function StringHash(s: string): Hash
    decreases |s|
  {
    if s == [] then 0 else Wrap(31 * StringHash(s[..|s| - 1]) + s[|s| - 1] as int)
  }

  /** `Arrays.deepHashCode` of a non-null `Object[]`: start from 1 and
      fold each element's hash in from the left with `31 * result + h`. */
  function DeepHashCode(es: seq<Value>): Hash
    decreases es
  {
    if es == [] then 1 else Wrap(31 * DeepHashCode(es[..|es| - 1]) + ValueHash(es[|es| - 1]))
  }

  /** The hash of one value as `Arrays.deepHashCode` takes it for an element:
      0 for `null`, the deep hash for a nested `Object[]`, and the value's own
      `hashCode()` otherwise. */
  function ValueHash(v: Value): Hash
    decreases v
  {
    match v
    case Null => 0
    case Int(x) => IntBits(x)
    case Str(s) => StringHash(s)
    case Arr(es) => DeepHashCode(es)
  }

  /** `Object.equals` of a non-null, non-array value against any value:
      `Integer` and `String` compare by content and only against their own
      class; an array's `equals` is identity, which the model reaches only
      when the other side is not an array. */
  predicate ScalarEquals(e1: Value, e2: Value)
    requires !e1.Null?
  {
    match e1
    case Int(x) => e2.Int? && e2.i == x
    case Str(s) => e2.Str? && e2.s == s
    case Arr(_) => false
  }

  /** `Arrays.deepEquals` on two non-null `Object[]`: same length, and the
      elements pairwise equal under `ElementDeepEquals`. */
  predicate ArraysDeepEquals(a1: seq<Value>, a2: seq<Value>)
    decreases a1
  {
    |a1| == |a2| && forall k :: 0 <= k < |a1| ==> ElementDeepEquals(a1[k], a2[k])
  }

  /** One step of `Arrays.deepEquals`: two nulls are equal, a null never
      equals a non-null, two nested `Object[]` recurse, and everything else
      goes to the element's own `equals`. */
  predicate ElementDeepEquals(e1: Value, e2: Value)
    decreases e1
  {
    if e1.Null? then e2.Null?
    else if e1.Arr? && e2.Arr? then ArraysDeepEquals(e1.elems, e2.elems)
    else ScalarEquals(e1, e2)
  }

  /** Deep equality of Java values is structural equality of the model. */
  lemma {:induction false} ElementDeepEqualsIsEquality(e1: Value, e2: Value)
    ensures ElementDeepEquals(e1, e2) <==> e1 == e2
    decreases e1
  {
    if e1.Arr? && e2.Arr? {
      ArraysDeepEqualsIsEquality(e1.elems, e2.elems);
    }
  }

  /** Deep equality of two `Object[]` is equality of their element sequences. */
  lemma {:induction false} ArraysDeepEqualsIsEquality(a1: seq<Value>, a2: seq<Value>)
    ensures ArraysDeepEquals(a1, a2) <==> a1 == a2
    decreases a1
  {
    forall k | 0 <= k < |a1| && k < |a2|
      ensures ElementDeepEquals(a1[k], a2[k]) <==> a1[k] == a2[k]
    {
      ElementDeepEqualsIsEquality(a1[k], a2[k]);
    }
    if |a1| == |a2| && a1 != a2 {
      var k :| 0 <= k < |a1| && a1[k] != a2[k];
      assert !ElementDeepEquals(a1[k], a2[k]);
    }
  }

  /** The deep hash agrees with deep equality: deeply equal values hash alike. */
  lemma DeepEqualValuesHashAlike(e1: Value, e2: Value)
    requires ElementDeepEquals(e1, e2)
    ensures ValueHash(e1) == ValueHash(e2)
  {
    ElementDeepEqualsIsEquality(e1, e2);
  }
}
