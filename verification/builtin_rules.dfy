/** The two self-contained predicates shipped with the library: `boolean` (lib/rules/boolean.js)
    and `within` (lib/rules/within.js). Each is called as `(key, value, ...args)`. */
module BuiltinRules {
  import opened Results
  import opened Text
  import opened Values

  /** `boolean(key, value, expected)`: the value must be a boolean, and equal to `expected` when
      one is given. The contract fixes the verdict from `value` and `expected` alone, so the key
      plays no part. */
  function BooleanRule(key: Value, value: Value, expected: Value): (ok: bool)
    ensures !value.Bool? ==> !ok
    ensures value.Bool? && expected.Undefined? ==> ok
    ensures !expected.Undefined? ==> (ok <==> value.Bool? && expected == Bool(value.b))
  {
    if !value.Bool? then false
    else if !expected.Undefined? then value == expected
    else true
  }

  /** `value >= bound` for a number against any value: the bound is converted to a number, and a
      NaN bound compares false. */
  predicate AtLeast(n: int, bound: Value) {
    match ToNumber(bound)
    case None => false
    case Some(b) => n >= b
  }

  /** `value <= bound`, as `AtLeast`. */
  predicate AtMost(n: int, bound: Value) {
    match ToNumber(bound)
    case None => false
    case Some(b) => n <= b
  }

  /** `within(key, value, min, max)`: the value is a number in the inclusive range. A non-number
      value, a value below `min` or above `max`, and a missing bound all fail. */
  function WithinRule(key: Value, value: Value, min: Value, max: Value): (ok: bool)
    ensures !value.Num? ==> !ok
    ensures min.Undefined? || max.Undefined? ==> !ok
    ensures value.Num? && min.Num? && max.Num? ==> (ok <==> min.n <= value.n <= max.n)
    ensures value.Num? && min.Num? && value.n < min.n ==> !ok
    ensures value.Num? && max.Num? && value.n > max.n ==> !ok
  {
    value.Num? && AtLeast(value.n, min) && AtMost(value.n, max)
  }

  /** A bound given as a numeric string is read as that number, as JavaScript's comparison
      does. */
  lemma WithinNumericStringBound(n: int, m: int)
    ensures WithinRule(Null, Num(n), Str(IntToString(m)), Num(m)) <==> n == m
  {
    var bound := Str(IntToString(m));
    assert ToNumber(bound) == Some(m) by {
      StringToNumberOfIntToString(m);
    }
    assert AtLeast(n, bound) <==> n >= m;
    assert AtMost(n, Num(m)) <==> n <= m;
  }

  /** `null` reads as 0 and `true` as 1 in a comparison; an object is never a number. */
  lemma WithinOtherBounds(n: int, m: int)
    ensures WithinRule(Null, Num(n), Null, Bool(true)) <==> 0 <= n <= 1
    ensures !WithinRule(Null, Num(n), Obj(map[]), Num(m))
  {
  }

  /** The cases of the library's own checks of the two predicates. */
  lemma BuiltinExamples()
    ensures !BooleanRule(Null, Str("hi"), Undefined) && !BooleanRule(Null, Num(0), Undefined)
    ensures BooleanRule(Null, Bool(true), Undefined) && BooleanRule(Null, Bool(false), Undefined)
    ensures BooleanRule(Null, Bool(true), Bool(true)) && !BooleanRule(Null, Bool(true), Bool(false))
    ensures !BooleanRule(Null, Bool(false), Bool(true)) && BooleanRule(Null, Bool(false), Bool(false))
    ensures !WithinRule(Null, Str("hi"), Num(3), Num(6)) && !WithinRule(Null, Obj(map[]), Num(3), Num(6))
    ensures !WithinRule(Null, Num(2), Num(3), Num(6)) && WithinRule(Null, Num(5), Num(3), Num(6))
    ensures !WithinRule(Null, Num(9), Num(4), Undefined)
  {
  }
}
