/** The JavaScript values the validator moves around (data fields, rule arguments, predicate
    verdicts), with the coercions the library leans on: truthiness, `ToString` (used when a
    value becomes a property key) and `ToNumber` (used by relational comparisons). Numbers are
    integers; see README for what that leaves out. */
module Values {
  import opened Results
  import opened Text

  datatype Value =
    | Undefined
    | Null
    | Bool(b: bool)
    | Num(n: int)
    | Str(s: string)
    | Arr(items: seq<Value>)
    | Obj(fields: map<string, Value>)

  /** A plain data object: field name to value. A field that is not in the map reads as `undefined`. */
  type Record = map<string, Value>

  /** `data[key]`. */
  function Get(data: Record, key: string): (v: Value)
    ensures key !in data ==> v == Undefined
    ensures key in data ==> v == data[key]
  {
    if key in data then data[key] else Undefined
  }

  /** The `i`-th argument of a call, `undefined` when the caller passed fewer. */
  function Arg(args: seq<Value>, i: nat): (v: Value)
    ensures i >= |args| ==> v == Undefined
    ensures i < |args| ==> v == args[i]
  {
    if i < |args| then args[i] else Undefined
  }

  /** `v == null`: undefined or null. */
  predicate Nullish(v: Value) {
    v.Undefined? || v.Null?
  }

  /** JavaScript truthiness: `false`, `0`, `""`, `null` and `undefined` are falsy. */
  predicate Truthy(v: Value) {
    match v
    case Undefined => false
    case Null => false
    case Bool(b) => b
    case Num(n) => n != 0
    case Str(s) => s != ""
    case Arr(_) => true
    case Obj(_) => true
  }

  /** JavaScript `ToString`, which is also what turns a value into a property key. Arrays join
      their elements with commas, writing `null` and `undefined` elements as empty strings. */
  function ToString(v: Value): string
    decreases v
  {
    match v
    case Undefined => "undefined"
    case Null => "null"
    case Bool(b) => if b then "true" else "false"
    case Num(n) => IntToString(n)
    case Str(s) => s
    case Arr(items) =>
      JoinAll(seq(|items|, i requires 0 <= i < |items| =>
        if Nullish(items[i]) then "" else ToString(items[i])), ',')
    case Obj(_) => "[object Object]"
  }

  /** An optionally signed run of decimal digits. */
  predicate IsSignedDigits(t: string) {
    if t != [] && (t[0] == '+' || t[0] == '-') then |t| > 1 && AllDigits(t[1..])
    else |t| > 0 && AllDigits(t)
  }

  function SignedDigitsValue(t: string): int
    requires IsSignedDigits(t)
  {
    if t[0] == '-' then -(DigitsValue(t[1..]) as int)
    else if t[0] == '+' then DigitsValue(t[1..])
    else DigitsValue(t)
  }

  /** JavaScript `Number(s)` on a string, None standing for NaN: surrounding whitespace is
      ignored, a blank string is 0, and a signed decimal integer is its value. */
  function StringToNumber(s: string): (r: Option<int>)
    ensures Trim(s) == [] ==> r == Some(0)
    ensures r.Some? && Trim(s) != [] ==> IsSignedDigits(Trim(s))
  {
    var t := Trim(s);
    if t == [] then Some(0)
    else if IsSignedDigits(t) then Some(SignedDigitsValue(t))
    else None
  }

  /** JavaScript `ToNumber`, None standing for NaN. Objects become NaN; arrays go through their
      string form, as JavaScript does. */
  function ToNumber(v: Value): Option<int> {
    match v
    case Undefined => None
    case Null => Some(0)
    case Bool(b) => Some(if b then 1 else 0)
    case Num(n) => Some(n)
    case Str(s) => StringToNumber(s)
    case Arr(_) => StringToNumber(ToString(v))
    case Obj(_) => None
  }

  /** A number's string form reads back as the same number. */
  lemma StringToNumberOfIntToString(n: int)
    ensures StringToNumber(IntToString(n)) == Some(n)
  {
    var t := IntToString(n);
    assert IsTrimmed(t);
    if n < 0 {
      assert t[1..] == NatToString(-n);
    }
  }
}
