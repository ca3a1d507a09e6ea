/** String helpers with the semantics of the JavaScript built-ins the validator relies on:
    `trim`, `indexOf`, `split`/`join` on a single character, and decimal digits. */
module Text {
  import opened Results

  /** ASCII whitespace removed by `String.prototype.trim`: space, tab, line feed,
      vertical tab, form feed and carriage return. */
  predicate IsSpace(c: char) {
    c == ' ' || 9 <= c as int <= 13
  }

  predicate AllSpace(s: string) {
    forall i :: 0 <= i < |s| ==> IsSpace(s[i])
  }

  /** Neither end of `s` is whitespace. */
  predicate IsTrimmed(s: string) {
    s == [] || (!IsSpace(s[0]) && !IsSpace(s[|s| - 1]))
  }

  /** Drops leading whitespace: the result is the suffix that starts at the first non-space. */
  function TrimStart(s: string): (r: string)
    ensures |r| <= |s| && r == s[|s| - |r|..]
    ensures AllSpace(s[..|s| - |r|])
    ensures r == [] || !IsSpace(r[0])
  {
    if s != [] && IsSpace(s[0]) then
      var r := TrimStart(s[1..]);
      assert s[..|s| - |r|] == [s[0]] + s[1..][..|s| - 1 - |r|];
      r
    else
      s
  }

  /** Drops trailing whitespace: the result is the prefix that ends at the last non-space. */
  function TrimEnd(s: string): (r: string)
    ensures |r| <= |s| && r == s[..|r|]
    ensures AllSpace(s[|r|..])
    ensures r == [] || !IsSpace(r[|r| - 1])
  {
    if s != [] && IsSpace(s[|s| - 1]) then
      var r := TrimEnd(s[..|s| - 1]);
      assert s[|r|..] == s[..|s| - 1][|r|..] + [s[|s| - 1]];
      r
    else
      s
  }

  /** Number of leading whitespace characters of `s`. */
  function LeadingSpace(s: string): nat {
    |s| - |TrimStart(s)|
  }

  /** `String.prototype.trim` over ASCII whitespace: `s` is leading space, then the result,
      then trailing space, and the result starts and ends with a non-space. */
  function Trim(s: string): (r: string)
    ensures IsTrimmed(r)
    ensures IsTrimmed(s) ==> r == s
    ensures LeadingSpace(s) + |r| <= |s|
    ensures r == s[LeadingSpace(s)..LeadingSpace(s) + |r|]
    ensures AllSpace(s[..LeadingSpace(s)]) && AllSpace(s[LeadingSpace(s) + |r|..])
  {
    var t := TrimStart(s);
    var r := TrimEnd(t);
    assert r != [] ==> r[0] == t[0];
    assert s[LeadingSpace(s) + |r|..] == t[|r|..];
    r
  }

  /** `s.indexOf(c)`: the position of the first occurrence of `c`, or None (JavaScript's -1). */
  function IndexOf(s: string, c: char): (r: Option<nat>)
    ensures r.None? <==> c !in s
    ensures r.Some? ==> r.value < |s| && s[r.value] == c && c !in s[..r.value]
  {
    if s == [] then None
    else if s[0] == c then Some(0)
    else
      match IndexOf(s[1..], c)
      case None => None
      case Some(d) =>
        assert s[..d + 1] == [s[0]] + s[1..][..d];
        Some(d + 1)
  }

  /** Number of occurrences of `c` in `s`. */
  function Count(s: string, c: char): nat {
    if s == [] then 0 else (if s[0] == c then 1 else 0) + Count(s[1..], c)
  }

  /** `pieces.join(c)` for a non-empty list of pieces. */
  function Join(pieces: seq<string>, c: char): string
    requires |pieces| > 0
  {
    if |pieces| == 1 then pieces[0] else pieces[0] + [c] + Join(pieces[1..], c)
  }

  /** `pieces.join(c)`, where joining no pieces gives the empty string. */
  function JoinAll(pieces: seq<string>, c: char): string {
    if pieces == [] then "" else Join(pieces, c)
  }

  /** `s.split(c)`: one piece more than there are separators, no piece holds the separator,
      and joining the pieces with the separator gives `s` back. */
  function Split(s: string, c: char): (pieces: seq<string>)
    ensures |pieces| == Count(s, c) + 1
    ensures forall i :: 0 <= i < |pieces| ==> c !in pieces[i]
    ensures Join(pieces, c) == s
    decreases |s|
  {
    match IndexOf(s, c)
    case None =>
      CountAbsent(s, c);
      [s]
    case Some(d) =>
      var rest := Split(s[d + 1..], c);
      SplitStep(s, c, d, rest);
      [s[..d]] + rest
  }

  /** One step of `Split`: the piece before the first separator, then the pieces of the rest. */
  lemma SplitStep(s: string, c: char, d: nat, rest: seq<string>)
    requires d < |s| && s[d] == c && c !in s[..d]
    requires |rest| == Count(s[d + 1..], c) + 1
    requires forall i :: 0 <= i < |rest| ==> c !in rest[i]
    requires Join(rest, c) == s[d + 1..]
    ensures |[s[..d]] + rest| == Count(s, c) + 1
    ensures forall i :: 0 <= i < |[s[..d]] + rest| ==> c !in ([s[..d]] + rest)[i]
    ensures Join([s[..d]] + rest, c) == s
  {
    var tail := [c] + s[d + 1..];
    assert s == s[..d] + tail;
    assert tail[0] == c && tail[1..] == s[d + 1..];
    assert Count(tail, c) == 1 + Count(s[d + 1..], c);
    CountConcat(s[..d], tail, c);
    CountAbsent(s[..d], c);
    var pieces := [s[..d]] + rest;
    assert pieces[1..] == rest;
    assert Join(pieces, c) == s[..d] + [c] + Join(rest, c);
    assert forall i :: 1 <= i < |pieces| ==> pieces[i] == rest[i - 1];
  }

  lemma {:induction false} CountAbsent(s: string, c: char)
    requires c !in s
    ensures Count(s, c) == 0
  {
    if s != [] {
      assert s[0] != c;
      assert forall x :: x in s[1..] ==> x in s;
      CountAbsent(s[1..], c);
    }
  }

  lemma {:induction false} CountConcat(a: string, b: string, c: char)
    ensures Count(a + b, c) == Count(a, c) + Count(b, c)
  {
    if a != [] {
      assert (a + b)[1..] == a[1..] + b;
      CountConcat(a[1..], b, c);
    } else {
      assert a + b == b;
    }
  }

  /** The first occurrence of `c` in `a + [c] + b`, when `a` has none, is right after `a`. */
  lemma {:induction false} IndexOfAfter(a: string, c: char, b: string)
    requires c !in a
    ensures IndexOf(a + [c] + b, c) == Some(|a|)
  {
    var s := a + [c] + b;
    if a != [] {
      assert s[0] == a[0] != c;
      assert s[1..] == a[1..] + [c] + b;
      assert forall x :: x in a[1..] ==> x in a;
      IndexOfAfter(a[1..], c, b);
    }
  }

  /** Splitting a join of separator-free pieces gives the pieces back. */
  lemma {:induction false} SplitJoin(pieces: seq<string>, c: char)
    requires |pieces| > 0
    requires forall i :: 0 <= i < |pieces| ==> c !in pieces[i]
    ensures Split(Join(pieces, c), c) == pieces
  {
    if |pieces| == 1 {
      assert IndexOf(pieces[0], c).None?;
    } else {
      var first := pieces[0];
      var rest := Join(pieces[1..], c);
      var s := first + [c] + rest;
      assert Join(pieces, c) == s;
      assert Split(s, c) == [first] + Split(rest, c) by {
        IndexOfAfter(first, c, rest);
        assert s[..|first|] == first;
        assert s[|first| + 1..] == rest;
      }
      assert Split(rest, c) == pieces[1..] by {
        SplitJoin(pieces[1..], c);
      }
      assert pieces == [first] + pieces[1..];
    }
  }

  /** `s.indexOf(prefix) === 0`. */
  predicate StartsWith(s: string, prefix: string) {
    |prefix| <= |s| && s[..|prefix|] == prefix
  }

  predicate IsDigit(c: char) {
    '0' <= c <= '9'
  }

  predicate AllDigits(s: string) {
    forall i :: 0 <= i < |s| ==> IsDigit(s[i])
  }

  function DigitChar(d: nat): char
    requires d < 10
  {
    ('0' as int + d) as char
  }

  /** The value of a string of decimal digits, most significant first. */
  function DigitsValue(s: string): nat
    requires AllDigits(s)
  {
    if s == [] then 0 else DigitsValue(s[..|s| - 1]) * 10 + (s[|s| - 1] as int - '0' as int)
  }

  /** Decimal rendering of a natural number: digits only, no leading zero, and reading it back
      gives the number. */
  function NatToString(n: nat): (r: string)
    ensures |r| > 0 && AllDigits(r)
    ensures DigitsValue(r) == n
    ensures n > 0 ==> r[0] != '0'
    ensures n == 0 ==> r == "0"
  {
    if n < 10 then [DigitChar(n)]
    else
      var r := NatToString(n / 10) + [DigitChar(n % 10)];
      assert r[..|r| - 1] == NatToString(n / 10);
      r
  }

  /** JavaScript's rendering of an integral number. */
  function IntToString(n: int): (r: string)
    ensures r != [] && (n < 0 ==> r[0] == '-') && (n >= 0 ==> AllDigits(r))
    ensures n < 0 ==> r[1..] == NatToString(-n)
  {
    if n < 0 then "-" + NatToString(-n) else NatToString(n)
  }

  /** A digit string with no superfluous leading zero (the JSON integer form). */
  predicate IsCanonicalDigits(s: string) {
    |s| > 0 && AllDigits(s) && (s[0] == '0' ==> |s| == 1)
  }

  lemma {:induction false} LeadingNonZeroPositive(s: string)
    requires |s| > 0 && AllDigits(s) && s[0] != '0'
    ensures DigitsValue(s) > 0
  {
    if |s| > 1 {
      LeadingNonZeroPositive(s[..|s| - 1]);
    }
  }

  /** Reading canonical digits and rendering the number gives the same digits. */
  lemma {:induction false} CanonicalDigitsRoundTrip(s: string)
    requires IsCanonicalDigits(s)
    ensures NatToString(DigitsValue(s)) == s
  {
    var n := DigitsValue(s);
    if |s| == 1 {
      assert DigitsValue(s[..0]) == 0;
      assert NatToString(n) == [DigitChar(n)];
    } else {
      var p := s[..|s| - 1];
      LeadingNonZeroPositive(p);
      assert n / 10 == DigitsValue(p) && n % 10 == s[|s| - 1] as int - '0' as int;
      CanonicalDigitsRoundTrip(p);
      assert s == p + [s[|s| - 1]];
    }
  }
}
