/** Rule normalisation (`fulfillRule` in lib/index.js): a rule is either already an array
    `[name, arg1, ...]`, kept as is, or a string `"name"` / `"name: arg1, arg2"`, which is split
    at the first colon, its remainder split at every comma, every piece trimmed, and every
    argument read as a JSON literal when it is one. */
module RuleParser {
  import opened Results
  import opened Text
  import opened Values

  /** Separates the rule name from its arguments in string rules. */
  const MethodDelimiter := ':'
  /** Separates the arguments in string rules. */
  const ArgumentDelimiter := ','

  /** A normalised rule: the array `[name, ...args]`. */
  datatype Rule = Rule(name: string, args: seq<Value>)

  /** A rule as the caller writes it: already an array, or a string still to be parsed. */
  datatype RawRule = Structured(rule: Rule) | Unparsed(text: string)

  // ---------------------------------------------------------------------------------------------
  // JSON literals (the subset the model reads: true, false, null, integers, plain strings)

  /** A JSON integer: an optional minus sign, then digits with no superfluous leading zero. */
  predicate IsJsonInt(t: string) {
    if t != [] && t[0] == '-' then IsCanonicalDigits(t[1..]) else IsCanonicalDigits(t)
  }

  function JsonIntValue(t: string): int
    requires IsJsonInt(t)
  {
    if t[0] == '-' then -(DigitsValue(t[1..]) as int) else DigitsValue(t)
  }

  /** The body of a JSON string that needs no escape sequence. */
  predicate IsPlainStringBody(s: string) {
    forall i :: 0 <= i < |s| ==> s[i] != '"' && s[i] != '\\' && s[i] as int >= 0x20
  }

  /** A double-quoted JSON string without escape sequences. */
  predicate IsQuoted(t: string) {
    |t| >= 2 && t[0] == '"' && t[|t| - 1] == '"' && IsPlainStringBody(t[1..|t| - 1])
  }

  /** Text that `JSON.parse` accepts, within the modelled subset. */
  predicate IsLiteralText(t: string) {
    t == "true" || t == "false" || t == "null" || IsJsonInt(t) || IsQuoted(t)
  }

  /** A value that has a literal text form in the modelled subset. */
  predicate Renderable(v: Value) {
    v.Null? || v.Bool? || v.Num? || (v.Str? && IsPlainStringBody(v.s))
  }

  /** `try { arg = JSON.parse(arg) } catch (e) {}`: the literal's value when `t` is one,
      otherwise the text itself as a string. */
  function ParseLiteral(t: string): (v: Value)
    ensures !IsLiteralText(t) ==> v == Str(t)
    ensures IsLiteralText(t) ==> Renderable(v)
  {
    if t == "true" then Bool(true)
    else if t == "false" then Bool(false)
    else if t == "null" then Null
    else if IsJsonInt(t) then Num(JsonIntValue(t))
    else if IsQuoted(t) then Str(t[1..|t| - 1])
    else Str(t)
  }

  /** The literal text of a renderable value: the inverse of `ParseLiteral`. */
  function RenderLiteral(v: Value): (t: string)
    requires Renderable(v)
    ensures IsLiteralText(t) && IsTrimmed(t)
    ensures v.Str? ==> (ArgumentDelimiter in t <==> ArgumentDelimiter in v.s)
    ensures !v.Str? ==> ArgumentDelimiter !in t
  {
    match v
    case Null => "null"
    case Bool(b) => if b then "true" else "false"
    case Num(n) =>
      var t := IntToString(n);
      assert n < 0 ==> t == "-" + NatToString(-n) && t[1..] == NatToString(-n);
      t
    case Str(s) =>
      var t := "\"" + s + "\"";
      assert t[1..|t| - 1] == s;
      t
  }

  /** Reading back a rendered literal gives the value. */
  lemma LiteralRoundTrip(v: Value)
    requires Renderable(v)
    ensures ParseLiteral(RenderLiteral(v)) == v
  {
    var t := RenderLiteral(v);
    match v
    case Num(n) =>
      if n < 0 {
        assert t[1..] == NatToString(-n);
        assert DigitsValue(t[1..]) == -n;
      } else {
        assert t == NatToString(n);
      }
    case Str(s) =>
      assert t[1..|t| - 1] == s;
    case _ =>
  }

  /** A text that parses as a literal is that literal's canonical form, except `-0`, which JSON
      reads as zero. */
  lemma LiteralCanonical(t: string)
    requires IsLiteralText(t) && t != "-0"
    ensures RenderLiteral(ParseLiteral(t)) == t
  {
    if t == "true" || t == "false" || t == "null" {
    } else if IsJsonInt(t) {
      if t[0] == '-' {
        CanonicalDigitsRoundTrip(t[1..]);
        assert DigitsValue(t[1..]) != 0;
        assert t == "-" + t[1..];
      } else {
        CanonicalDigitsRoundTrip(t);
      }
    } else {
      assert t == "\"" + t[1..|t| - 1] + "\"";
    }
  }

  // ---------------------------------------------------------------------------------------------
  // Rules

  /** The arguments of a string rule, from the text after the first colon: one per
      comma-separated piece, each trimmed and read as a literal. */
  function ParseArgs(rest: string): (args: seq<Value>)
    ensures |args| == Count(rest, ArgumentDelimiter) + 1
    ensures forall i :: 0 <= i < |args| ==>
      args[i] == ParseLiteral(Trim(Split(rest, ArgumentDelimiter)[i]))
  {
    var pieces := Split(rest, ArgumentDelimiter);
    seq(|pieces|, i requires 0 <= i < |pieces| => ParseLiteral(Trim(pieces[i])))
  }

  /** A string rule, split at its first colon (if any). */
  function ParseText(s: string): (r: Rule)
    ensures IndexOf(s, MethodDelimiter).None? ==> r.args == []
    ensures IndexOf(s, MethodDelimiter).Some? ==> |r.args| > 0
  {
    match IndexOf(s, MethodDelimiter)
    case None => Rule(Trim(s), [])
    case Some(d) => Rule(Trim(s[..d]), ParseArgs(s[d + 1..]))
  }

  /** A string without a colon is the rule named by the trimmed string, with no arguments. */
  lemma ParseTextWithoutColon(s: string)
    requires MethodDelimiter !in s
    ensures ParseText(s) == Rule(Trim(s), [])
  {
    assert IndexOf(s, MethodDelimiter).None?;
  }

  /** With a colon, the name is the trimmed text before the FIRST colon; the rest gives one
      argument per comma-separated piece, so later colons stay inside the arguments. */
  lemma ParseTextAtFirstColon(s: string, d: nat)
    requires d < |s| && s[d] == MethodDelimiter && MethodDelimiter !in s[..d]
    ensures ParseText(s).name == Trim(s[..d])
    ensures ParseText(s).args == ParseArgs(s[d + 1..])
    ensures |ParseText(s).args| == Count(s[d + 1..], ArgumentDelimiter) + 1
  {
    assert s == s[..d] + [MethodDelimiter] + s[d + 1..];
    IndexOfAfter(s[..d], MethodDelimiter, s[d + 1..]);
  }

  /** `fulfillRule`: an array rule comes back unchanged, a string rule is parsed. */
  function ParseRule(raw: RawRule): (r: Rule)
    ensures raw.Structured? ==> r == raw.rule
    ensures raw.Unparsed? ==> r == ParseText(raw.text)
  {
    match raw
    case Structured(rule) => rule
    case Unparsed(s) => ParseText(s)
  }

  /** Normalising twice is normalising once: a parsed rule is an array rule, which is kept. */
  lemma ParseRuleIdempotent(raw: RawRule)
    ensures ParseRule(Structured(ParseRule(raw))) == ParseRule(raw)
  {
  }

  /** Rules that have a string form: a trimmed, colon-free name and arguments whose literal text
      holds no comma. */
  predicate RuleRenderable(r: Rule) {
    && IsTrimmed(r.name)
    && MethodDelimiter !in r.name
    && forall i :: 0 <= i < |r.args| ==>
         Renderable(r.args[i]) && (r.args[i].Str? ==> ArgumentDelimiter !in r.args[i].s)
  }

  function RenderArgs(args: seq<Value>): (ts: seq<string>)
    requires forall i :: 0 <= i < |args| ==> Renderable(args[i])
    ensures |ts| == |args|
    ensures forall i :: 0 <= i < |args| ==> ts[i] == RenderLiteral(args[i])
  {
    seq(|args|, i requires 0 <= i < |args| => RenderLiteral(args[i]))
  }

  /** The string form `name:arg1,arg2,...` of a rule (just `name` when it has no arguments). */
  function RenderRule(r: Rule): string
    requires RuleRenderable(r)
  {
    if r.args == [] then r.name
    else r.name + [MethodDelimiter] + Join(RenderArgs(r.args), ArgumentDelimiter)
  }

  /** Reading back the comma-joined literal texts of the arguments gives the arguments. */
  lemma ArgsRoundTrip(args: seq<Value>)
    requires |args| > 0
    requires forall i :: 0 <= i < |args| ==>
      Renderable(args[i]) && (args[i].Str? ==> ArgumentDelimiter !in args[i].s)
    ensures ParseArgs(Join(RenderArgs(args), ArgumentDelimiter)) == args
  {
    var pieces := RenderArgs(args);
    SplitJoin(pieces, ArgumentDelimiter);
    var parsed := ParseArgs(Join(pieces, ArgumentDelimiter));
    forall i | 0 <= i < |args|
      ensures parsed[i] == args[i]
    {
      LiteralRoundTrip(args[i]);
    }
  }

  /** Parsing the string form of a rule gives the rule back. */
  lemma RuleRoundTrip(r: Rule)
    requires RuleRenderable(r)
    ensures ParseRule(Unparsed(RenderRule(r))) == r
  {
    if r.args == [] {
      ParseTextWithoutColon(r.name);
    } else {
      var rest := Join(RenderArgs(r.args), ArgumentDelimiter);
      var s := r.name + [MethodDelimiter] + rest;
      assert s[..|r.name|] == r.name;
      assert s[|r.name| + 1..] == rest;
      ParseTextAtFirstColon(s, |r.name|);
      ArgsRoundTrip(r.args);
    }
  }
}
