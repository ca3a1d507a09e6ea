/** The validation response (lib/response.js): per-key lists of error messages and the failed
    flag, plus the catalog, data and rules it resolves messages against. The rules and data are
    the working copies the validator edits while it runs, so a message is always built from the
    rule list that the reported index points into. */
module Responses {
  import opened Results
  import opened Values
  import opened RuleParser
  import opened Languages

  datatype Response = Response(
    language: Language,
    data: Record,
    rules: map<string, seq<Rule>>,
    errors: map<string, seq<string>>,
    hasErrors: bool)

  /** Every recorded list holds a message, and the flag is set exactly when one is recorded. */
  ghost predicate Valid(r: Response) {
    && (forall k :: k in r.errors ==> r.errors[k] != [])
    && (r.hasErrors <==> r.errors != map[])
  }

  /** The messages recorded for `key` (none when the key has no list). */
  function Lookup(r: Response, key: string): seq<string> {
    if key in r.errors then r.errors[key] else []
  }

  /** The `passed` getter. */
  predicate Passed(r: Response)
    ensures Valid(r) ==> (Passed(r) <==> r.errors == map[])
  {
    !r.hasErrors
  }

  /** The `failed` getter: always the negation of `passed`. */
  predicate Failed(r: Response)
    ensures Failed(r) <==> !Passed(r)
  {
    r.hasErrors
  }

  /** `new Response(language, data, rules)`: a valid response with no message, which passed. */
  function NewResponse(language: Language, data: Record, rules: map<string, seq<Rule>>): (r: Response)
    ensures Valid(r) && Passed(r) && !Failed(r)
    ensures forall k :: Lookup(r, k) == []
    ensures r.language == language && r.data == data && r.rules == rules
  {
    Response(language, data, rules, map[], false)
  }

  /** A response passed exactly when no key has a message. */
  lemma PassedIffNoMessage(r: Response)
    requires Valid(r)
    ensures Passed(r) <==> forall k :: Lookup(r, k) == []
  {
    if !Passed(r) {
      var k :| k in r.errors;
      assert Lookup(r, k) != [];
    }
  }

  /** The variables a rule's message is rendered with: the key, its value, the rule's arguments. */
  function MessageVars(key: string, value: Value, args: seq<Value>): (vars: map<string, Value>)
    ensures vars.Keys == {"key", "value", "args"}
    ensures vars["key"] == Str(key) && vars["value"] == value && vars["args"] == Arr(args)
  {
    map["key" := Str(key), "value" := value, "args" := Arr(args)]
  }

  /** The message for a failed rule: the entry named by the rule, rendered with its key, the
      key's value and the rule's arguments. */
  function RuleMessage(language: Language, render: Renderer, key: string, value: Value, rule: Rule): string {
    Resolve(language, render, rule.name, MessageVars(key, value, rule.args))
  }

  /** The message for the `index`-th rule of `key`, as the response resolves it. */
  function Message(r: Response, render: Renderer, key: string, index: nat): string
    requires key in r.rules && index < |r.rules[key]|
  {
    RuleMessage(r.language, render, key, Get(r.data, key), r.rules[key][index])
  }

  /** `addError(key, index)`: exactly one message is appended to the key's list (created when
      missing, earlier messages kept), every other list stays, and the response has failed. */
  function AddError(r: Response, render: Renderer, key: string, index: nat): (r': Response)
    requires key in r.rules && index < |r.rules[key]|
    ensures Lookup(r', key) == Lookup(r, key) + [Message(r, render, key, index)]
    ensures forall k :: k != key ==> Lookup(r', k) == Lookup(r, k)
    ensures Failed(r')
    ensures r'.language == r.language && r'.data == r.data && r'.rules == r.rules
    ensures Valid(r) ==> Valid(r')
  {
    r.(errors := r.errors[key := Lookup(r, key) + [Message(r, render, key, index)]], hasErrors := true)
  }

  /** The `keys()` passthrough: the keys that have a list of messages. */
  function Keys(r: Response): (keys: set<string>)
    ensures Valid(r) ==> forall k :: k in keys <==> Lookup(r, k) != []
  {
    r.errors.Keys
  }

  /** Adding the same error twice records the message twice, under that key only. */
  lemma AddErrorTwice(language: Language, render: Renderer)
    ensures
      var r := NewResponse(language, map["foo" := Str("bar")], map["foo" := [Rule("rule", [Num(1), Num(2)])]]);
      var m := Resolve(language, render, "rule",
                       map["key" := Str("foo"), "value" := Str("bar"), "args" := Arr([Num(1), Num(2)])]);
      var once := AddError(r, render, "foo", 0);
      var twice := AddError(once, render, "foo", 0);
      && once.errors == map["foo" := [m]] && Failed(once) && !Passed(once)
      && twice.errors == map["foo" := [m, m]]
      && Keys(once) == {"foo"}
  {
    var r := NewResponse(language, map["foo" := Str("bar")], map["foo" := [Rule("rule", [Num(1), Num(2)])]]);
    var vars := map["key" := Str("foo"), "value" := Str("bar"), "args" := Arr([Num(1), Num(2)])];
    assert MessageVars("foo", Str("bar"), [Num(1), Num(2)]) == vars;
    assert Message(r, render, "foo", 0) == Resolve(language, render, "rule", vars);
    var once := AddError(r, render, "foo", 0);
    assert Lookup(once, "foo") == [Message(r, render, "foo", 0)];
    assert once.errors.Keys == {"foo"};
    assert Message(once, render, "foo", 0) == Message(r, render, "foo", 0);
    var twice := AddError(once, render, "foo", 0);
    assert Lookup(twice, "foo") == [Message(r, render, "foo", 0), Message(r, render, "foo", 0)];
    assert twice.errors.Keys == {"foo"};
    assert once.errors == map["foo" := [Message(r, render, "foo", 0)]];
  }

  /** A valid response is determined by its catalog, data, rules and per-key messages. */
  lemma SameMessagesSameResponse(r1: Response, r2: Response)
    requires Valid(r1) && Valid(r2)
    requires r1.language == r2.language && r1.data == r2.data && r1.rules == r2.rules
    requires forall k :: Lookup(r1, k) == Lookup(r2, k)
    ensures r1 == r2
  {
    assert forall k :: k in r1.errors <==> Lookup(r1, k) != [];
    assert forall k :: k in r2.errors <==> Lookup(r2, k) != [];
    assert r1.errors.Keys == r2.errors.Keys;
    assert forall k :: k in r1.errors ==> r1.errors[k] == Lookup(r1, k);
    assert r1.errors == r2.errors;
  }

  /** A valid response whose lists are those of `expected` (none recorded empty) has exactly
      those lists. */
  lemma ErrorsFromLookup(r: Response, expected: map<string, seq<string>>)
    requires Valid(r)
    requires forall k :: k in expected ==> expected[k] != []
    requires forall k :: Lookup(r, k) == if k in expected then expected[k] else []
    ensures r.errors == expected
  {
    assert forall k :: k in r.errors <==> Lookup(r, k) != [];
    assert r.errors.Keys == expected.Keys;
  }
}
