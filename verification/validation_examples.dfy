/** The behaviours the library's own checks of `try` exercise, stated for every key, value and
    rule rather than for the single inputs those checks use. */
module ValidationExamples {
  import opened Results
  import opened Values
  import opened RuleParser
  import opened Languages
  import opened Responses
  import opened RuleManager
  import opened Validation
  import opened ValidationProofs

  /** An absent rule reports its message wherever in the absent key's list it sits. */
  lemma {:induction false} RequiredMessagesHas(language: Language, render: Renderer, data: Record,
                                               key: string, rs: seq<Rule>, i: nat, j: nat)
    requires i <= j < |rs| && RequiredFires(data, rs[j])
    ensures RuleMessage(language, render, key, Get(data, key), rs[j]) in RequiredMessages(language, render, data, key, rs, i)
    decreases j - i
  {
    if i < j {
      RequiredMessagesHas(language, render, data, key, rs, i + 1, j);
    }
  }

  /** An undefined or null key whose rules hold no member of the required family gets no
      message, and none of its rules is left to run. */
  lemma TryAbsentOptional(v: Validator, host: Host, data: Record, raw: map<string, seq<RawRule>>,
                          order: seq<string>, key: string)
    requires Enumerates(order, raw.Keys)
    requires Try(v, host, data, raw, order).Success?
    requires key in raw && !IsPresent(data, key)
    requires forall j :: 0 <= j < |raw[key]| ==> ParseRule(raw[key][j]).name !in {Required, RequiredWith, RequiredWithout}
    ensures Lookup(Try(v, host, data, raw, order).value, key) == []
    ensures key !in Try(v, host, data, raw, order).value.rules
    ensures key !in Try(v, host, data, raw, order).value.data
  {
    var rules := FulfillRules(raw);
    TryMessages(v, host, data, raw, order, key);
    RequiredMessagesEmpty(v.language, host.render, data, key, rules[key], 0);
  }

  /** An undefined or null key with a `required` rule fails the response, with that rule's
      message among the key's messages. */
  lemma TryAbsentRequired(v: Validator, host: Host, data: Record, raw: map<string, seq<RawRule>>,
                          order: seq<string>, key: string, i: nat)
    requires Enumerates(order, raw.Keys)
    requires Try(v, host, data, raw, order).Success?
    requires key in raw && !IsPresent(data, key) && i < |raw[key]|
    requires ParseRule(raw[key][i]).name == Required
    ensures Failed(Try(v, host, data, raw, order).value)
    ensures RuleMessage(v.language, host.render, key, Get(data, key), ParseRule(raw[key][i]))
            in Lookup(Try(v, host, data, raw, order).value, key)
  {
    var rules := FulfillRules(raw);
    var r := Try(v, host, data, raw, order).value;
    TryMessages(v, host, data, raw, order, key);
    RequiredMessagesHas(v.language, host.render, data, key, rules[key], 0, i);
    PassedIffNoMessage(r);
  }

  /** One present key with one rule that is not a required rule is kept as it is, and nothing
      is dropped from the data. */
  lemma SingleRuleContext(data: Record, key: string, raw: RawRule)
    requires IsPresent(data, key) && !IsRequired(ParseRule(raw))
    ensures var rules := FulfillRules(map[key := [raw]]);
      && rules == map[key := [ParseRule(raw)]]
      && WorkingData(data, rules) == data
      && Kept(data, rules) == rules
  {
    var rule := ParseRule(raw);
    var rules := FulfillRules(map[key := [raw]]);
    assert rules[key] == [rule];
    assert rules == map[key := [rule]];
    assert Dropped(data, rules) == {};
    WithoutRequiredKeepsPlainRules([rule]);
  }

  /** The messages of the single-rule call, key by key. */
  lemma SingleRuleMessages(v: Validator, host: Host, data: Record, key: string, raw: RawRule, verdict: Value, k: string)
    requires IsPresent(data, key) && !IsRequired(ParseRule(raw))
    requires Run(v.validators, host.foreign, data, key, ParseRule(raw)) == Success(verdict)
    ensures var t := Try(v, host, data, map[key := [raw]], [key]);
      && t.Success?
      && Valid(t.value)
      && Lookup(t.value, k)
         == if k == key && !Truthy(verdict) then [RuleMessage(v.language, host.render, key, data[key], ParseRule(raw))] else []
  {
    var raws := map[key := [raw]];
    var rules := FulfillRules(raws);
    SingleRuleContext(data, key, raw);
    assert Enumerates([key], raws.Keys);
    TryFails(v, host, data, raws, [key]);
    TryMessages(v, host, data, raws, [key], k);
    var rules1 := map[key := [ParseRule(raw)]];
    assert CheckMessages(v, host, data, rules1, key, 1) == [];
    assert k == key ==> ExpectedMessages(v, host, data, rules, k) == CheckMessages(v, host, data, rules1, key, 0);
  }

  /** One present key with one rule that is not a required rule: the check's verdict alone
      decides, a truthy verdict leaving no message and a falsy one the rule's message. */
  lemma TrySingleRule(v: Validator, host: Host, data: Record, key: string, raw: RawRule, verdict: Value)
    requires IsPresent(data, key) && !IsRequired(ParseRule(raw))
    requires Run(v.validators, host.foreign, data, key, ParseRule(raw)) == Success(verdict)
    ensures var t := Try(v, host, data, map[key := [raw]], [key]);
      && t.Success?
      && (Passed(t.value) <==> Truthy(verdict))
      && t.value.errors
         == if Truthy(verdict) then map[] else map[key := [RuleMessage(v.language, host.render, key, data[key], ParseRule(raw))]]
  {
    var t := Try(v, host, data, map[key := [raw]], [key]);
    var msg := RuleMessage(v.language, host.render, key, data[key], ParseRule(raw));
    SingleRuleMessages(v, host, data, key, raw, verdict, key);
    if Truthy(verdict) {
      forall k ensures Lookup(t.value, k) == [] {
        SingleRuleMessages(v, host, data, key, raw, verdict, k);
      }
      ErrorsFromLookup(t.value, map[]);
    } else {
      var expected := map[key := [msg]];
      forall k ensures Lookup(t.value, k) == if k in expected then expected[k] else [] {
        SingleRuleMessages(v, host, data, key, raw, verdict, k);
      }
      ErrorsFromLookup(t.value, expected);
    }
  }
}
