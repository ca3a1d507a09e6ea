/** The validator (lib/index.js): rule normalisation, the required-family extraction that drops
    absent keys, and `try`, which runs every remaining rule through the registry and records a
    message for every falsy verdict.

    Key order: JavaScript's `for (key in rules)` visits the rule keys in the object's own order,
    which the model takes as a parameter `order` listing every rule key once. The checks that
    `try` starts concurrently are settled here one after the other in that order; the per-key
    messages do not depend on the order (see ValidationProofs). */
module Validation {
  import opened Results
  import opened Text
  import opened Values
  import opened RuleParser
  import opened Languages
  import opened Responses
  import opened RuleManager

  /** A validator: its rule registry and its message catalog. */
  datatype Validator = Validator(validators: Manager, language: Language)

  /** What the validator takes from outside: the behaviour of foreign predicates and the
      rendering of message templates. */
  datatype Host = Host(foreign: ForeignFn, render: Renderer)

  /** Normalised rules: key to its list of rules. */
  type Rules = map<string, seq<Rule>>

  /** `order` lists every key of `keys` exactly once. */
  ghost predicate Enumerates(order: seq<string>, keys: set<string>) {
    Distinct(order) && forall k :: k in order <==> k in keys
  }

  // ---------------------------------------------------------------------------------------------
  // Presence and the required family

  /** `isPresent(data, key)`: the key's value is neither undefined nor null; falsy values such
      as `0`, `''` and `false` are present. */
  function IsPresent(data: Record, key: string): (present: bool)
    ensures present <==> key in data && !data[key].Undefined? && !data[key].Null?
    ensures key in data && data[key] in {Num(0), Str(""), Bool(false)} ==> present
  {
    !Nullish(Get(data, key))
  }

  const Required := "required"
  const RequiredWith := "requiredWith"
  const RequiredWithout := "requiredWithout"

  /** `isRequired(rule)`: the rule's name starts with `required`, so the three family members
      and any other name with that prefix are required rules. */
  function IsRequired(rule: Rule): (required: bool)
    ensures rule.name in {Required, RequiredWith, RequiredWithout} ==> required
    ensures required <==> |rule.name| >= |Required| && rule.name[..|Required|] == Required
  {
    StartsWith(rule.name, Required)
  }

  /** Whether a rule of an ABSENT key reports an error: `required` always, `requiredWith(o)`
      when `o` is present, `requiredWithout(o)` when `o` is absent, and nothing else ever. The
      other key is the rule's first argument converted to a property key. */
  function RequiredFires(data: Record, rule: Rule): (fires: bool)
    ensures rule.name !in {Required, RequiredWith, RequiredWithout} ==> !fires
    ensures rule.name == Required ==> fires
    ensures rule.name == RequiredWith ==> (fires <==> IsPresent(data, ToString(Arg(rule.args, 0))))
    ensures rule.name == RequiredWithout ==> (fires <==> !IsPresent(data, ToString(Arg(rule.args, 0))))
  {
    if rule.name == Required then true
    else if rule.name == RequiredWith then IsPresent(data, ToString(Arg(rule.args, 0)))
    else if rule.name == RequiredWithout then !IsPresent(data, ToString(Arg(rule.args, 0)))
    else false
  }

  // ---------------------------------------------------------------------------------------------
  // Normalisation

  /** `fulfillRules(rules)`: every rule of every key normalised, keys and positions kept. */
  function FulfillRules(raw: map<string, seq<RawRule>>): (rules: Rules)
    ensures rules.Keys == raw.Keys
    ensures forall k :: k in raw ==> |rules[k]| == |raw[k]|
    ensures forall k, i :: k in raw && 0 <= i < |raw[k]| ==> rules[k][i] == ParseRule(raw[k][i])
  {
    map k | k in raw :: seq(|raw[k]|, i requires 0 <= i < |raw[k]| => ParseRule(raw[k][i]))
  }

  /** Normalised rules written back as array rules. */
  function AsStructured(rules: Rules): map<string, seq<RawRule>> {
    map k | k in rules :: seq(|rules[k]|, i requires 0 <= i < |rules[k]| => Structured(rules[k][i]))
  }

  /** Normalising normalised rules changes nothing. */
  lemma FulfillRulesIdempotent(raw: map<string, seq<RawRule>>)
    ensures FulfillRules(AsStructured(FulfillRules(raw))) == FulfillRules(raw)
  {
    var once := FulfillRules(raw);
    var twice := FulfillRules(AsStructured(once));
    forall k | k in once
      ensures twice[k] == once[k]
    {
      assert |twice[k]| == |once[k]|;
      forall i | 0 <= i < |once[k]|
        ensures twice[k][i] == once[k][i]
      {
        ParseRuleIdempotent(raw[k][i]);
      }
    }
  }

  // ---------------------------------------------------------------------------------------------
  // Extraction of the required family (`extractRequired`)

  /** The messages the required family reports for an absent key, from its `i`-th rule on, in
      rule order. */
  function RequiredMessages(language: Language, render: Renderer, data: Record, key: string,
                            rs: seq<Rule>, i: nat): seq<string>
    requires i <= |rs|
    decreases |rs| - i
  {
    if i == |rs| then []
    else
      (if RequiredFires(data, rs[i]) then [RuleMessage(language, render, key, Get(data, key), rs[i])] else [])
      + RequiredMessages(language, render, data, key, rs, i + 1)
  }

  /** The inner loop of `extractRequired` for an absent key, from its `i`-th rule on: every rule
      that fires adds its error (`response.addError(key, i)`). */
  function ReportRequired(resp: Response, render: Renderer, key: string, i: nat): (r: Response)
    requires key in resp.rules && i <= |resp.rules[key]|
    ensures r.language == resp.language && r.data == resp.data && r.rules == resp.rules
    decreases |resp.rules[key]| - i
  {
    if i == |resp.rules[key]| then resp
    else
      var next :=
        if RequiredFires(resp.data, resp.rules[key][i]) then AddError(resp, render, key, i) else resp;
      ReportRequired(next, render, key, i + 1)
  }

  /** The key gains exactly its required-family messages, in rule order; every other key keeps
      its messages. */
  lemma {:induction false} ReportRequiredSpec(resp: Response, render: Renderer, key: string, i: nat)
    requires key in resp.rules && i <= |resp.rules[key]|
    ensures Lookup(ReportRequired(resp, render, key, i), key)
         == Lookup(resp, key) + RequiredMessages(resp.language, render, resp.data, key, resp.rules[key], i)
    ensures forall k :: k != key ==> Lookup(ReportRequired(resp, render, key, i), k) == Lookup(resp, k)
    ensures Valid(resp) ==> Valid(ReportRequired(resp, render, key, i))
    decreases |resp.rules[key]| - i
  {
    if i < |resp.rules[key]| {
      var fires := RequiredFires(resp.data, resp.rules[key][i]);
      var next := if fires then AddError(resp, render, key, i) else resp;
      var tail := RequiredMessages(resp.language, render, resp.data, key, resp.rules[key], i + 1);
      var here := if fires then [Message(resp, render, key, i)] else [];
      assert ReportRequired(resp, render, key, i) == ReportRequired(next, render, key, i + 1);
      assert Lookup(ReportRequired(next, render, key, i + 1), key) == Lookup(next, key) + tail
          && (forall k :: k != key ==> Lookup(ReportRequired(next, render, key, i + 1), k) == Lookup(next, k))
          && (Valid(next) ==> Valid(ReportRequired(next, render, key, i + 1))) by {
        ReportRequiredSpec(next, render, key, i + 1);
      }
      assert Lookup(next, key) == Lookup(resp, key) + here;
      assert RequiredMessages(resp.language, render, resp.data, key, resp.rules[key], i) == here + tail;
      ConcatAssoc(Lookup(resp, key), here, tail);
    }
  }

  /** `delete rules[key]; delete data[key]`. */
  function Drop(resp: Response, key: string): (r: Response)
    ensures r.rules == resp.rules - {key} && r.data == resp.data - {key}
    ensures r.language == resp.language && r.errors == resp.errors && r.hasErrors == resp.hasErrors
  {
    resp.(rules := resp.rules - {key}, data := resp.data - {key})
  }

  /** One iteration of the first loop of `extractRequired`: a present key is left alone; an
      absent one reports its required-family errors and is dropped from rules and data. */
  function ExtractKey(resp: Response, render: Renderer, key: string): (r: Response)
    ensures r.language == resp.language
    ensures key in resp.rules && !IsPresent(resp.data, key) ==>
      r.rules == resp.rules - {key} && r.data == resp.data - {key}
    ensures !(key in resp.rules && !IsPresent(resp.data, key)) ==>
      r.rules == resp.rules && r.data == resp.data
  {
    if key !in resp.rules || IsPresent(resp.data, key) then resp
    else Drop(ReportRequired(resp, render, key, 0), key)
  }

  /** The first loop of `extractRequired`, over the rule keys in order. */
  function ReportMissing(resp: Response, render: Renderer, order: seq<string>): (r: Response)
    ensures r.language == resp.language
    ensures r.rules.Keys <= resp.rules.Keys && r.data.Keys <= resp.data.Keys
    decreases |order|
  {
    if order == [] then resp
    else ReportMissing(ExtractKey(resp, render, order[0]), render, order[1..])
  }

  /** `_.reject(rules, isRequired)`: the rules that are not required, in their order. */
  function WithoutRequired(rs: seq<Rule>): (kept: seq<Rule>)
    ensures |kept| <= |rs|
    ensures forall j :: 0 <= j < |kept| ==> !IsRequired(kept[j])
    ensures forall x :: x in kept <==> x in rs && !IsRequired(x)
  {
    if rs == [] then []
    else (if IsRequired(rs[0]) then [] else [rs[0]]) + WithoutRequired(rs[1..])
  }

  /** Filtering keeps relative order: it distributes over concatenation, and a list without
      required rules is kept whole. */
  lemma {:induction false} WithoutRequiredConcat(a: seq<Rule>, b: seq<Rule>)
    ensures WithoutRequired(a + b) == WithoutRequired(a) + WithoutRequired(b)
  {
    if a != [] {
      assert (a + b)[0] == a[0] && (a + b)[1..] == a[1..] + b;
      WithoutRequiredConcat(a[1..], b);
    } else {
      assert a + b == b;
    }
  }

  lemma {:induction false} WithoutRequiredKeepsPlainRules(rs: seq<Rule>)
    requires forall j :: 0 <= j < |rs| ==> !IsRequired(rs[j])
    ensures WithoutRequired(rs) == rs
  {
    if rs != [] {
      WithoutRequiredKeepsPlainRules(rs[1..]);
      assert rs == [rs[0]] + rs[1..];
    }
  }

  /** The second loop of `extractRequired`: every remaining key loses its required rules. */
  function StripRequired(resp: Response): (r: Response)
    ensures r.rules.Keys == resp.rules.Keys
    ensures forall k :: k in resp.rules ==> r.rules[k] == WithoutRequired(resp.rules[k])
    ensures r.language == resp.language && r.data == resp.data
    ensures r.errors == resp.errors && r.hasErrors == resp.hasErrors
  {
    resp.(rules := map k | k in resp.rules :: WithoutRequired(resp.rules[k]))
  }

  /** `extractRequired(response, data, rules)`, acting on the response's working data and
      rules (its return value, always `{}`, is not modelled). */
  function ExtractRequired(resp: Response, render: Renderer, order: seq<string>): (r: Response)
    ensures r.language == resp.language
    ensures r.rules.Keys <= resp.rules.Keys && r.data.Keys <= resp.data.Keys
    ensures forall k, j :: k in r.rules && 0 <= j < |r.rules[k]| ==> !IsRequired(r.rules[k][j])
  {
    StripRequired(ReportMissing(resp, render, order))
  }

  // ---------------------------------------------------------------------------------------------
  // Dispatch

  /** The (key, index) pairs `k, i .. n-1`. */
  function PairsFrom(key: string, i: nat, n: nat): (ps: seq<(string, nat)>)
    ensures forall j :: 0 <= j < |ps| ==> ps[j].0 == key && i <= ps[j].1 < n
    ensures forall j :: 0 <= j < |ps| ==> ps[j].1 == i + j
    ensures |ps| == if i <= n then n - i else 0
    decreases n - i
  {
    if i >= n then [] else [(key, i)] + PairsFrom(key, i + 1, n)
  }

  /** The nested loop of `try`: for every remaining key in order, every rule index in order. */
  function Schedule(rules: Rules, order: seq<string>): (ps: seq<(string, nat)>)
    ensures forall j :: 0 <= j < |ps| ==> ps[j].0 in rules && ps[j].1 < |rules[ps[j].0]|
    ensures forall j :: 0 <= j < |ps| ==> ps[j].0 in order
    decreases |order|
  {
    if order == [] then []
    else
      var here := if order[0] in rules then PairsFrom(order[0], 0, |rules[order[0]]|) else [];
      var ps := here + Schedule(rules, order[1..]);
      assert forall j :: |here| <= j < |ps| ==> ps[j] == Schedule(rules, order[1..])[j - |here|];
      ps
  }

  /** Every pair names a rule of `rules`. */
  predicate Scheduled(rules: Rules, pairs: seq<(string, nat)>) {
    forall j :: 0 <= j < |pairs| ==> pairs[j].0 in rules && pairs[j].1 < |rules[pairs[j].0]|
  }

  /** The check of one pair: the registry runs the key's rule against the working data. */
  function Check(v: Validator, host: Host, resp: Response, pair: (string, nat)): (c: Result<Value, RunError>)
    requires pair.0 in resp.rules && pair.1 < |resp.rules[pair.0]|
    ensures (c.Failure? && c.error.RuleError?) <==> resp.rules[pair.0][pair.1].name !in v.validators.rules
  {
    Run(v.validators, host.foreign, resp.data, pair.0, resp.rules[pair.0][pair.1])
  }

  /** The messages the falsy verdicts among `pairs` add to `key`, in order. */
  function FalsyMessages(v: Validator, host: Host, resp: Response, pairs: seq<(string, nat)>, key: string): seq<string>
    requires Scheduled(resp.rules, pairs)
    decreases |pairs|
  {
    if pairs == [] then []
    else
      var c := Check(v, host, resp, pairs[0]);
      (if pairs[0].0 == key && c.Success? && !Truthy(c.value) then [Message(resp, host.render, key, pairs[0].1)] else [])
      + FalsyMessages(v, host, resp, pairs[1..], key)
  }

  /** The checks of `try` settled in order, each falsy verdict adding its error
      (`addError(response, key, i, result)`); the first check without a verdict makes the whole
      call fail with its error. */
  function Dispatch(v: Validator, host: Host, resp: Response, pairs: seq<(string, nat)>): (r: Result<Response, RunError>)
    requires Scheduled(resp.rules, pairs)
    ensures r.Success? ==> r.value.language == resp.language && r.value.data == resp.data && r.value.rules == resp.rules
    decreases |pairs|
  {
    if pairs == [] then Success(resp)
    else
      match Check(v, host, resp, pairs[0])
      case Failure(e) => Failure(e)
      case Success(verdict) =>
        var next := if Truthy(verdict) then resp else AddError(resp, host.render, pairs[0].0, pairs[0].1);
        Dispatch(v, host, next, pairs[1..])
  }

  /** On success, a key gains exactly the messages of its falsy verdicts, in order. */
  lemma {:induction false} DispatchMessages(v: Validator, host: Host, resp: Response, pairs: seq<(string, nat)>, key: string)
    requires Scheduled(resp.rules, pairs)
    requires Dispatch(v, host, resp, pairs).Success?
    ensures Lookup(Dispatch(v, host, resp, pairs).value, key)
         == Lookup(resp, key) + FalsyMessages(v, host, resp, pairs, key)
    decreases |pairs|
  {
    if pairs != [] {
      var c := Check(v, host, resp, pairs[0]);
      assert c.Success?;
      var next := if Truthy(c.value) then resp else AddError(resp, host.render, pairs[0].0, pairs[0].1);
      var here := if pairs[0].0 == key && !Truthy(c.value) then [Message(resp, host.render, key, pairs[0].1)] else [];
      var rest := FalsyMessages(v, host, resp, pairs[1..], key);
      assert Dispatch(v, host, resp, pairs) == Dispatch(v, host, next, pairs[1..]);
      assert Lookup(Dispatch(v, host, next, pairs[1..]).value, key) == Lookup(next, key) + rest by {
        DispatchMessages(v, host, next, pairs[1..], key);
        FalsyMessagesSameContext(v, host, next, resp, pairs[1..], key);
      }
      assert Lookup(next, key) == Lookup(resp, key) + here;
      assert FalsyMessages(v, host, resp, pairs, key) == here + rest;
      ConcatAssoc(Lookup(resp, key), here, rest);
    }
  }

  /** Dispatch keeps the response valid. */
  lemma {:induction false} DispatchValid(v: Validator, host: Host, resp: Response, pairs: seq<(string, nat)>)
    requires Scheduled(resp.rules, pairs) && Valid(resp)
    requires Dispatch(v, host, resp, pairs).Success?
    ensures Valid(Dispatch(v, host, resp, pairs).value)
    decreases |pairs|
  {
    if pairs != [] {
      var c := Check(v, host, resp, pairs[0]);
      var next := if Truthy(c.value) then resp else AddError(resp, host.render, pairs[0].0, pairs[0].1);
      assert Dispatch(v, host, resp, pairs) == Dispatch(v, host, next, pairs[1..]);
      DispatchValid(v, host, next, pairs[1..]);
    }
  }

  /** The falsy messages depend on the response only through its catalog, data and rules. */
  lemma {:induction false} FalsyMessagesSameContext(v: Validator, host: Host, r1: Response, r2: Response,
                                                    pairs: seq<(string, nat)>, key: string)
    requires r1.language == r2.language && r1.data == r2.data && r1.rules == r2.rules
    requires Scheduled(r1.rules, pairs)
    ensures FalsyMessages(v, host, r1, pairs, key) == FalsyMessages(v, host, r2, pairs, key)
    decreases |pairs|
  {
    if pairs != [] {
      FalsyMessagesSameContext(v, host, r1, r2, pairs[1..], key);
    }
  }

  /** `try(data, rules)` for a key order `order`: normalise the rules, report and drop absent
      keys, then settle every remaining check. Working on fresh values, it never changes the
      caller's data or rules. */
  function Try(v: Validator, host: Host, data: Record, raw: map<string, seq<RawRule>>,
               order: seq<string>): (r: Result<Response, RunError>)
    ensures r.Success? ==> r.value.language == v.language
    ensures r.Success? ==> r.value.rules.Keys <= raw.Keys && r.value.data.Keys <= data.Keys
    ensures r.Success? ==>
      forall k, j :: k in r.value.rules && 0 <= j < |r.value.rules[k]| ==> !IsRequired(r.value.rules[k][j])
  {
    var resp := ExtractRequired(NewResponse(v.language, data, FulfillRules(raw)), host.render, order);
    Dispatch(v, host, resp, Schedule(resp.rules, order))
  }

  // ---------------------------------------------------------------------------------------------
  // Reference definitions of the outcome of `try`

  /** The ruled keys whose value is absent. */
  function Dropped(data: Record, rules: Rules): set<string> {
    set k | k in rules && !IsPresent(data, k)
  }

  /** The data the checks see: the caller's data without the absent ruled keys. */
  function WorkingData(data: Record, rules: Rules): Record {
    map k | k in data && k !in Dropped(data, rules) :: data[k]
  }

  /** The rules that run: those of the present keys, without required rules. */
  function Kept(data: Record, rules: Rules): Rules {
    map k | k in rules && IsPresent(data, k) :: WithoutRequired(rules[k])
  }

  /** The messages of the falsy verdicts among the kept rules of `key`, from the `i`-th on, each
      built from the rule that was checked. */
  function CheckMessages(v: Validator, host: Host, data: Record, rules: Rules, key: string, i: nat): seq<string>
    requires key in rules && i <= |rules[key]|
    decreases |rules[key]| - i
  {
    if i == |rules[key]| then []
    else
      var c := Run(v.validators, host.foreign, data, key, rules[key][i]);
      (if c.Success? && !Truthy(c.value)
       then [RuleMessage(v.language, host.render, key, Get(data, key), rules[key][i])] else [])
      + CheckMessages(v, host, data, rules, key, i + 1)
  }

  /** The messages `try` reports for `key`: the required-family messages of an absent key, the
      falsy-verdict messages of a present one, none for a key without rules. */
  function ExpectedMessages(v: Validator, host: Host, data: Record, rules: Rules, key: string): seq<string> {
    if key !in rules then []
    else if !IsPresent(data, key) then RequiredMessages(v.language, host.render, data, key, rules[key], 0)
    else CheckMessages(v, host, WorkingData(data, rules), Kept(data, rules), key, 0)
  }

  /** Some kept rule's check gives no verdict. */
  ghost predicate SomeCheckFails(v: Validator, host: Host, data: Record, rules: Rules) {
    var kept := Kept(data, rules);
    exists k, i :: k in kept && 0 <= i < |kept[k]|
      && Run(v.validators, host.foreign, WorkingData(data, rules), k, kept[k][i]).Failure?
  }
}
