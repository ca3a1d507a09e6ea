/** What `try` computes, stated against the reference definitions of Validation: which keys are
    dropped, which messages every key ends with, when the call fails, and that none of this
    depends on the key order. */
module ValidationProofs {
  import opened Results
  import opened Text
  import opened Values
  import opened RuleParser
  import opened Languages
  import opened Responses
  import opened RuleManager
  import opened Validation

  // ---------------------------------------------------------------------------------------------
  // Extraction

  /** The required-family messages read the data only through the key's own value and the
      presence of other keys. */
  lemma {:induction false} RequiredMessagesCongruent(language: Language, render: Renderer, d1: Record, d2: Record,
                                                     key: string, rs: seq<Rule>, i: nat)
    requires i <= |rs|
    requires Get(d1, key) == Get(d2, key)
    requires forall o :: IsPresent(d1, o) <==> IsPresent(d2, o)
    ensures RequiredMessages(language, render, d1, key, rs, i) == RequiredMessages(language, render, d2, key, rs, i)
    decreases |rs| - i
  {
    if i < |rs| {
      assert RequiredFires(d1, rs[i]) == RequiredFires(d2, rs[i]) by {
        var other := ToString(Arg(rs[i].args, 0));
        assert IsPresent(d1, other) <==> IsPresent(d2, other);
      }
      RequiredMessagesCongruent(language, render, d1, d2, key, rs, i + 1);
    }
  }

  /** The keys of `order` that are ruled and absent. */
  function DroppedIn(data: Record, rules: Rules, order: seq<string>): set<string> {
    set k | k in order && k in rules && !IsPresent(data, k)
  }

  /** A working response still agrees with the original data and rules on the keys of `order`,
      which are left to visit: same values, same rule lists, no message yet, and the same keys
      present. */
  ghost predicate Agrees(resp: Response, order: seq<string>, data: Record, rules: Rules) {
    && Distinct(order)
    && (forall k :: k in order ==> Get(resp.data, k) == Get(data, k))
    && (forall k :: k in order ==> (k in resp.rules <==> k in rules))
    && (forall k :: k in order && k in rules ==> resp.rules[k] == rules[k])
    && (forall k :: k in order ==> Lookup(resp, k) == [])
    && (forall o :: IsPresent(resp.data, o) <==> IsPresent(data, o))
  }

  /** The keys after the first one still agree. */
  lemma AgreesLater(resp: Response, order: seq<string>, data: Record, rules: Rules)
    requires order != [] && Agrees(resp, order, data, rules)
    ensures Agrees(resp, order[1..], data, rules)
    ensures order[0] !in order[1..]
    ensures DroppedIn(data, rules, order) == DroppedIn(data, rules, order[1..]) + (DroppedIn(data, rules, order) * {order[0]})
    ensures order[0] !in DroppedIn(data, rules, order[1..])
  {
    assert Distinct(order[1..]);
    assert forall k :: k in order[1..] ==> k in order && k != order[0];
  }

  /** A visited key that is present, or has no rules, changes nothing. */
  lemma ExtractKeyKeeps(resp: Response, render: Renderer, order: seq<string>, data: Record, rules: Rules)
    requires order != [] && Agrees(resp, order, data, rules)
    requires order[0] !in DroppedIn(data, rules, order)
    ensures ExtractKey(resp, render, order[0]) == resp
  {
  }

  /** A visited absent ruled key is dropped from rules and data and gains exactly its
      required-family messages. */
  lemma ExtractKeyDrops(resp: Response, render: Renderer, order: seq<string>, data: Record, rules: Rules)
    requires order != [] && Agrees(resp, order, data, rules)
    requires order[0] in DroppedIn(data, rules, order)
    ensures var next := ExtractKey(resp, render, order[0]);
      && next.language == resp.language
      && next.rules == resp.rules - {order[0]}
      && next.data == resp.data - {order[0]}
      && (forall k :: k != order[0] ==> Lookup(next, k) == Lookup(resp, k))
      && Lookup(next, order[0]) == RequiredMessages(resp.language, render, data, order[0], rules[order[0]], 0)
      && (Valid(resp) ==> Valid(next))
  {
    var key := order[0];
    ReportRequiredSpec(resp, render, key, 0);
    RequiredMessagesCongruent(resp.language, render, resp.data, data, key, rules[key], 0);
  }

  /** After dropping a visited absent key, the keys left to visit still agree. */
  lemma ExtractKeyDropsAgrees(resp: Response, render: Renderer, order: seq<string>, data: Record, rules: Rules)
    requires order != [] && Agrees(resp, order, data, rules)
    requires order[0] in DroppedIn(data, rules, order)
    ensures Agrees(ExtractKey(resp, render, order[0]), order[1..], data, rules)
  {
    AgreesLater(resp, order, data, rules);
    ExtractKeyDrops(resp, render, order, data, rules);
    var next := ExtractKey(resp, render, order[0]);
    assert forall o :: IsPresent(next.data, o) <==> IsPresent(resp.data, o);
  }

  /** One key of the first loop, either way: the rest still agree and validity is kept. */
  lemma ExtractKeyStep(resp: Response, render: Renderer, order: seq<string>, data: Record, rules: Rules)
    requires order != [] && Agrees(resp, order, data, rules)
    ensures Agrees(ExtractKey(resp, render, order[0]), order[1..], data, rules)
    ensures Valid(resp) ==> Valid(ExtractKey(resp, render, order[0]))
  {
    AgreesLater(resp, order, data, rules);
    if order[0] in DroppedIn(data, rules, order) {
      ExtractKeyDrops(resp, render, order, data, rules);
      ExtractKeyDropsAgrees(resp, render, order, data, rules);
    } else {
      ExtractKeyKeeps(resp, render, order, data, rules);
    }
  }

  /** The first loop of `extractRequired` drops from rules and data exactly the absent ruled
      keys it visits. */
  lemma {:induction false} ReportMissingDrops(resp: Response, render: Renderer, order: seq<string>, data: Record, rules: Rules)
    requires Agrees(resp, order, data, rules)
    ensures ReportMissing(resp, render, order).language == resp.language
    ensures ReportMissing(resp, render, order).rules == resp.rules - DroppedIn(data, rules, order)
    ensures ReportMissing(resp, render, order).data == resp.data - DroppedIn(data, rules, order)
    decreases |order|
  {
    if order == [] {
      assert DroppedIn(data, rules, order) == {};
      assert resp.rules - {} == resp.rules && resp.data - {} == resp.data;
    } else {
      var next := ExtractKey(resp, render, order[0]);
      var last := ReportMissing(next, render, order[1..]);
      assert ReportMissing(resp, render, order) == last;
      assert last.language == next.language
          && last.rules == next.rules - DroppedIn(data, rules, order[1..])
          && last.data == next.data - DroppedIn(data, rules, order[1..]) by {
        ExtractKeyStep(resp, render, order, data, rules);
        ReportMissingDrops(next, render, order[1..], data, rules);
      }
      AgreesLater(resp, order, data, rules);
      if order[0] in DroppedIn(data, rules, order) {
        ExtractKeyDrops(resp, render, order, data, rules);
        assert DroppedIn(data, rules, order) == DroppedIn(data, rules, order[1..]) + {order[0]};
      } else {
        ExtractKeyKeeps(resp, render, order, data, rules);
        assert DroppedIn(data, rules, order) == DroppedIn(data, rules, order[1..]);
      }
    }
  }

  /** Every absent ruled key the first loop visits ends with exactly its required-family
      messages; every other key keeps its messages. */
  lemma {:induction false} ReportMissingMessages(resp: Response, render: Renderer, order: seq<string>,
                                                 data: Record, rules: Rules, key: string)
    requires Agrees(resp, order, data, rules)
    ensures key in DroppedIn(data, rules, order) ==>
      Lookup(ReportMissing(resp, render, order), key) == RequiredMessages(resp.language, render, data, key, rules[key], 0)
    ensures key !in DroppedIn(data, rules, order) ==>
      Lookup(ReportMissing(resp, render, order), key) == Lookup(resp, key)
    decreases |order|
  {
    if order != [] {
      ExtractKeyStep(resp, render, order, data, rules);
      AgreesLater(resp, order, data, rules);
      var next := ExtractKey(resp, render, order[0]);
      ReportMissingMessages(next, render, order[1..], data, rules, key);
      if order[0] in DroppedIn(data, rules, order) {
        ExtractKeyDrops(resp, render, order, data, rules);
      } else {
        ExtractKeyKeeps(resp, render, order, data, rules);
      }
    }
  }

  /** The first loop keeps the response valid. */
  lemma {:induction false} ReportMissingValid(resp: Response, render: Renderer, order: seq<string>, data: Record, rules: Rules)
    requires Agrees(resp, order, data, rules) && Valid(resp)
    ensures Valid(ReportMissing(resp, render, order))
    decreases |order|
  {
    if order != [] {
      ExtractKeyStep(resp, render, order, data, rules);
      ReportMissingValid(ExtractKey(resp, render, order[0]), render, order[1..], data, rules);
    }
  }

  /** `extractRequired` on a fresh response: the working data and rules are exactly the
      reference ones (absent ruled keys gone, required rules stripped), every absent ruled key
      holds exactly its required-family messages, and no other key has any. */
  lemma ExtractRequiredSpec(language: Language, render: Renderer, data: Record, rules: Rules, order: seq<string>)
    requires Enumerates(order, rules.Keys)
    ensures ExtractRequired(NewResponse(language, data, rules), render, order).language == language
    ensures ExtractRequired(NewResponse(language, data, rules), render, order).data == WorkingData(data, rules)
    ensures ExtractRequired(NewResponse(language, data, rules), render, order).rules == Kept(data, rules)
    ensures Valid(ExtractRequired(NewResponse(language, data, rules), render, order))
    ensures forall k :: Lookup(ExtractRequired(NewResponse(language, data, rules), render, order), k)
                     == if k in rules && !IsPresent(data, k) then RequiredMessages(language, render, data, k, rules[k], 0) else []
  {
    ExtractRequiredContext(language, render, data, rules, order);
    ExtractRequiredMessages(language, render, data, rules, order);
  }

  /** The working data and rules `extractRequired` leaves. */
  lemma ExtractRequiredContext(language: Language, render: Renderer, data: Record, rules: Rules, order: seq<string>)
    requires Enumerates(order, rules.Keys)
    ensures var r := ExtractRequired(NewResponse(language, data, rules), render, order);
      r.language == language && r.data == WorkingData(data, rules) && r.rules == Kept(data, rules)
  {
    var initial := NewResponse(language, data, rules);
    assert Agrees(initial, order, data, rules);
    ReportMissingDrops(initial, render, order, data, rules);
    assert DroppedIn(data, rules, order) == Dropped(data, rules);
  }

  /** The messages `extractRequired` leaves, and their validity. */
  lemma ExtractRequiredMessages(language: Language, render: Renderer, data: Record, rules: Rules, order: seq<string>)
    requires Enumerates(order, rules.Keys)
    ensures Valid(ExtractRequired(NewResponse(language, data, rules), render, order))
    ensures forall k :: Lookup(ExtractRequired(NewResponse(language, data, rules), render, order), k)
                     == if k in rules && !IsPresent(data, k) then RequiredMessages(language, render, data, k, rules[k], 0) else []
  {
    var initial := NewResponse(language, data, rules);
    assert Agrees(initial, order, data, rules);
    ReportMissingValid(initial, render, order, data, rules);
    forall k
      ensures Lookup(ReportMissing(initial, render, order), k)
           == if k in rules && !IsPresent(data, k) then RequiredMessages(language, render, data, k, rules[k], 0) else []
    {
      ReportMissingMessages(initial, render, order, data, rules, k);
    }
  }

  // ---------------------------------------------------------------------------------------------
  // The schedule of checks

  /** Every rule of every listed key is scheduled. */
  lemma {:induction false} ScheduleCovers(rules: Rules, order: seq<string>, key: string, i: nat)
    requires key in order && key in rules && i < |rules[key]|
    ensures (key, i) in Schedule(rules, order)
    decreases |order|
  {
    var here := if order[0] in rules then PairsFrom(order[0], 0, |rules[order[0]]|) else [];
    assert Schedule(rules, order) == here + Schedule(rules, order[1..]);
    if order[0] == key {
      assert here[i] == (key, i);
    } else {
      ScheduleCovers(rules, order[1..], key, i);
    }
  }

  /** No check is scheduled twice when no key is listed twice. */
  lemma {:induction false} ScheduleDistinct(rules: Rules, order: seq<string>)
    requires Distinct(order)
    ensures Distinct(Schedule(rules, order))
    decreases |order|
  {
    if order != [] {
      var here := if order[0] in rules then PairsFrom(order[0], 0, |rules[order[0]]|) else [];
      var rest := Schedule(rules, order[1..]);
      assert Distinct(order[1..]);
      ScheduleDistinct(rules, order[1..]);
      assert forall j :: 0 <= j < |rest| ==> rest[j].0 in order[1..] && rest[j].0 != order[0];
      var ps := here + rest;
      assert Schedule(rules, order) == ps;
      forall a, b | 0 <= a < b < |ps|
        ensures ps[a] != ps[b]
      {
        if b < |here| {
          assert ps[a].1 == a && ps[b].1 == b;
        } else if a >= |here| {
          assert ps[a] == rest[a - |here|] && ps[b] == rest[b - |here|];
        } else {
          assert ps[a].0 == order[0] && ps[b] == rest[b - |here|];
        }
      }
    }
  }

  /** `try` runs exactly one check per remaining (key, rule index) pair: the schedule lists each
      such pair once and nothing else. */
  lemma ScheduleExact(rules: Rules, order: seq<string>)
    requires Enumerates(order, rules.Keys)
    ensures Distinct(Schedule(rules, order))
    ensures forall k: string, i: nat :: (k, i) in Schedule(rules, order) <==> k in rules && i < |rules[k]|
  {
    ScheduleDistinct(rules, order);
    forall k: string, i: nat | k in rules && i < |rules[k]|
      ensures (k, i) in Schedule(rules, order)
    {
      ScheduleCovers(rules, order, k, i);
    }
  }

  // ---------------------------------------------------------------------------------------------
  // Dispatch

  lemma {:induction false} FalsyMessagesConcat(v: Validator, host: Host, resp: Response,
                                               p1: seq<(string, nat)>, p2: seq<(string, nat)>, key: string)
    requires Scheduled(resp.rules, p1) && Scheduled(resp.rules, p2)
    ensures Scheduled(resp.rules, p1 + p2)
    ensures FalsyMessages(v, host, resp, p1 + p2, key)
         == FalsyMessages(v, host, resp, p1, key) + FalsyMessages(v, host, resp, p2, key)
    decreases |p1|
  {
    assert Scheduled(resp.rules, p1 + p2) by {
      assert forall j :: |p1| <= j < |p1 + p2| ==> (p1 + p2)[j] == p2[j - |p1|];
    }
    if p1 == [] {
      assert p1 + p2 == p2;
    } else {
      var c := Check(v, host, resp, p1[0]);
      var here := if p1[0].0 == key && c.Success? && !Truthy(c.value) then [Message(resp, host.render, key, p1[0].1)] else [];
      var rest1 := FalsyMessages(v, host, resp, p1[1..], key);
      var rest2 := FalsyMessages(v, host, resp, p2, key);
      assert (p1 + p2)[0] == p1[0] && (p1 + p2)[1..] == p1[1..] + p2;
      assert FalsyMessages(v, host, resp, p1 + p2, key) == here + FalsyMessages(v, host, resp, p1[1..] + p2, key);
      assert FalsyMessages(v, host, resp, p1[1..] + p2, key) == rest1 + rest2 by {
        FalsyMessagesConcat(v, host, resp, p1[1..], p2, key);
      }
      assert FalsyMessages(v, host, resp, p1, key) == here + rest1;
      ConcatAssoc(here, rest1, rest2);
    }
  }

  /** Checks of other keys add nothing to `key`. */
  lemma {:induction false} FalsyMessagesOtherKey(v: Validator, host: Host, resp: Response,
                                                 pairs: seq<(string, nat)>, key: string)
    requires Scheduled(resp.rules, pairs)
    requires forall j :: 0 <= j < |pairs| ==> pairs[j].0 != key
    ensures FalsyMessages(v, host, resp, pairs, key) == []
    decreases |pairs|
  {
    if pairs != [] {
      FalsyMessagesOtherKey(v, host, resp, pairs[1..], key);
    }
  }

  /** The falsy messages of a key's own pairs are its reference check messages. */
  lemma {:induction false} FalsyMessagesOfKey(v: Validator, host: Host, resp: Response, key: string, i: nat)
    requires key in resp.rules && i <= |resp.rules[key]|
    requires resp.language == v.language
    ensures Scheduled(resp.rules, PairsFrom(key, i, |resp.rules[key]|))
    ensures FalsyMessages(v, host, resp, PairsFrom(key, i, |resp.rules[key]|), key)
         == CheckMessages(v, host, resp.data, resp.rules, key, i)
    decreases |resp.rules[key]| - i
  {
    if i < |resp.rules[key]| {
      FalsyMessagesOfKey(v, host, resp, key, i + 1);
      var ps := PairsFrom(key, i, |resp.rules[key]|);
      assert ps[0] == (key, i) && ps[1..] == PairsFrom(key, i + 1, |resp.rules[key]|);
    }
  }

  /** Over the whole schedule, a key gains its reference check messages when it has rules
      left, and nothing otherwise. */
  lemma {:induction false} FalsyMessagesOfSchedule(v: Validator, host: Host, resp: Response, order: seq<string>, key: string)
    requires Distinct(order) && resp.language == v.language
    ensures Scheduled(resp.rules, Schedule(resp.rules, order))
    ensures FalsyMessages(v, host, resp, Schedule(resp.rules, order), key)
         == if key in order && key in resp.rules then CheckMessages(v, host, resp.data, resp.rules, key, 0) else []
    decreases |order|
  {
    if order != [] {
      var k := order[0];
      var here := if k in resp.rules then PairsFrom(k, 0, |resp.rules[k]|) else [];
      var rest := Schedule(resp.rules, order[1..]);
      assert Schedule(resp.rules, order) == here + rest;
      assert Distinct(order[1..]);
      assert forall x :: x in order[1..] ==> x in order && x != k;
      FalsyMessagesOfSchedule(v, host, resp, order[1..], key);
      if k in resp.rules {
        FalsyMessagesOfKey(v, host, resp, k, 0);
      }
      FalsyMessagesConcat(v, host, resp, here, rest, key);
      if k == key {
        assert key !in order[1..];
      } else {
        FalsyMessagesOtherKey(v, host, resp, here, key);
      }
    }
  }

  /** Settling a check's verdict leaves the later checks as they were. */
  lemma DispatchStep(v: Validator, host: Host, resp: Response, pairs: seq<(string, nat)>)
    requires Scheduled(resp.rules, pairs) && pairs != []
    requires Check(v, host, resp, pairs[0]).Success?
    ensures var c := Check(v, host, resp, pairs[0]);
      var next := if Truthy(c.value) then resp else AddError(resp, host.render, pairs[0].0, pairs[0].1);
      && Scheduled(next.rules, pairs[1..])
      && Dispatch(v, host, resp, pairs) == Dispatch(v, host, next, pairs[1..])
      && forall j :: 1 <= j < |pairs| ==> Check(v, host, next, pairs[j]) == Check(v, host, resp, pairs[j])
  {
  }

  /** Dispatch fails exactly when some scheduled check has no verdict. */
  lemma {:induction false} DispatchFails(v: Validator, host: Host, resp: Response, pairs: seq<(string, nat)>)
    requires Scheduled(resp.rules, pairs)
    ensures Dispatch(v, host, resp, pairs).Failure? <==>
      exists j :: 0 <= j < |pairs| && Check(v, host, resp, pairs[j]).Failure?
    decreases |pairs|
  {
    if pairs != [] && Check(v, host, resp, pairs[0]).Success? {
      DispatchStep(v, host, resp, pairs);
      var c := Check(v, host, resp, pairs[0]);
      var next := if Truthy(c.value) then resp else AddError(resp, host.render, pairs[0].0, pairs[0].1);
      DispatchFails(v, host, next, pairs[1..]);
      assert forall j :: 1 <= j < |pairs| ==> pairs[1..][j - 1] == pairs[j];
      if Dispatch(v, host, resp, pairs).Failure? {
        var j :| 0 <= j < |pairs| - 1 && Check(v, host, next, pairs[1..][j]).Failure?;
        assert Check(v, host, resp, pairs[j + 1]).Failure?;
      }
    }
  }

  /** A failing dispatch fails with the error of the FIRST scheduled check that has no
      verdict. */
  lemma {:induction false} DispatchFirstError(v: Validator, host: Host, resp: Response, pairs: seq<(string, nat)>)
    requires Scheduled(resp.rules, pairs)
    requires Dispatch(v, host, resp, pairs).Failure?
    ensures exists j :: 0 <= j < |pairs|
                        && Check(v, host, resp, pairs[j]) == Failure(Dispatch(v, host, resp, pairs).error)
                        && forall j' :: 0 <= j' < j ==> Check(v, host, resp, pairs[j']).Success?
    decreases |pairs|
  {
    if Check(v, host, resp, pairs[0]).Success? {
      DispatchStep(v, host, resp, pairs);
      var c := Check(v, host, resp, pairs[0]);
      var next := if Truthy(c.value) then resp else AddError(resp, host.render, pairs[0].0, pairs[0].1);
      DispatchFirstError(v, host, next, pairs[1..]);
      var e := Dispatch(v, host, resp, pairs).error;
      var j :| 0 <= j < |pairs| - 1 && Check(v, host, next, pairs[1..][j]) == Failure(e)
        && forall j' :: 0 <= j' < j ==> Check(v, host, next, pairs[1..][j']).Success?;
      assert forall j' :: 1 <= j' < |pairs| ==> pairs[1..][j' - 1] == pairs[j'];
      assert Check(v, host, resp, pairs[j + 1]) == Failure(e);
      forall j' | 0 <= j' < j + 1
        ensures Check(v, host, resp, pairs[j']).Success?
      {
        if j' > 0 {
          assert Check(v, host, next, pairs[1..][j' - 1]).Success?;
        }
      }
    } else {
      assert Check(v, host, resp, pairs[0]) == Failure(Dispatch(v, host, resp, pairs).error);
    }
  }

  // ---------------------------------------------------------------------------------------------
  // `try`

  /** The response `try` dispatches from: the fresh response after `extractRequired`. */
  function Extracted(v: Validator, host: Host, data: Record, raw: map<string, seq<RawRule>>, order: seq<string>): Response {
    ExtractRequired(NewResponse(v.language, data, FulfillRules(raw)), host.render, order)
  }

  /** The context the checks of `try` run in: the working data and rules. */
  lemma ExtractedContext(v: Validator, host: Host, data: Record, raw: map<string, seq<RawRule>>, order: seq<string>)
    requires Enumerates(order, raw.Keys)
    ensures var resp := Extracted(v, host, data, raw, order);
      && resp.language == v.language
      && resp.data == WorkingData(data, FulfillRules(raw))
      && resp.rules == Kept(data, FulfillRules(raw))
      && Try(v, host, data, raw, order) == Dispatch(v, host, resp, Schedule(resp.rules, order))
  {
    ExtractRequiredSpec(v.language, host.render, data, FulfillRules(raw), order);
  }

  /** The messages `try` starts dispatch with: the required-family ones. */
  lemma ExtractedMessages(v: Validator, host: Host, data: Record, raw: map<string, seq<RawRule>>, order: seq<string>)
    requires Enumerates(order, raw.Keys)
    ensures var resp := Extracted(v, host, data, raw, order);
      var rules := FulfillRules(raw);
      && Valid(resp)
      && (forall k :: Lookup(resp, k)
                   == if k in rules && !IsPresent(data, k) then RequiredMessages(v.language, host.render, data, k, rules[k], 0) else [])
  {
    ExtractRequiredSpec(v.language, host.render, data, FulfillRules(raw), order);
  }

  /** Some rule of the response has a check without verdict. */
  ghost predicate AnyCheckFails(v: Validator, host: Host, resp: Response) {
    exists k, i :: k in resp.rules && 0 <= i < |resp.rules[k]| && Check(v, host, resp, (k, i)).Failure?
  }

  /** Dispatching the whole schedule fails exactly when some rule's check has no verdict. */
  lemma ScheduleFails(v: Validator, host: Host, resp: Response, order: seq<string>)
    requires forall k :: k in resp.rules ==> k in order
    ensures Dispatch(v, host, resp, Schedule(resp.rules, order)).Failure? <==> AnyCheckFails(v, host, resp)
  {
    var pairs := Schedule(resp.rules, order);
    DispatchFails(v, host, resp, pairs);
    if AnyCheckFails(v, host, resp) {
      var k, i :| k in resp.rules && 0 <= i < |resp.rules[k]| && Check(v, host, resp, (k, i)).Failure?;
      ScheduleCovers(resp.rules, order, k, i);
      var j :| 0 <= j < |pairs| && pairs[j] == (k, i);
    }
    if Dispatch(v, host, resp, pairs).Failure? {
      var j :| 0 <= j < |pairs| && Check(v, host, resp, pairs[j]).Failure?;
      assert Check(v, host, resp, (pairs[j].0, pairs[j].1)).Failure?;
    }
  }

  /** `try` fails exactly when some remaining rule's check has no verdict. */
  lemma TryFails(v: Validator, host: Host, data: Record, raw: map<string, seq<RawRule>>, order: seq<string>)
    requires Enumerates(order, raw.Keys)
    ensures Try(v, host, data, raw, order).Failure? <==> SomeCheckFails(v, host, data, FulfillRules(raw))
  {
    var rules := FulfillRules(raw);
    var resp := Extracted(v, host, data, raw, order);
    ExtractedContext(v, host, data, raw, order);
    ScheduleFails(v, host, resp, order);
    SameChecks(v, host, resp, data, rules);
  }

  /** A response holding the working data and rules has a failing check exactly when the
      reference definitions say so. */
  lemma SameChecks(v: Validator, host: Host, resp: Response, data: Record, rules: Rules)
    requires resp.data == WorkingData(data, rules) && resp.rules == Kept(data, rules)
    ensures AnyCheckFails(v, host, resp) <==> SomeCheckFails(v, host, data, rules)
  {
    var kept := Kept(data, rules);
    var wd := WorkingData(data, rules);
    if AnyCheckFails(v, host, resp) {
      var k, i :| k in resp.rules && 0 <= i < |resp.rules[k]| && Check(v, host, resp, (k, i)).Failure?;
      assert Run(v.validators, host.foreign, wd, k, kept[k][i]).Failure?;
    }
    if SomeCheckFails(v, host, data, rules) {
      var k, i :| k in kept && 0 <= i < |kept[k]| && Run(v.validators, host.foreign, wd, k, kept[k][i]).Failure?;
      assert Check(v, host, resp, (k, i)).Failure?;
    }
  }

  /** A failing `try` fails with the error of one of the remaining rules' checks. */
  lemma TryError(v: Validator, host: Host, data: Record, raw: map<string, seq<RawRule>>, order: seq<string>)
    requires Enumerates(order, raw.Keys)
    ensures var kept := Kept(data, FulfillRules(raw));
      Try(v, host, data, raw, order).Failure? ==>
        exists k, i :: k in kept && 0 <= i < |kept[k]|
          && Run(v.validators, host.foreign, WorkingData(data, FulfillRules(raw)), k, kept[k][i])
             == Failure(Try(v, host, data, raw, order).error)
  {
    if Try(v, host, data, raw, order).Success? {
      return;
    }
    var rules := FulfillRules(raw);
    var kept := Kept(data, rules);
    ExtractedContext(v, host, data, raw, order);
    var resp := Extracted(v, host, data, raw, order);
    var pairs := Schedule(resp.rules, order);
    DispatchFirstError(v, host, resp, pairs);
    var j :| 0 <= j < |pairs| && Check(v, host, resp, pairs[j]) == Failure(Try(v, host, data, raw, order).error);
    var k, i := pairs[j].0, pairs[j].1;
    assert k in kept && i < |kept[k]|;
  }

  /** When `try` succeeds, every key holds exactly its reference messages (required-family
      messages for an absent key, falsy-verdict messages for a present one), the response is
      valid, and it holds the working data and rules. */
  lemma TryMessages(v: Validator, host: Host, data: Record, raw: map<string, seq<RawRule>>, order: seq<string>, key: string)
    requires Enumerates(order, raw.Keys)
    requires Try(v, host, data, raw, order).Success?
    ensures Lookup(Try(v, host, data, raw, order).value, key) == ExpectedMessages(v, host, data, FulfillRules(raw), key)
    ensures Valid(Try(v, host, data, raw, order).value)
    ensures Try(v, host, data, raw, order).value.language == v.language
    ensures Try(v, host, data, raw, order).value.data == WorkingData(data, FulfillRules(raw))
    ensures Try(v, host, data, raw, order).value.rules == Kept(data, FulfillRules(raw))
  {
    var rules := FulfillRules(raw);
    ExtractedContext(v, host, data, raw, order);
    ExtractedMessages(v, host, data, raw, order);
    var resp := Extracted(v, host, data, raw, order);
    var pairs := Schedule(resp.rules, order);
    DispatchMessages(v, host, resp, pairs, key);
    DispatchValid(v, host, resp, pairs);
    FalsyMessagesOfSchedule(v, host, resp, order, key);
    assert key in Kept(data, rules) ==> key in order;
  }

  /** No rule of an absent key's list fires, from the `i`-th on, exactly when it reports no
      message. */
  lemma {:induction false} RequiredMessagesEmpty(language: Language, render: Renderer, data: Record,
                                                 key: string, rs: seq<Rule>, i: nat)
    requires i <= |rs|
    ensures RequiredMessages(language, render, data, key, rs, i) == []
        <==> forall j :: i <= j < |rs| ==> !RequiredFires(data, rs[j])
    decreases |rs| - i
  {
    if i < |rs| {
      RequiredMessagesEmpty(language, render, data, key, rs, i + 1);
    }
  }

  /** When every check of a key has a verdict, its rules report no message exactly when every
      verdict is truthy. */
  lemma {:induction false} CheckMessagesEmpty(v: Validator, host: Host, data: Record, rules: Rules, key: string, i: nat)
    requires key in rules && i <= |rules[key]|
    requires forall j :: i <= j < |rules[key]| ==> Run(v.validators, host.foreign, data, key, rules[key][j]).Success?
    ensures CheckMessages(v, host, data, rules, key, i) == []
        <==> forall j :: i <= j < |rules[key]| ==> Truthy(Run(v.validators, host.foreign, data, key, rules[key][j]).value)
    decreases |rules[key]| - i
  {
    if i < |rules[key]| {
      CheckMessagesEmpty(v, host, data, rules, key, i + 1);
    }
  }

  /** No rule of the list reports a missing key. */
  predicate NoneFires(data: Record, rs: seq<Rule>) {
    forall j :: 0 <= j < |rs| ==> !RequiredFires(data, rs[j])
  }

  /** Every kept rule of `key` has a check with a truthy verdict. */
  ghost predicate VerdictsTruthy(v: Validator, host: Host, data: Record, rules: Rules, key: string) {
    var kept := Kept(data, rules);
    key in kept ==> forall j :: 0 <= j < |kept[key]| ==>
      var c := Run(v.validators, host.foreign, WorkingData(data, rules), key, kept[key][j]);
      c.Success? && Truthy(c.value)
  }

  /** When no check fails, a key has no reference message exactly when it is not absent with a
      required rule that fires and every verdict on it is truthy. */
  lemma ExpectedEmpty(v: Validator, host: Host, data: Record, rules: Rules, key: string)
    requires !SomeCheckFails(v, host, data, rules)
    ensures ExpectedMessages(v, host, data, rules, key) == []
        <==> (key in rules && !IsPresent(data, key) ==> NoneFires(data, rules[key]))
             && VerdictsTruthy(v, host, data, rules, key)
  {
    var kept := Kept(data, rules);
    var wd := WorkingData(data, rules);
    if key in rules && !IsPresent(data, key) {
      RequiredMessagesEmpty(v.language, host.render, data, key, rules[key], 0);
    }
    if key in kept {
      assert forall j :: 0 <= j < |kept[key]| ==> Run(v.validators, host.foreign, wd, key, kept[key][j]).Success?;
      CheckMessagesEmpty(v, host, wd, kept, key, 0);
    }
  }

  /** A successful `try` passed exactly when no absent key has a required rule that fires and
      every remaining rule's verdict is truthy. */
  lemma TryPassedIff(v: Validator, host: Host, data: Record, raw: map<string, seq<RawRule>>, order: seq<string>)
    requires Enumerates(order, raw.Keys)
    requires Try(v, host, data, raw, order).Success?
    ensures var rules := FulfillRules(raw);
      Passed(Try(v, host, data, raw, order).value) <==>
        forall k :: (k in rules && !IsPresent(data, k) ==> NoneFires(data, rules[k])) && VerdictsTruthy(v, host, data, rules, k)
  {
    var rules := FulfillRules(raw);
    var r := Try(v, host, data, raw, order).value;
    TryFails(v, host, data, raw, order);
    forall k
      ensures Lookup(r, k) == [] <==> (k in rules && !IsPresent(data, k) ==> NoneFires(data, rules[k]))
                                      && VerdictsTruthy(v, host, data, rules, k)
    {
      TryMessages(v, host, data, raw, order, k);
      ExpectedEmpty(v, host, data, rules, k);
    }
    TryMessages(v, host, data, raw, order, "");
    PassedIffNoMessage(r);
  }

  /** The order the keys are walked in does not change the outcome of `try`: both walks fail or
      neither does, and successful walks produce the same response. */
  lemma TryOrderIndependent(v: Validator, host: Host, data: Record, raw: map<string, seq<RawRule>>,
                            o1: seq<string>, o2: seq<string>)
    requires Enumerates(o1, raw.Keys) && Enumerates(o2, raw.Keys)
    ensures Try(v, host, data, raw, o1).Failure? <==> Try(v, host, data, raw, o2).Failure?
    ensures Try(v, host, data, raw, o1).Success? ==> Try(v, host, data, raw, o1) == Try(v, host, data, raw, o2)
  {
    TryFails(v, host, data, raw, o1);
    TryFails(v, host, data, raw, o2);
    if Try(v, host, data, raw, o1).Success? {
      var r1 := Try(v, host, data, raw, o1).value;
      var r2 := Try(v, host, data, raw, o2).value;
      forall k ensures Lookup(r1, k) == Lookup(r2, k) {
        TryMessages(v, host, data, raw, o1, k);
        TryMessages(v, host, data, raw, o2, k);
      }
      TryMessages(v, host, data, raw, o1, "");
      TryMessages(v, host, data, raw, o2, "");
      SameMessagesSameResponse(r1, r2);
    }
  }
}
