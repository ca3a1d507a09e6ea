# artisan-validator: the rule execution pipeline, in Dafny

This project models the core of `artisan-validator`, a JavaScript library that validates a
record of data against per-key lists of rules. The pipeline it models:

1. **Normalisation** (`fulfillRules` / `fulfillRule`). A rule is either an array
   `[name, ...args]` or a string `"name"` / `"name: a, b"`. A string is split at its first
   colon, the rest at every comma. Every piece is trimmed, and each argument is read as a JSON
   literal when it is one.
2. **The required family** (`extractRequired`). A ruled key whose value is `undefined` or
   `null` is reported by its `required`, `requiredWith` and `requiredWithout` rules. It is then
   removed from the working rules and data. Every remaining key loses its required rules.
3. **Dispatch** (`try`). Every remaining rule is run through the rule registry (`Manager.run`)
   with `[key, value, ...args]`. A falsy verdict appends the rule's message to the key's list
   in the `Response`. A check without a verdict makes the whole call fail with its error.
4. **Messages** (`Language`). A message is the catalog entry named by the rule, with the
   `$missing` entry as fallback. It is rendered with the key, the value and the rule's
   arguments, over the catalog's global variables.
5. The two self-contained built-in predicates, `boolean` and `within`.

Modules:

- `Results`: `Option`, `Result`.
- `Text`: JavaScript `trim`, `indexOf`, `split`, `join`, and integer formatting.
- `Values`: JavaScript values, truthiness, `ToString`, `ToNumber`.
- `RuleParser`: `fulfillRule`.
- `Languages`: `lib/language.js`.
- `Responses`: `lib/response.js`.
- `BuiltinRules`: `lib/rules/boolean.js` and `lib/rules/within.js`.
- `RuleManager`: `lib/manager.js`.
- `Validation`: `lib/index.js`, together with reference definitions of what `try` should
  produce.
- `ValidationProofs`: the theorems connecting `Try` to those reference definitions.
- `ValidationExamples`: the behaviours the library's own checks of `try` exercise, stated for
  all inputs.

Modelling choices:

- **Inputs that are not data.** The environment becomes parameters:
  - `order` is the order in which `for (key in rules)` visits the keys. It is any sequence
    listing every rule key once.
  - `Host.foreign` is the behaviour of predicates whose code is not modelled: predicate,
    receiver and arguments map to a returned value, a fulfilled or rejected promise, or a throw.
  - `Host.render` is lodash's template rendering, an uninterpreted function of the template
    and the variables.
- **Rule errors carry no message.** The `RuleError` constructor (lib/errors.js:3-5) passes its
  arguments to a separate `Error` and drops it, so every `RuleError` has the empty message
  whatever text `run` or `add` give it. The model's `RuleError` therefore has no payload.
- **Dispatch order.** The checks that `try` starts concurrently are settled one after another,
  in schedule order.
- **Working copies.** `Response` carries the working rules and data. `try` hands the response
  the same objects that `extractRequired` then edits, so a message is always built from the
  stripped rule list.
- **Rule indices follow the code.** The index `try` passes to `addError` is the rule's position
  in the stripped list. The message is still the failed rule's, because the response reads
  the same stripped list.

## Model

| member | source | states |
|---|---|---|
| Text.Trim | lib/index.js:137 | The result has no leading or trailing whitespace. It is the middle of the input between two runs of whitespace. A trimmed string is returned unchanged. |
| Text.IndexOf | lib/index.js:134-136 | `None` exactly when the character does not occur. Otherwise, the position of its first occurrence. |
| Text.Split | lib/index.js:142 | One piece more than there are separators. No piece holds the separator. Joining the pieces with the separator gives the input back. |
| Text.SplitJoin | lib/index.js:142 | Splitting a join of separator-free pieces gives back exactly those pieces (the inverse of `Split`). |
| RuleParser.ParseLiteral | lib/index.js:146-152 | Text that is not a JSON literal is kept as the string itself. A literal gives a value that has a literal text form. |
| RuleParser.LiteralRoundTrip | lib/index.js:148-150 | Parsing the literal text of any `null`, boolean, integer or plain string gives back that value. |
| RuleParser.LiteralCanonical | lib/index.js:148-150 | Any JSON literal text other than `-0` is the canonical text of the value it parses to. |
| RuleParser.ParseArgs | lib/index.js:142-153 | One argument per comma-separated piece (separators + 1). Each is the trimmed piece read as a literal. |
| RuleParser.ParseTextWithoutColon | lib/index.js:134-138 | A string without a colon is the rule named by the trimmed string, with no arguments. |
| RuleParser.ParseTextAtFirstColon | lib/index.js:134-142 | With a colon, the name is the trimmed text before the first colon. The arguments come from everything after it, one per comma plus one, so later colons stay inside arguments. |
| RuleParser.ParseText | lib/index.js:134-156 | A string without a colon gives a rule without arguments. A string with a colon gives at least one argument. `ParseTextWithoutColon` and `ParseTextAtFirstColon` pin down the name and the arguments. |
| RuleParser.ParseRule | lib/index.js:128-156 | An array rule comes back unchanged, and a string rule is parsed at its first colon. `ParseRuleIdempotent` and `RuleRoundTrip` are its partners. |
| RuleParser.ParseRuleIdempotent | lib/index.js:128-132 | Normalising an already normalised rule changes nothing: array rules are returned as they are. |
| RuleParser.ArgsRoundTrip | lib/index.js:142-153 | Comma-joining the literal texts of comma-free arguments and parsing the result gives back the arguments. |
| RuleParser.RuleRoundTrip | lib/index.js:128-156 | Parsing the compact string form `name:a,b` (just `name` without arguments) of any rule with a colon-free trimmed name and literal arguments gives back that rule. |
| Validation.FulfillRules | lib/index.js:83-87 | Same keys and same list lengths. Every rule is normalised in place. |
| Validation.FulfillRulesIdempotent | lib/index.js:83-87 | Normalising the normalised rules again changes nothing. |
| Validation.IsPresent | lib/index.js:189-193 | Present exactly when the value is neither `undefined` nor `null`. So `0`, `''` and `false` are present. |
| Validation.IsRequired | lib/index.js:178-180 | Required exactly when the rule's name starts with `required`. This covers the three family members and any other such name. |
| Validation.RequiredFires | lib/index.js:42-63 | For an absent key, `required` always reports. `requiredWith(o)` reports exactly when `o` is present, and `requiredWithout(o)` exactly when `o` is absent. Any other name never reports. |
| Validation.ReportRequiredSpec | lib/index.js:39-64 | The absent key gains exactly its required-family messages, in rule order. Every other key keeps its messages. Validity is preserved. |
| Validation.ReportRequired | lib/index.js:39-64 | Reporting leaves the working data, the working rules and the catalog alone. `ReportRequiredSpec` states the messages it adds. |
| Validation.Drop | lib/index.js:67-68 | The key leaves both the working rules and the working data. The catalog and the recorded messages are untouched. |
| Validation.ExtractKey | lib/index.js:32-69 | A ruled key whose value is absent leaves the working rules and data. Otherwise both stay exactly as they were. The catalog is kept. |
| Validation.ReportMissing | lib/index.js:32-69 | The first loop keeps the catalog and only ever removes keys from the working rules and data. `ValidationProofs.ExtractRequiredSpec` states exactly which keys go. |
| Validation.WithoutRequired | lib/index.js:72-74 | No required rule remains. A rule is kept exactly when it is in the list and not required. |
| Validation.WithoutRequiredConcat | lib/index.js:73 | The filter keeps relative order: it distributes over concatenation. |
| Validation.StripRequired | lib/index.js:72-74 | Every key keeps its place and keeps exactly its non-required rules, in order. The working data, catalog and messages are unchanged. |
| Validation.ExtractRequired | lib/index.js:28-77 | The catalog is kept. Keys only leave the working rules and data. No rule of the required family remains. |
| ValidationProofs.ExtractRequiredSpec | lib/index.js:28-77 | Given any key order, the working data loses exactly the absent ruled keys. The working rules are exactly the present keys' lists without required rules. Each absent ruled key holds exactly its required-family messages, and no other key has any. |
| Validation.Schedule | lib/index.js:106-114 | Every scheduled pair names an existing rule, `(key, index)`, of a key in the order. |
| Validation.Check | lib/index.js:108-109 | A check fails with a `RuleError` exactly when its rule's name is not registered. |
| Validation.Dispatch | lib/index.js:104-120 | On success, the working data, rules and catalog are those dispatch started from. `DispatchMessages` and `ValidationProofs.DispatchFails` state the messages and the failure. |
| ValidationProofs.ScheduleExact | lib/index.js:106-114 | The schedule holds every `(key, index)` of the remaining rules exactly once, and nothing else. |
| Validation.DispatchMessages | lib/index.js:167-171 | After dispatch, a key's messages are its earlier ones followed by one message per falsy verdict on it, in order. |
| Validation.DispatchValid | lib/index.js:104-120 | Dispatch keeps the response valid: no empty list, and `failed` exactly when some list exists. |
| ValidationProofs.DispatchFails | lib/index.js:117-120 | Dispatch fails exactly when some scheduled check has no verdict. |
| ValidationProofs.DispatchFirstError | lib/index.js:117-120 | A failing dispatch fails with the error of the first scheduled check that has no verdict. |
| ValidationProofs.TryFails | lib/index.js:96-121 | `try` fails exactly when some remaining rule's check gives no verdict. |
| Validation.Try | lib/index.js:96-121 | On success, the response uses the validator's catalog. Its working rules and data keep only keys the caller gave, and no rule of the required family remains. `ValidationProofs.TryMessages` states the exact outcome. |
| ValidationProofs.TryError | lib/index.js:104-120 | A failing `try` fails with the error of one of the remaining rules' checks on the working data. |
| ValidationProofs.TryMessages | lib/index.js:96-121 | On success, each key holds exactly its reference messages. An absent key has its required-family messages; a present key has one message per falsy verdict among its kept rules, in rule order; a key without rules has none. The response is valid and holds the working data and rules. |
| ValidationProofs.TryPassedIff | lib/index.js:96-121 | A successful `try` passed exactly when no absent key has a required rule that fires and every remaining rule's verdict is truthy. |
| ValidationProofs.TryOrderIndependent | lib/index.js:106-120 | For any two key orders, both calls fail or neither does. Successful calls return the same response. |
| ValidationExamples.TryAbsentOptional | lib/index.js:32-69 | An undefined or null key with no required-family rule gets no message. None of its rules remains to run, and it is dropped from the working data. |
| ValidationExamples.TryAbsentRequired | lib/index.js:43-48 | An undefined or null key with a `required` rule fails the response, and that rule's message is among the key's messages. |
| ValidationExamples.TrySingleRule | lib/index.js:104-120 | For one present key with one non-required rule, the call succeeds. A truthy verdict leaves no error and passes. A falsy one records exactly that rule's message for the key and fails. |
| Responses.NewResponse | lib/response.js:11-34 | A new response is valid, has no message for any key, has passed and not failed, and keeps the given catalog, data and rules. |
| Responses.Passed | lib/response.js:21-26 | A valid response passed exactly when it holds no message list at all. |
| Responses.Failed | lib/response.js:21-33 | `failed` is always the negation of `passed`. |
| Responses.PassedIffNoMessage | lib/response.js:16-33 | A valid response passed exactly when no key has a message. |
| Responses.AddError | lib/response.js:41-55 | Exactly one message is appended to the key's list. It is the catalog entry of the rule at that index, with the key, the key's value and the rule's arguments. Other keys are untouched, the response has failed, and validity is kept. |
| Responses.Keys | lib/response.js:58-66 | `keys()` lists exactly the keys that have messages. |
| Responses.AddErrorTwice | lib/response.js:41-55 | Adding the same error twice records its message twice under that key only. Afterwards the response has failed and `keys()` is that key. |
| Languages.Template | lib/language.js:60-64 | A template exists exactly when the key or `$missing` is in the dictionary. The key's own entry wins. |
| Languages.Variables | lib/language.js:66 | The variables are the globals and the call data together, the call data winning on a clash. |
| Languages.NewLanguage | lib/language.js:3-6 | A new catalog has no template for any key and adds no variable. |
| Languages.Set | lib/language.js:25-33 | After `set`, every key of the new dictionary resolves to its entry. Every other key resolves to the new dictionary's `$missing` entry, or to no template when it has none. The globals are kept. |
| Languages.SetForgetsPrevious | lib/language.js:25-33 | `set` replaces the dictionary: the previous dictionary has no influence. |
| Languages.Extend | lib/language.js:43-51 | `extend(key, value)` defines the key and leaves every other entry and the globals unchanged. |
| Languages.ExtendAll | lib/language.js:43-51 | `extend(object)` is a key-wise union, the new entries winning, with globals kept. |
| Languages.ExtendAllComposes | lib/language.js:43-51 | Extending by a one-entry object is `extend(key, value)`. Two successive extensions are one extension by their union. |
| Languages.ExtendExample | spec/LanguageSpec.js:21-26 | Extending an empty catalog with `bar: baz` and then with `{fizz: buzz}` gives exactly those two entries. |
| Languages.Global | lib/language.js:75-78 | `global(key, value)` sets exactly that variable. The dictionary and the other variables are unchanged. |
| Languages.ResolveUnknownKey | lib/language.js:60-67 | A key missing from the dictionary resolves exactly as `$missing` does. |
| Languages.GlobalIsDefaultVariable | lib/language.js:60-78 | A global renders like call data under its name when the call does not give that name. The call data shadows it when the call does. |
| Languages.Resolve | lib/language.js:60-67 | The key's own template is rendered if it has one, else the `$missing` template, else no template. The variables are always the globals overlaid by the call data. |
| BuiltinRules.BooleanRule | lib/rules/boolean.js:3-13 | A non-boolean value fails. A boolean passes when no expectation is given. With one, it passes exactly when it equals the expectation. |
| BuiltinRules.WithinRule | lib/rules/within.js:3-5 | A non-number fails, as do a missing bound and a value outside `[min, max]`. With numeric bounds, it passes exactly when `min <= value <= max`. |
| BuiltinRules.WithinNumericStringBound | lib/rules/within.js:4 | A bound given as a numeric string acts as that number, as JavaScript's `>=` converts it. |
| BuiltinRules.WithinOtherBounds | lib/rules/within.js:4 | `null` compares as 0 and `true` as 1. An object bound always fails. |
| BuiltinRules.BuiltinExamples | spec/RulesSpec.js:57-142 | The library's own cases for `boolean` and `within` hold. |
| RuleManager.Settle | lib/manager.js:63-70 | A fulfilled promise, or a plain value other than `undefined`/`null`, gives that verdict. A throw or a rejection fails with its reason. A nullish plain value gives no verdict. |
| RuleManager.SyncAsyncAgree | lib/manager.js:64-70 | A plain verdict and the same verdict delivered through a promise settle alike. |
| RuleManager.CallArgs | lib/manager.js:56 | The predicate receives the key, the key's value, then exactly the rule's arguments. |
| RuleManager.Run | lib/manager.js:54-71 | An unregistered rule name fails with a `RuleError`, and that is the only way `run` yields one. The error carries no message, because the `RuleError` constructor drops the text it is given. |
| RuleManager.RunPassesArguments | lib/manager.js:56-63 | A registered foreign predicate is called with the data as receiver and `[key, data[key], ...args]`, and its output is settled. |
| RuleManager.RunUnknownCallsNothing | lib/manager.js:58-61 | For an unregistered name, the outcome does not depend on any predicate's behaviour. |
| RuleManager.Add | lib/manager.js:100-101 | `add(name, fn)` maps the name to the predicate, replacing any earlier one. Every other name keeps its predicate. |
| RuleManager.RunAfterAdd | lib/manager.js:82-102 | After `add`, running the added name runs the new predicate. Every other name runs as before. |
| RuleManager.AddDeclared | lib/manager.js:83-98 | `add(fn)` succeeds exactly when a non-empty name can be read from the function, and then registers it under that name. Otherwise, for an unreadable or an empty name, it fails with a `RuleError`. |
| RuleManager.BaseName | lib/manager.js:37 | The base name followed by `.js` is the file name. |
| RuleManager.LoadFileSpec | lib/manager.js:28-40 | One listing entry defines exactly its export: a `.js` function module under its base name, or an object module's names. Every other name is unchanged. |
| RuleManager.LoadFile | lib/manager.js:28-40 | A name the file defines holds the file's export. Every other name keeps its predicate or stays unregistered. |
| RuleManager.LoadDir | lib/manager.js:23-44 | After loading, a name is registered exactly when it was before or some listed file defines it. |
| RuleManager.LoadDirLastWins | lib/manager.js:23-44 | After `loadDir`, a name holds the export of the last file in the listing that defines it. |
| RuleManager.LoadDirKeepsUndefined | lib/manager.js:23-44 | A name that no listed file defines keeps its earlier predicate, or stays unregistered. |
| RuleManager.BuiltinManager | lib/manager.js:9-12 | Loading the built-in rule files registers `boolean` and `within` as the two modelled predicates. |
| RuleManager.RunBooleanRule | lib/manager.js:54-71 | Running the `boolean` rule through the registry gives `boolean(key, value, firstArgument)` as its verdict. |

## Left out

- Concurrency. Bluebird settles the checks in an order the model does not know. The model
  settles them one after another in schedule order. The messages of one key therefore come out
  in rule order. With asynchronous predicates that settle out of order, the same messages can
  be recorded in a different order.
- First failure. When several checks fail, the error `try` rejects with is the first failure in
  time. The model reports the first one in schedule order.
- Synchronous errors. A predicate that throws synchronously, or returns `undefined`/`null`, makes
  the JavaScript `try` throw rather than reject. The model reports both as a failed `Result`.
- Predicates and rule files not modelled:
  - Foreign predicates are an oracle.
  - The validator.js-based rules (`lib/rules/_chriso.js`), `equal`, and any other rule file are
    not part of this model.
  - `BuiltinManager` loads only the two modelled files.
  - Objects with their own `then` method returned as plain values ("thenables") are not
    modelled.
- File system and module loading. `fs.readdirSync` and `require` are left out: `loadDir` takes
  the listing of (file name, exported module) pairs as its input. `Language.builtIn` and the
  string form of `set`, which loads a JSON file, are left out for the same reason.
- `RuleManager.AddDeclared`: the regular expression that reads a function's name from its
  source text is not modelled. The name read (or its absence) is a field of the predicate.
- `Languages.Resolve`: lodash template rendering is not modelled. Rendering is an
  uninterpreted, total function of the selected template and the variables. The model fixes
  which template and which variables are used, not the text produced. Dictionary entries are
  strings. Rendering failures are dropped. In lodash, a template that names a variable the data
  lacks throws a `ReferenceError`, and a malformed template throws when it is compiled. During
  `extractRequired` that makes `try` throw, and during dispatch it makes `try` reject. The model
  instead records a message for every failed check.
- `ValidationProofs.TryFails`: holds only when every message renders. A rendering failure would
  make `try` fail even when every check gives a verdict, and the model does not represent one.
- `ValidationProofs.TryPassedIff`: holds only when every message renders. When a message for a
  failed rule does not render, JavaScript's `try` fails where the model's succeeds and reports
  the rule as failed.
- `RuleParser.ParseRule`: a raw rule is typed as either a string or an array whose first
  element is a string name, and each key's rules as a list. Three TypeErrors are left out:
  - a raw rule that is neither, such as `5` or `{}`, throws at `rule.indexOf`
    (lib/index.js:134) while the rules are normalised;
  - an array rule with no string first element, such as `[]` or `[5]`, throws at
    `rule[0].indexOf` (lib/index.js:179) once its key is present;
  - a key whose rule list is not an array, such as `{ foo: 'required' }`, throws at
    `rules[key].map` (lib/index.js:85). `try` then throws synchronously.
  The model's types (`map<string, seq<RawRule>>` for the raw rules) exclude all three inputs,
  so it does not represent any of these throws.
- `Languages.Set`: dictionaries are copied values in the model. In JavaScript, `set(obj)`
  stores the caller's own object (lib/language.js:29), and `extend` writes into it
  (lib/language.js:45, 47). That changes the caller's object and every `Language` that was set
  with it. A `Response` also holds the live `Language` (lib/response.js:12). So an `extend` made
  after `try` starts but before its checks settle changes the messages recorded at dispatch.
  The model captures the language once, when `Try` is called. The aliasing and its timing
  effect are left out.
- `ValidationProofs.TryOrderIndependent`: holds only for foreign predicates that are pure, that
  always settle, and that give the same verdict for the same call. `ValidationProofs.TryMessages`
  rests on the same assumptions. Three JavaScript behaviours break them:
  - a predicate runs with the working data as `this` (lib/manager.js:63) and can change it,
    which changes later checks and the `value` that messages receive (lib/response.js:49);
  - a promise that never settles makes `try` never settle (lib/index.js:117-120), and the
    model's outcomes cannot express this;
  - a stateful predicate can give different verdicts across calls.
  In the model, a predicate's outcome is a function of the predicate, the data and the
  arguments, and it cannot change the data.
- `RuleParser.ParseLiteral`: only the JSON literals `true`, `false`, `null`, integers and
  strings without escape sequences are read. Fractions, exponents, escapes, arrays and objects
  stay strings in the model, while `JSON.parse` would read them.
- `Values.ToNumber`: numbers are integers. Decimal fractions, hexadecimal, exponent forms,
  `Infinity`, `-0` and the 2^53 precision limit are not modelled, and strings in those forms
  read as NaN.
- `Text.Trim`: trims the ASCII whitespace characters (space, tab, line feed, vertical tab, form
  feed, carriage return). The Unicode spaces that JavaScript's `trim` also removes are not
  modelled.
- `Responses.Keys`: the model returns a set, so the order of the array `_.keys(this.errors)`
  returns (lib/response.js:60-64) is dropped. That order is the errors object's own-key order.
  Integer-like keys come first, in ascending order, and the other keys follow in the order of
  their first message. So the keys `extractRequired` reports come in rule-key order, before any
  key first reported at dispatch.
- Response pass-through helpers. Of the lodash pass-through helpers, only `keys` is modelled.
  `values`, `pairs`, `invert`, `pick`, `omit`, `forIn` and `has` are left out. They read the
  same errors object and add nothing to the pipeline.
- `extractRequired` return value. It always returns an empty object, which `try` ignores, so it
  is not modelled.
- `tryOrFail` and the `ValidationError` type are not modelled. `index.js` at the package root
  is not part of this model, and of `lib/errors.js` only the `RuleError` type is modelled.
- Property lookups through the prototype chain are not modelled. The model reads its maps as
  own properties only. Three places are affected:
  - data: a data key named like an `Object.prototype` member reads as `undefined` in the model;
  - rule names: `this.rules[name]` (lib/manager.js:55) would find an inherited `toString` or
    `constructor` for an unregistered name, while the model fails it with a `RuleError`;
  - dictionary keys: a dictionary lookup (lib/language.js:61) would find an inherited member for
    a rule name the dictionary lacks, while the model falls back to the default message.
- Concrete string rules. The string-rule example from the library's checks
  (`'foo: 1, 2, a: b, true'`) is not stated as a lemma of its own. The general lemmas cover
  it:
  - `ParseTextAtFirstColon` splits at the first colon.
  - `ParseArgs` splits the rest at every comma.
  - `LiteralRoundTrip` reads the integers and booleans.
