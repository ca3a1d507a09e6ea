/** The rule registry (lib/manager.js): rule names mapped to predicates, running a rule against
    a data record, registering rules by explicit or declared name, and merging a directory listing
    of rule modules. Predicates other than the two built-ins are foreign code: what they return is
    a given oracle of the predicate, the receiver and the arguments. */
module RuleManager {
  import opened Results
  import opened Text
  import opened Values
  import opened RuleParser
  import opened BuiltinRules

  /** A registered predicate: one of the two modelled built-ins, or foreign code identified by
      `id`, with the name its source declares (None when no name can be read from it at all,
      Some("") for an anonymous function). */
  datatype Predicate =
    | BooleanCheck
    | WithinCheck
    | Foreign(id: nat, declaredName: Option<string>)

  /** What calling a predicate does: return a plain value, return a promise that fulfils or
      rejects, or throw. */
  datatype Output =
    | Returned(v: Value)
    | Fulfills(v: Value)
    | Rejects(reason: Value)
    | Throws(reason: Value)

  /** The behaviour of foreign predicates: predicate id, receiver and arguments to output. */
  type ForeignFn = (nat, Record, seq<Value>) -> Output

  /** Why running a rule produced no verdict: the library's own `RuleError`, a predicate that
      threw or rejected, or a predicate whose plain result was `undefined`/`null` (which the
      library then dereferences). A `RuleError` carries no message: its constructor
      (lib/errors.js) hands its arguments to a separate `Error` that it then drops, so every
      `RuleError` has the empty message whatever text the code passes it. */
  datatype RunError =
    | RuleError
    | PredicateError(reason: Value)
    | NoVerdict

  datatype Manager = Manager(rules: map<string, Predicate>)

  /** The name `add(fn)` reads from a predicate's source; the built-ins are anonymous. */
  function DeclaredName(p: Predicate): Option<string> {
    match p
    case Foreign(_, name) => name
    case _ => Some("")
  }

  /** `rule.apply(data, args)`. */
  function Invoke(p: Predicate, foreign: ForeignFn, data: Record, args: seq<Value>): Output {
    match p
    case BooleanCheck => Returned(Bool(BooleanRule(Arg(args, 0), Arg(args, 1), Arg(args, 2))))
    case WithinCheck => Returned(Bool(WithinRule(Arg(args, 0), Arg(args, 1), Arg(args, 2), Arg(args, 3))))
    case Foreign(id, _) => foreign(id, data, args)
  }

  /** The settled promise `run` hands back for a predicate's output: a plain value and a
      fulfilled promise both give their value; a throw, a rejection and a nullish plain value
      give an error. */
  function Settle(o: Output): (r: Result<Value, RunError>)
    ensures r.Success? <==> o.Fulfills? || (o.Returned? && !Nullish(o.v))
    ensures r.Success? ==> r.value == o.v
    ensures (o.Rejects? || o.Throws?) ==> r == Failure(PredicateError(o.reason))
    ensures o.Returned? && Nullish(o.v) ==> r == Failure(NoVerdict)
  {
    match o
    case Returned(v) => if Nullish(v) then Failure(NoVerdict) else Success(v)
    case Fulfills(v) => Success(v)
    case Rejects(reason) => Failure(PredicateError(reason))
    case Throws(reason) => Failure(PredicateError(reason))
  }

  /** A plain verdict and the same verdict delivered through a promise settle alike. */
  lemma SyncAsyncAgree(v: Value)
    requires !Nullish(v)
    ensures Settle(Returned(v)) == Settle(Fulfills(v)) == Success(v)
  {
  }

  /** The arguments a rule's predicate is called with: the key, the key's value, then the rule's
      own arguments. */
  function CallArgs(data: Record, key: string, rule: Rule): (args: seq<Value>)
    ensures |args| == |rule.args| + 2
    ensures args[0] == Str(key) && args[1] == Get(data, key) && args[2..] == rule.args
  {
    [Str(key), Get(data, key)] + rule.args
  }

  /** `run(data, key, rule)`: an unregistered name fails with a `RuleError`; otherwise the
      predicate is called with `data` as receiver and the call arguments, and its output
      settled. */
  function Run(m: Manager, foreign: ForeignFn, data: Record, key: string, rule: Rule): (r: Result<Value, RunError>)
    ensures rule.name !in m.rules ==> r == Failure(RuleError)
    ensures (r.Failure? && r.error.RuleError?) <==> rule.name !in m.rules
  {
    if rule.name !in m.rules then Failure(RuleError)
    else Settle(Invoke(m.rules[rule.name], foreign, data, CallArgs(data, key, rule)))
  }

  /** An unregistered rule fails the same way whatever the predicates do: none is called. */
  lemma RunUnknownCallsNothing(m: Manager, f1: ForeignFn, f2: ForeignFn, data: Record, key: string, rule: Rule)
    requires rule.name !in m.rules
    ensures Run(m, f1, data, key, rule) == Run(m, f2, data, key, rule)
    ensures Run(m, f1, data, key, rule).Failure? && Run(m, f1, data, key, rule).error.RuleError?
  {
  }

  /** A registered foreign predicate sees the data as receiver and `[key, data[key], ...args]`. */
  lemma RunPassesArguments(m: Manager, foreign: ForeignFn, data: Record, key: string, rule: Rule, id: nat)
    requires rule.name in m.rules && m.rules[rule.name].Foreign? && m.rules[rule.name].id == id
    ensures Run(m, foreign, data, key, rule) == Settle(foreign(id, data, [Str(key), Get(data, key)] + rule.args))
  {
  }

  /** `add(name, fn)`: the name is mapped to the predicate, replacing any earlier one; every
      other name keeps its predicate. */
  function Add(m: Manager, name: string, p: Predicate): (r: Manager)
    ensures name in r.rules && r.rules[name] == p
    ensures forall n :: n != name ==> (n in r.rules <==> n in m.rules)
    ensures forall n :: n != name && n in m.rules ==> r.rules[n] == m.rules[n]
  {
    Manager(m.rules[name := p])
  }

  /** Running a rule after `add` runs the added predicate under its name and leaves every other
      name's outcome as it was. */
  lemma RunAfterAdd(m: Manager, name: string, p: Predicate, foreign: ForeignFn, data: Record, key: string, rule: Rule)
    ensures rule.name == name ==>
      Run(Add(m, name, p), foreign, data, key, rule) == Settle(Invoke(p, foreign, data, CallArgs(data, key, rule)))
    ensures rule.name != name ==>
      Run(Add(m, name, p), foreign, data, key, rule) == Run(m, foreign, data, key, rule)
  {
  }

  /** `add(fn)`: registers under the declared name; a predicate without a readable name, or with
      an empty one, is refused with a `RuleError` and nothing is registered. */
  function AddDeclared(m: Manager, p: Predicate): (r: Result<Manager, RunError>)
    ensures r.Success? <==> DeclaredName(p).Some? && DeclaredName(p).value != ""
    ensures r.Success? ==> r.value == Add(m, DeclaredName(p).value, p)
    ensures !r.Success? ==> r == Failure(RuleError)
  {
    match DeclaredName(p)
    case None => Failure(RuleError)
    case Some(name) =>
      if name == "" then Failure(RuleError) else Success(Add(m, name, p))
  }

  /** What a rule file exports: a single predicate, or an object of named predicates. */
  datatype Module =
    | FunctionModule(fn: Predicate)
    | ObjectModule(exports: map<string, Predicate>)

  const JsExtension := ".js"

  /** `path.extname(file) === '.js'` for a bare file name: it ends in `.js` after at least one
      other character (`.js` alone is a dot-file without extension). */
  predicate IsJsFile(file: string) {
    |file| > |JsExtension| && file[|file| - |JsExtension|..] == JsExtension
  }

  /** `path.basename(file, '.js')`. */
  function BaseName(file: string): (base: string)
    requires IsJsFile(file)
    ensures base + JsExtension == file
  {
    file[..|file| - |JsExtension|]
  }

  /** One step of `loadDir`: a non-`.js` file is skipped, a function module is registered under
      the file's base name, and an object module is merged over the registry. */
  function LoadFile(m: Manager, file: string, mod: Module): (r: Manager)
    ensures forall name :: Defines(file, mod, name) ==>
      name in r.rules && r.rules[name] == Exported(file, mod, name)
    ensures forall name :: !Defines(file, mod, name) ==>
      (name in r.rules <==> name in m.rules) && (name in m.rules ==> r.rules[name] == m.rules[name])
  {
    if !IsJsFile(file) then m
    else match mod
      case FunctionModule(fn) => Add(m, BaseName(file), fn)
      case ObjectModule(exports) => Manager(m.rules + exports)
  }

  /** The merge loop of `loadDir` over a directory listing, in listing order. */
  function LoadDir(m: Manager, files: seq<(string, Module)>): (r: Manager)
    ensures forall name :: name in r.rules <==>
      name in m.rules || exists i :: 0 <= i < |files| && Defines(files[i].0, files[i].1, name)
    decreases |files|
  {
    if files == [] then m
    else
      var (file, mod) := files[|files| - 1];
      LoadFile(LoadDir(m, files[..|files| - 1]), file, mod)
  }

  /** Whether loading `file` registers `name`. */
  predicate Defines(file: string, mod: Module, name: string) {
    IsJsFile(file) &&
    match mod
    case FunctionModule(_) => BaseName(file) == name
    case ObjectModule(exports) => name in exports
  }

  /** The predicate loading `file` registers under `name`. */
  function Exported(file: string, mod: Module, name: string): Predicate
    requires Defines(file, mod, name)
  {
    match mod
    case FunctionModule(fn) => fn
    case ObjectModule(exports) => exports[name]
  }

  /** One file defines `name` as its export does, and leaves every other name alone. */
  lemma LoadFileSpec(m: Manager, file: string, mod: Module, name: string)
    ensures Defines(file, mod, name) ==>
      name in LoadFile(m, file, mod).rules && LoadFile(m, file, mod).rules[name] == Exported(file, mod, name)
    ensures !Defines(file, mod, name) ==>
      (name in LoadFile(m, file, mod).rules <==> name in m.rules) &&
      (name in m.rules ==> LoadFile(m, file, mod).rules[name] == m.rules[name])
  {
  }

  /** `files[i]` is the last file in the listing that defines `name`. */
  predicate LastDefiner(files: seq<(string, Module)>, name: string, i: nat) {
    && i < |files|
    && Defines(files[i].0, files[i].1, name)
    && forall j :: i < j < |files| ==> !Defines(files[j].0, files[j].1, name)
  }

  /** After `loadDir`, a name holds the export of the LAST file in the listing that defines it:
      later files overwrite earlier ones. */
  lemma {:induction false} LoadDirLastWins(m: Manager, files: seq<(string, Module)>, name: string, i: nat)
    requires LastDefiner(files, name, i)
    ensures name in LoadDir(m, files).rules
    ensures LoadDir(m, files).rules[name] == Exported(files[i].0, files[i].1, name)
    decreases |files|
  {
    var n := |files| - 1;
    var init := files[..n];
    LoadFileSpec(LoadDir(m, init), files[n].0, files[n].1, name);
    if i < n {
      assert LastDefiner(init, name, i) by {
        assert forall j :: i < j < n ==> init[j] == files[j];
      }
      LoadDirLastWins(m, init, name, i);
    }
  }

  /** A name that no file in the listing defines keeps its earlier predicate, or stays
      unregistered. */
  lemma {:induction false} LoadDirKeepsUndefined(m: Manager, files: seq<(string, Module)>, name: string)
    requires forall i :: 0 <= i < |files| ==> !Defines(files[i].0, files[i].1, name)
    ensures name in LoadDir(m, files).rules <==> name in m.rules
    ensures name in m.rules ==> LoadDir(m, files).rules[name] == m.rules[name]
    decreases |files|
  {
    if files != [] {
      var n := |files| - 1;
      var init := files[..n];
      assert forall i :: 0 <= i < n ==> init[i] == files[i];
      LoadDirKeepsUndefined(m, init, name);
      LoadFileSpec(LoadDir(m, init), files[n].0, files[n].1, name);
    }
  }

  /** The registry the constructor builds from the two modelled rule files. */
  function BuiltinManager(): (m: Manager)
    ensures "boolean" in m.rules && m.rules["boolean"] == BooleanCheck
    ensures "within" in m.rules && m.rules["within"] == WithinCheck
  {
    var files := [("boolean.js", FunctionModule(BooleanCheck)), ("within.js", FunctionModule(WithinCheck))];
    assert BaseName("boolean.js") == "boolean" && BaseName("within.js") == "within";
    LoadDirLastWins(Manager(map[]), files, "boolean", 0);
    LoadDirLastWins(Manager(map[]), files, "within", 1);
    LoadDir(Manager(map[]), files)
  }

  /** Running the built-in `boolean` rule through the registry: the verdict is the predicate's
      on the key's value and the rule's first argument. */
  lemma RunBooleanRule(foreign: ForeignFn, data: Record, key: string, args: seq<Value>)
    ensures Run(BuiltinManager(), foreign, data, key, Rule("boolean", args))
         == Success(Bool(BooleanRule(Str(key), Get(data, key), Arg(args, 0))))
  {
    var call := CallArgs(data, key, Rule("boolean", args));
    assert Arg(call, 2) == Arg(args, 0);
  }
}
