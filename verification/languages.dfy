/** The message catalog (lib/language.js): a dictionary from message keys to templates, plus
    global template variables. Rendering a template (`_.template`) is not modelled; it is a given
    function of the selected template and the variables. */
module Languages {
  import opened Results
  import opened Values

  /** The dictionary entry used when a message key has no entry of its own. */
  const MissingKey := "$missing"

  datatype Language = Language(dictionary: map<string, string>, globals: map<string, Value>)

  /** Template rendering: the template (None when the dictionary has neither the key nor a
      `$missing` entry) and the interpolation variables give the message. */
  type Renderer = (Option<string>, map<string, Value>) -> string

  /** The template `resolve` uses for `key`: its own entry, else the `$missing` entry. */
  function Template(l: Language, key: string): (t: Option<string>)
    ensures t.Some? <==> key in l.dictionary || MissingKey in l.dictionary
    ensures key in l.dictionary ==> t == Some(l.dictionary[key])
  {
    if key in l.dictionary then Some(l.dictionary[key])
    else if MissingKey in l.dictionary then Some(l.dictionary[MissingKey])
    else None
  }

  /** The interpolation variables of `resolve`: the globals overlaid by the per-call data. */
  function Variables(l: Language, data: map<string, Value>): (vars: map<string, Value>)
    ensures forall k :: k in vars <==> k in l.globals || k in data
    ensures forall k :: k in data ==> vars[k] == data[k]
    ensures forall k :: k in l.globals && k !in data ==> vars[k] == l.globals[k]
  {
    l.globals + data
  }

  /** `new Language()`: no entry, so every key resolves to no template, and no global, so the
      variables are exactly the per-call data. */
  function NewLanguage(): (l: Language)
    ensures forall key :: Template(l, key) == None
    ensures forall data :: Variables(l, data) == data
  {
    Language(map[], map[])
  }

  /** `set(dictionary)` with an object: the dictionary is replaced wholesale, the globals stay. */
  function Set(l: Language, dictionary: map<string, string>): (r: Language)
    ensures r.globals == l.globals
    ensures forall key :: key in dictionary ==> Template(r, key) == Some(dictionary[key])
    ensures forall key :: key !in dictionary ==>
      Template(r, key) == if MissingKey in dictionary then Some(dictionary[MissingKey]) else None
  {
    l.(dictionary := dictionary)
  }

  /** `extend(key, value)`: one entry is set; every other entry and the globals stay. */
  function Extend(l: Language, key: string, value: string): (r: Language)
    ensures Template(r, key) == Some(value)
    ensures forall k :: k != key ==> (k in r.dictionary <==> k in l.dictionary)
    ensures forall k :: k != key && k in l.dictionary ==> r.dictionary[k] == l.dictionary[k]
    ensures r.globals == l.globals
  {
    l.(dictionary := l.dictionary[key := value])
  }

  /** `extend(entries)` (`_.extend` of the dictionary): the entries are merged over the
      dictionary, overwriting shared keys and keeping all others. */
  function ExtendAll(l: Language, entries: map<string, string>): (r: Language)
    ensures forall k :: k in r.dictionary <==> k in l.dictionary || k in entries
    ensures forall k :: k in entries ==> r.dictionary[k] == entries[k]
    ensures forall k :: k in l.dictionary && k !in entries ==> r.dictionary[k] == l.dictionary[k]
    ensures r.globals == l.globals
  {
    l.(dictionary := l.dictionary + entries)
  }

  /** `global(key, value)`: one global variable is set; the dictionary stays. */
  function Global(l: Language, key: string, value: Value): (r: Language)
    ensures r.dictionary == l.dictionary
    ensures key in r.globals && r.globals[key] == value
    ensures forall k :: k != key ==> (k in r.globals <==> k in l.globals)
    ensures forall k :: k != key && k in l.globals ==> r.globals[k] == l.globals[k]
  {
    l.(globals := l.globals[key := value])
  }

  /** `resolve(key, data)`: the selected template rendered with the merged variables. */
  function Resolve(l: Language, render: Renderer, key: string, data: map<string, Value>): (m: string)
    ensures key in l.dictionary ==> m == render(Some(l.dictionary[key]), l.globals + data)
    ensures key !in l.dictionary && MissingKey in l.dictionary ==>
      m == render(Some(l.dictionary[MissingKey]), l.globals + data)
    ensures key !in l.dictionary && MissingKey !in l.dictionary ==> m == render(None, l.globals + data)
  {
    render(Template(l, key), Variables(l, data))
  }

  /** A key without an entry renders exactly as the `$missing` entry does. */
  lemma ResolveUnknownKey(l: Language, render: Renderer, key: string, data: map<string, Value>)
    requires key !in l.dictionary
    ensures Resolve(l, render, key, data) == Resolve(l, render, MissingKey, data)
  {
  }

  /** After `set`, nothing of the previous dictionary is left: two catalogs with the same globals
      are indistinguishable once given the same dictionary. */
  lemma SetForgetsPrevious(l1: Language, l2: Language, dictionary: map<string, string>)
    requires l1.globals == l2.globals
    ensures Set(l1, dictionary) == Set(l2, dictionary)
    ensures forall key :: Template(Set(l1, dictionary), key) == Template(Set(l2, dictionary), key)
  {
  }

  /** Merging one entry is setting it, and merging twice is merging the union, later entries
      winning. */
  lemma ExtendAllComposes(l: Language, e1: map<string, string>, e2: map<string, string>,
                          key: string, value: string)
    ensures ExtendAll(l, map[key := value]) == Extend(l, key, value)
    ensures ExtendAll(ExtendAll(l, e1), e2) == ExtendAll(l, e1 + e2)
  {
    assert l.dictionary + map[key := value] == l.dictionary[key := value];
    assert (l.dictionary + e1) + e2 == l.dictionary + (e1 + e2);
  }

  /** Extending an empty catalog with `bar: baz`, then with `{fizz: buzz}`, gives exactly those
      two entries. */
  lemma ExtendExample()
    ensures ExtendAll(Extend(NewLanguage(), "bar", "baz"), map["fizz" := "buzz"]).dictionary
         == map["bar" := "baz", "fizz" := "buzz"]
  {
    var d := ExtendAll(Extend(NewLanguage(), "bar", "baz"), map["fizz" := "buzz"]).dictionary;
    assert d.Keys == {"bar", "fizz"};
  }

  /** A global variable renders as the same variable passed per call, and a per-call variable
      shadows a global of the same name. */
  lemma GlobalIsDefaultVariable(l: Language, render: Renderer, key: string, name: string,
                                value: Value, data: map<string, Value>)
    ensures name !in data ==>
      Resolve(Global(l, name, value), render, key, data) == Resolve(l, render, key, data[name := value])
    ensures name in data ==>
      Resolve(Global(l, name, value), render, key, data) == Resolve(l, render, key, data)
  {
    var g := Global(l, name, value);
    if name !in data {
      assert Variables(g, data) == Variables(l, data[name := value]);
    } else {
      assert Variables(g, data) == Variables(l, data);
    }
  }
}
