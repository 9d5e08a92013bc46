/**
 * The construction engine of `ml_utilities/configs`: turning a configuration
 * tree into the objects it describes. Lists and tuples are built element by
 * element, dictionaries are dispatched on their reserved keys (`constructor`,
 * then `module`, then `choice`) or else built value by value, and every
 * other value is returned as it is.
 *
 * Calling a constructor is arbitrary Python; the model records the call as an
 * `Instance` of the built constructor with the built arguments. Importing a
 * module and reading an attribute are lookups supplied by a `Resolver`.
 */
module Construction {
  import opened Wrappers
  import opened ConfigTree

  const ConstructorKey: Value := Str("constructor")
  const ArgsKey: Value := Str("args")
  const KwargsKey: Value := Str("kwargs")
  const ModuleKey: Value := Str("module")
  const MethodKey: Value := Str("method")
  const ChoiceKey: Value := Str("choice")
  const OptionsKey: Value := Str("options")

  /** `importlib.import_module` and `getattr`: each returns a value or
      raises an exception, which building passes on unchanged. */
  datatype Resolver = Resolver(importModule: Value -> Result<Value, Error>, getAttr: (Value, Value) -> Result<Value, Error>)

  /** Python accepts only string keys in `**kwargs`. */
  predicate StringKeys(es: seq<Entry>) {
    forall i :: 0 <= i < |es| ==> es[i].key.Scalar? && es[i].key.atom.PyStr?
  }

  /** `build_from_config(x)`. */
  function Build(x: Value, env: Resolver): (r: Result<Value, Error>)
    decreases x, 2
    ensures !IsSequence(x) && !x.Dict? ==> r == Ok(x)
  {
    match x
    case List(xs) =>
      var ys :- BuildItems(xs, env);
      Ok(List(ys))
    case Tuple(xs) =>
      var ys :- BuildItems(xs, env);
      Ok(Tuple(ys))
    case Dict(es) => BuildDict(x, env)
    case _ => Ok(x)
  }

  /** The dictionary case of `build_from_config`: the reserved keys are
      tried in the order `constructor`, `module`, `choice`. */
  function BuildDict(x: Value, env: Resolver): (r: Result<Value, Error>)
    requires x.Dict?
    decreases x, 1
    ensures ConstructorKey in Keys(x.entries) && r.Ok? ==>
              r.value.Instance? && StringKeys(r.value.kwargs)
    ensures && ConstructorKey !in Keys(x.entries) && ModuleKey in Keys(x.entries)
            && env.importModule(Get(x.entries, ModuleKey).value).Err?
            ==> r == Err(env.importModule(Get(x.entries, ModuleKey).value).error)
    ensures && ConstructorKey !in Keys(x.entries) && ModuleKey !in Keys(x.entries)
            && ChoiceKey in Keys(x.entries) && OptionsKey !in Keys(x.entries)
            ==> r == Err(KeyError(OptionsKey))
    ensures && ConstructorKey !in Keys(x.entries) && ModuleKey !in Keys(x.entries)
            && ChoiceKey !in Keys(x.entries) && r.Ok?
            ==> r.value.Dict? && |r.value.entries| == |x.entries|
  {
    var es := x.entries;
    match Find(es, ConstructorKey)
    case Some(c) =>
      var ctor :- Build(es[c].value, env);
      var args :- ArgsOf(x, env);
      var kwargs :- KwargsOf(x, env);
      if StringKeys(kwargs) then Ok(Instance(ctor, args, kwargs)) else Err(TypeError)
    case None =>
    match Find(es, ModuleKey)
    case Some(m) =>
      var imported :- env.importModule(es[m].value);
      var name :- Get(es, MethodKey).ToResult(KeyError(MethodKey));
      env.getAttr(imported, name)
    case None =>
    match Find(es, ChoiceKey)
    case Some(c) =>
      var o :- Find(es, OptionsKey).ToResult(KeyError(OptionsKey));
      var options := es[o].value;
      var j :- Position(options, es[c].value);
      Build(Element(options, j), env)
    case None =>
      var out :- BuildEntries(x, 0, env);
      Ok(Dict(out))
  }

  /** The positional arguments a constructor form yields when it builds:
      none without `args`, else the built elements of `args`, which must be
      a list or tuple. */
  function ArgsOf(x: Value, env: Resolver): (r: Result<seq<Value>, Error>)
    requires x.Dict?
    decreases x, 0
    ensures ArgsKey !in Keys(x.entries) ==> r == Ok([])
    ensures ArgsKey in Keys(x.entries) && !IsSequence(Get(x.entries, ArgsKey).value) ==> r == Err(TypeError)
    ensures ArgsKey in Keys(x.entries) && r.Ok? ==> |r.value| == |Get(x.entries, ArgsKey).value.items|
  {
    match Find(x.entries, ArgsKey)
    case None => Ok([])
    case Some(a) => BuildArgs(x.entries[a].value, env)
  }

  /** The keyword arguments likewise: none without `kwargs`, else the built
      values of `kwargs`, which must be a dictionary. */
  function KwargsOf(x: Value, env: Resolver): (r: Result<seq<Entry>, Error>)
    requires x.Dict?
    decreases x, 0
    ensures KwargsKey !in Keys(x.entries) ==> r == Ok([])
    ensures KwargsKey in Keys(x.entries) && !Get(x.entries, KwargsKey).value.Dict? ==> r == Err(AttributeError)
    ensures KwargsKey in Keys(x.entries) && r.Ok? ==> |r.value| == |Get(x.entries, KwargsKey).value.entries|
  {
    match Find(x.entries, KwargsKey)
    case None => Ok([])
    case Some(k) => BuildKwargs(x.entries[k].value, env)
  }

  /** The elements of a list or tuple, each built, left to right; the first
      exception propagates. */
  function BuildItems(xs: seq<Value>, env: Resolver): (r: Result<seq<Value>, Error>)
    decreases xs
    ensures r.Ok? ==> |r.value| == |xs|
  {
    if |xs| == 0 then Ok([])
    else
      var y :- Build(xs[0], env);
      var ys :- BuildItems(xs[1..], env);
      Ok([y] + ys)
  }

  /** The positional arguments built from the value of `args`: one per
      element, in order; only lists and tuples are iterated. */
  function BuildArgs(args: Value, env: Resolver): (r: Result<seq<Value>, Error>)
    decreases args, 1
    ensures !IsSequence(args) ==> r == Err(TypeError)
    ensures r.Ok? ==> IsSequence(args) && |r.value| == |args.items|
  {
    if IsSequence(args) then BuildItems(args.items, env) else Err(TypeError)
  }

  /** The keyword arguments built from the value of `kwargs`: its keys in
      its order, each value built; only dictionaries have `.items()`. */
  function BuildKwargs(kwargs: Value, env: Resolver): (r: Result<seq<Entry>, Error>)
    decreases kwargs, 1
    ensures !kwargs.Dict? ==> r == Err(AttributeError)
    ensures r.Ok? ==> kwargs.Dict? && |r.value| == |kwargs.entries|
  {
    if kwargs.Dict? then BuildEntries(kwargs, 0, env) else Err(AttributeError)
  }

  /** The values of dictionary `d` from position `i` on, built in key order
      with their keys kept. */
  function BuildEntries(d: Value, i: nat, env: Resolver): (r: Result<seq<Entry>, Error>)
    requires d.Dict? && i <= |d.entries|
    decreases d, 0, |d.entries| - i
    ensures r.Ok? ==> |r.value| == |d.entries| - i
    ensures r.Ok? ==> forall j :: 0 <= j < |r.value| ==> r.value[j].key == d.entries[i + j].key
  {
    if i == |d.entries| then Ok([])
    else
      var e := d.entries[i];
      var v :- Build(e.value, env);
      var rest :- BuildEntries(d, i + 1, env);
      Ok([Entry(e.key, v)] + rest)
  }
}

module ConstructionLaws {
  import opened Wrappers
  import opened ConfigTree
  import opened Construction

  /** Elements are built left to right: the whole succeeds exactly when every
      element does, each result is built from the element at the same
      position, and a failure is the first failing element's. */
  lemma {:induction false} BuildItemsSpec(xs: seq<Value>, env: Resolver)
    ensures BuildItems(xs, env).Ok? <==> forall i :: 0 <= i < |xs| ==> Build(xs[i], env).Ok?
    ensures BuildItems(xs, env).Ok? ==>
              forall i :: 0 <= i < |xs| ==> BuildItems(xs, env).value[i] == Build(xs[i], env).value
    ensures BuildItems(xs, env).Err? ==>
              exists k :: 0 <= k < |xs| && Build(xs[k], env) == Err(BuildItems(xs, env).error) &&
                forall j :: 0 <= j < k ==> Build(xs[j], env).Ok?
    decreases |xs|
  {
    if |xs| > 0 {
      BuildItemsSpec(xs[1..], env);
      assert forall i :: 1 <= i < |xs| ==> xs[1..][i - 1] == xs[i];
      var r := BuildItems(xs, env);
      if Build(xs[0], env).Ok? && BuildItems(xs[1..], env).Err? {
        var k :| 0 <= k < |xs[1..]| && Build(xs[1..][k], env) == Err(r.error) &&
                 forall j :: 0 <= j < k ==> Build(xs[1..][j], env).Ok?;
        assert Build(xs[k + 1], env) == Err(r.error);
      }
    }
  }

  /** One step of building a dictionary's values: the value at `i` is built
      first, then the values after it. */
  lemma BuildEntriesCons(d: Value, i: nat, env: Resolver)
    requires d.Dict? && i < |d.entries|
    ensures var head, rest := Build(d.entries[i].value, env), BuildEntries(d, i + 1, env);
            BuildEntries(d, i, env) ==
              if head.Err? then Err(head.error)
              else if rest.Err? then Err(rest.error)
              else Ok([Entry(d.entries[i].key, head.value)] + rest.value)
  {
  }

  /** The same for the values of a dictionary from position `i` on; keys
      are kept and not built. */
  lemma BuildEntriesSpec(d: Value, i: nat, env: Resolver)
    requires d.Dict? && i <= |d.entries|
    ensures var r := BuildEntries(d, i, env);
            r.Ok? <==> forall j :: i <= j < |d.entries| ==> Build(d.entries[j].value, env).Ok?
    ensures var r := BuildEntries(d, i, env);
            r.Ok? ==> forall j :: 0 <= j < |r.value| ==>
                        r.value[j] == Entry(d.entries[i + j].key, Build(d.entries[i + j].value, env).value)
    ensures var r := BuildEntries(d, i, env);
            r.Err? ==> exists k :: i <= k < |d.entries| && Build(d.entries[k].value, env) == Err(r.error) &&
                         forall j :: i <= j < k ==> Build(d.entries[j].value, env).Ok?
  {
    BuildEntriesOk(d, i, env);
    BuildEntriesFirstError(d, i, env);
  }

  /** Building a dictionary's values from position `i` succeeds exactly when
      each of them builds, and then yields each key with its built value. */
  lemma {:induction false} BuildEntriesOk(d: Value, i: nat, env: Resolver)
    requires d.Dict? && i <= |d.entries|
    ensures var r := BuildEntries(d, i, env);
            r.Ok? <==> forall j :: i <= j < |d.entries| ==> Build(d.entries[j].value, env).Ok?
    ensures var r := BuildEntries(d, i, env);
            r.Ok? ==> forall j :: 0 <= j < |r.value| ==>
                        r.value[j] == Entry(d.entries[i + j].key, Build(d.entries[i + j].value, env).value)
    decreases |d.entries| - i
  {
    if i < |d.entries| {
      BuildEntriesOk(d, i + 1, env);
      BuildEntriesCons(d, i, env);
      var e := d.entries[i];
      var head, rest := Build(e.value, env), BuildEntries(d, i + 1, env);
      var r := BuildEntries(d, i, env);
      if head.Ok? && rest.Ok? {
        assert r.value == [Entry(e.key, head.value)] + rest.value;
        forall j | 0 <= j < |r.value|
          ensures r.value[j] == Entry(d.entries[i + j].key, Build(d.entries[i + j].value, env).value)
        {
          if j > 0 {
            assert r.value[j] == rest.value[j - 1];
          }
        }
      }
    }
  }

  /** A failure while building a dictionary's values is the failure of the
      first value that does not build. */
  lemma {:induction false} BuildEntriesFirstError(d: Value, i: nat, env: Resolver)
    requires d.Dict? && i <= |d.entries|
    ensures var r := BuildEntries(d, i, env);
            r.Err? ==> exists k :: i <= k < |d.entries| && Build(d.entries[k].value, env) == Err(r.error) &&
                         forall j :: i <= j < k ==> Build(d.entries[j].value, env).Ok?
    decreases |d.entries| - i
  {
    if i < |d.entries| {
      BuildEntriesFirstError(d, i + 1, env);
      BuildEntriesCons(d, i, env);
      var head, rest := Build(d.entries[i].value, env), BuildEntries(d, i + 1, env);
      var r := BuildEntries(d, i, env);
      if head.Err? {
        assert r == Err(head.error);
      } else if rest.Err? {
        assert r == Err(rest.error);
        var k :| i + 1 <= k < |d.entries| && Build(d.entries[k].value, env) == Err(rest.error) &&
                 forall j :: i + 1 <= j < k ==> Build(d.entries[j].value, env).Ok?;
        assert forall j :: i <= j < k ==> Build(d.entries[j].value, env).Ok?;
        assert i <= k < |d.entries| && Build(d.entries[k].value, env) == Err(r.error);
      }
    }
  }

  /** A list builds to a list and a tuple to a tuple, of the same length,
      element `i` built from element `i`. */
  lemma BuildSequence(x: Value, env: Resolver)
    requires IsSequence(x)
    ensures Build(x, env).Ok? <==> forall i :: 0 <= i < |x.items| ==> Build(x.items[i], env).Ok?
    ensures var r := Build(x, env);
            r.Ok? ==> (x.List? <==> r.value.List?) && (x.Tuple? <==> r.value.Tuple?) &&
                      |r.value.items| == |x.items| &&
                      forall i :: 0 <= i < |x.items| ==> r.value.items[i] == Build(x.items[i], env).value
    ensures var r := Build(x, env);
            r.Err? ==> exists k :: 0 <= k < |x.items| && Build(x.items[k], env) == Err(r.error) &&
                         forall j :: 0 <= j < k ==> Build(x.items[j], env).Ok?
  {
    BuildItemsSpec(x.items, env);
  }

  /** A dictionary with none of the reserved keys builds to a dictionary
      with the same keys in the same order, each value built. */
  lemma BuildPlainDict(x: Value, env: Resolver)
    requires x.Dict?
    requires ConstructorKey !in Keys(x.entries) && ModuleKey !in Keys(x.entries) && ChoiceKey !in Keys(x.entries)
    ensures Build(x, env).Ok? <==> forall j :: 0 <= j < |x.entries| ==> Build(x.entries[j].value, env).Ok?
    ensures var r := Build(x, env);
            r.Ok? ==> r.value.Dict? && Keys(r.value.entries) == Keys(x.entries) &&
                      forall j :: 0 <= j < |x.entries| ==> r.value.entries[j].value == Build(x.entries[j].value, env).value
  {
    BuildEntriesSpec(x, 0, env);
  }

  /** A dictionary with `constructor` is a constructor call whatever other
      keys it has. The constructor is built first, then the positional
      arguments, then the keyword arguments; the first failure wins, and
      keyword names must be strings. */
  lemma BuildConstructorForm(x: Value, env: Resolver)
    requires x.Dict? && ConstructorKey in Keys(x.entries)
    ensures var ctor, args, kwargs := Build(Get(x.entries, ConstructorKey).value, env), ArgsOf(x, env), KwargsOf(x, env);
            Build(x, env) ==
              if ctor.Err? then Err(ctor.error)
              else if args.Err? then Err(args.error)
              else if kwargs.Err? then Err(kwargs.error)
              else if !StringKeys(kwargs.value) then Err(TypeError)
              else Ok(Instance(ctor.value, args.value, kwargs.value))
  {
  }

  /** The positional arguments: none without `args`, else `args` must be a
      list or tuple and each argument is built from the element at its
      position. */
  lemma ArgsOfSpec(x: Value, env: Resolver)
    requires x.Dict?
    ensures ArgsKey !in Keys(x.entries) ==> ArgsOf(x, env) == Ok([])
    ensures ArgsKey in Keys(x.entries) && ArgsOf(x, env).Ok? ==>
              var a := Get(x.entries, ArgsKey).value;
              IsSequence(a) && |ArgsOf(x, env).value| == |a.items| &&
              forall i :: 0 <= i < |a.items| ==> Build(a.items[i], env) == Ok(ArgsOf(x, env).value[i])
  {
    if ArgsKey in Keys(x.entries) {
      var a := Get(x.entries, ArgsKey).value;
      if IsSequence(a) {
        BuildItemsSpec(a.items, env);
      }
    }
  }

  /** The keyword arguments: none without `kwargs`, else `kwargs` must be a
      dictionary and they have its keys in its order, each value built. */
  lemma KwargsOfSpec(x: Value, env: Resolver)
    requires x.Dict?
    ensures KwargsKey !in Keys(x.entries) ==> KwargsOf(x, env) == Ok([])
    ensures KwargsKey in Keys(x.entries) && KwargsOf(x, env).Ok? ==>
              var k := Get(x.entries, KwargsKey).value;
              k.Dict? && Keys(KwargsOf(x, env).value) == Keys(k.entries) &&
              forall j :: 0 <= j < |k.entries| ==> Build(k.entries[j].value, env) == Ok(KwargsOf(x, env).value[j].value)
  {
    if KwargsKey in Keys(x.entries) {
      var k := Get(x.entries, KwargsKey).value;
      assert KwargsOf(x, env) == BuildKwargs(k, env);
      if k.Dict? {
        var r := BuildEntries(k, 0, env);
        assert KwargsOf(x, env) == r;
        BuildEntriesSpec(k, 0, env);
        if r.Ok? {
          assert Keys(r.value) == Keys(k.entries);
        }
      }
    }
  }

  /** A dictionary with `module` but no `constructor` is a reference: the
      module is imported first, then `method` is read from it, and the
      attribute itself is the result, not called. */
  lemma BuildModuleForm(x: Value, env: Resolver)
    requires x.Dict? && ConstructorKey !in Keys(x.entries) && ModuleKey in Keys(x.entries)
    ensures var m := env.importModule(Get(x.entries, ModuleKey).value);
            m.Err? ==> Build(x, env) == Err(m.error)
    ensures var m := env.importModule(Get(x.entries, ModuleKey).value);
            m.Ok? && MethodKey !in Keys(x.entries) ==> Build(x, env) == Err(KeyError(MethodKey))
    ensures var m := env.importModule(Get(x.entries, ModuleKey).value);
            m.Ok? && MethodKey in Keys(x.entries) ==>
              Build(x, env) == env.getAttr(m.value, Get(x.entries, MethodKey).value)
  {
  }

  /** A dictionary with `choice` but neither `constructor` nor `module`
      builds the chosen option and nothing else; without `options` it
      raises `KeyError`, and so does a choice that is not an option. */
  lemma BuildChoiceForm(x: Value, env: Resolver)
    requires x.Dict? && ConstructorKey !in Keys(x.entries) && ModuleKey !in Keys(x.entries)
    requires ChoiceKey in Keys(x.entries)
    ensures OptionsKey !in Keys(x.entries) ==> Build(x, env) == Err(KeyError(OptionsKey))
    ensures OptionsKey in Keys(x.entries) ==>
              var options, choice := Get(x.entries, OptionsKey).value, Get(x.entries, ChoiceKey).value;
              (Subscript(options, choice).Ok? ==> Build(x, env) == Build(Subscript(options, choice).value, env)) &&
              (Subscript(options, choice).Err? ==> Build(x, env) == Err(Subscript(options, choice).error))
    ensures OptionsKey in Keys(x.entries) ==>
              var options, choice := Get(x.entries, OptionsKey).value, Get(x.entries, ChoiceKey).value;
              options.Dict? && choice !in Keys(options.entries) ==> Build(x, env) == Err(KeyError(choice))
  {
  }

  /** Options that are not chosen are never built: replacing one of them by
      anything at all, even a value whose building fails, leaves the result
      unchanged. */
  lemma ChoiceIgnoresOtherOptions(choice: Value, options: Value, i: nat, w: Value, env: Resolver)
    requires options.Dict? && i < |options.entries| && options.entries[i].key != choice
    ensures var other := Dict(options.entries[i := Entry(options.entries[i].key, w)]);
            Build(Dict([Entry(ChoiceKey, choice), Entry(OptionsKey, options)]), env) ==
            Build(Dict([Entry(ChoiceKey, choice), Entry(OptionsKey, other)]), env)
  {
    var other := Dict(options.entries[i := Entry(options.entries[i].key, w)]);
    SubscriptIgnoresOthers(choice, options, i, w);
    ChoiceFormKeys(choice, options);
    ChoiceFormKeys(choice, other);
    BuildChoiceForm(Dict([Entry(ChoiceKey, choice), Entry(OptionsKey, options)]), env);
    BuildChoiceForm(Dict([Entry(ChoiceKey, choice), Entry(OptionsKey, other)]), env);
  }

  /** The dictionary `{'choice': choice, 'options': options}` holds just
      those two reserved keys. */
  lemma ChoiceFormKeys(choice: Value, options: Value)
    ensures var es := [Entry(ChoiceKey, choice), Entry(OptionsKey, options)];
            && ConstructorKey !in Keys(es) && ModuleKey !in Keys(es)
            && Get(es, ChoiceKey) == Some(choice) && Get(es, OptionsKey) == Some(options)
  {
    var es := [Entry(ChoiceKey, choice), Entry(OptionsKey, options)];
    assert Keys(es) == [ChoiceKey, OptionsKey];
  }

  /** Reading one key of a dictionary does not see the value under another. */
  lemma SubscriptIgnoresOthers(choice: Value, options: Value, i: nat, w: Value)
    requires options.Dict? && i < |options.entries| && options.entries[i].key != choice
    ensures Subscript(Dict(options.entries[i := Entry(options.entries[i].key, w)]), choice) == Subscript(options, choice)
  {
    var other := Dict(options.entries[i := Entry(options.entries[i].key, w)]);
    assert Keys(other.entries) == Keys(options.entries);
    FindSameKeys(other.entries, options.entries, choice);
  }

  /** A tree none of whose dictionaries has a reserved key: plain data and
      objects that are already built. */
  predicate Inert(v: Value)
    decreases v
  {
    match v
    case List(xs) => forall i :: 0 <= i < |xs| ==> Inert(xs[i])
    case Tuple(xs) => forall i :: 0 <= i < |xs| ==> Inert(xs[i])
    case Dict(es) =>
      && ConstructorKey !in Keys(es) && ModuleKey !in Keys(es) && ChoiceKey !in Keys(es)
      && forall i :: 0 <= i < |es| ==> Inert(es[i].value)
    case _ => true
  }

  /** Attribute lookups that only ever yield inert values. */
  ghost predicate InertResolver(env: Resolver) {
    forall m, n :: env.getAttr(m, n).Ok? ==> Inert(env.getAttr(m, n).value)
  }

  /** Building an inert tree returns it unchanged. */
  lemma {:induction false} BuildInert(v: Value, env: Resolver)
    requires Inert(v)
    ensures Build(v, env) == Ok(v)
    decreases v
  {
    match v
    case List(xs) =>
      forall i | 0 <= i < |xs| ensures Build(xs[i], env) == Ok(xs[i]) {
        BuildInert(xs[i], env);
      }
      BuildSequence(v, env);
      assert Build(v, env).value.items == xs;
    case Tuple(xs) =>
      forall i | 0 <= i < |xs| ensures Build(xs[i], env) == Ok(xs[i]) {
        BuildInert(xs[i], env);
      }
      BuildSequence(v, env);
      assert Build(v, env).value.items == xs;
    case Dict(es) =>
      forall i | 0 <= i < |es| ensures Build(es[i].value, env) == Ok(es[i].value) {
        BuildInert(es[i].value, env);
      }
      BuildPlainDict(v, env);
      var out := Build(v, env).value.entries;
      assert forall i :: 0 <= i < |es| ==> out[i].key == Keys(out)[i] == Keys(es)[i] == es[i].key;
      assert out == es;
    case _ =>
  }

  /** Whatever building yields is inert, as long as attribute lookups yield
      inert values. */
  lemma {:induction false} BuildYieldsInert(v: Value, env: Resolver)
    requires InertResolver(env)
    requires Build(v, env).Ok?
    ensures Inert(Build(v, env).value)
    decreases v
  {
    var r := Build(v, env).value;
    match v
    case List(xs) =>
      BuildSequence(v, env);
      forall i | 0 <= i < |xs| ensures Inert(r.items[i]) {
        BuildYieldsInert(xs[i], env);
      }
    case Tuple(xs) =>
      BuildSequence(v, env);
      forall i | 0 <= i < |xs| ensures Inert(r.items[i]) {
        BuildYieldsInert(xs[i], env);
      }
    case Dict(es) =>
      if ConstructorKey in Keys(es) {
        BuildConstructorForm(v, env);
      } else if ModuleKey in Keys(es) {
        BuildModuleForm(v, env);
      } else if ChoiceKey in Keys(es) {
        var o := Find(es, OptionsKey).value;
        var options := es[o].value;
        var j := Position(options, es[Find(es, ChoiceKey).value].value).value;
        BuildYieldsInert(Element(options, j), env);
      } else {
        BuildPlainDict(v, env);
        forall i | 0 <= i < |es| ensures Inert(r.entries[i].value) {
          BuildYieldsInert(es[i].value, env);
        }
      }
    case _ =>
  }

  /** Building twice is building once, as long as attribute lookups yield
      inert values. */
  lemma BuildIdempotent(v: Value, env: Resolver)
    requires InertResolver(env)
    requires Build(v, env).Ok?
    ensures Build(Build(v, env).value, env) == Build(v, env)
  {
    BuildYieldsInert(v, env);
    BuildInert(Build(v, env).value, env);
  }
}
