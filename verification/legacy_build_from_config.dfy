/**
 * The older construction engine of `src/configs`: only a dictionary with
 * `constructor` is built, its constructor taken as it is and its `args` and
 * `kwargs` built recursively. Everything else, lists, tuples and plain
 * dictionaries included, is returned verbatim.
 */
module LegacyConstruction {
  import opened Wrappers
  import opened ConfigTree
  import opened Construction

  /** `build_from_config(x)` of `src/configs`. */
  function LegacyBuild(x: Value): (r: Result<Value, Error>)
    decreases x, 2
    ensures !x.Dict? ==> r == Ok(x)
    ensures x.Dict? && ConstructorKey !in Keys(x.entries) ==> r == Ok(x)
  {
    if x.Dict? && ConstructorKey in Keys(x.entries) then LegacyBuildForm(x) else Ok(x)
  }

  /** The constructor form: the constructor is taken as it is, the
      positional arguments are built before the keyword arguments. */
  function LegacyBuildForm(x: Value): (r: Result<Value, Error>)
    requires x.Dict? && ConstructorKey in Keys(x.entries)
    decreases x, 1
    ensures r.Ok? ==> r.value.Instance? && r.value.ctor == Get(x.entries, ConstructorKey).value &&
                      StringKeys(r.value.kwargs)
  {
    var args :- LegacyArgsOf(x);
    var kwargs :- LegacyKwargsOf(x);
    if StringKeys(kwargs) then Ok(Instance(Get(x.entries, ConstructorKey).value, args, kwargs)) else Err(TypeError)
  }

  /** The positional arguments: none without `args`, else one built
      argument per element of `args`, which must be a list or tuple. */
  function LegacyArgsOf(x: Value): (r: Result<seq<Value>, Error>)
    requires x.Dict?
    decreases x, 0
    ensures Find(x.entries, ArgsKey).None? ==> r == Ok([])
    ensures Find(x.entries, ArgsKey).Some? ==>
              var args := x.entries[Find(x.entries, ArgsKey).value].value;
              (!IsSequence(args) ==> r == Err(TypeError)) && (r.Ok? ==> |r.value| == |args.items|)
  {
    match Find(x.entries, ArgsKey)
    case None => Ok([])
    case Some(a) =>
      var args := x.entries[a].value;
      if IsSequence(args) then LegacyBuildItems(args.items) else Err(TypeError)
  }

  /** The keyword arguments: none without `kwargs`, else the keys of
      `kwargs`, which must be a dictionary, each with its value built. */
  function LegacyKwargsOf(x: Value): (r: Result<seq<Entry>, Error>)
    requires x.Dict?
    decreases x, 0
    ensures Find(x.entries, KwargsKey).None? ==> r == Ok([])
    ensures Find(x.entries, KwargsKey).Some? ==>
              var kwargs := x.entries[Find(x.entries, KwargsKey).value].value;
              (!kwargs.Dict? ==> r == Err(AttributeError)) && (r.Ok? ==> |r.value| == |kwargs.entries|)
  {
    match Find(x.entries, KwargsKey)
    case None => Ok([])
    case Some(k) =>
      var kwargs := x.entries[k].value;
      if kwargs.Dict? then LegacyBuildEntries(kwargs, 0) else Err(AttributeError)
  }

  function LegacyBuildItems(xs: seq<Value>): (r: Result<seq<Value>, Error>)
    decreases xs
    ensures r.Ok? ==> |r.value| == |xs|
  {
    if |xs| == 0 then Ok([])
    else
      var y :- LegacyBuild(xs[0]);
      var ys :- LegacyBuildItems(xs[1..]);
      Ok([y] + ys)
  }

  function LegacyBuildEntries(d: Value, i: nat): (r: Result<seq<Entry>, Error>)
    requires d.Dict? && i <= |d.entries|
    decreases d, 0, |d.entries| - i
    ensures r.Ok? ==> |r.value| == |d.entries| - i
    ensures r.Ok? ==> forall j :: 0 <= j < |r.value| ==> r.value[j].key == d.entries[i + j].key
  {
    if i == |d.entries| then Ok([])
    else
      var e := d.entries[i];
      var v :- LegacyBuild(e.value);
      var rest :- LegacyBuildEntries(d, i + 1);
      Ok([Entry(e.key, v)] + rest)
  }
}

module LegacyConstructionLaws {
  import opened Wrappers
  import opened ConfigTree
  import opened Construction
  import opened ConstructionLaws
  import opened LegacyConstruction

  /** Arguments are built left to right, each from the element at its
      position; the first failure wins. */
  lemma {:induction false} LegacyItemsSpec(xs: seq<Value>)
    ensures LegacyBuildItems(xs).Ok? <==> forall i :: 0 <= i < |xs| ==> LegacyBuild(xs[i]).Ok?
    ensures LegacyBuildItems(xs).Ok? ==>
              forall i :: 0 <= i < |xs| ==> LegacyBuildItems(xs).value[i] == LegacyBuild(xs[i]).value
    decreases |xs|
  {
    if |xs| > 0 {
      LegacyItemsSpec(xs[1..]);
      assert forall i :: 1 <= i < |xs| ==> xs[1..][i - 1] == xs[i];
    }
  }

  lemma {:induction false} LegacyEntriesSpec(d: Value, i: nat)
    requires d.Dict? && i <= |d.entries|
    ensures var r := LegacyBuildEntries(d, i);
            r.Ok? <==> forall j :: i <= j < |d.entries| ==> LegacyBuild(d.entries[j].value).Ok?
    ensures var r := LegacyBuildEntries(d, i);
            r.Ok? ==> forall j :: 0 <= j < |r.value| ==> r.value[j].value == LegacyBuild(d.entries[i + j].value).value
    decreases |d.entries| - i
  {
    LegacyEntriesOk(d, i);
    if i < |d.entries| {
      LegacyEntriesSpec(d, i + 1);
      var head, rest := LegacyBuild(d.entries[i].value), LegacyBuildEntries(d, i + 1);
      LegacyEntriesCons(d, i);
      if head.Ok? && rest.Ok? {
        var r := LegacyBuildEntries(d, i);
        forall j | 0 <= j < |r.value|
          ensures r.value[j].value == LegacyBuild(d.entries[i + j].value).value
        {
          if j > 0 {
            assert r.value[j] == rest.value[j - 1];
          }
        }
      }
    }
  }

  /** Keyword values from position `i` on build exactly when each of them does. */
  lemma {:induction false} LegacyEntriesOk(d: Value, i: nat)
    requires d.Dict? && i <= |d.entries|
    ensures LegacyBuildEntries(d, i).Ok? <==> forall j :: i <= j < |d.entries| ==> LegacyBuild(d.entries[j].value).Ok?
    decreases |d.entries| - i
  {
    if i < |d.entries| {
      LegacyEntriesOk(d, i + 1);
      LegacyEntriesCons(d, i);
    }
  }

  /** One step of building keyword values: when the first value and the
      rest build, the first entry is the first value built, followed by the
      rest; otherwise the step fails. */
  lemma LegacyEntriesCons(d: Value, i: nat)
    requires d.Dict? && i < |d.entries|
    ensures LegacyBuild(d.entries[i].value).Ok? && LegacyBuildEntries(d, i + 1).Ok? ==>
              LegacyBuildEntries(d, i) ==
                Ok([Entry(d.entries[i].key, LegacyBuild(d.entries[i].value).value)] + LegacyBuildEntries(d, i + 1).value)
    ensures LegacyBuildEntries(d, i).Ok? ==> LegacyBuild(d.entries[i].value).Ok? && LegacyBuildEntries(d, i + 1).Ok?
  {
  }

  /** A constructor form: the positional arguments are built before the
      keyword arguments, the first failure wins, and keyword names must be
      strings. */
  lemma LegacyConstructorEquation(x: Value)
    requires x.Dict? && ConstructorKey in Keys(x.entries)
    ensures var args, kwargs := LegacyArgsOf(x), LegacyKwargsOf(x);
            LegacyBuild(x) ==
              if args.Err? then Err(args.error)
              else if kwargs.Err? then Err(kwargs.error)
              else if !StringKeys(kwargs.value) then Err(TypeError)
              else Ok(Instance(Get(x.entries, ConstructorKey).value, args.value, kwargs.value))
  {
  }

  /** The positional arguments: none without `args`, else `args` must be a
      list or tuple and each argument is built from the element at its
      position. */
  lemma LegacyArgsOfSpec(x: Value)
    requires x.Dict?
    ensures ArgsKey !in Keys(x.entries) ==> LegacyArgsOf(x) == Ok([])
    ensures ArgsKey in Keys(x.entries) && LegacyArgsOf(x).Ok? ==>
              var a := Get(x.entries, ArgsKey).value;
              IsSequence(a) && |LegacyArgsOf(x).value| == |a.items| &&
              forall i :: 0 <= i < |a.items| ==> LegacyBuild(a.items[i]) == Ok(LegacyArgsOf(x).value[i])
  {
    if ArgsKey in Keys(x.entries) {
      var a := Get(x.entries, ArgsKey).value;
      if IsSequence(a) {
        LegacyItemsSpec(a.items);
      }
    }
  }

  /** The keyword arguments: none without `kwargs`, else `kwargs` must be a
      dictionary and they have its keys in its order, each value built. */
  lemma LegacyKwargsOfSpec(x: Value)
    requires x.Dict?
    ensures KwargsKey !in Keys(x.entries) ==> LegacyKwargsOf(x) == Ok([])
    ensures KwargsKey in Keys(x.entries) && LegacyKwargsOf(x).Ok? ==>
              var k := Get(x.entries, KwargsKey).value;
              k.Dict? && Keys(LegacyKwargsOf(x).value) == Keys(k.entries) &&
              forall j :: 0 <= j < |k.entries| ==> LegacyBuild(k.entries[j].value) == Ok(LegacyKwargsOf(x).value[j].value)
  {
    var r := LegacyKwargsOf(x);
    if KwargsKey in Keys(x.entries) && r.Ok? {
      var k := x.entries[Find(x.entries, KwargsKey).value].value;
      assert Get(x.entries, KwargsKey) == Some(k);
      assert k.Dict? && r == LegacyBuildEntries(k, 0);
      LegacyKwargsBuilt(k);
    }
  }

  /** Building a whole keyword dict keeps its keys and builds each value. */
  lemma LegacyKwargsBuilt(k: Value)
    requires k.Dict? && LegacyBuildEntries(k, 0).Ok?
    ensures Keys(LegacyBuildEntries(k, 0).value) == Keys(k.entries)
    ensures forall j :: 0 <= j < |k.entries| ==> LegacyBuild(k.entries[j].value) == Ok(LegacyBuildEntries(k, 0).value[j].value)
  {
    var r := LegacyBuildEntries(k, 0).value;
    LegacyEntriesSpec(k, 0);
    forall j | 0 <= j < |k.entries|
      ensures LegacyBuild(k.entries[j].value) == Ok(r[j].value)
      ensures Keys(r)[j] == Keys(k.entries)[j]
    {
      assert k.entries[0 + j] == k.entries[j];
    }
    assert Keys(r) == Keys(k.entries);
  }

  /** The configurations the two engines were both written for: a
      constructor form whose constructor is inert and whose arguments are
      such configurations again, or an inert value. */
  predicate Classic(v: Value)
    decreases v
  {
    if v.Dict? && ConstructorKey in Keys(v.entries) then
      var es := v.entries;
      && Inert(es[Find(es, ConstructorKey).value].value)
      && (match Find(es, ArgsKey)
          case None => true
          case Some(a) =>
            IsSequence(es[a].value) &&
            forall i :: 0 <= i < |es[a].value.items| ==> Classic(es[a].value.items[i]))
      && (match Find(es, KwargsKey)
          case None => true
          case Some(k) =>
            es[k].value.Dict? &&
            forall j :: 0 <= j < |es[k].value.entries| ==> Classic(es[k].value.entries[j].value))
    else Inert(v)
  }

  lemma {:induction false} ItemsAgree(xs: seq<Value>, env: Resolver)
    requires forall i :: 0 <= i < |xs| ==> Build(xs[i], env) == LegacyBuild(xs[i])
    ensures BuildItems(xs, env) == LegacyBuildItems(xs)
    decreases |xs|
  {
    if |xs| > 0 {
      assert forall i :: 0 <= i < |xs[1..]| ==> xs[1..][i] == xs[i + 1];
      ItemsAgree(xs[1..], env);
    }
  }

  lemma {:induction false} EntriesAgree(d: Value, i: nat, env: Resolver)
    requires d.Dict? && i <= |d.entries|
    requires forall j :: i <= j < |d.entries| ==> Build(d.entries[j].value, env) == LegacyBuild(d.entries[j].value)
    ensures BuildEntries(d, i, env) == LegacyBuildEntries(d, i)
    decreases |d.entries| - i
  {
    if i < |d.entries| {
      EntriesAgree(d, i + 1, env);
    }
  }

  /** On classic configurations the two engines agree, whatever the
      resolver: they differ only on lists, tuples and plain dictionaries
      that contain reserved keys, and on constructors that are themselves
      configurations. */
  lemma {:induction false} EnginesAgreeOnClassic(v: Value, env: Resolver)
    requires Classic(v)
    ensures Build(v, env) == LegacyBuild(v)
    decreases v
  {
    if v.Dict? && ConstructorKey in Keys(v.entries) {
      var es := v.entries;
      BuildInert(es[Find(es, ConstructorKey).value].value, env);
      BuildConstructorForm(v, env);
      LegacyConstructorEquation(v);
      match Find(es, ArgsKey) {
        case None =>
        case Some(a) =>
          var xs := es[a].value.items;
          forall i | 0 <= i < |xs| ensures Build(xs[i], env) == LegacyBuild(xs[i]) {
            EnginesAgreeOnClassic(xs[i], env);
          }
          ItemsAgree(xs, env);
      }
      assert ArgsOf(v, env) == LegacyArgsOf(v);
      match Find(es, KwargsKey) {
        case None =>
        case Some(k) =>
          var kw := es[k].value;
          forall j | 0 <= j < |kw.entries| ensures Build(kw.entries[j].value, env) == LegacyBuild(kw.entries[j].value) {
            EnginesAgreeOnClassic(kw.entries[j].value, env);
          }
          EntriesAgree(kw, 0, env);
      }
      assert KwargsOf(v, env) == LegacyKwargsOf(v);
    } else {
      BuildInert(v, env);
    }
  }

  /** Where they part: a constructor form inside a plain dictionary, a list
      or a constructor position is built by the newer engine and returned
      verbatim by the older one. */
  lemma EnginesDiverge(ctor: Value, env: Resolver)
    requires ctor.Scalar?
    ensures var form := Dict([Entry(ConstructorKey, ctor)]);
            var nested := Dict([Entry(Str("a"), form)]);
            && Build(nested, env) == Ok(Dict([Entry(Str("a"), Instance(ctor, [], []))]))
            && LegacyBuild(nested) == Ok(nested)
            && Build(List([form]), env) == Ok(List([Instance(ctor, [], [])]))
            && LegacyBuild(List([form])) == Ok(List([form]))
            && Build(Dict([Entry(ConstructorKey, form)]), env) == Ok(Instance(Instance(ctor, [], []), [], []))
            && LegacyBuild(Dict([Entry(ConstructorKey, form)])) == Ok(Instance(form, [], []))
  {
    var form := Dict([Entry(ConstructorKey, ctor)]);
    var built := Instance(ctor, [], []);
    assert Keys(form.entries) == [ConstructorKey];
    assert Find(form.entries, ArgsKey).None? && Find(form.entries, KwargsKey).None?;
    BuildConstructorForm(form, env);
    assert Build(form, env) == Ok(built);
    var nested := Dict([Entry(Str("a"), form)]);
    assert Keys(nested.entries) == [Str("a")];
    BuildPlainDict(nested, env);
    var out := Build(nested, env).value.entries;
    assert out[0].key == Keys(out)[0] == Str("a");
    assert out == [Entry(Str("a"), built)];
    BuildSequence(List([form]), env);
    assert Build(List([form]), env).value.items == [built];
    var outer := Dict([Entry(ConstructorKey, form)]);
    assert Keys(outer.entries) == [ConstructorKey];
    assert Find(outer.entries, ArgsKey).None? && Find(outer.entries, KwargsKey).None?;
    BuildConstructorForm(outer, env);
    LegacyConstructorEquation(outer);
  }
}
